/**
 * The `Base64` object of the configuration page: a text codec over UTF-16 code units, written as
 * loops over character codes. `charCodeAt` past the end is NaN, which the bit operators take as 0;
 * `charAt` past the end is the empty string, which `indexOf` finds at 0.
 */
module ConfigBase64 {
  import opened Options
  import opened Base64

  type Unit = u: int | 0 <= u < 0x10000

  // The operators of the language

  /** Bitwise or of two non-negative numbers, bit by bit. */
  function Or(x: nat, y: nat): nat {
    if x == 0 && y == 0 then 0
    else 2 * Or(x / 2, y / 2) + (if x % 2 == 1 || y % 2 == 1 then 1 else 0)
  }

  function FromCharCode(code: int): Unit {
    code % 0x10000
  }

  function CharCodeAt(text: seq<Unit>, i: nat): Option<Unit> {
    if i < |text| then Some(text[i]) else None
  }

  /** A character code as an operand of a bit operator. */
  function Bits(code: Option<Unit>): nat {
    if code.Some? then code.value else 0
  }

  /** `_keyStr.charAt`: the alphabet, with the pad character at 64. */
  function KeyChar(index: nat): seq<Unit> {
    if index < 64 then [Symbol(index)] else if index == 64 then [PAD] else []
  }

  predicate InKey(code: int) {
    code == PAD || ValueOf(code).Some?
  }

  /** `_keyStr.indexOf` of the character at `i`, in a text that has key characters only. */
  function KeyIndex(text: seq<Unit>, i: nat): nat
    requires forall k :: 0 <= k < |text| ==> InKey(text[k])
  {
    if i >= |text| then 0
    else
      var value := ValueOf(text[i]);
      if value.Some? then value.value else 64
  }

  /** `replace(/[^A-Za-z0-9+/=]/g, "")`. */
  function KeyCharsOf(text: seq<Unit>): (kept: seq<Unit>)
    ensures forall k :: 0 <= k < |kept| ==> InKey(kept[k])
  {
    if text == [] then []
    else (if InKey(text[0]) then [text[0]] else []) + KeyCharsOf(text[1..])
  }

  /** `replace(/rn/g, "n")`. */
  function JoinRn(text: seq<Unit>): seq<Unit> {
    if text == [] then []
    else if StartsWithRn(text) then [110] + JoinRn(text[2..])
    else [text[0]] + JoinRn(text[1..])
  }

  predicate StartsWithRn(text: seq<Unit>) {
    |text| >= 2 && text[0] == 114 && text[1] == 110
  }

  /** Only texts without "rn" come through the replacement unchanged. */
  lemma {:induction false} UnchangedExactlyWithoutRn(text: seq<Unit>)
    ensures |JoinRn(text)| <= |text|
    ensures JoinRn(text) == text <==> forall i :: 0 <= i < |text| ==> !StartsWithRn(text[i..])
  {
    if text != [] {
      assert text[0..] == text;
      if StartsWithRn(text) {
        UnchangedExactlyWithoutRn(text[2..]);
      } else {
        UnchangedExactlyWithoutRn(text[1..]);
        assert forall i :: 1 <= i < |text| ==> text[i..] == text[1..][i - 1..];
        assert forall i :: 0 <= i < |text| - 1 ==> text[1..][i..] == text[i + 1..];
        if JoinRn(text) == text {
          assert JoinRn(text[1..]) == JoinRn(text)[1..];
        }
      }
    }
  }

  /** Every "rn" becomes "n", wherever it stands. */
  lemma {:induction false} JoinRnReplaces(front: seq<Unit>, back: seq<Unit>)
    ensures JoinRn(front + [114, 110] + back) == JoinRn(front) + [110] + JoinRn(back)
    decreases |front|
  {
    var text := front + [114, 110] + back;
    if front == [] {
      assert text[2..] == back;
    } else if StartsWithRn(front) {
      assert text[2..] == front[2..] + [114, 110] + back;
      JoinRnReplaces(front[2..], back);
    } else {
      assert text[1..] == front[1..] + [114, 110] + back;
      assert !StartsWithRn(text);
      JoinRnReplaces(front[1..], back);
    }
  }

  // UTF-8 of single code units

  function Utf8Unit(unit: Unit): seq<Byte> {
    if unit < 128 then [unit]
    else if unit < 2048 then [unit / 64 + 192, unit % 64 + 128]
    else [unit / 4096 + 224, unit / 64 % 64 + 128, unit % 64 + 128]
  }

  /** One to three bytes, as section 3 of RFC 3629 lays them out: the marker bits, and six bits a byte behind the first. */
  lemma Utf8UnitIs(unit: Unit)
    ensures var bytes := Utf8Unit(unit);
            && (unit < 0x80 ==> bytes == [unit])
            && (0x80 <= unit < 0x800 ==>
                  && |bytes| == 2 && 0xc0 <= bytes[0] < 0xe0 && 0x80 <= bytes[1] < 0xc0
                  && (bytes[0] as int - 0xc0) * 0x40 + (bytes[1] as int - 0x80) == unit)
            && (0x800 <= unit ==>
                  && |bytes| == 3 && 0xe0 <= bytes[0] < 0xf0 && 0x80 <= bytes[1] < 0xc0 && 0x80 <= bytes[2] < 0xc0
                  && (bytes[0] as int - 0xe0) * 0x1000 + (bytes[1] as int - 0x80) * 0x40 + (bytes[2] as int - 0x80) == unit)
  {
  }

  function Utf8(text: seq<Unit>): seq<Byte> {
    if text == [] then [] else Utf8(text[..|text| - 1]) + Utf8Unit(text[|text| - 1])
  }

  /** The page's own UTF-8: one to three bytes for each unit of the text with every "rn" joined. */
  method Utf8Encode(e: seq<Unit>) returns (t: seq<Byte>)
    ensures t == Utf8(JoinRn(e))
  {
    hide Utf8, Or;
    var text := JoinRn(e);
    t := [];
    Utf8Nothing();
    for n := 0 to |text|
      invariant t == Utf8(text[..n])
    {
      ghost var before := t;
      var r := text[n];
      if r < 128 {
        t := t + [r];
      } else if r > 127 && r < 2048 {
        MarkersAdd(r / 64, r % 64, 192);
        t := t + [Or(r / 64, 192)];
        t := t + [Or(r % 64, 128)];
      } else {
        MarkersAdd(r / 4096, r / 64 % 64, 224);
        MarkersAdd(r / 4096, r % 64, 224);
        t := t + [Or(r / 4096, 224)];
        t := t + [Or(r / 64 % 64, 128)];
        t := t + [Or(r % 64, 128)];
      }
      assert t == before + Utf8Unit(r);
      Utf8Next(text, n, n + 1);
    }
    assert text[..|text|] == text;
  }

  /** The marker of a byte has no bit in common with what it marks. */
  lemma MarkersAdd(lead: nat, rest: nat, marker: nat)
    requires (marker == 192 && lead < 32) || (marker == 224 && lead < 16)
    requires rest < 64
    ensures Or(lead, marker) == lead + marker && Or(rest, 128) == rest + 128
  {
    hide Or;
    assert Pow2(1) == 2 && Pow2(2) == 4 && Pow2(3) == 8 && Pow2(4) == 16 && Pow2(5) == 32 && Pow2(6) == 64;
    OrCommutes(lead, marker);
    OrCommutes(rest, 128);
    OrOfDisjoint(2, rest, 6, 128);
    if marker == 192 {
      OrOfDisjoint(6, lead, 5, 192);
    } else {
      OrOfDisjoint(14, lead, 4, 224);
    }
  }

  lemma {:induction false} OrCommutes(x: nat, y: nat)
    ensures Or(x, y) == Or(y, x)
  {
    if x > 0 || y > 0 {
      OrCommutes(x / 2, y / 2);
    }
  }

  lemma Utf8Next(text: seq<Unit>, n: nat, next: nat)
    requires n < |text| && next == n + 1
    ensures Utf8(text[..next]) == Utf8(text[..n]) + Utf8Unit(text[n])
  {
    assert text[..next][..n] == text[..n];
  }

  lemma Utf8Nothing()
    ensures Utf8([]) == []
  {
  }

  function Masked(text: seq<Unit>, i: nat): nat {
    Bits(CharCodeAt(text, i)) % 64
  }

  /** How many units one round of `_utf8_decode` takes, and what it makes of them. */
  function Taken(text: seq<Unit>): nat
    requires text != []
  {
    if text[0] < 128 then 1 else if 191 < text[0] < 224 then 2 else 3
  }

  function FirstDecoded(text: seq<Unit>): Unit
    requires text != []
  {
    if text[0] < 128 then text[0]
    else if 191 < text[0] < 224 then text[0] % 32 * 64 + Masked(text, 1)
    else text[0] % 16 * 4096 + Masked(text, 1) * 64 + Masked(text, 2)
  }

  /** What is left of a text from an index that may be past its end. */
  function From<T>(text: seq<T>, i: nat): (rest: seq<T>)
    ensures |rest| == if i < |text| then |text| - i else 0
  {
    if i < |text| then text[i..] else []
  }

  lemma FromFrom<T>(text: seq<T>, i: nat, k: nat, sum: nat)
    requires i < |text| && sum == i + k
    ensures From(From(text, i), k) == From(text, sum)
  {
  }

  function FromUtf8(text: seq<Unit>): seq<Unit>
    decreases |text|
  {
    if text == [] then [] else [FirstDecoded(text)] + FromUtf8(From(text, Taken(text)))
  }

  method Utf8Decode(e: seq<Unit>) returns (t: seq<Unit>)
    ensures t == FromUtf8(e)
  {
    hide FromUtf8, Or, Taken, FirstDecoded, FromCharCode;
    t := [];
    var n := 0;
    assert From(e, 0) == e;
    while n < |e|
      invariant t + FromUtf8(From(e, n)) == FromUtf8(e)
      decreases |e| - n
    {
      ghost var before, m := t, n;
      var r := e[n];
      FirstIs(e, n);
      if r < 128 {
        t := t + [FromCharCode(r)];
        n := n + 1;
      } else if r > 191 && r < 224 {
        var c2 := CharCodeAt(e, n + 1);
        CodeAdds(r, Bits(c2), 0);
        t := t + [FromCharCode(Or(r % 32 * 64, Bits(c2) % 64))];
        n := n + 2;
      } else {
        var c2 := CharCodeAt(e, n + 1);
        var c3 := CharCodeAt(e, n + 2);
        CodeAdds(r, Bits(c2), Bits(c3));
        t := t + [FromCharCode(Or(Or(r % 16 * 4096, Bits(c2) % 64 * 64), Bits(c3) % 64))];
        n := n + 3;
      }
      assert n == m + Taken(From(e, m)) && t == before + [FirstDecoded(From(e, m))];
      FromUtf8Step(e, m, n, before);
    }
    FromUtf8Empty();
  }

  lemma FirstIs(e: seq<Unit>, n: nat)
    requires n < |e|
    ensures var r, c2, c3 := e[n], Bits(CharCodeAt(e, n + 1)) % 64, Bits(CharCodeAt(e, n + 2)) % 64;
            && Taken(From(e, n)) == (if r < 128 then 1 else if 191 < r < 224 then 2 else 3)
            && FirstDecoded(From(e, n)) == FromCharCode(if r < 128 then r else if 191 < r < 224 then r % 32 * 64 + c2
                                                        else r % 16 * 4096 + c2 * 64 + c3)
  {
  }

  lemma CodeAdds(r: nat, c2: nat, c3: nat)
    ensures Or(r % 32 * 64, c2 % 64) == r % 32 * 64 + c2 % 64
    ensures Or(Or(r % 16 * 4096, c2 % 64 * 64), c3 % 64) == r % 16 * 4096 + c2 % 64 * 64 + c3 % 64
  {
    hide Or;
    assert Pow2(1) == 2 && Pow2(2) == 4 && Pow2(3) == 8 && Pow2(4) == 16 && Pow2(5) == 32 && Pow2(6) == 64;
    assert Pow2(7) == 128 && Pow2(8) == 256 && Pow2(9) == 512 && Pow2(10) == 1024 && Pow2(11) == 2048 && Pow2(12) == 4096;
    OrOfDisjoint(r % 32, c2 % 64, 6, r % 32 * 64);
    OrOfDisjoint(r % 16, c2 % 64 * 64, 12, r % 16 * 4096);
    OrOfDisjoint(r % 16 * 64 + c2 % 64, c3 % 64, 6, r % 16 * 4096 + c2 % 64 * 64);
  }

  lemma FromUtf8Step(e: seq<Unit>, m: nat, n: nat, before: seq<Unit>)
    requires m < |e| && n == m + Taken(From(e, m))
    ensures before + FromUtf8(From(e, m)) == before + [FirstDecoded(From(e, m))] + FromUtf8(From(e, n))
  {
    FromFrom(e, m, Taken(From(e, m)), n);
  }

  lemma FromUtf8Empty()
    ensures FromUtf8([]) == []
  {
  }

  lemma UnitInverts(unit: Unit, rest: seq<Unit>)
    ensures Taken(Utf8Unit(unit) + rest) == |Utf8Unit(unit)|
    ensures FirstDecoded(Utf8Unit(unit) + rest) == unit
  {
    var text := Utf8Unit(unit) + rest;
    if unit < 128 {
    } else if unit < 2048 {
      assert Masked(text, 1) == text[1] % 64;
      SixBits(unit / 64, 192, 32);
      SixBits(unit % 64, 128, 64);
    } else {
      assert Masked(text, 1) == text[1] % 64 && Masked(text, 2) == text[2] % 64;
      SixBits(unit / 4096, 224, 16);
      SixBits(unit / 64 % 64, 128, 64);
      SixBits(unit % 64, 128, 64);
      assert unit / 64 / 64 == unit / 4096;
    }
  }

  /** The marker bits of a UTF-8 byte are masked off again. */
  lemma SixBits(value: nat, marker: nat, mask: nat)
    requires (mask == 16 && marker == 224) || (mask == 32 && marker == 192) || (mask == 64 && marker == 128)
    requires value < mask
    ensures (value + marker) % mask == value
  {
  }

  lemma {:induction false} Utf8Front(text: seq<Unit>)
    requires text != []
    ensures Utf8(text) == Utf8Unit(text[0]) + Utf8(text[1..])
  {
    hide Utf8Unit;
    if |text| > 1 {
      var n := |text| - 1;
      Utf8Front(text[..n]);
      assert text[..n][1..] == text[1..][..n - 1];
    } else {
      assert text[..0] == [] && text[1..] == [];
    }
  }

  /** Decoding undoes encoding on every text, lone surrogates included. */
  lemma {:induction false} Utf8Inverts(text: seq<Unit>)
    ensures FromUtf8(Utf8(text)) == text
  {
    hide Utf8Unit, Taken, FirstDecoded;
    if text != [] {
      var first, rest := Utf8Unit(text[0]), Utf8(text[1..]);
      Utf8Front(text);
      UnitInverts(text[0], rest);
      UnitIsNotEmpty(text[0]);
      Utf8Inverts(text[1..]);
      assert From(first + rest, |first|) == rest;
    }
  }

  lemma UnitIsNotEmpty(unit: Unit)
    ensures Utf8Unit(unit) != []
  {
  }

  // Base64

  /** The four indices that `encode` computes from three character codes, the last two maybe NaN. */
  function KeyChars(n: Option<Unit>, r: Option<Unit>, i: Option<Unit>): seq<Unit> {
    KeyChar(Bits(n) / 4) + KeyChar(Bits(n) % 4 * 16 + Bits(r) / 16)
    + KeyChar(if r.None? then 64 else Bits(r) % 16 * 4 + Bits(i) / 64)
    + KeyChar(if r.None? || i.None? then 64 else Bits(i) % 64)
  }

  lemma KeyCharsAreQuantum(bytes: seq<Byte>)
    requires bytes != []
    ensures KeyChars(CharCodeAt(bytes, 0), CharCodeAt(bytes, 1), CharCodeAt(bytes, 2)) == FirstQuantum(bytes)
  {
    hide Symbol, KeyChar, Quantum;
    var x: nat, y: nat, z: nat := bytes[0], Bits(CharCodeAt(bytes, 1)), Bits(CharCodeAt(bytes, 2));
    QuantumKeys(x, y, z);
  }

  lemma QuantumKeys(x: nat, y: nat, z: nat)
    requires x < 256 && y < 256 && z < 256
    ensures KeyChar(x / 4) == [Quantum(x, y, z)[0]] && KeyChar(x % 4 * 16 + y / 16) == [Quantum(x, y, z)[1]]
    ensures KeyChar(y % 16 * 4 + z / 64) == [Quantum(x, y, z)[2]] && KeyChar(z % 64) == [Quantum(x, y, z)[3]]
    ensures KeyChar(64) == [PAD]
  {
    hide Symbol;
    GroupDigits(x * 65536 + y * 256 + z, x / 4, x % 4 * 16 + y / 16, y % 16 * 4 + z / 64, z % 64);
  }

  /** `encode` is the Base64 of RFC 4648, over the UTF-8 of the text with every "rn" joined. */
  method Encode(e: seq<Unit>) returns (t: seq<Unit>)
    ensures t == Base64.Encode(Utf8(JoinRn(e)))
  {
    hide KeyChar, FirstQuantum, Base64.Encode, Utf8, JoinRn, Or;
    var bytes := Utf8Encode(e);
    t := [];
    var f := 0;
    assert From(bytes, 0) == bytes;
    while f < |bytes|
      invariant t + Base64.Encode(From(bytes, f)) == Base64.Encode(bytes)
      decreases |bytes| - f
    {
      ghost var before := t;
      var n := CharCodeAt(bytes, f);
      var r := CharCodeAt(bytes, f + 1);
      var i := CharCodeAt(bytes, f + 2);
      var s := Bits(n) / 4;
      var o := Or(Bits(n) % 4 * 16, Bits(r) / 16);
      var u := Or(Bits(r) % 16 * 4, Bits(i) / 64);
      IndicesAdd(bytes, f);
      var a := Bits(i) % 64;
      if r.None? {
        u, a := 64, 64;
      } else if i.None? {
        a := 64;
      }
      t := t + KeyChar(s) + KeyChar(o) + KeyChar(u) + KeyChar(a);
      assert t == before + KeyChars(n, r, i);
      EncodeStep(bytes, f, f + 3, before);
      f := f + 3;
    }
    EncodeNothing();
  }

  lemma IndicesAdd(bytes: seq<Byte>, f: nat)
    ensures var n, r, i := Bits(CharCodeAt(bytes, f)), Bits(CharCodeAt(bytes, f + 1)), Bits(CharCodeAt(bytes, f + 2));
            && Or(n % 4 * 16, r / 16) == n % 4 * 16 + r / 16
            && Or(r % 16 * 4, i / 64) == r % 16 * 4 + i / 64
  {
    hide Or;
    assert Pow2(1) == 2 && Pow2(2) == 4 && Pow2(3) == 8 && Pow2(4) == 16;
    var n, r, i := Bits(CharCodeAt(bytes, f)), Bits(CharCodeAt(bytes, f + 1)), Bits(CharCodeAt(bytes, f + 2));
    OrOfDisjoint(n % 4, r / 16, 4, n % 4 * 16);
    OrOfDisjoint(r % 16, i / 64, 2, r % 16 * 4);
  }

  lemma EncodeStep(bytes: seq<Byte>, f: nat, next: nat, before: seq<Unit>)
    requires f < |bytes| && next == f + 3
    ensures before + Base64.Encode(From(bytes, f))
         == before + KeyChars(CharCodeAt(bytes, f), CharCodeAt(bytes, f + 1), CharCodeAt(bytes, f + 2))
            + Base64.Encode(From(bytes, next))
  {
    hide KeyChars, FirstQuantum;
    var rest := From(bytes, f);
    KeyCharsAreQuantum(rest);
    assert CharCodeAt(rest, 0) == CharCodeAt(bytes, f) && CharCodeAt(rest, 1) == CharCodeAt(bytes, f + 1)
        && CharCodeAt(rest, 2) == CharCodeAt(bytes, f + 2);
    assert From(bytes, next) == rest[if |rest| < 3 then |rest| else 3..];
  }

  /** What `decode` appends for four indices, of which 64 stands for the pad character. */
  function CodesOf(s: nat, o: nat, u: nat, a: nat): seq<Unit> {
    [FromCharCode(Or(s * 4, o / 16))]
    + (if u != 64 then [FromCharCode(Or(o % 16 * 16, u / 4))] else [])
    + (if a != 64 then [FromCharCode(Or(u % 4 * 64, a))] else [])
  }

  function Decoded(text: seq<Unit>): seq<Unit>
    requires forall k :: 0 <= k < |text| ==> InKey(text[k])
    decreases |text|
  {
    if text == [] then []
    else
      CodesOf(KeyIndex(text, 0), KeyIndex(text, 1), KeyIndex(text, 2), KeyIndex(text, 3))
      + Decoded(From(text, 4))
  }

  method Decode(e: seq<Unit>) returns (t: seq<Unit>)
    ensures t == FromUtf8(Decoded(KeyCharsOf(e)))
  {
    hide InKey, Or, Decoded, KeyIndex;
    var text := KeyCharsOf(e);
    t := [];
    var f := 0;
    assert From(text, 0) == text;
    while f < |text|
      invariant forall k :: 0 <= k < |From(text, f)| ==> InKey(From(text, f)[k])
      invariant t + Decoded(From(text, f)) == Decoded(text)
      decreases |text| - f
    {
      ghost var before := t;
      var s := KeyIndex(text, f);
      var o := KeyIndex(text, f + 1);
      var u := KeyIndex(text, f + 2);
      var a := KeyIndex(text, f + 3);
      var n := Or(s * 4, o / 16);
      var r := Or(o % 16 * 16, u / 4);
      var i := Or(u % 4 * 64, a);
      t := t + [FromCharCode(n)];
      if u != 64 {
        t := t + [FromCharCode(r)];
      }
      if a != 64 {
        t := t + [FromCharCode(i)];
      }
      assert t == before + CodesOf(s, o, u, a);
      DecodedStep(text, f, f + 4, before);
      f := f + 4;
    }
    DecodedNothing();
    assert From(text, f) == [];
    assert t == t + [] == Decoded(text);
    t := Utf8Decode(t);
  }

  lemma DecodedStep(text: seq<Unit>, f: nat, next: nat, before: seq<Unit>)
    requires f < |text| && next == f + 4
    requires forall k :: 0 <= k < |text| ==> InKey(text[k])
    ensures forall k :: 0 <= k < |From(text, f)| ==> InKey(From(text, f)[k])
    ensures forall k :: 0 <= k < |From(text, next)| ==> InKey(From(text, next)[k])
    ensures before + Decoded(From(text, f))
         == before + CodesOf(KeyIndex(text, f), KeyIndex(text, f + 1), KeyIndex(text, f + 2), KeyIndex(text, f + 3))
            + Decoded(From(text, next))
  {
    hide InKey, CodesOf;
    FromFrom(text, f, 4, next);
    assert forall k :: 0 <= k < |From(text, f)| ==> From(text, f)[k] == text[f + k];
    assert forall k :: 0 <= k < |From(text, next)| ==> From(text, next)[k] == text[next + k];
  }

  /** Characters that are missing from the last group read as "A", which stands for no bits. */
  lemma {:induction false} MissingReadsAsA(text: seq<Unit>, missing: seq<Unit>, padded: seq<Unit>)
    requires padded == text + missing && text != [] && |padded| % 4 == 0 && |missing| < 4
    requires forall i :: 0 <= i < |missing| ==> missing[i] == 'A' as int
    requires forall i :: 0 <= i < |text| ==> InKey(text[i])
    requires forall i :: 0 <= i < |padded| ==> InKey(padded[i])
    ensures Decoded(padded) == Decoded(text)
    decreases |text|
  {
    hide Or, CodesOf;
    assert ValueOf('A' as int) == Some(0);
    forall i: nat | i < 4 ensures KeyIndex(padded, i) == KeyIndex(text, i) {
    }
    if |text| > 4 {
      MissingReadsAsA(text[4..], missing, padded[4..]);
    } else {
      assert From(padded, 4) == [] && From(text, 4) == [];
    }
  }

  /** What is no letter, digit, plus, slash or equals sign is skipped. */
  lemma {:induction false} OthersAreSkipped(front: seq<Unit>, code: Unit, back: seq<Unit>)
    ensures KeyCharsOf(front + [code] + back)
         == KeyCharsOf(front)
            + (if 'A' as int <= code <= 'Z' as int || 'a' as int <= code <= 'z' as int || '0' as int <= code <= '9' as int
                  || code == '+' as int || code == '/' as int || code == '=' as int then [code] else [])
            + KeyCharsOf(back)
    decreases |front|
  {
    var text := front + [code] + back;
    if front == [] {
      assert text[1..] == back;
    } else {
      assert text[1..] == front[1..] + [code] + back;
      OthersAreSkipped(front[1..], code, back);
    }
  }

  lemma DecodedNothing()
    ensures Decoded([]) == []
  {
  }

  // What the two undo

  function Pow2(k: nat): (p: nat)
    ensures p > 0
  {
    if k == 0 then 1 else 2 * Pow2(k - 1)
  }

  lemma {:induction false} OrOfDisjoint(m: nat, y: nat, k: nat, x: nat)
    requires x == m * Pow2(k) && y < Pow2(k)
    ensures Or(x, y) == x + y
    decreases k, x
  {
    if k > 0 {
      var half := m * Pow2(k - 1);
      assert x == 2 * half;
      OrOfDisjoint(m, y / 2, k - 1, half);
    } else if x > 0 {
      OrOfDisjoint(x / 2, 0, 0, x / 2);
    }
  }

  /** Where four characters decode as RFC 4648 has it, the page's arithmetic gives the same bytes. */
  lemma CodesAreBytes(text: seq<Unit>)
    requires |text| == 4 && DecodeQuantum(text).Some?
    requires forall k :: 0 <= k < |text| ==> InKey(text[k])
    ensures CodesOf(KeyIndex(text, 0), KeyIndex(text, 1), KeyIndex(text, 2), KeyIndex(text, 3))
         == DecodeQuantum(text).value
  {
    hide Or, ValueOf, CodesOf;
    PadHasNoValue();
    var s, o, u, a := KeyIndex(text, 0), KeyIndex(text, 1), KeyIndex(text, 2), KeyIndex(text, 3);
    SymbolOfValue(text[0]);
    SymbolOfValue(text[1]);
    if ValueOf(text[2]).Some? {
      SymbolOfValue(text[2]);
    }
    if ValueOf(text[3]).Some? {
      SymbolOfValue(text[3]);
    }
    CodesAdd(s, o, u, a);
  }

  lemma SmallCode(code: nat)
    requires code < 256
    ensures FromCharCode(code) == code
  {
  }

  lemma CodesAdd(s: nat, o: nat, u: nat, a: nat)
    requires s < 64 && o < 64 && u <= 64 && a <= 64 && (u == 64 ==> a == 64)
    ensures CodesOf(s, o, u, a) ==
            [s * 4 + o / 16] + (if u == 64 then [] else [o % 16 * 16 + u / 4])
            + (if a == 64 then [] else [u % 4 * 64 + a])
  {
    hide Or, FromCharCode;
    OrWithin64(s, o, 2);
    SmallCode(s * 4 + o / 16);
    if u < 64 {
      OrWithin64(o % 16, u, 4);
      SmallCode(o % 16 * 16 + u / 4);
    }
    if a < 64 {
      OrWithin64(u % 4, a, 6);
      SmallCode(u % 4 * 64 + a);
    }
  }

  /** A number shifted left by `shift` bits, with the top `shift` bits of a six-bit number put below it. */
  lemma OrWithin64(high: nat, low: nat, shift: nat)
    requires low < 64 && (shift == 2 || shift == 4 || shift == 6)
    ensures shift == 2 ==> Or(high * 4, low / 16) == high * 4 + low / 16
    ensures shift == 4 ==> Or(high * 16, low / 4) == high * 16 + low / 4
    ensures shift == 6 ==> Or(high * 64, low) == high * 64 + low
  {
    hide Or;
    assert Pow2(1) == 2 && Pow2(2) == 4 && Pow2(3) == 8 && Pow2(4) == 16 && Pow2(5) == 32 && Pow2(6) == 64;
    if shift == 2 {
      OrOfDisjoint(high, low / 16, 2, high * 4);
    } else if shift == 4 {
      OrOfDisjoint(high, low / 4, 4, high * 16);
    } else {
      OrOfDisjoint(high, low, 6, high * 64);
    }
  }

  lemma {:induction false} DecodedGroups(text: seq<Unit>)
    requires DecodeGroups(text).Some?
    requires forall k :: 0 <= k < |text| ==> InKey(text[k])
    ensures Decoded(text) == DecodeGroups(text).value
  {
    hide InKey, CodesOf, DecodeQuantum;
    if text != [] {
      var first := text[..4];
      assert forall k :: 0 <= k < 4 ==> first[k] == text[k];
      CodesAreBytes(first);
      assert forall k :: 0 <= k < 4 ==> KeyIndex(first, k) == KeyIndex(text, k);
      if |text| > 4 {
        DecodedGroups(text[4..]);
      }
    }
  }

  lemma {:induction false} KeyCharsSkipLineBreaks(text: seq<Unit>)
    requires forall k :: 0 <= k < |WithoutLineBreaks(text)| ==> InKey(WithoutLineBreaks(text)[k])
    ensures KeyCharsOf(text) == WithoutLineBreaks(text)
  {
    if text != [] {
      var rest := WithoutLineBreaks(text[1..]);
      var skipped := |WithoutLineBreaks(text)| - |rest|;
      assert forall k :: 0 <= k < |rest| ==> rest[k] == WithoutLineBreaks(text)[k + skipped];
      KeyCharsSkipLineBreaks(text[1..]);
      if skipped == 1 {
        assert text[0] == WithoutLineBreaks(text)[0];
      } else {
        assert !InKey(10) && !InKey(13);
      }
    }
  }

  /** On every text that is Base64 at all, the page decodes what RFC 4648 says. */
  lemma DecodeAgreesWithRfc(text: seq<Unit>)
    requires Base64.Decode(text).Some?
    ensures Decoded(KeyCharsOf(text)) == Base64.Decode(text).value
  {
    hide ValueOf;
    DecodedLength(WithoutLineBreaks(text));
    KeyCharsSkipLineBreaks(text);
    DecodedGroups(WithoutLineBreaks(text));
  }

  /** Decoding what was encoded gives the text back with every "rn" joined to "n". */
  lemma RoundTrip(text: seq<Unit>)
    ensures FromUtf8(Decoded(KeyCharsOf(Base64.Encode(Utf8(JoinRn(text)))))) == JoinRn(text)
    ensures WellFormed(Base64.Encode(Utf8(JoinRn(text))))
  {
    var bytes := Utf8(JoinRn(text));
    Base64.RoundTrip(bytes);
    DecodeAgreesWithRfc(Base64.Encode(bytes));
    Utf8Inverts(JoinRn(text));
    EncodeIsWellFormed(bytes);
  }

  /** The page's two functions, one after the other; the text survives exactly when it has no "rn". */
  method EncodeThenDecode(text: seq<Unit>) returns (back: seq<Unit>)
    ensures back == JoinRn(text)
    ensures back == text <==> forall i :: 0 <= i < |text| ==> !StartsWithRn(text[i..])
  {
    var encoded := Encode(text);
    back := Decode(encoded);
    RoundTrip(text);
    UnchangedExactlyWithoutRn(text);
  }
}
