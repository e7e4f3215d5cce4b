/** Base64 as section 4 of RFC 4648 defines it; decoding as Go's `base64.StdEncoding` does it. */
module Base64 {
  import opened Options

  type Byte = b: int | 0 <= b < 256

  const PAD: Byte := 61

  /** The alphabet: A-Z, a-z, 0-9, '+', '/'. */
  function Symbol(value: nat): (code: Byte)
    requires value < 64
  {
    if value < 26 then 65 + value
    else if value < 52 then 71 + value
    else if value < 62 then value - 4
    else if value == 62 then 43
    else 47
  }

  function ValueOf(code: int): Option<nat> {
    if 65 <= code <= 90 then Some(code - 65)
    else if 97 <= code <= 122 then Some(code - 71)
    else if 48 <= code <= 57 then Some(code + 4)
    else if code == 43 then Some(62)
    else if code == 47 then Some(63)
    else None
  }

  lemma ValueOfSymbol(value: nat)
    requires value < 64
    ensures ValueOf(Symbol(value)) == Some(value)
  {
  }

  lemma SymbolOfValue(code: int)
    requires ValueOf(code).Some?
    ensures ValueOf(code).value < 64 && Symbol(ValueOf(code).value) == code
    ensures code != PAD && 43 <= code <= 122
  {
  }

  /** The four symbols of a 24-bit group. */
  function Quantum(x: nat, y: nat, z: nat): (text: seq<Byte>)
    requires x < 256 && y < 256 && z < 256
    ensures |text| == 4
  {
    var group: nat := x * 65536 + y * 256 + z;
    [Symbol(group / 262144), Symbol(group / 4096 % 64), Symbol(group / 64 % 64), Symbol(group % 64)]
  }

  /** The first group of some bytes: whole, or padded where bytes are missing. */
  function FirstQuantum(bytes: seq<Byte>): (text: seq<Byte>)
    requires bytes != []
    ensures |text| == 4
  {
    if |bytes| == 1 then Quantum(bytes[0], 0, 0)[..2] + [PAD, PAD]
    else if |bytes| == 2 then Quantum(bytes[0], bytes[1], 0)[..3] + [PAD]
    else Quantum(bytes[0], bytes[1], bytes[2])
  }

  function Encode(bytes: seq<Byte>): (text: seq<Byte>) {
    if bytes == [] then []
    else FirstQuantum(bytes) + Encode(bytes[if |bytes| < 3 then |bytes| else 3..])
  }

  lemma {:induction false} EncodedLength(bytes: seq<Byte>)
    ensures |Encode(bytes)| == (|bytes| + 2) / 3 * 4
  {
    hide FirstQuantum;
    if bytes != [] {
      EncodedLength(bytes[if |bytes| < 3 then |bytes| else 3..]);
    }
  }

  /** Line breaks are skipped wherever they stand. */
  function WithoutLineBreaks(text: seq<int>): (kept: seq<int>) {
    if text == [] then []
    else (if text[0] == 10 || text[0] == 13 then [] else [text[0]]) + WithoutLineBreaks(text[1..])
  }

  lemma {:induction false} LineBreaksAreSkipped(front: seq<int>, code: int, back: seq<int>)
    ensures WithoutLineBreaks(front + [code] + back)
         == WithoutLineBreaks(front)
            + (if code == '\n' as int || code == '\r' as int then [] else [code]) + WithoutLineBreaks(back)
    decreases |front|
  {
    hide WithoutLineBreaks;
    var text := front + [code] + back;
    SkipStep(front);
    SkipStep(text);
    if front == [] {
      assert text[1..] == back && text[0] == code;
    } else {
      assert text[1..] == front[1..] + [code] + back && text[0] == front[0];
      LineBreaksAreSkipped(front[1..], code, back);
    }
  }

  lemma SkipStep(text: seq<int>)
    ensures text == [] ==> WithoutLineBreaks(text) == []
    ensures text != [] && (text[0] == 10 || text[0] == 13) ==> WithoutLineBreaks(text) == WithoutLineBreaks(text[1..])
    ensures text != [] && text[0] != 10 && text[0] != 13 ==>
              WithoutLineBreaks(text) == [text[0]] + WithoutLineBreaks(text[1..])
  {
  }

  function Decode(text: seq<int>): Option<seq<Byte>> {
    DecodeGroups(WithoutLineBreaks(text))
  }

  /** The bytes of four characters; of fewer than three bytes when padded. */
  function DecodeQuantum(text: seq<int>): Option<seq<Byte>>
    requires |text| == 4
  {
    match (ValueOf(text[0]), ValueOf(text[1]), ValueOf(text[2]), ValueOf(text[3]))
    case (Some(a), Some(b), Some(c), Some(d)) => Some([a * 4 + b / 16, b % 16 * 16 + c / 4, c % 4 * 64 + d])
    case (Some(a), Some(b), Some(c), None) =>
      if text[3] == PAD then Some([a * 4 + b / 16, b % 16 * 16 + c / 4]) else None
    case (Some(a), Some(b), None, None) =>
      if text[2] == PAD && text[3] == PAD then Some([a * 4 + b / 16]) else None
    case _ => None
  }

  /** Four characters at a time; padding only at the very end; the bits that padding leaves over are ignored. */
  function DecodeGroups(text: seq<int>): Option<seq<Byte>> {
    if text == [] then Some([])
    else if |text| < 4 then None
    else
      var first, rest := DecodeQuantum(text[..4]), DecodeGroups(text[4..]);
      if first.None? || rest.None? || (|first.value| < 3 && |text| > 4) then None
      else Some(first.value + rest.value)
  }

  lemma QuotientBy64(n: nat, q: nat, r: nat)
    requires n == q * 64 + r && r < 64
    ensures n / 64 == q && n % 64 == r
  {
  }

  lemma GroupDigits(group: nat, a: nat, b: nat, c: nat, d: nat)
    requires a < 64 && b < 64 && c < 64 && d < 64
    requires group == a * 262144 + b * 4096 + c * 64 + d
    ensures group / 262144 == a && group / 4096 % 64 == b && group / 64 % 64 == c && group % 64 == d
  {
    QuotientBy64(group, a * 4096 + b * 64 + c, d);
    QuotientBy64(a * 4096 + b * 64 + c, a * 64 + b, c);
    assert group / 4096 == a * 64 + b;
    QuotientBy64(a * 64 + b, a, b);
  }

  lemma QuantumValues(x: nat, y: nat, z: nat)
    requires x < 256 && y < 256 && z < 256
    ensures var text := Quantum(x, y, z);
            && ValueOf(text[0]) == Some(x / 4) && ValueOf(text[1]) == Some(x % 4 * 16 + y / 16)
            && ValueOf(text[2]) == Some(y % 16 * 4 + z / 64) && ValueOf(text[3]) == Some(z % 64)
  {
    hide Symbol, ValueOf;
    GroupDigits(x * 65536 + y * 256 + z, x / 4, x % 4 * 16 + y / 16, y % 16 * 4 + z / 64, z % 64);
    ValueOfSymbol(x / 4);
    ValueOfSymbol(x % 4 * 16 + y / 16);
    ValueOfSymbol(y % 16 * 4 + z / 64);
    ValueOfSymbol(z % 64);
  }

  lemma BytesOfDigits(x: nat, y: nat, z: nat, a: nat, b: nat, c: nat, d: nat)
    requires x < 256 && y < 256 && z < 256
    requires a == x / 4 && b == x % 4 * 16 + y / 16 && c == y % 16 * 4 + z / 64 && d == z % 64
    ensures a * 4 + b / 16 == x && b % 16 * 16 + c / 4 == y && c % 4 * 64 + d == z
  {
  }

  lemma DecodesTo(text: seq<int>, a: nat, b: nat, c: nat, d: nat)
    requires |text| == 4 && ValueOf(text[0]) == Some(a) && ValueOf(text[1]) == Some(b)
    requires a < 64 && b < 64 && c < 64 && d < 64
    ensures ValueOf(text[2]) == Some(c) && ValueOf(text[3]) == Some(d) ==>
              DecodeQuantum(text) == Some([a * 4 + b / 16, b % 16 * 16 + c / 4, c % 4 * 64 + d])
    ensures ValueOf(text[2]) == Some(c) && text[3] == PAD ==>
              DecodeQuantum(text) == Some([a * 4 + b / 16, b % 16 * 16 + c / 4])
    ensures text[2] == PAD && text[3] == PAD ==> DecodeQuantum(text) == Some([a * 4 + b / 16])
  {
    hide ValueOf;
    PadHasNoValue();
  }

  lemma QuantumInverts(bytes: seq<Byte>)
    requires bytes != []
    ensures DecodeQuantum(FirstQuantum(bytes)) == Some(bytes[..if |bytes| < 3 then |bytes| else 3])
  {
    hide Symbol, ValueOf, Quantum, DecodeQuantum;
    PadHasNoValue();
    var x: nat, y: nat, z: nat := bytes[0], if |bytes| > 1 then bytes[1] else 0, if |bytes| > 2 then bytes[2] else 0;
    var a, b, c, d := x / 4, x % 4 * 16 + y / 16, y % 16 * 4 + z / 64, z % 64;
    QuantumValues(x, y, z);
    BytesOfDigits(x, y, z, a, b, c, d);
    DecodesTo(FirstQuantum(bytes), a, b, c, d);
    if |bytes| > 2 {
      assert bytes[..3] == [x, y, z];
    } else {
      assert bytes[..|bytes|] == if |bytes| == 1 then [x] else [x, y];
    }
  }

  lemma {:induction false} DecodeGroupsInverts(bytes: seq<Byte>)
    ensures DecodeGroups(Encode(bytes)) == Some(bytes)
  {
    hide FirstQuantum, DecodeQuantum;
    if bytes != [] {
      var k, text := if |bytes| < 3 then |bytes| else 3, Encode(bytes);
      QuantumInverts(bytes);
      DecodeGroupsInverts(bytes[k..]);
      assert text[..4] == FirstQuantum(bytes) && text[4..] == Encode(bytes[k..]);
      assert bytes == bytes[..k] + bytes[k..];
    }
  }

  lemma PadHasNoValue()
    ensures ValueOf(PAD).None?
  {
  }

  ghost predicate InAlphabet(text: seq<int>) {
    forall i :: 0 <= i < |text| ==> ValueOf(text[i]).Some?
  }

  /** All symbols, but for so many pad characters at the end. */
  ghost predicate PaddedBy(text: seq<int>, pads: nat) {
    && pads <= |text|
    && InAlphabet(text[..|text| - pads])
    && forall i :: |text| - pads <= i < |text| ==> text[i] == PAD
  }

  /** Section 4 of RFC 4648: whole groups, with at most two pad characters, all at the end. */
  ghost predicate WellFormed(text: seq<int>) {
    |text| % 4 == 0 && exists pads: nat :: pads <= 2 && PaddedBy(text, pads)
  }

  lemma QuantumIsPadded(bytes: seq<Byte>)
    requires bytes != []
    ensures PaddedBy(FirstQuantum(bytes), if |bytes| < 3 then 3 - |bytes| else 0)
  {
    hide Symbol, ValueOf, Quantum;
    QuantumValues(bytes[0], if |bytes| > 1 then bytes[1] else 0, if |bytes| > 2 then bytes[2] else 0);
  }

  lemma EncodeFront(bytes: seq<Byte>)
    requires bytes != []
    ensures Encode(bytes) == FirstQuantum(bytes) + Encode(bytes[if |bytes| < 3 then |bytes| else 3..])
  {
    hide FirstQuantum;
  }

  /** The encoding is well formed, and padded by exactly what the last group is short of. */
  lemma {:induction false} EncodeIsWellFormed(bytes: seq<Byte>)
    ensures PaddedBy(Encode(bytes), (3 - |bytes| % 3) % 3)
    ensures WellFormed(Encode(bytes))
  {
    hide FirstQuantum, PaddedBy, Encode;
    EncodedLength(bytes);
    EncodeNothing();
    if bytes == [] {
      NothingIsPadded();
    } else {
      QuantumIsPadded(bytes);
      EncodeFront(bytes);
      if |bytes| <= 3 {
        assert bytes[|bytes|..] == [];
        assert FirstQuantum(bytes) + [] == FirstQuantum(bytes);
      } else {
        EncodeIsWellFormed(bytes[3..]);
        PaddedByMore(FirstQuantum(bytes), Encode(bytes[3..]), (3 - |bytes| % 3) % 3);
      }
    }
  }

  lemma EncodeNothing()
    ensures Encode([]) == []
  {
  }

  lemma NothingIsPadded()
    ensures PaddedBy([], 0)
  {
  }

  lemma PaddedByMore(first: seq<int>, rest: seq<int>, pads: nat)
    requires PaddedBy(first, 0) && PaddedBy(rest, pads)
    ensures PaddedBy(first + rest, pads)
  {
    hide ValueOf;
    var text := first + rest;
    assert first[..|first|] == first;
    assert text[..|text| - pads] == first + rest[..|rest| - pads];
  }

  lemma {:induction false} NoLineBreaksToSkip(text: seq<int>)
    requires forall i :: 0 <= i < |text| ==> text[i] != 10 && text[i] != 13
    ensures WithoutLineBreaks(text) == text
  {
    if text != [] {
      NoLineBreaksToSkip(text[1..]);
    }
  }

  lemma EncodeHasNoLineBreaks(bytes: seq<Byte>)
    ensures forall i :: 0 <= i < |Encode(bytes)| ==> Encode(bytes)[i] == PAD || ValueOf(Encode(bytes)[i]).Some?
    ensures WithoutLineBreaks(Encode(bytes)) == Encode(bytes)
  {
    hide ValueOf, Encode;
    EncodeIsWellFormed(bytes);
    var pads, text := (3 - |bytes| % 3) % 3, Encode(bytes);
    forall i | 0 <= i < |text|
      ensures text[i] == PAD || ValueOf(text[i]).Some?
      ensures text[i] != 10 && text[i] != 13
    {
      if i < |text| - pads {
        assert text[i] == text[..|text| - pads][i];
        SymbolOfValue(text[i]);
      }
    }
    NoLineBreaksToSkip(text);
  }

  /** Decoding gives back the bytes that were encoded. */
  lemma RoundTrip(bytes: seq<Byte>)
    ensures Decode(Encode(bytes)) == Some(bytes)
  {
    EncodeHasNoLineBreaks(bytes);
    DecodeGroupsInverts(bytes);
  }

  lemma DecodedQuantum(text: seq<int>)
    requires |text| == 4 && DecodeQuantum(text).Some?
    ensures |DecodeQuantum(text).value| <= 3
    ensures forall i :: 0 <= i < 4 ==> text[i] == PAD || ValueOf(text[i]).Some?
  {
    hide ValueOf;
  }

  lemma GroupsStep(text: seq<int>)
    requires DecodeGroups(text).Some?
    ensures text == [] ==> DecodeGroups(text).value == []
    ensures text != [] ==>
              && |text| >= 4 && DecodeQuantum(text[..4]).Some? && DecodeGroups(text[4..]).Some?
              && DecodeGroups(text).value == DecodeQuantum(text[..4]).value + DecodeGroups(text[4..]).value
  {
    hide DecodeQuantum;
  }

  /** What decodes at all came in whole groups, of at most three bytes each. */
  lemma {:induction false} DecodedLength(text: seq<int>)
    requires DecodeGroups(text).Some?
    ensures |text| % 4 == 0 && |DecodeGroups(text).value| <= |text| / 4 * 3
    ensures forall i :: 0 <= i < |text| ==> text[i] == PAD || ValueOf(text[i]).Some?
  {
    hide ValueOf, DecodeQuantum, DecodeGroups;
    GroupsStep(text);
    if text != [] {
      var first, rest := text[..4], text[4..];
      DecodedQuantum(first);
      DecodedLength(rest);
      forall i | 0 <= i < |text| ensures text[i] == PAD || ValueOf(text[i]).Some? {
        assert text[i] == if i < 4 then first[i] else rest[i - 4];
      }
    }
  }

  // What the groups mean: numbers of 24 bits, written in the alphabet of the RFC.

  /** Table 1 of RFC 4648. */
  lemma SymbolIs(value: nat)
    requires value < 64
    ensures Symbol(value) as int ==
            if value < 26 then 'A' as int + value
            else if value < 52 then 'a' as int + (value - 26)
            else if value < 62 then '0' as int + (value - 52)
            else if value == 62 then '+' as int
            else '/' as int
    ensures PAD as int == '=' as int
  {
  }

  /** The first three bytes as a number of 24 bits, zeros for those missing, are the first four symbols, six bits each. */
  lemma FirstQuantumIsNumber(bytes: seq<Byte>) returns (a: nat, b: nat, c: nat, d: nat)
    requires bytes != []
    ensures a < 64 && b < 64 && c < 64 && d < 64
    ensures a * 262144 + b * 4096 + c * 64 + d
         == bytes[0] * 65536 + (if |bytes| > 1 then bytes[1] as int else 0) * 256 + (if |bytes| > 2 then bytes[2] as int else 0)
    ensures Encode(bytes)
         == [Symbol(a), Symbol(b), if |bytes| > 1 then Symbol(c) else PAD, if |bytes| > 2 then Symbol(d) else PAD]
            + Encode(bytes[if |bytes| < 3 then |bytes| else 3..])
  {
    hide Symbol, Encode, Quantum;
    EncodeFront(bytes);
    var x: nat, y: nat, z: nat := bytes[0], if |bytes| > 1 then bytes[1] else 0, if |bytes| > 2 then bytes[2] else 0;
    a, b, c, d := x / 4, x % 4 * 16 + y / 16, y % 16 * 4 + z / 64, z % 64;
    QuantumIs(x, y, z, a, b, c, d);
  }

  lemma QuantumIs(x: nat, y: nat, z: nat, a: nat, b: nat, c: nat, d: nat)
    requires x < 256 && y < 256 && z < 256
    requires a == x / 4 && b == x % 4 * 16 + y / 16 && c == y % 16 * 4 + z / 64 && d == z % 64
    ensures a < 64 && b < 64 && c < 64 && d < 64
    ensures a * 262144 + b * 4096 + c * 64 + d == x * 65536 + y * 256 + z
    ensures Quantum(x, y, z) == [Symbol(a), Symbol(b), Symbol(c), Symbol(d)]
  {
    hide Symbol;
    GroupDigits(x * 65536 + y * 256 + z, a, b, c, d);
  }

  /** Four characters that decode are a number of 24 bits, and give as many of its three bytes as there is no padding for. */
  lemma DecodeQuantumIsNumber(text: seq<int>) returns (x: Byte, y: Byte, z: Byte)
    requires |text| == 4 && DecodeQuantum(text).Some?
    ensures var values := seq(4, i requires 0 <= i < 4 => if ValueOf(text[i]).Some? then ValueOf(text[i]).value else 0);
            values[0] * 262144 + values[1] * 4096 + values[2] * 64 + values[3] == x * 65536 + y * 256 + z
    ensures DecodeQuantum(text).value
         == [x, y, z][..if text[2] == PAD then 1 else if text[3] == PAD then 2 else 3]
  {
    hide ValueOf;
    PadHasNoValue();
    var a: nat := ValueOf(text[0]).value;
    var b: nat := ValueOf(text[1]).value;
    var c: nat := if ValueOf(text[2]).Some? then ValueOf(text[2]).value else 0;
    var d: nat := if ValueOf(text[3]).Some? then ValueOf(text[3]).value else 0;
    forall i | 0 <= i < 4 && ValueOf(text[i]).Some? ensures ValueOf(text[i]).value < 64 {
      SymbolOfValue(text[i]);
    }
    x, y, z := a * 4 + b / 16, b % 16 * 16 + c / 4, c % 4 * 64 + d;
    assert a * 262144 + b * 4096 + c * 64 + d == x * 65536 + y * 256 + z;
  }

  /** A text decodes exactly when it is well formed, line breaks apart. */
  lemma DecodesExactlyWhen(text: seq<int>)
    ensures Decode(text).Some? <==> WellFormed(WithoutLineBreaks(text))
  {
    GroupsDecodeExactlyWhen(WithoutLineBreaks(text));
  }

  lemma {:induction false} GroupsDecodeExactlyWhen(text: seq<int>)
    ensures DecodeGroups(text).Some? <==> WellFormed(text)
  {
    hide ValueOf, DecodeQuantum, PaddedBy;
    if text == [] {
      NothingIsPadded();
    } else if |text| >= 4 {
      var first, rest := text[..4], text[4..];
      GroupsDecodeExactlyWhen(rest);
      QuantumDecodesExactlyWhen(first);
      assert text == first + rest;
      if |text| == 4 {
        assert text == first && rest == [];
        NothingIsPadded();
      } else {
        FirstIsWhole(first, rest);
        assert PaddedBy(first, 0) ==> WellFormed(first);
        if DecodeQuantum(first).Some? {
          DecodedQuantum(first);
        }
      }
    }
  }

  lemma QuantumDecodesExactlyWhen(text: seq<int>)
    requires |text| == 4
    ensures DecodeQuantum(text).Some? <==> WellFormed(text)
    ensures DecodeQuantum(text).Some? ==> (|DecodeQuantum(text).value| == 3 <==> PaddedBy(text, 0))
  {
    hide ValueOf;
    PadHasNoValue();
    if DecodeQuantum(text).Some? {
      var pads := if text[2] == PAD then 2 else if text[3] == PAD then 1 else 0;
      assert PaddedBy(text, pads);
      assert text[..4] == text;
    }
    if pads: nat :| pads <= 2 && PaddedBy(text, pads) {
      assert forall i :: 0 <= i < 4 - pads ==> text[i] == text[..4 - pads][i];
    }
  }

  lemma PaddedParts(first: seq<int>, rest: seq<int>, pads: nat)
    requires |first| == 4 && pads <= |rest| && PaddedBy(first + rest, pads)
    ensures PaddedBy(first, 0) && PaddedBy(rest, pads)
  {
    hide ValueOf;
    var text := first + rest;
    var symbols := text[..|text| - pads];
    assert first[..4] == symbols[..4] && rest[..|rest| - pads] == symbols[4..];
    forall i | |rest| - pads <= i < |rest| ensures rest[i] == PAD {
      assert rest[i] == text[4 + i];
    }
    assert InAlphabet(symbols[..4]) && InAlphabet(symbols[4..]);
  }

  lemma FirstIsWhole(first: seq<int>, rest: seq<int>)
    requires |first| == 4 && rest != []
    ensures WellFormed(first + rest) <==> PaddedBy(first, 0) && WellFormed(rest)
  {
    hide ValueOf;
    var text := first + rest;
    if WellFormed(text) {
      var pads: nat :| pads <= 2 && PaddedBy(text, pads);
      assert |rest| >= 4;
      PaddedParts(first, rest, pads);
    }
    if PaddedBy(first, 0) && WellFormed(rest) {
      var pads: nat :| pads <= 2 && PaddedBy(rest, pads);
      PaddedByMore(first, rest, pads);
    }
  }
}
