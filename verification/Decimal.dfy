/** Decimal numbers as Go's `strconv` prints and parses them, on a 64-bit machine. */
module Decimal {
  import opened Base64

  const MAX_INT: int := 0x7fff_ffff_ffff_ffff
  const MAX_UINT: int := 0xffff_ffff_ffff_ffff

  /** `strconv.Itoa` of a number that is not negative. */
  function Itoa(n: nat): (text: seq<Byte>)
    ensures text != [] && forall i :: 0 <= i < |text| ==> 48 <= text[i] <= 57
  {
    if n < 10 then [48 + n] else Itoa(n / 10) + [48 + n % 10]
  }

  datatype Scanned = Number(value: nat) | Malformed | TooLarge

  /** `strconv.ParseUint`: whichever comes first ends it, a character that is no digit or a number that does not fit. */
  function ScanDigits(text: seq<Byte>): Scanned {
    if text == [] then Number(0)
    else
      var before, last := ScanDigits(text[..|text| - 1]), text[|text| - 1];
      if !before.Number? then before
      else if last < 48 || last > 57 then Malformed
      else if before.value * 10 + last - 48 > MAX_UINT then TooLarge
      else Number(before.value * 10 + last - 48)
  }

  datatype Parsed = Parsed(value: int, failed: bool)

  /** `strconv.Atoi`: 0 for what is not a number, the nearest `int` for one that is too large. */
  function Atoi(text: seq<Byte>): Parsed {
    var negative := text != [] && text[0] == 45;
    var digits := if negative || (text != [] && text[0] == 43) then text[1..] else text;
    var scanned := if digits == [] then Malformed else ScanDigits(digits);
    if scanned.Malformed? then Parsed(0, true)
    else
      var size: int := if scanned.TooLarge? then MAX_UINT else scanned.value;
      if negative then
        if size > MAX_INT + 1 then Parsed(-MAX_INT - 1, true) else Parsed(-size, false)
      else
        if size > MAX_INT then Parsed(MAX_INT, true) else Parsed(size, false)
  }

  function Pow10(k: nat): (p: nat)
    ensures p > 0
  {
    if k == 0 then 1 else 10 * Pow10(k - 1)
  }

  /** The digit `k` places from the end; there is no leading zero. */
  lemma {:induction false} DigitOfItoa(n: nat, k: nat)
    requires k < |Itoa(n)|
    ensures Itoa(n)[|Itoa(n)| - 1 - k] == '0' as int + n / Pow10(k) % 10
    ensures n > 0 ==> Itoa(n)[0] != '0' as int
    ensures Pow10(|Itoa(n)| - 1) <= n || |Itoa(n)| == 1
    decreases n, k
  {
    if n >= 10 {
      DigitOfItoa(n / 10, if k == 0 then 0 else k - 1);
      if k > 0 {
        DividedTwice(n, Pow10(k - 1), Pow10(k));
      }
    } else {
      assert Pow10(0) == 1;
    }
  }

  lemma DividedTwice(n: nat, p: nat, q: nat)
    requires p > 0 && q == 10 * p
    ensures n / 10 / p == n / q
  {
    var m := n / q;
    var r := n % q;
    assert n == m * q + r && m * q == 10 * (m * p);
    assert n / 10 == m * p + r / 10;
    assert r / 10 < p;
    QuotientIs(m * p + r / 10, p, m, r / 10);
  }

  lemma QuotientIs(n: nat, p: nat, m: nat, r: nat)
    requires p > 0 && n == m * p + r && r < p
    ensures n / p == m
  {
    var d := n / p - m;
    var e := n % p;
    assert d * p == r - e;
    TimesAtLeast(d, p);
  }

  lemma TimesAtLeast(d: int, p: int)
    requires p > 0
    ensures (d >= 1 ==> d * p >= p) && (d <= -1 ==> d * p <= -p)
  {
  }

  lemma {:induction false} ScanOfItoa(n: nat)
    ensures ScanDigits(Itoa(n)) == if n <= MAX_UINT then Number(n) else TooLarge
  {
    var text := Itoa(n);
    if n < 10 {
      assert text[..0] == [];
      assert ScanDigits([]) == Number(0);
    } else {
      ScanOfItoa(n / 10);
      assert text[..|text| - 1] == Itoa(n / 10);
    }
  }

  /** Parsing undoes printing, with a sign or none; what is too large comes to the nearest number, as a failure. */
  lemma AtoiOfItoa(n: nat)
    ensures Atoi(Itoa(n)) == Atoi(['+' as int] + Itoa(n)) == if n <= MAX_INT then Parsed(n, false) else Parsed(MAX_INT, true)
    ensures Atoi(['-' as int] + Itoa(n)) == if n <= MAX_INT + 1 then Parsed(-(n as int), false) else Parsed(-MAX_INT - 1, true)
  {
    hide Itoa, ScanDigits;
    ScanOfItoa(n);
    var digits := Itoa(n);
    assert 48 <= digits[0] <= 57;
    assert (['+' as int] + digits)[1..] == digits && (['-' as int] + digits)[1..] == digits;
  }

  /** A character that is no digit makes a text no number, unless one that is too large stands before it. */
  lemma AtoiOfOther(n: nat, code: Byte, more: seq<Byte>)
    requires code < 48 || code > 57
    ensures Atoi(Itoa(n) + [code] + more) == if n <= MAX_UINT then Parsed(0, true) else Parsed(MAX_INT, true)
    ensures Atoi([]) == Parsed(0, true)
  {
    hide Itoa, ScanDigits;
    ScanOfItoa(n);
    ScanStopsAt(Itoa(n), code, more);
    var text := Itoa(n) + [code] + more;
    assert text[0] == Itoa(n)[0];
  }

  lemma {:induction false} ScanStopsAt(digits: seq<Byte>, code: Byte, more: seq<Byte>)
    requires code < 48 || code > 57
    ensures ScanDigits(digits + [code] + more) == if ScanDigits(digits).Number? then Malformed else ScanDigits(digits)
    decreases |more|
  {
    var text := digits + [code] + more;
    if more == [] {
      assert text[..|text| - 1] == digits;
    } else {
      assert text[..|text| - 1] == digits + [code] + more[..|more| - 1];
      ScanStopsAt(digits, code, more[..|more| - 1]);
    }
  }
}
