/** The parser of ss:// addresses, in both of their textual forms. */
module SsUri {
  import opened Options
  import opened Base64
  import opened Decimal
  import opened Texts

  const AT: Byte := 64
  /** "ss://", which the parser also takes as the set of characters to trim. */
  const SCHEME: Text := [115, 115, 58, 47, 47]

  /** What a call of the parser comes to; a bad port is found only after the method and the password are set. */
  datatype Outcome =
    | Empty
    | Invalid
    | BadPort(cipher: Text, password: Text)
    | Complete(cipher: Text, password: Text, server: Text, port: int)

  /** `strings.TrimLeft(text, "ss://")`: any run of the characters of the scheme goes. */
  function Trimmed(text: Text): (rest: Text) {
    if text != [] && text[0] in SCHEME then Trimmed(text[1..]) else text
  }

  /** `SplitN(text, ":", 2)`, where it gives two parts. */
  function Pair(text: Text): Option<(Text, Text)> {
    var i := IndexOf(text, COLON);
    if i < |text| then Some((text[..i], text[i + 1..])) else None
  }

  function Finish(head: Text, tail: Text): Outcome {
    match (Pair(head), Pair(tail))
    case (Some((cipher, password)), Some((server, port))) =>
      if Atoi(port).failed then BadPort(cipher, password)
      else Complete(cipher, password, server, Atoi(port).value)
    case _ => Invalid
  }

  function Parse(uri: Text): Outcome {
    if uri == [] then Empty
    else
      var u := Trimmed(uri);
      var i := IndexOf(u, AT);
      if i == |u| then
        match Decode(u)
        case None => Invalid
        case Some(data) =>
          var parts := Split(data, [AT]);
          if |parts| != 2 then Invalid else Finish(parts[0], parts[1])
      else if i + 1 >= |u| then Invalid
      else
        match Decode(u[..i])
        case None => Invalid
        case Some(data) => Finish(data, u[i + 1..])
  }

  class Config {
    var cipher: Text
    var password: Text
    var server: Text
    var serverPort: int

    /** `parseURI`: the host on success, and the fields of the configuration. */
    method ParseURI(uri: Text) returns (host: Text, ok: bool)
      modifies this
      ensures ok <==> Parse(uri).Empty? || Parse(uri).Complete?
      ensures host == if Parse(uri).Complete? then Parse(uri).server else []
      ensures match Parse(uri)
              case Complete(m, p, s, port) => cipher == m && password == p && server == s && serverPort == port
              case BadPort(m, p) =>
                cipher == m && password == p && server == old(server) && serverPort == old(serverPort)
              case _ =>
                && cipher == old(cipher) && password == old(password)
                && server == old(server) && serverPort == old(serverPort)
    {
      hide Trimmed, Decode, Split, Atoi, IndexOf;
      if uri == [] {
        return [], true;
      }
      var u := Trimmed(uri);
      var i := IndexOf(u, AT);
      var head, tail;
      if i == |u| {
        var data := Decode(u);
        if data.None? {
          return [], false;
        }
        var parts := Split(data.value, [AT]);
        if |parts| != 2 {
          return [], false;
        }
        head, tail := parts[0], parts[1];
      } else {
        if i + 1 >= |u| {
          return [], false;
        }
        tail := u[i + 1..];
        var data := Decode(u[..i]);
        if data.None? {
          return [], false;
        }
        head := data.value;
      }
      assert Parse(uri) == Finish(head, tail);
      var headParts, tailParts := Pair(head), Pair(tail);
      if headParts.None? || tailParts.None? {
        return [], false;
      }
      cipher := headParts.value.0;
      password := headParts.value.1;
      var p := Atoi(tailParts.value.1);
      if p.failed {
        return [], false;
      }
      server := tailParts.value.0;
      serverPort := p.value;
      return server, true;
    }
  }

  // The two forms

  function Credentials(cipher: Text, password: Text): (text: Text)
    ensures text != []
  {
    cipher + [COLON] + password
  }

  /** "ss://" base64(method:password) "@" host ":" port */
  function HostOutside(cipher: Text, password: Text, host: Text, port: Text): Text {
    SCHEME + Encode(Credentials(cipher, password)) + [AT] + Credentials(host, port)
  }

  /** "ss://" base64(method:password "@" host ":" port) */
  function AllInside(cipher: Text, password: Text, host: Text, port: Text): Text {
    SCHEME + Encode(Credentials(cipher, password) + [AT] + Credentials(host, port))
  }

  /** The outcome that either form is meant to have. */
  function Meant(cipher: Text, password: Text, host: Text, port: Text): Outcome {
    if Atoi(port).failed then BadPort(cipher, password)
    else Complete(cipher, password, host, Atoi(port).value)
  }

  /** The encodings of these bytes start with 's' or '/'; none of them is ASCII. */
  predicate StartsTrimmable(bytes: Text) {
    bytes != [] && (0xB0 <= bytes[0] <= 0xB3 || 0xFC <= bytes[0])
  }

  lemma SymbolTrimmable(x: Byte)
    ensures Symbol(x / 4) in SCHEME <==> StartsTrimmable([x])
  {
  }

  lemma FirstSymbol(bytes: Text)
    requires bytes != []
    ensures Encode(bytes) != [] && Encode(bytes)[0] == Symbol(bytes[0] / 4)
  {
    hide Symbol, Encode;
    EncodeFront(bytes);
    var x: nat, y: nat, z: nat := bytes[0], if |bytes| > 1 then bytes[1] else 0, if |bytes| > 2 then bytes[2] else 0;
    GroupDigits(x * 65536 + y * 256 + z, x / 4, x % 4 * 16 + y / 16, y % 16 * 4 + z / 64, z % 64);
  }

  lemma PairOf(front: Text, back: Text)
    requires COLON !in front
    ensures Pair(Credentials(front, back)) == Some((front, back))
  {
    var text := Credentials(front, back);
    assert text[|front|] == COLON && forall k :: 0 <= k < |front| ==> text[k] == front[k];
    assert text[..|front|] == front && text[|front| + 1..] == back;
  }

  lemma FirstAt(front: Text, back: Text)
    requires AT !in front
    ensures var text := front + [AT] + back;
            IndexOf(text, AT) == |front| && text[..|front|] == front && text[|front| + 1..] == back
  {
    var text := front + [AT] + back;
    assert text[|front|] == AT && forall k :: 0 <= k < |front| ==> text[k] == front[k];
  }

  lemma {:induction false} TrimmedIsSuffix(text: Text, rest: Text) returns (k: nat)
    requires rest == [] || rest[0] == AT
    ensures k <= |text| && Trimmed(text + rest) == text[k..] + rest
    ensures k == 0 <==> text == [] || text[0] !in SCHEME
  {
    if text != [] && text[0] in SCHEME {
      assert (text + rest)[1..] == text[1..] + rest;
      var m := TrimmedIsSuffix(text[1..], rest);
      k := m + 1;
      assert text[1..][m..] == text[k..];
    } else {
      k := 0;
      assert text[0..] == text;
      assert text == [] ==> text + rest == rest;
    }
  }

  lemma SchemeIsTrimmed(rest: Text)
    ensures Trimmed(SCHEME + rest) == Trimmed(rest)
  {
    hide Trimmed;
    TrimOne(115, [115, 58, 47, 47] + rest);
    TrimOne(115, [58, 47, 47] + rest);
    TrimOne(58, [47, 47] + rest);
    TrimOne(47, [47] + rest);
    TrimOne(47, rest);
    assert SCHEME + rest == [115] + ([115, 58, 47, 47] + rest);
    assert [115, 58, 47, 47] + rest == [115] + ([58, 47, 47] + rest);
    assert [58, 47, 47] + rest == [58] + ([47, 47] + rest);
    assert [47, 47] + rest == [47] + ([47] + rest);
  }

  lemma TrimOne(code: Byte, rest: Text)
    requires code in SCHEME
    ensures Trimmed([code] + rest) == Trimmed(rest)
  {
    assert ([code] + rest)[1..] == rest;
  }

  /** An encoding without its first groups encodes the later bytes. */
  lemma {:induction false} EncodeSuffix(bytes: Text, t: nat)
    requires t * 4 <= |Encode(bytes)|
    ensures Encode(bytes)[t * 4..] == Encode(bytes[if t * 3 <= |bytes| then t * 3 else |bytes|..])
  {
    hide Encode;
    if t == 0 {
      assert bytes[0..] == bytes;
    } else {
      var k := EncodeRest(bytes);
      var rest := bytes[k..];
      EncodeSuffix(rest, t - 1);
      assert Encode(bytes)[t * 4..] == Encode(bytes)[4..][(t - 1) * 4..];
      var m := if (t - 1) * 3 <= |rest| then (t - 1) * 3 else |rest|;
      assert k + m == if t * 3 <= |bytes| then t * 3 else |bytes|;
      assert rest[m..] == bytes[k + m..];
    }
  }

  lemma EncodeRest(bytes: Text) returns (k: nat)
    requires Encode(bytes) != []
    ensures k == if |bytes| < 3 then |bytes| else 3
    ensures |Encode(bytes)| == 4 + |Encode(bytes[k..])| && Encode(bytes)[4..] == Encode(bytes[k..])
  {
    hide FirstQuantum;
    k := if |bytes| < 3 then |bytes| else 3;
  }

  /** What an encoding decodes to once its first characters are gone: nothing, or the later bytes alone. */
  lemma DecodeTrimmed(bytes: Text, k: nat) returns (j: nat)
    requires k <= |Encode(bytes)| && Decode(Encode(bytes)[k..]).Some?
    ensures j <= |bytes| && Decode(Encode(bytes)[k..]) == Some(bytes[j..])
    ensures j == 0 <==> k == 0 || bytes == []
  {
    hide Encode, DecodeGroups, WithoutLineBreaks;
    var text, t := Encode(bytes), k / 4;
    EncodedLength(bytes);
    NoBreaksInSuffix(bytes, k);
    DecodedLength(text[k..]);
    WholeGroups(|text|, (|bytes| + 2) / 3, k, t);
    EncodeSuffix(bytes, t);
    j := if t * 3 <= |bytes| then t * 3 else |bytes|;
    RoundTrip(bytes[j..]);
  }

  lemma WholeGroups(length: nat, groups: nat, k: nat, t: nat)
    requires length == groups * 4 && k <= length && (length - k) % 4 == 0 && t == k / 4
    ensures t * 4 == k
  {
  }

  lemma NoBreaksInSuffix(bytes: Text, k: nat)
    requires k <= |Encode(bytes)|
    ensures WithoutLineBreaks(Encode(bytes)[k..]) == Encode(bytes)[k..]
    ensures AT !in Encode(bytes)[k..]
  {
    hide Encode, ValueOf, WithoutLineBreaks;
    EncodeHasNoLineBreaks(bytes);
    var rest := Encode(bytes)[k..];
    forall i | 0 <= i < |rest| ensures rest[i] != 10 && rest[i] != 13 && rest[i] != AT {
      assert rest[i] == Encode(bytes)[k + i];
      if rest[i] != PAD {
        SymbolOfValue(rest[i]);
        AtHasNoValue();
      }
    }
    NoLineBreaksToSkip(rest);
  }

  lemma AtHasNoValue()
    ensures ValueOf(AT).None? && ValueOf(10).None? && ValueOf(13).None?
  {
  }

  /** With the host outside, the parser recovers everything exactly when trimming stops at the Base64 text. */
  lemma HostOutsideParsesExactlyWhen(cipher: Text, password: Text, host: Text, port: Text)
    requires COLON !in cipher && COLON !in host
    ensures Parse(HostOutside(cipher, password, host, port)) == Meant(cipher, password, host, port)
            <==> !StartsTrimmable(Credentials(cipher, password))
  {
    hide Trimmed, Encode, Decode, Finish, Parse, Credentials, Symbol, Meant;
    var uri, head, tail := HostOutside(cipher, password, host, port), Credentials(cipher, password), Credentials(host, port);
    var text := Encode(head);
    var k := OutsideTrimmed(uri, head, tail);
    FirstSymbol(head);
    SymbolTrimmable(head[0]);
    NoBreaksInSuffix(head, k);
    ParseAt(uri, text[k..], tail);
    RoundTrip(head);
    assert text[0..] == text;
    if Decode(text[k..]).Some? {
      var j := DecodeTrimmed(head, k);
      assert head[0..] == head;
      FinishMeans(head[j..], cipher, password, host, port);
    } else {
      NotInvalid(cipher, password, host, port);
    }
  }

  lemma OutsideTrimmed(uri: Text, head: Text, tail: Text) returns (k: nat)
    requires uri == SCHEME + Encode(head) + [AT] + tail
    ensures k <= |Encode(head)| && Trimmed(uri) == Encode(head)[k..] + [AT] + tail
    ensures k == 0 <==> Encode(head) == [] || Encode(head)[0] !in SCHEME
  {
    hide Trimmed, Encode;
    var text := Encode(head);
    SchemeIsTrimmed(text + ([AT] + tail));
    assert uri == SCHEME + (text + ([AT] + tail));
    k := TrimmedIsSuffix(text, [AT] + tail);
    assert text[k..] + ([AT] + tail) == text[k..] + [AT] + tail;
  }

  lemma ParseAt(uri: Text, front: Text, back: Text)
    requires uri != [] && back != [] && AT !in front && Trimmed(uri) == front + [AT] + back
    ensures Parse(uri) == match Decode(front) case None => Invalid case Some(data) => Finish(data, back)
  {
    hide Trimmed, Decode, Finish, IndexOf;
    FirstAt(front, back);
  }

  lemma FinishMeans(head: Text, cipher: Text, password: Text, host: Text, port: Text)
    requires COLON !in cipher && COLON !in host && |head| <= |Credentials(cipher, password)|
    requires |head| == |Credentials(cipher, password)| ==> head == Credentials(cipher, password)
    ensures Finish(head, Credentials(host, port)) == Meant(cipher, password, host, port)
            <==> head == Credentials(cipher, password)
  {
    hide Pair, Credentials, Atoi;
    PairOf(host, port);
    PairOf(cipher, password);
    if head != Credentials(cipher, password) {
      ShorterPairDiffers(head, cipher, password);
    }
  }

  lemma NotInvalid(cipher: Text, password: Text, host: Text, port: Text)
    ensures Meant(cipher, password, host, port) != Invalid
  {
  }

  lemma ShorterPairDiffers(text: Text, cipher: Text, password: Text)
    requires |text| < |Credentials(cipher, password)|
    ensures Pair(text) != Some((cipher, password))
  {
    hide IndexOf;
  }

  /** With all of it inside, likewise. */
  lemma AllInsideParsesExactlyWhen(cipher: Text, password: Text, host: Text, port: Text)
    requires COLON !in cipher && COLON !in host
    requires AT !in cipher && AT !in password && AT !in host && AT !in port
    ensures Parse(AllInside(cipher, password, host, port)) == Meant(cipher, password, host, port)
            <==> !StartsTrimmable(Credentials(cipher, password))
  {
    hide Trimmed, Encode, Decode, Finish, Parse, Credentials, Symbol, Meant, Split;
    var uri, head, tail := AllInside(cipher, password, host, port), Credentials(cipher, password), Credentials(host, port);
    var data := head + [AT] + tail;
    var text := Encode(data);
    NoAtInside(cipher, password);
    NoAtInside(host, port);
    SchemeIsTrimmed(text);
    var k := TrimmedIsSuffix(text, []);
    assert text[k..] + [] == text[k..] && text + [] == text;
    FirstSymbol(data);
    SymbolTrimmable(head[0]);
    assert data[0] == head[0];
    NoBreaksInSuffix(data, k);
    ParseWithoutAt(uri, text[k..]);
    RoundTrip(data);
    assert text[0..] == text;
    NotInvalid(cipher, password, host, port);
    if Decode(text[k..]).Some? {
      var j := DecodeTrimmed(data, k);
      if j <= |head| {
        assert data[j..] == head[j..] + [AT] + tail && head[0..] == head;
        NoAtInSuffix(head, j);
        SplitInTwo(head[j..], tail);
        FinishMeans(head[j..], cipher, password, host, port);
      } else {
        assert data[j..] == tail[j - |head| - 1..];
        NoAtInSuffix(tail, j - |head| - 1);
        SplitWhole(data[j..], AT);
      }
    }
  }

  lemma ParseWithoutAt(uri: Text, text: Text)
    requires uri != [] && AT !in text && Trimmed(uri) == text
    ensures Parse(uri) == match Decode(text)
                          case None => Invalid
                          case Some(data) =>
                            if |Split(data, [AT])| != 2 then Invalid
                            else Finish(Split(data, [AT])[0], Split(data, [AT])[1])
  {
    hide Trimmed, Decode, Finish, IndexOf, Split;
    NotFound(text);
  }

  lemma NoAtInside(front: Text, back: Text)
    requires AT !in front && AT !in back
    ensures AT !in Credentials(front, back)
  {
  }

  lemma NoAtInSuffix(text: Text, j: nat)
    requires AT !in text && j <= |text|
    ensures AT !in text[j..]
  {
  }

  lemma NotFound(text: Text)
    requires AT !in text
    ensures IndexOf(text, AT) == |text|
  {
  }

  lemma SplitInTwo(front: Text, back: Text)
    requires AT !in front && AT !in back
    ensures Split(front + [AT] + back, [AT]) == [front, back]
  {
    SplitAtByte(front, AT, back);
    SplitWhole(back, AT);
  }

  /** For an ASCII method both forms come to the same configuration, the one they were written from. */
  lemma FormsAgree(cipher: Text, password: Text, host: Text, port: Text)
    requires COLON !in cipher && COLON !in host
    requires AT !in cipher && AT !in password && AT !in host && AT !in port
    requires forall i :: 0 <= i < |cipher| ==> cipher[i] < 128
    ensures Parse(HostOutside(cipher, password, host, port)) == Parse(AllInside(cipher, password, host, port))
         == Meant(cipher, password, host, port)
  {
    hide Parse, HostOutside, AllInside, Meant;
    HostOutsideParsesExactlyWhen(cipher, password, host, port);
    AllInsideParsesExactlyWhen(cipher, password, host, port);
  }

  // What is accepted is what was written

  /** Trimming takes off the longest start that has characters of the scheme only. */
  lemma {:induction false} TrimmedIs(text: Text)
    ensures |Trimmed(text)| <= |text| && text[|text| - |Trimmed(text)|..] == Trimmed(text)
    ensures forall i :: 0 <= i < |text| - |Trimmed(text)| ==>
              text[i] == 's' as int || text[i] == ':' as int || text[i] == '/' as int
    ensures Trimmed(text) != [] ==>
              Trimmed(text)[0] != 's' as int && Trimmed(text)[0] != ':' as int && Trimmed(text)[0] != '/' as int
  {
    if text != [] && text[0] in SCHEME {
      TrimmedIs(text[1..]);
      assert text[|text| - |Trimmed(text)|..] == text[1..][|text| - 1 - |Trimmed(text)|..];
      assert forall i :: 1 <= i < |text| ==> text[i] == text[1..][i - 1];
    }
  }

  /** What a text with a colon is made of; the first part has none. */
  lemma PairIs(text: Text)
    ensures Pair(text).Some? <==> COLON in text
    ensures Pair(text).Some? ==>
              var (first, second) := Pair(text).value;
              text == Credentials(first, second) && COLON !in first
  {
    hide IndexOf;
    var i := IndexOf(text, COLON);
    if i < |text| {
      assert text == text[..i] + [COLON] + text[i + 1..];
    }
  }

  /** A complete configuration comes only of one of the two forms, and has what is written there. */
  lemma AcceptedIsWritten(uri: Text) returns (port: Text, encoded: Text)
    requires Parse(uri).Complete?
    ensures var r, u := Parse(uri), Trimmed(uri);
            && Atoi(port) == Parsed(r.port, false) && COLON !in r.cipher && COLON !in r.server
            && ((u == encoded && AT !in u
                 && Decode(encoded) == Some(Credentials(r.cipher, r.password) + [AT] + Credentials(r.server, port)))
                || (u == encoded + [AT] + Credentials(r.server, port) && AT !in encoded
                    && Decode(encoded) == Some(Credentials(r.cipher, r.password))))
  {
    hide Trimmed, Decode, Split, Atoi, IndexOf;
    var u := Trimmed(uri);
    var i := IndexOf(u, AT);
    encoded := u[..i];
    var head, tail;
    if i == |u| {
      assert u[..i] == u;
      var data := Decode(u).value;
      SplitOfTwo(data, AT);
      head, tail := Split(data, [AT])[0], Split(data, [AT])[1];
    } else {
      head, tail := Decode(u[..i]).value, u[i + 1..];
      assert u == u[..i] + [AT] + tail;
    }
    PairIs(head);
    PairIs(tail);
    port := Pair(tail).value.1;
    FinishIs(head, tail);
  }

  lemma FinishIs(head: Text, tail: Text)
    requires Finish(head, tail).Complete?
    ensures var r := Finish(head, tail);
            && Pair(head) == Some((r.cipher, r.password)) && Pair(tail).Some? && Pair(tail).value.0 == r.server
            && Atoi(Pair(tail).value.1) == Parsed(r.port, false)
  {
    hide Pair, Atoi;
  }
}
