/** DNS messages carried through the tunnel in the host field of a SOCKS frame. */
module DnsCarrier {
  import opened Options
  import opened Base64
  import opened Decimal
  import opened Socks5
  import opened Texts

  /** "dns://" */
  const DNS: Text := [100, 110, 115, 58, 47, 47]
  /** "R://" */
  const CONTROL: Text := [82, 58, 47, 47]
  /** "[" */
  const OPEN: Text := [91]
  /** "]" */
  const CLOSE: Text := [93]

  // Packing, dispatching, unpacking

  function PackDNS(message: Text): Text {
    DNS + Encode(message)
  }

  function UnpackDNS(text: Text): Option<Text> {
    if DNS <= text && |Split(text, DNS)| > 1 then Decode(Split(text, DNS)[1]) else None
  }

  datatype Route = Control | Dns(query: Text) | Tcp(host: Text) | OutOfRange

  /** Where the tunnel's server sends a host; a host that starts "dns://" outright has no part to take. */
  function Dispatch(host: Text): Route {
    if CONTROL <= host then Control
    else if DNS <= host || OPEN + DNS <= host then
      var parts := Split(host, OPEN);
      if |parts| < 2 then OutOfRange else Dns(Split(parts[1], CLOSE)[0])
    else Tcp(host)
  }

  /** What the server's resolver gets of a query that the client packs and sends, whatever follows it. */
  function Delivered(message: Text, tail: Text, showIPv6: Text -> Text): Option<Text> {
    var (host, port) := Target(PackDNS(message), 99);
    var request := ServerRequest(Frame(host, port) + tail, showIPv6);
    if !request.Accepted? then None
    else
      var route := Dispatch(request.host);
      if route.Dns? then UnpackDNS(route.query) else None
  }

  /** A text behind "dns://" that has no colon is what unpacking decodes. */
  lemma UnpackBehindScheme(text: Text)
    requires COLON !in text
    ensures UnpackDNS(DNS + text) == Decode(text)
  {
    hide Decode;
    var whole := DNS + text;
    assert Find(whole, DNS) == 0;
    assert whole[..0] == [] && whole[6..] == text;
    assert DNS[3] == COLON;
    NoSeparator(text, COLON, DNS);
    assert Split(text, DNS) == [text];
  }

  lemma BracketsGoToDns(host: Text)
    requires OPEN + DNS <= host
    ensures |Split(host, OPEN)| >= 2 ==> Dispatch(host) == Dns(Split(Split(host, OPEN)[1], CLOSE)[0])
  {
    hide Split;
    assert host[0] == OPEN[0];
  }

  lemma InBrackets(text: Text, port: Text)
    requires DNS <= text
    ensures JoinHostPort(text, port) == [91] + (text + [93, COLON] + port)
    ensures OPEN + DNS <= [91] + (text + [93, COLON] + port)
  {
    var host := [91] + (text + [93, COLON] + port);
    assert text[3] == COLON;
    assert host == [91] + text + [93, COLON] + port;
    assert host[1..] == text + [93, COLON] + port;
  }

  /** The server strips the brackets that a host with a colon was put in. */
  lemma DispatchStripsBrackets(text: Text, port: Text)
    requires DNS <= text && OPEN[0] !in text && CLOSE[0] !in text && OPEN[0] !in port
    ensures Dispatch(JoinHostPort(text, port)) == Dns(text)
  {
    hide Find, Split, Dispatch, JoinHostPort;
    var rest := text + [93, COLON] + port;
    var host := [91] + rest;
    InBrackets(text, port);
    BracketsGoToDns(host);
    assert [] + [91] + rest == host;
    SplitAtByte([], 91, rest);
    SplitWhole(rest, 91);
    assert rest == text + [93] + ([COLON] + port);
    SplitAtByte(text, 93, [COLON] + port);
  }

  /** Where every host goes, by what it starts with. */
  lemma DispatchExactlyWhen(host: Text)
    ensures Dispatch(host).Control? <==> ['R' as int, ':' as int, '/' as int, '/' as int] <= host
    ensures Dispatch(host).Tcp? <==>
              && !(['R' as int, ':' as int, '/' as int, '/' as int] <= host)
              && !(['d' as int, 'n' as int, 's' as int, ':' as int, '/' as int, '/' as int] <= host)
              && !(['[' as int, 'd' as int, 'n' as int, 's' as int, ':' as int, '/' as int, '/' as int] <= host)
    ensures Dispatch(host).Tcp? ==> Dispatch(host).host == host
    ensures DNS <= host && '[' as int !in host ==> Dispatch(host).OutOfRange?
  {
    hide Split;
    assert OPEN + DNS == ['[' as int, 'd' as int, 'n' as int, 's' as int, ':' as int, '/' as int, '/' as int];
    assert CONTROL <= host ==> host[0] == CONTROL[0];
    assert DNS <= host ==> host[0] == DNS[0];
    if OPEN[0] !in host {
      SplitWhole(host, OPEN[0]);
      assert OPEN == [OPEN[0]];
    }
  }

  /** Only what starts with the scheme is unpacked. */
  lemma UnpacksOnlyScheme(text: Text)
    ensures UnpackDNS(text).Some? ==> ['d' as int, 'n' as int, 's' as int, ':' as int, '/' as int, '/' as int] <= text
    ensures PackDNS(text) == ['d' as int, 'n' as int, 's' as int, ':' as int, '/' as int, '/' as int] + Encode(text)
  {
    hide Encode, Decode;
  }

  // Which messages survive

  lemma PackedText(message: Text)
    ensures var text := Encode(message);
            COLON !in text && OPEN[0] !in text && CLOSE[0] !in text
    ensures |PackDNS(message)| == 6 + (|message| + 2) / 3 * 4
  {
    hide Encode, ValueOf;
    EncodedLength(message);
    EncodeHasNoLineBreaks(message);
    var text := Encode(message);
    forall code | code in text ensures code != COLON && code != OPEN[0] && code != CLOSE[0] {
      NotInAlphabet(code);
    }
  }

  lemma NotInAlphabet(code: int)
    requires code == PAD || ValueOf(code).Some?
    ensures code != 58 && code != 91 && code != 93
  {
  }

  lemma {:induction false} SkippingShortens(text: seq<int>)
    ensures |WithoutLineBreaks(text)| <= |text|
  {
    if text != [] {
      SkippingShortens(text[1..]);
    }
  }

  /** Part of an encoding does not decode to all that was encoded. */
  lemma PartDecodesToLess(message: Text, k: nat)
    requires k <= |Encode(message)| - 1 && k % 4 == 0
    ensures Decode(Encode(message)[..k]) != Some(message)
  {
    hide Encode, DecodeGroups, WithoutLineBreaks;
    var part := WithoutLineBreaks(Encode(message)[..k]);
    EncodedLength(message);
    SkippingShortens(Encode(message)[..k]);
    if DecodeGroups(part).Some? {
      DecodedLength(part);
      assert |part| / 4 <= k / 4 <= (|message| + 2) / 3 - 1;
    }
  }

  lemma ShortMessageSurvives(message: Text, tail: Text, showIPv6: Text -> Text)
    requires |message| <= 186
    ensures Delivered(message, tail, showIPv6) == Some(message)
  {
    hide PackDNS, UnpackDNS, Dispatch, ServerRequest, Frame, JoinHostPort, Itoa, Encode, Decode;
    var packed := PackDNS(message);
    PackedText(message);
    FrameComesBackExactlyWhen(packed, 99, tail, showIPv6);
    PackedIsScheme(message);
    DispatchStripsBrackets(packed, Itoa(99));
    UnpackBehindScheme(Encode(message));
    RoundTrip(message);
  }

  lemma PackedIsScheme(message: Text)
    ensures PackDNS(message) == DNS + Encode(message)
    ensures DNS <= PackDNS(message) && OPEN[0] !in PackDNS(message) && CLOSE[0] !in PackDNS(message)
  {
    hide Encode;
    PackedText(message);
  }

  /** The host that the server takes out of a frame: as many bytes of it as the length byte says. */
  function CutHost(host: Text): Text {
    host[..|host| % 256]
  }

  lemma HostIsCut(host: Text, port: int, tail: Text, showIPv6: Text -> Text)
    ensures var r := ServerRequest(Frame(host, port) + tail, showIPv6);
            r.Accepted? && exists number: nat :: r.host == JoinHostPort(CutHost(host), Itoa(number))
  {
    hide JoinHostPort, Frame, Itoa, PortText;
    FrameHeader(host, port, tail);
    var stream := Frame(host, port) + tail;
    var frame := stream[..FrameEnd(stream)];
    FrameHost(host, port, tail);
    var number: nat := frame[|frame| - 2] as int * 256 + frame[|frame| - 1];
    PortTextIs(frame, number);
    assert frame[3] == stream[3] && frame[4] == stream[4];
    assert frame[5..5 + NameLength(frame)] == stream[5..5 + |host| % 256];
    assert ServerRequest(stream, showIPv6).Accepted? && ServerRequest(stream, showIPv6).host == HostOf(frame, showIPv6);
  }

  lemma FrameHost(host: Text, port: int, tail: Text)
    ensures (Frame(host, port) + tail)[5..5 + |host| % 256] == host[..|host| % 256]
  {
  }

  lemma PortTextIs(frame: Text, number: nat)
    requires |frame| >= 2 && number == frame[|frame| - 2] as int * 256 + frame[|frame| - 1]
    ensures PortText(frame) == Itoa(number)
  {
  }

  lemma LongMessageIsLost(message: Text, tail: Text, showIPv6: Text -> Text)
    requires |message| > 186
    ensures Delivered(message, tail, showIPv6) != Some(message)
  {
    hide PackDNS, UnpackDNS, Dispatch, ServerRequest, Frame, JoinHostPort, Itoa, Encode, Decode;
    var packed := PackDNS(message);
    PackedText(message);
    PackedIsScheme(message);
    HostIsCut(packed, 99, tail, showIPv6);
    var cut := |packed| % 256;
    var host := packed[..cut];
    var r := ServerRequest(Frame(packed, 99) + tail, showIPv6);
    var number: nat :| r.host == JoinHostPort(host, Itoa(number));
    CutIsShort(|message|, |packed|, cut);
    if cut >= 6 {
      var part := Encode(message)[..cut - 6];
      assert host == DNS + part;
      DispatchStripsBrackets(host, Itoa(number));
      UnpackBehindScheme(part);
      PartDecodesToLess(message, cut - 6);
    } else {
      ShortHostIsNotDns(host, Itoa(number));
    }
  }

  lemma CutIsShort(n: nat, packed: nat, cut: nat)
    requires n > 186 && packed == 6 + (n + 2) / 3 * 4 && cut == packed % 256
    ensures cut < packed && cut % 4 == 2 && (cut < 6 ==> cut == 2)
  {
  }

  /** Too little is left of "dns://" for the server to see it. */
  lemma ShortHostIsNotDns(host: Text, port: Text)
    requires host == DNS[..2]
    ensures !Dispatch(JoinHostPort(host, port)).Dns?
  {
    assert host == [100, 110];
    assert JoinHostPort(host, port)[2] == COLON;
    assert !(DNS <= JoinHostPort(host, port)) && !(OPEN + DNS <= JoinHostPort(host, port));
  }

  /** A DNS message gets through the carrier unchanged exactly when it has at most 186 bytes. */
  lemma SurvivesExactlyUpTo186Bytes(message: Text, tail: Text, showIPv6: Text -> Text)
    ensures Delivered(message, tail, showIPv6) == Some(message) <==> |message| <= 186
  {
    if |message| <= 186 {
      ShortMessageSurvives(message, tail, showIPv6);
    } else {
      LongMessageIsLost(message, tail, showIPv6);
    }
  }
}
