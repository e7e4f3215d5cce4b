/** The SOCKS5 framing of section 4 of RFC 1928: one encoder, a client-side and a server-side parser. */
module Socks5 {
  import opened Base64
  import opened Connections
  import opened Decimal
  import opened Options
  import opened Sequences
  import opened Texts

  /** `net.JoinHostPort`: brackets around a host that has a colon itself. */
  function JoinHostPort(host: Text, port: Text): Text {
    if COLON in host then [91] + host + [93, COLON] + port else host + [COLON] + port
  }

  // The encoder

  /** A request to connect to a domain name; the length and the port are cut to what their fields hold. */
  function Frame(host: Text, port: int): (raw: Text) {
    [5, 1, 0, 3, |host| % 256] + host + [port / 256 % 256, port % 256]
  }

  /** With port -1, a host with a colon brings its own port. */
  function Target(host: Text, port: int): (Text, int) {
    if port == -1 && COLON in host then
      var i := IndexOf(host, COLON);
      (host[..i], Atoi(host[i + 1..]).value)
    else
      (host, port)
  }

  method HostToRaw(host: Text, port: int) returns (raw: Text)
    ensures raw == Frame(Target(host, port).0, Target(host, port).1)
    ensures port != -1 || COLON !in host ==>
              raw == [5, 1, 0, 3, |host| % 256] + host + [port / 256 % 256, port % 256]
  {
    var name, number := host, port;
    raw := [];
    if port == -1 && COLON in host {
      var i := IndexOf(host, COLON);
      name := host[..i];
      number := Atoi(host[i + 1..]).value;
    }
    raw := raw + [5, 1, 0, 3, |name| % 256];
    raw := raw + name;
    var bb := [number / 256 % 256, number % 256];
    raw := raw + bb;
  }

  // The client side

  datatype Failure = StreamEnded | BadVersion | BadCommand | BadAddressType | ExtraData | WriteFailed

  datatype Local = Request(raw: Text, host: Text, isUdp: bool) | Failed(failure: Failure) | Panicked

  function NameLength(header: Text): nat
    requires |header| >= 5
  {
    header[4]
  }

  function RequestLength(header: Text): nat
    requires |header| >= 5
  {
    if header[3] == 1 then 10
    else if header[3] == 4 then 22
    else if header[3] == 3 then NameLength(header) + 7
    else NameLength(header) + 5
  }

  /** `idDm0 + buf[idDmLen]`, computed in a byte. */
  function NameEnd(header: Text): nat
    requires |header| >= 5
  {
    (5 + NameLength(header)) % 256
  }

  predicate HasName(header: Text)
    requires |header| >= 5
  {
    header[3] == 3 || header[3] == 5
  }

  /** The parser's 263-byte buffer right after the first bytes came. */
  function Buffered(got: Text): (buf: Text)
    requires |got| <= 263
    ensures |buf| == 263
  {
    got + seq(263 - |got|, i => 0)
  }

  /** The name as the first bytes have it. */
  function FirstHost(got: Text): Text
    requires 5 <= |got| <= 263 && (HasName(got) ==> NameEnd(got) >= 5)
  {
    if HasName(got) then Buffered(got)[5..NameEnd(got)] else []
  }

  /** What the client makes of the bytes it got first and of those still to come. */
  function LocalRequest(got: Text, more: Text): Local
    requires |got| <= 263
  {
    if |got| < 5 then Failed(StreamEnded)
    else if got[0] != 5 && got[0] != 4 then Failed(BadVersion)
    else if got[1] != 1 && got[1] != 3 then Failed(BadCommand)
    else if got[3] != 1 && got[3] != 4 && !HasName(got) then Failed(BadAddressType)
    else if HasName(got) && NameEnd(got) < 5 then Panicked
    else if |got| > RequestLength(got) then Failed(ExtraData)
    else if |got| + |more| < RequestLength(got) then Failed(StreamEnded)
    else
      Request((got + more)[..RequestLength(got)], FirstHost(got), got[1] == 3)
  }

  method GetLocalRequest(conn: Conn) returns (r: Local)
    modifies conn
    ensures var stream, n := old(conn.Unread()), Gathered(old(conn.pieces), 263, 5);
            n <= |stream| && n <= 263 && r == LocalRequest(stream[..n], stream[n..])
    ensures r.Request? ==> r.raw + conn.Unread() == old(conn.Unread())
  {
    hide Flat, Gathered, Filled, Buffered, LocalRequest, FirstHost;
    ghost var stream := conn.Unread();
    var buf := new Byte[263](_ => 0);
    ghost var zeros := buf[..];
    GatheredIsEnough(conn.pieces, 263, 5);
    var n, ok := conn.ReadAtLeast(buf, 0, buf.Length, 5);
    ghost var got := stream[..n];
    LocalRefuses(got, stream[n..]);
    if !ok {
      return Failed(StreamEnded);
    }
    FilledFront(zeros, got);
    assert buf[..n] == got;
    SameStart(buf[..], got, 5);
    var version, command, addrType := buf[0], buf[1], buf[3];
    var nameLength: nat := buf[4];
    assert version == got[0] && command == got[1] && addrType == got[3] && nameLength == NameLength(got);
    if version != 5 && version != 4 {
      return Failed(BadVersion);
    }
    if command != 1 && command != 3 {
      return Failed(BadCommand);
    }
    var reqLen, host: Text := 0, [];
    if addrType == 1 {
      reqLen := 10;
    } else if addrType == 4 {
      reqLen := 22;
    } else if addrType == 3 || addrType == 5 {
      reqLen := if addrType == 3 then nameLength + 7 else nameLength + 5;
      var end := (5 + nameLength) % 256;
      if end < 5 {
        return Panicked;
      }
      host := buf[5..end];
      assert host == buf[..][5..end];
    } else {
      return Failed(BadAddressType);
    }
    LocalTakes(got, stream[n..], reqLen, host);
    Rejoined(stream, n);
    if n == reqLen {
    } else if n < reqLen {
      ok := conn.ReadOn(buf, n, reqLen, stream);
      if !ok {
        return Failed(StreamEnded);
      }
    } else {
      return Failed(ExtraData);
    }
    Rejoined(stream, reqLen);
    r := Request(buf[..reqLen], host, command == 3);
  }

  lemma LocalRefuses(got: Text, more: Text)
    requires |got| <= 263
    ensures |got| < 5 ==> LocalRequest(got, more) == Failed(StreamEnded)
    ensures |got| >= 5 ==>
              var version, command := got[0] == 5 || got[0] == 4, got[1] == 1 || got[1] == 3;
              && (!version ==> LocalRequest(got, more) == Failed(BadVersion))
              && (version && !command ==> LocalRequest(got, more) == Failed(BadCommand))
              && (version && command && got[3] != 1 && got[3] != 4 && got[3] != 3 && got[3] != 5
                  ==> LocalRequest(got, more) == Failed(BadAddressType))
              && (version && command && HasName(got) && NameEnd(got) < 5 ==> LocalRequest(got, more) == Panicked)
  {
  }

  lemma Rejoined(stream: Text, k: nat)
    requires k <= |stream|
    ensures stream[..k] + stream[k..] == stream
  {
  }

  lemma LocalTakes(got: Text, more: Text, length: nat, host: Text)
    requires 5 <= |got| <= 263 && length == RequestLength(got)
    requires (got[0] == 5 || got[0] == 4) && (got[1] == 1 || got[1] == 3)
    requires (got[3] == 1 || got[3] == 4 || HasName(got)) && (HasName(got) ==> NameEnd(got) >= 5)
    requires host == if HasName(got) then Buffered(got)[5..NameEnd(got)] else []
    ensures |got| > length ==> LocalRequest(got, more) == Failed(ExtraData)
    ensures |got| <= length && |got| + |more| < length ==> LocalRequest(got, more) == Failed(StreamEnded)
    ensures |got| <= length <= |got| + |more|
            ==> LocalRequest(got, more) == Request((got + more)[..length], host, got[1] == 3)
  {
    hide Buffered;
  }

  lemma FilledFront(zeros: Text, got: Text)
    requires |got| <= |zeros| == 263 && forall i :: 0 <= i < 263 ==> zeros[i] == 0
    ensures Filled(zeros, 0, got) == Buffered(got)
    ensures Buffered(got)[..|got|] == got
  {
  }

  /** What is wrong with a greeting, from the bytes that came first and those still to come. */
  function Greeting(got: Text, more: Text): Option<Failure> {
    if |got| < 2 then Some(StreamEnded)
    else if got[0] != 5 && got[0] != 4 then Some(BadVersion)
    else if |got| > got[1] as int + 2 then Some(ExtraData)
    else if |got| + |more| < got[1] as int + 2 then Some(StreamEnded)
    else None
  }

  /** The greeting is read to its end, and answered with version 5 and no authentication. */
  method Socks5HandShake(conn: Conn, canWrite: bool) returns (failure: Option<Failure>, reply: Text)
    modifies conn
    ensures var stream, n := old(conn.Unread()), Gathered(old(conn.pieces), 258, 2);
            n <= |stream|
            && failure == (if canWrite || Greeting(stream[..n], stream[n..]).Some? then Greeting(stream[..n], stream[n..])
                           else Some(WriteFailed))
    ensures reply == if failure.None? then [5, 0] else []
    ensures failure.None? ==>
              var stream := old(conn.Unread());
              && |stream| >= 2 && stream[1] as int + 2 <= |stream|
              && conn.Unread() == stream[stream[1] as int + 2..]
  {
    hide Flat, Gathered, Filled, Greeting;
    ghost var stream := conn.Unread();
    var buf := new Byte[258](_ => 0);
    ghost var zeros := buf[..];
    GatheredIsEnough(conn.pieces, 258, 2);
    var n, ok := conn.ReadAtLeast(buf, 0, buf.Length, 2);
    GreetingIs(stream[..n], stream[n..]);
    if !ok {
      return Some(StreamEnded), [];
    }
    FilledStart(zeros, stream[..n]);
    SameStart(buf[..], stream, n);
    var version := buf[0];
    var msgLen: nat := buf[1] as int + 2;
    if version != 5 && version != 4 {
      return Some(BadVersion), [];
    }
    if n == msgLen {
    } else if n < msgLen {
      ok := conn.ReadOn(buf, n, msgLen, stream);
      if !ok {
        return Some(StreamEnded), [];
      }
    } else {
      return Some(ExtraData), [];
    }
    if !canWrite {
      return Some(WriteFailed), [];
    }
    return None, [5, 0];
  }

  lemma GreetingIs(got: Text, more: Text)
    ensures |got| < 2 ==> Greeting(got, more) == Some(StreamEnded)
    ensures |got| >= 2 && got[0] != 5 && got[0] != 4 ==> Greeting(got, more) == Some(BadVersion)
    ensures |got| >= 2 && (got[0] == 5 || got[0] == 4) ==>
              Greeting(got, more) == if |got| > got[1] as int + 2 then Some(ExtraData)
                                     else if |got| + |more| < got[1] as int + 2 then Some(StreamEnded) else None
  {
  }

  lemma FilledStart(zeros: Text, got: Text)
    requires |got| <= |zeros|
    ensures Filled(zeros, 0, got)[..|got|] == got
  {
  }

  // The server side

  datatype Server = Accepted(host: Text, raw: Text, isUdp: bool) | NotSocks | BadAddress | Ended

  /** Where the frame ends; addresses take the low four bits of the type byte. */
  function FrameEnd(stream: Text): nat
    requires |stream| >= 4 && (|stream| == 4 ==> stream[3] % 16 == 1 || stream[3] % 16 == 4)
  {
    match stream[3] % 16
    case 1 => 10
    case 4 => 26
    case 3 => NameLength(stream) + 7
    case _ => NameLength(stream) + 5
  }

  function Dotted(ip: Text): Text
    requires |ip| == 4
  {
    Itoa(ip[0]) + [46] + Itoa(ip[1]) + [46] + Itoa(ip[2]) + [46] + Itoa(ip[3])
  }

  /** Between the dots of an address stand its bytes, in order. */
  lemma DottedReadsBack(ip: Text)
    requires |ip| == 4
    ensures var parts := Split(Dotted(ip), [46]);
            |parts| == 4 && forall k :: 0 <= k < 4 ==> Atoi(parts[k]) == Parsed(ip[k], false)
  {
    hide Itoa, Atoi, Split;
    var a, b, c, d := Itoa(ip[0]), Itoa(ip[1]), Itoa(ip[2]), Itoa(ip[3]);
    forall k | 0 <= k < 4 ensures Atoi(Itoa(ip[k])) == Parsed(ip[k], false) {
      AtoiOfItoa(ip[k]);
    }
    assert 46 !in a && 46 !in b && 46 !in c && 46 !in d;
    assert Dotted(ip) == a + [46] + (b + [46] + (c + [46] + d));
    SplitAtByte(a, 46, b + [46] + (c + [46] + d));
    SplitAtByte(b, 46, c + [46] + d);
    SplitAtByte(c, 46, d);
    SplitWhole(d, 46);
  }

  function PortText(frame: Text): Text
    requires |frame| >= 2
  {
    Itoa(frame[|frame| - 2] as int * 256 + frame[|frame| - 1])
  }

  /** The host of a whole frame; `showIPv6` stands for `net.IP.String` of 16 bytes. */
  function HostOf(frame: Text, showIPv6: Text -> Text): Text
    requires |frame| >= 5 && |frame| == FrameEnd(frame)
  {
    match frame[3] % 16
    case 1 => JoinHostPort(Dotted(frame[4..8]), PortText(frame))
    case 4 => JoinHostPort(showIPv6(frame[4..20]), PortText(frame))
    case 3 => JoinHostPort(frame[5..5 + NameLength(frame)], PortText(frame))
    case _ => frame[5..5 + NameLength(frame)]
  }

  /** What the server makes of a stream of bytes. */
  function ServerRequest(stream: Text, showIPv6: Text -> Text): Server {
    if |stream| < 4 then Ended
    else if (stream[0] != 5 && stream[0] != 4) || (stream[1] != 1 && stream[1] != 3) then NotSocks
    else if stream[3] % 16 !in {1, 3, 4, 9} then BadAddress
    else if |stream| < 5 || |stream| < FrameEnd(stream) then Ended
    else
      var frame := stream[..FrameEnd(stream)];
      Accepted(HostOf(frame, showIPv6), frame, stream[1] == 3)
  }

  /** What comes with the error of a stream that ended early: the frame as far as it came, zeros behind, once its end is known. */
  function Padded(stream: Text): (raw: Text)
    ensures raw == [] || stream <= raw
  {
    if |stream| < 4 || stream[3] % 16 !in {1, 3, 4, 9} || (|stream| == 4 && stream[3] % 16 in {3, 9})
       || FrameEnd(stream) < |stream| then []
    else stream + seq(FrameEnd(stream) - |stream|, i => 0)
  }

  /** What is left for whoever takes over a stream that is not SOCKS: the header and one more read. */
  method ReadRest(conn: Conn, header: Text) returns (raw: Text)
    requires |header| == 4
    modifies conn
    ensures raw != [] ==> raw + conn.Unread() == header + old(conn.Unread())
    ensures raw == [] <==> old(conn.pieces) == []
  {
    hide Flat, Filled, ReadCount, AfterRead;
    ghost var stream := conn.Unread();
    var buf1 := new Byte[1401](i => if 0 <= i < 4 then header[i] else 0);
    ghost var before := buf1[..];
    assert before[..4] == header;
    var n, ok := conn.Read(buf1, 4, buf1.Length);
    if !ok {
      return [];
    }
    FilledThen(before, header, stream[..n]);
    assert stream[..n] + stream[n..] == stream;
    raw := buf1[..4 + n];
  }

  lemma FilledThen(buf: Text, header: Text, data: Text)
    requires |header| + |data| <= |buf| && buf[..|header|] == header
    ensures Filled(buf, |header|, data)[..|header| + |data|] == header + data
  {
  }

  /**
   * The raw bytes of a request, and of a stream that is not SOCKS, are with what is left to read
   * all that had come; those of a stream that ended early are padded.
   */
  method GetServerRequest(conn: Conn, showIPv6: Text -> Text) returns (r: Server, raw: Text, isUdp: bool)
    modifies conn
    ensures r == ServerRequest(old(conn.Unread()), showIPv6)
    ensures r.Accepted? ==> raw == r.raw
    ensures r.Accepted? || (r.NotSocks? && raw != []) ==> raw + conn.Unread() == old(conn.Unread())
    ensures r.Ended? ==> raw == Padded(old(conn.Unread())) && conn.Unread() == []
    ensures r.BadAddress? ==> raw == [] && conn.Unread() == old(conn.Unread())[4..]
    ensures isUdp == (|old(conn.Unread())| >= 4 && old(conn.Unread())[1] == 3)
  {
    hide Flat, HostOf, Padded, ServerRequest, FrameEnd;
    ghost var stream := conn.Unread();
    raw, isUdp := [], false;
    ServerRefuses(stream, showIPv6);
    var buf := new Byte[269](_ => 0);
    ghost var zeros := buf[..];
    PaddedNot(stream);
    var ok := conn.ReadOn(buf, 0, 4, stream);
    if !ok {
      return Ended, [], false;
    }
    SameStart(buf[..], stream, 4);
    isUdp := buf[1] == 3;
    if (buf[0] != 5 && buf[0] != 4) || (buf[1] != 1 && buf[1] != 3) {
      raw := ReadRest(conn, buf[..4]);
      return NotSocks, raw, isUdp;
    }
    var addrType := buf[3] % 16;
    var reqStart, reqEnd := 4, 0;
    if addrType == 1 {
      reqEnd := 10;
    } else if addrType == 4 {
      reqEnd := 4 + 22;
    } else if addrType == 3 || addrType == 9 {
      ok := conn.ReadOn(buf, 4, 5, stream);
      if !ok {
        return Ended, [], isUdp;
      }
      assert zeros[4..][1..] == zeros[5..];
      SameStart(buf[..], stream, 5);
      var nameLength: int := buf[4];
      reqStart, reqEnd := 5, if addrType == 3 then nameLength + 7 else nameLength + 5;
    } else {
      return BadAddress, [], isUdp;
    }
    assert buf[reqStart..] == zeros[reqStart..];
    ServerTakesFrame(stream, reqEnd, showIPv6);
    ok := conn.ReadOn(buf, reqStart, reqEnd, stream);
    raw := buf[..reqEnd];
    if !ok {
      assert zeros[reqStart..][|stream| - reqStart..] == zeros[|stream|..];
      PaddedIs(stream, zeros, reqEnd);
      return Ended, raw, isUdp;
    }
    Rejoined(stream, reqEnd);
    r := Accepted(HostOf(raw, showIPv6), raw, isUdp);
  }

  lemma ServerRefuses(stream: Text, showIPv6: Text -> Text)
    ensures |stream| < 4 ==> ServerRequest(stream, showIPv6) == Ended
    ensures |stream| >= 4 ==>
              var socks := (stream[0] == 5 || stream[0] == 4) && (stream[1] == 1 || stream[1] == 3);
              && (!socks ==> ServerRequest(stream, showIPv6) == NotSocks)
              && (socks && stream[3] % 16 !in {1, 3, 4, 9} ==> ServerRequest(stream, showIPv6) == BadAddress)
              && (socks && |stream| == 4 && stream[3] % 16 in {3, 9} ==> ServerRequest(stream, showIPv6) == Ended)
  {
  }

  lemma ServerTakesFrame(stream: Text, end: nat, showIPv6: Text -> Text)
    requires |stream| >= 4 && (stream[0] == 5 || stream[0] == 4) && (stream[1] == 1 || stream[1] == 3)
    requires stream[3] % 16 in {1, 3, 4, 9} && (|stream| == 4 ==> stream[3] % 16 !in {3, 9})
    requires end == match stream[3] % 16 case 1 => 10 case 4 => 26 case 3 => stream[4] as int + 7 case _ => stream[4] as int + 5
    ensures end == FrameEnd(stream)
    ensures |stream| < end ==> ServerRequest(stream, showIPv6) == Ended
    ensures |stream| >= end ==>
              && |stream[..end]| >= 5 && FrameEnd(stream[..end]) == end
              && ServerRequest(stream, showIPv6) == Accepted(HostOf(stream[..end], showIPv6), stream[..end], stream[1] == 3)
  {
    hide HostOf;
  }

  lemma PaddedNot(stream: Text)
    ensures |stream| < 4 || (|stream| == 4 && stream[3] % 16 in {3, 9}) ==> Padded(stream) == []
  {
  }

  lemma PaddedIs(stream: Text, zeros: Text, end: nat)
    requires |stream| >= 4 && stream[3] % 16 in {1, 3, 4, 9} && (|stream| == 4 ==> stream[3] % 16 !in {3, 9})
    requires |stream| < end == FrameEnd(stream) && end <= |zeros| && forall i :: 0 <= i < |zeros| ==> zeros[i] == 0
    ensures (stream + zeros[|stream|..])[..end] == Padded(stream)
  {
  }

  lemma SameStart(buf: Text, stream: Text, k: nat)
    requires k <= |buf| && k <= |stream| && buf[..k] == stream[..k]
    ensures forall i :: 0 <= i < k ==> buf[i] == stream[i]
  {
    assert forall i :: 0 <= i < k ==> buf[..k][i] == stream[..k][i];
  }

  // What the parsers keep

  /** A request of section 4 of RFC 1928, with either version that the parsers take. */
  predicate IsRequest(f: Text) {
    IsLocalRequest(f) && f[3] != 5
  }

  /** The client also takes a request to change its configuration, of address type 5. */
  predicate IsLocalRequest(f: Text) {
    && |f| >= 5 && (f[0] == 5 || f[0] == 4) && (f[1] == 1 || f[1] == 3)
    && (f[3] == 1 || f[3] == 3 || f[3] == 4 || f[3] == 5)
    && |f| == (if f[3] == 1 then 10 else if f[3] == 4 then 22 else if f[3] == 3 then f[4] as int + 7 else f[4] as int + 5)
  }

  /**
   * However the bytes of a request arrive, the client panics on a name of more than 250 bytes, as
   * the end of the name is computed in a byte; otherwise it hands on the whole request, unless its
   * first bytes already reached beyond it.
   */
  lemma LocalAcceptsExactlyWhen(pieces: seq<seq<Byte>>, f: Text, tail: Text)
    requires IsLocalRequest(f) && Flat(pieces) == f + tail
    ensures var n, stream := Gathered(pieces, 263, 5), f + tail;
            && n <= |stream| && n <= 263
            && var r := LocalRequest(stream[..n], stream[n..]);
               && (r.Panicked? <==> (f[3] == 3 || f[3] == 5) && f[4] > 250)
               && (!r.Panicked? && n <= |f| ==> r.Request? && r.raw == f && r.isUdp == (f[1] == 3))
               && (!r.Panicked? && n > |f| ==> r == Failed(ExtraData))
               && (tail == [] ==> n <= |f|)
  {
    hide Flat, Gathered, Buffered;
    GatheredIsEnough(pieces, 263, 5);
    var n, stream := Gathered(pieces, 263, 5), f + tail;
    var got := stream[..n];
    assert got[0] == f[0] && got[1] == f[1] && got[3] == f[3] && got[4] == f[4];
    assert got + stream[n..] == stream;
    assert stream[..|f|] == f;
  }

  /** However a greeting arrives, it is confirmed unless its first bytes already reached beyond it. */
  lemma GreetingConfirmedExactlyWhen(pieces: seq<seq<Byte>>, g: Text, tail: Text)
    requires |g| >= 2 && (g[0] == 5 || g[0] == 4) && |g| == g[1] as int + 2
    requires Flat(pieces) == g + tail
    ensures var n, stream := Gathered(pieces, 258, 2), g + tail;
            && n <= |stream|
            && Greeting(stream[..n], stream[n..]) == (if n <= |g| then None else Some(ExtraData))
            && (tail == [] ==> n <= |g|)
  {
    hide Flat, Gathered;
    GatheredIsEnough(pieces, 258, 2);
    var n, stream := Gathered(pieces, 258, 2), g + tail;
    assert stream[..n][0] == g[0] && stream[..n][1] == g[1];
  }

  /** The host comes from the first bytes alone: it is the name when what is still missing of it is all zero. */
  lemma HostFollowsArrival(f: Text, n: nat)
    requires IsLocalRequest(f) && (f[3] == 3 || f[3] == 5) && f[4] <= 250 && 5 <= n <= |f|
    ensures var r := LocalRequest(f[..n], f[n..]);
            r.Request? && (r.host == f[5..5 + NameLength(f)] <==> forall k :: n <= k < 5 + NameLength(f) ==> f[k] == 0)
  {
    hide LocalRequest;
    var got, name := f[..n], f[5..5 + NameLength(f)];
    assert got[0] == f[0] && got[1] == f[1] && got[3] == f[3] && got[4] == f[4];
    FirstHostIs(f, n);
    var host := FirstHost(got);
    LocalTakes(got, f[n..], |f|, host);
    assert forall j :: 0 <= j < NameLength(f) ==> name[j] == f[j + 5];
    if host == name {
      forall k | n <= k < 5 + NameLength(f) ensures f[k] == 0 {
        assert host[k - 5] == name[k - 5];
      }
    }
  }

  /** The name in the first bytes, with zeros for those still missing. */
  lemma FirstHostIs(f: Text, n: nat)
    requires IsLocalRequest(f) && HasName(f) && f[4] <= 250 && 5 <= n <= |f|
    ensures var got, end := f[..n], 5 + NameLength(f);
            && n <= 263 && HasName(got) && NameEnd(got) == end && |FirstHost(got)| == NameLength(f)
            && forall j :: 0 <= j < NameLength(f) ==> FirstHost(got)[j] == if j + 5 < n then f[j + 5] else 0
  {
    var got := f[..n];
    assert got[3] == f[3] && got[4] == f[4];
    assert FirstHost(got) == Buffered(got)[5..5 + NameLength(f)];
  }

  /** The server on a request and what follows it. */
  lemma ServerTakes(f: Text, tail: Text, showIPv6: Text -> Text)
    requires IsRequest(f)
    ensures var r := ServerRequest(f + tail, showIPv6);
            && (f[3] != 4 ==> r.Accepted? && r.raw == f && r.isUdp == (f[1] == 3))
            && (f[3] == 4 && |tail| >= 4 ==> r.Accepted? && r.raw == f + tail[..4])
            && (f[3] == 4 && |tail| < 4 ==> r == Ended)
  {
    hide HostOf;
    var stream := f + tail;
    assert stream[0] == f[0] && stream[1] == f[1] && stream[3] == f[3] && stream[4] == f[4];
    if f[3] != 4 {
      assert stream[..|f|] == f;
    } else if |tail| >= 4 {
      assert stream[..26] == f + tail[..4];
    }
  }

  /**
   * The server reads back a request and leaves all that follows it, exactly when the address is
   * not IPv6: for IPv6 it takes four bytes more than the client sends.
   */
  lemma RelayIsTransparentExactly(f: Text, showIPv6: Text -> Text)
    requires IsRequest(f)
    ensures (forall tail :: ServerRequest(f + tail, showIPv6).Accepted?
                            && ServerRequest(f + tail, showIPv6).raw == f)
            <==> f[3] != 4
  {
    hide ServerRequest;
    forall tail | f[3] != 4
      ensures ServerRequest(f + tail, showIPv6).Accepted? && ServerRequest(f + tail, showIPv6).raw == f
    {
      ServerTakes(f, tail, showIPv6);
    }
    ServerTakes(f, [], showIPv6);
  }

  /** A port as its decimal digits. */
  predicate IsPort(text: Text, port: int) {
    Atoi(text) == Parsed(port, false) && text != [] && forall i :: 0 <= i < |text| ==> 48 <= text[i] <= 57
  }

  /** An address as four numbers between dots, then a colon and a port. */
  predicate IsDottedHost(host: Text, ip: Text, port: int)
    requires |ip| == 4
  {
    var ends := Split(host, [COLON]);
    && |ends| == 2 && IsPort(ends[1], port)
    && var parts := Split(ends[0], [46]);
       |parts| == 4 && forall k :: 0 <= k < 4 ==> Atoi(parts[k]) == Parsed(ip[k], false)
  }

  /** A name, in brackets if it has a colon itself, then a colon and a port. */
  ghost predicate IsNamedHost(host: Text, name: Text, port: int) {
    exists text :: IsPort(text, port)
                   && host == (if COLON in name then [91] + name + [93] else name) + [COLON] + text
  }

  /** What the server accepts, from which bytes it takes the host and the port, and how far it reads. */
  lemma AcceptedExactlyWhen(stream: Text, showIPv6: Text -> Text)
    ensures var r := ServerRequest(stream, showIPv6);
            && (r.Accepted? <==>
                  && |stream| >= 5 && (stream[0] == 5 || stream[0] == 4) && (stream[1] == 1 || stream[1] == 3)
                  && (stream[3] % 16 == 1 ==> |stream| >= 10)
                  && (stream[3] % 16 == 4 ==> |stream| >= 26)
                  && (stream[3] % 16 == 3 ==> |stream| >= stream[4] as int + 7)
                  && (stream[3] % 16 == 9 ==> |stream| >= stream[4] as int + 5)
                  && (stream[3] % 16 == 1 || stream[3] % 16 == 3 || stream[3] % 16 == 4 || stream[3] % 16 == 9))
            && (r.NotSocks? <==>
                  |stream| >= 4 && !((stream[0] == 5 || stream[0] == 4) && (stream[1] == 1 || stream[1] == 3)))
            && (r.BadAddress? ==> stream[3] % 16 != 1 && stream[3] % 16 != 3 && stream[3] % 16 != 4 && stream[3] % 16 != 9)
            && (r.Accepted? ==>
                  && r.isUdp == (stream[1] == 3)
                  && (stream[3] % 16 == 1 ==>
                        r.raw == stream[..10] && IsDottedHost(r.host, stream[4..8], stream[8] as int * 256 + stream[9]))
                  && (stream[3] % 16 == 4 ==>
                        r.raw == stream[..26]
                        && IsNamedHost(r.host, showIPv6(stream[4..20]), stream[24] as int * 256 + stream[25]))
                  && (stream[3] % 16 == 3 ==>
                        var n := stream[4] as int;
                        r.raw == stream[..n + 7]
                        && IsNamedHost(r.host, stream[5..n + 5], stream[n + 5] as int * 256 + stream[n + 6]))
                  && (stream[3] % 16 == 9 ==>
                        var n := stream[4] as int; r.raw == stream[..n + 5] && r.host == stream[5..n + 5]))
  {
    hide IsDottedHost, IsNamedHost, Dotted, JoinHostPort, PortText;
    if ServerRequest(stream, showIPv6).Accepted? {
      HostIsSpelled(stream, showIPv6);
    }
  }

  lemma HostIsSpelled(stream: Text, showIPv6: Text -> Text)
    requires |stream| >= 5 && stream[3] % 16 in {1, 3, 4, 9} && |stream| >= FrameEnd(stream)
    ensures var frame := stream[..FrameEnd(stream)]; var host := HostOf(frame, showIPv6); var n := stream[4] as int;
            && (stream[3] % 16 == 1 ==> IsDottedHost(host, stream[4..8], stream[8] as int * 256 + stream[9]))
            && (stream[3] % 16 == 4 ==>
                  IsNamedHost(host, showIPv6(stream[4..20]), stream[24] as int * 256 + stream[25]))
            && (stream[3] % 16 == 3 ==>
                  IsNamedHost(host, stream[5..n + 5], stream[n + 5] as int * 256 + stream[n + 6]))
            && (stream[3] % 16 == 9 ==> host == stream[5..n + 5])
  {
    hide IsDottedHost, IsNamedHost, Dotted, JoinHostPort, PortText;
    var frame, n := stream[..FrameEnd(stream)], stream[4] as int;
    assert frame[3] == stream[3] && frame[4] == stream[4];
    PortIsSpelled(frame);
    if stream[3] % 16 == 1 {
      assert frame[4..8] == stream[4..8];
      DottedIsSpelled(stream[4..8], PortText(frame), stream[8] as int * 256 + stream[9]);
    } else if stream[3] % 16 == 4 {
      assert frame[4..20] == stream[4..20];
      NameIsSpelled(showIPv6(stream[4..20]), PortText(frame), stream[24] as int * 256 + stream[25]);
    } else if stream[3] % 16 == 3 {
      assert frame[5..n + 5] == stream[5..n + 5];
      NameIsSpelled(stream[5..n + 5], PortText(frame), stream[n + 5] as int * 256 + stream[n + 6]);
    } else {
      assert frame[5..n + 5] == stream[5..n + 5];
    }
  }

  lemma PortIsSpelled(frame: Text)
    requires |frame| >= 2
    ensures IsPort(PortText(frame), frame[|frame| - 2] as int * 256 + frame[|frame| - 1])
  {
    hide Itoa, Atoi;
    AtoiOfItoa(frame[|frame| - 2] as int * 256 + frame[|frame| - 1]);
  }

  lemma DottedIsSpelled(ip: Text, text: Text, port: int)
    requires |ip| == 4 && IsPort(text, port)
    ensures IsDottedHost(JoinHostPort(Dotted(ip), text), ip, port)
  {
    hide Atoi, Split, Itoa;
    DottedReadsBack(ip);
    DottedHasNoColon(ip);
    SplitAtByte(Dotted(ip), COLON, text);
    SplitWhole(text, COLON);
    assert Dotted(ip) + [COLON] + text == JoinHostPort(Dotted(ip), text);
  }

  lemma DottedHasNoColon(ip: Text)
    requires |ip| == 4
    ensures COLON !in Dotted(ip)
  {
    hide Itoa;
    var a, b, c, d := Itoa(ip[0]), Itoa(ip[1]), Itoa(ip[2]), Itoa(ip[3]);
    assert COLON !in a && COLON !in b && COLON !in c && COLON !in d;
  }

  lemma NameIsSpelled(name: Text, text: Text, port: int)
    requires IsPort(text, port)
    ensures IsNamedHost(JoinHostPort(name, text), name, port)
  {
    hide IsPort;
    assert JoinHostPort(name, text) == (if COLON in name then [91] + name + [93] else name) + [COLON] + text;
  }

  /**
   * From the browser to the far end: a request that is not IPv6 and has no overlong name gets through
   * whole, and the host that the server goes on with is the address or name and the port of the request.
   */
  lemma RequestSurvivesRelay(pieces: seq<seq<Byte>>, f: Text, tail: Text, showIPv6: Text -> Text)
    requires IsRequest(f) && Flat(pieces) == f
    requires f[3] != 4 && (f[3] == 3 ==> f[4] <= 250)
    ensures var n := Gathered(pieces, 263, 5);
            && n <= |f| && n <= 263 && LocalRequest(f[..n], f[n..]).Request?
            && var r := ServerRequest(LocalRequest(f[..n], f[n..]).raw + tail, showIPv6);
               && r.Accepted? && r.raw == f && r.isUdp == (f[1] == 3)
               && (f[3] == 1 ==> IsDottedHost(r.host, f[4..8], f[8] as int * 256 + f[9]))
               && (f[3] == 3 ==>
                     IsNamedHost(r.host, f[5..5 + NameLength(f)], f[|f| - 2] as int * 256 + f[|f| - 1]))
  {
    hide HostOf, LocalRequest, Gathered, Flat, IsDottedHost, IsNamedHost, ServerRequest;
    assert f + [] == f;
    LocalAcceptsExactlyWhen(pieces, f, []);
    ServerTakes(f, tail, showIPv6);
    AcceptedExactlyWhen(f + tail, showIPv6);
    if f[3] == 1 {
      SameSlice(f, tail, 4, 8);
    } else {
      SameSlice(f, tail, 5, 5 + NameLength(f));
    }
  }

  lemma SameSlice(f: Text, tail: Text, from: nat, to: nat)
    requires from <= to <= |f|
    ensures (f + tail)[from..to] == f[from..to]
  {
  }

  lemma FrameHeader(host: Text, port: int, tail: Text)
    ensures var raw := Frame(host, port); var stream := raw + tail;
            && |raw| == |host| + 7
            && raw[0] == 5 && raw[1] == 1 && raw[3] == 3 && raw[4] == |host| % 256
            && |stream| >= 7 && stream[0] == 5 && stream[1] == 1 && stream[3] == 3 && stream[4] == |host| % 256
            && FrameEnd(stream) == |host| % 256 + 7
  {
  }

  /**
   * The server always takes a frame that the encoder made; what it takes is the whole frame exactly
   * when the host has at most 255 bytes, and then the host and the port are the encoded ones.
   */
  lemma FrameComesBackExactlyWhen(host: Text, port: int, tail: Text, showIPv6: Text -> Text)
    ensures var r := ServerRequest(Frame(host, port) + tail, showIPv6);
            && r.Accepted? && !r.isUdp
            && (r.raw == Frame(host, port) <==> |host| <= 255)
            && (|host| <= 255 ==> r.host == JoinHostPort(host, Itoa(port % 65536)))
  {
    hide Frame, JoinHostPort, HostOf;
    var raw := Frame(host, port);
    var stream := raw + tail;
    FrameHeader(host, port, tail);
    if |host| <= 255 {
      assert stream[..|raw|] == raw;
      HostOfFrame(host, port, showIPv6);
    }
  }

  lemma HostOfFrame(host: Text, port: int, showIPv6: Text -> Text)
    requires |host| <= 255
    ensures var raw := Frame(host, port);
            |raw| >= 5 && |raw| == FrameEnd(raw) && HostOf(raw, showIPv6) == JoinHostPort(host, Itoa(port % 65536))
  {
    hide JoinHostPort, Itoa;
    var raw := Frame(host, port);
    assert raw[5..5 + NameLength(raw)] == host;
    PortBytes(port);
    assert raw[|raw| - 2] == port / 256 % 256 && raw[|raw| - 1] == port % 256;
  }

  lemma PortBytes(port: int)
    ensures port / 256 % 256 * 256 + port % 256 == port % 65536
  {
  }

  /** "h:p" comes back as "h:p" exactly when `p` is a port number as it is printed. */
  lemma HostPortComesBackExactlyWhen(h: Text, p: Text, tail: Text, showIPv6: Text -> Text)
    requires COLON !in h && |h| <= 255
    ensures var (name, port) := Target(h + [COLON] + p, -1); var r := ServerRequest(Frame(name, port) + tail, showIPv6);
            r.Accepted? && (r.host == h + [COLON] + p <==> exists n: nat :: n < 65536 && p == Itoa(n))
  {
    hide Frame, ServerRequest, Itoa, Atoi, Target, IndexOf;
    TargetOfPair(h, p);
    var port := Atoi(p).value;
    FrameComesBackExactlyWhen(h, port, tail, showIPv6);
    SameEnds(h + [COLON], Itoa(port % 65536), p);
    if n: nat :| n < 65536 && p == Itoa(n) {
      AtoiOfItoa(n);
    }
  }

  lemma TargetOfPair(h: Text, p: Text)
    requires COLON !in h
    ensures Target(h + [COLON] + p, -1) == (h, Atoi(p).value)
  {
    hide Atoi;
    var text := h + [COLON] + p;
    assert text[|h|] == COLON && forall k :: 0 <= k < |h| ==> text[k] == h[k];
    assert IndexOf(text, COLON) == |h|;
    assert text[..|h|] == h && text[|h| + 1..] == p;
  }

  lemma SameEnds(front: Text, a: Text, b: Text)
    ensures front + a == front + b <==> a == b
  {
    assert (front + a)[|front|..] == a && (front + b)[|front|..] == b;
  }
}
