/** A connection whose bytes arrive in pieces, read as Go's `io` package reads it. */
module Connections {
  import opened Base64
  import opened Sequences

  /** How many bytes one read takes, with room for `room` of them. */
  function ReadCount(pieces: seq<seq<Byte>>, room: nat): nat {
    if pieces == [] then 0 else if |pieces[0]| < room then |pieces[0]| else room
  }

  function AfterRead(pieces: seq<seq<Byte>>, room: nat): seq<seq<Byte>> {
    if pieces == [] then []
    else if |pieces[0]| <= room then pieces[1..]
    else [pieces[0][room..]] + pieces[1..]
  }

  lemma ReadTakesPrefix(pieces: seq<seq<Byte>>, room: nat)
    requires pieces != []
    ensures var n := ReadCount(pieces, room);
            && pieces[0][..n] + Flat(AfterRead(pieces, room)) == Flat(pieces)
  {
    hide Flat;
    var first, rest := pieces[0], AfterRead(pieces, room);
    FlatFront(pieces);
    if |first| > room {
      FlatFront(rest);
      assert rest[1..] == pieces[1..];
      assert first == first[..room] + rest[0];
    } else {
      assert first[..|first|] == first;
    }
  }

  /** How many bytes `io.ReadAtLeast` takes, with room for `room`, until there are `least`. */
  function Gathered(pieces: seq<seq<Byte>>, room: nat, least: nat): nat
    requires least <= room
    decreases |pieces|
  {
    if least == 0 || pieces == [] then 0
    else
      var n := ReadCount(pieces, room);
      if n >= least then n else n + Gathered(pieces[1..], room - n, least - n)
  }

  /** Enough bytes when there are enough, all bytes otherwise, and never more than there are. */
  lemma {:induction false} GatheredIsEnough(pieces: seq<seq<Byte>>, room: nat, least: nat)
    requires least <= room
    ensures Gathered(pieces, room, least) <= |Flat(pieces)| && Gathered(pieces, room, least) <= room
    ensures Gathered(pieces, room, least) >= least || Gathered(pieces, room, least) == |Flat(pieces)| < least
    decreases |pieces|
  {
    if least > 0 && pieces != [] {
      var n := ReadCount(pieces, room);
      FlatFront(pieces);
      if n < least {
        GatheredIsEnough(pieces[1..], room - n, least - n);
      }
    }
  }

  lemma NothingGathered(pieces: seq<seq<Byte>>, room: nat, least: nat)
    requires least <= room && (least == 0 || pieces == [])
    ensures Gathered(pieces, room, least) == 0
  {
  }

  lemma NoPieces()
    ensures Flat<Byte>([]) == []
  {
  }

  /** A buffer with some data written from an index on. */
  function Filled(buf: seq<Byte>, from: nat, data: seq<Byte>): (now: seq<Byte>)
    requires from + |data| <= |buf|
    ensures |now| == |buf|
  {
    buf[..from] + data + buf[from + |data|..]
  }

  lemma FilledNot(buf: seq<Byte>, from: nat)
    requires from <= |buf|
    ensures Filled(buf, from, []) == buf
  {
  }

  lemma FilledNext(buf: seq<Byte>, from: nat, data: seq<Byte>, k: nat, next: nat)
    requires k < |data| && from + k < |buf| && next == k + 1
    ensures Filled(buf, from, data[..next]) == Filled(buf, from, data[..k])[from + k := data[k]]
  {
  }

  lemma FilledMore(buf: seq<Byte>, from: nat, data: seq<Byte>, more: seq<Byte>, next: nat)
    requires from + |data| + |more| <= |buf| && next == from + |data|
    ensures Filled(Filled(buf, from, data), next, more) == Filled(buf, from, data + more)
  {
    var mid := Filled(buf, from, data);
    assert mid[..next] == buf[..from] + data;
    assert mid[next + |more|..] == buf[next + |more|..];
  }

  class Conn {
    /** What is still to arrive, piece by piece. */
    var pieces: seq<seq<Byte>>

    function Unread(): seq<Byte>
      reads this
    {
      Flat(pieces)
    }

    constructor (pieces: seq<seq<Byte>>)
      ensures this.pieces == pieces
    {
      this.pieces := pieces;
    }

    /** `Read`: at most one piece, and no more than fits; not `ok` at the end of the stream. */
    method Read(buf: array<Byte>, from: nat, to: nat) returns (n: nat, ok: bool)
      requires from < to <= buf.Length
      modifies this, buf
      ensures ok == (old(pieces) != []) && n == ReadCount(old(pieces), to - from) <= to - from
      ensures pieces == AfterRead(old(pieces), to - from)
      ensures n <= |old(Unread())| && Unread() == old(Unread())[n..]
      ensures buf[..] == Filled(old(buf[..]), from, old(Unread())[..n])
    {
      hide Flat, Filled;
      ghost var was, stream := buf[..], Unread();
      if pieces == [] {
        NoPieces();
        FilledNot(was, from);
        return 0, false;
      }
      ReadTakesPrefix(pieces, to - from);
      var first := pieces[0];
      FilledNot(was, from);
      n := if |first| < to - from then |first| else to - from;
      for k := 0 to n
        invariant buf[..] == Filled(was, from, first[..k])
        invariant pieces == old(pieces)
      {
        buf[from + k] := first[k];
        FilledNext(was, from, first, k, k + 1);
      }
      pieces := if |first| <= to - from then pieces[1..] else [first[n..]] + pieces[1..];
      assert first[..n] == stream[..n];
      ok := true;
    }

    /** `io.ReadAtLeast` into a part of the buffer; not `ok` when the stream ended before. */
    method ReadAtLeast(buf: array<Byte>, from: nat, to: nat, least: nat) returns (n: nat, ok: bool)
      requires from <= to <= buf.Length && least <= to - from
      modifies this, buf
      ensures n == Gathered(old(pieces), to - from, least) <= |old(Unread())|
      ensures n <= to - from && ok == (n >= least)
      ensures Unread() == old(Unread())[n..]
      ensures buf[..] == Filled(old(buf[..]), from, old(Unread())[..n])
    {
      hide ReadCount, AfterRead, Flat, Gathered, Filled;
      ghost var was, stream := buf[..], Unread();
      n, ok := 0, true;
      GatheredIsEnough(pieces, to - from, least);
      FilledNot(was, from);
      if least == 0 {
        NothingGathered(pieces, to - from, least);
      }
      while n < least && ok
        invariant n <= |stream| && n <= to - from
        invariant Unread() == stream[n..]
        invariant buf[..] == Filled(was, from, stream[..n])
        invariant Gathered(old(pieces), to - from, least)
               == if n < least then n + Gathered(pieces, to - from - n, least - n) else n
        invariant !ok ==> pieces == []
        decreases |pieces| + (if n < least then 1 else 0), ok
      {
        ghost var m := n;
        GatherStep(pieces, to - from - n, least - n);
        var k;
        k, ok := Read(buf, from + n, to);
        n := n + k;
        FilledMore(was, from, stream[..m], stream[m..][..k], from + m);
        assert stream[..m] + stream[m..][..k] == stream[..n] && stream[m..][k..] == stream[n..];
      }
      if n < least {
        NothingGathered(pieces, to - from - n, least - n);
      }
      ok := n >= least;
    }

    /** `io.ReadFull` of a part of the buffer. */
    method ReadFull(buf: array<Byte>, from: nat, to: nat) returns (ok: bool)
      requires from <= to <= buf.Length
      modifies this, buf
      ensures ok == (to - from <= |old(Unread())|)
      ensures ok ==> Unread() == old(Unread())[to - from..]
      ensures ok ==> buf[..] == Filled(old(buf[..]), from, old(Unread())[..to - from])
      ensures !ok ==> Unread() == [] && buf[..] == Filled(old(buf[..]), from, old(Unread()))
    {
      hide Flat, Filled, Gathered;
      ghost var stream := Unread();
      GatheredIsEnough(pieces, to - from, to - from);
      var n;
      n, ok := ReadAtLeast(buf, from, to, to - from);
      assert !ok ==> stream[..n] == stream;
    }

    /** `io.ReadFull` behind a prefix of the stream that the buffer already holds; when the stream ends, all of it is there. */
    method ReadOn(buf: array<Byte>, from: nat, to: nat, ghost stream: seq<Byte>) returns (ok: bool)
      requires from <= to <= buf.Length && from <= |stream|
      requires buf[..from] == stream[..from] && Unread() == stream[from..]
      modifies this, buf
      ensures ok == (to <= |stream|)
      ensures ok ==> buf[..to] == stream[..to] && Unread() == stream[to..] && buf[to..] == old(buf[to..])
      ensures !ok ==> buf[..] == stream + old(buf[|stream|..]) && Unread() == []
    {
      hide Flat, Filled;
      ghost var was := buf[..];
      assert buf.Length == |was|;
      assert buf[to..] == was[to..];
      ok := ReadFull(buf, from, to);
      if ok {
        Extended(was, stream, from, to);
        assert buf[to..] == buf[..][to..];
      } else {
        Exhausted(was, stream, from);
      }
    }
  }

  lemma Exhausted(buf: seq<Byte>, stream: seq<Byte>, from: nat)
    requires from <= |stream| <= |buf| && buf[..from] == stream[..from]
    ensures Filled(buf, from, stream[from..]) == stream + buf[|stream|..]
  {
  }

  /** A buffer that starts like the stream, after the next bytes of the stream were put behind. */
  lemma Extended(buf: seq<Byte>, stream: seq<Byte>, from: nat, to: nat)
    requires from <= to <= |buf| && to <= |stream| && buf[..from] == stream[..from]
    ensures Filled(buf, from, stream[from..][..to - from])[..to] == stream[..to]
    ensures stream[from..][to - from..] == stream[to..]
    ensures Filled(buf, from, stream[from..][..to - from])[to..] == buf[to..]
  {
    assert stream[..from] + stream[from..][..to - from] == stream[..to];
  }

  /** One read of the loop: it uses up pieces, or it gets what is still missing. */
  lemma GatherStep(pieces: seq<seq<Byte>>, room: nat, least: nat)
    requires 0 < least <= room
    ensures var n := ReadCount(pieces, room); var rest := AfterRead(pieces, room);
            && n <= room
            && Gathered(pieces, room, least) == (if n < least then n + Gathered(rest, room - n, least - n) else n)
            && (pieces == [] ==> rest == [] && n == 0)
            && (pieces != [] ==> n >= least || |rest| < |pieces|)
            && |rest| <= |pieces|
  {
  }
}
