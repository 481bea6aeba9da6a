/** Receiving BFCP messages over TCP (bfcp/sock.c). */
module BfcpConnection {
  import opened Memory
  import opened BfcpAttr
  import opened BfcpList
  import opened BfcpMessage

  /** A connection: whether it is still up, the bytes of an incomplete message, and the messages handed on. */
  datatype Conn = Conn(open: bool, rx: seq<byte>, got: seq<Msg>)

  const Connected := Conn(true, [], [])

  /** Takes messages off the bytes received until the last one is incomplete; a broken one ends it all. */
  function Drain(rx: seq<byte>, got: seq<Msg>): Conn
    decreases |rx|
  {
    match DecodeMsg(rx)
    case Broken => Conn(false, [], got)
    case More => Conn(true, rx, got)
    case Got(m, n) => if n == |rx| then Conn(true, [], got + [m]) else Drain(rx[n..], got + [m])
  }

  lemma DrainStep(rx: seq<byte>, got: seq<Msg>)
    ensures var r := DecodeMsg(rx);
            Drain(rx, got) == if r.Broken? then Conn(false, [], got)
                              else if r.More? then Conn(true, rx, got)
                              else if r.n == |rx| then Conn(true, [], got + [r.v])
                              else Drain(rx[r.n..], got + [r.v])
  {
    hide DecodeMsg;
  }

  function Receive(c: Conn, segment: seq<byte>): Conn {
    if c.open then Drain(c.rx + segment, c.got) else c
  }

  function ReceiveAll(c: Conn, segments: seq<seq<byte>>): Conn
    decreases |segments|
  {
    if segments == [] then c else ReceiveAll(Receive(c, segments[0]), segments[1..])
  }

  class BfcpConn {
    var open: bool
    var mbrx: Mbuf?
    var got: seq<Msg>

    ghost predicate Valid()
      reads this, mbrx
    {
      mbrx != null ==> mbrx.Valid() && mbrx.pos <= mbrx.end
    }

    ghost function Value(): Conn
      requires Valid()
      reads this, mbrx
    {
      Conn(open, if mbrx == null then [] else mbrx.Rest(), got)
    }

    constructor ()
      ensures Valid() && Value() == Connected && mbrx == null
    {
      open, mbrx, got := true, null, [];
    }

    /** One TCP segment; the first one after a complete message is kept as it is. */
    method TcpRecv(mb: Mbuf)
      requires Valid() && open && mb != mbrx && mb.Valid() && mb.pos <= mb.end
      modifies this, mbrx, mb
      ensures Valid() && (mbrx == null || mbrx == mb || mbrx == old(mbrx))
      ensures Value() == Receive(old(Value()), old(mb.Rest()))
    {
      hide Drain, DecodeMsg;
      ghost var rx := Value().rx + mb.Rest();
      if mbrx != null {
        Append(mb);
      } else {
        mbrx := mb;
        assert [] + mb.Rest() == mb.Rest();
      }
      while true
        invariant open && mbrx != null && Valid() && (mbrx == mb || mbrx == old(mbrx))
        invariant Drain(mbrx.Rest(), got) == Drain(rx, old(got))
        decreases mbrx.end - mbrx.pos
      {
        ghost var left := mbrx.Rest();
        DrainStep(left, got);
        var r := MsgDecode(mbrx);
        match r {
          case Broken =>
            open, mbrx := false, null;
            return;
          case More =>
            return;
          case Got(m, n) =>
            got := got + [m];
            assert mbrx.Rest() == left[n..];
            if mbrx.pos == mbrx.end {
              mbrx := null;
              return;
            }
        }
      }
    }

    method Append(mb: Mbuf)
      requires mbrx != null && Valid() && mb != mbrx && mb.Valid() && mb.pos <= mb.end
      modifies mbrx
      ensures mbrx.Valid() && mbrx.pos == old(mbrx.pos) <= mbrx.end && mbrx.Rest() == old(mbrx.Rest() + mb.Rest())
    {
      var pos := mbrx.pos;
      ghost var was := mbrx.Data();
      mbrx.pos := mbrx.end;
      mbrx.WriteMem(mb.buf[mb.pos..mb.end]);
      mbrx.pos := pos;
      assert mbrx.Rest() == mbrx.Data()[pos..] == was[pos..] + mb.Rest();
    }
  }

  // ----- segmentation

  datatype Sent = Sent(ids: Ids, attrs: seq<Sound>)

  /** A message that this side may send and that survives the trip. */
  type Message = m: Sent | LengthFits(m.attrs) && Separate(m.attrs) witness Sent(Ids(0, 0, 0, 0), [])

  function Bytes(m: Message): (b: seq<byte>)
    ensures |b| >= HDR_SIZE
  {
    EncodeMsg(m.ids, m.attrs)
  }

  function Arrived(m: Message): Msg { Msg(false, m.ids, |EncodeAll(m.attrs)| / 4 % 0x1_0000, m.attrs) }

  function Stream(ms: seq<Message>): seq<byte> {
    if ms == [] then [] else Bytes(ms[0]) + Stream(ms[1..])
  }

  function ArrivedAll(ms: seq<Message>): seq<Msg> {
    if ms == [] then [] else [Arrived(ms[0])] + ArrivedAll(ms[1..])
  }

  /** How many messages are complete after `p` bytes of the stream, and how far the next one has come. */
  function Whole(ms: seq<Message>, p: nat): (k: nat)
    ensures k <= |ms|
  {
    if ms == [] || p < |Bytes(ms[0])| then 0 else 1 + Whole(ms[1..], p - |Bytes(ms[0])|)
  }

  function Offset(ms: seq<Message>, p: nat): (o: nat)
    ensures o <= p
  {
    if ms == [] || p < |Bytes(ms[0])| then p else Offset(ms[1..], p - |Bytes(ms[0])|)
  }

  /** The first `p` bytes of the stream end inside the header of a message. */
  predicate InHeader(ms: seq<Message>, p: nat) { 0 < Offset(ms, p) < HDR_SIZE }

  /** No segment that starts at byte `p` or later ends inside a header. */
  predicate HeadersWhole(ms: seq<Message>, p: nat, segments: seq<seq<byte>>)
    decreases |segments|
  {
    segments == [] || (!InHeader(ms, p + |segments[0]|) && HeadersWhole(ms, p + |segments[0]|, segments[1..]))
  }

  lemma LocateStep(ms: seq<Message>, p: nat)
    ensures if ms == [] || p < |Bytes(ms[0])| then Whole(ms, p) == 0 && Offset(ms, p) == p
            else var n := |Bytes(ms[0])|;
                 Whole(ms, p) == 1 + Whole(ms[1..], p - n) && Offset(ms, p) == Offset(ms[1..], p - n)
  {
    hide Bytes, Separate, LengthFits, Survives;
  }

  lemma StreamUntaken(ms: seq<Message>, p: nat)
    requires p <= |Stream(ms)|
    ensures Untaken(Stream(ms)[..p])
  {
    hide EncodeMsg;
    if p > 0 {
      MessageUntaken(ms[0].ids, ms[0].attrs, 1);
      assert Stream(ms)[0] == Bytes(ms[0])[0];
    }
  }

  lemma WholeBounds(ms: seq<Message>, p: nat)
    requires p <= |Stream(ms)|
    ensures var k, o := Whole(ms, p), Offset(ms, p);
            && (o == 0 || (k < |ms| && o < |Bytes(ms[k])|))
            && o <= |Stream(ms[k..])|
            && Stream(ms)[p - o..] == Stream(ms[k..])
  {
    hide Bytes, Separate, LengthFits, Survives, Whole, Offset;
    LocateStep(ms, p);
    if ms != [] && p >= |Bytes(ms[0])| {
      var n := |Bytes(ms[0])|;
      assert Stream(ms)[n..] == Stream(ms[1..]);
      WholeBounds(ms[1..], p - n);
      assert ms[1..][Whole(ms[1..], p - n)..] == ms[Whole(ms, p)..];
    }
  }

  lemma {:induction false} DrainPrefix(ms: seq<Message>, p: nat, got: seq<Msg>)
    requires 0 < p <= |Stream(ms)|
    ensures var k, o := Whole(ms, p), Offset(ms, p);
            && o <= |Stream(ms[k..])|
            && Drain(Stream(ms)[..p], got) ==
               if InHeader(ms, p) then Conn(false, [], got + ArrivedAll(ms[..k]))
               else Conn(true, Stream(ms[k..])[..o], got + ArrivedAll(ms[..k]))
    decreases |ms|
  {
    hide DecodeMsg, EncodeMsg, Untaken, Separate, LengthFits, Survives, EncodeAll;
    var m, b := ms[0], Bytes(ms[0]);
    if p < |b| {
      PartOfMessage(m.ids, m.attrs, p);
      assert Stream(ms)[..p] == b[..p];
      assert got + ArrivedAll([]) == got && ms[0..] == ms;
    } else {
      var rest := Stream(ms[1..])[..p - |b|];
      assert Stream(ms)[..p] == b + rest;
      StreamUntaken(ms[1..], p - |b|);
      MessageRoundTrip(m.ids, m.attrs, rest);
      assert (b + rest)[|b|..] == rest;
      var k := Whole(ms[1..], p - |b|);
      assert ms[..k + 1][1..] == ms[1..][..k] && ms[1..][k..] == ms[k + 1..];
      assert got + [Arrived(m)] + ArrivedAll(ms[1..][..k]) == got + ArrivedAll(ms[..k + 1]);
      if p > |b| {
        DrainPrefix(ms[1..], p - |b|, got + [Arrived(m)]);
      } else {
        NothingWhole(ms[1..]);
      }
    }
  }

  lemma NothingWhole(ms: seq<Message>)
    ensures Whole(ms, 0) == 0 && Offset(ms, 0) == 0
  {
  }

  /** What the connection should be after `p` bytes. */
  function StateAt(ms: seq<Message>, p: nat): Conn
    requires p <= |Stream(ms)|
  {
    WholeBounds(ms, p);
    Conn(true, Stream(ms[Whole(ms, p)..])[..Offset(ms, p)], ArrivedAll(ms[..Whole(ms, p)]))
  }

  lemma {:induction false} Located(ms: seq<Message>, p: nat, q: nat)
    ensures var k, o := Whole(ms, p), Offset(ms, p);
            Whole(ms, p + q) == k + Whole(ms[k..], o + q) && Offset(ms, p + q) == Offset(ms[k..], o + q)
    decreases |ms|
  {
    hide Bytes, Separate, LengthFits, Survives, Whole, Offset;
    LocateStep(ms, p);
    LocateStep(ms, p + q);
    if ms != [] && p >= |Bytes(ms[0])| {
      var n := |Bytes(ms[0])|;
      Located(ms[1..], p - n, q);
      assert ms[1..][Whole(ms[1..], p - n)..] == ms[Whole(ms, p)..];
    } else {
      assert ms[0..] == ms;
    }
  }

  lemma {:induction false} ArrivedAppend(a: seq<Message>, b: seq<Message>)
    ensures ArrivedAll(a + b) == ArrivedAll(a) + ArrivedAll(b)
  {
    hide Arrived;
    if a == [] {
      assert a + b == b;
    } else {
      assert (a + b)[1..] == a[1..] + b;
      ArrivedAppend(a[1..], b);
    }
  }

  lemma OneSegment(ms: seq<Message>, p: nat, segment: seq<byte>)
    requires p + |segment| <= |Stream(ms)| && segment != [] && segment == Stream(ms)[p..p + |segment|]
    ensures var c := Receive(StateAt(ms, p), segment);
            if InHeader(ms, p + |segment|) then !c.open else c == StateAt(ms, p + |segment|)
  {
    hide Drain, Bytes, Stream, ArrivedAll, Whole, Offset;
    var k, o, q := Whole(ms, p), Offset(ms, p), |segment|;
    WholeBounds(ms, p);
    var rest := ms[k..];
    assert Stream(rest) == Stream(ms)[p - o..];
    assert StateAt(ms, p).rx + segment == Stream(rest)[..o + q];
    DrainPrefix(rest, o + q, StateAt(ms, p).got);
    Located(ms, p, q);
    var k' := Whole(rest, o + q);
    ArrivedAppend(ms[..k], rest[..k']);
    assert ms[..k + k'] == ms[..k] + rest[..k'] && ms[k + k'..] == rest[k'..];
  }

  lemma {:induction false} Closed(c: Conn, segments: seq<seq<byte>>)
    requires !c.open
    ensures ReceiveAll(c, segments) == c
    decreases |segments|
  {
    if segments != [] {
      Closed(c, segments[1..]);
    }
  }

  lemma Halves(stream: seq<byte>, p: nat, a: seq<byte>, b: seq<byte>)
    requires p + |a + b| <= |stream| && a + b == stream[p..p + |a + b|]
    ensures a == stream[p..p + |a|] && b == stream[p + |a|..p + |a| + |b|]
  {
    assert a == (a + b)[..|a|] && b == (a + b)[|a|..];
  }

  /** From any point of the stream on. */
  lemma {:induction false} SegmentsFrom(ms: seq<Message>, p: nat, segments: seq<seq<byte>>)
    requires p + |Concat(segments)| <= |Stream(ms)| && Concat(segments) == Stream(ms)[p..p + |Concat(segments)|]
    requires [] !in segments
    ensures var c := ReceiveAll(StateAt(ms, p), segments);
            if HeadersWhole(ms, p, segments) then c == StateAt(ms, p + |Concat(segments)|) else !c.open
    decreases |segments|
  {
    hide Drain, Bytes, Stream, ArrivedAll, Whole, Offset, Receive, StateAt, InHeader;
    if segments != [] {
      var s, rest := segments[0], segments[1..];
      assert Concat(segments) == s + Concat(rest);
      Halves(Stream(ms), p, s, Concat(rest));
      OneSegment(ms, p, s);
      if InHeader(ms, p + |s|) {
        Closed(Receive(StateAt(ms, p), s), rest);
      } else {
        SegmentsFrom(ms, p + |s|, rest);
      }
    }
  }

  /**
   * Every message arrives, in order and once, and nothing is left over, if and only if no TCP segment
   * ends within the first eleven bytes of a message: a partial header ends the connection, any other
   * partial message is waited for.
   */
  lemma SegmentsDeliver(ms: seq<Message>, segments: seq<seq<byte>>)
    requires Concat(segments) == Stream(ms) && [] !in segments
    ensures ReceiveAll(Connected, segments) == Conn(true, [], ArrivedAll(ms)) <==> HeadersWhole(ms, 0, segments)
    ensures ReceiveAll(Connected, segments).open <==> HeadersWhole(ms, 0, segments)
  {
    AtStart(ms);
    AtEnd(ms);
    SegmentsFrom(ms, 0, segments);
  }

  lemma AtStart(ms: seq<Message>)
    ensures StateAt(ms, 0) == Connected
  {
    NothingWhole(ms);
  }

  lemma {:induction false} AllWhole(ms: seq<Message>)
    ensures Whole(ms, |Stream(ms)|) == |ms| && Offset(ms, |Stream(ms)|) == 0
  {
    hide Bytes;
    if ms != [] {
      AllWhole(ms[1..]);
    }
  }

  lemma AtEnd(ms: seq<Message>)
    ensures StateAt(ms, |Stream(ms)|) == Conn(true, [], ArrivedAll(ms))
  {
    AllWhole(ms);
    assert ms[..|ms|] == ms;
  }

  /** Two segments that cut a header in two end the connection, though every byte arrives. */
  lemma CutHeader(m: Message)
    ensures !ReceiveAll(Connected, [Bytes(m)[..5], Bytes(m)[5..]]).open
  {
    var segments := [Bytes(m)[..5], Bytes(m)[5..]];
    hide Bytes;
    assert Stream([m]) == Bytes(m);
    assert segments[1..] == [segments[1]] && Concat([segments[1]]) == segments[1];
    assert Concat(segments) == Bytes(m)[..5] + Bytes(m)[5..] == Bytes(m);
    SegmentsDeliver([m], segments);
  }
}
