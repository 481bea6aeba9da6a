/** Counting lost RTP packets by their 16-bit sequence numbers (stream.c). */
module LossCount {

  datatype Option<+T> = None | Some(value: T)

  type u16 = x: int | 0 <= x < 0x1_0000

  const DUPLICATE: int := -1
  const LATE: int := -2

  function Delta(seqno: u16, pseq: u16): u16 { (seqno - pseq) % 0x1_0000 }

  /** The result for a packet, given the last accepted number, if there is one. */
  function LossOf(pseq: Option<u16>, seqno: u16): int {
    match pseq
    case None => 0
    case Some(p) =>
      var delta := Delta(seqno, p);
      if delta == 0 then DUPLICATE
      else if delta < 3000 then delta - 1
      else if delta < 0xff9c then 0
      else LATE
  }

  /** A jump too far to be a loss: the counting starts afresh from the new number. */
  predicate IsReset(pseq: Option<u16>, seqno: u16) {
    pseq.Some? && 3000 <= Delta(seqno, pseq.value) < 0xff9c
  }

  // ----- the stream

  /** What the handler of received packets hears: that packets before this one are missing, or a packet. */
  datatype Heard = Gap(seqno: u16) | Packet(seqno: u16)

  class Stream {
    var pseq: int
    var ssrcRx: nat
    var nRx: nat
    var bRx: nat
    var heard: seq<Heard>

    /** No packet has been accepted while `pseq` is the largest 32-bit number. */
    ghost predicate Valid()
      reads this
    {
      0 <= pseq < 0x1_0000 || pseq == 0xffff_ffff
    }

    ghost function Last(): Option<u16>
      requires Valid()
      reads this
    {
      if pseq == 0xffff_ffff then None else Some(pseq)
    }

    constructor ()
      ensures Valid() && Last() == None && ssrcRx == nRx == bRx == 0 && heard == []
    {
      pseq, ssrcRx, nRx, bRx, heard := 0xffff_ffff, 0, 0, 0, [];
    }

    method LostCalc(seqno: u16) returns (lostc: int)
      requires Valid()
      modifies this`pseq
      ensures Valid() && lostc == LossOf(old(Last()), seqno)
      ensures Last() == if lostc >= 0 then Some(seqno) else old(Last())
    {
      var delta := (seqno - pseq) % 0x1_0000;
      if pseq == 0xffff_ffff {
        lostc := 0;
      } else if delta == 0 {
        return DUPLICATE;
      } else if delta < 3000 {
        lostc := delta - 1;
      } else if delta < 0xff9c {
        lostc := 0;
      } else {
        return LATE;
      }
      pseq := seqno;
    }

    /**
     * A packet of `left` bytes from source `ssrc`, without a jitter buffer; `receiving` is whether the
     * stream's direction allows packets from the peer. Every packet that counts reaches the handler, after
     * a gap was reported if numbers are missing before it.
     */
    method RtpRecv(receiving: bool, ssrc: nat, seqno: u16, left: nat)
      requires Valid()
      modifies this
      ensures Valid()
      ensures left == 0 || !receiving ==> unchanged(this)
      ensures left > 0 && receiving ==>
                var lostc := LossOf(old(Last()), seqno);
                && nRx == old(nRx) + 1 && bRx == old(bRx) + left && ssrcRx == ssrc
                && heard == old(heard) + (if lostc > 0 then [Gap(seqno)] else []) + [Packet(seqno)]
                && Last() == if lostc >= 0 then Some(seqno) else old(Last())
    {
      if left == 0 || !receiving {
        return;
      }
      nRx := nRx + 1;
      bRx := bRx + left;
      if ssrc != ssrcRx {
        ssrcRx := ssrc;
      }
      var lostc := LostCalc(seqno);
      if lostc > 0 {
        heard := heard + [Gap(seqno)];
      }
      heard := heard + [Packet(seqno)];
    }
  }

  // ----- accounting over runs

  /**
   * A receiver and its books: the last accepted number, that number and the first one extended beyond 16
   * bits, how many packets were accepted and counted as lost, and the numbers passed over by resets.
   */
  datatype Books = Books(pseq: Option<u16>, first: int, ext: int, accepted: nat, lost: nat, skipped: nat)

  const Opened := Books(None, 0, 0, 0, 0, 0)

  function Record(s: Books, seqno: u16): Books {
    var lostc := LossOf(s.pseq, seqno);
    if lostc < 0 then s
    else if s.pseq == None then Books(Some(seqno), seqno, seqno, 1, s.lost, s.skipped)
    else
      var delta := Delta(seqno, s.pseq.value);
      s.(pseq := Some(seqno), ext := s.ext + delta, accepted := s.accepted + 1, lost := s.lost + lostc,
         skipped := s.skipped + if IsReset(s.pseq, seqno) then delta - 1 else 0)
  }

  function RecordAll(s: Books, run: seq<u16>): Books
    decreases |run|
  {
    if run == [] then s else RecordAll(Record(s, run[0]), run[1..])
  }

  predicate Balanced(s: Books) {
    if s.pseq == None then s.lost == 0 && s.skipped == 0
    else
      && s.ext % 0x1_0000 == s.pseq.value
      && s.lost + s.skipped == s.ext - s.first - (s.accepted - 1)
  }

  lemma RecordBalanced(s: Books, seqno: u16)
    requires Balanced(s)
    ensures Balanced(Record(s, seqno))
  {
    if s.pseq.Some? {
      ExtMod(s.ext, s.pseq.value, seqno);
    }
  }

  lemma ExtMod(ext: int, p: u16, seqno: u16)
    requires ext % 0x1_0000 == p
    ensures (ext + Delta(seqno, p)) % 0x1_0000 == seqno
  {
  }

  /** How many packets of a run make the counting start afresh. */
  function Resets(s: Books, run: seq<u16>): nat
    decreases |run|
  {
    if run == [] then 0
    else (if IsReset(s.pseq, run[0]) then 1 else 0) + Resets(Record(s, run[0]), run[1..])
  }

  lemma {:induction false} RunBalanced(s: Books, run: seq<u16>)
    requires Balanced(s)
    ensures Balanced(RecordAll(s, run))
    ensures RecordAll(s, run).skipped >= s.skipped + 2999 * Resets(s, run)
    ensures Resets(s, run) == 0 ==> RecordAll(s, run).skipped == s.skipped
    decreases |run|
  {
    if run != [] {
      RecordBalanced(s, run[0]);
      RunBalanced(Record(s, run[0]), run[1..]);
    }
  }

  /**
   * Over every run of sequence numbers, across any number of wrap-arounds: the losses counted are all the
   * numbers between the first and the last accepted one that were not accepted, if and only if no packet
   * jumped by 3000 or more.
   */
  lemma LossAccounts(run: seq<u16>)
    requires run != []
    ensures var r := RecordAll(Opened, run);
            && r.lost + r.skipped == r.ext - r.first - (r.accepted - 1)
            && (r.lost == r.ext - r.first - (r.accepted - 1) <==> Resets(Opened, run) == 0)
  {
    RunBalanced(Opened, run);
    StaysOpen(Record(Opened, run[0]), run[1..]);
  }

  lemma {:induction false} StaysOpen(s: Books, run: seq<u16>)
    requires s.pseq.Some?
    ensures RecordAll(s, run).pseq.Some?
    decreases |run|
  {
    if run != [] {
      StaysOpen(Record(s, run[0]), run[1..]);
    }
  }

  // ----- against the numbers the sender had in mind

  /** Packets near the newest so far: it again, up to 2999 ahead, or up to 100 behind. */
  predicate Near(newest: int, xs: seq<int>)
    decreases |xs|
  {
    xs == [] || (-100 <= xs[0] - newest < 3000 && Near(if xs[0] > newest then xs[0] else newest, xs[1..]))
  }

  function Wire(xs: seq<int>): seq<u16> {
    if xs == [] then [] else [xs[0] % 0x1_0000] + Wire(xs[1..])
  }

  function Newest(newest: int, xs: seq<int>): int
    decreases |xs|
  {
    if xs == [] then newest else Newest(if xs[0] > newest then xs[0] else newest, xs[1..])
  }

  /** How many of the packets are ahead of all before them. */
  function Ahead(newest: int, xs: seq<int>): nat
    decreases |xs|
  {
    if xs == [] then 0 else (if xs[0] > newest then 1 else 0) + Ahead(if xs[0] > newest then xs[0] else newest, xs[1..])
  }

  lemma {:induction false} NearRun(s: Books, newest: int, xs: seq<int>)
    requires s.pseq == Some(newest % 0x1_0000) && Near(newest, xs)
    ensures var r := RecordAll(s, Wire(xs));
            && r.ext - s.ext == Newest(newest, xs) - newest
            && r.accepted == s.accepted + Ahead(newest, xs)
            && r.lost == s.lost + (Newest(newest, xs) - newest) - Ahead(newest, xs)
    decreases |xs|
  {
    if xs != [] {
      var x := xs[0];
      FarDelta(newest, x);
      assert Wire(xs)[1..] == Wire(xs[1..]);
      NearRun(Record(s, x % 0x1_0000), if x > newest then x else newest, xs[1..]);
    }
  }

  /**
   * What a packet is taken for, by its distance from the newest in unbounded numbers: a repeat at 0, the next
   * after a gap up to 2999 ahead, a fresh start from 3000 to 65435 ahead, and late from 100 to 1 behind.
   */
  lemma ByDistance(newest: int, x: int)
    requires -100 <= x - newest <= 65435
    ensures var d, r := x - newest, LossOf(Some(newest % 0x1_0000), x % 0x1_0000);
            && (d == 0 ==> r == -1) && (1 <= d <= 2999 ==> r == d - 1)
            && (3000 <= d ==> r == 0) && (d < 0 ==> r == -2)
    ensures IsReset(Some(newest % 0x1_0000), x % 0x1_0000) <==> x - newest >= 3000
    ensures LossOf(None, x % 0x1_0000) == 0
  {
    var d := x - newest;
    FarDelta(newest, x);
  }

  lemma FarDelta(newest: int, x: int)
    requires -100 <= x - newest <= 65435
    ensures Delta(x % 0x1_0000, newest % 0x1_0000) == if x >= newest then x - newest else x - newest + 0x1_0000
  {
    var q, r := newest / 0x1_0000, x / 0x1_0000;
    assert x % 0x1_0000 - newest % 0x1_0000 == x - newest - 0x1_0000 * (r - q);
  }

  /**
   * For packets numbered without bound of which the receiver sees only 16 bits, each near the newest so
   * far: the receiver counts as lost exactly the numbers that the newest packets left out, whatever the
   * wrap-arounds, repeats and late arrivals.
   */
  lemma LossesAreGaps(x0: int, xs: seq<int>)
    requires Near(x0, xs)
    ensures RecordAll(Opened, Wire([x0] + xs)).lost == Newest(x0, xs) - x0 - Ahead(x0, xs)
  {
    var s := Record(Opened, x0 % 0x1_0000);
    assert Wire([x0] + xs)[1..] == Wire(xs) by {
      assert ([x0] + xs)[1..] == xs;
    }
    NearRun(s, x0, xs);
  }
}
