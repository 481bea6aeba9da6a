/**
 * The H.264 payload format of RFC 3984 as the program produces and consumes it (h264.c, avcodec.c):
 * splitting a frame into NAL units, the packets of a NAL unit, and what a receiver makes of packets.
 */
module H264Payload {
  import opened Memory
  import opened H264StartCode

  const MAX_RTP_SIZE: nat := 1024
  const FU_A: byte := 28
  const SPS: byte := 7
  const PPS: byte := 8
  const START_SEQUENCE: seq<byte> := [0, 0, 1]

  type Nal = n: seq<byte> | n != [] witness [0]

  datatype Packet = Packet(marker: bool, payload: seq<byte>)

  // ----- sender

  function NalType(hdr: byte): byte { hdr % 32 }

  function RefIdcBits(hdr: byte): byte { hdr / 32 % 4 * 32 }

  function ClearStartBit(fu: byte): byte { fu % 128 }

  function SetEndBit(fu: byte): byte { if fu / 64 % 2 == 0 then fu + 64 else fu }

  function Fragments(ind: byte, fu: byte, last: bool, marker: bool, buf: seq<byte>, sz: nat): (ps: seq<Packet>)
    requires sz > 0
    decreases |buf|
  {
    if |buf| > sz then
      [Packet(false, [ind, fu] + buf[..sz])] + Fragments(ind, ClearStartBit(fu), last, marker, buf[sz..], sz)
    else
      [Packet(marker && last, [ind, if last then SetEndBit(fu) else fu] + buf)]
  }

  /** The packets of the piece `buf` of the NAL unit with header `hdr`. */
  function NalPackets(first: bool, last: bool, marker: bool, hdr: byte, buf: seq<byte>, maxsz: nat): (ps: seq<Packet>)
    requires maxsz > 2
  {
    if first && last && |buf| <= maxsz then
      [Packet(marker, [hdr] + buf)]
    else
      Fragments(RefIdcBits(hdr) + FU_A, if first then 128 + NalType(hdr) else NalType(hdr),
                last, marker, buf, maxsz - 2)
  }

  /** The parts between start codes, from the start code at `r` on; a part is empty where two codes touch. */
  function Parts(b: seq<byte>, r: nat): (ns: seq<seq<byte>>)
    requires r == |b| || StartCodeAt(b, r)
    decreases |b| - r
  {
    if r == |b| then []
    else
      var r1 := FirstStartCode(b, r + 3);
      [b[r + 3..r1]] + Parts(b, r1)
  }

  function NalsPackets(ns: seq<Nal>): (ps: seq<Packet>) {
    if ns == [] then []
    else NalPackets(true, true, |ns| == 1, ns[0][0], ns[0][1..], MAX_RTP_SIZE) + NalsPackets(ns[1..])
  }

  /** No two start codes touch: what the packetizer needs, as it takes the byte after a code for a header. */
  predicate Framed(b: seq<byte>) {
    forall n <- Parts(b, FirstStartCode(b, 0)) :: n != []
  }

  function Nals(b: seq<byte>): (ns: seq<Nal>)
    requires Framed(b)
    ensures ns == Parts(b, FirstStartCode(b, 0))
  {
    var ps := Parts(b, FirstStartCode(b, 0));
    assert forall i :: 0 <= i < |ps| ==> ps[i] in ps;
    ps
  }

  function FramePackets(b: seq<byte>): seq<Packet>
    requires Framed(b)
  {
    NalsPackets(Nals(b))
  }

  // ----- receiver

  /** What one packet adds to the byte stream: what the depacketizer puts in front, and its body. */
  datatype Unpacked = Unpacked(start: seq<byte>, body: seq<byte>) | Rejected

  function Unpack(payload: seq<byte>): Unpacked {
    if payload == [] || payload[0] >= 128 then
      Rejected
    else if 1 <= NalType(payload[0]) <= 23 then
      Unpacked(START_SEQUENCE + [payload[0]], payload[1..])
    else if NalType(payload[0]) == FU_A && |payload| >= 2 then
      if payload[1] >= 128 then
        Unpacked(START_SEQUENCE + [RefIdcBits(payload[0]) + NalType(payload[1])], payload[2..])
      else
        Unpacked([], payload[2..])
    else
      Rejected
  }

  /** A parameter set that came in a packet of its own. */
  predicate IsParameterSet(payload: seq<byte>) {
    payload != [] && payload[0] < 128 && (NalType(payload[0]) == SPS || NalType(payload[0]) == PPS)
  }

  datatype Receiver = Receiver(mb: seq<byte>, key: bool, frames: seq<seq<byte>>)

  const Fresh := Receiver([], false, [])

  function Receive(s: Receiver, p: Packet): Receiver {
    match Unpack(p.payload)
    case Rejected => s
    case Unpacked(start, body) =>
      var mb := s.mb + (start + body);
      var key := s.key || IsParameterSet(p.payload);
      if !p.marker then Receiver(mb, key, s.frames)
      else Receiver([], key, if key then s.frames + [mb] else s.frames)
  }

  function ReceiveAll(s: Receiver, ps: seq<Packet>): Receiver
    decreases |ps|
  {
    if ps == [] then s else ReceiveAll(Receive(s, ps[0]), ps[1..])
  }

  function Added(payload: seq<byte>): seq<byte> {
    match Unpack(payload)
    case Rejected => []
    case Unpacked(start, body) => start + body
  }

  /** Everything a run of packets adds to the byte stream. */
  function Rebuilt(ps: seq<Packet>): seq<byte> {
    if ps == [] then []
    else Added(ps[0].payload) + Rebuilt(ps[1..])
  }

  // ----- splitting and joining

  function ByteStream(ns: seq<seq<byte>>): seq<byte> {
    if ns == [] then [] else START_SEQUENCE + ns[0] + ByteStream(ns[1..])
  }

  /** Splitting loses nothing: a fourth zero before a start code is the last byte of the part before it. */
  lemma {:induction false} PartsJoin(b: seq<byte>, r: nat)
    requires r == |b| || StartCodeAt(b, r)
    ensures ByteStream(Parts(b, r)) == b[r..]
    decreases |b| - r
  {
    if r < |b| {
      var r1 := FirstStartCode(b, r + 3);
      PartsJoin(b, r1);
      assert b[r..r + 3] == START_SEQUENCE;
      hide *;
      Join3(b, r, r + 3, r1);
    }
  }

  lemma Join3(b: seq<byte>, i: nat, j: nat, k: nat)
    requires i <= j <= k <= |b|
    ensures b[i..] == b[i..j] + b[j..k] + b[k..]
  {
  }

  // ----- shape of the packets of one NAL unit

  predicate StartBit(fu: byte) { fu / 128 == 1 }

  predicate EndBit(fu: byte) { fu / 64 % 2 == 1 }

  predicate ReservedBit(fu: byte) { fu / 32 % 2 == 1 }

  /** A fragmentation unit with the given header fields and at most `sz` bytes of the NAL unit. */
  predicate IsFragment(p: Packet, ind: byte, nalType: byte, start: bool, end: bool, marker: bool, sz: nat) {
    && 2 <= |p.payload| <= sz + 2
    && p.payload[0] == ind
    && NalType(p.payload[1]) == nalType && !ReservedBit(p.payload[1])
    && StartBit(p.payload[1]) == start && EndBit(p.payload[1]) == end
    && p.marker == marker
  }

  lemma FragmentHeader(ind: byte, fu: byte, last: bool, marker: bool, buf: seq<byte>, sz: nat)
    requires |buf| <= sz && fu % 128 < 32
    ensures IsFragment(Packet(marker, [ind, if last then SetEndBit(fu) else fu] + buf),
                       ind, NalType(fu), fu >= 128, last, marker, sz)
  {
    hide NalType, StartBit, EndBit, ReservedBit, SetEndBit;
    FragmentBits(fu);
  }

  lemma FragmentBits(fu: byte)
    requires fu % 128 < 32
    ensures StartBit(fu) == (fu >= 128) && !EndBit(fu) && !ReservedBit(fu)
    ensures var e := SetEndBit(fu);
            NalType(e) == NalType(fu) && StartBit(e) == (fu >= 128) && EndBit(e) && !ReservedBit(e)
  {
    var low := if fu >= 128 then fu - 128 else fu;
    assert fu == 128 * (fu / 128) + low && low < 32;
    assert SetEndBit(fu) == fu + 64;
  }

  lemma {:induction false} FragmentsShape(ind: byte, fu: byte, last: bool, marker: bool, buf: seq<byte>, sz: nat)
    requires sz > 0 && fu % 128 < 32
    ensures
      var ps := Fragments(ind, fu, last, marker, buf, sz);
      && |ps| >= 1 && (|buf| > sz ==> |ps| >= 2)
      && (forall i :: 0 <= i < |ps| ==>
            && IsFragment(ps[i], ind, NalType(fu), i == 0 && fu >= 128, i == |ps| - 1 && last,
                          i == |ps| - 1 && last && marker, sz)
            && (buf != [] ==> |ps[i].payload| > 2))
    decreases |buf|
  {
    hide IsFragment;
    var ps := Fragments(ind, fu, last, marker, buf, sz);
    if |buf| > sz {
      var rest := Fragments(ind, ClearStartBit(fu), last, marker, buf[sz..], sz);
      FragmentsShape(ind, ClearStartBit(fu), last, marker, buf[sz..], sz);
      FragmentHeader(ind, fu, false, false, buf[..sz], sz);
      assert forall i :: 0 < i < |ps| ==> ps[i] == rest[i - 1];
    } else {
      FragmentHeader(ind, fu, last, marker && last, buf, sz);
    }
  }

  function Bodies(ps: seq<Packet>): seq<byte> {
    if ps == [] then []
    else (if |ps[0].payload| >= 2 then ps[0].payload[2..] else []) + Bodies(ps[1..])
  }

  lemma BodiesCons(p: Packet, rest: seq<Packet>)
    requires |p.payload| >= 2
    ensures Bodies([p]) == p.payload[2..] && Bodies([p] + rest) == p.payload[2..] + Bodies(rest)
  {
    assert [p][1..] == [];
    assert ([p] + rest)[1..] == rest;
  }

  lemma {:induction false} FragmentsBodies(ind: byte, fu: byte, last: bool, marker: bool, buf: seq<byte>, sz: nat)
    requires sz > 0
    ensures Bodies(Fragments(ind, fu, last, marker, buf, sz)) == buf
    decreases |buf|
  {
    hide ClearStartBit, SetEndBit, Bodies;
    if |buf| > sz {
      FragmentsBodies(ind, ClearStartBit(fu), last, marker, buf[sz..], sz);
      BodiesCons(Packet(false, [ind, fu] + buf[..sz]), Fragments(ind, ClearStartBit(fu), last, marker, buf[sz..], sz));
      assert ([ind, fu] + buf[..sz])[2..] == buf[..sz];
    } else {
      var tail := [ind, if last then SetEndBit(fu) else fu] + buf;
      BodiesCons(Packet(marker && last, tail), []);
      assert tail[2..] == buf;
    }
  }

  /**
   * The packets of a piece of a NAL unit, for every size and limit: one packet with the NAL unit itself
   * when it is whole and fits, otherwise FU-A packets as section 5.8 of RFC 3984 wants them; for a whole
   * NAL unit these are at least two, so that no packet is both first and last.
   */
  lemma NalPacketsShape(first: bool, last: bool, marker: bool, hdr: byte, buf: seq<byte>, maxsz: nat)
    requires maxsz > 2
    ensures
      var ps := NalPackets(first, last, marker, hdr, buf, maxsz);
      if first && last && |buf| <= maxsz then
        ps == [Packet(marker, [hdr] + buf)]
      else
        && |ps| >= 1 && (first && last ==> |ps| >= 2)
        && (forall i :: 0 <= i < |ps| ==>
              && IsFragment(ps[i], RefIdcBits(hdr) + FU_A, NalType(hdr), i == 0 && first, i == |ps| - 1 && last,
                            i == |ps| - 1 && last && marker, maxsz - 2)
              && (buf != [] ==> |ps[i].payload| > 2))
        && Bodies(ps) == buf
  {
    hide Fragments, Bodies;
    if !(first && last && |buf| <= maxsz) {
      var fu: byte := if first then 128 + NalType(hdr) else NalType(hdr);
      assert NalType(fu) == NalType(hdr) && fu % 128 < 32 && (fu >= 128 <==> first);
      hide IsFragment, NalType, RefIdcBits;
      FragmentsShape(RefIdcBits(hdr) + FU_A, fu, last, marker, buf, maxsz - 2);
      FragmentsBodies(RefIdcBits(hdr) + FU_A, fu, last, marker, buf, maxsz - 2);
    }
  }

  lemma {:induction false} FragmentsBytes(ind: byte, fu: byte, marker: bool, buf: seq<byte>)
    requires fu % 128 < 32 && buf != []
    ensures
      var ps := Fragments(ind, fu, true, marker, buf, 1022);
      && |ps| == (|buf| + 1021) / 1022
      && forall i :: 0 <= i < |ps| ==> IsPiece(ps[i], i, |ps|, ind, fu, marker, buf)
    decreases |buf|
  {
    hide IsPiece;
    if |buf| > 1022 {
      var fu', more := ClearStartBit(fu), buf[1022..];
      var ps, rest := Fragments(ind, fu, true, marker, buf, 1022), Fragments(ind, fu', true, marker, more, 1022);
      FragmentsBytes(ind, fu', marker, more);
      FirstPiece(ind, fu, marker, buf);
      forall i | 0 < i < |ps| ensures IsPiece(ps[i], i, |ps|, ind, fu, marker, buf) {
        LaterPiece(rest[i - 1], i, |ps|, ind, fu, marker, buf);
      }
    } else {
      FirstPiece(ind, fu, marker, buf);
    }
  }

  /** Fragment number `i` of `n` on the wire: bit 7 of the FU header starts, bit 6 ends, 1022 bytes each. */
  predicate IsPiece(p: Packet, i: nat, n: nat, ind: byte, fu: byte, marker: bool, buf: seq<byte>)
    requires fu % 128 < 32
  {
    && 1022 * i < |buf|
    && p == Packet(marker && i == n - 1,
                   [ind, (if i == 0 then fu else fu % 128) + (if i == n - 1 then 64 else 0)]
                   + buf[1022 * i..if 1022 * (i + 1) < |buf| then 1022 * (i + 1) else |buf|])
  }

  lemma FirstPiece(ind: byte, fu: byte, marker: bool, buf: seq<byte>)
    requires fu % 128 < 32 && buf != []
    ensures |buf| > 1022 ==> forall n :: n > 1 ==> IsPiece(Packet(false, [ind, fu] + buf[..1022]), 0, n, ind, fu, marker, buf)
    ensures |buf| <= 1022 ==> IsPiece(Packet(marker, [ind, SetEndBit(fu)] + buf), 0, 1, ind, fu, marker, buf)
  {
    assert buf[0..] == buf;
    assert SetEndBit(fu) == fu + 64;
  }

  lemma LaterPiece(p: Packet, i: nat, n: nat, ind: byte, fu: byte, marker: bool, buf: seq<byte>)
    requires 0 < i < n && |buf| > 1022 && fu % 128 < 32 && IsPiece(p, i - 1, n - 1, ind, ClearStartBit(fu), marker, buf[1022..])
    ensures IsPiece(p, i, n, ind, fu, marker, buf)
  {
    var more := buf[1022..];
    var to := if 1022 * i < |more| then 1022 * i else |more|;
    assert more[1022 * (i - 1)..to] == buf[1022 * i..to + 1022];
  }

  /**
   * The packets of a NAL unit, byte for byte: itself when it has at most 1025 bytes; otherwise FU-A packets
   * (type 28) with its NRI, its type behind the start and end bits, and 1022 bytes of it each but the last.
   */
  lemma NalBytes(n: Nal, marker: bool)
    ensures
      var ps := NalPackets(true, true, marker, n[0], n[1..], MAX_RTP_SIZE);
      if |n| <= 1025 then ps == [Packet(marker, n)]
      else
        && |ps| == (|n| - 1 + 1021) / 1022
        && forall i :: 0 <= i < |ps| ==> IsPiece(ps[i], i, |ps|, n[0] / 32 % 4 * 32 + 28, n[0] % 32 + 128, marker, n[1..])
  {
    if |n| <= 1025 {
      assert [n[0]] + n[1..] == n;
    } else {
      hide Fragments;
      FragmentsBytes(n[0] / 32 % 4 * 32 + 28, n[0] % 32 + 128, marker, n[1..]);
    }
  }

  // ----- rebuilding one frame

  /** Whether a NAL unit comes out of the packets made of it unchanged. */
  predicate Survives(n: Nal) {
    n[0] < 128 && (|n| - 1 > MAX_RTP_SIZE || 1 <= NalType(n[0]) <= 23)
  }

  lemma {:induction false} RebuiltAppend(a: seq<Packet>, b: seq<Packet>)
    ensures Rebuilt(a + b) == Rebuilt(a) + Rebuilt(b)
  {
    hide Added;
    if a == [] {
      assert a + b == b;
    } else {
      assert (a + b)[0] == a[0] && (a + b)[1..] == a[1..] + b;
      RebuiltAppend(a[1..], b);
    }
  }

  lemma RebuiltCons(p: Packet, rest: seq<Packet>)
    ensures Rebuilt([p]) == Added(p.payload) && Rebuilt([p] + rest) == Added(p.payload) + Rebuilt(rest)
  {
    assert [p][1..] == [];
    assert ([p] + rest)[1..] == rest;
  }

  lemma FragmentAdds(ind: byte, fu: byte, buf: seq<byte>)
    requires ind < 128 && NalType(ind) == FU_A
    ensures Added([ind, fu] + buf) ==
            if fu >= 128 then START_SEQUENCE + [RefIdcBits(ind) + NalType(fu)] + buf else buf
  {
    assert ([ind, fu] + buf)[2..] == buf;
  }

  lemma {:induction false} FragmentsRebuild(ind: byte, fu: byte, marker: bool, buf: seq<byte>, sz: nat)
    requires sz > 0 && ind < 128 && NalType(ind) == FU_A && fu % 128 < 32
    ensures Rebuilt(Fragments(ind, fu, true, marker, buf, sz)) ==
            if fu >= 128 then START_SEQUENCE + [RefIdcBits(ind) + NalType(fu)] + buf else buf
    decreases |buf|
  {
    hide Added, Rebuilt;
    if |buf| > sz {
      FragmentsRebuild(ind, ClearStartBit(fu), marker, buf[sz..], sz);
      RebuiltCons(Packet(false, [ind, fu] + buf[..sz]), Fragments(ind, ClearStartBit(fu), true, marker, buf[sz..], sz));
      FragmentAdds(ind, fu, buf[..sz]);
      assert buf == buf[..sz] + buf[sz..];
    } else {
      RebuiltCons(Packet(marker, [ind, SetEndBit(fu)] + buf), []);
      FragmentAdds(ind, SetEndBit(fu), buf);
    }
  }

  lemma SmallNalRebuild(n: Nal, marker: bool)
    requires |n| - 1 <= MAX_RTP_SIZE
    ensures |Added(n)| <= 3 + |n| && (Added(n) == START_SEQUENCE + n <==> Survives(n))
  {
  }

  lemma NalRebuild(n: Nal, marker: bool)
    ensures
      var r := Rebuilt(NalPackets(true, true, marker, n[0], n[1..], MAX_RTP_SIZE));
      |r| <= 3 + |n| && (r == START_SEQUENCE + n <==> Survives(n))
  {
    hide Added, Rebuilt, Fragments;
    assert n == [n[0]] + n[1..];
    if |n| - 1 <= MAX_RTP_SIZE {
      RebuiltCons(Packet(marker, n), []);
      SmallNalRebuild(n, marker);
    } else {
      var fu: byte := 128 + NalType(n[0]);
      var ind: byte := RefIdcBits(n[0]) + FU_A;
      assert RefIdcBits(ind) + NalType(fu) == n[0] <==> n[0] < 128;
      hide NalType, RefIdcBits;
      FragmentsRebuild(ind, fu, marker, n[1..], MAX_RTP_SIZE - 2);
      assert (START_SEQUENCE + [RefIdcBits(ind) + NalType(fu)] + n[1..])[3] == RefIdcBits(ind) + NalType(fu);
      assert (START_SEQUENCE + n)[3] == n[0];
    }
  }

  lemma {:induction false} NalsRebuild(ns: seq<Nal>)
    ensures |Rebuilt(NalsPackets(ns))| <= |ByteStream(ns)|
    ensures Rebuilt(NalsPackets(ns)) == ByteStream(ns) <==> forall n <- ns :: Survives(n)
  {
    hide NalPackets, Rebuilt, ByteStream, NalsPackets, Survives;
    NalsStep(ns);
    if ns != [] {
      var ps := NalPackets(true, true, |ns| == 1, ns[0][0], ns[0][1..], MAX_RTP_SIZE);
      NalRebuild(ns[0], |ns| == 1);
      NalsRebuild(ns[1..]);
      RebuiltAppend(ps, NalsPackets(ns[1..]));
      SameHalves(Rebuilt(ps), Rebuilt(NalsPackets(ns[1..])), START_SEQUENCE + ns[0], ByteStream(ns[1..]));
      assert ns == [ns[0]] + ns[1..];
    } else {
      assert Rebuilt([]) == [] by { NothingRebuilt(); }
    }
  }

  lemma SameHalves(a: seq<byte>, b: seq<byte>, c: seq<byte>, d: seq<byte>)
    requires |a| <= |c| && |b| <= |d|
    ensures a + b == c + d <==> a == c && b == d
  {
    if a + b == c + d {
      assert a == (a + b)[..|a|] && c == (c + d)[..|c|];
      assert b == (a + b)[|a|..] && d == (c + d)[|c|..];
    }
  }

  lemma NothingRebuilt()
    ensures Rebuilt([]) == []
  {
  }

  lemma NalsStep(ns: seq<Nal>)
    ensures ns == [] ==> NalsPackets(ns) == [] && ByteStream(ns) == []
    ensures ns != [] ==>
              && NalsPackets(ns) == NalPackets(true, true, |ns| == 1, ns[0][0], ns[0][1..], MAX_RTP_SIZE) + NalsPackets(ns[1..])
              && ByteStream(ns) == START_SEQUENCE + ns[0] + ByteStream(ns[1..])
  {
    hide NalPackets;
  }

  /**
   * The round trip over a frame, with its exact condition: the packets give back the frame from its
   * first start code on if and only if every NAL unit has F = 0 and, unless it is fragmented (where the
   * type travels in the FU header), a type in 1..23.
   */
  lemma FrameRoundTrip(b: seq<byte>)
    requires Framed(b)
    ensures Rebuilt(FramePackets(b)) == b[FirstStartCode(b, 0)..] <==> forall n <- Nals(b) :: Survives(n)
  {
    PartsJoin(b, FirstStartCode(b, 0));
    NalsRebuild(Nals(b));
  }
}
