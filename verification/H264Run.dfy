/** What a receiver hands to the video decoder over whole runs of packets and of frames (avcodec.c). */
module H264Run {
  import opened Memory
  import opened H264StartCode
  import opened H264Payload

  lemma {:induction false} ReceiveAllAppend(s: Receiver, a: seq<Packet>, b: seq<Packet>)
    ensures ReceiveAll(s, a + b) == ReceiveAll(ReceiveAll(s, a), b)
    decreases |a|
  {
    hide Receive;
    if a == [] {
      assert a + b == b;
    } else {
      assert (a + b)[0] == a[0] && (a + b)[1..] == a[1..] + b;
      ReceiveAllAppend(Receive(s, a[0]), a[1..], b);
    }
  }

  /** The first byte of an SPS or a PPS: F = 0, any of the four values of NRI, type 7 or 8. */
  predicate StartsParameterSet(payload: seq<byte>) {
    payload != [] && payload[0] in [0x07, 0x27, 0x47, 0x67, 0x08, 0x28, 0x48, 0x68]
  }

  lemma ParameterSetBytes(payload: seq<byte>)
    ensures IsParameterSet(payload) <==> StartsParameterSet(payload)
  {
  }

  ghost predicate SeenParameterSet(ps: seq<Packet>) {
    exists p <- ps :: StartsParameterSet(p.payload)
  }

  /**
   * Over every run of packets, lossy, reordered or hostile: the receiver counts as having a key frame
   * exactly when some packet so far started with the header byte of an SPS or PPS, and until then no frame
   * reaches the decoder. As every prefix of a run is a run, this says what had been received before a frame was.
   */
  lemma {:induction false} NoFrameBeforeParameterSet(s: Receiver, ps: seq<Packet>)
    ensures ReceiveAll(s, ps).key <==> s.key || SeenParameterSet(ps)
    ensures !ReceiveAll(s, ps).key ==> ReceiveAll(s, ps).frames == s.frames
    decreases |ps|
  {
    if ps != [] {
      var s1 := Receive(s, ps[0]);
      ParameterSetBytes(ps[0].payload);
      assert s1.key <==> s.key || StartsParameterSet(ps[0].payload);
      assert !s1.key ==> s1.frames == s.frames;
      hide Receive, StartsParameterSet;
      NoFrameBeforeParameterSet(s1, ps[1..]);
      assert ps == [ps[0]] + ps[1..];
    }
  }

  // ----- one frame

  ghost predicate Accepted(ps: seq<Packet>) {
    forall p <- ps :: Unpack(p.payload).Unpacked?
  }

  ghost predicate MarkerOnlyLast(ps: seq<Packet>) {
    forall i :: 0 <= i < |ps| ==> (ps[i].marker <==> i == |ps| - 1)
  }

  lemma NalMarkers(n: Nal, marker: bool)
    ensures var ps := NalPackets(true, true, marker, n[0], n[1..], MAX_RTP_SIZE);
            ps != [] && forall i :: 0 <= i < |ps| ==> (ps[i].marker <==> marker && i == |ps| - 1)
  {
    NalPacketsShape(true, true, marker, n[0], n[1..], MAX_RTP_SIZE);
    hide NalPackets;
  }

  /** Exactly one packet of a frame carries the marker, and it is the last one. */
  lemma {:induction false} FrameMarkers(ns: seq<Nal>)
    ensures MarkerOnlyLast(NalsPackets(ns)) && (NalsPackets(ns) == [] <==> ns == [])
  {
    hide NalPackets;
    if ns != [] {
      NalMarkers(ns[0], |ns| == 1);
      FrameMarkers(ns[1..]);
    }
  }

  /** A parameter set small enough to travel in a packet of its own. */
  predicate IsSmallParameterSet(n: Nal) {
    |n| <= 1025 && StartsParameterSet(n)
  }

  lemma FragmentAccepted(p: Packet, ind: byte, nalType: byte, start: bool, end: bool, marker: bool, sz: nat)
    requires IsFragment(p, ind, nalType, start, end, marker, sz) && ind < 128 && NalType(ind) == FU_A
    ensures Unpack(p.payload).Unpacked? && !StartsParameterSet(p.payload)
  {
    ParameterSetBytes(p.payload);
  }

  lemma NalAccepted(n: Nal, marker: bool)
    requires Survives(n)
    ensures var ps := NalPackets(true, true, marker, n[0], n[1..], MAX_RTP_SIZE);
            Accepted(ps) && (SeenParameterSet(ps) <==> IsSmallParameterSet(n))
  {
    var ps := NalPackets(true, true, marker, n[0], n[1..], MAX_RTP_SIZE);
    NalPacketsShape(true, true, marker, n[0], n[1..], MAX_RTP_SIZE);
    if |n| - 1 <= MAX_RTP_SIZE {
      assert [n[0]] + n[1..] == n;
      assert ps[0] in ps;
      hide StartsParameterSet;
    } else {
      var ind: byte := RefIdcBits(n[0]) + FU_A;
      assert ind < 128 && NalType(ind) == FU_A;
      hide NalPackets, Unpack, IsFragment, StartsParameterSet;
      forall i | 0 <= i < |ps| ensures Unpack(ps[i].payload).Unpacked? && !StartsParameterSet(ps[i].payload) {
        FragmentAccepted(ps[i], ind, NalType(n[0]), i == 0, i == |ps| - 1, i == |ps| - 1 && marker, MAX_RTP_SIZE - 2);
      }
    }
  }

  lemma {:induction false} FrameAccepted(ns: seq<Nal>)
    requires forall n <- ns :: Survives(n)
    ensures Accepted(NalsPackets(ns))
    ensures SeenParameterSet(NalsPackets(ns)) <==> exists n <- ns :: IsSmallParameterSet(n)
  {
    hide Survives, NalPackets, Unpack, StartsParameterSet, IsSmallParameterSet;
    if ns != [] {
      var ps, rest := NalPackets(true, true, |ns| == 1, ns[0][0], ns[0][1..], MAX_RTP_SIZE), NalsPackets(ns[1..]);
      NalAccepted(ns[0], |ns| == 1);
      FrameAccepted(ns[1..]);
      assert ns == [ns[0]] + ns[1..];
      assert SeenParameterSet(ps + rest) <==> SeenParameterSet(ps) || SeenParameterSet(rest);
    }
  }

  lemma ReceiveStep(s: Receiver, p: Packet)
    requires Unpack(p.payload).Unpacked?
    ensures var key, mb := s.key || StartsParameterSet(p.payload), s.mb + Added(p.payload);
            Receive(s, p) == if !p.marker then Receiver(mb, key, s.frames)
                             else Receiver([], key, if key then s.frames + [mb] else s.frames)
  {
    ParameterSetBytes(p.payload);
    hide StartsParameterSet, IsParameterSet;
  }

  /** A payload without a NAL unit header, with F = 1, of an unknown type, or of a fragment without its header. */
  predicate Refused(payload: seq<byte>) {
    payload == [] || payload[0] >= 0x80 || payload[0] % 32 in [0, 24, 25, 26, 27, 29, 30, 31]
    || (payload[0] % 32 == 28 && |payload| == 1)
  }

  /**
   * What one packet does, in terms of its bytes: nothing at all when it is refused, even with the marker;
   * otherwise it adds itself behind a start code, or a fragment's body, behind a start code and the NAL
   * unit's own header when the start bit is set.
   */
  lemma ReceiveBytes(s: Receiver, p: Packet)
    ensures var b := p.payload;
            if Refused(b) then Receive(s, p) == s
            else
              var mb := s.mb + (if b[0] % 32 != 28 then [0, 0, 1] + b
                                else if b[1] >= 0x80 then [0, 0, 1, b[0] / 32 * 32 + b[1] % 32] + b[2..]
                                else b[2..]);
              var key := s.key || StartsParameterSet(b);
              Receive(s, p) == if !p.marker then Receiver(mb, key, s.frames)
                               else Receiver([], key, if key then s.frames + [mb] else s.frames)
  {
    var b := p.payload;
    if !Refused(b) {
      ReceiveStep(s, p);
      hide StartsParameterSet;
      if b[0] % 32 != 28 {
        assert Added(b) == [0, 0, 1] + [b[0]] + b[1..] == [0, 0, 1] + b;
      } else if b[1] >= 0x80 {
        assert Added(b) == [0, 0, 1, b[0] / 32 * 32 + b[1] % 32] + b[2..];
      } else {
        assert Added(b) == b[2..];
      }
    }
  }

  /** A receiver that gets accepted packets of which only the last has the marker. */
  lemma {:induction false} ReceiveFrame(s: Receiver, ps: seq<Packet>)
    requires ps != [] && Accepted(ps) && MarkerOnlyLast(ps)
    ensures var key := s.key || SeenParameterSet(ps);
            ReceiveAll(s, ps) == Receiver([], key, if key then s.frames + [s.mb + Rebuilt(ps)] else s.frames)
    decreases |ps|
  {
    hide Receive, StartsParameterSet, Added, Unpack;
    assert ps[0] in ps && (ps[0].marker <==> |ps| == 1);
    ReceiveStep(s, ps[0]);
    assert ps == [ps[0]] + ps[1..];
    if |ps| > 1 {
      var rest := ps[1..];
      assert forall i :: 0 <= i < |rest| ==> rest[i] == ps[i + 1];
      ReceiveFrame(Receive(s, ps[0]), rest);
      assert s.mb + Added(ps[0].payload) + Rebuilt(rest) == s.mb + Rebuilt(ps);
    } else {
      RebuiltCons(ps[0], []);
    }
  }

  // ----- runs of frames

  ghost predicate Sendable(b: seq<byte>) {
    Framed(b) && forall n <- Nals(b) :: Survives(n)
  }

  /** A frame that the encoder may hand to the packetizer and that survives the trip. */
  type Frame = b: seq<byte> | Sendable(b) witness []

  ghost predicate HasSmallParameterSet(f: Frame) {
    exists n <- Nals(f) :: IsSmallParameterSet(n)
  }

  ghost function Sent(fs: seq<Frame>): seq<Packet> {
    if fs == [] then [] else FramePackets(fs[0]) + Sent(fs[1..])
  }

  /** What the decoder should get: each frame from its first start code on, once a parameter set came. */
  ghost function Delivered(fs: seq<Frame>, key: bool): seq<seq<byte>> {
    if fs == [] then []
    else
      var key' := key || HasSmallParameterSet(fs[0]);
      var r := FirstStartCode(fs[0], 0);
      (if key' && r < |fs[0]| then [fs[0][r..]] else []) + Delivered(fs[1..], key')
  }

  lemma FrameShape(f: Frame)
    ensures var ps := FramePackets(f);
            && MarkerOnlyLast(ps) && Accepted(ps) && (SeenParameterSet(ps) <==> HasSmallParameterSet(f))
            && Rebuilt(ps) == f[FirstStartCode(f, 0)..] && (ps == [] <==> FirstStartCode(f, 0) == |f|)
  {
    hide IsSmallParameterSet, Survives, NalsPackets, MarkerOnlyLast, Accepted, SeenParameterSet, Rebuilt;
    FrameMarkers(Nals(f));
    FrameAccepted(Nals(f));
    FrameRoundTrip(f);
  }

  lemma FrameDelivered(s: Receiver, f: Frame)
    requires s.mb == []
    ensures var key := s.key || HasSmallParameterSet(f);
            ReceiveAll(s, FramePackets(f)) ==
            Receiver([], key, s.frames + if key && FirstStartCode(f, 0) < |f| then [f[FirstStartCode(f, 0)..]] else [])
  {
    hide Framed, FramePackets, ReceiveAll, FirstStartCode, HasSmallParameterSet, MarkerOnlyLast, Accepted, Rebuilt;
    FrameShape(f);
    var ps := FramePackets(f);
    if ps != [] {
      ReceiveFrame(s, ps);
      assert s.mb + Rebuilt(ps) == f[FirstStartCode(f, 0)..];
    } else {
      ReceiveNothing(s);
      NothingSeen(f);
    }
  }

  lemma NothingSeen(f: Frame)
    requires FramePackets(f) == []
    ensures !HasSmallParameterSet(f)
  {
    hide FirstStartCode, IsSmallParameterSet;
    FrameShape(f);
  }

  lemma ReceiveNothing(s: Receiver)
    ensures ReceiveAll(s, []) == s
  {
  }

  /**
   * The loss-free run: at every marker the buffer holds exactly the frame that was sent and is empty
   * afterwards, and the decoder gets exactly the frames from the first one with a parameter set on.
   */
  lemma {:induction false} RunDelivers(s: Receiver, fs: seq<Frame>)
    requires s.mb == []
    ensures ReceiveAll(s, Sent(fs)).mb == []
    ensures ReceiveAll(s, Sent(fs)).frames == s.frames + Delivered(fs, s.key)
    decreases |fs|
  {
    hide HasSmallParameterSet, FramePackets, ReceiveAll, FirstStartCode, Framed, Survives, Sent, Delivered;
    RunStep(fs, s.key);
    if fs == [] {
      ReceiveNothing(s);
    } else {
      var f := fs[0];
      FrameDelivered(s, f);
      ReceiveAllAppend(s, FramePackets(f), Sent(fs[1..]));
      RunDelivers(ReceiveAll(s, FramePackets(f)), fs[1..]);
    }
  }

  lemma RunStep(fs: seq<Frame>, key: bool)
    ensures fs == [] ==> Sent(fs) == [] && Delivered(fs, key) == []
    ensures fs != [] ==>
              var key' := key || HasSmallParameterSet(fs[0]);
              var r := FirstStartCode(fs[0], 0);
              && Sent(fs) == FramePackets(fs[0]) + Sent(fs[1..])
              && Delivered(fs, key) == (if key' && r < |fs[0]| then [fs[0][r..]] else []) + Delivered(fs[1..], key')
  {
    hide HasSmallParameterSet, FramePackets, FirstStartCode, Sendable;
  }
}
