/** VP8 over RTP (vpx.c): picture identifiers, payload descriptors, fragmentation and reassembly. */
module Vp8Payload {
  import opened Memory

  const MAX_RTP_SIZE: nat := 1024
  const RTP_PRESZ: nat := 16
  const U64: nat := 0x1_0000_0000_0000_0000
  /** Picture identifiers that fit the eight bytes the encoder has for them. */
  const MAX_PICID: nat := 0x100_0000_0000_0000

  datatype Option<+T> = None | Some(value: T)

  // ----- picture identifiers

  /** Groups of seven bits, the most significant first; all but the last byte have the top bit set. */
  function PicIdBytes(picid: nat, last: bool): (r: seq<byte>)
    ensures r != []
  {
    var b: byte := (picid % 128) as byte + if last then 0 else 128;
    if picid / 128 == 0 then [b] else PicIdBytes(picid / 128, false) + [b]
  }

  /** The identifier that follows `v` in 64 bits, and the bytes it takes; `None` when it is cut off. */
  function ReadPicId(s: seq<byte>, v: nat): (r: Option<(nat, nat)>)
    ensures r.Some? ==> 0 < r.value.1 <= |s|
  {
    if s == [] then None
    else
      var v' := v * 128 % U64 + (s[0] % 128) as nat;
      if s[0] / 128 == 0 then Some((v', 1))
      else match ReadPicId(s[1..], v') case None => None case Some((w, n)) => Some((w, 1 + n))
  }

  function Skip(r: Option<(nat, nat)>, k: nat): Option<(nat, nat)> {
    match r case None => None case Some((v, n)) => Some((v, k + n))
  }

  lemma ReadContinues(v: nat, low: nat, rest: seq<byte>)
    requires v * 128 < U64 && low < 128
    ensures ReadPicId([low as byte + 128] + rest, v) == Skip(ReadPicId(rest, v * 128 + low), 1)
  {
    assert ([low as byte + 128] + rest)[1..] == rest;
  }

  lemma {:induction false} PicIdContinues(picid: nat, rest: seq<byte>)
    requires picid < MAX_PICID
    ensures ReadPicId(PicIdBytes(picid, false) + rest, 0) == Skip(ReadPicId(rest, picid), |PicIdBytes(picid, false)|)
  {
    hide ReadPicId;
    var low := picid % 128;
    var b: byte := low as byte + 128;
    ReadContinues(picid / 128, low, rest);
    if picid / 128 != 0 {
      PicIdContinues(picid / 128, [b] + rest);
      assert PicIdBytes(picid, false) + rest == PicIdBytes(picid / 128, false) + ([b] + rest);
    }
  }

  lemma PicIdLength(picid: nat)
    requires picid < MAX_PICID
    ensures |PicIdBytes(picid, true)| <= 8
  {
    PicIdShorter(picid, true, 8);
  }

  lemma {:induction false} PicIdShorter(picid: nat, last: bool, k: nat)
    requires k > 0 && picid < Power128(k)
    ensures |PicIdBytes(picid, last)| <= k
    decreases k
  {
    if picid / 128 != 0 {
      DivPower(picid, k);
      PicIdShorter(picid / 128, false, k - 1);
    }
  }

  lemma DivPower(picid: nat, k: nat)
    requires k > 0 && 128 <= picid < Power128(k)
    ensures k > 1 && picid / 128 < Power128(k - 1)
  {
  }

  function Power128(k: nat): nat {
    if k == 0 then 1 else 128 * Power128(k - 1)
  }

  /** Reading inverts writing, in at most eight bytes. */
  lemma PicIdTrip(picid: nat, rest: seq<byte>)
    requires picid < MAX_PICID
    ensures var e := PicIdBytes(picid, true);
            ReadPicId(e + rest, 0) == Some((picid, |e|)) && |e| <= 8
  {
    var b := (picid % 128) as byte;
    var e := PicIdBytes(picid, true);
    PicIdLength(picid);
    ReadEnds(picid / 128, b, rest);
    hide ReadPicId;
    if picid / 128 != 0 {
      PicIdContinues(picid / 128, [b] + rest);
      assert e + rest == PicIdBytes(picid / 128, false) + ([b] + rest);
    }
  }

  lemma ReadEnds(v: nat, b: byte, rest: seq<byte>)
    requires v * 128 < U64 && b < 128
    ensures ReadPicId([b] + rest, v) == Some((v * 128 + b as nat, 1))
  {
  }

  /** The number that the low seven bits of each byte make up, the first byte being the most significant. */
  function Base128(bs: seq<byte>): nat {
    if bs == [] then 0 else Base128(bs[..|bs| - 1]) * 128 + (bs[|bs| - 1] % 128) as nat
  }

  /** An identifier on the wire: base 128, the top bit set on all bytes but the last, no byte too many. */
  lemma {:induction false} PicIdLayout(picid: nat, last: bool)
    ensures var e := PicIdBytes(picid, last);
            && Base128(e) == picid
            && (forall i :: 0 <= i < |e| - 1 ==> e[i] >= 128) && (e[|e| - 1] < 128 <==> last)
            && (|e| > 1 ==> e[0] != 128)
    ensures PicIdBytes(picid, false)[0] == 128 ==> picid == 0
  {
    PicIdLast(picid, last);
    PicIdLast(picid, false);
    hide PicIdBytes;
    if picid / 128 != 0 {
      PicIdLayout(picid / 128, false);
    } else {
      assert Base128([]) == 0;
    }
  }

  lemma PicIdLast(picid: nat, last: bool)
    ensures var e, b := PicIdBytes(picid, last), (picid % 128) as byte + if last then 0 else 128;
            e == (if picid / 128 == 0 then [] else PicIdBytes(picid / 128, false)) + [b]
            && e[..|e| - 1] == (if picid / 128 == 0 then [] else PicIdBytes(picid / 128, false))
  {
  }

  /** Bytes of which the last one alone has the top bit clear. */
  predicate Terminated(bs: seq<byte>) {
    bs != [] && bs[|bs| - 1] < 128 && forall i :: 0 <= i < |bs| - 1 ==> bs[i] >= 128
  }

  /** Whatever terminated bytes there are, they are read as the number they make up, in 64 bits. */
  lemma {:induction false} PicIdReads(bs: seq<byte>, v: nat, rest: seq<byte>)
    requires Terminated(bs) && v < U64
    ensures ReadPicId(bs + rest, v) == Some((From(v, bs) % U64, |bs|))
  {
    var v' := v * 128 % U64 + (bs[0] % 128) as nat;
    assert (bs + rest)[1..] == bs[1..] + rest;
    ShiftMod(v, (bs[0] % 128) as nat);
    if |bs| > 1 {
      FromMod(v * 128 + (bs[0] % 128) as nat, bs[1..]);
      PicIdReads(bs[1..], v', rest);
    } else {
      assert From(v, bs) == From(v * 128 + (bs[0] % 128) as nat, []);
    }
  }

  lemma ReadsBase128(bs: seq<byte>, rest: seq<byte>)
    requires Terminated(bs)
    ensures ReadPicId(bs + rest, 0) == Some((Base128(bs) % U64, |bs|))
  {
    hide Terminated, ReadPicId, From, Base128;
    PicIdReads(bs, 0, rest);
    FromIs(0, bs);
  }

  function From(v: nat, bs: seq<byte>): nat
    decreases |bs|
  {
    if bs == [] then v else From(v * 128 + (bs[0] % 128) as nat, bs[1..])
  }

  lemma {:induction false} FromIs(v: nat, bs: seq<byte>)
    ensures v == 0 ==> From(v, bs) == Base128(bs)
    ensures bs != [] ==> From(v, bs) == From(v, bs[..|bs| - 1]) * 128 + (bs[|bs| - 1] % 128) as nat
    decreases |bs|
  {
    if bs != [] {
      var v' := v * 128 + (bs[0] % 128) as nat;
      if |bs| > 1 {
        FromIs(v', bs[1..]);
        assert bs[1..][..|bs| - 2] == bs[..|bs| - 1][1..];
      } else {
        assert bs[..0] == [] && bs[1..] == [];
      }
      FromIs(v, bs[..|bs| - 1]);
    }
  }

  lemma ShiftMod(v: nat, low: nat)
    requires low < 128
    ensures v * 128 % U64 + low == (v * 128 + low) % U64 < U64
  {
  }

  lemma {:induction false} FromMod(v: nat, bs: seq<byte>)
    ensures From(v % U64, bs) % U64 == From(v, bs) % U64
    decreases |bs|
  {
    if bs == [] {
    } else {
      var low := (bs[0] % 128) as nat;
      FromMod(v % U64 * 128 + low, bs[1..]);
      FromMod(v * 128 + low, bs[1..]);
      SameMod(v, low);
    }
  }

  lemma SameMod(v: nat, low: nat)
    ensures (v % U64 * 128 + low) % U64 == (v * 128 + low) % U64
  {
    assert v == U64 * (v / U64) + v % U64;
    assert v * 128 + low == U64 * (v / U64 * 128) + (v % U64 * 128 + low);
  }

  // ----- payload descriptors

  datatype Fi = NoFragment | FirstFragment | MiddleFragment | LastFragment

  datatype Desc = Desc(picid: Option<nat>, nonRef: bool, fi: Fi, begin: bool)

  function FiBits(fi: Fi): byte {
    match fi case NoFragment => 0 case FirstFragment => 1 case MiddleFragment => 2 case LastFragment => 3
  }

  function BitsFi(b: byte): Fi
    requires b < 4
  {
    if b == 0 then NoFragment else if b == 1 then FirstFragment else if b == 2 then MiddleFragment else LastFragment
  }

  function Bit(b: bool): byte { if b then 1 else 0 }

  function DescBytes(d: Desc): (r: seq<byte>)
    ensures r != []
  {
    [Bit(d.picid.Some?) * 16 + Bit(d.nonRef) * 8 + FiBits(d.fi) * 2 + Bit(d.begin)]
    + if d.picid.Some? then PicIdBytes(d.picid.value, true) else []
  }

  /** The descriptor that `s` starts with and the bytes it takes. */
  function ReadDesc(s: seq<byte>): (r: Option<(Desc, nat)>)
    ensures r.Some? ==> 0 < r.value.1 <= |s|
  {
    if s == [] then None
    else
      var u8 := s[0];
      var d := Desc(None, u8 / 8 % 2 == 1, BitsFi(u8 / 2 % 4), u8 % 2 == 1);
      if u8 / 16 % 2 == 1 then
        match ReadPicId(s[1..], 0) case None => None case Some((picid, n)) => Some((d.(picid := Some(picid)), 1 + n))
      else Some((d, 1))
  }

  lemma DescBits(i: bool, n: bool, fi: Fi, b: bool)
    ensures var u8 := Bit(i) * 16 + Bit(n) * 8 + FiBits(fi) * 2 + Bit(b);
            && (u8 / 16 % 2 == 1 <==> i) && (u8 / 8 % 2 == 1 <==> n)
            && BitsFi(u8 / 2 % 4) == fi && (u8 % 2 == 1 <==> b)
  {
  }

  lemma DescTrip(d: Desc, rest: seq<byte>)
    requires d.picid.Some? ==> d.picid.value < MAX_PICID
    ensures ReadDesc(DescBytes(d) + rest) == Some((d, |DescBytes(d)|))
  {
    hide PicIdBytes, ReadPicId, Bit, FiBits, BitsFi;
    var s := DescBytes(d) + rest;
    DescBits(d.picid.Some?, d.nonRef, d.fi, d.begin);
    if d.picid.Some? {
      PicIdTrip(d.picid.value, rest);
      assert s[1..] == PicIdBytes(d.picid.value, true) + rest;
    }
  }

  // ----- packets

  datatype Packet = Packet(marker: bool, payload: seq<byte>)

  function Chunk(buf: seq<byte>): nat { if |buf| < MAX_RTP_SIZE then |buf| else MAX_RTP_SIZE }

  function FragmentInfo(fragmented: bool, begin: bool, last: bool): Fi {
    if !fragmented then NoFragment else if begin then FirstFragment else if last then LastFragment else MiddleFragment
  }

  /** The packets for what is left of a frame. */
  function Packets(picid: nat, keyframe: bool, fragmented: bool, begin: bool, buf: seq<byte>): seq<Packet>
    decreases |buf|
  {
    if buf == [] then []
    else
      var last := |buf| < MAX_RTP_SIZE;
      var d := Desc(Some(picid), !keyframe, FragmentInfo(fragmented, begin, last), begin);
      [Packet(last, DescBytes(d) + buf[..Chunk(buf)])]
      + Packets(picid, keyframe, fragmented, false, buf[Chunk(buf)..])
  }

  /** An encoded frame with its picture identifier. */
  datatype Frame = Frame(picid: nat, keyframe: bool, data: seq<byte>)

  function FramePackets(f: Frame): seq<Packet> {
    Packets(f.picid, f.keyframe, |f.data| > MAX_RTP_SIZE, true, f.data)
  }

  /** Whether the sender marks the end of a frame of this size. */
  predicate Marked(size: nat) { size % MAX_RTP_SIZE != 0 }

  /** Whether `p` has this marker and a descriptor that reads as `d`. */
  predicate IsPacket(p: Packet, marker: bool, d: Desc) {
    p.marker == marker && ReadDesc(p.payload).Some? && ReadDesc(p.payload).value.0 == d
  }

  /** The packet number `i` of `n` for a frame, or for a part of one that `begin`s it or not, of `size` bytes. */
  predicate IsPacketAt(p: Packet, i: nat, n: nat, picid: nat, keyframe: bool, fragmented: bool, begin: bool, size: nat) {
    var marker, first := i == n - 1 && Marked(size), begin && i == 0;
    IsPacket(p, marker, Desc(Some(picid), !keyframe, FragmentInfo(fragmented, first, marker), first))
  }

  predicate ArePackets(ps: seq<Packet>, picid: nat, keyframe: bool, fragmented: bool, begin: bool, size: nat) {
    forall i :: 0 <= i < |ps| ==> IsPacketAt(ps[i], i, |ps|, picid, keyframe, fragmented, begin, size)
  }

  lemma {:induction false} PacketsShape(picid: nat, keyframe: bool, fragmented: bool, begin: bool, buf: seq<byte>)
    requires picid < MAX_PICID
    ensures ArePackets(Packets(picid, keyframe, fragmented, begin, buf), picid, keyframe, fragmented, begin, |buf|)
    decreases |buf|
  {
    hide DescBytes, ReadDesc;
    if buf != [] {
      var last, c := |buf| < MAX_RTP_SIZE, Chunk(buf);
      var d := Desc(Some(picid), !keyframe, FragmentInfo(fragmented, begin, last), begin);
      var ps, rest := Packets(picid, keyframe, fragmented, begin, buf), Packets(picid, keyframe, fragmented, false, buf[c..]);
      DescTrip(d, buf[..c]);
      PacketsShape(picid, keyframe, fragmented, false, buf[c..]);
      assert rest == [] <==> buf[c..] == [];
      assert Marked(|buf|) <==> last || Marked(|buf[c..]|);
      hide Packets, Marked, FragmentInfo;
      forall i | 0 < i < |ps| ensures IsPacketAt(ps[i], i, |ps|, picid, keyframe, fragmented, begin, |buf|) {
        assert ps[i] == rest[i - 1];
        assert IsPacketAt(rest[i - 1], i - 1, |rest|, picid, keyframe, fragmented, false, |buf[c..]|);
      }
    }
  }

  /**
   * The packets of a frame: no packet but the last carries the marker, and the last one only when the
   * size is not a multiple of 1024; only the first begins the frame; only a marked one is a last fragment.
   */
  lemma FrameShape(f: Frame)
    requires f.picid < MAX_PICID
    ensures ArePackets(FramePackets(f), f.picid, f.keyframe, |f.data| > MAX_RTP_SIZE, true, |f.data|)
  {
    hide Packets, IsPacketAt;
    PacketsShape(f.picid, f.keyframe, |f.data| > MAX_RTP_SIZE, true, f.data);
  }

  /**
   * Packet number `i` for what is left of a frame, byte for byte. The first byte of the descriptor says
   * that an identifier follows (16), that other frames do not refer to this one (8), which fragment this is
   * (bits 1 and 2) and that the frame begins here (1). All packets but the last hold 1024 bytes, and only
   * one that holds fewer has the marker.
   */
  predicate IsChunk(p: Packet, i: nat, picid: nat, keyframe: bool, fragmented: bool, begin: bool, buf: seq<byte>) {
    && 1024 * i < |buf|
    && var marker := |buf| < 1024 * (i + 1);
    && p == Packet(marker,
                   [16 + (if keyframe then 0 else 8)
                    + (if !fragmented then 0 else if begin && i == 0 then 2 else if marker then 6 else 4)
                    + (if begin && i == 0 then 1 else 0)]
                   + PicIdBytes(picid, true) + buf[1024 * i..if marker then |buf| else 1024 * (i + 1)])
  }

  lemma {:induction false} PacketsBytes(picid: nat, keyframe: bool, fragmented: bool, begin: bool, buf: seq<byte>)
    ensures var ps := Packets(picid, keyframe, fragmented, begin, buf);
            && |ps| == (|buf| + 1023) / 1024
            && forall i :: 0 <= i < |ps| ==> IsChunk(ps[i], i, picid, keyframe, fragmented, begin, buf)
    decreases |buf|
  {
    hide PicIdBytes, IsChunk;
    if buf != [] {
      var ps, rest := Packets(picid, keyframe, fragmented, begin, buf), Packets(picid, keyframe, fragmented, false, buf[Chunk(buf)..]);
      FirstChunk(picid, keyframe, fragmented, begin, buf);
      PacketsBytes(picid, keyframe, fragmented, false, buf[Chunk(buf)..]);
      forall i | 0 < i < |ps| ensures IsChunk(ps[i], i, picid, keyframe, fragmented, begin, buf) {
        LaterChunk(rest[i - 1], i, picid, keyframe, fragmented, begin, buf);
      }
    }
  }

  lemma FirstChunk(picid: nat, keyframe: bool, fragmented: bool, begin: bool, buf: seq<byte>)
    requires buf != []
    ensures IsChunk(Packets(picid, keyframe, fragmented, begin, buf)[0], 0, picid, keyframe, fragmented, begin, buf)
  {
    hide PicIdBytes;
    assert buf[0..Chunk(buf)] == buf[..Chunk(buf)];
  }

  lemma LaterChunk(p: Packet, i: nat, picid: nat, keyframe: bool, fragmented: bool, begin: bool, buf: seq<byte>)
    requires i > 0 && |buf| >= 1024 && IsChunk(p, i - 1, picid, keyframe, fragmented, false, buf[1024..])
    ensures IsChunk(p, i, picid, keyframe, fragmented, begin, buf)
  {
    hide PicIdBytes;
    var more := buf[1024..];
    var to := if |more| < 1024 * i then |more| else 1024 * i;
    assert more[1024 * (i - 1)..to] == buf[1024 * i..to + 1024];
  }

  /**
   * The packets of a frame on the wire, for every frame: as many as there are 1024 bytes begun; fragment
   * information 0 in a frame of at most 1024 bytes, and otherwise 1 in the first packet, 3 in the last one
   * if and only if the size is not a multiple of 1024, and 2 in every other.
   */
  lemma FrameBytes(f: Frame)
    ensures
      var ps, size := FramePackets(f), |f.data|;
      && |ps| == (size + 1023) / 1024
      && forall i :: 0 <= i < |ps| ==>
           && IsChunk(ps[i], i, f.picid, f.keyframe, size > 1024, true, f.data)
           && ps[i].marker == (i == |ps| - 1 && size % 1024 != 0)
           && ps[i].payload[0] / 2 % 4 ==
              (if size <= 1024 then 0 else if i == 0 then 1 else if i == |ps| - 1 && size % 1024 != 0 then 3 else 2)
  {
    hide Packets;
    PacketsBytes(f.picid, f.keyframe, |f.data| > 1024, true, f.data);
    var ps, size := FramePackets(f), |f.data|;
    forall i | 0 <= i < |ps|
      ensures ps[i].marker == (i == |ps| - 1 && size % 1024 != 0)
      ensures ps[i].payload[0] / 2 % 4 ==
              (if size <= 1024 then 0 else if i == 0 then 1 else if i == |ps| - 1 && size % 1024 != 0 then 3 else 2)
    {
      assert IsChunk(ps[i], i, f.picid, f.keyframe, size > 1024, true, f.data);
      LastChunk(size, i);
      hide PicIdBytes;
    }
  }

  lemma LastChunk(size: nat, i: nat)
    requires i < (size + 1023) / 1024
    ensures size < 1024 * (i + 1) <==> i == (size + 1023) / 1024 - 1 && size % 1024 != 0
  {
  }

  // ----- receiver

  /** A payload whose descriptor is cut off: empty, or an announced identifier that does not end. */
  predicate CutOff(s: seq<byte>) {
    s == [] || (s[0] / 16 % 2 == 1 && forall i :: 1 <= i < |s| ==> s[i] >= 128)
  }

  lemma {:induction false} PicIdCutOff(s: seq<byte>, v: nat)
    ensures ReadPicId(s, v) == None <==> forall i :: 0 <= i < |s| ==> s[i] >= 128
  {
    if s != [] {
      var v' := v * 128 % U64 + (s[0] % 128) as nat;
      PicIdCutOff(s[1..], v');
      assert forall i :: 0 < i < |s| ==> s[i] == s[1..][i - 1];
    }
  }

  /** A packet is dropped, marker and all, exactly when its descriptor is cut off. */
  lemma DroppedExactly(s: Receiver, p: Packet)
    ensures ReadDesc(p.payload) == None <==> CutOff(p.payload)
    ensures CutOff(p.payload) ==> Receive(s, p) == s
  {
    hide ReadPicId;
    if p.payload != [] {
      PicIdCutOff(p.payload[1..], 0);
    }
  }

  datatype Receiver = Receiver(mb: seq<byte>, frames: seq<seq<byte>>)

  function Receive(s: Receiver, p: Packet): Receiver {
    match ReadDesc(p.payload)
    case None => s
    case Some((_, n)) =>
      var mb := s.mb + p.payload[n..];
      if p.marker then Receiver([], s.frames + [mb]) else Receiver(mb, s.frames)
  }

  function ReceiveAll(s: Receiver, ps: seq<Packet>): Receiver
    decreases |ps|
  {
    if ps == [] then s else ReceiveAll(Receive(s, ps[0]), ps[1..])
  }

  lemma {:induction false} ReceivePackets(s: Receiver, picid: nat, keyframe: bool, fragmented: bool, begin: bool, buf: seq<byte>)
    requires picid < MAX_PICID
    ensures ReceiveAll(s, Packets(picid, keyframe, fragmented, begin, buf)) ==
            if Marked(|buf|) then Receiver([], s.frames + [s.mb + buf]) else Receiver(s.mb + buf, s.frames)
    decreases |buf|
  {
    hide DescBytes, ReadDesc;
    if buf == [] {
      assert s.mb + buf == s.mb;
    } else {
      var last, c := |buf| < MAX_RTP_SIZE, Chunk(buf);
      var d := Desc(Some(picid), !keyframe, FragmentInfo(fragmented, begin, last), begin);
      var p, rest := Packet(last, DescBytes(d) + buf[..c]), Packets(picid, keyframe, fragmented, false, buf[c..]);
      DescTrip(d, buf[..c]);
      assert p.payload[|DescBytes(d)|..] == buf[..c];
      assert ([p] + rest)[0] == p && ([p] + rest)[1..] == rest;
      if last {
        assert buf[..c] == buf && buf[c..] == [];
      } else {
        ReceivePackets(Receive(s, p), picid, keyframe, fragmented, false, buf[c..]);
        assert s.mb + buf[..c] + buf[c..] == s.mb + buf;
      }
    }
  }

  function SendAll(s: Receiver, fs: seq<Frame>): Receiver
    decreases |fs|
  {
    if fs == [] then s else SendAll(ReceiveAll(s, FramePackets(fs[0])), fs[1..])
  }

  /** What the decoder gets over a loss-free run: frames up to and including the next marked one, as one. */
  function Merged(pending: seq<byte>, fs: seq<Frame>): Receiver
    decreases |fs|
  {
    if fs == [] then Receiver(pending, [])
    else if Marked(|fs[0].data|) then
      var r := Merged([], fs[1..]);
      r.(frames := [pending + fs[0].data] + r.frames)
    else Merged(pending + fs[0].data, fs[1..])
  }

  lemma {:induction false} RunMerges(s: Receiver, fs: seq<Frame>)
    requires forall f <- fs :: f.picid < MAX_PICID
    ensures SendAll(s, fs) == Receiver(Merged(s.mb, fs).mb, s.frames + Merged(s.mb, fs).frames)
    decreases |fs|
  {
    hide Packets, ReceiveAll;
    if fs != [] {
      var f := fs[0];
      assert f in fs;
      ReceivePackets(s, f.picid, f.keyframe, |f.data| > MAX_RTP_SIZE, true, f.data);
      RunMerges(ReceiveAll(s, FramePackets(f)), fs[1..]);
    }
  }

  function Datas(fs: seq<Frame>): seq<seq<byte>> {
    if fs == [] then [] else [fs[0].data] + Datas(fs[1..])
  }

  lemma {:induction false} MergedCount(pending: seq<byte>, fs: seq<Frame>)
    ensures |Merged(pending, fs).frames| <= |fs|
    ensures |Merged(pending, fs).frames| == |fs| ==> forall f <- fs :: Marked(|f.data|)
    decreases |fs|
  {
    if fs != [] {
      MergedCount(if Marked(|fs[0].data|) then [] else pending + fs[0].data, fs[1..]);
      assert fs == [fs[0]] + fs[1..];
    }
  }

  lemma {:induction false} MergedMarked(fs: seq<Frame>)
    requires forall f <- fs :: Marked(|f.data|)
    ensures Merged([], fs) == Receiver([], Datas(fs))
  {
    if fs != [] {
      assert fs[0] in fs;
      MergedMarked(fs[1..]);
      assert [] + fs[0].data == fs[0].data;
    }
  }

  lemma {:induction false} DatasLength(fs: seq<Frame>)
    ensures |Datas(fs)| == |fs|
  {
    if fs != [] {
      DatasLength(fs[1..]);
    }
  }

  /**
   * Over a loss-free run the decoder gets exactly the frames that were sent if and only if no frame has
   * a size that is a multiple of 1024: such a frame is never marked and runs into the next one.
   */
  lemma RunRoundTrip(fs: seq<Frame>)
    requires forall f <- fs :: f.picid < MAX_PICID
    ensures SendAll(Receiver([], []), fs).frames == Datas(fs) <==> forall f <- fs :: Marked(|f.data|)
    decreases |fs|
  {
    RunMerges(Receiver([], []), fs);
    MergedCount([], fs);
    DatasLength(fs);
    if forall f <- fs :: Marked(|f.data|) {
      MergedMarked(fs);
    }
    hide SendAll, Merged, Datas;
    assert [] + Merged([], fs).frames == Merged([], fs).frames;
  }
}
