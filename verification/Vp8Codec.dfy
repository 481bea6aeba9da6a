/**
 * The VP8 sender and receiver working on their buffers in place (vpx.c). The handler that takes outgoing
 * packets is modelled by the log `sent`, the libvpx decoder by the log `frames` of what it is given.
 */
module Vp8Codec {
  import opened Memory
  import opened Vp8Payload

  /** Writes the bytes of `picid` into an eight-byte buffer from its end, then appends them to `mb`. */
  method PicIdEnc(mb: Mbuf, picid: nat)
    requires mb.Valid() && mb.pos == mb.end && picid < MAX_PICID
    modifies mb
    ensures mb.Valid() && mb.pos == mb.end && mb.Data() == old(mb.Data()) + PicIdBytes(picid, true)
    ensures |mb.buf| >= |old(mb.buf)|
  {
    hide PicIdBytes;
    var buf := new byte[8];
    var p := 8;
    var id := picid;
    var more := true;
    PicIdLength(picid);
    while more
      invariant 0 <= p <= 8 && id >= 0 && (id == 0 && p < 8 ==> !more)
      invariant PicIdBytes(picid, true) == (if more then PicIdBytes(id, p == 8) else []) + buf[p..]
      invariant mb.buf == old(mb.buf) && mb.pos == old(mb.pos) && mb.end == old(mb.end)
      decreases more, p
    {
      PicIdStep(id, p == 8);
      var b := (id % 128) as byte;
      ghost var was, tail := id, buf[p..];
      id := id / 128;
      if p != 8 {
        b := b + 128;
      }
      p := p - 1;
      buf[p] := b;
      assert buf[p..] == [b] + tail;
      more := id != 0;
    }
    mb.WriteMem(buf[p..]);
  }

  lemma PicIdStep(id: nat, last: bool)
    ensures var b: byte := (id % 128) as byte + if last then 0 else 128;
            PicIdBytes(id, last) == (if id / 128 == 0 then [] else PicIdBytes(id / 128, false)) + [b]
  {
  }

  method PicIdDec(mb: Mbuf) returns (r: Option<nat>)
    requires mb.Valid() && mb.pos <= mb.end
    modifies mb`pos
    ensures mb.pos <= mb.end
    ensures match ReadPicId(old(mb.Rest()), 0)
            case None => r == None
            case Some((picid, n)) => r == Some(picid) && mb.pos == old(mb.pos) + n
  {
    hide ReadPicId;
    var v: nat := 0;
    var more := true;
    ghost var want := ReadPicId(mb.Rest(), 0);
    while more
      invariant old(mb.pos) <= mb.pos <= mb.end
      invariant if more then want == Skip(ReadPicId(mb.Rest(), v), mb.pos - old(mb.pos))
                else want == Some((v, mb.pos - old(mb.pos)))
      decreases more, mb.end - mb.pos
    {
      ghost var rest := mb.Rest();
      PicIdReadStep(rest, v);
      if mb.end - mb.pos < 1 {
        return None;
      }
      var b := mb.ReadU8();
      assert rest[0] == b && rest[1..] == mb.Rest();
      v := v * 128 % U64;
      v := v + (b % 128) as nat;
      more := b / 128 == 1;
    }
    r := Some(v);
  }

  lemma PicIdReadStep(s: seq<byte>, v: nat)
    ensures s == [] ==> ReadPicId(s, v) == None
    ensures s != [] ==>
              var w := v * 128 % U64 + (s[0] % 128) as nat;
              ReadPicId(s, v) == if s[0] / 128 == 0 then Some((w, 1)) else Skip(ReadPicId(s[1..], w), 1)
  {
  }

  method Vp8DescEnc(mb: Mbuf, d: Desc)
    requires mb.Valid() && mb.pos == mb.end && (d.picid.Some? ==> d.picid.value < MAX_PICID)
    modifies mb
    ensures mb.Valid() && mb.pos == mb.end && mb.Data() == old(mb.Data()) + DescBytes(d)
    ensures |mb.buf| >= |old(mb.buf)|
  {
    hide PicIdBytes;
    mb.WriteU8(Bit(d.picid.Some?) * 16 + Bit(d.nonRef) * 8 + FiBits(d.fi) * 2 + Bit(d.begin));
    if d.picid.Some? {
      PicIdEnc(mb, d.picid.value);
    }
  }

  method Vp8DescDec(mb: Mbuf) returns (r: Option<Desc>)
    requires mb.Valid() && mb.pos <= mb.end
    modifies mb`pos
    ensures mb.pos <= mb.end
    ensures match ReadDesc(old(mb.Rest()))
            case None => r == None
            case Some((d, n)) => r == Some(d) && mb.pos == old(mb.pos) + n
  {
    hide ReadPicId;
    if mb.end - mb.pos < 1 {
      return None;
    }
    ghost var s := mb.Rest();
    var u8 := mb.ReadU8();
    assert mb.Rest() == s[1..];
    var d := Desc(None, u8 / 8 % 2 == 1, BitsFi(u8 / 2 % 4), u8 % 2 == 1);
    if u8 / 16 % 2 == 1 {
      var picid := PicIdDec(mb);
      if picid == None {
        return None;
      }
      d := d.(picid := picid);
    }
    r := Some(d);
  }

  class VidcodecSt {
    var mb: Mbuf
    var picid: nat
    var sent: seq<Packet>
    var frames: seq<seq<byte>>

    ghost predicate Valid()
      reads this, mb
    {
      mb.Valid() && mb.pos == mb.end
    }

    ghost function State(): Receiver
      requires Valid()
      reads this, mb
    {
      Receiver(mb.Data(), frames)
    }

    constructor (buffer: Mbuf)
      requires buffer.Valid() && buffer.pos == buffer.end == 0
      ensures Valid() && State() == Receiver([], []) && sent == [] && picid == 0
    {
      mb, picid, sent, frames := buffer, 0, [], [];
    }

    method SendPacket(packet: Mbuf, d: Desc, body: seq<byte>, last: bool)
      requires packet.Valid() && |packet.buf| >= RTP_PRESZ && (d.picid.Some? ==> d.picid.value < MAX_PICID)
      modifies packet, this`sent
      ensures packet.Valid() && |packet.buf| >= RTP_PRESZ
      ensures sent == old(sent) + [Packet(last, DescBytes(d) + body)]
    {
      hide DescBytes;
      packet.pos := RTP_PRESZ;
      packet.end := RTP_PRESZ;
      Vp8DescEnc(packet, d);
      packet.WriteMem(body);
      packet.pos := RTP_PRESZ;
      assert packet.Rest() == packet.Data()[RTP_PRESZ..] == DescBytes(d) + body;
      sent := sent + [Packet(last, packet.Rest())];
    }

    method Packetize(frame: seq<byte>, keyframe: bool)
      requires Valid() && picid < MAX_PICID
      modifies this`sent
      ensures sent == old(sent) + FramePackets(Frame(picid, keyframe, frame))
    {
      hide DescBytes, FragmentInfo;
      var packet := new Mbuf(seq(512, _ => 0));
      var fragmented := |frame| > MAX_RTP_SIZE;
      var begin := true;
      var buf := frame;
      while buf != []
        invariant fresh(packet) && packet.Valid() && |packet.buf| >= RTP_PRESZ
        invariant sent + Packets(picid, keyframe, fragmented, begin, buf) == old(sent) + FramePackets(Frame(picid, keyframe, frame))
        decreases |buf|
      {
        var chunk, last := Chunk(buf), |buf| < MAX_RTP_SIZE;
        SendPacket(packet, Desc(Some(picid), !keyframe, FragmentInfo(fragmented, begin, last), begin), buf[..chunk], last);
        begin := false;
        buf := buf[chunk..];
      }
    }

    /** Sends one encoded frame under the next picture identifier. */
    method Enc(frame: seq<byte>, keyframe: bool)
      requires Valid() && picid + 1 < MAX_PICID
      modifies this`sent, this`picid
      ensures Valid() && picid == old(picid) + 1
      ensures sent == old(sent) + FramePackets(Frame(picid, keyframe, frame))
    {
      picid := picid + 1;
      Packetize(frame, keyframe);
    }

    /** One received packet; `res` is whether libvpx accepted the frame. */
    method Dec(eof: bool, src: Mbuf, res: bool) returns (err: bool)
      requires Valid() && src != mb && src.Valid() && src.pos <= src.end
      modifies src`pos, mb, this`frames
      ensures Valid() && State() == Receive(old(State()), Packet(eof, old(src.Rest())))
      ensures old(src.Rest()) != [] ==> (err <==> ReadDesc(old(src.Rest())) == None || (eof && !res))
    {
      hide ReadDesc;
      ghost var payload := src.Rest();
      if src.end - src.pos == 0 {
        NoDesc();
        return false;
      }
      var d := Vp8DescDec(src);
      if d == None {
        return true;
      }
      assert src.Rest() == payload[ReadDesc(payload).value.1..];
      mb.WriteMem(src.Rest());
      if !eof {
        return false;
      }
      assert mb.buf[..mb.end] == mb.Data();
      frames := frames + [mb.buf[..mb.end]];
      err := !res;
      mb.pos := 0;
      mb.end := 0;
    }
  }

  lemma NoDesc()
    ensures ReadDesc([]) == None
  {
  }
}
