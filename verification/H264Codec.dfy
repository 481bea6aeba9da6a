/**
 * The codec state and the routines that work on it in place (h264.c, avcodec.c), each proved against
 * the payload format. The handler that takes outgoing packets is modelled by the log `sent`, the
 * libavcodec decoder by the log `frames` of what it is given and by the result it returns.
 */
module H264Codec {
  import opened Memory
  import opened H264StartCode
  import opened H264Payload

  const RTP_PRESZ: nat := 16

  datatype Error = NoEntry | BadMessage | Protocol

  datatype Status = Ok | Err(error: Error)

  lemma HeaderBits(v: byte)
    ensures v / 128 < 2 && v / 32 % 4 < 4 && NalType(v) < 32 && RefIdcBits(v) == v / 32 % 4 * 32
    ensures v / 128 * 128 + v / 32 % 4 * 32 + NalType(v) == v
    ensures v / 128 == 1 <==> v >= 128
  {
  }

  lemma PartsStep(b: seq<byte>, r: nat)
    requires StartCodeAt(b, r)
    ensures var r1 := FirstStartCode(b, r + 3);
            Parts(b, r) == [b[r + 3..r1]] + Parts(b, r1) && (r1 == |b| <==> |Parts(b, r)| == 1)
  {
  }

  lemma PartsEnd(b: seq<byte>)
    ensures Parts(b, |b|) == []
  {
  }

  class VidcodecSt {
    var mbFrag: Mbuf
    var decMb: Mbuf
    var gotKeyframe: bool
    var sent: seq<Packet>
    var frames: seq<seq<byte>>

    ghost predicate Valid()
      reads this, mbFrag, decMb
    {
      && mbFrag != decMb
      && mbFrag.Valid() && |mbFrag.buf| >= RTP_PRESZ
      && decMb.Valid() && decMb.pos == decMb.end
    }

    ghost function State(): Receiver
      requires Valid()
      reads this, mbFrag, decMb
    {
      Receiver(decMb.Data(), gotKeyframe, frames)
    }

    constructor (frag: Mbuf, dec: Mbuf)
      requires frag != dec && frag.Valid() && |frag.buf| >= RTP_PRESZ
      requires dec.Valid() && dec.pos == dec.end == 0
      ensures Valid() && State() == Fresh && sent == [] && mbFrag == frag && decMb == dec
    {
      mbFrag, decMb, gotKeyframe, sent, frames := frag, dec, false, [], [];
    }

    // ----- sender

    method RtpSendData(hdr: seq<byte>, buf: seq<byte>, eof: bool)
      requires Valid()
      modifies mbFrag, this`sent
      ensures Valid() && sent == old(sent) + [Packet(eof, hdr + buf)]
    {
      mbFrag.pos := RTP_PRESZ;
      mbFrag.end := RTP_PRESZ;
      mbFrag.WriteMem(hdr);
      mbFrag.WriteMem(buf);
      mbFrag.pos := RTP_PRESZ;
      assert mbFrag.Rest() == mbFrag.Data()[RTP_PRESZ..] == hdr + buf;
      sent := sent + [Packet(eof, mbFrag.Rest())];
    }

    method NalSend(first: bool, last: bool, marker: bool, hdr: byte, nal: seq<byte>, maxsz: nat)
      requires Valid() && maxsz > 2
      modifies mbFrag, this`sent
      ensures Valid() && sent == old(sent) + NalPackets(first, last, marker, hdr, nal, maxsz)
    {
      if first && last && |nal| <= maxsz {
        RtpSendData([hdr], nal, marker);
      } else {
        var ind: byte := RefIdcBits(hdr) + FU_A;
        var fu: byte := if first then 128 + NalType(hdr) else NalType(hdr);
        var sz := maxsz - 2;
        var buf := nal;
        while |buf| > sz
          invariant Valid()
          invariant sent + Fragments(ind, fu, last, marker, buf, sz)
                 == old(sent) + NalPackets(first, last, marker, hdr, nal, maxsz)
          decreases |buf|
        {
          RtpSendData([ind, fu], buf[..sz], false);
          buf := buf[sz..];
          fu := ClearStartBit(fu);
        }
        if last {
          fu := SetEndBit(fu);
        }
        RtpSendData([ind, fu], buf, marker && last);
      }
    }

    /** Sends the frame that `mb` holds; `base` is its address, `bigEndian` the byte order of the machine. */
    method Packetize(mb: Mbuf, base: nat, bigEndian: bool)
      requires Valid() && mb.Valid() && mb != mbFrag && Framed(mb.Data())
      modifies mbFrag, this`sent
      ensures Valid() && sent == old(sent) + FramePackets(mb.Data())
    {
      hide FirstStartCode, Parts, NalPackets;
      var b := mb.Data();
      var r := FindStartCode(b, base, 0, bigEndian);
      ghost var todo := Nals(b);
      while r < |b|
        invariant Valid()
        invariant r == |b| || StartCodeAt(b, r)
        invariant r <= |b| && todo == Parts(b, r)
        invariant sent + NalsPackets(todo) == old(sent) + FramePackets(b)
        decreases |b| - r
      {
        PartsStep(b, r);
        var p := r;
        // skip zeros
        while b[p] == 0
          invariant r <= p <= r + 2
          decreases |b| - p
        {
          p := p + 1;
        }
        p := p + 1;
        var r1 := FindStartCode(b, base, p, bigEndian);
        assert todo[0] == b[p..r1] && b[p] == todo[0][0] && b[p + 1..r1] == todo[0][1..];
        NalSend(true, true, r1 >= |b|, b[p], b[p + 1..r1], MAX_RTP_SIZE);
        todo := todo[1..];
        r := r1;
      }
      PartsEnd(b);
    }

    // ----- receiver

    method AppendStart(f: byte, nri: byte, typ: byte)
      requires Valid() && f < 2 && nri < 4 && typ < 32
      modifies decMb
      ensures Valid() && decMb.Data() == old(decMb.Data()) + START_SEQUENCE + [f * 128 + nri * 32 + typ]
    {
      decMb.WriteMem(START_SEQUENCE);
      decMb.WriteU8(f * 128 + nri * 32 + typ);
    }

    method H264Decode(src: Mbuf) returns (st: Status)
      requires Valid() && src != decMb && src != mbFrag && src.Valid() && src.pos <= src.end
      modifies src`pos, decMb, this`gotKeyframe
      ensures Valid() && src.Valid() && src.pos <= src.end
      ensures match Unpack(old(src.Rest()))
              case Rejected => st.Err? && State() == old(State())
              case Unpacked(start, body) =>
                && st == Ok
                && decMb.Data() == old(decMb.Data()) + start && src.Rest() == body
                && gotKeyframe == (old(gotKeyframe) || IsParameterSet(old(src.Rest())))
    {
      ghost var payload := src.Rest();
      if src.end - src.pos < 1 {
        return Err(NoEntry);
      }
      var v := src.ReadU8();
      assert v == payload[0] && src.Rest() == payload[1..];
      var f, nri, typ := v / 128, v / 32 % 4, NalType(v);
      HeaderBits(v);
      if f == 1 {
        return Err(BadMessage);
      }
      hide NalType, RefIdcBits;
      if 1 <= typ <= 23 {
        if !gotKeyframe && (typ == PPS || typ == SPS) {
          gotKeyframe := true;
        }
        AppendStart(f, nri, typ);
      } else if typ == FU_A {
        if src.end - src.pos < 1 {
          return Err(NoEntry);
        }
        var u := src.ReadU8();
        HeaderBits(u);
        assert u == payload[1] && src.Rest() == payload[2..];
        if u / 128 == 1 {
          AppendStart(f, nri, NalType(u));
        }
      } else {
        return Err(BadMessage);
      }
      st := Ok;
    }

    /** `ret` is what libavcodec returns for the frame. */
    method FfDecode(eof: bool, src: Mbuf, ret: int) returns (st: Status)
      requires Valid() && src != decMb && src != mbFrag && src.Valid() && src.pos <= src.end
      modifies src`pos, decMb, this`frames
      ensures Valid()
      ensures var mb := old(decMb.Data()) + old(src.Rest());
              State() == if !eof then Receiver(mb, gotKeyframe, old(frames))
                         else Receiver([], gotKeyframe, if gotKeyframe then old(frames) + [mb] else old(frames))
      ensures st == if eof && !gotKeyframe then Err(Protocol) else if eof && ret < 0 then Err(BadMessage) else Ok
    {
      decMb.WriteMem(src.Rest());
      if !eof {
        return Ok;
      }
      decMb.pos := 0;
      st := Ok;
      if !gotKeyframe {
        st := Err(Protocol);
      } else {
        assert decMb.Rest() == decMb.Data();
        frames := frames + [decMb.Rest()];
        if ret < 0 {
          st := Err(BadMessage);
        } else {
          src.pos := src.end;
        }
      }
      decMb.pos := 0;
      decMb.end := 0;
    }

    /** One received packet; `None` where one was lost. */
    method DecH264(eof: bool, src: Mbuf?, ret: int) returns (st: Status)
      requires Valid()
      requires src != null ==> src != decMb && src != mbFrag && src.Valid() && src.pos <= src.end
      modifies if src == null then {} else {src}, decMb, this`gotKeyframe, this`frames
      ensures Valid()
      ensures State() == if src == null then old(State()) else Receive(old(State()), Packet(eof, old(src.Rest())))
    {
      if src == null {
        return Ok;
      }
      ghost var mb, payload := decMb.Data(), src.Rest();
      st := H264Decode(src);
      if st.Err? {
        return;
      }
      assert decMb.Data() + src.Rest() == mb + (Unpack(payload).start + Unpack(payload).body);
      st := FfDecode(eof, src, ret);
    }
  }
}
