/**
 * CELT payload framing (celt.c): several encoded frames in one packet, with their lengths in front. The
 * codec is opaque: a frame is the byte string it produces, and decoding lists the frames it is given.
 */
module CeltFraming {
  import opened Memory

  const MAX_FRAMES: nat := 16
  const MAX_FRAME_SIZE: nat := 1024

  datatype Error = Invalid | Protocol

  datatype Status = Ok | Err(error: Error)

  datatype Option<+T> = None | Some(value: T)

  // ----- sender

  /** A length as a run of 0xff and a last byte below that. */
  function LengthHeader(len: nat): seq<byte> {
    if len >= 0xff then [0xff] + LengthHeader(len - 0xff) else [len as byte]
  }

  function LengthHeaders(frames: seq<seq<byte>>): seq<byte> {
    if frames == [] then [] else LengthHeader(|frames[0]|) + LengthHeaders(frames[1..])
  }

  function Packet(lowOverhead: bool, frames: seq<seq<byte>>): seq<byte> {
    (if lowOverhead then [] else LengthHeaders(frames)) + Concat(frames)
  }

  /** Appends to `dst` the packet with the frames that the encoder made of one source buffer. */
  method Encode(dst: Mbuf, lowOverhead: bool, frames: seq<seq<byte>>) returns (st: Status)
    requires dst.Valid() && dst.pos == dst.end
    requires forall f <- frames :: |f| <= MAX_FRAME_SIZE
    modifies dst
    ensures dst.Valid() && dst.pos == dst.end
    ensures if frames == [] then st == Err(Invalid) && dst.Data() == old(dst.Data())
            else st == Ok && dst.Data() == old(dst.Data()) + Packet(lowOverhead, if |frames| <= 16 then frames else frames[..16])
  {
    var n := |frames|;
    if n > MAX_FRAMES {
      n := MAX_FRAMES;
    }
    if n == 0 {
      return Err(Invalid);
    }
    var fs := frames[..n];
    assert |frames| <= 16 ==> fs == frames;
    hide LengthHeaders, Concat;
    if !lowOverhead {
      WriteLengths(dst, fs);
    }
    WriteBodies(dst, fs);
    st := Ok;
  }

  method WriteLengths(dst: Mbuf, fs: seq<seq<byte>>)
    requires dst.Valid() && dst.pos == dst.end
    modifies dst
    ensures dst.Valid() && dst.pos == dst.end && dst.Data() == old(dst.Data()) + LengthHeaders(fs)
  {
    hide LengthHeader;
    var i := 0;
    assert fs[0..] == fs;
    while i < |fs|
      invariant 0 <= i <= |fs| && dst.Valid() && dst.pos == dst.end
      invariant dst.Data() + LengthHeaders(fs[i..]) == old(dst.Data()) + LengthHeaders(fs)
    {
      WriteLength(dst, |fs[i]|);
      assert fs[i..][0] == fs[i] && fs[i..][1..] == fs[i + 1..];
      i := i + 1;
    }
  }

  method WriteBodies(dst: Mbuf, fs: seq<seq<byte>>)
    requires dst.Valid() && dst.pos == dst.end
    modifies dst
    ensures dst.Valid() && dst.pos == dst.end && dst.Data() == old(dst.Data()) + Concat(fs)
  {
    var i := 0;
    assert fs[0..] == fs;
    while i < |fs|
      invariant 0 <= i <= |fs| && dst.Valid() && dst.pos == dst.end
      invariant dst.Data() + Concat(fs[i..]) == old(dst.Data()) + Concat(fs)
    {
      dst.WriteMem(fs[i]);
      assert fs[i..][0] == fs[i] && fs[i..][1..] == fs[i + 1..];
      i := i + 1;
    }
  }

  method WriteLength(dst: Mbuf, size: nat)
    requires dst.Valid() && dst.pos == dst.end
    modifies dst
    ensures dst.Valid() && dst.pos == dst.end && dst.Data() == old(dst.Data()) + LengthHeader(size)
  {
    var len := size;
    while len >= 0xff
      invariant dst.Valid() && dst.pos == dst.end
      invariant dst.Data() + LengthHeader(len) == old(dst.Data()) + LengthHeader(size)
    {
      dst.WriteU8(0xff);
      len := len - 0xff;
    }
    dst.WriteU8(len as byte);
  }

  // ----- receiver

  /** What a 16-bit variable holds. */
  function Low16(n: nat): (r: nat)
    ensures r < 0x1_0000
  {
    n % 0x1_0000
  }

  /** A length and the bytes it takes: read as 16 bits wide; an exhausted packet ends it. */
  function ReadLength(s: seq<byte>): (r: (nat, nat))
    ensures r.0 < 0x1_0000 && r.1 <= |s| && (s != [] ==> r.1 > 0)
  {
    if s == [] then (0, 0)
    else if s[0] == 0xff then
      var (len, n) := ReadLength(s[1..]);
      (Low16(0xff + len), 1 + n)
    else (s[0] as nat, 1)
  }

  /** The lengths of at most `k` frames: the last is the one that reaches the number of bytes left. */
  function ReadLengths(s: seq<byte>, k: nat, total: nat): (r: Option<(seq<nat>, nat)>)
    ensures r.Some? ==> r.value.1 <= |s| && |r.value.0| <= k
    decreases k
  {
    if k == 0 then Some(([], 0))
    else if s == [] then None
    else
      var (len, n) := ReadLength(s);
      var total' := (total + len) % 0x1_0000;
      if total' >= |s| - n then Some(([len], n))
      else
        match ReadLengths(s[n..], k - 1, total')
        case None => None
        case Some((lens, m)) => Some(([len] + lens, n + m))
  }

  /** The frames handed to the decoder, up to the first one that is not there in full. */
  function Bodies(s: seq<byte>, lens: seq<nat>): (r: seq<seq<byte>>)
    ensures |r| <= |lens|
  {
    if lens == [] || |s| < lens[0] then [] else [s[..lens[0]]] + Bodies(s[lens[0]..], lens[1..])
  }

  /** The frames of packet `s`; `None` when the length headers are cut off. */
  function Frames(lowOverhead: bool, bpfv: seq<nat>, s: seq<byte>): Option<(seq<nat>, seq<seq<byte>>)> {
    if lowOverhead then Some((bpfv, Bodies(s, bpfv)))
    else
      match ReadLengths(s, MAX_FRAMES, 0)
      case None => None
      case Some((lens, n)) => Some((lens, Bodies(s[n..], lens)))
  }

  /** Decodes the packet `src`, listing the frames given to the codec. */
  method Decode(src: Mbuf, lowOverhead: bool, bpfv: seq<nat>) returns (st: Status, frames: seq<seq<byte>>)
    requires src.Valid() && src.pos <= src.end
    modifies src`pos
    ensures src.pos <= src.end
    ensures match Frames(lowOverhead, bpfv, old(src.Rest()))
            case None => st == Err(Protocol) && frames == []
            case Some((lens, fs)) => frames == fs && st == if |fs| == |lens| then Ok else Err(Protocol)
  {
    hide ReadLengths, Bodies;
    var lens := bpfv;
    if !lowOverhead {
      ghost var s := src.Rest();
      var r := DecodeLengths(src);
      if r == None {
        return Err(Protocol), [];
      }
      assert src.Rest() == s[ReadLengths(s, MAX_FRAMES, 0).value.1..];
      lens := r.value;
    }
    st, frames := DecodeBodies(src, lens);
  }

  method DecodeBodies(src: Mbuf, lens: seq<nat>) returns (st: Status, frames: seq<seq<byte>>)
    requires src.Valid() && src.pos <= src.end
    modifies src`pos
    ensures src.pos <= src.end && frames == Bodies(old(src.Rest()), lens)
    ensures st == if |frames| == |lens| then Ok else Err(Protocol)
  {
    ghost var s := src.Rest();
    frames := [];
    st := Ok;
    var i := 0;
    assert lens[0..] == lens && [] + Bodies(s, lens) == Bodies(s, lens);
    while i < |lens|
      invariant 0 <= i <= |lens| && src.Valid() && src.pos <= src.end && |frames| == i
      invariant frames + Bodies(src.Rest(), lens[i..]) == Bodies(s, lens)
    {
      ghost var rest, todo := src.Rest(), lens[i..];
      assert todo[0] == lens[i] && todo[1..] == lens[i + 1..];
      if src.end - src.pos < lens[i] {
        assert frames + [] == frames;
        return Err(Protocol), frames;
      }
      var body := src.ReadMem(lens[i]);
      assert body == rest[..lens[i]] && src.Rest() == rest[lens[i]..];
      frames := frames + [body];
      i := i + 1;
    }
    assert frames + [] == frames;
  }

  lemma ReadLengthStep(s: seq<byte>, len: nat)
    ensures var (l, n) := ReadLength(s);
            if s == [] then l == n == 0
            else if s[0] == 0xff then
              n == 1 + ReadLength(s[1..]).1 && Low16(len + l) == Low16(Low16(len + 0xff) + ReadLength(s[1..]).0)
            else n == 1 && l == s[0] as nat
  {
    hide Low16;
    if s != [] && s[0] == 0xff {
      ModAdd(len, 0xff, ReadLength(s[1..]).0);
    }
  }

  lemma ModAdd(a: nat, b: nat, c: nat)
    ensures Low16(a + Low16(b + c)) == Low16(Low16(a + b) + c)
  {
  }

  method DecodeLength(src: Mbuf) returns (len: nat)
    requires src.Valid() && src.pos <= src.end
    modifies src`pos
    ensures src.pos <= src.end && src.pos == old(src.pos) + ReadLength(old(src.Rest())).1
    ensures len == ReadLength(old(src.Rest())).0
  {
    ghost var s := src.Rest();
    ghost var (l0, n0) := ReadLength(s);
    len := 0;
    var more := true;
    assert Low16(l0) == l0;
    hide ReadLength, Low16;
    while more
      invariant old(src.pos) <= src.pos <= src.end && len < 0x1_0000
      invariant if more then l0 == Low16(len + ReadLength(src.Rest()).0) && n0 == src.pos - old(src.pos) + ReadLength(src.Rest()).1
                else len == l0 && n0 == src.pos - old(src.pos)
      decreases more, src.end - src.pos
    {
      ghost var rest, p := src.Rest(), src.pos;
      ReadLengthStep(rest, len);
      var b := src.ReadU8();
      if rest == [] {
        assert b == 0 && src.pos == p;
      } else {
        assert b == rest[0] && src.Rest() == rest[1..] && src.pos == p + 1;
      }
      len := Low16(len + b as nat);
      more := b == 0xff;
    }
  }

  function Extend(lens: seq<nat>, n: nat, r: Option<(seq<nat>, nat)>): Option<(seq<nat>, nat)> {
    match r case None => None case Some((ls, m)) => Some((lens + ls, n + m))
  }

  lemma ExtendExtend(lens: seq<nat>, n: nat, ls: seq<nat>, m: nat, r: Option<(seq<nat>, nat)>)
    ensures Extend(lens, n, Extend(ls, m, r)) == Extend(lens + ls, n + m, r)
  {
    if r.Some? {
      assert lens + (ls + r.value.0) == lens + ls + r.value.0;
    }
  }

  lemma ReadLengthsStep(s: seq<byte>, k: nat, total: nat)
    requires k > 0 && s != []
    ensures var (len, n) := ReadLength(s);
            var total' := (total + len) % 0x1_0000;
            ReadLengths(s, k, total) ==
            Extend([len], n, if total' >= |s| - n then Some(([], 0)) else ReadLengths(s[n..], k - 1, total'))
  {
    hide ReadLength;
    assert forall len: nat :: [len] + [] == [len];
  }

  method DecodeLengths(src: Mbuf) returns (r: Option<seq<nat>>)
    requires src.Valid() && src.pos <= src.end
    modifies src`pos
    ensures src.pos <= src.end
    ensures match ReadLengths(old(src.Rest()), MAX_FRAMES, 0)
            case None => r == None
            case Some((lens, n)) => r == Some(lens) && src.pos == old(src.pos) + n
  {
    hide ReadLengths, ReadLength, Extend;
    var lens: seq<nat> := [];
    var total := 0;
    var done := false;
    ghost var want := ReadLengths(src.Rest(), MAX_FRAMES, 0);
    ExtendEnds([], 0, want);
    while |lens| < MAX_FRAMES && !done
      invariant src.pos <= src.end && old(src.pos) <= src.pos && |lens| <= MAX_FRAMES && total >= 0
      invariant want == Extend(lens, src.pos - old(src.pos),
                               if done then Some(([], 0)) else ReadLengths(src.Rest(), MAX_FRAMES - |lens|, total))
      decreases MAX_FRAMES - |lens|
    {
      ghost var rest, k := src.Rest(), src.pos - old(src.pos);
      if src.end - src.pos < 1 {
        ReadLengthsEnds(rest, MAX_FRAMES - |lens|, total);
        ExtendEnds(lens, k, None);
        return None;
      }
      ReadLengthsStep(rest, MAX_FRAMES - |lens|, total);
      var len := DecodeLength(src);
      ghost var n := ReadLength(rest).1;
      assert src.Rest() == rest[n..];
      total := (total + len) % 0x1_0000;
      if total >= src.end - src.pos {
        done := true;
      }
      ExtendExtend(lens, k, [len], n,
                   if done then Some(([], 0)) else ReadLengths(src.Rest(), MAX_FRAMES - |lens| - 1, total));
      lens := lens + [len];
    }
    ReadLengthsEnds(src.Rest(), 0, total);
    ExtendEnds(lens, src.pos - old(src.pos), None);
    r := Some(lens);
  }

  lemma ReadLengthsEnds(s: seq<byte>, k: nat, total: nat)
    ensures k == 0 ==> ReadLengths(s, k, total) == Some(([], 0))
    ensures k > 0 && s == [] ==> ReadLengths(s, k, total) == None
  {
  }

  lemma ExtendEnds(lens: seq<nat>, n: nat, r: Option<(seq<nat>, nat)>)
    ensures Extend([], 0, r) == r && Extend(lens, n, None) == None && Extend(lens, n, Some(([], 0))) == Some((lens, n))
  {
    assert lens + [] == lens;
    if r.Some? {
      assert [] + r.value.0 == r.value.0;
    }
  }

  // ----- round trip

  function Sizes(fs: seq<seq<byte>>): seq<nat> {
    if fs == [] then [] else [|fs[0]|] + Sizes(fs[1..])
  }

  lemma {:induction false} LengthTrip(len: nat, rest: seq<byte>)
    requires len < 0x1_0000
    ensures ReadLength(LengthHeader(len) + rest) == (len, |LengthHeader(len)|)
  {
    var s := LengthHeader(len) + rest;
    if len >= 0xff {
      LengthTrip(len - 0xff, rest);
      assert s[1..] == LengthHeader(len - 0xff) + rest;
    }
  }

  /** The stop test fires on the last length and not before, while a length header is still to come. */
  lemma {:induction false} LengthsTrip(fs: seq<seq<byte>>, k: nat, total: nat, rest: seq<byte>)
    requires 0 < |fs| <= k && |rest| == total + |Concat(fs)| < 0x1_0000
    ensures ReadLengths(LengthHeaders(fs) + rest, k, total) == Some((Sizes(fs), |LengthHeaders(fs)|))
    decreases |fs|
  {
    hide ReadLength, LengthHeader, ReadLengths;
    var h, hs := LengthHeader(|fs[0]|), LengthHeaders(fs[1..]);
    var s := LengthHeaders(fs) + rest;
    assert s == h + (hs + rest) && s[|h|..] == hs + rest;
    LengthTrip(|fs[0]|, hs + rest);
    HeadersNotEmpty(fs);
    HeadersNotEmpty(fs[1..]);
    ReadLengthsStep(s, k, total);
    if |fs| > 1 {
      LengthsTrip(fs[1..], k - 1, total + |fs[0]|, rest);
    } else {
      assert Sizes(fs) == [|fs[0]|];
    }
  }

  lemma HeadersNotEmpty(fs: seq<seq<byte>>)
    ensures fs != [] <==> LengthHeaders(fs) != []
  {
  }

  lemma {:induction false} BodiesTrip(fs: seq<seq<byte>>)
    ensures Bodies(Concat(fs), Sizes(fs)) == fs
  {
    if fs != [] {
      BodiesTrip(fs[1..]);
      var s := Concat(fs);
      assert s[..|fs[0]|] == fs[0] && s[|fs[0]|..] == Concat(fs[1..]);
      assert Sizes(fs)[1..] == Sizes(fs[1..]);
    }
  }

  lemma {:induction false} ConcatBound(fs: seq<seq<byte>>)
    requires forall f <- fs :: |f| <= MAX_FRAME_SIZE
    ensures |Concat(fs)| <= MAX_FRAME_SIZE * |fs|
  {
    if fs != [] {
      ConcatBound(fs[1..]);
    }
  }

  /**
   * A packet with length headers delimits itself: for whatever one to sixteen frames the encoder produced,
   * decoding gives them all, their number and their lengths, with nothing but the packet size. This holds
   * of what `Encode` appends, which is the first sixteen frames where there are more.
   */
  lemma SelfDelimiting(frames: seq<seq<byte>>, bpfv: seq<nat>)
    requires 1 <= |frames| <= 16 && forall f <- frames :: |f| <= 1024
    ensures Frames(false, bpfv, Packet(false, frames)) == Some((Sizes(frames), frames)) && |Sizes(frames)| == |frames|
  {
    ConcatBound(frames);
    LengthsTrip(frames, MAX_FRAMES, 0, Concat(frames));
    BodiesTrip(frames);
    SizesLength(frames);
    hide ReadLengths, Bodies, Sizes, LengthHeaders, Concat;
    assert Packet(false, frames)[|LengthHeaders(frames)|..] == Concat(frames);
  }

  /** A length on the wire: bytes of 255 and a last one below that, which add up to it. */
  lemma {:induction false} LengthBytes(len: nat)
    ensures var h := LengthHeader(len);
            && |h| == len / 255 + 1
            && (forall i :: 0 <= i < |h| - 1 ==> h[i] == 255) && h[|h| - 1] as int == len % 255
  {
    if len >= 255 {
      LengthBytes(len - 255);
    }
  }

  /** Any run of 255 and a last byte below that is read as their sum, in 16 bits. */
  lemma {:induction false} LengthWraps(run: seq<byte>, b: byte, rest: seq<byte>)
    requires b < 255 && forall i :: 0 <= i < |run| ==> run[i] == 255
    ensures ReadLength(run + ([b] + rest)) == ((255 * |run| + b as int) % 0x1_0000, |run| + 1)
  {
    if run == [] {
      assert run + ([b] + rest) == [b] + rest;
    } else {
      var m := 255 * (|run| - 1) + b as int;
      LengthWraps(run[1..], b, rest);
      assert (run + ([b] + rest))[1..] == run[1..] + ([b] + rest);
      WrapOnce(m);
    }
  }

  lemma WrapOnce(m: nat)
    ensures (0xff + m % 0x1_0000) % 0x1_0000 == (0xff + m) % 0x1_0000
  {
  }

  /** Where the lengths of the first `k` frames end. */
  function LengthsEnd(fs: seq<seq<byte>>, k: nat): nat
    requires k <= |fs|
  {
    if k == 0 then 0 else LengthsEnd(fs, k - 1) + |fs[k - 1]| / 255 + 1
  }

  /** The lengths stand in front, in the order of the frames, and nothing else does. */
  lemma {:induction false} LengthsInOrder(fs: seq<seq<byte>>, k: nat)
    requires k <= |fs|
    ensures LengthHeaders(fs[..k]) <= LengthHeaders(fs) && |LengthHeaders(fs[..k])| == LengthsEnd(fs, k)
    ensures k < |fs| ==> LengthHeaders(fs[..k]) + LengthHeader(|fs[k]|) <= LengthHeaders(fs)
  {
    hide LengthHeader;
    LengthHeadersAppend(fs[..k], fs[k..]);
    assert fs == fs[..k] + fs[k..];
    if k < |fs| {
      assert LengthHeaders(fs[k..]) == LengthHeader(|fs[k]|) + LengthHeaders(fs[k..][1..]);
    }
    if k > 0 {
      LengthsInOrder(fs, k - 1);
      LengthBytes(|fs[k - 1]|);
      LengthHeadersAppend(fs[..k - 1], [fs[k - 1]]);
      assert fs[..k] == fs[..k - 1] + [fs[k - 1]];
      assert LengthHeaders([fs[k - 1]]) == LengthHeader(|fs[k - 1]|);
    } else {
      assert fs[..0] == [];
    }
  }

  /** The packet on the wire: the length of each frame in its place, and then the frames. */
  lemma PacketLayout(fs: seq<seq<byte>>, k: nat)
    requires k < |fs|
    ensures LengthsEnd(fs, k + 1) <= LengthsEnd(fs, |fs|) <= |Packet(false, fs)|
    ensures Packet(false, fs)[LengthsEnd(fs, k)..LengthsEnd(fs, k + 1)] == LengthHeader(|fs[k]|)
    ensures Packet(false, fs)[LengthsEnd(fs, |fs|)..] == Concat(fs) == Packet(true, fs)
  {
    hide LengthHeader, LengthHeaders, Concat;
    LengthsInOrder(fs, k);
    LengthsInOrder(fs, k + 1);
    LengthsInOrder(fs, |fs|);
    LengthBytes(|fs[k]|);
    assert fs[..|fs|] == fs;
    var h := LengthHeaders(fs[..k]) + LengthHeader(|fs[k]|);
    assert LengthHeaders(fs)[..|h|] == h;
    assert Packet(false, fs)[..|h|] == h;
  }

  /** The lengths are never found to be cut off but in an empty packet: the end of a packet ends them. */
  lemma OnlyEmptyIsCutOff(s: seq<byte>, bpfv: seq<nat>)
    ensures Frames(false, bpfv, s) == None <==> s == []
  {
    if s != [] {
      StopTest(s, MAX_FRAMES, 0);
    }
  }

  function Sum(lens: seq<nat>): nat {
    if lens == [] then 0 else lens[0] + Sum(lens[1..])
  }

  /** Where the test for the end is met: the sum of the lengths, in 16 bits, reaches the bytes behind them. */
  predicate Reaches(total: nat, lens: seq<nat>, left: int) { (total + Sum(lens)) % 0x1_0000 >= left }

  /**
   * Of any bytes, the number of lengths read is that of the first one at which their sum reaches the bytes
   * behind them, or sixteen.
   */
  lemma {:induction false} StopTest(s: seq<byte>, k: nat, total: nat)
    requires k > 0 && s != []
    ensures var r := ReadLengths(s, k, total);
            && r.Some? && 0 < |r.value.0| <= k
            && (|r.value.0| < k ==> Reaches(total, r.value.0, |s| - r.value.1))
            && forall i :: 0 < i < |r.value.0| ==>
                 var p := ReadLengths(s, i, total);
                 p.Some? && p.value.0 == r.value.0[..i] && !Reaches(total, p.value.0, |s| - p.value.1)
    decreases k
  {
    hide ReadLength, Reaches, Sum, ReadLengths;
    var (len, n) := ReadLength(s);
    var total', rest := (total + len) % 0x1_0000, s[n..];
    ReadLengthsOne(s, k, total);
    if !Reaches(total, [len], |s| - n) && k > 1 {
      StopTest(rest, k - 1, total');
      var r := ReadLengths(s, k, total).value;
      var r' := ReadLengths(rest, k - 1, total').value;
      ReachesStep(total, len, r'.0, |rest| - r'.1);
      forall i | 0 < i < |r.0|
        ensures var p := ReadLengths(s, i, total);
                p.Some? && p.value.0 == r.0[..i] && !Reaches(total, p.value.0, |s| - p.value.1)
      {
        ReadLengthsOne(s, i, total);
        if i > 1 {
          assert r.0[..i] == [len] + r'.0[..i - 1];
          var p' := ReadLengths(rest, i - 1, total').value;
          ReachesStep(total, len, p'.0, |rest| - p'.1);
        } else {
          assert r.0[..1] == [len];
        }
      }
    }
  }

  lemma ReadLengthsOne(s: seq<byte>, k: nat, total: nat)
    requires k > 0 && s != []
    ensures var (len, n) := ReadLength(s);
            && n <= |s|
            && (Reaches(total, [len], |s| - n) ==> ReadLengths(s, k, total) == Some(([len], n)))
            && (k == 1 ==> ReadLengths(s, k, total) == Some(([len], n)))
            && (!Reaches(total, [len], |s| - n) ==> n < |s|)
            && (!Reaches(total, [len], |s| - n) && k > 1 ==>
                  ReadLengths(s, k, total) == Extend([len], n, ReadLengths(s[n..], k - 1, (total + len) % 0x1_0000)))
  {
    hide ReadLength;
    var (len, n) := ReadLength(s);
    assert Sum([len]) == len && [len] + [] == [len];
    assert ReadLengths(s[n..], 0, (total + len) % 0x1_0000) == Some(([], 0));
  }

  lemma ReachesStep(total: nat, len: nat, lens: seq<nat>, left: int)
    ensures Reaches(total, [len] + lens, left) <==> Reaches((total + len) % 0x1_0000, lens, left)
  {
    assert ([len] + lens)[1..] == lens;
    WrapTwice(total + len, Sum(lens));
  }

  lemma WrapTwice(a: nat, b: nat)
    ensures (a % 0x1_0000 + b) % 0x1_0000 == (a + b) % 0x1_0000
  {
  }

  lemma {:induction false} LengthHeadersAppend(a: seq<seq<byte>>, b: seq<seq<byte>>)
    ensures LengthHeaders(a + b) == LengthHeaders(a) + LengthHeaders(b)
  {
    hide LengthHeader;
    if a == [] {
      assert a + b == b;
    } else {
      assert (a + b)[1..] == a[1..] + b;
      LengthHeadersAppend(a[1..], b);
    }
  }

  lemma {:induction false} SizesLength(fs: seq<seq<byte>>)
    ensures |Sizes(fs)| == |fs|
  {
    if fs != [] {
      SizesLength(fs[1..]);
    }
  }

  lemma {:induction false} BodiesSizes(s: seq<byte>, lens: seq<nat>)
    ensures |Bodies(s, lens)| == |lens| ==> Sizes(Bodies(s, lens)) == lens
  {
    if lens != [] && |s| >= lens[0] {
      BodiesSizes(s[lens[0]..], lens[1..]);
      assert Bodies(s, lens)[1..] == Bodies(s[lens[0]..], lens[1..]);
    }
  }

  /** Without length headers the frames come back exactly when both sides agree on all their sizes. */
  lemma LowOverheadAgrees(fs: seq<seq<byte>>, bpfv: seq<nat>)
    ensures var r := Frames(true, bpfv, Packet(true, fs));
            r == Some((bpfv, fs)) && |fs| == |bpfv| <==> bpfv == Sizes(fs)
  {
    assert Packet(true, fs) == Concat(fs);
    BodiesTrip(fs);
    SizesLength(fs);
    BodiesSizes(Concat(fs), bpfv);
  }

  /** Whatever a packet holds, the frames given to the codec are consecutive bytes of it. */
  lemma {:induction false} BodiesContiguous(s: seq<byte>, lens: seq<nat>)
    ensures Concat(Bodies(s, lens)) <= s
  {
    if lens != [] && |s| >= lens[0] {
      var rest := Bodies(s[lens[0]..], lens[1..]);
      BodiesContiguous(s[lens[0]..], lens[1..]);
      assert Bodies(s, lens)[1..] == rest;
      assert s == s[..lens[0]] + s[lens[0]..];
    }
  }
}
