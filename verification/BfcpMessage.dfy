/** BFCP messages: the common header and the attributes after it (bfcp/hdr.c, bfcp/msg.c). */
module BfcpMessage {
  import opened Memory
  import opened BfcpAttr
  import opened BfcpRoundTrip
  import opened BfcpList
  import BfcpEncoder
  import BfcpDecoder

  type u32 = x: int | 0 <= x < 0x1_0000_0000

  const HDR_SIZE: nat := 12
  const VERSION: byte := 1

  datatype Ids = Ids(prim: byte, confid: u32, tid: u16, userid: u16)

  /** A message as it arrives: `i` is the bit after the version, `len` counts 4-byte words of attributes. */
  datatype Msg = Msg(i: bool, ids: Ids, len: u16, attrs: seq<Attr>)

  /** `More` is ENODATA: the header is there and the rest is not. `Broken` is EBADMSG. */
  datatype Outcome<+T> = Got(v: T, n: nat) | Broken | More

  // ----- the format

  function U32Bytes(v: u32): (b: seq<byte>)
    ensures |b| == 4
  {
    [(v / 0x100_0000) as byte, (v / 0x1_0000 % 256) as byte, (v / 256 % 256) as byte, (v % 256) as byte]
  }

  function U32At(s: seq<byte>, i: nat): u32
    requires i + 3 < |s|
  {
    s[i] as int * 0x100_0000 + s[i + 1] as int * 0x1_0000 + s[i + 2] as int * 256 + s[i + 3] as int
  }

  function HeaderBytes(ids: Ids, len: u16): (e: seq<byte>)
    ensures |e| == HDR_SIZE
  {
    [VERSION * 32, ids.prim] + U16Bytes(len) + U32Bytes(ids.confid) + U16Bytes(ids.tid) + U16Bytes(ids.userid)
  }

  /** The length field holds 16 bits of the number of words. */
  function EncodeMsg(ids: Ids, attrs: seq<Known>): (e: seq<byte>)
    ensures |e| == HDR_SIZE + |EncodeAll(attrs)|
  {
    HeaderBytes(ids, |EncodeAll(attrs)| / 4 % 0x1_0000) + EncodeAll(attrs)
  }

  function DecodeHeader(s: seq<byte>): (r: Outcome<Msg>)
    ensures r.Got? ==> r.n == HDR_SIZE && r.n + 4 * r.v.len <= |s| && r.v.attrs == []
    ensures |s| < HDR_SIZE ==> r.Broken?
  {
    if |s| < HDR_SIZE || s[0] / 32 != VERSION then Broken
    else if |s| - HDR_SIZE < 4 * U16At(s, 2) then More
    else Got(Msg(s[0] / 16 % 2 == 1, Ids(s[1], U32At(s, 4), U16At(s, 8), U16At(s, 10)), U16At(s, 2), []), HDR_SIZE)
  }

  function DecodeMsg(s: seq<byte>): (r: Outcome<Msg>)
    ensures r.Got? ==> HDR_SIZE <= r.n <= |s|
  {
    match DecodeHeader(s)
    case Broken => Broken
    case More => More
    case Got(h, n) =>
      match DecodeAll(s[n..], |s| - n - 4 * h.len)
      case Bad => Broken
      case Ok(attrs, m) => Got(h.(attrs := attrs), n + m)
  }

  // ----- round trip

  lemma U32Trip(v: u32)
    ensures U32At(U32Bytes(v), 0) == v
  {
    assert v / 256 / 256 == v / 0x1_0000 && v / 0x1_0000 / 256 == v / 0x100_0000;
  }

  lemma U16Trip(v: u16)
    ensures U16At(U16Bytes(v), 0) == v
  {
  }

  lemma HeaderTrip(ids: Ids, len: u16, rest: seq<byte>)
    ensures DecodeHeader(HeaderBytes(ids, len) + rest) ==
            if |rest| < 4 * len then More else Got(Msg(false, ids, len, []), HDR_SIZE)
  {
    var s := HeaderBytes(ids, len) + rest;
    assert s[2] == U16Bytes(len)[0] && s[3] == U16Bytes(len)[1];
    assert s[4] == U32Bytes(ids.confid)[0] && s[5] == U32Bytes(ids.confid)[1];
    assert s[6] == U32Bytes(ids.confid)[2] && s[7] == U32Bytes(ids.confid)[3];
    assert s[8] == U16Bytes(ids.tid)[0] && s[9] == U16Bytes(ids.tid)[1];
    assert s[10] == U16Bytes(ids.userid)[0] && s[11] == U16Bytes(ids.userid)[1];
    hide U16Bytes, U32Bytes;
    U16Trip(len);
    U32Trip(ids.confid);
    U16Trip(ids.tid);
    U16Trip(ids.userid);
  }

  /** The twelve bytes in front of a message (section 5.1 of RFC 4582): version 1, then big-endian fields. */
  lemma HeaderLayout(ids: Ids, xs: seq<Known>)
    ensures var e := EncodeMsg(ids, xs);
            && e[0] == 0x20 && e[1] == ids.prim
            && e[2] as int * 0x100 + e[3] as int == |EncodeAll(xs)| / 4 % 0x1_0000
            && e[4] as int * 0x100_0000 + e[5] as int * 0x1_0000 + e[6] as int * 0x100 + e[7] as int == ids.confid
            && e[8] as int * 0x100 + e[9] as int == ids.tid
            && e[10] as int * 0x100 + e[11] as int == ids.userid
            && e[12..] == EncodeAll(xs)
  {
    hide EncodeAll;
    U32Trip(ids.confid);
  }

  /** Which bytes are no header, and which are one whose attributes are not all there yet. */
  lemma HeaderErrors(s: seq<byte>)
    ensures DecodeHeader(s).Broken? <==> |s| < 12 || s[0] / 32 != 1
    ensures DecodeHeader(s).More? <==>
            |s| >= 12 && s[0] / 32 == 1 && |s| < 12 + 4 * (s[2] as int * 0x100 + s[3] as int)
    ensures DecodeHeader(s).Got? ==> (DecodeHeader(s).v.i <==> s[0] / 16 % 2 == 1)
  {
  }

  /** Once past the message's end, the loop over the attributes never finds it again. */
  lemma {:induction false} PastEnd(s: seq<byte>, extra: nat)
    requires |s| < extra
    ensures DecodeAll(s, extra).Bad?
    decreases |s|
  {
    hide Decode;
    if Decode(s).Ok? {
      PastEnd(s[Decode(s).n..], extra);
    }
  }

  /** A length field below the true length loses attributes. */
  lemma {:induction false} CutShort(xs: seq<Sound>, tail: seq<byte>, extra: nat)
    requires Untaken(tail) && extra > |tail|
    ensures var r := DecodeAll(EncodeAll(xs) + tail, extra); r.Ok? ==> |r.v| < |xs|
    decreases |xs|
  {
    hide Encode, Decode, Span, Takes, Survives, Separate, Untaken;
    if xs == [] {
      NoneEncoded(tail);
      PastEnd(tail, extra);
    } else {
      var k := DecodeFirst(xs, tail);
      SpanSkips(xs, k + 1);
      assert (EncodeAll(xs) + tail)[Span(xs, k + 1)..] == EncodeAll(xs[k + 1..]) + tail;
      CutShort(xs[k + 1..], tail, extra);
    }
  }

  predicate LengthFits(xs: seq<Known>) { |EncodeAll(xs)| < 0x4_0000 }

  /**
   * The round trip of a message with other messages after it, with its exact condition: the attributes
   * fit the length field and none follows a group whose decoder would still take it.
   */
  lemma MessageRoundTrip(ids: Ids, xs: seq<Sound>, tail: seq<byte>)
    requires Untaken(tail)
    ensures var e := EncodeMsg(ids, xs);
            DecodeMsg(e + tail) == Got(Msg(false, ids, |EncodeAll(xs)| / 4 % 0x1_0000, xs), |e|)
            <==> LengthFits(xs) && Separate(xs)
  {
    hide DecodeAll, EncodeAll, Untaken, Separate, HeaderBytes, DecodeHeader;
    var e := EncodeAll(xs);
    var len := |e| / 4 % 0x1_0000;
    var s := EncodeMsg(ids, xs) + tail;
    assert s == HeaderBytes(ids, len) + (e + tail) && s[HDR_SIZE..] == e + tail;
    HeaderTrip(ids, len, e + tail);
    Words(|e|);
    if LengthFits(xs) {
      ListRoundTrip(xs, tail);
    } else {
      CutShort(xs, tail, |e| + |tail| - 4 * len);
    }
  }

  lemma Words(n: nat)
    requires n % 4 == 0
    ensures if n < 0x4_0000 then 4 * (n / 4 % 0x1_0000) == n else 4 * (n / 4 % 0x1_0000) < n
  {
  }

  /** Part of a message is an error as long as the header is not complete, and incomplete from then on. */
  lemma PartOfMessage(ids: Ids, xs: seq<Known>, p: nat)
    requires LengthFits(xs) && p < |EncodeMsg(ids, xs)|
    ensures DecodeMsg(EncodeMsg(ids, xs)[..p]) == if p < HDR_SIZE then Broken else More
  {
    hide DecodeAll, EncodeAll, HeaderBytes, DecodeHeader;
    var e := EncodeAll(xs);
    var len := |e| / 4 % 0x1_0000;
    Words(|e|);
    if p >= HDR_SIZE {
      assert EncodeMsg(ids, xs)[..p] == HeaderBytes(ids, len) + e[..p - HDR_SIZE];
      HeaderTrip(ids, len, e[..p - HDR_SIZE]);
    }
  }

  /** A following message begins with no attribute type that a decoder may take. */
  lemma MessageUntaken(ids: Ids, xs: seq<Known>, p: nat)
    requires p <= |EncodeMsg(ids, xs)|
    ensures Untaken(EncodeMsg(ids, xs)[..p])
  {
    hide EncodeAll;
  }

  // ----- in place

  method ReadU32(mb: Mbuf) returns (v: u32)
    requires BfcpDecoder.Readable(mb) && mb.pos + 4 <= mb.end
    modifies mb`pos
    ensures BfcpDecoder.Advanced(mb) && mb.pos == old(mb.pos) + 4 && v == U32At(old(mb.Rest()), 0)
  {
    ghost var s := mb.Rest();
    var hi: int := BfcpDecoder.ReadU16(mb);
    assert mb.Rest() == s[2..];
    var lo := BfcpDecoder.ReadU16(mb);
    v := hi * 0x1_0000 + lo;
  }

  method HdrDecode(mb: Mbuf) returns (r: Outcome<Msg>)
    requires BfcpDecoder.Readable(mb)
    modifies mb`pos
    ensures BfcpDecoder.Advanced(mb) && r == DecodeHeader(old(mb.Rest()))
    ensures r.Got? ==> mb.pos == old(mb.pos) + HDR_SIZE
  {
    hide U16At, U32At;
    ghost var s := mb.Rest();
    if mb.end - mb.pos < HDR_SIZE {
      return Broken;
    }
    var b := mb.ReadU8();
    var prim := mb.ReadU8();
    assert mb.Rest() == s[2..];
    var len: int := BfcpDecoder.ReadU16(mb);
    assert mb.Rest() == s[4..];
    var confid := ReadU32(mb);
    assert mb.Rest() == s[8..];
    var tid := BfcpDecoder.ReadU16(mb);
    assert mb.Rest() == s[10..];
    var userid := BfcpDecoder.ReadU16(mb);
    AtOffset(s);
    if b / 32 != VERSION {
      return Broken;
    }
    if mb.end - mb.pos < 4 * len {
      return More;
    }
    r := Got(Msg(b / 16 % 2 == 1, Ids(prim, confid, tid, userid), len, []), HDR_SIZE);
  }

  lemma AtOffset(s: seq<byte>)
    requires |s| >= HDR_SIZE
    ensures U16At(s[2..], 0) == U16At(s, 2) && U32At(s[4..], 0) == U32At(s, 4)
    ensures U16At(s[8..], 0) == U16At(s, 8) && U16At(s[10..], 0) == U16At(s, 10)
  {
  }

  /** An incomplete message leaves the cursor at its start. */
  method MsgDecode(mb: Mbuf) returns (r: Outcome<Msg>)
    requires BfcpDecoder.Readable(mb)
    modifies mb`pos
    ensures BfcpDecoder.Advanced(mb) && r == DecodeMsg(old(mb.Rest()))
    ensures r.Got? ==> mb.pos == old(mb.pos) + r.n
    ensures r.More? ==> mb.pos == old(mb.pos)
  {
    hide DecodeHeader, DecodeAll, Decode;
    var start := mb.pos;
    ghost var s := mb.Rest();
    var h := HdrDecode(mb);
    if h.Broken? || h.More? {
      mb.pos := start;
      return h;
    }
    assert h == Got(h.v, HDR_SIZE);
    var extra := mb.end - mb.pos - 4 * h.v.len;
    assert mb.Rest() == s[HDR_SIZE..];
    ghost var all := DecodeAll(mb.Rest(), extra);
    DecodeMsgOf(s);
    hide DecodeMsg;
    var attrs := [];
    ghost var n := 0;
    assert all.Ok? ==> [] + all.v == all.v;
    while mb.end - mb.pos < extra || mb.end - mb.pos - extra >= BfcpDecoder.ATTR_HDR_SIZE
      invariant BfcpDecoder.Advanced(mb) && mb.pos == start + HDR_SIZE + n
      invariant Continues(all, DecodeAll(mb.Rest(), extra), attrs, n)
      decreases mb.end - mb.pos
    {
      ghost var rest := mb.Rest();
      var a := BfcpDecoder.AttrDecode(mb);
      DecodeAllStep(rest, extra);
      if a.Malformed? {
        return Broken;
      }
      assert mb.Rest() == rest[Decode(rest).n..];
      ContinuesStep(all, DecodeAll(mb.Rest(), extra), attrs, a.value, n, Decode(rest).n);
      attrs, n := attrs + [a.value], n + Decode(rest).n;
    }
    DecodeAllStep(mb.Rest(), extra);
    assert attrs + [] == attrs;
    r := Got(h.v.(attrs := attrs), mb.pos - start);
  }

  lemma DecodeMsgOf(s: seq<byte>)
    requires DecodeHeader(s).Got?
    ensures var h := DecodeHeader(s);
            var all := DecodeAll(s[HDR_SIZE..], |s| - HDR_SIZE - 4 * h.v.len);
            DecodeMsg(s) == if all.Bad? then Broken else Got(h.v.(attrs := all.v), HDR_SIZE + all.n)
  {
    hide DecodeAll, DecodeHeader;
  }

  /** `all` is `d` after the attributes `done`, which take `n` bytes. */
  ghost predicate Continues(all: Dec<seq<Attr>>, d: Dec<seq<Attr>>, done: seq<Attr>, n: nat) {
    match d
    case Bad => all.Bad?
    case Ok(rest, m) => all == Ok(done + rest, n + m)
  }

  lemma ContinuesStep(all: Dec<seq<Attr>>, d: Dec<seq<Attr>>, done: seq<Attr>, a: Attr, n: nat, m: nat)
    requires Continues(all, if d.Bad? then Bad else Ok([a] + d.v, m + d.n), done, n)
    ensures Continues(all, d, done + [a], n + m)
  {
    if d.Ok? {
      assert done + ([a] + d.v) == done + [a] + d.v;
    }
  }

  /** An attribute to send, of a value that may be missing. */
  datatype Given = Given(typ: byte, v: Option<Value>)

  predicate Proper(g: Given) { g.v.Some? ==> Matches(g.typ, g.v.value) || g.v.value.Unknown? }

  predicate Encodable(g: Given) { g.v.Some? ==> Matches(g.typ, g.v.value) }

  function Chosen(gs: seq<Given>): seq<Known>
    requires forall g <- gs :: Encodable(g)
  {
    if gs == [] then []
    else
      assert Encodable(gs[0]);
      (if gs[0].v == None then [] else [Attr(gs[0].typ, false, gs[0].v.value)]) + Chosen(gs[1..])
  }

  lemma {:induction false} ChosenAppend(gs: seq<Given>, g: Given)
    requires Encodable(g) && forall x <- gs :: Encodable(x)
    ensures forall x <- gs + [g] :: Encodable(x)
    ensures EncodeAll(Chosen(gs + [g])) ==
            EncodeAll(Chosen(gs)) + if g.v == None then [] else Encode(false, g.typ, g.v.value)
  {
    hide Encode, EncodeAll;
    if gs == [] {
      assert [] + [g] == [g];
      if g.v.Some? {
        AllStep(Attr(g.typ, false, g.v.value), []);
      }
      NoAttributes();
    } else {
      assert (gs + [g])[1..] == gs[1..] + [g] && gs[0] in gs;
      ChosenAppend(gs[1..], g);
      var first := if gs[0].v == None then [] else [Attr(gs[0].typ, false, gs[0].v.value)];
      assert Chosen(gs + [g]) == first + Chosen(gs[1..] + [g]);
      if gs[0].v.Some? {
        AllStep(first[0], Chosen(gs[1..]));
        AllStep(first[0], Chosen(gs[1..] + [g]));
      } else {
        assert first + Chosen(gs[1..] + [g]) == Chosen(gs[1..] + [g]);
        assert first + Chosen(gs[1..]) == Chosen(gs[1..]);
      }
    }
  }

  lemma AllStep(a: Known, xs: seq<Known>)
    ensures EncodeAll([a] + xs) == Encode(a.mand, a.typ, a.v) + EncodeAll(xs)
  {
    hide Encode;
    assert ([a] + xs)[1..] == xs;
  }

  method AppendAttr(mb: Mbuf, t: byte, v: Value, ghost d0: seq<byte>, ghost at: nat, ghost acc: seq<byte>) returns (err: bool)
    requires BfcpEncoder.Holds(mb, d0, at, acc) && (Matches(t, v) || v.Unknown?)
    modifies mb
    ensures mb.Valid()
    ensures err <==> v.Unknown?
    ensures !err ==> BfcpEncoder.Holds(mb, d0, at, acc + Encode(false, t, v))
  {
    hide Encode;
    ghost var was := mb.Data();
    err := BfcpEncoder.AttrEncode(mb, false, t, v);
    if !err && acc != [] {
      assert mb.Data() == was + Encode(false, t, v);
    }
  }

  /** The header is written up to `hdr`, before the attributes `acc`. */
  ghost predicate Patching(mb: Mbuf, d0: seq<byte>, hdr: seq<byte>, acc: seq<byte>)
    reads mb
  {
    && mb.Valid() && |hdr| <= HDR_SIZE && mb.pos == |d0| + |hdr| <= mb.end
    && mb.Data()[..mb.pos] == d0 + hdr
    && if acc == [] then mb.end <= |d0| + HDR_SIZE
       else mb.end == |d0| + HDR_SIZE + |acc| && mb.Data()[|d0| + HDR_SIZE..] == acc
  }

  method PutHeader(mb: Mbuf, b: seq<byte>, ghost d0: seq<byte>, ghost hdr: seq<byte>, ghost acc: seq<byte>)
    requires Patching(mb, d0, hdr, acc) && |hdr + b| <= HDR_SIZE
    modifies mb
    ensures Patching(mb, d0, hdr + b, acc)
  {
    ghost var was := mb.Data();
    mb.WriteMem(b);
    assert mb.Data()[..mb.pos] == was[..|d0| + |hdr|] + b;
    if acc != [] {
      assert mb.Data()[|d0| + HDR_SIZE..] == was[|d0| + HDR_SIZE..];
    }
  }

  method HdrEncode(mb: Mbuf, ids: Ids, len: u16, ghost d0: seq<byte>, ghost acc: seq<byte>)
    requires Patching(mb, d0, [], acc)
    modifies mb
    ensures mb.Valid() && mb.Data() == d0 + HeaderBytes(ids, len) + acc
  {
    hide U16Bytes, U32Bytes, Patching;
    ghost var h1 := [VERSION * 32];
    PutHeader(mb, [VERSION * 32], d0, [], acc);
    assert [] + h1 == h1;
    PutHeader(mb, [ids.prim], d0, h1, acc);
    ghost var h2 := h1 + [ids.prim];
    PutHeader(mb, U16Bytes(len), d0, h2, acc);
    ghost var h3 := h2 + U16Bytes(len);
    PutHeader(mb, U32Bytes(ids.confid), d0, h3, acc);
    ghost var h4 := h3 + U32Bytes(ids.confid);
    PutHeader(mb, U16Bytes(ids.tid), d0, h4, acc);
    ghost var h5 := h4 + U16Bytes(ids.tid);
    PutHeader(mb, U16Bytes(ids.userid), d0, h5, acc);
    Patched(mb, d0, h5 + U16Bytes(ids.userid), acc);
    assert HeaderBytes(ids, len) == h5 + U16Bytes(ids.userid);
  }

  lemma Patched(mb: Mbuf, d0: seq<byte>, hdr: seq<byte>, acc: seq<byte>)
    requires Patching(mb, d0, hdr, acc) && |hdr| == HDR_SIZE
    ensures mb.Valid() && mb.Data() == d0 + hdr + acc
  {
    assert mb.Data() == mb.Data()[..mb.pos] + mb.Data()[mb.pos..];
  }

  /** The loop over the attributes, behind the room for the header. */
  method EncodeGiven(mb: Mbuf, given: seq<Given>, ghost d0: seq<byte>, ghost at: nat) returns (err: bool)
    requires BfcpEncoder.Holds(mb, d0, at, []) && forall g <- given :: Proper(g)
    modifies mb
    ensures mb.Valid()
    ensures !err <==> forall g <- given :: Encodable(g)
    ensures !err ==> BfcpEncoder.Holds(mb, d0, at, EncodeAll(Chosen(given)))
  {
    hide EncodeAll, Encode;
    var i := 0;
    ghost var acc := [];
    NoAttributes();
    while i < |given|
      invariant 0 <= i <= |given| && forall g <- given[..i] :: Encodable(g)
      invariant acc == EncodeAll(Chosen(given[..i])) && BfcpEncoder.Holds(mb, d0, at, acc)
    {
      var g := given[i];
      assert g in given;
      if g.v.Some? {
        err := AppendAttr(mb, g.typ, g.v.value, d0, at, acc);
        if err {
          return;
        }
        acc := acc + Encode(false, g.typ, g.v.value);
      }
      assert given[..i + 1] == given[..i] + [g];
      ChosenAppend(given[..i], g);
      i := i + 1;
    }
    assert given[..i] == given;
    err := false;
  }

  /** Appends a message to `mb`; fails with EINVAL for an attribute type that is not known. */
  method MsgVencode(mb: Mbuf, ids: Ids, given: seq<Given>) returns (err: bool)
    requires mb.Valid() && mb.pos == mb.end && forall g <- given :: Proper(g)
    modifies mb
    ensures mb.Valid()
    ensures !err <==> forall g <- given :: Encodable(g)
    ensures !err ==> mb.Data() == old(mb.Data()) + EncodeMsg(ids, Chosen(given)) && mb.pos == mb.end
  {
    hide HeaderBytes, EncodeAll, Chosen, Encodable, Proper;
    var start := mb.pos;
    ghost var d0 := mb.Data();
    mb.pos := mb.pos + HDR_SIZE;
    err := EncodeGiven(mb, given, d0, start + HDR_SIZE);
    if err {
      return;
    }
    ghost var acc := EncodeAll(Chosen(given));
    var len := (mb.pos - start - HDR_SIZE) / 4 % 0x1_0000;
    mb.pos := start;
    assert Patching(mb, d0, [], acc);
    HdrEncode(mb, ids, len, d0, acc);
    mb.pos := mb.end;
  }

  lemma NoAttributes()
    ensures EncodeAll([]) == []
  {
  }
}
