/**
 * BFCP attributes on the wire, by the numbers of section 5.2 of RFC 4582: what each type carries, which bytes
 * are no attribute, and what becomes of attributes of unknown types.
 */
module BfcpLayout {
  import opened Memory
  import opened BfcpAttr
  import opened BfcpRoundTrip
  import opened BfcpList

  // ----- what each type carries

  /** The payload of an attribute without parts, by the number of its type; multi-byte fields are big-endian. */
  lemma LeafBodies(mand: bool, t: byte, v: Value)
    requires Matches(t, v) && IsLeaf(v)
    ensures var b := Body(mand, v);
            match v
            case Id(id) => 1 <= t <= 3 && |b| == 2 && b[0] as int * 256 + b[1] as int == id
            case Priority(prio) => t == 4 && |b| == 2 && b[0] as int == prio as int * 32 % 256 && b[1] == 0
            case Status(rs) => t == 5 && b == [rs.stat, rs.qpos]
            case ErrorCode(code, details) => t == 6 && b == [code] + details
            case Str(text) => t in [7, 8, 9, 12, 13] && b == text
            case Attributes(av) => t == 10 && |b| == |av| && forall i :: 0 <= i < |av| ==> b[i] as int == av[i] as int * 2 % 256
            case Primitives(pv) => t == 11 && b == pv
  {
  }

  /** A part of a group, if it is there. */
  function Part(mand: bool, t: byte, v: Value, there: bool): seq<byte>
    requires there ==> Matches(t, v)
  {
    if there then Encode(mand, t, v) else []
  }

  function TextPart(mand: bool, t: byte, o: Option<Text>): seq<byte>
    requires t in [7, 8, 9, 12, 13]
  {
    if o.Some? then Encode(mand, t, Str(o.value)) else []
  }

  function Statuses(mand: bool, rs: seq<Request>): seq<byte> {
    if rs == [] then [] else Encode(mand, 17, RequestInfo(rs[0])) + Statuses(mand, rs[1..])
  }

  /** Beneficiary (14) and requested-by information (16): a number, and then a name (12) and a URI (13). */
  lemma PartyBodyIs(mand: bool, t: byte, p: Party)
    ensures Matches(t, PartyInfo(p)) <==> t == 14 || t == 16
    ensures var b := Body(mand, PartyInfo(p));
            && |b| >= 2 && b[0] as int * 256 + b[1] as int == p.id
            && b[2..] == TextPart(mand, 12, p.dname) + TextPart(mand, 13, p.uri)
  {
    hide Wrap;
    TextParts(mand, 12, p.dname);
    TextParts(mand, 13, p.uri);
    assert Body(mand, PartyInfo(p)) == U16Bytes(p.id) + (TextPart(mand, 12, p.dname) + TextPart(mand, 13, p.uri));
  }

  /** The status of a floor request (17) or of all (18): a number, and then a status (5) and a text (9). */
  lemma RequestBodyIs(mand: bool, t: byte, r: Request)
    ensures Matches(t, RequestInfo(r)) <==> t == 17 || t == 18
    ensures var b := Body(mand, RequestInfo(r));
            && |b| >= 2 && b[0] as int * 256 + b[1] as int == r.id
            && b[2..] == Part(mand, 5, Status(r.reqstat), r.reqstat.stat != 0) + TextPart(mand, 9, r.statinfo)
  {
    hide Wrap;
    TextParts(mand, 9, r.statinfo);
    assert Body(mand, RequestInfo(r)) ==
           U16Bytes(r.id) + (Part(mand, 5, Status(r.reqstat), r.reqstat.stat != 0) + TextPart(mand, 9, r.statinfo));
  }

  /** Floor request information (15): a number, and then 18, any number of 17, 14, 16, 4 and 8, all but 4 optional. */
  lemma InfoBodyIs(mand: bool, t: byte, f: Info)
    ensures Matches(t, FloorRequestInfo(f)) <==> t == 15
    ensures var b := Body(mand, FloorRequestInfo(f));
            && |b| >= 2 && b[0] as int * 256 + b[1] as int == f.freqid
            && b[2..] == InfoPartsOf(mand, f)
  {
    hide Wrap, EncodeInfoRequests, EncodeInfoParties, EncodeInfoTail, InfoPartsOf;
    InfoPartsAgree(mand, f);
    var parts := EncodeInfoRequests(mand, f) + EncodeInfoParties(mand, f) + EncodeInfoTail(mand, f);
    assert Body(mand, FloorRequestInfo(f)) == U16Bytes(f.freqid) + parts;
  }

  function InfoPartsOf(mand: bool, f: Info): seq<byte> {
    (Part(mand, 18, RequestInfo(f.ors), f.ors.id != 0) + Statuses(mand, f.frsv))
    + (Part(mand, 14, PartyInfo(f.bfi), f.bfi.id != 0) + Part(mand, 16, PartyInfo(f.rbi), f.rbi.id != 0))
    + (Encode(mand, 4, Priority(f.prio)) + TextPart(mand, 8, f.ppi))
  }

  lemma InfoPartsAgree(mand: bool, f: Info)
    ensures EncodeInfoRequests(mand, f) + EncodeInfoParties(mand, f) + EncodeInfoTail(mand, f) == InfoPartsOf(mand, f)
  {
    TextParts(mand, 8, f.ppi);
    StatusesAre(mand, f.frsv);
    GroupParts(mand, f);
    hide Part, EncodeOverall, EncodeParty, Wrap, EncodeText, TextPart, Statuses, EncodeRequests, LeafBody;
  }

  lemma GroupParts(mand: bool, f: Info)
    ensures Part(mand, 18, RequestInfo(f.ors), f.ors.id != 0) == EncodeOverall(mand, f.ors)
    ensures Part(mand, 14, PartyInfo(f.bfi), f.bfi.id != 0) == EncodeParty(mand, 14, f.bfi)
    ensures Part(mand, 16, PartyInfo(f.rbi), f.rbi.id != 0) == EncodeParty(mand, 16, f.rbi)
  {
    hide Wrap, RequestBody, PartyBody;
  }

  lemma TextParts(mand: bool, t: byte, o: Option<Text>)
    requires t in [7, 8, 9, 12, 13]
    ensures TextPart(mand, t, o) == EncodeText(mand, t, o)
  {
    hide Wrap;
  }

  lemma {:induction false} StatusesAre(mand: bool, rs: seq<Request>)
    ensures Statuses(mand, rs) == EncodeRequests(mand, rs)
  {
    hide Wrap, RequestBody;
    if rs != [] {
      StatusesAre(mand, rs[1..]);
    }
  }

  // ----- what is no attribute

  /** The bytes that an attribute without parts has to have after its header. */
  function LeastPayload(t: byte): nat { if 1 <= t <= 5 then 2 else if t == 6 then 1 else 0 }

  /**
   * Bytes whose type is not that of a group decode if and only if the length is at least that of the header
   * and of what the type needs, and that many bytes are there. They take what was read of the payload (all
   * of it unless the type has a fixed size), and the padding as far as it is there.
   */
  lemma LeafDecodes(s: seq<byte>)
    requires s != [] && !(14 <= s[0] / 2 <= 18)
    ensures var t, r := s[0] / 2, Decode(s);
            && (r.Ok? <==> |s| >= 2 && s[1] as int >= 2 + LeastPayload(t) && |s| >= s[1] as int)
            && (r.Ok? ==>
                  var used := if 1 <= t <= 5 then 4 else s[1] as int;
                  && r.n == (if (used + 3) / 4 * 4 <= |s| then (used + 3) / 4 * 4 else |s|)
                  && r.v.typ == t && (r.v.mand <==> s[0] % 2 == 1)
                  && (r.v.v.Unknown? <==> t == 0 || t > 18))
  {
    hide CString, Aligned;
    var t := s[0] / 2;
    assert !IsGrouped(t);
    if Len(s).Some? {
      PayloadDecodes(t, s[2..2 + Len(s).value]);
      hide LeafValue;
      if LeafValue(t, s[2..2 + Len(s).value]).Some? {
        AlignedIs(2 + LeafValue(t, s[2..2 + Len(s).value]).value.1, |s|);
      }
    }
  }

  lemma PayloadDecodes(t: byte, p: seq<byte>)
    requires !(14 <= t <= 18)
    ensures var r := LeafValue(t, p);
            && (r.Some? <==> |p| >= LeastPayload(t))
            && (r.Some? ==> r.value.1 == (if 1 <= t <= 5 then 2 else |p|) && (r.value.0.Unknown? <==> t == 0 || t > 18))
  {
  }

  /** What each payload means, whatever the encoder would have written: surplus bits and bytes are ignored. */
  lemma PayloadMeans(t: byte, p: seq<byte>)
    requires !(14 <= t <= 18) && LeafValue(t, p).Some?
    ensures var v := LeafValue(t, p).value.0;
            && (1 <= t <= 3 ==> v == Id(p[0] as int * 256 + p[1] as int))
            && (t == 4 ==> v == Priority(p[0] / 32))
            && (t == 5 ==> v == Status(ReqStat(p[0], p[1])))
            && (t == 6 ==> v == ErrorCode(p[0], p[1..]))
            && (t in [7, 8, 9, 12, 13] ==> v.Str? && v.text <= p && (|v.text| == |p| || p[|v.text|] == 0))
            && (t == 10 ==> v.Attributes? && |v.attrv| == |p| && forall i :: 0 <= i < |p| ==> v.attrv[i] == p[i] / 2)
            && (t == 11 ==> v == Primitives(p))
  {
    TextPrefix(p);
  }

  /** The text is what comes before the first NUL. */
  lemma {:induction false} TextPrefix(p: seq<byte>)
    ensures CString(p) <= p && (|CString(p)| == |p| || p[|CString(p)|] == 0)
  {
    if p != [] && p[0] != 0 {
      TextPrefix(p[1..]);
    }
  }

  lemma AlignedIs(n: nat, left: nat)
    requires n <= left
    ensures Aligned(n, left) == if (n + 3) / 4 * 4 <= left then (n + 3) / 4 * 4 else left
  {
  }

  /** A group has room for its number, and that is where the number is. */
  lemma GroupNeedsNumber(s: seq<byte>)
    requires s != [] && 14 <= s[0] / 2 <= 18
    ensures var r := Decode(s);
            r.Ok? ==>
              && |s| >= 4 && s[1] >= 4 && |s| >= s[1] as int && (r.v.mand <==> s[0] % 2 == 1)
              && Number(r.v.v) == Some(s[2] as int * 256 + s[3] as int)
              && Matches(s[0] / 2, r.v.v)
  {
    hide PartyParts, RequestParts, InfoParts, Aligned;
  }

  function Number(v: Value): Option<u16> {
    match v
    case PartyInfo(p) => Some(p.id)
    case RequestInfo(r) => Some(r.id)
    case FloorRequestInfo(f) => Some(f.freqid)
    case _ => None
  }

  /** One byte on its own: it ends a list of statuses, while a part that has its type is malformed. */
  lemma LoneByte(b: byte, t: byte)
    ensures DecodeRequests([b]) == Ok([], 0)
    ensures DecodeText([b], t) == if b / 2 == t then Bad else Ok(None, 0)
    ensures DecodeStatus([b]) == if b / 2 == 5 then Bad else Ok(NO_STATUS, 0)
  {
  }

  // ----- attributes of unknown types

  /** An attribute of a type that the decoder does not know, padded to whole words. */
  type Odd = u: seq<byte> | IsOdd(u) witness [80, 2, 0, 0]

  predicate IsOdd(u: seq<byte>) {
    && |u| >= 4 && |u| % 4 == 0 && (u[0] / 2 == 0 || u[0] / 2 > 18)
    && 2 <= u[1] as int <= |u| < u[1] as int + 4
  }

  function OddAttr(u: Odd): Attr { Attr(u[0] / 2, u[0] % 2 == 1, Unknown) }

  /** It is skipped, payload and padding, whatever follows. */
  lemma OddDecodes(u: Odd, rest: seq<byte>)
    ensures Decode(u + rest) == Ok(OddAttr(u), |u|)
  {
    hide Decode;
    LeafDecodes(u + rest);
    RoundUp(u[1] as int, |u|);
  }

  lemma RoundUp(n: nat, m: nat)
    requires n <= m < n + 4 && m % 4 == 0
    ensures (n + 3) / 4 * 4 == m
  {
  }

  /** Some attributes and one of an unknown type after them. */
  datatype Chapter = Chapter(xs: seq<Sound>, odd: Odd)

  function Book(cs: seq<Chapter>, last: seq<Sound>): seq<byte> {
    if cs == [] then EncodeAll(last) else EncodeAll(cs[0].xs) + (cs[0].odd + Book(cs[1..], last))
  }

  function Contents(cs: seq<Chapter>, last: seq<Sound>): seq<Attr> {
    if cs == [] then last else cs[0].xs + ([OddAttr(cs[0].odd)] + Contents(cs[1..], last))
  }

  /** A separate list in front of other attributes of the same message decodes to itself and then to those. */
  lemma {:induction false} ListThen(xs: seq<Sound>, tail: seq<byte>, extra: nat)
    requires Untaken(tail) && Separate(xs) && |tail| >= extra
    ensures var r, rest := DecodeAll(EncodeAll(xs) + tail, extra), DecodeAll(tail, extra);
            r == if rest.Bad? then Bad else Ok(xs + rest.v, |EncodeAll(xs)| + rest.n)
    decreases |xs|
  {
    hide Encode, Decode, DecodeAll, Span, Takes, Survives, Separate, Untaken;
    var rest := DecodeAll(tail, extra);
    if xs == [] {
      NoneEncoded(tail);
      assert rest.Ok? ==> [] + rest.v == rest.v;
    } else {
      var k := DecodeFirst(xs, tail);
      SeparateStep(xs);
      SpanSkips(xs, 1);
      AtLeastHeader(xs);
      DecodeAllStep(EncodeAll(xs) + tail, extra);
      assert (EncodeAll(xs) + tail)[Span(xs, 1)..] == EncodeAll(xs[1..]) + tail;
      ListThen(xs[1..], tail, extra);
      assert rest.Ok? ==> [xs[0]] + (xs[1..] + rest.v) == xs + rest.v;
    }
  }

  /**
   * Attributes of unknown types anywhere in a message keep none of the others from being decoded: all come
   * back in order, each unknown one as such, and up to their exact end.
   */
  lemma {:induction false} UnknownSkipped(cs: seq<Chapter>, last: seq<Sound>, tail: seq<byte>)
    requires Untaken(tail) && Separate(last) && forall c <- cs :: Separate(c.xs)
    ensures DecodeAll(Book(cs, last) + tail, |tail|) == Ok(Contents(cs, last), |Book(cs, last)|)
    decreases |cs|
  {
    hide Decode, DecodeAll, EncodeAll, Separate, Survives, Untaken, IsOdd, OddAttr;
    if cs == [] {
      ListRoundTrip(last, tail);
    } else {
      var c, rest := cs[0], Book(cs[1..], last) + tail;
      assert c in cs;
      UnknownSkipped(cs[1..], last, tail);
      OddThen(c.odd, rest, |tail|);
      OddUntaken(c.odd, rest);
      assert Book(cs, last) + tail == EncodeAll(c.xs) + (c.odd + rest);
      ListThen(c.xs, c.odd + rest, |tail|);
    }
  }

  lemma OddUntaken(u: Odd, rest: seq<byte>)
    ensures Untaken(u + rest)
  {
  }

  lemma OddThen(u: Odd, rest: seq<byte>, extra: nat)
    requires |rest| >= extra
    ensures DecodeAll(u + rest, extra) ==
            if DecodeAll(rest, extra).Bad? then Bad
            else Ok([OddAttr(u)] + DecodeAll(rest, extra).v, |u| + DecodeAll(rest, extra).n)
  {
    hide Decode, DecodeAll;
    OddDecodes(u, rest);
    DecodeAllStep(u + rest, extra);
    assert (u + rest)[|u|..] == rest;
  }
}
