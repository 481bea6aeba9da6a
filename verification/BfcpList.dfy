/** The round trips of BFCP attributes: one alone, and several one after the other. */
module BfcpList {
  import opened Memory
  import opened BfcpAttr
  import opened BfcpRoundTrip

  // ----- one attribute

  /** The value as it arrives. */
  function Plain(v: Value): Value {
    match v
    case RequestInfo(r) => RequestInfo(PlainRequest(r))
    case FloorRequestInfo(f) => FloorRequestInfo(PlainInfo(f))
    case _ => v
  }

  /** No group of the value, nested or not, has an encoding whose length is a multiple of 256. */
  predicate AllSized(mand: bool, t: byte, v: Value)
    requires Matches(t, v)
  {
    (IsLeaf(v) || Sized(Encode(mand, t, v))) && (v.FloorRequestInfo? ==> PartsSized(mand, v.info))
  }

  /** What a value becomes when `tail` follows, and how much of `tail` it takes. */
  function Then(v: Value, tail: seq<byte>): (r: Dec<Value>)
    ensures r.Ok? ==> r.n <= |tail|
  {
    match v
    case PartyInfo(p) =>
      (match PartyTail(p, tail) case Bad => Bad case Ok(q, n) => Ok(PartyInfo(Party(p.id, q.0, q.1)), n))
    case RequestInfo(r) =>
      (match RequestTail(r, tail) case Bad => Bad case Ok(q, n) => Ok(RequestInfo(Request(r.id, q.0, q.1)), n))
    case FloorRequestInfo(f) =>
      (match InfoTail(f, tail) case Bad => Bad case Ok(ppi, n) => Ok(FloorRequestInfo(PlainInfo(f).(ppi := ppi)), n))
    case _ => Ok(v, 0)
  }

  lemma EncodeHeader(mand: bool, t: byte, v: Value, tail: seq<byte>)
    requires Matches(t, v)
    ensures var s := Encode(mand, t, v) + tail; s != [] && Type(s) == t && (s[0] % 2 == 1 <==> mand)
  {
    hide Body;
  }

  /**
   * The layout of section 5.2 of RFC 4582: type and mandatory bit, a length that counts the header and, for
   * a group only, the padding; whole words, and nothing but zeros between the announced end of a leaf and
   * its real one.
   */
  lemma AttributeLayout(mand: bool, t: byte, v: Value)
    requires Matches(t, v)
    ensures var e := Encode(mand, t, v);
            var len := if IsLeaf(v) then |Body(mand, v)| + 2 else |e|;
            && |e| % 4 == 0 && e[0] == t * 2 + (if mand then 1 else 0) && e[1] as int == len % 256
            && len <= |e| < len + 4 && e[2..2 + |Body(mand, v)|] == Body(mand, v)
            && forall i :: len <= i < |e| ==> e[i] == 0
  {
    hide Body;
    GroupType(t, v);
    var body := Body(mand, v);
    assert Encode(mand, t, v)[2..2 + |body|] == body;
  }

  lemma GroupType(t: byte, v: Value)
    requires Matches(t, v)
    ensures IsGrouped(t) <==> !IsLeaf(v)
  {
  }

  lemma LeafType(t: byte, v: Value)
    requires Matches(t, v) && IsLeaf(v)
    ensures !IsGrouped(t)
  {
  }

  /** Encoding and decoding in full, for every value that fits its fields and whatever follows it. */
  lemma EncodeThenDecode(mand: bool, t: byte, v: Value, tail: seq<byte>)
    requires Matches(t, v) && Fits(v)
    ensures
      var e := Encode(mand, t, v);
      Decode(e + tail) ==
      if !AllSized(mand, t, v) then Bad
      else match Then(v, tail) case Bad => Bad case Ok(u, n) => Ok(Attr(t, mand, u), Aligned(|e| + n, |e + tail|))
  {
    hide Wrap, DecodeLeaf, DecodeParty, DecodeRequest, DecodeInfo, PartyBody, RequestBody, InfoBody, LeafBody, Sized, PartsSized;
    hide PartyTail, RequestTail, InfoTail, PlainInfo, Aligned, TextFits, PartyFits, InfoFits;
    EncodeHeader(mand, t, v, tail);
    if v.PartyInfo? {
      PartyTrip(mand, t, v.party, tail);
    } else if v.RequestInfo? {
      RequestTrip(mand, t, v.request, tail);
    } else if v.FloorRequestInfo? {
      InfoTrip(mand, v.info, tail);
    } else {
      LeafType(t, v);
      LeafTrip(mand, t, v, tail);
      AlignedExact(|Encode(mand, t, v)|, |Encode(mand, t, v) + tail|);
    }
  }

  lemma ThenNothing(v: Value)
    ensures Then(v, []) == Ok(Plain(v), 0)
  {
    assert forall t :: DecodeText([], t) == Ok(None, 0);
    var none: seq<byte> := [];
    assert none[0..] == none;
    hide DecodeText;
  }

  lemma {:induction false} CStringLength(b: seq<byte>)
    ensures |CString(b)| <= |b|
  {
    if b != [] && b[0] != 0 {
      CStringLength(b[1..]);
    }
  }

  lemma LeafValueFits(t: byte, p: seq<byte>)
    requires |p| <= 253
    ensures var r := LeafValue(t, p); r.Some? ==> Fits(r.value.0) && !r.value.0.FloorRequestInfo? && !r.value.0.PartyInfo? && !r.value.0.RequestInfo?
  {
    CStringLength(p);
  }

  lemma DecodedLeafFits(s: seq<byte>)
    ensures DecodeLeaf(s).Ok? ==> Fits(DecodeLeaf(s).v)
  {
    var len := Len(s);
    if len.Some? {
      LeafValueFits(Type(s), s[2..2 + len.value]);
    }
    hide LeafValue, Fits;
  }

  lemma DecodedTextFits(s: seq<byte>, t: byte)
    ensures DecodeText(s, t).Ok? ==> TextFits(DecodeText(s, t).v)
  {
    DecodedLeafFits(s);
    hide DecodeLeaf;
  }

  lemma DecodedPartyFits(s: seq<byte>)
    ensures DecodeParty(s).Ok? ==> PartyFits(DecodeParty(s).v)
  {
    hide DecodeText, TextFits, Len, Aligned;
    if GroupId(s).Some? {
      DecodedTextFits(s[4..], USER_DISPLAY_NAME);
      var d := DecodeText(s[4..], USER_DISPLAY_NAME);
      if d.Ok? {
        DecodedTextFits(s[4..][d.n..], USER_URI);
      }
    }
  }

  lemma DecodedRequestFits(s: seq<byte>)
    ensures DecodeRequest(s).Ok? ==> TextFits(DecodeRequest(s).v.statinfo)
  {
    hide DecodeText, DecodeStatus, TextFits, Len, Aligned;
    if GroupId(s).Some? {
      var d := DecodeStatus(s[4..]);
      if d.Ok? {
        DecodedTextFits(s[4..][d.n..], STATUS_INFO);
      }
    }
  }

  lemma {:induction false} DecodedRequestsFit(s: seq<byte>)
    ensures DecodeRequests(s).Ok? ==> forall r <- DecodeRequests(s).v :: TextFits(r.statinfo)
    decreases |s|
  {
    hide DecodeRequest, TextFits;
    if |s| >= 2 && Type(s) == FLOOR_REQUEST_STATUS {
      DecodedRequestFits(s);
      var d := DecodeRequest(s);
      if d.Ok? {
        DecodedRequestsFit(s[d.n..]);
      }
    }
  }

  lemma DecodedInfoPartsFit(s: seq<byte>)
    ensures var r := InfoParts(s);
            r.Ok? ==>
              && TextFits(r.v.0.0.statinfo) && (forall q <- r.v.0.1 :: TextFits(q.statinfo))
              && PartyFits(r.v.1.0) && PartyFits(r.v.1.1) && r.v.2.0 < 8 && TextFits(r.v.2.1)
  {
    hide DecodeRequest, DecodeRequests, DecodeParty, DecodeText, DecodeLeaf;
    var r1 := InfoRequests(s);
    if r1.Ok? {
      DecodedRequestFits(s);
      var d := DecodeOverall(s);
      DecodedRequestsFit(s[d.n..]);
      var s2 := s[r1.n..];
      var r2 := InfoParties(s2);
      if r2.Ok? {
        DecodedPartyFits(s2);
        DecodedPartyFits(s2[DecodeNestedParty(s2, BENEFICIARY_INFO).n..]);
        var s3 := s[r1.n + r2.n..];
        DecodedLeafFits(s3);
        var p := DecodePriority(s3);
        if p.Ok? {
          DecodedTextFits(s3[p.n..], PARTICIPANT_PROV_INFO);
        }
      }
    }
  }

  /** No byte string decodes to a value that is too large for its fields. */
  lemma DecodedFits(s: seq<byte>)
    ensures Decode(s).Ok? ==> Fits(Decode(s).v.v)
  {
    hide DecodeLeaf, DecodeParty, DecodeRequest, InfoParts, PartyFits, TextFits, Aligned;
    if s != [] {
      if IsPartyType(Type(s)) {
        DecodedPartyFits(s);
      } else if IsRequestType(Type(s)) {
        DecodedRequestFits(s);
      } else if Type(s) == FLOOR_REQUEST_INFO {
        if GroupId(s).Some? {
          DecodedInfoPartsFit(s[4..]);
        }
      } else {
        DecodedLeafFits(s);
      }
    }
  }

  /** Whether an attribute survives encoding and decoding. */
  predicate Survives(a: Attr)
    requires Matches(a.typ, a.v)
  {
    Fits(a.v) && AllSized(a.mand, a.typ, a.v) && Plain(a.v) == a.v
  }

  /**
   * The round trip of one attribute at the end of a buffer, with its exact condition: every text, list
   * and number fits its field, no group is encoded to a multiple of 256 bytes, and parts that are not
   * sent (identifier or status 0) hold nothing else. A group of any other length above 255 survives,
   * although its length field wraps around.
   */
  lemma AttributeRoundTrip(a: Attr)
    requires Matches(a.typ, a.v)
    ensures var e := Encode(a.mand, a.typ, a.v);
            Decode(e) == Ok(a, |e|) <==> Survives(a)
  {
    hide Decode, Encode, Fits, AllSized, Aligned;
    var e := Encode(a.mand, a.typ, a.v);
    assert e + [] == e;
    DecodedFits(e);
    if Fits(a.v) {
      EncodeThenDecode(a.mand, a.typ, a.v, []);
      ThenNothing(a.v);
      hide Then, Plain;
      EncodeLength(a.mand, a.typ, a.v);
      AlignedExact(|e|, |e|);
    }
  }

  lemma EncodeLength(mand: bool, t: byte, v: Value)
    requires Matches(t, v)
    ensures |Encode(mand, t, v)| % 4 == 0
  {
    hide Body;
  }

  // ----- several attributes

  type Known = a: Attr | Matches(a.typ, a.v) witness Attr(1, false, Id(0))

  type Sound = a: Known | Survives(a) witness Attr(1, false, Id(0))

  function EncodeAll(xs: seq<Known>): (e: seq<byte>)
    ensures |e| % 4 == 0
  {
    if xs == [] then []
    else
      var a, b := Encode(xs[0].mand, xs[0].typ, xs[0].v), EncodeAll(xs[1..]);
      EncodeLength(xs[0].mand, xs[0].typ, xs[0].v);
      WholeWords(|a|, |b|);
      a + b
  }

  /**
   * The loop over a message's attributes, where `extra` bytes follow the message. The loop looks at the
   * unsigned difference of what is left and `extra`: once an attribute has reached past the message's
   * end, that is huge, and the loop goes on.
   */
  function DecodeAll(s: seq<byte>, extra: nat): (r: Dec<seq<Attr>>)
    ensures r.Ok? ==> r.n <= |s|
    decreases |s|
  {
    if extra <= |s| < extra + 2 then Ok([], 0)
    else
      match Decode(s)
      case Bad => Bad
      case Ok(a, n) =>
        match DecodeAll(s[n..], extra)
        case Bad => Bad
        case Ok(rest, m) => Ok([a] + rest, n + m)
  }

  lemma DecodeAllStep(s: seq<byte>, extra: nat)
    ensures extra <= |s| < extra + 2 ==> DecodeAll(s, extra) == Ok([], 0)
    ensures !(extra <= |s| < extra + 2) && Decode(s).Bad? ==> DecodeAll(s, extra) == Bad
    ensures !(extra <= |s| < extra + 2) && Decode(s).Ok? ==>
              var a := Decode(s);
              var rest := DecodeAll(s[a.n..], extra);
              DecodeAll(s, extra) == if rest.Bad? then Bad else Ok([a.v] + rest.v, a.n + rest.n)
  {
    hide Decode;
  }

  /** What follows is of no type that a group's decoder may take after the group's last part. */
  predicate Untaken(tail: seq<byte>) {
    && FreeOf(tail, REQUEST_STATUS) && FreeOf(tail, STATUS_INFO) && FreeOf(tail, PARTICIPANT_PROV_INFO)
    && FreeOf(tail, USER_DISPLAY_NAME) && FreeOf(tail, USER_URI)
  }

  /** Whether the decoder of `v` still takes an attribute of type `t` that follows it. */
  predicate Takes(v: Value, t: byte) {
    match v
    case PartyInfo(p) => p.uri == None && (t == USER_URI || (t == USER_DISPLAY_NAME && p.dname == None))
    case RequestInfo(r) => r.statinfo == None && (t == STATUS_INFO || (t == REQUEST_STATUS && r.reqstat.stat == 0))
    case FloorRequestInfo(f) => f.ppi == None && t == PARTICIPANT_PROV_INFO
    case _ => false
  }

  /** No attribute follows a group whose decoder would still take it. */
  predicate Separate(xs: seq<Sound>) {
    forall i :: 0 <= i < |xs| - 1 ==> !Takes(xs[i].v, xs[i + 1].typ)
  }

  /** How many bytes the first `k` of the attributes take. */
  function Span(xs: seq<Sound>, k: nat): nat
    requires k <= |xs|
  {
    if k == 0 then 0
    else |Encode(xs[0].mand, xs[0].typ, xs[0].v)| + Span(xs[1..], k - 1)
  }

  lemma {:induction false} SpanSkips(xs: seq<Sound>, k: nat)
    requires k <= |xs|
    ensures Span(xs, k) <= |EncodeAll(xs)| && EncodeAll(xs)[Span(xs, k)..] == EncodeAll(xs[k..]) && Span(xs, k) % 4 == 0
  {
    hide Encode, Survives;
    if k > 0 {
      SpanSkips(xs[1..], k - 1);
      EncodeLength(xs[0].mand, xs[0].typ, xs[0].v);
      WholeWords(|Encode(xs[0].mand, xs[0].typ, xs[0].v)|, Span(xs[1..], k - 1));
      assert xs[1..][k - 1..] == xs[k..];
    }
  }

  lemma FirstType(xs: seq<Sound>, tail: seq<byte>)
    requires xs != []
    ensures EncodeAll(xs) != [] && Type(EncodeAll(xs) + tail) == xs[0].typ
  {
    hide Encode, Survives;
    EncodeHeader(xs[0].mand, xs[0].typ, xs[0].v, EncodeAll(xs[1..]));
  }

  /** The first attribute and what follows it. */
  lemma FirstThenRest(xs: seq<Sound>, tail: seq<byte>)
    requires xs != []
    ensures EncodeAll(xs) + tail == Encode(xs[0].mand, xs[0].typ, xs[0].v) + (EncodeAll(xs[1..]) + tail)
  {
    hide Encode, Survives;
  }

  lemma TextFromList(xs: seq<Sound>, tail: seq<byte>, t: byte)
    requires IsTextType(t) && FreeOf(tail, t)
    ensures var k := if xs != [] && xs[0].typ == t then 1 else 0;
            var r := DecodeText(EncodeAll(xs) + tail, t);
            r.Ok? && r.n == Span(xs, k) && (k == 0 ==> r.v == None)
  {
    hide Wrap, DecodeLeaf, Fits, AllSized, Plain, EncodeAll;
    if xs == [] {
      NoneEncoded(tail);
    } else {
      FirstType(xs, tail);
      FirstThenRest(xs, tail);
      if xs[0].typ == t {
        LeafTrip(xs[0].mand, t, xs[0].v, EncodeAll(xs[1..]) + tail);
        assert Span(xs[1..], 0) == 0;
      }
    }
  }

  lemma NoneEncoded(tail: seq<byte>)
    ensures EncodeAll([]) + tail == tail
  {
  }

  lemma StatusFromList(xs: seq<Sound>, tail: seq<byte>)
    requires FreeOf(tail, REQUEST_STATUS)
    ensures var k := if xs != [] && xs[0].typ == REQUEST_STATUS then 1 else 0;
            var r := DecodeStatus(EncodeAll(xs) + tail);
            r.Ok? && r.n == Span(xs, k) && (k == 0 ==> r.v == NO_STATUS)
  {
    hide Wrap, DecodeLeaf, Fits, AllSized, Plain, EncodeAll;
    if xs == [] {
      NoneEncoded(tail);
    } else {
      FirstType(xs, tail);
      FirstThenRest(xs, tail);
      if xs[0].typ == REQUEST_STATUS {
        LeafTrip(xs[0].mand, REQUEST_STATUS, xs[0].v, EncodeAll(xs[1..]) + tail);
        assert Span(xs[1..], 0) == 0;
      }
    }
  }

  /** A group takes whole attributes of what follows: the number `k` of them. */
  lemma ThenFromList(v: Value, xs: seq<Sound>, tail: seq<byte>) returns (k: nat)
    requires !v.Unknown? && Plain(v) == v && Untaken(tail)
    ensures k <= |xs|
    ensures var r := Then(v, EncodeAll(xs) + tail); r.Ok? && r.n == Span(xs, k) && (k == 0 ==> r.v == v)
    ensures k > 0 <==> xs != [] && Takes(v, xs[0].typ)
  {
    hide Encode, EncodeAll, DecodeText, DecodeStatus, Survives, FreeOf;
    var first := if xs != [] then xs[0].typ else 0;
    k := 0;
    if v.PartyInfo? && v.party.uri == None {
      if v.party.dname == None && first == USER_DISPLAY_NAME {
        k := 1;
      }
      TextFromList(xs, tail, USER_DISPLAY_NAME);
      k := NextFromList(xs, tail, k, USER_URI);
    } else if v.RequestInfo? && v.request.statinfo == None {
      if v.request.reqstat.stat == 0 && first == REQUEST_STATUS {
        k := 1;
      }
      StatusFromList(xs, tail);
      k := NextFromList(xs, tail, k, STATUS_INFO);
    } else if v.FloorRequestInfo? && v.info.ppi == None {
      TextFromList(xs, tail, PARTICIPANT_PROV_INFO);
      if first == PARTICIPANT_PROV_INFO {
        k := 1;
      }
    }
  }

  lemma NextFromList(xs: seq<Sound>, tail: seq<byte>, j: nat, t: byte) returns (k: nat)
    requires j <= 1 && j <= |xs| && IsTextType(t) && FreeOf(tail, t)
    ensures k == if j < |xs| && xs[j].typ == t then j + 1 else j
    ensures Span(xs, j) <= |EncodeAll(xs) + tail|
    ensures var r := DecodeText((EncodeAll(xs) + tail)[Span(xs, j)..], t);
            r.Ok? && Span(xs, j) + r.n == Span(xs, k) && (k == j ==> r.v == None)
  {
    hide Encode, EncodeAll, DecodeText, Survives, FreeOf;
    SpanSkips(xs, j);
    assert (EncodeAll(xs) + tail)[Span(xs, j)..] == EncodeAll(xs[j..]) + tail;
    TextFromList(xs[j..], tail, t);
    k := if j < |xs| && xs[j].typ == t then j + 1 else j;
    SpanAdd(xs, j, k - j);
  }

  lemma {:induction false} SpanAdd(xs: seq<Sound>, j: nat, k: nat)
    requires j + k <= |xs|
    ensures Span(xs, j) + Span(xs[j..], k) == Span(xs, j + k)
  {
    hide Encode, Survives;
    if j == 0 {
      assert xs[0..] == xs;
    } else {
      SpanAdd(xs[1..], j - 1, k);
      assert xs[1..][j - 1..] == xs[j..];
    }
  }

  lemma DecodeFirst(xs: seq<Sound>, tail: seq<byte>) returns (k: nat)
    requires xs != [] && Untaken(tail)
    ensures k < |xs| && Span(xs, k + 1) <= |EncodeAll(xs)|
    ensures var r := Decode(EncodeAll(xs) + tail); r.Ok? && r.n == Span(xs, k + 1) && (k == 0 ==> r.v == xs[0])
    ensures k > 0 <==> |xs| > 1 && Takes(xs[0].v, xs[1].typ)
  {
    hide Encode, Decode, Then, Fits, AllSized, Takes, Plain, Untaken;
    var x, e := xs[0], Encode(xs[0].mand, xs[0].typ, xs[0].v);
    k := ThenFromList(x.v, xs[1..], tail);
    EncodeThenDecode(x.mand, x.typ, x.v, EncodeAll(xs[1..]) + tail);
    FirstThenRest(xs, tail);
    SpanSkips(xs, k + 1);
    AlignedExact(|e| + Span(xs[1..], k), |EncodeAll(xs) + tail|);
  }

  lemma SeparateNone()
    ensures Separate([])
  {
  }

  lemma SeparateStep(xs: seq<Sound>)
    requires xs != []
    ensures Separate(xs) <==> (|xs| > 1 ==> !Takes(xs[0].v, xs[1].typ)) && Separate(xs[1..])
  {
    hide Takes, Survives;
    var ys := xs[1..];
    assert forall i :: 0 <= i < |ys| ==> ys[i] == xs[i + 1];
    if Separate(ys) && (|xs| > 1 ==> !Takes(xs[0].v, xs[1].typ)) {
      forall i | 0 <= i < |xs| - 1 ensures !Takes(xs[i].v, xs[i + 1].typ) {
        if i > 0 {
          assert !Takes(ys[i - 1].v, ys[i].typ);
        }
      }
    }
    if Separate(xs) {
      forall i | 0 <= i < |ys| - 1 ensures !Takes(ys[i].v, ys[i + 1].typ) {
        assert !Takes(xs[i + 1].v, xs[i + 2].typ);
      }
    }
  }

  /**
   * Several attributes one after the other always decode without error and up to exactly their end, but
   * to the attributes that were encoded exactly when none of them follows a group whose decoder would
   * still take it: the decoder of a group looks at the type of the next attribute and not at where the
   * group ends.
   */
  lemma {:induction false} ListRoundTrip(xs: seq<Sound>, tail: seq<byte>)
    requires Untaken(tail)
    ensures var r := DecodeAll(EncodeAll(xs) + tail, |tail|);
            && r.Ok? && r.n == |EncodeAll(xs)| && |r.v| <= |xs|
            && (|r.v| == |xs| <==> Separate(xs))
            && (r.v == xs <==> Separate(xs))
    decreases |xs|
  {
    hide Encode, Decode, Span, Takes, Survives, Separate, Untaken;
    if xs == [] {
      SeparateNone();
    } else {
      var k := DecodeFirst(xs, tail);
      SpanSkips(xs, k + 1);
      assert (EncodeAll(xs) + tail)[Span(xs, k + 1)..] == EncodeAll(xs[k + 1..]) + tail;
      ListRoundTrip(xs[k + 1..], tail);
      AtLeastHeader(xs);
      SeparateStep(xs);
      assert xs == [xs[0]] + xs[1..];
    }
  }

  lemma AtLeastHeader(xs: seq<Sound>)
    requires xs != []
    ensures |EncodeAll(xs)| >= 2
  {
    hide Body, Survives;
  }
}
