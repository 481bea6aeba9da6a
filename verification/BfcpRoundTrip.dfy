/** Decoding what was encoded: one attribute, on its own and with other attributes behind it. */
module BfcpRoundTrip {
  import opened Memory
  import opened BfcpAttr

  // ----- what survives: sizes and ranges

  predicate TextFits(o: Option<Text>) { o.Some? ==> |o.value| <= 253 }

  predicate PartyFits(p: Party) { TextFits(p.dname) && TextFits(p.uri) }

  predicate InfoFits(f: Info) {
    && TextFits(f.ors.statinfo) && (forall r <- f.frsv :: TextFits(r.statinfo))
    && PartyFits(f.bfi) && PartyFits(f.rbi) && f.prio < 8 && TextFits(f.ppi)
  }

  /** Every length and number has room in its field of the message. */
  predicate Fits(v: Value) {
    match v
    case Id(_) => true
    case Priority(p) => p < 8
    case Status(_) => true
    case ErrorCode(_, details) => |details| <= 252
    case Str(s) => |s| <= 253
    case Attributes(av) => |av| <= 253 && forall a <- av :: a < 128
    case Primitives(pv) => |pv| <= 253
    case PartyInfo(p) => PartyFits(p)
    case RequestInfo(r) => TextFits(r.statinfo)
    case FloorRequestInfo(f) => InfoFits(f)
    case Unknown => true
  }

  // ----- headers

  lemma LeafHeader(mand: bool, t: byte, body: seq<byte>, tail: seq<byte>)
    requires t < 128 && !IsGrouped(t) && |body| <= 253
    ensures var w := Wrap(mand, t, body);
            var s := w + tail;
            && Type(s) == t && Len(s) == Some(|body|)
            && s[2..2 + |body|] == body && Aligned(2 + |body|, |s|) == |w|
  {
  }

  lemma {:induction false} CStringOfText(s: Text)
    ensures CString(s) == s
  {
    if s != [] {
      assert 0 !in s[1..];
      CStringOfText(s[1..]);
    }
  }

  lemma ShiftBack(a: byte)
    requires a < 128
    ensures ShiftLeft(a, 2) / 2 == a
  {
  }

  lemma LeafValueTrip(t: byte, v: Value)
    requires IsLeaf(v) && Matches(t, v) && Fits(v)
    ensures LeafValue(t, LeafBody(v)) == Some((v, |LeafBody(v)|))
  {
    match v
    case Str(text) => CStringOfText(text);
    case ErrorCode(code, details) => assert ([code] + details)[1..] == details;
    case Attributes(av) =>
      var p := LeafBody(v);
      assert seq(|p|, i requires 0 <= i < |p| => p[i] / 2) == av by {
        forall i | 0 <= i < |av| ensures p[i] / 2 == av[i] {
          assert av[i] in av;
          ShiftBack(av[i]);
        }
      }
    case _ =>
  }

  lemma LeafTrip(mand: bool, t: byte, v: Value, tail: seq<byte>)
    requires IsLeaf(v) && Matches(t, v) && Fits(v)
    ensures DecodeLeaf(Wrap(mand, t, LeafBody(v)) + tail) == Ok(v, |Wrap(mand, t, LeafBody(v))|)
  {
    LeafHeader(mand, t, LeafBody(v), tail);
    LeafValueTrip(t, v);
    hide Wrap, Len, Aligned, LeafValue, LeafBody;
  }

  // ----- nested leaves

  lemma TextTrip(mand: bool, t: byte, o: Option<Text>, rest: seq<byte>)
    requires IsTextType(t) && o.Some? && TextFits(o)
    ensures var e := EncodeText(mand, t, o);
            DecodeText(e + rest, t) == Ok(o, |e|) && e + rest != [] && Type(e + rest) == t
  {
    LeafTrip(mand, t, Str(o.value), rest);
    LeafHeader(mand, t, o.value, rest);
    hide Wrap, DecodeLeaf;
  }

  lemma StatusTrip(mand: bool, rs: ReqStat, rest: seq<byte>)
    requires rs.stat != 0
    ensures var e := EncodeStatus(mand, rs);
            DecodeStatus(e + rest) == Ok(rs, |e|) && e + rest != [] && Type(e + rest) == REQUEST_STATUS
  {
    LeafTrip(mand, REQUEST_STATUS, Status(rs), rest);
    LeafHeader(mand, REQUEST_STATUS, LeafBody(Status(rs)), rest);
    hide Wrap, DecodeLeaf;
  }

  lemma PriorityTrip(mand: bool, prio: byte, rest: seq<byte>)
    requires prio < 8
    ensures var e := Wrap(mand, PRIORITY, LeafBody(Priority(prio)));
            DecodePriority(e + rest) == Ok(prio, |e|) && e + rest != [] && Type(e + rest) == PRIORITY
  {
    LeafTrip(mand, PRIORITY, Priority(prio), rest);
    LeafHeader(mand, PRIORITY, LeafBody(Priority(prio)), rest);
    hide Wrap, DecodeLeaf;
  }

  // ----- groups, whatever follows them

  /** Whether the length field of a group can hold it: the decoder rejects only the length 0. */
  predicate Sized(w: seq<byte>) { |w| % 256 != 0 }

  lemma GroupHeader(mand: bool, t: byte, body: seq<byte>, tail: seq<byte>)
    requires t < 128 && IsGrouped(t) && |body| >= 2 && (|body| + 2) % 4 == 0
    ensures var w := Wrap(mand, t, body);
            var s := w + tail;
            && |w| == |body| + 2 && Type(s) == t && s[2..] == body + tail
            && (if Sized(w) then Len(s).Some? && Len(s).value >= 2 else Len(s) == None)
  {
    assert Padding(|body| + 2) == [];
  }

  lemma U16Trip(v: u16, rest: seq<byte>)
    ensures var s := U16Bytes(v) + rest; U16At(s, 0) == v && s[2..] == rest
  {
  }

  lemma GroupStart(mand: bool, t: byte, id: u16, body: seq<byte>, tail: seq<byte>)
    requires t < 128 && IsGrouped(t) && |body| % 4 == 0
    ensures var w := Wrap(mand, t, U16Bytes(id) + body);
            var s := w + tail;
            && |w| == |body| + 4 && s != [] && Type(s) == t && s[4..] == body + tail
            && GroupId(s) == if Sized(w) then Some(id) else None
  {
    GroupHeader(mand, t, U16Bytes(id) + body, tail);
    U16Trip(id, body + tail);
    hide Wrap, Len;
    var s := Wrap(mand, t, U16Bytes(id) + body) + tail;
    assert s[2..] == U16Bytes(id) + (body + tail);
    assert s[4..] == s[2..][2..];
  }

  function Shift<T>(r: Dec<T>, k: nat): Dec<T> {
    match r case Bad => Bad case Ok(v, n) => Ok(v, k + n)
  }

  // parties

  /** What a party that is followed by `tail` becomes: it takes from `tail` the parts it misses. */
  function PartyTail(p: Party, tail: seq<byte>): (r: Dec<(Option<Text>, Option<Text>)>)
    ensures r.Ok? ==> r.n <= |tail|
  {
    if p.uri.Some? then
      Ok((p.dname, p.uri), 0)
    else if p.dname.Some? then
      match DecodeText(tail, USER_URI) case Bad => Bad case Ok(uri, n) => Ok((p.dname, uri), n)
    else
      PartyParts(tail)
  }

  lemma PartyPartsTrip(mand: bool, p: Party, tail: seq<byte>)
    requires PartyFits(p)
    ensures
      var e1, e2 := EncodeText(mand, USER_DISPLAY_NAME, p.dname), EncodeText(mand, USER_URI, p.uri);
      PartyParts(e1 + e2 + tail) == Shift(PartyTail(p, tail), |e1| + |e2|)
  {
    var e1, e2 := EncodeText(mand, USER_DISPLAY_NAME, p.dname), EncodeText(mand, USER_URI, p.uri);
    var s := e1 + e2 + tail;
    if p.dname.Some? {
      TextTrip(mand, USER_DISPLAY_NAME, p.dname, e2 + tail);
      assert s == e1 + (e2 + tail) && s[|e1|..] == e2 + tail;
    } else {
      assert s == e2 + tail;
      assert s[0..] == s;
    }
    if p.uri.Some? {
      TextTrip(mand, USER_URI, p.uri, tail);
    } else {
      assert e2 + tail == tail;
    }
    hide Wrap, DecodeLeaf;
  }

  lemma PartyBodyParts(mand: bool, p: Party)
    ensures var e := EncodeText(mand, USER_DISPLAY_NAME, p.dname) + EncodeText(mand, USER_URI, p.uri);
            PartyBody(mand, p) == U16Bytes(p.id) + e && |e| % 4 == 0
  {
    hide EncodeText;
    var e1, e2 := EncodeText(mand, USER_DISPLAY_NAME, p.dname), EncodeText(mand, USER_URI, p.uri);
    assert U16Bytes(p.id) + e1 + e2 == U16Bytes(p.id) + (e1 + e2);
  }

  lemma PartyTrip(mand: bool, t: byte, p: Party, tail: seq<byte>)
    requires IsPartyType(t) && PartyFits(p)
    ensures
      var w := Wrap(mand, t, PartyBody(mand, p));
      DecodeParty(w + tail) ==
      if !Sized(w) then Bad
      else match PartyTail(p, tail) case Bad => Bad case Ok(q, n) => Ok(Party(p.id, q.0, q.1), Aligned(|w| + n, |w + tail|))
  {
    hide Wrap, GroupId, Aligned, EncodeText, PartyBody, PartyParts, PartyTail, Sized, U16Bytes;
    var e1, e2 := EncodeText(mand, USER_DISPLAY_NAME, p.dname), EncodeText(mand, USER_URI, p.uri);
    var body := e1 + e2;
    PartyBodyParts(mand, p);
    GroupStart(mand, t, p.id, body, tail);
    PartyPartsTrip(mand, p, tail);
  }

  // requests

  function RequestTail(r: Request, tail: seq<byte>): (d: Dec<(ReqStat, Option<Text>)>)
    ensures d.Ok? ==> d.n <= |tail|
  {
    var reqstat := if r.reqstat.stat == 0 then NO_STATUS else r.reqstat;
    if r.statinfo.Some? then
      Ok((reqstat, r.statinfo), 0)
    else if r.reqstat.stat != 0 then
      match DecodeText(tail, STATUS_INFO) case Bad => Bad case Ok(info, n) => Ok((reqstat, info), n)
    else
      RequestParts(tail)
  }

  lemma RequestPartsTrip(mand: bool, r: Request, tail: seq<byte>)
    requires TextFits(r.statinfo)
    ensures
      var e1, e2 := EncodeStatus(mand, r.reqstat), EncodeText(mand, STATUS_INFO, r.statinfo);
      RequestParts(e1 + e2 + tail) == Shift(RequestTail(r, tail), |e1| + |e2|)
  {
    var e1, e2 := EncodeStatus(mand, r.reqstat), EncodeText(mand, STATUS_INFO, r.statinfo);
    var s := e1 + e2 + tail;
    if r.reqstat.stat != 0 {
      StatusTrip(mand, r.reqstat, e2 + tail);
      assert s == e1 + (e2 + tail) && s[|e1|..] == e2 + tail;
    } else {
      assert s == e2 + tail;
      assert s[0..] == s;
    }
    if r.statinfo.Some? {
      TextTrip(mand, STATUS_INFO, r.statinfo, tail);
    } else {
      assert e2 + tail == tail;
    }
    hide Wrap, DecodeLeaf;
  }

  lemma RequestBodyParts(mand: bool, r: Request)
    ensures var e := EncodeStatus(mand, r.reqstat) + EncodeText(mand, STATUS_INFO, r.statinfo);
            RequestBody(mand, r) == U16Bytes(r.id) + e && |e| % 4 == 0
  {
    hide EncodeText;
    var e1, e2 := EncodeStatus(mand, r.reqstat), EncodeText(mand, STATUS_INFO, r.statinfo);
    assert U16Bytes(r.id) + e1 + e2 == U16Bytes(r.id) + (e1 + e2);
  }

  lemma RequestTrip(mand: bool, t: byte, r: Request, tail: seq<byte>)
    requires IsRequestType(t) && TextFits(r.statinfo)
    ensures
      var w := Wrap(mand, t, RequestBody(mand, r));
      DecodeRequest(w + tail) ==
      if !Sized(w) then Bad
      else match RequestTail(r, tail) case Bad => Bad case Ok(q, n) => Ok(Request(r.id, q.0, q.1), Aligned(|w| + n, |w + tail|))
  {
    hide Wrap, GroupId, Aligned, EncodeText, EncodeStatus, RequestBody, RequestParts, RequestTail, Sized, U16Bytes;
    var e1, e2 := EncodeStatus(mand, r.reqstat), EncodeText(mand, STATUS_INFO, r.statinfo);
    var body := e1 + e2;
    RequestBodyParts(mand, r);
    GroupStart(mand, t, r.id, body, tail);
    RequestPartsTrip(mand, r, tail);
  }

  // ----- groups that nothing of their own follows

  /** Whether the next attribute is not of type `t`. */
  predicate FreeOf(s: seq<byte>, t: byte) { s == [] || Type(s) != t }

  function PlainStatus(rs: ReqStat): ReqStat { if rs.stat == 0 then NO_STATUS else rs }

  /** A request as it arrives: a status of 0 is not sent. */
  function PlainRequest(r: Request): Request { Request(r.id, PlainStatus(r.reqstat), r.statinfo) }

  lemma AlignedExact(n: nat, left: nat)
    requires n <= left && n % 4 == 0
    ensures Aligned(n, left) == n
  {
  }

  lemma PartyAlone(mand: bool, t: byte, p: Party, tail: seq<byte>)
    requires IsPartyType(t) && PartyFits(p) && FreeOf(tail, USER_DISPLAY_NAME) && FreeOf(tail, USER_URI)
    ensures var w := Wrap(mand, t, PartyBody(mand, p));
            DecodeParty(w + tail) == if Sized(w) then Ok(p, |w|) else Bad
  {
    hide Wrap, DecodeParty, PartyBody, Sized, Aligned, DecodeLeaf;
    var w := Wrap(mand, t, PartyBody(mand, p));
    PartyTrip(mand, t, p, tail);
    AlignedExact(|w|, |w + tail|);
    assert tail[0..] == tail;
  }

  lemma RequestAlone(mand: bool, t: byte, r: Request, tail: seq<byte>)
    requires IsRequestType(t) && TextFits(r.statinfo) && FreeOf(tail, REQUEST_STATUS) && FreeOf(tail, STATUS_INFO)
    ensures var w := Wrap(mand, t, RequestBody(mand, r));
            DecodeRequest(w + tail) == if Sized(w) then Ok(PlainRequest(r), |w|) else Bad
  {
    hide Wrap, DecodeRequest, RequestBody, Sized, Aligned, DecodeLeaf;
    var w := Wrap(mand, t, RequestBody(mand, r));
    RequestTrip(mand, t, r, tail);
    AlignedExact(|w|, |w + tail|);
    assert tail[0..] == tail;
  }

  // ----- floor request information

  function PlainOverall(r: Request): Request { if r.id == 0 then NO_REQUEST else PlainRequest(r) }

  function PlainParty(p: Party): Party { if p.id == 0 then NO_PARTY else p }

  function PlainRequests(rs: seq<Request>): (ps: seq<Request>)
    ensures |ps| == |rs| && forall i :: 0 <= i < |rs| ==> ps[i] == PlainRequest(rs[i])
  {
    if rs == [] then [] else [PlainRequest(rs[0])] + PlainRequests(rs[1..])
  }

  /** A floor request as it arrives: a part with identifier 0 is not sent. */
  function PlainInfo(f: Info): Info {
    Info(f.freqid, PlainOverall(f.ors), PlainRequests(f.frsv), PlainParty(f.bfi), PlainParty(f.rbi), f.prio, f.ppi)
  }

  predicate NestedSized(e: seq<byte>) { e == [] || Sized(e) }

  predicate RequestsSized(mand: bool, rs: seq<Request>) {
    forall r <- rs :: Sized(Wrap(mand, FLOOR_REQUEST_STATUS, RequestBody(mand, r)))
  }

  predicate PartsSized(mand: bool, f: Info) {
    && NestedSized(EncodeOverall(mand, f.ors)) && RequestsSized(mand, f.frsv)
    && NestedSized(EncodeParty(mand, BENEFICIARY_INFO, f.bfi)) && NestedSized(EncodeParty(mand, REQUESTED_BY_INFO, f.rbi))
  }

  lemma WrapStart(mand: bool, t: byte, body: seq<byte>, rest: seq<byte>)
    requires t < 128
    ensures var w := Wrap(mand, t, body); w + rest != [] && |w + rest| >= 2 && Type(w + rest) == t
  {
  }

  lemma {:induction false} RequestsTrip(mand: bool, rs: seq<Request>, rest: seq<byte>)
    requires forall r <- rs :: TextFits(r.statinfo)
    requires FreeOf(rest, REQUEST_STATUS) && FreeOf(rest, STATUS_INFO) && FreeOf(rest, FLOOR_REQUEST_STATUS)
    ensures var e := EncodeRequests(mand, rs);
            && DecodeRequests(e + rest) == (if RequestsSized(mand, rs) then Ok(PlainRequests(rs), |e|) else Bad)
            && FreeOf(e + rest, REQUEST_STATUS) && FreeOf(e + rest, STATUS_INFO)
            && (FreeOf(rest, OVERALL_REQUEST_STATUS) ==> FreeOf(e + rest, OVERALL_REQUEST_STATUS))
  {
    hide Wrap, DecodeRequest, RequestBody, Sized, TextFits, PlainRequest, RequestsSized;
    if rs == [] {
      assert EncodeRequests(mand, rs) + rest == rest;
      SizedCons(mand, []);
    } else {
      var w, e := Wrap(mand, FLOOR_REQUEST_STATUS, RequestBody(mand, rs[0])), EncodeRequests(mand, rs[1..]);
      assert forall r <- rs[1..] :: r in rs;
      RequestsTrip(mand, rs[1..], rest);
      RequestAlone(mand, FLOOR_REQUEST_STATUS, rs[0], e + rest);
      WrapStart(mand, FLOOR_REQUEST_STATUS, RequestBody(mand, rs[0]), e + rest);
      assert EncodeRequests(mand, rs) + rest == w + (e + rest);
      assert (w + (e + rest))[|w|..] == e + rest;
      SizedCons(mand, rs);
    }
  }

  lemma SizedCons(mand: bool, rs: seq<Request>)
    ensures RequestsSized(mand, rs) <==>
            rs == [] || (Sized(Wrap(mand, FLOOR_REQUEST_STATUS, RequestBody(mand, rs[0]))) && RequestsSized(mand, rs[1..]))
  {
    hide Sized, Wrap, RequestBody;
    if rs != [] {
      assert rs == [rs[0]] + rs[1..];
    }
  }

  lemma OverallTrip(mand: bool, r: Request, rest: seq<byte>)
    requires TextFits(r.statinfo)
    requires FreeOf(rest, REQUEST_STATUS) && FreeOf(rest, STATUS_INFO) && FreeOf(rest, OVERALL_REQUEST_STATUS)
    ensures var e := EncodeOverall(mand, r);
            DecodeOverall(e + rest) == if NestedSized(e) then Ok(PlainOverall(r), |e|) else Bad
  {
    hide Wrap, DecodeRequest, RequestBody, Sized, PlainRequest;
    if r.id == 0 {
      assert [] + rest == rest;
    } else {
      RequestAlone(mand, OVERALL_REQUEST_STATUS, r, rest);
      WrapStart(mand, OVERALL_REQUEST_STATUS, RequestBody(mand, r), rest);
    }
  }

  lemma NestedPartyTrip(mand: bool, t: byte, p: Party, rest: seq<byte>)
    requires IsPartyType(t) && PartyFits(p)
    requires FreeOf(rest, USER_DISPLAY_NAME) && FreeOf(rest, USER_URI) && FreeOf(rest, t)
    ensures var e := EncodeParty(mand, t, p);
            && DecodeNestedParty(e + rest, t) == (if NestedSized(e) then Ok(PlainParty(p), |e|) else Bad)
            && (p.id == 0 ==> e + rest == rest) && (p.id != 0 ==> e + rest != [] && Type(e + rest) == t)
  {
    hide Wrap, DecodeParty, PartyBody, Sized;
    if p.id == 0 {
      assert [] + rest == rest;
    } else {
      PartyAlone(mand, t, p, rest);
      WrapStart(mand, t, PartyBody(mand, p), rest);
    }
  }

  lemma InfoRequestsTrip(mand: bool, f: Info, rest: seq<byte>)
    requires InfoFits(f)
    requires FreeOf(rest, REQUEST_STATUS) && FreeOf(rest, STATUS_INFO)
    requires FreeOf(rest, FLOOR_REQUEST_STATUS) && FreeOf(rest, OVERALL_REQUEST_STATUS)
    ensures var e := EncodeInfoRequests(mand, f);
            InfoRequests(e + rest) ==
            if NestedSized(EncodeOverall(mand, f.ors)) && RequestsSized(mand, f.frsv)
            then Ok((PlainOverall(f.ors), PlainRequests(f.frsv)), |e|) else Bad
  {
    hide FreeOf, EncodeOverall, EncodeRequests, DecodeOverall, DecodeRequests, RequestsSized, NestedSized, PlainRequests, PlainOverall;
    var e1, e2 := EncodeOverall(mand, f.ors), EncodeRequests(mand, f.frsv);
    RequestsTrip(mand, f.frsv, rest);
    OverallTrip(mand, f.ors, e2 + rest);
    assert e1 + e2 + rest == e1 + (e2 + rest);
    assert (e1 + (e2 + rest))[|e1|..] == e2 + rest;
  }

  lemma InfoPartiesTrip(mand: bool, f: Info, rest: seq<byte>)
    requires InfoFits(f) && rest != [] && Type(rest) == PRIORITY
    ensures var e := EncodeInfoParties(mand, f);
            && InfoParties(e + rest) ==
               (if NestedSized(EncodeParty(mand, BENEFICIARY_INFO, f.bfi)) && NestedSized(EncodeParty(mand, REQUESTED_BY_INFO, f.rbi))
                then Ok((PlainParty(f.bfi), PlainParty(f.rbi)), |e|) else Bad)
            && FreeOf(e + rest, REQUEST_STATUS) && FreeOf(e + rest, STATUS_INFO)
            && FreeOf(e + rest, FLOOR_REQUEST_STATUS) && FreeOf(e + rest, OVERALL_REQUEST_STATUS)
  {
    hide EncodeParty, DecodeNestedParty, NestedSized, PlainParty;
    var e1, e2 := EncodeParty(mand, BENEFICIARY_INFO, f.bfi), EncodeParty(mand, REQUESTED_BY_INFO, f.rbi);
    NestedPartyTrip(mand, REQUESTED_BY_INFO, f.rbi, rest);
    NestedPartyTrip(mand, BENEFICIARY_INFO, f.bfi, e2 + rest);
    assert e1 + e2 + rest == e1 + (e2 + rest);
    assert (e1 + (e2 + rest))[|e1|..] == e2 + rest;
  }

  /** A floor request without information from the participant takes it from what follows. */
  function InfoTail(f: Info, tail: seq<byte>): (r: Dec<Option<Text>>)
    ensures r.Ok? ==> r.n <= |tail|
  {
    if f.ppi.Some? then Ok(f.ppi, 0) else DecodeText(tail, PARTICIPANT_PROV_INFO)
  }

  lemma InfoTailTrip(mand: bool, f: Info, tail: seq<byte>)
    requires InfoFits(f)
    ensures var e := EncodeInfoTail(mand, f);
            && InfoTailParts(e + tail) == (match InfoTail(f, tail) case Bad => Bad case Ok(ppi, n) => Ok((f.prio, ppi), |e| + n))
            && e + tail != [] && Type(e + tail) == PRIORITY
  {
    var e1, e2 := Wrap(mand, PRIORITY, LeafBody(Priority(f.prio))), EncodeText(mand, PARTICIPANT_PROV_INFO, f.ppi);
    PriorityTrip(mand, f.prio, e2 + tail);
    if f.ppi.Some? {
      TextTrip(mand, PARTICIPANT_PROV_INFO, f.ppi, tail);
    } else {
      assert e2 + tail == tail;
    }
    hide Wrap, LeafBody, EncodeText, DecodeText, DecodePriority;
    assert e1 + e2 + tail == e1 + (e2 + tail);
    assert (e1 + (e2 + tail))[|e1|..] == e2 + tail;
  }

  lemma InfoPartsTrip(mand: bool, f: Info, tail: seq<byte>)
    requires InfoFits(f)
    ensures
      var e := EncodeInfoRequests(mand, f) + EncodeInfoParties(mand, f) + EncodeInfoTail(mand, f);
      InfoParts(e + tail) ==
      if !PartsSized(mand, f) then Bad
      else
        match InfoTail(f, tail)
        case Bad => Bad
        case Ok(ppi, n) =>
          Ok(((PlainOverall(f.ors), PlainRequests(f.frsv)), (PlainParty(f.bfi), PlainParty(f.rbi)), (f.prio, ppi)), |e| + n)
  {
    hide FreeOf, EncodeInfoRequests, EncodeInfoParties, EncodeInfoTail, InfoRequests, InfoParties, InfoTailParts, InfoTail;
    hide EncodeOverall, EncodeParty, NestedSized, RequestsSized, PlainRequests, PlainOverall, PlainParty, InfoFits;
    var e1, e2, e3 := EncodeInfoRequests(mand, f), EncodeInfoParties(mand, f), EncodeInfoTail(mand, f);
    InfoTailTrip(mand, f, tail);
    InfoPartiesTrip(mand, f, e3 + tail);
    InfoRequestsTrip(mand, f, e2 + (e3 + tail));
    var s := e1 + (e2 + (e3 + tail));
    assert e1 + e2 + e3 + tail == s;
    assert s[|e1|..] == e2 + (e3 + tail) && s[|e1| + |e2|..] == e3 + tail;
  }

  lemma InfoBodyParts(mand: bool, f: Info)
    ensures var e := EncodeInfoRequests(mand, f) + EncodeInfoParties(mand, f) + EncodeInfoTail(mand, f);
            InfoBody(mand, f) == U16Bytes(f.freqid) + e && |e| % 4 == 0
  {
    hide EncodeInfoRequests, EncodeInfoParties, EncodeInfoTail, U16Bytes;
    var e1, e2, e3 := EncodeInfoRequests(mand, f), EncodeInfoParties(mand, f), EncodeInfoTail(mand, f);
    assert U16Bytes(f.freqid) + e1 + e2 + e3 == U16Bytes(f.freqid) + (e1 + e2 + e3);
  }

  lemma InfoTrip(mand: bool, f: Info, tail: seq<byte>)
    requires InfoFits(f)
    ensures
      var w := Wrap(mand, FLOOR_REQUEST_INFO, InfoBody(mand, f));
      DecodeInfo(w + tail) ==
      if !Sized(w) || !PartsSized(mand, f) then Bad
      else match InfoTail(f, tail) case Bad => Bad case Ok(ppi, n) => Ok(PlainInfo(f).(ppi := ppi), Aligned(|w| + n, |w + tail|))
  {
    hide Wrap, GroupId, Aligned, EncodeInfoRequests, EncodeInfoParties, EncodeInfoTail, InfoBody, InfoParts, InfoTail, Sized, PartsSized;
    hide U16Bytes, InfoFits;
    var body := EncodeInfoRequests(mand, f) + EncodeInfoParties(mand, f) + EncodeInfoTail(mand, f);
    InfoBodyParts(mand, f);
    GroupStart(mand, FLOOR_REQUEST_INFO, f.freqid, body, tail);
    InfoPartsTrip(mand, f, tail);
  }
}
