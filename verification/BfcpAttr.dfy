/** BFCP attributes (bfcp/attr.c): the values, their bytes, and what the decoder makes of any bytes. */
module BfcpAttr {
  import opened Memory

  datatype Option<+T> = None | Some(value: T)

  type u16 = x: int | 0 <= x < 0x1_0000

  /** The characters of a C string. */
  type Text = s: seq<byte> | 0 !in s

  // ----- attribute types

  const BENEFICIARY_ID: byte := 1
  const FLOOR_ID: byte := 2
  const FLOOR_REQUEST_ID: byte := 3
  const PRIORITY: byte := 4
  const REQUEST_STATUS: byte := 5
  const ERROR_CODE: byte := 6
  const ERROR_INFO: byte := 7
  const PARTICIPANT_PROV_INFO: byte := 8
  const STATUS_INFO: byte := 9
  const SUPPORTED_ATTRIBUTES: byte := 10
  const SUPPORTED_PRIMITIVES: byte := 11
  const USER_DISPLAY_NAME: byte := 12
  const USER_URI: byte := 13
  const BENEFICIARY_INFO: byte := 14
  const FLOOR_REQUEST_INFO: byte := 15
  const REQUESTED_BY_INFO: byte := 16
  const FLOOR_REQUEST_STATUS: byte := 17
  const OVERALL_REQUEST_STATUS: byte := 18

  predicate IsU16Type(t: byte) { t == BENEFICIARY_ID || t == FLOOR_ID || t == FLOOR_REQUEST_ID }

  predicate IsTextType(t: byte) {
    t == ERROR_INFO || t == PARTICIPANT_PROV_INFO || t == STATUS_INFO || t == USER_DISPLAY_NAME || t == USER_URI
  }

  predicate IsPartyType(t: byte) { t == BENEFICIARY_INFO || t == REQUESTED_BY_INFO }

  predicate IsRequestType(t: byte) { t == FLOOR_REQUEST_STATUS || t == OVERALL_REQUEST_STATUS }

  predicate IsGrouped(t: byte) { IsPartyType(t) || IsRequestType(t) || t == FLOOR_REQUEST_INFO }

  // ----- values

  datatype ReqStat = ReqStat(stat: byte, qpos: byte)

  /** Beneficiary or requested-by information. */
  datatype Party = Party(id: u16, dname: Option<Text>, uri: Option<Text>)

  /** The status of one floor request or of all of them. */
  datatype Request = Request(id: u16, reqstat: ReqStat, statinfo: Option<Text>)

  datatype Info = Info(freqid: u16, ors: Request, frsv: seq<Request>, bfi: Party, rbi: Party, prio: byte, ppi: Option<Text>)

  datatype Value =
    | Id(id: u16)
    | Priority(prio: byte)
    | Status(reqstat: ReqStat)
    | ErrorCode(code: byte, details: seq<byte>)
    | Str(text: Text)
    | Attributes(attrv: seq<byte>)
    | Primitives(primv: seq<byte>)
    | PartyInfo(party: Party)
    | RequestInfo(request: Request)
    | FloorRequestInfo(info: Info)
    | Unknown

  datatype Attr = Attr(typ: byte, mand: bool, v: Value)

  const NO_STATUS := ReqStat(0, 0)
  const NO_PARTY := Party(0, None, None)
  const NO_REQUEST := Request(0, NO_STATUS, None)

  /** Whether a value is of the C type that attribute type `t` stands for. */
  predicate Matches(t: byte, v: Value) {
    match v
    case Id(_) => IsU16Type(t)
    case Priority(_) => t == PRIORITY
    case Status(_) => t == REQUEST_STATUS
    case ErrorCode(_, _) => t == ERROR_CODE
    case Str(_) => IsTextType(t)
    case Attributes(_) => t == SUPPORTED_ATTRIBUTES
    case Primitives(_) => t == SUPPORTED_PRIMITIVES
    case PartyInfo(_) => IsPartyType(t)
    case RequestInfo(_) => IsRequestType(t)
    case FloorRequestInfo(_) => t == FLOOR_REQUEST_INFO
    case Unknown => false
  }

  predicate IsLeaf(v: Value) { !v.PartyInfo? && !v.RequestInfo? && !v.FloorRequestInfo? && !v.Unknown? }

  // ----- bytes of a value

  function Header(mand: bool, t: byte, len: nat): seq<byte>
    requires t < 128
  {
    [t * 2 + if mand then 1 else 0, (len % 256) as byte]
  }

  function Padding(n: nat): (p: seq<byte>)
    ensures |p| < 4 && (n + |p|) % 4 == 0
  {
    seq((4 - n % 4) % 4, _ => 0)
  }

  /** The length field counts the padding of a group but not that of a leaf. */
  function Wrap(mand: bool, t: byte, body: seq<byte>): (r: seq<byte>)
    requires t < 128
    ensures |r| >= 2 && |r| % 4 == 0 && r[0] / 2 == t
  {
    var pad := Padding(|body| + 2);
    Header(mand, t, |body| + 2 + if IsGrouped(t) then |pad| else 0) + body + pad
  }

  lemma WholeWords(a: nat, b: nat)
    requires a % 4 == 0 && b % 4 == 0
    ensures (a + b) % 4 == 0
  {
  }

  function U16Bytes(v: u16): (b: seq<byte>)
    ensures |b| == 2
  {
    [(v / 256) as byte, (v % 256) as byte]
  }

  function ShiftLeft(b: byte, k: nat): byte { (b as int * k % 256) as byte }

  function LeafBody(v: Value): seq<byte>
    requires IsLeaf(v)
  {
    match v
    case Id(id) => U16Bytes(id)
    case Priority(p) => [ShiftLeft(p, 32), 0]
    case Status(rs) => [rs.stat, rs.qpos]
    case ErrorCode(code, details) => [code] + details
    case Str(s) => s
    case Attributes(av) => seq(|av|, i requires 0 <= i < |av| => ShiftLeft(av[i], 2))
    case Primitives(pv) => pv
  }

  function EncodeText(mand: bool, t: byte, o: Option<Text>): (e: seq<byte>)
    requires t < 128
    ensures |e| % 4 == 0
  {
    match o
    case None => []
    case Some(s) => Wrap(mand, t, s)
  }

  function EncodeStatus(mand: bool, rs: ReqStat): (e: seq<byte>)
    ensures |e| % 4 == 0
  {
    if rs.stat == 0 then [] else Wrap(mand, REQUEST_STATUS, LeafBody(Status(rs)))
  }

  function PartyBody(mand: bool, p: Party): seq<byte> {
    U16Bytes(p.id) + EncodeText(mand, USER_DISPLAY_NAME, p.dname) + EncodeText(mand, USER_URI, p.uri)
  }

  function EncodeParty(mand: bool, t: byte, p: Party): (e: seq<byte>)
    requires t < 128
    ensures |e| % 4 == 0
  {
    if p.id == 0 then [] else Wrap(mand, t, PartyBody(mand, p))
  }

  function RequestBody(mand: bool, r: Request): seq<byte> {
    U16Bytes(r.id) + EncodeStatus(mand, r.reqstat) + EncodeText(mand, STATUS_INFO, r.statinfo)
  }

  function EncodeOverall(mand: bool, r: Request): (e: seq<byte>)
    ensures |e| % 4 == 0
  {
    if r.id == 0 then [] else Wrap(mand, OVERALL_REQUEST_STATUS, RequestBody(mand, r))
  }

  function EncodeRequests(mand: bool, rs: seq<Request>): (e: seq<byte>)
    ensures |e| % 4 == 0
  {
    if rs == [] then []
    else
      var a, b := Wrap(mand, FLOOR_REQUEST_STATUS, RequestBody(mand, rs[0])), EncodeRequests(mand, rs[1..]);
      WholeWords(|a|, |b|);
      a + b
  }

  function EncodeInfoRequests(mand: bool, f: Info): (e: seq<byte>)
    ensures |e| % 4 == 0
  {
    var a, b := EncodeOverall(mand, f.ors), EncodeRequests(mand, f.frsv);
    WholeWords(|a|, |b|);
    a + b
  }

  function EncodeInfoParties(mand: bool, f: Info): (e: seq<byte>)
    ensures |e| % 4 == 0
  {
    var a, b := EncodeParty(mand, BENEFICIARY_INFO, f.bfi), EncodeParty(mand, REQUESTED_BY_INFO, f.rbi);
    WholeWords(|a|, |b|);
    a + b
  }

  function EncodeInfoTail(mand: bool, f: Info): (e: seq<byte>)
    ensures |e| % 4 == 0
  {
    var a, b := Wrap(mand, PRIORITY, LeafBody(Priority(f.prio))), EncodeText(mand, PARTICIPANT_PROV_INFO, f.ppi);
    WholeWords(|a|, |b|);
    a + b
  }

  function InfoBody(mand: bool, f: Info): seq<byte> {
    U16Bytes(f.freqid) + EncodeInfoRequests(mand, f) + EncodeInfoParties(mand, f) + EncodeInfoTail(mand, f)
  }

  function Body(mand: bool, v: Value): seq<byte>
    requires !v.Unknown?
  {
    if v.PartyInfo? then PartyBody(mand, v.party)
    else if v.RequestInfo? then RequestBody(mand, v.request)
    else if v.FloorRequestInfo? then InfoBody(mand, v.info)
    else LeafBody(v)
  }

  function Encode(mand: bool, t: byte, v: Value): (r: seq<byte>)
    requires Matches(t, v)
  {
    Wrap(mand, t, Body(mand, v))
  }

  // ----- what the decoder makes of the bytes that are left

  /** A decoded value and the number of bytes taken, or a malformed message. */
  datatype Dec<+T> = Ok(v: T, n: nat) | Bad

  function Type(s: seq<byte>): byte
    requires s != []
  {
    s[0] / 2
  }

  /**
   * The payload length that a header announces. The length field counts the header, so that a value
   * below 2 wraps around to a size that no buffer has.
   */
  function Len(s: seq<byte>): (r: Option<nat>)
    ensures r.Some? ==> r.value + 2 <= |s|
  {
    if |s| < 2 || s[1] < 2 || |s| < s[1] as int then None else Some(s[1] as int - 2)
  }

  /** `n` bytes and the padding after them, as far as there is any. */
  function Aligned(n: nat, left: nat): (r: nat)
    requires n <= left
    ensures n <= r <= left
  {
    if (n + 3) / 4 * 4 <= left then (n + 3) / 4 * 4 else left
  }

  function CString(b: seq<byte>): (s: Text) {
    if b == [] || b[0] == 0 then [] else [b[0]] + CString(b[1..])
  }

  function U16At(s: seq<byte>, i: nat): u16
    requires i + 1 < |s|
  {
    s[i] as int * 256 + s[i + 1] as int
  }

  /** The value that payload `p` holds, and how much of the payload is read for it. */
  function LeafValue(t: byte, p: seq<byte>): (r: Option<(Value, nat)>)
    ensures r.Some? ==> r.value.1 <= |p|
  {
    if IsU16Type(t) then
      if |p| < 2 then None else Some((Id(U16At(p, 0)), 2))
    else if t == PRIORITY then
      if |p| < 2 then None else Some((Priority(p[0] / 32), 2))
    else if t == REQUEST_STATUS then
      if |p| < 2 then None else Some((Status(ReqStat(p[0], p[1])), 2))
    else if t == ERROR_CODE then
      if |p| < 1 then None else Some((ErrorCode(p[0], p[1..]), |p|))
    else if IsTextType(t) then
      Some((Str(CString(p)), |p|))
    else if t == SUPPORTED_ATTRIBUTES then
      Some((Attributes(seq(|p|, i requires 0 <= i < |p| => p[i] / 2)), |p|))
    else if t == SUPPORTED_PRIMITIVES then
      Some((Primitives(p), |p|))
    else
      Some((Unknown, |p|))
  }

  function DecodeLeaf(s: seq<byte>): (r: Dec<Value>)
    ensures r.Ok? ==> 2 <= r.n <= |s|
  {
    match Len(s)
    case None => Bad
    case Some(len) =>
      match LeafValue(Type(s), s[2..2 + len])
      case None => Bad
      case Some((v, used)) => Ok(v, Aligned(2 + used, |s|))
  }

  /** A nested attribute of type `t`, absent when the next attribute is of another type. */
  function DecodeText(s: seq<byte>, t: byte): (r: Dec<Option<Text>>)
    ensures r.Ok? ==> r.n <= |s|
  {
    if s == [] || Type(s) != t then Ok(None, 0)
    else
      match DecodeLeaf(s)
      case Ok(Str(text), n) => Ok(Some(text), n)
      case _ => Bad
  }

  function DecodeStatus(s: seq<byte>): (r: Dec<ReqStat>)
    ensures r.Ok? ==> r.n <= |s|
  {
    if s == [] || Type(s) != REQUEST_STATUS then Ok(NO_STATUS, 0)
    else
      match DecodeLeaf(s)
      case Ok(Status(rs), n) => Ok(rs, n)
      case _ => Bad
  }

  function DecodePriority(s: seq<byte>): (r: Dec<byte>)
    ensures r.Ok? ==> r.n <= |s|
  {
    if s == [] || Type(s) != PRIORITY then Ok(0, 0)
    else
      match DecodeLeaf(s)
      case Ok(Priority(p), n) => Ok(p, n)
      case _ => Bad
  }

  /** The identifier that a group starts with. */
  function GroupId(s: seq<byte>): (r: Option<u16>)
    ensures r.Some? ==> |s| >= 4
  {
    match Len(s)
    case None => None
    case Some(len) => if len < 2 then None else Some(U16At(s, 2))
  }

  function PartyParts(s: seq<byte>): (r: Dec<(Option<Text>, Option<Text>)>)
    ensures r.Ok? ==> r.n <= |s|
  {
    match DecodeText(s, USER_DISPLAY_NAME)
    case Bad => Bad
    case Ok(dname, n1) =>
      match DecodeText(s[n1..], USER_URI)
      case Bad => Bad
      case Ok(uri, n2) => Ok((dname, uri), n1 + n2)
  }

  function DecodeParty(s: seq<byte>): (r: Dec<Party>)
    ensures r.Ok? ==> 2 <= r.n <= |s|
  {
    match GroupId(s)
    case None => Bad
    case Some(id) =>
      match PartyParts(s[4..])
      case Bad => Bad
      case Ok(p, n) => Ok(Party(id, p.0, p.1), Aligned(4 + n, |s|))
  }

  function DecodeNestedParty(s: seq<byte>, t: byte): (r: Dec<Party>)
    ensures r.Ok? ==> r.n <= |s|
  {
    if s == [] || Type(s) != t then Ok(NO_PARTY, 0) else DecodeParty(s)
  }

  function RequestParts(s: seq<byte>): (r: Dec<(ReqStat, Option<Text>)>)
    ensures r.Ok? ==> r.n <= |s|
  {
    match DecodeStatus(s)
    case Bad => Bad
    case Ok(reqstat, n1) =>
      match DecodeText(s[n1..], STATUS_INFO)
      case Bad => Bad
      case Ok(statinfo, n2) => Ok((reqstat, statinfo), n1 + n2)
  }

  function DecodeRequest(s: seq<byte>): (r: Dec<Request>)
    ensures r.Ok? ==> 2 <= r.n <= |s|
  {
    match GroupId(s)
    case None => Bad
    case Some(id) =>
      match RequestParts(s[4..])
      case Bad => Bad
      case Ok(p, n) => Ok(Request(id, p.0, p.1), Aligned(4 + n, |s|))
  }

  function DecodeOverall(s: seq<byte>): (r: Dec<Request>)
    ensures r.Ok? ==> r.n <= |s|
  {
    if s == [] || Type(s) != OVERALL_REQUEST_STATUS then Ok(NO_REQUEST, 0) else DecodeRequest(s)
  }

  function DecodeRequests(s: seq<byte>): (r: Dec<seq<Request>>)
    ensures r.Ok? ==> r.n <= |s|
    decreases |s|
  {
    if |s| < 2 || Type(s) != FLOOR_REQUEST_STATUS then Ok([], 0)
    else
      match DecodeRequest(s)
      case Bad => Bad
      case Ok(r, n) =>
        match DecodeRequests(s[n..])
        case Bad => Bad
        case Ok(rs, m) => Ok([r] + rs, n + m)
  }

  function InfoTailParts(s: seq<byte>): (r: Dec<(byte, Option<Text>)>)
    ensures r.Ok? ==> r.n <= |s|
  {
    match DecodePriority(s)
    case Bad => Bad
    case Ok(prio, n1) =>
      match DecodeText(s[n1..], PARTICIPANT_PROV_INFO)
      case Bad => Bad
      case Ok(ppi, n2) => Ok((prio, ppi), n1 + n2)
  }

  function InfoParties(s: seq<byte>): (r: Dec<(Party, Party)>)
    ensures r.Ok? ==> r.n <= |s|
  {
    match DecodeNestedParty(s, BENEFICIARY_INFO)
    case Bad => Bad
    case Ok(bfi, n1) =>
      match DecodeNestedParty(s[n1..], REQUESTED_BY_INFO)
      case Bad => Bad
      case Ok(rbi, n2) => Ok((bfi, rbi), n1 + n2)
  }

  function InfoRequests(s: seq<byte>): (r: Dec<(Request, seq<Request>)>)
    ensures r.Ok? ==> r.n <= |s|
  {
    match DecodeOverall(s)
    case Bad => Bad
    case Ok(ors, n1) =>
      match DecodeRequests(s[n1..])
      case Bad => Bad
      case Ok(frsv, n2) => Ok((ors, frsv), n1 + n2)
  }

  function InfoParts(s: seq<byte>): (r: Dec<((Request, seq<Request>), (Party, Party), (byte, Option<Text>))>)
    ensures r.Ok? ==> r.n <= |s|
  {
    match InfoRequests(s)
    case Bad => Bad
    case Ok(rs, n1) =>
      match InfoParties(s[n1..])
      case Bad => Bad
      case Ok(ps, n2) =>
        match InfoTailParts(s[n1 + n2..])
        case Bad => Bad
        case Ok(t, n3) => Ok((rs, ps, t), n1 + n2 + n3)
  }

  function DecodeInfo(s: seq<byte>): (r: Dec<Info>)
    ensures r.Ok? ==> 2 <= r.n <= |s|
  {
    match GroupId(s)
    case None => Bad
    case Some(id) =>
      match InfoParts(s[4..])
      case Bad => Bad
      case Ok((rs, ps, t), n) =>
        Ok(Info(id, rs.0, rs.1, ps.0, ps.1, t.0, t.1), Aligned(4 + n, |s|))
  }

  function DecodeValue(s: seq<byte>): (r: Dec<Value>)
    ensures r.Ok? ==> 2 <= r.n <= |s|
  {
    if s == [] then Bad
    else if IsPartyType(Type(s)) then
      match DecodeParty(s) case Bad => Bad case Ok(p, n) => Ok(PartyInfo(p), n)
    else if IsRequestType(Type(s)) then
      match DecodeRequest(s) case Bad => Bad case Ok(r, n) => Ok(RequestInfo(r), n)
    else if Type(s) == FLOOR_REQUEST_INFO then
      match DecodeInfo(s) case Bad => Bad case Ok(f, n) => Ok(FloorRequestInfo(f), n)
    else
      DecodeLeaf(s)
  }

  /**
   * The attribute at the start of `s`: defined on every byte string, and every success takes at least
   * the two bytes of a header and no byte that is not there.
   */
  function Decode(s: seq<byte>): (r: Dec<Attr>)
    ensures r.Ok? ==> 2 <= r.n <= |s| && r.v.typ == s[0] / 2
  {
    match DecodeValue(s)
    case Bad => Bad
    case Ok(v, n) => Ok(Attr(Type(s), s[0] % 2 == 1, v), n)
  }
}
