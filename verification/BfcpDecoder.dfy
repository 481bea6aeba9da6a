/** attr_decode, decn and decv, reading from a buffer in place (bfcp/attr.c). */
module BfcpDecoder {
  import opened Memory
  import opened BfcpAttr

  const ATTR_HDR_SIZE: nat := 2

  datatype Result<+T> = Done(value: T) | Malformed

  /** `mb` can be read, and `pos` has not gone back. */
  twostate predicate Advanced(mb: Mbuf)
    reads mb
  {
    mb.buf == old(mb.buf) && mb.end == old(mb.end) && mb.Valid() && old(mb.pos) <= mb.pos <= mb.end
  }

  /** The result and the position that decoding in place must arrive at; none are promised after an error. */
  ghost predicate Agrees<T>(from: nat, to: nat, r: Result<T>, d: Dec<T>) {
    match d
    case Ok(v, n) => r == Done(v) && to == from + n
    case Bad => r.Malformed?
  }

  ghost predicate Readable(mb: Mbuf)
    reads mb
  {
    mb.Valid() && mb.pos <= mb.end
  }

  /** How deep the attribute at the cursor can nest. */
  ghost function Rank(t: byte): nat {
    if t == FLOOR_REQUEST_INFO then 2 else if IsGrouped(t) then 1 else 0
  }

  ghost function RankAt(mb: Mbuf): nat
    requires Readable(mb)
    reads mb
  {
    if mb.Rest() == [] then 0 else Rank(Type(mb.Rest()))
  }

  method ReadU16(mb: Mbuf) returns (v: u16)
    requires Readable(mb) && mb.pos + 2 <= mb.end
    modifies mb`pos
    ensures Advanced(mb) && mb.pos == old(mb.pos) + 2 && v == U16At(old(mb.Rest()), 0)
  {
    var hi := mb.ReadU8();
    var lo := mb.ReadU8();
    v := hi as int * 256 + lo as int;
  }

  method Align(mb: Mbuf, start: nat)
    requires Readable(mb) && start <= mb.pos
    modifies mb`pos
    ensures Advanced(mb) && mb.pos == start + Aligned(old(mb.pos) - start, mb.end - start)
  {
    while (mb.pos - start) % 4 != 0 && mb.pos < mb.end
      invariant Advanced(mb)
      invariant Aligned(mb.pos - start, mb.end - start) == Aligned(old(mb.pos) - start, mb.end - start)
      decreases mb.end - mb.pos
    {
      mb.pos := mb.pos + 1;
    }
  }

  /** Everything but the header and the padding of an attribute that is not a group. */
  method DecodeLeafBody(mb: Mbuf, t: byte, len: nat) returns (r: Result<Value>)
    requires Readable(mb) && mb.pos + len <= mb.end && !IsGrouped(t)
    modifies mb`pos
    ensures Advanced(mb)
    ensures match LeafValue(t, old(mb.Rest())[..len])
            case None => r.Malformed?
            case Some((v, used)) => r == Done(v) && mb.pos == old(mb.pos) + used
  {
    ghost var p := mb.Rest()[..len];
    assert p == mb.buf[mb.pos..mb.pos + len];
    if IsU16Type(t) {
      if len < 2 {
        return Malformed;
      }
      var id := ReadU16(mb);
      r := Done(Id(id));
    } else if t == PRIORITY {
      if len < 2 {
        return Malformed;
      }
      var b := mb.ReadU8();
      var _ := mb.ReadU8();
      r := Done(Priority(b / 32));
    } else if t == REQUEST_STATUS {
      if len < 2 {
        return Malformed;
      }
      var stat := mb.ReadU8();
      var qpos := mb.ReadU8();
      r := Done(Status(ReqStat(stat, qpos)));
    } else if t == ERROR_CODE {
      if len < 1 {
        return Malformed;
      }
      var code := mb.ReadU8();
      var details := [];
      if len - 1 > 0 {
        details := mb.ReadMem(len - 1);
      }
      assert details == p[1..];
      r := Done(ErrorCode(code, details));
    } else if IsTextType(t) {
      var bytes := mb.ReadMem(len);
      assert bytes == p;
      r := Done(Str(CString(bytes)));
    } else if t == SUPPORTED_ATTRIBUTES {
      var attrv := ReadList(mb, len, 2);
      assert attrv == seq(|p|, i requires 0 <= i < |p| => p[i] / 2);
      r := Done(Attributes(attrv));
    } else if t == SUPPORTED_PRIMITIVES {
      var primv := ReadList(mb, len, 1);
      assert primv == p;
      r := Done(Primitives(primv));
    } else {
      mb.pos := mb.pos + len;
      r := Done(Unknown);
    }
  }

  method ReadList(mb: Mbuf, len: nat, d: byte) returns (v: seq<byte>)
    requires Readable(mb) && mb.pos + len <= mb.end && d > 0
    modifies mb`pos
    ensures Advanced(mb) && mb.pos == old(mb.pos) + len
    ensures |v| == len && forall i :: 0 <= i < len ==> v[i] == old(mb.Rest())[i] / d
  {
    v := [];
    var i := 0;
    while i < len
      invariant 0 <= i <= len == |v| + len - i && Advanced(mb) && mb.pos == old(mb.pos) + i
      invariant forall j :: 0 <= j < i ==> v[j] == old(mb.Rest())[j] / d
    {
      var b := mb.ReadU8();
      v := v + [b / d];
      i := i + 1;
    }
  }

  /** Decodes a nested attribute of type `t`, if that is what comes next. */
  method Decn(mb: Mbuf, t: byte) returns (r: Result<Option<Value>>)
    requires Readable(mb)
    modifies mb`pos
    ensures Advanced(mb)
    ensures Agrees(old(mb.pos), mb.pos, r, NestedValue(old(mb.Rest()), t))
    decreases Rank(t), 2
  {
    if mb.end - mb.pos < 1 || t != mb.buf[mb.pos] / 2 {
      return Done(None);
    }
    var a := AttrDecode(mb);
    match a
    case Malformed => r := Malformed;
    case Done(attr) => r := Done(Some(attr.v));
  }

  ghost function NestedValue(s: seq<byte>, t: byte): Dec<Option<Value>> {
    if s == [] || Type(s) != t then Ok(None, 0)
    else match DecodeValue(s) case Bad => Bad case Ok(v, n) => Ok(Some(v), n)
  }

  method DecodeTextAt(mb: Mbuf, t: byte) returns (r: Result<Option<Text>>)
    requires Readable(mb) && IsTextType(t)
    modifies mb`pos
    ensures Advanced(mb) && Agrees(old(mb.pos), mb.pos, r, DecodeText(old(mb.Rest()), t))
    decreases Rank(t), 3
  {
    hide DecodeLeaf;
    var v := Decn(mb, t);
    match v
    case Done(Some(Str(text))) => r := Done(Some(text));
    case Done(None) => r := Done(None);
    case _ => r := Malformed;
  }

  method DecodeStatusAt(mb: Mbuf) returns (r: Result<ReqStat>)
    requires Readable(mb)
    modifies mb`pos
    ensures Advanced(mb) && Agrees(old(mb.pos), mb.pos, r, DecodeStatus(old(mb.Rest())))
    decreases 0, 3
  {
    hide DecodeLeaf;
    var v := Decn(mb, REQUEST_STATUS);
    match v
    case Done(Some(Status(rs))) => r := Done(rs);
    case Done(None) => r := Done(NO_STATUS);
    case _ => r := Malformed;
  }

  method DecodePriorityAt(mb: Mbuf) returns (r: Result<byte>)
    requires Readable(mb)
    modifies mb`pos
    ensures Advanced(mb) && Agrees(old(mb.pos), mb.pos, r, DecodePriority(old(mb.Rest())))
    decreases 0, 3
  {
    hide DecodeLeaf;
    var v := Decn(mb, PRIORITY);
    match v
    case Done(Some(Priority(p))) => r := Done(p);
    case Done(None) => r := Done(0);
    case _ => r := Malformed;
  }

  method DecodePartyAt(mb: Mbuf, t: byte) returns (r: Result<Party>)
    requires Readable(mb) && IsPartyType(t)
    modifies mb`pos
    ensures Advanced(mb) && Agrees(old(mb.pos), mb.pos, r, DecodeNestedParty(old(mb.Rest()), t))
    decreases Rank(t), 3
  {
    hide DecodeLeaf, DecodeParty;
    var v := Decn(mb, t);
    match v
    case Done(Some(PartyInfo(p))) => r := Done(p);
    case Done(None) => r := Done(NO_PARTY);
    case _ => r := Malformed;
  }

  method DecodeOverallAt(mb: Mbuf) returns (r: Result<Request>)
    requires Readable(mb)
    modifies mb`pos
    ensures Advanced(mb) && Agrees(old(mb.pos), mb.pos, r, DecodeOverall(old(mb.Rest())))
    decreases 1, 3
  {
    hide DecodeLeaf, DecodeRequest;
    var v := Decn(mb, OVERALL_REQUEST_STATUS);
    match v
    case Done(Some(RequestInfo(q))) => r := Done(q);
    case Done(None) => r := Done(NO_REQUEST);
    case _ => r := Malformed;
  }

  ghost function Prepend<T>(n: nat, ts: seq<T>, d: Dec<seq<T>>): Dec<seq<T>> {
    match d case Bad => Bad case Ok(us, m) => Ok(ts + us, n + m)
  }

  lemma PrependNone<T>(d: Dec<seq<T>>)
    ensures Prepend(0, [], d) == d
  {
    if d.Ok? {
      assert [] + d.v == d.v;
    }
  }

  lemma PrependPrepend<T>(k: nat, ts: seq<T>, n: nat, us: seq<T>, d: Dec<seq<T>>)
    ensures Prepend(k, ts, Prepend(n, us, d)) == Prepend(k + n, ts + us, d)
  {
    if d.Ok? {
      assert ts + (us + d.v) == ts + us + d.v;
    }
  }

  /** Decodes the vector of floor request statuses that comes next; new elements start out zeroed. */
  method Decv(mb: Mbuf) returns (r: Result<seq<Request>>)
    requires Readable(mb)
    modifies mb`pos
    ensures Advanced(mb) && Agrees(old(mb.pos), mb.pos, r, DecodeRequests(old(mb.Rest())))
    decreases 1, 3
  {
    hide DecodeLeaf, DecodeRequest;
    var v: seq<Request> := [];
    PrependNone(DecodeRequests(mb.Rest()));
    while mb.end - mb.pos >= ATTR_HDR_SIZE
      invariant Advanced(mb)
      invariant DecodeRequests(old(mb.Rest())) == Prepend(mb.pos - old(mb.pos), v, DecodeRequests(mb.Rest()))
      decreases mb.end - mb.pos
    {
      if FLOOR_REQUEST_STATUS != mb.buf[mb.pos] / 2 {
        break;
      }
      ghost var s, k := mb.Rest(), mb.pos - old(mb.pos);
      var a := AttrDecode(mb);
      if a.Malformed? {
        return Malformed;
      }
      ghost var n := DecodeRequest(s).n;
      assert mb.Rest() == s[n..];
      PrependPrepend(k, v, n, [a.value.v.request], DecodeRequests(mb.Rest()));
      v := v + [a.value.v.request];
    }
    assert v + [] == v;
    r := Done(v);
  }

  /** The first two bytes of a group and its nested parts; an error in one part does not stop the next. */
  method DecodePartyBody(mb: Mbuf) returns (r: Result<Party>)
    requires Readable(mb) && mb.pos + 2 <= mb.end
    modifies mb`pos
    ensures Advanced(mb)
    ensures match PartyParts(old(mb.Rest())[2..])
            case Bad => r.Malformed?
            case Ok(p, n) => r == Done(Party(U16At(old(mb.Rest()), 0), p.0, p.1)) && mb.pos == old(mb.pos) + 2 + n
    decreases 1, 0
  {
    hide DecodeText;
    ghost var s := mb.Rest()[2..];
    var id := ReadU16(mb);
    assert mb.Rest() == s;
    var dname := DecodeTextAt(mb, USER_DISPLAY_NAME);
    assert dname.Done? ==> mb.Rest() == s[DecodeText(s, USER_DISPLAY_NAME).n..];
    var uri := DecodeTextAt(mb, USER_URI);
    if dname.Done? && uri.Done? {
      return Done(Party(id, dname.value, uri.value));
    }
    r := Malformed;
  }

  method DecodeRequestBody(mb: Mbuf) returns (r: Result<Request>)
    requires Readable(mb) && mb.pos + 2 <= mb.end
    modifies mb`pos
    ensures Advanced(mb)
    ensures match RequestParts(old(mb.Rest())[2..])
            case Bad => r.Malformed?
            case Ok(p, n) => r == Done(Request(U16At(old(mb.Rest()), 0), p.0, p.1)) && mb.pos == old(mb.pos) + 2 + n
    decreases 1, 0
  {
    hide DecodeText, DecodeStatus;
    ghost var s := mb.Rest()[2..];
    var id := ReadU16(mb);
    assert mb.Rest() == s;
    var reqstat := DecodeStatusAt(mb);
    assert reqstat.Done? ==> mb.Rest() == s[DecodeStatus(s).n..];
    var statinfo := DecodeTextAt(mb, STATUS_INFO);
    if reqstat.Done? && statinfo.Done? {
      return Done(Request(id, reqstat.value, statinfo.value));
    }
    r := Malformed;
  }

  method DecodeInfoRequests(mb: Mbuf) returns (r: Result<(Request, seq<Request>)>)
    requires Readable(mb)
    modifies mb`pos
    ensures Advanced(mb) && Agrees(old(mb.pos), mb.pos, r, InfoRequests(old(mb.Rest())))
    decreases 1, 4
  {
    hide DecodeOverall, DecodeRequests;
    ghost var s := mb.Rest();
    var ors := DecodeOverallAt(mb);
    assert ors.Done? ==> mb.Rest() == s[DecodeOverall(s).n..];
    var frsv := Decv(mb);
    r := if ors.Done? && frsv.Done? then Done((ors.value, frsv.value)) else Malformed;
  }

  method DecodeInfoParties(mb: Mbuf) returns (r: Result<(Party, Party)>)
    requires Readable(mb)
    modifies mb`pos
    ensures Advanced(mb) && Agrees(old(mb.pos), mb.pos, r, InfoParties(old(mb.Rest())))
    decreases 1, 4
  {
    hide DecodeNestedParty;
    ghost var s := mb.Rest();
    var bfi := DecodePartyAt(mb, BENEFICIARY_INFO);
    assert bfi.Done? ==> mb.Rest() == s[DecodeNestedParty(s, BENEFICIARY_INFO).n..];
    var rbi := DecodePartyAt(mb, REQUESTED_BY_INFO);
    r := if bfi.Done? && rbi.Done? then Done((bfi.value, rbi.value)) else Malformed;
  }

  method DecodeInfoTail(mb: Mbuf) returns (r: Result<(byte, Option<Text>)>)
    requires Readable(mb)
    modifies mb`pos
    ensures Advanced(mb) && Agrees(old(mb.pos), mb.pos, r, InfoTailParts(old(mb.Rest())))
    decreases 1, 4
  {
    hide DecodePriority, DecodeText;
    ghost var s := mb.Rest();
    var prio := DecodePriorityAt(mb);
    assert prio.Done? ==> mb.Rest() == s[DecodePriority(s).n..];
    var ppi := DecodeTextAt(mb, PARTICIPANT_PROV_INFO);
    r := if prio.Done? && ppi.Done? then Done((prio.value, ppi.value)) else Malformed;
  }

  method DecodeInfoBody(mb: Mbuf) returns (r: Result<Info>)
    requires Readable(mb) && mb.pos + 2 <= mb.end
    modifies mb`pos
    ensures Advanced(mb)
    ensures match InfoParts(old(mb.Rest())[2..])
            case Bad => r.Malformed?
            case Ok((rs, ps, t), n) =>
              && r == Done(Info(U16At(old(mb.Rest()), 0), rs.0, rs.1, ps.0, ps.1, t.0, t.1))
              && mb.pos == old(mb.pos) + 2 + n
    decreases 2, 0
  {
    hide InfoRequests, InfoParties, InfoTailParts;
    ghost var s := mb.Rest()[2..];
    var id := ReadU16(mb);
    assert mb.Rest() == s;
    var rs := DecodeInfoRequests(mb);
    assert rs.Done? ==> mb.Rest() == s[InfoRequests(s).n..];
    ghost var s2 := mb.Rest();
    var ps := DecodeInfoParties(mb);
    assert rs.Done? && ps.Done? ==> mb.Rest() == s[InfoRequests(s).n + InfoParties(s2).n..];
    var t := DecodeInfoTail(mb);
    if rs.Done? && ps.Done? && t.Done? {
      return Done(Info(id, rs.value.0, rs.value.1, ps.value.0, ps.value.1, t.value.0, t.value.1));
    }
    r := Malformed;
  }

  /** Decodes the attribute at the cursor. */
  method AttrDecode(mb: Mbuf) returns (r: Result<Attr>)
    requires Readable(mb)
    modifies mb`pos
    ensures Advanced(mb) && Agrees(old(mb.pos), mb.pos, r, Decode(old(mb.Rest())))
    decreases RankAt(mb), 1
  {
    hide InfoParts, PartyParts, RequestParts, LeafValue, Aligned;
    ghost var s := mb.Rest();
    if mb.end - mb.pos < ATTR_HDR_SIZE {
      return Malformed;
    }
    var start := mb.pos;
    var u8 := mb.ReadU8();
    var typ, mand := u8 / 2, u8 % 2 == 1;
    var l := mb.ReadU8();
    // a length below the header's own size wraps around to more than any buffer holds
    if l as int < ATTR_HDR_SIZE || mb.end - mb.pos < l as int - ATTR_HDR_SIZE {
      return Malformed;
    }
    var len := l as int - ATTR_HDR_SIZE;
    assert mb.Rest() == s[2..] && Len(s) == Some(len);
    assert mb.Rest()[..len] == s[2..2 + len];
    var v: Result<Value> := Malformed;
    if IsGrouped(typ) {
      if len < 2 {
        return Malformed;
      }
      assert s[2..][2..] == s[4..] && U16At(s[2..], 0) == U16At(s, 2);
      if IsPartyType(typ) {
        var p := DecodePartyBody(mb);
        v := if p.Done? then Done(PartyInfo(p.value)) else Malformed;
      } else if IsRequestType(typ) {
        var q := DecodeRequestBody(mb);
        v := if q.Done? then Done(RequestInfo(q.value)) else Malformed;
      } else {
        var f := DecodeInfoBody(mb);
        v := if f.Done? then Done(FloorRequestInfo(f.value)) else Malformed;
      }
    } else {
      v := DecodeLeafBody(mb, typ, len);
    }
    if v.Malformed? {
      return Malformed;
    }
    Align(mb, start);
    r := Done(Attr(typ, mand, v.value));
  }
}
