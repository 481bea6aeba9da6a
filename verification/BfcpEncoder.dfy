/** bfcp_attr_encode, working on a buffer in place: header back-patched, padding and nesting (bfcp/attr.c). */
module BfcpEncoder {
  import opened Memory
  import opened BfcpAttr

  const ATTR_HDR_SIZE: nat := 2

  /** `mb` still starts with `d0`, and holds `acc` from position `at` up to the cursor. */
  ghost predicate Holds(mb: Mbuf, d0: seq<byte>, at: nat, acc: seq<byte>)
    reads mb
  {
    && mb.Valid() && |d0| <= at && |d0| <= mb.end && mb.Data()[..|d0|] == d0
    && mb.pos == at + |acc| && mb.end <= mb.pos
    && (acc != [] ==> mb.end == mb.pos && mb.Data()[at..] == acc)
  }

  method Put(mb: Mbuf, b: seq<byte>, ghost d0: seq<byte>, ghost at: nat, ghost acc: seq<byte>)
    requires Holds(mb, d0, at, acc)
    modifies mb
    ensures Holds(mb, d0, at, acc + b)
  {
    ghost var was, p := mb.Data(), mb.pos;
    mb.WriteMem(b);
    if acc == [] {
      assert mb.Data()[..|was|] == was;
      assert mb.Data()[p..] == b;
    }
  }

  method PutFirst(mb: Mbuf, b: seq<byte>, ghost d0: seq<byte>, ghost at: nat)
    requires Holds(mb, d0, at, [])
    modifies mb
    ensures Holds(mb, d0, at, b)
  {
    Put(mb, b, d0, at, []);
    assert [] + b == b;
  }

  method PutNested(mb: Mbuf, mand: bool, t: byte, v: Value, ghost d0: seq<byte>, ghost at: nat, ghost acc: seq<byte>)
    requires Holds(mb, d0, at, acc) && acc != [] && Matches(t, v)
    modifies mb
    ensures Holds(mb, d0, at, acc + Encode(mand, t, v))
    decreases if IsLeaf(v) then 0 else if v.FloorRequestInfo? then 2 else 1, 3
  {
    hide Encode;
    ghost var was := mb.Data();
    var err := AttrEncode(mb, mand, t, v);
    assert mb.Data() == was + Encode(mand, t, v);
  }

  /**
   * Appends an attribute to `mb`, whose cursor is at the end or, where room for a header was left, past
   * it. Fails with EINVAL, writing nothing, only for a type that is not known.
   */
  method AttrEncode(mb: Mbuf, mand: bool, t: byte, v: Value) returns (err: bool)
    requires mb.Valid() && mb.pos >= mb.end
    requires Matches(t, v) || v.Unknown?
    modifies mb
    ensures mb.Valid()
    ensures err <==> v.Unknown?
    ensures err ==> mb.pos == old(mb.pos) + ATTR_HDR_SIZE && mb.Data() == old(mb.Data())
    ensures !err ==> mb.pos == mb.end == old(mb.pos) + |Encode(mand, t, v)|
    ensures !err ==> mb.Data()[..old(mb.end)] == old(mb.Data()) && mb.Data()[old(mb.pos)..] == Encode(mand, t, v)
    decreases if IsLeaf(v) then 0 else if v.FloorRequestInfo? then 2 else 1, 2
  {
    var start := mb.pos;
    ghost var d0, at := mb.Data(), start + ATTR_HDR_SIZE;
    mb.pos := mb.pos + ATTR_HDR_SIZE;
    if v.Unknown? {
      return true;
    }
    hide Body, IsGrouped, Wrap, Padding, Header;
    EncodeBody(mb, mand, t, v, d0, at);
    ghost var acc := Body(mand, v);
    var len := mb.pos - start;
    len := Finish(mb, t, start, len, d0, acc);
    WrapParts(mand, t, acc, len);
    PatchHeader(mb, mand, t, start, len, d0, acc + Padding(|acc| + 2));
    err := false;
  }

  lemma WrapParts(mand: bool, t: byte, body: seq<byte>, len: nat)
    requires t < 128 && len == |body| + 2 + if IsGrouped(t) then |Padding(|body| + 2)| else 0
    ensures Wrap(mand, t, body) == Header(mand, t, len) + (body + Padding(|body| + 2))
    ensures |Header(mand, t, len)| == 2 && body + Padding(|body| + 2) != []
  {
    hide Padding, IsGrouped;
  }

  /** The padding, and the length that the header announces. */
  method Finish(mb: Mbuf, t: byte, start: nat, len: nat, ghost d0: seq<byte>, ghost body: seq<byte>) returns (r: nat)
    requires Holds(mb, d0, start + ATTR_HDR_SIZE, body) && len == |body| + 2
    modifies mb
    ensures var pad := Padding(|body| + 2);
            Holds(mb, d0, start + ATTR_HDR_SIZE, body + pad) && r == len + if IsGrouped(t) then |pad| else 0
  {
    ghost var acc := body;
    while (mb.pos - start) % 4 != 0
      invariant Holds(mb, d0, start + ATTR_HDR_SIZE, acc)
      invariant body <= acc <= body + Padding(|body| + 2)
      decreases |body + Padding(|body| + 2)| - |acc|
    {
      Put(mb, [0], d0, start + ATTR_HDR_SIZE, acc);
      acc := acc + [0];
    }
    assert acc == body + Padding(|body| + 2);
    r := if IsGrouped(t) then mb.pos - start else len;
  }

  method PatchHeader(mb: Mbuf, mand: bool, t: byte, start: nat, len: nat, ghost d0: seq<byte>, ghost acc: seq<byte>)
    requires Holds(mb, d0, start + ATTR_HDR_SIZE, acc) && acc != [] && t < 128 && |d0| <= start
    modifies mb
    ensures mb.Valid() && mb.pos == mb.end == start + 2 + |acc|
    ensures mb.Data()[..|d0|] == d0 && mb.Data()[start..] == Header(mand, t, len) + acc
  {
    ghost var was := mb.Data();
    mb.pos := start;
    mb.WriteU8(t * 2 + if mand then 1 else 0);
    mb.WriteU8((len % 256) as byte);
    mb.pos := mb.end;
    assert mb.Data() == was[..start] + Header(mand, t, len) + was[start + 2..];
  }

  method EncodeBody(mb: Mbuf, mand: bool, t: byte, v: Value, ghost d0: seq<byte>, ghost at: nat)
    requires Holds(mb, d0, at, []) && Matches(t, v)
    modifies mb
    ensures Holds(mb, d0, at, Body(mand, v))
    decreases if IsLeaf(v) then 0 else if v.FloorRequestInfo? then 2 else 1, 1
  {
    if v.PartyInfo? {
      EncodePartyBody(mb, mand, v.party, d0, at);
    } else if v.RequestInfo? {
      EncodeRequestBody(mb, mand, v.request, d0, at);
    } else if v.FloorRequestInfo? {
      EncodeInfoBody(mb, mand, v.info, d0, at);
    } else {
      EncodeLeafBody(mb, v, d0, at);
    }
  }

  method EncodeLeafBody(mb: Mbuf, v: Value, ghost d0: seq<byte>, ghost at: nat)
    requires Holds(mb, d0, at, []) && IsLeaf(v)
    modifies mb
    ensures Holds(mb, d0, at, LeafBody(v))
  {
    hide Holds;
    match v {
      case Id(id) =>
        PutFirst(mb, U16Bytes(id), d0, at);
      case Priority(p) =>
        PutFirst(mb, [ShiftLeft(p, 32)], d0, at);
        Put(mb, [0], d0, at, [ShiftLeft(p, 32)]);
        assert [ShiftLeft(p, 32)] + [0] == LeafBody(v);
      case Status(rs) =>
        PutFirst(mb, [rs.stat], d0, at);
        Put(mb, [rs.qpos], d0, at, [rs.stat]);
        assert [rs.stat] + [rs.qpos] == LeafBody(v);
      case ErrorCode(code, details) =>
        PutFirst(mb, [code], d0, at);
        if details != [] {
          Put(mb, details, d0, at, [code]);
        } else {
          assert [code] + [] == [code];
        }
      case Str(s) =>
        PutFirst(mb, s, d0, at);
      case Attributes(av) =>
        ghost var body := LeafBody(v);
        var i := 0;
        assert body[..0] == [];
        while i < |av|
          invariant 0 <= i <= |av| && Holds(mb, d0, at, body[..i])
        {
          Put(mb, [ShiftLeft(av[i], 2)], d0, at, body[..i]);
          assert body[..i] + [body[i]] == body[..i + 1];
          i := i + 1;
        }
        assert body[..i] == body;
      case Primitives(pv) =>
        var i := 0;
        assert pv[..0] == [];
        while i < |pv|
          invariant 0 <= i <= |pv| && Holds(mb, d0, at, pv[..i])
        {
          Put(mb, [pv[i]], d0, at, pv[..i]);
          assert pv[..i] + [pv[i]] == pv[..i + 1];
          i := i + 1;
        }
        assert pv[..i] == pv;
    }
  }

  method EncodePartyBody(mb: Mbuf, mand: bool, p: Party, ghost d0: seq<byte>, ghost at: nat)
    requires Holds(mb, d0, at, [])
    modifies mb
    ensures Holds(mb, d0, at, PartyBody(mand, p))
    decreases 1, 0
  {
    PutFirst(mb, U16Bytes(p.id), d0, at);
    ghost var acc := U16Bytes(p.id);
    if p.dname.Some? {
      PutNested(mb, mand, USER_DISPLAY_NAME, Str(p.dname.value), d0, at, acc);
    }
    acc := acc + EncodeText(mand, USER_DISPLAY_NAME, p.dname);
    if p.uri.Some? {
      PutNested(mb, mand, USER_URI, Str(p.uri.value), d0, at, acc);
    }
  }

  method EncodeRequestBody(mb: Mbuf, mand: bool, r: Request, ghost d0: seq<byte>, ghost at: nat)
    requires Holds(mb, d0, at, [])
    modifies mb
    ensures Holds(mb, d0, at, RequestBody(mand, r))
    decreases 1, 0
  {
    PutFirst(mb, U16Bytes(r.id), d0, at);
    ghost var acc := U16Bytes(r.id);
    if r.reqstat.stat != 0 {
      PutNested(mb, mand, REQUEST_STATUS, Status(r.reqstat), d0, at, acc);
    }
    acc := acc + EncodeStatus(mand, r.reqstat);
    if r.statinfo.Some? {
      PutNested(mb, mand, STATUS_INFO, Str(r.statinfo.value), d0, at, acc);
    }
  }

  method PutRequest(mb: Mbuf, mand: bool, t: byte, r: Request, ghost d0: seq<byte>, ghost at: nat, ghost acc: seq<byte>)
    requires Holds(mb, d0, at, acc) && acc != [] && IsRequestType(t)
    modifies mb
    ensures Holds(mb, d0, at, acc + Wrap(mand, t, RequestBody(mand, r)))
    decreases 1, 4
  {
    hide Holds, Wrap, RequestBody;
    PutNested(mb, mand, t, RequestInfo(r), d0, at, acc);
  }

  method PutParty(mb: Mbuf, mand: bool, t: byte, p: Party, ghost d0: seq<byte>, ghost at: nat, ghost acc: seq<byte>)
    requires Holds(mb, d0, at, acc) && acc != [] && IsPartyType(t)
    modifies mb
    ensures Holds(mb, d0, at, acc + EncodeParty(mand, t, p))
    decreases 1, 4
  {
    hide Holds, Wrap, PartyBody;
    if p.id != 0 {
      PutNested(mb, mand, t, PartyInfo(p), d0, at, acc);
    } else {
      assert acc + [] == acc;
    }
  }

  method EncodeInfoBody(mb: Mbuf, mand: bool, f: Info, ghost d0: seq<byte>, ghost at: nat)
    requires Holds(mb, d0, at, [])
    modifies mb
    ensures Holds(mb, d0, at, InfoBody(mand, f))
    decreases 2, 0
  {
    hide Holds, Wrap, EncodeRequests, EncodeParty, RequestBody, U16Bytes;
    ghost var acc := U16Bytes(f.freqid);
    IdNotEmpty(f.freqid);
    PutFirst(mb, U16Bytes(f.freqid), d0, at);
    if f.ors.id != 0 {
      PutRequest(mb, mand, OVERALL_REQUEST_STATUS, f.ors, d0, at, acc);
    } else {
      assert acc + [] == acc;
    }
    acc := acc + EncodeOverall(mand, f.ors);
    EncodeRequestList(mb, mand, f.frsv, d0, at, acc);
    acc := acc + EncodeRequests(mand, f.frsv);
    hide EncodeOverall;
    ghost var acc1 := U16Bytes(f.freqid) + EncodeInfoRequests(mand, f);
    assert acc == acc1;
    PutParty(mb, mand, BENEFICIARY_INFO, f.bfi, d0, at, acc1);
    PutParty(mb, mand, REQUESTED_BY_INFO, f.rbi, d0, at, acc1 + EncodeParty(mand, BENEFICIARY_INFO, f.bfi));
    ghost var acc2 := acc1 + EncodeInfoParties(mand, f);
    assert acc1 + EncodeParty(mand, BENEFICIARY_INFO, f.bfi) + EncodeParty(mand, REQUESTED_BY_INFO, f.rbi) == acc2;
    hide EncodeInfoRequests, EncodeInfoParties;
    EncodeInfoEnd(mb, mand, f, d0, at, acc2);
  }

  lemma IdNotEmpty(id: u16)
    ensures U16Bytes(id) != []
  {
  }

  method EncodeInfoEnd(mb: Mbuf, mand: bool, f: Info, ghost d0: seq<byte>, ghost at: nat, ghost acc: seq<byte>)
    requires Holds(mb, d0, at, acc) && acc != []
    modifies mb
    ensures Holds(mb, d0, at, acc + EncodeInfoTail(mand, f))
    decreases 1, 4
  {
    hide Holds, Wrap, LeafBody;
    PutNested(mb, mand, PRIORITY, Priority(f.prio), d0, at, acc);
    ghost var e := Wrap(mand, PRIORITY, LeafBody(Priority(f.prio)));
    if f.ppi.Some? {
      PutNested(mb, mand, PARTICIPANT_PROV_INFO, Str(f.ppi.value), d0, at, acc + e);
      TextBody(f.ppi.value);
    } else {
      assert acc + e + [] == acc + e;
    }
    assert acc + e + EncodeText(mand, PARTICIPANT_PROV_INFO, f.ppi) == acc + EncodeInfoTail(mand, f);
  }

  lemma TextBody(s: Text)
    ensures LeafBody(Str(s)) == s
  {
  }

  method EncodeRequestList(mb: Mbuf, mand: bool, frsv: seq<Request>, ghost d0: seq<byte>, ghost at: nat, ghost acc: seq<byte>)
    requires Holds(mb, d0, at, acc) && acc != []
    modifies mb
    ensures Holds(mb, d0, at, acc + EncodeRequests(mand, frsv))
    decreases 1, 5
  {
    hide Holds, Wrap, RequestBody;
    var i := 0;
    ghost var done := acc;
    assert frsv[0..] == frsv;
    while i < |frsv|
      invariant 0 <= i <= |frsv| && done != [] && Holds(mb, d0, at, done)
      invariant done + EncodeRequests(mand, frsv[i..]) == acc + EncodeRequests(mand, frsv)
    {
      PutRequest(mb, mand, FLOOR_REQUEST_STATUS, frsv[i], d0, at, done);
      assert frsv[i..][1..] == frsv[i + 1..];
      done := done + Wrap(mand, FLOOR_REQUEST_STATUS, RequestBody(mand, frsv[i]));
      i := i + 1;
    }
    assert done + [] == done;
  }
}
