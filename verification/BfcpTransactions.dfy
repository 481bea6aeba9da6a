/**
 * BFCP client transactions (bfcp/req.c): 16-bit identifiers, the list of pending transactions, and the
 * response handlers. A handler is modelled by the number of its request, counted from 1, and the log
 * `calls` of handler calls.
 */
module BfcpTransactions {

  datatype Option<+T> = None | Some(value: T)

  type u16 = x: int | 0 <= x < 0x1_0000

  datatype Call = Call(id: nat, err: int)

  /** A pending transaction; `handled` says whether the request came with a handler. */
  datatype Trans = Trans(id: nat, tid: u16, handled: bool)

  /** `count` is the number of requests so far. */
  datatype State = State(tidc: u16, count: nat, pending: seq<Trans>, calls: seq<Call>)

  function NextTid(t: u16): u16 {
    var t' := (t + 1) % 0x1_0000;
    if t' == 0 then 1 else t'
  }

  /** A request is allocated and, when it could not be sent, dropped without a word to its handler. */
  function Request(s: State, handled: bool, sent: bool): State {
    var tid := NextTid(s.tidc);
    State(tid, s.count + 1, if sent then s.pending + [Trans(s.count + 1, tid, handled)] else s.pending, s.calls)
  }

  function Without(ts: seq<Trans>, k: nat): seq<Trans>
    requires k < |ts|
  {
    ts[..k] + ts[k + 1..]
  }

  function Complete(s: State, k: nat, err: int): State
    requires k < |s.pending|
  {
    var t := s.pending[k];
    s.(pending := Without(s.pending, k), calls := if t.handled then s.calls + [Call(t.id, err)] else s.calls)
  }

  /** The first pending transaction with identifier `tid`, the number of them if there is none. */
  function Find(ts: seq<Trans>, tid: u16): (k: nat)
    ensures k <= |ts| && (k < |ts| ==> ts[k].tid == tid)
    ensures forall j :: 0 <= j < k ==> ts[j].tid != tid
  {
    if ts == [] || ts[0].tid == tid then 0 else 1 + Find(ts[1..], tid)
  }

  // ----- the socket

  class Ctrans {
    var sock: BfcpSock
    var id: nat
    var tid: u16
    var resph: bool

    constructor (s: BfcpSock, i: nat, handled: bool)
      ensures sock == s && id == i && resph == handled
    {
      sock, id, resph, tid := s, i, handled, 0;
    }
  }

  class BfcpSock {
    var transl: seq<Ctrans>
    var tidc: u16
    var count: nat
    var calls: seq<Call>

    ghost predicate Valid()
      reads this, transl
    {
      && (forall i, j :: 0 <= i < j < |transl| ==> transl[i] != transl[j])
      && (forall i :: 0 <= i < |transl| ==> transl[i].sock == this)
    }

    ghost function Pending(): seq<Trans>
      reads this, transl
    {
      seq(|transl|, i requires 0 <= i < |transl| reads this, transl => Trans(transl[i].id, transl[i].tid, transl[i].resph))
    }

    ghost function Value(): State
      reads this, transl
    {
      State(tidc, count, Pending(), calls)
    }

    constructor ()
      ensures Valid() && Value() == State(0, 0, [], [])
    {
      transl, tidc, count, calls := [], 0, 0, [];
    }

    method CtransNew(handled: bool) returns (ct: Ctrans)
      requires Valid()
      modifies this
      ensures Valid() && fresh(ct) && transl == old(transl) + [ct]
      ensures Value() == Request(old(Value()), handled, true)
    {
      count := count + 1;
      ct := new Ctrans(this, count, handled);
      transl := transl + [ct];
      tidc := (tidc + 1) % 0x1_0000;
      if tidc == 0 {
        tidc := tidc + 1;
      }
      ct.tid := tidc;
    }

    /** `ok` is whether the message could be encoded and sent. */
    method BfcpRequest(handled: bool, ok: bool)
      requires Valid()
      modifies this
      ensures Valid() && Value() == Request(old(Value()), handled, ok)
    {
      var ct := CtransNew(handled);
      if !ok {
        transl := transl[..|transl| - 1];
      }
    }

    /** A reply or a timeout for the transaction `ct`, which is number `k` of the list. */
    method CtransCompleted(ct: Ctrans, err: int, k: nat)
      requires Valid() && k < |transl| && transl[k] == ct
      modifies this, ct
      ensures Valid() && !ct.resph && Value() == Complete(old(Value()), k, err)
    {
      var resph, id := ct.resph, ct.id;
      transl := transl[..k] + transl[k + 1..];
      ct.resph := false;
      if resph {
        calls := calls + [Call(id, err)];
      }
    }

    method CtransFind(tid: u16) returns (r: Option<Ctrans>, k: nat)
      requires Valid()
      ensures k == Find(Pending(), tid)
      ensures if k < |transl| then r == Some(transl[k]) else r == None
    {
      k := 0;
      while k < |transl|
        invariant 0 <= k <= |transl|
        invariant forall j :: 0 <= j < k ==> transl[j].tid != tid
      {
        if transl[k].tid == tid {
          FindUnique(Pending(), tid, k);
          return Some(transl[k]), k;
        }
        k := k + 1;
      }
      FindUnique(Pending(), tid, k);
      r := None;
    }

    /** A message from the peer: a reply to a pending transaction, or else for the message handler. */
    method RecvReply(tid: u16) returns (matched: bool)
      requires Valid()
      modifies this, transl
      ensures Valid() && Value() == Receive(old(Value()), tid)
      ensures matched == (Find(old(Pending()), tid) < |old(transl)|)
    {
      var ct, k := CtransFind(tid);
      if ct.Some? {
        CtransCompleted(ct.value, 0, k);
      }
      matched := ct.Some?;
    }
  }

  lemma FindUnique(ts: seq<Trans>, tid: u16, k: nat)
    requires k <= |ts| && (k < |ts| ==> ts[k].tid == tid) && forall j :: 0 <= j < k ==> ts[j].tid != tid
    ensures k == Find(ts, tid)
  {
  }

  function Receive(s: State, tid: u16): State {
    var k := Find(s.pending, tid);
    if k < |s.pending| then Complete(s, k, 0) else s
  }

  // ----- identifiers

  /** The identifier of request number `k` on a socket whose counter was `t0`. */
  function Nth(t0: u16, k: nat): u16 {
    if k == 0 then t0 else (t0 + k - 1) % 0xffff + 1
  }

  lemma NthNext(t0: u16, k: nat)
    ensures NextTid(Nth(t0, k)) == Nth(t0, k + 1)
  {
    var m := t0 + k - 1;
    if k > 0 {
      ModSucc(m);
    }
  }

  lemma ModSucc(m: nat)
    ensures (m + 1) % 0xffff == if m % 0xffff == 0xfffe then 0 else m % 0xffff + 1
  {
  }

  /** Identifiers are never 0, and two requests share one exactly when a multiple of 65535 apart. */
  lemma SameTid(t0: u16, a: nat, b: nat)
    requires 0 < a <= b
    ensures Nth(t0, a) != 0
    ensures Nth(t0, a) == Nth(t0, b) <==> (b - a) % 0xffff == 0
  {
    ModEqual(t0 + a - 1, t0 + b - 1);
  }

  lemma ModEqual(x: nat, y: nat)
    requires x <= y
    ensures x % 0xffff == y % 0xffff <==> (y - x) % 0xffff == 0
  {
    var qx, qy, rx, ry := x / 0xffff, y / 0xffff, x % 0xffff, y % 0xffff;
    assert y - x == 0xffff * (qy - qx) + (ry - rx);
  }

  // ----- runs

  datatype Event = Requested(handled: bool, sent: bool) | Replied(tid: u16) | TimedOut(k: nat)

  const ETIMEDOUT: int := 110

  predicate Enabled(s: State, e: Event) {
    e.TimedOut? ==> e.k < |s.pending|
  }

  function Step(s: State, e: Event): State
    requires Enabled(s, e)
  {
    match e
    case Requested(handled, sent) => Request(s, handled, sent)
    case Replied(tid) => Receive(s, tid)
    case TimedOut(k) => Complete(s, k, ETIMEDOUT)
  }

  /** A run, described by its states. */
  predicate IsRun(ss: seq<State>, es: seq<Event>) {
    && |ss| == |es| + 1
    && forall k :: 0 <= k < |es| ==> Enabled(ss[k], es[k]) && ss[k + 1] == Step(ss[k], es[k])
  }

  predicate IsStart(s: State) { s.count == 0 && s.pending == [] && s.calls == [] }

  predicate PendingOk(t0: u16, s: State) {
    && (forall i :: 0 <= i < |s.pending| ==> 0 < s.pending[i].id <= s.count && s.pending[i].tid == Nth(t0, s.pending[i].id))
    && (forall i, j :: 0 <= i < j < |s.pending| ==> s.pending[i].id < s.pending[j].id)
  }

  predicate CallsOk(s: State) {
    && (forall i :: 0 <= i < |s.calls| ==> 0 < s.calls[i].id <= s.count)
    && (forall i, j :: 0 <= i < j < |s.calls| ==> s.calls[i].id != s.calls[j].id)
    && (forall i, j :: 0 <= i < |s.calls| && 0 <= j < |s.pending| ==> s.calls[i].id != s.pending[j].id)
  }

  predicate Inv(t0: u16, s: State) {
    s.tidc == Nth(t0, s.count) && PendingOk(t0, s) && CallsOk(s)
  }

  lemma CompleteInv(t0: u16, s: State, k: nat, err: int)
    requires Inv(t0, s) && k < |s.pending|
    ensures Inv(t0, Complete(s, k, err))
  {
    hide Nth;
    var ts, r := Without(s.pending, k), Complete(s, k, err);
    assert forall i :: 0 <= i < |ts| ==> ts[i] == s.pending[if i < k then i else i + 1];
    assert PendingOk(t0, r);
  }

  lemma StepInv(t0: u16, s: State, e: Event)
    requires Inv(t0, s) && Enabled(s, e)
    ensures Inv(t0, Step(s, e))
  {
    hide Nth, Find;
    match e
    case Requested(_, _) =>
      NthNext(t0, s.count);
    case Replied(tid) =>
      if Find(s.pending, tid) < |s.pending| {
        CompleteInv(t0, s, Find(s.pending, tid), 0);
      }
    case TimedOut(k) =>
      CompleteInv(t0, s, k, ETIMEDOUT);
  }

  lemma {:induction false} RunInv(ss: seq<State>, es: seq<Event>, k: nat)
    requires IsRun(ss, es) && IsStart(ss[0]) && k <= |es|
    ensures Inv(ss[0].tidc, ss[k])
  {
    hide Step;
    if k > 0 {
      RunInv(ss, es, k - 1);
      StepInv(ss[0].tidc, ss[k - 1], es[k - 1]);
    }
  }

  /** Over every run no handler is called twice, and none while its transaction is pending. */
  lemma HandlersOnce(ss: seq<State>, es: seq<Event>, k: nat)
    requires IsRun(ss, es) && IsStart(ss[0]) && k <= |es|
    ensures forall i, j :: 0 <= i < j < |ss[k].calls| ==> ss[k].calls[i].id != ss[k].calls[j].id
    ensures forall i, j :: 0 <= i < |ss[k].calls| && 0 <= j < |ss[k].pending| ==> ss[k].calls[i].id != ss[k].pending[j].id
  {
    RunInv(ss, es, k);
  }

  /**
   * Over every run a reply to a pending transaction finds that transaction if and only if no older one is
   * still pending whose request lies a multiple of 65535 requests back.
   */
  lemma ReplyFindsRequest(ss: seq<State>, es: seq<Event>, k: nat, p: nat)
    requires IsRun(ss, es) && IsStart(ss[0]) && k <= |es| && p < |ss[k].pending|
    ensures ss[k].pending[p].tid != 0
    ensures Find(ss[k].pending, ss[k].pending[p].tid) == p <==>
            forall j :: 0 <= j < p ==> (ss[k].pending[p].id - ss[k].pending[j].id) % 0xffff != 0
  {
    RunInv(ss, es, k);
    var ts, t0 := ss[k].pending, ss[0].tidc;
    SameTid(t0, ts[p].id, ts[p].id);
    forall j | 0 <= j < p ensures ts[j].tid == ts[p].tid <==> (ts[p].id - ts[j].id) % 0xffff == 0 {
      SameTid(t0, ts[j].id, ts[p].id);
    }
    hide Nth, Step;
    if forall j :: 0 <= j < p ==> ts[j].tid != ts[p].tid {
      FindUnique(ts, ts[p].tid, p);
    }
  }

  /** While the pending requests lie fewer than 65535 requests apart, each reply finds its own. */
  lemma ReplyFindsRecent(ss: seq<State>, es: seq<Event>, k: nat, p: nat)
    requires IsRun(ss, es) && IsStart(ss[0]) && k <= |es| && p < |ss[k].pending|
    requires ss[k].pending[p].id - ss[k].pending[0].id < 0xffff
    ensures Find(ss[k].pending, ss[k].pending[p].tid) == p
  {
    ReplyFindsRequest(ss, es, k, p);
    RunInv(ss, es, k);
    var ts := ss[k].pending;
    forall j | 0 <= j < p ensures (ts[p].id - ts[j].id) % 0xffff != 0 {
      assert ts[0].id <= ts[j].id < ts[p].id;
    }
  }

  /** The numbers of the requests that were sent with a handler. */
  function Owed(es: seq<Event>): set<nat> {
    OwedFrom(es, 0)
  }

  function OwedFrom(es: seq<Event>, count: nat): set<nat>
    decreases |es|
  {
    if es == [] then {}
    else if es[0].Requested? then
      (if es[0].handled && es[0].sent then {count + 1} else {}) + OwedFrom(es[1..], count + 1)
    else OwedFrom(es[1..], count)
  }

  function Called(s: State): set<nat> { set i | 0 <= i < |s.calls| :: s.calls[i].id }

  function Expected(s: State): set<nat> { set i | 0 <= i < |s.pending| && s.pending[i].handled :: s.pending[i].id }

  function Handler(t: Trans): set<nat> { if t.handled then {t.id} else {} }

  lemma CalledGrows(s: State, r: State, t: Trans, err: int)
    requires r.calls == if t.handled then s.calls + [Call(t.id, err)] else s.calls
    ensures Called(r) == Called(s) + Handler(t)
  {
    assert forall i :: 0 <= i < |s.calls| ==> r.calls[i].id == s.calls[i].id;
    forall x | x in Called(s) + Handler(t) ensures x in Called(r) {
      if x in Called(s) {
        var i :| 0 <= i < |s.calls| && s.calls[i].id == x;
        assert r.calls[i].id == x;
      } else {
        assert r.calls[|s.calls|].id == x;
      }
    }
  }

  lemma ExpectedShrinks(s: State, r: State, k: nat)
    requires k < |s.pending| && r.pending == Without(s.pending, k)
    ensures Expected(r) + Handler(s.pending[k]) == Expected(s)
  {
    assert forall i :: 0 <= i < |r.pending| ==> r.pending[i] == s.pending[if i < k then i else i + 1];
    forall x | x in Expected(s) ensures x in Expected(r) + Handler(s.pending[k]) {
      var i :| 0 <= i < |s.pending| && s.pending[i].handled && s.pending[i].id == x;
      assert i != k ==> r.pending[if i < k then i else i - 1] == s.pending[i];
    }
  }

  lemma CompleteAccounts(s: State, k: nat, err: int)
    requires k < |s.pending|
    ensures var r := Complete(s, k, err); Called(r) + Expected(r) == Called(s) + Expected(s)
  {
    hide Called, Expected;
    var r := Complete(s, k, err);
    CalledGrows(s, r, s.pending[k], err);
    ExpectedShrinks(s, r, k);
  }

  lemma StepAccounts(s: State, e: Event)
    requires Enabled(s, e)
    ensures var r := Step(s, e);
            Called(r) + Expected(r) ==
            Called(s) + Expected(s) + if e.Requested? && e.handled && e.sent then {s.count + 1} else {}
    ensures Step(s, e).count == s.count + if e.Requested? then 1 else 0
  {
    match e
    case Requested(handled, sent) =>
      var r := Step(s, e);
      if sent {
        assert forall i :: 0 <= i < |s.pending| ==> r.pending[i] == s.pending[i];
        forall x | x in Expected(s) ensures x in Expected(r) {
          var i :| 0 <= i < |s.pending| && s.pending[i].handled && s.pending[i].id == x;
          assert r.pending[i].handled && r.pending[i].id == x;
        }
        assert r.pending[|s.pending|] == Trans(s.count + 1, r.tidc, handled);
      }
    case Replied(tid) =>
      if Find(s.pending, tid) < |s.pending| {
        CompleteAccounts(s, Find(s.pending, tid), 0);
      }
    case TimedOut(k) =>
      CompleteAccounts(s, k, ETIMEDOUT);
  }

  /** Over every run each handler of a request that was sent is still waited for or has been called. */
  lemma {:induction false} NoHandlerForgotten(ss: seq<State>, es: seq<Event>)
    requires IsRun(ss, es)
    ensures Called(ss[|es|]) + Expected(ss[|es|]) == Called(ss[0]) + Expected(ss[0]) + OwedFrom(es, ss[0].count)
    decreases |es|
  {
    hide Step, Called, Expected;
    if es != [] {
      StepAccounts(ss[0], es[0]);
      var ss1, es1 := ss[1..], es[1..];
      assert ss1[0] == ss[0 + 1] && ss1[|es1|] == ss[|es|];
      assert IsRun(ss1, es1) by {
        forall k | 0 <= k < |es1| ensures Enabled(ss1[k], es1[k]) && ss1[k + 1] == Step(ss1[k], es1[k]) {
          assert ss1[k] == ss[k + 1] && es1[k] == es[k + 1] && ss1[k + 1] == ss[k + 2];
        }
      }
      NoHandlerForgotten(ss1, es1);
    }
  }

  lemma EveryHandlerAccounted(ss: seq<State>, es: seq<Event>)
    requires IsRun(ss, es) && IsStart(ss[0])
    ensures Called(ss[|es|]) + Expected(ss[|es|]) == Owed(es) && Called(ss[|es|]) !! Expected(ss[|es|])
  {
    NoHandlerForgotten(ss, es);
    RunInv(ss, es, |es|);
  }

  // ----- what a handler is told

  /** Event `e` on state `s` brings the call `c` of the handler of one pending transaction. */
  predicate Brings(s: State, e: Event, c: Call) {
    exists p :: 0 <= p < |s.pending| && FinishedBy(s.pending[p], p, e, c)
  }

  /** The transaction number `p` of the list gets a reply with its identifier, or its time is up. */
  predicate FinishedBy(t: Trans, p: nat, e: Event, c: Call) {
    && t.handled && c.id == t.id
    && match e
       case Requested(_, _) => false
       case Replied(tid) => tid == t.tid && c.err == 0
       case TimedOut(k) => k == p && c.err == 110
  }

  lemma StepCalls(s: State, e: Event)
    requires Enabled(s, e)
    ensures var r := Step(s, e);
            r.calls == s.calls || (|r.calls| == |s.calls| + 1 && s.calls <= r.calls && Brings(s, e, r.calls[|s.calls|]))
  {
    hide Find;
    var r := Step(s, e);
    if r.calls != s.calls {
      var p := if e.TimedOut? then e.k else Find(s.pending, e.tid);
      assert FinishedBy(s.pending[p], p, e, r.calls[|s.calls|]);
    }
  }

  /** Event `l` added call number `c` to the log. */
  predicate Adds(ss: seq<State>, es: seq<Event>, l: nat, c: nat)
    requires IsRun(ss, es)
  {
    l < |es| && |ss[l].calls| == c && |ss[l + 1].calls| == c + 1
  }

  /**
   * Over every run each call of a handler was added by exactly one event, of which it tells the truth: with
   * error 0 by a reply with the identifier of the transaction, with error 110 by the end of its time.
   */
  lemma {:induction false} CallsTellTheTruth(ss: seq<State>, es: seq<Event>, k: nat, c: nat)
    requires IsRun(ss, es) && IsStart(ss[0]) && k <= |es| && c < |ss[k].calls|
    ensures exists l: nat :: l < k && Adds(ss, es, l, c)
    ensures forall l: nat :: l < k && Adds(ss, es, l, c) ==>
              var call := ss[k].calls[c];
              && Brings(ss[l], es[l], call)
              && (call.err == 0 <==> es[l].Replied?) && (call.err == 110 <==> es[l].TimedOut?)
    ensures forall l: nat, m: nat :: l < m < k && Adds(ss, es, l, c) ==> !Adds(ss, es, m, c)
    decreases k
  {
    hide Step, Brings;
    CallsGrow(ss, es, 0, k);
    var before := ss[k - 1];
    StepCalls(before, es[k - 1]);
    if c < |before.calls| {
      CallsTellTheTruth(ss, es, k - 1, c);
      assert !Adds(ss, es, k - 1, c);
    } else {
      assert Adds(ss, es, k - 1, c);
      forall l: nat | l < k - 1 ensures !Adds(ss, es, l, c) {
        CallsGrow(ss, es, l + 1, k - 1);
      }
    }
    BringsError(before, es[k - 1], ss[k].calls[c]);
  }

  lemma BringsError(s: State, e: Event, c: Call)
    ensures Brings(s, e, c) ==> (c.err == 0 <==> e.Replied?) && (c.err == 110 <==> e.TimedOut?)
  {
  }

  lemma {:induction false} CallsGrow(ss: seq<State>, es: seq<Event>, j: nat, k: nat)
    requires IsRun(ss, es) && j <= k <= |es|
    ensures ss[j].calls <= ss[k].calls
    decreases k
  {
    hide Step, Brings;
    if j < k {
      CallsGrow(ss, es, j, k - 1);
      StepCalls(ss[k - 1], es[k - 1]);
    }
  }
}
