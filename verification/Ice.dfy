/**
 * The ICE module for media NAT traversal (ice.c) in full mode: candidate gathering counts down like STUN,
 * connectivity checks then decide when a re-INVITE is due. The establishment handler is modelled by the log
 * `estabs` of its calls; what the ICE library reports is a parameter of the callbacks.
 */
module Ice {
  import opened NatCountdown

  /** The address 0 is the unset one. */
  const UNSET: Addr := 0

  datatype IceMedia = IceMedia(sock1: bool, sock2: bool, addr1: Addr, addr2: Addr, complete: bool) {
    /** Whether an address of the medium differs from the one that the library now reports. */
    predicate Differs(a1: Option<Addr>, a2: Option<Addr>) {
      (sock1 && a1.Some? && addr1 != a1.value) || (sock2 && a2.Some? && addr2 != a2.value)
    }

    function Refresh(a1: Option<Addr>, a2: Option<Addr>): IceMedia {
      this.(addr1 := if sock1 && a1.Some? then a1.value else addr1, addr2 := if sock2 && a2.Some? then a2.value else addr2)
    }
  }

  datatype IceSess = IceSess(media: seq<IceMedia>, mediac: int, started: bool, sendReinvite: bool, estabs: seq<Outcome>) {
    predicate AllComplete() { forall m <- media :: m.complete }
  }

  datatype Selected = Selected(a1: Option<Addr>, a2: Option<Addr>)

  /**
   * Gathering is done for medium `i`; the connectivity checks of medium `i` are done; the peer's session
   * description has arrived, with for each medium whether it is in use and what is selected for it.
   */
  datatype IceEvent =
    | Gathered(i: nat, res: Outcome, cand: Selected)
    | Checked(i: nat, err: int, update: bool, sel: Selected)
    | Updated(inUse: seq<bool>, sels: seq<Selected>)

  predicate IceEnabled(s: IceSess, e: IceEvent) {
    match e
    case Gathered(i, _, _) => i < |s.media|
    case Checked(i, _, _, _) => i < |s.media|
    case Updated(inUse, sels) => |inUse| == |sels| == |s.media|
  }

  function AfterGather(s: IceSess, i: nat, res: Outcome, cand: Selected): IceSess
    requires i < |s.media|
  {
    if !res.IsOk() then s.(estabs := s.estabs + [res])
    else
      var s1 := s.(media := s.media[i := s.media[i].Refresh(cand.a1, cand.a2)], mediac := s.mediac - 1);
      if s1.mediac != 0 then s1 else s1.(estabs := s.estabs + [res])
  }

  /** The session after the checks of medium `i` have been noted, before the handler is called. */
  function Noted(s: IceSess, i: nat, sel: Selected): IceSess
    requires i < |s.media|
  {
    s.(media := s.media[i := s.media[i].Refresh(sel.a1, sel.a2).(complete := true)],
       sendReinvite := s.sendReinvite || s.media[i].Differs(sel.a1, sel.a2))
  }

  function AfterCheck(s: IceSess, i: nat, err: int, update: bool, sel: Selected): IceSess
    requires i < |s.media|
  {
    var s1 := if err != 0 then s else Noted(s, i, sel);
    if err == 0 && !s1.AllComplete() then s1
    else if s1.sendReinvite && update then s1.(estabs := s1.estabs + [Established], sendReinvite := false)
    else s1
  }

  function AfterUpdate(s: IceSess, inUse: seq<bool>, sels: seq<Selected>): IceSess
    requires |inUse| == |sels| == |s.media|
  {
    if s.started then
      s.(media := seq(|s.media|, i requires 0 <= i < |s.media| => s.media[i].Refresh(sels[i].a1, sels[i].a2)))
    else
      s.(media := seq(|s.media|, i requires 0 <= i < |s.media| => s.media[i].(complete := !inUse[i])), started := true)
  }

  function IceStep(s: IceSess, e: IceEvent): (r: IceSess)
    requires IceEnabled(s, e)
    ensures |r.media| == |s.media|
  {
    match e
    case Gathered(i, res, cand) => AfterGather(s, i, res, cand)
    case Checked(i, err, update, sel) => AfterCheck(s, i, err, update, sel)
    case Updated(inUse, sels) => AfterUpdate(s, inUse, sels)
  }

  // ----- the module's objects

  class MnatMedia {
    var sess: MnatSess
    var addr1: Addr
    var addr2: Addr
    var sock1: bool
    var sock2: bool
    var complete: bool

    constructor (s: MnatSess, rtp: bool, rtcp: bool)
      ensures sess == s && Value() == IceMedia(rtp, rtcp, UNSET, UNSET, false)
    {
      sess, sock1, sock2, addr1, addr2, complete := s, rtp, rtcp, UNSET, UNSET, false;
    }

    ghost function Value(): IceMedia
      reads this
    {
      IceMedia(sock1, sock2, addr1, addr2, complete)
    }

    /** Takes over the local addresses that the library reports, if any. */
    method RefreshLaddr(a1: Option<Addr>, a2: Option<Addr>) returns (changed: bool)
      modifies this`addr1, this`addr2
      ensures changed == old(Value()).Differs(a1, a2) && Value() == old(Value()).Refresh(a1, a2)
    {
      changed := false;
      if sock1 && a1.Some? {
        if addr1 != a1.value {
          changed := true;
        }
        addr1 := a1.value;
      }
      if sock2 && a2.Some? {
        if addr2 != a2.value {
          changed := true;
        }
        addr2 := a2.value;
      }
    }

    method GatherHandler(res: Outcome, cand: Selected, ghost i: nat)
      requires sess.Valid() && i < |sess.medial| && sess.medial[i] == this
      modifies this`addr1, this`addr2, sess`mediac, sess`estabs
      ensures sess.Valid() && sess.State() == AfterGather(old(sess.State()), i, res, cand)
    {
      if res.IsOk() {
        var _ := RefreshLaddr(cand.a1, cand.a2);
        sess.mediac := sess.mediac - 1;
        if sess.mediac != 0 {
          return;
        }
      }
      sess.estabs := sess.estabs + [res];
    }

    method NoteChecked(sel: Selected, ghost i: nat)
      requires sess.Valid() && i < |sess.medial| && sess.medial[i] == this
      modifies this`addr1, this`addr2, this`complete, sess`sendReinvite
      ensures sess.Valid() && sess.State() == Noted(old(sess.State()), i, sel)
    {
      complete := true;
      var changed := RefreshLaddr(sel.a1, sel.a2);
      if changed {
        sess.sendReinvite := true;
      }
    }

    method ConncheckHandler(err: int, update: bool, sel: Selected, ghost i: nat)
      requires sess.Valid() && i < |sess.medial| && sess.medial[i] == this
      modifies this`addr1, this`addr2, this`complete, sess`sendReinvite, sess`estabs
      ensures sess.Valid() && sess.State() == AfterCheck(old(sess.State()), i, err, update, sel)
    {
      hide Noted;
      if err == 0 {
        NoteChecked(sel, i);
        ghost var noted := sess.State();
        var all := sess.CheckComplete();
        assert sess.State() == noted;
        if !all {
          return;
        }
      }
      if sess.sendReinvite && update {
        sess.estabs := sess.estabs + [Established];
        sess.sendReinvite := false;
      }
    }
  }

  class MnatSess {
    var medial: seq<MnatMedia>
    var mediac: int
    var started: bool
    var sendReinvite: bool
    var estabs: seq<Outcome>

    ghost predicate Valid()
      reads this, medial
    {
      && (forall i, j :: 0 <= i < j < |medial| ==> medial[i] != medial[j])
      && (forall i :: 0 <= i < |medial| ==> medial[i].sess == this)
    }

    ghost function Values(): seq<IceMedia>
      reads this, medial
    {
      seq(|medial|, i requires 0 <= i < |medial| reads this, medial => medial[i].Value())
    }

    ghost function State(): IceSess
      reads this, medial
    {
      IceSess(Values(), mediac, started, sendReinvite, estabs)
    }

    constructor ()
      ensures Valid() && State() == IceSess([], 0, false, false, [])
    {
      medial, mediac, started, sendReinvite, estabs := [], 0, false, false, [];
    }

    method MediaAlloc(rtp: bool, rtcp: bool) returns (m: MnatMedia)
      requires Valid()
      modifies this`medial, this`mediac
      ensures Valid() && fresh(m)
      ensures State() == old(State()).(media := old(Values()) + [IceMedia(rtp, rtcp, UNSET, UNSET, false)], mediac := old(mediac) + 1)
    {
      m := new MnatMedia(this, rtp, rtcp);
      medial := medial + [m];
      mediac := mediac + 1;
    }

    /** Whether the connectivity checks of all media are done. */
    method CheckComplete() returns (all: bool)
      requires Valid()
      ensures all == State().AllComplete()
    {
      var k := 0;
      while k < |medial|
        invariant 0 <= k <= |medial|
        invariant forall j :: 0 <= j < k ==> medial[j].complete
      {
        if !medial[k].complete {
          assert Values()[k] in Values();
          return false;
        }
        k := k + 1;
      }
      all := true;
    }

    /** The first description from the peer starts the connectivity checks, a later one refreshes addresses. */
    method IceStart(inUse: seq<bool>, sels: seq<Selected>)
      requires Valid() && |inUse| == |sels| == |medial|
      modifies this`started, medial
      ensures Valid() && medial == old(medial) && State() == AfterUpdate(old(State()), inUse, sels)
    {
      if started {
        RefreshAll(sels);
        assert Values() == AfterUpdate(old(State()), inUse, sels).media;
        return;
      }
      var k := 0;
      while k < |medial|
        invariant 0 <= k <= |medial| && Valid()
        invariant forall j :: 0 <= j < k ==> medial[j].Value() == old(medial[j].Value()).(complete := !inUse[j])
        invariant forall j :: k <= j < |medial| ==> medial[j].Value() == old(medial[j].Value())
      {
        medial[k].complete := !inUse[k];
        k := k + 1;
      }
      assert Values() == AfterUpdate(old(State()), inUse, sels).media;
      started := true;
    }

    method RefreshAll(sels: seq<Selected>)
      requires Valid() && |sels| == |medial|
      modifies medial
      ensures Valid()
      ensures |Values()| == |sels|
      ensures forall i :: 0 <= i < |sels| ==> Values()[i] == old(Values())[i].Refresh(sels[i].a1, sels[i].a2)
    {
      var k := 0;
      while k < |medial|
        invariant 0 <= k <= |medial| && Valid()
        invariant forall j :: 0 <= j < k ==> medial[j].Value() == old(medial[j].Value()).Refresh(sels[j].a1, sels[j].a2)
        invariant forall j :: k <= j < |medial| ==> medial[j].Value() == old(medial[j].Value())
      {
        var _ := medial[k].RefreshLaddr(sels[k].a1, sels[k].a2);
        k := k + 1;
      }
    }
  }

  // ----- runs

  predicate IceAllEnabled(s: IceSess, es: seq<IceEvent>) {
    forall k :: 0 <= k < |es| ==> IceEnabled(s, es[k])
  }

  lemma StaysEnabled(s: IceSess, r: IceSess, e: IceEvent)
    requires |r.media| == |s.media|
    ensures IceEnabled(s, e) <==> IceEnabled(r, e)
  {
  }

  /** The session after the first `k` events. */
  function After(s: IceSess, es: seq<IceEvent>, k: nat): (r: IceSess)
    requires IceAllEnabled(s, es) && k <= |es|
    ensures |r.media| == |s.media|
  {
    if k == 0 then s
    else
      var r := After(s, es, k - 1);
      StaysEnabled(s, r, es[k - 1]);
      IceStep(r, es[k - 1])
  }

  /** The checks of a medium succeed and select, for a socket it has, an address that is not the one it had. */
  predicate Changes(s: IceSess, e: IceEvent)
    requires IceEnabled(s, e)
  {
    && e.Checked? && e.err == 0
    && var m := s.media[e.i];
    || (m.sock1 && e.sel.a1.Some? && e.sel.a1.value != m.addr1)
    || (m.sock2 && e.sel.a2.Some? && e.sel.a2.value != m.addr2)
  }

  /** The connectivity checks call the establishment handler. */
  predicate Reinvites(s: IceSess, e: IceEvent)
    requires IceEnabled(s, e)
  {
    e.Checked? && |IceStep(s, e).estabs| > |s.estabs|
  }

  predicate ChangesAt(s: IceSess, es: seq<IceEvent>, k: nat)
    requires IceAllEnabled(s, es) && k < |es|
  {
    StaysEnabled(s, After(s, es, k), es[k]);
    Changes(After(s, es, k), es[k])
  }

  predicate ReinvitesAt(s: IceSess, es: seq<IceEvent>, k: nat)
    requires IceAllEnabled(s, es) && k < |es|
  {
    StaysEnabled(s, After(s, es, k), es[k]);
    Reinvites(After(s, es, k), es[k])
  }

  /** Some selected address changed at event `j` and no re-INVITE has followed it before event `k`. */
  predicate PendingSince(s: IceSess, es: seq<IceEvent>, j: nat, k: nat)
    requires IceAllEnabled(s, es) && k <= |es|
  {
    j < k && ChangesAt(s, es, j) && forall l :: j <= l < k ==> !ReinvitesAt(s, es, l)
  }

  lemma FlagStep(s: IceSess, e: IceEvent)
    requires IceEnabled(s, e)
    ensures IceStep(s, e).sendReinvite <==> (s.sendReinvite || Changes(s, e)) && !Reinvites(s, e)
  {
  }

  /** Over every run the flag says that a selected address has changed since the last re-INVITE. */
  lemma {:induction false} FlagMeans(s: IceSess, es: seq<IceEvent>, k: nat)
    requires IceAllEnabled(s, es) && k <= |es| && !s.sendReinvite
    ensures After(s, es, k).sendReinvite <==> exists j :: PendingSince(s, es, j, k)
  {
    hide IceStep, Changes, Reinvites;
    if k > 0 {
      FlagMeans(s, es, k - 1);
      var r := After(s, es, k - 1);
      StaysEnabled(s, r, es[k - 1]);
      FlagStep(r, es[k - 1]);
      if After(s, es, k).sendReinvite {
        if Changes(r, es[k - 1]) {
          assert PendingSince(s, es, k - 1, k);
        } else {
          var j :| PendingSince(s, es, j, k - 1);
          assert PendingSince(s, es, j, k);
        }
      }
      if j: nat :| PendingSince(s, es, j, k) {
        assert !ReinvitesAt(s, es, k - 1);
        assert j < k - 1 ==> PendingSince(s, es, j, k - 1);
      }
    }
  }

  // ----- what the state says about the events

  /** The description that starts the connectivity checks. */
  predicate IsFirst(es: seq<IceEvent>, j: nat) {
    j < |es| && es[j].Updated? && forall l :: 0 <= l < j ==> !es[l].Updated?
  }

  predicate Succeeds(e: IceEvent, i: nat) { e.Checked? && e.i == i && e.err == 0 }

  /** The checks of medium `i` succeeded at event `j` or later, before event `k`. */
  predicate SucceedsIn(es: seq<IceEvent>, j: nat, k: nat, i: nat) {
    exists l: nat :: j <= l < k <= |es| && Succeeds(es[l], i)
  }

  /** The description leaves medium `i` out of use. */
  predicate LeavesOut(e: IceEvent, i: nat) { e.Updated? && i < |e.inUse| && !e.inUse[i] }

  /** A description came before event `k`. */
  predicate DescribedIn(es: seq<IceEvent>, k: nat) {
    exists j: nat :: j < k <= |es| && es[j].Updated?
  }

  /** Medium `i` is done with before event `k`: not in use from the start of the checks on, or checked since then. */
  predicate DoneBefore(s: IceSess, es: seq<IceEvent>, k: nat, i: nat)
    requires i < |s.media|
  {
    if s.started || !DescribedIn(es, k) then s.media[i].complete || SucceedsIn(es, 0, k, i)
    else exists j: nat :: j < k && IsFirst(es, j) && (LeavesOut(es[j], i) || SucceedsIn(es, j + 1, k, i))
  }

  /** Every medium is done with before event `k`. */
  predicate AllDoneBefore(s: IceSess, es: seq<IceEvent>, k: nat) {
    forall i: nat :: i < |s.media| ==> DoneBefore(s, es, k, i)
  }

  lemma SucceedsStep(es: seq<IceEvent>, j: nat, k: nat, i: nat)
    requires j <= k < |es|
    ensures SucceedsIn(es, j, k + 1, i) <==> SucceedsIn(es, j, k, i) || Succeeds(es[k], i)
  {
  }

  lemma StepCompletes(s: IceSess, e: IceEvent, i: nat)
    requires IceEnabled(s, e) && i < |s.media|
    ensures var r := IceStep(s, e);
            && (r.started <==> s.started || e.Updated?)
            && (r.media[i].complete <==>
                if e.Updated? && !s.started then LeavesOut(e, i) else s.media[i].complete || Succeeds(e, i))
  {
  }

  lemma DescribedStep(es: seq<IceEvent>, k: nat)
    requires k < |es|
    ensures DescribedIn(es, k + 1) <==> DescribedIn(es, k) || es[k].Updated?
  {
  }

  /** What one more event does to a medium that is, or is not, done with. */
  lemma DoneStep(s: IceSess, es: seq<IceEvent>, k: nat, i: nat)
    requires k < |es| && i < |s.media|
    ensures DoneBefore(s, es, k + 1, i) <==>
            if es[k].Updated? && !(s.started || DescribedIn(es, k)) then LeavesOut(es[k], i)
            else DoneBefore(s, es, k, i) || Succeeds(es[k], i)
  {
    hide Succeeds, SucceedsIn, LeavesOut, DescribedIn, IsFirst;
    DescribedStep(es, k);
    SucceedsStep(es, 0, k, i);
    if !s.started && DescribedIn(es, k + 1) {
      var j := FirstOf(es, k + 1);
      OneFirst(es, j);
      if DescribedIn(es, k) {
        var j' := FirstOf(es, k);
        SucceedsStep(es, j + 1, k, i);
      } else {
        FirstIsLast(es, j, k);
        NothingSince(es, k + 1, i);
      }
    }
  }

  lemma FirstIsLast(es: seq<IceEvent>, j: nat, k: nat)
    requires j <= k < |es| && IsFirst(es, j) && !DescribedIn(es, k)
    ensures j == k
  {
  }

  /** Over every run: whether the checks have started, and what the flag of a medium says about the events. */
  lemma {:induction false} CompleteMeans(s: IceSess, es: seq<IceEvent>, k: nat, i: nat)
    requires IceAllEnabled(s, es) && k <= |es| && i < |s.media|
    ensures After(s, es, k).started <==> s.started || DescribedIn(es, k)
    ensures After(s, es, k).media[i].complete <==> DoneBefore(s, es, k, i)
  {
    hide IceStep, Succeeds, LeavesOut, DoneBefore;
    if k == 0 {
      NothingYet(s, es, i);
    } else {
      CompleteMeans(s, es, k - 1, i);
      var r := After(s, es, k - 1);
      StaysEnabled(s, r, es[k - 1]);
      StepCompletes(r, es[k - 1], i);
      DescribedStep(es, k - 1);
      DoneStep(s, es, k - 1, i);
    }
  }

  lemma NothingYet(s: IceSess, es: seq<IceEvent>, i: nat)
    requires i < |s.media|
    ensures DoneBefore(s, es, 0, i) <==> s.media[i].complete
  {
  }

  lemma NothingSince(es: seq<IceEvent>, k: nat, i: nat)
    ensures !SucceedsIn(es, k, k, i)
  {
  }

  lemma FirstOf(es: seq<IceEvent>, k: nat) returns (j: nat)
    requires DescribedIn(es, k)
    ensures j < k && IsFirst(es, j)
  {
    if DescribedIn(es, k - 1) {
      j := FirstOf(es, k - 1);
    } else {
      j := k - 1;
    }
  }

  lemma OneFirst(es: seq<IceEvent>, j: nat)
    requires IsFirst(es, j)
    ensures forall l: nat :: IsFirst(es, l) ==> l == j
  {
  }

  /** What event `l` says the local address of socket `c` of medium `i` is, if anything. */
  function Says(s: IceSess, es: seq<IceEvent>, l: nat, i: nat, c: Component): Option<Addr>
    requires l < |es|
  {
    match es[l]
    case Gathered(j, res, cand) => if j == i && res.err == 0 && res.scode == 0 then Part(cand, c) else None
    case Checked(j, err, _, sel) => if j == i && err == 0 then Part(sel, c) else None
    case Updated(_, sels) =>
      if i < |sels| && (s.started || DescribedIn(es, l)) then Part(sels[i], c) else None
  }

  function Part(sel: Selected, c: Component): Option<Addr> {
    match c case Rtp => sel.a1 case Rtcp => sel.a2
  }

  function LocalAddr(m: IceMedia, c: Component): Addr {
    match c case Rtp => m.addr1 case Rtcp => m.addr2
  }

  predicate HasSocket(m: IceMedia, c: Component) {
    match c case Rtp => m.sock1 case Rtcp => m.sock2
  }

  lemma StepAddress(s: IceSess, es: seq<IceEvent>, k: nat, i: nat, c: Component)
    requires IceAllEnabled(s, es) && k < |es| && i < |s.media|
    ensures var a, m := Says(s, es, k, i, c), After(s, es, k).media[i];
            && LocalAddr(After(s, es, k + 1).media[i], c) == (if HasSocket(m, c) && a.Some? then a.value else LocalAddr(m, c))
            && (HasSocket(After(s, es, k + 1).media[i], c) <==> HasSocket(m, c))
  {
    CompleteMeans(s, es, k, i);
    var r := After(s, es, k);
    StaysEnabled(s, r, es[k]);
    assert After(s, es, k + 1) == IceStep(r, es[k]);
    hide DoneBefore, DescribedIn, After;
    StepAddressOf(r, es[k], i, c);
  }

  lemma StepAddressOf(s: IceSess, e: IceEvent, i: nat, c: Component)
    requires IceEnabled(s, e) && i < |s.media|
    ensures var m, r := s.media[i], IceStep(s, e).media[i];
            var a := match e
                     case Gathered(j, res, cand) => if j == i && res.err == 0 && res.scode == 0 then Part(cand, c) else None
                     case Checked(j, err, _, sel) => if j == i && err == 0 then Part(sel, c) else None
                     case Updated(_, sels) => if s.started then Part(sels[i], c) else None;
            && LocalAddr(r, c) == (if HasSocket(m, c) && a.Some? then a.value else LocalAddr(m, c))
            && (HasSocket(r, c) <==> HasSocket(m, c))
  {
  }

  /**
   * Over every run a socket has the local address that gathering, a successful check or a description after
   * the first one last gave for it, and its old one when none did.
   */
  lemma {:induction false} LocalAddrIsLatest(s: IceSess, es: seq<IceEvent>, k: nat, i: nat, c: Component)
    requires IceAllEnabled(s, es) && k <= |es| && i < |s.media|
    ensures HasSocket(After(s, es, k).media[i], c) <==> HasSocket(s.media[i], c)
    ensures var a := LocalAddr(After(s, es, k).media[i], c);
            && (forall l :: 0 <= l < k && HasSocket(s.media[i], c) && Says(s, es, l, i, c).Some?
                            && (forall m :: l < m < k ==> Says(s, es, m, i, c) == None) ==>
                  a == Says(s, es, l, i, c).value)
            && (!HasSocket(s.media[i], c) || (forall l :: 0 <= l < k ==> Says(s, es, l, i, c) == None) ==>
                  a == LocalAddr(s.media[i], c))
  {
    hide Says, LocalAddr, HasSocket;
    if k > 0 {
      LocalAddrIsLatest(s, es, k - 1, i, c);
      StepAddress(s, es, k - 1, i, c);
      hide After;
    }
  }

  /** The failures to gather among the first `k` events. */
  function GatherFailures(es: seq<IceEvent>, k: nat): seq<Outcome>
    requires k <= |es|
  {
    if k == 0 then [] else GatherFailures(es, k - 1) + if es[k - 1].Gathered? then FailureOf(es[k - 1].res) else []
  }

  /** Over every run each failure to gather is reported as it came, and no other failure is. */
  lemma {:induction false} GatherFailuresReported(s: IceSess, es: seq<IceEvent>, k: nat)
    requires IceAllEnabled(s, es) && k <= |es|
    ensures Failures(After(s, es, k).estabs) == Failures(s.estabs) + GatherFailures(es, k)
  {
    hide IceStep, Failures, FailureOf;
    if k > 0 {
      GatherFailuresReported(s, es, k - 1);
      var r := After(s, es, k - 1);
      StaysEnabled(s, r, es[k - 1]);
      StepFailures(r, es[k - 1]);
    }
  }

  lemma StepReports(s: IceSess, e: IceEvent)
    requires IceEnabled(s, e)
    ensures var os := IceStep(s, e).estabs;
            || os == s.estabs + [if e.Gathered? then e.res else Established]
            || (os == s.estabs && (e.Gathered? ==> FailureOf(e.res) == []))
  {
  }

  lemma StepFailures(s: IceSess, e: IceEvent)
    requires IceEnabled(s, e)
    ensures Failures(IceStep(s, e).estabs) == Failures(s.estabs) + if e.Gathered? then FailureOf(e.res) else []
  {
    hide IceStep, Failures;
    StepReports(s, e);
    FailuresAppend(s.estabs, if e.Gathered? then e.res else Established);
  }

  // ----- re-INVITEs

  /**
   * The connectivity checks lead to a re-INVITE exactly when the callback allows one, a selected address
   * has changed since the last one or just now, and either every medium is out of use or was checked with
   * success, or the checks of this medium failed: a failure does not wait for the other media.
   */
  lemma ReinviteCondition(s: IceSess, es: seq<IceEvent>, k: nat)
    requires IceAllEnabled(s, es) && k < |es| && !s.sendReinvite && es[k].Checked?
    ensures ReinvitesAt(s, es, k) <==>
            && es[k].update
            && (ChangesAt(s, es, k) || exists j :: PendingSince(s, es, j, k))
            && (es[k].err != 0 || AllDoneBefore(s, es, k + 1))
  {
    FlagMeans(s, es, k);
    AllCompleteMeans(s, es, k + 1);
    var r := After(s, es, k);
    StaysEnabled(s, r, es[k]);
    CheckStep(r, es[k]);
    hide IceStep, Changes, Reinvites, PendingSince, AllDoneBefore;
  }

  lemma AllCompleteMeans(s: IceSess, es: seq<IceEvent>, k: nat)
    requires IceAllEnabled(s, es) && k <= |es|
    ensures After(s, es, k).AllComplete() <==> AllDoneBefore(s, es, k)
  {
    hide DoneBefore;
    var ms := After(s, es, k).media;
    forall i | 0 <= i < |s.media| ensures ms[i].complete <==> DoneBefore(s, es, k, i) {
      CompleteMeans(s, es, k, i);
    }
    hide After;
    assert forall i :: 0 <= i < |ms| ==> ms[i] in ms;
  }

  lemma CheckStep(s: IceSess, e: IceEvent)
    requires IceEnabled(s, e) && e.Checked?
    ensures Reinvites(s, e) <==>
            e.update && (s.sendReinvite || Changes(s, e)) && (e.err != 0 || IceStep(s, e).AllComplete())
  {
  }

  /** A failed check can send a re-INVITE while another medium is not complete. */
  lemma FailureReinvitesEarly()
    ensures
      var m := IceMedia(true, false, 1, UNSET, false);
      var s := IceSess([m, m], 0, true, false, [Established]);
      var es := [Checked(0, 0, true, Selected(Some(2), None)), Checked(0, 1, true, Selected(None, None))];
      IceAllEnabled(s, es) && ReinvitesAt(s, es, 1) && !After(s, es, 2).AllComplete()
  {
    var m := IceMedia(true, false, 1, UNSET, false);
    var s := IceSess([m, m], 0, true, false, [Established]);
    var es := [Checked(0, 0, true, Selected(Some(2), None)), Checked(0, 1, true, Selected(None, None))];
    var s1 := After(s, es, 1);
    assert s1 == IceStep(After(s, es, 0), es[0]) == IceStep(s, es[0]);
    assert s1.media == [IceMedia(true, false, 2, UNSET, true), m] && s1.media[1] in s1.media && s1.sendReinvite;
    assert After(s, es, 2) == IceStep(s1, es[1]);
  }
}
