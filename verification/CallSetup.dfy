/**
 * A call and its ICE session together: every error-free run of user actions, gathering and connectivity
 * check callbacks, session descriptions and SIP events, in any order that the parties can cause. The peer
 * can answer only an INVITE that was sent, the user only a call that was reported, and connectivity checks
 * run only once ICE has been started.
 */
module CallSetup {
  import opened NatCountdown
  import opened Ice
  import opened Call

  /** `gathered` is the set of media whose candidates have been gathered. */
  datatype Sys = Sys(call: Status, ice: IceSess, gathered: set<nat>)

  datatype SysEvent =
    | Connect
    | Accept
    | Gather(i: nat, cand: Selected)
    | Check(i: nat, update: bool, sel: Selected)
    | Description(inUse: seq<bool>, sels: seq<Selected>)
    | Progress(scode: nat)
    | Answered
    | HangUp

  predicate SysEnabled(s: Sys, e: SysEvent) {
    match e
    case Connect => s.call.state == CallState.Idle
    case Accept => s.call.state == CallState.Idle
    case Gather(i, _) => i < |s.ice.media| && i !in s.gathered
    case Check(i, _, _) => i < |s.ice.media| && s.ice.started
    case Description(inUse, sels) => |inUse| == |sels| == |s.ice.media| && s.call.acts != []
    case Progress(_) => s.call.acts != []
    case Answered => s.call.acts != []
    case HangUp => true
  }

  /** The event as the ICE module sees it. */
  function ToIce(e: SysEvent): IceEvent
    requires e.Gather? || e.Check? || e.Description?
  {
    match e
    case Gather(i, cand) => Gathered(i, NatCountdown.Established, cand)
    case Check(i, update, sel) => Checked(i, 0, update, sel)
    case Description(inUse, sels) => Updated(inUse, sels)
  }

  /** The call hears of what the ICE module reports. */
  function Relay(call: Status, before: seq<Outcome>, after: seq<Outcome>): Status {
    if |after| > |before| then AfterMnat(call, after[|after| - 1]) else call
  }

  function SysStep(s: Sys, e: SysEvent): (r: Sys)
    requires SysEnabled(s, e)
    ensures |r.ice.media| == |s.ice.media|
  {
    match e
    case Connect => s.(call := AfterConnect(s.call))
    case Accept => s.(call := AfterAccept(s.call))
    case Progress(scode) => s.(call := AfterProgress(s.call, scode))
    case Answered => s.(call := s.call.(state := CallState.Established))
    case HangUp => s.(call := s.call.(state := Terminated))
    case Gather(i, _) => ThroughIce(s, ToIce(e)).(gathered := s.gathered + {i})
    case Check(_, _, _) => ThroughIce(s, ToIce(e))
    case Description(_, _) => ThroughIce(s, ToIce(e))
  }

  function ThroughIce(s: Sys, e: IceEvent): (r: Sys)
    requires IceEnabled(s.ice, e)
    ensures |r.ice.media| == |s.ice.media|
  {
    var ice := IceStep(s.ice, e);
    Sys(Relay(s.call, s.ice.estabs, ice.estabs), ice, s.gathered)
  }

  /** A run, described by its states: from each the next event leads to the next. */
  predicate IsRun(ss: seq<Sys>, es: seq<SysEvent>) {
    && |ss| == |es| + 1
    && forall k :: 0 <= k < |es| ==> SysEnabled(ss[k], es[k]) && ss[k + 1] == SysStep(ss[k], es[k])
  }

  predicate IsStart(s: Sys) {
    && s.call == NewCall(true) && s.gathered == {}
    && s.ice.media != [] && s.ice.mediac == |s.ice.media| && !s.ice.started && !s.ice.sendReinvite
  }

  // ----- nothing too early, nothing twice

  predicate IsInitial(a: Act) { a == SendInvite || a == ReportIncoming }

  predicate AllGathered(s: Sys) { forall i :: 0 <= i < |s.ice.media| ==> i in s.gathered }

  /** One initial INVITE or report of an incoming call, and only re-INVITEs after it. */
  predicate InOrder(acts: seq<Act>) {
    forall k :: 0 <= k < |acts| ==> if k == 0 then IsInitial(acts[k]) else acts[k] == SendReinvite
  }

  predicate Inv(s: Sys) {
    && s.call.hasMnat
    && s.ice.media != []
    && (forall i <- s.gathered :: 0 <= i < |s.ice.media|)
    && s.ice.mediac == |s.ice.media| - |s.gathered|
    && (s.call.mnatWait <==> s.ice.mediac > 0)
    && (s.call.acts != [] ==> !s.call.mnatWait)
    && (s.ice.started ==> s.call.acts != [])
    && InOrder(s.call.acts)
  }

  lemma {:induction false} BoundedSize(n: nat, t: set<nat>)
    requires forall i <- t :: i < n
    ensures |t| <= n && (|t| == n ==> forall i :: 0 <= i < n ==> i in t)
  {
    if n > 0 {
      BoundedSize(n - 1, t - {n - 1});
      assert n - 1 in t ==> |t| == |t - {n - 1}| + 1;
      assert n - 1 !in t ==> t - {n - 1} == t;
      assert forall i :: 0 <= i < n - 1 && i in t - {n - 1} ==> i in t;
    } else {
      assert t == {};
    }
  }

  lemma InvStep(s: Sys, e: SysEvent)
    requires Inv(s) && SysEnabled(s, e)
    ensures Inv(SysStep(s, e))
  {
    if e.Gather? {
      BoundedSize(|s.ice.media|, s.gathered + {e.i});
    }
  }

  lemma {:induction false} RunInv(ss: seq<Sys>, es: seq<SysEvent>, k: nat)
    requires IsRun(ss, es) && IsStart(ss[0]) && k <= |es|
    ensures Inv(ss[k])
  {
    if k > 0 {
      RunInv(ss, es, k - 1);
      InvStep(ss[k - 1], es[k - 1]);
    }
  }

  /**
   * In every error-free run, at every point: no INVITE has been sent and no incoming call reported before
   * the candidates of all media were gathered, either has happened at most once, and all else that was sent
   * are re-INVITEs.
   */
  lemma NothingTooEarly(ss: seq<Sys>, es: seq<SysEvent>, k: nat)
    requires IsRun(ss, es) && IsStart(ss[0]) && k <= |es|
    ensures InOrder(ss[k].call.acts)
    ensures ss[k].call.acts != [] ==> AllGathered(ss[k])
  {
    RunInv(ss, es, k);
    BoundedSize(|ss[k].ice.media|, ss[k].gathered);
  }

  // ----- and nothing is forgotten

  /** A call that was begun and not hung up sends its INVITE, or reports itself, when gathering is done. */
  predicate Waiting(s: Sys, outgoing: bool) {
    if s.call.acts == [] then
      s.call.state == (if outgoing then Outgoing else CallState.Incoming) && s.call.mnatWait
    else
      s.call.acts[0] == (if outgoing then SendInvite else ReportIncoming) && s.call.state != CallState.Idle
  }

  lemma WaitingStep(s: Sys, e: SysEvent, outgoing: bool)
    requires Inv(s) && SysEnabled(s, e) && Waiting(s, outgoing) && !e.HangUp?
    ensures Waiting(SysStep(s, e), outgoing)
  {
    hide IceStep, InOrder, AllGathered;
    if e.Gather? || e.Check? || e.Description? {
      StepReports(s.ice, ToIce(e));
    }
  }

  /**
   * In a run that begins with connecting (or accepting) and in which nobody hangs up, the INVITE has been
   * sent (or the call reported) exactly when the candidates of all media are gathered.
   */
  lemma {:induction false} ReleasedWhenGathered(ss: seq<Sys>, es: seq<SysEvent>, k: nat)
    requires IsRun(ss, es) && IsStart(ss[0]) && 0 < k <= |es|
    requires (es[0].Connect? || es[0].Accept?) && forall l :: 0 <= l < k ==> !es[l].HangUp?
    ensures var acts := ss[k].call.acts;
            && (acts != [] <==> AllGathered(ss[k]))
            && (acts != [] ==> acts[0] == if es[0].Connect? then SendInvite else ReportIncoming)
  {
    WaitingRun(ss, es, k);
    RunInv(ss, es, k);
    BoundedSize(|ss[k].ice.media|, ss[k].gathered);
    if AllGathered(ss[k]) {
      AllMembers(|ss[k].ice.media|, ss[k].gathered);
    }
  }

  lemma {:induction false} AllMembers(n: nat, t: set<nat>)
    requires forall i :: 0 <= i < n ==> i in t
    ensures |t| >= n
  {
    if n > 0 {
      AllMembers(n - 1, t - {n - 1});
    }
  }

  lemma {:induction false} WaitingRun(ss: seq<Sys>, es: seq<SysEvent>, k: nat)
    requires IsRun(ss, es) && IsStart(ss[0]) && 0 < k <= |es|
    requires (es[0].Connect? || es[0].Accept?) && forall l :: 0 <= l < k ==> !es[l].HangUp?
    ensures Waiting(ss[k], es[0].Connect?)
  {
    if k == 1 {
      assert ss[0 + 1] == SysStep(ss[0], es[0]);
    } else {
      WaitingRun(ss, es, k - 1);
      RunInv(ss, es, k - 1);
      WaitingStep(ss[k - 1], es[k - 1], es[0].Connect?);
    }
  }

  lemma SilentStep(s: Sys, e: SysEvent)
    requires Inv(s) && SysEnabled(s, e) && s.call.state == Terminated && s.call.acts == []
    ensures SysStep(s, e).call.state == Terminated && SysStep(s, e).call.acts == []
  {
  }

  /** A call that is hung up while candidates are gathered never sends or reports anything. */
  lemma {:induction false} HungUpStaysSilent(ss: seq<Sys>, es: seq<SysEvent>, j: nat, k: nat)
    requires IsRun(ss, es) && IsStart(ss[0]) && j <= k <= |es|
    requires ss[j].call.state == Terminated && ss[j].call.acts == []
    ensures ss[k].call.state == Terminated && ss[k].call.acts == []
    decreases k
  {
    hide SysStep, Inv;
    if j < k {
      HungUpStaysSilent(ss, es, j, k - 1);
      RunInv(ss, es, k - 1);
      SilentStep(ss[k - 1], es[k - 1]);
    }
  }

  // ----- re-INVITEs

  predicate SendsReinvite(s: Sys, e: SysEvent)
    requires SysEnabled(s, e)
  {
    |SysStep(s, e).call.acts| > |s.call.acts| && SysStep(s, e).call.acts[|s.call.acts|] == SendReinvite
  }

  /** The checks of a medium select, for a socket it has, an address that is not the one it had. */
  predicate Selects(s: Sys, e: SysEvent)
    requires SysEnabled(s, e)
  {
    && e.Check?
    && var m := s.ice.media[e.i];
    || (m.sock1 && e.sel.a1.Some? && e.sel.a1.value != m.addr1)
    || (m.sock2 && e.sel.a2.Some? && e.sel.a2.value != m.addr2)
  }

  predicate SendsAt(ss: seq<Sys>, es: seq<SysEvent>, k: nat)
    requires IsRun(ss, es) && k < |es|
  {
    SendsReinvite(ss[k], es[k])
  }

  /** Event `j` selected a new address, and no re-INVITE has been sent from then until before event `k`. */
  predicate NewsSince(ss: seq<Sys>, es: seq<SysEvent>, j: nat, k: nat)
    requires IsRun(ss, es) && k <= |es|
  {
    j < k && Selects(ss[j], es[j]) && forall l :: j <= l < k ==> !SendsAt(ss, es, l)
  }

  lemma ReinviteStep(s: Sys, e: SysEvent)
    requires Inv(s) && SysEnabled(s, e)
    ensures SysStep(s, e).ice.sendReinvite <==> (s.ice.sendReinvite || Selects(s, e)) && !SendsReinvite(s, e)
    ensures SendsReinvite(s, e) <==>
            e.Check? && e.update && (s.ice.sendReinvite || Selects(s, e)) && SysStep(s, e).ice.AllComplete()
  {
    if e.Check? {
      FlagStep(s.ice, ToIce(e));
      CheckStep(s.ice, ToIce(e));
    }
  }

  lemma {:induction false} NewsFlag(ss: seq<Sys>, es: seq<SysEvent>, k: nat)
    requires IsRun(ss, es) && IsStart(ss[0]) && k <= |es|
    ensures ss[k].ice.sendReinvite <==> exists j :: NewsSince(ss, es, j, k)
  {
    hide SysStep, Inv, SendsReinvite, Selects;
    if k > 0 {
      NewsFlag(ss, es, k - 1);
      RunInv(ss, es, k - 1);
      ReinviteStep(ss[k - 1], es[k - 1]);
      if ss[k].ice.sendReinvite {
        if Selects(ss[k - 1], es[k - 1]) {
          assert NewsSince(ss, es, k - 1, k);
        } else {
          var j: nat :| NewsSince(ss, es, j, k - 1);
          assert NewsSince(ss, es, j, k);
        }
      }
      if j: nat :| NewsSince(ss, es, j, k) {
        assert !SendsAt(ss, es, k - 1);
        assert j < k - 1 ==> NewsSince(ss, es, j, k - 1);
      }
    }
  }

  /** The description that starts the connectivity checks. */
  predicate StartsChecks(es: seq<SysEvent>, j: nat) {
    j < |es| && es[j].Description? && forall l :: 0 <= l < j ==> !es[l].Description?
  }

  /** That description has medium `i` out of use, or its checks came to an end since, before event `k`. */
  predicate DoneSince(es: seq<SysEvent>, j: nat, k: nat, i: nat)
    requires j < |es| && k <= |es|
  {
    || (es[j].Description? && i < |es[j].inUse| && !es[j].inUse[i])
    || exists l: nat :: j < l < k && ChecksMedium(es[l], i)
  }

  predicate ChecksMedium(e: SysEvent, i: nat) { e.Check? && e.i == i }

  /** The checks were started before event `k`, and each of `n` media is done with. */
  predicate AllDone(es: seq<SysEvent>, k: nat, n: nat) {
    exists j: nat :: j < k <= |es| && StartsChecks(es, j) && forall i: nat :: i < n ==> DoneSince(es, j, k, i)
  }

  lemma DoneStep(s: Sys, e: SysEvent, i: nat)
    requires SysEnabled(s, e) && i < |s.ice.media|
    ensures var r := SysStep(s, e);
            && (r.ice.started <==> s.ice.started || e.Description?)
            && (r.ice.media[i].complete <==>
                if e.Description? && !s.ice.started then !e.inUse[i] else s.ice.media[i].complete || ChecksMedium(e, i))
  {
    if e.Gather? || e.Check? || e.Description? {
      StepCompletes(s.ice, ToIce(e), i);
    }
  }

  lemma DoneSinceStep(es: seq<SysEvent>, j: nat, k: nat, i: nat)
    requires j < k < |es|
    ensures DoneSince(es, j, k + 1, i) <==> DoneSince(es, j, k, i) || ChecksMedium(es[k], i)
  {
  }

  lemma {:induction false} SameMedia(ss: seq<Sys>, es: seq<SysEvent>, k: nat)
    requires IsRun(ss, es) && k <= |es|
    ensures |ss[k].ice.media| == |ss[0].ice.media|
  {
    hide SysStep;
    if k > 0 {
      SameMedia(ss, es, k - 1);
    }
  }

  /** Over every run what the flag of a medium says about the events since the checks were started. */
  lemma {:induction false} CompleteMeans(ss: seq<Sys>, es: seq<SysEvent>, j: nat, k: nat, i: nat)
    requires IsRun(ss, es) && IsStart(ss[0]) && StartsChecks(es, j) && j < k <= |es| && i < |ss[0].ice.media|
    ensures |ss[k].ice.media| == |ss[0].ice.media|
    ensures ss[k].ice.started && (ss[k].ice.media[i].complete <==> DoneSince(es, j, k, i))
    decreases k
  {
    hide SysStep, ChecksMedium;
    SameMedia(ss, es, k);
    SameMedia(ss, es, k - 1);
    DoneStep(ss[k - 1], es[k - 1], i);
    if j == k - 1 {
      NotStarted(ss, es, j);
    } else {
      CompleteMeans(ss, es, j, k - 1, i);
      DoneSinceStep(es, j, k - 1, i);
    }
  }

  lemma {:induction false} NotStarted(ss: seq<Sys>, es: seq<SysEvent>, k: nat)
    requires IsRun(ss, es) && IsStart(ss[0]) && k <= |es| && forall l :: 0 <= l < k ==> !es[l].Description?
    ensures !ss[k].ice.started
  {
    hide SysStep;
    if k > 0 {
      NotStarted(ss, es, k - 1);
      RunInv(ss, es, k - 1);
      DoneStep(ss[k - 1], es[k - 1], 0);
    }
  }

  lemma {:induction false} FirstDescription(ss: seq<Sys>, es: seq<SysEvent>, k: nat) returns (j: nat)
    requires IsRun(ss, es) && IsStart(ss[0]) && k <= |es| && ss[k].ice.started
    ensures j < k && StartsChecks(es, j)
  {
    hide SysStep;
    RunInv(ss, es, k - 1);
    DoneStep(ss[k - 1], es[k - 1], 0);
    if ss[k - 1].ice.started {
      j := FirstDescription(ss, es, k - 1);
    } else {
      j := k - 1;
      forall l | 0 <= l < j ensures !es[l].Description? {
        if es[l].Description? {
          StaysStarted(ss, es, l, j);
        }
      }
    }
  }

  lemma {:induction false} StaysStarted(ss: seq<Sys>, es: seq<SysEvent>, l: nat, k: nat)
    requires IsRun(ss, es) && IsStart(ss[0]) && l < k <= |es| && es[l].Description?
    ensures ss[k].ice.started
    decreases k
  {
    hide SysStep;
    RunInv(ss, es, k - 1);
    DoneStep(ss[k - 1], es[k - 1], 0);
    if l < k - 1 {
      StaysStarted(ss, es, l, k - 1);
    }
  }

  /** Once the checks are started, all media are complete exactly when each is done with. */
  lemma AllDoneMeans(ss: seq<Sys>, es: seq<SysEvent>, k: nat)
    requires IsRun(ss, es) && IsStart(ss[0]) && k <= |es| && ss[k].ice.started
    ensures ss[k].ice.AllComplete() <==> AllDone(es, k, |ss[0].ice.media|)
  {
    hide IsStart, DoneSince, SysStep;
    var j := FirstDescription(ss, es, k);
    var ms := ss[k].ice.media;
    SameMedia(ss, es, k);
    OneStart(es, j);
    forall i | 0 <= i < |ms| ensures ms[i].complete <==> DoneSince(es, j, k, i) {
      CompleteMeans(ss, es, j, k, i);
    }
    hide StartsChecks;
    assert forall i :: 0 <= i < |ms| ==> ms[i] in ms;
  }

  lemma OneStart(es: seq<SysEvent>, j: nat)
    requires StartsChecks(es, j)
    ensures forall l: nat :: StartsChecks(es, l) ==> l == j
  {
  }

  /**
   * In every error-free run a re-INVITE is sent exactly when the checks of a medium are done with
   * permission to update, each medium is out of use since the first description or was checked since, and
   * some selected local address changed in this event or since the last re-INVITE.
   */
  lemma ReinviteExactly(ss: seq<Sys>, es: seq<SysEvent>, k: nat)
    requires IsRun(ss, es) && IsStart(ss[0]) && k < |es|
    ensures SendsAt(ss, es, k) <==>
            && es[k].Check? && es[k].update && AllDone(es, k + 1, |ss[0].ice.media|)
            && (Selects(ss[k], es[k]) || exists j :: NewsSince(ss, es, j, k))
  {
    hide SysStep, Inv, SendsReinvite, Selects, AllDone;
    NewsFlag(ss, es, k);
    RunInv(ss, es, k);
    ReinviteStep(ss[k], es[k]);
    if es[k].Check? {
      SameMedia(ss, es, k);
      DoneStep(ss[k], es[k], es[k].i);
      AllDoneMeans(ss, es, k + 1);
    }
  }

  // ----- the state of the call

  /** The state that an event of the call puts it in, if it does. */
  function NewState(e: SysEvent): Option<CallState> {
    match e
    case Connect => Some(Outgoing)
    case Accept => Some(CallState.Incoming)
    case Progress(180) => Some(Ringing)
    case Progress(183) => Some(Early)
    case Answered => Some(CallState.Established)
    case HangUp => Some(Terminated)
    case _ => None
  }

  /** Over every run the call is in the state that the last event to give it one gave it. */
  lemma {:induction false} StateIsLatest(ss: seq<Sys>, es: seq<SysEvent>, k: nat)
    requires IsRun(ss, es) && k <= |es|
    ensures forall l :: 0 <= l < k && NewState(es[l]).Some? && (forall m :: l < m < k ==> NewState(es[m]) == None) ==>
              ss[k].call.state == NewState(es[l]).value
    ensures (forall l :: 0 <= l < k ==> NewState(es[l]) == None) ==> ss[k].call.state == ss[0].call.state
  {
    if k > 0 {
      StateIsLatest(ss, es, k - 1);
      StateStep(ss[k - 1], es[k - 1]);
      hide SysStep, NewState;
    }
  }

  lemma StateStep(s: Sys, e: SysEvent)
    requires SysEnabled(s, e)
    ensures SysStep(s, e).call.state == if NewState(e).Some? then NewState(e).value else s.call.state
  {
  }

  // ----- a call without media NAT traversal

  predicate IsPlainStart(s: Sys) {
    s == Sys(NewCall(false), IceSess([], 0, false, false, []), {})
  }

  /** What beginning a call without media NAT traversal does at once. */
  function Begun(es: seq<SysEvent>, k: nat): seq<Act>
    requires k <= |es|
  {
    if k == 0 then []
    else if es[k - 1].Connect? then [SendInvite]
    else if es[k - 1].Accept? then [ReportIncoming]
    else Begun(es, k - 1)
  }

  /**
   * In every run of a call without media NAT traversal: the call that is begun sends its INVITE, or is
   * reported, there and then, once, and no re-INVITE follows.
   */
  lemma {:induction false} PlainCall(ss: seq<Sys>, es: seq<SysEvent>, k: nat)
    requires IsRun(ss, es) && IsPlainStart(ss[0]) && k <= |es|
    ensures ss[k].call.acts == Begun(es, k)
    ensures ss[k].call.state == CallState.Idle ==> Begun(es, k) == []
    ensures !ss[k].call.hasMnat && ss[k].ice.media == [] && ss[k].ice.estabs == []
  {
    if k > 0 {
      PlainCall(ss, es, k - 1);
      assert SysEnabled(ss[k - 1], es[k - 1]) && ss[k] == SysStep(ss[k - 1], es[k - 1]);
    }
  }

  // ----- a call over STUN or TURN

  /** A call that hears of all that a media NAT module reported. */
  function Told(c: Status, os: seq<Outcome>): Status
    decreases |os|
  {
    if os == [] then c else Told(AfterMnat(c, os[0]), os[1..])
  }

  /** Whether a success is among the first `i` outcomes. */
  predicate OkBefore(os: seq<Outcome>, i: nat) {
    exists j :: 0 <= j < i <= |os| && os[j].err == 0 && os[j].scode == 0
  }

  /**
   * Over every sequence of reports, failures among them, a call that was begun does one thing for each: it
   * reports a failure as the end of the call, sends its INVITE (or reports itself) on the first success if
   * it was waiting, and sends a re-INVITE on every other success.
   */
  lemma {:induction false} ToldActs(c: Status, os: seq<Outcome>)
    requires c.state == Outgoing || c.state == CallState.Incoming
    ensures var r := Told(c, os);
            && r.state == c.state && |r.acts| == |c.acts| + |os| && c.acts <= r.acts
            && forall i :: 0 <= i < |os| ==>
                 r.acts[|c.acts| + i] ==
                 if os[i].err != 0 || os[i].scode != 0 then ReportClosed
                 else if !c.mnatWait || OkBefore(os, i) then SendReinvite
                 else if c.state == Outgoing then SendInvite else ReportIncoming
    decreases |os|
  {
    if os != [] {
      var c1, rest := AfterMnat(c, os[0]), os[1..];
      assert c1.acts[..|c.acts|] == c.acts && |c1.acts| == |c.acts| + 1;
      ToldActs(c1, rest);
      var r := Told(c, os);
      assert forall j :: 0 <= j < |rest| ==> rest[j] == os[j + 1];
      forall i | 0 < i < |os|
        ensures OkBefore(os, i) <==> (os[0].err == 0 && os[0].scode == 0) || OkBefore(rest, i - 1)
      {
        if j :| 0 <= j < i && os[j].err == 0 && os[j].scode == 0 && j > 0 {
          assert rest[j - 1] == os[j];
        }
      }
    }
  }

  lemma {:induction false} OnlyReleases(s: Sess, es: seq<Event>)
    requires AllEnabled(s, es) && (forall e <- es :: e.res.IsOk()) && forall o <- s.estabs :: o == NatCountdown.Established
    ensures forall o <- Run(s, es).estabs :: o == NatCountdown.Established
    decreases |es|
  {
    if es != [] {
      NatCountdown.StaysEnabled(s, es);
      assert es[0] in es;
      OnlyReleases(Step(s, es[0]), es[1..]);
    }
  }

  lemma {:induction false} AllReleases(os: seq<Outcome>)
    requires forall o <- os :: o == NatCountdown.Established
    ensures Releases(os) == |os|
  {
    if os != [] {
      assert os[0] in os && forall o <- os[1..] :: o in os;
      AllReleases(os[1..]);
    }
  }

  /**
   * Over every error-free run of STUN or TURN callbacks a waiting outgoing call sends its INVITE once, and
   * has sent it exactly when the repeated callbacks have caught up with the media without an address; with
   * no repeats, that is when every socket of every medium has one.
   */
  lemma InviteAfterAddresses(s: Sess, es: seq<Event>, c: Status)
    requires Started(s) && AllEnabled(s, es) && forall e <- es :: e.res.IsOk()
    requires c.state == Outgoing && c.mnatWait && c.acts == []
    ensures Told(c, Run(s, es).estabs).acts == if Incomplete(Run(s, es).media) <= Repeats(s, es) then [SendInvite] else []
    ensures EachOnce(es) ==> Repeats(s, es) == 0
  {
    ReleasedOnce(s, es);
    OnlyReleases(s, es);
    var os := Run(s, es).estabs;
    AllReleases(os);
    if os != [] {
      assert os[0] in os && os[1..] == [];
    }
    if EachOnce(es) {
      forall e | e in es ensures AddrOf(s, e) == None {
        assert Enabled(s, e) && s.media[e.i] in s.media;
      }
      NoRepeats(s, es);
    }
  }
}
