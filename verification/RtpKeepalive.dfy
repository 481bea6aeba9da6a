/** RTP keepalive packets (rtpkeep.c), in a model of time in milliseconds. */
module RtpKeepalive {

  /** The keepalive interval and the delay of the first check. */
  const INTERVAL: nat := 15000
  const FIRST: nat := 20

  datatype Tx = Rtp(time: nat) | Keepalive(time: nat)

  /** The time, when the timer is due, the flag, and all transmissions so far. */
  datatype State = State(now: nat, due: nat, flag: bool, sent: seq<Tx>)

  datatype Event = SendRtp(time: nat) | Tick

  predicate Enabled(s: State, e: Event) {
    e.SendRtp? ==> s.now <= e.time <= s.due
  }

  function Step(s: State, e: Event): State {
    match e
    case SendRtp(time) => s.(now := time, flag := true, sent := s.sent + [Rtp(time)])
    case Tick =>
      var s1 := s.(now := s.due, due := s.due + INTERVAL);
      if s.flag then s1.(flag := false) else s1.(sent := s.sent + [Keepalive(s.due)])
  }

  function Start(time: nat): State { State(time, time + FIRST, false, []) }

  class Keeper {
    var now: nat
    var due: nat
    var ts: nat
    var flag: bool
    var sent: seq<Tx>

    ghost function Value(): State
      reads this
    {
      State(now, due, flag, sent)
    }

    constructor (time: nat)
      ensures Value() == Start(time) && ts == 0
    {
      now, due, ts, flag, sent := time, time + FIRST, 0, false, [];
    }

    /** The timer has gone off; a keepalive is sent unless RTP was. */
    method Timeout()
      modifies this
      ensures Value() == Step(old(Value()), Tick) && ts == old(ts)
    {
      now := due;
      due := now + INTERVAL;
      if flag {
        flag := false;
        return;
      }
      sent := sent + [Keepalive(now)];
    }

    /** An RTP packet with timestamp `rtpTs` has been sent. */
    method Refresh(time: nat, rtpTs: nat)
      requires Enabled(Value(), SendRtp(time))
      modifies this
      ensures Value() == Step(old(Value()), SendRtp(time)) && ts == rtpTs
    {
      now := time;
      sent := sent + [Rtp(time)];
      ts := rtpTs;
      flag := true;
    }
  }

  // ----- timed runs

  predicate IsRun(ss: seq<State>, es: seq<Event>) {
    && |ss| == |es| + 1
    && forall k :: 0 <= k < |es| ==> Enabled(ss[k], es[k]) && ss[k + 1] == Step(ss[k], es[k])
  }

  /** No two transmissions one after the other are further apart than twice the interval. */
  predicate Close(sent: seq<Tx>) {
    forall i :: 0 <= i < |sent| - 1 ==> sent[i].time <= sent[i + 1].time <= sent[i].time + 2 * INTERVAL
  }

  predicate Inv(t0: nat, s: State) {
    && s.now <= s.due <= s.now + INTERVAL && Close(s.sent)
    && (s.sent != [] ==> s.sent[0].time <= t0 + FIRST)
    && if s.sent == [] then s.due == t0 + FIRST && !s.flag
       else
         var last := s.sent[|s.sent| - 1].time;
         last <= s.now && s.due <= last + if s.flag then INTERVAL else 2 * INTERVAL
  }

  lemma CloseAppend(sent: seq<Tx>, t: Tx)
    requires Close(sent)
    requires sent != [] ==> sent[|sent| - 1].time <= t.time <= sent[|sent| - 1].time + 2 * INTERVAL
    ensures Close(sent + [t])
  {
  }

  lemma StepInv(t0: nat, s: State, e: Event)
    requires Inv(t0, s) && Enabled(s, e)
    ensures Inv(t0, Step(s, e))
  {
    hide Close;
    match e
    case SendRtp(time) => CloseAppend(s.sent, Rtp(time));
    case Tick => CloseAppend(s.sent, Keepalive(s.due));
  }

  /**
   * Over every timed run: consecutive transmissions, RTP or keepalive, are at most 30 seconds apart, the
   * first comes within 20 milliseconds, and at every moment the last one is at most 30 seconds ago.
   */
  lemma {:induction false} GapBound(t0: nat, ss: seq<State>, es: seq<Event>, k: nat)
    requires IsRun(ss, es) && ss[0] == Start(t0) && k <= |es|
    ensures Inv(t0, ss[k])
    ensures var sent := ss[k].sent;
            && (forall i :: 0 <= i < |sent| - 1 ==> sent[i].time <= sent[i + 1].time <= sent[i].time + 30000)
            && if sent == [] then ss[k].now <= t0 + 20
               else sent[0].time <= t0 + 20 && ss[k].now <= sent[|sent| - 1].time + 30000
  {
    hide Step;
    if k > 0 {
      GapBound(t0, ss, es, k - 1);
      StepInv(t0, ss[k - 1], es[k - 1]);
    }
  }

  /** RTP was sent at event `j` and no check has come since, before event `k`. */
  predicate SentSince(es: seq<Event>, j: nat, k: nat) {
    j < k <= |es| && es[j].SendRtp? && forall l :: j < l < k ==> !es[l].Tick?
  }

  /** A check sends a keepalive exactly when no RTP was sent since the check before it. */
  lemma {:induction false} KeepaliveOnlyWhenSilent(ss: seq<State>, es: seq<Event>, k: nat)
    requires IsRun(ss, es) && !ss[0].flag && k <= |es|
    ensures ss[k].flag <==> exists j :: SentSince(es, j, k)
    ensures k < |es| && es[k].Tick? ==>
              ss[k + 1].sent == ss[k].sent + if exists j :: SentSince(es, j, k) then [] else [Keepalive(ss[k].due)]
  {
    if k > 0 {
      KeepaliveOnlyWhenSilent(ss, es, k - 1);
      if es[k - 1].SendRtp? {
        assert SentSince(es, k - 1, k);
      }
    }
  }

  /** The bound is reached: RTP right after one check, then nothing. */
  lemma BoundReached()
    ensures var es := [Tick, SendRtp(20), Tick, Tick];
            exists ss: seq<State> :: IsRun(ss, es) && ss[0] == Start(0)
                         && ss[4].sent == [Keepalive(20), Rtp(20), Keepalive(30020)]
  {
    var es := [Tick, SendRtp(20), Tick, Tick];
    var s0 := Start(0);
    var s1 := Step(s0, es[0]);
    var s2 := Step(s1, es[1]);
    var s3 := Step(s2, es[2]);
    var ss := [s0, s1, s2, s3, Step(s3, es[3])];
    assert IsRun(ss, es);
  }
}
