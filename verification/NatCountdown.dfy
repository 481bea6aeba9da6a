/**
 * The STUN and TURN modules for media NAT traversal (stun.c, turn.c): callbacks with the public address of
 * each socket arrive in any order and count down to one call of the establishment handler. The handler is
 * modelled by the log `estabs` of its calls. STUN callbacks have no status code; theirs is 0.
 */
module NatCountdown {

  datatype Option<+T> = None | Some(value: T)

  type Addr = nat

  datatype Component = Rtp | Rtcp

  /** What the establishment handler is called with. */
  datatype Outcome = Outcome(err: int, scode: nat) {
    predicate IsOk() { err == 0 && scode == 0 }
  }

  const Established := Outcome(0, 0)

  /** Per socket: whether it is there, and the address it got. */
  datatype Media = Media(sock1: bool, sock2: bool, addr1: Option<Addr>, addr2: Option<Addr>) {
    predicate Has(c: Component) { match c case Rtp => sock1 case Rtcp => sock2 }

    /** Whether a socket is still without an address. */
    predicate Missing() { (sock1 && addr1 == None) || (sock2 && addr2 == None) }

    function Set(c: Component, addr: Addr): Media {
      match c case Rtp => this.(addr1 := Some(addr)) case Rtcp => this.(addr2 := Some(addr))
    }
  }

  datatype Sess = Sess(media: seq<Media>, mediac: int, estabs: seq<Outcome>)

  /** The callback for one socket of medium `i`. */
  datatype Event = Event(i: nat, c: Component, res: Outcome, addr: Addr)

  predicate Enabled(s: Sess, e: Event) {
    e.i < |s.media| && s.media[e.i].Has(e.c)
  }

  function Step(s: Sess, e: Event): (r: Sess)
    requires Enabled(s, e)
    ensures |r.media| == |s.media|
  {
    if !e.res.IsOk() then
      s.(estabs := s.estabs + [e.res])
    else
      var m := s.media[e.i].Set(e.c, e.addr);
      var s1 := s.(media := s.media[e.i := m]);
      if (match e.c case Rtp => m.sock2 && m.addr2 == None case Rtcp => m.sock1 && m.addr1 == None) then s1
      else if s.mediac - 1 != 0 then s1.(mediac := s.mediac - 1)
      else s1.(mediac := 0, estabs := s.estabs + [Established])
  }

  // ----- the modules' objects

  class MnatMedia {
    var sess: MnatSess
    var addr1: Option<Addr>
    var addr2: Option<Addr>
    var sock1: bool
    var sock2: bool

    constructor (s: MnatSess, rtp: bool, rtcp: bool)
      ensures sess == s && sock1 == rtp && sock2 == rtcp && addr1 == addr2 == None
    {
      sess, sock1, sock2, addr1, addr2 := s, rtp, rtcp, None, None;
    }

    ghost function Value(): Media
      reads this
    {
      Media(sock1, sock2, addr1, addr2)
    }

    /** The callback for the RTP socket. */
    method Handler1(res: Outcome, addr: Addr, ghost i: nat)
      requires sess.Valid() && i < |sess.medial| && sess.medial[i] == this && sock1
      modifies this`addr1, sess`mediac, sess`estabs
      ensures sess.Valid() && sess.State() == Step(old(sess.State()), Event(i, Rtp, res, addr))
    {
      if res.IsOk() {
        addr1 := Some(addr);
        if sock2 && addr2 == None {
          return;
        }
        sess.mediac := sess.mediac - 1;
        if sess.mediac != 0 {
          return;
        }
      }
      sess.estabs := sess.estabs + [res];
    }

    /** The callback for the RTCP socket. */
    method Handler2(res: Outcome, addr: Addr, ghost i: nat)
      requires sess.Valid() && i < |sess.medial| && sess.medial[i] == this && sock2
      modifies this`addr2, sess`mediac, sess`estabs
      ensures sess.Valid() && sess.State() == Step(old(sess.State()), Event(i, Rtcp, res, addr))
    {
      if res.IsOk() {
        addr2 := Some(addr);
        if sock1 && addr1 == None {
          return;
        }
        sess.mediac := sess.mediac - 1;
        if sess.mediac != 0 {
          return;
        }
      }
      sess.estabs := sess.estabs + [res];
    }
  }

  class MnatSess {
    var medial: seq<MnatMedia>
    var mediac: int
    var estabs: seq<Outcome>

    ghost predicate Valid()
      reads this, medial
    {
      && (forall i, j :: 0 <= i < j < |medial| ==> medial[i] != medial[j])
      && (forall i :: 0 <= i < |medial| ==> medial[i].sess == this)
    }

    ghost function State(): Sess
      reads this, medial
    {
      Sess(seq(|medial|, i requires 0 <= i < |medial| reads this, medial => medial[i].Value()), mediac, estabs)
    }

    constructor ()
      ensures Valid() && State() == Sess([], 0, [])
    {
      medial, mediac, estabs := [], 0, [];
    }

    /** A new medium is waited for. */
    method MediaAlloc(rtp: bool, rtcp: bool) returns (m: MnatMedia)
      requires Valid()
      modifies this
      ensures Valid() && fresh(m)
      ensures State() == old(State()).(media := old(State()).media + [Media(rtp, rtcp, None, None)], mediac := old(mediac) + 1)
    {
      m := new MnatMedia(this, rtp, rtcp);
      medial := medial + [m];
      mediac := mediac + 1;
    }
  }

  // ----- runs

  predicate AllEnabled(s: Sess, es: seq<Event>) {
    forall e <- es :: Enabled(s, e)
  }

  function Run(s: Sess, es: seq<Event>): (r: Sess)
    requires AllEnabled(s, es)
    ensures |r.media| == |s.media|
    decreases |es|
  {
    if es == [] then s
    else
      StaysEnabled(s, es);
      Run(Step(s, es[0]), es[1..])
  }

  lemma StaysEnabled(s: Sess, es: seq<Event>)
    requires es != [] && AllEnabled(s, es)
    ensures Enabled(s, es[0]) && AllEnabled(Step(s, es[0]), es[1..])
  {
    assert es[0] in es;
    forall e | e in es[1..] ensures Enabled(Step(s, es[0]), e) {
      assert e in es && Enabled(s, e);
    }
  }

  /** The number of media with a socket that has no address. */
  function Incomplete(ms: seq<Media>): nat {
    if ms == [] then 0 else (if ms[0].Missing() then 1 else 0) + Incomplete(ms[1..])
  }

  /** A callback for a medium that has all its addresses already. */
  predicate IsRepeat(s: Sess, e: Event)
    requires Enabled(s, e)
  {
    e.res.IsOk() && !s.media[e.i].Missing()
  }

  function Repeats(s: Sess, es: seq<Event>): nat
    requires AllEnabled(s, es)
    decreases |es|
  {
    if es == [] then 0
    else
      StaysEnabled(s, es);
      (if IsRepeat(s, es[0]) then 1 else 0) + Repeats(Step(s, es[0]), es[1..])
  }

  /** How often the handler was told that all media are established. */
  function Releases(os: seq<Outcome>): nat {
    if os == [] then 0 else (if os[0].IsOk() then 1 else 0) + Releases(os[1..])
  }

  lemma {:induction false} ReleasesAppend(os: seq<Outcome>, o: Outcome)
    ensures Releases(os + [o]) == Releases(os) + if o.IsOk() then 1 else 0
  {
    if os == [] {
      assert os + [o] == [o];
    } else {
      assert (os + [o])[1..] == os[1..] + [o];
      ReleasesAppend(os[1..], o);
    }
  }

  lemma {:induction false} IncompleteUpdate(ms: seq<Media>, i: nat, m: Media)
    requires i < |ms|
    ensures Incomplete(ms[i := m]) ==
            Incomplete(ms) - (if ms[i].Missing() then 1 else 0) + (if m.Missing() then 1 else 0)
  {
    if i == 0 {
      assert ms[0 := m][1..] == ms[1..];
    } else {
      assert ms[i := m][1..] == ms[1..][i - 1 := m];
      IncompleteUpdate(ms[1..], i - 1, m);
    }
  }

  lemma StepCounts(s: Sess, e: Event)
    requires Enabled(s, e)
    ensures var r := Step(s, e);
            && r.mediac - Incomplete(r.media) == s.mediac - Incomplete(s.media) - (if IsRepeat(s, e) then 1 else 0)
            && r.mediac <= s.mediac
            && Releases(r.estabs) == Releases(s.estabs) + if s.mediac > 0 && r.mediac <= 0 then 1
                                                          else if s.mediac > r.mediac == 0 then 1 else 0
  {
    if e.res.IsOk() {
      IncompleteUpdate(s.media, e.i, s.media[e.i].Set(e.c, e.addr));
    }
    ReleasesAppend(s.estabs, if e.res.IsOk() then Established else e.res);
  }

  /**
   * Over every run, with errors and repeated callbacks: the counter is the number of media without an
   * address less the callbacks that came for media that had all of theirs, and the handler is told of the
   * establishment once, when the counter comes to 0.
   */
  lemma {:induction false} RunCounts(s: Sess, es: seq<Event>)
    requires AllEnabled(s, es)
    ensures var r := Run(s, es);
            && r.mediac == s.mediac - Incomplete(s.media) + Incomplete(r.media) - Repeats(s, es)
            && r.mediac <= s.mediac
            && Releases(r.estabs) == Releases(s.estabs) + if s.mediac > 0 && r.mediac <= 0 then 1 else 0
    decreases |es|
  {
    hide Step, Releases, Incomplete, IsRepeat;
    if es != [] {
      StaysEnabled(s, es);
      StepCounts(s, es[0]);
      RunCounts(Step(s, es[0]), es[1..]);
    }
  }

  /** A session whose media have all been allocated and have heard nothing yet. */
  predicate Started(s: Sess) {
    && s.media != [] && s.mediac == |s.media| && s.estabs == []
    && forall m <- s.media :: (m.sock1 || m.sock2) && m.addr1 == None && m.addr2 == None
  }

  lemma {:induction false} AllIncomplete(ms: seq<Media>)
    requires forall m <- ms :: m.Missing()
    ensures Incomplete(ms) == |ms|
  {
    if ms != [] {
      assert ms[0] in ms;
      AllIncomplete(ms[1..]);
    }
  }

  /**
   * From the start of a session, over every run: the establishment is never reported twice, and it has
   * been reported exactly when there are no more media without an address than there were repeats. It is
   * on time (reported when all media are complete and not before) if and only if the repeats have not
   * caught up with media that are still incomplete.
   */
  lemma ReleasedOnce(s: Sess, es: seq<Event>)
    requires Started(s) && AllEnabled(s, es)
    ensures var r, missing, repeats := Run(s, es), Incomplete(Run(s, es).media), Repeats(s, es);
            && r.mediac == missing - repeats
            && Releases(r.estabs) == (if missing <= repeats then 1 else 0)
            && ((Releases(r.estabs) == 1 <==> missing == 0) <==> !(0 < missing <= repeats))
  {
    AllIncomplete(s.media);
    RunCounts(s, es);
  }

  // ----- addresses and failures

  /** Event `e` brings the address of socket `c` of medium `i`. */
  predicate Tells(e: Event, i: nat, c: Component) {
    e.i == i && e.c == c && e.res.err == 0 && e.res.scode == 0
  }

  function Address(m: Media, c: Component): Option<Addr> {
    match c case Rtp => m.addr1 case Rtcp => m.addr2
  }

  /** Over every run a socket has the address that came last for it, and its old one when none came. */
  lemma {:induction false} AddressIsLatest(s: Sess, es: seq<Event>, i: nat, c: Component)
    requires AllEnabled(s, es) && i < |s.media|
    ensures var a := Address(Run(s, es).media[i], c);
            && (forall l :: 0 <= l < |es| && Tells(es[l], i, c) && (forall m :: l < m < |es| ==> !Tells(es[m], i, c)) ==>
                  a == Some(es[l].addr))
            && ((forall l :: 0 <= l < |es| ==> !Tells(es[l], i, c)) ==> a == Address(s.media[i], c))
    decreases |es|
  {
    if es != [] {
      StaysEnabled(s, es);
      var s1, rest := Step(s, es[0]), es[1..];
      assert Address(s1.media[i], c) == if Tells(es[0], i, c) then Some(es[0].addr) else Address(s.media[i], c);
      hide Step, Tells, Address;
      AddressIsLatest(s1, rest, i, c);
      assert forall m :: 0 <= m < |rest| ==> rest[m] == es[m + 1];
      forall l | 0 <= l < |es| && Tells(es[l], i, c) && (forall m :: l < m < |es| ==> !Tells(es[m], i, c))
        ensures Address(Run(s, es).media[i], c) == Some(es[l].addr)
      {
        if l > 0 {
          assert rest[l - 1] == es[l];
        }
      }
    }
  }

  /** The reports of failures among `os`. */
  function Failures(os: seq<Outcome>): seq<Outcome> {
    if os == [] then [] else FailureOf(os[0]) + Failures(os[1..])
  }

  /** The failures that the callbacks of a run brought. */
  function FailuresOf(es: seq<Event>): seq<Outcome> {
    if es == [] then [] else FailureOf(es[0].res) + FailuresOf(es[1..])
  }

  function FailureOf(o: Outcome): seq<Outcome> { if o.err == 0 && o.scode == 0 then [] else [o] }

  lemma {:induction false} FailuresAppend(os: seq<Outcome>, o: Outcome)
    ensures Failures(os + [o]) == Failures(os) + FailureOf(o)
  {
    hide FailureOf;
    if os == [] {
      assert os + [o] == [o];
    } else {
      assert (os + [o])[1..] == os[1..] + [o];
      FailuresAppend(os[1..], o);
    }
  }

  lemma StepFailures(s: Sess, e: Event)
    requires Enabled(s, e)
    ensures Failures(Step(s, e).estabs) == Failures(s.estabs) + FailureOf(e.res)
  {
    FailuresAppend(s.estabs, e.res);
    FailuresAppend(s.estabs, Established);
    hide Failures;
  }

  /** Over every run each failure is reported as it came, in its turn and once. */
  lemma {:induction false} FailuresReported(s: Sess, es: seq<Event>)
    requires AllEnabled(s, es)
    ensures Failures(Run(s, es).estabs) == Failures(s.estabs) + FailuresOf(es)
    decreases |es|
  {
    hide Step, Failures, FailureOf;
    if es != [] {
      StaysEnabled(s, es);
      StepFailures(s, es[0]);
      FailuresReported(Step(s, es[0]), es[1..]);
    }
  }

  // ----- each callback once

  function AddrOf(s: Sess, e: Event): Option<Addr>
    requires Enabled(s, e)
  {
    match e.c case Rtp => s.media[e.i].addr1 case Rtcp => s.media[e.i].addr2
  }

  /** No two callbacks of the run are for the same socket. */
  predicate EachOnce(es: seq<Event>) {
    forall i, j :: 0 <= i < j < |es| ==> es[i].i != es[j].i || es[i].c != es[j].c
  }

  lemma {:induction false} NoRepeats(s: Sess, es: seq<Event>)
    requires AllEnabled(s, es) && EachOnce(es)
    requires forall e <- es :: AddrOf(s, e) == None
    ensures Repeats(s, es) == 0
    decreases |es|
  {
    if es != [] {
      StaysEnabled(s, es);
      var s1 := Step(s, es[0]);
      assert es[0] in es && AddrOf(s, es[0]) == None;
      forall e | e in es[1..] ensures AddrOf(s1, e) == None {
        var j :| 1 <= j < |es| && es[j] == e;
        assert es[0].i != es[j].i || es[0].c != es[j].c;
        assert e in es;
      }
      assert EachOnce(es[1..]) by {
        forall i, j | 0 <= i < j < |es[1..]| ensures es[1..][i].i != es[1..][j].i || es[1..][i].c != es[1..][j].c {
          assert es[i + 1].i != es[j + 1].i || es[i + 1].c != es[j + 1].c;
        }
      }
      NoRepeats(s1, es[1..]);
    }
  }

  /**
   * In every interleaving of the callbacks of all sockets, each coming once: the counter is the number of
   * media still missing an address, and the establishment is reported exactly once, with the last of them.
   */
  lemma EachOnceReleases(s: Sess, es: seq<Event>)
    requires Started(s) && AllEnabled(s, es) && EachOnce(es)
    ensures var r := Run(s, es);
            && r.mediac == Incomplete(r.media)
            && Releases(r.estabs) == if Incomplete(r.media) == 0 then 1 else 0
  {
    forall e | e in es ensures AddrOf(s, e) == None {
      assert Enabled(s, e) && s.media[e.i] in s.media;
    }
    NoRepeats(s, es);
    ReleasedOnce(s, es);
  }

  /** A repeated callback can release the call while a medium has no address: two media, two callbacks. */
  lemma RepeatReleasesEarly()
    ensures var s := Sess([Media(true, false, None, None), Media(true, false, None, None)], 2, []);
            var es := [Event(0, Rtp, Established, 1), Event(0, Rtp, Established, 2)];
            && Started(s) && AllEnabled(s, es)
            && Run(s, es).estabs == [Established] && Run(s, es).media[1].Missing()
  {
    var s := Sess([Media(true, false, None, None), Media(true, false, None, None)], 2, []);
    var e1, e2 := Event(0, Rtp, Established, 1), Event(0, Rtp, Established, 2);
    var s1 := Step(s, e1);
    assert s1 == Sess([Media(true, false, Some(1), None), Media(true, false, None, None)], 1, []);
    assert [e1, e2][1..] == [e2] && [e2][1..] == [];
    assert Run(s, [e1, e2]) == Run(s1, [e2]) == Step(s1, e2);
  }
}
