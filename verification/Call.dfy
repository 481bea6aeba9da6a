/**
 * Setting up a call while media NAT traversal is going on (call.c). What the call does towards the peer and
 * the user is the log `acts`; SIP, SDP and the media streams are not modelled.
 */
module Call {
  import opened NatCountdown

  datatype CallState = Idle | Incoming | Outgoing | Ringing | Early | Established | Terminated

  datatype Act = SendInvite | ReportIncoming | SendReinvite | ReportClosed

  datatype Status = Status(state: CallState, hasMnat: bool, mnatWait: bool, acts: seq<Act>)

  /** A call as `call_alloc` leaves it. */
  function NewCall(hasMnat: bool): Status { Status(Idle, hasMnat, true, []) }

  function Does(c: Status, a: Act): Status { c.(acts := c.acts + [a]) }

  function AfterConnect(c: Status): Status {
    var c1 := c.(state := Outgoing);
    if !c.hasMnat then Does(c1, SendInvite) else c1
  }

  function AfterAccept(c: Status): Status {
    var c1 := c.(state := Incoming);
    if !c.hasMnat then Does(c1, ReportIncoming) else c1
  }

  function AfterMnat(c: Status, res: Outcome): Status {
    if !res.IsOk() then Does(c, ReportClosed)
    else if !c.mnatWait then Does(c, SendReinvite)
    else
      var c1 := c.(mnatWait := false);
      match c.state
      case Outgoing => Does(c1, SendInvite)
      case Incoming => Does(c1, ReportIncoming)
      case _ => c1
  }

  function AfterProgress(c: Status, scode: nat): Status {
    if scode == 180 then c.(state := Ringing) else if scode == 183 then c.(state := Early) else c
  }

  class Call {
    var state: CallState
    var mnat: bool
    var mnatWait: bool
    var acts: seq<Act>

    ghost function Value(): Status
      reads this
    {
      Status(state, mnat, mnatWait, acts)
    }

    constructor (hasMnat: bool)
      ensures Value() == NewCall(hasMnat)
    {
      state, mnat, mnatWait, acts := CallState.Idle, hasMnat, true, [];
    }

    method CallConnect()
      modifies this`state, this`acts
      ensures Value() == AfterConnect(old(Value()))
    {
      state := Outgoing;
      // with media NAT traversal the INVITE waits until that is done
      if !mnat {
        acts := acts + [SendInvite];
      }
    }

    method CallAccept()
      modifies this`state, this`acts
      ensures Value() == AfterAccept(old(Value()))
    {
      state := CallState.Incoming;
      if !mnat {
        acts := acts + [ReportIncoming];
      }
    }

    /** What the media NAT modules call when they are done, or have failed. */
    method MnatHandler(res: Outcome)
      modifies this`mnatWait, this`acts
      ensures Value() == AfterMnat(old(Value()), res)
    {
      if res.err != 0 {
        acts := acts + [ReportClosed];
        return;
      } else if res.scode != 0 {
        acts := acts + [ReportClosed];
        return;
      }
      if !mnatWait {
        acts := acts + [SendReinvite];
        return;
      }
      mnatWait := false;
      match state {
        case Outgoing =>
          acts := acts + [SendInvite];
        case Incoming =>
          acts := acts + [ReportIncoming];
        case _ =>
      }
    }

    method ProgressHandler(scode: nat)
      modifies this`state
      ensures Value() == AfterProgress(old(Value()), scode)
    {
      match scode {
        case 180 => state := Ringing;
        case 183 => state := Early;
        case _ =>
      }
    }

    method EstabHandler()
      modifies this`state
      ensures Value() == old(Value()).(state := CallState.Established)
    {
      if state == CallState.Established {
        return;
      }
      state := CallState.Established;
    }

    method Hangup()
      modifies this`state
      ensures Value() == old(Value()).(state := Terminated)
    {
      state := Terminated;
    }
  }
}
