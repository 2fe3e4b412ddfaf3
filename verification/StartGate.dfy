/**
 The private pipe that lets a spawned document child start: START is written at most once, and
 never after the pipe was closed or failed.
 */
module StartGate {

  datatype StartOutcome = NotStarted | Pending | Written | WriteFailed

  /** The owner record of the pipe; `starts` counts START frames handed to the stream. */
  datatype Owner = Owner(started: bool, closed: bool, failed: bool, outcome: StartOutcome, starts: nat)

  const FRESH_OWNER: Owner := Owner(false, false, false, NotStarted, 0)

  predicate CanStart(o: Owner) {
    !o.started && !o.closed && !o.failed
  }

  function BeginStart(o: Owner): Owner {
    if CanStart(o) then o.(started := true, outcome := Pending, starts := o.starts + 1) else o
  }

  /** The first report about a pending START decides; later ones are ignored. */
  function SettleStart(o: Owner, error: bool): Owner {
    if o.outcome == Pending then o.(outcome := if error then WriteFailed else Written) else o
  }

  function PipeError(o: Owner): Owner {
    SettleStart(o.(failed := true), true)
  }

  function PipeClosed(o: Owner): Owner {
    SettleStart(o.(closed := true, failed := true), true)
  }

  function CloseGate(o: Owner): Owner {
    if o.closed then o else PipeClosed(o)
  }

  predicate OwnerOk(o: Owner) {
    && o.starts == (if o.started then 1 else 0)
    && (o.outcome == NotStarted <==> !o.started)
    && (o.closed ==> o.failed && o.outcome != Pending)
  }

  datatype OwnerEvent = Start | Report(error: bool) | Error | Closed | Close

  function OwnerStep(o: Owner, e: OwnerEvent): Owner {
    match e
    case Start => BeginStart(o)
    case Report(error) => SettleStart(o, error)
    case Error => PipeError(o)
    case Closed => PipeClosed(o)
    case Close => CloseGate(o)
  }

  function OwnerRun(o: Owner, events: seq<OwnerEvent>): Owner
    decreases |events|
  {
    if events == [] then o else OwnerRun(OwnerStep(o, events[0]), events[1..])
  }

  /**
   Whatever happens to the pipe, START is written at most once, and a closed gate stays closed without a new
   START.
   */
  lemma {:induction false} StartAtMostOnce(o: Owner, events: seq<OwnerEvent>)
    requires OwnerOk(o)
    ensures var p := OwnerRun(o, events);
            && OwnerOk(p) && p.starts <= 1
            && (o.closed ==> p.closed && p.starts == o.starts)
            && (o.started && o.outcome != Pending ==> p.outcome == o.outcome)
    decreases |events|
  {
    if events != [] {
      StartAtMostOnce(OwnerStep(o, events[0]), events[1..]);
    }
  }

  class StartGateOwner {
    var started: bool
    var closed: bool
    var failure: bool
    var settled: StartOutcome
    ghost var starts: nat

    ghost function State(): Owner
      reads this
    {
      Owner(started, closed, failure, settled, starts)
    }

    constructor ()
      ensures State() == FRESH_OWNER
    {
      started, closed, failure, settled, starts := false, false, false, NotStarted, 0;
    }

    /** The closure that the stream callback and the listeners call. */
    method Settle(error: bool)
      modifies this`settled
      ensures State() == SettleStart(old(State()), error)
    {
      if settled != Pending {
        return;
      }
      settled := if error then WriteFailed else Written;
    }

    /** Writes START, or refuses. */
    method WriteStartFrame() returns (written: bool)
      modifies this
      ensures State() == BeginStart(old(State())) && written == CanStart(old(State()))
    {
      if started || closed || failure {
        return false;
      }
      started := true;
      settled := Pending;
      starts := starts + 1;
      return true;
    }

    method OnError()
      modifies this
      ensures State() == PipeError(old(State()))
    {
      failure := true;
      Settle(true);
    }

    method OnClose()
      modifies this
      ensures State() == PipeClosed(old(State()))
    {
      closed := true;
      failure := true;
      Settle(true);
    }

    method CloseStartGate()
      modifies this
      ensures State() == CloseGate(old(State()))
    {
      if closed {
        return;
      }
      closed := true;
      failure := true;
      Settle(true);
    }
  }
}
