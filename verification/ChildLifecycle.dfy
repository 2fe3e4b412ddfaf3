/**
 Any number of concurrent `run` calls on one document child client, from the gate to the release
 of the slot. Supervisors, clocks, aborts, pipes and processes choose freely among the events; the
 only assumption about them is that they do not lie: a close without error comes after the root
 process has exited, a `gone` receipt after the whole tree has, and a gated root starts nothing
 before START has been written to it.
 */
module ChildLifecycle {
  import opened HeavyGate
  import opened StartGate

  datatype Close = Unseen | Clean | Failed

  /** Why the tree is being terminated. */
  datatype Cause = ExpiredStartup | FailedStart | Settled

  /** Which code awaits the clean-up; it decides what a failing clean-up does. */
  datatype CleanupSite = PreDispatch | Startup | Settlement | Retention

  datatype Phase =
    | Waiting | Rejected | Preparing
    | HandleKill | ClosingRoot | AwaitSupervisor | AwaitStart | Terminating(cause: Cause) | Running
    | Cleaning(site: CleanupSite)
    | RetainedExit(attempt: nat) | RetainedLate | LateProof(attempt: nat) | LateRoot | RetainedRoot
    | RetainedForever | Abandoned | Finished

  const MAX_PROOF_ATTEMPTS: nat := 20

  /** One call: where the client is, what it owns and was told, and what is true of its processes. */
  datatype Run = Run(phase: Phase, owner: Owner, supervised: bool, gone: bool, close: Close,
                     spawned: bool, rootAlive: bool, othersAlive: bool)

  datatype SupervisorFailure = HelperUnclosed | RootGone | OtherFailure

  datatype Step =
    // reactions of the client
    | GiveUp | Spawn(alive: bool, gate: bool) | CaptureThrows
    | HandleKillDone | CloseSeen | CloseTimeout
    | SupervisorReady(expired: bool) | SupervisorFailed(why: SupervisorFailure) | StartupTerminated
    | StartReported(expired: bool, controlPipe: bool) | Settle
    | Receipt(proved: bool) | CleanupDone(ok: bool)
    // the environment
    | Pipe(event: OwnerEvent) | CloseObserved(error: bool) | RootExits | OthersStart | OthersExit

  function NewRun(phase: Phase): Run {
    Run(phase, FRESH_OWNER, false, false, Unseen, false, false, false)
  }

  /** The slot belongs to the call. */
  predicate Holds(r: Run) {
    !(r.phase.Waiting? || r.phase.Rejected? || r.phase.Finished?)
  }

  predicate TreeAlive(r: Run) {
    r.rootAlive || r.othersAlive
  }

  /** What the processes and pipes can do; a receipt and a close without error do not lie. */
  predicate Possible(r: Run, e: Step) {
    match e
    case Pipe(event) => r.spawned && !event.Start? && !event.Close?
    case CloseObserved(error) => r.spawned && r.close == Unseen && (error || !r.rootAlive)
    case RootExits => r.rootAlive
    case OthersStart => r.rootAlive && r.owner.starts > 0
    case OthersExit => r.othersAlive
    case Receipt(proved) => proved ==> !TreeAlive(r)
    case CloseSeen => r.close != Unseen
    case StartReported(_, _) => r.owner.outcome != Pending
    case _ => true
  }

  function Closing(r: Run): Run {
    r.(owner := CloseGate(r.owner))
  }

  /** The verified terminator of a supervisor answers. */
  function Answered(r: Run, proved: bool): Run {
    if proved then Closing(r).(gone := true) else r
  }

  function AfterReceipt(r: Run, proved: bool): Run {
    var s := Answered(r, proved);
    match r.phase
    case Terminating(ExpiredStartup) => s.(phase := if proved then Cleaning(Startup) else RetainedExit(0))
    case Terminating(FailedStart) => s.(phase := if proved then ClosingRoot else RetainedExit(0))
    case Terminating(Settled) => s.(phase := if proved then Cleaning(Settlement) else RetainedExit(0))
    case RetainedExit(n) =>
      s.(phase := if proved then Cleaning(Retention) else if n + 1 < MAX_PROOF_ATTEMPTS then RetainedExit(n + 1)
        else RetainedForever)
    case LateProof(n) =>
      s.(phase := if proved then Cleaning(Retention) else if n + 1 < MAX_PROOF_ATTEMPTS then LateProof(n + 1)
        else RetainedForever)
    case _ => r
  }

  function AfterCleanup(r: Run, ok: bool): Run {
    match r.phase
    case Cleaning(Settlement) => r.(phase := Finished)
    case Cleaning(Retention) => r.(phase := if ok then Finished else RetainedForever)
    case Cleaning(_) => r.(phase := if ok then Finished else Abandoned)
    case _ => r
  }

  function AfterClose(r: Run): Run {
    match r.phase
    case ClosingRoot => if r.close == Clean then Closing(r).(phase := Cleaning(PreDispatch))
      else r.(phase := RetainedRoot)
    case RetainedRoot => if r.close == Clean then Closing(r).(phase := Cleaning(Retention))
      else r.(phase := RetainedForever)
    case LateRoot => if r.close == Clean then Closing(r).(phase := Cleaning(Retention))
      else r.(phase := RetainedForever)
    case _ => r
  }

  function AfterReady(r: Run, expired: bool): Run {
    match r.phase
    case AwaitSupervisor =>
      var s := r.(supervised := true);
      if expired then Closing(s).(phase := Terminating(ExpiredStartup))
      else if CanStart(s.owner) then s.(owner := BeginStart(s.owner), phase := AwaitStart)
      else Closing(s).(phase := Terminating(FailedStart))
    case RetainedLate => r.(supervised := true, phase := LateProof(0))
    case _ => r
  }

  function AfterSupervisorFailure(r: Run, why: SupervisorFailure): Run {
    match r.phase
    case AwaitSupervisor =>
      Closing(r).(phase := match why case HelperUnclosed => RetainedForever case RootGone => ClosingRoot
        case OtherFailure => HandleKill)
    case RetainedLate => r.(phase := if why.RootGone? then LateRoot else RetainedForever)
    case _ => r
  }

  function AfterStart(r: Run, expired: bool, controlPipe: bool): Run {
    if !r.phase.AwaitStart? then r
    else if r.owner.outcome != Written then Closing(r).(phase := Terminating(FailedStart))
    else if expired then Closing(r).(phase := Terminating(ExpiredStartup))
    else r.(phase := if controlPipe then Running else Abandoned)
  }

  /** What a possible event does to a call; an event the phase does not await changes nothing. */
  function Next(r: Run, e: Step): Run {
    if !Possible(r, e) then r
    else
      match e
      case GiveUp => if r.phase.Preparing? then r.(phase := Finished) else r
      case Spawn(alive, gate) =>
        if r.phase.Preparing? then
          r.(spawned := true, rootAlive := alive, phase := if gate then AwaitSupervisor else HandleKill,
             owner := if gate then r.owner else CloseGate(r.owner))
        else r
      case CaptureThrows => if r.phase.HandleKill? then r.(phase := Abandoned) else r
      case HandleKillDone => if r.phase.HandleKill? then r.(phase := ClosingRoot) else r
      case CloseSeen => AfterClose(r)
      case CloseTimeout => if r.phase.ClosingRoot? then r.(phase := RetainedRoot) else r
      case SupervisorReady(expired) => AfterReady(r, expired)
      case SupervisorFailed(why) => AfterSupervisorFailure(r, why)
      case StartupTerminated =>
        if r.phase.AwaitSupervisor? then Closing(r).(phase := RetainedLate)
        else if r.phase.AwaitStart? then Closing(r).(phase := Terminating(ExpiredStartup))
        else r
      case StartReported(expired, controlPipe) => AfterStart(r, expired, controlPipe)
      case Settle => if r.phase.Running? then r.(phase := Terminating(Settled)) else r
      case Receipt(proved) => AfterReceipt(r, proved)
      case CleanupDone(ok) => AfterCleanup(r, ok)
      case Pipe(event) => r.(owner := OwnerStep(r.owner, event))
      case CloseObserved(error) => r.(close := if error then Failed else Clean)
      case RootExits => r.(rootAlive := false)
      case OthersStart => r.(othersAlive := true)
      case OthersExit => r.(othersAlive := false)
  }

  // All calls together

  datatype System = System(gate: GateState, runs: map<nat, Run>)

  datatype Event = Arrive(aborted: bool) | CancelWaiting(id: nat) | ExpireWaiting(id: nat)
    | Advance(id: nat, step: Step)

  const IDLE: System := System(OPEN_GATE, map[])

  function Arrived(s: System, aborted: bool): System {
    var phase := if aborted then Phase.Rejected else if s.gate.active == 0 then Preparing else Waiting;
    System(GateStep(s.gate, GateEvent.Acquire(aborted)), s.runs[s.gate.next := NewRun(phase)])
  }

  function Withdrawn(s: System, id: nat, e: GateEvent): System {
    if id in s.runs && s.runs[id].phase.Waiting?
    then System(GateStep(s.gate, e), s.runs[id := s.runs[id].(phase := Phase.Rejected)])
    else s
  }

  /** A released slot goes to the head of the queue, whose call starts preparing. */
  function Released(s: System, id: nat): System {
    var gate := GateStep(s.gate, GateEvent.Release(id));
    var queue := s.gate.queue;
    System(gate, if queue == [] || queue[0] !in s.runs then s.runs
      else s.runs[queue[0] := s.runs[queue[0]].(phase := Preparing)])
  }

  function Advanced(s: System, id: nat, step: Step): System {
    if id !in s.runs then s
    else
      var r := Next(s.runs[id], step);
      var t := s.(runs := s.runs[id := r]);
      if Holds(s.runs[id]) && !Holds(r) then Released(t, id) else t
  }

  function SystemStep(s: System, e: Event): System {
    match e
    case Arrive(aborted) => Arrived(s, aborted)
    case CancelWaiting(id) => Withdrawn(s, id, GateEvent.Abort(id))
    case ExpireWaiting(id) => Withdrawn(s, id, GateEvent.Deadline(id))
    case Advance(id, step) => Advanced(s, id, step)
  }

  function SystemRun(s: System, events: seq<Event>): System
    decreases |events|
  {
    if events == [] then s else SystemRun(SystemStep(s, events[0]), events[1..])
  }

  // One call

  /** Enough is known to let the next call spawn: the tree was proved gone, or its root closed before START. */
  predicate Evidence(r: Run) {
    r.gone || (r.close == Clean && r.owner.starts == 0)
  }

  ghost predicate RunOk(r: Run) {
    && OwnerOk(r.owner)
    // nothing lies
    && (r.gone ==> !TreeAlive(r)) && (r.close == Clean ==> !r.rootAlive)
    && (TreeAlive(r) ==> r.spawned) && (r.othersAlive ==> r.owner.starts > 0)
    // START needs a supervisor
    && (r.owner.starts > 0 ==> r.supervised && r.spawned)
    // what each phase knows
    && (r.phase.Waiting? || r.phase.Rejected? || r.phase.Preparing? ==> r == NewRun(r.phase))
    && (Holds(r) && !r.phase.Preparing? ==> r.spawned)
    && (r.phase.HandleKill? || r.phase.AwaitSupervisor? || r.phase.RetainedLate? || r.phase.LateRoot?
      ==> r.owner.starts == 0)
    && (r.phase.RetainedLate? || r.phase.LateRoot? || r.phase.LateProof? ==> r.owner.closed)
    && (r.phase.ClosingRoot? || r.phase.RetainedRoot? ==> r.gone || (r.owner.starts == 0 && r.owner.closed))
    && (r.phase.HandleKill? ==> r.owner.closed)
    && (r.phase.Cleaning? || (r.phase.Finished? && r.spawned) ==> Evidence(r) && r.owner.closed)
    && (r.phase.RetainedExit? || r.phase.LateProof? ==> r.phase.attempt < MAX_PROOF_ATTEMPTS)
  }

  lemma OwnerKept(o: Owner, e: OwnerEvent)
    requires OwnerOk(o)
    ensures OwnerOk(OwnerStep(o, e)) && (o.closed ==> OwnerStep(o, e).closed)
    ensures !e.Start? || o.closed ==> OwnerStep(o, e).starts == o.starts
  {
  }

  lemma OwnerClosed(o: Owner)
    requires OwnerOk(o)
    ensures OwnerOk(CloseGate(o)) && CloseGate(o).closed && CloseGate(o).starts == o.starts
  {
  }

  lemma WorldKept(r: Run, e: Step)
    requires RunOk(r) && (e.CloseObserved? || e.RootExits? || e.OthersStart? || e.OthersExit?)
    ensures RunOk(Next(r, e))
  {
  }

  lemma ReceiptKept(r: Run, proved: bool)
    requires RunOk(r) && (proved ==> !TreeAlive(r))
    ensures RunOk(AfterReceipt(r, proved))
  {
  }

  lemma CleanupKept(r: Run, ok: bool)
    requires RunOk(r)
    ensures RunOk(AfterCleanup(r, ok))
  {
  }

  lemma CloseKept(r: Run)
    requires RunOk(r) && r.close != Unseen
    ensures RunOk(AfterClose(r))
  {
  }

  lemma ReadyKept(r: Run, expired: bool)
    requires RunOk(r)
    ensures RunOk(AfterReady(r, expired))
  {
  }

  lemma FailureKept(r: Run, why: SupervisorFailure)
    requires RunOk(r)
    ensures RunOk(AfterSupervisorFailure(r, why))
  {
  }

  lemma StartKept(r: Run, expired: bool, controlPipe: bool)
    requires RunOk(r)
    ensures RunOk(AfterStart(r, expired, controlPipe))
  {
    hide OwnerOk, CloseGate;
    OwnerClosed(r.owner);
  }

  lemma PrepareKept(r: Run, e: Step)
    requires RunOk(r) && (e.GiveUp? || e.Spawn?)
    ensures RunOk(Next(r, e))
  {
    hide OwnerOk, CloseGate;
    OwnerClosed(r.owner);
  }

  lemma HandleKept(r: Run, e: Step)
    requires RunOk(r) && (e.CaptureThrows? || e.HandleKillDone? || e.CloseTimeout? || e.Settle?)
    ensures RunOk(Next(r, e))
  {
    hide OwnerOk;
  }

  lemma TerminatedKept(r: Run)
    requires RunOk(r)
    ensures RunOk(Next(r, StartupTerminated))
  {
    hide OwnerOk, CloseGate;
    OwnerClosed(r.owner);
  }

  lemma PipeKept(r: Run, event: OwnerEvent)
    requires RunOk(r) && Possible(r, Pipe(event))
    ensures RunOk(r.(owner := OwnerStep(r.owner, event)))
  {
    hide OwnerStep, OwnerOk;
    OwnerKept(r.owner, event);
  }

  /** Every event keeps the invariant of a call, in every phase. */
  lemma RunKept(r: Run, e: Step)
    requires RunOk(r)
    ensures RunOk(Next(r, e))
  {
    hide RunOk, AfterReceipt, AfterCleanup, AfterClose, AfterReady, AfterSupervisorFailure, AfterStart, OwnerStep,
      CloseGate;
    if Possible(r, e) {
      match e
      case Receipt(proved) => ReceiptKept(r, proved);
      case CleanupDone(ok) => CleanupKept(r, ok);
      case CloseSeen => CloseKept(r);
      case SupervisorReady(expired) => ReadyKept(r, expired);
      case SupervisorFailed(why) => FailureKept(r, why);
      case StartReported(expired, controlPipe) => StartKept(r, expired, controlPipe);
      case Pipe(event) => PipeKept(r, event);
      case CloseObserved(_) => WorldKept(r, e);
      case RootExits => WorldKept(r, e);
      case OthersStart => WorldKept(r, e);
      case OthersExit => WorldKept(r, e);
      case GiveUp => PrepareKept(r, e);
      case Spawn(_, _) => PrepareKept(r, e);
      case StartupTerminated => TerminatedKept(r);
      case _ => HandleKept(r, e);
    }
  }

  /** The call has no slot, or keeps it for good. */
  predicate Final(r: Run) {
    !Holds(r) || r.phase.RetainedForever? || r.phase.Abandoned?
  }

  /** How phases move: final ones stay, waiting is left only through the gate, the slot only by finishing. */
  predicate PhaseMoves(r: Run, t: Run) {
    && (Final(r) ==> t.phase == r.phase)
    && (r.phase.Waiting? <==> t.phase.Waiting?)
    && (Holds(r) && !Holds(t) ==> t.phase.Finished?)
  }

  lemma AnswerMoves(r: Run, proved: bool, ok: bool)
    ensures PhaseMoves(r, AfterReceipt(r, proved)) && PhaseMoves(r, AfterCleanup(r, ok))
  {
    hide CloseGate;
  }

  lemma CloseMoves(r: Run)
    ensures PhaseMoves(r, AfterClose(r))
  {
    hide CloseGate;
  }

  lemma StartupMoves(r: Run, expired: bool, controlPipe: bool, why: SupervisorFailure)
    ensures PhaseMoves(r, AfterReady(r, expired)) && PhaseMoves(r, AfterSupervisorFailure(r, why))
    ensures PhaseMoves(r, AfterStart(r, expired, controlPipe))
  {
    hide CloseGate, CanStart, BeginStart;
  }

  lemma NextMoves(r: Run, e: Step)
    ensures PhaseMoves(r, Next(r, e))
  {
    hide OwnerStep, CloseGate, Possible, AfterReceipt, AfterCleanup, AfterClose, AfterReady, AfterSupervisorFailure,
      AfterStart;
    match e
    case Receipt(proved) => AnswerMoves(r, proved, false);
    case CleanupDone(ok) => AnswerMoves(r, false, ok);
    case CloseSeen => CloseMoves(r);
    case SupervisorReady(expired) => StartupMoves(r, expired, false, OtherFailure);
    case SupervisorFailed(why) => StartupMoves(r, false, false, why);
    case StartReported(expired, controlPipe) => StartupMoves(r, expired, controlPipe, OtherFailure);
    case _ =>
  }

  /** The last phases are final: a slot given up is not taken back, and a slot retained for good is not given up. */
  lemma FinalPhases(r: Run, e: Step)
    requires !Holds(r) || r.phase.RetainedForever? || r.phase.Abandoned?
    ensures Next(r, e).phase == r.phase
  {
    hide Next;
    NextMoves(r, e);
  }

  /** With evidence, the tree is dead. */
  lemma EvidenceMeansDead(r: Run)
    requires RunOk(r) && Evidence(r)
    ensures !TreeAlive(r)
  {
  }

  /** Giving the slot up needs evidence about whatever was spawned, and leaves no living tree. */
  lemma SlotGivenUp(r: Run, e: Step)
    requires RunOk(r) && Holds(r) && !Holds(Next(r, e))
    ensures Next(r, e).phase.Finished? && (Next(r, e).spawned ==> Evidence(Next(r, e))) && !TreeAlive(Next(r, e))
  {
    hide Next, OwnerOk;
    RunKept(r, e);
    NextMoves(r, e);
    if Next(r, e).spawned {
      EvidenceMeansDead(Next(r, e));
    }
  }

  // The system

  /** Every call is well-formed, and the gate knows which calls wait and which one holds the slot. */
  ghost predicate SystemOk(s: System) {
    && GateInvariant(s.gate)
    && (forall id | id in s.runs :: id < s.gate.next)
    && (forall id: nat | id < s.gate.next :: id in s.runs)
    && (forall id | id in s.runs :: RunOk(s.runs[id]))
    && (forall id | id in s.runs :: Holds(s.runs[id]) <==> id in s.gate.held)
    && (forall id | id in s.runs :: s.runs[id].phase.Waiting? <==> id in s.gate.queue)
  }

  /** What the gate does, as far as the calls are concerned. */
  lemma {:induction false} GateEffect(s: GateState, e: GateEvent)
    requires GateInvariant(s)
    ensures var t := GateStep(s, e);
            && GateInvariant(t) && t.next == (if e.Acquire? then s.next + 1 else s.next)
            && (e == GateEvent.Acquire(true) ==> t.held == s.held && t.queue == s.queue)
            && (e == GateEvent.Acquire(false) && s.active == 0
              ==> t.held == {s.next} && s.held == {} && t.queue == s.queue == [])
            && (e == GateEvent.Acquire(false) && s.active != 0 ==> t.held == s.held && t.queue == s.queue + [s.next])
            && (e.Abort? || e.Deadline? ==>
                  t.held == s.held && (forall q: nat :: q in t.queue <==> q in s.queue && q != e.id))
    ensures s.next !in s.queue && s.next !in s.held && forall q | q in s.queue :: q !in s.held
  {
    StepKeeps(s, e);
    if e.Acquire? {
      AcquireEffect(s, e.aborted);
      if s.active == 0 { EmptyHeld(s); }
    } else if (e.Abort? || e.Deadline?) && e.id in s.queue {
      WithoutAscending(s.queue, e.id);
    }
  }

  lemma {:induction false} ReleaseGateEffect(s: GateState, id: nat)
    requires GateInvariant(s) && id in s.held
    ensures var t := GateStep(s, GateEvent.Release(id));
            && GateInvariant(t) && t.next == s.next && s.held == {id} && id !in s.queue
            && (s.queue == [] ==> t.held == {} && t.queue == [])
            && (s.queue != [] ==>
                  t.held == {s.queue[0]} && (forall q: nat :: q in t.queue <==> q in s.queue && q != s.queue[0]))
  {
    StepKeeps(s, GateEvent.Release(id));
    ReleaseEffect(s, id);
    if s.queue != [] {
      assert {} + {s.queue[0]} == {s.queue[0]};
      assert s.queue == [s.queue[0]] + s.queue[1..];
    }
  }

  lemma {:induction false} ArriveKept(s: System, aborted: bool)
    requires SystemOk(s)
    ensures SystemOk(Arrived(s, aborted))
  {
    hide GateInvariant, GateStep, RunOk;
    NewRunOk();
    GateEffect(s.gate, GateEvent.Acquire(aborted));
  }

  lemma {:induction false} WithdrawKept(s: System, id: nat, e: GateEvent)
    requires SystemOk(s) && (e == GateEvent.Abort(id) || e == GateEvent.Deadline(id))
    ensures SystemOk(Withdrawn(s, id, e))
  {
    hide GateInvariant, GateStep, RunOk;
    NewRunOk();
    if id in s.runs && s.runs[id].phase.Waiting? {
      WaitingIsNew(s.runs[id]);
      GateEffect(s.gate, e);
    }
  }

  lemma {:induction false} AdvanceKept(s: System, id: nat, step: Step)
    requires SystemOk(s)
    ensures SystemOk(Advanced(s, id, step))
  {
    hide GateInvariant, GateStep, Next, RunOk;
    if id in s.runs {
      RunKept(s.runs[id], step);
      if !Holds(s.runs[id]) {
        FinalPhases(s.runs[id], step);
      }
      SlotKept(s.runs[id], step);
      if Holds(s.runs[id]) && !Holds(Next(s.runs[id], step)) {
        ReleaseGateEffect(s.gate, id);
        NewRunOk();
        if s.gate.queue != [] {
          assert s.gate.queue[0] in s.gate.queue && s.gate.queue[0] in s.runs;
          SlotKept(s.runs[s.gate.queue[0]], step);
        }
      }
    }
  }

  lemma WaitingIsNew(r: Run)
    requires RunOk(r) && r.phase.Waiting?
    ensures r == NewRun(Waiting)
  {
    hide OwnerOk;
  }

  lemma NewRunOk()
    ensures RunOk(NewRun(Waiting)) && RunOk(NewRun(Preparing)) && RunOk(NewRun(Phase.Rejected))
  {
  }

  /** Waiting is left only through the gate. */
  lemma SlotKept(r: Run, e: Step)
    requires RunOk(r)
    ensures r.phase.Waiting? <==> Next(r, e).phase.Waiting?
    ensures r.phase.Waiting? ==> r == NewRun(Waiting)
  {
    hide Next, OwnerOk;
    NextMoves(r, e);
  }

  lemma {:induction false} SystemKept(s: System, events: seq<Event>)
    requires SystemOk(s)
    ensures SystemOk(SystemRun(s, events))
    decreases |events|
  {
    if events != [] {
      StepKept(s, events[0]);
      SystemKept(SystemStep(s, events[0]), events[1..]);
    }
  }

  lemma {:induction false} StepKept(s: System, e: Event)
    requires SystemOk(s)
    ensures SystemOk(SystemStep(s, e))
  {
    hide SystemOk, Arrived, Withdrawn, Advanced;
    match e
    case Arrive(aborted) => ArriveKept(s, aborted);
    case CancelWaiting(id) => WithdrawKept(s, id, GateEvent.Abort(id));
    case ExpireWaiting(id) => WithdrawKept(s, id, GateEvent.Deadline(id));
    case Advance(id, step) => AdvanceKept(s, id, step);
  }

  // The theorems

  /**
   In every interleaving at most one call has a living tree, and it holds the slot; a call that
   spawned and gave the slot up had proof that its tree was gone, or saw its root close before START.
   */
  lemma {:induction false} OneTreeAtATime(events: seq<Event>)
    ensures var s := SystemRun(IDLE, events);
            && (forall id | id in s.runs && TreeAlive(s.runs[id]) :: id in s.gate.held)
            && (forall i, j | i in s.runs && j in s.runs && TreeAlive(s.runs[i]) && TreeAlive(s.runs[j]) :: i == j)
            && (s.gate.active == 0 ==> forall id | id in s.runs :: !TreeAlive(s.runs[id]))
            && (forall id | id in s.runs && s.runs[id].spawned && id !in s.gate.held ::
                  Evidence(s.runs[id]) && !TreeAlive(s.runs[id]))
  {
    SystemKept(IDLE, events);
    var s := SystemRun(IDLE, events);
    OneHeld(s.gate);
    forall id | id in s.runs && TreeAlive(s.runs[id]) ensures id in s.gate.held {
      AliveHolds(s.runs[id]);
    }
    forall id | id in s.runs && s.runs[id].spawned && id !in s.gate.held
      ensures Evidence(s.runs[id]) && !TreeAlive(s.runs[id])
    {
      AliveHolds(s.runs[id]);
    }
  }

  lemma AliveHolds(r: Run)
    requires RunOk(r)
    ensures TreeAlive(r) ==> Holds(r)
    ensures r.spawned && !Holds(r) ==> Evidence(r)
  {
  }

  lemma OneHeld(s: GateState)
    requires GateInvariant(s)
    ensures (s.active == 0 ==> s.held == {}) && forall i, j | i in s.held && j in s.held :: i == j
  {
    if s.held != {} {
      var i :| i in s.held;
      assert |s.held - {i}| == 0;
    }
  }

  /** START is written at most once in a call, and only at the moment supervision is ready and the gate is open. */
  lemma {:induction false} StartOnceSupervised(events: seq<Event>, id: nat)
    requires id in SystemRun(IDLE, events).runs
    ensures var r := SystemRun(IDLE, events).runs[id]; r.owner.starts <= 1 && (r.owner.starts == 1 ==> r.supervised)
  {
    SystemKept(IDLE, events);
  }

  lemma StartsWhenReady(r: Run, e: Step)
    requires Next(r, e).owner.starts != r.owner.starts
    ensures e == SupervisorReady(false) && r.phase.AwaitSupervisor? && CanStart(r.owner)
    ensures Next(r, e).supervised && Next(r, e).owner.starts == r.owner.starts + 1
  {
    hide OwnerStep, CloseGate, AfterReceipt, AfterCleanup, AfterClose, AfterReady, AfterSupervisorFailure, AfterStart;
    ClosingWritesNothing(r.owner);
    match e
    case Pipe(event) => PipeWritesNothing(r.owner, event);
    case Receipt(proved) => AnswersWriteNothing(r, proved);
    case CleanupDone(ok) => CleanupWritesNothing(r, ok);
    case CloseSeen => CloseWritesNothing(r);
    case SupervisorFailed(why) => StartupWritesNothing(r, why, false, false);
    case StartReported(expired, controlPipe) => StartupWritesNothing(r, OtherFailure, expired, controlPipe);
    case SupervisorReady(expired) => ReadyWrites(r, expired);
    case _ =>
  }

  lemma ClosingWritesNothing(o: Owner)
    ensures CloseGate(o).starts == o.starts
  {
  }

  lemma PipeWritesNothing(o: Owner, e: OwnerEvent)
    requires !e.Start?
    ensures OwnerStep(o, e).starts == o.starts
  {
  }

  lemma AnswersWriteNothing(r: Run, b: bool)
    ensures AfterReceipt(r, b).owner.starts == r.owner.starts
  {
    hide CloseGate;
    ClosingWritesNothing(r.owner);
  }

  lemma CleanupWritesNothing(r: Run, ok: bool)
    ensures AfterCleanup(r, ok).owner.starts == r.owner.starts
  {
  }

  lemma CloseWritesNothing(r: Run)
    ensures AfterClose(r).owner.starts == r.owner.starts
  {
    hide CloseGate;
    ClosingWritesNothing(r.owner);
  }

  lemma StartupWritesNothing(r: Run, why: SupervisorFailure, expired: bool, controlPipe: bool)
    ensures AfterSupervisorFailure(r, why).owner.starts == r.owner.starts
    ensures AfterStart(r, expired, controlPipe).owner.starts == r.owner.starts
  {
  }

  lemma ReadyWrites(r: Run, expired: bool)
    requires AfterReady(r, expired).owner.starts != r.owner.starts
    ensures !expired && r.phase.AwaitSupervisor? && CanStart(r.owner)
    ensures AfterReady(r, expired).supervised && AfterReady(r, expired).owner.starts == r.owner.starts + 1
  {
  }

  /** A slot that is retained or abandoned for good is never granted to anyone again. */
  lemma {:induction false} RetainedForGood(s: System, id: nat, events: seq<Event>)
    requires SystemOk(s) && id in s.runs && (s.runs[id].phase.RetainedForever? || s.runs[id].phase.Abandoned?)
    ensures var t := SystemRun(s, events);
            id in t.runs && t.runs[id].phase == s.runs[id].phase && t.gate.held == {id}
              && t.gate.grants == s.gate.grants
    decreases |events|
  {
    OneHeld(s.gate);
    assert s.gate.held == {id};
    if events != [] {
      StepKept(s, events[0]);
      StaysRetained(s, id, events[0]);
      RetainedForGood(SystemStep(s, events[0]), id, events[1..]);
    }
  }

  lemma {:induction false} StaysRetained(s: System, id: nat, e: Event)
    requires SystemOk(s) && id in s.runs && (s.runs[id].phase.RetainedForever? || s.runs[id].phase.Abandoned?)
    requires s.gate.held == {id} && s.gate.active == 1
    ensures var t := SystemStep(s, e);
            id in t.runs && t.runs[id].phase == s.runs[id].phase && t.gate.grants == s.gate.grants
  {
    hide Next, RunOk, GateInvariant;
    if e.Advance? && e.id in s.runs {
      if !Holds(s.runs[e.id]) || e.id == id {
        FinalPhases(s.runs[e.id], e.step);
      }
    } else if e.Arrive? {
      GateEffect(s.gate, GateEvent.Acquire(e.aborted));
    }
  }

  /**
   A child without its control pipe is neither terminated nor released: the run throws with a
   living tree, and no later call is ever granted the slot.
   */
  lemma {:induction false} MissingControlPipe(events: seq<Event>)
    ensures var start := [Arrive(false), Advance(0, Spawn(true, true)), Advance(0, SupervisorReady(false)),
                          Advance(0, Pipe(Report(false))), Advance(0, StartReported(false, false))];
            var s := SystemRun(SystemRun(IDLE, start), events);
            TreeAlive(SystemRun(IDLE, start).runs[0]) && s.gate.held == {0} && s.gate.grants == [0]
  {
    var r1 := NewRun(Preparing).(spawned := true, rootAlive := true, phase := AwaitSupervisor);
    var r2 := r1.(supervised := true, owner := BeginStart(FRESH_OWNER), phase := AwaitStart);
    var r3 := r2.(owner := SettleStart(r2.owner, false));
    var r4 := r3.(phase := Abandoned);
    var gate := GateStep(OPEN_GATE, GateEvent.Acquire(false));
    assert gate == GateState(1, [], 1, map[0 := Granted], [0], {0});
    var s1 := System(gate, map[0 := NewRun(Preparing)]);
    assert SystemStep(IDLE, Arrive(false)) == s1;
    var s2, s3, s4, s5 := System(gate, map[0 := r1]), System(gate, map[0 := r2]), System(gate, map[0 := r3]),
      System(gate, map[0 := r4]);
    assert SystemStep(s1, Advance(0, Spawn(true, true))) == s2;
    assert SystemStep(s2, Advance(0, SupervisorReady(false))) == s3;
    assert SystemStep(s3, Advance(0, Pipe(Report(false)))) == s4;
    assert SystemStep(s4, Advance(0, StartReported(false, false))) == s5;
    Unrolled(IDLE, Arrive(false), Advance(0, Spawn(true, true)), Advance(0, SupervisorReady(false)),
             Advance(0, Pipe(Report(false))), Advance(0, StartReported(false, false)));
    SystemKept(IDLE, [Arrive(false), Advance(0, Spawn(true, true)), Advance(0, SupervisorReady(false)),
                      Advance(0, Pipe(Report(false))), Advance(0, StartReported(false, false))]);
    RetainedForGood(s5, 0, events);
  }

  lemma Unrolled(s: System, a: Event, b: Event, c: Event, d: Event, e: Event)
    ensures SystemRun(s, [a, b, c, d, e])
            == SystemStep(SystemStep(SystemStep(SystemStep(SystemStep(s, a), b), c), d), e)
  {
    assert [a, b, c, d, e][1..] == [b, c, d, e] && [b, c, d, e][1..] == [c, d, e] && [c, d, e][1..] == [d, e];
    assert [d, e][1..] == [e] && [e][1..] == [];
    hide SystemStep;
    var s1 := SystemStep(s, a);
    assert SystemRun(s, [a, b, c, d, e]) == SystemRun(s1, [b, c, d, e]);
    var s2 := SystemStep(s1, b);
    assert SystemRun(s1, [b, c, d, e]) == SystemRun(s2, [c, d, e]);
    var s3 := SystemStep(s2, c);
    assert SystemRun(s2, [c, d, e]) == SystemRun(s3, [d, e]);
    assert SystemRun(SystemStep(s3, d), [e]) == SystemStep(SystemStep(s3, d), e);
  }
}
