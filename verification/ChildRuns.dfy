/**
 What becomes of a call for every answer it can get: which runs give the slot to the next call in line,
 and which ones keep it for good. Other calls may wait all the while.
 */
module ChildRuns {
  import opened HeavyGate
  import opened StartGate
  import opened ChildLifecycle

  function Advances(id: nat, steps: seq<Step>): (events: seq<Event>)
    ensures |events| == |steps|
  {
    seq(|steps|, i requires 0 <= i < |steps| => Advance(id, steps[i]))
  }

  /** The call got the slot and has not spawned anything yet. */
  ghost predicate HasSlot(s: System, id: nat) {
    id in s.runs && s.runs[id].phase.Preparing?
  }

  /** The call is over in the later state, and the first waiter, if there is one, has the slot. */
  ghost predicate PassedOn(s: System, id: nat, t: System) {
    && id in t.runs && t.runs[id].phase.Finished? && id !in t.gate.held
    && (s.gate.queue == [] ==> t.gate.active == 0 && t.gate.held == {} && t.gate.grants == s.gate.grants)
    && (s.gate.queue != [] ==>
          var first := s.gate.queue[0];
          && t.gate.active == 1 && t.gate.held == {first} && t.gate.grants == s.gate.grants + [first]
          && t.gate.queue == s.gate.queue[1..] && first in t.runs && t.runs[first].phase.Preparing?)
  }

  ghost predicate HandsOver(s: System, id: nat, steps: seq<Step>) {
    PassedOn(s, id, SystemRun(s, Advances(id, steps)))
  }

  /** After the steps the call keeps the slot, whatever happens then. */
  ghost predicate Blocks(s: System, id: nat, steps: seq<Step>) {
    forall later :: BlocksWith(s, id, steps, later)
  }

  ghost predicate BlocksWith(s: System, id: nat, steps: seq<Step>, later: seq<Event>) {
    var t := SystemRun(SystemRun(s, Advances(id, steps)), later);
    t.gate.held == {id} && t.gate.grants == s.gate.grants
  }

  /** How many STARTs the call has written after the steps. */
  ghost predicate Starts(s: System, id: nat, steps: seq<Step>, count: nat) {
    var t := SystemRun(s, Advances(id, steps));
    id in t.runs && t.runs[id].owner.starts == count
  }

  // One call among the others

  ghost function After(r: Run, steps: seq<Step>): Run
    decreases |steps|
  {
    if steps == [] then r else After(Next(r, steps[0]), steps[1..])
  }

  /** The call has the slot before each of the steps. */
  ghost predicate HoldsThrough(r: Run, steps: seq<Step>)
    decreases |steps|
  {
    Holds(r) && (steps != [] ==> HoldsThrough(Next(r, steps[0]), steps[1..]))
  }

  lemma {:induction false} OnlyThisCall(s: System, id: nat, steps: seq<Step>)
    requires id in s.runs && HoldsThrough(s.runs[id], steps)
    ensures SystemRun(s, Advances(id, steps)) == s.(runs := s.runs[id := After(s.runs[id], steps)])
    decreases |steps|
  {
    hide Next, Released;
    if steps == [] {
      assert s.runs[id := s.runs[id]] == s.runs;
    } else {
      var r := Next(s.runs[id], steps[0]);
      var t := s.(runs := s.runs[id := r]);
      assert Holds(r);
      assert SystemStep(s, Advance(id, steps[0])) == t;
      assert Advances(id, steps)[0] == Advance(id, steps[0]) && Advances(id, steps)[1..] == Advances(id, steps[1..]);
      OnlyThisCall(t, id, steps[1..]);
      assert t.runs[id := After(r, steps[1..])] == s.runs[id := After(r, steps[1..])];
    }
  }

  lemma {:induction false} RunSplit(s: System, a: seq<Event>, b: seq<Event>)
    ensures SystemRun(s, a + b) == SystemRun(SystemRun(s, a), b)
    decreases |a|
  {
    hide SystemStep;
    if a == [] {
      assert a + b == b;
    } else {
      assert (a + b)[1..] == a[1..] + b;
      RunSplit(SystemStep(s, a[0]), a[1..], b);
    }
  }

  lemma {:induction false} AfterLast(r: Run, steps: seq<Step>, e: Step)
    ensures After(r, steps + [e]) == Next(After(r, steps), e)
    ensures HoldsThrough(r, steps + [e]) <==> HoldsThrough(r, steps) && Holds(Next(After(r, steps), e))
    decreases |steps|
  {
    hide Next, Holds;
    if steps == [] {
      assert [e][1..] == [] && [] + [e] == [e];
      assert After(Next(r, e), []) == Next(r, e);
    } else {
      assert (steps + [e])[1..] == steps[1..] + [e];
      AfterLast(Next(r, steps[0]), steps[1..], e);
    }
  }

  /** A call that reached one of the last phases with the slot in its hands blocks it. */
  lemma Blocked(before: seq<Event>, id: nat, steps: seq<Step>)
    requires HasSlot(SystemRun(IDLE, before), id) && HoldsThrough(NewRun(Preparing), steps)
    requires var p := After(NewRun(Preparing), steps).phase; p.RetainedForever? || p.Abandoned?
    ensures Blocks(SystemRun(IDLE, before), id, steps)
  {
    hide Next, After, HoldsThrough, HasSlot, SystemOk;
    var s := SystemRun(IDLE, before);
    IdleOk();
    SystemKept(IDLE, before);
    PreparingIsNew(s, id);
    OnlyThisCall(s, id, steps);
    RunSplit(IDLE, before, Advances(id, steps));
    SystemKept(IDLE, before + Advances(id, steps));
    forall later ensures BlocksWith(s, id, steps, later) {
      RetainedForGood(SystemRun(s, Advances(id, steps)), id, later);
    }
  }

  lemma IdleOk()
    ensures SystemOk(IDLE)
  {
  }

  lemma PreparingIsNew(s: System, id: nat)
    requires SystemOk(s) && HasSlot(s, id)
    ensures id in s.runs && s.runs[id] == NewRun(Preparing) && id in s.gate.held
  {
    hide GateInvariant, OwnerOk;
  }

  /** A call whose last step finishes it hands the slot over. */
  lemma HandedOver(before: seq<Event>, id: nat, steps: seq<Step>, last: Step)
    requires HasSlot(SystemRun(IDLE, before), id) && HoldsThrough(NewRun(Preparing), steps)
    requires Next(After(NewRun(Preparing), steps), last).phase.Finished?
    ensures HandsOver(SystemRun(IDLE, before), id, steps + [last])
    ensures var count := Next(After(NewRun(Preparing), steps), last).owner.starts;
            Starts(SystemRun(IDLE, before), id, steps + [last], count)
  {
    hide Next, After, HoldsThrough, PassedOn, HasSlot, SystemOk, SystemStep, Holds;
    var s := SystemRun(IDLE, before);
    IdleOk();
    SystemKept(IDLE, before);
    PreparingIsNew(s, id);
    OnlyThisCall(s, id, steps);
    var t := SystemRun(s, Advances(id, steps));
    LastHolds(NewRun(Preparing), steps);
    assert Advances(id, steps + [last]) == Advances(id, steps) + [Advance(id, last)];
    RunSplit(s, Advances(id, steps), [Advance(id, last)]);
    OneEvent(t, Advance(id, last));
    SlotPassed(s, t, id, last);
  }

  lemma OneEvent(s: System, e: Event)
    ensures SystemRun(s, [e]) == SystemStep(s, e)
  {
    hide SystemStep;
    assert [e][1..] == [];
    assert SystemRun(SystemStep(s, e), []) == SystemStep(s, e);
  }

  lemma {:induction false} LastHolds(r: Run, steps: seq<Step>)
    requires HoldsThrough(r, steps)
    ensures Holds(After(r, steps))
    decreases |steps|
  {
    hide Next, Holds;
    if steps != [] {
      LastHolds(Next(r, steps[0]), steps[1..]);
    }
  }

  lemma SlotPassed(s: System, t: System, id: nat, last: Step)
    requires SystemOk(s) && HasSlot(s, id) && id in t.runs && t == s.(runs := s.runs[id := t.runs[id]])
    requires Holds(t.runs[id]) && Next(t.runs[id], last).phase.Finished?
    ensures var u := SystemStep(t, Advance(id, last));
            id in u.runs && u.runs[id] == Next(t.runs[id], last) && PassedOn(s, id, u)
  {
    hide Next, RunOk, GateInvariant;
    ReleaseGateEffect(s.gate, id);
    ReleaseGrants(s.gate, id);
    if s.gate.queue != [] {
      assert s.gate.queue[0] in s.gate.queue && s.gate.queue[0] in s.runs;
    }
  }

  lemma ReleaseGrants(s: GateState, id: nat)
    requires GateInvariant(s) && id in s.held
    ensures var t := GateStep(s, GateEvent.Release(id));
            && (s.queue == [] ==> t.active == 0 && t.held == {} && t.grants == s.grants)
            && (s.queue != [] ==> t.active == 1 && t.grants == s.grants + [s.queue[0]] && t.queue == s.queue[1..])
  {
    assert |s.held - {id}| == |s.held| - 1 == 0;
  }

  // Walking through a run

  /** The steps lead a call that has just got the slot to `r`, and it has the slot all the while. */
  ghost predicate Reaches(steps: seq<Step>, r: Run) {
    HoldsThrough(NewRun(Preparing), steps) && After(NewRun(Preparing), steps) == r
  }

  lemma Begin() returns (steps: seq<Step>, r: Run)
    ensures steps == [] && r == NewRun(Preparing) && Reaches(steps, r)
  {
    steps, r := [], NewRun(Preparing);
  }

  lemma Go(steps: seq<Step>, r: Run, e: Step) returns (more: seq<Step>, q: Run)
    requires Reaches(steps, r) && Holds(Next(r, e))
    ensures more == steps + [e] && q == Next(r, e) && Reaches(more, q)
  {
    hide Next;
    AfterLast(NewRun(Preparing), steps, e);
    more, q := steps + [e], Next(r, e);
  }

  /** A child behind a start gate: its supervisor is awaited. */
  lemma Spawned() returns (steps: seq<Step>, r: Run)
    ensures steps == [Spawn(true, true)] && Reaches(steps, r)
    ensures r == NewRun(Preparing).(spawned := true, rootAlive := true, phase := AwaitSupervisor)
  {
    hide Reaches;
    steps, r := Begin();
    steps, r := Go(steps, r, Spawn(true, true));
    assert steps == [Spawn(true, true)];
  }

  /** START is written, and the pipe has reported about it. */
  lemma Reported(error: bool) returns (steps: seq<Step>, r: Run)
    ensures steps == [Spawn(true, true), SupervisorReady(false), Pipe(Report(error))] && Reaches(steps, r)
    ensures r == NewRun(Preparing).(spawned := true, rootAlive := true, phase := AwaitStart, supervised := true,
                                    owner := Owner(true, false, false, if error then WriteFailed else Written, 1))
  {
    hide Reaches;
    steps, r := Spawned();
    steps, r := Go(steps, r, SupervisorReady(false));
    steps, r := Go(steps, r, Pipe(Report(error)));
    assert steps == [Spawn(true, true), SupervisorReady(false), Pipe(Report(error))];
  }

  /** The run that everything else is an exception to. */
  lemma {:induction false} OrdinaryRun(before: seq<Event>, id: nat, ok: bool)
    requires HasSlot(SystemRun(IDLE, before), id)
    ensures var steps := [Spawn(true, true), SupervisorReady(false), Pipe(Report(false)), StartReported(false, true),
                          Settle, RootExits, Receipt(true), CleanupDone(ok)];
            HandsOver(SystemRun(IDLE, before), id, steps) && Starts(SystemRun(IDLE, before), id, steps, 1)
  {
    hide Reaches, HandsOver, Starts, HasSlot;
    var steps, r := Reported(false);
    steps, r := Go(steps, r, StartReported(false, true));
    steps, r := Go(steps, r, Settle);
    steps, r := Go(steps, r, RootExits);
    steps, r := Go(steps, r, Receipt(true));
    FinishedBy(before, id, steps, r, CleanupDone(ok));
    assert steps + [CleanupDone(ok)]
        == [Spawn(true, true), SupervisorReady(false), Pipe(Report(false)), StartReported(false, true),
            Settle, RootExits, Receipt(true), CleanupDone(ok)];
  }

  lemma FinishedBy(before: seq<Event>, id: nat, steps: seq<Step>, r: Run, last: Step)
    requires HasSlot(SystemRun(IDLE, before), id) && Reaches(steps, r) && Next(r, last).phase.Finished?
    ensures HandsOver(SystemRun(IDLE, before), id, steps + [last])
    ensures Starts(SystemRun(IDLE, before), id, steps + [last], Next(r, last).owner.starts)
  {
    hide Next, HandsOver, Starts, HoldsThrough, After;
    HandedOver(before, id, steps, last);
  }

  lemma BlockedAt(before: seq<Event>, id: nat, steps: seq<Step>, r: Run)
    requires HasSlot(SystemRun(IDLE, before), id) && Reaches(steps, r)
    requires r.phase.RetainedForever? || r.phase.Abandoned?
    ensures Blocks(SystemRun(IDLE, before), id, steps)
  {
    hide Blocks, HoldsThrough, After;
    Blocked(before, id, steps);
  }

  // Endings

  const CLEAN_CLOSE: seq<Step> := [CloseObserved(false), CloseSeen]

  /** A clean-up that succeeds finishes the call; one that fails keeps the slot, unless the call had settled. */
  lemma CleaningEnds(r: Run)
    requires r.phase.Cleaning? && r.phase.site != Settlement
    ensures Next(r, CleanupDone(true)).phase.Finished? && Next(r, CleanupDone(true)).owner == r.owner
    ensures var q := Next(r, CleanupDone(false)); Holds(q) && (q.phase.RetainedForever? || q.phase.Abandoned?)
  {
  }

  lemma CleanedUp(before: seq<Event>, id: nat, steps: seq<Step>, r: Run)
    requires HasSlot(SystemRun(IDLE, before), id) && Reaches(steps, r)
    requires r.phase.Cleaning? && r.phase.site != Settlement
    ensures HandsOver(SystemRun(IDLE, before), id, steps + [CleanupDone(true)])
    ensures Starts(SystemRun(IDLE, before), id, steps + [CleanupDone(true)], r.owner.starts)
    ensures Blocks(SystemRun(IDLE, before), id, steps + [CleanupDone(false)])
  {
    hide Next, Reaches, HandsOver, Blocks, Starts, HasSlot, Holds;
    CleaningEnds(r);
    FinishedBy(before, id, steps, r, CleanupDone(true));
    var more, q := Go(steps, r, CleanupDone(false));
    BlockedAt(before, id, more, q);
  }

  lemma ClosesCleanly(r: Run)
    requires (r.phase.ClosingRoot? || r.phase.RetainedRoot? || r.phase.LateRoot?) && r.close == Unseen && !r.rootAlive
    requires r.spawned && OwnerOk(r.owner)
    ensures var q := Next(r, CloseObserved(false));
            && Holds(q) && Holds(Next(q, CloseSeen)) && Next(q, CloseSeen).phase.Cleaning?
            && Next(q, CloseSeen).phase.site != Settlement && Next(q, CloseSeen).owner.starts == r.owner.starts
  {
  }

  /** Once the root is gone, its clean close and a clean-up free the slot; a failing clean-up keeps it. */
  lemma {:induction false} CleanClose(before: seq<Event>, id: nat, steps: seq<Step>, r: Run)
    requires HasSlot(SystemRun(IDLE, before), id) && Reaches(steps, r)
    requires (r.phase.ClosingRoot? || r.phase.RetainedRoot? || r.phase.LateRoot?) && r.close == Unseen && !r.rootAlive
    requires r.spawned && OwnerOk(r.owner)
    ensures HandsOver(SystemRun(IDLE, before), id, steps + CLEAN_CLOSE + [CleanupDone(true)])
    ensures Starts(SystemRun(IDLE, before), id, steps + CLEAN_CLOSE + [CleanupDone(true)], r.owner.starts)
    ensures Blocks(SystemRun(IDLE, before), id, steps + CLEAN_CLOSE + [CleanupDone(false)])
  {
    hide Next, Reaches, HandsOver, Blocks, Starts, HasSlot, Holds, OwnerOk;
    ClosesCleanly(r);
    var more, q := Go(steps, r, CloseObserved(false));
    more, q := Go(more, q, CloseSeen);
    assert more == steps + CLEAN_CLOSE;
    CleanedUp(before, id, more, q);
  }

  /** A close with an error keeps the root retained for good, while it is awaited and after. */
  lemma {:induction false} ErrorClose(before: seq<Event>, id: nat, steps: seq<Step>, r: Run)
    requires HasSlot(SystemRun(IDLE, before), id) && Reaches(steps, r)
    requires r.phase.ClosingRoot? && r.spawned && r.close == Unseen
    ensures Blocks(SystemRun(IDLE, before), id, steps + [CloseObserved(true), CloseSeen, CloseSeen])
    ensures Blocks(SystemRun(IDLE, before), id, steps + [CloseTimeout, CloseObserved(true), CloseSeen])
  {
    hide Reaches, Blocks, HasSlot, CloseGate;
    var more, q := Go(steps, r, CloseTimeout);
    ErrorAfterTimeout(before, id, more, q);
    assert more + [CloseObserved(true), CloseSeen] == steps + [CloseTimeout, CloseObserved(true), CloseSeen];
    more, q := Go(steps, r, CloseObserved(true));
    more, q := Go(more, q, CloseSeen);
    FailedCloseSeen(before, id, more, q);
    assert more + [CloseSeen] == steps + [CloseObserved(true), CloseSeen, CloseSeen];
  }

  lemma ErrorAfterTimeout(before: seq<Event>, id: nat, steps: seq<Step>, r: Run)
    requires HasSlot(SystemRun(IDLE, before), id) && Reaches(steps, r)
    requires r.phase.RetainedRoot? && r.spawned && r.close == Unseen
    ensures Blocks(SystemRun(IDLE, before), id, steps + [CloseObserved(true), CloseSeen])
  {
    hide Reaches, Blocks, HasSlot, CloseGate;
    var more, q := Go(steps, r, CloseObserved(true));
    FailedCloseSeen(before, id, more, q);
    assert more + [CloseSeen] == steps + [CloseObserved(true), CloseSeen];
  }

  lemma FailedCloseSeen(before: seq<Event>, id: nat, steps: seq<Step>, r: Run)
    requires HasSlot(SystemRun(IDLE, before), id) && Reaches(steps, r)
    requires r.phase.RetainedRoot? && r.close == Failed
    ensures Blocks(SystemRun(IDLE, before), id, steps + [CloseSeen])
  {
    hide Reaches, Blocks, HasSlot, CloseGate;
    var more, q := Go(steps, r, CloseSeen);
    BlockedAt(before, id, more, q);
  }

  /** A root that closes only after the wait for it still frees the slot. */
  lemma {:induction false} LateClose(before: seq<Event>, id: nat, steps: seq<Step>, r: Run)
    requires HasSlot(SystemRun(IDLE, before), id) && Reaches(steps, r)
    requires r.phase.ClosingRoot? && r.spawned && r.close == Unseen && !r.rootAlive && OwnerOk(r.owner)
    ensures HandsOver(SystemRun(IDLE, before), id, steps + [CloseTimeout] + CLEAN_CLOSE + [CleanupDone(true)])
    ensures Blocks(SystemRun(IDLE, before), id, steps + [CloseTimeout] + CLEAN_CLOSE + [CleanupDone(false)])
  {
    hide Reaches, HandsOver, Blocks, HasSlot, Starts, OwnerOk;
    var more, q := Go(steps, r, CloseTimeout);
    CleanClose(before, id, more, q);
  }

  function Unproved(count: nat): seq<Step> {
    seq(count, _ => Receipt(false))
  }

  /** Receipts that prove nothing are counted. */
  lemma {:induction false} Counted(steps: seq<Step>, r: Run, count: nat) returns (more: seq<Step>, q: Run)
    requires Reaches(steps, r) && (r.phase.RetainedExit? || r.phase.LateProof?) && r.phase.attempt == 0
    requires count < MAX_PROOF_ATTEMPTS
    ensures more == steps + Unproved(count) && Reaches(more, q)
    ensures q == r.(phase := if r.phase.RetainedExit? then RetainedExit(count) else LateProof(count))
    decreases count
  {
    hide Reaches;
    if count == 0 {
      more, q := steps, r;
      assert steps + Unproved(0) == steps;
    } else {
      more, q := Counted(steps, r, count - 1);
      more, q := Go(more, q, Receipt(false));
      assert steps + Unproved(count - 1) + [Receipt(false)] == steps + Unproved(count);
    }
  }

  /** A retained tree that is dead is given up with any of the first twenty receipts, and none of the later ones. */
  lemma {:induction false} ProofInTime(before: seq<Event>, id: nat, steps: seq<Step>, r: Run, count: nat)
    requires HasSlot(SystemRun(IDLE, before), id) && Reaches(steps, r) && !TreeAlive(r) && count < MAX_PROOF_ATTEMPTS
    requires (r.phase.RetainedExit? || r.phase.LateProof?) && r.phase.attempt == 0
    ensures HandsOver(SystemRun(IDLE, before), id, steps + Unproved(count) + [Receipt(true)] + [CleanupDone(true)])
    ensures Blocks(SystemRun(IDLE, before), id, steps + Unproved(count) + [Receipt(true)] + [CleanupDone(false)])
    ensures Blocks(SystemRun(IDLE, before), id, steps + Unproved(20))
  {
    hide Reaches, HandsOver, Blocks, HasSlot, Starts, CloseGate;
    var more, q := Counted(steps, r, count);
    more, q := Go(more, q, Receipt(true));
    CleanedUp(before, id, more, q);
    more, q := Counted(steps, r, 19);
    more, q := Go(more, q, Receipt(false));
    assert steps + Unproved(19) + [Receipt(false)] == steps + Unproved(20);
    BlockedAt(before, id, more, q);
  }

  // The supervisor does not get ready

  /** An unclosed helper proves nothing: child and slot are retained for good. */
  lemma {:induction false} UnclosedHelperBlocks(before: seq<Event>, id: nat)
    requires HasSlot(SystemRun(IDLE, before), id)
    ensures Blocks(SystemRun(IDLE, before), id, [Spawn(true, true), SupervisorFailed(HelperUnclosed)])
  {
    hide Reaches, Blocks, HasSlot;
    var steps, r := Spawned();
    steps, r := Go(steps, r, SupervisorFailed(HelperUnclosed));
    assert steps == [Spawn(true, true), SupervisorFailed(HelperUnclosed)];
    BlockedAt(before, id, steps, r);
  }

  /** A root that is already gone only has to close and be cleaned up. */
  lemma {:induction false} GoneRootReleases(before: seq<Event>, id: nat)
    requires HasSlot(SystemRun(IDLE, before), id)
    ensures var s, steps := SystemRun(IDLE, before), [Spawn(true, true), RootExits, SupervisorFailed(RootGone)];
            && HandsOver(s, id, steps + CLEAN_CLOSE + [CleanupDone(true)])
            && Starts(s, id, steps + CLEAN_CLOSE + [CleanupDone(true)], 0)
            && Blocks(s, id, steps + CLEAN_CLOSE + [CleanupDone(false)])
            && Blocks(s, id, steps + [CloseObserved(true), CloseSeen, CloseSeen])
            && Blocks(s, id, steps + [CloseTimeout, CloseObserved(true), CloseSeen])
            && HandsOver(s, id, steps + [CloseTimeout] + CLEAN_CLOSE + [CleanupDone(true)])
            && Blocks(s, id, steps + [CloseTimeout] + CLEAN_CLOSE + [CleanupDone(false)])
  {
    hide Reaches, Blocks, HandsOver, Starts, HasSlot;
    var steps, r := Spawned();
    steps, r := Go(steps, r, RootExits);
    steps, r := Go(steps, r, SupervisorFailed(RootGone));
    assert steps == [Spawn(true, true), RootExits, SupervisorFailed(RootGone)];
    CleanClose(before, id, steps, r);
    ErrorClose(before, id, steps, r);
    LateClose(before, id, steps, r);
  }

  /** After any other failure, or without a start gate, the root is killed through its handle first. */
  lemma {:induction false} KilledRootReleases(before: seq<Event>, id: nat, gate: bool)
    requires HasSlot(SystemRun(IDLE, before), id)
    ensures var s := SystemRun(IDLE, before);
            var failed := if gate then [Spawn(true, true), SupervisorFailed(OtherFailure)] else [Spawn(true, false)];
            && HandsOver(s, id, failed + [HandleKillDone, RootExits] + CLEAN_CLOSE + [CleanupDone(true)])
            && Starts(s, id, failed + [HandleKillDone, RootExits] + CLEAN_CLOSE + [CleanupDone(true)], 0)
            && Blocks(s, id, failed + [HandleKillDone, RootExits] + CLEAN_CLOSE + [CleanupDone(false)])
            && Blocks(s, id, failed + [CaptureThrows])
  {
    hide Reaches, Blocks, HandsOver, Starts, HasSlot;
    var steps, r := Begin();
    if gate {
      steps, r := Spawned();
      steps, r := Go(steps, r, SupervisorFailed(OtherFailure));
      assert steps == [Spawn(true, true), SupervisorFailed(OtherFailure)];
    } else {
      steps, r := Go(steps, r, Spawn(true, false));
      assert steps == [Spawn(true, false)];
    }
    var more, q := Go(steps, r, CaptureThrows);
    BlockedAt(before, id, more, q);
    more, q := Go(steps, r, HandleKillDone);
    more, q := Go(more, q, RootExits);
    assert more == steps + [HandleKillDone, RootExits];
    CleanClose(before, id, more, q);
  }

  /**
   A supervisor that is late is still asked for proof; what else it says keeps the slot, but for a root
   already gone.
   */
  lemma {:induction false} LateSupervisor(before: seq<Event>, id: nat, expired: bool, count: nat)
    requires HasSlot(SystemRun(IDLE, before), id) && count < MAX_PROOF_ATTEMPTS
    ensures var s, late := SystemRun(IDLE, before), [Spawn(true, true), RootExits, StartupTerminated];
            var ready := late + [SupervisorReady(expired)];
            && HandsOver(s, id, ready + Unproved(count) + [Receipt(true)] + [CleanupDone(true)])
            && Blocks(s, id, ready + Unproved(count) + [Receipt(true)] + [CleanupDone(false)])
            && Blocks(s, id, ready + Unproved(20))
            && HandsOver(s, id, late + [SupervisorFailed(RootGone)] + CLEAN_CLOSE + [CleanupDone(true)])
            && Blocks(s, id, late + [SupervisorFailed(RootGone)] + CLEAN_CLOSE + [CleanupDone(false)])
            && Blocks(s, id, late + [SupervisorFailed(HelperUnclosed)])
            && Blocks(s, id, late + [SupervisorFailed(OtherFailure)])
  {
    hide Reaches, Blocks, HandsOver, Starts, HasSlot;
    var steps, r := Spawned();
    steps, r := Go(steps, r, RootExits);
    steps, r := Go(steps, r, StartupTerminated);
    assert steps == [Spawn(true, true), RootExits, StartupTerminated];
    var more, q := Go(steps, r, SupervisorReady(expired));
    ProofInTime(before, id, more, q, count);
    more, q := Go(steps, r, SupervisorFailed(RootGone));
    CleanClose(before, id, more, q);
    more, q := Go(steps, r, SupervisorFailed(HelperUnclosed));
    BlockedAt(before, id, more, q);
    more, q := Go(steps, r, SupervisorFailed(OtherFailure));
    BlockedAt(before, id, more, q);
  }

  // The child does not start

  /** A deadline that passes before START keeps START from being written; the tree is terminated and cleaned up. */
  lemma {:induction false} ExpiredBeforeStart(before: seq<Event>, id: nat)
    requires HasSlot(SystemRun(IDLE, before), id)
    ensures var s := SystemRun(IDLE, before);
            var steps := [Spawn(true, true), SupervisorReady(true), RootExits, Receipt(true)];
            && HandsOver(s, id, steps + [CleanupDone(true)]) && Starts(s, id, steps + [CleanupDone(true)], 0)
            && Blocks(s, id, steps + [CleanupDone(false)])
  {
    hide Reaches, Blocks, HandsOver, Starts, HasSlot;
    var steps, r := Spawned();
    steps, r := Go(steps, r, SupervisorReady(true));
    steps, r := Go(steps, r, RootExits);
    steps, r := Go(steps, r, Receipt(true));
    assert steps == [Spawn(true, true), SupervisorReady(true), RootExits, Receipt(true)];
    CleanedUp(before, id, steps, r);
  }

  /** The same when it passes while START is being written. */
  lemma {:induction false} ExpiredAtStart(before: seq<Event>, id: nat, controlPipe: bool)
    requires HasSlot(SystemRun(IDLE, before), id)
    ensures var s := SystemRun(IDLE, before);
            var steps := [Spawn(true, true), SupervisorReady(false), Pipe(Report(false)),
                          StartReported(true, controlPipe), RootExits, Receipt(true)];
            && HandsOver(s, id, steps + [CleanupDone(true)]) && Starts(s, id, steps + [CleanupDone(true)], 1)
            && Blocks(s, id, steps + [CleanupDone(false)])
  {
    hide Reaches, Blocks, HandsOver, Starts, HasSlot;
    var steps, r := Reported(false);
    steps, r := Go(steps, r, StartReported(true, controlPipe));
    steps, r := Go(steps, r, RootExits);
    steps, r := Go(steps, r, Receipt(true));
    assert steps == [Spawn(true, true), SupervisorReady(false), Pipe(Report(false)), StartReported(true, controlPipe),
                     RootExits, Receipt(true)];
    CleanedUp(before, id, steps, r);
  }

  /** A START that could not be written: after the proof of absence the root's close is awaited as well. */
  lemma {:induction false} FailedStartReleases(before: seq<Event>, id: nat, expired: bool, controlPipe: bool)
    requires HasSlot(SystemRun(IDLE, before), id)
    ensures var s := SystemRun(IDLE, before);
            var steps := [Spawn(true, true), SupervisorReady(false), Pipe(Report(true)),
                          StartReported(expired, controlPipe), RootExits, Receipt(true)];
            && HandsOver(s, id, steps + CLEAN_CLOSE + [CleanupDone(true)])
            && Blocks(s, id, steps + CLEAN_CLOSE + [CleanupDone(false)])
  {
    hide Reaches, Blocks, HandsOver, Starts, HasSlot;
    var steps, r := Reported(true);
    steps, r := Go(steps, r, StartReported(expired, controlPipe));
    steps, r := Go(steps, r, RootExits);
    steps, r := Go(steps, r, Receipt(true));
    assert steps == [Spawn(true, true), SupervisorReady(false), Pipe(Report(true)), StartReported(expired, controlPipe),
                     RootExits, Receipt(true)];
    CleanClose(before, id, steps, r);
  }

  lemma Unstartable() returns (steps: seq<Step>, r: Run)
    ensures steps == [Spawn(true, true), Pipe(Error), SupervisorReady(false)] && Reaches(steps, r)
    ensures r == NewRun(Preparing).(spawned := true, rootAlive := true, phase := Terminating(FailedStart),
                                    supervised := true, owner := Owner(false, true, true, NotStarted, 0))
  {
    hide Reaches;
    steps, r := Spawned();
    steps, r := Go(steps, r, Pipe(Error));
    steps, r := Go(steps, r, SupervisorReady(false));
    assert steps == [Spawn(true, true), Pipe(Error), SupervisorReady(false)];
  }

  /** A pipe that broke before the supervisor was ready gets no START. */
  lemma {:induction false} BrokenPipeReleases(before: seq<Event>, id: nat)
    requires HasSlot(SystemRun(IDLE, before), id)
    ensures var s := SystemRun(IDLE, before);
            var steps := [Spawn(true, true), Pipe(Error), SupervisorReady(false), RootExits, Receipt(true)];
            && HandsOver(s, id, steps + CLEAN_CLOSE + [CleanupDone(true)])
            && Starts(s, id, steps + CLEAN_CLOSE + [CleanupDone(true)], 0)
  {
    hide Reaches, Blocks, HandsOver, Starts, HasSlot;
    var steps, r := Unstartable();
    steps, r := Go(steps, r, RootExits);
    steps, r := Go(steps, r, Receipt(true));
    assert steps == [Spawn(true, true), Pipe(Error), SupervisorReady(false), RootExits, Receipt(true)];
    CleanClose(before, id, steps, r);
  }

  /** And when the start-up is terminated from outside while START is being written. */
  lemma {:induction false} TerminatedAtStart(before: seq<Event>, id: nat)
    requires HasSlot(SystemRun(IDLE, before), id)
    ensures var s := SystemRun(IDLE, before);
            var steps := [Spawn(true, true), SupervisorReady(false), StartupTerminated, RootExits, Receipt(true)];
            && HandsOver(s, id, steps + [CleanupDone(true)]) && Blocks(s, id, steps + [CleanupDone(false)])
  {
    hide Reaches, Blocks, HandsOver, Starts, HasSlot;
    var steps, r := Starting();
    steps, r := Go(steps, r, StartupTerminated);
    steps, r := Go(steps, r, RootExits);
    steps, r := Go(steps, r, Receipt(true));
    assert steps == [Spawn(true, true), SupervisorReady(false), StartupTerminated, RootExits, Receipt(true)];
    CleanedUp(before, id, steps, r);
  }

  lemma Starting() returns (steps: seq<Step>, r: Run)
    ensures steps == [Spawn(true, true), SupervisorReady(false)] && Reaches(steps, r)
    ensures r == NewRun(Preparing).(spawned := true, rootAlive := true, phase := AwaitStart, supervised := true,
                                    owner := Owner(true, false, false, Pending, 1))
  {
    hide Reaches;
    steps, r := Spawned();
    steps, r := Go(steps, r, SupervisorReady(false));
    assert steps == [Spawn(true, true), SupervisorReady(false)];
  }

  /** The four ways in which a start-up comes to be terminated. */
  function Terminations(expired: bool, controlPipe: bool): (heads: seq<seq<Step>>)
    ensures |heads| == 4
  {
    [[Spawn(true, true), SupervisorReady(true)],
     [Spawn(true, true), SupervisorReady(false), StartupTerminated],
     [Spawn(true, true), SupervisorReady(false), Pipe(Report(false)), StartReported(true, controlPipe)],
     [Spawn(true, true), SupervisorReady(false), Pipe(Report(true)), StartReported(expired, controlPipe)]]
  }

  lemma Terminated(expired: bool, controlPipe: bool, k: nat) returns (r: Run)
    requires k < 4
    ensures Reaches(Terminations(expired, controlPipe)[k], r)
    ensures (r.phase == Terminating(ExpiredStartup) || r.phase == Terminating(FailedStart)) && !r.othersAlive
            && r.rootAlive
  {
    hide Reaches;
    var steps;
    if k == 0 {
      steps, r := Spawned();
      steps, r := Go(steps, r, SupervisorReady(true));
    } else if k == 1 {
      steps, r := Starting();
      steps, r := Go(steps, r, StartupTerminated);
    } else {
      steps, r := Reported(k == 3);
      steps, r := Go(steps, r, StartReported(k == 2 || expired, controlPipe));
    }
    assert steps == Terminations(expired, controlPipe)[k];
  }

  /** In each of them a termination without proof is asked for twenty times more. */
  lemma {:induction false} UnprovedStartup(before: seq<Event>, id: nat, expired: bool, controlPipe: bool, k: nat,
      count: nat)
    requires HasSlot(SystemRun(IDLE, before), id) && k < 4 && count < MAX_PROOF_ATTEMPTS
    ensures var s := SystemRun(IDLE, before);
            var steps := Terminations(expired, controlPipe)[k] + [Receipt(false), RootExits];
            && HandsOver(s, id, steps + Unproved(count) + [Receipt(true)] + [CleanupDone(true)])
            && Blocks(s, id, steps + Unproved(count) + [Receipt(true)] + [CleanupDone(false)])
            && Blocks(s, id, steps + Unproved(20))
  {
    hide Reaches, Blocks, HandsOver, Starts, HasSlot, Terminations;
    var r := Terminated(expired, controlPipe, k);
    var steps, q := Go(Terminations(expired, controlPipe)[k], r, Receipt(false));
    steps, q := Go(steps, q, RootExits);
    assert steps == Terminations(expired, controlPipe)[k] + [Receipt(false), RootExits];
    ProofInTime(before, id, steps, q, count);
  }

  // The child runs

  /** A settled call whose tree is not proved absent asks twenty times more. */
  lemma {:induction false} UnprovedExit(before: seq<Event>, id: nat, count: nat)
    requires HasSlot(SystemRun(IDLE, before), id) && count < MAX_PROOF_ATTEMPTS
    ensures var s := SystemRun(IDLE, before);
            var steps := [Spawn(true, true), SupervisorReady(false), Pipe(Report(false)), StartReported(false, true),
                          Settle, Receipt(false), RootExits];
            && HandsOver(s, id, steps + Unproved(count) + [Receipt(true)] + [CleanupDone(true)])
            && Blocks(s, id, steps + Unproved(count) + [Receipt(true)] + [CleanupDone(false)])
            && Blocks(s, id, steps + Unproved(20))
  {
    hide Reaches, Blocks, HandsOver, Starts, HasSlot;
    var steps, r := Reported(false);
    steps, r := Go(steps, r, StartReported(false, true));
    steps, r := Go(steps, r, Settle);
    steps, r := Go(steps, r, Receipt(false));
    steps, r := Go(steps, r, RootExits);
    assert steps == [Spawn(true, true), SupervisorReady(false), Pipe(Report(false)), StartReported(false, true),
                     Settle, Receipt(false), RootExits];
    ProofInTime(before, id, steps, r, count);
  }

  /** A call that gives up before it spawns anything needs no evidence. */
  lemma {:induction false} GivenUpReleases(before: seq<Event>, id: nat)
    requires HasSlot(SystemRun(IDLE, before), id)
    ensures HandsOver(SystemRun(IDLE, before), id, [GiveUp]) && Starts(SystemRun(IDLE, before), id, [GiveUp], 0)
  {
    hide Reaches, HandsOver, Starts, HasSlot;
    var steps, r := Begin();
    FinishedBy(before, id, steps, r, GiveUp);
    assert steps + [GiveUp] == [GiveUp];
  }
}
