/**
 The one-slot gate in front of heavy document children: a state machine over its events, and the
 class that implements it with mutable waiters and release closures.
 */
module HeavyGate {
  import opened Basics

  datatype Outcome = Granted | Cancelled | TimedOut

  /** `acquire` calls are numbered in order; `held` are the grants not yet released, `grants` all grants in order. */
  datatype GateState = GateState(active: nat, queue: seq<nat>, next: nat, outcome: map<nat, Outcome>,
                                 grants: seq<nat>, held: set<nat>)

  datatype GateEvent = Acquire(aborted: bool) | Abort(id: nat) | Deadline(id: nat) | Release(id: nat)

  const OPEN_GATE: GateState := GateState(0, [], 0, map[], [], {})

  function Without(queue: seq<nat>, id: nat): (r: seq<nat>)
    ensures id !in queue ==> r == queue
    ensures forall x :: x in r ==> x in queue
    ensures forall x | x in queue && x != id :: x in r
  {
    if queue == [] then [] else if queue[0] == id then queue[1..] else [queue[0]] + Without(queue[1..], id)
  }

  /** A grant of the slot. */
  function Grant(s: GateState, id: nat): GateState {
    s.(active := 1, outcome := s.outcome[id := Granted], grants := s.grants + [id], held := s.held + {id})
  }

  function Reject(s: GateState, id: nat, why: Outcome): GateState {
    if id in s.queue then s.(queue := Without(s.queue, id), outcome := s.outcome[id := why]) else s
  }

  function GateStep(s: GateState, e: GateEvent): GateState {
    match e
    case Acquire(aborted) =>
      var t := s.(next := s.next + 1);
      if aborted then t.(outcome := t.outcome[s.next := Cancelled])
      else if s.active == 0 then Grant(t, s.next)
      else t.(queue := t.queue + [s.next])
    case Abort(id) => Reject(s, id, Cancelled)
    case Deadline(id) => Reject(s, id, TimedOut)
    case Release(id) =>
      if id !in s.held then s
      else
        var t := s.(active := 0, held := s.held - {id});
        if t.queue == [] then t else Grant(t.(queue := t.queue[1..]), t.queue[0])
  }

  function GateRun(s: GateState, events: seq<GateEvent>): GateState
    decreases |events|
  {
    if events == [] then s else GateRun(GateStep(s, events[0]), events[1..])
  }

  predicate Ascending(s: seq<nat>) {
    forall i, j | 0 <= i < j < |s| :: s[i] < s[j]
  }

  // What every reachable state satisfies

  /** The slot is taken exactly while one grant is unreleased; nobody waits for a free slot. */
  ghost predicate GateInvariant(s: GateState) {
    && s.active == |s.held| <= 1
    && (s.queue != [] ==> s.active == 1)
    && Ascending(s.queue) && Ascending(s.grants)
    && (forall id | id in s.queue :: id < s.next && id !in s.outcome)
    && (forall id: nat | id < s.next && id !in s.queue :: id in s.outcome)
    && (forall id | id in s.outcome :: id < s.next)
    && (forall id | id in s.grants :: id in s.outcome && s.outcome[id] == Granted)
    && (forall id | id in s.outcome && s.outcome[id] == Granted :: id in s.grants)
    && (forall id | id in s.held :: id in s.grants)
    && (forall g, q | g in s.grants && q in s.queue :: g < q)
  }

  lemma PrependAscending(x: nat, s: seq<nat>)
    requires Ascending(s) && forall y | y in s :: x < y
    ensures Ascending([x] + s)
  {
    assert forall k | 0 <= k < |s| :: s[k] in s;
  }

  lemma {:induction false} WithoutAscending(queue: seq<nat>, id: nat)
    requires Ascending(queue)
    ensures Ascending(Without(queue, id)) && id !in Without(queue, id)
  {
    if queue != [] {
      assert Ascending(queue[1..]) && forall y | y in queue[1..] :: queue[0] < y;
      if queue[0] != id {
        WithoutAscending(queue[1..], id);
        PrependAscending(queue[0], Without(queue[1..], id));
      }
    }
  }

  lemma AppendAscending(s: seq<nat>, x: nat)
    requires Ascending(s) && forall y | y in s :: y < x
    ensures Ascending(s + [x])
  {
    assert forall k | 0 <= k < |s| :: s[k] in s;
  }

  lemma EmptyHeld(s: GateState)
    requires GateInvariant(s) && s.active == 0
    ensures s.held == {} && s.queue == []
  {
  }

  lemma {:induction false} RejectKeeps(s: GateState, id: nat, why: Outcome)
    requires GateInvariant(s) && why != Granted
    ensures GateInvariant(Reject(s, id, why))
  {
    if id in s.queue {
      WithoutAscending(s.queue, id);
    }
  }

  lemma {:induction false} AcquireKeeps(s: GateState, aborted: bool)
    requires GateInvariant(s)
    ensures GateInvariant(GateStep(s, Acquire(aborted)))
  {
    if !aborted && s.active != 0 {
      AppendAscending(s.queue, s.next);
    } else if !aborted {
      EmptyHeld(s);
      AppendAscending(s.grants, s.next);
      assert {} + {s.next} == {s.next};
      assert forall id | id in s.grants :: id < s.next;
    }
  }

  lemma {:induction false} ReleaseKeeps(s: GateState, id: nat)
    requires GateInvariant(s)
    ensures GateInvariant(GateStep(s, Release(id)))
  {
    hide GateInvariant;
    if id in s.held {
      if s.queue == [] {
        FreeKeeps(s, id);
      } else {
        HandOverKeeps(s, id);
      }
    }
  }

  lemma {:induction false} FreeKeeps(s: GateState, id: nat)
    requires GateInvariant(s) && id in s.held && s.queue == []
    ensures GateInvariant(s.(active := 0, held := s.held - {id}))
  {
    assert |s.held - {id}| == |s.held| - 1 == 0;
    assert s.held - {id} == {};
  }

  lemma {:induction false} HandOverKeeps(s: GateState, id: nat)
    requires GateInvariant(s) && id in s.held && s.queue != []
    ensures GateInvariant(Grant(s.(active := 0, held := s.held - {id}, queue := s.queue[1..]), s.queue[0]))
  {
    hide Ascending;
    assert |s.held - {id}| == |s.held| - 1 == 0;
    assert s.held - {id} == {};
    assert s.queue[0] in s.queue && forall x | x in s.queue[1..] :: x in s.queue;
    assert {} + {s.queue[0]} == {s.queue[0]};
    AppendAscending(s.grants, s.queue[0]);
    TailAscending(s.queue);
  }

  lemma TailAscending(queue: seq<nat>)
    requires Ascending(queue) && queue != []
    ensures Ascending(queue[1..]) && forall x | x in queue[1..] :: queue[0] < x
  {
  }

  lemma {:induction false} StepKeeps(s: GateState, e: GateEvent)
    requires GateInvariant(s)
    ensures GateInvariant(GateStep(s, e))
  {
    match e
    case Acquire(aborted) => AcquireKeeps(s, aborted);
    case Abort(id) => RejectKeeps(s, id, Cancelled);
    case Deadline(id) => RejectKeeps(s, id, TimedOut);
    case Release(id) => ReleaseKeeps(s, id);
  }

  lemma {:induction false} RunKeeps(s: GateState, events: seq<GateEvent>)
    requires GateInvariant(s)
    ensures GateInvariant(GateRun(s, events))
    decreases |events|
  {
    if events != [] {
      StepKeeps(s, events[0]);
      RunKeeps(GateStep(s, events[0]), events[1..]);
    }
  }

  lemma EveryReachableGate(events: seq<GateEvent>)
    ensures GateInvariant(GateRun(OPEN_GATE, events))
  {
    RunKeeps(OPEN_GATE, events);
  }

  // What later states remember

  /** `t` is later than `s`: settled calls stay as they were settled and grants are only appended. */
  ghost predicate Later(s: GateState, t: GateState) {
    && s.next <= t.next && s.grants <= t.grants
    && (forall id | id in s.outcome :: id in t.outcome && t.outcome[id] == s.outcome[id])
  }

  lemma {:induction false} StepLater(s: GateState, e: GateEvent)
    requires GateInvariant(s)
    ensures Later(s, GateStep(s, e))
  {
  }

  /** Each `acquire` settles at most once. */
  lemma {:induction false} SettledOnce(s: GateState, events: seq<GateEvent>)
    requires GateInvariant(s)
    ensures Later(s, GateRun(s, events))
    decreases |events|
  {
    if events != [] {
      StepKeeps(s, events[0]);
      StepLater(s, events[0]);
      SettledOnce(GateStep(s, events[0]), events[1..]);
    }
  }

  /** Of two waiters, the later one is granted only when the earlier one has been settled, and never before it. */
  lemma FirstComeFirstServed(s: GateState, events: seq<GateEvent>, first: nat, second: nat)
    requires GateInvariant(s) && first < second && second in GateRun(s, events).grants
    ensures var t := GateRun(s, events);
            && first in t.outcome
            && (first in t.grants ==>
                  exists i, j | 0 <= i < j < |t.grants| :: t.grants[i] == first && t.grants[j] == second)
  {
    hide GateInvariant, GateRun;
    RunKeeps(s, events);
    EarlierFirst(GateRun(s, events), first, second);
  }

  lemma EarlierFirst(t: GateState, first: nat, second: nat)
    requires GateInvariant(t) && first < second && second in t.grants
    ensures first in t.outcome
    ensures first in t.grants ==>
              exists i, j | 0 <= i < j < |t.grants| :: t.grants[i] == first && t.grants[j] == second
  {
    if first in t.grants {
      var i :| 0 <= i < |t.grants| && t.grants[i] == first;
      var j :| 0 <= j < |t.grants| && t.grants[j] == second;
      assert i < j;
    }
  }

  /** Releasing twice is releasing once, whatever happens in between. */
  lemma {:induction false} ReleasedForGood(s: GateState, id: nat, events: seq<GateEvent>)
    requires GateInvariant(s) && id in s.outcome && id !in s.held
    ensures var t := GateRun(s, events); id !in t.held && GateStep(t, Release(id)) == t
    decreases |events|
  {
    if events != [] {
      StepKeeps(s, events[0]);
      StepLater(s, events[0]);
      NotRegranted(s, id, events[0]);
      ReleasedForGood(GateStep(s, events[0]), id, events[1..]);
    }
  }

  lemma {:induction false} NotRegranted(s: GateState, id: nat, e: GateEvent)
    requires GateInvariant(s) && id in s.outcome && id !in s.held
    ensures id !in GateStep(s, e).held
  {
  }

  /** Why a call settles: an abort cancels it, a deadline times it out, a release grants it, and nothing else does. */
  lemma {:induction false} WhySettled(s: GateState, e: GateEvent, id: nat)
    requires GateInvariant(s) && id in s.queue
    ensures var t := GateStep(s, e);
            && (id in t.outcome && t.outcome[id] == Cancelled <==> e == GateEvent.Abort(id))
            && (id in t.outcome && t.outcome[id] == TimedOut <==> e == GateEvent.Deadline(id))
            && (id in t.outcome && t.outcome[id] == Granted <==> e.Release? && e.id in s.held && s.queue[0] == id)
  {
  }

  /** A new call is cancelled if it is aborted already, granted if the slot is free, and waits otherwise. */
  lemma {:induction false} HowArrived(s: GateState, aborted: bool)
    requires GateInvariant(s)
    ensures var t := GateStep(s, GateEvent.Acquire(aborted));
            && (s.next in t.outcome && t.outcome[s.next] == Cancelled <==> aborted)
            && (s.next in t.outcome && t.outcome[s.next] == Granted <==> !aborted && s.held == {})
            && (s.next in t.queue <==> !aborted && s.held != {})
  {
  }

  // The gate itself

  lemma FirstIsLess(queue: seq<nat>, k: nat)
    requires Ascending(queue) && 0 < k < |queue|
    ensures queue[0] < queue[k] && Ascending(queue[1..])
  {
  }

  /** A queued call stands in the queue once. */
  lemma {:induction false} WithoutAt(queue: seq<nat>, k: nat)
    requires Ascending(queue) && k < |queue|
    ensures Without(queue, queue[k]) == queue[..k] + queue[k + 1..]
  {
    hide Ascending;
    if k > 0 {
      FirstIsLess(queue, k);
      WithoutAt(queue[1..], k - 1);
      assert [queue[0]] + (queue[1..][..k - 1] + queue[1..][k..]) == queue[..k] + queue[k + 1..];
    }
  }

  lemma WithdrawEffect(s: GateState, id: nat, why: Outcome)
    requires GateInvariant(s) && id in s.queue
    ensures Reject(s, id, why) == s.(queue := Without(s.queue, id), outcome := s.outcome[id := why])
    ensures id !in s.held && id !in Without(s.queue, id)
    ensures forall k | 0 <= k < |s.queue| && s.queue[k] == id :: Without(s.queue, id) == s.queue[..k] + s.queue[k + 1..]
    ensures forall i, j | 0 <= i < j < |s.queue| :: s.queue[i] != s.queue[j]
  {
    WithoutAscending(s.queue, id);
    forall k | 0 <= k < |s.queue| && s.queue[k] == id ensures Without(s.queue, id) == s.queue[..k] + s.queue[k + 1..] {
      WithoutAt(s.queue, k);
    }
  }

  /** Nobody queued has been settled or holds the slot, and nobody is queued twice. */
  ghost predicate CanGrant(s: GateState) {
    && (forall q | q in s.queue :: q !in s.outcome && q !in s.held && q < s.next)
    && forall i, j | 0 <= i < j < |s.queue| :: s.queue[i] != s.queue[j]
  }

  /** A call that has been made is queued until it is settled. */
  lemma QueuedOrSettled(s: GateState, id: nat)
    requires GateInvariant(s) && id < s.next
    ensures id in s.queue <==> id !in s.outcome
  {
  }

  lemma ReleaseEffect(s: GateState, id: nat)
    requires GateInvariant(s) && id in s.held
    ensures CanGrant(s.(held := s.held - {id})) && s.held == {id}
  {
    assert |s.held - {id}| == |s.held| - 1 == 0;
    assert s.held - {id} == {};
    assert s.held == {id};
  }

  lemma AcquireEffect(s: GateState, aborted: bool)
    requires GateInvariant(s)
    ensures var t := GateStep(s, Acquire(aborted));
            && t.next == s.next + 1 && s.next !in s.queue && s.next !in s.outcome && s.next !in s.held
            && (aborted ==> t == s.(next := t.next, outcome := s.outcome[s.next := Cancelled]))
            && (!aborted && s.active == 0 ==>
                  t == s.(next := t.next, active := 1, outcome := s.outcome[s.next := Granted],
                          grants := s.grants + [s.next],
                          held := {s.next}))
            && (!aborted && s.active != 0 ==> t == s.(next := t.next, queue := s.queue + [s.next]))
            && (s.active == 0 ==> s.held == {})
  {
    if s.active == 0 {
      EmptyHeld(s);
      assert {} + {s.next} == {s.next};
    }
  }

  /** A queued `acquire`: the promise it settles and the flag that guards it. */
  class GateWaiter {
    ghost const id: nat
    var active: bool
    var settled: Option<Outcome>

    constructor (ghost id: nat)
      ensures this.id == id && active && settled == None
    {
      this.id := id;
      active := true;
      settled := None;
    }
  }

  /** The closure handed to the holder of the slot, with its own `released` flag. */
  class ReleaseOnce {
    ghost const id: nat
    var released: bool

    constructor (ghost id: nat)
      ensures this.id == id && !released
    {
      this.id := id;
      released := false;
    }
  }

  datatype AcquireResult = Rejected | Now(release: ReleaseOnce) | Queued(waiter: GateWaiter)

  ghost predicate QueueAgrees(waiters: seq<GateWaiter>, queue: seq<nat>, calls: map<nat, GateWaiter>) {
    |waiters| == |queue| && forall i | 0 <= i < |waiters| :: queue[i] in calls && calls[queue[i]] == waiters[i]
  }

  ghost predicate CallsAgree(calls: map<nat, GateWaiter>, outcome: map<nat, Outcome>, next: nat)
    reads calls.Values
  {
    forall id | id in calls ::
      && id < next && calls[id].id == id && calls[id].active == (id !in outcome)
      && calls[id].settled == if id in outcome then Some(outcome[id]) else None
  }

  ghost predicate ReleasesAgree(releases: map<nat, ReleaseOnce>, held: set<nat>)
    reads releases.Values
  {
    && (forall id | id in held :: id in releases)
    && (forall id | id in releases :: releases[id].id == id && releases[id].released == (id !in held))
  }

  lemma QueueMember(waiters: seq<GateWaiter>, queue: seq<nat>, calls: map<nat, GateWaiter>, id: nat)
    requires QueueAgrees(waiters, queue, calls) && id in queue
    ensures id in calls && calls[id] in waiters
  {
  }

  lemma QueueAt(waiters: seq<GateWaiter>, queue: seq<nat>, calls: map<nat, GateWaiter>, k: nat)
    requires QueueAgrees(waiters, queue, calls) && k < |waiters|
    ensures |queue| == |waiters| && queue[k] in calls && calls[queue[k]] == waiters[k]
  {
  }

  lemma QueueLengths(waiters: seq<GateWaiter>, queue: seq<nat>, calls: map<nat, GateWaiter>)
    requires QueueAgrees(waiters, queue, calls)
    ensures |queue| == |waiters|
  {
  }

  lemma CallAgrees(calls: map<nat, GateWaiter>, outcome: map<nat, Outcome>, next: nat)
    requires CallsAgree(calls, outcome, next)
    ensures forall id | id in calls :: calls[id].id == id && calls[id].active == (id !in outcome)
  {
  }

  lemma QueueWithout(waiters: seq<GateWaiter>, queue: seq<nat>, calls: map<nat, GateWaiter>, k: nat)
    requires QueueAgrees(waiters, queue, calls) && k < |queue|
    ensures QueueAgrees(waiters[..k] + waiters[k + 1..], queue[..k] + queue[k + 1..], calls)
  {
  }

  class HeavyChildGate {
    var active: nat
    var waiters: seq<GateWaiter>
    ghost var state: GateState
    ghost var calls: map<nat, GateWaiter>
    ghost var releases: map<nat, ReleaseOnce>

    ghost predicate Valid()
      reads this, calls.Values, releases.Values
    {
      GateInvariant(state) && Consistent()
    }

    /** The fields and every waiter and closure ever handed out agree with the abstract state. */
    ghost predicate Consistent()
      reads this, calls.Values, releases.Values
    {
      && active == state.active && QueueAgrees(waiters, state.queue, calls)
      && CallsAgree(calls, state.outcome, state.next) && ReleasesAgree(releases, state.held)
    }

    constructor ()
      ensures Valid() && state == OPEN_GATE && calls == map[] && releases == map[]
    {
      active, waiters, state, calls, releases := 0, [], OPEN_GATE, map[], map[];
    }

    /** The slot is free: take it. */
    method TakeSlot() returns (release: ReleaseOnce)
      requires Valid() && state.active == 0
      modifies this
      ensures Valid() && state == GateStep(old(state), GateEvent.Acquire(false))
      ensures fresh(release) && releases == old(releases)[old(state.next) := release] && calls == old(calls)
    {
      hide GateInvariant, GateStep;
      StepKeeps(state, GateEvent.Acquire(false));
      AcquireEffect(state, false);
      active := 1;
      release := new ReleaseOnce(state.next);
      releases := releases[state.next := release];
      state := GateStep(state, GateEvent.Acquire(false));
    }

    /** The slot is taken: wait for it. */
    method Enqueue() returns (waiter: GateWaiter)
      requires Valid() && state.active != 0
      modifies this
      ensures Valid() && state == GateStep(old(state), GateEvent.Acquire(false))
      ensures fresh(waiter) && calls == old(calls)[old(state.next) := waiter] && releases == old(releases)
    {
      hide GateInvariant, GateStep;
      StepKeeps(state, GateEvent.Acquire(false));
      AcquireEffect(state, false);
      waiter := new GateWaiter(state.next);
      calls := calls[state.next := waiter];
      waiters := waiters + [waiter];
      state := GateStep(state, GateEvent.Acquire(false));
    }

    method Acquire(aborted: bool) returns (r: AcquireResult)
      requires Valid()
      modifies this
      ensures Valid() && state == GateStep(old(state), GateEvent.Acquire(aborted))
      ensures r.Rejected? <==> aborted
      ensures r.Now? <==> !aborted && old(state.active) == 0
      ensures r.Now? ==>
                fresh(r.release) && releases == old(releases)[old(state.next) := r.release] && calls == old(calls)
      ensures r.Queued? ==>
                fresh(r.waiter) && calls == old(calls)[old(state.next) := r.waiter] && releases == old(releases)
    {
      hide GateInvariant, GateStep;
      if aborted {
        StepKeeps(state, GateEvent.Acquire(true));
        AcquireEffect(state, true);
        state := GateStep(state, GateEvent.Acquire(true));
        return Rejected;
      }
      if active == 0 {
        var release := TakeSlot();
        return Now(release);
      }
      var waiter := Enqueue();
      return Queued(waiter);
    }

    /** Take a waiter out of the queue, where it stands. */
    method RemoveWaiter(waiter: GateWaiter) returns (ghost k: nat)
      requires waiter in waiters
      modifies this`waiters
      ensures k < |old(waiters)| && old(waiters)[k] == waiter
      ensures waiters == old(waiters)[..k] + old(waiters)[k + 1..]
    {
      var index := 0;
      while waiters[index] != waiter
        invariant 0 <= index < |waiters| && waiter in waiters[index..]
        decreases |waiters| - index
      {
        index := index + 1;
      }
      waiters := waiters[..index] + waiters[index + 1..];
      k := index;
    }

    /** A waiter that is still queued leaves the queue and is rejected. */
    method Withdraw(waiter: GateWaiter, why: Outcome)
      requires Valid() && waiter in calls.Values && why != Granted && waiter.active
      modifies this`waiters, this`state, waiter
      ensures Valid() && state == Reject(old(state), waiter.id, why)
      ensures !waiter.active && waiter.settled == Some(why)
    {
      hide GateInvariant, Without, Reject, QueueAgrees, ReleasesAgree;
      QueuedOrSettled(state, waiter.id);
      RejectKeeps(state, waiter.id, why);
      WithdrawEffect(state, waiter.id, why);
      QueueMember(waiters, state.queue, calls, waiter.id);
      waiter.active := false;
      ghost var k := RemoveWaiter(waiter);
      QueueAt(old(waiters), state.queue, calls, k);
      QueueWithout(old(waiters), state.queue, calls, k);
      waiter.settled := Some(why);
      state := Reject(state, waiter.id, why);
    }

    /** The abort listener and the deadline timer of a waiter; both do nothing once it has settled. */
    method Cancel(waiter: GateWaiter, why: Outcome)
      requires Valid() && waiter in calls.Values && why != Granted
      modifies this`waiters, this`state, waiter
      ensures Valid() && state == Reject(old(state), waiter.id, why)
      ensures !waiter.active && waiter.settled == if old(waiter.active) then Some(why) else old(waiter.settled)
    {
      hide GateInvariant, Without;
      QueuedOrSettled(state, waiter.id);
      if !waiter.active {
        return;
      }
      Withdraw(waiter, why);
    }

    /** The abort of a waiting call is its cancellation. */
    method OnAbort(waiter: GateWaiter)
      requires Valid() && waiter in calls.Values
      modifies this`waiters, this`state, waiter
      ensures Valid() && state == GateStep(old(state), GateEvent.Abort(waiter.id))
      ensures waiter.settled == if old(waiter.active) then Some(Cancelled) else old(waiter.settled)
    {
      hide GateInvariant, Without, Reject;
      Cancel(waiter, Cancelled);
    }

    /** The deadline of a waiting call is its time-out. */
    method OnDeadline(waiter: GateWaiter)
      requires Valid() && waiter in calls.Values
      modifies this`waiters, this`state, waiter
      ensures Valid() && state == GateStep(old(state), GateEvent.Deadline(waiter.id))
      ensures waiter.settled == if old(waiter.active) then Some(TimedOut) else old(waiter.settled)
    {
      hide GateInvariant, Without, Reject;
      Cancel(waiter, TimedOut);
    }

    /** Drop settled waiters from the front until one is still waiting. */
    method ShiftWaiter() returns (next: GateWaiter?)
      modifies this`waiters
      ensures next == null ==> waiters == [] && forall i | 0 <= i < |old(waiters)| :: !old(waiters)[i].active
      ensures next != null ==> exists k :: 0 <= k < |old(waiters)| && next == old(waiters)[k] && next.active
                                           && waiters == old(waiters)[k + 1..]
                                             && forall i | 0 <= i < k :: !old(waiters)[i].active
    {
      ghost var k := 0;
      while |waiters| > 0
        invariant 0 <= k <= |old(waiters)| && waiters == old(waiters)[k..]
        invariant forall i | 0 <= i < k :: !old(waiters)[i].active
        decreases |waiters|
      {
        var waiter := waiters[0];
        waiters := waiters[1..];
        if !waiter.active {
          k := k + 1;
          continue;
        }
        return waiter;
      }
      return null;
    }

    /** A waiter's promise is settled. */
    method Settle(waiter: GateWaiter, why: Outcome)
      requires CallsAgree(calls, state.outcome, state.next) && waiter in calls.Values && waiter.id !in state.outcome
      modifies waiter
      ensures CallsAgree(calls, state.outcome[waiter.id := why], state.next)
    {
      waiter.active := false;
      waiter.settled := Some(why);
    }

    /** The closure for a new grant. */
    method NewRelease(ghost id: nat) returns (release: ReleaseOnce)
      requires ReleasesAgree(releases, state.held)
      modifies this`releases
      ensures ReleasesAgree(releases, state.held + {id})
      ensures fresh(release) && releases == old(releases)[id := release]
    {
      release := new ReleaseOnce(id);
      releases := releases[id := release];
    }

    /** The free slot is given to the first waiter there is. */
    method GrantNext()
      requires Consistent() && CanGrant(state)
      modifies this, waiters
      ensures Consistent()
      ensures state == if old(state).queue == [] then old(state)
                       else Grant(old(state).(queue := old(state).queue[1..]), old(state).queue[0])
    {
      hide QueueAgrees, CallsAgree, ReleasesAgree;
      CallAgrees(calls, state.outcome, state.next);
      ghost var queued := waiters;
      QueueLengths(queued, state.queue, calls);
      if queued != [] {
        QueueAt(queued, state.queue, calls, 0);
        QueueWithout(queued, state.queue, calls, 0);
        assert queued[0].active;
      }
      var waiter := ShiftWaiter();
      assert |queued| > 0 ==> queued[0].active;
      assert queued != [] ==> queued[..0] + queued[1..] == queued[1..];
      assert queued != [] ==> state.queue[..0] + state.queue[1..] == state.queue[1..];
      if waiter != null {
        Settle(waiter, Granted);
        active := 1;
        var release := NewRelease(waiter.id);
        state := Grant(state.(queue := state.queue[1..]), state.queue[0]);
      }
    }

    /** The slot is given up, and passed on. */
    method PassOn(release: ReleaseOnce)
      requires Valid() && release in releases.Values && !release.released
      modifies this, release, waiters
      ensures Valid() && state == GateStep(old(state), GateEvent.Release(release.id))
    {
      hide GateInvariant, QueueAgrees;
      ReleaseKeeps(state, release.id);
      ReleaseEffect(state, release.id);
      release.released := true;
      active := 0;
      state := state.(active := 0, held := state.held - {release.id});
      GrantNext();
    }

    /** What calling a release closure does; a second call has no effect. */
    method Release(release: ReleaseOnce)
      requires Valid() && release in releases.Values
      modifies this, release, waiters
      ensures Valid() && state == GateStep(old(state), GateEvent.Release(release.id))
    {
      hide GateInvariant;
      if release.released {
        return;
      }
      PassOn(release);
    }
  }
}
