/** The coordinator as the object it is: one method per event, each proved to take the protocol's step. */
module Coordinator {
  import opened Basics
  import opened Bytes
  import opened Registration

  function Nonces(frames: seq<Frame>): (r: seq<string>)
    ensures |r| == |frames|
  {
    seq(|frames|, i requires 0 <= i < |frames| => frames[i].nonce)
  }

  function Pids(frames: seq<Frame>): (r: seq<nat>)
    ensures |r| == |frames|
  {
    seq(|frames|, i requires 0 <= i < |frames| => frames[i].pid)
  }

  /** The set holds exactly the elements of a sequence without duplicates. */
  ghost predicate Holds<T(!new)>(elements: set<T>, s: seq<T>) {
    |elements| == |s| && forall x: T :: x in elements <==> x in s
  }

  lemma HoldsMore<T(!new)>(elements: set<T>, s: seq<T>, x: T)
    requires Holds(elements, s) && x !in elements
    ensures Holds(elements + {x}, s + [x])
  {
  }

  lemma HoldsNone<T(!new)>()
    ensures Holds<T>({}, [])
  {
  }

  lemma MoreFrames(frames: seq<Frame>, f: Frame)
    ensures Nonces(frames + [f]) == Nonces(frames) + [f.nonce] && Pids(frames + [f]) == Pids(frames) + [f.pid]
  {
  }

  lemma KnownBySets(nonces: set<string>, pids: set<nat>, frames: seq<Frame>, f: Frame)
    requires Holds(nonces, Nonces(frames)) && Holds(pids, Pids(frames))
    ensures Known(frames, f) <==> f.nonce in nonces || f.pid in pids
    ensures |nonces| == |frames|
  {
    if f.nonce in nonces {
      var i :| 0 <= i < |frames| && Nonces(frames)[i] == f.nonce;
      assert frames[i].nonce == f.nonce;
    }
    if f.pid in pids {
      var i :| 0 <= i < |frames| && Pids(frames)[i] == f.pid;
      assert frames[i].pid == f.pid;
    }
    if Known(frames, f) {
      var i :| 0 <= i < |frames| && (frames[i].nonce == f.nonce || frames[i].pid == f.pid);
      assert Nonces(frames)[i] in Nonces(frames) && Pids(frames)[i] in Pids(frames);
    }
  }

  /** One turn of the line loop. */
  lemma ConsumeTurn(o: Options, s: State, rest: Bytes)
    requires rest != []
    ensures var newline := FindByte(rest, NEWLINE);
            var end := if newline.Some? then newline.value + 1 else |rest|;
            Consume(o, s, rest)
            == if |s.input.pending| + end > MAX_FRAME_BYTES then Fail(s, Channel)
               else if newline.None? then Consume(o, WithPending(s, s.input.pending + rest[..end]), rest[end..])
               else
                 var t := Reserve(o, WithPending(s, []), s.input.pending + rest[..end]);
                 if t.status.phase == Failed then t
                 else if end < |rest| && t.jobs.inFlight != 0 then Fail(t, Channel)
                 else Consume(o, t, rest[end..])
  {
    hide Reserve;
    assert rest[..|rest|] == rest && rest[|rest|..] == [];
  }

  lemma ConsumeNothing(o: Options, s: State)
    ensures Consume(o, s, []) == s
  {
  }

  class ProcessRegistrationCoordinator {
    const options: Options
    var phase: Phase
    var poisonReason: Option<Reason>
    var started: bool
    var closingRequested: bool
    var readableEnded: bool
    var readableClosed: bool
    var caseExited: bool
    var channelBytes: nat
    var pendingFrame: Bytes
    var inFlightRegistrations: nat
    var retainedGroups: nat
    var nonces: set<string>
    var pids: set<nat>
    var queue: seq<Job>
    var running: Running
    var enqueued: nat
    var finished: nat
    var late: seq<Frame>
    var cleanups: nat
    var seal: SealStage
    var ackClosed: Option<bool>
    ghost var frames: seq<Frame>
    ghost var retained: seq<Frame>
    ghost var acks: seq<Ack>

    ghost function Model(): State
      reads this
    {
      State(
        Status(phase, poisonReason),
        Input(started, closingRequested, readableEnded, readableClosed, caseExited, channelBytes, pendingFrame),
        Jobs(inFlightRegistrations, queue, running, enqueued, finished, late, frames, retained, acks, cleanups),
        seal, ackClosed)
    }

    /** The sets and the counter say what the histories say. */
    ghost predicate Valid()
      reads this
    {
      Holds(nonces, Nonces(frames)) && Holds(pids, Pids(frames)) && retainedGroups == |retained|
    }

    constructor (options: Options)
      ensures Valid() && Model() == START && this.options == options
    {
      this.options := options;
      phase, poisonReason := Open, None;
      started, closingRequested, readableEnded, readableClosed, caseExited := false, false, false, false, false;
      channelBytes, pendingFrame, inFlightRegistrations, retainedGroups := 0, [], 0, 0;
      nonces, pids, queue, running, enqueued, finished, late, cleanups := {}, {}, [], Idle, 0, 0, [], 0;
      seal, ackClosed, frames, retained, acks := NotAsked, None, [], [], [];
      HoldsNone<string>();
      HoldsNone<nat>();
      assert Nonces([]) == [] && Pids([]) == [];
    }

    method FailWith(reason: Reason)
      requires Valid()
      modifies this`phase, this`poisonReason
      ensures Valid() && Model() == Fail(old(Model()), reason)
    {
      hide Holds, Nonces, Pids;
      if poisonReason == None {
        poisonReason := Some(reason);
      }
      phase := Failed;
    }

    /** A new frame takes the one place in flight and joins the queue. */
    method Admit(frame: Frame)
      requires Holds(nonces, Nonces(frames)) && Holds(pids, Pids(frames)) && frame.nonce !in nonces
               && frame.pid !in pids
      modifies this`nonces, this`pids, this`frames, this`inFlightRegistrations, this`queue, this`enqueued
      ensures Holds(nonces, Nonces(frames)) && Holds(pids, Pids(frames)) && frames == old(frames) + [frame]
      ensures inFlightRegistrations == old(inFlightRegistrations) + 1
      ensures queue == old(queue) + [Register(frame)] && enqueued == old(enqueued) + 1
    {
      hide *;
      HoldsMore(nonces, Nonces(frames), frame.nonce);
      HoldsMore(pids, Pids(frames), frame.pid);
      MoreFrames(frames, frame);
      nonces := nonces + {frame.nonce};
      pids := pids + {frame.pid};
      frames := frames + [frame];
      inFlightRegistrations := inFlightRegistrations + 1;
      queue := queue + [Register(frame)];
      enqueued := enqueued + 1;
    }

    method ReserveAndQueue(line: Bytes)
      requires Valid()
      modifies this
      ensures Valid() && Model() == Reserve(options, old(Model()), line)
    {
      hide Holds, Nonces, Pids, Known;
      if phase == Failed || phase == Sealed {
        return;
      }
      var read := options.parse(line);
      if read == None {
        FailWith(Channel);
        return;
      }
      var frame := read.value;
      KnownBySets(nonces, pids, frames, frame);
      if frame.nonce in nonces || frame.pid in pids || |nonces| >= MAX_GROUPS || inFlightRegistrations != 0 {
        FailWith(Channel);
        return;
      }
      Admit(frame);
    }

    /** The data listener of the registration channel. */
    method OnData(chunk: Bytes)
      requires Valid()
      modifies this
      ensures Valid() && Model() == Receive(options, old(Model()), chunk)
    {
      hide Consume, Holds, Nonces, Pids;
      channelBytes := channelBytes + |chunk|;
      if channelBytes > MAX_CHANNEL_BYTES {
        FailWith(Channel);
        return;
      }
      if phase == Failed {
        return;
      }
      if inFlightRegistrations != 0 {
        FailWith(Channel);
        return;
      }
      TakeLines(chunk);
    }

    /** The line loop: lines are cut off at newlines, and none may overtake a registration in flight. */
    method TakeLines(chunk: Bytes)
      requires Valid()
      modifies this
      ensures Valid() && Model() == Consume(options, old(Model()), chunk)
    {
      hide Consume, Reserve, FindByte, Holds, Nonces, Pids;
      ghost var whole := Consume(options, Model(), chunk);
      var offset := 0;
      assert chunk[0..] == chunk;
      while offset < |chunk|
        invariant 0 <= offset <= |chunk|
        invariant Valid() && whole == Consume(options, Model(), chunk[offset..])
        decreases |chunk| - offset
      {
        ConsumeTurn(options, Model(), chunk[offset..]);
        var newline := FindByte(chunk[offset..], NEWLINE);
        var end := if newline.Some? then offset + newline.value + 1 else |chunk|;
        var segment := chunk[offset..end];
        assert segment == chunk[offset..][..end - offset] && chunk[end..] == chunk[offset..][end - offset..];
        if |pendingFrame| + |segment| > MAX_FRAME_BYTES {
          FailWith(Channel);
          return;
        }
        pendingFrame := pendingFrame + segment;
        offset := end;
        if newline.Some? {
          var complete := pendingFrame;
          pendingFrame := [];
          ReserveAndQueue(complete);
          if phase == Failed {
            return;
          }
          if offset < |chunk| && inFlightRegistrations != 0 {
            FailWith(Channel);
            return;
          }
        }
      }
      assert chunk[offset..] == [];
      ConsumeNothing(options, Model());
    }

    method OnEnd()
      requires Valid()
      modifies this
      ensures Valid() && Model() == InputEnds(old(Model()))
    {
      hide Holds, Nonces, Pids;
      readableEnded := true;
      if |pendingFrame| != 0 {
        FailWith(Channel);
      }
    }

    method OnClose()
      requires Valid()
      modifies this
      ensures Valid() && Model() == InputCloses(old(Model()))
    {
      hide Holds, Nonces, Pids;
      readableClosed := true;
      if !readableEnded {
        FailWith(Channel);
      }
    }

    /** The close of the channel removes this listener. */
    method OnAcknowledgementError()
      requires Valid()
      modifies this
      ensures Valid() && Model() == Step(options, old(Model()), AckError)
    {
      hide Holds, Nonces, Pids;
      if ackClosed == Some(true) {
        return;
      }
      if ackClosed == None {
        ackClosed := Some(false);
      }
      FailWith(Channel);
    }

    method BeginClosing()
      requires Valid()
      modifies this
      ensures Valid() && Model() == Step(options, old(Model()), Event.BeginClosing)
    {
      hide Holds, Nonces, Pids;
      closingRequested := true;
      queue := queue + [Job.Close];
      enqueued := enqueued + 1;
    }

    /** The `finally` block of a registration job. */
    method FinishRegistration()
      requires Valid()
      modifies this`running, this`finished, this`inFlightRegistrations
      ensures Valid() && Model() == old(Model()).(jobs := RegistrationDone(old(Model()).jobs))
    {
      hide Holds, Nonces, Pids;
      running := Idle;
      finished := finished + 1;
      if inFlightRegistrations > 0 {
        inFlightRegistrations := inFlightRegistrations - 1;
      }
    }

    /** The job at the front of the queue starts. */
    method RunNextJob()
      requires Valid()
      modifies this
      ensures Valid() && Model() == StartJob(options, old(Model()))
    {
      hide Holds, Nonces, Pids;
      if running != Idle || queue == [] {
        return;
      }
      var job := queue[0];
      queue := queue[1..];
      match job {
        case Close =>
          if phase == Open {
            phase := Closing;
          }
          running := Idle;
          finished := finished + 1;
        case Register(frame) =>
          if phase == Failed || phase == Sealed {
            FinishRegistration();
          } else if phase == Open && frame.parentPid != options.casePid {
            FailWith(Channel);
            FinishRegistration();
          } else {
            running := Registering(frame, false);
          }
      }
    }

    /** The supervisor's promise resolves while its job still waits for it. */
    method OnRetained()
      requires Valid() && running.Registering? && !running.retained
      modifies this
      ensures Valid() && Model() == Retain(old(Model()))
    {
      hide Holds, Nonces, Pids;
      retained := retained + [running.frame];
      retainedGroups := retainedGroups + 1;
      if phase == Failed {
        cleanups := cleanups + 1;
      }
      running := running.(retained := true);
    }

    /** The promise of a registration that nobody waits for any more resolves: its root is retained all the same. */
    method OnRetainedLate()
      requires Valid()
      modifies this
      ensures Valid() && Model() == RetainLate(old(Model()))
    {
      hide Holds, Nonces, Pids;
      if late == [] {
        return;
      }
      retained := retained + [late[0]];
      retainedGroups := retainedGroups + 1;
      if phase == Failed {
        cleanups := cleanups + 1;
      }
      late := late[1..];
    }

    /** The bounded wait of a registration job runs out; the registration itself goes on. */
    method OnExpired()
      requires Valid()
      modifies this
      ensures Valid() && Model() == Expire(old(Model()))
    {
      hide Holds, Nonces, Pids;
      if !running.Registering? {
        return;
      }
      var wasRetained := running.retained;
      if !wasRetained {
        late := late + [running.frame];
      }
      FailJob(DeadlinePassed, wasRetained);
    }

    /** The `catch` block of a registration job. */
    method FailJob(reason: Reason, wasRetained: bool)
      requires Valid()
      modifies this
      ensures Valid() && Model() == JobFails(old(Model()), reason, wasRetained)
    {
      hide Holds, Nonces, Pids;
      FailWith(reason);
      if wasRetained {
        cleanups := cleanups + 1;
      }
      FinishRegistration();
    }

    /** The job goes on after its root was retained: it acknowledges, or gives up if poisoned meanwhile. */
    method ContinueRegistration()
      requires Valid()
      modifies this
      ensures Valid() && Model() == Continue(old(Model()))
    {
      hide Holds, Nonces, Pids;
      if !running.Registering? || !running.retained {
        return;
      }
      if phase == Failed || phase == Sealed {
        cleanups := cleanups + 1;
        FailJob(Channel, true);
        return;
      }
      acks := acks + [Ack(running.frame, phase == Open)];
      running := Acking(running.frame);
    }

    method AskForSeal() returns (asked: bool)
      requires Valid()
      modifies this
      ensures Valid() && Model() == AskSeal(old(Model()))
      ensures asked <==> Model().seal != NotAsked
    {
      hide Holds, Nonces, Pids;
      if seal != NotAsked {
        return true;
      }
      if !started || !closingRequested {
        return false;
      }
      if phase == Failed {
        return false;
      }
      seal := AwaitInputs;
      return true;
    }

    /** The checks after the queue has drained. */
    method CheckDrained()
      requires Valid()
      modifies this
      ensures Valid() && Model() == SealAfterQueue(old(Model()))
    {
      hide Holds, Nonces, Pids;
      if !seal.AwaitQueue? || finished < seal.jobs {
        return;
      }
      if phase == Failed || !readableEnded || (readableClosed && !readableEnded) || |pendingFrame| != 0
         || inFlightRegistrations != 0 || !caseExited {
        FailWith(Channel);
        seal := Settled;
        return;
      }
      seal := AwaitEnd;
    }

    /** The last step of sealing, once the acknowledgement channel has closed. */
    method CheckClosed()
      requires Valid()
      modifies this
      ensures Valid() && Model() == SealAfterClose(old(Model()))
    {
      hide Holds, Nonces, Pids;
      if !seal.AwaitAckClose? || ackClosed == None {
        return;
      }
      if ackClosed.value && poisonReason == None && phase == Closing {
        phase := Sealed;
      } else {
        FailWith(Channel);
      }
      seal := Settled;
    }

    /** `terminateRegisteredGroups`: its bounded wait poisons past the deadline; here the supervisor answers at once. */
    method TerminateRegisteredGroups(expired: bool, answer: Receipt) returns (receipt: Receipt)
      requires Valid()
      modifies this
      ensures Valid() && Model() == Step(options, old(Model()), Terminate(expired))
      ensures receipt == Reported(Model(), Obtained(Model(), answer))
      ensures receipt == Gone ==> !expired && Model() == old(Model()) && phase == Sealed
    {
      hide Holds, Nonces, Pids;
      if expired {
        FailWith(DeadlinePassed);
      }
      if retainedGroups == 0 && phase == Sealed {
        receipt := Gone;
      } else {
        receipt := answer;
      }
      if poisonReason.Some? || phase == Failed {
        return Unverified(poisonReason);
      }
      if phase != Sealed {
        return Unverified(None);
      }
    }
  }
}
