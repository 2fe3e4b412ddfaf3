/**
 The process registration coordinator: newline-framed registrations, a serialized job queue, one
 registration in flight, acknowledgements, sealing, and poisoning by deadline, channel or identity.
 */
module Registration {
  import opened Basics
  import opened Bytes

  datatype Frame = Frame(nonce: string, pid: nat, parentPid: nat)

  datatype Ack = Ack(frame: Frame, accepted: bool)

  datatype Reason = DeadlinePassed | Channel | Identity

  datatype Phase = Open | Closing | Sealed | Failed

  datatype Status = Status(phase: Phase, poison: Option<Reason>)

  datatype Input = Input(started: bool, closingRequested: bool, ended: bool, closed: bool, caseExited: bool,
                         channelBytes: nat, pending: Bytes)

  datatype Job = Register(frame: Frame) | Close

  /** What the job at the front of the queue awaits. */
  datatype Running = Idle | Registering(frame: Frame, retained: bool) | Acking(frame: Frame)

  /**
   The queue, and three histories: the reserved `frames`, those whose root was `retained`, and the
   acknowledgements written. `late` are registrations that nobody waits for any more.
   */
  datatype Jobs = Jobs(inFlight: nat, queue: seq<Job>, running: Running, enqueued: nat, finished: nat, late: seq<Frame>,
                       frames: seq<Frame>, retained: seq<Frame>, acks: seq<Ack>, cleanups: nat)

  datatype SealStage = NotAsked | AwaitInputs | AwaitQueue(jobs: nat) | AwaitEnd | AwaitAckClose | Settled

  datatype State = State(status: Status, input: Input, jobs: Jobs, seal: SealStage, ackClosed: Option<bool>)

  const MAX_FRAME_BYTES: nat := 1024
  const MAX_CHANNEL_BYTES: nat := 16 * 1024
  const MAX_GROUPS: nat := 16
  const NEWLINE: Byte := 0x0a

  const START: State := State(
    Status(Open, None), Input(false, false, false, false, false, 0, []),
    Jobs(0, [], Idle, 0, 0, [], [], [], [], 0), NotAsked, None)

  /** What the coordinator is given: the case's pid and the frame parser, which may refuse. */
  datatype Options = Options(casePid: nat, parse: Bytes -> Option<Frame>)

  datatype Event =
    | Begin | Data(chunk: Bytes) | End | ReadError | ReadClose
    | CaseExit | CaseError | Deadline
    | BeginClosing | JobStarts
    | RootRetained | RegistrationRejected | RegistrationExpired | RegistrationContinues | LateRetained
    | AckSettles(ok: bool) | AckError | AckClose
    | Seal | SealInputs | SealQueue | SealEnds(ok: bool) | SealCloses
    | Terminate(expired: bool)

  /** The first reason stays. */
  function Poisoned(s: Status, why: Reason): Status {
    Status(Failed, if s.poison.None? then Some(why) else s.poison)
  }

  function Fail(s: State, why: Reason): State {
    s.(status := Poisoned(s.status, why))
  }

  function FindByte(b: Bytes, x: Byte): (r: Option<nat>)
    ensures r.Some? ==> r.value < |b| && b[r.value] == x && x !in b[..r.value]
    ensures r.None? ==> x !in b
  {
    if b == [] then None
    else if b[0] == x then Some(0)
    else
      match FindByte(b[1..], x)
      case None => None
      case Some(i) =>
        assert b[..i + 1] == [b[0]] + b[1..][..i];
        Some(i + 1)
  }

  // Input

  predicate Known(frames: seq<Frame>, f: Frame) {
    exists i | 0 <= i < |frames| :: frames[i].nonce == f.nonce || frames[i].pid == f.pid
  }

  function Reserved(j: Jobs, f: Frame): Jobs {
    j.(frames := j.frames + [f], inFlight := j.inFlight + 1, queue := j.queue + [Register(f)],
      enqueued := j.enqueued + 1)
  }

  /** A complete line is reserved and queued, or poisons the coordinator. */
  function Reserve(o: Options, s: State, line: Bytes): State {
    if s.status.phase == Failed || s.status.phase == Sealed then s
    else
      match o.parse(line)
      case None => Fail(s, Channel)
      case Some(f) =>
        if Known(s.jobs.frames, f) || |s.jobs.frames| >= MAX_GROUPS || s.jobs.inFlight != 0 then Fail(s, Channel)
        else s.(jobs := Reserved(s.jobs, f))
  }

  function WithPending(s: State, pending: Bytes): State {
    s.(input := s.input.(pending := pending))
  }

  /** The line loop over one chunk. */
  function Consume(o: Options, s: State, rest: Bytes): State
    decreases |rest|
  {
    if rest == [] then s
    else
      var newline := FindByte(rest, NEWLINE);
      var end := if newline.Some? then newline.value + 1 else |rest|;
      if |s.input.pending| + end > MAX_FRAME_BYTES then Fail(s, Channel)
      else if newline.None? then WithPending(s, s.input.pending + rest)
      else
        var t := Reserve(o, WithPending(s, []), s.input.pending + rest[..end]);
        if t.status.phase == Failed then t
        else if end < |rest| && t.jobs.inFlight != 0 then Fail(t, Channel)
        else Consume(o, t, rest[end..])
  }

  function Receive(o: Options, s: State, chunk: Bytes): State {
    var t := s.(input := s.input.(channelBytes := s.input.channelBytes + |chunk|));
    if t.input.channelBytes > MAX_CHANNEL_BYTES then Fail(t, Channel)
    else if t.status.phase == Failed then t
    else if t.jobs.inFlight != 0 then Fail(t, Channel)
    else Consume(o, t, chunk)
  }

  function InputEnds(s: State): State {
    var t := s.(input := s.input.(ended := true));
    if t.input.pending != [] then Fail(t, Channel) else t
  }

  function InputCloses(s: State): State {
    var t := s.(input := s.input.(closed := true));
    if !t.input.ended then Fail(t, Channel) else t
  }

  // Jobs

  function JobDone(j: Jobs): Jobs {
    j.(running := Idle, finished := j.finished + 1)
  }

  /** The `finally` of a registration job. */
  function RegistrationDone(j: Jobs): Jobs {
    JobDone(j).(inFlight := if j.inFlight > 0 then j.inFlight - 1 else 0)
  }

  function StartJob(o: Options, s: State): State {
    if s.jobs.running != Idle || s.jobs.queue == [] then s
    else
      var rest := s.jobs.(queue := s.jobs.queue[1..]);
      match s.jobs.queue[0]
      case Close => s.(jobs := JobDone(rest), status := if s.status.phase == Open then Status(Closing, s.status.poison)
        else s.status)
      case Register(f) =>
        if s.status.phase == Failed || s.status.phase == Sealed then s.(jobs := RegistrationDone(rest))
        else if s.status.phase == Open && f.parentPid != o.casePid
          then Fail(s.(jobs := RegistrationDone(rest)), Channel)
        else s.(jobs := rest.(running := Registering(f, false)))
  }

  /** The supervisor has retained the root; poison in the meantime asks for authority cleanup. */
  function Retained(j: Jobs, f: Frame, failed: bool): Jobs {
    j.(retained := j.retained + [f], cleanups := if failed then j.cleanups + 1 else j.cleanups)
  }

  /** The job fails with `why`; a retained root is handed to authority cleanup. */
  function JobFails(s: State, why: Reason, retained: bool): State {
    var done := RegistrationDone(s.jobs);
    Fail(s.(jobs := done.(cleanups := if retained then done.cleanups + 1 else done.cleanups)), why)
  }

  function Answered(j: Jobs, f: Frame, accepted: bool): Jobs {
    j.(acks := j.acks + [Ack(f, accepted)], running := Acking(f))
  }

  function Continue(s: State): State {
    if !s.jobs.running.Registering? || !s.jobs.running.retained then s
    else if s.status.phase == Failed || s.status.phase == Sealed
    then JobFails(s.(jobs := s.jobs.(cleanups := s.jobs.cleanups + 1)), Channel, true)
    else s.(jobs := Answered(s.jobs, s.jobs.running.frame, s.status.phase == Open))
  }

  function Retain(s: State): State {
    if s.jobs.running.Registering? && !s.jobs.running.retained
    then
      var jobs := Retained(s.jobs, s.jobs.running.frame, s.status.phase == Failed);
      s.(jobs := jobs.(running := s.jobs.running.(retained := true)))
    else s
  }

  function Expire(s: State): State {
    if !s.jobs.running.Registering? then s
    else
      var late := if s.jobs.running.retained then s.jobs.late else s.jobs.late + [s.jobs.running.frame];
      JobFails(s.(jobs := s.jobs.(late := late)), DeadlinePassed, s.jobs.running.retained)
  }

  function RetainLate(s: State): State {
    if s.jobs.late == [] then s
    else s.(jobs := Retained(s.jobs, s.jobs.late[0], s.status.phase == Failed).(late := s.jobs.late[1..]))
  }

  // Sealing

  function SealFails(s: State): State {
    Fail(s, Channel).(seal := Settled)
  }

  function AskSeal(s: State): State {
    if s.seal != NotAsked || !s.input.started || !s.input.closingRequested || s.status.phase == Failed then s
    else s.(seal := AwaitInputs)
  }

  function SealAfterQueue(s: State): State {
    if !s.seal.AwaitQueue? || s.jobs.finished < s.seal.jobs then s
    else if s.status.phase == Failed || !s.input.ended || s.input.pending != [] || s.jobs.inFlight != 0
      || !s.input.caseExited
    then SealFails(s)
    else s.(seal := AwaitEnd)
  }

  function SealAfterClose(s: State): State {
    if !s.seal.AwaitAckClose? || s.ackClosed.None? then s
    else if !s.ackClosed.value || s.status.poison.Some? || s.status.phase != Closing then SealFails(s)
    else s.(status := Status(Sealed, s.status.poison), seal := Settled)
  }

  function AckReceipt(s: State, closed: bool): State {
    s.(ackClosed := if s.ackClosed.None? then Some(closed) else s.ackClosed)
  }

  /**
   One event. Sealing has cleared the deadline timer, a case that exited cannot fail any more, and the
   acknowledgement channel loses its error listener when it closes. The error listener of the
   registration channel stays, and asking for termination compares the clock with the deadline again.
   */
  function Step(o: Options, s: State, e: Event): State {
    match e
    case Begin => s.(input := s.input.(started := true))
    case Data(chunk) => if s.input.started && !s.input.ended then Receive(o, s, chunk) else s
    case End => if s.input.started && !s.input.ended then InputEnds(s) else s
    case ReadError => if s.input.started then Fail(s, Channel) else s
    case ReadClose => if s.input.started then InputCloses(s) else s
    case CaseExit => s.(input := s.input.(caseExited := true))
    case CaseError => if s.input.caseExited then s else Fail(s, Channel)
    case Deadline => if s.status.phase == Sealed then s else Fail(s, DeadlinePassed)
    case BeginClosing =>
      s.(input := s.input.(closingRequested := true),
        jobs := s.jobs.(queue := s.jobs.queue + [Close], enqueued := s.jobs.enqueued + 1))
    case JobStarts => StartJob(o, s)
    case RootRetained => Retain(s)
    case RegistrationRejected =>
      if s.jobs.running.Registering? && !s.jobs.running.retained then JobFails(s, Identity, false) else s
    case RegistrationExpired => Expire(s)
    case RegistrationContinues => Continue(s)
    case LateRetained => RetainLate(s)
    case AckSettles(ok) =>
      if !s.jobs.running.Acking? then s
      else if ok then s.(jobs := RegistrationDone(s.jobs)) else JobFails(s, Channel, true)
    case AckError => if s.ackClosed == Some(true) then s else Fail(AckReceipt(s, false), Channel)
    case AckClose => AckReceipt(s, true)
    case Seal => AskSeal(s)
    case SealInputs => if s.seal.AwaitInputs? && s.input.ended && s.input.caseExited
      then s.(seal := AwaitQueue(s.jobs.enqueued)) else s
    case SealQueue => SealAfterQueue(s)
    case SealEnds(ok) => if !s.seal.AwaitEnd? then s else if ok then s.(seal := AwaitAckClose) else SealFails(s)
    case SealCloses => SealAfterClose(s)
    case Terminate(expired) => if expired then Fail(s, DeadlinePassed) else s
  }

  function Run(o: Options, s: State, events: seq<Event>): State
    decreases |events|
  {
    if events == [] then s else Run(o, Step(o, s, events[0]), events[1..])
  }

  // Invariants

  function AckedFrames(acks: seq<Ack>): (fs: seq<Frame>)
    ensures |fs| == |acks|
  {
    seq(|acks|, i requires 0 <= i < |acks| => acks[i].frame)
  }

  function QueuedFrames(queue: seq<Job>): (fs: seq<Frame>) {
    if queue == [] then []
    else if queue[0].Register? then [queue[0].frame] + QueuedFrames(queue[1..])
    else QueuedFrames(queue[1..])
  }

  /** The frames being registered, and those of them whose root is retained. */
  function InRegistration(r: Running): seq<Frame> {
    if r.Registering? then [r.frame] else []
  }

  function RetainedNow(r: Running): seq<Frame> {
    if r.Registering? && r.retained then [r.frame] else []
  }

  ghost predicate Distinct(frames: seq<Frame>) {
    forall i, j | 0 <= i < j < |frames| :: frames[i].nonce != frames[j].nonce && frames[i].pid != frames[j].pid
  }

  ghost predicate Parented(acks: seq<Ack>, casePid: nat) {
    forall i | 0 <= i < |acks| :: acks[i].accepted ==> acks[i].frame.parentPid == casePid
  }

  /**
   At most 16 distinct registrations, one in flight; unless the coordinator failed they are answered
   in order, each after its root was retained. Even then no frame is answered twice.
   */
  ghost predicate JobsOk(casePid: nat, phase: Phase, j: Jobs) {
    && Distinct(j.frames) && |j.frames| <= MAX_GROUPS && Parented(j.acks, casePid) && AckedFrames(j.acks) <= j.frames
    && j.inFlight == |QueuedFrames(j.queue)| + (if j.running == Idle then 0 else 1) <= 1
    && (phase == Open && j.running.Registering? ==> j.running.frame.parentPid == casePid)
    && (phase != Failed ==>
          && j.late == []
          && j.frames == AckedFrames(j.acks) + InRegistration(j.running) + QueuedFrames(j.queue)
          && j.retained == AckedFrames(j.acks) + RetainedNow(j.running))
  }

  /** Sealing starts from, and keeps, an ended input, an exited case and an idle queue. */
  ghost predicate SealOk(s: State) {
    s.status.phase != Failed && (s.seal.AwaitEnd? || s.seal.AwaitAckClose? || s.status.phase == Sealed) ==>
      s.input.ended && s.input.caseExited && s.input.pending == [] && s.jobs.inFlight == 0
  }

  ghost predicate Good(o: Options, s: State) {
    && (s.status.phase == Failed <==> s.status.poison.Some?)
    && JobsOk(o.casePid, s.status.phase, s.jobs) && SealOk(s)
  }

  lemma FailGood(o: Options, s: State, why: Reason)
    requires JobsOk(o.casePid, s.status.phase, s.jobs)
    ensures Good(o, Fail(s, why))
  {
    hide QueuedFrames, Distinct, Parented;
  }

  lemma {:induction false} QueuedAppend(queue: seq<Job>, job: Job)
    ensures QueuedFrames(queue + [job]) == QueuedFrames(queue) + (if job.Register? then [job.frame] else [])
  {
    if queue == [] {
      assert queue + [job] == [job];
    } else {
      assert (queue + [job])[1..] == queue[1..] + [job];
      QueuedAppend(queue[1..], job);
    }
  }

  lemma ReservedOk(casePid: nat, phase: Phase, j: Jobs, f: Frame)
    requires JobsOk(casePid, phase, j) && !Known(j.frames, f) && |j.frames| < MAX_GROUPS && j.inFlight == 0
    ensures JobsOk(casePid, phase, Reserved(j, f))
  {
    hide QueuedFrames, Parented;
    QueuedAppend(j.queue, Register(f));
    assert QueuedFrames(j.queue) == [];
  }

  lemma ReserveGood(o: Options, s: State, line: Bytes)
    requires Good(o, s) && !s.input.ended
    ensures Good(o, Reserve(o, s, line)) && Reserve(o, s, line).input == s.input
  {
    hide JobsOk, Known, Reserved;
    FailGood(o, s, Channel);
    var read := o.parse(line);
    if read.Some? && !Known(s.jobs.frames, read.value) && |s.jobs.frames| < MAX_GROUPS && s.jobs.inFlight == 0 {
      ReservedOk(o.casePid, s.status.phase, s.jobs, read.value);
    }
  }

  lemma {:induction false} ConsumeGood(o: Options, s: State, rest: Bytes)
    requires Good(o, s) && !s.input.ended
    ensures Good(o, Consume(o, s, rest)) && Consume(o, s, rest).input.ended == s.input.ended
    decreases |rest|
  {
    hide Reserve, JobsOk, FindByte;
    FailGood(o, s, Channel);
    if rest != [] && FindByte(rest, NEWLINE).Some? {
      var end := FindByte(rest, NEWLINE).value + 1;
      var t, line := WithPending(s, []), s.input.pending + rest[..end];
      ReserveGood(o, t, line);
      var u := Reserve(o, t, line);
      FailGood(o, u, Channel);
      if |s.input.pending| + end <= MAX_FRAME_BYTES && u.status.phase != Failed
        && !(end < |rest| && u.jobs.inFlight != 0) {
        ConsumeGood(o, u, rest[end..]);
      }
    }
  }

  lemma {:induction false} InputGood(o: Options, s: State, e: Event)
    requires Good(o, s) && (e.Begin? || e.End? || e.ReadError? || e.ReadClose? || e.CaseExit? || e.CaseError?
                          || e.Deadline? || e.Terminate?)
    ensures Good(o, Step(o, s, e))
  {
    hide JobsOk;
    FailGood(o, s, Channel);
    FailGood(o, s, DeadlinePassed);
  }

  lemma {:induction false} DataGood(o: Options, s: State, chunk: Bytes)
    requires Good(o, s)
    ensures Good(o, Step(o, s, Data(chunk)))
  {
    hide JobsOk, Consume;
    var t := s.(input := s.input.(channelBytes := s.input.channelBytes + |chunk|));
    FailGood(o, t, Channel);
    if !s.input.ended {
      ConsumeGood(o, t, chunk);
    }
  }

  lemma {:induction false} ClosingGood(o: Options, s: State)
    requires Good(o, s)
    ensures Good(o, Step(o, s, BeginClosing))
  {
    hide QueuedFrames, Distinct, Parented;
    QueuedAppend(s.jobs.queue, Job.Close);
  }

  lemma {:induction false} JobGood(o: Options, s: State)
    requires Good(o, s)
    ensures Good(o, StartJob(o, s))
  {
    hide Distinct, Parented;
  }

  lemma {:induction false} RetainGood(o: Options, s: State)
    requires Good(o, s)
    ensures Good(o, Retain(s)) && Good(o, RetainLate(s))
  {
    hide Distinct, Parented, QueuedFrames;
  }

  /** A job that fails leaves a failed coordinator with one registration less in flight. */
  lemma {:induction false} JobFailsGood(o: Options, s: State, why: Reason, retained: bool)
    requires JobsOk(o.casePid, Failed, s.jobs) && s.jobs.running != Idle
    ensures Good(o, JobFails(s, why, retained))
  {
    hide Distinct, Parented, QueuedFrames;
  }

  lemma {:induction false} ContinueGood(o: Options, s: State)
    requires Good(o, s)
    ensures Good(o, Continue(s))
  {
    hide Distinct, QueuedFrames, JobFails;
    if s.jobs.running.Registering? && s.jobs.running.retained {
      JobFailsGood(o, s.(jobs := s.jobs.(cleanups := s.jobs.cleanups + 1)), Channel, true);
      assert AckedFrames(Answered(s.jobs, s.jobs.running.frame, s.status.phase == Open).acks)
          == AckedFrames(s.jobs.acks) + [s.jobs.running.frame];
    }
  }

  lemma {:induction false} RegistrationGood(o: Options, s: State, e: Event)
    requires Good(o, s) && (e.RegistrationRejected? || e.RegistrationExpired? || e.AckSettles?)
    ensures Good(o, Step(o, s, e))
  {
    hide Distinct, QueuedFrames, Parented, JobFails;
    if s.jobs.running != Idle {
      JobFailsGood(o, s, Identity, false);
      JobFailsGood(o, s, Channel, true);
      JobFailsGood(o, s.(jobs := s.jobs.(late := if s.jobs.running.Registering? && !s.jobs.running.retained
                                                 then s.jobs.late + [s.jobs.running.frame] else s.jobs.late)),
                   DeadlinePassed, s.jobs.running.Registering? && s.jobs.running.retained);
    }
  }

  lemma {:induction false} SealGood(o: Options, s: State, e: Event)
    requires Good(o, s)
    requires e.AckError? || e.AckClose? || e.Seal? || e.SealInputs? || e.SealQueue? || e.SealEnds? || e.SealCloses?
    ensures Good(o, Step(o, s, e))
  {
    hide Distinct, QueuedFrames, Parented, JobsOk;
    FailGood(o, s, Channel);
    SealedOk(o.casePid, s.jobs);
  }

  lemma SealedOk(casePid: nat, j: Jobs)
    ensures JobsOk(casePid, Closing, j) ==> JobsOk(casePid, Sealed, j)
  {
    hide Distinct, QueuedFrames, Parented;
  }

  lemma {:induction false} StepGood(o: Options, s: State, e: Event)
    requires Good(o, s)
    ensures Good(o, Step(o, s, e))
  {
    hide Good, StartJob, Retain, RetainLate, Continue, Receive, InputEnds, InputCloses, Expire, JobFails,
      RegistrationDone, SealAfterQueue, SealAfterClose, SealFails, AskSeal, AckReceipt, Fail;
    match e
    case Data(chunk) => DataGood(o, s, chunk);
    case BeginClosing => ClosingGood(o, s);
    case JobStarts => JobGood(o, s);
    case RootRetained => RetainGood(o, s);
    case LateRetained => RetainGood(o, s);
    case RegistrationContinues => ContinueGood(o, s);
    case RegistrationRejected => RegistrationGood(o, s, e);
    case RegistrationExpired => RegistrationGood(o, s, e);
    case AckSettles(_) => RegistrationGood(o, s, e);
    case AckError => SealGood(o, s, e);
    case AckClose => SealGood(o, s, e);
    case Seal => SealGood(o, s, e);
    case SealInputs => SealGood(o, s, e);
    case SealQueue => SealGood(o, s, e);
    case SealEnds(_) => SealGood(o, s, e);
    case SealCloses => SealGood(o, s, e);
    case _ => InputGood(o, s, e);
  }

  // The theorems

  lemma {:induction false} RunGood(o: Options, s: State, events: seq<Event>)
    requires Good(o, s)
    ensures Good(o, Run(o, s, events))
    decreases |events|
  {
    hide Good, Step;
    if events != [] {
      StepGood(o, s, events[0]);
      RunGood(o, Step(o, s, events[0]), events[1..]);
    }
  }

  lemma StartGood(o: Options)
    ensures Good(o, START)
  {
    assert AckedFrames([]) == [];
  }

  lemma {:induction false} StaysFailed(o: Options, s: State, e: Event)
    requires s.status.phase == Failed && s.status.poison.Some?
    ensures Step(o, s, e).status == s.status && Step(o, s, e).jobs.acks == s.jobs.acks
            && Step(o, s, e).jobs.frames == s.jobs.frames
  {
    hide Consume;
  }

  lemma JobEnds(j: Jobs)
    ensures RegistrationDone(j).acks == j.acks && RegistrationDone(j).frames == j.frames
            && RegistrationDone(j).retained == j.retained
  {
  }

  /** `failed` is absorbing, with its first reason, and nothing is reserved or acknowledged any more. */
  lemma {:induction false} FailedForGood(o: Options, s: State, events: seq<Event>)
    requires s.status.phase == Failed && s.status.poison.Some?
    ensures var t := Run(o, s, events);
            t.status == s.status && t.jobs.acks == s.jobs.acks && t.jobs.frames == s.jobs.frames
    decreases |events|
  {
    hide Step;
    if events != [] {
      StaysFailed(o, s, events[0]);
      FailedForGood(o, Step(o, s, events[0]), events[1..]);
    }
  }

  /**
   An acknowledgement is written for the one registration in progress, after its root was retained,
   and it says `accepted` exactly while the coordinator is open, when the frame's parent is the case.
   */
  lemma {:induction false} AckWritten(o: Options, s: State, e: Event)
    requires Good(o, s) && Step(o, s, e).jobs.acks != s.jobs.acks
    ensures e.RegistrationContinues? && s.jobs.running.Registering? && s.jobs.running.retained
    ensures var f := s.jobs.running.frame;
            && Step(o, s, e).jobs.acks == s.jobs.acks + [Ack(f, s.status.phase == Open)]
            && (s.status.phase == Open || s.status.phase == Closing)
            && f in s.jobs.retained
            && (s.status.phase == Open ==> f.parentPid == o.casePid)
  {
    hide Distinct, Parented, QueuedFrames, RegistrationDone, Receive, SealOk;
    JobEnds(s.jobs);
    if e.Data? {
      ReceiveKeepsAcks(o, s, e.chunk);
    }
    if e.RegistrationContinues? && s.jobs.running.Registering? && s.jobs.running.retained {
      JobEnds(s.jobs.(cleanups := s.jobs.cleanups + 1));
      if s.status.phase != Failed {
        assert s.jobs.retained[|s.jobs.retained| - 1] == s.jobs.running.frame;
      }
    }
    if e.RegistrationExpired? && s.jobs.running.Registering? {
      JobEnds(s.jobs.(late := if s.jobs.running.retained then s.jobs.late else s.jobs.late + [s.jobs.running.frame]));
    }
    if e.JobStarts? && s.jobs.queue != [] {
      JobEnds(s.jobs.(queue := s.jobs.queue[1..]));
    }
  }

  lemma {:induction false} ConsumeKeepsAcks(o: Options, s: State, rest: Bytes)
    ensures Consume(o, s, rest).jobs.acks == s.jobs.acks
    decreases |rest|
  {
    hide Known;
    if rest != [] && FindByte(rest, NEWLINE).Some? {
      var end := FindByte(rest, NEWLINE).value + 1;
      ConsumeKeepsAcks(o, Reserve(o, WithPending(s, []), s.input.pending + rest[..end]), rest[end..]);
    }
  }

  lemma ReceiveKeepsAcks(o: Options, s: State, chunk: Bytes)
    ensures Receive(o, s, chunk).jobs.acks == s.jobs.acks
  {
    hide Consume;
    ConsumeKeepsAcks(o, s.(input := s.input.(channelBytes := s.input.channelBytes + |chunk|)), chunk);
  }

  /** Everything a sealed coordinator has established. */
  ghost predicate FullyRegistered(s: State) {
    && s.input.ended && s.input.caseExited && s.input.pending == []
    && s.jobs.inFlight == 0 && s.jobs.late == []
    && Distinct(s.jobs.frames) && |s.jobs.frames| <= MAX_GROUPS
    && s.jobs.retained == s.jobs.frames && AckedFrames(s.jobs.acks) == s.jobs.frames
  }

  /**
   In every run, `sealed` means that each of at most 16 distinct registrations was retained and answered
   exactly once.
   */
  lemma {:induction false} SealedMeans(o: Options, events: seq<Event>)
    requires Run(o, START, events).status.phase == Sealed
    ensures FullyRegistered(Run(o, START, events)) && Run(o, START, events).status.poison == None
  {
    StartGood(o);
    RunGood(o, START, events);
    var s := Run(o, START, events);
    hide Run, Distinct, Parented, QueuedFrames;
    assert QueuedFrames(s.jobs.queue) == [];
  }

  // Failing after sealing

  /**
   A seal was asked for after the start; a sealed coordinator is done with sealing and has a closed answer
   channel.
   */
  ghost predicate SealedBehind(s: State) {
    && (s.seal != NotAsked ==> s.input.started)
    && (s.seal.AwaitAckClose? || s.seal.Settled? || s.status.phase != Sealed)
    && (s.status.phase == Sealed ==> s.seal.Settled? && s.ackClosed == Some(true))
  }

  lemma {:induction false} ConsumeKeepsSeal(o: Options, s: State, rest: Bytes)
    requires s.status.phase != Sealed
    ensures var t := Consume(o, s, rest);
            && t.seal == s.seal && t.ackClosed == s.ackClosed && t.input.started == s.input.started
            && t.status.phase != Sealed
    decreases |rest|
  {
    hide Known, FindByte, Reserved;
    if rest != [] && FindByte(rest, NEWLINE).Some? {
      var end := FindByte(rest, NEWLINE).value + 1;
      ConsumeKeepsSeal(o, Reserve(o, WithPending(s, []), s.input.pending + rest[..end]), rest[end..]);
    }
  }

  lemma {:induction false} SealedBehindStep(o: Options, s: State, e: Event)
    requires Good(o, s) && SealedBehind(s)
    ensures SealedBehind(Step(o, s, e))
  {
    hide JobsOk, Consume, RegistrationDone, Retained, Answered, Reserve;
    if e.Data? && s.status.phase != Sealed {
      ConsumeKeepsSeal(o, s.(input := s.input.(channelBytes := s.input.channelBytes + |e.chunk|)), e.chunk);
    }
  }

  lemma {:induction false} SealedBehindRun(o: Options, s: State, events: seq<Event>)
    requires Good(o, s) && SealedBehind(s)
    ensures Good(o, Run(o, s, events)) && SealedBehind(Run(o, s, events))
    decreases |events|
  {
    hide Good, SealedBehind, Step;
    if events != [] {
      StepGood(o, s, events[0]);
      SealedBehindStep(o, s, events[0]);
      SealedBehindRun(o, Step(o, s, events[0]), events[1..]);
    }
  }

  /** The two events that a sealed coordinator still minds. */
  predicate Unseals(e: Event) {
    e.ReadError? || e == Terminate(true)
  }

  lemma {:induction false} SealedStep(o: Options, s: State, e: Event)
    requires Good(o, s) && SealedBehind(s) && s.status == Status(Sealed, None)
    ensures Step(o, s, e).status == if e.ReadError? then Status(Failed, Some(Channel))
                                    else if e == Terminate(true) then Status(Failed, Some(DeadlinePassed))
                                    else Status(Sealed, None)
  {
    hide Consume, QueuedFrames, Distinct, Parented;
    assert s.input.ended && s.jobs.inFlight == 0;
  }

  /**
   Sealing is not the end: after any run that ends sealed, the coordinator fails on an error of the
   registration channel and on a request for termination past the deadline, and on nothing else.
   */
  lemma {:induction false} SealedFailsExactly(o: Options, events: seq<Event>, later: seq<Event>)
    requires Run(o, START, events).status.phase == Sealed
    ensures var t := Run(o, Run(o, START, events), later);
            && (t.status.phase == Failed <==> exists i :: 0 <= i < |later| && Unseals(later[i]))
            && (t.status.phase == Sealed || t.status.phase == Failed)
  {
    StartGood(o);
    SealedBehindRun(o, START, events);
    SealedLater(o, Run(o, START, events), later);
  }

  lemma {:induction false} SealedLater(o: Options, s: State, later: seq<Event>)
    requires Good(o, s) && SealedBehind(s) && s.status.phase == Sealed
    ensures Run(o, s, later).status.phase == if exists i :: 0 <= i < |later| && Unseals(later[i]) then Failed
            else Sealed
    decreases |later|
  {
    hide JobsOk, SealOk, SealedBehind, Step;
    if later != [] {
      var t := Step(o, s, later[0]);
      SealedStep(o, s, later[0]);
      StepGood(o, s, later[0]);
      SealedBehindStep(o, s, later[0]);
      if Unseals(later[0]) {
        FailedForGood(o, t, later[1..]);
      } else {
        SealedLater(o, t, later[1..]);
        assert forall i | 0 < i < |later| :: later[i] == later[1..][i - 1];
      }
    }
  }

  const SEALING: seq<Event> := [Begin, BeginClosing, JobStarts, End, CaseExit]
  const SEALED: seq<Event> := [Seal, SealInputs, SealQueue, SealEnds(true), AckClose, SealCloses]

  /** Both happen: this run, without any registration, ends sealed, and either event then makes it fail. */
  lemma {:induction false} SealedThenFailed(o: Options)
    ensures Run(o, START, SEALING + SEALED).status == Status(Sealed, None)
    ensures Run(o, START, SEALING + SEALED + [ReadError]).status == Status(Failed, Some(Channel))
    ensures Run(o, START, SEALING + SEALED + [Terminate(true)]).status == Status(Failed, Some(DeadlinePassed))
  {
    hide Run, Step;
    var closed := ClosedDown(o);
    var sealed := SealedDown(o, closed);
    RunAppend(o, START, SEALING, SEALED);
    RunAppend(o, START, SEALING + SEALED, [ReadError]);
    RunAppend(o, START, SEALING + SEALED, [Terminate(true)]);
    Turn(o, sealed, [ReadError], 0);
    Turn(o, sealed, [Terminate(true)], 0);
    Nothing(o, Step(o, sealed, ReadError));
    Nothing(o, Step(o, sealed, Terminate(true)));
    assert [ReadError][0..] == [ReadError] && [ReadError][1..] == [];
    assert [Terminate(true)][0..] == [Terminate(true)] && [Terminate(true)][1..] == [];
    StartGood(o);
    SealedBehindRun(o, START, SEALING + SEALED);
    SealedStep(o, sealed, ReadError);
    SealedStep(o, sealed, Terminate(true));
  }

  lemma {:induction false} ClosedDown(o: Options) returns (s: State)
    ensures s == Run(o, START, SEALING)
    ensures s.status == Status(Closing, None) && s.input == Input(true, true, true, false, true, 0, [])
    ensures s.jobs == START.jobs.(enqueued := 1, finished := 1) && s.seal == NotAsked && s.ackClosed == None
  {
    hide Run;
    var a := Step(o, Step(o, START, Begin), BeginClosing);
    var b := Step(o, a, JobStarts);
    s := Step(o, Step(o, b, End), CaseExit);
    assert a.jobs.queue == [Close];
    Turn(o, START, SEALING, 0);
    Turn(o, Step(o, START, Begin), SEALING, 1);
    Turn(o, a, SEALING, 2);
    Turn(o, b, SEALING, 3);
    Turn(o, Step(o, b, End), SEALING, 4);
    Nothing(o, s);
    assert SEALING[0..] == SEALING && SEALING[5..] == [];
  }

  lemma {:induction false} SealedDown(o: Options, s: State) returns (t: State)
    requires s.status == Status(Closing, None) && s.seal == NotAsked && s.ackClosed == None
    requires s.input.started && s.input.closingRequested && s.input.ended && s.input.caseExited && s.input.pending == []
    requires s.jobs.inFlight == 0 && s.jobs.enqueued == s.jobs.finished
    ensures t == Run(o, s, SEALED) && t.status == Status(Sealed, None) && t.jobs == s.jobs
  {
    hide Run;
    var a := Step(o, s, Seal);
    var b := Step(o, a, SealInputs);
    var c := Step(o, b, SealQueue);
    var d := Step(o, c, SealEnds(true));
    var e := Step(o, d, AckClose);
    t := Step(o, e, SealCloses);
    Turn(o, s, SEALED, 0);
    Turn(o, a, SEALED, 1);
    Turn(o, b, SEALED, 2);
    Turn(o, c, SEALED, 3);
    Turn(o, d, SEALED, 4);
    Turn(o, e, SEALED, 5);
    Nothing(o, t);
    assert SEALED[0..] == SEALED && SEALED[6..] == [];
  }

  lemma Nothing(o: Options, s: State)
    ensures Run(o, s, []) == s
  {
  }

  lemma {:induction false} Turn(o: Options, s: State, events: seq<Event>, k: nat)
    requires k < |events|
    ensures Run(o, s, events[k..]) == Run(o, Step(o, s, events[k]), events[k + 1..])
  {
    hide Step;
    assert events[k..][1..] == events[k + 1..];
  }

  lemma {:induction false} RunAppend(o: Options, s: State, a: seq<Event>, b: seq<Event>)
    ensures Run(o, s, a + b) == Run(o, Run(o, s, a), b)
    decreases |a|
  {
    hide Step;
    if a == [] {
      assert a + b == b;
    } else {
      assert (a + b)[1..] == a[1..] + b;
      RunAppend(o, Step(o, s, a[0]), a[1..], b);
    }
  }

  // Termination receipts

  datatype Receipt = Gone | Unverified(why: Option<Reason>)

  /** The receipt obtained before the final check; `answer` is what the supervisor would say. */
  function Obtained(s: State, answer: Receipt): Receipt {
    if s.jobs.retained == [] && s.status.phase == Sealed then Gone else answer
  }

  function Reported(s: State, receipt: Receipt): Receipt {
    if s.status.poison.Some? || s.status.phase == Failed then Unverified(s.status.poison)
    else if s.status.phase != Sealed then Unverified(None)
    else receipt
  }

  lemma {:induction false} EndedFreezes(o: Options, s: State, e: Event)
    requires s.input.ended
    ensures Step(o, s, e).input.ended && Step(o, s, e).jobs.frames == s.jobs.frames
  {
    hide RegistrationDone, Receive;
    JobEnds(s.jobs);
    JobEnds(s.jobs.(cleanups := s.jobs.cleanups + 1));
    if s.jobs.queue != [] {
      JobEnds(s.jobs.(queue := s.jobs.queue[1..]));
    }
    if s.jobs.running.Registering? {
      JobEnds(s.jobs.(late := if s.jobs.running.retained then s.jobs.late else s.jobs.late + [s.jobs.running.frame]));
    }
  }

  lemma {:induction false} EndedForGood(o: Options, s: State, events: seq<Event>)
    requires s.input.ended
    ensures Run(o, s, events).jobs.frames == s.jobs.frames
    decreases |events|
  {
    hide Step;
    if events != [] {
      EndedFreezes(o, s, events[0]);
      EndedForGood(o, Step(o, s, events[0]), events[1..]);
    }
  }

  lemma {:induction false} NeverGoneLate(o: Options, s: State, later: seq<Event>, answer: Receipt)
    ensures var t := Step(o, s, Terminate(true)); Reported(Run(o, t, later), Obtained(t, answer)) != Gone
  {
    hide Run;
    FailedForGood(o, Step(o, s, Terminate(true)), later);
  }

  /**
   A `gone` receipt comes only from an unpoisoned, sealed coordinator asked before the deadline, whatever
   happened while the supervisor was asked; without its word only when nothing was ever registered.
   */
  lemma {:induction false} GoneMeansSealed(
    o: Options, events: seq<Event>, expired: bool, later: seq<Event>, answer: Receipt)
    requires var s := Step(o, Run(o, START, events), Terminate(expired));
             Reported(Run(o, s, later), Obtained(s, answer)) == Gone
    ensures !expired
    ensures var t := Run(o, Run(o, START, events), later);
            && t.status == Status(Sealed, None) && FullyRegistered(t)
            && (answer == Gone || t.jobs.frames == [])
  {
    StartGood(o);
    RunGood(o, START, events);
    var s := Run(o, START, events);
    NeverGoneLate(o, s, later, answer);
    RunGood(o, s, later);
    var t := Run(o, s, later);
    if s.status.phase == Sealed {
      SealedMeans(o, events);
      EndedForGood(o, s, later);
    }
    hide Run, Distinct, Parented, QueuedFrames;
    assert QueuedFrames(t.jobs.queue) == [];
  }
}
