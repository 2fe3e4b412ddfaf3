/**
 What the registration coordinator does for the runs it is there for: proper registrations are retained and
 accepted one after the other and the coordinator seals; anything improper is refused with its reason.
 */
module RegistrationRuns {
  import opened Basics
  import opened Bytes
  import opened Registration

  /** Nothing is in flight or half read, and nothing went wrong. */
  predicate Waits(s: State) {
    && s.status.poison == None && s.input.started && !s.input.ended && s.input.pending == []
    && s.jobs.running == Idle && s.jobs.queue == [] && s.jobs.inFlight == 0 && s.jobs.enqueued == s.jobs.finished
  }

  /** One complete line within its limit. */
  predicate OneLine(line: Bytes) {
    0 < |line| <= MAX_FRAME_BYTES && line[|line| - 1] == NEWLINE && NEWLINE !in line[..|line| - 1]
  }

  /** The line fits the channel's budget and is a frame that can be reserved. */
  predicate Proper(o: Options, s: State, line: Bytes, f: Frame) {
    && OneLine(line) && s.input.channelBytes + |line| <= MAX_CHANNEL_BYTES && o.parse(line) == Some(f)
    && |s.jobs.frames| < MAX_GROUPS && forall i | 0 <= i < |s.jobs.frames| ::
         s.jobs.frames[i].nonce != f.nonce && s.jobs.frames[i].pid != f.pid
  }

  function Received(s: State, line: Bytes): State {
    s.(input := s.input.(channelBytes := s.input.channelBytes + |line|))
  }

  const REGISTRATION: seq<Event> := [JobStarts, RootRetained, RegistrationContinues, AckSettles(true)]

  /** The coordinator after the frame was retained and answered. */
  function Registered(s: State, line: Bytes, f: Frame, accepted: bool): State {
    Received(s, line).(jobs := s.jobs.(
      frames := s.jobs.frames + [f], retained := s.jobs.retained + [f], acks := s.jobs.acks + [Ack(f, accepted)],
      enqueued := s.jobs.enqueued + 1, finished := s.jobs.finished + 1))
  }

  lemma {:induction false} NewlineLast(line: Bytes)
    requires line != [] && line[|line| - 1] == NEWLINE && NEWLINE !in line[..|line| - 1]
    ensures FindByte(line, NEWLINE) == Some(|line| - 1)
  {
    assert line[|line| - 1] in line;
    assert forall i | 0 <= i < |line| - 1 :: line[..|line| - 1][i] == line[i];
  }

  /** A line is read as one frame. */
  lemma {:induction false} LineReserved(o: Options, s: State, line: Bytes)
    requires Waits(s) && OneLine(line) && s.input.channelBytes + |line| <= MAX_CHANNEL_BYTES && s.status.phase != Failed
    ensures Step(o, s, Data(line)) == Reserve(o, Received(s, line), line)
  {
    NewlineLast(line);
    hide FindByte, Reserve;
    var t := Received(s, line);
    assert [] + line[..|line|] == line && WithPending(t, []) == t && line[|line|..] == [];
    var u := Reserve(o, t, line);
    assert Consume(o, u, []) == u;
  }

  /** It does not matter how a line is cut in two. */
  lemma {:induction false} LineInParts(o: Options, s: State, a: Bytes, b: Bytes)
    requires Waits(s) && s.status.phase != Failed && a != [] && b != [] && OneLine(a + b)
    requires s.input.channelBytes + |a + b| <= MAX_CHANNEL_BYTES
    ensures Run(o, s, [Data(a), Data(b)]) == Run(o, s, [Data(a + b)])
  {
    hide Run, Step;
    TwoSteps(o, s, Data(a), Data(b));
    OneStep(o, s, Data(a + b));
    LineReserved(o, s, a + b);
    FirstPart(o, s, a, b);
    SecondPart(o, Step(o, s, Data(a)), a, b);
    assert WithPending(WithPending(Received(s, a), a), []) == Received(s, a);
    assert Received(Received(s, a), b) == Received(s, a + b);
  }

  lemma {:induction false} FirstPart(o: Options, s: State, a: Bytes, b: Bytes)
    requires Waits(s) && s.status.phase != Failed && a != [] && b != [] && OneLine(a + b)
    requires s.input.channelBytes + |a + b| <= MAX_CHANNEL_BYTES
    ensures Step(o, s, Data(a)) == WithPending(Received(s, a), a)
  {
    assert forall i | 0 <= i < |a| :: a[i] == (a + b)[..|a + b| - 1][i];
    assert NEWLINE !in a;
    assert FindByte(a, NEWLINE) == None && [] + a == a;
  }

  lemma {:induction false} SecondPart(o: Options, s: State, a: Bytes, b: Bytes)
    requires s.input.started && !s.input.ended && s.input.pending == a && s.jobs.inFlight == 0
    requires s.status.phase != Failed
    requires b != [] && OneLine(a + b) && s.input.channelBytes + |b| <= MAX_CHANNEL_BYTES
    ensures Step(o, s, Data(b)) == Reserve(o, WithPending(Received(s, b), []), a + b)
  {
    assert forall i | 0 <= i < |b| - 1 :: b[i] == (a + b)[..|a + b| - 1][|a| + i];
    assert b[|b| - 1] == (a + b)[|a + b| - 1];
    NewlineLast(b);
    hide FindByte, Reserve;
    assert b[..|b|] == b && b[|b|..] == [];
    var u := Reserve(o, WithPending(Received(s, b), []), a + b);
    assert Consume(o, u, []) == u;
  }

  lemma Reserving(o: Options, s: State, line: Bytes, f: Frame)
    requires Waits(s) && Proper(o, s, line, f) && (s.status.phase == Open || s.status.phase == Closing)
    ensures Step(o, s, Data(line)) == Received(s, line).(jobs := Reserved(s.jobs, f))
  {
    LineReserved(o, s, line);
    hide Step;
    assert !Known(s.jobs.frames, f);
  }

  lemma ReservedJobs(j: Jobs, f: Frame)
    requires j.queue == [] && j.inFlight == 0
    ensures Reserved(j, f).queue == [Register(f)] && Reserved(j, f).inFlight == 1
    ensures Reserved(j, f).queue[1..] == []
  {
  }

  /**
   A proper registration: its root is retained, and it is answered with `accepted` while the coordinator is
   open and the case is its parent, with `rejected` while it is closing; then the coordinator waits again.
   */
  lemma {:induction false} ProperRegistration(o: Options, s: State, line: Bytes, f: Frame)
    requires Waits(s) && Proper(o, s, line, f)
    requires s.status.phase == Closing || (s.status.phase == Open && f.parentPid == o.casePid)
    ensures Run(o, s, [Data(line)] + REGISTRATION) == Registered(s, line, f, s.status.phase == Open)
    ensures Waits(Registered(s, line, f, s.status.phase == Open))
  {
    hide Run, Step;
    Reserving(o, s, line, f);
    ReservedJobs(s.jobs, f);
    var a := Step(o, s, Data(line));
    var b := Started(o, a, f);
    var c := Step(o, b, RootRetained);
    var d := Step(o, c, RegistrationContinues);
    var e := Step(o, d, AckSettles(true));
    AnsweredAt(o, b, f);
    FiveSteps(o, s, Data(line), JobStarts, RootRetained, RegistrationContinues, AckSettles(true));
    assert [Data(line)] + REGISTRATION
        == [Data(line), JobStarts, RootRetained, RegistrationContinues, AckSettles(true)];
  }

  lemma {:induction false} Started(o: Options, s: State, f: Frame) returns (t: State)
    requires s.jobs.running == Idle && s.jobs.queue == [Register(f)]
    requires s.status.phase == Closing || (s.status.phase == Open && f.parentPid == o.casePid)
    ensures t == Step(o, s, JobStarts) && t == s.(jobs := s.jobs.(queue := [], running := Registering(f, false)))
  {
    t := Step(o, s, JobStarts);
  }

  lemma {:induction false} AnsweredAt(o: Options, s: State, f: Frame)
    requires s.jobs.running == Registering(f, false) && s.jobs.inFlight == 1
    requires s.status.phase == Closing || s.status.phase == Open
    ensures var t := Step(o, Step(o, Step(o, s, RootRetained), RegistrationContinues), AckSettles(true));
            t == s.(jobs := s.jobs.(
              retained := s.jobs.retained + [f], acks := s.jobs.acks + [Ack(f, s.status.phase == Open)],
              running := Idle, finished := s.jobs.finished + 1, inFlight := 0))
  {
    var c := Step(o, s, RootRetained);
    assert c == s.(jobs := s.jobs.(retained := s.jobs.retained + [f], running := Registering(f, true)));
    var d := Step(o, c, RegistrationContinues);
    assert d == c.(jobs := c.jobs.(acks := c.jobs.acks + [Ack(f, s.status.phase == Open)], running := Acking(f)));
  }

  lemma {:induction false} FiveSteps(o: Options, s: State, a: Event, b: Event, c: Event, d: Event, e: Event)
    ensures Run(o, s, [a, b, c, d, e]) == Step(o, Step(o, Step(o, Step(o, Step(o, s, a), b), c), d), e)
  {
    hide Run, Step;
    var events := [a, b, c, d, e];
    Turn(o, s, events, 0);
    Turn(o, Step(o, s, a), events, 1);
    Turn(o, Step(o, Step(o, s, a), b), events, 2);
    Turn(o, Step(o, Step(o, Step(o, s, a), b), c), events, 3);
    Turn(o, Step(o, Step(o, Step(o, Step(o, s, a), b), c), d), events, 4);
    Nothing(o, Step(o, Step(o, Step(o, Step(o, Step(o, s, a), b), c), d), e));
    assert events[0..] == events && events[5..] == [];
  }

  // What is refused

  /** Every improper line fails the channel at once, and nothing is reserved. */
  lemma {:induction false} ImproperLine(o: Options, s: State, line: Bytes)
    requires Waits(s) && s.status.phase != Failed && s.status.phase != Sealed && OneLine(line)
    requires forall f :: !Proper(o, s, line, f)
    ensures var t := Run(o, s, [Data(line)]);
            t.status == Status(Failed, Some(Channel)) && t.jobs == s.jobs
  {
    hide Run, Step;
    OneStep(o, s, Data(line));
    if s.input.channelBytes + |line| <= MAX_CHANNEL_BYTES {
      LineReserved(o, s, line);
      if o.parse(line).Some? {
        assert !Proper(o, s, line, o.parse(line).value);
      }
    } else {
      OverBudget(o, s, line);
    }
  }

  lemma OneStep(o: Options, s: State, e: Event)
    ensures Run(o, s, [e]) == Step(o, s, e)
  {
    hide Step;
    assert [e][1..] == [];
    assert Run(o, Step(o, s, e), []) == Step(o, s, e);
  }

  lemma OverBudget(o: Options, s: State, chunk: Bytes)
    requires s.input.started && !s.input.ended && s.input.channelBytes + |chunk| > MAX_CHANNEL_BYTES
    ensures Step(o, s, Data(chunk)) == Fail(Received(s, chunk), Channel)
  {
  }

  /** A line that does not end within 1024 bytes, and a second line behind one that has been reserved. */
  lemma {:induction false} OverlongOrOvertaking(o: Options, s: State, line: Bytes, more: Bytes, f: Frame)
    requires Waits(s) && (s.status.phase == Open || s.status.phase == Closing)
    ensures |more| > MAX_FRAME_BYTES && NEWLINE !in more ==>
              Run(o, s, [Data(more)]).status == Status(Failed, Some(Channel))
    ensures Proper(o, s, line, f) && more != [] ==>
              Run(o, s, [Data(line + more)]).status == Status(Failed, Some(Channel))
    ensures Proper(o, s, line, f) ==> Run(o, s, [Data(line), Data(more)]).status == Status(Failed, Some(Channel))
  {
    hide Run, Step;
    OneStep(o, s, Data(more));
    OneStep(o, s, Data(line + more));
    if |more| > MAX_FRAME_BYTES && NEWLINE !in more {
      TooLong(o, s, more);
    }
    if Proper(o, s, line, f) {
      if more != [] {
        Overtaken(o, s, line, more, f);
      }
      Reserving(o, s, line, f);
      InTheWay(o, Step(o, s, Data(line)), more);
      TwoSteps(o, s, Data(line), Data(more));
    }
  }

  lemma TooLong(o: Options, s: State, more: Bytes)
    requires Waits(s) && s.status.phase != Failed && |more| > MAX_FRAME_BYTES && NEWLINE !in more
    ensures Step(o, s, Data(more)).status == Status(Failed, Some(Channel))
  {
    assert FindByte(more, NEWLINE) == None;
  }

  lemma {:induction false} Overtaken(o: Options, s: State, line: Bytes, more: Bytes, f: Frame)
    requires Waits(s) && (s.status.phase == Open || s.status.phase == Closing) && Proper(o, s, line, f) && more != []
    ensures Step(o, s, Data(line + more)).status == Status(Failed, Some(Channel))
  {
    FirstLine(line, more);
    hide FindByte;
    var t := Received(s, line + more);
    assert [] + (line + more)[..|line|] == line && WithPending(t, []) == t;
    assert !Known(s.jobs.frames, f);
  }

  lemma {:induction false} FirstLine(line: Bytes, more: Bytes)
    requires OneLine(line)
    ensures FindByte(line + more, NEWLINE) == Some(|line| - 1)
  {
    var all := line + more;
    assert all[|line| - 1] == NEWLINE;
    assert forall i | 0 <= i < |line| - 1 :: all[i] == line[..|line| - 1][i];
  }

  lemma InTheWay(o: Options, s: State, more: Bytes)
    requires s.input.started && !s.input.ended && s.jobs.inFlight != 0 && s.status.poison == None
    requires s.status.phase != Failed
    ensures Step(o, s, Data(more)).status == Status(Failed, Some(Channel))
  {
  }

  lemma TwoSteps(o: Options, s: State, a: Event, b: Event)
    ensures Run(o, s, [a, b]) == Step(o, Step(o, s, a), b)
  {
    hide Step, Run;
    RunAppend(o, s, [a], [b]);
    OneStep(o, s, a);
    OneStep(o, Step(o, s, a), b);
    assert [a] + [b] == [a, b];
  }

  /** While the coordinator is open, a frame with another parent fails the channel before anything is registered. */
  lemma {:induction false} ForeignParent(o: Options, s: State, line: Bytes, f: Frame)
    requires Waits(s) && Proper(o, s, line, f) && s.status.phase == Open && f.parentPid != o.casePid
    ensures var t := Run(o, s, [Data(line), JobStarts]);
            && t.status == Status(Failed, Some(Channel)) && t.jobs.retained == s.jobs.retained
            && t.jobs.acks == s.jobs.acks && t.jobs.cleanups == s.jobs.cleanups
  {
    hide Run, Step;
    Reserving(o, s, line, f);
    ReservedJobs(s.jobs, f);
    TwoSteps(o, s, Data(line), JobStarts);
    ForeignStarts(o, Step(o, s, Data(line)), f);
  }

  lemma ForeignStarts(o: Options, s: State, f: Frame)
    requires s.jobs.running == Idle && s.jobs.queue == [Register(f)]
    requires s.status == Status(Open, None) && f.parentPid != o.casePid
    ensures var t := Step(o, s, JobStarts);
            && t.status == Status(Failed, Some(Channel)) && t.jobs.retained == s.jobs.retained
            && t.jobs.acks == s.jobs.acks && t.jobs.cleanups == s.jobs.cleanups
  {
  }

  /**
   Why a started registration fails, and what becomes of its root: a rejected one is an identity failure, an
   expired one a deadline, a failing answer a channel failure; a root that was retained is handed to clean-up.
   */
  lemma {:induction false} FailedRegistration(o: Options, s: State, line: Bytes, f: Frame)
    requires Waits(s) && Proper(o, s, line, f) && s.status.phase == Open && f.parentPid == o.casePid
    ensures var start := [Data(line), JobStarts];
            && Ends(Run(o, s, start + [RegistrationRejected]), s, Identity, 0, [])
            && Ends(Run(o, s, start + [RegistrationExpired]), s, DeadlinePassed, 0, [])
            && Ends(Run(o, s, start + [RootRetained, RegistrationExpired]), s, DeadlinePassed, 1, [])
            && Ends(Run(o, s, start + [RootRetained, RegistrationContinues, AckSettles(false)]), s, Channel, 1,
                    [Ack(f, true)])
            && Ends(Run(o, s, start + [RootRetained, Deadline, RegistrationContinues]), s, DeadlinePassed, 2, [])
  {
    hide Run, Step;
    Reserving(o, s, line, f);
    ReservedJobs(s.jobs, f);
    var start := [Data(line), JobStarts];
    var b := Started(o, Step(o, s, Data(line)), f);
    TwoSteps(o, s, Data(line), JobStarts);
    RunAppend(o, s, start, [RegistrationRejected]);
    RunAppend(o, s, start, [RegistrationExpired]);
    RunAppend(o, s, start, [RootRetained, RegistrationExpired]);
    RunAppend(o, s, start, [RootRetained, RegistrationContinues, AckSettles(false)]);
    RunAppend(o, s, start, [RootRetained, Deadline, RegistrationContinues]);
    OneStep(o, b, RegistrationRejected);
    OneStep(o, b, RegistrationExpired);
    TwoSteps(o, b, RootRetained, RegistrationExpired);
    ThreeSteps(o, b, RootRetained, RegistrationContinues, AckSettles(false));
    ThreeSteps(o, b, RootRetained, Deadline, RegistrationContinues);
    FailsBefore(o, b, f);
    FailsAfter(o, b, f);
  }

  /** Failed for this reason, with so many more clean-ups and these answers. */
  predicate Ends(t: State, s: State, why: Reason, cleanups: nat, acks: seq<Ack>) {
    && t.status == Status(Failed, Some(why)) && t.jobs.acks == s.jobs.acks + acks
    && t.jobs.cleanups == s.jobs.cleanups + cleanups && t.jobs.running == Idle
  }

  lemma ThreeSteps(o: Options, s: State, a: Event, b: Event, c: Event)
    ensures Run(o, s, [a, b, c]) == Step(o, Step(o, Step(o, s, a), b), c)
  {
    hide Step, Run;
    RunAppend(o, s, [a, b], [c]);
    TwoSteps(o, s, a, b);
    OneStep(o, Step(o, Step(o, s, a), b), c);
    assert [a, b] + [c] == [a, b, c];
  }

  lemma {:induction false} FailsBefore(o: Options, s: State, f: Frame)
    requires s.jobs.running == Registering(f, false) && s.status == Status(Open, None)
    ensures Ends(Step(o, s, RegistrationRejected), s, Identity, 0, [])
    ensures Ends(Step(o, s, RegistrationExpired), s, DeadlinePassed, 0, [])
  {
    assert s.jobs.acks + [] == s.jobs.acks;
  }

  lemma {:induction false} FailsAfter(o: Options, s: State, f: Frame)
    requires s.jobs.running == Registering(f, false) && s.status == Status(Open, None)
    ensures var c := Step(o, s, RootRetained);
            && Ends(Step(o, c, RegistrationExpired), s, DeadlinePassed, 1, [])
            && Ends(Step(o, Step(o, c, RegistrationContinues), AckSettles(false)), s, Channel, 1, [Ack(f, true)])
            && Ends(Step(o, Step(o, c, Deadline), RegistrationContinues), s, DeadlinePassed, 2, [])
  {
    assert s.jobs.acks + [] == s.jobs.acks;
    assert Step(o, s, RootRetained)
        == s.(jobs := s.jobs.(retained := s.jobs.retained + [f], running := Registering(f, true)));
  }

  /** A root that is retained after its registration expired is handed to clean-up, and nobody is answered. */
  lemma {:induction false} LateRoot(o: Options, s: State, line: Bytes, f: Frame)
    requires Waits(s) && Proper(o, s, line, f) && s.status.phase == Open && f.parentPid == o.casePid
    requires s.jobs.late == []
    ensures var t := Run(o, s, [Data(line), JobStarts] + [RegistrationExpired, LateRetained]);
            Ends(t, s, DeadlinePassed, 1, []) && t.jobs.retained == s.jobs.retained + [f] && t.jobs.late == []
  {
    hide Run, Step;
    Reserving(o, s, line, f);
    ReservedJobs(s.jobs, f);
    var b := Started(o, Step(o, s, Data(line)), f);
    TwoSteps(o, s, Data(line), JobStarts);
    RunAppend(o, s, [Data(line), JobStarts], [RegistrationExpired, LateRetained]);
    TwoSteps(o, b, RegistrationExpired, LateRetained);
    RetainedLater(o, b, f);
  }

  lemma {:induction false} RetainedLater(o: Options, s: State, f: Frame)
    requires s.jobs.running == Registering(f, false) && s.status == Status(Open, None) && s.jobs.late == []
    ensures var t := Step(o, Step(o, s, RegistrationExpired), LateRetained);
            Ends(t, s, DeadlinePassed, 1, []) && t.jobs.retained == s.jobs.retained + [f] && t.jobs.late == []
  {
    assert s.jobs.acks + [] == s.jobs.acks;
    assert Step(o, s, RegistrationExpired).jobs.late == [f];
  }

  /**
   What else fails a waiting coordinator, and why: the deadline, or being asked to terminate past it; an error
   of either channel, the end of the registration channel without notice, or an error of the living case.
   Nothing but data can do so otherwise.
   */
  lemma {:induction false} WhatFails(o: Options, s: State, e: Event)
    requires Waits(s) && (s.status.phase == Open || s.status.phase == Closing) && !e.Data?
    requires !s.seal.AwaitQueue? && !s.seal.AwaitEnd? && !s.seal.AwaitAckClose?
    ensures Step(o, s, e).status == Status(Failed, Some(DeadlinePassed)) <==> e == Deadline || e == Terminate(true)
    ensures Step(o, s, e).status == Status(Failed, Some(Channel)) <==>
            || e == ReadError || e == ReadClose || (e == AckError && s.ackClosed != Some(true))
            || (e == CaseError && !s.input.caseExited)
    ensures Step(o, s, e).status.phase == Failed ==>
              Step(o, s, e).status.poison in {Some(DeadlinePassed), Some(Channel)}
  {
  }

  /** A channel that ends within a line fails. */
  lemma {:induction false} EndsWithinLine(o: Options, s: State, part: Bytes)
    requires Waits(s) && (s.status.phase == Open || s.status.phase == Closing)
    requires part != [] && NEWLINE !in part && |part| <= MAX_FRAME_BYTES
    requires s.input.channelBytes + |part| <= MAX_CHANNEL_BYTES
    ensures Run(o, s, [Data(part), End]).status == Status(Failed, Some(Channel))
    ensures Run(o, s, [End]).status == s.status
  {
    hide Run, FindByte;
    TwoSteps(o, s, Data(part), End);
    OneStep(o, s, End);
    NoNewline(part);
    assert [] + part == part;
  }

  lemma NoNewline(part: Bytes)
    requires NEWLINE !in part
    ensures FindByte(part, NEWLINE) == None
  {
  }

  // To the seal

  const CLOSING: seq<Event> := [BeginClosing, JobStarts, End, CaseExit]

  /** From a waiting coordinator, closing and sealing succeed, and nothing that was registered changes. */
  lemma {:induction false} Seals(o: Options, s: State)
    requires Waits(s) && s.status.phase == Open && s.seal == NotAsked && s.ackClosed == None
    ensures var t := Run(o, s, CLOSING + SEALED);
            && t.status == Status(Sealed, None)
            && t.jobs.frames == s.jobs.frames && t.jobs.retained == s.jobs.retained && t.jobs.acks == s.jobs.acks
  {
    hide Run, Step;
    RunAppend(o, s, CLOSING, SEALED);
    var t := ClosesDown(o, s);
    var u := SealedDown(o, t);
  }

  lemma {:induction false} ClosesDown(o: Options, s: State) returns (t: State)
    requires Waits(s) && s.status.phase == Open
    ensures t == Run(o, s, CLOSING)
    ensures t == s.(status := Status(Closing, None),
                    input := s.input.(closingRequested := true, ended := true, caseExited := true),
                    jobs := s.jobs.(enqueued := s.jobs.enqueued + 1, finished := s.jobs.finished + 1))
  {
    hide Run;
    var a := Step(o, s, BeginClosing);
    assert a.jobs.queue == [Close] && a.jobs.queue[1..] == [];
    var b := Step(o, a, JobStarts);
    var c := Step(o, b, End);
    t := Step(o, c, CaseExit);
    Turn(o, s, CLOSING, 0);
    Turn(o, a, CLOSING, 1);
    Turn(o, b, CLOSING, 2);
    Turn(o, c, CLOSING, 3);
    Nothing(o, t);
    assert CLOSING[0..] == CLOSING && CLOSING[4..] == [];
  }

  /** A closing coordinator that has all it needs to seal. */
  predicate Drained(s: State) {
    && s.status == Status(Closing, None) && s.seal == NotAsked && s.ackClosed == None
    && s.input.started && s.input.closingRequested && s.input.ended && s.input.caseExited && s.input.pending == []
    && s.jobs.inFlight == 0 && s.jobs.enqueued == s.jobs.finished
  }

  const SEAL_BEGINS: seq<Event> := [Seal, SealInputs, SealQueue]

  /** Sealing fails when the acknowledgement channel does not end, or breaks before it closes. */
  lemma {:induction false} SealRefused(o: Options, s: State)
    requires Drained(s)
    ensures Run(o, s, SEAL_BEGINS + [SealEnds(false)]).status == Status(Failed, Some(Channel))
    ensures Run(o, s, SEAL_BEGINS + [SealEnds(true), AckError]).status == Status(Failed, Some(Channel))
    ensures Run(o, s, SEAL_BEGINS + [SealEnds(true), AckClose, SealCloses]).status == Status(Sealed, None)
  {
    hide Run, Step;
    ThreeSteps(o, s, Seal, SealInputs, SealQueue);
    var t := Run(o, s, SEAL_BEGINS);
    RunAppend(o, s, SEAL_BEGINS, [SealEnds(false)]);
    RunAppend(o, s, SEAL_BEGINS, [SealEnds(true), AckError]);
    RunAppend(o, s, SEAL_BEGINS, [SealEnds(true), AckClose, SealCloses]);
    OneStep(o, t, SealEnds(false));
    TwoSteps(o, t, SealEnds(true), AckError);
    ThreeSteps(o, t, SealEnds(true), AckClose, SealCloses);
    SealEndings(o, s, t);
  }

  lemma {:induction false} SealEndings(o: Options, s: State, t: State)
    requires Drained(s) && t == Step(o, Step(o, Step(o, s, Seal), SealInputs), SealQueue)
    ensures Step(o, t, SealEnds(false)).status == Status(Failed, Some(Channel))
    ensures Step(o, Step(o, t, SealEnds(true)), AckError).status == Status(Failed, Some(Channel))
    ensures Step(o, Step(o, Step(o, t, SealEnds(true)), AckClose), SealCloses).status == Status(Sealed, None)
  {
  }

  /** Sealing waits for the end of the input, the exit of the case and the jobs queued before it. */
  lemma SealWaits(o: Options, s: State)
    requires s.status.phase != Failed
    ensures !s.input.started || !s.input.closingRequested ==> Step(o, s, Seal) == s
    ensures !s.input.ended || !s.input.caseExited ==> Step(o, s, SealInputs) == s
    ensures s.seal.AwaitQueue? && s.jobs.finished < s.seal.jobs ==> Step(o, s, SealQueue) == s
    ensures s.ackClosed == None ==> Step(o, s, SealCloses) == s
  {
  }

  // All registrations of a case

  /** Distinct proper frames of the case's own children, at most 16, within the budget of the channel. */
  predicate ProperLines(o: Options, lines: seq<Bytes>, frames: seq<Frame>) {
    && |lines| == |frames| <= MAX_GROUPS && TotalBytes(lines) <= MAX_CHANNEL_BYTES
    && (forall i | 0 <= i < |lines| ::
          OneLine(lines[i]) && o.parse(lines[i]) == Some(frames[i]) && frames[i].parentPid == o.casePid)
    && (forall i, j | 0 <= i < j < |frames| :: frames[i].nonce != frames[j].nonce && frames[i].pid != frames[j].pid)
  }

  function TotalBytes(lines: seq<Bytes>): nat {
    if lines == [] then 0 else TotalBytes(lines[..|lines| - 1]) + |lines[|lines| - 1]|
  }

  function Registrations(lines: seq<Bytes>): seq<Event> {
    if lines == [] then []
    else Registrations(lines[..|lines| - 1]) + ([Data(lines[|lines| - 1])] + REGISTRATION)
  }

  function Accepted(frames: seq<Frame>): (acks: seq<Ack>)
    ensures |acks| == |frames|
  {
    seq(|frames|, i requires 0 <= i < |frames| => Ack(frames[i], true))
  }

  /** Everything so far was registered and accepted, and the coordinator waits for more. */
  predicate AllIn(s: State, frames: seq<Frame>, bytes: nat) {
    && Waits(s) && s.status.phase == Open && s.seal == NotAsked && s.ackClosed == None
    && s.jobs.frames == s.jobs.retained == frames && s.jobs.acks == Accepted(frames) && s.input.channelBytes == bytes
  }

  lemma {:induction false} AllRegister(o: Options, lines: seq<Bytes>, frames: seq<Frame>)
    requires ProperLines(o, lines, frames)
    ensures AllIn(Run(o, START, [Begin] + Registrations(lines)), frames, TotalBytes(lines))
    decreases |lines|
  {
    hide Run, Step, AllIn, ProperLines;
    if lines == [] {
      assert [Begin] + Registrations([]) == [Begin];
      OneStep(o, START, Begin);
      Begun(o, lines, frames);
    } else {
      FrontProper(o, lines, frames);
      var k := |lines| - 1;
      var front, last, f := lines[..k], lines[k], frames[k];
      AllRegister(o, front, frames[..k]);
      var s := Run(o, START, [Begin] + Registrations(front));
      OneMoreIn(o, s, lines, frames);
      assert [Begin] + Registrations(lines) == [Begin] + Registrations(front) + ([Data(last)] + REGISTRATION);
      RunAppend(o, START, [Begin] + Registrations(front), [Data(last)] + REGISTRATION);
    }
  }

  lemma {:induction false} OneMoreIn(o: Options, s: State, lines: seq<Bytes>, frames: seq<Frame>)
    requires ProperLines(o, lines, frames) && lines != []
    requires AllIn(s, frames[..|lines| - 1], TotalBytes(lines[..|lines| - 1]))
    ensures AllIn(Run(o, s, [Data(lines[|lines| - 1])] + REGISTRATION), frames, TotalBytes(lines))
  {
    hide Run, Step, OneLine;
    var k := |lines| - 1;
    var last, f := lines[k], frames[k];
    assert Proper(o, s, last, f) by {
      assert forall i | 0 <= i < k :: frames[..k][i] == frames[i];
    }
    ProperRegistration(o, s, last, f);
    assert frames[..k] + [f] == frames && Accepted(frames[..k]) + [Ack(f, true)] == Accepted(frames);
  }

  lemma Begun(o: Options, lines: seq<Bytes>, frames: seq<Frame>)
    requires ProperLines(o, lines, frames) && lines == []
    ensures AllIn(Step(o, START, Begin), frames, TotalBytes(lines))
  {
    assert Accepted([]) == [];
  }

  lemma {:induction false} FrontProper(o: Options, lines: seq<Bytes>, frames: seq<Frame>)
    requires ProperLines(o, lines, frames) && lines != []
    ensures |frames| == |lines| && ProperLines(o, lines[..|lines| - 1], frames[..|lines| - 1])
    ensures TotalBytes(lines) == TotalBytes(lines[..|lines| - 1]) + |lines[|lines| - 1]|
  {
    hide OneLine;
  }

  /**
   A case whose children all register properly: every root is retained, every frame is accepted, in order, and
   the coordinator seals and passes on that the registered groups are gone.
   */
  lemma {:induction false} AllRegisterAndSeal(o: Options, lines: seq<Bytes>, frames: seq<Frame>)
    requires ProperLines(o, lines, frames)
    ensures var t := Run(o, START, [Begin] + Registrations(lines) + (CLOSING + SEALED));
            && t.status == Status(Sealed, None) && t.jobs.retained == frames && t.jobs.acks == Accepted(frames)
            && Reported(t, Obtained(t, Gone)) == Gone
  {
    hide Run, Step;
    AllRegister(o, lines, frames);
    RunAppend(o, START, [Begin] + Registrations(lines), CLOSING + SEALED);
    Seals(o, Run(o, START, [Begin] + Registrations(lines)));
  }
}
