/** What becomes of a handler's response (server-go/bus/module_runtime.go, runHandler and
    finishModuleWork), and what the end of the context makes of the jobs that run. */
module ServerOutcomes {
  import opened LittleEndian
  import opened ModuleProtocol
  import opened Events
  import opened Serving
  import opened Server
  import opened ServerReplies
  import R = Reply

  /** What a response says: its own status, with its body if it is OK; but Internal when the status
      is unknown or the body too long. */
  ghost predicate Says(r: Response, status: u16, body: seq<byte>) {
    if r.status <= STATUS_INTERNAL && |r.body| <= MAX_BODY
    then status == r.status && body == if r.status == STATUS_OK then r.body else []
    else status == STATUS_INTERNAL && body == []
  }

  /** A lawful outcome: what the handler said, or a cancel that was seen, or a deadline that the
      job had. */
  ghost predicate Lawful(s: State, id: nat, status: u16, body: seq<byte>) {
    && id in s.invocations
    && (|| (id in s.responses && Says(s.responses[id], status, body))
        || (status == STATUS_CANCELLED && body == [] && id in s.cancelled)
        || (status == STATUS_DEADLINE_EXCEEDED && body == [] && s.invocations[id].work.deadlineNS != 0))
  }

  ghost predicate LawfulPhase(s: State, id: nat, p: Phase) {
    match p
    case Working => true
    case Normalised(status, body) => id in s.responses && Says(s.responses[id], status, body)
    case FlagClear(status, body) =>
      && id in s.responses && Says(s.responses[id], status, body)
      && id in s.invocations && s.invocations[id].work.deadlineNS != 0
    case Ready(status, body) => Lawful(s, id, status, body)
  }

  ghost predicate Sound(s: State) {
    && (forall id :: id in s.invocations ==> id < s.nextId)
    && (forall id :: id in s.handlers ==>
          && id in s.invocations && s.invocations[id].work == s.handlers[id].work
          && LawfulPhase(s, id, s.handlers[id].phase))
    && (forall f :: f in s.done ==> Lawful(s, f.work.id, f.status, f.body))
    && (forall e :: e in s.log && e.origin.Result? ==> Lawful(s, e.origin.id, e.status, e.body))
  }

  /** n knows of job id at least what s does. */
  ghost predicate Extends(s: State, n: State, id: nat) {
    && (id in s.responses ==> id in n.responses && n.responses[id] == s.responses[id])
    && (id in s.invocations ==> id in n.invocations && n.invocations[id] == s.invocations[id])
    && (id in s.cancelled ==> id in n.cancelled)
  }

  lemma LawfulExtends(s: State, n: State, id: nat, status: u16, body: seq<byte>)
    requires Lawful(s, id, status, body) && Extends(s, n, id)
    ensures Lawful(n, id, status, body)
  {
    hide Says;
  }

  lemma PhaseExtends(s: State, n: State, id: nat, p: Phase)
    requires id in s.invocations && LawfulPhase(s, id, p) && Extends(s, n, id)
    ensures LawfulPhase(n, id, p)
  {
    hide Says;
  }

  /** Handlers, results and log entries of s, and at most one of each more. */
  lemma SoundExtends(s: State, n: State)
    requires Sound(s) && s.nextId <= n.nextId && forall id :: id in n.invocations ==> id < n.nextId
    requires forall id :: id in n.handlers ==>
      && id in n.invocations && n.invocations[id].work == n.handlers[id].work
      && (|| LawfulPhase(n, id, n.handlers[id].phase)
          || (id in s.handlers && n.handlers[id] == s.handlers[id] && Extends(s, n, id)))
    requires forall f :: f in n.done ==>
      Lawful(n, f.work.id, f.status, f.body) || (f in s.done && Extends(s, n, f.work.id))
    requires forall e :: e in n.log && e.origin.Result? ==>
      Lawful(n, e.origin.id, e.status, e.body) || (e in s.log && Extends(s, n, e.origin.id))
    ensures Sound(n)
  {
    hide Lawful, LawfulPhase, Extends;
    forall id | id in n.handlers ensures LawfulPhase(n, id, n.handlers[id].phase) {
      if !LawfulPhase(n, id, n.handlers[id].phase) {
        PhaseExtends(s, n, id, s.handlers[id].phase);
      }
    }
    forall f | f in n.done ensures Lawful(n, f.work.id, f.status, f.body) {
      if !Lawful(n, f.work.id, f.status, f.body) {
        LawfulExtends(s, n, f.work.id, f.status, f.body);
      }
    }
    forall e | e in n.log && e.origin.Result? ensures Lawful(n, e.origin.id, e.status, e.body) {
      if !Lawful(n, e.origin.id, e.status, e.body) {
        LawfulExtends(s, n, e.origin.id, e.status, e.body);
      }
    }
  }

  /** A response is recorded once, before anything is reported of its job. */
  lemma ReturnKeepsSound(s: State, id: nat, r: Response)
    requires Sound(s) && Inv(s) && RunningUnreported(s) && Enabled(s, HandlerReturns(id, r))
    ensures Sound(HandlerStep(s, HandlerReturns(id, r)))
  {
    hide TablesInv, UniqueIds, Served, Owns, LawfulPhase, Lawful;
    var n := HandlerStep(s, HandlerReturns(id, r));
    ReturnSays(s, id, r);
    forall f | f in n.done ensures f.work.id != id {
      var i :| 0 <= i < |s.done| && s.done[i] == f;
    }
    forall e | e in n.log && e.origin.Result? ensures e.origin.id != id {
      var i :| 0 <= i < |s.log| && s.log[i] == e;
    }
    SoundExtends(s, n);
  }

  lemma ReturnSays(s: State, id: nat, r: Response)
    requires Enabled(s, HandlerReturns(id, r))
    ensures var n := HandlerStep(s, HandlerReturns(id, r));
      LawfulPhase(n, id, n.handlers[id].phase)
  {
  }

  lemma PhaseStepKeepsSound(s: State, a: Action)
    requires Sound(s) && Enabled(s, a) && (a.HandlerLoadsFlag? || a.HandlerReadsClock?)
    ensures Sound(HandlerStep(s, a))
  {
    hide LawfulPhase, Lawful;
    var n := HandlerStep(s, a);
    PhaseStepIsLawful(s, a);
    SoundExtends(s, n);
  }

  lemma PhaseStepIsLawful(s: State, a: Action)
    requires Sound(s) && Enabled(s, a) && (a.HandlerLoadsFlag? || a.HandlerReadsClock?)
    ensures var n := HandlerStep(s, a); LawfulPhase(n, a.id, n.handlers[a.id].phase)
  {
    hide Says;
    assert LawfulPhase(s, a.id, s.handlers[a.id].phase);
  }

  lemma SendKeepsSound(s: State, id: nat)
    requires Sound(s) && Enabled(s, HandlerSends(id)) && s.handlers[id].work.id == id
    ensures Sound(HandlerStep(s, HandlerSends(id)))
  {
    hide Lawful, LawfulPhase;
    var n := HandlerStep(s, HandlerSends(id));
    ReadyIsLawful(s, n, id);
    SoundExtends(s, n);
  }

  lemma ReadyIsLawful(s: State, n: State, id: nat)
    requires Sound(s) && id in s.handlers && s.handlers[id].phase.Ready? && Extends(s, n, id)
    ensures Lawful(n, id, s.handlers[id].phase.status, s.handlers[id].phase.body)
  {
    hide Says;
    assert LawfulPhase(s, id, s.handlers[id].phase);
  }

  lemma TakeKeepsSound(cfg: Config, s: State, e: Event)
    requires Sound(s) && Inv(s) && s.loop.AtPoll?
    ensures Sound(Take(cfg, s, e))
  {
    hide Handle, FramesOf, Sound, Inv;
    HandleStartsOrKeeps(cfg, s.tables, e, s.loop.now, s.nextId);
    var n := Take(cfg, s, e);
    if Handle(cfg, s.tables, e, s.loop.now, s.nextId).disposition.Started? {
      StartKeepsSound(s, n);
    } else {
      RejectKeepsSound(s, n);
    }
  }

  lemma StartKeepsSound(s: State, n: State)
    requires Sound(s) && n.nextId == s.nextId + 1 && n.done == s.done && n.log == s.log
    requires n.responses == s.responses && n.cancelled == s.cancelled
    requires exists w: Work, body ::
      && n.invocations == s.invocations[s.nextId := Invocation(w, body)]
      && n.handlers == s.handlers[s.nextId := Goroutine(w, Working)]
    ensures Sound(n)
  {
    hide Lawful, LawfulPhase;
    WorkingIsLawful(n, s.nextId);
    LawfulAreOld(s);
    SoundExtends(s, n);
  }

  lemma LawfulAreOld(s: State)
    requires Sound(s)
    ensures forall f :: f in s.done ==> f.work.id < s.nextId
    ensures forall e :: e in s.log && e.origin.Result? ==> e.origin.id < s.nextId
    ensures forall id :: id in s.handlers ==> id < s.nextId
  {
    hide Says, LawfulPhase;
  }

  lemma RejectKeepsSound(s: State, n: State)
    requires Sound(s) && n.nextId == s.nextId && n.done == s.done && n.handlers == s.handlers
    requires n.responses == s.responses && n.invocations == s.invocations && s.cancelled <= n.cancelled
    requires n.log == s.log || exists e: Entry :: n.log == s.log + [e] && e.origin == Rejection
    ensures Sound(n)
  {
    hide Lawful, LawfulPhase;
    SoundExtends(s, n);
  }

  lemma WorkingIsLawful(s: State, id: nat)
    ensures LawfulPhase(s, id, Working)
  {
  }

  lemma ReceiveKeepsSound(cfg: Config, s: State)
    requires Sound(s) && s.done != []
    ensures Sound(Receive(cfg, s))
  {
    hide Lawful, LawfulPhase, FramesOf;
    var n := Receive(cfg, s);
    assert n.log == s.log + [EntryOf(s.done[0])];
    ReceivedIsLawful(s, n);
    SoundExtends(s, n);
  }

  lemma ReceivedIsLawful(s: State, n: State)
    requires Sound(s) && s.done != [] && n.responses == s.responses && n.invocations == s.invocations
    requires n.cancelled == s.cancelled
    ensures Lawful(n, s.done[0].work.id, s.done[0].status, s.done[0].body)
  {
    hide Says;
    assert s.done[0] in s.done;
  }

  lemma LoopKeepsSound(s: State, n: State)
    requires Sound(s) && LoopOnly(s, n)
    ensures Sound(n)
  {
    hide Lawful, LawfulPhase;
    SoundExtends(s, n);
  }

  lemma StepKeepsSound(cfg: Config, s: State, a: Action)
    requires cfg.Valid() && Sound(s) && Inv(s) && RunningUnreported(s) && Enabled(s, a)
    ensures Sound(Next(cfg, s, a))
  {
    hide Sound, RunningUnreported, Receive, Take, HandlerStep, JobIds, Inv;
    if a.HandlerReturns? {
      ReturnKeepsSound(s, a.id, a.response);
    } else if a.HandlerSends? {
      OwnWork(s, a.id);
      SendKeepsSound(s, a.id);
    } else if OfHandler(a) {
      PhaseStepKeepsSound(s, a);
    } else if a.PollEvent? {
      TakeKeepsSound(cfg, s, a.event);
    } else if a.ReceiveResult? {
      ReceiveKeepsSound(cfg, s);
    } else {
      hide Next, Enabled;
      LoopSteps(cfg, s, a);
      LoopKeepsSound(s, Next(cfg, s, a));
    }
  }

  lemma {:induction false} RunKeepsSound(cfg: Config, s: State, run: seq<Action>)
    requires cfg.Valid() && Inv(s) && RunningUnreported(s) && Sound(s) && Legal(cfg, s, run)
    ensures Sound(After(cfg, s, run))
    decreases |run|
  {
    hide Inv, RunningUnreported, Sound, Next, Enabled;
    if run != [] {
      StepKeepsInv(cfg, s, run[0]);
      StepKeepsUnreported(cfg, s, run[0]);
      StepKeepsSound(cfg, s, run[0]);
      RunKeepsSound(cfg, Next(cfg, s, run[0]), run[1..]);
    }
  }

  /** On every run each reported result is the handler's own status, with its body if that is OK;
      or Internal for a status that is unknown or a body too long; or Cancelled, if a cancel was
      seen; or DeadlineExceeded, if the job had a deadline. */
  lemma EveryResultIsLawful(cfg: Config, run: seq<Action>)
    requires cfg.Valid() && Legal(cfg, Start(), run)
    ensures var s := After(cfg, Start(), run);
      && (forall f :: f in s.done ==> Lawful(s, f.work.id, f.status, f.body))
      && (forall e :: e in s.log && e.origin.Result? ==> Lawful(s, e.origin.id, e.status, e.body))
  {
    hide Legal, After, Lawful;
    ReachesSound(cfg, run);
  }

  lemma ReachesSound(cfg: Config, run: seq<Action>)
    requires cfg.Valid() && Legal(cfg, Start(), run)
    ensures var s := After(cfg, Start(), run); Sound(s) && Inv(s) && RunningUnreported(s)
  {
    hide Legal, After;
    StartInv();
    assert RunningUnreported(Start()) && Sound(Start());
    SoundFrom(cfg, Start(), run);
  }

  lemma SoundFrom(cfg: Config, s: State, run: seq<Action>)
    requires cfg.Valid() && Inv(s) && RunningUnreported(s) && Sound(s) && Legal(cfg, s, run)
    ensures Sound(After(cfg, s, run)) && Inv(After(cfg, s, run)) && RunningUnreported(After(cfg, s, run))
  {
    hide Legal, After, Inv, RunningUnreported, Sound;
    RunKeepsInv(cfg, s, run);
    RunKeepsUnreported(cfg, s, run);
    RunKeepsSound(cfg, s, run);
  }

  // ---- the last look decides -----------------------------------------------------------------

  /** The outcome of job id is fixed, from the handler that is ready to send it to the log. */
  ghost predicate Fixed(s: State, id: nat, status: u16, body: seq<byte>) {
    && id < s.nextId && (id in s.handlers ==> s.handlers[id].phase == Ready(status, body))
    && (forall f :: f in s.done && f.work.id == id ==> f.status == status && f.body == body)
    && (forall e :: e in s.log && e.origin == Result(id) ==> e.status == status && e.body == body)
  }

  lemma HandlerKeepsFixed(s: State, a: Action, id: nat, status: u16, body: seq<byte>)
    requires Fixed(s, id, status, body) && Inv(s) && Enabled(s, a) && OfHandler(a)
    ensures Fixed(HandlerStep(s, a), id, status, body)
  {
    hide Inv, HandlerStep, Fixed;
    if a.HandlerSends? {
      OwnWork(s, a.id);
      SendKeepsFixed(s, a.id, id, status, body);
    } else {
      PhaseStepKeepsFixed(s, a, id, status, body);
    }
  }

  lemma OwnWork(s: State, id: nat)
    requires Inv(s) && id in s.handlers
    ensures s.handlers[id].work.id == id
  {
    hide TablesInv, UniqueIds, Served, Owns;
  }

  lemma SendKeepsFixed(s: State, k: nat, id: nat, status: u16, body: seq<byte>)
    requires Fixed(s, id, status, body) && Enabled(s, HandlerSends(k)) && s.handlers[k].work.id == k
    ensures Fixed(HandlerStep(s, HandlerSends(k)), id, status, body)
  {
  }

  lemma PhaseStepKeepsFixed(s: State, a: Action, id: nat, status: u16, body: seq<byte>)
    requires Fixed(s, id, status, body) && Enabled(s, a) && OfHandler(a) && !a.HandlerSends?
    ensures Fixed(HandlerStep(s, a), id, status, body)
  {
    hide NormalisedResponse;
  }

  lemma ReceiveKeepsFixed(cfg: Config, s: State, id: nat, status: u16, body: seq<byte>)
    requires Fixed(s, id, status, body) && s.done != []
    ensures Fixed(Receive(cfg, s), id, status, body)
  {
    hide FramesOf;
    assert Receive(cfg, s).log == s.log + [EntryOf(s.done[0])] && s.done[0] in s.done;
  }

  lemma TakeKeepsFixed(cfg: Config, s: State, e: Event, id: nat, status: u16, body: seq<byte>)
    requires Fixed(s, id, status, body) && s.loop.AtPoll?
    ensures Fixed(Take(cfg, s, e), id, status, body)
  {
    hide Handle, FramesOf;
  }

  lemma StepKeepsFixed(cfg: Config, s: State, a: Action, id: nat, status: u16, body: seq<byte>)
    requires Fixed(s, id, status, body) && Inv(s) && Enabled(s, a)
    ensures Fixed(Next(cfg, s, a), id, status, body)
  {
    hide JobIds, Inv, HandlerStep, Take, Receive, Fixed;
    if OfHandler(a) {
      HandlerKeepsFixed(s, a, id, status, body);
    } else if a.PollEvent? {
      TakeKeepsFixed(cfg, s, a.event, id, status, body);
    } else if a.ReceiveResult? {
      ReceiveKeepsFixed(cfg, s, id, status, body);
    } else {
      hide Next, Enabled;
      LoopSteps(cfg, s, a);
      LoopKeepsFixed(s, Next(cfg, s, a), id, status, body);
    }
  }

  lemma LoopKeepsFixed(s: State, n: State, id: nat, status: u16, body: seq<byte>)
    requires Fixed(s, id, status, body) && LoopOnly(s, n)
    ensures Fixed(n, id, status, body)
  {
  }

  lemma {:induction false} RunKeepsFixed(cfg: Config, s: State, run: seq<Action>, id: nat, status: u16, body: seq<byte>)
    requires cfg.Valid() && Inv(s) && Fixed(s, id, status, body) && Legal(cfg, s, run)
    ensures Fixed(After(cfg, s, run), id, status, body)
    decreases |run|
  {
    hide Inv, Fixed, Next, Enabled;
    if run != [] {
      StepKeepsInv(cfg, s, run[0]);
      StepKeepsFixed(cfg, s, run[0], id, status, body);
      RunKeepsFixed(cfg, Next(cfg, s, run[0]), run[1..], id, status, body);
    }
  }

  /** Everything that is ever reported of job id satisfies p. */
  ghost predicate Concludes(s: State, id: nat, p: (u16, seq<byte>) -> bool) {
    && (forall f :: f in s.done && f.work.id == id ==> p(f.status, f.body))
    && (forall e :: e in s.log && e.origin == Result(id) ==> p(e.status, e.body))
  }

  /** The step that makes a handler ready fixes its outcome. */
  lemma ReadyIsFixed(s: State, a: Action)
    requires Inv(s) && RunningUnreported(s) && Sound(s) && Enabled(s, a) && (a.HandlerLoadsFlag? || a.HandlerReadsClock?)
    requires HandlerStep(s, a).handlers[a.id].phase.Ready?
    ensures var p := HandlerStep(s, a).handlers[a.id].phase; Fixed(HandlerStep(s, a), a.id, p.status, p.body)
  {
    hide TablesInv, UniqueIds, Served, Owns, LawfulPhase, Lawful;
    var n := HandlerStep(s, a);
    forall f | f in n.done ensures f.work.id != a.id {
      var i :| 0 <= i < |s.done| && s.done[i] == f;
    }
    forall e | e in n.log && e.origin.Result? ensures e.origin.id != a.id {
      var i :| 0 <= i < |s.log| && s.log[i] == e;
    }
  }

  lemma FixedConcludes(cfg: Config, s: State, run: seq<Action>, id: nat, status: u16, body: seq<byte>)
    requires cfg.Valid() && Inv(s) && Fixed(s, id, status, body) && Legal(cfg, s, run)
    ensures Concludes(After(cfg, s, run), id, (t: u16, b: seq<byte>) => t == status && b == body)
  {
    hide Inv, Legal, After;
    RunKeepsFixed(cfg, s, run, id, status, body);
  }

  lemma LastLook(cfg: Config, s: State, a: Action, after: seq<Action>)
    requires cfg.Valid() && Inv(s) && RunningUnreported(s) && Sound(s)
    requires Enabled(s, a) && (a.HandlerLoadsFlag? || a.HandlerReadsClock?) && Legal(cfg, HandlerStep(s, a), after)
    requires HandlerStep(s, a).handlers[a.id].phase.Ready?
    ensures var p := HandlerStep(s, a).handlers[a.id].phase;
      Concludes(After(cfg, HandlerStep(s, a), after), a.id, (t: u16, b: seq<byte>) => t == p.status && b == p.body)
  {
    ReadyIsFixed(s, a);
    var p := HandlerStep(s, a).handlers[a.id].phase;
    hide Inv, RunningUnreported, Sound, Legal, After, HandlerStep, Fixed, Concludes;
    StepIsHandlers(cfg, s, a);
    StepKeepsInv(cfg, s, a);
    FixedConcludes(cfg, HandlerStep(s, a), after, a.id, p.status, p.body);
  }

  lemma StepIsHandlers(cfg: Config, s: State, a: Action)
    requires Enabled(s, a) && OfHandler(a)
    ensures Next(cfg, s, a) == HandlerStep(s, a)
  {
  }

  /** Looking at the cancel flag: set, it makes the job Cancelled for good; clear, and without a
      deadline, the job is reported as its handler said. */
  lemma FlagDecides(cfg: Config, before: seq<Action>, id: nat, after: seq<Action>)
    requires cfg.Valid() && Legal(cfg, Start(), before) && Enabled(After(cfg, Start(), before), HandlerLoadsFlag(id))
    requires Legal(cfg, HandlerStep(After(cfg, Start(), before), HandlerLoadsFlag(id)), after)
    ensures var s := After(cfg, Start(), before);
      var end := After(cfg, HandlerStep(s, HandlerLoadsFlag(id)), after);
      && (id in s.cancelled ==> Concludes(end, id, (t: u16, b: seq<byte>) => t == STATUS_CANCELLED && b == []))
      && (id !in s.cancelled && s.handlers[id].work.deadlineNS == 0 ==>
            id in s.responses && Concludes(end, id, (t: u16, b: seq<byte>) => Says(s.responses[id], t, b)))
  {
    hide Legal, After, Inv, RunningUnreported;
    ReachesSound(cfg, before);
    var s := After(cfg, Start(), before);
    assert LawfulPhase(s, id, s.handlers[id].phase);
    if id in s.cancelled || s.handlers[id].work.deadlineNS == 0 {
      LastLook(cfg, s, HandlerLoadsFlag(id), after);
    }
  }

  /** Reading the clock after that: at or past the deadline the job is DeadlineExceeded for good,
      before it, or without a reading, it is reported as its handler said. */
  lemma ClockDecides(cfg: Config, before: seq<Action>, id: nat, now: u64, after: seq<Action>)
    requires cfg.Valid() && Legal(cfg, Start(), before) && Enabled(After(cfg, Start(), before), HandlerReadsClock(id, now))
    requires Legal(cfg, HandlerStep(After(cfg, Start(), before), HandlerReadsClock(id, now)), after)
    ensures var s := After(cfg, Start(), before);
      var end := After(cfg, HandlerStep(s, HandlerReadsClock(id, now)), after);
      && id in s.responses
      && Concludes(end, id, (t: u16, b: seq<byte>) =>
           if now != 0 && s.handlers[id].work.deadlineNS <= now then t == STATUS_DEADLINE_EXCEEDED && b == []
           else Says(s.responses[id], t, b))
  {
    hide Legal, After, Inv, RunningUnreported;
    ReachesSound(cfg, before);
    var s := After(cfg, Start(), before);
    assert LawfulPhase(s, id, s.handlers[id].phase);
    LastLook(cfg, s, HandlerReadsClock(id, now), after);
  }

  // ---- the loop's own emits ----------------------------------------------------------------------

  function Emits(script: seq<R.Attempt>): seq<Action> {
    if script == [] then [] else [Emit(script[0])] + Emits(script[1..])
  }

  /** The attempt leaves the loop in its reply. */
  predicate GoesOn(a: R.Attempt) {
    a == R.Accepts || a == R.Full(R.Retry)
  }

  /** The loop with n more fragments of its reply sent; on says whether it is still at it. */
  function Sent(s: State, n: nat, on: bool): State
    requires s.loop.Replying? && n <= |s.loop.rest|
  {
    var rest := s.loop.rest;
    s.(outbox := s.outbox + rest[..n],
       loop := if n == |rest| then Draining else if on then Replying(rest[n..]) else Stopped(rest[n..]))
  }

  /** The loop's emits are the delivery that replyModuleResult makes of the same attempts: each
      fragment leaves once and in order, a ring that is full for a while is tried again, and
      anything else ends the loop with the rest unsent. */
  lemma {:induction false} EmitsExactly(cfg: Config, s: State, script: seq<R.Attempt>)
    requires s.loop.Replying? && s.loop.rest != [] && Legal(cfg, s, Emits(script))
    ensures var n := R.Accepted(script);
      && n <= |s.loop.rest| && R.Delivered(script, |s.loop.rest|).1 == n
      && After(cfg, s, Emits(script)) == Sent(s, n, script == [] || GoesOn(script[|script| - 1]))
    decreases |script|
  {
    hide Next, Enabled, Sent;
    if script == [] {
      NothingSent(s);
    } else {
      var a, tail := script[0], script[1..];
      assert Emits(script)[1..] == Emits(tail);
      EmitStep(cfg, s, a);
      var n := Next(cfg, s, Emit(a));
      if GoesOn(a) && n.loop.Replying? {
        EmitsExactly(cfg, n, tail);
        if a == R.Accepts {
          SentOneMore(s, R.Accepted(tail), tail == [] || GoesOn(tail[|tail| - 1]));
        }
      } else {
        NoMoreEmits(cfg, n, tail);
      }
    }
  }

  lemma NothingSent(s: State)
    requires s.loop.Replying? && s.loop.rest != []
    ensures Sent(s, 0, true) == s && Sent(s, 0, false) == s.(loop := Stopped(s.loop.rest))
  {
    assert s.outbox + s.loop.rest[..0] == s.outbox;
  }

  lemma EmitStep(cfg: Config, s: State, a: R.Attempt)
    requires s.loop.Replying? && s.loop.rest != []
    ensures Enabled(s, Emit(a))
    ensures Next(cfg, s, Emit(a)) ==
      if a == R.Accepts then Sent(s, 1, true) else if a == R.Full(R.Retry) then s else Sent(s, 0, false)
    ensures Next(cfg, s, Emit(a)).loop ==
      if a == R.Accepts && |s.loop.rest| == 1 then Draining
      else if GoesOn(a) then Replying(if a == R.Accepts then s.loop.rest[1..] else s.loop.rest)
      else Stopped(s.loop.rest)
  {
    NothingSent(s);
    assert s.loop.rest[..1] == [s.loop.rest[0]];
  }

  lemma SentOneMore(s: State, n: nat, on: bool)
    requires s.loop.Replying? && n + 1 <= |s.loop.rest| && 1 < |s.loop.rest|
    ensures Sent(s, 1, true).loop.Replying? && n <= |Sent(s, 1, true).loop.rest|
    ensures Sent(Sent(s, 1, true), n, on) == Sent(s, n + 1, on)
  {
    var rest := s.loop.rest;
    assert s.outbox + rest[..1] + rest[1..][..n] == s.outbox + rest[..n + 1];
  }

  lemma NoMoreEmits(cfg: Config, s: State, script: seq<R.Attempt>)
    requires !s.loop.Replying? && Legal(cfg, s, Emits(script))
    ensures script == []
  {
  }

  // ---- the end of the context ------------------------------------------------------------------

  /** Nothing is taken, begun or sent any more, and the loop leaves only without jobs. */
  ghost predicate Closing(s: State, n: State) {
    && n.outbox == s.outbox && n.log == s.log && n.polled == s.polled && n.nextId == s.nextId
    && (n.loop == ShuttingDown || (n.loop == Stopped([]) && n.tables.jobs == map[]))
  }

  lemma StepKeepsClosing(cfg: Config, s: State, n: State, a: Action)
    requires Closing(s, n) && Enabled(n, a)
    ensures Closing(s, Next(cfg, n, a))
  {
    hide Take, Receive, FramesOf, JobIds, NormalisedResponse;
  }

  lemma {:induction false} RunKeepsClosing(cfg: Config, s: State, n: State, run: seq<Action>)
    requires Closing(s, n) && Legal(cfg, n, run)
    ensures Closing(s, After(cfg, n, run))
    decreases |run|
  {
    hide Closing, Next, Enabled;
    if run != [] {
      StepKeepsClosing(cfg, s, n, run[0]);
      RunKeepsClosing(cfg, s, Next(cfg, n, run[0]), run[1..]);
    }
  }

  /** Once the context has ended nothing more is taken, begun or sent, the loop returns only when no
      job is left, and every handler that had not yet looked at its flag ends as Cancelled. */
  lemma ContextEndCloses(cfg: Config, before: seq<Action>, after: seq<Action>)
    requires cfg.Valid() && Legal(cfg, Start(), before) && After(cfg, Start(), before).loop == AtContext
    requires Legal(cfg, Next(cfg, After(cfg, Start(), before), CheckContext(true)), after)
    ensures var s := After(cfg, Start(), before);
      var end := After(cfg, Next(cfg, s, CheckContext(true)), after);
      && Closing(s, end)
      && (forall id :: id in s.handlers && (PhaseOf(s, id).Working? || PhaseOf(s, id).Normalised?) ==>
            forall f :: f in end.done && f.work.id == id ==> f.status == STATUS_CANCELLED && f.body == [])
  {
    hide Legal, After, Sound, Next, Closing;
    ReachesSound(cfg, before);
    var s := After(cfg, Start(), before);
    var n := Next(cfg, s, CheckContext(true));
    EndBeginsClosing(cfg, s);
    RunKeepsClosing(cfg, s, n, after);
    StepKeepsInv(cfg, s, CheckContext(true));
    var end := After(cfg, n, after);
    forall id | id in s.handlers && (PhaseOf(s, id).Working? || PhaseOf(s, id).Normalised?)
      ensures forall f :: f in end.done && f.work.id == id ==> f.status == STATUS_CANCELLED && f.body == []
    {
      EndDooms(cfg, s, id);
      RunKeepsDoom(cfg, n, after, id);
    }
  }

  lemma EndBeginsClosing(cfg: Config, s: State)
    requires s.loop == AtContext
    ensures Closing(s, Next(cfg, s, CheckContext(true)))
  {
  }

  lemma EndDooms(cfg: Config, s: State, id: nat)
    requires Inv(s) && RunningUnreported(s) && s.loop == AtContext
    requires id in s.handlers && (PhaseOf(s, id).Working? || PhaseOf(s, id).Normalised?)
    ensures Doomed(Next(cfg, s, CheckContext(true)), id)
  {
    hide TablesInv, UniqueIds, Served;
    var w := s.handlers[id].work;
    assert Owns(s.tables, w);
    assert s.tables.jobs[w.correlationID].id in JobIds(s.tables);
  }

  // ---- before each poll ------------------------------------------------------------------------

  /** The loop is past the check of the context, respectively past that of the epoch as well. */
  predicate PastContext(l: Loop) {
    l == AtEpoch || l.AtPoll?
  }

  predicate PastResults(l: Loop) {
    l == AtContext || PastContext(l)
  }

  /** How the loop gets from one stage before a poll to the next. */
  lemma StageByStage(cfg: Config, s: State, a: Action)
    requires Enabled(s, a)
    ensures var n := Next(cfg, s, a);
      && (PastResults(n.loop) && !PastResults(s.loop) ==> a == NothingDone && s.done == [])
      && (PastContext(n.loop) && !PastContext(s.loop) ==> a == CheckContext(false))
      && (n.loop.AtPoll? && !s.loop.AtPoll? ==> a == CheckEpoch(false, n.loop.now))
      && (n.loop.AtPoll? && s.loop.AtPoll? ==> n.loop == s.loop && OfHandler(a))
  {
    hide Take, Receive, FramesOf, JobIds, HandlerStep;
    if a.PollEvent? {
      TakeStartsOver(cfg, s, a.event);
    } else if a.ReceiveResult? {
      ReceiveStartsOver(cfg, s);
    } else if OfHandler(a) {
      HandlersKeepBooks(s, a);
    }
  }

  lemma TakeStartsOver(cfg: Config, s: State, e: Event)
    requires s.loop.AtPoll?
    ensures !PastResults(Take(cfg, s, e).loop)
  {
    hide Handle, FramesOf;
  }

  lemma ReceiveStartsOver(cfg: Config, s: State)
    requires s.done != []
    ensures !PastResults(Receive(cfg, s).loop)
  {
    hide FramesOf;
  }

  lemma {:induction false} GetsToPoll(cfg: Config, s: State, run: seq<Action>)
    requires Legal(cfg, s, run) && After(cfg, s, run).loop.AtPoll?
    ensures !PastResults(s.loop) ==> NothingDone in run
    ensures !PastContext(s.loop) ==> CheckContext(false) in run
    ensures !s.loop.AtPoll? ==> CheckEpoch(false, After(cfg, s, run).loop.now) in run
    ensures s.loop.AtPoll? ==> After(cfg, s, run).loop == s.loop || CheckEpoch(false, After(cfg, s, run).loop.now) in run
    decreases |run|
  {
    hide Next, Enabled;
    if run != [] {
      StageByStage(cfg, s, run[0]);
      GetsToPoll(cfg, Next(cfg, s, run[0]), run[1..]);
    }
  }

  /** Between two polls the loop has found no result waiting, its context alive and its epoch
      unchanged, and has read the clock it compares deadlines with. */
  lemma PollsLookFirst(cfg: Config, s: State, poll: Action, run: seq<Action>)
    requires cfg.Valid() && Enabled(s, poll) && (poll.PollEvent? || poll.PollNothing?)
    requires Legal(cfg, Next(cfg, s, poll), run) && After(cfg, Next(cfg, s, poll), run).loop.AtPoll?
    ensures NothingDone in run && CheckContext(false) in run
    ensures CheckEpoch(false, After(cfg, Next(cfg, s, poll), run).loop.now) in run
  {
    hide Legal, After, Next, Enabled;
    PollLeaves(cfg, s, poll);
    GetsToPoll(cfg, Next(cfg, s, poll), run);
  }

  lemma PollLeaves(cfg: Config, s: State, poll: Action)
    requires Enabled(s, poll) && (poll.PollEvent? || poll.PollNothing?)
    ensures !PastResults(Next(cfg, s, poll).loop)
  {
    hide Take;
    if poll.PollEvent? {
      TakeStartsOver(cfg, s, poll.event);
    }
  }

  /** The loop has returned, and nothing is taken, begun or sent any more. */
  ghost predicate Returned(s: State, n: State) {
    n.loop == Stopped([]) && n.outbox == s.outbox && n.log == s.log && n.polled == s.polled && n.nextId == s.nextId
  }

  lemma {:induction false} StaysReturned(cfg: Config, s: State, n: State, run: seq<Action>)
    requires Returned(s, n) && Legal(cfg, n, run)
    ensures Returned(s, After(cfg, n, run))
    decreases |run|
  {
    hide Take, Receive, FramesOf, JobIds, NormalisedResponse;
    if run != [] {
      StaysReturned(cfg, s, Next(cfg, n, run[0]), run[1..]);
    }
  }

  /** A changed epoch or a broken bus ends the loop for good, with nothing taken or sent after it. */
  lemma EpochOrBusEndsLoop(cfg: Config, s: State, a: Action, run: seq<Action>)
    requires Enabled(s, a) && (a.PollFails? || (a.CheckEpoch? && a.changed)) && Legal(cfg, Next(cfg, s, a), run)
    ensures Returned(s, After(cfg, Next(cfg, s, a), run))
  {
    hide Legal, After;
    StaysReturned(cfg, s, Next(cfg, s, a), run);
  }
}
