/** Whose words a reply carries (server-go/bus/module_runtime.go, runHandler and
    finishModuleWork): an OK reply holds exactly what one handler returned for one job. */
module ServerAnswers {
  import opened LittleEndian
  import opened ModuleProtocol
  import opened Events
  import opened Serving
  import opened Server
  import opened ServerReplies

  /** An OK outcome of job id is the handler's own OK response. */
  ghost predicate Truthful(s: State, id: nat, status: u16, body: seq<byte>) {
    status == STATUS_OK ==> id in s.responses && s.responses[id] == Response(STATUS_OK, body)
  }

  ghost predicate HonestPhase(s: State, id: nat, p: Phase) {
    p.Working? || Truthful(s, id, p.status, p.body)
  }

  ghost predicate HonestEntry(s: State, e: Entry) {
    match e.origin
    case Rejection => e.status != STATUS_OK
    case Result(id) =>
      && id in s.invocations && Truthful(s, id, e.status, e.body)
      && var w := s.invocations[id].work;
         e.kind == w.eventKind && e.correlation == w.correlationID && e.stageID == w.stageID && e.traceID == w.traceID
  }

  /** Outcomes on their way to the bus, and those already begun, are what handlers said about
      the jobs they were started with. */
  ghost predicate Honest(s: State) {
    && (forall id :: id in s.invocations ==> id < s.nextId && s.invocations[id].work.id == id)
    && (forall c :: c in s.tables.jobs ==>
          s.tables.jobs[c].id in s.invocations && s.invocations[s.tables.jobs[c].id].work == s.tables.jobs[c])
    && (forall id :: id in s.handlers ==> HonestPhase(s, id, s.handlers[id].phase))
    && (forall i :: 0 <= i < |s.done| ==> Truthful(s, s.done[i].work.id, s.done[i].status, s.done[i].body))
    && (forall i :: 0 <= i < |s.log| ==> HonestEntry(s, s.log[i]))
  }

  lemma HandlerKeepsHonest(s: State, a: Action)
    requires Honest(s) && Inv(s) && RunningUnreported(s) && Enabled(s, a) && OfHandler(a)
    ensures Honest(HandlerStep(s, a))
  {
    match a
    case HandlerReturns(id, r) => ReturnKeepsHonest(s, id, r);
    case HandlerSends(id) => SendKeepsHonest(s, id);
    case _ => PhaseKeepsHonest(s, a);
  }

  /** A handler speaks once, so its response disturbs nobody else's and no report of its own. */
  lemma ReturnKeepsHonest(s: State, id: nat, r: Response)
    requires Honest(s) && Inv(s) && RunningUnreported(s) && Enabled(s, HandlerReturns(id, r))
    ensures Honest(HandlerStep(s, HandlerReturns(id, r)))
  {
    hide UniqueIds, Served, TablesInv, Owns;
    var n := HandlerStep(s, HandlerReturns(id, r));
    forall k | k in n.handlers ensures HonestPhase(n, k, n.handlers[k].phase) {
      if k != id {
        assert HonestPhase(s, k, s.handlers[k].phase);
      }
    }
    forall i | 0 <= i < |n.log| ensures HonestEntry(n, n.log[i]) {
      assert HonestEntry(s, s.log[i]);
    }
  }

  lemma PhaseKeepsHonest(s: State, a: Action)
    requires Honest(s) && Enabled(s, a) && (a.HandlerLoadsFlag? || a.HandlerReadsClock?)
    ensures Honest(HandlerStep(s, a))
  {
    hide Truthful;
    var n := HandlerStep(s, a);
    TruthCarries(s, n);
    assert HonestPhase(s, a.id, s.handlers[a.id].phase);
    ErrorsAreTruthful(n, a.id);
    forall k | k in n.handlers ensures HonestPhase(n, k, n.handlers[k].phase) {
      if k != a.id {
        assert HonestPhase(s, k, s.handlers[k].phase);
      }
    }
    forall i | 0 <= i < |n.log| ensures HonestEntry(n, n.log[i]) {
      assert HonestEntry(s, s.log[i]);
    }
  }

  lemma ErrorsAreTruthful(s: State, id: nat)
    ensures Truthful(s, id, STATUS_CANCELLED, []) && Truthful(s, id, STATUS_DEADLINE_EXCEEDED, [])
  {
  }

  lemma SendKeepsHonest(s: State, id: nat)
    requires Honest(s) && Enabled(s, HandlerSends(id)) && s.handlers[id].work.id == id
    ensures Honest(HandlerStep(s, HandlerSends(id)))
  {
    hide Truthful, HonestEntry;
    var n := HandlerStep(s, HandlerSends(id));
    TruthCarries(s, n);
    EntriesCarry(s, n);
    assert HonestPhase(s, id, s.handlers[id].phase);
    forall i | 0 <= i < |n.done| ensures Truthful(n, n.done[i].work.id, n.done[i].status, n.done[i].body) {
      assert i < |s.done| ==> n.done[i] == s.done[i];
    }
    forall k | k in n.handlers ensures HonestPhase(n, k, n.handlers[k].phase) {
      assert HonestPhase(s, k, s.handlers[k].phase);
    }
  }

  lemma EntriesCarry(s: State, n: State)
    requires n.responses == s.responses && n.invocations == s.invocations
    ensures forall e :: HonestEntry(s, e) ==> HonestEntry(n, e)
  {
  }

  lemma FirstIsOwned(s: State)
    requires Inv(s) && s.done != []
    ensures Owns(s.tables, s.done[0].work)
  {
    hide TablesInv, UniqueIds, Served;
  }

  lemma ReceiveKeepsHonest(cfg: Config, s: State)
    requires Honest(s) && s.done != [] && Owns(s.tables, s.done[0].work)
    ensures Honest(Receive(cfg, s))
  {
    hide FramesOf, Truthful, HonestEntry;
    var n := Receive(cfg, s);
    TruthCarries(s, n);
    EntriesCarry(s, n);
    FirstEntryIsHonest(s);
    assert n.log == s.log + [EntryOf(s.done[0])];
  }

  lemma FirstEntryIsHonest(s: State)
    requires Honest(s) && s.done != [] && Owns(s.tables, s.done[0].work)
    ensures HonestEntry(s, EntryOf(s.done[0]))
  {
    hide Truthful;
  }

  lemma TakeKeepsHonest(cfg: Config, s: State, e: Event)
    requires cfg.Valid() && Honest(s) && Inv(s) && s.loop.AtPoll?
    ensures Honest(Take(cfg, s, e))
  {
    hide Handle, FramesOf, Inv, Honest;
    HandleStartsOrKeeps(cfg, s.tables, e, s.loop.now, s.nextId);
    AnswersAreErrors(cfg, s.tables, e, s.loop.now, s.nextId);
    var n := Take(cfg, s, e);
    if Handle(cfg, s.tables, e, s.loop.now, s.nextId).disposition.Started? {
      StartKeepsHonest(s, n, e.frame.correlationID);
    } else {
      SameOutcomes(s, n);
    }
  }

  lemma StartKeepsHonest(s: State, n: State, c: u64)
    requires Honest(s) && Inv(s)
    requires c in n.tables.jobs && n.tables.jobs == s.tables.jobs[c := n.tables.jobs[c]]
    requires n.tables.jobs[c].id == s.nextId && n.nextId == s.nextId + 1
    requires n.handlers == s.handlers[s.nextId := Goroutine(n.tables.jobs[c], Working)] && n.done == s.done
    requires s.nextId in n.invocations && n.invocations[s.nextId].work == n.tables.jobs[c]
    requires n.invocations == s.invocations[s.nextId := n.invocations[s.nextId]]
    requires n.log == s.log && n.responses == s.responses
    ensures Honest(n)
  {
    hide Truthful, TablesInv, UniqueIds, Served, Owns, HonestEntry, HonestPhase;
    TruthCarries(s, n);
    forall i | 0 <= i < |n.log| ensures HonestEntry(n, n.log[i]) {
      EntryCarries(s, n, s.log[i]);
    }
    forall id | id in n.handlers ensures HonestPhase(n, id, n.handlers[id].phase) {
      if id != s.nextId {
        PhaseCarries(s, n, id, s.handlers[id].phase);
      } else {
        WorkingIsHonest(n, id);
      }
    }
  }

  lemma EntryCarries(s: State, n: State, e: Entry)
    requires HonestEntry(s, e) && n.responses == s.responses
    requires forall id :: id in s.invocations ==> id in n.invocations && n.invocations[id] == s.invocations[id]
    ensures HonestEntry(n, e)
  {
  }

  lemma PhaseCarries(s: State, n: State, id: nat, p: Phase)
    requires HonestPhase(s, id, p) && n.responses == s.responses
    ensures HonestPhase(n, id, p)
  {
  }

  lemma WorkingIsHonest(s: State, id: nat)
    ensures HonestPhase(s, id, Working)
  {
  }

  lemma TruthCarries(s: State, n: State)
    requires n.responses == s.responses
    ensures forall id, status, body :: Truthful(s, id, status, body) ==> Truthful(n, id, status, body)
  {
  }

  lemma StepKeepsHonest(cfg: Config, s: State, a: Action)
    requires cfg.Valid() && Honest(s) && Inv(s) && RunningUnreported(s) && Enabled(s, a)
    ensures Honest(Next(cfg, s, a))
  {
    hide Inv, RunningUnreported, Receive, Take, HandlerStep, JobIds, HonestEntry, HonestPhase, Truthful;
    if OfHandler(a) {
      HandlerKeepsHonest(s, a);
    } else if a.PollEvent? {
      TakeKeepsHonest(cfg, s, a.event);
    } else if a.ReceiveResult? {
      FirstIsOwned(s);
      ReceiveKeepsHonest(cfg, s);
    } else {
      hide Next, Enabled, Honest;
      LoopSteps(cfg, s, a);
      SameOutcomes(s, Next(cfg, s, a));
    }
  }

  lemma SameOutcomes(s: State, n: State)
    requires Honest(s) && n.invocations == s.invocations && n.responses == s.responses && n.nextId == s.nextId
    requires forall c :: c in n.tables.jobs ==> c in s.tables.jobs && n.tables.jobs[c] == s.tables.jobs[c]
    requires n.handlers == s.handlers
    requires n.log == s.log
             || exists e: Entry :: n.log == s.log + [e] && e.origin == Rejection && e.status != STATUS_OK
    requires n.done == s.done || (s.done != [] && n.done == s.done[1..])
    ensures Honest(n)
  {
    forall i | 0 <= i < |n.log| ensures HonestEntry(n, n.log[i]) {
      if i < |s.log| {
        assert HonestEntry(s, s.log[i]);
      }
    }
    forall id | id in n.handlers ensures HonestPhase(n, id, n.handlers[id].phase) {
      assert HonestPhase(s, id, s.handlers[id].phase);
    }
  }

  lemma {:induction false} RunKeepsHonest(cfg: Config, s: State, run: seq<Action>)
    requires cfg.Valid() && Inv(s) && RunningUnreported(s) && Honest(s) && Legal(cfg, s, run)
    ensures Honest(After(cfg, s, run))
    decreases |run|
  {
    hide Inv, RunningUnreported, Honest, Next, Enabled;
    if run != [] {
      StepKeepsInv(cfg, s, run[0]);
      StepKeepsUnreported(cfg, s, run[0]);
      StepKeepsHonest(cfg, s, run[0]);
      RunKeepsHonest(cfg, Next(cfg, s, run[0]), run[1..]);
    }
  }

  /** On every run, whatever the scheduling: an OK reply is the OK response of the one handler
      invocation it answers, addressed as that invocation was, and refusals are never OK. */
  lemma OkRepliesAreHandlerAnswers(cfg: Config, run: seq<Action>)
    requires cfg.Valid() && Legal(cfg, Start(), run)
    ensures var s := After(cfg, Start(), run);
            forall i :: 0 <= i < |s.log| ==> HonestEntry(s, s.log[i])
  {
    hide Legal, After, HonestEntry;
    StartInv();
    assert RunningUnreported(Start()) && Honest(Start());
    HonestFrom(cfg, Start(), run);
  }

  lemma HonestFrom(cfg: Config, s0: State, run: seq<Action>)
    requires cfg.Valid() && Inv(s0) && RunningUnreported(s0) && Honest(s0) && Legal(cfg, s0, run)
    ensures var s := After(cfg, s0, run);
            forall i :: 0 <= i < |s.log| ==> HonestEntry(s, s.log[i])
  {
    hide Inv, RunningUnreported, Legal, After, HonestEntry;
    RunKeepsHonest(cfg, s0, run);
  }
}
