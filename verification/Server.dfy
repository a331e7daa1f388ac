/** The whole serving process (server-go/bus/module_runtime.go, runModuleClient, runHandler,
    finishModuleWork): the loop and the handler goroutines, each atomic load, channel
    operation, poll and emit a separately scheduled step. */
module Server {
  import opened LittleEndian
  import opened ModuleProtocol
  import opened Events
  import opened Serving
  import R = Reply

  /** Where one handler goroutine is inside runHandler. */
  datatype Phase =
    | Working
    | Normalised(status: u16, body: seq<byte>)
    | FlagClear(status: u16, body: seq<byte>)
    | Ready(status: u16, body: seq<byte>)

  datatype Goroutine = Goroutine(work: Work, phase: Phase)

  datatype Finished = Finished(work: Work, status: u16, body: seq<byte>)

  /** Where the loop is; Replying holds the fragments of the current reply still to be emitted,
      and Stopped those of a reply it failed in, none on any other return. */
  datatype Loop =
    | Draining
    | AtContext
    | AtEpoch
    | AtPoll(now: u64)
    | Replying(rest: seq<R.SentReply>)
    | ShuttingDown
    | Stopped(abandoned: seq<R.SentReply>)

  datatype Origin = Rejection | Result(id: nat)

  /** One reply the loop began to send. */
  datatype Entry = Entry(origin: Origin, kind: u32, correlation: u64, stageID: u32, traceID: u64,
                         status: u16, body: seq<byte>)

  /** What a handler was given and what it gave back. */
  datatype Invocation = Invocation(work: Work, request: seq<byte>)
  datatype Response = Response(status: u16, body: seq<byte>)

  /** One polled event, when it was polled and what became of it. */
  datatype Fate = Fate(event: Event, at: u64, disposition: Disposition)
  {
    function Correlation(): u64 {
      event.frame.correlationID
    }
  }

  datatype State = State(
    tables: Tables, cancelled: set<nat>, handlers: map<nat, Goroutine>, done: seq<Finished>, nextId: nat,
    loop: Loop, outbox: seq<R.SentReply>,
    // history: replies begun, fates of polled events, correlations of the results dropped by the
    // shutdown drain, and what each job was started with and returned
    log: seq<Entry>, polled: seq<Fate>, dropped: seq<u64>,
    invocations: map<nat, Invocation>, responses: map<nat, Response>)

  datatype Action =
    | ReceiveResult
    | NothingDone
    | CheckContext(ended: bool)
    | CheckEpoch(changed: bool, now: u64)
    | PollNothing
    | PollFails
    | PollEvent(event: Event)
    | Emit(attempt: R.Attempt)
    | DrainOne
    | DrainEnds
    | HandlerReturns(id: nat, response: Response)
    | HandlerLoadsFlag(id: nat)
    | HandlerReadsClock(id: nat, now: u64)
    | HandlerSends(id: nat)

  function Start(): State {
    State(Tables(map[], map[]), {}, map[], [], 0, Draining, [], [], [], [], map[], map[])
  }

  function PhaseOf(s: State, id: nat): Phase
    requires id in s.handlers
  {
    s.handlers[id].phase
  }

  ghost predicate Enabled(s: State, a: Action) {
    match a
    case ReceiveResult => s.loop == Draining && s.done != []
    case NothingDone => s.loop == Draining && s.done == []
    case CheckContext(_) => s.loop == AtContext
    case CheckEpoch(_, _) => s.loop == AtEpoch
    case PollNothing => s.loop.AtPoll?
    case PollFails => s.loop.AtPoll?
    case PollEvent(_) => s.loop.AtPoll?
    case Emit(_) => s.loop.Replying? && s.loop.rest != []
    case DrainOne => s.loop == ShuttingDown && s.tables.jobs != map[] && s.done != []
    case DrainEnds => s.loop == ShuttingDown && s.tables.jobs == map[]
    case HandlerReturns(id, _) => id in s.handlers && PhaseOf(s, id).Working?
    case HandlerLoadsFlag(id) => id in s.handlers && PhaseOf(s, id).Normalised?
    case HandlerReadsClock(id, _) => id in s.handlers && PhaseOf(s, id).FlagClear?
    case HandlerSends(id) => id in s.handlers && PhaseOf(s, id).Ready? && |s.done| < MAX_IN_FLIGHT
  }

  /** The fragments of a reply. */
  function FramesOf(budget: u32, e: Entry): seq<R.SentReply>
    requires budget > HEADER_LEN
  {
    R.Addressed(e.kind, e.correlation, R.ResultFragments(e.stageID, e.traceID, e.status, e.body, R.ChunkOf(budget)))
  }

  /** replyModuleResult begins: it has fragments to emit, or it fails on the budget. */
  function BeginReply(cfg: Config, s: State, e: Entry): State {
    s.(log := s.log + [e], loop := if cfg.budget > HEADER_LEN then Replying(FramesOf(cfg.budget, e)) else Stopped([]))
  }

  function EntryOf(f: Finished): Entry {
    Entry(Result(f.work.id), f.work.eventKind, f.work.correlationID, f.work.stageID, f.work.traceID, f.status, f.body)
  }

  /** finishModuleWork on the oldest finished result. */
  function Receive(cfg: Config, s: State): State
    requires s.done != []
  {
    var f := s.done[0];
    BeginReply(cfg, s.(done := s.done[1..],
                       tables := s.tables.(jobs := s.tables.jobs - {f.work.correlationID})), EntryOf(f))
  }

  function Take(cfg: Config, s: State, e: Event): State
    requires s.loop.AtPoll?
  {
    var h := Handle(cfg, s.tables, e, s.loop.now, s.nextId);
    var n := s.(tables := h.tables, polled := s.polled + [Fate(e, s.loop.now, h.disposition)], loop := Draining);
    match h.disposition
    case Ignored => n
    case Buffered => n
    case CancelSeen =>
      var c := e.frame.correlationID;
      if c in s.tables.jobs then n.(cancelled := s.cancelled + {s.tables.jobs[c].id}) else n
    case Answered(stage, trace, status) =>
      BeginReply(cfg, n, Entry(Rejection, e.frame.eventKind, e.frame.correlationID, stage, trace, status, []))
    case Started(work, body) =>
      n.(handlers := s.handlers[s.nextId := Goroutine(work, Working)], nextId := s.nextId + 1,
         invocations := s.invocations[s.nextId := Invocation(work, body)])
  }

  function EmitOne(s: State, attempt: R.Attempt): State
    requires s.loop.Replying? && s.loop.rest != []
  {
    match attempt
    case Accepts =>
      var rest := s.loop.rest[1..];
      s.(outbox := s.outbox + [s.loop.rest[0]], loop := if rest == [] then Draining else Replying(rest))
    case Full(Retry) => s
    case _ => s.(loop := Stopped(s.loop.rest))
  }

  function JobIds(t: Tables): set<nat> {
    set c | c in t.jobs :: t.jobs[c].id
  }

  predicate OfHandler(a: Action) {
    a.HandlerReturns? || a.HandlerLoadsFlag? || a.HandlerReadsClock? || a.HandlerSends?
  }

  /** What runHandler makes of what the handler returned. */
  function NormalisedResponse(r: Response): Phase {
    if r.status > STATUS_INTERNAL || |r.body| > MAX_BODY then Normalised(STATUS_INTERNAL, [])
    else if r.status != STATUS_OK then Normalised(r.status, [])
    else Normalised(STATUS_OK, r.body)
  }

  function SetPhase(s: State, id: nat, p: Phase): State
    requires id in s.handlers
  {
    s.(handlers := s.handlers[id := s.handlers[id].(phase := p)])
  }

  /** One step of the handler goroutine id. */
  function HandlerStep(s: State, a: Action): State
    requires Enabled(s, a) && OfHandler(a)
  {
    match a
    case HandlerReturns(id, r) =>
      SetPhase(s, id, NormalisedResponse(r)).(responses := s.responses[id := r])
    case HandlerLoadsFlag(id) =>
      var p := PhaseOf(s, id);
      SetPhase(s, id,
        if id in s.cancelled then Ready(STATUS_CANCELLED, [])
        else if s.handlers[id].work.deadlineNS != 0 then FlagClear(p.status, p.body)
        else Ready(p.status, p.body))
    case HandlerReadsClock(id, now) =>
      var p := PhaseOf(s, id);
      SetPhase(s, id,
        if now != 0 && now >= s.handlers[id].work.deadlineNS then Ready(STATUS_DEADLINE_EXCEEDED, [])
        else Ready(p.status, p.body))
    case HandlerSends(id) =>
      var g := s.handlers[id];
      s.(handlers := s.handlers - {id}, done := s.done + [Finished(g.work, g.phase.status, g.phase.body)])
  }

  function Next(cfg: Config, s: State, a: Action): State
    requires Enabled(s, a)
  {
    match a
    case ReceiveResult => Receive(cfg, s)
    case NothingDone => s.(loop := AtContext)
    case CheckContext(ended) =>
      if ended then s.(cancelled := s.cancelled + JobIds(s.tables), loop := ShuttingDown) else s.(loop := AtEpoch)
    case CheckEpoch(changed, now) => s.(loop := if changed then Stopped([]) else AtPoll(now))
    case PollNothing => s.(loop := Draining)
    case PollFails => s.(loop := Stopped([]))
    case PollEvent(e) => Take(cfg, s, e)
    case Emit(attempt) => EmitOne(s, attempt)
    case DrainOne =>
      s.(done := s.done[1..], dropped := s.dropped + [s.done[0].work.correlationID],
         tables := s.tables.(jobs := s.tables.jobs - {s.done[0].work.correlationID}))
    case DrainEnds => s.(loop := Stopped([]))
    case _ => HandlerStep(s, a)
  }

  ghost predicate Legal(cfg: Config, s: State, run: seq<Action>)
    decreases |run|
  {
    run == [] || (Enabled(s, run[0]) && Legal(cfg, Next(cfg, s, run[0]), run[1..]))
  }

  function After(cfg: Config, s: State, run: seq<Action>): State
    requires Legal(cfg, s, run)
    decreases |run|
  {
    if run == [] then s else After(cfg, Next(cfg, s, run[0]), run[1..])
  }

  /** Each job has exactly one running handler or one queued result, and nothing else runs. */
  ghost predicate Accounted(s: State) {
    && (forall c :: c in s.tables.jobs ==> s.tables.jobs[c].id < s.nextId)
    && (forall id :: id in s.handlers ==> s.handlers[id].work.id == id && Owns(s.tables, s.handlers[id].work))
    && (forall i :: 0 <= i < |s.done| ==> Owns(s.tables, s.done[i].work) && s.done[i].work.id !in s.handlers)
    && (forall i, j :: 0 <= i < j < |s.done| ==> s.done[i].work.id != s.done[j].work.id)
    && (forall c :: c in s.tables.jobs ==> Served(s, s.tables.jobs[c]))
    && |s.tables.jobs| == |s.handlers| + |s.done|
  }

  ghost predicate Owns(t: Tables, w: Work) {
    w.correlationID in t.jobs && t.jobs[w.correlationID] == w
  }

  ghost predicate Served(s: State, w: Work) {
    w.id in s.handlers || exists i :: 0 <= i < |s.done| && s.done[i].work == w
  }

  ghost predicate UniqueIds(t: Tables) {
    forall c, d :: c in t.jobs && d in t.jobs && t.jobs[c].id == t.jobs[d].id ==> c == d
  }

  /** The reachable tables and goroutines. */
  ghost predicate Inv(s: State) {
    TablesInv(s.tables) && UniqueIds(s.tables) && Accounted(s)
  }

  lemma StartInv()
    ensures Inv(Start())
  {
  }

  lemma HandlerKeepsInv(s: State, a: Action)
    requires Inv(s) && Enabled(s, a)
    requires a.HandlerReturns? || a.HandlerLoadsFlag? || a.HandlerReadsClock?
    ensures Inv(HandlerStep(s, a))
  {
    hide Inv, NormalisedResponse;
    SameGoroutines(s, HandlerStep(s, a));
  }

  lemma SameGoroutines(s: State, n: State)
    requires Inv(s) && n.tables == s.tables && n.done == s.done && n.nextId == s.nextId
    requires n.handlers.Keys == s.handlers.Keys
    requires forall id :: id in s.handlers ==> n.handlers[id].work == s.handlers[id].work
    ensures Inv(n)
  {
    hide TablesInv, UniqueIds;
    KeysCount(s.handlers);
    KeysCount(n.handlers);
    forall c | c in n.tables.jobs ensures Served(n, n.tables.jobs[c]) {
      assert Served(s, s.tables.jobs[c]);
    }
  }

  lemma KeysCount<V>(m: map<nat, V>)
    ensures |m| == |m.Keys|
  {
  }

  lemma SendKeepsInv(s: State, id: nat)
    requires Inv(s) && Enabled(s, HandlerSends(id))
    ensures Inv(HandlerStep(s, HandlerSends(id)))
  {
    var g := s.handlers[id];
    var n := HandlerStep(s, HandlerSends(id));
    Moved(s, n, id, Finished(g.work, g.phase.status, g.phase.body));
  }

  lemma Moved(s: State, n: State, id: nat, f: Finished)
    requires Inv(s) && id in s.handlers && f.work == s.handlers[id].work
    requires n.tables == s.tables && n.nextId == s.nextId
    requires n.handlers == s.handlers - {id} && n.done == s.done + [f]
    ensures Inv(n)
  {
    hide TablesInv, UniqueIds, Served;
    assert s.handlers == n.handlers[id := s.handlers[id]];
    assert |s.handlers| == |n.handlers| + 1;
    MovedOwned(s, n, id, f);
    MovedServed(s, n, id, f);
  }

  lemma MovedOwned(s: State, n: State, id: nat, f: Finished)
    requires Inv(s) && id in s.handlers && f.work == s.handlers[id].work
    requires n.tables == s.tables && n.handlers == s.handlers - {id} && n.done == s.done + [f]
    ensures Owns(s.tables, f.work)
    ensures forall i :: 0 <= i < |n.done| ==> Owns(n.tables, n.done[i].work) && n.done[i].work.id !in n.handlers
    ensures forall i, j :: 0 <= i < j < |n.done| ==> n.done[i].work.id != n.done[j].work.id
  {
    hide TablesInv, UniqueIds, Served, Owns;
    forall i | 0 <= i < |n.done| ensures Owns(n.tables, n.done[i].work) && n.done[i].work.id !in n.handlers {
      assert n.done[i] == if i < |s.done| then s.done[i] else f;
    }
    forall i, j | 0 <= i < j < |n.done| ensures n.done[i].work.id != n.done[j].work.id {
      assert n.done[i] == s.done[i];
    }
  }

  lemma MovedServed(s: State, n: State, id: nat, f: Finished)
    requires Inv(s) && id in s.handlers && f.work == s.handlers[id].work && Owns(s.tables, f.work)
    requires n.tables == s.tables && n.handlers == s.handlers - {id} && n.done == s.done + [f]
    ensures forall c :: c in n.tables.jobs ==> Served(n, n.tables.jobs[c])
  {
    hide TablesInv;
    assert n.done[|s.done|] == f;
    forall c | c in n.tables.jobs ensures Served(n, n.tables.jobs[c]) {
      var v := s.tables.jobs[c];
      assert Served(s, v);
      if v.id == id {
        assert v == f.work;
      } else if v.id !in s.handlers {
        var i :| 0 <= i < |s.done| && s.done[i].work == v;
        assert n.done[i].work == v;
      }
    }
  }

  /** Taking the oldest result off the channel and its job off the table. */
  function Popped(s: State): State
    requires s.done != []
  {
    s.(done := s.done[1..], tables := s.tables.(jobs := s.tables.jobs - {s.done[0].work.correlationID}))
  }

  lemma PopKeepsInv(s: State)
    requires Inv(s) && s.done != []
    ensures Inv(Popped(s))
  {
    var n := Popped(s);
    var w := s.done[0].work;
    RemovalShrinks(s.tables.jobs, w.correlationID);
    PoppedOwns(s);
    PoppedServed(s);
  }

  lemma PoppedOwns(s: State)
    requires Inv(s) && s.done != []
    ensures var n := Popped(s);
      && (forall id :: id in n.handlers ==> Owns(n.tables, n.handlers[id].work))
      && (forall i :: 0 <= i < |n.done| ==> Owns(n.tables, n.done[i].work) && n.done[i].work.id !in n.handlers)
  {
    hide TablesInv, UniqueIds, Served;
    var n := Popped(s);
    var w := s.done[0].work;
    assert Owns(s.tables, w);
    forall id | id in n.handlers ensures Owns(n.tables, n.handlers[id].work) {
      assert Owns(s.tables, s.handlers[id].work);
    }
    forall i | 0 <= i < |n.done| ensures Owns(n.tables, n.done[i].work) && n.done[i].work.id !in n.handlers {
      assert n.done[i] == s.done[i + 1];
      assert Owns(s.tables, s.done[i + 1].work);
    }
  }

  lemma PoppedServed(s: State)
    requires Inv(s) && s.done != []
    ensures forall c :: c in Popped(s).tables.jobs ==> Served(Popped(s), s.tables.jobs[c])
  {
    hide UniqueIds;
    var n := Popped(s);
    assert Owns(s.tables, s.done[0].work);
    forall c | c in n.tables.jobs ensures Served(n, s.tables.jobs[c]) {
      var v := s.tables.jobs[c];
      assert Served(s, v);
      if v.id !in s.handlers {
        var i :| 0 <= i < |s.done| && s.done[i].work == v;
        assert i > 0;
        assert n.done[i - 1].work == v;
      }
    }
  }

  lemma TakeKeepsInv(cfg: Config, s: State, e: Event)
    requires cfg.Valid() && Inv(s) && s.loop.AtPoll?
    ensures Inv(Take(cfg, s, e))
  {
    hide Handle, TablesInv, UniqueIds, Accounted, FramesOf;
    HandleKeepsTables(cfg, s.tables, e, s.loop.now, s.nextId);
    HandleStartsOrKeeps(cfg, s.tables, e, s.loop.now, s.nextId);
    var n := Take(cfg, s, e);
    if Handle(cfg, s.tables, e, s.loop.now, s.nextId).disposition.Started? {
      StartKeepsAccounts(s, n, e.frame.correlationID);
    } else {
      SameAccounts(s, n);
    }
  }

  lemma HandleStartsOrKeeps(cfg: Config, t: Tables, e: Event, now: u64, id: nat)
    ensures var h := Handle(cfg, t, e, now, id);
      && (!h.disposition.Started? ==> h.tables.jobs == t.jobs)
      && (h.disposition.Started? ==>
            && e.frame.correlationID !in t.jobs && h.disposition.work.id == id
            && h.disposition.work.correlationID == e.frame.correlationID
            && h.tables.jobs == t.jobs[e.frame.correlationID := h.disposition.work])
  {
    hide Decode, PartOf, IsCancel, IsRequest, HasMore, Accept;
    if IsRequest(e) && !IsCancel(e) && !Unacceptable(cfg, t, e) {
      AcceptStartsOrKeeps(cfg, t, e, now, id);
    }
  }

  lemma AcceptStartsOrKeeps(cfg: Config, t: Tables, e: Event, now: u64, id: nat)
    requires !Unacceptable(cfg, t, e)
    ensures var h := Accept(cfg, t, e, now, id);
      && (!h.disposition.Started? ==> h.tables.jobs == t.jobs)
      && (h.disposition.Started? ==>
            && e.frame.correlationID !in t.jobs && h.disposition.work.id == id
            && h.disposition.work.correlationID == e.frame.correlationID
            && h.tables.jobs == t.jobs[e.frame.correlationID := h.disposition.work])
  {
    hide Decode, PartOf, IsCancel, IsRequest, HasMore, Continues;
  }

  /** The tables and goroutines after a job was started. */
  ghost predicate JustStarted(s: State, n: State, c: u64) {
    && c !in s.tables.jobs && c in n.tables.jobs && n.tables.jobs == s.tables.jobs[c := n.tables.jobs[c]]
    && n.tables.jobs[c].id == s.nextId && n.tables.jobs[c].correlationID == c && n.nextId == s.nextId + 1
    && n.handlers == s.handlers[s.nextId := Goroutine(n.tables.jobs[c], Working)] && n.done == s.done
  }

  lemma StartKeepsAccounts(s: State, n: State, c: u64)
    requires Inv(s) && JustStarted(s, n, c)
    ensures UniqueIds(n.tables) && Accounted(n)
  {
    hide Inv, JustStarted, UniqueIds, Served, Owns;
    StartedUnique(s, n, c);
    StartedOwned(s, n, c);
    StartedServed(s, n, c);
    StartedCount(s, n, c);
  }

  lemma StartedCount(s: State, n: State, c: u64)
    requires Inv(s) && JustStarted(s, n, c)
    ensures |n.tables.jobs| == |n.handlers| + |n.done|
    ensures forall i, j :: 0 <= i < j < |n.done| ==> n.done[i].work.id != n.done[j].work.id
  {
    hide TablesInv, UniqueIds, Served;
    InsertionSize(s.tables.jobs, n.tables.jobs, c);
    assert s.nextId !in s.handlers;
    KeysCount(s.handlers);
    KeysCount(n.handlers);
    assert n.handlers.Keys == s.handlers.Keys + {s.nextId};
  }

  lemma StartedUnique(s: State, n: State, c: u64)
    requires Inv(s) && JustStarted(s, n, c)
    ensures UniqueIds(n.tables) && forall d :: d in n.tables.jobs ==> n.tables.jobs[d].id < n.nextId
  {
    hide TablesInv, Served, Owns;
  }

  lemma StartedOwned(s: State, n: State, c: u64)
    requires Inv(s) && JustStarted(s, n, c)
    ensures forall id :: id in n.handlers ==> n.handlers[id].work.id == id && Owns(n.tables, n.handlers[id].work)
    ensures forall i :: 0 <= i < |n.done| ==> Owns(n.tables, n.done[i].work) && n.done[i].work.id !in n.handlers
  {
    hide TablesInv, UniqueIds, Served;
    forall id | id in n.handlers ensures n.handlers[id].work.id == id && Owns(n.tables, n.handlers[id].work) {
      if id != s.nextId {
        assert Owns(s.tables, s.handlers[id].work);
      }
    }
    forall i | 0 <= i < |n.done| ensures Owns(n.tables, n.done[i].work) && n.done[i].work.id !in n.handlers {
      assert Owns(s.tables, s.done[i].work);
    }
  }

  lemma StartedServed(s: State, n: State, c: u64)
    requires Inv(s) && JustStarted(s, n, c)
    ensures forall d :: d in n.tables.jobs ==> Served(n, n.tables.jobs[d])
  {
    hide TablesInv, UniqueIds;
    forall d | d in n.tables.jobs ensures Served(n, n.tables.jobs[d]) {
      if d != c {
        assert Served(s, s.tables.jobs[d]);
        assert n.tables.jobs[d] == s.tables.jobs[d];
      }
    }
  }

  /** What the loop leaves alone when it neither takes an event nor receives a result. */
  ghost predicate LoopOnly(s: State, n: State) {
    && n.handlers == s.handlers && n.log == s.log && n.polled == s.polled && n.nextId == s.nextId
    && n.invocations == s.invocations && n.responses == s.responses && s.cancelled <= n.cancelled
    && ((n.done == s.done && n.tables == s.tables)
        || (s.done != [] && n.done == s.done[1..]
            && n.tables == s.tables.(jobs := s.tables.jobs - {s.done[0].work.correlationID})))
  }

  lemma LoopSteps(cfg: Config, s: State, a: Action)
    requires Enabled(s, a) && !OfHandler(a) && !a.PollEvent? && !a.ReceiveResult?
    ensures LoopOnly(s, Next(cfg, s, a))
  {
    hide JobIds, HandlerStep, Take, Receive;
  }

  /** Every step, of the loop or of a handler, keeps the invariant. */
  lemma StepKeepsInv(cfg: Config, s: State, a: Action)
    requires cfg.Valid() && Inv(s) && Enabled(s, a)
    ensures Inv(Next(cfg, s, a))
  {
    hide Inv, FramesOf, Take, HandlerStep, JobIds, EntryOf;
    if a.HandlerSends? {
      SendKeepsInv(s, a.id);
    } else if OfHandler(a) {
      HandlerKeepsInv(s, a);
    } else if a.PollEvent? {
      TakeKeepsInv(cfg, s, a.event);
    } else if a.ReceiveResult? {
      PopKeepsInv(s);
      SameTables(Popped(s), Next(cfg, s, a));
    } else {
      hide Next, Enabled;
      LoopSteps(cfg, s, a);
      var n := Next(cfg, s, a);
      if n.done == s.done && n.tables == s.tables {
        SameTables(s, n);
      } else {
        PopKeepsInv(s);
        SameTables(Popped(s), n);
      }
    }
  }

  lemma SameTables(s: State, n: State)
    requires Inv(s) && n.tables == s.tables
    requires n.handlers == s.handlers && n.done == s.done && n.nextId == s.nextId
    ensures Inv(n)
  {
    hide TablesInv, UniqueIds;
    SameGoroutines(s, n);
  }

  lemma SameAccounts(s: State, n: State)
    requires Inv(s) && TablesInv(n.tables)
    requires n.tables.jobs == s.tables.jobs
    requires n.handlers == s.handlers && n.done == s.done && n.nextId == s.nextId
    ensures Inv(n)
  {
    forall c | c in n.tables.jobs ensures Served(n, n.tables.jobs[c]) {
      assert Served(s, s.tables.jobs[c]);
    }
  }

  lemma {:induction false} RunKeepsInv(cfg: Config, s: State, run: seq<Action>)
    requires cfg.Valid() && Inv(s) && Legal(cfg, s, run)
    ensures Inv(After(cfg, s, run))
    decreases |run|
  {
    hide Inv, Next, Enabled;
    if run != [] {
      StepKeepsInv(cfg, s, run[0]);
      RunKeepsInv(cfg, Next(cfg, s, run[0]), run[1..]);
    }
  }
}
