/** One call across the whole bus (server-go/bus/module_caller.go, Call, send, awaitReply;
    server-go/bus/module_runtime.go, runModuleClient): the caller, the serving loop, its
    handler goroutines and a lossless first-in-first-out relay, all separately scheduled. */
module EndToEnd {
  import opened LittleEndian
  import opened ModuleProtocol
  import opened Fragments
  import opened Events
  import opened Serving
  import opened Requests
  import C = Caller
  import R = Reply
  import AC = ServerAccounts
  import S = Server
  import SR = ServerReplies
  import SA = ServerAnswers
  import Wire

  /** Where the call is: sending fragment sent, waiting with held bytes, or back. */
  datatype Call = Sending(sent: nat) | Awaiting(held: seq<byte>) | Returned(result: C.CallResult)

  /** Both directions keep their history; taken, relayed and read say how far each reader is. */
  datatype State = State(
    call: Call, uplink: seq<C.SentRequest>, taken: nat,
    server: S.State, relayed: nat, downlink: seq<R.SentReply>, read: nat)

  datatype Action =
    | CallerSends(accepted: bool)
    | CallerIdles(poll: C.Polled)
    | CallerReads(event: Event)
    | RelayReply
    | ServerTakes(event: Event)
    | ServerSteps(action: S.Action)

  function Start(): State {
    State(Sending(0), [], 0, S.Start(), 0, [], 0)
  }

  predicate Failed(s: State) {
    s.call.Returned? && s.call.result.Err?
  }

  /** A reply fragment as the caller polls it. */
  predicate Delivers(f: R.SentReply, e: Event) {
    && e.frame.eventKind == f.kind && e.frame.correlationID == f.correlation
    && e.payload == f.payload && HasMore(e) == f.more
  }

  /** What may happen next. Correlations are this call's own: other traffic may hold any other
      correlation, and only a call that failed may have a cancel of its own on the bus. */
  ghost predicate Enabled(cfg: Config, r: Request, s: State, a: Action)
    requires r.Valid()
  {
    match a
    case CallerSends(_) => s.call.Sending? && s.call.sent < |r.Fragments()|
    case CallerIdles(p) =>
      s.call.Awaiting? && (p.Got? ==> p.event.frame.correlationID != r.correlation || p.event.frame.eventKind != r.kind)
    case CallerReads(e) => s.call.Awaiting? && s.read < |s.downlink| && Delivers(s.downlink[s.read], e)
    case RelayReply => s.relayed < |s.server.outbox|
    case ServerTakes(e) =>
      && S.Enabled(s.server, S.PollEvent(e)) && Wire.Validate(e.frame) == Wire.OK
      && s.taken < |s.uplink| && s.taken < |r.Fragments()| && Carries(r, s.taken, e)
    case ServerSteps(b) =>
      && S.Enabled(s.server, b) && SR.ValidFrames(b)
      && (b.PollEvent? ==> Failed(s) || b.event.frame.correlationID != r.correlation)
  }

  /** What one poll does to a waiting call. */
  function Wait(r: Request, held: seq<byte>, p: C.Polled): (n: Call)
    ensures !n.Sending?
  {
    match p
    case Broken => Returned(C.Err(C.PollFailed))
    case Nothing(ended, expired) =>
      if ended then Returned(C.Err(C.ContextEnded))
      else if expired then Returned(C.Err(C.DeadlinePassed))
      else Awaiting(held)
    case Got(e) =>
      match C.Read(r.kind, r.correlation, MAX_BODY, |held|, e)
      case Skip => Awaiting(held)
      case Fail(error) => Returned(C.Err(error))
      case Extend(part) => Awaiting(held + part)
      case Complete(part) => Returned(C.Ok(held + part))
  }

  function Next(cfg: Config, r: Request, s: State, a: Action): State
    requires r.Valid() && Enabled(cfg, r, s, a)
  {
    match a
    case CallerSends(accepted) =>
      if !accepted then s.(call := Returned(C.Err(C.SendFailed)))
      else
        var i := s.call.sent;
        s.(uplink := s.uplink + [C.Requests(r.kind, r.correlation, r.Fragments())[i]],
           call := if i + 1 == |r.Fragments()| then Awaiting([]) else Sending(i + 1))
    case CallerIdles(p) => s.(call := Wait(r, s.call.held, p))
    case CallerReads(e) => s.(call := Wait(r, s.call.held, C.Got(e)), read := s.read + 1)
    case RelayReply =>
      var f := s.server.outbox[s.relayed];
      s.(relayed := s.relayed + 1, downlink := s.downlink + (if f.correlation == r.correlation then [f] else []))
    case ServerTakes(e) => s.(server := S.Next(cfg, s.server, S.PollEvent(e)), taken := s.taken + 1)
    case ServerSteps(b) => s.(server := S.Next(cfg, s.server, b))
  }

  ghost predicate Legal(cfg: Config, r: Request, s: State, run: seq<Action>)
    requires r.Valid()
    decreases |run|
  {
    run == [] || (Enabled(cfg, r, s, run[0]) && Legal(cfg, r, Next(cfg, r, s, run[0]), run[1..]))
  }

  function After(cfg: Config, r: Request, s: State, run: seq<Action>): State
    requires r.Valid() && Legal(cfg, r, s, run)
    decreases |run|
  {
    if run == [] then s else After(cfg, r, Next(cfg, r, s, run[0]), run[1..])
  }

  /** The polls a wait consumes one by one end where Await says. */
  lemma WaitIsAwait(r: Request, held: seq<byte>, p: C.Polled, rest: seq<C.Polled>)
    ensures C.Await(r.kind, r.correlation, MAX_BODY, held, [p] + rest) ==
            var n := Wait(r, held, p);
            if n.Awaiting? then C.Await(r.kind, r.correlation, MAX_BODY, n.held, rest) else n.result
  {
    hide C.Read;
    assert ([p] + rest)[1..] == rest;
  }

  /** The polls a run of the caller consumed. */
  function PollsOf(run: seq<Action>): seq<C.Polled> {
    if run == [] then []
    else
      (match run[0]
       case CallerIdles(p) => [p]
       case CallerReads(e) => [C.Got(e)]
       case _ => []) + PollsOf(run[1..])
  }

  lemma {:induction false} NoMorePolls(cfg: Config, r: Request, s: State, run: seq<Action>)
    requires r.Valid() && Legal(cfg, r, s, run) && s.call.Returned?
    ensures After(cfg, r, s, run).call == s.call && PollsOf(run) == []
    decreases |run|
  {
    hide S.Next, S.Enabled, Carries, Cut;
    if run != [] {
      NoMorePolls(cfg, r, Next(cfg, r, s, run[0]), run[1..]);
    }
  }

  /** A waiting call that returns does so with what the imperative wait makes of the polls it
      consumed, whatever else happened in between. */
  lemma {:induction false} ReturnIsAwait(cfg: Config, r: Request, s: State, run: seq<Action>)
    requires r.Valid() && Legal(cfg, r, s, run) && s.call.Awaiting?
    requires After(cfg, r, s, run).call.Returned?
    ensures C.Await(r.kind, r.correlation, MAX_BODY, s.call.held, PollsOf(run)) == After(cfg, r, s, run).call.result
    decreases |run|
  {
    hide S.Next, S.Enabled, Carries, Cut, C.Await, Wait;
    var a, n := run[0], Next(cfg, r, s, run[0]);
    if a.CallerIdles? || a.CallerReads? {
      var p := if a.CallerIdles? then a.poll else C.Got(a.event);
      WaitIsAwait(r, s.call.held, p, PollsOf(run[1..]));
      if n.call.Awaiting? {
        ReturnIsAwait(cfg, r, n, run[1..]);
      } else {
        NoMorePolls(cfg, r, n, run[1..]);
      }
    } else {
      assert [] + PollsOf(run[1..]) == PollsOf(run[1..]);
      ReturnIsAwait(cfg, r, n, run[1..]);
    }
  }

  // ---- the serving side, seen from one correlation -----------------------------------

  /** The handler invocations of a call. */
  function StartedFor(s: S.State, r: Request): set<nat> {
    set id | id in s.invocations && s.invocations[id].work.correlationID == r.correlation
  }

  /** Every handler started for the call got the complete request, and at most one was. */
  ghost predicate Once(s: S.State, r: Request) {
    && (forall id :: id in StartedFor(s, r) ==>
          s.invocations[id] == S.Invocation(Work(id, r.kind, r.correlation, r.stageID, r.deadlineNS, r.traceID), r.body))
    && (forall i, j :: i in StartedFor(s, r) && j in StartedFor(s, r) ==> i == j)
  }

  ghost predicate NotStarted(s: S.State, r: Request) {
    StartedFor(s, r) == {}
  }

  /** The call was refused: its first reply is an error. */
  ghost predicate Refused(s: S.State, r: Request) {
    var ours := AC.Ours(s.log, r.correlation);
    ours != [] && ours[0].status != STATUS_OK && ours[0].kind == r.kind
  }

  ghost predicate Assembling(s: S.State, r: Request, taken: nat)
    requires r.Valid()
  {
    AC.Ours(s.log, r.correlation) == [] && Collected(s.tables, r, taken) && NotStarted(s, r)
  }

  ghost predicate Complete(s: S.State, r: Request, taken: nat)
    requires r.Valid()
  {
    && taken == |r.Parts()| && r.correlation !in s.tables.assemblies && Once(s, r)
    && var ours := AC.Ours(s.log, r.correlation);
       || ours == []
       || (|ours| == 1 && ours[0].status == STATUS_OK && ours[0].kind == r.kind && ours[0].origin.Result?
           && r.correlation !in s.tables.jobs)
  }

  ghost predicate ServerSide(s: S.State, r: Request, taken: nat)
    requires r.Valid()
  {
    Refused(s, r) || Assembling(s, r, taken) || Complete(s, r, taken)
  }

  /** The parts of a serving state that ServerSide looks at. */
  ghost predicate SameFor(s: S.State, n: S.State, r: Request) {
    && AC.Ours(n.log, r.correlation) == AC.Ours(s.log, r.correlation)
    && n.tables.assemblies == s.tables.assemblies
    && (r.correlation in n.tables.jobs ==> r.correlation in s.tables.jobs)
    && n.invocations == s.invocations
  }

  lemma SameSide(s: S.State, n: S.State, r: Request, taken: nat)
    requires r.Valid() && ServerSide(s, r, taken) && SameFor(s, n, r)
    ensures ServerSide(n, r, taken)
  {
    hide Split, Join;
  }

  /** A job of our correlation finishing. */
  lemma ReceiveKeepsSide(cfg: Config, s: S.State, r: Request, taken: nat)
    requires r.Valid() && ServerSide(s, r, taken) && S.Inv(s) && SA.Honest(s) && s.done != []
    ensures ServerSide(S.Receive(cfg, s), r, taken)
  {
    hide S.FramesOf, S.UniqueIds, S.Served, TablesInv, Split, Join, SA.Truthful;
    var n := S.Receive(cfg, s);
    var w := s.done[0].work;
    assert S.Owns(s.tables, w);
    AC.OursOfAppend(s.log, S.EntryOf(s.done[0]), r.correlation);
    if w.correlationID != r.correlation {
      SameSide(s, n, r, taken);
    }
  }

  lemma ForeignEventKeepsSide(cfg: Config, s: S.State, r: Request, taken: nat, e: Event)
    requires r.Valid() && ServerSide(s, r, taken) && SA.Honest(s) && s.loop.AtPoll?
    requires e.frame.correlationID != r.correlation
    ensures ServerSide(S.Take(cfg, s, e), r, taken)
  {
    hide Handle, S.FramesOf, Split, Join, SA.Truthful, AC.Ours;
    var n := S.Take(cfg, s, e);
    var h := Handle(cfg, s.tables, e, s.loop.now, s.nextId);
    OtherCorrelationsUntouched(cfg, s.tables, e, s.loop.now, s.nextId, r.correlation);
    S.HandleStartsOrKeeps(cfg, s.tables, e, s.loop.now, s.nextId);
    if h.disposition.Answered? {
      AC.OursOfAppend(s.log, n.log[|s.log|], r.correlation);
    }
    forall id ensures id in StartedFor(n, r) <==> id in StartedFor(s, r) {
    }
    assert StartedFor(n, r) == StartedFor(s, r);
  }

  /** The call's own fragment answered at once. */
  lemma AnsweredIsRefused(s: S.State, n: S.State, r: Request, e: S.Entry)
    requires AC.Ours(s.log, r.correlation) == [] || Refused(s, r)
    requires n.log == s.log + [e] && e.correlation == r.correlation && e.kind == r.kind && e.status != STATUS_OK
    ensures Refused(n, r)
  {
    AC.OursOfAppend(s.log, e, r.correlation);
  }

  lemma StartedIsComplete(s: S.State, n: S.State, r: Request, id: nat, taken: nat)
    requires r.Valid() && NotStarted(s, r) && AC.Ours(s.log, r.correlation) == [] && n.log == s.log
    requires n.invocations == s.invocations[id := S.Invocation(
      Work(id, r.kind, r.correlation, r.stageID, r.deadlineNS, r.traceID), r.body)]
    requires taken == |r.Parts()| && r.correlation !in n.tables.assemblies
    ensures Complete(n, r, taken)
  {
    forall i | i in StartedFor(n, r) ensures i == id {
      assert i != id ==> i in StartedFor(s, r);
    }
  }

  lemma OwnEventKeepsSide(cfg: Config, s: S.State, r: Request, taken: nat, e: Event)
    requires cfg.Valid() && r.Valid() && ServerSide(s, r, taken) && s.loop.AtPoll?
    requires taken < |r.Fragments()| && Carries(r, taken, e)
    ensures ServerSide(S.Take(cfg, s, e), r, taken + 1)
  {
    hide Handle, S.FramesOf, Split, Join, Cut, Wire.Has, AC.Ours, Collected;
    var n := S.Take(cfg, s, e);
    var d := Handle(cfg, s.tables, e, s.loop.now, s.nextId).disposition;
    SR.AnswersAreErrors(cfg, s.tables, e, s.loop.now, s.nextId);
    if d.Answered? {
      AnsweredIsRefused(s, n, r, n.log[|s.log|]);
    } else if Assembling(s, r, taken) {
      NextFragment(cfg, s.tables, r, taken, e, s.loop.now, s.nextId);
      if d.Started? {
        StartedIsComplete(s, n, r, s.nextId, taken + 1);
      }
    }
  }

  lemma StepKeepsSide(cfg: Config, s: S.State, r: Request, taken: nat, a: S.Action)
    requires cfg.Valid() && r.Valid() && ServerSide(s, r, taken) && S.Inv(s) && SA.Honest(s) && S.Enabled(s, a)
    requires a.PollEvent? ==> a.event.frame.correlationID != r.correlation
    ensures ServerSide(S.Next(cfg, s, a), r, taken)
  {
    hide ServerSide, S.Receive, S.Take, S.HandlerStep, S.JobIds, S.Inv, SA.Honest, AC.Ours;
    if a.PollEvent? {
      ForeignEventKeepsSide(cfg, s, r, taken, a.event);
    } else if a.ReceiveResult? {
      ReceiveKeepsSide(cfg, s, r, taken);
    } else if S.OfHandler(a) {
      SR.HandlersKeepBooks(s, a);
      SameSide(s, S.HandlerStep(s, a), r, taken);
    } else {
      hide S.Next, S.Enabled;
      S.LoopSteps(cfg, s, a);
      SameSide(s, S.Next(cfg, s, a), r, taken);
    }
  }

  // ---- the replies of one correlation on the wire -------------------------------------

  function Mine(fs: seq<R.SentReply>, c: u64): seq<R.SentReply> {
    if fs == [] then []
    else Mine(fs[..|fs| - 1], c) + (if fs[|fs| - 1].correlation == c then [fs[|fs| - 1]] else [])
  }

  lemma {:induction false} MineOfConcat(a: seq<R.SentReply>, b: seq<R.SentReply>, c: u64)
    ensures Mine(a + b, c) == Mine(a, c) + Mine(b, c)
  {
    if b == [] {
      assert a + b == a;
    } else {
      MineOfConcat(a, b[..|b| - 1], c);
      assert (a + b)[..|a + b| - 1] == a + b[..|b| - 1];
    }
  }

  lemma {:induction false} MineOfOne(fs: seq<R.SentReply>, c: u64, d: u64)
    requires forall i :: 0 <= i < |fs| ==> fs[i].correlation == d
    ensures Mine(fs, c) == if c == d then fs else []
  {
    if fs != [] {
      MineOfOne(fs[..|fs| - 1], c, d);
    }
  }

  /** Selecting a correlation's replies and cutting them into fragments commute. */
  lemma {:induction false} MineOfFlatten(budget: u32, log: seq<S.Entry>, c: u64)
    requires budget > HEADER_LEN
    ensures Mine(SR.Flatten(budget, log), c) == SR.Flatten(budget, AC.Ours(log, c))
  {
    hide *;
    if log == [] {
      NothingFlattened(budget, c);
    } else {
      var last, front := log[|log| - 1], log[..|log| - 1];
      MineOfFlatten(budget, front, c);
      FlattenOfAppend(budget, front, last);
      AC.OursOfAppend(front, last, c);
      MineOfConcat(SR.Flatten(budget, front), S.FramesOf(budget, last), c);
      MineOfFrames(budget, last, c);
      if last.correlation == c {
        FlattenOfAppend(budget, AC.Ours(front, c), last);
      } else {
        AppendNothing(AC.Ours(front, c));
        AppendNothing(Mine(SR.Flatten(budget, front), c));
      }
      SplitLast(log);
    }
  }

  lemma NothingFlattened(budget: u32, c: u64)
    requires budget > HEADER_LEN
    ensures Mine(SR.Flatten(budget, []), c) == [] && SR.Flatten(budget, AC.Ours([], c)) == []
  {
  }

  lemma AppendNothing<T>(s: seq<T>)
    ensures s + [] == s
  {
  }

  lemma SplitLast<T>(s: seq<T>)
    requires s != []
    ensures s == s[..|s| - 1] + [s[|s| - 1]]
  {
  }

  lemma FlattenOfAppend(budget: u32, log: seq<S.Entry>, e: S.Entry)
    requires budget > HEADER_LEN
    ensures SR.Flatten(budget, log + [e]) == SR.Flatten(budget, log) + S.FramesOf(budget, e)
  {
    hide S.FramesOf;
    assert (log + [e])[..|log|] == log;
  }

  lemma MineOfFrames(budget: u32, e: S.Entry, c: u64)
    requires budget > HEADER_LEN
    ensures Mine(S.FramesOf(budget, e), c) == if c == e.correlation then S.FramesOf(budget, e) else []
  {
    hide Cut, Mine;
    MineOfOne(S.FramesOf(budget, e), c, e.correlation);
  }

  lemma {:induction false} MineIsMonotone(a: seq<R.SentReply>, b: seq<R.SentReply>, c: u64)
    requires a <= b
    ensures Mine(a, c) <= Mine(b, c)
  {
    assert b == a + b[|a|..];
    MineOfConcat(a, b[|a|..], c);
  }

  /** Whatever part of the outbox has been relayed, our fragments in it are the first ones of
      our replies. */
  lemma RelayedIsPrefix(cfg: Config, s: S.State, c: u64, relayed: nat)
    requires cfg.Valid() && SR.InLogOrder(cfg, s) && relayed <= |s.outbox|
    ensures Mine(s.outbox[..relayed], c) <= SR.Flatten(cfg.budget, AC.Ours(s.log, c))
  {
    hide SR.Flatten, Mine, AC.Ours;
    MineOfFlatten(cfg.budget, s.log, c);
    MineIsMonotone(s.outbox[..relayed], SR.Flatten(cfg.budget, s.log), c);
  }

  // ---- the caller ----------------------------------------------------------------------

  /** The body a wait holds is the part of the first reply it has read. */
  ghost predicate CallerSide(cfg: Config, r: Request, s: State)
    requires cfg.Valid() && r.Valid()
  {
    var rs := C.Requests(r.kind, r.correlation, r.Fragments());
    var ours := AC.Ours(s.server.log, r.correlation);
    && s.taken <= |s.uplink| <= |rs| && s.uplink == rs[..|s.uplink|]
    && s.relayed <= |s.server.outbox| && s.downlink == Mine(s.server.outbox[..s.relayed], r.correlation)
    && s.read <= |s.downlink|
    && match s.call
       case Sending(i) => i == |s.uplink| < |rs| && s.read == 0
       case Awaiting(held) => |s.uplink| == |rs| && HoldsPrefix(cfg, ours, s.read, held)
       case Returned(Ok(body)) => ours != [] && ours[0].status == STATUS_OK && body == ours[0].body
       case Returned(Err(_)) => true
  }

  ghost predicate HoldsPrefix(cfg: Config, ours: seq<S.Entry>, read: nat, held: seq<byte>)
    requires cfg.Valid()
  {
    if read == 0 then held == []
    else
      && ours != [] && ours[0].status == STATUS_OK
      && var parts := Split(ours[0].body, R.ChunkOf(cfg.budget));
         read < |parts| && held == Join(parts[..read])
  }

  /** What reading the next fragment of our own first reply does to the call. */
  lemma ReadStep(cfg: Config, r: Request, ours: seq<S.Entry>, read: nat, held: seq<byte>, e: Event)
    requires cfg.Valid() && r.Valid() && HoldsPrefix(cfg, ours, read, held)
    requires ours != [] && SR.ValidEntry(ours[0]) && ours[0].kind == r.kind && ours[0].correlation == r.correlation
    requires read < |SR.Flatten(cfg.budget, ours)| && Delivers(SR.Flatten(cfg.budget, ours)[read], e)
    ensures var n := Wait(r, held, C.Got(e));
      || (n.Returned? && n.result.Err?)
      || (n.Awaiting? && HoldsPrefix(cfg, ours, read + 1, n.held))
      || (n.Returned? && n.result.Ok? && ours[0].status == STATUS_OK && n.result.body == ours[0].body)
  {
    hide S.FramesOf, SR.Flatten, Split, Join, C.Read;
    var first := ours[0];
    FirstReplyFirst(cfg.budget, ours);
    FrameCount(cfg.budget, first);
    if first.status == STATUS_OK {
      ReadOkStep(cfg, r, first, read, held, e);
    } else {
      ReadErrorStep(cfg, r, first, held, e);
    }
  }

  lemma FirstReplyFirst(budget: u32, log: seq<S.Entry>)
    requires budget > HEADER_LEN && log != []
    ensures S.FramesOf(budget, log[0]) <= SR.Flatten(budget, log)
  {
    hide S.FramesOf;
    SR.FlattenIsMonotone(budget, [log[0]], log);
    assert [log[0]][..0] == [];
    assert SR.Flatten(budget, []) == [];
  }

  /** Fragment i of a reply entry. */
  lemma FrameAt(cfg: Config, e: S.Entry, i: nat)
    requires cfg.Valid() && SR.ValidEntry(e) && i < |Split(e.body, R.ChunkOf(cfg.budget))|
    ensures var parts := Split(e.body, R.ChunkOf(cfg.budget));
      && |parts[i]| <= MAX_BODY && |S.FramesOf(cfg.budget, e)| == |parts|
      && S.FramesOf(cfg.budget, e)[i]
         == R.SentReply(e.kind, e.correlation, Payload(Answer(e.status, e.stageID, e.traceID), parts[i]), i + 1 < |parts|)
  {
    hide Split, Payload;
    SR.SplitWithin(e.body, R.ChunkOf(cfg.budget), i);
    CutAt(Answer(e.status, e.stageID, e.traceID), e.body, R.ChunkOf(cfg.budget), i);
  }

  lemma FrameCount(budget: u32, e: S.Entry)
    requires budget > HEADER_LEN && SR.ValidEntry(e)
    ensures |S.FramesOf(budget, e)| == |Split(e.body, R.ChunkOf(budget))| > 0
  {
    hide Split, Payload;
  }

  lemma ReadErrorStep(cfg: Config, r: Request, first: S.Entry, held: seq<byte>, e: Event)
    requires cfg.Valid() && SR.ValidEntry(first) && first.status != STATUS_OK
    requires first.kind == r.kind && first.correlation == r.correlation
    requires |S.FramesOf(cfg.budget, first)| > 0 && Delivers(S.FramesOf(cfg.budget, first)[0], e)
    ensures Wait(r, held, C.Got(e)).Returned? && Wait(r, held, C.Got(e)).result.Err?
  {
    hide S.FramesOf, Split, Payload, Decode;
    FrameCount(cfg.budget, first);
    FrameAt(cfg, first, 0);
    R.ResultsAreValid(first.status, first.stageID, first.traceID);
    PayloadDecodes(Answer(first.status, first.stageID, first.traceID), Split(first.body, R.ChunkOf(cfg.budget))[0]);
  }

  lemma ReadOkStep(cfg: Config, r: Request, first: S.Entry, read: nat, held: seq<byte>, e: Event)
    requires cfg.Valid() && SR.ValidEntry(first) && first.status == STATUS_OK
    requires first.kind == r.kind && first.correlation == r.correlation
    requires HoldsPrefix(cfg, [first], read, held)
    requires read < |S.FramesOf(cfg.budget, first)| && Delivers(S.FramesOf(cfg.budget, first)[read], e)
    ensures var n := Wait(r, held, C.Got(e));
      || (n.Returned? && n.result.Err?)
      || (n.Awaiting? && HoldsPrefix(cfg, [first], read + 1, n.held))
      || (n.Returned? && n.result.Ok? && n.result.body == first.body)
  {
    hide S.FramesOf, Split, Payload, C.Read, Join, Wire.Has;
    var chunk := R.ChunkOf(cfg.budget);
    var parts := Split(first.body, chunk);
    FrameCount(cfg.budget, first);
    FrameAt(cfg, first, read);
    assert held == Join(parts[..read]) by {
      JoinOfNothing();
      assert parts[..0] == [];
    }
    NextPrefix(parts, read);
    PrefixFits(first.body, chunk, read + 1);
    JoinOfSplit(first.body, chunk);
    assert parts[..|parts|] == parts;
    if r.kind == Wire.KIND_CAPABILITY_ABSENT || r.kind == Wire.KIND_ERROR {
      ControlKindsFail(r, |held|, e);
    } else {
      R.ResultsAreValid(first.status, first.stageID, first.traceID);
      C.ReadFragment(r.kind, r.correlation, MAX_BODY, |held|, e,
                     Answer(first.status, first.stageID, first.traceID), parts[read]);
    }
  }

  lemma ControlKindsFail(r: Request, held: nat, e: Event)
    requires e.frame.correlationID == r.correlation
    requires e.frame.eventKind == Wire.KIND_CAPABILITY_ABSENT || e.frame.eventKind == Wire.KIND_ERROR
    ensures C.Read(r.kind, r.correlation, MAX_BODY, held, e).Fail?
  {
  }

  // ---- the whole run ---------------------------------------------------------------------

  ghost predicate ServerInv(cfg: Config, s: S.State)
    requires cfg.Valid()
  {
    S.Inv(s) && SR.InLogOrder(cfg, s) && SR.Clean(s) && SR.RunningUnreported(s) && SA.Honest(s)
  }

  /** Once the call has failed nothing more is claimed of it. */
  ghost predicate SystemInv(cfg: Config, r: Request, s: State)
    requires cfg.Valid() && r.Valid()
  {
    && ServerInv(cfg, s.server)
    && (!Failed(s) ==> CallerSide(cfg, r, s) && ServerSide(s.server, r, s.taken))
  }

  lemma StepKeepsServerInv(cfg: Config, s: S.State, a: S.Action)
    requires cfg.Valid() && ServerInv(cfg, s) && S.Enabled(s, a) && SR.ValidFrames(a)
    ensures ServerInv(cfg, S.Next(cfg, s, a)) && s.log <= S.Next(cfg, s, a).log
    ensures s.outbox <= S.Next(cfg, s, a).outbox
  {
    hide S.Inv, SR.InLogOrder, SR.Clean, SR.RunningUnreported, SA.Honest, S.Enabled, S.Next, SR.ValidFrames;
    S.StepKeepsInv(cfg, s, a);
    SR.StepKeepsOrder(cfg, s, a);
    SR.StepKeepsClean(cfg, s, a);
    SR.StepKeepsUnreported(cfg, s, a);
    SA.StepKeepsHonest(cfg, s, a);
    OutboxGrows(cfg, s, a);
  }

  lemma OutboxGrows(cfg: Config, s: S.State, a: S.Action)
    requires S.Enabled(s, a)
    ensures s.outbox <= S.Next(cfg, s, a).outbox
  {
    hide Handle, S.FramesOf, S.JobIds;
  }

  lemma {:induction false} OursIsMonotone(a: seq<S.Entry>, b: seq<S.Entry>, c: u64)
    requires a <= b
    ensures AC.Ours(a, c) <= AC.Ours(b, c)
    decreases |b|
  {
    if a != b {
      OursIsMonotone(a, b[..|b| - 1], c);
    } else {
      assert a == b;
    }
  }

  /** The caller's view survives what the server does. */
  lemma ServerStepKeepsCaller(cfg: Config, r: Request, s: State, n: State)
    requires cfg.Valid() && r.Valid() && CallerSide(cfg, r, s)
    requires s.server.log <= n.server.log && s.server.outbox <= n.server.outbox
    requires n == s.(server := n.server, taken := n.taken) && n.taken <= |s.uplink|
    ensures CallerSide(cfg, r, n)
  {
    hide Split, Join, AC.Ours, Cut;
    OursIsMonotone(s.server.log, n.server.log, r.correlation);
    assert n.server.outbox[..s.relayed] == s.server.outbox[..s.relayed];
  }

  lemma RelayKeepsCaller(cfg: Config, r: Request, s: State)
    requires cfg.Valid() && r.Valid() && CallerSide(cfg, r, s) && Enabled(cfg, r, s, RelayReply)
    ensures CallerSide(cfg, r, Next(cfg, r, s, RelayReply))
  {
    hide Split, Join, AC.Ours, Cut;
    var out := s.server.outbox;
    assert out[..s.relayed + 1][..s.relayed] == out[..s.relayed];
  }

  lemma ReadKeepsCaller(cfg: Config, r: Request, s: State, e: Event)
    requires cfg.Valid() && r.Valid() && SystemInv(cfg, r, s) && !Failed(s) && Enabled(cfg, r, s, CallerReads(e))
    ensures var n := Next(cfg, r, s, CallerReads(e)); Failed(n) || CallerSide(cfg, r, n)
  {
    hide Split, Join, AC.Ours, Cut, S.Inv, SR.Clean, SR.InLogOrder, SR.RunningUnreported, SA.Honest, Wait,
      SR.Flatten, ServerSide, HoldsPrefix;
    var ours := AC.Ours(s.server.log, r.correlation);
    RelayedIsPrefix(cfg, s.server, r.correlation, s.relayed);
    FlattenOfNothing(cfg.budget);
    FirstOurs(cfg, r, s);
    ReadStep(cfg, r, ours, s.read, s.call.held, e);
  }

  lemma FlattenOfNothing(budget: u32)
    requires budget > HEADER_LEN
    ensures SR.Flatten(budget, []) == []
  {
  }

  lemma FirstOurs(cfg: Config, r: Request, s: State)
    requires cfg.Valid() && r.Valid() && SR.Clean(s.server) && ServerSide(s.server, r, s.taken)
    requires AC.Ours(s.server.log, r.correlation) != []
    ensures var e := AC.Ours(s.server.log, r.correlation)[0];
      SR.ValidEntry(e) && e.kind == r.kind && e.correlation == r.correlation
  {
    OursAreInLog(s.server.log, r.correlation);
  }

  lemma {:induction false} OursAreInLog(log: seq<S.Entry>, c: u64)
    ensures forall e :: e in AC.Ours(log, c) ==> e in log && e.correlation == c
  {
    if log != [] {
      OursAreInLog(log[..|log| - 1], c);
    }
  }

  lemma SendKeepsCaller(cfg: Config, r: Request, s: State)
    requires cfg.Valid() && r.Valid() && CallerSide(cfg, r, s) && Enabled(cfg, r, s, CallerSends(true))
    ensures CallerSide(cfg, r, Next(cfg, r, s, CallerSends(true)))
  {
    hide Split, Join, AC.Ours, Cut, Mine;
    var rs := C.Requests(r.kind, r.correlation, r.Fragments());
    var i := |s.uplink|;
    assert rs[..i + 1] == rs[..i] + [rs[i]];
  }

  lemma IdleKeepsCaller(cfg: Config, r: Request, s: State, p: C.Polled)
    requires cfg.Valid() && r.Valid() && CallerSide(cfg, r, s) && Enabled(cfg, r, s, CallerIdles(p))
    ensures var n := Next(cfg, r, s, CallerIdles(p)); Failed(n) || CallerSide(cfg, r, n)
  {
    hide Split, Join, AC.Ours, Cut, Mine, Decode;
  }

  lemma StepKeepsSystem(cfg: Config, r: Request, s: State, a: Action)
    requires cfg.Valid() && r.Valid() && SystemInv(cfg, r, s) && Enabled(cfg, r, s, a)
    ensures SystemInv(cfg, r, Next(cfg, r, s, a))
  {
    hide ServerInv, CallerSide, ServerSide, Wait, S.Next, S.Enabled, Carries, Wire.Validate;
    var n := Next(cfg, r, s, a);
    match a
    case CallerSends(accepted) =>
      if accepted && !Failed(s) {
        SendKeepsCaller(cfg, r, s);
      }
    case CallerIdles(p) => IdleKeepsCaller(cfg, r, s, p);
    case CallerReads(e) => ReadKeepsCaller(cfg, r, s, e);
    case RelayReply =>
      if !Failed(s) {
        RelayKeepsCaller(cfg, r, s);
      }
    case ServerTakes(e) => TakeKeepsSystem(cfg, r, s, e);
    case ServerSteps(b) => ServerStepKeepsSystem(cfg, r, s, b);
  }

  lemma TakeKeepsSystem(cfg: Config, r: Request, s: State, e: Event)
    requires cfg.Valid() && r.Valid() && SystemInv(cfg, r, s) && Enabled(cfg, r, s, ServerTakes(e))
    ensures SystemInv(cfg, r, Next(cfg, r, s, ServerTakes(e)))
  {
    hide CallerSide, ServerSide, Carries, Wire.Validate, S.Take, S.Inv, SR.InLogOrder, SR.Clean,
      SR.RunningUnreported, SA.Honest;
    var n := Next(cfg, r, s, ServerTakes(e));
    StepKeepsServerInv(cfg, s.server, S.PollEvent(e));
    if !Failed(s) {
      OwnEventKeepsSide(cfg, s.server, r, s.taken, e);
      ServerStepKeepsCaller(cfg, r, s, n);
    }
  }

  lemma ServerStepKeepsSystem(cfg: Config, r: Request, s: State, b: S.Action)
    requires cfg.Valid() && r.Valid() && SystemInv(cfg, r, s) && Enabled(cfg, r, s, ServerSteps(b))
    ensures SystemInv(cfg, r, Next(cfg, r, s, ServerSteps(b)))
  {
    hide CallerSide, ServerSide, Carries, Wire.Validate, S.Next, S.Enabled, S.Inv, SR.InLogOrder, SR.Clean,
      SR.RunningUnreported, SA.Honest;
    var n := Next(cfg, r, s, ServerSteps(b));
    StepKeepsServerInv(cfg, s.server, b);
    if !Failed(s) {
      StepKeepsSide(cfg, s.server, r, s.taken, b);
      StillBounded(cfg, r, s);
      ServerStepKeepsCaller(cfg, r, s, n);
    }
  }

  lemma StillBounded(cfg: Config, r: Request, s: State)
    requires cfg.Valid() && r.Valid() && CallerSide(cfg, r, s)
    ensures s.taken <= |s.uplink|
  {
  }

  lemma {:induction false} RunKeepsSystem(cfg: Config, r: Request, s: State, run: seq<Action>)
    requires cfg.Valid() && r.Valid() && SystemInv(cfg, r, s) && Legal(cfg, r, s, run)
    ensures SystemInv(cfg, r, After(cfg, r, s, run))
    decreases |run|
  {
    hide SystemInv, Next, Enabled;
    if run != [] {
      StepKeepsSystem(cfg, r, s, run[0]);
      RunKeepsSystem(cfg, r, Next(cfg, r, s, run[0]), run[1..]);
    }
  }

  lemma StartSystem(cfg: Config, r: Request)
    requires cfg.Valid() && r.Valid()
    ensures SystemInv(cfg, r, Start())
  {
    hide Split, Cut;
    S.StartInv();
    assert StartedFor(S.Start(), r) == {};
  }

  /** Exactly one handler ran for the call: on the complete request, and it said body. */
  ghost predicate AnsweredBy(s: S.State, r: Request, id: nat, body: seq<byte>) {
    && StartedFor(s, r) == {id}
    && s.invocations[id] == S.Invocation(Work(id, r.kind, r.correlation, r.stageID, r.deadlineNS, r.traceID), r.body)
    && id in s.responses && s.responses[id] == S.Response(STATUS_OK, body)
  }

  lemma SystemAnswers(cfg: Config, r: Request, s: State)
    requires cfg.Valid() && r.Valid() && SystemInv(cfg, r, s) && s.call.Returned? && s.call.result.Ok?
    ensures exists id :: AnsweredBy(s.server, r, id, s.call.result.body)
  {
    hide Split, Join, Cut, SR.Clean, S.Inv, SR.InLogOrder, SR.RunningUnreported, Mine, AC.Ours;
    var ours := AC.Ours(s.server.log, r.correlation);
    OursAreInLog(s.server.log, r.correlation);
    assert Complete(s.server, r, s.taken);
    assert ours[0] in s.server.log;
    var i :| 0 <= i < |s.server.log| && s.server.log[i] == ours[0];
    assert SA.HonestEntry(s.server, s.server.log[i]);
    var id := ours[0].origin.id;
    assert id in StartedFor(s.server, r);
    assert AnsweredBy(s.server, r, id, s.call.result.body);
  }

  /** Whatever the budgets of either side, the body, the scheduling of loop, handlers, relay
      and caller, and the other traffic: when the call returns a body, exactly one handler was
      started for it, with the complete request, and the body is its complete OK response. */
  lemma CallReturnsTheHandlersAnswer(cfg: Config, r: Request, run: seq<Action>)
    requires cfg.Valid() && r.Valid() && Legal(cfg, r, Start(), run)
    ensures var s := After(cfg, r, Start(), run);
      s.call.Returned? && s.call.result.Ok? ==> exists id :: AnsweredBy(s.server, r, id, s.call.result.body)
  {
    hide SystemInv, Legal, After, AnsweredBy;
    StartSystem(cfg, r);
    CallAnswersFrom(cfg, r, Start(), run);
  }

  lemma CallAnswersFrom(cfg: Config, r: Request, s0: State, run: seq<Action>)
    requires cfg.Valid() && r.Valid() && SystemInv(cfg, r, s0) && Legal(cfg, r, s0, run)
    ensures var s := After(cfg, r, s0, run);
      s.call.Returned? && s.call.result.Ok? ==> exists id :: AnsweredBy(s.server, r, id, s.call.result.body)
  {
    hide SystemInv, Legal, After, AnsweredBy;
    RunKeepsSystem(cfg, r, s0, run);
    var s := After(cfg, r, s0, run);
    if s.call.Returned? && s.call.result.Ok? {
      SystemAnswers(cfg, r, s);
    }
  }
}
