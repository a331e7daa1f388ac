/** The replies of the serving process over whole runs (server-go/bus/module_runtime.go):
    they leave in the order they were begun, every one is a valid message emit accepts,
    events and jobs are conserved, and a cancel seen in time decides the outcome. */
module ServerReplies {
  import opened LittleEndian
  import opened ModuleProtocol
  import opened Fragments
  import opened Events
  import opened Serving
  import opened Server
  import R = Reply
  import Wire

  // ---- replies leave in the order they were begun ------------------------------------

  /** All fragments of a log of replies. */
  function Flatten(budget: u32, log: seq<Entry>): seq<R.SentReply>
    requires budget > HEADER_LEN
  {
    if log == [] then [] else Flatten(budget, log[..|log| - 1]) + FramesOf(budget, log[|log| - 1])
  }

  /** Fragments of a begun reply that have not left: of the reply under way, or of the one the
      loop failed in. */
  function Unsent(l: Loop): seq<R.SentReply> {
    match l
    case Replying(rest) => rest
    case Stopped(abandoned) => abandoned
    case _ => []
  }

  /** What has been emitted is what was begun, minus the unsent rest of the last reply. */
  ghost predicate InLogOrder(cfg: Config, s: State)
    requires cfg.budget > HEADER_LEN
  {
    (s.loop.Replying? ==> s.loop.rest != []) && s.outbox + Unsent(s.loop) == Flatten(cfg.budget, s.log)
  }

  lemma FramesNotEmpty(budget: u32, e: Entry)
    requires budget > HEADER_LEN
    ensures FramesOf(budget, e) != []
  {
    hide Cut;
  }

  lemma BeginKeepsOrder(cfg: Config, s: State, n: State, e: Entry)
    requires cfg.Valid() && s.outbox == Flatten(cfg.budget, s.log)
    requires n.log == s.log + [e] && n.outbox == s.outbox && n.loop == Replying(FramesOf(cfg.budget, e))
    ensures InLogOrder(cfg, n)
  {
    FramesNotEmpty(cfg.budget, e);
    assert n.log[..|n.log| - 1] == s.log;
  }

  lemma StepKeepsOrder(cfg: Config, s: State, a: Action)
    requires cfg.Valid() && InLogOrder(cfg, s) && Enabled(s, a)
    ensures InLogOrder(cfg, Next(cfg, s, a)) && s.log <= Next(cfg, s, a).log
  {
    hide Handle, FramesOf, Flatten, JobIds, HandlerStep;
    if OfHandler(a) {
      HandlersKeepBooks(s, a);
    } else if a.ReceiveResult? {
      BeginKeepsOrder(cfg, s, Next(cfg, s, a), EntryOf(s.done[0]));
    } else if a.PollEvent? {
      TakeKeepsOrder(cfg, s, a.event);
    } else if a.Emit? {
      assert s.outbox + s.loop.rest == s.outbox + [s.loop.rest[0]] + s.loop.rest[1..];
    }
  }

  lemma TakeKeepsOrder(cfg: Config, s: State, e: Event)
    requires cfg.Valid() && InLogOrder(cfg, s) && s.loop.AtPoll?
    ensures InLogOrder(cfg, Take(cfg, s, e)) && s.log <= Take(cfg, s, e).log
  {
    hide Handle, FramesOf, Flatten;
    var n := Take(cfg, s, e);
    if Handle(cfg, s.tables, e, s.loop.now, s.nextId).disposition.Answered? {
      BeginKeepsOrder(cfg, s, n, n.log[|s.log|]);
    }
  }

  lemma {:induction false} RunKeepsOrder(cfg: Config, s: State, run: seq<Action>)
    requires cfg.Valid() && InLogOrder(cfg, s) && Legal(cfg, s, run)
    ensures InLogOrder(cfg, After(cfg, s, run)) && s.log <= After(cfg, s, run).log
    decreases |run|
  {
    hide InLogOrder, Next, Enabled;
    if run != [] {
      StepKeepsOrder(cfg, s, run[0]);
      RunKeepsOrder(cfg, Next(cfg, s, run[0]), run[1..]);
    }
  }

  lemma {:induction false} RunsCompose(cfg: Config, s: State, first: seq<Action>, second: seq<Action>)
    requires Legal(cfg, s, first) && Legal(cfg, After(cfg, s, first), second)
    ensures Legal(cfg, s, first + second)
    ensures After(cfg, s, first + second) == After(cfg, After(cfg, s, first), second)
    decreases |first|
  {
    hide Next, Enabled;
    if first == [] {
      assert first + second == second;
    } else {
      RunsCompose(cfg, Next(cfg, s, first[0]), first[1..], second);
      assert (first + second)[1..] == first[1..] + second;
    }
  }

  /** A reply that a later step begins, for whatever correlation, leaves behind every
      fragment of the replies begun before it. */
  lemma EarlierRepliesLeaveFirst(cfg: Config, first: seq<Action>, second: seq<Action>)
    requires cfg.Valid() && Legal(cfg, Start(), first) && Legal(cfg, After(cfg, Start(), first), second)
    ensures var mid := After(cfg, Start(), first);
            var end := After(cfg, mid, second);
      && mid.log <= end.log
      && Flatten(cfg.budget, mid.log) <= end.outbox + Unsent(end.loop) == Flatten(cfg.budget, end.log)
  {
    hide Next, Enabled, After, Legal;
    assert InLogOrder(cfg, Start());
    RunKeepsOrder(cfg, Start(), first);
    RunKeepsOrder(cfg, After(cfg, Start(), first), second);
    FlattenIsMonotone(cfg.budget, After(cfg, Start(), first).log, After(cfg, After(cfg, Start(), first), second).log);
  }

  lemma {:induction false} FlattenIsMonotone(budget: u32, short: seq<Entry>, long: seq<Entry>)
    requires budget > HEADER_LEN && short <= long
    ensures Flatten(budget, short) <= Flatten(budget, long)
    decreases |long|
  {
    hide FramesOf;
    if short != long {
      FlattenIsMonotone(budget, short, long[..|long| - 1]);
    } else {
      assert short == long;
    }
  }

  // ---- conservation ------------------------------------------------------------------

  function Answers(polled: seq<Fate>): nat {
    if polled == [] then 0
    else Answers(polled[..|polled| - 1]) + (if polled[|polled| - 1].disposition.Answered? then 1 else 0)
  }

  function Starts(polled: seq<Fate>): nat {
    if polled == [] then 0
    else Starts(polled[..|polled| - 1]) + (if polled[|polled| - 1].disposition.Started? then 1 else 0)
  }

  function Results(log: seq<Entry>): nat {
    if log == [] then 0 else Results(log[..|log| - 1]) + (if log[|log| - 1].origin.Result? then 1 else 0)
  }

  /** Last fragments, one per finished reply. */
  function Finals(frames: seq<R.SentReply>): nat {
    if frames == [] then 0 else Finals(frames[..|frames| - 1]) + (if frames[|frames| - 1].more then 0 else 1)
  }

  /** The books: replies begun are rejections plus finished jobs, and every started job is
      finished, dropped by the drain, or still held. */
  ghost predicate Balanced(s: State) {
    && |s.log| == Answers(s.polled) + Results(s.log)
    && Starts(s.polled) == Results(s.log) + |s.dropped| + |s.tables.jobs|
  }

  lemma StepKeepsBalance(cfg: Config, s: State, a: Action)
    requires cfg.Valid() && Inv(s) && Balanced(s) && Enabled(s, a)
    ensures Balanced(Next(cfg, s, a))
  {
    hide Handle, FramesOf, Inv, Balanced, JobIds, HandlerStep, Receive, Take;
    if a.PollEvent? {
      TakeKeepsBalance(cfg, s, a.event);
    } else if a.ReceiveResult? {
      ReceiveKeepsBalance(cfg, s);
    } else if a.DrainOne? {
      DrainKeepsBalance(cfg, s);
    } else {
      if OfHandler(a) {
        HandlersKeepBooks(s, a);
      }
      SameBooks(s, Next(cfg, s, a));
    }
  }

  lemma SameBooks(s: State, n: State)
    requires Balanced(s) && n.log == s.log && n.polled == s.polled && n.dropped == s.dropped
    requires n.tables.jobs == s.tables.jobs
    ensures Balanced(n)
  {
  }

  lemma HandlersKeepBooks(s: State, a: Action)
    requires Enabled(s, a) && OfHandler(a)
    ensures var n := HandlerStep(s, a);
      n.log == s.log && n.polled == s.polled && n.dropped == s.dropped && n.tables == s.tables && n.loop == s.loop
      && n.outbox == s.outbox && n.invocations == s.invocations
  {
  }

  lemma ReceiveKeepsBalance(cfg: Config, s: State)
    requires Inv(s) && Balanced(s) && s.done != []
    ensures Balanced(Receive(cfg, s))
  {
    hide Inv, FramesOf, Answers, Starts, Results;
    FirstIsHeld(s);
    RemovalShrinks(s.tables.jobs, s.done[0].work.correlationID);
    LoggedOneMore(s.log, EntryOf(s.done[0]));
    assert Receive(cfg, s).log == s.log + [EntryOf(s.done[0])];
  }

  lemma FirstIsHeld(s: State)
    requires Inv(s) && s.done != []
    ensures s.done[0].work.correlationID in s.tables.jobs
  {
    hide TablesInv, UniqueIds, Served;
    assert Owns(s.tables, s.done[0].work);
  }

  lemma DrainKeepsBalance(cfg: Config, s: State)
    requires Inv(s) && Balanced(s) && Enabled(s, DrainOne)
    ensures Balanced(Next(cfg, s, DrainOne))
  {
    hide Inv, Answers, Starts, Results;
    FirstIsHeld(s);
    RemovalShrinks(s.tables.jobs, s.done[0].work.correlationID);
  }

  lemma TakeKeepsBalance(cfg: Config, s: State, e: Event)
    requires Balanced(s) && s.loop.AtPoll?
    ensures Balanced(Take(cfg, s, e))
  {
    hide Handle, FramesOf, Answers, Starts, Results;
    var h := Handle(cfg, s.tables, e, s.loop.now, s.nextId);
    HandleStartsOrKeeps(cfg, s.tables, e, s.loop.now, s.nextId);
    var n := Take(cfg, s, e);
    PolledOneMore(s.polled, Fate(e, s.loop.now, h.disposition));
    if h.disposition.Answered? {
      LoggedOneMore(s.log, n.log[|s.log|]);
    }
    if h.disposition.Started? {
      InsertionSize(s.tables.jobs, n.tables.jobs, e.frame.correlationID);
    }
  }

  lemma PolledOneMore(polled: seq<Fate>, f: Fate)
    ensures Answers(polled + [f]) == Answers(polled) + (if f.disposition.Answered? then 1 else 0)
    ensures Starts(polled + [f]) == Starts(polled) + (if f.disposition.Started? then 1 else 0)
  {
    assert (polled + [f])[..|polled|] == polled;
  }

  lemma LoggedOneMore(log: seq<Entry>, e: Entry)
    ensures Results(log + [e]) == Results(log) + (if e.origin.Result? then 1 else 0)
  {
    assert (log + [e])[..|log|] == log;
  }

  lemma {:induction false} RunKeepsBalance(cfg: Config, s: State, run: seq<Action>)
    requires cfg.Valid() && Inv(s) && Balanced(s) && Legal(cfg, s, run)
    ensures Balanced(After(cfg, s, run))
    decreases |run|
  {
    hide Inv, Balanced, Next, Enabled;
    if run != [] {
      StepKeepsInv(cfg, s, run[0]);
      StepKeepsBalance(cfg, s, run[0]);
      RunKeepsBalance(cfg, Next(cfg, s, run[0]), run[1..]);
    }
  }

  lemma {:induction false} FinalsOfConcat(a: seq<R.SentReply>, b: seq<R.SentReply>)
    ensures Finals(a + b) == Finals(a) + Finals(b)
  {
    if b == [] {
      assert a + b == a;
    } else {
      FinalsOfConcat(a, b[..|b| - 1]);
      assert (a + b)[..|a + b| - 1] == a + b[..|b| - 1];
    }
  }

  lemma {:induction false} NoFinals(frames: seq<R.SentReply>)
    requires forall i :: 0 <= i < |frames| ==> frames[i].more
    ensures Finals(frames) == 0
  {
    if frames != [] {
      NoFinals(frames[..|frames| - 1]);
    }
  }

  /** Exactly the last fragment of a reply lacks FMore. */
  lemma OneFinal(budget: u32, e: Entry)
    requires budget > HEADER_LEN
    ensures var fs := FramesOf(budget, e);
            fs != [] && Finals(fs) == 1 && forall i :: 0 <= i < |fs| ==> (fs[i].more <==> i + 1 < |fs|)
  {
    hide Split, Payload;
    var fs := FramesOf(budget, e);
    NoFinals(fs[..|fs| - 1]);
  }

  lemma {:induction false} FinalsOfLog(budget: u32, log: seq<Entry>)
    requires budget > HEADER_LEN
    ensures Finals(Flatten(budget, log)) == |log|
  {
    hide FramesOf;
    if log != [] {
      FinalsOfLog(budget, log[..|log| - 1]);
      OneFinal(budget, log[|log| - 1]);
      FinalsOfConcat(Flatten(budget, log[..|log| - 1]), FramesOf(budget, log[|log| - 1]));
    }
  }

  /** The books of one state. */
  ghost predicate Conserved(s: State) {
    && Finals(s.outbox) + (if Unsent(s.loop) == [] then 0 else 1) == Answers(s.polled) + Results(s.log)
    && Starts(s.polled) == Results(s.log) + |s.dropped| + |s.tables.jobs|
    && (s.dropped != [] ==> s.loop == ShuttingDown || s.loop == Stopped([]))
  }

  lemma BooksBalance(cfg: Config, s: State)
    requires cfg.Valid() && InLogOrder(cfg, s) && Balanced(s) && LoopShape(s)
    ensures Conserved(s)
  {
    hide Finals, Flatten, Answers, Results, Starts;
    FinalsOfLog(cfg.budget, s.log);
    FinalsOfConcat(s.outbox, Unsent(s.loop));
    assert Unsent(s.loop) == [] ==> s.outbox + Unsent(s.loop) == s.outbox;
  }

  /** Conservation over every run: the terminal fragments on the bus, plus one while a reply is
      under way or when the loop failed in the middle of it, are the rejections plus the
      finished jobs; and the started jobs are the finished, the dropped and the held ones. */
  lemma RepliesAreConserved(cfg: Config, run: seq<Action>)
    requires cfg.Valid() && Legal(cfg, Start(), run)
    ensures Conserved(After(cfg, Start(), run))
  {
    hide Legal, After, Conserved;
    StartInv();
    StartBooks(cfg);
    ConservedFrom(cfg, Start(), run);
  }

  lemma StartBooks(cfg: Config)
    requires cfg.Valid()
    ensures InLogOrder(cfg, Start()) && Balanced(Start()) && LoopShape(Start())
  {
    hide Flatten, Answers, Starts, Results, Finals;
    NothingYet(cfg.budget);
  }

  lemma NothingYet(budget: u32)
    requires budget > HEADER_LEN
    ensures Flatten(budget, []) == [] && Answers([]) == 0 && Starts([]) == 0 && Results([]) == 0
  {
    hide FramesOf;
  }

  lemma ConservedFrom(cfg: Config, s: State, run: seq<Action>)
    requires cfg.Valid() && Legal(cfg, s, run)
    requires Inv(s) && InLogOrder(cfg, s) && Balanced(s) && LoopShape(s)
    ensures Conserved(After(cfg, s, run))
  {
    hide Inv, InLogOrder, Balanced, LoopShape, Conserved, Legal, After;
    RunKeepsBalance(cfg, s, run);
    RunKeepsOrder(cfg, s, run);
    RunKeepsShape(cfg, s, run);
    BooksBalance(cfg, After(cfg, s, run));
  }

  /** The rest of a reply under way ends in its one final fragment, and only the drain drops. */
  ghost predicate LoopShape(s: State) {
    && (s.loop.Replying? ==> s.loop.rest != [])
    && (Unsent(s.loop) != [] ==> Finals(Unsent(s.loop)) == 1 && OnlyLastIsFinal(Unsent(s.loop)))
    && (s.dropped != [] ==> s.loop == ShuttingDown || s.loop == Stopped([]))
  }

  ghost predicate OnlyLastIsFinal(fs: seq<R.SentReply>) {
    forall i :: 0 <= i < |fs| ==> (fs[i].more <==> i + 1 < |fs|)
  }

  lemma TailKeepsFinal(fs: seq<R.SentReply>)
    requires |fs| > 1 && OnlyLastIsFinal(fs) && Finals(fs) == 1
    ensures OnlyLastIsFinal(fs[1..]) && Finals(fs[1..]) == 1
  {
    assert fs == [fs[0]] + fs[1..];
    FinalsOfConcat([fs[0]], fs[1..]);
    assert [fs[0]][..0] == [];
  }

  lemma StepKeepsShape(cfg: Config, s: State, a: Action)
    requires cfg.Valid() && LoopShape(s) && Enabled(s, a)
    ensures LoopShape(Next(cfg, s, a))
  {
    hide Handle, FramesOf, Finals;
    var n := Next(cfg, s, a);
    match a
    case ReceiveResult => OneFinal(cfg.budget, EntryOf(s.done[0]));
    case PollEvent(e) =>
      if Handle(cfg, s.tables, e, s.loop.now, s.nextId).disposition.Answered? {
        OneFinal(cfg.budget, n.log[|s.log|]);
      }
    case Emit(attempt) =>
      if |s.loop.rest| > 1 {
        TailKeepsFinal(s.loop.rest);
      }
    case _ =>
  }

  lemma {:induction false} RunKeepsShape(cfg: Config, s: State, run: seq<Action>)
    requires cfg.Valid() && LoopShape(s) && Legal(cfg, s, run)
    ensures LoopShape(After(cfg, s, run))
    decreases |run|
  {
    hide LoopShape, Next, Enabled;
    if run != [] {
      StepKeepsShape(cfg, s, run[0]);
      RunKeepsShape(cfg, Next(cfg, s, run[0]), run[1..]);
    }
  }

  // ---- every reply is valid ----------------------------------------------------------

  /** A reply entry as the runtime builds them: a stage, a known status, and a body only on OK. */
  ghost predicate ValidEntry(e: Entry) {
    && e.stageID != 0 && e.correlation != 0 && e.status <= STATUS_INTERNAL
    && (e.status != STATUS_OK ==> e.body == []) && |e.body| <= MAX_BODY
    && (e.origin == Rejection ==> e.status != STATUS_OK)
  }

  /** A fragment emit takes: within the budget, a valid frame, a message that decodes. */
  ghost predicate Emittable(cfg: Config, f: R.SentReply) {
    && 0 < |f.payload| <= cfg.budget
    && Wire.Validate(SentFrame(ReplyFlags(f.more), f.kind, f.correlation, |f.payload|, 0)) == Wire.OK
    && Decode(f.payload).Message? && Decode(f.payload).message.operation == OP_RESULT
    && HEADER_LEN + Decode(f.payload).message.bodyLen == |f.payload|
  }

  lemma EntryIsEmittable(cfg: Config, e: Entry)
    requires cfg.Valid() && ValidEntry(e)
    ensures forall i :: 0 <= i < |FramesOf(cfg.budget, e)| ==> Emittable(cfg, FramesOf(cfg.budget, e)[i])
  {
    hide Split, Payload, Decode, Wire.Validate, SentFrame;
    var envelope := Answer(e.status, e.stageID, e.traceID);
    R.ResultsAreValid(e.status, e.stageID, e.traceID);
    var chunk := R.ChunkOf(cfg.budget);
    var fs := Cut(envelope, e.body, chunk);
    forall i | 0 <= i < |fs| ensures Emittable(cfg, FramesOf(cfg.budget, e)[i]) {
      CutAt(envelope, e.body, chunk, i);
      SplitWithin(e.body, chunk, i);
      var part := Split(e.body, chunk)[i];
      PayloadDecodes(envelope, part);
      PayloadLength(envelope, part);
      SentFrameValid(e.kind, e.correlation, HEADER_LEN + |part|, 0, fs[i].more);
    }
  }

  lemma PayloadLength(envelope: Envelope, part: seq<byte>)
    requires |part| < 0x1_0000_0000
    ensures |Payload(envelope, part)| == HEADER_LEN + |part|
  {
  }

  lemma {:induction false} SplitWithin(body: seq<byte>, chunk: nat, i: nat)
    requires chunk > 0 && i < |Split(body, chunk)|
    ensures |Split(body, chunk)[i]| <= |body|
    decreases |body|
  {
    if |body| > chunk && i > 0 {
      SplitWithin(body[chunk..], chunk, i - 1);
    }
  }

  /** Polled events come from valid frames. */
  ghost predicate ValidFrames(a: Action) {
    a.PollEvent? ==> Wire.Validate(a.event.frame) == Wire.OK
  }

  ghost predicate CleanPhase(p: Phase) {
    p.Working? || (p.status <= STATUS_INTERNAL && |p.body| <= MAX_BODY && (p.status != STATUS_OK ==> p.body == []))
  }

  /** Everything that may become a reply is fit to be one. */
  ghost predicate Clean(s: State) {
    && (forall i :: 0 <= i < |s.log| ==> ValidEntry(s.log[i]))
    && (forall c :: c in s.tables.jobs ==> c != 0)
    && (forall id :: id in s.handlers ==> CleanPhase(s.handlers[id].phase))
    && (forall i :: 0 <= i < |s.done| ==> CleanPhase(Ready(s.done[i].status, s.done[i].body)))
  }

  lemma HandlerKeepsClean(s: State, a: Action)
    requires Clean(s) && Enabled(s, a) && OfHandler(a)
    ensures Clean(HandlerStep(s, a))
  {
    hide UniqueIds, Served, TablesInv;
    if !a.HandlerReturns? {
      assert CleanPhase(s.handlers[a.id].phase);
    }
  }

  lemma StepKeepsClean(cfg: Config, s: State, a: Action)
    requires cfg.Valid() && Inv(s) && Clean(s) && Enabled(s, a) && ValidFrames(a)
    ensures Clean(Next(cfg, s, a))
  {
    hide Inv, Clean, JobIds, Wire.Validate, HandlerStep, Receive, Take;
    if OfHandler(a) {
      HandlerKeepsClean(s, a);
    } else if a.PollEvent? {
      TakeKeepsClean(cfg, s, a.event);
    } else if a.ReceiveResult? {
      ReceiveKeepsClean(cfg, s);
    } else {
      CleanCarries(s, Next(cfg, s, a));
    }
  }

  lemma ReceiveKeepsClean(cfg: Config, s: State)
    requires Inv(s) && Clean(s) && s.done != []
    ensures Clean(Receive(cfg, s))
  {
    hide FramesOf, UniqueIds, Served;
    assert Owns(s.tables, s.done[0].work);
    assert CleanPhase(Ready(s.done[0].status, s.done[0].body));
  }

  lemma CleanCarries(s: State, n: State)
    requires Clean(s) && n.log == s.log && n.handlers == s.handlers && n.tables.jobs.Keys <= s.tables.jobs.Keys
    requires n.done == s.done || (s.done != [] && n.done == s.done[1..])
    ensures Clean(n)
  {
    forall c | c in n.tables.jobs ensures c != 0 {
      assert c in s.tables.jobs.Keys;
    }
  }

  lemma TakeKeepsClean(cfg: Config, s: State, e: Event)
    requires cfg.Valid() && Clean(s) && s.loop.AtPoll? && Wire.Validate(e.frame) == Wire.OK
    ensures Clean(Take(cfg, s, e))
  {
    hide Handle, FramesOf, Wire.Validate, Decode;
    var h := Handle(cfg, s.tables, e, s.loop.now, s.nextId);
    HandleStartsOrKeeps(cfg, s.tables, e, s.loop.now, s.nextId);
    AnswersAreErrors(cfg, s.tables, e, s.loop.now, s.nextId);
    Wire.ValidateIsWellFormed(e.frame);
  }

  /** A rejection names a stage and an error status; only correlated events are acted on. */
  lemma AnswersAreErrors(cfg: Config, t: Tables, e: Event, now: u64, id: nat)
    requires cfg.Valid()
    ensures var d := Handle(cfg, t, e, now, id).disposition;
      && (d.Answered? ==> d.stageID != 0 && STATUS_OK < d.status <= STATUS_INTERNAL)
      && (d.Answered? || d.Started? ==> IsRequest(e) && !IsCancel(e))
  {
    hide Decode, PartOf, IsRequest, IsCancel, HasMore, Unacceptable, Accept;
    if IsRequest(e) && !IsCancel(e) && !Unacceptable(cfg, t, e) {
      AcceptedAnswersAreErrors(cfg, t, e, now, id);
    }
  }

  lemma AcceptedAnswersAreErrors(cfg: Config, t: Tables, e: Event, now: u64, id: nat)
    requires cfg.Valid() && !Unacceptable(cfg, t, e)
    ensures var d := Accept(cfg, t, e, now, id).disposition;
      d.Answered? ==> d.stageID != 0 && STATUS_OK < d.status <= STATUS_INTERNAL
  {
    hide Decode, PartOf, IsRequest, IsCancel, HasMore, Continues;
  }

  lemma {:induction false} RunKeepsClean(cfg: Config, s: State, run: seq<Action>)
    requires cfg.Valid() && Inv(s) && Clean(s) && Legal(cfg, s, run)
    requires forall i :: 0 <= i < |run| ==> ValidFrames(run[i])
    ensures Clean(After(cfg, s, run))
    decreases |run|
  {
    hide Inv, Clean, Next, Enabled, ValidFrames;
    if run != [] {
      StepKeepsInv(cfg, s, run[0]);
      StepKeepsClean(cfg, s, run[0]);
      RunKeepsClean(cfg, Next(cfg, s, run[0]), run[1..]);
    }
  }

  /** On every run over valid frames, each fragment that left or is about to leave is within
      the budget, a valid frame and a decodable result message, and non-OK replies are empty. */
  lemma EveryReplyIsValid(cfg: Config, run: seq<Action>)
    requires cfg.Valid() && Legal(cfg, Start(), run)
    requires forall i :: 0 <= i < |run| ==> ValidFrames(run[i])
    ensures var s := After(cfg, Start(), run);
      && (forall i :: 0 <= i < |s.log| ==> ValidEntry(s.log[i]))
      && (forall i :: 0 <= i < |s.outbox| ==> Emittable(cfg, s.outbox[i]))
      && (s.loop.Replying? ==> forall i :: 0 <= i < |s.loop.rest| ==> Emittable(cfg, s.loop.rest[i]))
  {
    StartInv();
    assert InLogOrder(cfg, Start()) && Clean(Start());
    ValidFrom(cfg, Start(), run);
  }

  lemma ValidFrom(cfg: Config, s0: State, run: seq<Action>)
    requires cfg.Valid() && Legal(cfg, s0, run) && Inv(s0) && InLogOrder(cfg, s0) && Clean(s0)
    requires forall i :: 0 <= i < |run| ==> ValidFrames(run[i])
    ensures var s := After(cfg, s0, run);
      && (forall i :: 0 <= i < |s.log| ==> ValidEntry(s.log[i]))
      && (forall i :: 0 <= i < |s.outbox| ==> Emittable(cfg, s.outbox[i]))
      && (s.loop.Replying? ==> forall i :: 0 <= i < |s.loop.rest| ==> Emittable(cfg, s.loop.rest[i]))
  {
    hide Inv, Legal, After, ValidFrames, Emittable, ValidEntry, Flatten;
    RunKeepsOrder(cfg, s0, run);
    RunKeepsClean(cfg, s0, run);
    var s := After(cfg, s0, run);
    FlattenIsEmittable(cfg, s.log);
    var fs := Flatten(cfg.budget, s.log);
    if s.loop.Replying? {
      forall i | 0 <= i < |s.loop.rest| ensures Emittable(cfg, s.loop.rest[i]) {
        assert s.loop.rest[i] == fs[|s.outbox| + i];
      }
    }
    forall i | 0 <= i < |s.outbox| ensures Emittable(cfg, s.outbox[i]) {
      assert s.outbox[i] == fs[i];
    }
  }

  lemma {:induction false} FlattenIsEmittable(cfg: Config, log: seq<Entry>)
    requires cfg.Valid() && forall i :: 0 <= i < |log| ==> ValidEntry(log[i])
    ensures forall i :: 0 <= i < |Flatten(cfg.budget, log)| ==> Emittable(cfg, Flatten(cfg.budget, log)[i])
  {
    hide FramesOf, Emittable, ValidEntry;
    if log != [] {
      FlattenIsEmittable(cfg, log[..|log| - 1]);
      EntryIsEmittable(cfg, log[|log| - 1]);
    }
  }

  // ---- a cancel seen in time decides the outcome -------------------------------------

  /** The job's flag is set and its handler has not looked yet, or the outcome is already
      Cancelled with an empty body all the way to the reply log. */
  ghost predicate Doomed(s: State, id: nat) {
    && (id in s.handlers ==>
          match s.handlers[id].phase
          case Working => id in s.cancelled
          case Normalised(_, _) => id in s.cancelled
          case FlagClear(_, _) => false
          case Ready(status, body) => status == STATUS_CANCELLED && body == [])
    && (forall i :: 0 <= i < |s.done| && s.done[i].work.id == id ==>
          s.done[i].status == STATUS_CANCELLED && s.done[i].body == [])
    && (forall i :: 0 <= i < |s.log| && s.log[i].origin == Result(id) ==>
          s.log[i].status == STATUS_CANCELLED && s.log[i].body == [])
    && id < s.nextId
  }

  lemma HandlerKeepsDoom(s: State, a: Action, id: nat)
    requires Doomed(s, id) && Inv(s) && Enabled(s, a) && OfHandler(a)
    ensures Doomed(HandlerStep(s, a), id)
  {
    if a.HandlerSends? {
      SendKeepsDoom(s, a.id, id);
    } else {
      PhaseKeepsDoom(s, a, id);
    }
  }

  lemma SendKeepsDoom(s: State, k: nat, id: nat)
    requires Doomed(s, id) && Inv(s) && Enabled(s, HandlerSends(k))
    ensures Doomed(HandlerStep(s, HandlerSends(k)), id)
  {
    hide UniqueIds, Served, TablesInv;
  }

  lemma PhaseKeepsDoom(s: State, a: Action, id: nat)
    requires Doomed(s, id) && Enabled(s, a) && OfHandler(a) && !a.HandlerSends?
    ensures Doomed(HandlerStep(s, a), id)
  {
  }

  lemma StepKeepsDoom(cfg: Config, s: State, a: Action, id: nat)
    requires Doomed(s, id) && Inv(s) && Enabled(s, a)
    ensures Doomed(Next(cfg, s, a), id)
  {
    hide JobIds, Inv, HandlerStep, Take, Receive, Doomed;
    if OfHandler(a) {
      HandlerKeepsDoom(s, a, id);
    } else if a.PollEvent? {
      TakeKeepsDoom(cfg, s, a.event, id);
    } else if a.ReceiveResult? {
      ReceiveKeepsDoom(cfg, s, id);
    } else {
      hide Next, Enabled;
      LoopSteps(cfg, s, a);
      DoomCarries(s, Next(cfg, s, a), id);
    }
  }

  lemma TakeKeepsDoom(cfg: Config, s: State, e: Event, id: nat)
    requires Doomed(s, id) && s.loop.AtPoll?
    ensures Doomed(Take(cfg, s, e), id)
  {
    hide Handle, FramesOf, Doomed;
    DoomCarries(s, Take(cfg, s, e), id);
  }

  lemma ReceiveKeepsDoom(cfg: Config, s: State, id: nat)
    requires Doomed(s, id) && s.done != []
    ensures Doomed(Receive(cfg, s), id)
  {
    hide FramesOf;
    assert Receive(cfg, s).log == s.log + [EntryOf(s.done[0])];
  }

  /** What a loop step other than receiving a result leaves of a doomed job. */
  lemma DoomCarries(s: State, n: State, id: nat)
    requires Doomed(s, id) && s.cancelled <= n.cancelled && s.nextId <= n.nextId
    requires n.handlers == s.handlers
             || exists w: Work :: n.handlers == s.handlers[s.nextId := Goroutine(w, Working)]
    requires n.done == s.done || (s.done != [] && n.done == s.done[1..])
    requires n.log == s.log || exists e: Entry :: n.log == s.log + [e] && e.origin == Rejection
    ensures Doomed(n, id)
  {
  }

  lemma {:induction false} RunKeepsDoom(cfg: Config, s: State, run: seq<Action>, id: nat)
    requires cfg.Valid() && Inv(s) && Doomed(s, id) && Legal(cfg, s, run)
    ensures Doomed(After(cfg, s, run), id)
    decreases |run|
  {
    hide Inv, Doomed, Next, Enabled;
    if run != [] {
      StepKeepsInv(cfg, s, run[0]);
      StepKeepsDoom(cfg, s, run[0], id);
      RunKeepsDoom(cfg, Next(cfg, s, run[0]), run[1..], id);
    }
  }

  /** Nothing has been said about a job that is still running. */
  ghost predicate RunningUnreported(s: State) {
    && (forall id, i :: id in s.handlers && 0 <= i < |s.log| ==> s.log[i].origin != Result(id))
    && (forall i, j :: 0 <= i < |s.done| && 0 <= j < |s.log| ==> s.log[j].origin != Result(s.done[i].work.id))
    && (forall i :: 0 <= i < |s.log| && s.log[i].origin.Result? ==> s.log[i].origin.id < s.nextId)
  }

  lemma HandlerKeepsUnreported(s: State, a: Action)
    requires RunningUnreported(s) && Inv(s) && Enabled(s, a) && OfHandler(a)
    ensures RunningUnreported(HandlerStep(s, a))
  {
    if a.HandlerSends? {
      SendKeepsUnreported(s, a.id);
    } else {
      PhaseKeepsUnreported(s, a);
    }
  }

  lemma SendKeepsUnreported(s: State, id: nat)
    requires RunningUnreported(s) && Inv(s) && Enabled(s, HandlerSends(id))
    ensures RunningUnreported(HandlerStep(s, HandlerSends(id)))
  {
    hide UniqueIds, Served, TablesInv, Owns;
    var n := HandlerStep(s, HandlerSends(id));
    assert s.handlers[id].work.id == id;
    forall i, j | 0 <= i < |n.done| && 0 <= j < |n.log| ensures n.log[j].origin != Result(n.done[i].work.id) {
      assert i < |s.done| ==> n.done[i] == s.done[i];
    }
  }

  lemma PhaseKeepsUnreported(s: State, a: Action)
    requires RunningUnreported(s) && Enabled(s, a) && OfHandler(a) && !a.HandlerSends?
    ensures RunningUnreported(HandlerStep(s, a))
  {
    hide NormalisedResponse;
    var n := HandlerStep(s, a);
    assert n.handlers.Keys == s.handlers.Keys && n.done == s.done && n.log == s.log;
  }

  lemma ReceiveKeepsUnreported(cfg: Config, s: State)
    requires RunningUnreported(s) && Inv(s) && s.done != []
    ensures RunningUnreported(Receive(cfg, s))
  {
    hide FramesOf, UniqueIds, Served, TablesInv;
    var n := Receive(cfg, s);
    assert n.log == s.log + [EntryOf(s.done[0])];
    forall i | 0 <= i < |n.done| ensures n.done[i].work.id != s.done[0].work.id {
      assert n.done[i] == s.done[i + 1];
    }
  }

  lemma TakeKeepsUnreported(cfg: Config, s: State, e: Event)
    requires RunningUnreported(s) && Inv(s) && s.loop.AtPoll?
    ensures RunningUnreported(Take(cfg, s, e))
  {
    hide Handle, FramesOf, Inv, RunningUnreported;
    UnreportedCarries(s, Take(cfg, s, e));
  }

  lemma UnreportedCarries(s: State, n: State)
    requires RunningUnreported(s) && s.nextId <= n.nextId && n.done == s.done
    requires n.handlers == s.handlers
             || exists w: Work :: n.handlers == s.handlers[s.nextId := Goroutine(w, Working)]
    requires n.log == s.log || exists e: Entry :: n.log == s.log + [e] && e.origin == Rejection
    ensures RunningUnreported(n)
  {
  }

  lemma StepKeepsUnreported(cfg: Config, s: State, a: Action)
    requires RunningUnreported(s) && Inv(s) && Enabled(s, a)
    ensures RunningUnreported(Next(cfg, s, a))
  {
    hide Inv, Receive, Take, HandlerStep, JobIds;
    match a
    case ReceiveResult => ReceiveKeepsUnreported(cfg, s);
    case PollEvent(e) => TakeKeepsUnreported(cfg, s, e);
    case _ =>
      if OfHandler(a) {
        HandlerKeepsUnreported(s, a);
      } else {
        hide Next, Enabled;
        LoopSteps(cfg, s, a);
      }
  }

  lemma {:induction false} RunKeepsUnreported(cfg: Config, s: State, run: seq<Action>)
    requires cfg.Valid() && Inv(s) && RunningUnreported(s) && Legal(cfg, s, run)
    ensures RunningUnreported(After(cfg, s, run))
    decreases |run|
  {
    hide Inv, RunningUnreported, Next, Enabled;
    if run != [] {
      StepKeepsInv(cfg, s, run[0]);
      StepKeepsUnreported(cfg, s, run[0]);
      RunKeepsUnreported(cfg, Next(cfg, s, run[0]), run[1..]);
    }
  }

  /** No job is reported twice. */
  ghost predicate ReportedOnce(s: State) {
    forall i, j :: 0 <= i < j < |s.log| && s.log[i].origin.Result? ==> s.log[i].origin != s.log[j].origin
  }

  lemma StepKeepsReports(cfg: Config, s: State, a: Action)
    requires RunningUnreported(s) && ReportedOnce(s) && Enabled(s, a)
    ensures ReportedOnce(Next(cfg, s, a))
  {
    hide Handle, FramesOf, JobIds, HandlerStep, RunningUnreported;
    if OfHandler(a) {
      HandlersKeepBooks(s, a);
    } else if a.ReceiveResult? {
      FirstUnreported(s);
    }
  }

  lemma FirstUnreported(s: State)
    requires RunningUnreported(s) && s.done != []
    ensures forall i :: 0 <= i < |s.log| ==> s.log[i].origin != Result(s.done[0].work.id)
  {
  }

  lemma {:induction false} RunKeepsReports(cfg: Config, s: State, run: seq<Action>)
    requires cfg.Valid() && Inv(s) && RunningUnreported(s) && ReportedOnce(s) && Legal(cfg, s, run)
    ensures ReportedOnce(After(cfg, s, run))
    decreases |run|
  {
    hide Inv, RunningUnreported, ReportedOnce, Next, Enabled;
    if run != [] {
      StepKeepsInv(cfg, s, run[0]);
      StepKeepsUnreported(cfg, s, run[0]);
      StepKeepsReports(cfg, s, run[0]);
      RunKeepsReports(cfg, Next(cfg, s, run[0]), run[1..]);
    }
  }

  /** On every run a job is reported at most once: with conservation, a job that was neither
      dropped nor is still held was reported exactly once. */
  lemma JobsAreReportedOnce(cfg: Config, run: seq<Action>)
    requires cfg.Valid() && Legal(cfg, Start(), run)
    ensures ReportedOnce(After(cfg, Start(), run))
  {
    hide Legal, After;
    StartInv();
    RunKeepsReports(cfg, Start(), run);
  }

  /** A cancel the loop takes while the handler of its correlation has not yet loaded the flag
      makes every later result and reply of that job Cancelled with an empty body. */
  lemma CancelInTimeWins(cfg: Config, before: seq<Action>, e: Event, after: seq<Action>)
    requires cfg.Valid() && Legal(cfg, Start(), before)
    requires var s := After(cfg, Start(), before);
      && s.loop.AtPoll? && IsCancel(e) && e.frame.correlationID in s.tables.jobs
      && var id := s.tables.jobs[e.frame.correlationID].id;
         id in s.handlers && (PhaseOf(s, id).Working? || PhaseOf(s, id).Normalised?)
    requires Legal(cfg, Take(cfg, After(cfg, Start(), before), e), after)
    ensures var s := After(cfg, Start(), before);
            var id := s.tables.jobs[e.frame.correlationID].id;
            var end := After(cfg, Take(cfg, s, e), after);
      && (forall i :: 0 <= i < |end.done| && end.done[i].work.id == id ==>
            end.done[i].status == STATUS_CANCELLED && end.done[i].body == [])
      && (forall i :: 0 <= i < |end.log| && end.log[i].origin == Result(id) ==>
            end.log[i].status == STATUS_CANCELLED && end.log[i].body == [])
  {
    StartInv();
    assert RunningUnreported(Start());
    CancelFrom(cfg, Start(), before, e, after);
  }

  lemma CancelFrom(cfg: Config, s0: State, before: seq<Action>, e: Event, after: seq<Action>)
    requires cfg.Valid() && Inv(s0) && RunningUnreported(s0) && Legal(cfg, s0, before)
    requires var s := After(cfg, s0, before);
      && s.loop.AtPoll? && IsCancel(e) && e.frame.correlationID in s.tables.jobs
      && var id := s.tables.jobs[e.frame.correlationID].id;
         id in s.handlers && (PhaseOf(s, id).Working? || PhaseOf(s, id).Normalised?)
    requires Legal(cfg, Take(cfg, After(cfg, s0, before), e), after)
    ensures var s := After(cfg, s0, before);
            Doomed(After(cfg, Take(cfg, s, e), after), s.tables.jobs[e.frame.correlationID].id)
  {
    hide Inv, RunningUnreported, Legal, After, Take, Doomed;
    RunKeepsInv(cfg, s0, before);
    RunKeepsUnreported(cfg, s0, before);
    var s := After(cfg, s0, before);
    CancelDooms(cfg, s, e);
    StepKeepsInv(cfg, s, PollEvent(e));
    RunKeepsDoom(cfg, Take(cfg, s, e), after, s.tables.jobs[e.frame.correlationID].id);
  }

  lemma CancelDooms(cfg: Config, s: State, e: Event)
    requires cfg.Valid() && Inv(s) && RunningUnreported(s)
    requires s.loop.AtPoll? && IsCancel(e) && e.frame.correlationID in s.tables.jobs
    requires var id := s.tables.jobs[e.frame.correlationID].id;
      id in s.handlers && (PhaseOf(s, id).Working? || PhaseOf(s, id).Normalised?)
    ensures Doomed(Take(cfg, s, e), s.tables.jobs[e.frame.correlationID].id)
  {
    hide TablesInv, UniqueIds, Served, Wire.Has;
  }
}
