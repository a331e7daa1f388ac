/** The accounts of one correlation over whole runs of the serving process
    (server-go/bus/module_runtime.go): every reply answers a refused event or a finished job
    of its correlation, and a run on which one correlation is answered twice. */
module ServerAccounts {
  import opened LittleEndian
  import opened ModuleProtocol
  import opened Fragments
  import opened Events
  import opened Serving
  import opened Server
  import opened ServerReplies
  import R = Reply
  import Wire

  /** The replies to one correlation, in the order they were begun. */
  function Ours(log: seq<Entry>, c: u64): seq<Entry> {
    if log == [] then []
    else Ours(log[..|log| - 1], c) + (if log[|log| - 1].correlation == c then [log[|log| - 1]] else [])
  }

  lemma OursOfAppend(log: seq<Entry>, e: Entry, c: u64)
    ensures Ours(log + [e], c) == Ours(log, c) + (if e.correlation == c then [e] else [])
  {
    assert (log + [e])[..|log|] == log;
  }

  /** The fates of the events polled for one correlation. */
  function FatesOf(polled: seq<Fate>, c: u64): (fates: seq<Fate>)
    ensures |fates| <= |polled|
  {
    if polled == [] then []
    else FatesOf(polled[..|polled| - 1], c) + (if polled[|polled| - 1].Correlation() == c then [polled[|polled| - 1]] else [])
  }

  lemma FatesOfAppend(polled: seq<Fate>, f: Fate, c: u64)
    ensures FatesOf(polled + [f], c) == FatesOf(polled, c) + (if f.Correlation() == c then [f] else [])
  {
    assert (polled + [f])[..|polled|] == polled;
  }

  /** The books of one correlation. */
  ghost predicate BalancedFor(s: State, c: u64) {
    && |Ours(s.log, c)| == Answers(FatesOf(s.polled, c)) + Results(Ours(s.log, c))
    && Starts(FatesOf(s.polled, c))
       == Results(Ours(s.log, c)) + multiset(s.dropped)[c] + (if c in s.tables.jobs then 1 else 0)
  }

  lemma SameBooksFor(s: State, n: State, c: u64)
    requires BalancedFor(s, c) && n.log == s.log && n.polled == s.polled && n.dropped == s.dropped
    requires n.tables.jobs == s.tables.jobs
    ensures BalancedFor(n, c)
  {
  }

  lemma ReceiveKeepsBooks(cfg: Config, s: State, c: u64)
    requires Inv(s) && BalancedFor(s, c) && s.done != []
    ensures BalancedFor(Receive(cfg, s), c)
  {
    hide Inv, FramesOf, Answers, Starts, Results, Ours, FatesOf;
    FirstIsHeld(s);
    var e := EntryOf(s.done[0]);
    assert Receive(cfg, s).log == s.log + [e];
    OursOfAppend(s.log, e, c);
    LoggedOneMore(Ours(s.log, c), e);
    assert Ours(s.log, c) + [] == Ours(s.log, c);
    JobRemoved(s.tables.jobs, s.done[0].work.correlationID, c);
  }

  lemma JobRemoved(jobs: map<u64, Work>, d: u64, c: u64)
    ensures c in jobs - {d} <==> c in jobs && c != d
  {
  }

  lemma DrainKeepsBooks(cfg: Config, s: State, c: u64)
    requires Inv(s) && BalancedFor(s, c) && Enabled(s, DrainOne)
    ensures BalancedFor(Next(cfg, s, DrainOne), c)
  {
    hide Inv, Answers, Starts, Results, Ours, FatesOf;
    FirstIsHeld(s);
    JobRemoved(s.tables.jobs, s.done[0].work.correlationID, c);
  }

  lemma TakeKeepsBooks(cfg: Config, s: State, e: Event, c: u64)
    requires BalancedFor(s, c) && s.loop.AtPoll?
    ensures BalancedFor(Take(cfg, s, e), c)
  {
    hide Handle, FramesOf, Answers, Starts, Results, Ours, FatesOf;
    var d := Handle(cfg, s.tables, e, s.loop.now, s.nextId).disposition;
    HandleStartsOrKeeps(cfg, s.tables, e, s.loop.now, s.nextId);
    var f := Fate(e, s.loop.now, d);
    FatesOfAppend(s.polled, f, c);
    PolledOneMore(FatesOf(s.polled, c), f);
    assert FatesOf(s.polled, c) + [] == FatesOf(s.polled, c);
    if d.Answered? {
      var entry := Take(cfg, s, e).log[|s.log|];
      OursOfAppend(s.log, entry, c);
      LoggedOneMore(Ours(s.log, c), entry);
      assert Ours(s.log, c) + [] == Ours(s.log, c);
    }
  }

  lemma StepKeepsBooks(cfg: Config, s: State, a: Action, c: u64)
    requires cfg.Valid() && Inv(s) && BalancedFor(s, c) && Enabled(s, a)
    ensures BalancedFor(Next(cfg, s, a), c)
  {
    hide Inv, BalancedFor, JobIds, HandlerStep, Receive, Take;
    if a.PollEvent? {
      TakeKeepsBooks(cfg, s, a.event, c);
    } else if a.ReceiveResult? {
      ReceiveKeepsBooks(cfg, s, c);
    } else if a.DrainOne? {
      DrainKeepsBooks(cfg, s, c);
    } else {
      if OfHandler(a) {
        HandlersKeepBooks(s, a);
      }
      SameBooksFor(s, Next(cfg, s, a), c);
    }
  }

  lemma {:induction false} RunKeepsBooks(cfg: Config, s: State, run: seq<Action>, c: u64)
    requires cfg.Valid() && Inv(s) && BalancedFor(s, c) && Legal(cfg, s, run)
    ensures BalancedFor(After(cfg, s, run), c)
    decreases |run|
  {
    hide Inv, BalancedFor, Next, Enabled;
    if run != [] {
      StepKeepsInv(cfg, s, run[0]);
      StepKeepsBooks(cfg, s, run[0], c);
      RunKeepsBooks(cfg, Next(cfg, s, run[0]), run[1..], c);
    }
  }

  /** An event is answered, or starts a job, or neither; never both. */
  lemma {:induction false} FatesAreExclusive(fates: seq<Fate>)
    ensures Answers(fates) + Starts(fates) <= |fates|
  {
    if fates != [] {
      FatesAreExclusive(fates[..|fates| - 1]);
    }
  }

  /** The accounts of every correlation on every run. Replies begun are refused events plus
      finished jobs, and started jobs are finished, dropped by the drain or still held. So a
      correlation is answered at most once exactly when at most one of its events was refused
      or finished, and never more often than it was polled. */
  lemma RepliesPerCorrelation(cfg: Config, run: seq<Action>, c: u64)
    requires cfg.Valid() && Legal(cfg, Start(), run)
    ensures var s := After(cfg, Start(), run);
      && BalancedFor(s, c)
      && (|Ours(s.log, c)| <= 1 <==> Answers(FatesOf(s.polled, c)) + Results(Ours(s.log, c)) <= 1)
      && |Ours(s.log, c)| <= Answers(FatesOf(s.polled, c)) + Starts(FatesOf(s.polled, c)) <= |FatesOf(s.polled, c)|
  {
    hide Legal, After, Answers, Starts, Results, FatesOf, Ours;
    StartInv();
    StartBooksFor(c);
    RunKeepsBooks(cfg, Start(), run, c);
    FatesAreExclusive(FatesOf(After(cfg, Start(), run).polled, c));
  }

  lemma StartBooksFor(c: u64)
    ensures BalancedFor(Start(), c)
  {
  }

  // ---- answered twice --------------------------------------------------------------------

  lemma OneAction(cfg: Config, s: State, a: Action, rest: seq<Action>)
    requires Enabled(s, a) && Legal(cfg, Next(cfg, s, a), rest)
    ensures Legal(cfg, s, [a] + rest) && After(cfg, s, [a] + rest) == After(cfg, Next(cfg, s, a), rest)
  {
    hide Enabled, Next;
    assert ([a] + rest)[1..] == rest;
  }

  /** A request event whose payload is no message at all. */
  lemma EmptyRequest(kind: u32, c: u64) returns (e: Event)
    requires c != 0
    ensures e.frame.correlationID == c && e.frame.eventKind == kind && Decode(e.payload) == Invalid
    ensures IsRequest(e) && !IsCancel(e) && Wire.Validate(e.frame) == Wire.OK
  {
    hide Wire.Validate, Wire.Has;
    SentFrameValid(kind, c, 0, 0, false);
    SentFlags(false, false);
    e := Event(SentFrame(RequestFlags(false), kind, c, 0, 0), []);
  }

  /** One turn of an idle loop over such an event: refused, and the refusal emitted. */
  lemma RefusingTurn(cfg: Config, s: State, e: Event) returns (run: seq<Action>)
    requires cfg.Valid() && s.loop == Draining && s.done == []
    requires IsRequest(e) && !IsCancel(e) && Decode(e.payload) == Invalid && Wire.Validate(e.frame) == Wire.OK
    ensures Legal(cfg, s, run) && forall i :: 0 <= i < |run| ==> ValidFrames(run[i])
    ensures var n := After(cfg, s, run);
      && n.loop == Draining && n.done == [] && |n.log| == |s.log| + 1 && n.log[..|s.log|] == s.log
      && n.log[|s.log|].correlation == e.frame.correlationID && n.log[|s.log|].origin == Rejection
      && |n.outbox| == |s.outbox| + 1 && !n.outbox[|s.outbox|].more
      && n.outbox[|s.outbox|].correlation == e.frame.correlationID && n.outbox[..|s.outbox|] == s.outbox
  {
    hide Decode, Wire.Validate, Wire.Has, Payload, Accept, FramesOf, Legal, After, Cut;
    var a1, a2, a3, a4, a5 := NothingDone, CheckContext(false), CheckEpoch(false, 0), PollEvent(e), Emit(R.Accepts);
    var s3 := Next(cfg, Next(cfg, Next(cfg, s, a1), a2), a3);
    var s4 := Next(cfg, s3, a4);
    var entry := s4.log[|s.log|];
    OneFrame(cfg.budget, entry);
    var s5 := Next(cfg, s4, a5);
    assert s5.loop == Draining;
    NoActions(cfg, s5);
    OneAction(cfg, s4, a5, []);
    OneAction(cfg, s3, a4, [a5] + []);
    OneAction(cfg, Next(cfg, Next(cfg, s, a1), a2), a3, [a4] + ([a5] + []));
    OneAction(cfg, Next(cfg, s, a1), a2, [a3] + ([a4] + ([a5] + [])));
    OneAction(cfg, s, a1, [a2] + ([a3] + ([a4] + ([a5] + []))));
    run := [a1] + ([a2] + ([a3] + ([a4] + ([a5] + []))));
    assert run == [a1, a2, a3, a4, a5];
  }

  lemma NoActions(cfg: Config, s: State)
    ensures Legal(cfg, s, []) && After(cfg, s, []) == s
  {
  }

  lemma OneFrame(budget: u32, e: Entry)
    requires budget > HEADER_LEN && e.body == [] && e.status <= STATUS_INTERNAL
    ensures var fs := FramesOf(budget, e); |fs| == 1 && fs[0].correlation == e.correlation && !fs[0].more
  {
    hide Payload;
    OneFinal(budget, e);
  }

  /** One correlation can be answered twice: a run of the process at whose end two terminal
      replies of it have left. */
  lemma AnsweredTwice(cfg: Config, kind: u32, c: u64) returns (run: seq<Action>)
    requires cfg.Valid() && c != 0
    ensures Legal(cfg, Start(), run) && forall i :: 0 <= i < |run| ==> ValidFrames(run[i])
    ensures var s := After(cfg, Start(), run);
      && |Ours(s.log, c)| == 2 && s.loop == Draining && |s.outbox| == 2
      && s.outbox[0].correlation == s.outbox[1].correlation == c && !s.outbox[0].more && !s.outbox[1].more
  {
    hide *;
    var e := EmptyRequest(kind, c);
    NothingRun();
    var first := RefusingTurn(cfg, Start(), e);
    var mid := After(cfg, Start(), first);
    var second := RefusingTurn(cfg, mid, e);
    RunsCompose(cfg, Start(), first, second);
    run := first + second;
    var end := After(cfg, mid, second);
    BothOurs(end.log, mid.log, c);
  }

  lemma NothingRun()
    ensures Start().loop == Draining && Start().done == [] && Start().log == [] && Start().outbox == []
  {
  }

  lemma BothOurs(log: seq<Entry>, front: seq<Entry>, c: u64)
    requires |log| == 2 && |front| == 1 && log[..1] == front && front[0].correlation == log[1].correlation == c
    ensures |Ours(log, c)| == 2
  {
    assert front == [] + [front[0]] && log == front + [log[1]];
    OursOfAppend([], front[0], c);
    OursOfAppend(front, log[1], c);
  }
}
