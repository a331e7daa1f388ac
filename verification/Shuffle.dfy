/** Interleaved requests (server-go/bus/module_caller.go, send;
    server-go/bus/module_runtime.go, runModuleClient): any shuffle of the fragment streams of
    distinct correlations among any other traffic, under any scheduling of the handlers. */
module Shuffle {
  import opened LittleEndian
  import opened ModuleProtocol
  import opened Fragments
  import opened Events
  import opened Serving
  import opened Requests
  import E = EndToEnd
  import S = Server
  import SR = ServerReplies
  import SA = ServerAnswers
  import Wire

  /** Any number of streams, each one servable. */
  ghost predicate Streams(cfg: Config, rs: map<u64, Request>) {
    && cfg.Valid() && cfg.hasHandler
    && forall c :: c in rs ==> rs[c].Valid() && Fits(cfg, rs[c], c)
  }

  predicate Fits(cfg: Config, r: Request, c: u64) {
    r.correlation == c && cfg.StageOf(r.kind) == r.stageID && |r.body| <= MAX_BODY
  }

  /** The serving process, how many fragments of each stream it has taken, and the streams that
      met full tables on the way. */
  datatype State = State(server: S.State, taken: map<u64, nat>, crowded: set<u64>)

  datatype Action = Deliver(correlation: u64, event: Event) | ServerSteps(action: S.Action)

  function Start(rs: map<u64, Request>): State {
    State(S.Start(), map c | c in rs :: 0, {})
  }

  /** Any stream may deliver its next fragment, whether there is room for it or not; in between
      anything at all may arrive for other correlations. */
  ghost predicate Enabled(cfg: Config, rs: map<u64, Request>, s: State, a: Action)
    requires Streams(cfg, rs)
  {
    match a
    case Deliver(c, e) =>
      && c in rs && c in s.taken && s.taken[c] < |rs[c].Fragments()| && Carries(rs[c], s.taken[c], e)
      && S.Enabled(s.server, S.PollEvent(e))
    case ServerSteps(b) => S.Enabled(s.server, b) && (b.PollEvent? ==> b.event.frame.correlationID !in rs)
  }

  function Next(cfg: Config, rs: map<u64, Request>, s: State, a: Action): State
    requires Streams(cfg, rs) && Enabled(cfg, rs, s, a)
  {
    match a
    case Deliver(c, e) =>
      State(S.Next(cfg, s.server, S.PollEvent(e)), s.taken[c := s.taken[c] + 1],
            if HasRoom(s.server.tables, rs[c], s.taken[c]) then s.crowded else s.crowded + {c})
    case ServerSteps(b) => s.(server := S.Next(cfg, s.server, b))
  }

  ghost predicate Legal(cfg: Config, rs: map<u64, Request>, s: State, run: seq<Action>)
    requires Streams(cfg, rs)
    decreases |run|
  {
    run == [] || (Enabled(cfg, rs, s, run[0]) && Legal(cfg, rs, Next(cfg, rs, s, run[0]), run[1..]))
  }

  function After(cfg: Config, rs: map<u64, Request>, s: State, run: seq<Action>): State
    requires Streams(cfg, rs) && Legal(cfg, rs, s, run)
    decreases |run|
  {
    if run == [] then s else After(cfg, rs, Next(cfg, rs, s, run[0]), run[1..])
  }

  /** The refusals of one correlation. */
  function Refusals(log: seq<S.Entry>, c: u64): seq<S.Entry> {
    if log == [] then []
    else
      var last := log[|log| - 1];
      Refusals(log[..|log| - 1], c) + (if last.correlation == c && last.origin == S.Rejection then [last] else [])
  }

  lemma RefusalsOfAppend(log: seq<S.Entry>, e: S.Entry, c: u64)
    ensures Refusals(log + [e], c)
            == Refusals(log, c) + (if e.correlation == c && e.origin == S.Rejection then [e] else [])
  {
    assert (log + [e])[..|log|] == log;
  }

  /** A stream under way is held complete so far and unrefused; a finished one started exactly
      one handler, with the whole body, or missed its deadline. */
  ghost predicate OnTrack(s: S.State, r: Request, taken: nat)
    requires r.Valid()
  {
    if taken < |r.Parts()| then
      Collected(s.tables, r, taken) && E.NotStarted(s, r) && Refusals(s.log, r.correlation) == []
    else taken == |r.Parts()| && Settled(s, r)
  }

  ghost predicate Settled(s: S.State, r: Request) {
    var refusals := Refusals(s.log, r.correlation);
    && r.correlation !in s.tables.assemblies && E.Once(s, r)
    && (if E.NotStarted(s, r)
        then |refusals| == 1 && refusals[0].status == STATUS_DEADLINE_EXCEEDED && r.deadlineNS != 0
        else refusals == [])
  }

  ghost predicate Inv(cfg: Config, rs: map<u64, Request>, s: State)
    requires Streams(cfg, rs)
  {
    && S.Inv(s.server) && SR.RunningUnreported(s.server) && SA.Honest(s.server)
    && s.taken.Keys == rs.Keys
    && forall c :: c in rs && c !in s.crowded ==> OnTrack(s.server, rs[c], s.taken[c])
  }

  /** A stream whose tables, refusals and invocations did not change stays on track. */
  lemma SameTrack(s: S.State, n: S.State, r: Request, taken: nat)
    requires r.Valid() && OnTrack(s, r, taken)
    requires r.correlation in n.tables.assemblies <==> r.correlation in s.tables.assemblies
    requires r.correlation in s.tables.assemblies ==>
      n.tables.assemblies[r.correlation] == s.tables.assemblies[r.correlation]
    requires r.correlation in n.tables.jobs ==> r.correlation in s.tables.jobs
    requires Refusals(n.log, r.correlation) == Refusals(s.log, r.correlation)
    requires E.StartedFor(n, r) == E.StartedFor(s, r)
    requires forall id :: id in E.StartedFor(s, r) ==> n.invocations[id] == s.invocations[id]
    ensures OnTrack(n, r, taken)
  {
    hide Split, Join, Refusals;
  }

  lemma ForeignFragment(cfg: Config, s: S.State, r: Request, taken: nat, e: Event)
    requires r.Valid() && OnTrack(s, r, taken) && SA.Honest(s) && s.loop.AtPoll?
    requires e.frame.correlationID != r.correlation
    ensures OnTrack(S.Take(cfg, s, e), r, taken)
  {
    hide Handle, S.FramesOf, Split, Join, SA.Truthful, Refusals, OnTrack;
    var n := S.Take(cfg, s, e);
    OtherCorrelationsUntouched(cfg, s.tables, e, s.loop.now, s.nextId, r.correlation);
    S.HandleStartsOrKeeps(cfg, s.tables, e, s.loop.now, s.nextId);
    if Handle(cfg, s.tables, e, s.loop.now, s.nextId).disposition.Answered? {
      RefusalsOfAppend(s.log, n.log[|s.log|], r.correlation);
    }
    forall id ensures id in E.StartedFor(n, r) <==> id in E.StartedFor(s, r) {
    }
    SameTrack(s, n, r, taken);
  }

  /** With room for it, the next fragment of a stream is buffered, starts its handler, or has
      come too late. */
  lemma FragmentSettles(cfg: Config, s: S.State, r: Request, k: nat, e: Event)
    requires cfg.Valid() && cfg.hasHandler && r.Valid() && Fits(cfg, r, r.correlation)
    requires OnTrack(s, r, k) && s.loop.AtPoll? && k < |r.Fragments()| && Carries(r, k, e)
    requires HasRoom(s.tables, r, k)
    ensures OnTrack(S.Take(cfg, s, e), r, k + 1)
  {
    hide Handle, S.FramesOf, Split, Join, Cut, Wire.Has, Refusals, Collected;
    var n := S.Take(cfg, s, e);
    var d := Handle(cfg, s.tables, e, s.loop.now, s.nextId).disposition;
    NextFragment(cfg, s.tables, r, k, e, s.loop.now, s.nextId);
    RefusedOnlyWithoutRoom(cfg, s.tables, r, k, e, s.loop.now, s.nextId);
    if d.Answered? {
      RefusalsOfAppend(s.log, n.log[|s.log|], r.correlation);
      assert E.StartedFor(n, r) == E.StartedFor(s, r);
    } else if d.Started? {
      StartedSettles(s, n, r, s.nextId);
    } else {
      assert E.StartedFor(n, r) == E.StartedFor(s, r);
    }
  }

  lemma StartedSettles(s: S.State, n: S.State, r: Request, id: nat)
    requires r.Valid() && E.NotStarted(s, r) && Refusals(s.log, r.correlation) == [] && n.log == s.log
    requires n.invocations == s.invocations[id := S.Invocation(
      Work(id, r.kind, r.correlation, r.stageID, r.deadlineNS, r.traceID), r.body)]
    requires r.correlation !in n.tables.assemblies
    ensures Settled(n, r)
  {
    forall i | i in E.StartedFor(n, r) ensures i == id {
      assert i != id ==> i in E.StartedFor(s, r);
    }
    assert id in E.StartedFor(n, r);
  }

  lemma DeliverKeepsInv(cfg: Config, rs: map<u64, Request>, s: State, c: u64, e: Event)
    requires Streams(cfg, rs) && Inv(cfg, rs, s) && Enabled(cfg, rs, s, Deliver(c, e))
    ensures Inv(cfg, rs, Next(cfg, rs, s, Deliver(c, e)))
  {
    hide OnTrack, S.Inv, SR.RunningUnreported, SA.Honest, S.Take, Cut, HasRoom;
    var n := Next(cfg, rs, s, Deliver(c, e));
    S.StepKeepsInv(cfg, s.server, S.PollEvent(e));
    SR.StepKeepsUnreported(cfg, s.server, S.PollEvent(e));
    SA.StepKeepsHonest(cfg, s.server, S.PollEvent(e));
    forall d | d in rs && d !in n.crowded ensures OnTrack(n.server, rs[d], n.taken[d]) {
      if d == c {
        FragmentSettles(cfg, s.server, rs[c], s.taken[c], e);
      } else {
        ForeignFragment(cfg, s.server, rs[d], s.taken[d], e);
      }
    }
  }

  /** What arrives for a correlation outside the set disturbs no stream of it. */
  lemma OutsiderKeepsInv(cfg: Config, rs: map<u64, Request>, s: State, e: Event)
    requires Streams(cfg, rs) && Inv(cfg, rs, s) && Enabled(cfg, rs, s, ServerSteps(S.PollEvent(e)))
    ensures Inv(cfg, rs, Next(cfg, rs, s, ServerSteps(S.PollEvent(e))))
  {
    hide OnTrack, S.Inv, SR.RunningUnreported, SA.Honest, S.Take;
    var n := Next(cfg, rs, s, ServerSteps(S.PollEvent(e)));
    S.StepKeepsInv(cfg, s.server, S.PollEvent(e));
    SR.StepKeepsUnreported(cfg, s.server, S.PollEvent(e));
    SA.StepKeepsHonest(cfg, s.server, S.PollEvent(e));
    forall d | d in rs && d !in n.crowded ensures OnTrack(n.server, rs[d], n.taken[d]) {
      ForeignFragment(cfg, s.server, rs[d], s.taken[d], e);
    }
  }

  /** Results, the drain and the handlers only take jobs away. */
  lemma QuietStep(cfg: Config, s: S.State, a: S.Action, c: u64)
    requires S.Enabled(s, a) && !a.PollEvent?
    ensures var n := S.Next(cfg, s, a);
      && n.tables.assemblies == s.tables.assemblies && n.tables.jobs.Keys <= s.tables.jobs.Keys
      && n.invocations == s.invocations && Refusals(n.log, c) == Refusals(s.log, c)
  {
    hide S.FramesOf, S.JobIds, Refusals;
    if a.ReceiveResult? {
      RefusalsOfAppend(s.log, S.EntryOf(s.done[0]), c);
    }
  }

  lemma QuietKeepsInv(cfg: Config, rs: map<u64, Request>, s: State, b: S.Action)
    requires Streams(cfg, rs) && Inv(cfg, rs, s) && Enabled(cfg, rs, s, ServerSteps(b)) && !b.PollEvent?
    ensures Inv(cfg, rs, Next(cfg, rs, s, ServerSteps(b)))
  {
    hide OnTrack, S.Inv, SR.RunningUnreported, SA.Honest, S.Next, Refusals, S.Enabled;
    var n := Next(cfg, rs, s, ServerSteps(b));
    S.StepKeepsInv(cfg, s.server, b);
    SR.StepKeepsUnreported(cfg, s.server, b);
    SA.StepKeepsHonest(cfg, s.server, b);
    forall d | d in rs && d !in n.crowded ensures OnTrack(n.server, rs[d], n.taken[d]) {
      QuietStep(cfg, s.server, b, d);
      assert E.StartedFor(n.server, rs[d]) == E.StartedFor(s.server, rs[d]);
      SameTrack(s.server, n.server, rs[d], s.taken[d]);
    }
  }

  lemma StepKeepsInv(cfg: Config, rs: map<u64, Request>, s: State, a: Action)
    requires Streams(cfg, rs) && Inv(cfg, rs, s) && Enabled(cfg, rs, s, a)
    ensures Inv(cfg, rs, Next(cfg, rs, s, a))
  {
    hide Inv, Next, Streams, S.Enabled, Carries;
    match a
    case Deliver(c, e) => DeliverKeepsInv(cfg, rs, s, c, e);
    case ServerSteps(b) =>
      if b.PollEvent? {
        OutsiderKeepsInv(cfg, rs, s, b.event);
      } else {
        QuietKeepsInv(cfg, rs, s, b);
      }
  }

  lemma {:induction false} RunKeepsInv(cfg: Config, rs: map<u64, Request>, s: State, run: seq<Action>)
    requires Streams(cfg, rs) && Inv(cfg, rs, s) && Legal(cfg, rs, s, run)
    ensures Inv(cfg, rs, After(cfg, rs, s, run))
    decreases |run|
  {
    hide Inv, Next, Enabled;
    if run != [] {
      StepKeepsInv(cfg, rs, s, run[0]);
      RunKeepsInv(cfg, rs, Next(cfg, rs, s, run[0]), run[1..]);
    }
  }

  lemma StartInv(cfg: Config, rs: map<u64, Request>)
    requires Streams(cfg, rs)
    ensures Inv(cfg, rs, Start(rs))
  {
    hide Split, Cut;
    S.StartInv();
    forall c | c in rs ensures OnTrack(S.Start(), rs[c], 0) {
      assert E.StartedFor(S.Start(), rs[c]) == {};
    }
  }

  /** What the process did for a stream. */
  ghost predicate Reassembled(s: S.State, r: Request, taken: nat)
    requires r.Valid()
  {
    && OnTrack(s, r, taken)
    && (forall id :: id in E.StartedFor(s, r) ==> s.invocations[id].request == r.body)
    && (taken == |r.Parts()| && r.deadlineNS == 0 ==> |E.StartedFor(s, r)| == 1)
  }

  /** Any number of streams in any shuffle, with any other traffic in between. Every stream
      whose fragments found room when they came is reassembled: each handler started for it
      runs on exactly the body its caller split, it starts at most one, and once taken whole it
      either started it or missed its own deadline. It is refused for no other reason. */
  lemma EveryShuffleReassembles(cfg: Config, rs: map<u64, Request>, run: seq<Action>)
    requires Streams(cfg, rs) && Legal(cfg, rs, Start(rs), run)
    ensures var s := After(cfg, rs, Start(rs), run);
      forall c :: c in rs && c !in s.crowded ==> c in s.taken && Reassembled(s.server, rs[c], s.taken[c])
  {
    hide Legal, After, Inv, Reassembled, Streams;
    StartInv(cfg, rs);
    ShuffleFrom(cfg, rs, Start(rs), run);
  }

  lemma ShuffleFrom(cfg: Config, rs: map<u64, Request>, s0: State, run: seq<Action>)
    requires Streams(cfg, rs) && Inv(cfg, rs, s0) && Legal(cfg, rs, s0, run)
    ensures var s := After(cfg, rs, s0, run);
      forall c :: c in rs && c !in s.crowded ==> c in s.taken && Reassembled(s.server, rs[c], s.taken[c])
  {
    hide Legal, After, OnTrack, S.Inv, SR.RunningUnreported, SA.Honest, Reassembled;
    RunKeepsInv(cfg, rs, s0, run);
    var s := After(cfg, rs, s0, run);
    forall c | c in rs && c !in s.crowded ensures c in s.taken && Reassembled(s.server, rs[c], s.taken[c]) {
      TrackedOnce(s.server, rs[c], s.taken[c]);
    }
  }

  lemma TrackedOnce(s: S.State, r: Request, taken: nat)
    requires r.Valid() && OnTrack(s, r, taken)
    ensures Reassembled(s, r, taken)
  {
    hide Split, Join, Refusals;
    if !E.NotStarted(s, r) {
      var id :| id in E.StartedFor(s, r);
      assert E.StartedFor(s, r) == {id};
    }
  }

  // ---- sixteen streams alone ---------------------------------------------------------------

  /** Only streams of the set are in the tables. */
  ghost predicate Alone(rs: map<u64, Request>, s: State) {
    && s.server.tables.assemblies.Keys <= rs.Keys && s.server.tables.jobs.Keys <= rs.Keys && s.crowded == {}
  }

  lemma RoomForOne<V>(m: map<u64, V>, rs: map<u64, Request>, c: u64)
    requires m.Keys <= rs.Keys && c in rs && c !in m
    ensures |m| < |rs|
  {
    KeysSize(m);
    KeysSize(rs);
    var others := rs.Keys - {c};
    assert m.Keys + (others - m.Keys) == others && m.Keys * (others - m.Keys) == {};
  }

  lemma DeliverKeepsKeys(cfg: Config, s: S.State, e: Event)
    requires s.loop.AtPoll?
    ensures S.Take(cfg, s, e).tables.assemblies.Keys <= s.tables.assemblies.Keys + {e.frame.correlationID}
    ensures S.Take(cfg, s, e).tables.jobs.Keys <= s.tables.jobs.Keys + {e.frame.correlationID}
  {
    hide Handle, S.FramesOf;
    var c := e.frame.correlationID;
    forall d: u64 | d != c
      ensures d in S.Take(cfg, s, e).tables.assemblies ==> d in s.tables.assemblies
      ensures d in S.Take(cfg, s, e).tables.jobs ==> d in s.tables.jobs
    {
      OtherCorrelationsUntouched(cfg, s.tables, e, s.loop.now, s.nextId, d);
    }
  }

  lemma AloneHasRoom(cfg: Config, rs: map<u64, Request>, s: State, c: u64, e: Event)
    requires Streams(cfg, rs) && Inv(cfg, rs, s) && Enabled(cfg, rs, s, Deliver(c, e))
    requires Alone(rs, s) && |rs| <= MAX_IN_FLIGHT
    ensures HasRoom(s.server.tables, rs[c], s.taken[c])
  {
    hide Split, Join, Cut, Refusals, S.Inv, SA.Honest, SR.RunningUnreported, Carries, S.Enabled;
    assert OnTrack(s.server, rs[c], s.taken[c]);
    if s.taken[c] == 0 {
      RoomForOne(s.server.tables.assemblies, rs, c);
    }
    RoomForOne(s.server.tables.jobs, rs, c);
  }

  lemma StepKeepsAlone(cfg: Config, rs: map<u64, Request>, s: State, a: Action)
    requires Streams(cfg, rs) && Inv(cfg, rs, s) && Enabled(cfg, rs, s, a)
    requires Alone(rs, s) && |rs| <= MAX_IN_FLIGHT && (a.ServerSteps? ==> !a.action.PollEvent?)
    ensures Alone(rs, Next(cfg, rs, s, a))
  {
    hide Inv, Streams, S.Next, S.Enabled, Carries, HasRoom, Cut, Refusals;
    match a
    case Deliver(c, e) =>
      AloneHasRoom(cfg, rs, s, c, e);
      PolledAtPoll(s.server, e);
      DeliverKeepsKeys(cfg, s.server, e);
      NextTakes(cfg, s.server, e);
      CarriesOwn(cfg, rs, s, c, e);
    case ServerSteps(b) => QuietStep(cfg, s.server, b, 0);
  }

  lemma PolledAtPoll(s: S.State, e: Event)
    requires S.Enabled(s, S.PollEvent(e))
    ensures s.loop.AtPoll?
  {
  }

  lemma NextTakes(cfg: Config, s: S.State, e: Event)
    requires S.Enabled(s, S.PollEvent(e))
    ensures S.Next(cfg, s, S.PollEvent(e)) == S.Take(cfg, s, e)
  {
    hide S.Take;
  }

  lemma CarriesOwn(cfg: Config, rs: map<u64, Request>, s: State, c: u64, e: Event)
    requires Streams(cfg, rs) && Enabled(cfg, rs, s, Deliver(c, e))
    ensures e.frame.correlationID == c
  {
    hide Cut;
  }

  lemma {:induction false} RunKeepsAlone(cfg: Config, rs: map<u64, Request>, s: State, run: seq<Action>)
    requires Streams(cfg, rs) && Inv(cfg, rs, s) && Legal(cfg, rs, s, run)
    requires Alone(rs, s) && |rs| <= MAX_IN_FLIGHT
    requires forall i :: 0 <= i < |run| && run[i].ServerSteps? ==> !run[i].action.PollEvent?
    ensures Alone(rs, After(cfg, rs, s, run))
    decreases |run|
  {
    hide Inv, Alone, Next, Enabled, Streams;
    if run != [] {
      StepKeepsInv(cfg, rs, s, run[0]);
      StepKeepsAlone(cfg, rs, s, run[0]);
      RunKeepsAlone(cfg, rs, Next(cfg, rs, s, run[0]), run[1..]);
    }
  }

  /** At most sixteen streams with the process to themselves always find room. */
  lemma SixteenAlwaysFit(cfg: Config, rs: map<u64, Request>, run: seq<Action>)
    requires Streams(cfg, rs) && Legal(cfg, rs, Start(rs), run) && |rs| <= 16
    requires forall i :: 0 <= i < |run| && run[i].ServerSteps? ==> !run[i].action.PollEvent?
    ensures After(cfg, rs, Start(rs), run).crowded == {}
  {
    hide Legal, After, Inv, Streams;
    StartInv(cfg, rs);
    RunKeepsAlone(cfg, rs, Start(rs), run);
  }
}
