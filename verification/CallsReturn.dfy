/** Calls do return (server-go/bus/module_caller.go, Call; server-go/bus/module_runtime.go,
    runModuleClient): for every request and every response there is a run over the rings on
    which the call returns the response, whatever the number of fragments either way. */
module CallsReturn {
  import opened LittleEndian
  import opened ModuleProtocol
  import opened Wrappers
  import opened Fragments
  import opened Events
  import opened Serving
  import opened Requests
  import opened FullStack
  import C = Caller
  import E = EndToEnd
  import M = RingEmission
  import P = RingProtocol
  import R = Reply
  import S = Server
  import Wire

  // ---- reachable states ----------------------------------------------------------------------

  /** A state that some run over fresh rings ends in. */
  ghost predicate Reaches(cfg: Config, r: Request, p0: State, p: State)
    requires r.Valid()
  {
    exists run :: Legal(cfg, r, p0, run) && After(cfg, r, p0, run) == p
  }

  lemma ReachesItself(cfg: Config, r: Request, p: State)
    requires r.Valid()
    ensures Reaches(cfg, r, p, p)
  {
    assert Legal(cfg, r, p, []);
  }

  lemma ReachesNext(cfg: Config, r: Request, p0: State, p: State, a: Action)
    requires r.Valid() && Reaches(cfg, r, p0, p) && Enabled(cfg, r, p, a)
    ensures Reaches(cfg, r, p0, Next(cfg, r, p, a))
  {
    hide Enabled, Next, Legal, After;
    var run :| Legal(cfg, r, p0, run) && After(cfg, r, p0, run) == p;
    OneMore(cfg, r, p0, run, a);
  }

  lemma {:induction false} OneMore(cfg: Config, r: Request, p: State, run: seq<Action>, a: Action)
    requires r.Valid() && Legal(cfg, r, p, run) && Enabled(cfg, r, After(cfg, r, p, run), a)
    ensures Legal(cfg, r, p, run + [a])
    ensures After(cfg, r, p, run + [a]) == Next(cfg, r, After(cfg, r, p, run), a)
    decreases |run|
  {
    hide Enabled, Next;
    if run == [] {
      assert run + [a] == [a] && [a][1..] == [];
    } else {
      assert (run + [a])[1..] == run[1..] + [a];
      OneMore(cfg, r, Next(cfg, r, p, run[0]), run[1..], a);
    }
  }

  /** What one emit or Poll does before it publishes or decides, done on the way up. */
  lemma {:induction false} SilentUp(cfg: Config, r: Request, p0: State, p: State, run: seq<M.Action>, e: Option<M.Emission>)
    requires r.Valid() && Reaches(cfg, r, p0, p) && M.Silently(p.up, run, e)
    requires e.Some? ==> MaySend(r, p.sys, e.value)
    ensures Reaches(cfg, r, p0, p.(up := M.Quietly(p.up, run, e)))
    decreases |run|
  {
    hide Reaches, MaySend, M.Next, M.Enabled, P.Shape;
    if run != [] {
      var a := run[0];
      assert a == run[0] && M.Enabled(p.up, a) && M.Silent(p.up, a, e);
      SilentUpStep(cfg, r, p, a, e);
      ReachesNext(cfg, r, p0, p, Up(a));
      SilentUp(cfg, r, p0, p.(up := M.Next(p.up, a)), run[1..], e);
    } else {
      assert p.(up := M.Quietly(p.up, run, e)) == p;
    }
  }

  lemma SilentUpStep(cfg: Config, r: Request, p: State, a: M.Action, e: Option<M.Emission>)
    requires r.Valid() && P.Shape(p.up.ring) && M.Enabled(p.up, a) && M.Silent(p.up, a, e)
    requires e.Some? ==> MaySend(r, p.sys, e.value)
    ensures Enabled(cfg, r, p, Up(a)) && Next(cfg, r, p, Up(a)) == p.(up := M.Next(p.up, a))
  {
    hide MaySend, P.Shape, E.Enabled, E.Next;
    M.Effects(p.up, a);
  }

  lemma {:induction false} SilentDown(cfg: Config, r: Request, p0: State, p: State, run: seq<M.Action>, e: Option<M.Emission>)
    requires r.Valid() && Reaches(cfg, r, p0, p) && M.Silently(p.down, run, e) && !p.sys.call.Sending?
    requires e.Some? ==> MayReply(p.sys.server, e.value)
    ensures Reaches(cfg, r, p0, p.(down := M.Quietly(p.down, run, e)))
    decreases |run|
  {
    hide Reaches, MayReply, M.Next, M.Enabled, P.Shape;
    if run != [] {
      var a := run[0];
      assert a == run[0] && M.Enabled(p.down, a) && M.Silent(p.down, a, e);
      SilentDownStep(cfg, r, p, a, e);
      ReachesNext(cfg, r, p0, p, Down(a, R.Retry));
      SilentDown(cfg, r, p0, p.(down := M.Next(p.down, a)), run[1..], e);
    } else {
      assert p.(down := M.Quietly(p.down, run, e)) == p;
    }
  }

  lemma SilentDownStep(cfg: Config, r: Request, p: State, a: M.Action, e: Option<M.Emission>)
    requires r.Valid() && P.Shape(p.down.ring) && M.Enabled(p.down, a) && M.Silent(p.down, a, e)
    requires !p.sys.call.Sending? && (e.Some? ==> MayReply(p.sys.server, e.value))
    ensures Enabled(cfg, r, p, Down(a, R.Retry)) && Next(cfg, r, p, Down(a, R.Retry)) == p.(down := M.Next(p.down, a))
  {
    hide MayReply, P.Shape, E.Enabled, E.Next;
    M.Effects(p.down, a);
  }

  lemma ReachedInv(cfg: Config, r: Request, p0: State, p: State)
    requires cfg.Valid() && r.Valid() && Inv(cfg, r, p0) && Reaches(cfg, r, p0, p)
    ensures Inv(cfg, r, p)
  {
    hide Inv, Legal, After;
    var run :| Legal(cfg, r, p0, run) && After(cfg, r, p0, run) == p;
    RunKeepsInv(cfg, r, p0, run);
  }

  // ---- one event across a ring ----------------------------------------------------------------

  /** Neither side is at work, and so many events are waiting. */
  ghost predicate Ready(m: M.State, waiting: nat) {
    && M.Inv(m) && m.ring.producer.Idle? && M.Resting(m) && |m.emitted| == |m.ring.delivered| + waiting
  }

  lemma HasPlace(m: M.State)
    requires Ready(m, 0)
    ensures |m.ring.committed| < m.ring.consumed + m.ring.capacity
  {
    hide EventsIn, P.EventsOf;
    M.InvCarries(m);
  }

  /** The caller's emit of the fragment it is at. */
  lemma Sends(cfg: Config, r: Request, p0: State, p: State) returns (q: State)
    requires cfg.Valid() && r.Valid() && Inv(cfg, r, p0) && Reaches(cfg, r, p0, p)
    requires p.sys.call.Sending? && Ready(p.up, 0)
    requires Wire.HDR_LEN + HEADER_LEN + r.chunk <= p.up.ring.slotSize
    ensures Reaches(cfg, r, p0, q) && E.Enabled(cfg, r, p.sys, E.CallerSends(true))
    ensures q == p.(sys := E.Next(cfg, r, p.sys, E.CallerSends(true)), up := q.up)
    ensures Ready(q.up, 1) && q.up.ring.slotSize == p.up.ring.slotSize
  {
    hide Reaches, Inv, M.Inv, M.Next, M.Enabled, P.Shape, E.Enabled, E.Next, Cut, Carries, Wire.Validate, M.Silently, M.Quietly;
    ReachedInv(cfg, r, p0, p);
    SendingIsDue(cfg, r, p);
    var i := p.sys.call.sent;
    RequestEventCarries(r, i);
    FragmentFits(r, i);
    var e := RequestEmission(r, i);
    HasPlace(p.up);
    var run := M.EmitsThrough(p.up, e);
    SilentUp(cfg, r, p0, p, run, Some(e));
    q := StoresUp(cfg, r, p0, p.(up := M.Quietly(p.up, run, Some(e))));
  }

  lemma SendingIsDue(cfg: Config, r: Request, p: State)
    requires cfg.Valid() && r.Valid() && Inv(cfg, r, p) && p.sys.call.Sending?
    ensures p.sys.call.sent == |p.sys.uplink| < |r.Fragments()|
  {
    hide E.SystemInv, M.Inv, DownCoupled, Cut;
  }

  lemma StoresUp(cfg: Config, r: Request, p0: State, p: State) returns (q: State)
    requires cfg.Valid() && r.Valid() && Inv(cfg, r, p0) && Reaches(cfg, r, p0, p) && p.sys.call.Sending?
    requires M.Inv(p.up) && p.up.ring.producer.Committing? && p.up.current.Some? && p.up.current.value.Sized()
    requires M.Resting(p.up) && |p.up.emitted| == |p.up.ring.delivered|
    ensures Reaches(cfg, r, p0, q) && E.Enabled(cfg, r, p.sys, E.CallerSends(true))
    ensures q == p.(sys := E.Next(cfg, r, p.sys, E.CallerSends(true)), up := q.up)
    ensures Ready(q.up, 1) && q.up.ring.slotSize == p.up.ring.slotSize
  {
    hide Reaches, Inv, M.Inv, M.Next, M.Enabled, P.Shape, E.Enabled, E.Next;
    ReachedInv(cfg, r, p0, p);
    M.InvShapes(p.up);
    M.StoreEnds(p.up);
    UpHandsOver(cfg, r, p, M.StoreHead);
    ReachesNext(cfg, r, p0, p, Up(M.StoreHead));
    q := Next(cfg, r, p, Up(M.StoreHead));
  }

  /** The process's Poll of the fragment that is waiting. */
  lemma Takes(cfg: Config, r: Request, p0: State, p: State) returns (q: State)
    requires cfg.Valid() && r.Valid() && Inv(cfg, r, p0) && Reaches(cfg, r, p0, p)
    requires p.sys.server.loop.AtPoll? && Ready(p.up, 1) && p.sys.taken < |p.sys.uplink| <= |r.Fragments()|
    ensures Reaches(cfg, r, p0, q)
    ensures E.Enabled(cfg, r, p.sys, E.ServerTakes(EventOf(r, p.sys.taken)))
    ensures q == p.(sys := E.Next(cfg, r, p.sys, E.ServerTakes(EventOf(r, p.sys.taken))), up := q.up)
    ensures Ready(q.up, 0) && q.up.ring.slotSize == p.up.ring.slotSize
  {
    hide Reaches, Inv, M.Inv, M.Next, M.Enabled, P.Shape, E.Enabled, E.Next, Cut, Carries, Wire.Validate, M.Silently,
      M.Quietly, EventOf;
    var run := M.PollsThrough(p.up);
    SilentUp(cfg, r, p0, p, run, None);
    q := DecidesUp(cfg, r, p0, p.(up := M.Quietly(p.up, run, None)));
  }

  lemma DecidesUp(cfg: Config, r: Request, p0: State, p: State) returns (q: State)
    requires cfg.Valid() && r.Valid() && Inv(cfg, r, p0) && Reaches(cfg, r, p0, p)
    requires M.Inv(p.up) && p.up.ring.producer.Idle? && M.Enabled(p.up, M.Consume(P.PollDecides))
    requires |p.up.emitted| == |p.up.ring.delivered| + 1
    requires p.sys.server.loop.AtPoll? && p.sys.taken < |p.sys.uplink| <= |r.Fragments()|
    ensures Reaches(cfg, r, p0, q)
    ensures E.Enabled(cfg, r, p.sys, E.ServerTakes(EventOf(r, p.sys.taken)))
    ensures q == p.(sys := E.Next(cfg, r, p.sys, E.ServerTakes(EventOf(r, p.sys.taken))), up := q.up)
    ensures Ready(q.up, 0) && q.up.ring.slotSize == p.up.ring.slotSize
  {
    hide Reaches, Inv, M.Inv, M.Next, M.Enabled, P.Shape, E.Enabled, E.Next, Cut, Carries, Wire.Validate, EventOf;
    ReachedInv(cfg, r, p0, p);
    M.InvShapes(p.up);
    M.DecisionHands(p.up);
    var b := M.Consume(P.PollDecides);
    UpHandsOver(cfg, r, p, b);
    WaitingUp(cfg, r, p);
    ReachesNext(cfg, r, p0, p, Up(b));
    q := Next(cfg, r, p, Up(b));
  }

  /** The event waiting on the way up is the next fragment. */
  lemma WaitingUp(cfg: Config, r: Request, p: State)
    requires cfg.Valid() && r.Valid() && Inv(cfg, r, p) && |p.up.ring.delivered| < |p.up.emitted|
    requires p.sys.taken < |p.sys.uplink| <= |r.Fragments()|
    ensures p.up.emitted[|p.up.ring.delivered|] == EventOf(r, p.sys.taken)
  {
    hide E.SystemInv, M.Inv, DownCoupled, Cut;
  }

  /** The loop's emit of the reply fragment it is at. */
  lemma Replies(cfg: Config, r: Request, p0: State, p: State) returns (q: State)
    requires cfg.Valid() && r.Valid() && Inv(cfg, r, p0) && Reaches(cfg, r, p0, p)
    requires p.sys.server.loop.Replying? && p.sys.server.loop.rest != [] && !p.sys.call.Sending? && Ready(p.down, 0)
    requires var e := ReplyEmission(p.sys.server.loop.rest[0]); e.Fits(p.down.ring.slotSize) && e.Valid()
    ensures Reaches(cfg, r, p0, q) && E.Enabled(cfg, r, p.sys, E.ServerSteps(S.Emit(R.Accepts)))
    ensures q == p.(sys := E.Next(cfg, r, p.sys, E.ServerSteps(S.Emit(R.Accepts))), down := q.down)
    ensures Ready(q.down, 1) && q.down.ring.slotSize == p.down.ring.slotSize
  {
    hide Reaches, Inv, M.Inv, M.Next, M.Enabled, P.Shape, E.Enabled, E.Next, Wire.Validate, M.Silently, M.Quietly,
      ReplyEmission, M.Emission.Valid;
    var e := ReplyEmission(p.sys.server.loop.rest[0]);
    HasPlace(p.down);
    var run := M.EmitsThrough(p.down, e);
    SilentDown(cfg, r, p0, p, run, Some(e));
    q := StoresDown(cfg, r, p0, p.(down := M.Quietly(p.down, run, Some(e))));
  }

  lemma StoresDown(cfg: Config, r: Request, p0: State, p: State) returns (q: State)
    requires cfg.Valid() && r.Valid() && Inv(cfg, r, p0) && Reaches(cfg, r, p0, p)
    requires M.Inv(p.down) && p.down.ring.producer.Committing? && p.down.current.Some? && p.down.current.value.Sized()
    requires M.Resting(p.down) && |p.down.emitted| == |p.down.ring.delivered|
    ensures Reaches(cfg, r, p0, q) && E.Enabled(cfg, r, p.sys, E.ServerSteps(S.Emit(R.Accepts)))
    ensures q == p.(sys := E.Next(cfg, r, p.sys, E.ServerSteps(S.Emit(R.Accepts))), down := q.down)
    ensures Ready(q.down, 1) && q.down.ring.slotSize == p.down.ring.slotSize
  {
    hide Reaches, Inv, M.Inv, M.Next, M.Enabled, P.Shape, E.Enabled, E.Next;
    ReachedInv(cfg, r, p0, p);
    M.InvShapes(p.down);
    M.StoreEnds(p.down);
    var a := Down(M.StoreHead, R.Retry);
    DownHandsOver(cfg, r, p, M.StoreHead, R.Retry);
    ReachesNext(cfg, r, p0, p, a);
    q := Next(cfg, r, p, a);
  }

  /** The waiting caller's Poll of the reply that is waiting. */
  lemma Reads(cfg: Config, r: Request, p0: State, p: State, f: R.SentReply) returns (q: State)
    requires cfg.Valid() && r.Valid() && Inv(cfg, r, p0) && Reaches(cfg, r, p0, p)
    requires p.sys.call.Awaiting? && Ready(p.down, 1) && p.sys.relayed < |p.sys.server.outbox|
    requires f == p.sys.server.outbox[p.sys.relayed] && f.correlation == r.correlation && ReplyEmission(f).Sized()
    ensures Reaches(cfg, r, p0, q)
    ensures q == p.(sys := p.sys.(relayed := p.sys.relayed + 1, downlink := p.sys.downlink + [f], read := p.sys.read + 1,
                                  call := E.Wait(r, p.sys.call.held, C.Got(ReplyEmission(f).Event()))), down := q.down)
    ensures Ready(q.down, 0) && q.down.ring.slotSize == p.down.ring.slotSize
  {
    hide Reaches, Inv, M.Inv, M.Next, M.Enabled, P.Shape, E.Enabled, E.Next, M.Silently, M.Quietly, ReplyEmission, E.Wait;
    var run := M.PollsThrough(p.down);
    SilentDown(cfg, r, p0, p, run, None);
    q := DecidesDown(cfg, r, p0, p.(down := M.Quietly(p.down, run, None)), f);
  }

  lemma DecidesDown(cfg: Config, r: Request, p0: State, p: State, f: R.SentReply) returns (q: State)
    requires cfg.Valid() && r.Valid() && Inv(cfg, r, p0) && Reaches(cfg, r, p0, p)
    requires M.Inv(p.down) && p.down.ring.producer.Idle? && M.Enabled(p.down, M.Consume(P.PollDecides))
    requires |p.down.emitted| == |p.down.ring.delivered| + 1
    requires p.sys.call.Awaiting? && p.sys.relayed < |p.sys.server.outbox|
    requires f == p.sys.server.outbox[p.sys.relayed] && f.correlation == r.correlation && ReplyEmission(f).Sized()
    ensures Reaches(cfg, r, p0, q)
    ensures q == p.(sys := p.sys.(relayed := p.sys.relayed + 1, downlink := p.sys.downlink + [f], read := p.sys.read + 1,
                                  call := E.Wait(r, p.sys.call.held, C.Got(ReplyEmission(f).Event()))), down := q.down)
    ensures Ready(q.down, 0) && q.down.ring.slotSize == p.down.ring.slotSize
  {
    hide Reaches, Inv, M.Inv, M.Next, M.Enabled, P.Shape, E.SystemInv, Read, ReplyEmission, E.Wait;
    ReachedInv(cfg, r, p0, p);
    M.InvShapes(p.down);
    M.DecisionHands(p.down);
    var b := M.Consume(P.PollDecides);
    DownHandsOver(cfg, r, p, b, R.Retry);
    WaitingDown(cfg, r, p, f);
    ReplyEventDelivers(f);
    ReadIs(cfg, r, p.sys, ReplyEmission(f).Event(), f);
    ReachesNext(cfg, r, p0, p, Down(b, R.Retry));
    q := Next(cfg, r, p, Down(b, R.Retry));
  }

  /** The event waiting on the way down is the next reply fragment. */
  lemma WaitingDown(cfg: Config, r: Request, p: State, f: R.SentReply)
    requires cfg.Valid() && r.Valid() && Inv(cfg, r, p) && |p.down.ring.delivered| < |p.down.emitted|
    requires p.sys.relayed < |p.sys.server.outbox| && f == p.sys.server.outbox[p.sys.relayed]
    ensures ReplyEmission(f).Sized() && p.down.emitted[|p.down.ring.delivered|] == ReplyEmission(f).Event()
  {
    hide E.SystemInv, M.Inv, UpCoupled, ReplyEmission;
  }

  lemma ReadIs(cfg: Config, r: Request, s: E.State, e: Event, f: R.SentReply)
    requires r.Valid() && BringsReply(cfg, r, s, e) && s.call.Awaiting?
    requires f == s.server.outbox[s.relayed] && f.correlation == r.correlation && e.frame.correlationID == r.correlation
    ensures Read(cfg, r, Do(cfg, r, s, E.RelayReply), e)
            == s.(relayed := s.relayed + 1, downlink := s.downlink + [f], read := s.read + 1,
                  call := E.Wait(r, s.call.held, C.Got(e)))
  {
    hide Cut, E.Wait, E.Delivers;
  }

  // ---- the way up: fragment by fragment ----------------------------------------------------------

  /** A step of the loop or of a handler that neither polls an event nor emits. */
  lemma Steps(cfg: Config, r: Request, p0: State, p: State, b: S.Action)
    requires r.Valid() && Reaches(cfg, r, p0, p) && S.Enabled(p.sys.server, b) && !b.PollEvent? && !b.Emit?
    ensures Reaches(cfg, r, p0, p.(sys := p.sys.(server := S.Next(cfg, p.sys.server, b))))
  {
    hide Reaches, S.Enabled, S.Next;
    ReachesNext(cfg, r, p0, p, System(E.ServerSteps(b)));
  }

  /** A process that has done nothing but gather the first k fragments. */
  ghost predicate Gathered(s: S.State, r: Request, k: nat)
    requires r.Valid()
  {
    && s.loop == S.Draining && s.done == [] && s.handlers == map[] && s.cancelled == {} && s.nextId == 0 && s.outbox == []
    && Collected(s.tables, r, k) && s.tables.jobs == map[] && (k == 0 ==> s.tables.assemblies == map[])
  }

  /** One whose only work is the handler of the call. */
  ghost predicate Begun(s: S.State, r: Request) {
    && s.loop == S.Draining && s.done == [] && s.cancelled == {} && s.outbox == []
    && s.handlers == map[0 := S.Goroutine(WorkOf(r), S.Working)]
  }

  function WorkOf(r: Request): Work {
    Work(0, r.kind, r.correlation, r.stageID, r.deadlineNS, r.traceID)
  }

  /** A process that can serve the call. */
  ghost predicate Serves(cfg: Config, r: Request) {
    cfg.Valid() && r.Valid() && cfg.StageOf(r.kind) == r.stageID && cfg.hasHandler && |r.body| <= MAX_BODY
  }

  lemma GathersOne(cfg: Config, r: Request, s: S.State, k: nat)
    requires Serves(cfg, r) && Gathered(s, r, k) && k < |r.Fragments()|
    ensures var n := S.Take(cfg, s.(loop := S.AtPoll(0)), EventOf(r, k));
      if k + 1 < |r.Parts()| then Gathered(n, r, k + 1) else Begun(n, r)
  {
    hide Handle, Split, Cut, Join, Carries, EventOf, Collected;
    var e := EventOf(r, k);
    EventCarries(r, k);
    CollectedRoom(s.tables, r, k);
    NextFragment(cfg, s.tables, r, k, e, 0, 0);
    RefusedOnlyWithoutRoom(cfg, s.tables, r, k, e, 0, 0);
    PrefixFits(r.body, r.chunk, k + 1);
    S.HandleStartsOrKeeps(cfg, s.tables, e, 0, 0);
  }

  lemma CollectedRoom(t: Tables, r: Request, k: nat)
    requires r.Valid() && Collected(t, r, k) && t.jobs == map[] && (k == 0 ==> t.assemblies == map[])
    ensures k < |r.Parts()| && HasRoom(t, r, k)
  {
    hide Split, Join;
  }

  /** The fresh rings are idle and large enough for the fragments of either side. */
  ghost predicate Roomy(cfg: Config, r: Request, p: State) {
    && Ready(p.up, 0) && Ready(p.down, 0)
    && Wire.HDR_LEN + HEADER_LEN + r.chunk <= p.up.ring.slotSize
    && Wire.HDR_LEN + cfg.budget <= p.down.ring.slotSize
  }

  /** No reply has been on its way. */
  ghost predicate Unanswered(s: E.State) {
    s.relayed == s.read == 0 && s.downlink == []
  }

  /** The loop gets to its poll. */
  lemma Polls(cfg: Config, r: Request, p0: State, p: State) returns (q: State)
    requires r.Valid() && Reaches(cfg, r, p0, p) && p.sys.server.loop == S.Draining && p.sys.server.done == []
    ensures Reaches(cfg, r, p0, q)
    ensures q == p.(sys := p.sys.(server := p.sys.server.(loop := S.AtPoll(0))))
  {
    hide Reaches;
    var s := p.sys.server;
    var s1, s2, s3 := s.(loop := S.AtContext), s.(loop := S.AtEpoch), s.(loop := S.AtPoll(0));
    var p1, p2 := p.(sys := p.sys.(server := s1)), p.(sys := p.sys.(server := s2));
    q := p.(sys := p.sys.(server := s3));
    assert S.Next(cfg, s, S.NothingDone) == s1;
    Steps(cfg, r, p0, p, S.NothingDone);
    assert S.Next(cfg, s1, S.CheckContext(false)) == s2;
    Steps(cfg, r, p0, p1, S.CheckContext(false));
    assert S.Next(cfg, s2, S.CheckEpoch(false, 0)) == s3;
    Steps(cfg, r, p0, p2, S.CheckEpoch(false, 0));
  }

  /** One fragment is sent, crosses the ring and is taken. */
  lemma OneUp(cfg: Config, r: Request, p0: State, p: State, k: nat) returns (q: State)
    requires Serves(cfg, r) && Inv(cfg, r, p0) && Reaches(cfg, r, p0, p) && Roomy(cfg, r, p)
    requires p.sys.call == E.Sending(k) && k == |p.sys.uplink| == p.sys.taken < |r.Fragments()|
    requires Gathered(p.sys.server, r, k) && Unanswered(p.sys)
    ensures Reaches(cfg, r, p0, q) && Roomy(cfg, r, q) && Unanswered(q.sys)
    ensures k + 1 == |q.sys.uplink| == q.sys.taken
    ensures if k + 1 < |r.Fragments()| then q.sys.call == E.Sending(k + 1) && Gathered(q.sys.server, r, k + 1)
            else q.sys.call == E.Awaiting([]) && Begun(q.sys.server, r)
  {
    hide Reaches, Inv, Gathered, Begun, Ready, S.Take, EventOf, Cut, Carries, E.Enabled;
    GatheredIdle(p.sys.server, r, k);
    var p1 := Sends(cfg, r, p0, p);
    var p2 := Polls(cfg, r, p0, p1);
    q := Takes(cfg, r, p0, p2);
    GathersOne(cfg, r, p.sys.server, k);
    FragmentsAreParts(r);
    TakesIs(cfg, r, p2.sys);
  }

  lemma TakesIs(cfg: Config, r: Request, s: E.State)
    requires r.Valid() && s.taken < |r.Fragments()| && E.Enabled(cfg, r, s, E.ServerTakes(EventOf(r, s.taken)))
    ensures s.server.loop.AtPoll?
    ensures E.Next(cfg, r, s, E.ServerTakes(EventOf(r, s.taken)))
            == s.(server := S.Take(cfg, s.server, EventOf(r, s.taken)), taken := s.taken + 1)
  {
    hide S.Take, EventOf, Cut, Carries;
  }

  lemma FragmentsAreParts(r: Request)
    requires r.Valid()
    ensures |r.Fragments()| == |r.Parts()| > 0
  {
    hide Split;
    SplitCount(r.body, r.chunk);
  }

  lemma GatheredIdle(s: S.State, r: Request, k: nat)
    requires r.Valid() && Gathered(s, r, k)
    ensures s.loop == S.Draining && s.done == []
  {
  }

  /** The whole request goes up. */
  lemma Uploads(cfg: Config, r: Request, p0: State, p: State, k: nat) returns (q: State)
    requires Serves(cfg, r) && Inv(cfg, r, p0) && Reaches(cfg, r, p0, p) && Roomy(cfg, r, p)
    requires p.sys.call == E.Sending(k) && k == |p.sys.uplink| == p.sys.taken < |r.Fragments()|
    requires Gathered(p.sys.server, r, k) && Unanswered(p.sys)
    ensures Reaches(cfg, r, p0, q) && Roomy(cfg, r, q) && Unanswered(q.sys)
    ensures q.sys.call == E.Awaiting([]) && Begun(q.sys.server, r)
    decreases |r.Fragments()| - k
  {
    hide Reaches, Inv, Gathered, Begun, Roomy, Cut;
    q := OneUp(cfg, r, p0, p, k);
    if k + 1 < |r.Fragments()| {
      q := Uploads(cfg, r, p0, q, k + 1);
    }
  }

  // ---- the handler ---------------------------------------------------------------------------------

  /** The reply that says out. */
  function ReplyOf(r: Request, out: seq<byte>): S.Entry {
    S.Entry(S.Result(0), r.kind, r.correlation, r.stageID, r.traceID, STATUS_OK, out)
  }

  /** The handler returns out, its result is received and the reply is begun. */
  lemma Responds(cfg: Config, r: Request, p0: State, p: State, out: seq<byte>) returns (q: State)
    requires cfg.Valid() && r.Valid() && Reaches(cfg, r, p0, p) && Begun(p.sys.server, r) && |out| <= MAX_BODY
    ensures Reaches(cfg, r, p0, q) && q == p.(sys := p.sys.(server := q.sys.server))
    ensures q.sys.server.loop == S.Replying(S.FramesOf(cfg.budget, ReplyOf(r, out))) && q.sys.server.outbox == []
  {
    hide Reaches, S.FramesOf;
    var s, w := p.sys.server, WorkOf(r);
    var s1 := S.Next(cfg, s, S.HandlerReturns(0, S.Response(STATUS_OK, out)));
    Steps(cfg, r, p0, p, S.HandlerReturns(0, S.Response(STATUS_OK, out)));
    assert s1.handlers[0] == S.Goroutine(w, S.Normalised(STATUS_OK, out));
    var s2 := S.Next(cfg, s1, S.HandlerLoadsFlag(0));
    var p1 := p.(sys := p.sys.(server := s1));
    Steps(cfg, r, p0, p1, S.HandlerLoadsFlag(0));
    var p2 := p.(sys := p.sys.(server := s2));
    q := Finishes(cfg, r, p0, p2, out);
  }

  /** From the moment the handler has found its flag clear. */
  lemma Finishes(cfg: Config, r: Request, p0: State, p: State, out: seq<byte>) returns (q: State)
    requires cfg.Valid() && r.Valid() && Reaches(cfg, r, p0, p)
    requires var s := p.sys.server;
      && s.loop == S.Draining && s.done == [] && s.outbox == [] && 0 in s.handlers
      && s.handlers[0] == S.Goroutine(WorkOf(r),
           if r.deadlineNS != 0 then S.FlagClear(STATUS_OK, out) else S.Ready(STATUS_OK, out))
    ensures Reaches(cfg, r, p0, q) && q == p.(sys := p.sys.(server := q.sys.server))
    ensures q.sys.server.loop == S.Replying(S.FramesOf(cfg.budget, ReplyOf(r, out))) && q.sys.server.outbox == []
  {
    hide Reaches, S.FramesOf;
    var s, w := p.sys.server, WorkOf(r);
    if r.deadlineNS != 0 {
      Steps(cfg, r, p0, p, S.HandlerReadsClock(0, 0));
      s := S.Next(cfg, s, S.HandlerReadsClock(0, 0));
    }
    assert s.handlers[0] == S.Goroutine(w, S.Ready(STATUS_OK, out));
    var p1 := p.(sys := p.sys.(server := s));
    var s1 := S.Next(cfg, s, S.HandlerSends(0));
    Steps(cfg, r, p0, p1, S.HandlerSends(0));
    assert s1.done == [S.Finished(w, STATUS_OK, out)];
    var p2 := p.(sys := p.sys.(server := s1));
    Steps(cfg, r, p0, p2, S.ReceiveResult);
    q := p.(sys := p.sys.(server := S.Next(cfg, s1, S.ReceiveResult)));
  }

  // ---- the way down ------------------------------------------------------------------------------

  /** The loop has emitted the first j fragments of the reply, and the caller has read them. */
  ghost predicate Answering(cfg: Config, r: Request, s: E.State, out: seq<byte>, j: nat)
    requires cfg.Valid() && r.Valid()
  {
    var fs, parts := S.FramesOf(cfg.budget, ReplyOf(r, out)), Split(out, R.ChunkOf(cfg.budget));
    && j < |fs| == |parts| && s.server.loop == S.Replying(fs[j..]) && |s.server.outbox| == s.relayed == j
    && s.call == E.Awaiting(Join(parts[..j]))
  }

  /** What reading fragment j of the reply does to the call. */
  lemma ReadsPart(cfg: Config, r: Request, out: seq<byte>, j: nat, e: Event)
    requires cfg.Valid() && r.Valid() && |out| <= MAX_BODY
    requires r.kind != Wire.KIND_CAPABILITY_ABSENT && r.kind != Wire.KIND_ERROR
    requires j < |S.FramesOf(cfg.budget, ReplyOf(r, out))| == |Split(out, R.ChunkOf(cfg.budget))|
    requires E.Delivers(S.FramesOf(cfg.budget, ReplyOf(r, out))[j], e)
    ensures var parts := Split(out, R.ChunkOf(cfg.budget));
      E.Wait(r, Join(parts[..j]), C.Got(e))
      == if j + 1 < |parts| then E.Awaiting(Join(parts[..j + 1])) else E.Returned(C.Ok(out))
  {
    hide S.FramesOf, Split, Join, C.Read, Wire.Has, Payload;
    var chunk := R.ChunkOf(cfg.budget);
    var parts := Split(out, chunk);
    E.FrameAt(cfg, ReplyOf(r, out), j);
    R.ResultsAreValid(STATUS_OK, r.stageID, r.traceID);
    NextPrefix(parts, j);
    PrefixFits(out, chunk, j + 1);
    C.ReadFragment(r.kind, r.correlation, MAX_BODY, |Join(parts[..j])|, e, Answer(STATUS_OK, r.stageID, r.traceID), parts[j]);
    JoinOfSplit(out, chunk);
    assert parts[..|parts|] == parts;
  }

  /** Fragment j of the reply can be emitted. */
  lemma ReplyGoesOut(cfg: Config, r: Request, out: seq<byte>, j: nat, slotSize: u32)
    requires cfg.Valid() && r.Valid() && |out| <= MAX_BODY && Wire.HDR_LEN + cfg.budget <= slotSize
    requires j < |S.FramesOf(cfg.budget, ReplyOf(r, out))| == |Split(out, R.ChunkOf(cfg.budget))|
    ensures var f := S.FramesOf(cfg.budget, ReplyOf(r, out))[j];
      f.correlation == r.correlation && ReplyEmission(f).Fits(slotSize) && ReplyEmission(f).Valid()
  {
    hide S.FramesOf, Split, Payload, Wire.Validate;
    var chunk := R.ChunkOf(cfg.budget);
    E.FrameAt(cfg, ReplyOf(r, out), j);
    CutAt(Answer(STATUS_OK, r.stageID, r.traceID), out, chunk, j);
    PayloadSize(Answer(STATUS_OK, r.stageID, r.traceID), Split(out, chunk)[j]);
    var f := S.FramesOf(cfg.budget, ReplyOf(r, out))[j];
    SentFrameValid(f.kind, f.correlation, |f.payload|, 0, f.more);
  }

  /** One reply fragment is emitted, crosses the ring and is read. */
  lemma OneDown(cfg: Config, r: Request, p0: State, p: State, out: seq<byte>, j: nat) returns (q: State)
    requires Serves(cfg, r) && Inv(cfg, r, p0) && Reaches(cfg, r, p0, p) && Roomy(cfg, r, p) && |out| <= MAX_BODY
    requires r.kind != Wire.KIND_CAPABILITY_ABSENT && r.kind != Wire.KIND_ERROR && Answering(cfg, r, p.sys, out, j)
    ensures Reaches(cfg, r, p0, q) && Roomy(cfg, r, q)
    ensures if j + 1 < |Split(out, R.ChunkOf(cfg.budget))| then Answering(cfg, r, q.sys, out, j + 1)
            else q.sys.call == E.Returned(C.Ok(out))
  {
    hide Reaches, Inv, Ready, S.FramesOf, Split, Join, ReplyEmission, E.Wait, M.Emission.Valid, M.Emission.Fits;
    var fs := S.FramesOf(cfg.budget, ReplyOf(r, out));
    var f := fs[j];
    assert fs[j..][0] == f && fs[j..][1..] == fs[j + 1..];
    ReplyGoesOut(cfg, r, out, j, p.down.ring.slotSize);
    var p1 := Replies(cfg, r, p0, p);
    EmitIs(cfg, r, p.sys);
    EmissionSized(ReplyEmission(f), p.down.ring.slotSize);
    q := Reads(cfg, r, p0, p1, f);
    ReplyEventDelivers(f);
    ReadsPart(cfg, r, out, j, ReplyEmission(f).Event());
  }

  lemma EmissionSized(e: M.Emission, slotSize: u32)
    requires e.Fits(slotSize)
    ensures e.Sized()
  {
  }

  lemma EmitIs(cfg: Config, r: Request, s: E.State)
    requires r.Valid() && E.Enabled(cfg, r, s, E.ServerSteps(S.Emit(R.Accepts)))
    ensures var rest := s.server.loop.rest;
      E.Next(cfg, r, s, E.ServerSteps(S.Emit(R.Accepts)))
      == s.(server := s.server.(outbox := s.server.outbox + [rest[0]],
                                loop := if rest[1..] == [] then S.Draining else S.Replying(rest[1..])))
  {
  }

  lemma Downloads(cfg: Config, r: Request, p0: State, p: State, out: seq<byte>, j: nat) returns (q: State)
    requires Serves(cfg, r) && Inv(cfg, r, p0) && Reaches(cfg, r, p0, p) && Roomy(cfg, r, p) && |out| <= MAX_BODY
    requires r.kind != Wire.KIND_CAPABILITY_ABSENT && r.kind != Wire.KIND_ERROR && Answering(cfg, r, p.sys, out, j)
    ensures Reaches(cfg, r, p0, q) && q.sys.call == E.Returned(C.Ok(out))
    decreases |Split(out, R.ChunkOf(cfg.budget))| - j
  {
    hide Reaches, Inv, Roomy, S.FramesOf, Split, Join;
    q := OneDown(cfg, r, p0, p, out, j);
    if j + 1 < |Split(out, R.ChunkOf(cfg.budget))| {
      q := Downloads(cfg, r, p0, q, out, j + 1);
    }
  }

  // ---- the theorems ------------------------------------------------------------------------------

  lemma StartsIdle(cfg: Config, r: Request, p0: State)
    requires cfg.Valid() && r.Valid() && Initial(p0)
    ensures Inv(cfg, r, p0) && Ready(p0.up, 0) && Ready(p0.down, 0)
    ensures Gathered(p0.sys.server, r, 0) && Unanswered(p0.sys)
  {
    hide Inv, M.Inv, Split, Join;
    InitialInv(cfg, r, p0);
    M.FreshInv(p0.up);
    M.FreshInv(p0.down);
    FragmentsAreParts(r);
  }

  lemma StartsAnswering(cfg: Config, r: Request, s: E.State, out: seq<byte>)
    requires cfg.Valid() && r.Valid() && |out| <= MAX_BODY
    requires s.server.loop == S.Replying(S.FramesOf(cfg.budget, ReplyOf(r, out))) && s.server.outbox == []
    requires s.relayed == 0 && s.call == E.Awaiting([])
    ensures Answering(cfg, r, s, out, 0)
  {
    hide S.FramesOf, Split;
    E.FrameCount(cfg.budget, ReplyOf(r, out));
    JoinOfNothing();
    var fs, parts := S.FramesOf(cfg.budget, ReplyOf(r, out)), Split(out, R.ChunkOf(cfg.budget));
    assert fs[0..] == fs && parts[..0] == [];
  }

  /** Over any two fresh rings whose slots hold the fragments, and for every request and every
      response within the body bound, some run ends with the call returning the response. */
  lemma CallCanReturnOverRings(cfg: Config, r: Request, p0: State, out: seq<byte>) returns (run: seq<Action>)
    requires Serves(cfg, r) && Initial(p0) && |out| <= MAX_BODY
    requires r.kind != Wire.KIND_CAPABILITY_ABSENT && r.kind != Wire.KIND_ERROR
    requires Wire.HDR_LEN + HEADER_LEN + r.chunk <= p0.up.ring.slotSize && Wire.HDR_LEN + cfg.budget <= p0.down.ring.slotSize
    ensures Legal(cfg, r, p0, run) && After(cfg, r, p0, run).sys.call == E.Returned(C.Ok(out))
  {
    hide Inv, Ready, Gathered, Begun, Legal, After, Answering, S.FramesOf, Split, Cut;
    StartsIdle(cfg, r, p0);
    FragmentsAreParts(r);
    ReachesItself(cfg, r, p0);
    var p1 := Uploads(cfg, r, p0, p0, 0);
    var p2 := Responds(cfg, r, p0, p1, out);
    StartsAnswering(cfg, r, p2.sys, out);
    var q := Downloads(cfg, r, p0, p2, out, 0);
    run :| Legal(cfg, r, p0, run) && After(cfg, r, p0, run) == q;
  }

  /** A fresh ring with slots of a given size. */
  lemma FreshRing(slotSize: u32) returns (m: M.State)
    requires slotSize > 0
    ensures M.Fresh(m) && m.ring.slotSize == slotSize
  {
    var zeros: seq<byte> := seq(slotSize, _ => 0);
    var ring := P.State(slotSize, 2, [zeros, zeros], 0, 0, P.Idle, P.Outside, 0, [], 0, []);
    assert P.Initial(ring);
    m := M.State(ring, None, 0, []);
  }

  /** And so on the lossless relay: for every request and every response, of any number of
      fragments, some run of the abstract call returns the response. */
  lemma CallCanReturn(cfg: Config, r: Request, out: seq<byte>) returns (run: seq<E.Action>)
    requires Serves(cfg, r) && |out| <= MAX_BODY
    requires r.kind != Wire.KIND_CAPABILITY_ABSENT && r.kind != Wire.KIND_ERROR
    ensures E.Legal(cfg, r, E.Start(), run) && E.After(cfg, r, E.Start(), run).call == E.Returned(C.Ok(out))
  {
    hide Inv, Legal, After, M.Fresh;
    var up := FreshRing(Wire.HDR_LEN + Wire.MAX_PAYLOAD);
    var down := FreshRing(Wire.HDR_LEN + Wire.MAX_PAYLOAD);
    var p0 := State(E.Start(), up, down);
    var rings := CallCanReturnOverRings(cfg, r, p0, out);
    InitialInv(cfg, r, p0);
    run := RunIsAbstract(cfg, r, p0, rings);
  }
}
