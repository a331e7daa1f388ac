/** Replies to the streams of a shuffle (server-go/bus/module_runtime.go, runModuleClient): a
    correlation that is sent once, as one intact request, is answered at most once when there
    was room for it, and whatever the room exactly when it is a single fragment. */
module ShuffleReplies {
  import opened LittleEndian
  import opened ModuleProtocol
  import opened Fragments
  import opened Events
  import opened Serving
  import opened Requests
  import opened Shuffle
  import AC = ServerAccounts
  import E = EndToEnd
  import R = Reply
  import S = Server
  import SR = ServerReplies
  import SA = ServerAnswers
  import Wire

  /** The steps of the serving process in a shuffle. */
  function Steps(run: seq<Action>): seq<S.Action> {
    if run == [] then []
    else [match run[0] case Deliver(_, e) => S.PollEvent(e) case ServerSteps(b) => b] + Steps(run[1..])
  }

  lemma {:induction false} IsServerRun(cfg: Config, rs: map<u64, Request>, s: State, run: seq<Action>)
    requires Streams(cfg, rs) && Legal(cfg, rs, s, run)
    ensures S.Legal(cfg, s.server, Steps(run)) && S.After(cfg, s.server, Steps(run)) == After(cfg, rs, s, run).server
    decreases |run|
  {
    hide Streams, S.Enabled, S.Next, Carries, HasRoom;
    if run != [] {
      IsServerRun(cfg, rs, Next(cfg, rs, s, run[0]), run[1..]);
      assert Steps(run)[1..] == Steps(run[1..]);
    }
  }

  // ---- with room -----------------------------------------------------------------------------

  lemma {:induction false} RepliesAreRefusalsAndResults(log: seq<S.Entry>, c: u64)
    ensures |AC.Ours(log, c)| == |Refusals(log, c)| + SR.Results(AC.Ours(log, c))
  {
    if log != [] {
      var front, last := log[..|log| - 1], log[|log| - 1];
      hide Refusals, AC.Ours, SR.Results;
      RepliesAreRefusalsAndResults(front, c);
      assert log == front + [last];
      AC.OursOfAppend(front, last, c);
      RefusalsOfAppend(front, last, c);
      RepliesOfAppend(front, last, c);
    }
  }

  /** The results of a correlation report jobs of a set, each at most once. */
  ghost predicate ReportsOf(log: seq<S.Entry>, c: u64, ids: set<nat>) {
    && (forall e :: e in log && e.correlation == c && e.origin.Result? ==> e.origin.id in ids)
    && forall i, j :: 0 <= i < j < |log| && log[i].origin.Result? ==> log[i].origin != log[j].origin
  }

  /** There are no more results than jobs to report. */
  lemma {:induction false} ResultsWithin(log: seq<S.Entry>, c: u64, ids: set<nat>)
    requires ReportsOf(log, c, ids)
    ensures SR.Results(AC.Ours(log, c)) <= |ids|
  {
    hide AC.Ours, SR.Results, ReportsOf;
    if log == [] {
      NoReplies(c);
    } else {
      var front, last := log[..|log| - 1], log[|log| - 1];
      assert log == front + [last];
      LastReport(front, last, c, ids);
      RepliesOfAppend(front, last, c);
      if last.correlation == c && last.origin.Result? {
        ResultsWithin(front, c, ids - {last.origin.id});
      } else {
        ResultsWithin(front, c, ids);
      }
    }
  }

  lemma NoReplies(c: u64)
    ensures SR.Results(AC.Ours([], c)) == 0
  {
  }

  lemma RepliesOfAppend(front: seq<S.Entry>, last: S.Entry, c: u64)
    ensures SR.Results(AC.Ours(front + [last], c))
            == SR.Results(AC.Ours(front, c)) + (if last.correlation == c && last.origin.Result? then 1 else 0)
  {
    hide AC.Ours, SR.Results;
    AC.OursOfAppend(front, last, c);
    if last.correlation == c {
      SR.LoggedOneMore(AC.Ours(front, c), last);
    } else {
      assert AC.Ours(front, c) + [] == AC.Ours(front, c);
    }
  }

  lemma LastReport(front: seq<S.Entry>, last: S.Entry, c: u64, ids: set<nat>)
    requires ReportsOf(front + [last], c, ids)
    ensures if last.correlation == c && last.origin.Result?
            then last.origin.id in ids && ReportsOf(front, c, ids - {last.origin.id})
            else ReportsOf(front, c, ids)
  {
    var log := front + [last];
    assert last in log;
    forall e | e in front && e.correlation == c && e.origin.Result?
      ensures e.origin.id in ids && e.origin != last.origin
    {
      assert e in log;
      var i :| 0 <= i < |front| && front[i] == e;
      assert log[i] == e && log[|front|] == last;
    }
    forall i, j | 0 <= i < j < |front| && front[i].origin.Result? ensures front[i].origin != front[j].origin {
      assert log[i] == front[i] && log[j] == front[j];
    }
  }

  /** Results of a stream are results of the handlers started for it. */
  lemma ResultsAreOfStarted(s: S.State, r: Request)
    requires SA.Honest(s) && SR.ReportedOnce(s)
    ensures SR.Results(AC.Ours(s.log, r.correlation)) <= |E.StartedFor(s, r)|
  {
    hide SA.Truthful, SR.Results, AC.Ours;
    forall i | 0 <= i < |s.log| && s.log[i].correlation == r.correlation && s.log[i].origin.Result?
      ensures s.log[i].origin.id in E.StartedFor(s, r)
    {
      assert SA.HonestEntry(s, s.log[i]);
    }
    ResultsWithin(s.log, r.correlation, E.StartedFor(s, r));
  }

  lemma OnTrackRepliesOnce(s: S.State, r: Request, taken: nat)
    requires r.Valid() && OnTrack(s, r, taken) && SA.Honest(s) && SR.ReportedOnce(s)
    ensures |AC.Ours(s.log, r.correlation)| <= 1
  {
    hide Split, Join, Refusals, SR.Results, AC.Ours, SA.Honest, SR.ReportedOnce, Collected;
    RepliesAreRefusalsAndResults(s.log, r.correlation);
    ResultsAreOfStarted(s, r);
    if !E.NotStarted(s, r) {
      var id :| id in E.StartedFor(s, r);
      assert E.StartedFor(s, r) == {id};
    }
  }

  /** A correlation sent once, as the fragments of one valid request in order, is answered at most
      once when its fragments found room, whatever else is sent in between. */
  lemma OneReplyWithRoom(cfg: Config, rs: map<u64, Request>, run: seq<Action>)
    requires Streams(cfg, rs) && Legal(cfg, rs, Start(rs), run)
    ensures var s := After(cfg, rs, Start(rs), run);
      forall c :: c in rs && c !in s.crowded ==> |AC.Ours(s.server.log, c)| <= 1
  {
    hide Legal, After, OnTrack, S.Inv, SR.RunningUnreported, SA.Honest, SR.ReportedOnce, AC.Ours;
    StartInv(cfg, rs);
    RunKeepsInv(cfg, rs, Start(rs), run);
    IsServerRun(cfg, rs, Start(rs), run);
    SR.JobsAreReportedOnce(cfg, Steps(run));
    var s := After(cfg, rs, Start(rs), run);
    forall c | c in rs && c !in s.crowded ensures |AC.Ours(s.server.log, c)| <= 1 {
      OnTrackRepliesOnce(s.server, rs[c], s.taken[c]);
    }
  }

  /** At most sixteen callers that have the process to themselves need not ask for room. */
  lemma SixteenAnsweredOnce(cfg: Config, rs: map<u64, Request>, run: seq<Action>)
    requires Streams(cfg, rs) && Legal(cfg, rs, Start(rs), run) && |rs| <= 16
    requires forall i :: 0 <= i < |run| && run[i].ServerSteps? ==> !run[i].action.PollEvent?
    ensures forall c :: c in rs ==> |AC.Ours(After(cfg, rs, Start(rs), run).server.log, c)| <= 1
  {
    hide Legal, After, AC.Ours, Streams;
    SixteenAlwaysFit(cfg, rs, run);
    OneReplyWithRoom(cfg, rs, run);
  }

  // ---- whatever the room -----------------------------------------------------------------------

  ghost predicate Counted(cfg: Config, rs: map<u64, Request>, s: State)
    requires Streams(cfg, rs)
  {
    forall c :: c in rs ==> c in s.taken && |AC.FatesOf(s.server.polled, c)| == s.taken[c] <= |rs[c].Fragments()|
  }

  lemma StepKeepsCount(cfg: Config, rs: map<u64, Request>, s: State, a: Action)
    requires Streams(cfg, rs) && Enabled(cfg, rs, s, a) && Counted(cfg, rs, s)
    ensures Counted(cfg, rs, Next(cfg, rs, s, a))
  {
    hide AC.FatesOf, Cut, HasRoom, IsRequest, IsCancel, HasMore;
    var n := Next(cfg, rs, s, a);
    var b := match a case Deliver(_, e) => S.PollEvent(e) case ServerSteps(b) => b;
    forall c | c in rs
      ensures c in n.taken && |AC.FatesOf(n.server.polled, c)| == n.taken[c] <= |rs[c].Fragments()|
    {
      StepCounts(cfg, s.server, b, c);
    }
  }

  /** Only polling an event of a correlation adds to its fates. */
  lemma StepCounts(cfg: Config, s: S.State, b: S.Action, c: u64)
    requires S.Enabled(s, b)
    ensures |AC.FatesOf(S.Next(cfg, s, b).polled, c)|
            == |AC.FatesOf(s.polled, c)| + (if b.PollEvent? && b.event.frame.correlationID == c then 1 else 0)
  {
    hide AC.FatesOf, Handle, S.FramesOf, S.JobIds;
    if b.PollEvent? {
      AC.FatesOfAppend(s.polled, S.Next(cfg, s, b).polled[|s.polled|], c);
    }
  }

  lemma {:induction false} RunKeepsCount(cfg: Config, rs: map<u64, Request>, s: State, run: seq<Action>)
    requires Streams(cfg, rs) && Legal(cfg, rs, s, run) && Counted(cfg, rs, s)
    ensures Counted(cfg, rs, After(cfg, rs, s, run))
    decreases |run|
  {
    hide Counted, Next, Enabled;
    if run != [] {
      StepKeepsCount(cfg, rs, s, run[0]);
      RunKeepsCount(cfg, rs, Next(cfg, rs, s, run[0]), run[1..]);
    }
  }

  /** A stream is answered no more often than it has fragments, room or no room. */
  lemma NoMoreRepliesThanFragments(cfg: Config, rs: map<u64, Request>, run: seq<Action>)
    requires Streams(cfg, rs) && Legal(cfg, rs, Start(rs), run)
    ensures var s := After(cfg, rs, Start(rs), run);
      forall c :: c in rs ==> |AC.Ours(s.server.log, c)| <= |rs[c].Fragments()|
  {
    hide Legal, After, AC.Ours, AC.FatesOf, Cut, AC.BalancedFor, SR.Answers, SR.Starts, SR.Results;
    RunKeepsCount(cfg, rs, Start(rs), run) by {
      assert AC.FatesOf([], 0) == [] by {
        NoFates(0);
      }
      forall c | c in rs ensures AC.FatesOf([], c) == [] {
        NoFates(c);
      }
    }
    IsServerRun(cfg, rs, Start(rs), run);
    var s := After(cfg, rs, Start(rs), run);
    forall c | c in rs ensures |AC.Ours(s.server.log, c)| <= |rs[c].Fragments()| {
      AC.RepliesPerCorrelation(cfg, Steps(run), c);
    }
  }

  lemma NoFates(c: u64)
    ensures AC.FatesOf([], c) == []
  {
  }

  // ---- full tables -------------------------------------------------------------------------------

  ghost predicate Reaches(cfg: Config, rs: map<u64, Request>, s: State, n: State)
    requires Streams(cfg, rs)
  {
    exists run :: Legal(cfg, rs, s, run) && After(cfg, rs, s, run) == n
  }

  lemma ReachesStart(cfg: Config, rs: map<u64, Request>)
    requires Streams(cfg, rs)
    ensures Reaches(cfg, rs, Start(rs), Start(rs))
  {
    hide Streams;
    assert Legal(cfg, rs, Start(rs), []);
  }

  lemma ReachesNext(cfg: Config, rs: map<u64, Request>, s: State, n: State, a: Action)
    requires Streams(cfg, rs) && Reaches(cfg, rs, s, n) && Enabled(cfg, rs, n, a)
    ensures Reaches(cfg, rs, s, Next(cfg, rs, n, a))
  {
    hide Streams, Enabled, Next, Legal, After;
    var run :| Legal(cfg, rs, s, run) && After(cfg, rs, s, run) == n;
    OneMore(cfg, rs, s, run, a);
  }

  lemma {:induction false} OneMore(cfg: Config, rs: map<u64, Request>, s: State, run: seq<Action>, a: Action)
    requires Streams(cfg, rs) && Legal(cfg, rs, s, run) && Enabled(cfg, rs, After(cfg, rs, s, run), a)
    ensures Legal(cfg, rs, s, run + [a])
    ensures After(cfg, rs, s, run + [a]) == Next(cfg, rs, After(cfg, rs, s, run), a)
    decreases |run|
  {
    hide Streams, Enabled, Next;
    if run == [] {
      assert run + [a] == [a] && [a][1..] == [];
    } else {
      assert (run + [a])[1..] == run[1..] + [a];
      OneMore(cfg, rs, Next(cfg, rs, s, run[0]), run[1..], a);
    }
  }

  /** An idle loop gets to its poll. */
  lemma ReachesPoll(cfg: Config, rs: map<u64, Request>, s: State, n: State)
    requires Streams(cfg, rs) && Reaches(cfg, rs, s, n) && n.server.loop == S.Draining && n.server.done == []
    ensures Reaches(cfg, rs, s, n.(server := n.server.(loop := S.AtPoll(0))))
  {
    hide Streams, Reaches;
    var n1 := n.(server := n.server.(loop := S.AtContext));
    var n2 := n.(server := n.server.(loop := S.AtEpoch));
    assert Next(cfg, rs, n, ServerSteps(S.NothingDone)) == n1;
    ReachesNext(cfg, rs, s, n, ServerSteps(S.NothingDone));
    assert Next(cfg, rs, n1, ServerSteps(S.CheckContext(false))) == n2;
    ReachesNext(cfg, rs, s, n1, ServerSteps(S.CheckContext(false)));
    ReachesNext(cfg, rs, s, n2, ServerSteps(S.CheckEpoch(false, 0)));
  }

  /** One request by itself. */
  function Only(r: Request): map<u64, Request> {
    map[r.correlation := r]
  }

  /** Sixteen more correlations. */
  function Other(c: u64, i: nat): (d: u64)
    requires i < MAX_IN_FLIGHT
    ensures d != 0 && d != c
  {
    if i + 1 < c then i + 1 else i + 2
  }

  /** An idle process that holds the first fragments of k other requests. */
  ghost predicate Holds(s: S.State, c: u64, k: nat)
    requires k <= MAX_IN_FLIGHT
  {
    && s.loop == S.Draining && s.done == [] && s.tables.jobs == map[] && |s.tables.assemblies| == k
    && forall d :: d in s.tables.assemblies ==> exists i :: 0 <= i < k && d == Other(c, i)
  }

  /** With room, the first of several fragments is buffered. */
  lemma FirstIsBuffered(cfg: Config, t: Tables, r: Request, id: nat)
    requires cfg.Valid() && r.Valid() && cfg.hasHandler && Fits(cfg, r, r.correlation) && |r.Fragments()| > 1
    requires r.correlation !in t.assemblies && r.correlation !in t.jobs && |t.assemblies| < MAX_IN_FLIGHT
    ensures exists a :: Handle(cfg, t, EventOf(r, 0), 0, id) == Handled(t.Buffer(r.correlation, a), Buffered)
  {
    hide Handle, Split, Cut, Join, Carries, EventOf;
    EventCarries(r, 0);
    FragmentFits(r, 0);
    HandleDecides(cfg, t, r, 0, EventOf(r, 0), 0, id);
    PrefixFits(r.body, r.chunk, 1);
    assert Handle(cfg, t, EventOf(r, 0), 0, id) == Handled(t.Buffer(r.correlation, Grown(t, r, 0)), Buffered);
  }

  /** What the process does with the first fragment of one more request. */
  lemma HoldsOneMore(cfg: Config, r: Request, s: S.State, c: u64, k: nat)
    requires k < MAX_IN_FLIGHT && Holds(s, c, k)
    requires cfg.Valid() && r.Valid() && cfg.hasHandler && Fits(cfg, r, Other(c, k)) && |r.Fragments()| > 1
    ensures var n := S.Take(cfg, s.(loop := S.AtPoll(0)), EventOf(r, 0));
      Holds(n, c, k + 1) && n.log == s.log
  {
    hide Handle, Cut, Holds, EventOf;
    NotAmong(s, c, k);
    FirstIsBuffered(cfg, s.tables, r, s.nextId);
    var a :| Handle(cfg, s.tables, EventOf(r, 0), 0, s.nextId) == Handled(s.tables.Buffer(r.correlation, a), Buffered);
    EventCarries(r, 0);
    BufferHolds(s, S.Take(cfg, s.(loop := S.AtPoll(0)), EventOf(r, 0)), c, k, a);
  }

  lemma NotAmong(s: S.State, c: u64, k: nat)
    requires k < MAX_IN_FLIGHT && Holds(s, c, k)
    ensures Other(c, k) !in s.tables.assemblies && Other(c, k) !in s.tables.jobs && |s.tables.assemblies| < MAX_IN_FLIGHT
  {
  }

  lemma BufferHolds(s: S.State, n: S.State, c: u64, k: nat, a: Assembly)
    requires k < MAX_IN_FLIGHT && Holds(s, c, k)
    requires n.tables == s.tables.Buffer(Other(c, k), a) && n.loop == S.Draining && n.done == s.done
    ensures Holds(n, c, k + 1)
  {
    InsertionSize(s.tables.assemblies, n.tables.assemblies, Other(c, k));
    NotAmong(s, c, k);
    forall d | d in n.tables.assemblies
      ensures exists i :: 0 <= i < k + 1 && d == Other(c, i)
    {
      if d != Other(c, k) {
        assert d in s.tables.assemblies;
      }
    }
  }

  /** Other requests can fill the tables before the first fragment of r arrives. */
  lemma {:induction false} FillsUp(cfg: Config, r: Request, k: nat) returns (s: State)
    requires r.Valid() && Streams(cfg, Only(r)) && |r.Fragments()| > 1 && k <= MAX_IN_FLIGHT
    ensures Reaches(cfg, Only(r), Start(Only(r)), s) && Holds(s.server, r.correlation, k)
    ensures s.taken == map[r.correlation := 0] && s.server.log == []
  {
    hide Reaches, Holds, Cut, EventOf, S.Take;
    var rs, c := Only(r), r.correlation;
    if k == 0 {
      s := Start(rs);
      ReachesStart(cfg, rs);
      NothingHeld(c);
    } else {
      var was := FillsUp(cfg, r, k - 1);
      HoldsIdle(was.server, c, k - 1);
      ReachesPoll(cfg, rs, Start(rs), was);
      var polling := was.(server := was.server.(loop := S.AtPoll(0)));
      var other := r.(correlation := Other(c, k - 1));
      SameFragments(r, other);
      EventCarries(other, 0);
      HoldsOneMore(cfg, other, was.server, c, k - 1);
      var a := ServerSteps(S.PollEvent(EventOf(other, 0)));
      assert Enabled(cfg, rs, polling, a);
      ReachesNext(cfg, rs, Start(rs), polling, a);
      s := Next(cfg, rs, polling, a);
    }
  }

  lemma NothingHeld(c: u64)
    ensures Holds(S.Start(), c, 0)
  {
  }

  lemma HoldsIdle(s: S.State, c: u64, k: nat)
    requires k <= MAX_IN_FLIGHT && Holds(s, c, k)
    ensures s.loop == S.Draining && s.done == [] && s.tables.jobs == map[] && |s.tables.assemblies| == k
    ensures c !in s.tables.assemblies && c !in s.tables.jobs
  {
  }

  lemma SameFragments(r: Request, other: Request)
    requires r.Valid() && other == r.(correlation := other.correlation) && other.correlation != 0
    ensures other.Valid() && other.Fragments() == r.Fragments()
  {
  }

  /** A fragment of r that meets full tables is answered, and the tables stay full. */
  lemma RefusedOnce(cfg: Config, r: Request, i: nat, s: State) returns (n: State)
    requires r.Valid() && Streams(cfg, Only(r)) && i < |r.Fragments()| && s.taken == map[r.correlation := i]
    requires Reaches(cfg, Only(r), Start(Only(r)), s) && Holds(s.server, r.correlation, MAX_IN_FLIGHT)
    ensures Reaches(cfg, Only(r), Start(Only(r)), n) && Holds(n.server, r.correlation, MAX_IN_FLIGHT)
    ensures n.taken == map[r.correlation := i + 1]
    ensures |n.server.log| == |s.server.log| + 1 && n.server.log[..|s.server.log|] == s.server.log
    ensures n.server.log[|s.server.log|].correlation == r.correlation
  {
    hide Reaches, Cut, EventOf, Holds, Carries, Handle, S.FramesOf, HasRoom;
    var rs, c := Only(r), r.correlation;
    HoldsIdle(s.server, c, MAX_IN_FLIGHT);
    ReachesPoll(cfg, rs, Start(rs), s);
    var polling := s.(server := s.server.(loop := S.AtPoll(0)));
    EventCarries(r, i);
    var e := EventOf(r, i);
    RefusedAtFullTables(cfg, s.server.tables, r, i, e, 0, s.server.nextId);
    assert Enabled(cfg, rs, polling, Deliver(c, e));
    ReachesNext(cfg, rs, Start(rs), polling, Deliver(c, e));
    var refused := Next(cfg, rs, polling, Deliver(c, e));
    CarriesItsOwn(r, i, e);
    AC.OneFrame(cfg.budget, refused.server.log[|s.server.log|]);
    ReachesNext(cfg, rs, Start(rs), refused, ServerSteps(S.Emit(R.Accepts)));
    n := Next(cfg, rs, refused, ServerSteps(S.Emit(R.Accepts)));
    SameHolds(s.server, n.server, c);
  }

  lemma CarriesItsOwn(r: Request, i: nat, e: Event)
    requires r.Valid() && i < |r.Fragments()| && Carries(r, i, e)
    ensures e.frame.correlationID == r.correlation
  {
    hide Cut;
  }

  lemma SameHolds(s: S.State, n: S.State, c: u64)
    requires Holds(s, c, MAX_IN_FLIGHT) && n.tables == s.tables && n.loop == S.Draining && n.done == []
    ensures Holds(n, c, MAX_IN_FLIGHT)
  {
  }

  /** Two fragments of one request that meet full tables are answered one by one. */
  lemma AnsweredPerFragment(cfg: Config, r: Request) returns (run: seq<Action>)
    requires r.Valid() && Streams(cfg, Only(r)) && |r.Fragments()| > 1
    ensures Legal(cfg, Only(r), Start(Only(r)), run)
    ensures |AC.Ours(After(cfg, Only(r), Start(Only(r)), run).server.log, r.correlation)| == 2
  {
    hide Cut, Holds, Streams, AC.Ours, Legal, After;
    var c := r.correlation;
    var s := FillsUp(cfg, r, MAX_IN_FLIGHT);
    var s1 := RefusedOnce(cfg, r, 0, s);
    var s2 := RefusedOnce(cfg, r, 1, s1);
    AC.BothOurs(s2.server.log, s1.server.log, c);
    run :| Legal(cfg, Only(r), Start(Only(r)), run) && After(cfg, Only(r), Start(Only(r)), run) == s2;
  }

  ghost predicate AnsweredOnce(cfg: Config, r: Request, run: seq<Action>)
    requires r.Valid() && Streams(cfg, Only(r)) && Legal(cfg, Only(r), Start(Only(r)), run)
  {
    |AC.Ours(After(cfg, Only(r), Start(Only(r)), run).server.log, r.correlation)| <= 1
  }

  /** A correlation sent once is answered at most once, whatever else the process is sent, exactly
      when its request is a single fragment: then its body is no longer than the chunk. */
  lemma OneReplyExactlyForOneFragment(cfg: Config, r: Request)
    requires r.Valid() && Streams(cfg, Only(r))
    ensures (forall run :: Legal(cfg, Only(r), Start(Only(r)), run) ==> AnsweredOnce(cfg, r, run)) <==> |r.body| <= r.chunk
  {
    hide Streams, Legal, After, AC.Ours, Cut;
    FragmentCount(r);
    if |r.body| <= r.chunk {
      forall run | Legal(cfg, Only(r), Start(Only(r)), run) ensures AnsweredOnce(cfg, r, run) {
        NoMoreRepliesThanFragments(cfg, Only(r), run);
      }
    } else {
      var run := AnsweredPerFragment(cfg, r);
      assert !AnsweredOnce(cfg, r, run);
    }
  }

  lemma FragmentCount(r: Request)
    requires 0 < r.chunk && HEADER_LEN + r.chunk <= Wire.MAX_PAYLOAD
    ensures |r.Fragments()| == 1 <==> |r.body| <= r.chunk
    ensures |r.Fragments()| >= 1
  {
    SplitCount(r.body, r.chunk);
  }
}
