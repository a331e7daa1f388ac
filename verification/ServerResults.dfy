/** What every run of the serving process guarantees (server-go/bus/module_runtime.go): no
    handler blocks, the shutdown drain ends, replies leave in the order they were begun and
    are all valid, every event is accounted for, and a cancel that is seen in time wins. */
module ServerResults {
  import opened Serving
  import opened Server

  // ---- no handler blocks -------------------------------------------------------------

  /** In every reachable state, also after the loop has returned for whatever reason: the
      tables are bounded and disjoint, jobs are exactly the running handlers plus the queued
      results, and a handler that has its result ready can send it without waiting. */
  lemma NoHandlerBlocks(cfg: Config, run: seq<Action>)
    requires cfg.Valid() && Legal(cfg, Start(), run)
    ensures var s := After(cfg, Start(), run);
      && |s.tables.assemblies| <= MAX_IN_FLIGHT && |s.tables.jobs| <= MAX_IN_FLIGHT
      && s.tables.assemblies.Keys !! s.tables.jobs.Keys
      && |s.tables.jobs| == |s.handlers| + |s.done|
      && (forall c :: c in s.tables.jobs ==> Served(s, s.tables.jobs[c]))
      && (forall id :: id in s.handlers && PhaseOf(s, id).Ready? ==> Enabled(s, HandlerSends(id)))
  {
    hide Legal, After, Served;
    StartInv();
    RunKeepsInv(cfg, Start(), run);
    var s := After(cfg, Start(), run);
    forall id | id in s.handlers ensures |s.done| < MAX_IN_FLIGHT {
      KeysCount(s.handlers);
      assert s.handlers.Keys != {};
    }
  }

  // ---- the shutdown drain ends -------------------------------------------------------

  function Weight(p: Phase): nat {
    match p
    case Working => 5
    case Normalised(_, _) => 4
    case FlagClear(_, _) => 3
    case Ready(_, _) => 2
  }

  function WithWeight(handlers: map<nat, Goroutine>, k: nat): set<nat> {
    set id | id in handlers && Weight(handlers[id].phase) == k
  }

  function Burden(handlers: map<nat, Goroutine>): nat {
    5 * |WithWeight(handlers, 5)| + 4 * |WithWeight(handlers, 4)| + 3 * |WithWeight(handlers, 3)| + 2 * |WithWeight(handlers, 2)|
  }

  /** Steps the drain can still take. */
  function Rank(s: State): nat {
    Burden(s.handlers) + |s.done| + (if s.loop == ShuttingDown then 1 else 0)
  }

  lemma PhaseDrops(m: map<nat, Goroutine>, id: nat, p: Phase)
    requires id in m && Weight(p) < Weight(m[id].phase)
    ensures Burden(m[id := m[id].(phase := p)]) < Burden(m)
  {
    hide Weight;
    var n := m[id := m[id].(phase := p)];
    var from, to := Weight(m[id].phase), Weight(p);
    assert WithWeight(m, from) == WithWeight(n, from) + {id};
    assert WithWeight(n, to) == WithWeight(m, to) + {id};
    forall k: nat | k != from && k != to ensures WithWeight(n, k) == WithWeight(m, k) {
    }
    WeightRange(m[id].phase);
    WeightRange(p);
  }

  lemma WeightRange(p: Phase)
    ensures 2 <= Weight(p) <= 5
  {
  }

  lemma HandlerLeaves(m: map<nat, Goroutine>, id: nat)
    requires id in m && m[id].phase.Ready?
    ensures Burden(m - {id}) + 2 == Burden(m)
  {
    var n := m - {id};
    assert WithWeight(m, 2) == WithWeight(n, 2) + {id};
    forall k: nat | k != 2 ensures WithWeight(n, k) == WithWeight(m, k) {
    }
  }

  lemma DrainStepDecreases(cfg: Config, s: State, a: Action)
    requires s.loop == ShuttingDown && Enabled(s, a)
    ensures var n := Next(cfg, s, a); Rank(n) < Rank(s) && (n.loop == ShuttingDown || a == DrainEnds)
  {
    hide Burden, Weight, WithWeight;
    match a
    case HandlerReturns(id, r) => WeightsFall(s, id); PhaseDrops(s.handlers, id, NormalisedResponse(r));
    case HandlerLoadsFlag(id) => WeightsFall(s, id); PhaseDrops(s.handlers, id, PhaseOf(Next(cfg, s, a), id));
    case HandlerReadsClock(id, now) => WeightsFall(s, id); PhaseDrops(s.handlers, id, PhaseOf(Next(cfg, s, a), id));
    case HandlerSends(id) => HandlerLeaves(s.handlers, id);
    case DrainOne =>
    case DrainEnds =>
  }

  lemma WeightsFall(s: State, id: nat)
    requires id in s.handlers
    ensures forall p: Phase :: p.Normalised? ==> Weight(p) == 4
    ensures forall p: Phase :: p.FlagClear? ==> Weight(p) == 3
    ensures forall p: Phase :: p.Ready? ==> Weight(p) == 2
    ensures forall p: Phase :: p.Working? ==> Weight(p) == 5
  {
  }

  /** The drain is never stuck: some step is enabled, and it is a handler function's own
      return only when every handler is still inside its function. */
  lemma DrainProgress(s: State) returns (a: Action)
    requires Inv(s) && s.loop == ShuttingDown
    ensures Enabled(s, a)
    ensures a.HandlerReturns? ==> forall id :: id in s.handlers ==> PhaseOf(s, id).Working?
  {
    hide TablesInv, UniqueIds, Served, Owns;
    if s.tables.jobs == map[] {
      return DrainEnds;
    }
    if s.done != [] {
      return DrainOne;
    }
    KeysCount(s.handlers);
    var id :| id in s.handlers.Keys;
    if w :| w in s.handlers.Keys && !PhaseOf(s, w).Working? {
      id := w;
    }
    match PhaseOf(s, id)
    case Working => return HandlerReturns(id, Response(0, []));
    case Normalised(_, _) => return HandlerLoadsFlag(id);
    case FlagClear(_, _) => return HandlerReadsClock(id, 0);
    case Ready(_, _) => return HandlerSends(id);
  }

  /** From the moment the context ends, no run has more than Rank steps, and one that cannot
      go on has stopped with an empty job table: the drain ends once its handlers return. */
  lemma {:induction false} DrainTerminates(cfg: Config, s: State, run: seq<Action>)
    requires cfg.Valid() && Inv(s) && s.loop == ShuttingDown && Legal(cfg, s, run)
    ensures |run| <= Rank(s)
    ensures var n := After(cfg, s, run);
            (forall a :: !Enabled(n, a)) ==> n.loop == Stopped([]) && n.tables.jobs == map[] && n.handlers == map[]
    decreases |run|
  {
    hide Inv, Rank, Next, Enabled;
    if run == [] {
      var a := DrainProgress(s);
    } else {
      var n := Next(cfg, s, run[0]);
      StepKeepsInv(cfg, s, run[0]);
      DrainStepDecreases(cfg, s, run[0]);
      if n.loop == ShuttingDown {
        DrainTerminates(cfg, n, run[1..]);
      } else {
        DrainedIsQuiet(cfg, s, run[0]);
        QuietEndsRun(cfg, n, run[1..]);
      }
    }
  }

  lemma QuietEndsRun(cfg: Config, s: State, run: seq<Action>)
    requires Legal(cfg, s, run) && forall a :: !Enabled(s, a)
    ensures run == []
  {
    hide Next, Enabled;
  }

  lemma DrainedIsQuiet(cfg: Config, s: State, a: Action)
    requires Inv(s) && s.loop == ShuttingDown && a == DrainEnds && Enabled(s, a)
    ensures var n := Next(cfg, s, a);
            n.loop == Stopped([]) && n.tables.jobs == map[] && n.handlers == map[] && forall b :: !Enabled(n, b)
  {
    KeysCount(s.handlers);
    assert |s.tables.jobs| == 0;
    assert s.handlers.Keys == {};
  }
}
