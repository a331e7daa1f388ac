/** Averages of the retrieval evaluation, overall and by bucket
    (src/modules/benchmarks/agent_eval.c, mem_eval_run_with_latency and its bucket helpers). */
module Aggregation {
  import opened Wrappers
  import L = Latency
  import M = Ranking

  const ROUTE_BUCKETS: nat := 4
  const SHAPE_BUCKETS: nat := 9

  datatype Route = Lexical | Semantic | Graph | Hybrid | OtherRoute(code: int)
  datatype Shape = Unknown | Factoid | List | YesNo | When | How | Why | Quantitative | TemporalInterval
    | OtherShape(code: int)

  function RouteIndex(r: Route): (i: nat)
    ensures i < ROUTE_BUCKETS
  {
    match r
    case Lexical => 0
    case Semantic => 1
    case Graph => 2
    case _ => 3
  }

  function ShapeIndex(s: Shape): (i: nat)
    ensures i < SHAPE_BUCKETS
  {
    match s
    case Factoid => 1
    case List => 2
    case YesNo => 3
    case When => 4
    case How => 5
    case Why => 6
    case Quantitative => 7
    case TemporalInterval => 8
    case _ => 0
  }

  /** Named routes and shapes have buckets of their own; every other one shares a bucket with
      the hybrid route, respectively the unknown shape. */
  lemma BucketsSeparate(r: Route, q: Route, s: Shape, t: Shape)
    ensures RouteIndex(r) == RouteIndex(q) <==>
            r == q || ((r == Hybrid || r.OtherRoute?) && (q == Hybrid || q.OtherRoute?))
    ensures ShapeIndex(s) == ShapeIndex(t) <==>
            s == t || ((s == Unknown || s.OtherShape?) && (t == Unknown || t.OtherShape?))
  {
  }

  /** The buckets stand in the order of the names. */
  lemma BucketOrder(r: Route, s: Shape)
    ensures [Lexical, Semantic, Graph, Hybrid][RouteIndex(r)] == if r.OtherRoute? then Hybrid else r
    ensures [Unknown, Factoid, List, YesNo, When, How, Why, Quantitative, TemporalInterval][ShapeIndex(s)]
            == if s.OtherShape? then Unknown else s
  {
  }

  datatype Search = Found(retrieved: seq<int>) | Unavailable

  /** One case with what planning, searching and the clock gave for it. */
  datatype Trial = Trial(expected: seq<int>, route: Route, shape: Shape, search: Search, elapsed: real)
  {
    function Retrieved(): seq<int> {
      if search.Found? then search.retrieved else []
    }

    function Mrr(): real {
      M.Mrr(Retrieved(), expected)
    }

    function Recall(k: int): real {
      M.Recall(Retrieved(), expected, k)
    }

    function Ndcg(d: nat -> real, k: int): real {
      M.Ndcg(d, Retrieved(), expected, k)
    }
  }

  datatype Bucket = Bucket(cases: int, metricA: real, metricB: real)

  const EMPTY := Bucket(0, 0.0, 0.0)

  // ---- what the figures mean -----------------------------------------------------------

  function Total(trials: seq<Trial>, f: Trial -> real): real {
    if trials == [] then 0.0 else Total(trials[..|trials| - 1], f) + f(trials[|trials| - 1])
  }

  /** The cases of one bucket: how many, and the sums of their two metrics. */
  function Sums(trials: seq<Trial>, index: Trial -> nat, b: nat): Bucket {
    if trials == [] then EMPTY
    else
      var last := trials[|trials| - 1];
      var before := Sums(trials[..|trials| - 1], index, b);
      if index(last) == b then Added(before, last.Mrr(), last.Recall(10)) else before
  }

  function Added(b: Bucket, metricA: real, metricB: real): Bucket {
    Bucket(b.cases + 1, b.metricA + metricA, b.metricB + metricB)
  }

  function Mean(b: Bucket): Bucket {
    if b.cases <= 0 then b
    else Bucket(b.cases, b.metricA / b.cases as real, b.metricB / b.cases as real)
  }

  function AllSums(trials: seq<Trial>, index: Trial -> nat, count: nat): (bs: seq<Bucket>)
    ensures |bs| == count
  {
    seq(count, b requires 0 <= b < count => Sums(trials, index, b))
  }

  function Means(bs: seq<Bucket>): (ms: seq<Bucket>)
    ensures |ms| == |bs|
  {
    seq(|bs|, b requires 0 <= b < |bs| => Mean(bs[b]))
  }

  /** The cases of one bucket. */
  function Members(trials: seq<Trial>, index: Trial -> nat, b: nat): seq<Trial> {
    if trials == [] then []
    else
      var last := trials[|trials| - 1];
      Members(trials[..|trials| - 1], index, b) + (if index(last) == b then [last] else [])
  }

  /** Totals add up over any division of the cases, and the total of one case is its figure. */
  lemma {:induction false} TotalsAdd(a: seq<Trial>, b: seq<Trial>, f: Trial -> real)
    ensures Total(a + b, f) == Total(a, f) + Total(b, f)
    ensures forall t :: Total([t], f) == f(t)
  {
    if b == [] {
      assert a + b == a;
    } else {
      var k := |b| - 1;
      TotalsAdd(a, b[..k], f);
      assert (a + b)[..|a| + k] == a + b[..k];
    }
    forall t ensures Total([t], f) == f(t) {
      assert [t][..0] == [];
    }
  }

  /** A bucket counts its own cases and adds up their reciprocal ranks and their recalls at 10. */
  lemma {:induction false} SumsOfBucket(trials: seq<Trial>, index: Trial -> nat, b: nat)
    ensures var own := Members(trials, index, b);
      Sums(trials, index, b)
      == Bucket(|own|, Total(own, (t: Trial) => M.Mrr(t.Retrieved(), t.expected)),
                Total(own, (t: Trial) => M.Recall(t.Retrieved(), t.expected, 10)))
  {
    hide M.Mrr, M.Recall;
    if trials != [] {
      var front, last := trials[..|trials| - 1], trials[|trials| - 1];
      SumsOfBucket(front, index, b);
      if index(last) == b {
        assert (Members(front, index, b) + [last])[..|Members(front, index, b)|] == Members(front, index, b);
      } else {
        assert Members(front, index, b) + [] == Members(front, index, b);
      }
    }
  }

  // ---- conservation ----------------------------------------------------------------------

  function CaseSum(bs: seq<Bucket>): int {
    if bs == [] then 0 else CaseSum(bs[..|bs| - 1]) + bs[|bs| - 1].cases
  }

  function SumA(bs: seq<Bucket>): real {
    if bs == [] then 0.0 else SumA(bs[..|bs| - 1]) + bs[|bs| - 1].metricA
  }

  function SumB(bs: seq<Bucket>): real {
    if bs == [] then 0.0 else SumB(bs[..|bs| - 1]) + bs[|bs| - 1].metricB
  }

  /** Count-weighted sums. */
  function WeightedA(bs: seq<Bucket>): real {
    if bs == [] then 0.0
    else WeightedA(bs[..|bs| - 1]) + bs[|bs| - 1].cases as real * bs[|bs| - 1].metricA
  }

  function WeightedB(bs: seq<Bucket>): real {
    if bs == [] then 0.0
    else WeightedB(bs[..|bs| - 1]) + bs[|bs| - 1].cases as real * bs[|bs| - 1].metricB
  }

  /** Adding a case to one bucket adds it once to every sum. */
  lemma {:induction false} AddOne(bs: seq<Bucket>, i: nat, a: real, b: real)
    requires i < |bs|
    ensures var n := bs[i := Added(bs[i], a, b)];
      CaseSum(n) == CaseSum(bs) + 1 && SumA(n) == SumA(bs) + a && SumB(n) == SumB(bs) + b
  {
    var k := |bs| - 1;
    var n := bs[i := Added(bs[i], a, b)];
    if i == k {
      assert n[..k] == bs[..k];
    } else {
      AddOne(bs[..k], i, a, b);
      assert n[..k] == bs[..k][i := Added(bs[i], a, b)];
    }
  }

  lemma {:induction false} EmptySums(bs: seq<Bucket>)
    requires forall i :: 0 <= i < |bs| ==> bs[i] == EMPTY
    ensures CaseSum(bs) == 0 && SumA(bs) == 0.0 && SumB(bs) == 0.0
  {
    if bs != [] {
      EmptySums(bs[..|bs| - 1]);
    }
  }

  lemma SumsOfAppend(trials: seq<Trial>, index: Trial -> nat, count: nat)
    requires trials != [] && index(trials[|trials| - 1]) < count
    ensures var last := trials[|trials| - 1];
            var before := AllSums(trials[..|trials| - 1], index, count);
            var i := index(last);
            AllSums(trials, index, count) == before[i := Added(before[i], last.Mrr(), last.Recall(10))]
  {
  }

  function MrrOf(t: Trial): real {
    t.Mrr()
  }

  function Recall10Of(t: Trial): real {
    t.Recall(10)
  }

  /** Every case is counted once, with its metrics. */
  lemma {:induction false} SumsConserve(trials: seq<Trial>, index: Trial -> nat, count: nat)
    requires forall t :: t in trials ==> index(t) < count
    ensures var bs := AllSums(trials, index, count);
      CaseSum(bs) == |trials| && SumA(bs) == Total(trials, MrrOf) && SumB(bs) == Total(trials, Recall10Of)
  {
    hide Trial.Mrr, Trial.Recall;
    if trials == [] {
      EmptySums(AllSums(trials, index, count));
    } else {
      var k := |trials| - 1;
      SumsConserve(trials[..k], index, count);
      assert trials[k] in trials;
      SumsOfAppend(trials, index, count);
      AddOne(AllSums(trials[..k], index, count), index(trials[k]), trials[k].Mrr(), trials[k].Recall(10));
    }
  }

  lemma {:induction false} SumsAreSane(trials: seq<Trial>, index: Trial -> nat, b: nat)
    ensures var s := Sums(trials, index, b); s.cases >= 0 && (s.cases == 0 ==> s == EMPTY)
  {
    if trials != [] {
      SumsAreSane(trials[..|trials| - 1], index, b);
    }
  }

  /** A mean times its count is the sum again, also for the bucket that stays empty. */
  lemma MeanTimesCount(b: Bucket)
    requires b.cases >= 0 && (b.cases == 0 ==> b == EMPTY)
    ensures Mean(b).cases == b.cases
    ensures b.cases as real * Mean(b).metricA == b.metricA && b.cases as real * Mean(b).metricB == b.metricB
  {
  }

  lemma {:induction false} WeightedMeans(bs: seq<Bucket>)
    requires forall i :: 0 <= i < |bs| ==> bs[i].cases >= 0 && (bs[i].cases == 0 ==> bs[i] == EMPTY)
    ensures CaseSum(Means(bs)) == CaseSum(bs)
    ensures WeightedA(Means(bs)) == SumA(bs) && WeightedB(Means(bs)) == SumB(bs)
  {
    hide Mean;
    if bs != [] {
      var k := |bs| - 1;
      WeightedMeans(bs[..k]);
      MeanTimesCount(bs[k]);
      assert Means(bs)[..k] == Means(bs[..k]);
    }
  }

  /** Buckets against the overall figures. */
  ghost predicate Conserves(bs: seq<Bucket>, n: int, mrr: real, recall10: real) {
    && CaseSum(bs) == n
    && WeightedA(bs) == n as real * mrr && WeightedB(bs) == n as real * recall10
  }

  /** The finished buckets of any classification of the cases: their counts add up to the
      cases and their count-weighted metrics to the overall averages. */
  lemma BucketsConserve(trials: seq<Trial>, index: Trial -> nat, count: nat)
    requires trials != [] && forall t :: t in trials ==> index(t) < count
    ensures Conserves(Means(AllSums(trials, index, count)), |trials|,
                      Total(trials, MrrOf) / |trials| as real, Total(trials, Recall10Of) / |trials| as real)
  {
    hide Total, CaseSum, SumA, SumB, WeightedA, WeightedB, Sums, Mean;
    var bs := AllSums(trials, index, count);
    forall i: nat | i < |bs| ensures bs[i].cases >= 0 && (bs[i].cases == 0 ==> bs[i] == EMPTY) {
      SumsAreSane(trials, index, i);
    }
    SumsConserve(trials, index, count);
    WeightedMeans(bs);
    TimesQuotient(Total(trials, MrrOf), |trials|);
    TimesQuotient(Total(trials, Recall10Of), |trials|);
  }

  lemma TimesQuotient(x: real, n: nat)
    requires n > 0
    ensures n as real * (x / n as real) == x
  {
  }

  // ---- the run ---------------------------------------------------------------------------------

  function RouteOf(t: Trial): nat {
    RouteIndex(t.route)
  }

  function ShapeOf(t: Trial): nat {
    ShapeIndex(t.shape)
  }

  class Scores {
    var mrr: real
    var ndcg5: real
    var ndcg10: real
    var recall5: real
    var recall10: real
    var nCases: int
    const routeBuckets: array<Bucket>
    const shapeBuckets: array<Bucket>

    constructor ()
      ensures routeBuckets.Length == ROUTE_BUCKETS && shapeBuckets.Length == SHAPE_BUCKETS
      ensures routeBuckets != shapeBuckets && fresh(routeBuckets) && fresh(shapeBuckets)
    {
      mrr, ndcg5, ndcg10, recall5, recall10, nCases := 0.0, 0.0, 0.0, 0.0, 0.0, 0;
      routeBuckets := new Bucket[ROUTE_BUCKETS](_ => EMPTY);
      shapeBuckets := new Bucket[SHAPE_BUCKETS](_ => EMPTY);
    }
  }

  method BucketAdd(buckets: array<Bucket>, i: nat, metricA: real, metricB: real)
    requires i < buckets.Length
    modifies buckets
    ensures buckets[..] == old(buckets[..])[i := Added(old(buckets[i]), metricA, metricB)]
  {
    buckets[i] := Bucket(buckets[i].cases + 1, buckets[i].metricA + metricA, buckets[i].metricB + metricB);
  }

  method FinalizeBuckets(buckets: array<Bucket>)
    modifies buckets
    ensures buckets[..] == Means(old(buckets[..]))
  {
    for i := 0 to buckets.Length
      invariant forall j :: 0 <= j < i ==> buckets[j] == Mean(old(buckets[j]))
      invariant forall j :: i <= j < buckets.Length ==> buckets[j] == old(buckets[j])
    {
      var b := buckets[i];
      if b.cases > 0 {
        buckets[i] := Bucket(b.cases, b.metricA / b.cases as real, b.metricB / b.cases as real);
      }
    }
  }

  method ClearBuckets(buckets: array<Bucket>)
    modifies buckets
    ensures forall j :: 0 <= j < buckets.Length ==> buckets[j] == EMPTY
  {
    for i := 0 to buckets.Length
      invariant forall j :: 0 <= j < i ==> buckets[j] == EMPTY
    {
      buckets[i] := EMPTY;
    }
  }

  ghost predicate AllFound(trials: seq<Trial>) {
    forall i :: 0 <= i < |trials| ==> trials[i].search.Found?
  }

  /** The five metrics of a case, or their sums over cases. */
  datatype Metrics = Metrics(mrr: real, ndcg5: real, ndcg10: real, recall5: real, recall10: real)
  {
    function Plus(m: Metrics): Metrics {
      Metrics(mrr + m.mrr, ndcg5 + m.ndcg5, ndcg10 + m.ndcg10, recall5 + m.recall5, recall10 + m.recall10)
    }
  }

  function MetricsOf(d: nat -> real, t: Trial): Metrics {
    Metrics(t.Mrr(), t.Ndcg(d, 5), t.Ndcg(d, 10), t.Recall(5), t.Recall(10))
  }

  function TotalMetrics(d: nat -> real, trials: seq<Trial>): Metrics {
    if trials == [] then Metrics(0.0, 0.0, 0.0, 0.0, 0.0)
    else TotalMetrics(d, trials[..|trials| - 1]).Plus(MetricsOf(d, trials[|trials| - 1]))
  }

  /** Each of the five totals is that of its own metric, at its own depth. */
  lemma {:induction false} TotalsAreTotals(d: nat -> real, trials: seq<Trial>)
    ensures var m := TotalMetrics(d, trials);
      && m.mrr == Total(trials, MrrOf) && m.recall10 == Total(trials, Recall10Of)
      && m.mrr == Total(trials, (t: Trial) => M.Mrr(t.Retrieved(), t.expected))
      && m.ndcg5 == Total(trials, (t: Trial) => M.Ndcg(d, t.Retrieved(), t.expected, 5))
      && m.ndcg10 == Total(trials, (t: Trial) => M.Ndcg(d, t.Retrieved(), t.expected, 10))
      && m.recall5 == Total(trials, (t: Trial) => M.Recall(t.Retrieved(), t.expected, 5))
      && m.recall10 == Total(trials, (t: Trial) => M.Recall(t.Retrieved(), t.expected, 10))
  {
    hide M.Mrr, M.Recall, M.Ndcg;
    if trials != [] {
      TotalsAreTotals(d, trials[..|trials| - 1]);
    }
  }

  method ScoreCase(d: nat -> real, retrieved: seq<int>, expected: seq<int>) returns (m: Metrics)
    ensures m == Metrics(M.Mrr(retrieved, expected), M.Ndcg(d, retrieved, expected, 5), M.Ndcg(d, retrieved, expected, 10),
                         M.Recall(retrieved, expected, 5), M.Recall(retrieved, expected, 10))
  {
    hide M.Mrr, M.Recall, M.Ndcg;
    var mrr := M.IrMrr(retrieved, expected);
    var recall5 := M.IrRecallAtK(retrieved, expected, 5);
    var recall10 := M.IrRecallAtK(retrieved, expected, 10);
    var ndcg5 := M.IrNdcgAtK(d, retrieved, expected, 5);
    var ndcg10 := M.IrNdcgAtK(d, retrieved, expected, 10);
    return Metrics(mrr, ndcg5, ndcg10, recall5, recall10);
  }

  /** The loop over the cases: sums, bucket sums and latencies, or the first failed search. */
  method ScoreCases(d: nat -> real, trials: seq<Trial>, routes: array<Bucket>, shapes: array<Bucket>,
                    latencies: array?<real>)
    returns (code: int, total: Metrics)
    requires routes.Length == ROUTE_BUCKETS && shapes.Length == SHAPE_BUCKETS && routes != shapes
    requires latencies != null ==> latencies.Length == |trials|
    requires routes[..] == AllSums([], RouteOf, ROUTE_BUCKETS) && shapes[..] == AllSums([], ShapeOf, SHAPE_BUCKETS)
    modifies routes, shapes, latencies
    ensures code == 0 <==> AllFound(trials)
    ensures code != 0 ==> code == -1
    ensures code == 0 ==>
      && total == TotalMetrics(d, trials) && (latencies != null ==> latencies[..] == Elapsed(trials))
      && routes[..] == AllSums(trials, RouteOf, ROUTE_BUCKETS) && shapes[..] == AllSums(trials, ShapeOf, SHAPE_BUCKETS)
  {
    hide Sums, M.Mrr, M.Recall, M.Ndcg, AllSums;
    total := Metrics(0.0, 0.0, 0.0, 0.0, 0.0);
    for c := 0 to |trials|
      invariant AllFound(trials[..c])
      invariant total == TotalMetrics(d, trials[..c])
      invariant routes[..] == AllSums(trials[..c], RouteOf, ROUTE_BUCKETS)
      invariant shapes[..] == AllSums(trials[..c], ShapeOf, SHAPE_BUCKETS)
      invariant latencies != null ==> latencies[..c] == Elapsed(trials[..c])
    {
      var t := trials[c];
      assert trials[..c + 1][..c] == trials[..c];
      if t.search == Unavailable {
        assert !AllFound(trials);
        return -1, total;
      }
      if latencies != null {
        latencies[c] := t.elapsed;
      }
      var m := ScoreCase(d, t.search.retrieved, t.expected);
      total := total.Plus(m);
      SumsOfAppend(trials[..c + 1], RouteOf, ROUTE_BUCKETS);
      SumsOfAppend(trials[..c + 1], ShapeOf, SHAPE_BUCKETS);
      BucketAdd(routes, RouteIndex(t.route), m.mrr, m.recall10);
      BucketAdd(shapes, ShapeIndex(t.shape), m.mrr, m.recall10);
    }
    assert trials[..|trials|] == trials;
    assert latencies != null ==> latencies[..|trials|] == latencies[..];
    code := 0;
  }

  /** The latency record of a run: untouched when none is wanted or there is no case, zeroed
      when a search fails, and otherwise the summary of the cases, as far as there is memory. */
  function RecordOf(trials: seq<Trial>, wanted: bool, code: int, hasMemory: bool): Option<L.LatencyOut> {
    if !wanted || trials == [] then None
    else if code != 0 then Some(L.LatencyOut(0, L.ZEROES))
    else if !hasMemory then Some(L.LatencyOut(|trials|, L.ZEROES))
    else Some(L.LatencyOut(|trials|, L.Offline(L.Sorted(Elapsed(trials), L.Identity))))
  }

  /** mem_eval_run_with_latency, and mem_eval_run when no latency record is wanted: fails on an
      empty set and as soon as a search does. */
  method RunWithLatency(d: nat -> real, trials: seq<Trial>, out: Scores, wantsLatency: bool, hasMemory: bool)
    returns (code: int, latency: Option<L.LatencyOut>)
    requires out.routeBuckets.Length == ROUTE_BUCKETS && out.shapeBuckets.Length == SHAPE_BUCKETS
    requires out.routeBuckets != out.shapeBuckets
    modifies out, out.routeBuckets, out.shapeBuckets
    ensures code == 0 <==> trials != [] && AllFound(trials)
    ensures code != 0 ==> code == -1
    ensures code != 0 && trials != [] ==> out.nCases == |trials| && out.mrr == out.recall10 == 0.0
    ensures code == 0 ==>
      var n, m := |trials| as real, TotalMetrics(d, trials);
      && out.nCases == |trials| && out.mrr == m.mrr / n && out.recall5 == m.recall5 / n && out.recall10 == m.recall10 / n
      && out.ndcg5 == m.ndcg5 / n && out.ndcg10 == m.ndcg10 / n
      && out.routeBuckets[..] == Means(AllSums(trials, RouteOf, ROUTE_BUCKETS))
      && out.shapeBuckets[..] == Means(AllSums(trials, ShapeOf, SHAPE_BUCKETS))
    ensures code == 0 ==>
      && Conserves(out.routeBuckets[..], out.nCases, out.mrr, out.recall10)
      && Conserves(out.shapeBuckets[..], out.nCases, out.mrr, out.recall10)
    ensures latency == RecordOf(trials, wantsLatency, code, hasMemory)
  {
    hide Sums, L.Sorted, L.Offline, Conserves, Mean, TotalMetrics, Total;
    latency := None;
    if |trials| == 0 {
      return -1, latency;
    }
    out.mrr, out.ndcg5, out.ndcg10, out.recall5, out.recall10 := 0.0, 0.0, 0.0, 0.0, 0.0;
    out.nCases := |trials|;
    ClearBuckets(out.routeBuckets);
    ClearBuckets(out.shapeBuckets);
    NoTrials(RouteOf, ROUTE_BUCKETS);
    NoTrials(ShapeOf, SHAPE_BUCKETS);
    var latencies: array?<real> := null;
    if wantsLatency {
      latency := Some(L.LatencyOut(0, L.ZEROES));
      latencies := new real[|trials|](_ => 0.0);
    }
    var total: Metrics;
    code, total := ScoreCases(d, trials, out.routeBuckets, out.shapeBuckets, latencies);
    if code != 0 {
      return -1, latency;
    }
    out.mrr := total.mrr / |trials| as real;
    out.ndcg5 := total.ndcg5 / |trials| as real;
    out.ndcg10 := total.ndcg10 / |trials| as real;
    out.recall5 := total.recall5 / |trials| as real;
    out.recall10 := total.recall10 / |trials| as real;
    FinalizeBuckets(out.routeBuckets);
    FinalizeBuckets(out.shapeBuckets);
    TotalsAreTotals(d, trials);
    BucketsConserve(trials, RouteOf, ROUTE_BUCKETS);
    BucketsConserve(trials, ShapeOf, SHAPE_BUCKETS);
    if latencies != null {
      assert latencies[..|trials|] == latencies[..];
      var record := L.LatencyFinalize(latencies, |trials|, hasMemory);
      latency := Some(record);
    }
    code := 0;
  }

  function Elapsed(trials: seq<Trial>): (xs: seq<real>)
    ensures |xs| == |trials|
  {
    seq(|trials|, i requires 0 <= i < |trials| => trials[i].elapsed)
  }

  lemma NoTrials(index: Trial -> nat, count: nat)
    ensures forall b :: 0 <= b < count ==> AllSums([], index, count)[b] == EMPTY
  {
  }
}
