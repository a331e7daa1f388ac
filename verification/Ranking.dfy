/** The retrieval metrics and their three implementations: the fused score of the benchmarks
    process (server-go/modules/benchmarks/benchmarks.go), the fixture benchmark_score
    (src/modules/benchmarks/module_adapter.c) and the separate metrics of the offline
    evaluation (src/modules/benchmarks/agent_eval.c). The position discount, one over the
    binary logarithm of i + 2, is any positive, strictly decreasing function of i. */
module Ranking {
  ghost predicate Discounting(d: nat -> real) {
    && (forall i: nat :: d(i) > 0.0)
    && (forall i: nat, j: nat :: i < j ==> d(j) < d(i))
  }

  function Min(a: int, b: int): int {
    if a < b then a else b
  }

  /** How many results the first k are. */
  function Limit(retrieved: seq<int>, k: int): (n: nat)
    ensures n <= |retrieved|
  {
    if k <= 0 then 0 else Min(|retrieved|, k)
  }

  // ---- the metrics -------------------------------------------------------------------

  function Hits(retrieved: seq<int>, relevant: seq<int>): nat {
    if retrieved == [] then 0
    else Hits(retrieved[..|retrieved| - 1], relevant) + (if retrieved[|retrieved| - 1] in relevant then 1 else 0)
  }

  function Dcg(d: nat -> real, retrieved: seq<int>, relevant: seq<int>): real {
    if retrieved == [] then 0.0
    else
      var last := |retrieved| - 1;
      Dcg(d, retrieved[..last], relevant) + (if retrieved[last] in relevant then d(last) else 0.0)
  }

  function Idcg(d: nat -> real, n: nat): real {
    if n == 0 then 0.0 else Idcg(d, n - 1) + d(n - 1)
  }

  function Top(retrieved: seq<int>, k: int): seq<int> {
    retrieved[..Limit(retrieved, k)]
  }

  function Recall(retrieved: seq<int>, relevant: seq<int>, k: int): real {
    if relevant == [] then 0.0 else Hits(Top(retrieved, k), relevant) as real / |relevant| as real
  }

  function Ndcg(d: nat -> real, retrieved: seq<int>, relevant: seq<int>, k: int): real {
    if k <= 0 || relevant == [] then 0.0
    else
      var ideal := Idcg(d, Min(|relevant|, k));
      if ideal > 0.0 then Dcg(d, Top(retrieved, k), relevant) / ideal else 0.0
  }

  /** One more than the position of the first hit, or 0. */
  function Rank(retrieved: seq<int>, relevant: seq<int>): nat {
    if retrieved == [] then 0
    else if retrieved[0] in relevant then 1
    else
      var r := Rank(retrieved[1..], relevant);
      if r == 0 then 0 else r + 1
  }

  function Mrr(retrieved: seq<int>, relevant: seq<int>): real {
    var r := Rank(retrieved, relevant);
    if r == 0 then 0.0 else 1.0 / r as real
  }

  /** Rank is the position of the first hit, and 0 exactly when there is none. */
  lemma {:induction false} RankIsFirstHit(retrieved: seq<int>, relevant: seq<int>)
    ensures var r := Rank(retrieved, relevant);
      && r <= |retrieved|
      && (r == 0 ==> forall i :: 0 <= i < |retrieved| ==> retrieved[i] !in relevant)
      && (r > 0 ==> retrieved[r - 1] in relevant && forall i :: 0 <= i < r - 1 ==> retrieved[i] !in relevant)
  {
    if retrieved != [] && retrieved[0] !in relevant {
      RankIsFirstHit(retrieved[1..], relevant);
      var r := Rank(retrieved, relevant);
      forall i | 0 < i < |retrieved| && (r == 0 || i < r - 1) ensures retrieved[i] !in relevant {
        assert retrieved[i] == retrieved[1..][i - 1];
      }
      if r > 0 {
        assert retrieved[r - 1] == retrieved[1..][r - 2];
      }
    }
  }

  /** And it is the only such position. */
  lemma RankIsUnique(retrieved: seq<int>, relevant: seq<int>, r: nat)
    requires 0 < r <= |retrieved| && retrieved[r - 1] in relevant
    requires forall i :: 0 <= i < r - 1 ==> retrieved[i] !in relevant
    ensures Rank(retrieved, relevant) == r
  {
    RankIsFirstHit(retrieved, relevant);
  }

  /** Mrr is one over the position of the first hit, and 0 without one. */
  lemma ReciprocalOfFirstHit(retrieved: seq<int>, relevant: seq<int>, r: nat)
    requires r <= |retrieved| && forall i :: 0 <= i < r - 1 ==> retrieved[i] !in relevant
    ensures r > 0 && retrieved[r - 1] in relevant ==> Mrr(retrieved, relevant) == 1.0 / r as real
    ensures r == |retrieved| && (r > 0 ==> retrieved[r - 1] !in relevant) ==> Mrr(retrieved, relevant) == 0.0
  {
    RankIsFirstHit(retrieved, relevant);
    if r > 0 && retrieved[r - 1] in relevant {
      RankIsUnique(retrieved, relevant, r);
    }
  }

  // ---- what a hit gains --------------------------------------------------------------------

  /** Without a hit there is no gain. */
  lemma {:induction false} NoHitNoGain(d: nat -> real, top: seq<int>, relevant: seq<int>)
    requires forall i :: 0 <= i < |top| ==> top[i] !in relevant
    ensures Dcg(d, top, relevant) == 0.0 && Hits(top, relevant) == 0
  {
    if top != [] {
      NoHitNoGain(d, top[..|top| - 1], relevant);
    }
  }

  /** A hit gains the discount of its own position, whatever stands before and behind it: without
      it the gain is less by exactly that. */
  lemma {:induction false} HitGains(d: nat -> real, top: seq<int>, relevant: seq<int>, i: nat, miss: int)
    requires i < |top| && top[i] in relevant && miss !in relevant
    ensures Dcg(d, top, relevant) == Dcg(d, top[i := miss], relevant) + d(i)
    ensures Hits(top, relevant) == Hits(top[i := miss], relevant) + 1
  {
    var last := |top| - 1;
    var without := top[i := miss];
    if i == last {
      assert without[..last] == top[..last];
    } else {
      HitGains(d, top[..last], relevant, i, miss);
      assert without[..last] == top[..last][i := miss];
    }
  }

  /** A single hit gains its own discount. */
  lemma {:induction false} SingleHit(d: nat -> real, top: seq<int>, relevant: seq<int>, i: nat)
    requires i < |top| && top[i] in relevant && forall j :: 0 <= j < |top| && j != i ==> top[j] !in relevant
    ensures Dcg(d, top, relevant) == d(i) && Hits(top, relevant) == 1
  {
    var last := |top| - 1;
    if i == last {
      NoHitNoGain(d, top[..last], relevant);
    } else {
      SingleHit(d, top[..last], relevant, i);
    }
  }

  /** Gains and hits of relevance lists without a common id add up. */
  lemma {:induction false} GainsAdd(d: nat -> real, top: seq<int>, a: seq<int>, b: seq<int>)
    requires forall x :: x in a ==> x !in b
    ensures Dcg(d, top, a + b) == Dcg(d, top, a) + Dcg(d, top, b)
    ensures Hits(top, a + b) == Hits(top, a) + Hits(top, b)
  {
    if top != [] {
      GainsAdd(d, top[..|top| - 1], a, b);
    }
  }

  /** One relevant id, found once among the first k, at rank r. */
  lemma OneFoundAtRank(d: nat -> real, retrieved: seq<int>, id: int, k: int, r: nat)
    requires Discounting(d) && 0 < r <= |retrieved| && r <= k && retrieved[r - 1] == id
    requires forall j :: 0 <= j < |retrieved| && j < k && j != r - 1 ==> retrieved[j] != id
    ensures Ndcg(d, retrieved, [id], k) == d(r - 1) / d(0)
    ensures Recall(retrieved, [id], k) == 1.0 && Mrr(retrieved, [id]) == 1.0 / r as real
  {
    var top := Top(retrieved, k);
    SingleHit(d, top, [id], r - 1);
    ReciprocalOfFirstHit(retrieved, [id], r);
    assert Idcg(d, 1) == Idcg(d, 0) + d(0);
    assert d(0) > 0.0;
  }

  // ---- the implementations -------------------------------------------------------------

  method IsRelevant(id: int, relevant: seq<int>) returns (found: bool)
    ensures found <==> id in relevant
  {
    for i := 0 to |relevant|
      invariant id !in relevant[..i]
    {
      if relevant[i] == id {
        return true;
      }
    }
    assert relevant[..|relevant|] == relevant;
    return false;
  }

  /** The fused score of the Go process; a negative k makes its slice expression panic. */
  method Score(d: nat -> real, retrieved: seq<int>, relevant: seq<int>, k: int)
    returns (mrr: real, ndcg: real, recall: real)
    requires Discounting(d) && k >= 0
    ensures mrr == Mrr(retrieved, relevant)
    ensures ndcg == Ndcg(d, retrieved, relevant, k)
    ensures recall == Recall(retrieved, relevant, k)
  {
    mrr, ndcg, recall := 0.0, 0.0, 0.0;
    mrr := FirstReciprocal(retrieved, relevant);
    if |relevant| == 0 {
      return;
    }
    var limit := Min(|retrieved|, k);
    var dcg, found := Gains(d, retrieved[..limit], relevant);
    var idealLimit := Min(|relevant|, k);
    var idcg := Ideal(d, idealLimit);
    assert Top(retrieved, k) == retrieved[..limit];
    if k == 0 {
      assert idealLimit == 0;
    }
    if idcg > 0.0 {
      ndcg := dcg / idcg;
    }
    recall := found as real / |relevant| as real;
  }

  /** The first loop of score: the reciprocal of the first hit's position. */
  method FirstReciprocal(retrieved: seq<int>, relevant: seq<int>) returns (mrr: real)
    ensures mrr == Mrr(retrieved, relevant)
  {
    mrr := 0.0;
    for index := 0 to |retrieved|
      invariant forall i :: 0 <= i < index ==> retrieved[i] !in relevant
    {
      var hit := IsRelevant(retrieved[index], relevant);
      if hit {
        RankIsUnique(retrieved, relevant, index + 1);
        return 1.0 / (index + 1) as real;
      }
    }
    RankIsFirstHit(retrieved, relevant);
  }

  /** The second loop: discounted gain and hits together. */
  method Gains(d: nat -> real, top: seq<int>, relevant: seq<int>) returns (dcg: real, found: nat)
    ensures dcg == Dcg(d, top, relevant) && found == Hits(top, relevant)
  {
    dcg, found := 0.0, 0;
    for index := 0 to |top|
      invariant dcg == Dcg(d, top[..index], relevant) && found == Hits(top[..index], relevant)
    {
      assert top[..index + 1][..index] == top[..index];
      var hit := IsRelevant(top[index], relevant);
      if hit {
        dcg := dcg + d(index);
        found := found + 1;
      }
    }
    assert top[..|top|] == top;
  }

  /** The third loop. */
  method Ideal(d: nat -> real, n: int) returns (idcg: real)
    ensures idcg == if n <= 0 then 0.0 else Idcg(d, n)
  {
    idcg := 0.0;
    var index := 0;
    while index < n
      invariant index == 0 || 0 <= index <= n
      invariant idcg == Idcg(d, index)
    {
      idcg := idcg + d(index);
      index := index + 1;
    }
  }

  /** The C fixture, with its unsigned k. */
  method BenchmarkScore(d: nat -> real, retrieved: seq<int>, relevant: seq<int>, k: nat)
    returns (mrr: real, ndcg: real, recall: real)
    requires Discounting(d)
    ensures mrr == Mrr(retrieved, relevant)
    ensures ndcg == Ndcg(d, retrieved, relevant, k)
    ensures recall == Recall(retrieved, relevant, k)
  {
    mrr, ndcg, recall := 0.0, 0.0, 0.0;
    var i := 0;
    while i < |retrieved|
      invariant i <= |retrieved| && mrr == 0.0
      invariant forall j :: 0 <= j < i ==> retrieved[j] !in relevant
    {
      var hit := IsRelevant(retrieved[i], relevant);
      if hit {
        RankIsUnique(retrieved, relevant, i + 1);
        mrr := 1.0 / (i + 1) as real;
        break;
      }
      i := i + 1;
    }
    RankIsFirstHit(retrieved, relevant);
    if |relevant| == 0 {
      return;
    }
    var limit := if |retrieved| < k then |retrieved| else k;
    var dcg, found := Gains(d, retrieved[..limit], relevant);
    var idealLimit := if |relevant| < k then |relevant| else k;
    var idcg := Ideal(d, idealLimit);
    assert Top(retrieved, k) == retrieved[..limit];
    ndcg := if idcg > 0.0 then dcg / idcg else 0.0;
    recall := found as real / |relevant| as real;
  }

  method IrMrr(retrieved: seq<int>, relevant: seq<int>) returns (mrr: real)
    ensures mrr == Mrr(retrieved, relevant)
  {
    for i := 0 to |retrieved|
      invariant forall j :: 0 <= j < i ==> retrieved[j] !in relevant
    {
      var hit := IsRelevant(retrieved[i], relevant);
      if hit {
        RankIsUnique(retrieved, relevant, i + 1);
        return 1.0 / (i + 1) as real;
      }
    }
    RankIsFirstHit(retrieved, relevant);
    return 0.0;
  }

  method IrNdcgAtK(d: nat -> real, retrieved: seq<int>, relevant: seq<int>, k: int) returns (ndcg: real)
    ensures ndcg == Ndcg(d, retrieved, relevant, k)
  {
    if k <= 0 || |relevant| == 0 {
      return 0.0;
    }
    var limit := if |retrieved| < k then |retrieved| else k;
    var dcg := 0.0;
    for i := 0 to limit
      invariant dcg == Dcg(d, retrieved[..i], relevant)
    {
      assert retrieved[..i + 1][..i] == retrieved[..i];
      var hit := IsRelevant(retrieved[i], relevant);
      if hit {
        dcg := dcg + d(i);
      }
    }
    var idealLimit := if |relevant| < k then |relevant| else k;
    var idcg := Ideal(d, idealLimit);
    return if idcg > 0.0 then dcg / idcg else 0.0;
  }

  method IrRecallAtK(retrieved: seq<int>, relevant: seq<int>, k: int) returns (recall: real)
    ensures recall == Recall(retrieved, relevant, k)
  {
    if |relevant| == 0 {
      return 0.0;
    }
    var limit := if |retrieved| < k then |retrieved| else k;
    var found: nat := 0;
    var i := 0;
    while i < limit
      invariant 0 <= i <= Limit(retrieved, k)
      invariant found == Hits(retrieved[..i], relevant)
    {
      assert retrieved[..i + 1][..i] == retrieved[..i];
      var hit := IsRelevant(retrieved[i], relevant);
      if hit {
        found := found + 1;
      }
      i := i + 1;
    }
    return found as real / |relevant| as real;
  }

  /** The rank of the miss report, with its two nested loops. */
  method FindRank(retrieved: seq<int>, relevant: seq<int>) returns (rank: nat)
    ensures rank == Rank(retrieved, relevant)
  {
    for i := 0 to |retrieved|
      invariant forall l :: 0 <= l < i ==> retrieved[l] !in relevant
    {
      for j := 0 to |relevant|
        invariant retrieved[i] !in relevant[..j]
      {
        if retrieved[i] == relevant[j] {
          RankIsUnique(retrieved, relevant, i + 1);
          return i + 1;
        }
      }
      assert relevant[..|relevant|] == relevant;
    }
    RankIsFirstHit(retrieved, relevant);
    return 0;
  }

  // ---- rank against recall ---------------------------------------------------------------

  lemma {:induction false} HitsCountHits(top: seq<int>, relevant: seq<int>)
    ensures Hits(top, relevant) <= |top|
    ensures Hits(top, relevant) > 0 <==> exists i :: 0 <= i < |top| && top[i] in relevant
  {
    if top != [] {
      var k := |top| - 1;
      HitsCountHits(top[..k], relevant);
      assert top == top[..k] + [top[k]];
      if i :| 0 <= i < k && top[i] in relevant {
        assert top[..k][i] in relevant;
      }
    }
  }

  /** The first hit is among the first k results exactly when recall at k is positive. */
  lemma RankWithinKIsRecall(retrieved: seq<int>, relevant: seq<int>, k: int)
    requires relevant != []
    ensures 1 <= Rank(retrieved, relevant) <= k <==> Recall(retrieved, relevant, k) > 0.0
  {
    var r, top := Rank(retrieved, relevant), Top(retrieved, k);
    RankIsFirstHit(retrieved, relevant);
    HitsCountHits(top, relevant);
    if 1 <= r <= k {
      assert top[r - 1] in relevant;
    }
    QuotientPositive(Hits(top, relevant), |relevant|);
  }

  lemma QuotientPositive(a: nat, b: nat)
    requires b > 0
    ensures a as real / b as real > 0.0 <==> a > 0
  {
  }

  // ---- bounds ------------------------------------------------------------------------------

  ghost predicate NoDuplicates(s: seq<int>) {
    forall i, j :: 0 <= i < j < |s| ==> s[i] != s[j]
  }

  ghost function Elements(s: seq<int>): set<int> {
    set x | x in s
  }

  lemma {:induction false} ElementsBound(s: seq<int>)
    ensures |Elements(s)| <= |s|
  {
    if s == [] {
      assert Elements(s) == {};
    } else {
      var k := |s| - 1;
      ElementsBound(s[..k]);
      ElementsOfAppend(s);
    }
  }

  /** Without duplicates the hits are the distinct relevant ids retrieved. */
  lemma {:induction false} HitsAreIntersection(top: seq<int>, relevant: seq<int>)
    requires NoDuplicates(top)
    ensures Hits(top, relevant) == |Elements(top) * Elements(relevant)|
  {
    if top == [] {
      assert Elements(top) * Elements(relevant) == {};
    } else {
      var k := |top| - 1;
      HitsAreIntersection(top[..k], relevant);
      ElementsOfAppend(top);
      assert top[k] !in top[..k];
      CountOneMore(Elements(top[..k]), top[k], Elements(relevant));
    }
  }

  lemma ElementsOfAppend(s: seq<int>)
    requires s != []
    ensures Elements(s) == Elements(s[..|s| - 1]) + {s[|s| - 1]}
  {
    assert s == s[..|s| - 1] + [s[|s| - 1]];
  }

  lemma CountOneMore(a: set<int>, x: int, b: set<int>)
    requires x !in a
    ensures |(a + {x}) * b| == |a * b| + (if x in b then 1 else 0)
  {
    if x in b {
      assert (a + {x}) * b == a * b + {x};
    } else {
      assert (a + {x}) * b == a * b;
    }
  }

  lemma HitsBound(top: seq<int>, relevant: seq<int>, k: nat)
    requires NoDuplicates(top) && |top| <= k
    ensures Hits(top, relevant) <= Min(|relevant|, k)
  {
    HitsAreIntersection(top, relevant);
    HitsCountHits(top, relevant);
    ElementsBound(relevant);
    SubsetBound(Elements(top) * Elements(relevant), Elements(relevant));
  }

  lemma SubsetBound(a: set<int>, b: set<int>)
    requires a <= b
    ensures |a| <= |b|
  {
    assert a + (b - a) == b && a * (b - a) == {};
  }

  lemma {:induction false} IdcgGrows(d: nat -> real, m: nat, n: nat)
    requires Discounting(d) && m <= n
    ensures 0.0 <= Idcg(d, m) <= Idcg(d, n)
    ensures m < n ==> Idcg(d, m) < Idcg(d, n)
  {
    if m < n {
      IdcgGrows(d, m, n - 1);
      assert d(n - 1) > 0.0;
    } else if m > 0 {
      IdcgGrows(d, m - 1, n - 1);
      assert d(n - 1) > 0.0;
    }
  }

  ghost predicate AllHit(top: seq<int>, relevant: seq<int>, n: nat) {
    n <= |top| && forall i :: 0 <= i < n ==> top[i] in relevant
  }

  /** Rearrangement: h hits gain at most what the first h positions offer, and exactly that
      only when they are the first h results. */
  lemma {:induction false} GainIsAtMostIdeal(d: nat -> real, top: seq<int>, relevant: seq<int>)
    requires Discounting(d)
    ensures Hits(top, relevant) <= |top|
    ensures 0.0 <= Dcg(d, top, relevant) <= Idcg(d, Hits(top, relevant))
    ensures Dcg(d, top, relevant) == Idcg(d, Hits(top, relevant)) <==> AllHit(top, relevant, Hits(top, relevant))
  {
    if top != [] {
      var last := |top| - 1;
      var front := top[..last];
      GainIsAtMostIdeal(d, front, relevant);
      var h := Hits(front, relevant);
      assert d(last) > 0.0 && (h < last ==> d(last) < d(h));
      assert forall i :: 0 <= i < last ==> front[i] == top[i];
      if top[last] in relevant {
        HitsPrefix(front, relevant);
      }
    }
  }

  /** All hits at the front, with room behind, means a miss right after them. */
  lemma {:induction false} HitsPrefix(top: seq<int>, relevant: seq<int>)
    ensures Hits(top, relevant) <= |top|
    ensures Hits(top, relevant) < |top| && AllHit(top, relevant, Hits(top, relevant)) ==>
              top[Hits(top, relevant)] !in relevant
  {
    if top != [] {
      var last := |top| - 1;
      HitsPrefix(top[..last], relevant);
      HitsAllOrLess(top, relevant);
      assert forall i :: 0 <= i < last ==> top[..last][i] == top[i];
    }
  }

  lemma {:induction false} HitsAllOrLess(top: seq<int>, relevant: seq<int>)
    ensures Hits(top, relevant) <= |top|
    ensures Hits(top, relevant) == |top| <==> AllHit(top, relevant, |top|)
  {
    if top != [] {
      var last := |top| - 1;
      HitsAllOrLess(top[..last], relevant);
      assert forall i :: 0 <= i < last ==> top[..last][i] == top[i];
    }
  }

  /** Recall at k of a duplicate-free result is the share of relevant entries retrieved. */
  lemma RecallIsShare(retrieved: seq<int>, relevant: seq<int>, k: int)
    requires NoDuplicates(Top(retrieved, k))
    ensures 0.0 <= Recall(retrieved, relevant, k) <= 1.0
    ensures relevant != [] ==>
      Recall(retrieved, relevant, k) * |relevant| as real == |Elements(Top(retrieved, k)) * Elements(relevant)| as real
  {
    hide Hits, Elements, NoDuplicates, Top, Limit;
    if relevant != [] {
      var top := Top(retrieved, k);
      HitsAreIntersection(top, relevant);
      HitsBound(top, relevant, |top|);
      ShareBounds(Hits(top, relevant), |relevant|);
    }
  }

  lemma ShareBounds(h: nat, n: nat)
    requires h <= n && 0 < n
    ensures 0.0 <= h as real / n as real <= 1.0
    ensures h as real / n as real * n as real == h as real
  {
    QuotientBounds(h as real, n as real);
  }

  /** Without duplicates both metrics lie between 0 and 1, for every discount. */
  lemma MetricsAreBounded(d: nat -> real, retrieved: seq<int>, relevant: seq<int>, k: int)
    requires Discounting(d) && NoDuplicates(Top(retrieved, k))
    ensures 0.0 <= Recall(retrieved, relevant, k) <= 1.0
    ensures 0.0 <= Ndcg(d, retrieved, relevant, k) <= 1.0
  {
    hide Hits, Dcg, Idcg, Recall, NoDuplicates;
    RecallIsShare(retrieved, relevant, k);
    if relevant != [] && k > 0 {
      var top, m := Top(retrieved, k), Min(|relevant|, k);
      HitsBound(top, relevant, k);
      GainIsAtMostIdeal(d, top, relevant);
      IdcgGrows(d, Hits(top, relevant), m);
      IdcgPositive(d, m);
      QuotientBounds(Dcg(d, top, relevant), Idcg(d, m));
    }
  }

  lemma QuotientBounds(a: real, b: real)
    requires 0.0 <= a && 0.0 < b
    ensures 0.0 <= a / b
    ensures a / b <= 1.0 <==> a <= b
    ensures a / b == 1.0 <==> a == b
    ensures a / b * b == a
  {
  }

  lemma IdcgPositive(d: nat -> real, m: nat)
    requires Discounting(d) && m > 0
    ensures Idcg(d, m) > 0.0
  {
    IdcgGrows(d, 0, m);
  }

  /** The ideal positions are filled by relevant results. */
  ghost predicate Perfect(retrieved: seq<int>, relevant: seq<int>, k: int) {
    AllHit(retrieved, relevant, if k <= 0 then 0 else Min(|relevant|, k))
  }

  /** nDCG is 1 exactly when the first min(|relevant|, k) results exist and are all relevant,
      for every discount. */
  lemma NdcgIsOneWhenPerfect(d: nat -> real, retrieved: seq<int>, relevant: seq<int>, k: int)
    requires Discounting(d) && NoDuplicates(Top(retrieved, k)) && relevant != [] && k >= 1
    ensures Ndcg(d, retrieved, relevant, k) == 1.0 <==> Perfect(retrieved, relevant, k)
  {
    hide Hits, Dcg, Idcg;
    var top, m := Top(retrieved, k), Min(|relevant|, k);
    var h := Hits(top, relevant);
    HitsBound(top, relevant, k);
    GainIsAtMostIdeal(d, top, relevant);
    IdcgGrows(d, h, m);
    IdcgPositive(d, m);
    QuotientBounds(Dcg(d, top, relevant), Idcg(d, m));
    if Perfect(retrieved, relevant, k) {
      assert AllHit(top, relevant, m);
      EnoughHits(top, relevant, m);
      assert h == m;
    }
  }

  lemma {:induction false} EnoughHits(top: seq<int>, relevant: seq<int>, m: nat)
    requires AllHit(top, relevant, m)
    ensures Hits(top, relevant) >= m
  {
    if m < |top| {
      EnoughHits(top[..|top| - 1], relevant, m);
    } else {
      HitsAllOrLess(top, relevant);
    }
  }

  /** The first repeated result. */
  lemma {:induction false} FirstRepeat(s: seq<int>) returns (j: nat)
    requires !NoDuplicates(s)
    ensures 0 < j < |s| && NoDuplicates(s[..j]) && s[j] in s[..j]
  {
    var k := |s| - 1;
    DistinctByLast(s);
    if NoDuplicates(s[..k]) {
      j := k;
    } else {
      j := FirstRepeat(s[..k]);
      assert s[..k][..j] == s[..j] && s[..k][j] == s[j];
    }
  }

  lemma DistinctByLast(s: seq<int>)
    requires s != []
    ensures NoDuplicates(s) <==> NoDuplicates(s[..|s| - 1]) && s[|s| - 1] !in s[..|s| - 1]
  {
    var k := |s| - 1;
    assert forall i :: 0 <= i < k ==> s[i] == s[..k][i];
  }

  /** A result list that repeats an id within the first k scores above 1 somewhere: the
      distinct ids before the first repeat are the relevance list that shows it. */
  lemma RepeatsExceedOne(d: nat -> real, retrieved: seq<int>, k: int) returns (relevant: seq<int>)
    requires Discounting(d) && !NoDuplicates(Top(retrieved, k))
    ensures Recall(retrieved, relevant, k) > 1.0 && Ndcg(d, retrieved, relevant, k) > 1.0
  {
    hide Hits, Dcg, Idcg;
    var top := Top(retrieved, k);
    var j := FirstRepeat(top);
    relevant := top[..j];
    assert AllHit(top, relevant, j + 1) by {
      assert forall i :: 0 <= i < j ==> top[i] == top[..j][i];
    }
    EnoughHits(top, relevant, j + 1);
    GainOfPrefix(d, top, relevant, j + 1);
    IdcgGrows(d, j, j + 1);
    IdcgPositive(d, j);
    QuotientBounds(Dcg(d, top, relevant), Idcg(d, j));
    QuotientBounds(Hits(top, relevant) as real, j as real);
  }

  lemma {:induction false} GainOfPrefix(d: nat -> real, top: seq<int>, relevant: seq<int>, m: nat)
    requires Discounting(d) && AllHit(top, relevant, m)
    ensures Dcg(d, top, relevant) >= Idcg(d, m)
  {
    if m < |top| {
      GainOfPrefix(d, top[..|top| - 1], relevant, m);
      assert d(|top| - 1) > 0.0;
    } else if m > 0 {
      GainOfPrefix(d, top[..m - 1], relevant, m - 1);
    }
  }

  ghost predicate AtMostOne(d: nat -> real, retrieved: seq<int>, relevant: seq<int>, k: int) {
    Recall(retrieved, relevant, k) <= 1.0 && Ndcg(d, retrieved, relevant, k) <= 1.0
  }

  /** Exactly the lists without a repeat in their first k score at most 1 whatever is relevant. */
  lemma BoundedExactlyWithoutRepeats(d: nat -> real, retrieved: seq<int>, k: int)
    requires Discounting(d)
    ensures NoDuplicates(Top(retrieved, k)) <==> forall relevant :: AtMostOne(d, retrieved, relevant, k)
  {
    if NoDuplicates(Top(retrieved, k)) {
      forall relevant ensures AtMostOne(d, retrieved, relevant, k) {
        MetricsAreBounded(d, retrieved, relevant, k);
      }
    } else {
      var relevant := RepeatsExceedOne(d, retrieved, k);
      assert !AtMostOne(d, retrieved, relevant, k);
    }
  }

  /** The pinned case: one relevant id retrieved twice has recall 2. */
  lemma RepeatedHitCountsTwice(d: nat -> real)
    requires Discounting(d)
    ensures Recall([7, 7], [7], 2) == 2.0
    ensures Ndcg(d, [7, 7], [7], 2) == 1.0 + d(1) / d(0)
  {
    var top := Top([7, 7], 2);
    assert top == [7, 7] && top[..1] == [7] && [7][..0] == [];
    assert Hits([7], [7]) == 1 && Dcg(d, [7], [7]) == d(0);
    assert Idcg(d, 1) == Idcg(d, 0) + d(0);
    assert d(0) > 0.0;
    SumOverFirst(d(0), d(1));
  }

  lemma SumOverFirst(a: real, b: real)
    requires a > 0.0
    ensures (a + b) / a == 1.0 + b / a
  {
    var q, p := (a + b) / a, b / a;
    assert q * a == a + b && p * a == b;
    var x := q - 1.0 - p;
    assert x * a == 0.0;
    assert x == (x * a) / a;
  }
}
