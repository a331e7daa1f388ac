/** Latency summaries: the in-place exchange sort and percentile positions of the offline
    evaluation (src/modules/benchmarks/agent_eval.c, mem_eval_latency_finalize), the nearest
    rank of the benchmarks process (server-go/modules/benchmarks/benchmarks.go) and of its
    fixture (src/modules/benchmarks/module_adapter.c). Samples are compared by a key: two
    samples may be distinct and yet compare equal, as the two zeros of a double do. */
module Latency {
  ghost predicate Ordered<T>(s: seq<T>, key: T -> real) {
    forall i, j :: 0 <= i < j < |s| ==> key(s[i]) <= key(s[j])
  }

  // ---- the exchange sort -------------------------------------------------------------

  function Swapped<T>(s: seq<T>, i: nat, j: nat): seq<T>
    requires i < |s| && j < |s|
  {
    s[i := s[j]][j := s[i]]
  }

  lemma SwapPermutes<T>(s: seq<T>, i: nat, j: nat)
    requires i < j < |s|
    ensures multiset(Swapped(s, i, j)) == multiset(s)
    ensures multiset(Swapped(s, i, j)[i..]) == multiset(s[i..])
    ensures Swapped(s, i, j)[..i] == s[..i]
  {
    var t := Swapped(s, i, j);
    FivePieces(s, i, j);
    FivePieces(t, i, j);
    assert t[..i] == s[..i] && t[i + 1..j] == s[i + 1..j] && t[j + 1..] == s[j + 1..];
  }

  lemma FivePieces<T>(s: seq<T>, i: nat, j: nat)
    requires i < j < |s|
    ensures multiset(s) == multiset(s[..i]) + multiset{s[i]} + multiset(s[i + 1..j]) + multiset{s[j]} + multiset(s[j + 1..])
    ensures multiset(s[i..]) == multiset{s[i]} + multiset(s[i + 1..j]) + multiset{s[j]} + multiset(s[j + 1..])
  {
    var rest := s[i..];
    assert rest == [s[i]] + (s[i + 1..j] + ([s[j]] + s[j + 1..]));
    assert s == s[..i] + rest;
  }

  method Exchange<T>(a: array<T>, i: nat, j: nat)
    requires i < j < a.Length
    modifies a
    ensures a[..] == Swapped(old(a[..]), i, j)
  {
    var tmp := a[i];
    a[i] := a[j];
    a[j] := tmp;
  }

  /** The samples from i on were permuted, those before left alone. */
  ghost predicate Rearranged<T>(was: seq<T>, now: seq<T>, i: nat) {
    |was| == |now| && i <= |was| && now[..i] == was[..i] && multiset(now[i..]) == multiset(was[i..])
  }

  /** Sample i is least up to j. */
  ghost predicate Least<T>(s: seq<T>, i: nat, j: nat, key: T -> real) {
    i < j <= |s| && forall k :: i < k < j ==> key(s[i]) <= key(s[k])
  }

  lemma SwapRearranges<T>(was: seq<T>, now: seq<T>, i: nat, j: nat)
    requires Rearranged(was, now, i) && i < j < |now|
    ensures Rearranged(was, Swapped(now, i, j), i)
  {
    SwapPermutes(now, i, j);
  }

  lemma LeastGoesOn<T>(s: seq<T>, i: nat, j: nat, key: T -> real)
    requires Least(s, i, j, key) && j < |s|
    ensures Least(if key(s[j]) < key(s[i]) then Swapped(s, i, j) else s, i, j + 1, key)
  {
  }

  /** The inner loop: exchanges until position i holds a minimum of the rest. */
  method SettleMinimum<T>(a: array<T>, i: nat, key: T -> real)
    requires i < a.Length
    modifies a
    ensures a[..][..i] == old(a[..])[..i]
    ensures multiset(a[..][i..]) == multiset(old(a[..])[i..])
    ensures forall k :: i < k < a.Length ==> key(a[i]) <= key(a[k])
  {
    ghost var was := a[..];
    assert Rearranged(was, a[..], i) && Least(a[..], i, i + 1, key);
    RearrangeToLeast(a, i, key, was);
    ghost var now := a[..];
    assert Rearranged(was, now, i) && Least(now, i, a.Length, key);
    forall k | i < k < a.Length ensures key(a[i]) <= key(a[k]) {
      assert now[i] == a[i] && now[k] == a[k];
    }
  }

  /** The loop itself. */
  method RearrangeToLeast<T>(a: array<T>, i: nat, key: T -> real, ghost was: seq<T>)
    requires Rearranged(was, a[..], i) && Least(a[..], i, i + 1, key)
    modifies a
    ensures Rearranged(was, a[..], i) && Least(a[..], i, a.Length, key)
  {
    hide Rearranged, Swapped;
    var j := i + 1;
    while j < a.Length
      invariant i < j <= a.Length
      invariant Rearranged(was, a[..], i) && Least(a[..], i, j, key)
    {
      ghost var now := a[..];
      LeastGoesOn(now, i, j, key);
      if key(a[j]) < key(a[i]) {
        SwapRearranges(was, now, i, j);
        Exchange(a, i, j);
      }
      j := j + 1;
    }
  }

  /** The first i samples are in order and none exceeds a later one. */
  ghost predicate Settled<T>(s: seq<T>, i: nat, key: T -> real) {
    forall k, l :: 0 <= k < i && k < l < |s| ==> key(s[k]) <= key(s[l])
  }

  lemma SettleOneMore<T>(was: seq<T>, now: seq<T>, i: nat, key: T -> real)
    requires i < |was| == |now| && Settled(was, i, key)
    requires now[..i] == was[..i] && multiset(now[i..]) == multiset(was[i..])
    requires forall k :: i < k < |now| ==> key(now[i]) <= key(now[k])
    ensures Settled(now, i + 1, key)
  {
    forall k, l | 0 <= k < i + 1 && k < l < |now| ensures key(now[k]) <= key(now[l]) {
      if k < i {
        assert now[k] == now[..i][k] && was[k] == was[..i][k];
        if l < i {
          assert now[l] == now[..i][l] && was[l] == was[..i][l];
        } else {
          assert now[l] == now[i..][l - i];
          assert now[l] in multiset(was[i..]);
          var m :| 0 <= m < |was[i..]| && was[i..][m] == now[l];
          assert was[i + m] == now[l];
        }
      }
    }
  }

  method ExchangeSort<T>(a: array<T>, key: T -> real)
    modifies a
    ensures Ordered(a[..], key)
    ensures multiset(a[..]) == multiset(old(a[..]))
  {
    var i := 0;
    while i < a.Length - 1
      invariant 0 <= i && (i <= a.Length - 1 || i == 0)
      invariant Settled(a[..], i, key)
      invariant multiset(a[..]) == multiset(old(a[..]))
    {
      ghost var was := a[..];
      SettleMinimum(a, i, key);
      SettleOneMore(was, a[..], i, key);
      assert was == was[..i] + was[i..] && a[..] == a[..][..i] + a[..][i..];
      i := i + 1;
    }
  }

  /** One ordered permutation. */
  function Sorted<T>(s: seq<T>, key: T -> real): (t: seq<T>)
    ensures |t| == |s| && multiset(t) == multiset(s) && Ordered(t, key)
  {
    if s == [] then []
    else
      assert s == [s[0]] + s[1..];
      Insert(Sorted(s[1..], key), s[0], key)
  }

  function Insert<T>(s: seq<T>, x: T, key: T -> real): (t: seq<T>)
    requires Ordered(s, key)
    ensures |t| == |s| + 1 && multiset(t) == multiset(s) + multiset{x} && Ordered(t, key)
  {
    if s == [] then [x]
    else if key(x) <= key(s[0]) then [x] + s
    else
      assert s == [s[0]] + s[1..];
      var rest := Insert(s[1..], x, key);
      InsertKeepsFirst(s, rest, x, key);
      [s[0]] + rest
  }

  /** A library sort: some ordered permutation. How it places samples that compare equal is not
      promised, so two calls on the same samples need not return the same. */
  method LibrarySort<T>(s: seq<T>, key: T -> real) returns (t: seq<T>)
    ensures Ordered(t, key) && multiset(t) == multiset(s)
  {
    t := Sorted(s, key);
  }

  lemma InsertKeepsFirst<T>(s: seq<T>, rest: seq<T>, x: T, key: T -> real)
    requires s != [] && Ordered(s, key) && key(s[0]) <= key(x)
    requires multiset(rest) == multiset(s[1..]) + multiset{x}
    ensures forall i :: 0 <= i < |rest| ==> key(s[0]) <= key(rest[i])
  {
    forall i | 0 <= i < |rest| ensures key(s[0]) <= key(rest[i]) {
      assert rest[i] in multiset(rest);
      if rest[i] != x {
        assert rest[i] in s[1..];
        var m :| 0 <= m < |s[1..]| && s[1..][m] == rest[i];
        assert s[m + 1] == rest[i];
      }
    }
  }

  // ---- the result does not depend on the sort ------------------------------------------

  function Keys<T>(s: seq<T>, key: T -> real): (r: seq<real>)
    ensures |r| == |s|
  {
    seq(|s|, i requires 0 <= i < |s| => key(s[i]))
  }

  lemma {:induction false} KeysOfPermutation<T>(s: seq<T>, t: seq<T>, key: T -> real)
    requires multiset(s) == multiset(t)
    ensures multiset(Keys(s, key)) == multiset(Keys(t, key))
    decreases |s|
  {
    if s == [] {
      assert |multiset(t)| == 0;
      assert t == [];
    } else {
      var x := s[0];
      assert s == [x] + s[1..];
      assert x in multiset(t);
      var j :| 0 <= j < |t| && t[j] == x;
      var rest := t[..j] + t[j + 1..];
      Without(s, 0);
      Without(t, j);
      assert s[..0] + s[1..] == s[1..];
      KeysOfPermutation(s[1..], rest, key);
      KeysSplit(s, 0, key);
      KeysSplit(t, j, key);
    }
  }

  lemma Without<T>(t: seq<T>, j: nat)
    requires j < |t|
    ensures multiset(t[..j] + t[j + 1..]) == multiset(t) - multiset{t[j]}
  {
    assert t == t[..j] + [t[j]] + t[j + 1..];
  }

  lemma KeysSplit<T>(t: seq<T>, j: nat, key: T -> real)
    requires j < |t|
    ensures multiset(Keys(t, key)) == multiset(Keys(t[..j] + t[j + 1..], key)) + multiset{key(t[j])}
  {
    var k := Keys(t, key);
    assert k == k[..j] + [k[j]] + k[j + 1..];
    assert Keys(t[..j] + t[j + 1..], key) == k[..j] + k[j + 1..];
  }

  ghost predicate Ascends(s: seq<real>) {
    forall i, j :: 0 <= i < j < |s| ==> s[i] <= s[j]
  }

  lemma {:induction false} AscendingIsUnique(s: seq<real>, t: seq<real>)
    requires Ascends(s) && Ascends(t) && multiset(s) == multiset(t)
    ensures s == t
    decreases |s|
  {
    assert |multiset(t)| == |multiset(s)|;
    if s != [] {
      hide Ascends;
      FirstIsLeast(s, t);
      FirstIsLeast(t, s);
      Tail(s);
      Tail(t);
      TailAscends(s);
      TailAscends(t);
      AscendingIsUnique(s[1..], t[1..]);
      assert s == [s[0]] + s[1..] && t == [t[0]] + t[1..];
    }
  }

  lemma FirstIsLeast(s: seq<real>, t: seq<real>)
    requires s != [] && t != [] && multiset(s) == multiset(t) && Ascends(s)
    ensures s[0] <= t[0]
  {
    assert t[0] in multiset(s);
    var i :| 0 <= i < |s| && s[i] == t[0];
  }

  lemma Tail(s: seq<real>)
    requires s != []
    ensures multiset(s[1..]) == multiset(s) - multiset{s[0]}
  {
    Without(s, 0);
    assert s[..0] + s[1..] == s[1..];
  }

  lemma TailAscends(s: seq<real>)
    requires s != [] && Ascends(s)
    ensures Ascends(s[1..])
  {
  }

  /** Any two sorts of the same samples agree in value at every position. */
  lemma SortsAgree<T>(s: seq<T>, t: seq<T>, key: T -> real)
    requires Ordered(s, key) && Ordered(t, key) && multiset(s) == multiset(t)
    ensures |s| == |t| && forall i :: 0 <= i < |s| ==> key(s[i]) == key(t[i])
  {
    KeysOfPermutation(s, t, key);
    AscendingIsUnique(Keys(s, key), Keys(t, key));
    forall i | 0 <= i < |s| ensures i < |t| && key(s[i]) == key(t[i]) {
      assert Keys(s, key)[i] == Keys(t, key)[i];
    }
  }

  // ---- percentile positions ----------------------------------------------------------------

  /** The Go nearest rank position, a conversion to integer of a non-negative number. */
  function NearestIndex(n: nat, percentile: real): int
    requires n > 0
  {
    (percentile / 100.0 * (n - 1) as real + 0.5).Floor
  }

  /** The offline position, in integers. */
  function OfflineIndex(n: nat, percentile: nat): nat {
    n * percentile / 100
  }

  /** The fixture's position, clamped to the last sample. */
  function FixtureIndex(n: nat, percentile: real): int
    requires n > 0
  {
    var index := NearestIndex(n, percentile);
    if index < n then index else n - 1
  }

  lemma NearestInIntegers(n: nat, p: nat)
    requires n > 0
    ensures NearestIndex(n, p as real) == (p * (n - 1) + 50) / 100
  {
    var m := p * (n - 1);
    var x := p as real / 100.0 * (n - 1) as real + 0.5;
    assert p as real * (n - 1) as real == m as real by {
      ProductOfReals(p, n - 1);
    }
    assert p as real / 100.0 * (n - 1) as real == (p as real * (n - 1) as real) / 100.0;
    assert x == (m + 50) as real / 100.0;
    var k := (m + 50) / 100;
    assert k as real * 100.0 <= (m + 50) as real < (k + 1) as real * 100.0;
    assert k as real <= x < (k + 1) as real;
  }

  lemma {:induction false} ProductOfReals(a: nat, b: nat)
    ensures a as real * b as real == (a * b) as real
  {
    if b > 0 {
      ProductOfReals(a, b - 1);
      assert a * b == a * (b - 1) + a;
      assert b as real == (b - 1) as real + 1.0;
      assert a as real * b as real == a as real * (b - 1) as real + a as real;
    }
  }

  /** Every position is inside the samples; the fixture's clamp never acts. */
  lemma PositionsInRange(n: nat, p: nat)
    requires n > 0 && p < 100
    ensures 0 <= NearestIndex(n, p as real) < n && 0 <= OfflineIndex(n, p) < n
    ensures FixtureIndex(n, p as real) == NearestIndex(n, p as real)
  {
    hide NearestIndex;
    NearestInIntegers(n, p);
    Products(n, p);
    QuotientInRange(n, p * (n - 1), p);
  }

  lemma Products(n: nat, p: nat)
    requires n > 0
    ensures 0 <= p * (n - 1) && n * p == p * (n - 1) + p
    ensures p < 100 ==> p * (n - 1) <= 99 * (n - 1)
  {
  }

  lemma QuotientInRange(n: nat, m: nat, p: nat)
    requires n > 0 && p < 100 && m <= 99 * (n - 1)
    ensures 0 <= (m + 50) / 100 < n && 0 <= (m + p) / 100 < n
  {
  }

  /** From the median upwards the online position is the offline one or the one before it;
      at the median they are the same. */
  lemma OnlineAgainstOffline(n: nat, p: nat)
    requires n > 0 && 50 <= p < 100
    ensures OfflineIndex(n, p) - 1 <= NearestIndex(n, p as real) <= OfflineIndex(n, p)
    ensures p == 50 ==> NearestIndex(n, p as real) == OfflineIndex(n, p)
  {
    hide NearestIndex;
    NearestInIntegers(n, p);
    Products(n, p);
  }

  /** They differ exactly when the remainder of n * p by 100 is below p - 50. */
  lemma OnlineEqualsOffline(n: nat, p: nat)
    requires n > 0 && 50 <= p < 100
    ensures NearestIndex(n, p as real) == OfflineIndex(n, p) <==> n * p % 100 >= p - 50
  {
    hide NearestIndex;
    NearestInIntegers(n, p);
    Products(n, p);
  }

  /** Twenty samples have different 95th positions. */
  lemma PositionsDiffer()
    ensures NearestIndex(20, 95.0) == 18 && OfflineIndex(20, 95) == 19
  {
    NearestInIntegers(20, 95);
  }

  lemma IndexGrows(n: nat, p: nat, q: nat)
    requires n > 0 && p <= q < 100
    ensures NearestIndex(n, p as real) <= NearestIndex(n, q as real)
    ensures OfflineIndex(n, p) <= OfflineIndex(n, q)
  {
    hide NearestIndex;
    NearestInIntegers(n, p);
    NearestInIntegers(n, q);
    ProductGrows(p, q, n - 1);
    ProductGrows(p, q, n);
    QuotientGrows(p * (n - 1) + 50, q * (n - 1) + 50);
    QuotientGrows(n * p, n * q);
  }

  lemma ProductGrows(p: nat, q: nat, k: nat)
    requires p <= q
    ensures p * k <= q * k && k * p <= k * q
  {
  }

  lemma QuotientGrows(a: nat, b: nat)
    requires a <= b
    ensures a / 100 <= b / 100
  {
  }

  // ---- summaries -----------------------------------------------------------------------------

  datatype Summary<T> = Summary(p50: T, p95: T, p99: T, min: T, max: T)

  function Online<T>(sorted: seq<T>): Summary<T>
    requires sorted != []
  {
    PositionsInRange(|sorted|, 50);
    PositionsInRange(|sorted|, 95);
    PositionsInRange(|sorted|, 99);
    Summary(sorted[NearestIndex(|sorted|, 50.0)], sorted[NearestIndex(|sorted|, 95.0)],
            sorted[NearestIndex(|sorted|, 99.0)], sorted[0], sorted[|sorted| - 1])
  }

  function Offline<T>(sorted: seq<T>): Summary<T>
    requires sorted != []
  {
    PositionsInRange(|sorted|, 50);
    PositionsInRange(|sorted|, 95);
    PositionsInRange(|sorted|, 99);
    Summary(sorted[OfflineIndex(|sorted|, 50)], sorted[OfflineIndex(|sorted|, 95)],
            sorted[OfflineIndex(|sorted|, 99)], sorted[0], sorted[|sorted| - 1])
  }

  ghost predicate Ascending<T>(s: Summary<T>, key: T -> real) {
    key(s.min) <= key(s.p50) <= key(s.p95) <= key(s.p99) <= key(s.max)
  }

  /** Both summaries ascend, the offline percentiles are never below the online ones, and the
      medians, minima and maxima are the same. */
  lemma SummariesCompare<T>(sorted: seq<T>, key: T -> real)
    requires sorted != [] && Ordered(sorted, key)
    ensures Ascending(Online(sorted), key) && Ascending(Offline(sorted), key)
    ensures var on, off := Online(sorted), Offline(sorted);
      && key(on.p95) <= key(off.p95) && key(on.p99) <= key(off.p99)
      && on.p50 == off.p50 && on.min == off.min && on.max == off.max
  {
    hide NearestIndex, OfflineIndex;
    var n := |sorted|;
    PositionsInRange(n, 50);
    PositionsInRange(n, 95);
    PositionsInRange(n, 99);
    IndexGrows(n, 50, 95);
    IndexGrows(n, 95, 99);
    OnlineAgainstOffline(n, 50);
    OnlineAgainstOffline(n, 95);
    OnlineAgainstOffline(n, 99);
    OrderedAt(sorted, key);
  }

  /** x is read at the position nearest to the p-th percentile of the way from the first sample to
      the last: half a step off at most. */
  ghost predicate IsNearest<T>(sorted: seq<T>, p: nat, x: T) {
    exists i :: 0 <= i < |sorted| && sorted[i] == x && -50 <= p * (|sorted| - 1) - 100 * i < 50
  }

  /** x is read behind the first p percent of the samples. */
  ghost predicate IsBehind<T>(sorted: seq<T>, p: nat, x: T) {
    exists i :: 0 <= i < |sorted| && sorted[i] == x && 100 * i <= p * |sorted| < 100 * (i + 1)
  }

  /** Each online figure is the nearest rank of its own percentile, and the extremes are the ends. */
  lemma OnlinePercentiles<T>(sorted: seq<T>)
    requires sorted != []
    ensures var s := Online(sorted);
      && IsNearest(sorted, 50, s.p50) && IsNearest(sorted, 95, s.p95) && IsNearest(sorted, 99, s.p99)
      && s.min == sorted[0] && s.max == sorted[|sorted| - 1]
  {
    hide NearestIndex;
    NearestIsNearest(sorted, 50);
    NearestIsNearest(sorted, 95);
    NearestIsNearest(sorted, 99);
  }

  lemma NearestIsNearest<T>(sorted: seq<T>, p: nat)
    requires sorted != [] && p < 100
    ensures 0 <= NearestIndex(|sorted|, p as real) < |sorted|
    ensures IsNearest(sorted, p, sorted[NearestIndex(|sorted|, p as real)])
  {
    hide NearestIndex;
    var n := |sorted|;
    PositionsInRange(n, p);
    NearestInIntegers(n, p);
    var i := NearestIndex(n, p as real);
    assert sorted[i] == sorted[i] && -50 <= p * (n - 1) - 100 * i < 50;
  }

  /** Each offline figure stands behind its own percentage of the samples. */
  lemma OfflinePercentiles<T>(sorted: seq<T>)
    requires sorted != []
    ensures var s := Offline(sorted);
      && IsBehind(sorted, 50, s.p50) && IsBehind(sorted, 95, s.p95) && IsBehind(sorted, 99, s.p99)
      && s.min == sorted[0] && s.max == sorted[|sorted| - 1]
  {
    OfflineIsBehind(sorted, 50);
    OfflineIsBehind(sorted, 95);
    OfflineIsBehind(sorted, 99);
  }

  lemma OfflineIsBehind<T>(sorted: seq<T>, p: nat)
    requires sorted != [] && p < 100
    ensures OfflineIndex(|sorted|, p) < |sorted| && IsBehind(sorted, p, sorted[OfflineIndex(|sorted|, p)])
  {
    var n := |sorted|;
    PositionsInRange(n, p);
    var i := OfflineIndex(n, p);
    assert sorted[i] == sorted[i] && 100 * i <= p * n < 100 * (i + 1);
  }

  lemma OrderedAt<T>(s: seq<T>, key: T -> real)
    requires Ordered(s, key)
    ensures forall i, j :: 0 <= i <= j < |s| ==> key(s[i]) <= key(s[j])
  {
  }

  /** The extremes are the extremes of the samples, and every figure is one of the samples. */
  lemma SummaryOfSamples<T>(samples: seq<T>, key: T -> real)
    requires samples != []
    ensures var s := Offline(Sorted(samples, key));
      && (forall x :: x in samples ==> key(s.min) <= key(x) <= key(s.max))
      && s.p50 in samples && s.p95 in samples && s.p99 in samples && s.min in samples && s.max in samples
  {
    hide OfflineIndex;
    var t := Sorted(samples, key);
    PositionsInRange(|t|, 50);
    PositionsInRange(|t|, 95);
    PositionsInRange(|t|, 99);
    OrderedAt(t, key);
    forall x | x in samples ensures key(t[0]) <= key(x) <= key(t[|t| - 1]) {
      assert x in multiset(t);
      var i :| 0 <= i < |t| && t[i] == x;
    }
    forall i | 0 <= i < |t| ensures t[i] in samples {
      assert t[i] in multiset(samples);
    }
  }

  function Identity(x: real): real {
    x
  }

  lemma SortedReals(s: seq<real>, samples: seq<real>)
    requires Ordered(s, Identity) && multiset(s) == multiset(samples)
    ensures s == Sorted(samples, Identity)
  {
    SortsAgree(s, Sorted(samples, Identity), Identity);
  }

  datatype LatencyOut = LatencyOut(queries: int, summary: Summary<real>)

  const ZEROES := Summary(0.0, 0.0, 0.0, 0.0, 0.0)

  /** mem_eval_latency_finalize: sorts a copy of the samples and reads its percentiles off;
      without samples or without memory every figure stays zero. */
  method LatencyFinalize(samples: array?<real>, n: int, hasMemory: bool) returns (out: LatencyOut)
    requires samples != null && n > 0 ==> n <= samples.Length
    ensures out.queries == n
    ensures samples != null && n > 0 && hasMemory ==> out.summary == Offline(Sorted(samples[..n], Identity))
    ensures samples == null || n <= 0 || !hasMemory ==> out.summary == ZEROES
  {
    hide Sorted, Ordered, NearestIndex;
    out := LatencyOut(n, ZEROES);
    if samples == null || n <= 0 || !hasMemory {
      return;
    }
    var sorted := new real[n];
    for i := 0 to n
      invariant sorted[..i] == samples[..i]
    {
      sorted[i] := samples[i];
    }
    assert sorted[..] == samples[..n];
    ExchangeSort(sorted, Identity);
    SortedReals(sorted[..], samples[..n]);
    PositionsInRange(n, 50);
    PositionsInRange(n, 95);
    PositionsInRange(n, 99);
    out := LatencyOut(n, Summary(sorted[n * 50 / 100], sorted[n * 95 / 100], sorted[n * 99 / 100],
                                 sorted[0], sorted[n - 1]));
  }

  /** The growing array behind append_latency_sample
      (src/modules/benchmarks/agent_eval_memory_support.c). */
  class SampleBuffer {
    var samples: array?<real>
    var count: nat
    var cap: nat

    ghost predicate Valid()
      reads this
    {
      count <= cap && (if samples == null then cap == 0 else samples.Length == cap)
    }

    ghost function Contents(): seq<real>
      requires Valid()
      reads this, samples
    {
      if samples == null then [] else samples[..count]
    }

    constructor ()
      ensures Valid() && Contents() == []
    {
      samples := null;
      count := 0;
      cap := 0;
    }

    /** Appends one sample, doubling the storage when it is full; when no larger block is to
        be had (grows is false) it reports failure and nothing has changed. */
    method Append(value: real, grows: bool) returns (code: int)
      requires Valid()
      modifies this, samples
      ensures Valid() && (samples == old(samples) || fresh(samples))
      ensures code == 0 <==> old(count) < old(cap) || grows
      ensures code == 0 ==> Contents() == old(Contents()) + [value]
      ensures code != 0 ==> code == -1 && Contents() == old(Contents()) && cap == old(cap)
      ensures code == 0 ==> cap == if old(count) < old(cap) then old(cap) else if old(cap) == 0 then 128 else 2 * old(cap)
    {
      if count >= cap {
        var newCap := if cap == 0 then 128 else cap * 2;
        if !grows {
          return -1;
        }
        var grown := new real[newCap];
        for i := 0 to count
          invariant Valid() && samples == old(samples) && count == old(count) && cap == old(cap)
          invariant samples != null ==> grown[..i] == samples[..i] && samples[..] == old(samples[..])
          invariant count > 0 ==> samples != null
        {
          grown[i] := samples[i];
        }
        samples, cap := grown, newCap;
      }
      samples[count] := value;
      count := count + 1;
      return 0;
    }
  }
}
