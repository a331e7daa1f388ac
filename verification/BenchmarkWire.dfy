/** The wire records of the benchmarks process, shared by its Go handler
    (server-go/modules/benchmarks/benchmarks.go) and the C side
    (src/modules/benchmarks/include/aimee/benchmarks/module_api.h). */
module BenchmarkWire {
  import opened LittleEndian
  import opened WordLists
  import opened Wrappers

  const REQUEST_MAGIC: u32 := 0x51524942
  const RESPONSE_MAGIC: u32 := 0x53524942
  const LATENCY_REQUEST_MAGIC: u32 := 0x51524c42
  const LATENCY_RESPONSE_MAGIC: u32 := 0x53524c42
  const WIRE_VERSION: u32 := 1
  const MAX_RESULTS: nat := 32
  const MAX_LATENCIES: nat := 512
  const REQUEST_LEN: nat := 536
  const RETRIEVED_OFF: nat := 24
  const RELEVANT_OFF: nat := 280
  const RESPONSE_LEN: nat := 32
  const LATENCY_REQUEST_LEN: nat := 4112
  const VALUES_OFF: nat := 16
  const LATENCY_RESPONSE_LEN: nat := 56

  // ---- integers and doubles as words ---------------------------------------------------

  type i64 = x: int | -0x8000_0000_0000_0000 <= x < 0x8000_0000_0000_0000

  /** Conversion between signed and unsigned words of the same bits. */
  function Unsigned(x: i64): u64 {
    if x < 0 then x + TWO_64 else x
  }

  function Signed(u: u64): i64 {
    if u < 0x8000_0000_0000_0000 then u else u - TWO_64
  }

  function UnsignedAll(xs: seq<i64>): (us: seq<u64>)
    ensures |us| == |xs|
  {
    seq(|xs|, i requires 0 <= i < |xs| => Unsigned(xs[i]))
  }

  function SignedAll(us: seq<u64>): (xs: seq<i64>)
    ensures |xs| == |us|
  {
    seq(|us|, i requires 0 <= i < |us| => Signed(us[i]))
  }

  lemma SignedIsUnsigned(us: seq<u64>, xs: seq<i64>)
    ensures SignedAll(us) == xs <==> us == UnsignedAll(xs)
  {
    if SignedAll(us) == xs {
      assert forall i :: 0 <= i < |us| ==> SignedAll(us)[i] == Signed(us[i]);
      assert us == UnsignedAll(xs);
    }
    if us == UnsignedAll(xs) {
      assert forall i :: 0 <= i < |us| ==> UnsignedAll(xs)[i] == Unsigned(xs[i]);
      assert SignedAll(us) == xs;
    }
  }

  /** The fields of a double, from its bits. */
  predicate Negative(bits: u64) {
    bits >= 0x8000_0000_0000_0000
  }

  function Magnitude(bits: u64): (m: nat)
    ensures m < 0x8000_0000_0000_0000
  {
    if Negative(bits) then bits - 0x8000_0000_0000_0000 else bits
  }

  function Exponent(bits: u64): nat {
    Magnitude(bits) / 0x10_0000_0000_0000
  }

  predicate IsNaN(bits: u64) {
    Exponent(bits) == 0x7FF && Magnitude(bits) % 0x10_0000_0000_0000 != 0
  }

  predicate IsInf(bits: u64) {
    Exponent(bits) == 0x7FF && Magnitude(bits) % 0x10_0000_0000_0000 == 0
  }

  /** Comparison with zero; the two zeros are equal and NaN compares false. */
  predicate BelowZero(bits: u64) {
    !IsNaN(bits) && Negative(bits) && Magnitude(bits) != 0
  }

  predicate AtLeastZero(bits: u64) {
    !IsNaN(bits) && (!Negative(bits) || Magnitude(bits) == 0)
  }

  /** The Go handler's acceptance of a latency. */
  predicate GoAccepts(bits: u64) {
    !(IsNaN(bits) || IsInf(bits) || BelowZero(bits))
  }

  /** The C header's acceptance of a latency. */
  predicate LatencyValid(bits: u64) {
    (!IsNaN(bits) && !IsInf(bits)) && AtLeastZero(bits)
  }

  /** The order of non-negative doubles is the order of their magnitudes. */
  function Key(bits: u64): real {
    Magnitude(bits) as real
  }

  /** Both sides take the same latencies: the patterns below that of infinity, and minus zero. */
  lemma AcceptanceAgrees(bits: u64)
    ensures GoAccepts(bits) <==> LatencyValid(bits)
    ensures LatencyValid(bits) <==> bits < 0x7FF0_0000_0000_0000 || bits == 0x8000_0000_0000_0000
  {
  }

  // ---- headers ---------------------------------------------------------------------------

  lemma {:induction false} HeaderIs(b: seq<byte>, ws: seq<u32>)
    requires 4 * |ws| <= |b|
    ensures b[..4 * |ws|] == Words4(ws) <==> forall i :: 0 <= i < |ws| ==> U32At(b, 4 * i) == ws[i]
  {
    hide Words4, Read4, GetAt, Get;
    var n := |ws|;
    var front := b[..4 * n];
    ReadPrefix4(front, b, n);
    ReadOfWords4(ws, []);
    WordsOfRead4(front, n);
    assert Words4(ws) + [] == Words4(ws);
    forall i: nat | i < n ensures Read4(b, n)[i] == U32At(b, 4 * i) {
      Read4At(b, n, i);
    }
    if forall i :: 0 <= i < n ==> U32At(b, 4 * i) == ws[i] {
      assert Read4(b, n) == ws;
    }
  }

  // ---- score requests ----------------------------------------------------------------------

  datatype ScoreRequest = ScoreRequest(k: u32, retrieved: seq<i64>, relevant: seq<i64>)
  {
    predicate Valid() {
      1 <= k <= MAX_RESULTS && |retrieved| <= MAX_RESULTS && |relevant| <= MAX_RESULTS
    }
  }

  function ScoreHeader(k: u32, retrieved: u32, relevant: u32): seq<u32> {
    [REQUEST_MAGIC, WIRE_VERSION, k, retrieved, relevant, 0]
  }

  function ScoreBytes(q: ScoreRequest): (b: seq<byte>)
    requires q.Valid()
    ensures |b| == REQUEST_LEN
  {
    Words4(ScoreHeader(q.k, |q.retrieved|, |q.relevant|))
    + Block(UnsignedAll(q.retrieved), MAX_RESULTS) + Block(UnsignedAll(q.relevant), MAX_RESULTS)
  }

  predicate ScoreHeaderAccepted(b: seq<byte>) {
    && |b| == REQUEST_LEN && U32At(b, 0) == REQUEST_MAGIC && U32At(b, 4) == WIRE_VERSION
    && 1 <= U32At(b, 8) <= MAX_RESULTS && U32At(b, 12) <= MAX_RESULTS && U32At(b, 16) <= MAX_RESULTS
    && U32At(b, 20) == 0
  }

  function DecodeScore(b: seq<byte>): Option<ScoreRequest> {
    if !ScoreHeaderAccepted(b) then None
    else
      var nr, ng := U32At(b, 12), U32At(b, 16);
      if !AllZero(b[RETRIEVED_OFF + 8 * nr..RELEVANT_OFF]) || !AllZero(b[RELEVANT_OFF + 8 * ng..]) then None
      else Some(ScoreRequest(U32At(b, 8), SignedAll(Read8(b[RETRIEVED_OFF..RELEVANT_OFF], nr)),
                             SignedAll(Read8(b[RELEVANT_OFF..], ng))))
  }

  /** A record is its three sections. */
  lemma ScoreSections(b: seq<byte>, q: ScoreRequest)
    requires q.Valid() && |b| == REQUEST_LEN
    ensures b == ScoreBytes(q) <==>
      && b[..RETRIEVED_OFF] == Words4(ScoreHeader(q.k, |q.retrieved|, |q.relevant|))
      && b[RETRIEVED_OFF..RELEVANT_OFF] == Block(UnsignedAll(q.retrieved), MAX_RESULTS)
      && b[RELEVANT_OFF..] == Block(UnsignedAll(q.relevant), MAX_RESULTS)
  {
    hide Words4, Block;
    assert b == b[..RETRIEVED_OFF] + b[RETRIEVED_OFF..RELEVANT_OFF] + b[RELEVANT_OFF..];
  }

  /** A byte string is accepted as a request exactly when it is that request's encoding: the
      counts, the reserved word and the padding leave no second form. */
  lemma ScoreRequestsRoundTrip(b: seq<byte>, q: ScoreRequest)
    ensures DecodeScore(b) == Some(q) <==> q.Valid() && b == ScoreBytes(q)
  {
    hide Words4, Block, Read8, GetAt, UnsignedAll, SignedAll, AllZero;
    if |b| == REQUEST_LEN && q.Valid() {
      var nr, ng := |q.retrieved|, |q.relevant|;
      var ws := ScoreHeader(q.k, nr, ng);
      ScoreSections(b, q);
      HeaderIs(b, ws);
      ScoreFields(b, q.k, nr, ng);
      var r, g := b[RETRIEVED_OFF..RELEVANT_OFF], b[RELEVANT_OFF..];
      BlockIsUnique(UnsignedAll(q.retrieved), MAX_RESULTS, r);
      BlockIsUnique(UnsignedAll(q.relevant), MAX_RESULTS, g);
      SignedIsUnsigned(Read8(r, nr), q.retrieved);
      SignedIsUnsigned(Read8(g, ng), q.relevant);
      assert r[8 * nr..] == b[RETRIEVED_OFF + 8 * nr..RELEVANT_OFF];
      assert g[8 * ng..] == b[RELEVANT_OFF + 8 * ng..];
    }
  }

  lemma ScoreFields(b: seq<byte>, k: u32, nr: u32, ng: u32)
    requires |b| == REQUEST_LEN
    ensures (forall i :: 0 <= i < 6 ==> U32At(b, 4 * i) == ScoreHeader(k, nr, ng)[i]) <==>
      && U32At(b, 0) == REQUEST_MAGIC && U32At(b, 4) == WIRE_VERSION && U32At(b, 8) == k
      && U32At(b, 12) == nr && U32At(b, 16) == ng && U32At(b, 20) == 0
  {
    hide GetAt;
    var ws := ScoreHeader(k, nr, ng);
    if forall i :: 0 <= i < 6 ==> U32At(b, 4 * i) == ws[i] {
      assert U32At(b, 4 * 0) == ws[0] && U32At(b, 4 * 1) == ws[1] && U32At(b, 4 * 2) == ws[2];
      assert U32At(b, 4 * 3) == ws[3] && U32At(b, 4 * 4) == ws[4] && U32At(b, 4 * 5) == ws[5];
    }
  }

  /** aimee_benchmarks_request_encode: the whole record, or an error and an untouched buffer. */
  method EncodeScoreRequest(retrieved: seq<i64>, relevant: seq<i64>, k: u32, out: array<byte>) returns (code: int)
    modifies out
    ensures code == 0 <==> out.Length >= REQUEST_LEN && ScoreRequest(k, retrieved, relevant).Valid()
    ensures code == 0 ==>
      out[..] == ScoreBytes(ScoreRequest(k, retrieved, relevant)) + old(out[..])[REQUEST_LEN..]
    ensures code != 0 ==> code == -1 && out[..] == old(out[..])
  {
    hide Words4, Words8, Splice;
    if out.Length < REQUEST_LEN || k == 0 || k > MAX_RESULTS || |retrieved| > MAX_RESULTS || |relevant| > MAX_RESULTS {
      return -1;
    }
    ghost var was := out[..];
    Clear(out, REQUEST_LEN);
    var ws: seq<u32> := [REQUEST_MAGIC, WIRE_VERSION, k, |retrieved|, |relevant|];
    StoreHeader(out, ws);
    StoreWords(out, RETRIEVED_OFF, UnsignedAll(retrieved));
    StoreWords(out, RELEVANT_OFF, UnsignedAll(relevant));
    HeaderWithReserved(ws);
    assert ScoreHeader(k, |retrieved|, |relevant|) == ws + [0];
    ThreeSections(was[REQUEST_LEN..], Words4(ws), Words8(UnsignedAll(retrieved)), Words8(UnsignedAll(relevant)));
    return 0;
  }

  /** A cleared reserved word is a word of value 0. */
  lemma HeaderWithReserved(ws: seq<u32>)
    ensures Words4(ws + [0]) == Words4(ws) + Zeros(4)
  {
    hide Words4, Put;
    WordsOfAppend4(ws, 0);
    PutOfZero(4);
  }

  /** Three stores into a cleared record leave their bytes, zeros in between. */
  lemma ThreeSections(rest: seq<byte>, h: seq<byte>, r: seq<byte>, g: seq<byte>)
    requires |h| == 20 && |r| <= 256 && |g| <= 256
    ensures var s1 := Splice(Zeros(REQUEST_LEN) + rest, 0, h);
            var s2 := Splice(s1, RETRIEVED_OFF, r);
            Splice(s2, RELEVANT_OFF, g) == h + Zeros(4) + (r + Zeros(256 - |r|)) + (g + Zeros(256 - |g|)) + rest
  {
    hide Splice;
    var s0 := Zeros(REQUEST_LEN) + rest;
    var s1 := Splice(s0, 0, h);
    var s2 := Splice(s1, RETRIEVED_OFF, r);
    var s3 := Splice(s2, RELEVANT_OFF, g);
    var first, second := r + Zeros(256 - |r|), g + Zeros(256 - |g|);
    forall k: nat | k < |s0| ensures s3[k] == (h + Zeros(4) + first + second + rest)[k] {
      SpliceAt(s0, 0, h, k);
      SpliceAt(s1, RETRIEVED_OFF, r, k);
      SpliceAt(s2, RELEVANT_OFF, g, k);
    }
  }

  /** aimee_benchmarks_request_decode into two caller buffers, untouched on failure. */
  method DecodeScoreRequest(input: seq<byte>, retrieved: array<i64>, relevant: array<i64>)
    returns (code: int, nr: u32, ng: u32, k: u32)
    requires retrieved != relevant
    modifies retrieved, relevant
    ensures code == 0 <==>
      && DecodeScore(input).Some? && |DecodeScore(input).value.retrieved| <= retrieved.Length
      && |DecodeScore(input).value.relevant| <= relevant.Length
    ensures code == 0 ==>
      && nr <= retrieved.Length && ng <= relevant.Length
      && DecodeScore(input) == Some(ScoreRequest(k, retrieved[..nr], relevant[..ng]))
      && retrieved[nr..] == old(retrieved[..])[nr..] && relevant[ng..] == old(relevant[..])[ng..]
    ensures code != 0 ==> code == -1 && retrieved[..] == old(retrieved[..]) && relevant[..] == old(relevant[..])
  {
    hide GetAt, Read8, AllZero;
    code, nr, ng, k := -1, 0, 0, 0;
    if |input| != REQUEST_LEN || U32At(input, 0) != REQUEST_MAGIC || U32At(input, 4) != WIRE_VERSION
       || U32At(input, 8) == 0 || U32At(input, 8) > MAX_RESULTS || U32At(input, 12) > MAX_RESULTS
       || U32At(input, 16) > MAX_RESULTS || U32At(input, 20) != 0 {
      return;
    }
    var n, g := U32At(input, 12), U32At(input, 16);
    if (n > 0 && retrieved.Length < n) || (g > 0 && relevant.Length < g) {
      return;
    }
    var padded := ZeroPadding(input[RETRIEVED_OFF + n * 8..RETRIEVED_OFF + n * 8 + (MAX_RESULTS - n) * 8]);
    var padded' := ZeroPadding(input[RELEVANT_OFF + g * 8..RELEVANT_OFF + g * 8 + (MAX_RESULTS - g) * 8]);
    assert input[RELEVANT_OFF + g * 8..REQUEST_LEN] == input[RELEVANT_OFF + g * 8..];
    if !padded || !padded' {
      return;
    }
    LoadIds(input, RETRIEVED_OFF, n, retrieved);
    LoadIds(input, RELEVANT_OFF, g, relevant);
    ReadPrefix8(input[RETRIEVED_OFF..RELEVANT_OFF], input[RETRIEVED_OFF..], n);
    return 0, n, g, U32At(input, 8);
  }

  /** The loop that reads ids into a buffer. */
  method LoadIds(input: seq<byte>, off: nat, n: nat, a: array<i64>)
    requires off + 8 * n <= |input| && n <= a.Length
    modifies a
    ensures a[..n] == SignedAll(Read8(input[off..], n))
    ensures a[n..] == old(a[..])[n..]
  {
    hide GetAt, Read8;
    ReadAt(input, off, n);
    for i := 0 to n
      invariant forall j :: 0 <= j < i ==> a[j] == Signed(U64At(input, off + 8 * j))
      invariant a[n..] == old(a[..])[n..]
    {
      a[i] := Signed(U64At(input, off + 8 * i));
    }
  }

  /** The checks and loops of handleScore in Go: the same language, the same lists. */
  method ParseScoreRequest(request: seq<byte>) returns (r: Option<ScoreRequest>)
    ensures r == DecodeScore(request)
  {
    hide GetAt, Read8, AllZero;
    if |request| != REQUEST_LEN || U32At(request, 0) != REQUEST_MAGIC || U32At(request, 4) != WIRE_VERSION
       || U32At(request, 8) == 0 || U32At(request, 8) > MAX_RESULTS || U32At(request, 12) > MAX_RESULTS
       || U32At(request, 16) > MAX_RESULTS || U32At(request, 20) != 0 {
      return None;
    }
    var k, retrievedCount, relevantCount := U32At(request, 8), U32At(request, 12), U32At(request, 16);
    var padded := ZeroPadding(request[RETRIEVED_OFF + retrievedCount * 8..RELEVANT_OFF]);
    var padded' := ZeroPadding(request[RELEVANT_OFF + relevantCount * 8..]);
    if !padded || !padded' {
      return None;
    }
    var retrieved := SliceIds(request, RETRIEVED_OFF, retrievedCount);
    var relevant := SliceIds(request, RELEVANT_OFF, relevantCount);
    ReadPrefix8(request[RETRIEVED_OFF..RELEVANT_OFF], request[RETRIEVED_OFF..], retrievedCount);
    return Some(ScoreRequest(k, retrieved, relevant));
  }

  method SliceIds(request: seq<byte>, off: nat, n: nat) returns (ids: seq<i64>)
    requires off + 8 * n <= |request|
    ensures ids == SignedAll(Read8(request[off..], n))
  {
    hide GetAt, Read8;
    ReadAt(request, off, n);
    ids := [];
    for index := 0 to n
      invariant |ids| == index
      invariant forall j :: 0 <= j < index ==> ids[j] == Signed(U64At(request, off + 8 * j))
    {
      ids := ids + [Signed(U64At(request, off + 8 * index))];
    }
  }

  // ---- score responses ---------------------------------------------------------------------

  datatype Scores = Scores(mrr: u64, ndcg: u64, recall: u64)

  function ScoresBytes(s: Scores): (b: seq<byte>)
    ensures |b| == RESPONSE_LEN
  {
    Words4([RESPONSE_MAGIC, WIRE_VERSION]) + Words8([s.mrr, s.ndcg, s.recall])
  }

  /** aimee_benchmarks_response_decode; any bits are a score. */
  function DecodeScores(b: seq<byte>): Option<Scores> {
    if |b| != RESPONSE_LEN || U32At(b, 0) != RESPONSE_MAGIC || U32At(b, 4) != WIRE_VERSION then None
    else Some(Scores(U64At(b, 8), U64At(b, 16), U64At(b, 24)))
  }

  lemma ScoresRoundTrip(b: seq<byte>, s: Scores)
    ensures DecodeScores(b) == Some(s) <==> b == ScoresBytes(s)
  {
    hide Words4, Words8, Read8, GetAt;
    if |b| == RESPONSE_LEN {
      var ws: seq<u32> := [RESPONSE_MAGIC, WIRE_VERSION];
      var xs := [s.mrr, s.ndcg, s.recall];
      HeaderIs(b, ws);
      assert (forall i :: 0 <= i < 2 ==> U32At(b, 4 * i) == ws[i]) <==>
             U32At(b, 4 * 0) == RESPONSE_MAGIC && U32At(b, 4 * 1) == WIRE_VERSION;
      BlockIsUnique(xs, 3, b[8..]);
      FullBlock(xs);
      Three(b, 8, xs);
      assert b == b[..8] + b[8..];
    }
  }

  lemma FullBlock(xs: seq<u64>)
    ensures Block(xs, |xs|) == Words8(xs)
  {
    assert Words8(xs) + Zeros(0) == Words8(xs);
  }

  lemma Three(b: seq<byte>, off: nat, xs: seq<u64>)
    requires off + 24 <= |b| && |xs| == 3
    ensures Read8(b[off..], 3) == xs <==>
            U64At(b, off) == xs[0] && U64At(b, off + 8) == xs[1] && U64At(b, off + 16) == xs[2]
  {
    hide GetAt, Read8;
    ReadAt(b, off, 3);
    var r := Read8(b[off..], 3);
    assert r[0] == U64At(b, off + 8 * 0) && r[1] == U64At(b, off + 8 * 1) && r[2] == U64At(b, off + 8 * 2);
  }

  // ---- latency requests --------------------------------------------------------------------

  ghost predicate ValidLatencies(xs: seq<u64>) {
    0 < |xs| <= MAX_LATENCIES && forall i :: 0 <= i < |xs| ==> LatencyValid(xs[i])
  }

  function LatencyBytes(xs: seq<u64>): (b: seq<byte>)
    requires |xs| <= MAX_LATENCIES
    ensures |b| == LATENCY_REQUEST_LEN
  {
    Words4([LATENCY_REQUEST_MAGIC, WIRE_VERSION, |xs|, 0]) + Block(xs, MAX_LATENCIES)
  }

  predicate LatencyHeaderAccepted(b: seq<byte>) {
    && |b| == LATENCY_REQUEST_LEN && U32At(b, 0) == LATENCY_REQUEST_MAGIC && U32At(b, 4) == WIRE_VERSION
    && 1 <= U32At(b, 8) <= MAX_LATENCIES && U32At(b, 12) == 0
  }

  ghost function DecodeLatencies(b: seq<byte>): Option<seq<u64>> {
    if !LatencyHeaderAccepted(b) then None
    else
      var n := U32At(b, 8);
      var xs := Read8(b[VALUES_OFF..], n);
      if AllZero(b[VALUES_OFF + 8 * n..]) && ValidLatencies(xs) then Some(xs) else None
  }

  /** A byte string is accepted as latencies exactly when it is the encoding of a valid list. */
  lemma LatencyRequestsRoundTrip(b: seq<byte>, xs: seq<u64>)
    ensures DecodeLatencies(b) == Some(xs) <==> ValidLatencies(xs) && b == LatencyBytes(xs)
  {
    hide Words4, Block, Read8, GetAt, AllZero;
    if |b| == LATENCY_REQUEST_LEN && ValidLatencies(xs) {
      var n := |xs|;
      var ws: seq<u32> := [LATENCY_REQUEST_MAGIC, WIRE_VERSION, n, 0];
      HeaderIs(b, ws);
      Four(b, ws);
      BlockIsUnique(xs, MAX_LATENCIES, b[VALUES_OFF..]);
      assert b == b[..VALUES_OFF] + b[VALUES_OFF..];
      assert b[VALUES_OFF..][8 * n..] == b[VALUES_OFF + 8 * n..];
    }
  }

  lemma Four(b: seq<byte>, ws: seq<u32>)
    requires 16 <= |b| && |ws| == 4
    ensures (forall i :: 0 <= i < 4 ==> U32At(b, 4 * i) == ws[i]) <==>
      U32At(b, 0) == ws[0] && U32At(b, 4) == ws[1] && U32At(b, 8) == ws[2] && U32At(b, 12) == ws[3]
  {
    hide GetAt;
    if forall i :: 0 <= i < 4 ==> U32At(b, 4 * i) == ws[i] {
      assert U32At(b, 4 * 0) == ws[0] && U32At(b, 4 * 1) == ws[1] && U32At(b, 4 * 2) == ws[2] && U32At(b, 4 * 3) == ws[3];
    }
  }

  /** aimee_benchmarks_latency_request_encode; a bad value is noticed half way, with the
      buffer already partly written. */
  method EncodeLatencyRequest(xs: seq<u64>, out: array<byte>) returns (code: int)
    requires |xs| < 0x1_0000_0000
    modifies out
    ensures code == 0 <==> out.Length >= LATENCY_REQUEST_LEN && ValidLatencies(xs)
    ensures code == 0 ==> out[..] == LatencyBytes(xs) + old(out[..])[LATENCY_REQUEST_LEN..]
    ensures code != 0 ==> code == -1
  {
    hide Words4, Words8, Splice, Put;
    if |xs| == 0 || |xs| > MAX_LATENCIES || out.Length < LATENCY_REQUEST_LEN {
      return -1;
    }
    ghost var was := out[..];
    Clear(out, LATENCY_REQUEST_LEN);
    var ws: seq<u32> := [LATENCY_REQUEST_MAGIC, WIRE_VERSION, |xs|];
    StoreHeader(out, ws);
    ghost var headed := out[..];
    SpliceNothing(headed, VALUES_OFF);
    assert Words8([]) == [] by {
      NoWords();
    }
    for i := 0 to |xs|
      invariant out[..] == Splice(headed, VALUES_OFF, Words8(xs[..i]))
      invariant forall j :: 0 <= j < i ==> LatencyValid(xs[j])
    {
      if !LatencyValid(xs[i]) {
        return -1;
      }
      Store(out, VALUES_OFF + i * 8, 8, xs[i]);
      assert xs[..i + 1] == xs[..i] + [xs[i]];
      WordsOfAppend8(xs[..i], xs[i]);
      SpliceAdjacent(headed, VALUES_OFF, Words8(xs[..i]), Put(8, xs[i]));
    }
    assert xs[..|xs|] == xs;
    HeaderWithReserved(ws);
    assert [LATENCY_REQUEST_MAGIC, WIRE_VERSION, |xs|, 0] == ws + [0];
    TwoSections(was[LATENCY_REQUEST_LEN..], LATENCY_REQUEST_LEN, Words4(ws), Words8(xs));
    return 0;
  }

  lemma NoWords()
    ensures Words8([]) == []
  {
  }

  lemma TwoSections(rest: seq<byte>, total: nat, h: seq<byte>, v: seq<byte>)
    requires |h| == 12 && VALUES_OFF + |v| <= total
    ensures Splice(Splice(Zeros(total) + rest, 0, h), VALUES_OFF, v)
            == h + Zeros(4) + (v + Zeros(total - VALUES_OFF - |v|)) + rest
  {
  }

  /** The checks and loop of handleLatency in Go. */
  method ParseLatencyRequest(request: seq<byte>) returns (r: Option<seq<u64>>)
    ensures r == DecodeLatencies(request)
  {
    hide GetAt, Read8, AllZero, GoAccepts, LatencyValid;
    if |request| != LATENCY_REQUEST_LEN || U32At(request, 0) != LATENCY_REQUEST_MAGIC
       || U32At(request, 4) != WIRE_VERSION || U32At(request, 8) == 0 || U32At(request, 8) > MAX_LATENCIES
       || U32At(request, 12) != 0 {
      return None;
    }
    var count := U32At(request, 8);
    var padded := ZeroPadding(request[VALUES_OFF + count * 8..]);
    if !padded {
      return None;
    }
    ghost var all := Read8(request[VALUES_OFF..], count);
    ReadAt(request, VALUES_OFF, count);
    var latencies: seq<u64> := [];
    for index := 0 to count
      invariant |latencies| == index && latencies == all[..index]
      invariant forall j :: 0 <= j < index ==> LatencyValid(all[j])
    {
      var bits := U64At(request, VALUES_OFF + 8 * index);
      assert bits == all[index];
      AcceptanceAgrees(bits);
      if !GoAccepts(bits) {
        return None;
      }
      latencies := latencies + [bits];
    }
    assert all[..count] == all;
    return Some(latencies);
  }

  /** aimee_benchmarks_latency_request_decode into a caller buffer. */
  method DecodeLatencyRequest(input: seq<byte>, latencies: array<u64>) returns (code: int, count: u32)
    modifies latencies
    ensures code == 0 <==> DecodeLatencies(input).Some? && |DecodeLatencies(input).value| <= latencies.Length
    ensures code == 0 ==> count <= latencies.Length && DecodeLatencies(input) == Some(latencies[..count])
    ensures code != 0 ==> code == -1
  {
    hide GetAt, Read8, AllZero, LatencyValid;
    code, count := -1, 0;
    if |input| != LATENCY_REQUEST_LEN || U32At(input, 0) != LATENCY_REQUEST_MAGIC || U32At(input, 4) != WIRE_VERSION
       || U32At(input, 8) == 0 || U32At(input, 8) > MAX_LATENCIES || U32At(input, 12) != 0 {
      return;
    }
    var n := U32At(input, 8);
    if latencies.Length < n {
      return;
    }
    var padded := ZeroPadding(input[VALUES_OFF + n * 8..VALUES_OFF + n * 8 + (MAX_LATENCIES - n) * 8]);
    assert input[VALUES_OFF + n * 8..LATENCY_REQUEST_LEN] == input[VALUES_OFF + n * 8..];
    if !padded {
      return;
    }
    ghost var all := Read8(input[VALUES_OFF..], n);
    ReadAt(input, VALUES_OFF, n);
    for i := 0 to n
      invariant forall j :: 0 <= j < i ==> latencies[j] == all[j] && LatencyValid(all[j])
    {
      latencies[i] := U64At(input, VALUES_OFF + 8 * i);
      assert latencies[i] == all[i];
      if !LatencyValid(latencies[i]) {
        return;
      }
    }
    assert latencies[..n] == all;
    return 0, n;
  }
}
