/** The benchmarks process as a module handler (server-go/modules/benchmarks/benchmarks.go),
    its C fixture (src/modules/benchmarks/module_adapter.c), and the C client's view of the
    answers (src/modules/benchmarks/include/aimee/benchmarks/module_api.h). */
module BenchmarkProcess {
  import opened LittleEndian
  import opened ModuleProtocol
  import opened WordLists
  import opened BenchmarkWire
  import opened Wrappers
  import L = Latency
  import M = Ranking

  const STAGE_RUN: u32 := 1
  const STAGE_LATENCY: u32 := 2

  // ---- latency responses -------------------------------------------------------------------

  /** A summary of double bits and its number of samples. */
  datatype Answer = Answer(figures: L.Summary<u64>, queries: u32)
  {
    /** aimee_benchmarks_latency_summary_valid. */
    predicate Valid() {
      var f := figures;
      && 0 < queries <= MAX_LATENCIES
      && LatencyValid(f.min) && LatencyValid(f.p50) && LatencyValid(f.p95) && LatencyValid(f.p99) && LatencyValid(f.max)
      && Key(f.min) <= Key(f.p50) <= Key(f.p95) <= Key(f.p99) <= Key(f.max)
    }

    function Values(): seq<u64> {
      [figures.p50, figures.p95, figures.p99, figures.min, figures.max]
    }
  }

  function AnswerBytes(a: Answer): (b: seq<byte>)
    ensures |b| == LATENCY_RESPONSE_LEN
  {
    Words4([LATENCY_RESPONSE_MAGIC, WIRE_VERSION, a.queries, 0]) + Words8(a.Values())
  }

  /** aimee_benchmarks_latency_response_decode. */
  function DecodeAnswer(b: seq<byte>): Option<Answer> {
    if |b| != LATENCY_RESPONSE_LEN || U32At(b, 0) != LATENCY_RESPONSE_MAGIC || U32At(b, 4) != WIRE_VERSION
       || U32At(b, 12) != 0 then None
    else
      var a := Answer(L.Summary(U64At(b, 16), U64At(b, 24), U64At(b, 32), U64At(b, 40), U64At(b, 48)), U32At(b, 8));
      if a.Valid() then Some(a) else None
  }

  /** The C side accepts exactly the encodings of valid answers. */
  lemma AnswersRoundTrip(b: seq<byte>, a: Answer)
    ensures DecodeAnswer(b) == Some(a) <==> a.Valid() && b == AnswerBytes(a)
  {
    hide Words4, Words8, Read8, GetAt, LatencyValid, Key;
    if |b| == LATENCY_RESPONSE_LEN {
      var ws: seq<u32> := [LATENCY_RESPONSE_MAGIC, WIRE_VERSION, a.queries, 0];
      HeaderIs(b, ws);
      Four(b, ws);
      BlockIsUnique(a.Values(), 5, b[16..]);
      FullBlock(a.Values());
      Five(b, a.Values());
      assert b == b[..16] + b[16..];
    }
  }

  lemma Five(b: seq<byte>, xs: seq<u64>)
    requires |b| == LATENCY_RESPONSE_LEN && |xs| == 5
    ensures Read8(b[16..], 5) == xs <==>
      && U64At(b, 16) == xs[0] && U64At(b, 24) == xs[1] && U64At(b, 32) == xs[2]
      && U64At(b, 40) == xs[3] && U64At(b, 48) == xs[4]
  {
    hide GetAt, Read8;
    ReadAt(b, 16, 5);
    var r := Read8(b[16..], 5);
    assert r[0] == U64At(b, 16 + 8 * 0) && r[1] == U64At(b, 16 + 8 * 1) && r[2] == U64At(b, 16 + 8 * 2);
    assert r[3] == U64At(b, 16 + 8 * 3) && r[4] == U64At(b, 16 + 8 * 4);
  }

  // ---- the Go handlers -----------------------------------------------------------------------

  /** What sorting a list of latencies may give. */
  ghost predicate SortOf(t: seq<u64>, xs: seq<u64>) {
    L.Ordered(t, Key) && multiset(t) == multiset(xs) && |t| == |xs|
  }

  /** The answer read off sorted latencies. */
  function AnswerOf(t: seq<u64>): Answer
    requires 0 < |t| <= MAX_LATENCIES
  {
    Answer(L.Online(t), |t|)
  }

  /** What the process says to a request, before cancellation is considered. */
  ghost function ScoreReply(d: nat -> real, bits: real -> u64, request: seq<byte>): Option<seq<byte>> {
    match DecodeScore(request)
    case None => None
    case Some(q) =>
      Some(ScoresBytes(Scores(bits(M.Mrr(q.retrieved, q.relevant)), bits(M.Ndcg(d, q.retrieved, q.relevant, q.k)),
                              bits(M.Recall(q.retrieved, q.relevant, q.k)))))
  }

  /** Validation comes before cancellation, and only an OK answer has bytes. */
  ghost predicate Answers(status: u16, response: seq<byte>, reply: Option<seq<byte>>, cancelled: bool) {
    && status == (if reply.None? then STATUS_INVALID_REQUEST else if cancelled then STATUS_CANCELLED else STATUS_OK)
    && response == if status == STATUS_OK then reply.value else []
  }

  /** The encoded summary of some sort of the latencies. */
  ghost predicate IsLatencyAnswer(xs: seq<u64>, response: seq<byte>)
    requires 0 < |xs| <= MAX_LATENCIES
  {
    exists t :: SortOf(t, xs) && response == AnswerBytes(AnswerOf(t))
  }

  /** The same for latencies, whose OK answer may depend on the sort. */
  ghost predicate LatencyAnswers(status: u16, response: seq<byte>, request: seq<byte>, cancelled: bool) {
    match DecodeLatencies(request)
    case None => status == STATUS_INVALID_REQUEST && response == []
    case Some(xs) =>
      if cancelled then status == STATUS_CANCELLED && response == []
      else status == STATUS_OK && IsLatencyAnswer(xs, response)
  }

  /** handleScore. The bit pattern of a score is a parameter. */
  method HandleScore(d: nat -> real, bits: real -> u64, cancelled: bool, request: seq<byte>)
    returns (status: u16, response: seq<byte>)
    requires M.Discounting(d)
    ensures Answers(status, response, ScoreReply(d, bits, request), cancelled)
  {
    hide DecodeScore, Words4, Words8, Splice, M.Mrr, M.Ndcg, M.Recall;
    var parsed := ParseScoreRequest(request);
    if parsed == None {
      return STATUS_INVALID_REQUEST, [];
    }
    if cancelled {
      return STATUS_CANCELLED, [];
    }
    var q := parsed.value;
    var mrr, ndcg, recall := M.Score(d, q.retrieved, q.relevant, q.k);
    var out := new byte[RESPONSE_LEN];
    Clear(out, RESPONSE_LEN);
    StoreHeader(out, [RESPONSE_MAGIC, WIRE_VERSION]);
    StoreWords(out, 8, [bits(mrr), bits(ndcg), bits(recall)]);
    HeaderAndWords(Zeros(RESPONSE_LEN), Words4([RESPONSE_MAGIC, WIRE_VERSION]), Words8([bits(mrr), bits(ndcg), bits(recall)]));
    assert Zeros(RESPONSE_LEN) + [] == Zeros(RESPONSE_LEN);
    return STATUS_OK, out[..];
  }

  lemma HeaderAndWords(s: seq<byte>, h: seq<byte>, v: seq<byte>)
    requires |h| + |v| == |s|
    ensures Splice(Splice(s, 0, h), |h|, v) == h + v
  {
  }

  /** handleLatency. */
  method HandleLatency(cancelled: bool, request: seq<byte>) returns (status: u16, response: seq<byte>)
    ensures LatencyAnswers(status, response, request, cancelled)
  {
    hide DecodeLatencies, Words4, Words8, Splice, L.NearestIndex, L.OfflineIndex, Key, LatencyValid;
    var latencies := ParseLatencyRequest(request);
    if latencies == None {
      return STATUS_INVALID_REQUEST, [];
    }
    AcceptedAreValid(request);
    if cancelled {
      return STATUS_CANCELLED, [];
    }
    var sorted := L.LibrarySort(latencies.value, Key);
    SameLength(sorted, latencies.value);
    var count := |sorted|;
    L.PositionsInRange(count, 50);
    L.PositionsInRange(count, 95);
    L.PositionsInRange(count, 99);
    var values: seq<u64> := [sorted[L.NearestIndex(count, 50.0)], sorted[L.NearestIndex(count, 95.0)],
                             sorted[L.NearestIndex(count, 99.0)], sorted[0], sorted[count - 1]];
    var out := new byte[LATENCY_RESPONSE_LEN];
    Clear(out, LATENCY_RESPONSE_LEN);
    var ws: seq<u32> := [LATENCY_RESPONSE_MAGIC, WIRE_VERSION, count];
    StoreHeader(out, ws);
    StoreWords(out, 16, values);
    HeaderWithReserved(ws);
    assert [LATENCY_RESPONSE_MAGIC, WIRE_VERSION, count, 0] == ws + [0];
    assert Zeros(LATENCY_RESPONSE_LEN) + [] == Zeros(LATENCY_RESPONSE_LEN);
    TwoSections([], LATENCY_RESPONSE_LEN, Words4(ws), Words8(values));
    assert values == AnswerOf(sorted).Values();
    assert SortOf(sorted, latencies.value) && out[..] == AnswerBytes(AnswerOf(sorted));
    return STATUS_OK, out[..];
  }

  lemma SameLength(t: seq<u64>, xs: seq<u64>)
    requires multiset(t) == multiset(xs)
    ensures |t| == |xs|
  {
    assert |multiset(t)| == |t| && |multiset(xs)| == |xs|;
  }

  lemma AcceptedAreValid(request: seq<byte>)
    ensures DecodeLatencies(request).Some? ==> ValidLatencies(DecodeLatencies(request).value)
  {
  }

  /** The dispatch of the process. */
  method Handle(d: nat -> real, bits: real -> u64, stageID: u32, cancelled: bool, request: seq<byte>)
    returns (status: u16, response: seq<byte>)
    requires M.Discounting(d)
    ensures stageID == STAGE_RUN ==> Answers(status, response, ScoreReply(d, bits, request), cancelled)
    ensures stageID == STAGE_LATENCY ==> LatencyAnswers(status, response, request, cancelled)
    ensures stageID != STAGE_RUN && stageID != STAGE_LATENCY ==> status == STATUS_INVALID_REQUEST && response == []
  {
    if stageID == STAGE_RUN {
      status, response := HandleScore(d, bits, cancelled, request);
    } else if stageID == STAGE_LATENCY {
      status, response := HandleLatency(cancelled, request);
    } else {
      return STATUS_INVALID_REQUEST, [];
    }
  }

  // ---- the answers as the C client reads them --------------------------------------------------

  lemma MembersAreValid(xs: seq<u64>, ys: seq<u64>)
    requires multiset(ys) == multiset(xs) && forall i :: 0 <= i < |xs| ==> LatencyValid(xs[i])
    ensures forall i :: 0 <= i < |ys| ==> LatencyValid(ys[i])
  {
    forall i | 0 <= i < |ys| ensures LatencyValid(ys[i]) {
      assert ys[i] in multiset(xs);
      var j :| 0 <= j < |xs| && xs[j] == ys[i];
    }
  }

  lemma AnySummaryIsValid(xs: seq<u64>, t: seq<u64>)
    requires ValidLatencies(xs) && SortOf(t, xs)
    ensures AnswerOf(t).Valid()
  {
    hide LatencyValid, Key, L.NearestIndex, L.OfflineIndex;
    MembersAreValid(xs, t);
    L.SummariesCompare(t, Key);
    L.PositionsInRange(|t|, 50);
    L.PositionsInRange(|t|, 95);
    L.PositionsInRange(|t|, 99);
  }

  /** Whatever valid list a client sends and however the process sorts it, the request is
      accepted, and the answer is one the client's decoder accepts: the ascending summary. */
  lemma EveryLatencyAnswerIsAccepted(xs: seq<u64>, t: seq<u64>)
    requires ValidLatencies(xs) && SortOf(t, xs)
    ensures DecodeLatencies(LatencyBytes(xs)) == Some(xs)
    ensures DecodeAnswer(AnswerBytes(AnswerOf(t))) == Some(AnswerOf(t))
    ensures L.Ascending(AnswerOf(t).figures, Key) && AnswerOf(t).queries == |xs|
  {
    hide Words4, Words8, DecodeLatencies, DecodeAnswer, LatencyBytes, AnswerBytes, L.Online, LatencyValid, Key;
    LatencyRequestsRoundTrip(LatencyBytes(xs), xs);
    AnySummaryIsValid(xs, t);
    AnswersRoundTrip(AnswerBytes(AnswerOf(t)), AnswerOf(t));
  }

  /** Figures that compare equal. */
  ghost predicate SameFigures(f: L.Summary<u64>, g: L.Summary<u64>) {
    && Key(f.p50) == Key(g.p50) && Key(f.p95) == Key(g.p95) && Key(f.p99) == Key(g.p99)
    && Key(f.min) == Key(g.min) && Key(f.max) == Key(g.max)
  }

  /** Answers that rest on different sorts of one list compare equal figure by figure. */
  lemma AnswersCompareEqual(xs: seq<u64>, t: seq<u64>, u: seq<u64>)
    requires 0 < |xs| <= MAX_LATENCIES && SortOf(t, xs) && SortOf(u, xs)
    ensures SameFigures(AnswerOf(t).figures, AnswerOf(u).figures)
  {
    hide Key, L.NearestIndex;
    L.SortsAgree(t, u, Key);
    L.PositionsInRange(|t|, 50);
    L.PositionsInRange(|t|, 95);
    L.PositionsInRange(|t|, 99);
  }

  const ZERO: u64 := 0
  const MINUS_ZERO: u64 := 0x8000_0000_0000_0000

  ghost predicate BothZeros(xs: seq<u64>) {
    ZERO in xs && MINUS_ZERO in xs
  }

  /** Valid latencies that compare equal are the same bits, except for the two zeros. */
  lemma EqualKeys(a: u64, b: u64)
    requires LatencyValid(a) && LatencyValid(b) && Key(a) == Key(b)
    ensures a == b || (a == ZERO && b == MINUS_ZERO) || (a == MINUS_ZERO && b == ZERO)
  {
    AcceptanceAgrees(a);
    AcceptanceAgrees(b);
  }

  lemma SortIsUnique(xs: seq<u64>, t: seq<u64>, u: seq<u64>)
    requires ValidLatencies(xs) && SortOf(t, xs) && SortOf(u, xs) && !BothZeros(xs)
    ensures t == u
  {
    hide LatencyValid, Key;
    L.SortsAgree(t, u, Key);
    MembersAreValid(xs, t);
    MembersAreValid(xs, u);
    forall i | 0 <= i < |t| ensures t[i] == u[i] {
      assert t[i] in multiset(xs) && u[i] in multiset(xs);
      EqualKeys(t[i], u[i]);
    }
  }

  /** A sort that begins with a given zero. */
  lemma SortFromZero(xs: seq<u64>, zero: u64) returns (t: seq<u64>)
    requires (zero == ZERO || zero == MINUS_ZERO) && zero in xs
    ensures SortOf(t, xs) && t[0] == zero
  {
    hide Key, L.Sorted, L.Ordered;
    var j :| 0 <= j < |xs| && xs[j] == zero;
    var sorted := L.Sorted(xs[..j] + xs[j + 1..], Key);
    t := [zero] + sorted;
    TakeOut(xs, j);
    SameLength(t, xs);
    ZeroIsLeast(zero);
    LeastFirst(zero, sorted);
  }

  lemma TakeOut(xs: seq<u64>, j: nat)
    requires j < |xs|
    ensures multiset(xs) == multiset{xs[j]} + multiset(xs[..j] + xs[j + 1..])
  {
    assert xs == xs[..j] + [xs[j]] + xs[j + 1..];
  }

  lemma LeastFirst(x: u64, sorted: seq<u64>)
    requires L.Ordered(sorted, Key) && forall b: u64 :: Key(x) <= Key(b)
    ensures L.Ordered([x] + sorted, Key)
  {
    hide Key;
  }

  lemma ZeroIsLeast(zero: u64)
    requires zero == ZERO || zero == MINUS_ZERO
    ensures forall b: u64 :: Key(zero) <= Key(b)
  {
  }

  lemma MinimumDecides(xs: seq<u64>, t: seq<u64>, u: seq<u64>)
    requires ValidLatencies(xs) && SortOf(t, xs) && SortOf(u, xs) && t[0] != u[0]
    ensures AnswerBytes(AnswerOf(t)) != AnswerBytes(AnswerOf(u))
  {
    hide DecodeAnswer, AnswerBytes, L.NearestIndex, LatencyValid, Key;
    AnySummaryIsValid(xs, t);
    AnySummaryIsValid(xs, u);
    AnswersRoundTrip(AnswerBytes(AnswerOf(t)), AnswerOf(t));
    AnswersRoundTrip(AnswerBytes(AnswerOf(u)), AnswerOf(u));
    assert AnswerOf(t).figures.min == t[0] && AnswerOf(u).figures.min == u[0];
  }

  ghost predicate SameBytes(t: seq<u64>, u: seq<u64>)
    requires 0 < |t| <= MAX_LATENCIES && 0 < |u| <= MAX_LATENCIES
  {
    AnswerBytes(AnswerOf(t)) == AnswerBytes(AnswerOf(u))
  }

  /** All sorts of a valid list give the same answer bytes exactly when the list does not hold
      both zeros. */
  lemma BytesAgreeExactlyWithoutBothZeros(xs: seq<u64>)
    requires ValidLatencies(xs)
    ensures (forall t, u :: SortOf(t, xs) && SortOf(u, xs) ==> SameBytes(t, u)) <==> !BothZeros(xs)
  {
    hide AnswerBytes, LatencyValid, Key, L.NearestIndex;
    if BothZeros(xs) {
      var t := SortFromZero(xs, ZERO);
      var u := SortFromZero(xs, MINUS_ZERO);
      MinimumDecides(xs, t, u);
      assert !SameBytes(t, u);
    } else {
      forall t, u | SortOf(t, xs) && SortOf(u, xs) ensures SameBytes(t, u) {
        SortIsUnique(xs, t, u);
      }
    }
  }

  /** Two programs that answer a latency request as specified, each with a sort of its own:
      the same status, answers both of which the client accepts with equal figures, and the
      same bytes unless the request holds both zeros. */
  lemma LatencyProgramsAgree(request: seq<byte>, cancelled: bool, s1: u16, r1: seq<byte>, s2: u16, r2: seq<byte>)
    requires LatencyAnswers(s1, r1, request, cancelled) && LatencyAnswers(s2, r2, request, cancelled)
    ensures s1 == s2
    ensures s1 == STATUS_OK ==>
      && DecodeAnswer(r1).Some? && DecodeAnswer(r2).Some?
      && DecodeAnswer(r1).value.queries == DecodeAnswer(r2).value.queries
      && SameFigures(DecodeAnswer(r1).value.figures, DecodeAnswer(r2).value.figures)
    ensures s1 == STATUS_OK && !BothZeros(DecodeLatencies(request).value) ==> r1 == r2
  {
    hide DecodeLatencies, DecodeAnswer, AnswerBytes, L.Online, LatencyValid, Key, LatencyBytes, L.Ordered;
    AcceptedAreValid(request);
    if s1 == STATUS_OK {
      var xs := DecodeLatencies(request).value;
      var t :| SortOf(t, xs) && r1 == AnswerBytes(AnswerOf(t));
      var u :| SortOf(u, xs) && r2 == AnswerBytes(AnswerOf(u));
      EveryLatencyAnswerIsAccepted(xs, t);
      EveryLatencyAnswerIsAccepted(xs, u);
      AnswersCompareEqual(xs, t, u);
      if !BothZeros(xs) {
        SortIsUnique(xs, t, u);
      }
    }
  }

  /** What a latency answer says, of either program and for any sort: five figures of the request's
      samples in order, each percentile at the nearest rank of its own share, and the ends. */
  lemma LatencyAnswerFigures(request: seq<byte>, cancelled: bool, status: u16, response: seq<byte>)
    requires LatencyAnswers(status, response, request, cancelled) && status == STATUS_OK
    ensures DecodeLatencies(request).Some? && DecodeAnswer(response).Some?
    ensures var xs, a := DecodeLatencies(request).value, DecodeAnswer(response).value;
      a.queries == |xs| && exists t: seq<u64> :: SortOf(t, xs) && ReadsOff(t, a.figures)
  {
    hide DecodeLatencies, DecodeAnswer, AnswerBytes, L.Online, LatencyValid, Key, LatencyBytes, L.Ordered, L.IsNearest;
    AcceptedAreValid(request);
    var xs := DecodeLatencies(request).value;
    var t: seq<u64> :| SortOf(t, xs) && response == AnswerBytes(AnswerOf(t));
    EveryLatencyAnswerIsAccepted(xs, t);
    L.OnlinePercentiles(t);
    assert ReadsOff(t, AnswerOf(t).figures);
  }

  /** The figures stand in sorted samples where their names say. */
  ghost predicate ReadsOff(t: seq<u64>, f: L.Summary<u64>) {
    && t != [] && f.min == t[0] && f.max == t[|t| - 1]
    && L.IsNearest(t, 50, f.p50) && L.IsNearest(t, 95, f.p95) && L.IsNearest(t, 99, f.p99)
  }

  /** The same for scores: what the client sends is what is scored, and what is answered is
      what it decodes. */
  lemma EveryScoreAnswerIsAccepted(d: nat -> real, bits: real -> u64, q: ScoreRequest)
    requires q.Valid()
    ensures var s := Scores(bits(M.Mrr(q.retrieved, q.relevant)), bits(M.Ndcg(d, q.retrieved, q.relevant, q.k)),
                            bits(M.Recall(q.retrieved, q.relevant, q.k)));
            ScoreReply(d, bits, ScoreBytes(q)) == Some(ScoresBytes(s)) && DecodeScores(ScoresBytes(s)) == Some(s)
  {
    hide ScoreBytes, ScoresBytes, DecodeScore, DecodeScores, M.Mrr, M.Ndcg, M.Recall;
    var s := Scores(bits(M.Mrr(q.retrieved, q.relevant)), bits(M.Ndcg(d, q.retrieved, q.relevant, q.k)),
                    bits(M.Recall(q.retrieved, q.relevant, q.k)));
    ScoreRequestsRoundTrip(ScoreBytes(q), q);
    ScoresRoundTrip(ScoresBytes(s), s);
  }

  // ---- the fixture ---------------------------------------------------------------------------------

  /** benchmark_percentile, with its clamp. */
  function Percentile(sorted: seq<u64>, percentile: real): u64
    requires sorted != [] && 0 <= L.FixtureIndex(|sorted|, percentile)
  {
    sorted[L.FixtureIndex(|sorted|, percentile)]
  }

  /** Whatever permutation each sort leaves equal samples in, the fixture's figures compare
      equal to those of the process. */
  lemma FixtureAgrees(xs: seq<u64>, t: seq<u64>, u: seq<u64>, p: nat)
    requires xs != [] && SortOf(t, xs) && SortOf(u, xs) && p < 100
    ensures 0 <= L.FixtureIndex(|t|, p as real) && 0 <= L.NearestIndex(|u|, p as real) < |u|
    ensures Key(Percentile(t, p as real)) == Key(u[L.NearestIndex(|u|, p as real)])
  {
    hide L.NearestIndex, Key;
    L.SortsAgree(t, u, Key);
    L.PositionsInRange(|t|, p);
  }

  /** aimee_benchmarks_latency_response_encode: refuses a summary out of order. */
  method EncodeAnswer(a: Answer, out: array<byte>) returns (code: int)
    modifies out
    ensures code == 0 <==> a.Valid() && out.Length >= LATENCY_RESPONSE_LEN
    ensures code == 0 ==> out[..] == AnswerBytes(a) + old(out[..])[LATENCY_RESPONSE_LEN..]
    ensures code != 0 ==> code == -1 && out[..] == old(out[..])
  {
    hide Words4, Words8, Splice, LatencyValid, Key;
    if !a.Valid() || out.Length < LATENCY_RESPONSE_LEN {
      return -1;
    }
    ghost var was := out[..];
    Clear(out, LATENCY_RESPONSE_LEN);
    var ws: seq<u32> := [LATENCY_RESPONSE_MAGIC, WIRE_VERSION, a.queries];
    StoreHeader(out, ws);
    StoreWords(out, 16, a.Values());
    HeaderWithReserved(ws);
    assert [LATENCY_RESPONSE_MAGIC, WIRE_VERSION, a.queries, 0] == ws + [0];
    TwoSections(was[LATENCY_RESPONSE_LEN..], LATENCY_RESPONSE_LEN, Words4(ws), Words8(a.Values()));
    return 0;
  }

  /** aimee_benchmarks_response_encode. */
  method EncodeScores(s: Scores, out: array<byte>) returns (code: int)
    modifies out
    ensures code == 0 <==> out.Length >= RESPONSE_LEN
    ensures code == 0 ==> out[..] == ScoresBytes(s) + old(out[..])[RESPONSE_LEN..]
    ensures code != 0 ==> code == -1 && out[..] == old(out[..])
  {
    hide Words4, Words8, Splice;
    if out.Length < RESPONSE_LEN {
      return -1;
    }
    ghost var was := out[..];
    Clear(out, RESPONSE_LEN);
    StoreHeader(out, [RESPONSE_MAGIC, WIRE_VERSION]);
    StoreWords(out, 8, [s.mrr, s.ndcg, s.recall]);
    StoredAtFront(was[RESPONSE_LEN..], Words4([RESPONSE_MAGIC, WIRE_VERSION]), Words8([s.mrr, s.ndcg, s.recall]));
    return 0;
  }

  lemma StoredAtFront(rest: seq<byte>, h: seq<byte>, v: seq<byte>)
    requires |h| + |v| == RESPONSE_LEN
    ensures Splice(Splice(Zeros(RESPONSE_LEN) + rest, 0, h), |h|, v) == h + v + rest
  {
  }

  /** benchmark_handle_latency: answers as the process does, with a sort of its own, and its
      encoder never refuses the summary it is given. */
  method FixtureHandleLatency(cancelled: bool, request: seq<byte>, body: array<byte>)
    returns (status: u16, len: nat)
    modifies body
    ensures len <= body.Length
    ensures body.Length < LATENCY_RESPONSE_LEN ==> status == STATUS_INVALID_REQUEST && len == 0
    ensures body.Length >= LATENCY_RESPONSE_LEN ==> LatencyAnswers(status, body[..len], request, cancelled)
  {
    hide DecodeLatencies, Words4, Words8, L.NearestIndex, L.OfflineIndex, Key, LatencyValid;
    len := 0;
    if body.Length < LATENCY_RESPONSE_LEN {
      return STATUS_INVALID_REQUEST, 0;
    }
    var latencies := new u64[MAX_LATENCIES];
    var code, count := DecodeLatencyRequest(request, latencies);
    AcceptedAreValid(request);
    if code != 0 {
      return STATUS_INVALID_REQUEST, 0;
    }
    if cancelled {
      return STATUS_CANCELLED, 0;
    }
    ghost var xs := latencies[..count];
    var sorted := L.LibrarySort(latencies[..count], Key);
    SameLength(sorted, xs);
    L.PositionsInRange(count, 50);
    L.PositionsInRange(count, 95);
    L.PositionsInRange(count, 99);
    var summary := Answer(L.Summary(Percentile(sorted, 50.0), Percentile(sorted, 95.0), Percentile(sorted, 99.0),
                                    sorted[0], sorted[count - 1]), count);
    assert summary == AnswerOf(sorted) && SortOf(sorted, xs);
    AnySummaryIsValid(xs, sorted);
    var encoded := EncodeAnswer(summary, body);
    if encoded != 0 {
      assert false;  // the Internal status of the source, never reached
    }
    assert body[..LATENCY_RESPONSE_LEN] == AnswerBytes(AnswerOf(sorted));
    return STATUS_OK, LATENCY_RESPONSE_LEN;
  }

  /** aimee_module_handler of the fixture: each stage refuses a response buffer too small for
      its own answer, and otherwise answers as the process does. */
  method FixtureHandle(d: nat -> real, bits: real -> u64, stageID: u32, cancelled: bool, request: seq<byte>,
                       body: array<byte>)
    returns (status: u16, len: nat)
    requires M.Discounting(d)
    modifies body
    ensures len <= body.Length
    ensures stageID == STAGE_RUN ==>
      if body.Length < RESPONSE_LEN then status == STATUS_INVALID_REQUEST && len == 0
      else Answers(status, body[..len], ScoreReply(d, bits, request), cancelled)
    ensures stageID == STAGE_LATENCY ==>
      if body.Length < LATENCY_RESPONSE_LEN then status == STATUS_INVALID_REQUEST && len == 0
      else LatencyAnswers(status, body[..len], request, cancelled)
    ensures stageID != STAGE_RUN && stageID != STAGE_LATENCY ==> status == STATUS_INVALID_REQUEST && len == 0
  {
    hide DecodeScore, Words4, Words8, M.Mrr, M.Ndcg, M.Recall, LatencyAnswers;
    len := 0;
    if stageID == STAGE_LATENCY {
      status, len := FixtureHandleLatency(cancelled, request, body);
      return;
    }
    if stageID != STAGE_RUN || body.Length < RESPONSE_LEN {
      return STATUS_INVALID_REQUEST, 0;
    }
    var retrieved := new i64[MAX_RESULTS];
    var relevant := new i64[MAX_RESULTS];
    var code, nr, ng, k := DecodeScoreRequest(request, retrieved, relevant);
    DecodedFits(request);
    if code != 0 {
      return STATUS_INVALID_REQUEST, 0;
    }
    if cancelled {
      return STATUS_CANCELLED, 0;
    }
    var mrr, ndcg, recall := M.BenchmarkScore(d, retrieved[..nr], relevant[..ng], k);
    var encoded := EncodeScores(Scores(bits(mrr), bits(ndcg), bits(recall)), body);
    return STATUS_OK, RESPONSE_LEN;
  }

  lemma DecodedFits(request: seq<byte>)
    ensures DecodeScore(request).Some? ==> DecodeScore(request).value.Valid()
  {
    hide GetAt, Read8, AllZero;
  }
}
