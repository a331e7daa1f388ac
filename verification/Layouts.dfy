/** Where every field of every record stands, in bytes: the frame header (server-go/bus/wire.go),
    the message header (server-go/bus/module_protocol.go) and the benchmark records
    (src/modules/benchmarks/include/aimee/benchmarks/module_api.h). */
module Layouts {
  import opened LittleEndian
  import opened WordLists
  import B = BenchmarkWire
  import Bits
  import E = Events
  import M = ModuleProtocol
  import P = BenchmarkProcess
  import W = Wire

  lemma FrameHeader(f: W.Frame)
    ensures var b := W.EncodeBytes(f);
      && U32At(b, 0) == 0x30535542 && U16At(b, 4) == f.hdrFlags && U16At(b, 6) == f.wireVersion
      && U32At(b, 8) == f.eventKind && U32At(b, 12) == f.principalRef && U64At(b, 16) == f.correlationID
      && U64At(b, 24) == f.seqNo && U64At(b, 32) == f.logicalTS && U64At(b, 40) == f.payloadRef
      && U32At(b, 48) == f.payloadLen && U32At(b, 52) == f.srcHandle && U32At(b, 56) == f.dstHandle
      && U32At(b, 60) == f.generation
  {
    hide GetAt, W.EncodeBytes;
    W.FieldsOfEncode(f, []);
    assert W.EncodeBytes(f) + [] == W.EncodeBytes(f);
  }

  /** The header that emit writes: its arguments and nothing else, and the payload right behind it. */
  lemma SentHeader(flags: u16, kind: u32, correlation: u64, payloadLen: u32, handle: u32)
    ensures var b := W.EncodeBytes(E.SentFrame(flags, kind, correlation, payloadLen, handle));
      && U16At(b, 4) == (if payloadLen > 0 && flags % 2 == 0 then flags + 1 else flags) && U16At(b, 6) == 3
      && U32At(b, 8) == kind && U32At(b, 12) == 0 && U64At(b, 16) == correlation && U64At(b, 24) == U64At(b, 32) == 0
      && U64At(b, 40) == (if payloadLen > 0 then 64 else 0) && U32At(b, 48) == payloadLen
      && U32At(b, 52) == handle && U32At(b, 56) == U32At(b, 60) == 0
  {
    hide GetAt, W.EncodeBytes, Bits.BitAnd;
    FrameHeader(E.SentFrame(flags, kind, correlation, payloadLen, handle));
    E.LastBit(flags);
  }

  lemma MessageHeader(m: M.Message)
    ensures var b := M.EncodeBytes(m);
      && U32At(b, 0) == 0x444f4d41 && U16At(b, 4) == 1 && U16At(b, 6) == 40
      && U16At(b, 8) == m.operation && U16At(b, 10) == m.status && U32At(b, 12) == m.stageID && U32At(b, 16) == m.flags
      && U32At(b, 20) == m.bodyLen && U64At(b, 24) == m.deadlineNS && U64At(b, 32) == m.traceID
  {
    hide GetAt, M.EncodeBytes;
    M.FieldsOfEncode(m, []);
    assert M.EncodeBytes(m) + [] == M.EncodeBytes(m);
  }

  /** 536 bytes: six header words, then two blocks of 32 signed ids, padded with zeros. */
  lemma ScoreRequest(q: B.ScoreRequest)
    requires q.Valid()
    ensures var b := B.ScoreBytes(q);
      && |b| == 536 && U32At(b, 0) == 0x51524942 && U32At(b, 4) == 1 && U32At(b, 8) == q.k
      && U32At(b, 12) == |q.retrieved| && U32At(b, 16) == |q.relevant| && U32At(b, 20) == 0
      && (forall i :: 0 <= i < |q.retrieved| ==> U64At(b, 24 + 8 * i) == B.Unsigned(q.retrieved[i]))
      && (forall i :: 0 <= i < |q.relevant| ==> U64At(b, 280 + 8 * i) == B.Unsigned(q.relevant[i]))
      && (forall j :: 24 + 8 * |q.retrieved| <= j < 280 || 280 + 8 * |q.relevant| <= j < 536 ==> b[j] == 0)
  {
    hide GetAt, B.ScoreBytes, Read8, AllZero;
    var b := B.ScoreBytes(q);
    B.ScoreRequestsRoundTrip(b, q);
    var nr, ng := |q.retrieved|, |q.relevant|;
    var r, g := b[24..280], b[280..];
    B.SignedIsUnsigned(Read8(r, nr), q.retrieved);
    B.SignedIsUnsigned(Read8(g, ng), q.relevant);
    ReadPrefix8(r, b[24..], nr);
    ReadAt(b, 24, nr);
    ReadAt(b, 280, ng);
    forall i | 0 <= i < nr ensures U64At(b, 24 + 8 * i) == B.Unsigned(q.retrieved[i]) {
      assert Read8(b[24..], nr)[i] == B.UnsignedAll(q.retrieved)[i];
    }
    forall i | 0 <= i < ng ensures U64At(b, 280 + 8 * i) == B.Unsigned(q.relevant[i]) {
      assert Read8(b[280..], ng)[i] == B.UnsignedAll(q.relevant)[i];
    }
    ZerosAt(b, 24 + 8 * nr, 280);
    ZerosAt(b, 280 + 8 * ng, 536);
    assert b[280 + 8 * ng..] == b[280 + 8 * ng..536];
  }

  lemma ZerosAt(b: seq<byte>, lo: nat, hi: nat)
    requires lo <= hi <= |b|
    ensures AllZero(b[lo..hi]) ==> forall j :: lo <= j < hi ==> b[j] == 0
  {
    if AllZero(b[lo..hi]) {
      forall j | lo <= j < hi ensures b[j] == 0 {
        assert b[lo..hi][j - lo] == b[j];
      }
    }
  }

  /** Signed ids are two's complement words. */
  lemma SignedId(x: B.i64)
    ensures B.Unsigned(x) == if x < 0 then x + 0x1_0000_0000_0000_0000 else x
  {
  }

  /** 32 bytes: MRR, nDCG and recall behind two header words. */
  lemma ScoreResponse(s: B.Scores)
    ensures var b := B.ScoresBytes(s);
      && |b| == 32 && U32At(b, 0) == 0x53524942 && U32At(b, 4) == 1
      && U64At(b, 8) == s.mrr && U64At(b, 16) == s.ndcg && U64At(b, 24) == s.recall
  {
    hide GetAt, B.ScoresBytes;
    B.ScoresRoundTrip(B.ScoresBytes(s), s);
  }

  /** 4112 bytes: four header words, then up to 512 doubles, padded with zeros. */
  lemma LatencyRequest(xs: seq<u64>)
    requires B.ValidLatencies(xs)
    ensures var b := B.LatencyBytes(xs);
      && |b| == 4112 && U32At(b, 0) == 0x51524c42 && U32At(b, 4) == 1 && U32At(b, 8) == |xs| && U32At(b, 12) == 0
      && (forall i :: 0 <= i < |xs| ==> U64At(b, 16 + 8 * i) == xs[i])
      && (forall j :: 16 + 8 * |xs| <= j < 4112 ==> b[j] == 0)
  {
    hide GetAt, B.LatencyBytes, Read8, AllZero, B.LatencyValid;
    var b := B.LatencyBytes(xs);
    B.LatencyRequestsRoundTrip(b, xs);
    ReadAt(b, 16, |xs|);
    ZerosAt(b, 16 + 8 * |xs|, 4112);
    assert b[16 + 8 * |xs|..] == b[16 + 8 * |xs|..4112];
    forall i | 0 <= i < |xs| ensures U64At(b, 16 + 8 * i) == xs[i] {
      assert Read8(b[16..], |xs|)[i] == xs[i];
    }
  }

  /** 56 bytes: the three percentiles, then minimum and maximum, behind four header words. */
  lemma LatencyResponse(a: P.Answer)
    requires a.Valid()
    ensures var b := P.AnswerBytes(a);
      && |b| == 56 && U32At(b, 0) == 0x53524c42 && U32At(b, 4) == 1 && U32At(b, 8) == a.queries && U32At(b, 12) == 0
      && U64At(b, 16) == a.figures.p50 && U64At(b, 24) == a.figures.p95 && U64At(b, 32) == a.figures.p99
      && U64At(b, 40) == a.figures.min && U64At(b, 48) == a.figures.max
  {
    hide GetAt, P.AnswerBytes, P.Answer.Valid;
    P.AnswersRoundTrip(P.AnswerBytes(a), a);
  }

  // ---- which byte strings are accepted -----------------------------------------------------------

  /** A payload is taken as a message exactly when its header bytes say so and its body is there. */
  lemma MessageAccepted(b: seq<byte>)
    ensures M.Decode(b).Message? <==>
      && |b| >= 40 && U32At(b, 0) == 0x444f4d41 && U16At(b, 4) == 1 && U16At(b, 6) == 40
      && (U16At(b, 8) == 1 || U16At(b, 8) == 2) && U16At(b, 10) <= 5 && (U16At(b, 8) == 1 ==> U16At(b, 10) == 0)
      && U32At(b, 12) != 0 && U32At(b, 16) == 0 && U32At(b, 20) <= 0x100_0000 && 40 + U32At(b, 20) <= |b|
  {
    hide GetAt;
  }

  lemma ScoreRequestAccepted(b: seq<byte>)
    ensures B.DecodeScore(b).Some? <==>
      && |b| == 536 && U32At(b, 0) == 0x51524942 && U32At(b, 4) == 1 && 1 <= U32At(b, 8) <= 32
      && U32At(b, 12) <= 32 && U32At(b, 16) <= 32 && U32At(b, 20) == 0
      && forall j :: 24 + 8 * U32At(b, 12) <= j < 280 || 280 + 8 * U32At(b, 16) <= j < 536 ==> b[j] == 0
  {
    hide GetAt, Read8, AllZero;
    if B.ScoreHeaderAccepted(b) {
      var lo, hi := 24 + 8 * U32At(b, 12), 280 + 8 * U32At(b, 16);
      ZerosExactly(b, lo, 280);
      ZerosExactly(b, hi, 536);
      assert b[hi..] == b[hi..536];
    }
  }

  lemma ZerosExactly(b: seq<byte>, lo: nat, hi: nat)
    requires lo <= hi <= |b|
    ensures AllZero(b[lo..hi]) <==> forall j :: lo <= j < hi ==> b[j] == 0
  {
    ZerosAt(b, lo, hi);
  }

  lemma ScoreResponseAccepted(b: seq<byte>)
    ensures B.DecodeScores(b).Some? <==> |b| == 32 && U32At(b, 0) == 0x53524942 && U32At(b, 4) == 1
  {
    hide GetAt;
  }

  /** The bits of a finite double that is not below zero. */
  predicate FiniteNonNegative(bits: u64) {
    bits < 0x7FF0_0000_0000_0000 || bits == 0x8000_0000_0000_0000
  }

  lemma LatencyRequestAccepted(b: seq<byte>)
    ensures B.DecodeLatencies(b).Some? <==>
      && |b| == 4112 && U32At(b, 0) == 0x51524c42 && U32At(b, 4) == 1 && 1 <= U32At(b, 8) <= 512 && U32At(b, 12) == 0
      && (forall i :: 0 <= i < U32At(b, 8) ==> FiniteNonNegative(U64At(b, 16 + 8 * i)))
      && (forall j :: 16 + 8 * U32At(b, 8) <= j < 4112 ==> b[j] == 0)
  {
    hide GetAt, Read8, AllZero, B.LatencyValid;
    if B.LatencyHeaderAccepted(b) {
      var n := U32At(b, 8);
      ReadAt(b, 16, n);
      ZerosExactly(b, 16 + 8 * n, 4112);
      assert b[16 + 8 * n..] == b[16 + 8 * n..4112];
      ValuesAccepted(b, n, Read8(b[16..], n));
    }
  }

  lemma ValuesAccepted(b: seq<byte>, n: nat, xs: seq<u64>)
    requires 16 + 8 * n <= |b| && |xs| == n && forall i :: 0 <= i < n ==> xs[i] == U64At(b, 16 + 8 * i)
    ensures (forall i :: 0 <= i < n ==> B.LatencyValid(xs[i])) <==>
            forall i :: 0 <= i < n ==> FiniteNonNegative(U64At(b, 16 + 8 * i))
  {
    hide GetAt, B.LatencyValid;
    forall i | 0 <= i < n ensures B.LatencyValid(xs[i]) <==> FiniteNonNegative(U64At(b, 16 + 8 * i)) {
      B.AcceptanceAgrees(xs[i]);
    }
    if forall i :: 0 <= i < n ==> FiniteNonNegative(U64At(b, 16 + 8 * i)) {
      forall i | 0 <= i < n ensures B.LatencyValid(xs[i]) {
        assert FiniteNonNegative(U64At(b, 16 + 8 * i));
      }
    }
    if forall i :: 0 <= i < n ==> B.LatencyValid(xs[i]) {
      forall i | 0 <= i < n ensures FiniteNonNegative(U64At(b, 16 + 8 * i)) {
        assert B.LatencyValid(xs[i]);
      }
    }
  }

  lemma LatencyResponseAccepted(b: seq<byte>)
    ensures P.DecodeAnswer(b).Some? <==>
      && |b| == 56 && U32At(b, 0) == 0x53524c42 && U32At(b, 4) == 1 && 1 <= U32At(b, 8) <= 512 && U32At(b, 12) == 0
      && (forall i :: 0 <= i < 5 ==> FiniteNonNegative(U64At(b, 16 + 8 * i)))
      && B.Key(U64At(b, 40)) <= B.Key(U64At(b, 16)) <= B.Key(U64At(b, 24)) <= B.Key(U64At(b, 32)) <= B.Key(U64At(b, 48))
  {
    hide GetAt, B.LatencyValid, B.Key;
    if |b| == 56 {
      B.AcceptanceAgrees(U64At(b, 16 + 8 * 0));
      B.AcceptanceAgrees(U64At(b, 16 + 8 * 1));
      B.AcceptanceAgrees(U64At(b, 16 + 8 * 2));
      B.AcceptanceAgrees(U64At(b, 16 + 8 * 3));
      B.AcceptanceAgrees(U64At(b, 16 + 8 * 4));
    }
  }
}
