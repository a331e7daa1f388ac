/** Bodies cut into the payloads of consecutive bus events, on both sides of a module call
    (server-go/bus/module_caller.go, send; server-go/bus/module_runtime.go, replyModuleResult). */
module Fragments {
  import opened LittleEndian
  import opened ModuleProtocol

  /** A body in pieces of at most chunk bytes; the empty body is one empty piece. */
  function Split(body: seq<byte>, chunk: nat): (parts: seq<seq<byte>>)
    requires chunk > 0
    ensures |parts| > 0
    decreases |body|
  {
    if |body| <= chunk then [body] else [body[..chunk]] + Split(body[chunk..], chunk)
  }

  function Join(parts: seq<seq<byte>>): seq<byte> {
    if parts == [] then [] else Join(parts[..|parts| - 1]) + parts[|parts| - 1]
  }

  lemma {:induction false} JoinOfConcat(a: seq<seq<byte>>, b: seq<seq<byte>>)
    ensures Join(a + b) == Join(a) + Join(b)
  {
    if b == [] {
      assert a + b == a;
    } else {
      var k := |b| - 1;
      JoinOfConcat(a, b[..k]);
      assert (a + b)[..|a + b| - 1] == a + b[..k];
    }
  }

  /** Nothing is lost or reordered by splitting. */
  lemma {:induction false} JoinOfSplit(body: seq<byte>, chunk: nat)
    requires chunk > 0
    ensures Join(Split(body, chunk)) == body
    decreases |body|
  {
    if |body| <= chunk {
      assert Split(body, chunk)[..0] == [];
    } else {
      JoinOfSplit(body[chunk..], chunk);
      JoinOfConcat([body[..chunk]], Split(body[chunk..], chunk));
      assert [body[..chunk]][..0] == [];
      assert body == body[..chunk] + body[chunk..];
    }
  }

  /** Every piece but the last is full, and the last is empty only for the empty body. */
  lemma {:induction false} SplitSizes(body: seq<byte>, chunk: nat, i: nat)
    requires chunk > 0 && i < |Split(body, chunk)|
    ensures |Split(body, chunk)[i]| <= chunk
    ensures i + 1 < |Split(body, chunk)| ==> |Split(body, chunk)[i]| == chunk
    ensures |Split(body, chunk)[i]| == 0 ==> body == []
    decreases |body|
  {
    if |body| > chunk && i > 0 {
      SplitSizes(body[chunk..], chunk, i - 1);
    }
  }

  /** max(1, ceil(len / chunk)) pieces. */
  lemma {:induction false} SplitCount(body: seq<byte>, chunk: nat)
    requires chunk > 0
    ensures (|Split(body, chunk)| - 1) * chunk <= |body| <= |Split(body, chunk)| * chunk
    ensures |body| > 0 ==> (|Split(body, chunk)| - 1) * chunk < |body|
    ensures |body| == 0 ==> |Split(body, chunk)| == 1
    decreases |body|
  {
    if |body| > chunk {
      SplitCount(body[chunk..], chunk);
      var n := |Split(body[chunk..], chunk)|;
      assert n * chunk == (n - 1) * chunk + chunk && (n + 1) * chunk == n * chunk + chunk;
    }
  }

  /** A sending loop that has sent i pieces and stands at offset. */
  ghost predicate Standing(body: seq<byte>, chunk: nat, offset: nat, i: nat)
    requires chunk > 0
  {
    var parts := Split(body, chunk);
    && i <= |parts| && offset <= |body| && (i == 0 ==> offset == 0)
    && (if i == |parts| then offset == |body|
        else parts[i..] == Split(body[offset..], chunk) && (i > 0 ==> offset < |body|))
  }

  lemma StandsAtStart(body: seq<byte>, chunk: nat)
    requires chunk > 0
    ensures Standing(body, chunk, 0, 0)
  {
    assert Split(body, chunk)[0..] == Split(body, chunk) && body[0..] == body;
  }

  /** The loop goes on exactly while there are pieces left. */
  lemma GoesOn(body: seq<byte>, chunk: nat, offset: nat, i: nat)
    requires chunk > 0 && Standing(body, chunk, offset, i)
    ensures i <= |Split(body, chunk)| && offset <= |body| && (i == 0 ==> offset == 0)
    ensures i < |Split(body, chunk)| <==> i == 0 || offset < |body|
  {
    hide Split;
  }

  /** Where the loop stands, the bytes and the more flag it computes are those of piece i, and
      it moves on to the next. */
  lemma PieceAt(body: seq<byte>, chunk: nat, offset: nat, i: nat)
    requires chunk > 0 && Standing(body, chunk, offset, i) && i < |Split(body, chunk)|
    ensures offset <= |body|
    ensures var n := if |body| - offset > chunk then chunk else |body| - offset;
      && Split(body, chunk)[i] == body[offset..offset + n]
      && (offset + n < |body| <==> i + 1 < |Split(body, chunk)|)
      && Standing(body, chunk, offset + n, i + 1)
  {
    hide Split;
    var rest := body[offset..];
    var parts := Split(body, chunk);
    assert parts[i..] == Split(rest, chunk);
    assert parts[i] == parts[i..][0] && parts[i + 1..] == parts[i..][1..];
    if |rest| > chunk {
      assert rest[..chunk] == body[offset..offset + chunk];
      assert rest[chunk..] == body[offset + chunk..];
      MorePieces(rest, chunk);
    } else {
      LastPiece(rest, chunk);
    }
  }

  lemma MorePieces(rest: seq<byte>, chunk: nat)
    requires 0 < chunk < |rest|
    ensures Split(rest, chunk) == [rest[..chunk]] + Split(rest[chunk..], chunk)
  {
  }

  lemma LastPiece(rest: seq<byte>, chunk: nat)
    requires chunk > 0 && |rest| <= chunk
    ensures Split(rest, chunk) == [rest]
  {
  }

  /** One event payload of a message, and whether another follows. */
  datatype Fragment = Fragment(payload: seq<byte>, more: bool)

  /** What the fragments of one message have in common. */
  datatype Envelope = Envelope(operation: u16, status: u16, stageID: u32, deadlineNS: u64, traceID: u64)
  {
    function Header(bodyLen: u32): Message {
      Message.Message(operation, status, stageID, 0, bodyLen, deadlineNS, traceID)
    }

    predicate Valid() {
      Header(0).Valid()
    }
  }

  function Invoke(stageID: u32, deadlineNS: u64, traceID: u64): Envelope {
    Envelope(OP_INVOKE, STATUS_OK, stageID, deadlineNS, traceID)
  }

  function Answer(status: u16, stageID: u32, traceID: u64): Envelope {
    Envelope(OP_RESULT, status, stageID, 0, traceID)
  }

  function Payload(envelope: Envelope, part: seq<byte>): seq<byte>
    requires |part| < 0x1_0000_0000
  {
    EncodeBytes(envelope.Header(|part|)) + part
  }

  /** The fragments of a body under an inline budget. */
  function Cut(envelope: Envelope, body: seq<byte>, chunk: nat): (fs: seq<Fragment>)
    requires 0 < chunk < 0x1_0000_0000
    ensures |fs| == |Split(body, chunk)|
  {
    var parts := Split(body, chunk);
    seq(|parts|, i requires 0 <= i < |parts| =>
      SplitSizes(body, chunk, i);
      Fragment(Payload(envelope, parts[i]), i + 1 < |parts|))
  }

  lemma CutAt(envelope: Envelope, body: seq<byte>, chunk: nat, i: nat)
    requires 0 < chunk < 0x1_0000_0000 && i < |Split(body, chunk)|
    ensures |Split(body, chunk)[i]| <= chunk
    ensures Cut(envelope, body, chunk)[i]
            == Fragment(Payload(envelope, Split(body, chunk)[i]), i + 1 < |Split(body, chunk)|)
  {
    SplitSizes(body, chunk, i);
  }

  lemma PayloadTail(envelope: Envelope, part: seq<byte>)
    requires |part| < 0x1_0000_0000
    ensures Payload(envelope, part)[HEADER_LEN..] == part
  {
    hide EncodeBytes;
  }

  lemma PayloadSize(envelope: Envelope, part: seq<byte>)
    requires |part| < 0x1_0000_0000
    ensures |Payload(envelope, part)| == HEADER_LEN + |part|
  {
  }

  /** A payload of a valid envelope decodes to its header with its part behind it. */
  lemma PayloadDecodes(envelope: Envelope, part: seq<byte>)
    requires envelope.Valid() && |part| <= MAX_BODY
    ensures Decode(Payload(envelope, part)) == Decoded.Message(envelope.Header(|part|))
    ensures Payload(envelope, part)[HEADER_LEN..HEADER_LEN + |part|] == part
  {
    hide EncodeBytes, Decode, Put;
    DecodeOfEncode(envelope.Header(|part|), part);
  }
}
