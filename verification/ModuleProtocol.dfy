/** The AMOD envelope carried in an event payload (server-go/bus/module_protocol.go):
    a 40-byte header followed by body bytes. */
module ModuleProtocol {
  import opened LittleEndian

  const MESSAGE_MAGIC: u32 := 0x444f4d41
  const MESSAGE_VERSION: u16 := 1
  const HEADER_LEN: nat := 40
  const MAX_BODY: u32 := 0x100_0000

  const OP_INVOKE: u16 := 1
  const OP_RESULT: u16 := 2

  const STATUS_OK: u16 := 0
  const STATUS_CAPABILITY_ABSENT: u16 := 1
  const STATUS_CANCELLED: u16 := 2
  const STATUS_DEADLINE_EXCEEDED: u16 := 3
  const STATUS_INVALID_REQUEST: u16 := 4
  const STATUS_INTERNAL: u16 := 5

  datatype Message = Message(
    operation: u16, status: u16, stageID: u32, flags: u32, bodyLen: u32, deadlineNS: u64, traceID: u64)
  {
    predicate Valid() {
      && (operation == OP_INVOKE || operation == OP_RESULT)
      && status <= STATUS_INTERNAL
      && (operation == OP_INVOKE ==> status == STATUS_OK)
      && stageID != 0 && flags == 0 && bodyLen <= MAX_BODY
    }

    predicate DeadlineExpired(nowNS: u64) {
      deadlineNS != 0 && nowNS >= deadlineNS
    }
  }

  datatype Decoded = Message(message: Message) | Invalid

  function FirstBlock(m: Message): (b: seq<byte>)
    ensures |b| == 16
  {
    Put(4, MESSAGE_MAGIC) + Put(2, MESSAGE_VERSION) + Put(2, HEADER_LEN) +
    Put(2, m.operation) + Put(2, m.status) + Put(4, m.stageID)
  }

  function SecondBlock(m: Message): (b: seq<byte>)
    ensures |b| == 16
  {
    Put(4, m.flags) + Put(4, m.bodyLen) + Put(8, m.deadlineNS)
  }

  function EncodeBytes(m: Message): (b: seq<byte>)
    ensures |b| == HEADER_LEN
  {
    FirstBlock(m) + SecondBlock(m) + Put(8, m.traceID)
  }

  /** The fields of a header, before they are validated. */
  function Fields(b: seq<byte>): Message
    requires |b| >= HEADER_LEN
  {
    Message.Message(U16At(b, 8), U16At(b, 10), U32At(b, 12), U32At(b, 16), U32At(b, 20), U64At(b, 24), U64At(b, 32))
  }

  predicate HasPrefix(b: seq<byte>)
    requires |b| >= HEADER_LEN
  {
    U32At(b, 0) == MESSAGE_MAGIC && U16At(b, 4) == MESSAGE_VERSION && U16At(b, 6) == HEADER_LEN
  }

  function Decode(b: seq<byte>): Decoded {
    if |b| < HEADER_LEN || !HasPrefix(b) then Invalid
    else
      var m := Fields(b);
      if !m.Valid() || m.bodyLen > |b| - HEADER_LEN then Invalid
      else Decoded.Message(m)
  }

  lemma FirstBlockFields(m: Message)
    ensures var b := FirstBlock(m);
            && U32At(b, 0) == MESSAGE_MAGIC && U16At(b, 4) == MESSAGE_VERSION && U16At(b, 6) == HEADER_LEN
            && U16At(b, 8) == m.operation && U16At(b, 10) == m.status && U32At(b, 12) == m.stageID
  {
    hide Put, Get, GetAt;
    var b := FirstBlock(m);
    var w0, w1, w2 := Put(4, MESSAGE_MAGIC), Put(2, MESSAGE_VERSION), Put(2, HEADER_LEN);
    var w3, w4, w5 := Put(2, m.operation), Put(2, m.status), Put(4, m.stageID);
    assert b == [] + w0 + (w1 + w2 + w3 + w4 + w5);
    WordAmid(b, [], 4, MESSAGE_MAGIC, w1 + w2 + w3 + w4 + w5);
    assert b == w0 + w1 + (w2 + w3 + w4 + w5);
    WordAmid(b, w0, 2, MESSAGE_VERSION, w2 + w3 + w4 + w5);
    assert b == (w0 + w1) + w2 + (w3 + w4 + w5);
    WordAmid(b, w0 + w1, 2, HEADER_LEN, w3 + w4 + w5);
    assert b == (w0 + w1 + w2) + w3 + (w4 + w5);
    WordAmid(b, w0 + w1 + w2, 2, m.operation, w4 + w5);
    assert b == (w0 + w1 + w2 + w3) + w4 + w5;
    WordAmid(b, w0 + w1 + w2 + w3, 2, m.status, w5);
    assert b == (w0 + w1 + w2 + w3 + w4) + w5 + [];
    WordAmid(b, w0 + w1 + w2 + w3 + w4, 4, m.stageID, []);
  }

  lemma SecondBlockFields(m: Message)
    ensures var b := SecondBlock(m);
            U32At(b, 0) == m.flags && U32At(b, 4) == m.bodyLen && U64At(b, 8) == m.deadlineNS
  {
    hide Put, Get, GetAt;
    var b := SecondBlock(m);
    var w0, w1, w2 := Put(4, m.flags), Put(4, m.bodyLen), Put(8, m.deadlineNS);
    assert b == [] + w0 + (w1 + w2);
    WordAmid(b, [], 4, m.flags, w1 + w2);
    assert b == w0 + w1 + w2;
    WordAmid(b, w0, 4, m.bodyLen, w2);
    assert b == (w0 + w1) + w2 + [];
    WordAmid(b, w0 + w1, 8, m.deadlineNS, []);
  }

  lemma FieldsByBlock(b: seq<byte>, first: seq<byte>, second: seq<byte>, trace: seq<byte>)
    requires |b| >= HEADER_LEN && |first| == |second| == 16 && |trace| == 8
    requires first == b[0..16] && second == b[16..32] && trace == b[32..40]
    ensures HasPrefix(b) <==> U32At(first, 0) == MESSAGE_MAGIC && U16At(first, 4) == MESSAGE_VERSION
                              && U16At(first, 6) == HEADER_LEN
    ensures Fields(b) == Message.Message(
              U16At(first, 8), U16At(first, 10), U32At(first, 12),
              U32At(second, 0), U32At(second, 4), U64At(second, 8), U64At(trace, 0))
  {
    SliceOfSlice(b, 0, 16, 0, 4);
    SliceOfSlice(b, 0, 16, 4, 6);
    SliceOfSlice(b, 0, 16, 6, 8);
    SliceOfSlice(b, 0, 16, 8, 10);
    SliceOfSlice(b, 0, 16, 10, 12);
    SliceOfSlice(b, 0, 16, 12, 16);
    SliceOfSlice(b, 16, 32, 0, 4);
    SliceOfSlice(b, 16, 32, 4, 8);
    SliceOfSlice(b, 16, 32, 8, 16);
    assert trace[0..8] == trace;
  }

  lemma FieldsOfEncode(m: Message, rest: seq<byte>)
    ensures HasPrefix(EncodeBytes(m) + rest)
    ensures Fields(EncodeBytes(m) + rest) == m
  {
    var b := EncodeBytes(m) + rest;
    var first, second, trace := FirstBlock(m), SecondBlock(m), Put(8, m.traceID);
    assert first == b[0..16] && second == b[16..32] && trace == b[32..40];
    FieldsByBlock(b, first, second, trace);
    FirstBlockFields(m);
    SecondBlockFields(m);
    WordRoundTrip(8, m.traceID);
    assert trace[0..8] == trace;
  }

  lemma FirstBlockOfFields(b: seq<byte>, m: Message)
    requires |b| == 16 && U32At(b, 0) == MESSAGE_MAGIC && U16At(b, 4) == MESSAGE_VERSION && U16At(b, 6) == HEADER_LEN
    requires U16At(b, 8) == m.operation && U16At(b, 10) == m.status && U32At(b, 12) == m.stageID
    ensures FirstBlock(m) == b
  {
    PutOfGet(b[0..4]);
    PutOfGet(b[4..6]);
    PutOfGet(b[6..8]);
    PutOfGet(b[8..10]);
    PutOfGet(b[10..12]);
    PutOfGet(b[12..16]);
  }

  lemma SecondBlockOfFields(b: seq<byte>, m: Message)
    requires |b| == 16 && U32At(b, 0) == m.flags && U32At(b, 4) == m.bodyLen && U64At(b, 8) == m.deadlineNS
    ensures SecondBlock(m) == b
  {
    PutOfGet(b[0..4]);
    PutOfGet(b[4..8]);
    PutOfGet(b[8..16]);
  }

  lemma BlocksOfFields(first: seq<byte>, second: seq<byte>, trace: seq<byte>, m: Message)
    requires |first| == |second| == 16 && |trace| == 8
    requires U32At(first, 0) == MESSAGE_MAGIC && U16At(first, 4) == MESSAGE_VERSION && U16At(first, 6) == HEADER_LEN
    requires m == Message.Message(
                    U16At(first, 8), U16At(first, 10), U32At(first, 12),
                    U32At(second, 0), U32At(second, 4), U64At(second, 8), U64At(trace, 0))
    ensures EncodeBytes(m) == first + second + trace
  {
    FirstBlockOfFields(first, m);
    SecondBlockOfFields(second, m);
    assert trace[0..8] == trace;
    PutOfGet(trace);
  }

  /** A valid message decodes to itself as soon as its whole body is there. */
  lemma DecodeOfEncode(m: Message, rest: seq<byte>)
    requires m.Valid() && m.bodyLen <= |rest|
    ensures Decode(EncodeBytes(m) + rest) == Decoded.Message(m)
  {
    FieldsOfEncode(m, rest);
  }

  /** Without its whole body the same header is refused. */
  lemma DecodeOfTruncated(m: Message, rest: seq<byte>)
    requires m.bodyLen > |rest|
    ensures Decode(EncodeBytes(m) + rest) == Invalid
  {
    FieldsOfEncode(m, rest);
  }

  /** An accepted payload starts with the encoding of what it decodes to, and that message
      is valid with its body inside the payload. */
  lemma EncodeOfDecode(b: seq<byte>)
    requires Decode(b).Message?
    ensures var m := Decode(b).message;
            m.Valid() && HEADER_LEN + m.bodyLen <= |b| && EncodeBytes(m) == b[..HEADER_LEN]
  {
    FieldsByBlock(b, b[0..16], b[16..32], b[32..40]);
    BlocksOfFields(b[0..16], b[16..32], b[32..40], Fields(b));
    assert b[..HEADER_LEN] == b[0..16] + b[16..32] + b[32..40];
  }

  /** Writes the header into the first 40 bytes of a buffer, or nothing at all. */
  method EncodeInto(m: Message, a: array<byte>) returns (n: nat)
    modifies a
    ensures n == if a.Length >= HEADER_LEN && m.Valid() then HEADER_LEN else 0
    ensures a[..] == if n == 0 then old(a[..]) else EncodeBytes(m) + old(a[HEADER_LEN..])
  {
    hide Put, FirstBlock, SecondBlock;
    if a.Length < HEADER_LEN || !m.Valid() {
      return 0;
    }
    ghost var was := a[..];
    for i := 0 to HEADER_LEN
      invariant a[HEADER_LEN..] == was[HEADER_LEN..]
    {
      a[i] := 0;
    }
    ghost var cleared := a[..];
    assert cleared[HEADER_LEN..] == was[HEADER_LEN..];
    StoreFirst(m, a);
    StoreSecond(m, a);
    Store(a, 32, 8, m.traceID);
    SpliceAdjacent(cleared, 0, FirstBlock(m), SecondBlock(m));
    SpliceAdjacent(cleared, 0, FirstBlock(m) + SecondBlock(m), Put(8, m.traceID));
    return HEADER_LEN;
  }

  method StoreFirst(m: Message, a: array<byte>)
    requires a.Length >= HEADER_LEN
    modifies a
    ensures a[..] == Splice(old(a[..]), 0, FirstBlock(m))
  {
    ghost var was := a[..];
    ghost var done := Put(4, MESSAGE_MAGIC);
    Store(a, 0, 4, MESSAGE_MAGIC);
    Store(a, 4, 2, MESSAGE_VERSION);
    SpliceAdjacent(was, 0, done, Put(2, MESSAGE_VERSION));
    done := done + Put(2, MESSAGE_VERSION);
    Store(a, 6, 2, HEADER_LEN);
    SpliceAdjacent(was, 0, done, Put(2, HEADER_LEN));
    done := done + Put(2, HEADER_LEN);
    Store(a, 8, 2, m.operation);
    SpliceAdjacent(was, 0, done, Put(2, m.operation));
    done := done + Put(2, m.operation);
    Store(a, 10, 2, m.status);
    SpliceAdjacent(was, 0, done, Put(2, m.status));
    done := done + Put(2, m.status);
    Store(a, 12, 4, m.stageID);
    SpliceAdjacent(was, 0, done, Put(4, m.stageID));
  }

  method StoreSecond(m: Message, a: array<byte>)
    requires a.Length >= HEADER_LEN
    modifies a
    ensures a[..] == Splice(old(a[..]), 16, SecondBlock(m))
  {
    ghost var was := a[..];
    Store(a, 16, 4, m.flags);
    Store(a, 20, 4, m.bodyLen);
    SpliceAdjacent(was, 16, Put(4, m.flags), Put(4, m.bodyLen));
    Store(a, 24, 8, m.deadlineNS);
    SpliceAdjacent(was, 16, Put(4, m.flags) + Put(4, m.bodyLen), Put(8, m.deadlineNS));
  }
}
