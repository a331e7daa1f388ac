/** The frame header of the event bus (server-go/bus/wire.go): validation, the
    64-byte encoding, and the placement check. */
module Wire {
  import opened Bits
  import opened LittleEndian

  const WIRE_MAGIC: u32 := 0x30535542
  const WIRE_VERSION: u16 := 3
  const HDR_LEN: nat := 64
  const MAX_PAYLOAD: u32 := 0x10_0000

  const F_INLINE: u16 := 0x0001
  const F_ARENA: u16 := 0x0002
  const F_NOTIFICATION: u16 := 0x0004
  const F_REQUEST: u16 := 0x0008
  const F_REPLY: u16 := 0x0010
  const F_CANCEL: u16 := 0x0020
  const F_CONTROL: u16 := 0x0040
  const F_MORE: u16 := 0x0080

  const PLACEMENT_MASK: u16 := 0x0003
  const PATTERN_MASK: u16 := 0x003c
  const UNKNOWN_MASK: u16 := 0xff00

  const KIND_ERROR: u32 := 3
  const KIND_CAPABILITY_ABSENT: u32 := 4

  datatype Frame = Frame(
    hdrFlags: u16, wireVersion: u16, eventKind: u32, principalRef: u32,
    correlationID: u64, seqNo: u64, logicalTS: u64, payloadRef: u64,
    payloadLen: u32, srcHandle: u32, dstHandle: u32, generation: u32)

  datatype Result = OK | ErrShort | ErrMagic | ErrVersion | ErrFlags | ErrPayloadLen | ErrCorrelation

  predicate Has(flags: u16, bit: u16) {
    BitAnd(flags, bit) != 0
  }

  predicate ExactlyOne(v: u16) {
    v != 0 && BitAnd(v, v - 1) == 0
  }

  function Validate(f: Frame): Result {
    var placement := BitAnd(f.hdrFlags, PLACEMENT_MASK);
    var pattern := BitAnd(f.hdrFlags, PATTERN_MASK);
    if f.wireVersion != WIRE_VERSION then ErrVersion
    else if BitAnd(f.hdrFlags, UNKNOWN_MASK) != 0 then ErrFlags
    else if !ExactlyOne(pattern) then ErrFlags
    else if f.payloadLen > 0 && !ExactlyOne(placement) then ErrFlags
    else if f.payloadLen > MAX_PAYLOAD then ErrPayloadLen
    else if f.payloadLen == 0 && placement != 0 then ErrFlags
    else if f.payloadLen == 0 && f.payloadRef != 0 then ErrPayloadLen
    else if Has(f.hdrFlags, F_MORE)
            && ((pattern != F_REQUEST && pattern != F_REPLY) || placement != F_INLINE || f.payloadLen == 0)
      then ErrFlags
    else if !Has(f.hdrFlags, F_ARENA) && f.generation != 0 then ErrFlags
    else if Has(f.hdrFlags, F_NOTIFICATION) then
      if f.correlationID != 0 then ErrCorrelation else OK
    else if f.correlationID == 0 then ErrCorrelation
    else OK
  }

  /** What a header must look like, stated without bit tricks: one message pattern, a
      placement exactly when there is a payload, and FMore only on inline request and
      reply fragments. */
  ghost predicate WellFormed(f: Frame) {
    && f.wireVersion == WIRE_VERSION
    && f.hdrFlags < 0x100
    && OneOf4(Has(f.hdrFlags, F_NOTIFICATION), Has(f.hdrFlags, F_REQUEST),
              Has(f.hdrFlags, F_REPLY), Has(f.hdrFlags, F_CANCEL))
    && (f.payloadLen > 0 <==> Has(f.hdrFlags, F_INLINE) || Has(f.hdrFlags, F_ARENA))
    && !(Has(f.hdrFlags, F_INLINE) && Has(f.hdrFlags, F_ARENA))
    && f.payloadLen <= MAX_PAYLOAD
    && (f.payloadLen == 0 ==> f.payloadRef == 0)
    && (Has(f.hdrFlags, F_MORE) ==>
          && (Has(f.hdrFlags, F_REQUEST) || Has(f.hdrFlags, F_REPLY))
          && Has(f.hdrFlags, F_INLINE))
    && (f.generation != 0 ==> Has(f.hdrFlags, F_ARENA))
    && (f.correlationID == 0 <==> Has(f.hdrFlags, F_NOTIFICATION))
  }

  predicate OneOf4(a: bool, b: bool, c: bool, d: bool) {
    if a then !b && !c && !d
    else if b then !c && !d
    else c != d
  }

  /** The bit of the given weight. */
  predicate Bit(flags: u16, weight: nat)
    requires weight > 0
  {
    (flags / weight) % 2 == 1
  }

  lemma WeightsOfBits(flags: u16)
    ensures BitAnd(flags, 1) == (if Bit(flags, 1) then 1 else 0) && BitAnd(flags, 2) == (if Bit(flags, 2) then 2 else 0)
    ensures BitAnd(flags, 4) == (if Bit(flags, 4) then 4 else 0) && BitAnd(flags, 8) == (if Bit(flags, 8) then 8 else 0)
    ensures BitAnd(flags, 16) == (if Bit(flags, 16) then 16 else 0)
    ensures BitAnd(flags, 32) == (if Bit(flags, 32) then 32 else 0)
    ensures BitAnd(flags, 128) == (if Bit(flags, 128) then 128 else 0)
  {
    SingleBit(flags, 0);
    SingleBit(flags, 1);
    SingleBit(flags, 2);
    SingleBit(flags, 3);
    SingleBit(flags, 4);
    SingleBit(flags, 5);
    SingleBit(flags, 7);
    assert Pow2(3) == 8 && Pow2(5) == 32 && Pow2(7) == 128;
  }

  lemma HasIsBit(flags: u16)
    ensures Has(flags, F_INLINE) == Bit(flags, 1) && Has(flags, F_ARENA) == Bit(flags, 2)
    ensures Has(flags, F_NOTIFICATION) == Bit(flags, 4) && Has(flags, F_REQUEST) == Bit(flags, 8)
    ensures Has(flags, F_REPLY) == Bit(flags, 16) && Has(flags, F_CANCEL) == Bit(flags, 32)
    ensures Has(flags, F_MORE) == Bit(flags, 128)
  {
    WeightsOfBits(flags);
  }

  /** A mask of adjacent bits, one bit at a time. */
  lemma MasksByBit(flags: u16)
    ensures BitAnd(flags, PLACEMENT_MASK) == (if Bit(flags, 1) then 1 else 0) + (if Bit(flags, 2) then 2 else 0)
    ensures BitAnd(flags, PATTERN_MASK) ==
            (if Bit(flags, 4) then 4 else 0) + (if Bit(flags, 8) then 8 else 0) +
            (if Bit(flags, 16) then 16 else 0) + (if Bit(flags, 32) then 32 else 0)
  {
    assert BitAnd(1, 2) == 0 && BitAnd(4, 8) == 0 && BitAnd(12, 16) == 0 && BitAnd(28, 32) == 0;
    DisjointMasks(flags, 1, 2);
    DisjointMasks(flags, 4, 8);
    DisjointMasks(flags, 12, 16);
    DisjointMasks(flags, 28, 32);
    WeightsOfBits(flags);
  }

  lemma UnknownBits(flags: u16)
    ensures BitAnd(flags, UNKNOWN_MASK) == 0 <==> flags < 0x100
  {
    assert Pow2(8) == 0x100 && Pow2(16) == 0x1_0000 by {
      assert Pow2(12) == 16 * Pow2(8);
      assert Pow2(16) == 16 * Pow2(12);
    }
    MultipleOfPower(8, 16);
    MaskAbove(flags, 8, 16);
  }

  lemma ExactlyOnePattern(flags: u16)
    ensures ExactlyOne(BitAnd(flags, PATTERN_MASK)) <==>
            OneOf4(Has(flags, F_NOTIFICATION), Has(flags, F_REQUEST), Has(flags, F_REPLY), Has(flags, F_CANCEL))
    ensures BitAnd(flags, PATTERN_MASK) == F_REQUEST <==>
            Has(flags, F_REQUEST) && !Has(flags, F_NOTIFICATION) && !Has(flags, F_REPLY) && !Has(flags, F_CANCEL)
    ensures BitAnd(flags, PATTERN_MASK) == F_REPLY <==>
            Has(flags, F_REPLY) && !Has(flags, F_NOTIFICATION) && !Has(flags, F_REQUEST) && !Has(flags, F_CANCEL)
    ensures ExactlyOne(BitAnd(flags, PLACEMENT_MASK)) <==> Has(flags, F_INLINE) != Has(flags, F_ARENA)
    ensures BitAnd(flags, PLACEMENT_MASK) == 0 <==> !Has(flags, F_INLINE) && !Has(flags, F_ARENA)
    ensures BitAnd(flags, PLACEMENT_MASK) == F_INLINE <==> Has(flags, F_INLINE) && !Has(flags, F_ARENA)
  {
    HasIsBit(flags);
    MasksByBit(flags);
    SinglePatternValues();
  }

  lemma SinglePatternValues()
    ensures ExactlyOne(1) && ExactlyOne(2) && !ExactlyOne(3)
    ensures ExactlyOne(4) && ExactlyOne(8) && !ExactlyOne(12) && ExactlyOne(16) && !ExactlyOne(20) && !ExactlyOne(24)
    ensures !ExactlyOne(28) && ExactlyOne(32) && !ExactlyOne(36) && !ExactlyOne(40) && !ExactlyOne(44)
    ensures !ExactlyOne(48) && !ExactlyOne(52) && !ExactlyOne(56) && !ExactlyOne(60)
  {
  }

  lemma ValidateIsWellFormed(f: Frame)
    ensures Validate(f) == OK <==> WellFormed(f)
  {
    ExactlyOnePattern(f.hdrFlags);
    UnknownBits(f.hdrFlags);
  }

  /** Which error a rejected frame is rejected with: the version comes first; a correlation is at
      fault exactly when another one would make the frame well formed; a length when flags and
      placement are right and the length is beyond the bound, or there is none and yet a reference;
      the flags in every other case. */
  lemma ErrorsExactly(f: Frame)
    ensures Validate(f) == ErrVersion <==> f.wireVersion != 3
    ensures Validate(f) == ErrCorrelation <==>
      !WellFormed(f) && (WellFormed(f.(correlationID := 0)) || WellFormed(f.(correlationID := 1)))
    ensures Validate(f) == ErrPayloadLen <==>
      && f.wireVersion == 3 && f.hdrFlags < 0x100
      && OneOf4(Has(f.hdrFlags, F_NOTIFICATION), Has(f.hdrFlags, F_REQUEST), Has(f.hdrFlags, F_REPLY), Has(f.hdrFlags, F_CANCEL))
      && (|| (f.payloadLen > 0x10_0000 && Has(f.hdrFlags, F_INLINE) != Has(f.hdrFlags, F_ARENA))
          || (f.payloadLen == 0 && !Has(f.hdrFlags, F_INLINE) && !Has(f.hdrFlags, F_ARENA) && f.payloadRef != 0))
    ensures Validate(f) != ErrShort && Validate(f) != ErrMagic
  {
    hide BitAnd;
    ExactlyOnePattern(f.hdrFlags);
    UnknownBits(f.hdrFlags);
    ValidateIsWellFormed(f);
    ValidateIsWellFormed(f.(correlationID := 0));
    ValidateIsWellFormed(f.(correlationID := 1));
  }

  /** Short input and a foreign magic are reported before anything else. */
  lemma DecodeErrors(b: seq<byte>)
    ensures Decode(b) == Rejected(ErrShort) <==> |b| < 64
    ensures Decode(b) == Rejected(ErrMagic) <==> |b| >= 64 && U32At(b, 0) != 0x30535542
  {
    hide Validate, Fields, GetAt;
    if |b| >= 64 {
      ErrorsExactly(Fields(b));
    }
  }

  /** The header as four blocks of 16 bytes. */
  function HeadBlock(f: Frame): (b: seq<byte>)
    ensures |b| == 16
  {
    Put(4, WIRE_MAGIC) + Put(2, f.hdrFlags) + Put(2, f.wireVersion) + Put(4, f.eventKind) + Put(4, f.principalRef)
  }

  function WideBlock(x: u64, y: u64): (b: seq<byte>)
    ensures |b| == 16
  {
    Put(8, x) + Put(8, y)
  }

  function TailBlock(f: Frame): (b: seq<byte>)
    ensures |b| == 16
  {
    Put(4, f.payloadLen) + Put(4, f.srcHandle) + Put(4, f.dstHandle) + Put(4, f.generation)
  }

  function EncodeBytes(f: Frame): (b: seq<byte>)
    ensures |b| == HDR_LEN
  {
    HeadBlock(f) + WideBlock(f.correlationID, f.seqNo) + WideBlock(f.logicalTS, f.payloadRef) + TailBlock(f)
  }

  datatype Decoded = Frame(frame: Frame) | Rejected(why: Result)

  /** The fields of a header, before they are validated. */
  function Fields(b: seq<byte>): Frame
    requires |b| >= HDR_LEN
  {
    Frame.Frame(U16At(b, 4), U16At(b, 6), U32At(b, 8), U32At(b, 12), U64At(b, 16), U64At(b, 24),
          U64At(b, 32), U64At(b, 40), U32At(b, 48), U32At(b, 52), U32At(b, 56), U32At(b, 60))
  }

  function Decode(b: seq<byte>): Decoded {
    if |b| < HDR_LEN then Rejected(ErrShort)
    else if U32At(b, 0) != WIRE_MAGIC then Rejected(ErrMagic)
    else
      var f := Fields(b);
      if Validate(f) == OK then Decoded.Frame(f) else Rejected(Validate(f))
  }

  lemma HeadBlockFields(f: Frame)
    ensures var b := HeadBlock(f);
            U32At(b, 0) == WIRE_MAGIC && U16At(b, 4) == f.hdrFlags && U16At(b, 6) == f.wireVersion
            && U32At(b, 8) == f.eventKind && U32At(b, 12) == f.principalRef
  {
    hide Put, Get, GetAt;
    var b := HeadBlock(f);
    var w0, w1, w2, w3, w4 := Put(4, WIRE_MAGIC), Put(2, f.hdrFlags), Put(2, f.wireVersion), Put(4, f.eventKind), Put(4, f.principalRef);
    assert b == [] + w0 + (w1 + w2 + w3 + w4);
    WordAmid(b, [], 4, WIRE_MAGIC, w1 + w2 + w3 + w4);
    assert b == w0 + w1 + (w2 + w3 + w4);
    WordAmid(b, w0, 2, f.hdrFlags, w2 + w3 + w4);
    assert b == (w0 + w1) + w2 + (w3 + w4);
    WordAmid(b, w0 + w1, 2, f.wireVersion, w3 + w4);
    assert b == (w0 + w1 + w2) + w3 + w4;
    WordAmid(b, w0 + w1 + w2, 4, f.eventKind, w4);
    assert b == (w0 + w1 + w2 + w3) + w4 + [];
    WordAmid(b, w0 + w1 + w2 + w3, 4, f.principalRef, []);
  }

  lemma WideBlockFields(x: u64, y: u64)
    ensures U64At(WideBlock(x, y), 0) == x && U64At(WideBlock(x, y), 8) == y
  {
    hide Put, Get, GetAt;
    var b := WideBlock(x, y);
    var w0, w1 := Put(8, x), Put(8, y);
    assert b == [] + w0 + w1;
    WordAmid(b, [], 8, x, w1);
    assert b == w0 + w1 + [];
    WordAmid(b, w0, 8, y, []);
  }

  lemma TailBlockFields(f: Frame)
    ensures var b := TailBlock(f);
            U32At(b, 0) == f.payloadLen && U32At(b, 4) == f.srcHandle
            && U32At(b, 8) == f.dstHandle && U32At(b, 12) == f.generation
  {
    hide Put, Get, GetAt;
    var b := TailBlock(f);
    var w0, w1, w2, w3 := Put(4, f.payloadLen), Put(4, f.srcHandle), Put(4, f.dstHandle), Put(4, f.generation);
    assert b == [] + w0 + (w1 + w2 + w3);
    WordAmid(b, [], 4, f.payloadLen, w1 + w2 + w3);
    assert b == w0 + w1 + (w2 + w3);
    WordAmid(b, w0, 4, f.srcHandle, w2 + w3);
    assert b == (w0 + w1) + w2 + w3;
    WordAmid(b, w0 + w1, 4, f.dstHandle, w3);
    assert b == (w0 + w1 + w2) + w3 + [];
    WordAmid(b, w0 + w1 + w2, 4, f.generation, []);
  }

  /** The four blocks of a header, and the fields read through them. */
  lemma FieldsByBlock(b: seq<byte>, h: seq<byte>, w: seq<byte>, v: seq<byte>, t: seq<byte>)
    requires |b| >= HDR_LEN && |h| == |w| == |v| == |t| == 16
    requires h == b[0..16] && w == b[16..32] && v == b[32..48] && t == b[48..64]
    ensures U32At(b, 0) == U32At(h, 0)
    ensures Fields(b) == Frame.Frame(
              U16At(h, 4), U16At(h, 6), U32At(h, 8), U32At(h, 12), U64At(w, 0), U64At(w, 8),
              U64At(v, 0), U64At(v, 8), U32At(t, 0), U32At(t, 4), U32At(t, 8), U32At(t, 12))
  {
    hide Get, Put, BitAnd;
    SliceOfSlice(b, 0, 16, 0, 4);
    SliceOfSlice(b, 0, 16, 4, 6);
    SliceOfSlice(b, 0, 16, 6, 8);
    SliceOfSlice(b, 0, 16, 8, 12);
    SliceOfSlice(b, 0, 16, 12, 16);
    SliceOfSlice(b, 16, 32, 0, 8);
    SliceOfSlice(b, 16, 32, 8, 16);
    SliceOfSlice(b, 32, 48, 0, 8);
    SliceOfSlice(b, 32, 48, 8, 16);
    SliceOfSlice(b, 48, 64, 0, 4);
    SliceOfSlice(b, 48, 64, 4, 8);
    SliceOfSlice(b, 48, 64, 8, 12);
    SliceOfSlice(b, 48, 64, 12, 16);
  }

  lemma FieldsOfEncode(f: Frame, rest: seq<byte>)
    ensures Fields(EncodeBytes(f) + rest) == f
    ensures U32At(EncodeBytes(f) + rest, 0) == WIRE_MAGIC
  {
    hide Get, Put, BitAnd;
    var h, w, v, t := HeadBlock(f), WideBlock(f.correlationID, f.seqNo),
                      WideBlock(f.logicalTS, f.payloadRef), TailBlock(f);
    var b := EncodeBytes(f) + rest;
    assert h == b[0..16] && w == b[16..32] && v == b[32..48] && t == b[48..64];
    FieldsByBlock(b, h, w, v, t);
    HeadBlockFields(f);
    WideBlockFields(f.correlationID, f.seqNo);
    WideBlockFields(f.logicalTS, f.payloadRef);
    TailBlockFields(f);
  }

  lemma HeadBlockOfFields(b: seq<byte>, f: Frame)
    requires |b| == 16 && U32At(b, 0) == WIRE_MAGIC && U16At(b, 4) == f.hdrFlags
    requires U16At(b, 6) == f.wireVersion && U32At(b, 8) == f.eventKind && U32At(b, 12) == f.principalRef
    ensures HeadBlock(f) == b
  {
    hide Get, Put, BitAnd;
    PutOfGet(b[0..4]);
    PutOfGet(b[4..6]);
    PutOfGet(b[6..8]);
    PutOfGet(b[8..12]);
    PutOfGet(b[12..16]);
  }

  lemma WideBlockOfFields(b: seq<byte>)
    requires |b| == 16
    ensures WideBlock(U64At(b, 0), U64At(b, 8)) == b
  {
    PutOfGet(b[0..8]);
    PutOfGet(b[8..16]);
  }

  lemma TailBlockOfFields(b: seq<byte>, f: Frame)
    requires |b| == 16 && U32At(b, 0) == f.payloadLen && U32At(b, 4) == f.srcHandle
    requires U32At(b, 8) == f.dstHandle && U32At(b, 12) == f.generation
    ensures TailBlock(f) == b
  {
    hide Get, Put, BitAnd;
    PutOfGet(b[0..4]);
    PutOfGet(b[4..8]);
    PutOfGet(b[8..12]);
    PutOfGet(b[12..16]);
  }

  lemma BlocksOfFields(h: seq<byte>, w: seq<byte>, v: seq<byte>, t: seq<byte>, f: Frame)
    requires |h| == |w| == |v| == |t| == 16 && U32At(h, 0) == WIRE_MAGIC
    requires f == Frame.Frame(
                    U16At(h, 4), U16At(h, 6), U32At(h, 8), U32At(h, 12), U64At(w, 0), U64At(w, 8),
                    U64At(v, 0), U64At(v, 8), U32At(t, 0), U32At(t, 4), U32At(t, 8), U32At(t, 12))
    ensures EncodeBytes(f) == h + w + v + t
  {
    hide Get, Put, BitAnd;
    HeadBlockOfFields(h, f);
    WideBlockOfFields(w);
    WideBlockOfFields(v);
    TailBlockOfFields(t, f);
  }

  lemma EncodeOfFields(b: seq<byte>)
    requires |b| >= HDR_LEN && U32At(b, 0) == WIRE_MAGIC
    ensures EncodeBytes(Fields(b)) == b[..HDR_LEN]
  {
    hide Get, Put, BitAnd;
    FieldsByBlock(b, b[0..16], b[16..32], b[32..48], b[48..64]);
    BlocksOfFields(b[0..16], b[16..32], b[32..48], b[48..64], Fields(b));
    assert b[..HDR_LEN] == b[0..16] + b[16..32] + b[32..48] + b[48..64];
  }

  /** Encoding then decoding gives the frame back, whatever follows the header. */
  lemma DecodeOfEncode(f: Frame, rest: seq<byte>)
    requires Validate(f) == OK
    ensures Decode(EncodeBytes(f) + rest) == Decoded.Frame(f)
  {
    FieldsOfEncode(f, rest);
  }

  /** Decoding is injective on headers: an accepted header is the encoding of what it
      decodes to, and what it decodes to is well formed. */
  lemma EncodeOfDecode(b: seq<byte>)
    requires Decode(b).Frame?
    ensures WellFormed(Decode(b).frame)
    ensures EncodeBytes(Decode(b).frame) == b[..HDR_LEN]
  {
    EncodeOfFields(b);
    ValidateIsWellFormed(Fields(b));
  }

  /** A decoded header is a request, a reply, a cancel or a notification, never two of
      them, and every correlated pattern carries a non-zero correlation. */
  lemma PatternPartition(b: seq<byte>)
    requires Decode(b).Frame?
    ensures var f := Decode(b).frame;
            && OneOf4(Has(f.hdrFlags, F_NOTIFICATION), Has(f.hdrFlags, F_REQUEST),
                      Has(f.hdrFlags, F_REPLY), Has(f.hdrFlags, F_CANCEL))
            && (f.correlationID != 0 <==>
                  Has(f.hdrFlags, F_REQUEST) || Has(f.hdrFlags, F_REPLY) || Has(f.hdrFlags, F_CANCEL))
  {
    EncodeOfDecode(b);
  }

  /** Bounds a payload reference against live geometry; the sum is taken in 64 bits. */
  function CheckPlacement(f: Frame, slotSize: u32, arenaSize: u64): Result {
    if Validate(f) != OK then Validate(f)
    else if f.payloadLen == 0 then OK
    else if Has(f.hdrFlags, F_INLINE) then
      var end := (f.payloadRef + f.payloadLen) % TWO_64;
      if end < f.payloadRef then ErrPayloadLen
      else if f.payloadRef < HDR_LEN || end > slotSize then ErrPayloadLen
      else OK
    else if f.payloadLen > arenaSize then ErrPayloadLen
    else OK
  }

  /** The placement check accepts exactly the well-formed frames whose payload, if inline, lies
      between the header and the end of the slot in exact arithmetic, so that the wrapped
      comparison loses nothing; and, if in the arena, is no longer than the arena. */
  lemma PlacementIsExact(f: Frame, slotSize: u32, arenaSize: u64)
    ensures CheckPlacement(f, slotSize, arenaSize) == OK <==>
      && WellFormed(f)
      && (Has(f.hdrFlags, F_INLINE) ==> HDR_LEN <= f.payloadRef && f.payloadRef + f.payloadLen <= slotSize)
      && (Has(f.hdrFlags, F_ARENA) ==> f.payloadLen <= arenaSize)
  {
    ValidateIsWellFormed(f);
  }

  lemma FourBlocks(was: seq<byte>, cleared: seq<byte>, off: nat,
                   h: seq<byte>, w: seq<byte>, v: seq<byte>, t: seq<byte>)
    requires |h| == |w| == |v| == |t| == 16 && |cleared| == |was| && off + HDR_LEN <= |was|
    requires cleared[..off] == was[..off] && cleared[off + HDR_LEN..] == was[off + HDR_LEN..]
    ensures Splice(Splice(Splice(Splice(cleared, off, h), off + 16, w), off + 32, v), off + 48, t)
            == Splice(was, off, h + w + v + t)
  {
    SpliceAdjacent(cleared, off, h, w);
    SpliceAdjacent(cleared, off, h + w, v);
    SpliceAdjacent(cleared, off, h + w + v, t);
  }

  /** Writes a frame into the len bytes of a buffer that start at off, or nothing at all. */
  method EncodeInto(f: Frame, a: array<byte>, off: nat, len: nat) returns (n: nat)
    requires off + len <= a.Length
    modifies a
    ensures n == if len >= HDR_LEN && Validate(f) == OK then HDR_LEN else 0
    ensures a[..] == if n == 0 then old(a[..]) else Splice(old(a[..]), off, EncodeBytes(f))
  {
    if len < HDR_LEN {
      return 0;
    }
    if Validate(f) != OK {
      return 0;
    }
    ghost var was := a[..];
    for i := 0 to HDR_LEN
      invariant a[..off] == was[..off] && a[off + HDR_LEN..] == was[off + HDR_LEN..]
    {
      a[off + i] := 0;
    }
    ghost var cleared := a[..];
    assert cleared[..off] == was[..off] && cleared[off + HDR_LEN..] == was[off + HDR_LEN..];
    StoreHead(f, a, off);
    StoreWide(f.correlationID, f.seqNo, a, off + 16);
    StoreWide(f.logicalTS, f.payloadRef, a, off + 32);
    StoreTail(f, a, off + 48);
    FourBlocks(was, cleared, off, HeadBlock(f), WideBlock(f.correlationID, f.seqNo),
               WideBlock(f.logicalTS, f.payloadRef), TailBlock(f));
    return HDR_LEN;
  }

  method StoreHead(f: Frame, a: array<byte>, off: nat)
    requires off + 16 <= a.Length
    modifies a
    ensures a[..] == Splice(old(a[..]), off, HeadBlock(f))
  {
    ghost var was := a[..];
    Store(a, off, 4, WIRE_MAGIC);
    Store(a, off + 4, 2, f.hdrFlags);
    SpliceAdjacent(was, off, Put(4, WIRE_MAGIC), Put(2, f.hdrFlags));
    Store(a, off + 6, 2, f.wireVersion);
    SpliceAdjacent(was, off, Put(4, WIRE_MAGIC) + Put(2, f.hdrFlags), Put(2, f.wireVersion));
    Store(a, off + 8, 4, f.eventKind);
    SpliceAdjacent(was, off, Put(4, WIRE_MAGIC) + Put(2, f.hdrFlags) + Put(2, f.wireVersion), Put(4, f.eventKind));
    Store(a, off + 12, 4, f.principalRef);
    SpliceAdjacent(was, off, Put(4, WIRE_MAGIC) + Put(2, f.hdrFlags) + Put(2, f.wireVersion) + Put(4, f.eventKind),
                   Put(4, f.principalRef));
  }

  method StoreWide(x: u64, y: u64, a: array<byte>, off: nat)
    requires off + 16 <= a.Length
    modifies a
    ensures a[..] == Splice(old(a[..]), off, WideBlock(x, y))
  {
    ghost var was := a[..];
    Store(a, off, 8, x);
    Store(a, off + 8, 8, y);
    SpliceAdjacent(was, off, Put(8, x), Put(8, y));
  }

  method StoreTail(f: Frame, a: array<byte>, off: nat)
    requires off + 16 <= a.Length
    modifies a
    ensures a[..] == Splice(old(a[..]), off, TailBlock(f))
  {
    ghost var was := a[..];
    Store(a, off, 4, f.payloadLen);
    Store(a, off + 4, 4, f.srcHandle);
    SpliceAdjacent(was, off, Put(4, f.payloadLen), Put(4, f.srcHandle));
    Store(a, off + 8, 4, f.dstHandle);
    SpliceAdjacent(was, off, Put(4, f.payloadLen) + Put(4, f.srcHandle), Put(4, f.dstHandle));
    Store(a, off + 12, 4, f.generation);
    SpliceAdjacent(was, off, Put(4, f.payloadLen) + Put(4, f.srcHandle) + Put(4, f.dstHandle), Put(4, f.generation));
  }

  class FrameCell {
    var frame: Frame

    constructor (f: Frame)
      ensures frame == f
    {
      frame := f;
    }
  }

  /** Decodes through a pointer; on any error the cell keeps what it held. */
  method DecodeInto(b: seq<byte>, out: FrameCell) returns (r: Result)
    modifies out
    ensures r == OK <==> Decode(b).Frame?
    ensures r == OK ==> out.frame == Decode(b).frame && EncodeBytes(out.frame) == b[..HDR_LEN]
    ensures r != OK ==> out.frame == old(out.frame) && Decode(b) == Rejected(r)
  {
    if |b| < HDR_LEN {
      return ErrShort;
    }
    if U32At(b, 0) != WIRE_MAGIC {
      return ErrMagic;
    }
    var f := Fields(b);
    r := Validate(f);
    if r == OK {
      EncodeOfDecode(b);
      out.frame := f;
    }
  }
}
