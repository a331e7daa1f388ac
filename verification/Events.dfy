/** A slot of a ring read as an event (server-go/bus/client.go, Poll), and the frames that
    emit builds (emit, RequestFragment, ReplyFragment, Cancel). */
module Events {
  import opened Bits
  import opened LittleEndian
  import Wire

  datatype Event = Event(frame: Wire.Frame, payload: seq<byte>)

  /** What Poll makes of a slot: a malformed header is dropped; an inline payload is the
      view [from, to) of the slot; a reference whose 64-bit sum wraps is a slice whose
      bounds are out of order, on which Poll stops with a run-time panic. */
  datatype Opened = Malformed | Opened(frame: Wire.Frame, from: nat, to: nat) | OutOfRange

  function OpenFrame(f: Wire.Frame, slotSize: u32): Opened {
    var end := (f.payloadRef + f.payloadLen) % TWO_64;
    if Wire.Has(f.hdrFlags, Wire.F_INLINE) && f.payloadLen > 0 && end <= slotSize then
      if f.payloadRef <= end then Opened(f, f.payloadRef, end) else OutOfRange
    else Opened(f, 0, 0)
  }

  function OpenHeader(header: seq<byte>, slotSize: u32): Opened {
    match Wire.Decode(header)
    case Rejected(_) => Malformed
    case Frame(f) => OpenFrame(f, slotSize)
  }

  function Open(slot: seq<byte>, slotSize: u32): Opened {
    OpenHeader(if |slot| < Wire.HDR_LEN then slot else slot[..Wire.HDR_LEN], slotSize)
  }

  lemma OpenInBounds(slot: seq<byte>, slotSize: u32)
    ensures Open(slot, slotSize).Opened? ==> Open(slot, slotSize).from <= Open(slot, slotSize).to <= slotSize
  {
  }

  /** The event Poll delivers for a slot, if it delivers one. */
  function EventsIn(slot: seq<byte>, slotSize: u32): (es: seq<Event>)
    requires |slot| == slotSize
    ensures |es| <= 1
  {
    match Open(slot, slotSize)
    case Opened(f, from, to) => [Event(f, slot[from..to])]
    case _ => []
  }

  lemma OpenedEvent(slot: seq<byte>, slotSize: u32, f: Wire.Frame, from: nat, to: nat)
    requires |slot| == slotSize && from <= to <= slotSize && Open(slot, slotSize) == Opened(f, from, to)
    ensures EventsIn(slot, slotSize) == [Event(f, slot[from..to])]
  {
    hide Open;
  }

  /** Poll panics on a slot exactly when it holds a frame whose inline reference wraps past
      2^64 back into the slot. */
  lemma PanicsWhenReferenceWraps(slot: seq<byte>, slotSize: u32)
    requires |slot| >= Wire.HDR_LEN
    ensures Open(slot, slotSize) == OutOfRange <==>
            var d := Wire.Decode(slot[..Wire.HDR_LEN]);
            && d.Frame?
            && Wire.Has(d.frame.hdrFlags, Wire.F_INLINE)
            && TWO_64 <= d.frame.payloadRef + d.frame.payloadLen <= TWO_64 + slotSize
  {
    hide Wire.Validate, Wire.Fields;
    var d := Wire.Decode(slot[..Wire.HDR_LEN]);
    if d.Frame? {
      Wire.EncodeOfDecode(slot[..Wire.HDR_LEN]);
      FrameWraps(d.frame, slotSize);
    }
  }

  lemma FrameWraps(f: Wire.Frame, slotSize: u32)
    requires Wire.WellFormed(f)
    ensures OpenFrame(f, slotSize) == OutOfRange <==>
            Wire.Has(f.hdrFlags, Wire.F_INLINE) && TWO_64 <= f.payloadRef + f.payloadLen <= TWO_64 + slotSize
  {
    hide BitAnd;
    var x := f.payloadRef + f.payloadLen;
    assert x < TWO_64 ==> x % TWO_64 == x;
    assert TWO_64 <= x ==> x % TWO_64 == x - TWO_64;
  }

  /** Such a frame exists: a valid request whose one payload byte is referred to at the very end
      of the address space. */
  lemma WrappedReference() returns (slot: seq<byte>)
    ensures |slot| == Wire.HDR_LEN && Open(slot, Wire.HDR_LEN) == OutOfRange
  {
    hide Wire.Validate, Wire.EncodeBytes, Wire.Fields, OpenFrame;
    var flags: u16 := Wire.F_REQUEST + Wire.F_INLINE;
    var f := Wire.Frame.Frame(flags, Wire.WIRE_VERSION, 1, 0, 7, 0, 0, TWO_64 - 1, 1, 0, 0, 0);
    Wire.HasIsBit(flags);
    Wire.ValidateIsWellFormed(f);
    slot := Wire.EncodeBytes(f);
    Wire.DecodeOfEncode(f, []);
    assert slot + [] == slot && slot[..Wire.HDR_LEN] == slot;
    FrameWraps(f, Wire.HDR_LEN);
  }

  /** What Poll hands out of a well-formed frame, in exact arithmetic: the inline range if it ends
      inside the slot, nothing of it if it ends behind, and the panic if it wraps back in. */
  lemma OpensExactly(f: Wire.Frame, slotSize: u32)
    requires Wire.WellFormed(f)
    ensures OpenFrame(f, slotSize) ==
      var end := f.payloadRef + f.payloadLen;
      if !Wire.Has(f.hdrFlags, Wire.F_INLINE) then Opened(f, 0, 0)
      else if end <= slotSize then Opened(f, f.payloadRef, end)
      else if TWO_64 <= end <= TWO_64 + slotSize then OutOfRange
      else Opened(f, 0, 0)
  {
    hide BitAnd;
    var x := f.payloadRef + f.payloadLen;
    assert x < TWO_64 ==> x % TWO_64 == x;
    assert TWO_64 <= x ==> x % TWO_64 == x - TWO_64;
  }

  /** A frame that passes the placement check is delivered with exactly the payload it
      refers to. */
  lemma PlacedFramesOpen(slot: seq<byte>, slotSize: u32, arenaSize: u64)
    requires |slot| >= Wire.HDR_LEN && Wire.Decode(slot[..Wire.HDR_LEN]).Frame?
    requires Wire.CheckPlacement(Wire.Decode(slot[..Wire.HDR_LEN]).frame, slotSize, arenaSize) == Wire.OK
    ensures var f := Wire.Decode(slot[..Wire.HDR_LEN]).frame;
            Open(slot, slotSize) ==
            if Wire.Has(f.hdrFlags, Wire.F_INLINE) then Opened(f, f.payloadRef, f.payloadRef + f.payloadLen)
            else Opened(f, 0, 0)
  {
    hide Wire.Fields;
    var f := Wire.Decode(slot[..Wire.HDR_LEN]).frame;
    Wire.EncodeOfDecode(slot[..Wire.HDR_LEN]);
    FramePlaced(f, slotSize, arenaSize);
  }

  lemma FramePlaced(f: Wire.Frame, slotSize: u32, arenaSize: u64)
    requires Wire.CheckPlacement(f, slotSize, arenaSize) == Wire.OK
    ensures OpenFrame(f, slotSize) ==
            if Wire.Has(f.hdrFlags, Wire.F_INLINE) then Opened(f, f.payloadRef, f.payloadRef + f.payloadLen)
            else Opened(f, 0, 0)
  {
    Wire.ValidateIsWellFormed(f);
    if Wire.Has(f.hdrFlags, Wire.F_INLINE) {
      Wire.PlacementIsExact(f, slotSize, arenaSize);
    }
  }

  /** The frame emit builds. */
  function SentFrame(flags: u16, kind: u32, correlation: u64, payloadLen: u32, handle: u32): Wire.Frame {
    Wire.Frame.Frame(
      if payloadLen > 0 then BitOr(flags, Wire.F_INLINE) else flags, Wire.WIRE_VERSION, kind, 0, correlation, 0, 0,
      if payloadLen > 0 then Wire.HDR_LEN else 0, payloadLen, handle, 0, 0)
  }

  function BitOr(a: u16, b: u16): u16
  {
    OrFits(a, b, 16);
    SmallPowers();
    a + b - BitAnd(a, b)
  }

  lemma {:induction false} OrFits(a: nat, b: nat, n: nat)
    requires a < Pow2(n) && b < Pow2(n)
    ensures a + b - BitAnd(a, b) < Pow2(n)
  {
    if n > 0 {
      OrFits(a / 2, b / 2, n - 1);
      BitAndStep(a, b);
    }
  }

  function RequestFlags(more: bool): u16 {
    if more then Wire.F_REQUEST + Wire.F_MORE else Wire.F_REQUEST
  }

  function ReplyFlags(more: bool): u16 {
    if more then Wire.F_REPLY + Wire.F_MORE else Wire.F_REPLY
  }

  function CancelFlags(): u16 {
    Wire.F_CANCEL
  }

  /** Which bits the built flag words carry. */
  lemma SentFlags(more: bool, inline: bool)
    ensures var flags := RequestFlags(more);
            var word := if inline then BitOr(flags, Wire.F_INLINE) else flags;
            && word < 0x100 && Wire.Has(word, Wire.F_REQUEST) && !Wire.Has(word, Wire.F_REPLY)
            && !Wire.Has(word, Wire.F_CANCEL) && !Wire.Has(word, Wire.F_NOTIFICATION) && !Wire.Has(word, Wire.F_ARENA)
            && Wire.Has(word, Wire.F_INLINE) == inline && Wire.Has(word, Wire.F_MORE) == more
    ensures var flags := ReplyFlags(more);
            var word := if inline then BitOr(flags, Wire.F_INLINE) else flags;
            && word < 0x100 && Wire.Has(word, Wire.F_REPLY) && !Wire.Has(word, Wire.F_REQUEST)
            && !Wire.Has(word, Wire.F_CANCEL) && !Wire.Has(word, Wire.F_NOTIFICATION) && !Wire.Has(word, Wire.F_ARENA)
            && Wire.Has(word, Wire.F_INLINE) == inline && Wire.Has(word, Wire.F_MORE) == more
  {
    hide BitAnd, BitOr, Wire.Has, RequestFlags, ReplyFlags;
    FlagWords(more);
    var request, reply := RequestFlags(more), ReplyFlags(more);
    OrInline(request);
    OrInline(reply);
    Wire.HasIsBit(if inline then request + 1 else request);
    Wire.HasIsBit(if inline then reply + 1 else reply);
  }

  lemma FlagWords(more: bool)
    ensures RequestFlags(more) == (if more then 136 else 8) && ReplyFlags(more) == (if more then 144 else 16)
  {
  }

  lemma OrInline(flags: u16)
    requires flags % 2 == 0
    ensures flags + 1 < 0x1_0000 && BitOr(flags, Wire.F_INLINE) == flags + 1
  {
    hide BitAnd;
    LastBit(flags);
  }

  /** A request or reply fragment that emit builds is a valid frame exactly when its payload
      respects the wire bound and a fragment with a successor carries one. */
  lemma SentFrameValid(kind: u32, correlation: u64, payloadLen: u32, handle: u32, more: bool)
    requires correlation != 0
    ensures Wire.Validate(SentFrame(RequestFlags(more), kind, correlation, payloadLen, handle)) == Wire.OK <==>
            payloadLen <= Wire.MAX_PAYLOAD && (more ==> payloadLen > 0)
    ensures Wire.Validate(SentFrame(ReplyFlags(more), kind, correlation, payloadLen, handle)) == Wire.OK <==>
            payloadLen <= Wire.MAX_PAYLOAD && (more ==> payloadLen > 0)
  {
    SentFlags(more, payloadLen > 0);
    Wire.ValidateIsWellFormed(SentFrame(RequestFlags(more), kind, correlation, payloadLen, handle));
    Wire.ValidateIsWellFormed(SentFrame(ReplyFlags(more), kind, correlation, payloadLen, handle));
  }

  /** A notification frame is valid exactly when its payload respects the wire bound. */
  lemma NotificationValid(kind: u32, payloadLen: u32, handle: u32)
    ensures Wire.Validate(SentFrame(Wire.F_NOTIFICATION, kind, 0, payloadLen, handle)) == Wire.OK <==>
            payloadLen <= Wire.MAX_PAYLOAD
  {
    var f := SentFrame(Wire.F_NOTIFICATION, kind, 0, payloadLen, handle);
    assert BitAnd(Wire.F_NOTIFICATION, Wire.F_INLINE) == 0 by {
      Wire.WeightsOfBits(Wire.F_NOTIFICATION);
    }
    Wire.HasIsBit(Wire.F_NOTIFICATION);
    Wire.HasIsBit(Wire.F_NOTIFICATION + Wire.F_INLINE);
    Wire.ValidateIsWellFormed(f);
  }

  /** A cancel carries no payload and is always valid. */
  lemma CancelFrameValid(kind: u32, correlation: u64, handle: u32)
    requires correlation != 0
    ensures Wire.Validate(SentFrame(CancelFlags(), kind, correlation, 0, handle)) == Wire.OK
    ensures Wire.Has(CancelFlags(), Wire.F_CANCEL) && !Wire.Has(CancelFlags(), Wire.F_REQUEST)
    ensures !Wire.Has(CancelFlags(), Wire.F_REPLY)
  {
    Wire.HasIsBit(CancelFlags());
    Wire.ValidateIsWellFormed(SentFrame(CancelFlags(), kind, correlation, 0, handle));
  }

  lemma OrSetsInline(flags: u16)
    ensures Wire.Has(BitOr(flags, Wire.F_INLINE), Wire.F_INLINE)
  {
    hide BitAnd;
    LastBit(flags);
    LastBit(BitOr(flags, Wire.F_INLINE));
  }

  lemma LastBit(flags: u16)
    ensures BitAnd(flags, 1) == flags % 2
  {
    hide BitAnd;
    assert Pow2(0) == 1;
    SingleBit(flags, 0);
  }

  /** A slot that emit filled opens to exactly the frame and the payload it was given. */
  lemma SentSlotOpens(slot: seq<byte>, slotSize: u32, flags: u16, kind: u32, correlation: u64,
                      payload: seq<byte>, handle: u32)
    requires |slot| == slotSize && Wire.HDR_LEN + |payload| <= slotSize
    requires var f := SentFrame(flags, kind, correlation, |payload|, handle);
             && Wire.Validate(f) == Wire.OK
             && slot[..Wire.HDR_LEN] == Wire.EncodeBytes(f)
             && slot[Wire.HDR_LEN..Wire.HDR_LEN + |payload|] == payload
    ensures EventsIn(slot, slotSize) == [Event(SentFrame(flags, kind, correlation, |payload|, handle), payload)]
  {
    hide Wire.Validate, Wire.Fields, Wire.EncodeBytes, BitAnd;
    var f := SentFrame(flags, kind, correlation, |payload|, handle);
    Wire.DecodeOfEncode(f, []);
    assert Wire.EncodeBytes(f) + [] == slot[..Wire.HDR_LEN];
    Wire.ValidateIsWellFormed(f);
    OrSetsInline(flags);
    assert (f.payloadRef + f.payloadLen) % TWO_64 == f.payloadRef + f.payloadLen;
    if |payload| == 0 {
      assert slot[0..0] == payload;
    }
  }
}
