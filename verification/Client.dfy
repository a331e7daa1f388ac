/** An attached bus client (server-go/bus/client.go): emit fills and publishes an outbound
    slot, Poll takes the next inbound event and defers its release to the following Poll. */
module Client {
  import opened Bits
  import opened LittleEndian
  import opened Events
  import opened SharedRing
  import opened Wrappers
  import Wire

  datatype EmitOutcome = Sent | Protocol | PayloadTooLarge | EpochChanged | WouldBlock

  datatype PollOutcome =
    | NothingYet
    | Delivered(event: Event, at: nat)
    | ClosedEpoch
    | NotAttached
    | Panicked

  /** The checks of emit in their order: attachment, payload, epoch, room, frame. */
  function EmitResult(attached: bool, payloadLen: nat, budget: u32, slotSize: u32, epochChanged: bool,
                      full: bool, valid: bool): EmitOutcome {
    if !attached then Protocol
    else if payloadLen > 0 && (payloadLen % 0x1_0000_0000 > budget || Wire.HDR_LEN + payloadLen > slotSize)
      then PayloadTooLarge
    else if epochChanged then EpochChanged
    else if full then WouldBlock
    else if !valid then Protocol
    else Sent
  }

  /** Each outcome of emit, told by its own condition. */
  lemma EmitOutcomes(attached: bool, n: nat, budget: u32, slotSize: u32, changed: bool, full: bool, valid: bool)
    ensures var r := EmitResult(attached, n, budget, slotSize, changed, full, valid);
      var fits := n == 0 || (n % 0x1_0000_0000 <= budget && 64 + n <= slotSize);
      && (r == PayloadTooLarge <==> attached && !fits)
      && (r == EpochChanged <==> attached && fits && changed)
      && (r == WouldBlock <==> attached && fits && !changed && full)
      && (r == Sent <==> attached && fits && !changed && !full && valid)
      && (r == Protocol <==> !attached || (fits && !changed && !full && !valid))
  {
  }

  lemma HeaderThenPayload(m: seq<byte>, at: nat, slotSize: nat, header: seq<byte>, payload: seq<byte>)
    requires |header| == Wire.HDR_LEN && Wire.HDR_LEN + |payload| <= slotSize && at + slotSize <= |m|
    ensures var n := Splice(Splice(m, at, header), at + Wire.HDR_LEN, payload);
            && n[at..at + slotSize][..Wire.HDR_LEN] == header
            && n[at..at + slotSize][Wire.HDR_LEN..Wire.HDR_LEN + |payload|] == payload
  {
    hide Splice;
    var o := Splice(m, at, header);
    var n := Splice(o, at + Wire.HDR_LEN, payload);
    SliceOfSplice(m, at, header, at, at + Wire.HDR_LEN);
    SliceOfSplice(o, at + Wire.HDR_LEN, payload, at, at + Wire.HDR_LEN);
    SliceOfSplice(o, at + Wire.HDR_LEN, payload, at + Wire.HDR_LEN, at + Wire.HDR_LEN + |payload|);
    SliceOfSlice(n, at, at + slotSize, 0, Wire.HDR_LEN);
    SliceOfSlice(n, at, at + slotSize, Wire.HDR_LEN, Wire.HDR_LEN + |payload|);
    assert payload[0..|payload|] == payload && header[0..Wire.HDR_LEN] == header;
  }

  /** One slot was appended, and Poll reads exactly this event in it. */
  ghost predicate Appended(was: seq<seq<byte>>, now: seq<seq<byte>>, slotSize: u32, e: Event) {
    && |now| == |was| + 1 && now[..|was|] == was
    && |now[|was|]| == slotSize && EventsIn(now[|was|], slotSize) == [e]
  }

  class Client {
    const handle: u32
    const slotSize: u32
    const inlineBudget: u32
    const attachedEpoch: u64
    const inbound: Ring
    const outbound: Ring
    var attached: bool
    var hostEpoch: u64
    var pendingRead: bool

    ghost predicate Valid()
      reads this, inbound.mem, outbound.mem
    {
      && inbound.Valid() && outbound.Valid() && inbound.mem != outbound.mem
      && inbound.slotSize == outbound.slotSize == slotSize && slotSize >= Wire.HDR_LEN
      && (pendingRead ==> inbound.Published() != [])
    }

    /** Inbound slots that no Poll has looked at. */
    ghost function Unread(): seq<seq<byte>>
      requires Valid()
      reads this, inbound.mem, outbound.mem
    {
      if pendingRead then inbound.Published()[1..] else inbound.Published()
    }

    constructor (handle: u32, inlineBudget: u32, epoch: u64, inbound: Ring, outbound: Ring)
      requires inbound.Valid() && outbound.Valid() && inbound.mem != outbound.mem
      requires inbound.slotSize == outbound.slotSize && inbound.slotSize >= Wire.HDR_LEN
      ensures Valid() && attached && !pendingRead && hostEpoch == attachedEpoch == epoch
      ensures this.inbound == inbound && this.outbound == outbound && this.inlineBudget == inlineBudget
    {
      this.handle := handle;
      this.slotSize := inbound.slotSize;
      this.inlineBudget := inlineBudget;
      this.attachedEpoch := epoch;
      this.inbound := inbound;
      this.outbound := outbound;
      this.attached := true;
      this.hostEpoch := epoch;
      this.pendingRead := false;
    }

    /** Writes header and payload into the slot at the head; the consumer sees nothing of it. */
    method FillSlot(f: Wire.Frame, payload: seq<byte>) returns (written: nat)
      requires Valid() && |outbound.Published()| < outbound.capacity && Wire.HDR_LEN + |payload| <= slotSize
      modifies outbound.mem
      ensures Valid() && outbound.Published() == old(outbound.Published()) && outbound.Head() == old(outbound.Head())
      ensures written == if Wire.Validate(f) == Wire.OK then Wire.HDR_LEN else 0
      ensures written == 0 ==> outbound.mem[..] == old(outbound.mem[..])
      ensures written != 0 ==>
        && outbound.SlotBytes(outbound.Head())[..Wire.HDR_LEN] == Wire.EncodeBytes(f)
        && outbound.SlotBytes(outbound.Head())[Wire.HDR_LEN..Wire.HDR_LEN + |payload|] == payload
    {
      hide BitAnd, Put, Get, Wire.Validate, Wire.EncodeBytes, Queue, SlotStart, SlotIndex, Splice;
      var at := outbound.SlotAt(outbound.Head());
      ghost var was := outbound.mem[..];
      written := Wire.EncodeInto(f, outbound.mem, at, slotSize);
      if written == Wire.HDR_LEN {
        FillingKeeps(was, slotSize, outbound.capacity, at, Wire.EncodeBytes(f));
        outbound.Fill(at + Wire.HDR_LEN, payload);
        HeaderThenPayload(was, at, slotSize, Wire.EncodeBytes(f), payload);
        outbound.SlotInMemory(outbound.Head());
      }
    }

    /** Sends one frame, or changes nothing at all: a failing emit leaves every byte of the
        outbound ring, published or not, as it was. */
    method Emit(flags: u16, kind: u32, correlation: u64, payload: seq<byte>) returns (r: EmitOutcome)
      requires Valid()
      modifies outbound.mem
      ensures Valid() && Unread() == old(Unread())
      ensures |payload| < 0x1_0000_0000 ==>
                r == EmitResult(attached, |payload|, inlineBudget, slotSize, hostEpoch != attachedEpoch,
                                |old(outbound.Published())| == outbound.capacity,
                                Wire.Validate(SentFrame(flags, kind, correlation, |payload|, handle)) == Wire.OK)
      ensures r != Sent ==> outbound.mem[..] == old(outbound.mem[..])
      ensures r == Sent ==>
        && |payload| < 0x1_0000_0000
        && Appended(old(outbound.Published()), outbound.Published(), slotSize,
                    Event(SentFrame(flags, kind, correlation, |payload|, handle), payload))
    {
      hide BitAnd, Put, Get, Wire.Validate, Wire.EncodeBytes, Queue, SlotStart, SlotIndex, EventsIn, SentFrame;
      if !attached {
        return Protocol;
      }
      if |payload| > 0 && (|payload| % 0x1_0000_0000 > inlineBudget || Wire.HDR_LEN + |payload| > slotSize) {
        return PayloadTooLarge;
      }
      if hostEpoch != attachedEpoch {
        return EpochChanged;
      }
      var slot := outbound.ProduceBegin();
      if slot == None {
        return WouldBlock;
      }
      var f := SentFrame(flags, kind, correlation, |payload|, handle);
      var written := FillSlot(f, payload);
      if written != Wire.HDR_LEN {
        return Protocol;
      }
      SentSlotOpens(outbound.SlotBytes(outbound.Head()), slotSize, flags, kind, correlation, payload, handle);
      outbound.ProduceCommit();
      return Sent;
    }

    /** A one-way notification. */
    method Publish(kind: u32, payload: seq<byte>) returns (r: EmitOutcome)
      requires Valid()
      modifies outbound.mem
      ensures Valid() && Unread() == old(Unread())
      ensures r != Sent ==> outbound.mem[..] == old(outbound.mem[..])
      ensures r == Sent ==>
        && |payload| < 0x1_0000_0000
        && Appended(old(outbound.Published()), outbound.Published(), slotSize,
                    Event(SentFrame(Wire.F_NOTIFICATION, kind, 0, |payload|, handle), payload))
      ensures attached && (payload == [] || InBudget(|payload|)) ==>
        r == if hostEpoch != attachedEpoch then EpochChanged
             else if |old(outbound.Published())| == outbound.capacity then WouldBlock
             else Sent
    {
      hide BitAnd, Wire.Validate, EventsIn, SentFrame, Appended, Ring.Published, Ring.Valid, Unread;
      if |payload| <= Wire.MAX_PAYLOAD {
        NotificationValid(kind, |payload|, handle);
      }
      r := Emit(Wire.F_NOTIFICATION, kind, 0, payload);
    }

    /** One ordered request fragment. */
    method RequestFragment(kind: u32, correlation: u64, payload: seq<byte>, more: bool) returns (r: EmitOutcome)
      requires Valid()
      modifies outbound.mem
      ensures Valid() && Unread() == old(Unread())
      ensures correlation == 0 || (more && payload == []) ==> r == Protocol
      ensures r != Sent ==> outbound.mem[..] == old(outbound.mem[..])
      ensures r == Sent ==>
        && |payload| < 0x1_0000_0000
        && Appended(old(outbound.Published()), outbound.Published(), slotSize,
                    Event(SentFrame(RequestFlags(more), kind, correlation, |payload|, handle), payload))
      ensures attached && correlation != 0 && 0 < |payload| && InBudget(|payload|) ==>
        r == if hostEpoch != attachedEpoch then EpochChanged
             else if |old(outbound.Published())| == outbound.capacity then WouldBlock
             else Sent
    {
      hide BitAnd, Wire.Validate, EventsIn, SentFrame, Appended, Ring.Published, Ring.Valid, Unread;
      if correlation == 0 {
        return Protocol;
      }
      if more && |payload| == 0 {
        return Protocol;
      }
      if |payload| <= Wire.MAX_PAYLOAD {
        SentFrameValid(kind, correlation, |payload|, handle, more);
      }
      r := Emit(RequestFlags(more), kind, correlation, payload);
    }

    /** What a payload of a fragment has to fit into for emit to accept it. */
    predicate InBudget(n: nat)
      reads this
    {
      n <= inlineBudget && Wire.HDR_LEN + n <= slotSize && n <= Wire.MAX_PAYLOAD
    }

    /** One ordered reply fragment. */
    method ReplyFragment(kind: u32, correlation: u64, payload: seq<byte>, more: bool) returns (r: EmitOutcome)
      requires Valid()
      modifies outbound.mem
      ensures Valid() && Unread() == old(Unread())
      ensures correlation == 0 || (more && payload == []) ==> r == Protocol
      ensures r != Sent ==> outbound.mem[..] == old(outbound.mem[..])
      ensures r == Sent ==>
        && |payload| < 0x1_0000_0000
        && Appended(old(outbound.Published()), outbound.Published(), slotSize,
                    Event(SentFrame(ReplyFlags(more), kind, correlation, |payload|, handle), payload))
      ensures attached && correlation != 0 && 0 < |payload| && InBudget(|payload|) ==>
        r == if hostEpoch != attachedEpoch then EpochChanged
             else if |old(outbound.Published())| == outbound.capacity then WouldBlock
             else Sent
    {
      hide BitAnd, Wire.Validate, EventsIn, SentFrame, Appended, Ring.Published, Ring.Valid, Unread;
      if correlation == 0 {
        return Protocol;
      }
      if more && |payload| == 0 {
        return Protocol;
      }
      if |payload| <= Wire.MAX_PAYLOAD {
        SentFrameValid(kind, correlation, |payload|, handle, more);
      }
      r := Emit(ReplyFlags(more), kind, correlation, payload);
    }

    /** Cancels an outstanding request. */
    method Cancel(kind: u32, correlation: u64) returns (r: EmitOutcome)
      requires Valid()
      modifies outbound.mem
      ensures Valid() && Unread() == old(Unread())
      ensures correlation == 0 || !attached ==> r == Protocol
      ensures r != Sent ==> outbound.mem[..] == old(outbound.mem[..])
      ensures r == Sent ==>
        Appended(old(outbound.Published()), outbound.Published(), slotSize,
                 Event(SentFrame(CancelFlags(), kind, correlation, 0, handle), []))
      ensures attached && correlation != 0 ==>
        r == if hostEpoch != attachedEpoch then EpochChanged
             else if |old(outbound.Published())| == outbound.capacity then WouldBlock
             else Sent
    {
      hide BitAnd, Wire.Validate, EventsIn, SentFrame, Appended, Ring.Published, Ring.Valid, Unread;
      if correlation == 0 {
        return Protocol;
      }
      CancelFrameValid(kind, correlation, handle);
      r := Emit(CancelFlags(), kind, correlation, []);
    }

    /** Takes the next inbound event. A delivered payload is the view [at, at + length) of the
        inbound mapping; it belongs to a slot that stays published until the next Poll. */
    method Poll() returns (r: PollOutcome)
      requires Valid()
      modifies this`pendingRead, inbound.mem
      ensures Valid() && inbound.Body() == old(inbound.Body()) && inbound.Head() == old(inbound.Head())
      ensures !attached ==> r == NotAttached
      ensures attached && hostEpoch != attachedEpoch ==> r == ClosedEpoch
      ensures r.NotAttached? || r.ClosedEpoch? ==>
        inbound.mem[..] == old(inbound.mem[..]) && pendingRead == old(pendingRead)
      ensures attached && hostEpoch == attachedEpoch ==>
        Taken(old(Unread()), r)
    {
      hide BitAnd, Put, Get, OpenHeader, Queue, SlotStart, SlotIndex, Taken;
      if !attached {
        return NotAttached;
      }
      if hostEpoch != attachedEpoch {
        return ClosedEpoch;
      }
      Release();
      r := Take();
    }

    /** The deferred ConsumeCommit of the previous Poll. */
    method Release()
      requires Valid()
      modifies this`pendingRead, inbound.mem
      ensures Valid() && !pendingRead && inbound.Published() == old(Unread())
      ensures inbound.Body() == old(inbound.Body()) && inbound.Head() == old(inbound.Head())
    {
      if pendingRead {
        inbound.ConsumeCommit();
        pendingRead := false;
      }
    }

    /** Takes the oldest published slot, if any. */
    method Take() returns (r: PollOutcome)
      requires Valid() && !pendingRead
      modifies this`pendingRead, inbound.mem
      ensures Valid() && inbound.Body() == old(inbound.Body()) && inbound.Head() == old(inbound.Head())
      ensures Taken(old(inbound.Published()), r) && !r.NotAttached? && !r.ClosedEpoch?
    {
      hide BitAnd, Put, Get, Open, Queue, SlotStart, SlotIndex, Taken, Ring.Body, Ring.Head, Ring.Tail, Ring.SlotAt;
      var begun := inbound.ConsumeBegin();
      if begun == None {
        NothingTaken();
        return NothingYet;
      }
      var off := begun.value;
      inbound.SlotInMemory(inbound.Tail());
      var slot := inbound.mem[off..off + slotSize];
      OpenInBounds(slot, slotSize);
      ghost var unread := inbound.Published();
      match Open(slot, slotSize) {
        case Malformed =>
          inbound.ConsumeCommit();
          MalformedTaken(unread);
          return NothingYet;
        case OutOfRange =>
          PanicTaken(unread);
          return Panicked;
        case Opened(f, from, to) =>
          pendingRead := true;
          OpenedTaken(f, from, to, off);
          return Delivered(Event(f, slot[from..to]), off + from);
      }
    }

    lemma NothingTaken()
      requires Valid() && !pendingRead && inbound.Published() == []
      ensures Taken([], NothingYet)
    {
    }

    lemma MalformedTaken(unread: seq<seq<byte>>)
      requires Valid() && !pendingRead && unread != [] && inbound.Published() == unread[1..]
      requires Open(unread[0], slotSize) == Malformed
      ensures Taken(unread, NothingYet)
    {
      hide Open;
    }

    lemma PanicTaken(unread: seq<seq<byte>>)
      requires Valid() && !pendingRead && unread != [] && inbound.Published() == unread
      requires Open(unread[0], slotSize) == OutOfRange
      ensures Taken(unread, Panicked)
    {
      hide Open;
    }

    /** The view of the oldest slot is the event it opens to. */
    lemma OpenedTaken(f: Wire.Frame, from: nat, to: nat, off: nat)
      requires Valid() && pendingRead && from <= to <= slotSize
      requires off == inbound.SlotAt(inbound.Tail()) && off + slotSize <= inbound.mem.Length
      requires inbound.Published()[0] == inbound.mem[off..off + slotSize]
      requires Open(inbound.Published()[0], slotSize) == Opened(f, from, to)
      ensures Taken(inbound.Published(), Delivered(Event(f, inbound.mem[off..off + slotSize][from..to]), off + from))
    {
      hide Open, EventsIn, Ring.Body, Ring.Head, Ring.Tail, Ring.SlotAt, Queue;
      var m := inbound.mem[..];
      var slot := m[off..off + slotSize];
      assert inbound.mem[off..off + slotSize] == slot;
      OpenedEvent(slot, slotSize, f, from, to);
      SliceOfSlice(m, off, off + slotSize, from, to);
      assert inbound.mem[off + from..off + to] == m[off + from..off + to];
    }

    /** What taking from a queue of unread slots leaves and returns. */
    ghost predicate Taken(unread: seq<seq<byte>>, r: PollOutcome)
      requires Valid()
      reads this, inbound.mem, outbound.mem
    {
      if unread == [] then
        r == NothingYet && !pendingRead && Unread() == []
      else match Open(unread[0], slotSize)
        case Malformed => r == NothingYet && !pendingRead && Unread() == unread[1..]
        case OutOfRange => r == Panicked && !pendingRead && Unread() == unread
        case Opened(f, from, to) =>
          && pendingRead && Unread() == unread[1..] && inbound.Published() == unread
          && |unread[0]| == slotSize && r.Delivered? && [r.event] == EventsIn(unread[0], slotSize)
          && r.at == inbound.SlotAt(inbound.Tail()) + from && to - from == |r.event.payload|
          && r.at + |r.event.payload| <= inbound.mem.Length
          && inbound.mem[r.at..r.at + |r.event.payload|] == r.event.payload
    }
  }
}
