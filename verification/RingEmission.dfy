/** emit as the producer of the interleaved ring (server-go/bus/client.go, emit;
    server-go/bus/ring.go): its header and payload bytes are written one by one between the two
    index operations, while Poll runs on the other side. */
module RingEmission {
  import opened LittleEndian
  import opened Wrappers
  import opened Events
  import opened SharedRing
  import P = RingProtocol
  import Wire

  /** What one call of emit wants to send. */
  datatype Emission = Emission(flags: u16, kind: u32, correlation: u64, payload: seq<byte>, handle: u32)
  {
    /** The length fits the header field, as emit's budget check has established. */
    predicate Sized() {
      |payload| < 0x1_0000_0000
    }

    function Frame(): Wire.Frame
      requires Sized()
    {
      SentFrame(flags, kind, correlation, |payload|, handle)
    }

    function Event(): Events.Event
      requires Sized()
    {
      Events.Event.Event(Frame(), payload)
    }

    function Bytes(): (b: seq<byte>)
      requires Sized()
      ensures |b| == Wire.HDR_LEN + |payload|
    {
      Wire.EncodeBytes(Frame()) + payload
    }

    predicate Fits(slotSize: u32) {
      Sized() && Wire.HDR_LEN + |payload| <= slotSize
    }

    /** Encode accepts the frame. */
    predicate Valid()
      requires Sized()
    {
      Wire.Validate(Frame()) == Wire.OK
    }
  }

  /** The ring, the call of emit under way and how many bytes it has written, and the events of
      the calls that succeeded. */
  datatype State = State(ring: P.State, current: Option<Emission>, written: nat, emitted: seq<Event>)

  datatype Action =
    | Begin(emission: Emission)
    | LoadTail
    | WriteNext
    | Refuse
    | ReloadHead
    | StoreHead
    | Consume(action: P.Action)

  predicate OfConsumer(a: P.Action) {
    a.PollBegins? || a.PollStoresTail? || a.PollLoadsTail? || a.PollLoadsHead? || a.PollReads? || a.PollDecides? || a.PollDrops?
  }

  /** The step of the ring machine behind a step of emit or Poll. */
  function RingAction(s: State, a: Action): P.Action
    requires a.WriteNext? ==> s.current.Some? && s.current.value.Sized() && s.written < |s.current.value.Bytes()|
  {
    match a
    case Begin(_) => P.ProducerLoadsHead
    case LoadTail => P.ProducerLoadsTail
    case WriteNext => P.ProducerWrites(s.written, s.current.value.Bytes()[s.written])
    case Refuse => P.ProducerGivesUp
    case ReloadHead => P.ProducerReloadsHead
    case StoreHead => P.ProducerStoresHead
    case Consume(b) => b
  }

  ghost predicate Enabled(s: State, a: Action) {
    match a
    case Begin(e) => s.ring.producer.Idle? && e.Fits(s.ring.slotSize)
    case LoadTail => s.ring.producer.HeadLoaded?
    case WriteNext => Emitting(s) && s.current.value.Valid() && s.written < |s.current.value.Bytes()|
    case Refuse => Emitting(s) && !s.current.value.Valid()
    case ReloadHead => Emitting(s) && s.current.value.Valid() && s.written == |s.current.value.Bytes()|
    case StoreHead => s.ring.producer.Committing? && s.current.Some? && s.current.value.Sized()
    case Consume(b) => OfConsumer(b) && P.Enabled(s.ring, b)
  }

  predicate Emitting(s: State) {
    s.ring.producer.Filling? && s.current.Some? && s.current.value.Fits(s.ring.slotSize)
  }

  lemma RingStepEnabled(s: State, a: Action)
    requires Enabled(s, a)
    ensures P.Enabled(s.ring, RingAction(s, a))
  {
  }

  function Next(s: State, a: Action): State
    requires P.Shape(s.ring) && Enabled(s, a)
  {
    RingStepEnabled(s, a);
    var ring := P.Next(s.ring, RingAction(s, a));
    match a
    case Begin(e) => State(ring, Some(e), 0, s.emitted)
    case LoadTail => s.(ring := ring, current := if ring.producer.Idle? then None else s.current)
    case WriteNext => s.(ring := ring, written := s.written + 1)
    case Refuse => s.(ring := ring, current := None)
    case ReloadHead => s.(ring := ring)
    case StoreHead => s.(ring := ring, current := None, emitted := s.emitted + [s.current.value.Event()])
    case Consume(_) => s.(ring := ring)
  }

  /** Every published slot holds the event of the emit call that filled it. */
  ghost predicate Matches(slots: seq<seq<byte>>, slotSize: u32, emitted: seq<Event>) {
    && |slots| == |emitted|
    && forall i :: 0 <= i < |slots| ==> |slots[i]| == slotSize && EventsIn(slots[i], slotSize) == [emitted[i]]
  }

  /** The call under way has its first written bytes in the slot at head. */
  ghost predicate Writing(s: State)
    requires P.Shape(s.ring)
  {
    match s.ring.producer
    case Idle => s.current == None
    case HeadLoaded(_) => s.current.Some? && s.current.value.Fits(s.ring.slotSize) && s.written == 0
    case Filling(h) => s.current.Some? && Placed(s, h, s.current.value)
    case Committing(h) =>
      s.current.Some? && Placed(s, h, s.current.value) && s.current.value.Valid() && s.written == |s.current.value.Bytes()|
  }

  ghost predicate Placed(s: State, h: u64, e: Emission)
    requires P.Shape(s.ring)
  {
    && e.Fits(s.ring.slotSize) && s.written <= |e.Bytes()|
    && s.ring.slots[P.IndexOf(s.ring, h)][..s.written] == e.Bytes()[..s.written]
  }

  ghost predicate Inv(s: State) {
    P.Inv(s.ring) && Writing(s) && Matches(s.ring.committed, s.ring.slotSize, s.emitted)
  }

  /** A slot that holds all the bytes of a valid emission holds its event. */
  lemma FilledSlotMatches(slot: seq<byte>, slotSize: u32, e: Emission)
    requires |slot| == slotSize && e.Fits(slotSize) && e.Valid() && slot[..|e.Bytes()|] == e.Bytes()
    ensures EventsIn(slot, slotSize) == [e.Event()]
  {
    hide Wire.Validate, Wire.EncodeBytes, SentFrame, EventsIn;
    var b := e.Bytes();
    assert slot[..Wire.HDR_LEN] == slot[..|b|][..Wire.HDR_LEN] == Wire.EncodeBytes(e.Frame());
    assert slot[Wire.HDR_LEN..Wire.HDR_LEN + |e.payload|] == slot[..|b|][Wire.HDR_LEN..] == e.payload;
    SentSlotOpens(slot, slotSize, e.flags, e.kind, e.correlation, e.payload, e.handle);
  }

  /** A step that leaves slots, indices and history alone. */
  lemma QuietStep(s: State, a: Action)
    requires P.Shape(s.ring) && P.ProducerInv(s.ring) && Writing(s) && Enabled(s, a)
    requires (a.Begin? || a.LoadTail? || a.Refuse? || a.ReloadHead?)
    ensures Writing(Next(s, a)) && Next(s, a).ring.committed == s.ring.committed && Next(s, a).emitted == s.emitted
    ensures Next(s, a).ring.slotSize == s.ring.slotSize
  {
    hide SlotIndex, Count, Emission.Bytes, Wire.Validate, SentFrame;
  }

  lemma WriteStep(s: State)
    requires P.Shape(s.ring) && Writing(s) && Enabled(s, WriteNext)
    ensures Writing(Next(s, WriteNext)) && Next(s, WriteNext).ring.committed == s.ring.committed
    ensures Next(s, WriteNext).ring.slotSize == s.ring.slotSize
  {
    hide SlotIndex, Emission.Bytes, Wire.Validate, SentFrame;
    var h, b, k := s.ring.producer.h, s.current.value.Bytes(), s.written;
    var was := s.ring.slots[P.IndexOf(s.ring, h)];
    var now := Next(s, WriteNext).ring.slots[P.IndexOf(s.ring, h)];
    assert now == was[k := b[k]];
    assert now[..k + 1] == was[..k] + [b[k]] && b[..k + 1] == b[..k] + [b[k]];
  }

  lemma StoreStep(s: State)
    requires P.Shape(s.ring) && Writing(s) && Matches(s.ring.committed, s.ring.slotSize, s.emitted)
    requires Enabled(s, StoreHead)
    ensures var n := Next(s, StoreHead); Writing(n) && Matches(n.ring.committed, n.ring.slotSize, n.emitted)
  {
    hide SlotIndex, Emission.Bytes, Wire.Validate, SentFrame, EventsIn, Advance;
    var n := Next(s, StoreHead);
    var slot := s.ring.slots[P.IndexOf(s.ring, s.ring.producer.h)];
    assert s.current.value.Bytes()[..s.written] == s.current.value.Bytes();
    FilledSlotMatches(slot, s.ring.slotSize, s.current.value);
    assert n.ring.committed == s.ring.committed + [slot];
  }

  lemma ConsumeStep(s: State, b: P.Action)
    requires P.Shape(s.ring) && Writing(s) && Enabled(s, Consume(b))
    ensures var n := Next(s, Consume(b));
      && n.ring.slots == s.ring.slots && n.ring.capacity == s.ring.capacity && n.ring.slotSize == s.ring.slotSize
      && Writing(n) && n.ring.committed == s.ring.committed
  {
    hide SlotIndex, Emission.Bytes, Wire.Validate, SentFrame, Count, Advance, OpenHeader, P.View;
  }

  /** Every step of emit or of Poll keeps the invariant of the ring and of emit. */
  lemma StepKeepsInv(s: State, a: Action)
    requires Inv(s) && Enabled(s, a)
    ensures Inv(Next(s, a))
  {
    hide P.Inv, Writing, Matches, P.Next, P.Enabled, P.Shape, P.ProducerInv;
    InvShapes(s);
    RingStepEnabled(s, a);
    P.StepKeepsInv(s.ring, RingAction(s, a));
    match a
    case WriteNext => WriteStep(s);
    case StoreHead => StoreStep(s);
    case Consume(b) => ConsumeStep(s, b);
    case _ => QuietStep(s, a);
  }

  lemma InvShapes(s: State)
    requires Inv(s)
    ensures P.Shape(s.ring) && P.ProducerInv(s.ring)
  {
  }

  ghost predicate Legal(s: State, run: seq<Action>)
    decreases |run|
  {
    run == [] || (P.Shape(s.ring) && Enabled(s, run[0]) && Legal(Next(s, run[0]), run[1..]))
  }

  function After(s: State, run: seq<Action>): State
    requires Legal(s, run)
    decreases |run|
  {
    if run == [] then s else After(Next(s, run[0]), run[1..])
  }

  lemma {:induction false} RunKeepsInv(s: State, run: seq<Action>)
    requires Inv(s) && Legal(s, run)
    ensures Inv(After(s, run)) && s.emitted <= After(s, run).emitted
    decreases |run|
  {
    hide Inv, P.Shape, Enabled, RingAction, P.Next;
    if run != [] {
      StepKeepsInv(s, run[0]);
      RunKeepsInv(Next(s, run[0]), run[1..]);
    }
  }

  /** A fresh ring: any geometry, any indices, nothing published. */
  ghost predicate Fresh(s: State) {
    P.Initial(s.ring) && s.ring.committed == [] && s.current == None && s.emitted == []
  }

  /** What Poll has handed out, in terms of what emit has sent. */
  ghost predicate Carried(s: State) {
    && s.ring.delivered <= s.emitted && |s.emitted| == |s.ring.committed|
    && |s.ring.delivered| == P.Seen(s.ring)
    && s.ring.consumer != P.Crashed && !s.ring.consumer.Dropping?
  }

  lemma InvCarries(s: State)
    requires Inv(s)
    ensures Carried(s)
  {
    hide EventsIn, P.EventsOf, Open, SharedRing.Geometry, P.ProducerInv;
    var ring := s.ring;
    var n := P.Seen(ring);
    P.EmittedEvents(ring.committed[..n], ring.slotSize, s.emitted[..n]);
    if ring.consumer == P.Crashed || ring.consumer.Dropping? {
      P.OnlyOpenedSlotsHoldEvents(ring.committed[ring.consumed], ring.slotSize);
    }
  }

  /** emit through the ring to Poll, under every interleaving of their single steps: Poll hands
      out exactly the events of the successful calls, each once and in order, and meets neither
      a malformed slot nor a wrapped reference. */
  lemma EmitReachesPoll(s0: State, run: seq<Action>)
    requires Fresh(s0) && Legal(s0, run)
    ensures Carried(After(s0, run))
  {
    hide Inv, Carried, Legal, After;
    FreshInv(s0);
    RunKeepsInv(s0, run);
    InvCarries(After(s0, run));
  }

  lemma FreshInv(s: State)
    requires Fresh(s)
    ensures Inv(s)
  {
    hide P.Inv;
    P.InitialInv(s.ring);
  }

  /** What each step does to the call under way, to the emitted and to the delivered events. */
  lemma Effects(s: State, a: Action)
    requires P.Shape(s.ring) && Enabled(s, a)
    ensures var n := Next(s, a);
      && (a.Begin? ==> n.current == Some(a.emission) && n.emitted == s.emitted && n.ring.delivered == s.ring.delivered)
      && (a == LoadTail ==>
            (n.current == s.current || n.current == None) && n.emitted == s.emitted && n.ring.delivered == s.ring.delivered)
      && (a == WriteNext || a == ReloadHead ==>
            n.current == s.current && n.emitted == s.emitted && n.ring.delivered == s.ring.delivered)
      && (a == Refuse ==> n.current == None && n.emitted == s.emitted && n.ring.delivered == s.ring.delivered)
      && (a == StoreHead ==>
            && n.current == None && n.ring.delivered == s.ring.delivered
            && s.current.Some? && s.current.value.Sized() && n.emitted == s.emitted + [s.current.value.Event()])
      && (a.Consume? ==>
            && n.current == s.current && n.emitted == s.emitted && s.ring.delivered <= n.ring.delivered
            && |n.ring.delivered| <= |s.ring.delivered| + 1
            && (a.action != P.PollDecides ==> n.ring.delivered == s.ring.delivered))
  {
    hide SlotIndex, Count, Advance, Emission.Bytes, OpenHeader, P.View, Wire.Validate, SentFrame;
  }

  // ---- a call of emit and a Poll that go through -------------------------------------------------

  /** A step that publishes nothing, fails nothing and hands out nothing; it begins no call of
      emit but that of e. */
  predicate Silent(s: State, a: Action, e: Option<Emission>)
    requires P.Shape(s.ring) && Enabled(s, a)
  {
    match a
    case Begin(x) => e == Some(x)
    case LoadTail => Next(s, a).current.Some?
    case Consume(b) => b != P.PollDecides
    case _ => a.WriteNext? || a.ReloadHead?
  }

  ghost predicate Silently(s: State, run: seq<Action>, e: Option<Emission>)
    decreases |run|
  {
    run == [] ||
    (P.Shape(s.ring) && Enabled(s, run[0]) && Silent(s, run[0], e) && Silently(Next(s, run[0]), run[1..], e))
  }

  /** The state after a silent run. */
  ghost function Quietly(s: State, run: seq<Action>, e: Option<Emission>): State
    requires Silently(s, run, e)
    decreases |run|
  {
    if run == [] then s else Quietly(Next(s, run[0]), run[1..], e)
  }

  lemma SilentFirst(s: State, a: Action, rest: seq<Action>, e: Option<Emission>)
    requires P.Shape(s.ring) && Enabled(s, a) && Silent(s, a, e) && Silently(Next(s, a), rest, e)
    ensures Silently(s, [a] + rest, e) && Quietly(s, [a] + rest, e) == Quietly(Next(s, a), rest, e)
  {
    hide Enabled, Next, Silent, P.Shape;
    assert ([a] + rest)[1..] == rest;
  }

  /** What emit and Poll have agreed on so far. */
  ghost predicate SameHistory(s: State, n: State) {
    && n.emitted == s.emitted && n.ring.delivered == s.ring.delivered && n.ring.slotSize == s.ring.slotSize
  }

  /** Poll is not under way. */
  predicate Resting(s: State) {
    s.ring.consumer == P.Outside || s.ring.consumer == P.Holding
  }

  /** From the first written byte to the reload of head. */
  lemma WritesThrough(s: State, e: Emission) returns (run: seq<Action>)
    requires Inv(s) && Emitting(s) && s.current == Some(e) && e.Valid()
    ensures Silently(s, run, Some(e))
    ensures var n := Quietly(s, run, Some(e));
      && Inv(n) && SameHistory(s, n) && n.ring.producer.Committing? && n.current == Some(e)
      && n.ring.consumer == s.ring.consumer
    decreases |e.Bytes()| - s.written
  {
    hide Inv, P.Inv, Next, P.Shape, Silently, Quietly, Emission.Bytes, Silent;
    FillingShape(s);
    if s.written < |e.Bytes()| {
      StepKeepsInv(s, WriteNext);
      WriteGoesOn(s);
      run := WritesThrough(Next(s, WriteNext), e);
      SilentFirst(s, WriteNext, run, Some(e));
      run := [WriteNext] + run;
    } else {
      StepKeepsInv(s, ReloadHead);
      ReloadEnds(s);
      NoSteps(Next(s, ReloadHead), Some(e));
      SilentFirst(s, ReloadHead, [], Some(e));
      run := [ReloadHead] + [];
    }
  }

  lemma NoSteps(s: State, e: Option<Emission>)
    ensures Silently(s, [], e) && Quietly(s, [], e) == s
  {
  }

  lemma FillingShape(s: State)
    requires Inv(s) && Emitting(s)
    ensures P.Shape(s.ring) && s.written <= |s.current.value.Bytes()|
  {
    hide P.Shape, Emission.Bytes;
  }

  lemma WriteGoesOn(s: State)
    requires P.Shape(s.ring) && Enabled(s, WriteNext)
    ensures var n := Next(s, WriteNext);
      && SameHistory(s, n) && Emitting(n) && n.current == s.current && n.written == s.written + 1
      && n.ring.consumer == s.ring.consumer && Silent(s, WriteNext, Some(s.current.value))
  {
    hide SlotIndex, Emission.Bytes, SentFrame, Wire.Validate;
  }

  lemma ReloadEnds(s: State)
    requires P.Shape(s.ring) && Enabled(s, ReloadHead)
    ensures var n := Next(s, ReloadHead);
      && SameHistory(s, n) && n.ring.producer.Committing? && n.current == s.current
      && n.ring.consumer == s.ring.consumer && Silent(s, ReloadHead, Some(s.current.value))
  {
    hide SlotIndex, Emission.Bytes, SentFrame, Wire.Validate;
  }

  /** A call of emit gets as far as its commit, unless the ring is full or the frame invalid. */
  lemma EmitsThrough(s: State, e: Emission) returns (run: seq<Action>)
    requires Inv(s) && s.ring.producer.Idle? && e.Fits(s.ring.slotSize) && e.Valid()
    requires |s.ring.committed| < s.ring.consumed + s.ring.capacity
    ensures Silently(s, run, Some(e))
    ensures var n := Quietly(s, run, Some(e));
      && Inv(n) && SameHistory(s, n) && n.ring.producer.Committing? && n.current == Some(e)
      && n.ring.consumer == s.ring.consumer
  {
    hide Inv, P.Inv, Next, P.Shape, Silently, Quietly, Emission.Bytes, Silent, Emission.Valid;
    InvShapes(s);
    StepKeepsInv(s, Begin(e));
    var s1 := Next(s, Begin(e));
    InvShapes(s1);
    BeginsEmit(s, e);
    StepKeepsInv(s1, LoadTail);
    var s2 := Next(s1, LoadTail);
    run := WritesThrough(s2, e);
    SilentFirst(s1, LoadTail, run, Some(e));
    SilentFirst(s, Begin(e), [LoadTail] + run, Some(e));
    run := [Begin(e)] + ([LoadTail] + run);
  }

  /** The first two steps of emit, on a ring with room. */
  lemma BeginsEmit(s: State, e: Emission)
    requires Inv(s) && s.ring.producer.Idle? && e.Fits(s.ring.slotSize)
    requires |s.ring.committed| < s.ring.consumed + s.ring.capacity
    requires P.Shape(s.ring) && P.Shape(Next(s, Begin(e)).ring)
    ensures Silent(s, Begin(e), Some(e))
    ensures var s1 := Next(s, Begin(e));
      && SameHistory(s, s1) && Enabled(s1, LoadTail) && Silent(s1, LoadTail, Some(e))
      && var s2 := Next(s1, LoadTail);
         SameHistory(s, s2) && Emitting(s2) && s2.current == Some(e) && s2.ring.consumer == s.ring.consumer
  {
    hide SlotIndex, Emission.Bytes, SentFrame, Wire.Validate, Count, Advance;
    P.CountIsDifference(s.ring);
  }

  /** Reading the header, byte by byte. */
  lemma ReadsThrough(s: State) returns (run: seq<Action>)
    requires Inv(s) && s.ring.consumer.Scanning? && |s.ring.consumer.header| <= P.HeaderLen(s.ring.slotSize)
    ensures Silently(s, run, None)
    ensures var n := Quietly(s, run, None);
      && Inv(n) && SameHistory(s, n) && n.ring.producer == s.ring.producer && n.current == s.current
      && Enabled(n, Consume(P.PollDecides))
    decreases P.HeaderLen(s.ring.slotSize) - |s.ring.consumer.header|
  {
    hide Inv, P.Inv, Next, P.Shape, Silently, Quietly, Silent;
    InvShapes(s);
    if |s.ring.consumer.header| < P.HeaderLen(s.ring.slotSize) {
      StepKeepsInv(s, Consume(P.PollReads));
      ReadGoesOn(s);
      run := ReadsThrough(Next(s, Consume(P.PollReads)));
      SilentFirst(s, Consume(P.PollReads), run, None);
      run := [Consume(P.PollReads)] + run;
    } else {
      NoSteps(s, None);
      run := [];
    }
  }

  lemma ReadGoesOn(s: State)
    requires P.Shape(s.ring) && Enabled(s, Consume(P.PollReads))
    ensures var n := Next(s, Consume(P.PollReads));
      && SameHistory(s, n) && n.ring.producer == s.ring.producer && n.current == s.current
      && n.ring.consumer.Scanning? && |n.ring.consumer.header| == |s.ring.consumer.header| + 1
      && Silent(s, Consume(P.PollReads), None)
  {
    hide SlotIndex;
  }

  /** A Poll gets as far as its decision when an event is waiting. */
  lemma PollsThrough(s: State) returns (run: seq<Action>)
    requires Inv(s) && Resting(s) && |s.ring.delivered| < |s.emitted|
    ensures Silently(s, run, None)
    ensures var n := Quietly(s, run, None);
      && Inv(n) && SameHistory(s, n) && n.ring.producer == s.ring.producer && n.current == s.current
      && Enabled(n, Consume(P.PollDecides))
  {
    hide Inv, P.Inv, Next, P.Shape, Silently, Quietly, Silent;
    InvShapes(s);
    PollStarts(s);
    var s1 := Next(s, Consume(P.PollBegins));
    StepKeepsInv(s, Consume(P.PollBegins));
    InvShapes(s1);
    if s.ring.consumer == P.Holding {
      PollReleases(s1);
      var s2 := Next(s1, Consume(P.PollStoresTail));
      StepKeepsInv(s1, Consume(P.PollStoresTail));
      run := ScansThrough(s2);
      SilentFirst(s1, Consume(P.PollStoresTail), run, None);
      run := [Consume(P.PollStoresTail)] + run;
    } else {
      run := ScansThrough(s1);
    }
    SilentFirst(s, Consume(P.PollBegins), run, None);
    run := [Consume(P.PollBegins)] + run;
  }

  lemma PollStarts(s: State)
    requires P.Shape(s.ring) && Resting(s)
    ensures Enabled(s, Consume(P.PollBegins)) && Silent(s, Consume(P.PollBegins), None)
    ensures var n := Next(s, Consume(P.PollBegins));
      && SameHistory(s, n) && n.ring.producer == s.ring.producer && n.current == s.current
      && (if s.ring.consumer == P.Holding then n.ring.consumer.Releasing? else n.ring.consumer == P.Polling)
  {
  }

  lemma PollReleases(s: State)
    requires P.Shape(s.ring) && s.ring.consumer.Releasing?
    ensures Enabled(s, Consume(P.PollStoresTail)) && Silent(s, Consume(P.PollStoresTail), None)
    ensures var n := Next(s, Consume(P.PollStoresTail));
      && SameHistory(s, n) && n.ring.producer == s.ring.producer && n.current == s.current
      && n.ring.consumer == P.Polling
  {
  }

  /** From the load of tail on. */
  lemma ScansThrough(s: State) returns (run: seq<Action>)
    requires Inv(s) && s.ring.consumer == P.Polling && |s.ring.delivered| < |s.emitted|
    ensures Silently(s, run, None)
    ensures var n := Quietly(s, run, None);
      && Inv(n) && SameHistory(s, n) && n.ring.producer == s.ring.producer && n.current == s.current
      && Enabled(n, Consume(P.PollDecides))
  {
    hide Inv, P.Inv, Next, P.Shape, Silently, Quietly, Silent;
    InvShapes(s);
    FindsSlot(s);
    var s1 := Next(s, Consume(P.PollLoadsTail));
    StepKeepsInv(s, Consume(P.PollLoadsTail));
    StepKeepsInv(s1, Consume(P.PollLoadsHead));
    run := ReadsThrough(Next(s1, Consume(P.PollLoadsHead)));
    SilentFirst(s1, Consume(P.PollLoadsHead), run, None);
    SilentFirst(s, Consume(P.PollLoadsTail), [Consume(P.PollLoadsHead)] + run, None);
    run := [Consume(P.PollLoadsTail)] + ([Consume(P.PollLoadsHead)] + run);
  }

  lemma FindsSlot(s: State)
    requires Inv(s) && P.Shape(s.ring) && s.ring.consumer == P.Polling && |s.ring.delivered| < |s.emitted|
    ensures Enabled(s, Consume(P.PollLoadsTail)) && Silent(s, Consume(P.PollLoadsTail), None)
    ensures var s1 := Next(s, Consume(P.PollLoadsTail));
      && P.Shape(s1.ring) && Enabled(s1, Consume(P.PollLoadsHead)) && Silent(s1, Consume(P.PollLoadsHead), None)
      && var n := Next(s1, Consume(P.PollLoadsHead));
         && SameHistory(s, n) && n.ring.producer == s.ring.producer && n.current == s.current
         && n.ring.consumer.Scanning? && n.ring.consumer.header == []
  {
    hide SlotIndex, EventsIn, P.EventsOf;
    InvCarries(s);
    P.CountIsDifference(s.ring);
  }

  /** The decision hands out the next event. */
  lemma DecisionHands(s: State)
    requires Inv(s) && Enabled(s, Consume(P.PollDecides)) && P.Shape(s.ring) && |s.ring.delivered| < |s.emitted|
    ensures var n := Next(s, Consume(P.PollDecides));
      && Inv(n) && Resting(n) && n.emitted == s.emitted && n.ring.slotSize == s.ring.slotSize
      && n.ring.producer == s.ring.producer && n.current == s.current
      && n.ring.delivered == s.emitted[..|s.ring.delivered| + 1]
  {
    hide Inv, P.EventsOf, EventsIn, SlotIndex, P.View, OpenHeader;
    var n := Next(s, Consume(P.PollDecides));
    StepKeepsInv(s, Consume(P.PollDecides));
    InvCarries(n);
    InvCarries(s);
  }

  /** Publishing ends the call. */
  lemma StoreEnds(s: State)
    requires Inv(s) && s.ring.producer.Committing? && s.current.Some? && s.current.value.Sized() && P.Shape(s.ring)
    ensures Enabled(s, StoreHead)
    ensures var n := Next(s, StoreHead);
      && Inv(n) && n.ring.producer.Idle? && n.current == None && n.ring.slotSize == s.ring.slotSize
      && n.emitted == s.emitted + [s.current.value.Event()] && n.ring.delivered == s.ring.delivered
      && n.ring.consumer == s.ring.consumer
  {
    hide Inv, SlotIndex, SentFrame, Emission.Bytes;
    StepKeepsInv(s, StoreHead);
  }
}
