/** The ring under concurrency (server-go/bus/ring.go, and Poll of server-go/bus/client.go as
    its consumer). Every atomic load and store of an index and every access to a slot byte is
    one step, and the two sides interleave freely. The indices wrap at 2^64. */
module RingProtocol {
  import opened LittleEndian
  import opened Events
  import opened SharedRing
  import Wire

  /** Where the producer is between ProduceBegin and ProduceCommit. */
  datatype Producer = Idle | HeadLoaded(h: u64) | Filling(h: u64) | Committing(h: u64)

  /** Where the consumer is in Poll; Holding is outside Poll with an event in the caller's hands. */
  datatype Consumer =
    | Outside
    | Holding
    | Releasing(t: u64)
    | Polling
    | TailLoaded(t: u64)
    | Scanning(t: u64, header: seq<byte>)
    | Dropping(t: u64)
    | Crashed

  /** Shared memory, the two program counters, and three history variables: the slots ever
      published, how many were released, and the events Poll handed out. */
  datatype State = State(
    slotSize: u32, capacity: u32,
    slots: seq<seq<byte>>, head: u64, tail: u64,
    producer: Producer, consumer: Consumer,
    base: nat, committed: seq<seq<byte>>, consumed: nat, delivered: seq<Event>)

  datatype Action =
    | ProducerLoadsHead
    | ProducerLoadsTail
    | ProducerWrites(at: nat, b: byte)
    | ProducerGivesUp
    | ProducerReloadsHead
    | ProducerStoresHead
    | PollBegins
    | PollStoresTail
    | PollLoadsTail
    | PollLoadsHead
    | PollReads
    | PollDecides
    | PollDrops

  function HeaderLen(slotSize: u32): nat {
    if slotSize < Wire.HDR_LEN then slotSize else Wire.HDR_LEN
  }

  ghost predicate Shape(s: State) {
    && Geometry(s.slotSize, s.capacity) && |s.slots| == s.capacity
    && forall i :: 0 <= i < |s.slots| ==> |s.slots[i]| == s.slotSize
  }

  function IndexOf(s: State, index: u64): (i: nat)
    requires s.capacity > 0
    ensures i < s.capacity
  {
    SlotIndex(index, s.capacity)
  }

  ghost predicate Enabled(s: State, a: Action) {
    match a
    case ProducerLoadsHead => s.producer == Idle
    case ProducerLoadsTail => s.producer.HeadLoaded?
    case ProducerWrites(at, b) => s.producer.Filling? && at < s.slotSize
    case ProducerGivesUp => s.producer.Filling?
    case ProducerReloadsHead => s.producer.Filling?
    case ProducerStoresHead => s.producer.Committing?
    case PollBegins => s.consumer == Outside || s.consumer == Holding
    case PollStoresTail => s.consumer.Releasing?
    case PollLoadsTail => s.consumer == Polling
    case PollLoadsHead => s.consumer.TailLoaded?
    case PollReads => s.consumer.Scanning? && |s.consumer.header| < HeaderLen(s.slotSize)
    case PollDecides => s.consumer.Scanning? && |s.consumer.header| == HeaderLen(s.slotSize)
    case PollDrops => s.consumer.Dropping?
  }

  function Next(s: State, a: Action): State
    requires Shape(s) && Enabled(s, a)
  {
    match a
    case ProducerLoadsHead => s.(producer := HeadLoaded(s.head))
    case ProducerLoadsTail =>
      if Count(s.producer.h, s.tail) >= s.capacity then s.(producer := Idle)
      else s.(producer := Filling(s.producer.h))
    case ProducerWrites(at, b) =>
      var i := IndexOf(s, s.producer.h);
      var slot: seq<byte> := s.slots[i][at := b];
      s.(slots := s.slots[i := slot])
    case ProducerGivesUp => s.(producer := Idle)
    case ProducerReloadsHead => s.(producer := Committing(s.head))
    case ProducerStoresHead =>
      s.(head := Advance(s.producer.h, 1), producer := Idle,
         committed := s.committed + [s.slots[IndexOf(s, s.producer.h)]])
    case PollBegins =>
      if s.consumer == Holding then s.(consumer := Releasing(s.tail)) else s.(consumer := Polling)
    case PollStoresTail =>
      s.(tail := Advance(s.consumer.t, 1), consumed := s.consumed + 1, consumer := Polling)
    case PollLoadsTail => s.(consumer := TailLoaded(s.tail))
    case PollLoadsHead =>
      if s.head == s.consumer.t then s.(consumer := Outside) else s.(consumer := Scanning(s.consumer.t, []))
    case PollReads =>
      var slot := s.slots[IndexOf(s, s.consumer.t)];
      s.(consumer := Scanning(s.consumer.t, s.consumer.header + [slot[|s.consumer.header|]]))
    case PollDecides =>
      (match OpenHeader(s.consumer.header, s.slotSize)
       case Malformed => s.(consumer := Dropping(s.tail))
       case OutOfRange => s.(consumer := Crashed)
       case Opened(f, from, to) =>
         s.(consumer := Holding, delivered := s.delivered + [Event(f, View(s, s.consumer.t, from, to))]))
    case PollDrops =>
      s.(tail := Advance(s.consumer.t, 1), consumed := s.consumed + 1, consumer := Outside)
  }

  /** The slot bytes a delivered payload refers to, as they are now. */
  function View(s: State, t: u64, from: nat, to: nat): seq<byte>
    requires s.capacity > 0 && |s.slots| == s.capacity
  {
    var slot := s.slots[IndexOf(s, t)];
    if from <= to <= |slot| then slot[from..to] else []
  }

  /** A ring as AttachRing adopts it: any indices within a ring of each other, any bytes. */
  ghost predicate Initial(s: State) {
    && Shape(s)
    && s.producer == Idle && s.consumer == Outside && s.consumed == 0 && s.delivered == []
    && s.tail == Advance(0, s.base) && s.head == Advance(0, s.base + |s.committed|)
    && |s.committed| <= s.capacity
    && forall j :: 0 <= j < |s.committed| ==> s.committed[j] == s.slots[(s.base + j) % s.capacity]
  }

  /** The events that the first n published slots hold, malformed ones skipped. */
  function EventsOf(slots: seq<seq<byte>>, slotSize: u32): seq<Event>
    requires forall i :: 0 <= i < |slots| ==> |slots[i]| == slotSize
  {
    if slots == [] then [] else EventsOf(slots[..|slots| - 1], slotSize) + EventsIn(slots[|slots| - 1], slotSize)
  }

  /** Slots the consumer is done with or has an event of. */
  function Seen(s: State): nat {
    if s.consumer.Holding? || s.consumer.Releasing? then s.consumed + 1 else s.consumed
  }

  ghost predicate Inv(s: State) {
    && Shape(s)
    && s.head == Advance(0, s.base + |s.committed|) && s.tail == Advance(0, s.base + s.consumed)
    && s.consumed <= |s.committed| <= s.consumed + s.capacity
    && (forall j :: 0 <= j < |s.committed| ==> |s.committed[j]| == s.slotSize)
    && (forall j :: s.consumed <= j < |s.committed| ==> s.committed[j] == s.slots[(s.base + j) % s.capacity])
    && ProducerInv(s) && ConsumerInv(s)
    && Seen(s) <= |s.committed|
    && s.delivered == EventsOf(s.committed[..Seen(s)], s.slotSize)
  }

  ghost predicate ProducerInv(s: State) {
    match s.producer
    case Idle => true
    case HeadLoaded(h) => h == s.head
    case Filling(h) => h == s.head && |s.committed| < s.consumed + s.capacity
    case Committing(h) => h == s.head && |s.committed| < s.consumed + s.capacity
  }

  ghost predicate ConsumerInv(s: State) {
    match s.consumer
    case Outside => true
    case Holding => s.consumed < |s.committed| && Open(s.committed[s.consumed], s.slotSize).Opened?
    case Releasing(t) =>
      t == s.tail && s.consumed < |s.committed| && Open(s.committed[s.consumed], s.slotSize).Opened?
    case Polling => true
    case TailLoaded(t) => t == s.tail
    case Scanning(t, header) =>
      && t == s.tail && s.consumed < |s.committed|
      && |header| <= HeaderLen(s.slotSize) <= |s.committed[s.consumed]|
      && header == s.committed[s.consumed][..|header|]
    case Dropping(t) =>
      t == s.tail && s.consumed < |s.committed| && Open(s.committed[s.consumed], s.slotSize) == Malformed
    case Crashed => s.consumed < |s.committed| && Open(s.committed[s.consumed], s.slotSize) == OutOfRange
  }

  lemma InitialInv(s: State)
    requires Initial(s)
    ensures Inv(s)
  {
    hide SlotIndex, Open;
  }

  /** The slot of the n-th index ever used. */
  lemma SlotOfPosition(s: State, n: nat)
    requires Shape(s)
    ensures IndexOf(s, Advance(0, n)) == n % s.capacity
  {
    SlotIsModulo(s.slotSize, s.capacity, n);
  }

  lemma NextPosition(n: nat)
    ensures Advance(Advance(0, n), 1) == Advance(0, n + 1)
  {
  }

  lemma CountIsDifference(s: State)
    requires Inv(s)
    ensures Count(s.head, s.tail) == |s.committed| - s.consumed
    ensures s.head == s.tail <==> |s.committed| == s.consumed
  {
    hide ConsumerInv, ProducerInv, Seen, EventsOf, SlotIndex;
    DifferenceWraps(s.base + |s.committed|, s.base + s.consumed);
  }

  lemma DifferenceWraps(a: nat, b: nat)
    requires b <= a < b + TWO_64
    ensures (a % TWO_64 - b % TWO_64) % TWO_64 == a - b
  {
  }

  lemma ProducerStepKeepsInv(s: State, a: Action)
    requires Inv(s) && Enabled(s, a)
    requires a.ProducerLoadsHead? || a.ProducerLoadsTail? || a.ProducerGivesUp? || a.ProducerReloadsHead?
    ensures Inv(Next(s, a))
  {
    hide SlotIndex, OpenHeader, EventsOf, Count, ConsumerInv, Advance, Seen;
    CountIsDifference(s);
    ProducerMoves(s, Next(s, a));
  }

  /** A producer step that moves no index and writes nothing. */
  lemma ProducerMoves(s: State, n: State)
    requires Inv(s) && n == s.(producer := n.producer) && ProducerInv(n)
    ensures Inv(n)
  {
    hide ProducerInv, EventsOf, SlotIndex, Advance, OpenHeader, OpenFrame;
  }

  lemma WriteKeepsInv(s: State, at: nat, b: byte)
    requires Inv(s) && Enabled(s, ProducerWrites(at, b))
    ensures Inv(Next(s, ProducerWrites(at, b)))
  {
    hide SlotIndex, OpenHeader, OpenFrame, EventsOf, Advance, Count, ConsumerInv;
    var n := Next(s, ProducerWrites(at, b));
    forall j | s.consumed <= j < |s.committed|
      ensures s.committed[j] == n.slots[(s.base + j) % s.capacity]
    {
      WriteKeepsSlot(s, at, b, j);
    }
    SameConsumer(s, n);
  }

  /** The slot at head is none of the published ones. */
  lemma WriteKeepsSlot(s: State, at: nat, b: byte, j: nat)
    requires Inv(s) && Enabled(s, ProducerWrites(at, b)) && s.consumed <= j < |s.committed|
    ensures s.committed[j] == Next(s, ProducerWrites(at, b)).slots[(s.base + j) % s.capacity]
  {
    hide SlotIndex, OpenHeader, OpenFrame, EventsOf, Advance, Count, ConsumerInv, Seen;
    SlotOfPosition(s, s.base + |s.committed|);
    RemaindersDiffer(s.base + j, |s.committed| - j, s.capacity);
  }

  lemma SameConsumer(s: State, n: State)
    requires Shape(s) && ConsumerInv(s) && n == s.(slots := n.slots)
    ensures ConsumerInv(n)
  {
    hide Open;
  }

  lemma StoreHeadKeepsInv(s: State)
    requires Inv(s) && Enabled(s, ProducerStoresHead)
    ensures Inv(Next(s, ProducerStoresHead))
  {
    hide SlotIndex, OpenHeader, EventsOf, Advance, Count, Open;
    var n := Next(s, ProducerStoresHead);
    SlotOfPosition(s, s.base + |s.committed|);
    assert n.committed[..Seen(s)] == s.committed[..Seen(s)];
    NextPosition(s.base + |s.committed|);
  }

  lemma ReleaseKeepsInv(s: State, a: Action)
    requires Inv(s) && Enabled(s, a) && (a == PollStoresTail || a == PollDrops)
    ensures Inv(Next(s, a))
  {
    hide SlotIndex, OpenHeader, Advance, Count, OpenFrame;
    var n := Next(s, a);
    NextPosition(s.base + s.consumed);
    if a == PollDrops {
      assert s.committed[..n.consumed][..s.consumed] == s.committed[..s.consumed];
      assert s.committed[..n.consumed][s.consumed] == s.committed[s.consumed];
    }
  }

  /** A consumer step that moves no index. */
  lemma ConsumerMoves(s: State, n: State)
    requires Inv(s) && n == s.(consumer := n.consumer, delivered := n.delivered)
    requires ConsumerInv(n) && Seen(n) <= |s.committed|
    requires n.delivered == EventsOf(s.committed[..Seen(n)], s.slotSize)
    ensures Inv(n)
  {
    hide ConsumerInv, Seen, EventsOf, SlotIndex, Advance;
  }

  lemma PollStepKeepsInv(s: State, a: Action)
    requires Inv(s) && Enabled(s, a)
    requires a == PollBegins || a == PollLoadsTail || a == PollLoadsHead || a == PollReads
    ensures Inv(Next(s, a))
  {
    hide SlotIndex, OpenHeader, EventsOf, Count, Advance;
    CountIsDifference(s);
    if a == PollReads {
      ReadKeepsHeader(s);
    }
    ConsumerMoves(s, Next(s, a));
  }

  lemma ReadKeepsHeader(s: State)
    requires Inv(s) && Enabled(s, PollReads)
    ensures ConsumerInv(Next(s, PollReads))
  {
    hide SlotIndex, OpenHeader, EventsOf, Count, ProducerInv, Seen, Advance;
    SlotOfPosition(s, s.base + s.consumed);
  }

  lemma DecideKeepsInv(s: State)
    requires Inv(s) && Enabled(s, PollDecides)
    ensures Inv(Next(s, PollDecides))
  {
    hide SlotIndex, OpenHeader, EventsOf, Advance, View;
    HeaderDecides(s);
    if Open(s.committed[s.consumed], s.slotSize).Opened? {
      DecideDelivers(s);
    }
    ConsumerMoves(s, Next(s, PollDecides));
  }

  /** The header bytes read one by one open like the published slot. */
  lemma HeaderDecides(s: State)
    requires Inv(s) && Enabled(s, PollDecides)
    ensures Open(s.committed[s.consumed], s.slotSize) == OpenHeader(s.consumer.header, s.slotSize)
  {
    hide SlotIndex, OpenHeader, EventsOf, Advance;
    var slot := s.committed[s.consumed];
    assert |slot| < Wire.HDR_LEN ==> slot[..|slot|] == slot;
  }

  lemma DecideDelivers(s: State)
    requires Shape(s) && s.consumed < |s.committed| && forall j :: 0 <= j < |s.committed| ==> |s.committed[j]| == s.slotSize
    requires Enabled(s, PollDecides) && Inv(s) && Open(s.committed[s.consumed], s.slotSize).Opened?
    ensures Next(s, PollDecides).delivered == EventsOf(s.committed[..s.consumed + 1], s.slotSize)
  {
    hide SlotIndex, OpenHeader, Advance;
    HeaderDecides(s);
    SlotOfPosition(s, s.base + s.consumed);
    OpenInBounds(s.committed[s.consumed], s.slotSize);
    assert s.committed[..s.consumed + 1][..s.consumed] == s.committed[..s.consumed];
  }

  /** Every step of either side keeps the invariant. */
  lemma StepKeepsInv(s: State, a: Action)
    requires Inv(s) && Enabled(s, a)
    ensures Inv(Next(s, a))
  {
    match a
    case ProducerWrites(at, b) => WriteKeepsInv(s, at, b);
    case ProducerStoresHead => StoreHeadKeepsInv(s);
    case PollStoresTail => ReleaseKeepsInv(s, a);
    case PollDrops => ReleaseKeepsInv(s, a);
    case PollDecides => DecideKeepsInv(s);
    case ProducerLoadsHead => ProducerStepKeepsInv(s, a);
    case ProducerLoadsTail => ProducerStepKeepsInv(s, a);
    case ProducerGivesUp => ProducerStepKeepsInv(s, a);
    case ProducerReloadsHead => ProducerStepKeepsInv(s, a);
    case _ => PollStepKeepsInv(s, a);
  }

  /** The abstract queue a state stands for: published and not yet released. */
  function Pending(s: State): seq<seq<byte>> {
    if s.consumed <= |s.committed| then s.committed[s.consumed..] else []
  }

  /** Each step is an enqueue of the slot just filled, a dequeue of the oldest slot, or no
      change to the queue; and the two ways of giving up are taken exactly when the queue is
      full, respectively empty, at the instant the other side's index is loaded. */
  lemma StepRefinesQueue(s: State, a: Action)
    requires Inv(s) && Enabled(s, a)
    ensures var n := Next(s, a);
      && (a == ProducerStoresHead ==>
            |Pending(s)| < s.capacity && Pending(n) == Pending(s) + [s.slots[IndexOf(s, s.head)]])
      && (a == PollStoresTail || a == PollDrops ==> Pending(s) != [] && Pending(n) == Pending(s)[1..])
      && (a != ProducerStoresHead && a != PollStoresTail && a != PollDrops ==> Pending(n) == Pending(s))
      && (a == ProducerLoadsTail ==> (n.producer == Idle <==> |Pending(s)| == s.capacity))
      && (a == PollLoadsHead ==> (n.consumer == Outside <==> Pending(s) == []))
  {
    hide Inv, SlotIndex, Open, OpenHeader, Count, Advance, Seen, View;
    QueueFacts(s);
  }

  lemma QueueFacts(s: State)
    requires Inv(s)
    ensures s.consumed <= |s.committed| <= s.consumed + s.capacity && Shape(s) && ProducerInv(s)
    ensures Count(s.head, s.tail) == |Pending(s)| && (s.head == s.tail <==> Pending(s) == [])
    ensures s.consumer.Releasing? || s.consumer.Dropping? || s.consumer.Scanning? ==> Pending(s) != []
    ensures s.consumer.TailLoaded? ==> s.consumer.t == s.tail
  {
    hide SlotIndex, Open, OpenHeader, EventsOf, Count, Advance, Seen;
    CountIsDifference(s);
  }

  ghost predicate Legal(s: State, run: seq<Action>)
    decreases |run|
  {
    run == [] || (Shape(s) && Enabled(s, run[0]) && Legal(Next(s, run[0]), run[1..]))
  }

  function After(s: State, run: seq<Action>): State
    requires Legal(s, run)
    decreases |run|
  {
    if run == [] then s else After(Next(s, run[0]), run[1..])
  }

  lemma {:induction false} RunKeepsInv(s: State, run: seq<Action>)
    requires Inv(s) && Legal(s, run)
    ensures Inv(After(s, run))
    ensures s.committed <= After(s, run).committed && s.consumed <= After(s, run).consumed
    ensures s.delivered <= After(s, run).delivered
    ensures After(s, run).slotSize == s.slotSize && After(s, run).capacity == s.capacity
    ensures After(s, run).base == s.base
    decreases |run|
  {
    hide Inv, Shape, Enabled;
    if run != [] {
      StepKeepsInv(s, run[0]);
      HistoryGrows(s, run[0]);
      RunKeepsInv(Next(s, run[0]), run[1..]);
    }
  }

  lemma HistoryGrows(s: State, a: Action)
    requires Shape(s) && Enabled(s, a)
    ensures var n := Next(s, a);
            && s.committed <= n.committed && s.consumed <= n.consumed && s.delivered <= n.delivered
            && n.slotSize == s.slotSize && n.capacity == s.capacity && n.base == s.base
  {
    hide SlotIndex, OpenHeader;
  }

  /** What holds in every reachable state. Occupancy never exceeds the capacity; Poll has
      handed out exactly the events of the slots it went through, in publication order, each
      once and with the published bytes; the slot being filled is never the slot being read;
      and an event still held shows its payload unchanged. */
  ghost predicate Safe(s: State) {
    && Shape(s)
    && (forall j :: 0 <= j < |s.committed| ==> |s.committed[j]| == s.slotSize)
    && s.consumed <= Seen(s) <= |s.committed| <= s.consumed + s.capacity
    && s.delivered == EventsOf(s.committed[..Seen(s)], s.slotSize)
    && (s.producer.Filling? && Pending(s) != [] ==> IndexOf(s, s.producer.h) != IndexOf(s, s.tail))
    && (s.consumer.Scanning? ==> Pending(s) != [] && s.consumer.t == s.tail)
    && (s.consumer == Holding ==> HeldIntact(s))
  }

  lemma InvIsSafe(s: State)
    requires Inv(s)
    ensures Safe(s)
  {
    hide SlotIndex, OpenHeader, EventsOf, Advance, HeldIntact;
    if s.producer.Filling? && Pending(s) != [] {
      SlotOfPosition(s, s.base + |s.committed|);
      SlotOfPosition(s, s.base + s.consumed);
      RemaindersDiffer(s.base + s.consumed, |s.committed| - s.consumed, s.capacity);
    }
    if s.consumer == Holding {
      HeldIsIntact(s);
    }
  }

  /** Safety of every interleaving, from any ring AttachRing adopts. */
  lemma EveryInterleaving(s0: State, run: seq<Action>)
    requires Initial(s0) && Legal(s0, run)
    ensures Safe(After(s0, run)) && s0.committed <= After(s0, run).committed
  {
    hide Inv, Safe, Initial, Legal, After;
    InitialInv(s0);
    RunKeepsInv(s0, run);
    InvIsSafe(After(s0, run));
  }

  lemma DifferenceOfLater(s: State, later: State)
    requires Inv(s) && Inv(later) && later.capacity == s.capacity && later.base == s.base
    requires s.consumed <= later.consumed && later.consumed + s.capacity < |s.committed| + TWO_64
    ensures Count(s.head, later.tail) <= s.capacity <==> later.consumed <= |s.committed|
    ensures later.consumed <= |s.committed| ==> Count(s.head, later.tail) == |s.committed| - later.consumed
  {
    hide SlotIndex, OpenHeader, EventsOf, ConsumerInv, ProducerInv;
    var a, b := s.base + |s.committed|, s.base + later.consumed;
    if b <= a {
      DifferenceWraps(a, b);
    } else {
      DifferenceWrapsBack(a, b);
    }
  }

  lemma DifferenceWrapsBack(a: nat, b: nat)
    requires a < b < a + TWO_64
    ensures (a % TWO_64 - b % TWO_64) % TWO_64 == TWO_64 - (b - a)
  {
  }

  /** Count loads head first and tail later. What it returns is within the capacity exactly
      when no slot published after its first load has been released before its second. */
  lemma CountByObserver(s0: State, before: seq<Action>, between: seq<Action>)
    requires Initial(s0) && Legal(s0, before) && Legal(After(s0, before), between)
    requires var s, later := After(s0, before), After(After(s0, before), between);
      later.consumed + s.capacity < |s.committed| + TWO_64
    ensures var s, later := After(s0, before), After(After(s0, before), between);
      && (Count(s.head, later.tail) <= s.capacity <==> later.consumed <= |s.committed|)
      && (|later.committed| == |s.committed| || later.consumed == s.consumed ==> Count(s.head, later.tail) <= s.capacity)
  {
    hide Inv, Initial, Legal, After, Count;
    InitialInv(s0);
    RunKeepsInv(s0, before);
    RunKeepsInv(After(s0, before), between);
    var s, later := After(s0, before), After(After(s0, before), between);
    DifferenceOfLater(s, later);
    InvBounds(s);
    InvBounds(later);
  }

  lemma OneAction(s: State, a: Action, rest: seq<Action>)
    requires Shape(s) && Enabled(s, a) && Legal(Next(s, a), rest)
    ensures Legal(s, [a] + rest) && After(s, [a] + rest) == After(Next(s, a), rest)
  {
    hide Shape, Enabled, Next;
    assert ([a] + rest)[1..] == rest;
  }

  /** A producer that finds room publishes whatever its slot holds. */
  lemma Publishes(s: State, rest: seq<Action>) returns (run: seq<Action>)
    requires Inv(s) && s.producer == Idle && |s.committed| < s.consumed + s.capacity
    requires Legal(s.(head := Advance(s.head, 1), committed := s.committed + [s.slots[IndexOf(s, s.head)]]), rest)
    ensures Legal(s, run)
    ensures After(s, run)
            == After(s.(head := Advance(s.head, 1), committed := s.committed + [s.slots[IndexOf(s, s.head)]]), rest)
  {
    hide SlotIndex, Count, Advance, Legal, After, ConsumerInv, EventsOf, Seen;
    CountIsDifference(s);
    var s1 := Next(s, ProducerLoadsHead);
    var s2 := Next(s1, ProducerLoadsTail);
    var s3 := Next(s2, ProducerReloadsHead);
    var s4 := Next(s3, ProducerStoresHead);
    assert s4 == s.(head := Advance(s.head, 1), committed := s.committed + [s.slots[IndexOf(s, s.head)]]);
    OneAction(s3, ProducerStoresHead, rest);
    OneAction(s2, ProducerReloadsHead, [ProducerStoresHead] + rest);
    OneAction(s1, ProducerLoadsTail, [ProducerReloadsHead] + ([ProducerStoresHead] + rest));
    OneAction(s, ProducerLoadsHead, [ProducerLoadsTail] + ([ProducerReloadsHead] + ([ProducerStoresHead] + rest)));
    run := [ProducerLoadsHead] + ([ProducerLoadsTail] + ([ProducerReloadsHead] + ([ProducerStoresHead] + rest)));
  }

  /** A Poll that finds one unread byte drops it. */
  lemma DropsOne(s: State) returns (run: seq<Action>)
    requires Shape(s) && s.slotSize == 1 && s.consumer == Outside && s.head != s.tail
    ensures Legal(s, run) && After(s, run).tail == Advance(s.tail, 1)
  {
    hide SlotIndex, Advance, Legal, After;
    var s1 := Next(s, PollBegins);
    var s2 := Next(s1, PollLoadsTail);
    var s3 := Next(s2, PollLoadsHead);
    var s4 := Next(s3, PollReads);
    var s5 := Next(s4, PollDecides);
    assert s5.consumer == Dropping(s.tail);
    var s6 := Next(s5, PollDrops);
    NothingLeft(s6);
    OneAction(s5, PollDrops, []);
    OneAction(s4, PollDecides, [PollDrops] + []);
    OneAction(s3, PollReads, [PollDecides] + ([PollDrops] + []));
    OneAction(s2, PollLoadsHead, [PollReads] + ([PollDecides] + ([PollDrops] + [])));
    OneAction(s1, PollLoadsTail, [PollLoadsHead] + ([PollReads] + ([PollDecides] + ([PollDrops] + []))));
    OneAction(s, PollBegins, [PollLoadsTail] + ([PollLoadsHead] + ([PollReads] + ([PollDecides] + ([PollDrops] + [])))));
    run := [PollBegins] + ([PollLoadsTail] + ([PollLoadsHead] + ([PollReads] + ([PollDecides] + ([PollDrops] + [])))));
  }

  lemma NothingLeft(s: State)
    ensures Legal(s, []) && After(s, []) == s
  {
  }

  /** An occupancy beyond the capacity: a slot is published and released between the two loads. */
  lemma CountCanExceed() returns (s0: State, between: seq<Action>)
    ensures Initial(s0) && Legal(s0, between)
    ensures Count(s0.head, After(s0, between).tail) > s0.capacity
  {
    s0 := State(1, 2, [[0], [0]], 0, 0, Idle, Outside, 0, [], 0, []);
    assert Initial(s0);
    InitialInv(s0);
    var s1 := s0.(head := Advance(s0.head, 1), committed := s0.committed + [s0.slots[IndexOf(s0, s0.head)]]);
    var drop := DropsOne(s1);
    between := Publishes(s0, drop);
  }

  lemma InvBounds(s: State)
    requires Inv(s)
    ensures s.consumed <= |s.committed|
  {
  }

  /** The event in the caller's hands is the last one delivered, and the bytes its payload
      view covers are still the delivered ones. */
  ghost predicate HeldIntact(s: State)
    requires s.capacity > 0 && |s.slots| == s.capacity
  {
    && s.delivered != []
    && var held := Open(s.slots[IndexOf(s, s.tail)], s.slotSize);
       && held.Opened?
       && s.delivered[|s.delivered| - 1] == Event(held.frame, View(s, s.tail, held.from, held.to))
  }

  lemma HeldIsIntact(s: State)
    requires Inv(s) && s.consumer == Holding
    ensures HeldIntact(s)
  {
    hide SlotIndex, OpenHeader;
    SlotOfPosition(s, s.base + s.consumed);
    var q := s.committed[..s.consumed + 1];
    assert q[|q| - 1] == s.committed[s.consumed];
    OpenInBounds(s.committed[s.consumed], s.slotSize);
  }

  /** No producer step, whatever it writes, changes what a held event shows. */
  lemma HeldPayloadIsStable(s: State, a: Action)
    requires Inv(s) && Enabled(s, a) && s.consumer == Holding && a != PollBegins
    ensures var n := Next(s, a);
            n.consumer == Holding && n.delivered == s.delivered
            && n.slots[IndexOf(s, s.tail)] == s.slots[IndexOf(s, s.tail)]
  {
    hide SlotIndex, OpenHeader, EventsOf, Advance, Count, Open;
    SlotOfPosition(s, s.base + s.consumed);
    if a.ProducerWrites? {
      SlotOfPosition(s, s.base + |s.committed|);
      RemaindersDiffer(s.base + s.consumed, |s.committed| - s.consumed, s.capacity);
    }
  }

  /** When every published slot was filled by emit, Poll delivers precisely what was emitted. */
  lemma {:induction false} EmittedEvents(slots: seq<seq<byte>>, slotSize: u32, emitted: seq<Event>)
    requires |slots| == |emitted| && forall i :: 0 <= i < |slots| ==> |slots[i]| == slotSize
    requires forall i :: 0 <= i < |slots| ==> EventsIn(slots[i], slotSize) == [emitted[i]]
    ensures EventsOf(slots, slotSize) == emitted
  {
    hide EventsIn;
    if slots != [] {
      var k := |slots| - 1;
      EmittedEvents(slots[..k], slotSize, emitted[..k]);
      assert emitted == emitted[..k] + [emitted[k]];
    }
  }

  /** Exactly-once, in-order delivery of emitted events on every interleaving. */
  lemma EmittedAreDelivered(s0: State, run: seq<Action>, emitted: seq<Event>)
    requires Initial(s0) && Legal(s0, run)
    requires var s := After(s0, run);
             && |s.committed| == |emitted| && (forall i :: 0 <= i < |emitted| ==> |s.committed[i]| == s.slotSize)
             && forall i :: 0 <= i < |emitted| ==> EventsIn(s.committed[i], s.slotSize) == [emitted[i]]
    ensures var s := After(s0, run);
            && s.delivered <= emitted && |s.delivered| == Seen(s)
            && s.consumer != Crashed && !s.consumer.Dropping?
  {
    hide EventsIn, EventsOf, Legal, After, Initial, Open;
    InitialInv(s0);
    RunKeepsInv(s0, run);
    var s := After(s0, run);
    EmittedEvents(s.committed[..Seen(s)], s.slotSize, emitted[..Seen(s)]);
    if s.consumer == Crashed || s.consumer.Dropping? {
      OnlyOpenedSlotsHoldEvents(s.committed[s.consumed], s.slotSize);
    }
  }

  lemma OnlyOpenedSlotsHoldEvents(slot: seq<byte>, slotSize: u32)
    requires |slot| == slotSize
    ensures EventsIn(slot, slotSize) != [] <==> Open(slot, slotSize).Opened?
  {
    hide OpenHeader;
  }
}
