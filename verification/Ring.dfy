/** The single-producer/single-consumer ring in shared memory (server-go/bus/ring.go):
    64-bit head and tail indices that wrap freely, and slots chosen by masking. */
module SharedRing {
  import opened Bits
  import opened LittleEndian
  import opened Wrappers

  const RING_MAGIC: u32 := 0x474e4952
  const OFF_MAGIC: nat := 0
  const OFF_SLOT: nat := 4
  const OFF_CAP: nat := 8
  const OFF_MASK: nat := 12
  const OFF_SLOTS: nat := 16
  const OFF_HEAD: nat := 64
  const OFF_TAIL: nat := 128
  const RING_HDR: nat := 192

  /** What AttachRing accepts as a geometry. */
  predicate Geometry(slotSize: u32, capacity: u32) {
    capacity >= 2 && BitAnd(capacity, capacity - 1) == 0 && slotSize > 0
  }

  function Need(slotSize: u32, capacity: u32): (n: nat)
    ensures n >= RING_HDR
  {
    RING_HDR + slotSize * capacity
  }

  /** Occupied slots, in wrapping 64-bit arithmetic. */
  function Count(head: u64, tail: u64): u64 {
    (head - tail) % TWO_64
  }

  function Advance(index: u64, n: nat): u64 {
    (index + n) % TWO_64
  }

  function SlotIndex(index: u64, capacity: u32): nat
    requires capacity > 0
  {
    BitAnd(index, capacity - 1)
  }

  /** A ring capacity is a power of two that divides the index space. */
  lemma CapacityDivides(slotSize: u32, capacity: u32) returns (k: nat, w: nat)
    requires Geometry(slotSize, capacity)
    ensures capacity == Pow2(k) && w > 0 && capacity * w == TWO_64
  {
    k := LogOf(capacity);
    WordPowers();
    if k > 32 {
      PowersGrow(32, k);
    }
    w := Pow2(64 - k);
    PowersDivide(k, 64);
  }

  /** Masking a wrapped index picks the slot of the unwrapped one. */
  lemma SlotIsModulo(slotSize: u32, capacity: u32, index: nat)
    requires Geometry(slotSize, capacity)
    ensures SlotIndex(index % TWO_64, capacity) == index % capacity
  {
    var k, w := CapacityDivides(slotSize, capacity);
    MaskIsModulo(index % TWO_64, k);
    NestedModulo(index, capacity, w);
  }

  lemma WordPowers()
    ensures Pow2(32) == 0x1_0000_0000 && Pow2(64) == TWO_64
  {
    SmallPowers();
    PowersDivide(16, 32);
    PowersDivide(32, 64);
  }

  lemma NestedModulo(x: nat, m: nat, w: nat)
    requires m > 0 && w > 0
    ensures (x % (m * w)) % m == x % m
  {
    var q, r := x / (m * w), x % (m * w);
    assert x == m * (w * q) + r;
    assert x == m * (w * q + r / m) + r % m;
    ModuloUnique(x, m, w * q + r / m, r % m);
  }

  lemma SlotsFit(i: nat, n: nat, slotSize: nat)
    requires i < n
    ensures i * slotSize + slotSize <= n * slotSize
  {
    assert (i + 1) * slotSize <= n * slotSize;
  }

  /** Where the slot of an index starts, counted from the first slot byte. */
  function SlotStart(index: u64, slotSize: u32, capacity: u32): (at: nat)
    requires capacity > 0
    ensures at + slotSize <= slotSize * capacity
  {
    SlotsFit(SlotIndex(index, capacity), capacity, slotSize);
    SlotIndex(index, capacity) * slotSize
  }

  /** Indices fewer than a ring's length apart lie in slots that share no byte. */
  lemma SlotsApart(slotSize: u32, capacity: u32, index: nat, d: nat)
    requires Geometry(slotSize, capacity) && 0 < d < capacity
    ensures var a := SlotStart(index % TWO_64, slotSize, capacity);
            var b := SlotStart((index + d) % TWO_64, slotSize, capacity);
            a + slotSize <= b || b + slotSize <= a
  {
    SlotIsModulo(slotSize, capacity, index);
    SlotIsModulo(slotSize, capacity, index + d);
    var i, j := index % capacity, (index + d) % capacity;
    RemaindersDiffer(index, d, capacity);
    if i < j {
      SlotsFit(i, j, slotSize);
    } else {
      SlotsFit(j, i, slotSize);
    }
  }

  lemma RemaindersDiffer(x: nat, d: nat, m: nat)
    requires 0 < d < m
    ensures x % m != (x + d) % m
  {
    var r := x % m;
    if r + d < m {
      ModuloUnique(x + d, m, x / m, r + d);
    } else {
      assert m * (x / m + 1) == m * (x / m) + m;
      ModuloUnique(x + d, m, x / m + 1, r + d - m);
    }
  }

  /** The slot bytes of a ring, without its header. */
  ghost predicate Slots(body: seq<byte>, slotSize: u32, capacity: u32) {
    Geometry(slotSize, capacity) && |body| >= slotSize * capacity
  }

  function SlotOf(body: seq<byte>, slotSize: u32, capacity: u32, index: u64): (b: seq<byte>)
    requires capacity > 0 && |body| >= slotSize * capacity
    ensures |b| == slotSize
  {
    var at := SlotStart(index, slotSize, capacity);
    body[at..at + slotSize]
  }

  /** The published slots, oldest first. */
  ghost function Queue(body: seq<byte>, slotSize: u32, capacity: u32, head: u64, tail: u64): (q: seq<seq<byte>>)
    requires Slots(body, slotSize, capacity)
    ensures |q| == Count(head, tail)
  {
    seq(Count(head, tail), j requires j >= 0 => SlotOf(body, slotSize, capacity, Advance(tail, j)))
  }

  lemma QueueFront(body: seq<byte>, slotSize: u32, capacity: u32, head: u64, tail: u64)
    requires Slots(body, slotSize, capacity) && head != tail
    ensures Queue(body, slotSize, capacity, head, tail) != []
    ensures Queue(body, slotSize, capacity, head, tail)[0] == SlotOf(body, slotSize, capacity, tail)
  {
    CountMoves(head, tail);
    assert Advance(tail, 0) == tail;
  }

  lemma SpliceBehind(m: seq<byte>, k: nat, at: nat, b: seq<byte>)
    requires k <= at && at + |b| <= |m|
    ensures Splice(m, at, b)[k..] == Splice(m[k..], at - k, b)
  {
  }

  lemma HeadIsTailAdvanced(head: u64, tail: u64)
    ensures Advance(tail, Count(head, tail)) == head
  {
  }

  lemma CountMoves(head: u64, tail: u64)
    ensures Count(head, tail) + 1 < TWO_64 ==> Count(Advance(head, 1), tail) == Count(head, tail) + 1
    ensures head != tail ==> Count(head, tail) > 0 && Count(head, Advance(tail, 1)) == Count(head, tail) - 1
  {
    Wraps(head - tail);
    Wraps(head - tail + 1);
    Wraps(head - tail - 1);
    Wraps(head + 1);
    Wraps(tail + 1);
  }

  /** Reduction of what lies within one turn of the index space. */
  lemma Wraps(n: int)
    ensures 0 <= n < TWO_64 ==> n % TWO_64 == n
    ensures -TWO_64 <= n < 0 ==> n % TWO_64 == n + TWO_64
    ensures TWO_64 <= n < 2 * TWO_64 ==> n % TWO_64 == n - TWO_64
  {
  }

  lemma AdvanceAdds(index: u64, n: nat)
    ensures Advance(Advance(index, 1), n) == Advance(index, n + 1)
  {
  }

  /** Publishing appends the slot that was being filled. */
  lemma PublishAppends(body: seq<byte>, slotSize: u32, capacity: u32, head: u64, tail: u64)
    requires Slots(body, slotSize, capacity) && Count(head, tail) < capacity
    ensures Queue(body, slotSize, capacity, Advance(head, 1), tail)
            == Queue(body, slotSize, capacity, head, tail) + [SlotOf(body, slotSize, capacity, head)]
  {
    HeadIsTailAdvanced(head, tail);
    CountMoves(head, tail);
  }

  /** Releasing drops the oldest slot and nothing else. */
  lemma ReleaseDrops(body: seq<byte>, slotSize: u32, capacity: u32, head: u64, tail: u64)
    requires Slots(body, slotSize, capacity) && head != tail
    ensures Queue(body, slotSize, capacity, head, tail) != []
    ensures Queue(body, slotSize, capacity, head, Advance(tail, 1))
            == Queue(body, slotSize, capacity, head, tail)[1..]
  {
    CountMoves(head, tail);
    var was, now := Queue(body, slotSize, capacity, head, tail), Queue(body, slotSize, capacity, head, Advance(tail, 1));
    forall j: nat | j < |now|
      ensures now[j] == was[1..][j]
    {
      AdvanceAdds(tail, j);
    }
  }

  /** Writing inside the slot that is being filled changes no published slot. */
  lemma FillingIsInvisible(body: seq<byte>, slotSize: u32, capacity: u32, head: u64, tail: u64, at: nat, b: seq<byte>)
    requires Slots(body, slotSize, capacity) && Count(head, tail) < capacity
    requires SlotStart(head, slotSize, capacity) <= at
    requires at + |b| <= SlotStart(head, slotSize, capacity) + slotSize
    ensures Queue(Splice(body, at, b), slotSize, capacity, head, tail) == Queue(body, slotSize, capacity, head, tail)
  {
    var was, now := Queue(body, slotSize, capacity, head, tail), Queue(Splice(body, at, b), slotSize, capacity, head, tail);
    hide SlotOf, SlotStart, Splice, Advance;
    forall j: nat | j < Count(head, tail)
      ensures now[j] == was[j]
    {
      FillingKeepsSlot(body, slotSize, capacity, head, tail, at, b, j);
    }
  }

  lemma FillingKeepsSlot(body: seq<byte>, slotSize: u32, capacity: u32, head: u64, tail: u64, at: nat, b: seq<byte>, j: nat)
    requires Slots(body, slotSize, capacity) && j < Count(head, tail) < capacity
    requires SlotStart(head, slotSize, capacity) <= at
    requires at + |b| <= SlotStart(head, slotSize, capacity) + slotSize
    ensures SlotOf(Splice(body, at, b), slotSize, capacity, Advance(tail, j)) == SlotOf(body, slotSize, capacity, Advance(tail, j))
  {
    hide SlotStart, Splice;
    HeadIsTailAdvanced(head, tail);
    SlotsApart(slotSize, capacity, tail + j, Count(head, tail) - j);
    var off := SlotStart(Advance(tail, j), slotSize, capacity);
    SliceOfSplice(body, at, b, off, off + slotSize);
  }

  lemma ReadBack(m: seq<byte>, off: nat, n: nat, x: nat)
    requires off + n <= |m|
    requires (n == 4 && x < 0x1_0000_0000) || (n == 8 && x < TWO_64)
    ensures GetAt(n, Splice(m, off, Put(n, x)), off) == x
  {
    SliceOfSplice(m, off, Put(n, x), off, off + n);
    assert Put(n, x)[0..n] == Put(n, x);
    WordRoundTrip(n, x);
  }

  lemma ReadElsewhere(m: seq<byte>, off: nat, b: seq<byte>, at: nat, n: nat)
    requires off + |b| <= |m| && at + n <= |m|
    requires at + n <= off || off + |b| <= at
    ensures GetAt(n, Splice(m, off, b), at) == GetAt(n, m, at)
  {
    SliceOfSplice(m, off, b, at, at + n);
  }

  /** Storing an index leaves the other index and the slots alone. */
  lemma IndexStored(m: seq<byte>, off: nat, x: u64)
    requires |m| >= RING_HDR && (off == OFF_HEAD || off == OFF_TAIL)
    ensures var n := Splice(m, off, Put(8, x));
            && U64At(n, off) == x
            && U64At(n, OFF_HEAD + OFF_TAIL - off) == U64At(m, OFF_HEAD + OFF_TAIL - off)
            && n[RING_HDR..] == m[RING_HDR..]
  {
    ReadBack(m, off, 8, x);
    ReadElsewhere(m, off, Put(8, x), OFF_HEAD + OFF_TAIL - off, 8);
  }

  /** The mapped bytes AttachRing adopts: every geometry field agrees with the others and
      with the length actually mapped, and the indices are within a ring of each other. */
  predicate Attachable(m: seq<byte>) {
    && |m| >= RING_HDR
    && U32At(m, OFF_MAGIC) == RING_MAGIC
    && Geometry(U32At(m, OFF_SLOT), U32At(m, OFF_CAP))
    && U32At(m, OFF_MASK) == U32At(m, OFF_CAP) - 1
    && U32At(m, OFF_SLOTS) == RING_HDR
    && |m| >= Need(U32At(m, OFF_SLOT), U32At(m, OFF_CAP))
    && Count(U64At(m, OFF_HEAD), U64At(m, OFF_TAIL)) <= U32At(m, OFF_CAP)
  }

  /** FillingIsInvisible on the whole mapping, header included. */
  lemma FillingKeeps(m: seq<byte>, slotSize: u32, capacity: u32, at: nat, b: seq<byte>)
    requires Geometry(slotSize, capacity) && |m| >= RING_HDR && |m| >= Need(slotSize, capacity)
    requires Count(U64At(m, OFF_HEAD), U64At(m, OFF_TAIL)) < capacity
    requires RING_HDR + SlotStart(U64At(m, OFF_HEAD), slotSize, capacity) <= at
    requires at + |b| <= RING_HDR + SlotStart(U64At(m, OFF_HEAD), slotSize, capacity) + slotSize
    ensures var n := Splice(m, at, b);
            && U64At(n, OFF_HEAD) == U64At(m, OFF_HEAD) && U64At(n, OFF_TAIL) == U64At(m, OFF_TAIL)
            && Queue(n[RING_HDR..], slotSize, capacity, U64At(m, OFF_HEAD), U64At(m, OFF_TAIL))
               == Queue(m[RING_HDR..], slotSize, capacity, U64At(m, OFF_HEAD), U64At(m, OFF_TAIL))
  {
    hide Get, Put, BitAnd, Queue, SlotStart, Splice;
    ReadElsewhere(m, at, b, OFF_HEAD, 8);
    ReadElsewhere(m, at, b, OFF_TAIL, 8);
    SpliceBehind(m, RING_HDR, at, b);
    FillingIsInvisible(m[RING_HDR..], slotSize, capacity, U64At(m, OFF_HEAD), U64At(m, OFF_TAIL), at - RING_HDR, b);
  }

  class Ring {
    const mem: array<byte>
    const slotSize: u32
    const capacity: u32
    const mask: u32
    const slotsOff: u32

    ghost predicate Valid()
      reads mem
    {
      && Geometry(slotSize, capacity) && mask == capacity - 1 && slotsOff == RING_HDR
      && mem.Length >= RING_HDR && mem.Length >= Need(slotSize, capacity)
      && Count(Head(), Tail()) <= capacity
    }

    function Head(): u64
      requires mem.Length >= RING_HDR
      reads mem
    {
      U64At(mem[..], OFF_HEAD)
    }

    function Tail(): u64
      requires mem.Length >= RING_HDR
      reads mem
    {
      U64At(mem[..], OFF_TAIL)
    }

    ghost function Body(): seq<byte>
      requires mem.Length >= RING_HDR
      reads mem
    {
      mem[RING_HDR..]
    }

    /** The published slots, oldest first: what the consumer may still read. */
    ghost function Published(): (q: seq<seq<byte>>)
      requires Valid()
      reads mem
      ensures |q| == Count(Head(), Tail())
    {
      Queue(Body(), slotSize, capacity, Head(), Tail())
    }

    /** The bytes of the slot an index selects. */
    ghost function SlotBytes(index: u64): (b: seq<byte>)
      requires Valid()
      reads mem
      ensures |b| == slotSize
    {
      SlotOf(Body(), slotSize, capacity, index)
    }

    /** Where the slot of an index starts in the mapping. */
    function SlotAt(index: u64): (off: nat)
      requires capacity > 0 && mask == capacity - 1 && slotsOff == RING_HDR
      ensures off == RING_HDR + SlotStart(index, slotSize, capacity)
    {
      slotsOff + BitAnd(index, mask) * slotSize
    }

    lemma SlotInMemory(index: u64)
      requires Valid()
      ensures SlotAt(index) + slotSize <= mem.Length
      ensures SlotBytes(index) == mem[SlotAt(index)..SlotAt(index) + slotSize]
    {
      var at := SlotStart(index, slotSize, capacity);
      SliceOfSlice(mem[..], RING_HDR, mem.Length, at, at + slotSize);
      assert Body() == mem[..][RING_HDR..mem.Length];
    }

    constructor Adopt(mem: array<byte>, slotSize: u32, capacity: u32, mask: u32, slotsOff: u32)
      ensures this.mem == mem && this.slotSize == slotSize && this.capacity == capacity
      ensures this.mask == mask && this.slotsOff == slotsOff
    {
      this.mem := mem;
      this.slotSize := slotSize;
      this.capacity := capacity;
      this.mask := mask;
      this.slotsOff := slotsOff;
    }

    static method AttachRing(mem: array<byte>) returns (r: Option<Ring>)
      ensures r.Some? <==> Attachable(mem[..])
      ensures r.Some? ==>
        && fresh(r.value) && r.value.Valid() && r.value.mem == mem
        && r.value.slotSize == U32At(mem[..], OFF_SLOT) && r.value.capacity == U32At(mem[..], OFF_CAP)
    {
      hide Get, Put, BitAnd, Queue, SlotStart, Splice;
      if mem.Length < RING_HDR {
        return None;
      }
      var m := mem[..];
      if U32At(m, OFF_MAGIC) != RING_MAGIC {
        return None;
      }
      var slot, cap, mask, slotsOff := U32At(m, OFF_SLOT), U32At(m, OFF_CAP), U32At(m, OFF_MASK), U32At(m, OFF_SLOTS);
      if cap < 2 || BitAnd(cap, cap - 1) != 0 || slot == 0 || mask != cap - 1 || slotsOff != RING_HDR {
        return None;
      }
      if mem.Length < (slotsOff as int) + (slot as int) * (cap as int) {
        return None;
      }
      if Count(U64At(m, OFF_HEAD), U64At(m, OFF_TAIL)) > cap {
        return None;
      }
      assert Attachable(m);
      var ring := new Ring.Adopt(mem, slot, cap, mask, slotsOff);
      assert ring.mem[..] == m;
      return Some(ring);
    }

    /** A snapshot taken by an endpoint is bounded by the capacity. */
    method CountNow() returns (n: u64)
      requires Valid()
      ensures n == |Published()| && n <= capacity
    {
      n := Count(Head(), Tail());
    }

    /** The slot to fill next, or none when the ring is full. */
    method ProduceBegin() returns (slot: Option<nat>)
      requires Valid()
      ensures slot == None <==> |Published()| == capacity
      ensures slot.Some? ==> slot.value == SlotAt(Head())
    {
      var head, tail := Head(), Tail();
      if Count(head, tail) >= capacity {
        return None;
      }
      return Some(SlotAt(head));
    }

    /** Filling the slot handed out by ProduceBegin is invisible to the consumer. */
    method Fill(at: nat, b: seq<byte>)
      requires Valid() && |Published()| < capacity
      requires SlotAt(Head()) <= at && at + |b| <= SlotAt(Head()) + slotSize
      modifies mem
      ensures Valid() && Published() == old(Published())
      ensures Head() == old(Head()) && Tail() == old(Tail())
      ensures mem[..] == Splice(old(mem[..]), at, b)
    {
      hide Get, Put, BitAnd, Queue, SlotStart, Splice;
      ghost var was := mem[..];
      SpliceNothing(was, at);
      for i := 0 to |b|
        invariant mem[..] == Splice(was, at, b[..i])
      {
        ghost var before := mem[..];
        mem[at + i] := b[i];
        assert mem[..] == before[at + i := b[i]];
        SpliceOneMore(was, at, b, i);
      }
      assert b[..|b|] == b;
      FillingKeeps(was, slotSize, capacity, at, b);
    }

    /** Publishes the slot most recently begun, with whatever bytes it now holds. */
    method ProduceCommit()
      requires Valid() && |Published()| < capacity
      modifies mem
      ensures Valid() && Published() == old(Published()) + [old(SlotBytes(Head()))]
      ensures Tail() == old(Tail()) && Body() == old(Body())
    {
      hide Get, Put, BitAnd, Queue, SlotStart, Splice;
      var head := Head();
      IndexStored(mem[..], OFF_HEAD, Advance(head, 1));
      PublishAppends(Body(), slotSize, capacity, head, Tail());
      CountMoves(head, Tail());
      Store(mem, OFF_HEAD, 8, Advance(head, 1));
    }

    /** The oldest unread slot, or none when the ring is empty. */
    method ConsumeBegin() returns (slot: Option<nat>)
      requires Valid()
      ensures slot == None <==> Published() == []
      ensures slot.Some? ==> slot.value == SlotAt(Tail()) && SlotBytes(Tail()) == Published()[0]
    {
      hide Get, Put, BitAnd, Queue, SlotStart, Splice;
      var tail, head := Tail(), Head();
      if head == tail {
        return None;
      }
      QueueFront(Body(), slotSize, capacity, head, tail);
      return Some(SlotAt(tail));
    }

    /** Releases the oldest slot for reuse. */
    method ConsumeCommit()
      requires Valid() && Published() != []
      modifies mem
      ensures Valid() && Published() == old(Published())[1..]
      ensures Head() == old(Head()) && Body() == old(Body())
    {
      hide Get, Put, BitAnd, Queue, SlotStart, Splice;
      var tail := Tail();
      IndexStored(mem[..], OFF_TAIL, Advance(tail, 1));
      ReleaseDrops(Body(), slotSize, capacity, Head(), tail);
      CountMoves(Head(), tail);
      Store(mem, OFF_TAIL, 8, Advance(tail, 1));
    }

    /** Lays out an empty ring; the layout it writes is one that AttachRing adopts. */
    static method InitRing(mem: array<byte>, slotSize: u32, capacity: u32) returns (r: Option<Ring>)
      modifies mem
      ensures r.Some? <==> Geometry(slotSize, capacity) && mem.Length >= Need(slotSize, capacity)
      ensures r.Some? ==>
        && fresh(r.value) && r.value.Valid() && r.value.mem == mem && r.value.Published() == []
        && r.value.slotSize == slotSize && r.value.capacity == capacity
    {
      hide Get, Put, BitAnd, Queue, SlotStart, Splice;
      if capacity < 2 || BitAnd(capacity, capacity - 1) != 0 || slotSize == 0 {
        return None;
      }
      var need := Need(slotSize, capacity);
      if mem.Length < need {
        return None;
      }
      for i := 0 to need {
        mem[i] := 0;
      }
      StoreWord(mem, OFF_SLOT, 4, slotSize);
      StoreWord(mem, OFF_CAP, 4, capacity);
      StoreWord(mem, OFF_MASK, 4, capacity - 1);
      StoreWord(mem, OFF_SLOTS, 4, RING_HDR);
      StoreWord(mem, OFF_HEAD, 8, 0);
      StoreWord(mem, OFF_TAIL, 8, 0);
      StoreWord(mem, OFF_MAGIC, 4, RING_MAGIC);
      assert Attachable(mem[..]);
      r := AttachRing(mem);
    }
  }

  /** Store, described by the words it changes and the words it does not. */
  method StoreWord(a: array<byte>, off: nat, n: nat, x: nat)
    requires off + n <= a.Length
    requires (n == 4 && x < 0x1_0000_0000) || (n == 8 && x < TWO_64)
    modifies a
    ensures GetAt(n, a[..], off) == x
    ensures forall at: nat, k: nat | at + k <= a.Length && (at + k <= off || off + n <= at) ::
              GetAt(k, a[..], at) == old(GetAt(k, a[..], at))
  {
    hide Get, Put, Splice;
    ghost var was := a[..];
    Store(a, off, n, x);
    ReadBack(was, off, n, x);
    forall at: nat, k: nat | at + k <= a.Length && (at + k <= off || off + n <= at)
      ensures GetAt(k, a[..], at) == GetAt(k, was, at)
    {
      ReadElsewhere(was, off, Put(n, x), at, k);
    }
  }
}
