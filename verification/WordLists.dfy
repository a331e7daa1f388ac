/** Fixed-layout records of little-endian words, as the benchmark codecs lay them out
    (src/modules/benchmarks/include/aimee/benchmarks/module_api.h): header words of four
    bytes, then blocks of eight-byte words padded with zeros to a fixed capacity. */
module WordLists {
  import opened LittleEndian

  function Words4(xs: seq<u32>): (b: seq<byte>)
    ensures |b| == 4 * |xs|
  {
    if xs == [] then [] else Words4(xs[..|xs| - 1]) + Put(4, xs[|xs| - 1])
  }

  function Words8(xs: seq<u64>): (b: seq<byte>)
    ensures |b| == 8 * |xs|
  {
    if xs == [] then [] else Words8(xs[..|xs| - 1]) + Put(8, xs[|xs| - 1])
  }

  function Read4(b: seq<byte>, n: nat): (xs: seq<u32>)
    requires 4 * n <= |b|
    ensures |xs| == n
  {
    if n == 0 then [] else Read4(b, n - 1) + [U32At(b, 4 * (n - 1))]
  }

  function Read8(b: seq<byte>, n: nat): (xs: seq<u64>)
    requires 8 * n <= |b|
    ensures |xs| == n
  {
    if n == 0 then [] else Read8(b, n - 1) + [U64At(b, 8 * (n - 1))]
  }

  lemma {:induction false} Read4At(b: seq<byte>, n: nat, i: nat)
    requires 4 * n <= |b| && i < n
    ensures Read4(b, n)[i] == U32At(b, 4 * i)
  {
    hide GetAt;
    if i < n - 1 {
      Read4At(b, n - 1, i);
    }
  }

  lemma {:induction false} ReadPrefix4(b: seq<byte>, c: seq<byte>, n: nat)
    requires 4 * n <= |b| <= |c| && b == c[..|b|]
    ensures Read4(b, n) == Read4(c, n)
  {
    hide Get;
    if n > 0 {
      ReadPrefix4(b, c, n - 1);
      assert b[4 * (n - 1)..4 * n] == c[4 * (n - 1)..4 * n];
    }
  }

  lemma {:induction false} ReadOfWords4(xs: seq<u32>, rest: seq<byte>)
    ensures Read4(Words4(xs) + rest, |xs|) == xs
  {
    if xs != [] {
      hide Put, Get;
      var k := |xs| - 1;
      ReadOfWords4(xs[..k], Put(4, xs[k]) + rest);
      var b := Words4(xs[..k]) + (Put(4, xs[k]) + rest);
      assert b == Words4(xs) + rest;
      assert b[4 * k..4 * k + 4] == Put(4, xs[k]);
      WordRoundTrip(4, xs[k]);
    }
  }

  lemma {:induction false} WordsOfRead4(b: seq<byte>, n: nat)
    requires |b| == 4 * n
    ensures Words4(Read4(b, n)) == b
  {
    if n > 0 {
      hide Put, Get, GetAt, Words4, Read4;
      var off := 4 * (n - 1);
      WordsOfRead4(b[..off], n - 1);
      ReadPrefix4(b[..off], b, n - 1);
      ReadOneMore4(b, n - 1);
      WordsOfAppend4(Read4(b, n - 1), U32At(b, off));
      LastWord4(b, off);
      Rejoin(b, off, off + 4);
    }
  }

  lemma LastWord4(b: seq<byte>, off: nat)
    requires off + 4 <= |b|
    ensures Put(4, U32At(b, off)) == b[off..off + 4]
  {
    PutOfGet(b[off..off + 4]);
  }

  lemma ReadOneMore4(b: seq<byte>, n: nat)
    requires 4 * n + 4 <= |b|
    ensures Read4(b, n + 1) == Read4(b, n) + [U32At(b, 4 * n)]
  {
  }

  lemma WordsOfAppend4(xs: seq<u32>, x: u32)
    ensures Words4(xs + [x]) == Words4(xs) + Put(4, x)
  {
    assert (xs + [x])[..|xs|] == xs;
  }

  lemma {:induction false} Read8At(b: seq<byte>, n: nat, i: nat)
    requires 8 * n <= |b| && i < n
    ensures Read8(b, n)[i] == U64At(b, 8 * i)
  {
    hide GetAt;
    if i < n - 1 {
      Read8At(b, n - 1, i);
    }
  }

  lemma {:induction false} ReadPrefix8(b: seq<byte>, c: seq<byte>, n: nat)
    requires 8 * n <= |b| <= |c| && b == c[..|b|]
    ensures Read8(b, n) == Read8(c, n)
  {
    hide Get;
    if n > 0 {
      ReadPrefix8(b, c, n - 1);
      assert b[8 * (n - 1)..8 * n] == c[8 * (n - 1)..8 * n];
    }
  }

  lemma {:induction false} ReadOfWords8(xs: seq<u64>, rest: seq<byte>)
    ensures Read8(Words8(xs) + rest, |xs|) == xs
  {
    if xs != [] {
      hide Put, Get;
      var k := |xs| - 1;
      ReadOfWords8(xs[..k], Put(8, xs[k]) + rest);
      var b := Words8(xs[..k]) + (Put(8, xs[k]) + rest);
      assert b == Words8(xs) + rest;
      assert b[8 * k..8 * k + 8] == Put(8, xs[k]);
      WordRoundTrip(8, xs[k]);
    }
  }

  lemma {:induction false} WordsOfRead8(b: seq<byte>, n: nat)
    requires |b| == 8 * n
    ensures Words8(Read8(b, n)) == b
  {
    if n > 0 {
      hide Put, Get, GetAt, Words8, Read8;
      var off := 8 * (n - 1);
      WordsOfRead8(b[..off], n - 1);
      ReadPrefix8(b[..off], b, n - 1);
      ReadOneMore8(b, n - 1);
      WordsOfAppend8(Read8(b, n - 1), U64At(b, off));
      LastWord8(b, off);
      Rejoin(b, off, off + 8);
    }
  }

  lemma LastWord8(b: seq<byte>, off: nat)
    requires off + 8 <= |b|
    ensures Put(8, U64At(b, off)) == b[off..off + 8]
  {
    PutOfGet(b[off..off + 8]);
  }

  lemma ReadOneMore8(b: seq<byte>, n: nat)
    requires 8 * n + 8 <= |b|
    ensures Read8(b, n + 1) == Read8(b, n) + [U64At(b, 8 * n)]
  {
  }

  lemma WordsOfAppend8(xs: seq<u64>, x: u64)
    ensures Words8(xs + [x]) == Words8(xs) + Put(8, x)
  {
    assert (xs + [x])[..|xs|] == xs;
  }

  lemma Rejoin(b: seq<byte>, off: nat, end: nat)
    requires off <= end == |b|
    ensures b == b[..off] + b[off..end]
  {
  }

  function Zeros(n: nat): (b: seq<byte>)
    ensures |b| == n
  {
    seq(n, _ => 0)
  }

  predicate AllZero(b: seq<byte>) {
    forall i :: 0 <= i < |b| ==> b[i] == 0
  }

  lemma AllZeroIsZeros(b: seq<byte>)
    ensures AllZero(b) <==> b == Zeros(|b|)
  {
  }

  lemma PutOfZero(n: nat)
    ensures Put(n, 0) == Zeros(n)
  {
    if n > 0 {
      PutOfZero(n - 1);
    }
  }

  /** The loop both codecs use to check padding. */
  method ZeroPadding(b: seq<byte>) returns (zero: bool)
    ensures zero <==> AllZero(b)
  {
    for i := 0 to |b|
      invariant AllZero(b[..i])
    {
      if b[i] != 0 {
        return false;
      }
    }
    assert b[..|b|] == b;
    return true;
  }

  /** A block of at most capacity words, padded with zeros. */
  function Block(xs: seq<u64>, capacity: nat): (b: seq<byte>)
    requires |xs| <= capacity
    ensures |b| == 8 * capacity
  {
    Words8(xs) + Zeros(8 * (capacity - |xs|))
  }

  /** A padded block determines its words, and the words their block. */
  lemma BlockIsUnique(xs: seq<u64>, capacity: nat, b: seq<byte>)
    requires |xs| <= capacity && |b| == 8 * capacity
    ensures b == Block(xs, capacity) <==> Read8(b, |xs|) == xs && AllZero(b[8 * |xs|..])
  {
    hide Words8, Read8;
    var n := |xs|;
    if b == Block(xs, capacity) {
      ReadOfWords8(xs, Zeros(8 * (capacity - n)));
      assert b[8 * n..] == Zeros(8 * (capacity - n));
    }
    if Read8(b, n) == xs && AllZero(b[8 * n..]) {
      ReadPrefix8(b[..8 * n], b, n);
      WordsOfRead8(b[..8 * n], n);
      AllZeroIsZeros(b[8 * n..]);
      assert b == b[..8 * n] + b[8 * n..];
    }
  }

  /** Reading inside a record is reading its slice. */
  lemma ReadAt(b: seq<byte>, off: nat, n: nat)
    requires off + 8 * n <= |b|
    ensures forall i :: 0 <= i < n ==> Read8(b[off..], n)[i] == U64At(b, off + 8 * i)
  {
    hide Get;
    forall i: nat | i < n ensures Read8(b[off..], n)[i] == U64At(b, off + 8 * i) {
      Read8At(b[off..], n, i);
      assert b[off..][8 * i..8 * i + 8] == b[off + 8 * i..off + 8 * i + 8];
    }
  }

  /** Writes words of eight bytes one after the other. */
  method StoreWords(a: array<byte>, off: nat, xs: seq<u64>)
    requires off + 8 * |xs| <= a.Length
    modifies a
    ensures a[..] == Splice(old(a[..]), off, Words8(xs))
  {
    hide Put, Splice;
    SpliceNothing(a[..], off);
    for i := 0 to |xs|
      invariant a[..] == Splice(old(a[..]), off, Words8(xs[..i]))
    {
      Store(a, off + 8 * i, 8, xs[i]);
      assert xs[..i + 1][..i] == xs[..i];
      SpliceAdjacent(old(a[..]), off, Words8(xs[..i]), Put(8, xs[i]));
    }
    assert xs[..|xs|] == xs;
  }

  method StoreHeader(a: array<byte>, xs: seq<u32>)
    requires 4 * |xs| <= a.Length
    modifies a
    ensures a[..] == Splice(old(a[..]), 0, Words4(xs))
  {
    hide Put, Splice;
    SpliceNothing(a[..], 0);
    for i := 0 to |xs|
      invariant a[..] == Splice(old(a[..]), 0, Words4(xs[..i]))
    {
      Store(a, 4 * i, 4, xs[i]);
      assert xs[..i + 1][..i] == xs[..i];
      SpliceAdjacent(old(a[..]), 0, Words4(xs[..i]), Put(4, xs[i]));
    }
    assert xs[..|xs|] == xs;
  }

  /** Clears the first n bytes. */
  method Clear(a: array<byte>, n: nat)
    requires n <= a.Length
    modifies a
    ensures a[..] == Zeros(n) + old(a[..])[n..]
  {
    for i := 0 to n
      invariant forall k :: 0 <= k < i ==> a[k] == 0
      invariant forall k :: i <= k < a.Length ==> a[k] == old(a[k])
    {
      a[i] := 0;
    }
  }
}
