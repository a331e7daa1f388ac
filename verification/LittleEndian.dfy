/** Unsigned machine integers and their little-endian byte form, as both sides of
    the bus and both benchmark codecs write them. */
module LittleEndian {
  import Bits

  type byte = b: int | 0 <= b < 0x100
  type u16 = x: int | 0 <= x < 0x1_0000
  type u32 = x: int | 0 <= x < 0x1_0000_0000
  type u64 = x: int | 0 <= x < 0x1_0000_0000_0000_0000

  const TWO_64: int := 0x1_0000_0000_0000_0000

  /** One more than the largest value that fits in n bytes. */
  function Span(n: nat): (r: nat)
    ensures r > 0
  {
    if n == 0 then 1 else 256 * Span(n - 1)
  }

  lemma SpanOfWords()
    ensures Span(2) == 0x1_0000 && Span(4) == 0x1_0000_0000 && Span(8) == TWO_64
  {
    assert Span(4) == 256 * (256 * Span(2));
    assert Span(6) == 256 * (256 * Span(4));
    assert Span(8) == 256 * (256 * Span(6));
  }

  /** The low n bytes of x, least significant first. */
  function Put(n: nat, x: nat): (b: seq<byte>)
    ensures |b| == n
  {
    if n == 0 then [] else [x % 256] + Put(n - 1, x / 256)
  }

  function Get(b: seq<byte>): (x: nat)
    ensures x < Span(|b|)
  {
    if b == [] then 0 else b[0] + 256 * Get(b[1..])
  }

  lemma {:induction false} GetOfPut(n: nat, x: nat)
    requires x < Span(n)
    ensures Get(Put(n, x)) == x
  {
    if n > 0 {
      hide Get, Put;
      GetOfPut(n - 1, x / 256);
      PutStep(n, x);
      GetStep(Put(n, x));
    }
  }

  lemma {:induction false} PutOfGet(b: seq<byte>)
    ensures Put(|b|, Get(b)) == b
  {
    if b != [] {
      hide Get, Put;
      PutOfGet(b[1..]);
      GetStep(b);
      Digit(b[0], Get(b[1..]));
      PutStep(|b|, Get(b));
      assert b == [b[0]] + b[1..];
    }
  }

  /** Byte i of a word has the weight 256^i. */
  lemma {:induction false} ByteOfWord(n: nat, x: nat, i: nat)
    requires i < n
    ensures Put(n, x)[i] == x / Span(i) % 256
  {
    if i > 0 {
      hide Put;
      PutStep(n, x);
      ByteOfWord(n - 1, x / 256, i - 1);
      assert Put(n, x)[i] == Put(n, x)[1..][i - 1];
      assert Span(i) == 256 * Span(i - 1);
      HigherBytes(x, Span(i - 1));
    }
  }

  lemma HigherBytes(x: nat, m: nat)
    requires m > 0
    ensures x / (256 * m) == x / 256 / m
  {
    var p, r := x / 256 / m, x / 256 % m;
    var rest := 256 * r + x % 256;
    assert x / 256 == m * p + r && x == 256 * (x / 256) + x % 256;
    assert x == 256 * (m * p + r) + x % 256 == 256 * m * p + rest;
    assert 0 <= rest < 256 * m;
    Bits.ModuloUnique(x, 256 * m, p, rest);
  }

  lemma GetStep(b: seq<byte>)
    requires b != []
    ensures Get(b) == b[0] + 256 * Get(b[1..])
  {
  }

  lemma Digit(d: byte, rest: nat)
    ensures (d + 256 * rest) % 256 == d && (d + 256 * rest) / 256 == rest
  {
  }

  lemma PutStep(n: nat, x: nat)
    requires n > 0
    ensures Put(n, x)[0] == x % 256 && Put(n, x)[1..] == Put(n - 1, x / 256)
  {
  }

  lemma WordRoundTrip(n: nat, x: nat)
    requires (n == 2 && x < 0x1_0000) || (n == 4 && x < 0x1_0000_0000) || (n == 8 && x < TWO_64)
    ensures Get(Put(n, x)) == x
  {
    SpanOfWords();
    GetOfPut(n, x);
  }

  lemma {:induction false} GetOfZeros(b: seq<byte>)
    requires forall i :: 0 <= i < |b| ==> b[i] == 0
    ensures Get(b) == 0
  {
    if b != [] {
      GetOfZeros(b[1..]);
    }
  }

  /** The word of width n read at an offset. */
  function GetAt(n: nat, b: seq<byte>, off: nat): (x: nat)
    requires off + n <= |b|
    ensures x < Span(n)
  {
    Get(b[off..off + n])
  }

  function U16At(b: seq<byte>, off: nat): u16
    requires off + 2 <= |b|
  {
    SpanOfWords();
    GetAt(2, b, off)
  }

  function U32At(b: seq<byte>, off: nat): u32
    requires off + 4 <= |b|
  {
    SpanOfWords();
    GetAt(4, b, off)
  }

  function U64At(b: seq<byte>, off: nat): u64
    requires off + 8 <= |b|
  {
    SpanOfWords();
    GetAt(8, b, off)
  }

  /** s with the bytes from off on overwritten by b. */
  function Splice(s: seq<byte>, off: nat, b: seq<byte>): (r: seq<byte>)
    requires off + |b| <= |s|
    ensures |r| == |s|
  {
    s[..off] + b + s[off + |b|..]
  }

  lemma SpliceAdjacent(s: seq<byte>, off: nat, b: seq<byte>, c: seq<byte>)
    requires off + |b| + |c| <= |s|
    ensures Splice(Splice(s, off, b), off + |b|, c) == Splice(s, off, b + c)
  {
  }

  /** A word in the middle of a record. */
  lemma WordAmid(b: seq<byte>, before: seq<byte>, n: nat, x: nat, behind: seq<byte>)
    requires b == before + Put(n, x) + behind
    requires (n == 2 && x < 0x1_0000) || (n == 4 && x < 0x1_0000_0000) || (n == 8 && x < TWO_64)
    ensures |before| + n <= |b| && GetAt(n, b, |before|) == x
  {
    hide Put, Get;
    assert b[|before|..|before| + n] == Put(n, x);
    WordRoundTrip(n, x);
  }

  lemma SliceOfSlice(s: seq<byte>, lo: nat, hi: nat, i: nat, j: nat)
    requires lo <= hi <= |s| && i <= j <= hi - lo
    ensures s[lo..hi][i..j] == s[lo + i..lo + j]
  {
    forall k: nat | k < j - i ensures s[lo..hi][i..j][k] == s[lo + i..lo + j][k] {
    }
  }

  lemma SpliceAt(s: seq<byte>, off: nat, b: seq<byte>, k: nat)
    requires off + |b| <= |s| && k < |s|
    ensures Splice(s, off, b)[k] == if off <= k < off + |b| then b[k - off] else s[k]
  {
  }

  /** A slice that lies inside the overwritten part, or wholly outside it. */
  lemma SliceOfSplice(s: seq<byte>, off: nat, b: seq<byte>, lo: nat, hi: nat)
    requires off + |b| <= |s| && lo <= hi <= |s|
    ensures hi <= off || off + |b| <= lo ==> Splice(s, off, b)[lo..hi] == s[lo..hi]
    ensures off <= lo && hi <= off + |b| ==> Splice(s, off, b)[lo..hi] == b[lo - off..hi - off]
  {
    hide Splice;
    if hi <= off || off + |b| <= lo {
      SliceOutside(s, off, b, lo, hi);
    }
    if off <= lo && hi <= off + |b| {
      SliceInside(s, off, b, lo, hi);
    }
  }

  lemma SliceOutside(s: seq<byte>, off: nat, b: seq<byte>, lo: nat, hi: nat)
    requires off + |b| <= |s| && lo <= hi <= |s| && (hi <= off || off + |b| <= lo)
    ensures Splice(s, off, b)[lo..hi] == s[lo..hi]
  {
    hide Splice;
    forall k: nat | k < hi - lo ensures Splice(s, off, b)[lo..hi][k] == s[lo..hi][k] {
      SpliceAt(s, off, b, lo + k);
    }
  }

  lemma SliceInside(s: seq<byte>, off: nat, b: seq<byte>, lo: nat, hi: nat)
    requires off <= lo <= hi <= off + |b| <= |s|
    ensures Splice(s, off, b)[lo..hi] == b[lo - off..hi - off]
  {
    hide Splice;
    forall k: nat | k < hi - lo ensures Splice(s, off, b)[lo..hi][k] == b[lo - off..hi - off][k] {
      SpliceAt(s, off, b, lo + k);
    }
  }

  /** Writes the low n bytes of x at an offset of a buffer. */
  method Store(a: array<byte>, off: nat, n: nat, x: nat)
    requires off + n <= a.Length
    modifies a
    ensures a[..] == Splice(old(a[..]), off, Put(n, x))
  {
    hide Put, Splice;
    var rest := x;
    ghost var was, p := a[..], Put(n, x);
    SpliceNothing(was, off);
    for i := 0 to n
      invariant a[..] == Splice(was, off, p[..i])
      invariant p[i..] == Put(n - i, rest)
    {
      ghost var now := a[..];
      PutStep(n - i, rest);
      a[off + i] := rest % 256;
      assert a[..] == now[off + i := rest % 256];
      assert p[i] == p[i..][0] && p[i + 1..] == p[i..][1..];
      SpliceOneMore(was, off, p, i);
      rest := rest / 256;
    }
    assert p[..n] == p;
  }

  lemma SpliceNothing(s: seq<byte>, off: nat)
    requires off <= |s|
    ensures Splice(s, off, []) == s
  {
  }

  lemma SpliceOneMore(s: seq<byte>, off: nat, p: seq<byte>, i: nat)
    requires i < |p| && off + |p| <= |s|
    ensures Splice(s, off, p[..i + 1]) == Splice(s, off, p[..i])[off + i := p[i]]
  {
  }
}
