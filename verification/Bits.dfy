/** Bitwise conjunction on unsigned words, for the flag masks of the wire header and the
    index mask of the ring. */
module Bits {

  function BitAnd(a: nat, b: nat): (r: nat)
    ensures r <= a && r <= b
    decreases a
  {
    if a == 0 || b == 0 then 0
    else 2 * BitAnd(a / 2, b / 2) + (if a % 2 == 1 && b % 2 == 1 then 1 else 0)
  }

  function Pow2(n: nat): (r: nat)
    ensures r > 0
  {
    if n == 0 then 1 else 2 * Pow2(n - 1)
  }

  lemma SmallPowers()
    ensures Pow2(4) == 16 && Pow2(8) == 0x100 && Pow2(12) == 0x1000 && Pow2(16) == 0x1_0000
  {
    SixteenTimes(0);
    SixteenTimes(4);
    SixteenTimes(8);
    SixteenTimes(12);
  }

  lemma SixteenTimes(n: nat)
    ensures Pow2(n + 4) == 16 * Pow2(n)
  {
    assert Pow2(n + 2) == 2 * Pow2(n + 1);
    assert Pow2(n + 4) == 2 * Pow2(n + 3) && Pow2(n + 3) == 2 * Pow2(n + 2);
  }

  /** Masking with 2^k - 1 is reduction modulo 2^k. */
  lemma {:induction false} MaskIsModulo(x: nat, k: nat)
    ensures BitAnd(x, Pow2(k) - 1) == x % Pow2(k)
  {
    if k > 0 {
      hide *;
      var m := Pow2(k - 1);
      PowStep(k);
      MaskIsModulo(x / 2, k - 1);
      HalfOfOdd(m);
      MaskStep(x, 2 * m - 1, m - 1);
      ModuloHalves(x, m);
    }
  }

  lemma PowStep(k: nat)
    requires k > 0
    ensures Pow2(k) == 2 * Pow2(k - 1)
  {
  }

  lemma HalfOfOdd(m: nat)
    requires m > 0
    ensures (2 * m - 1) / 2 == m - 1 && (2 * m - 1) % 2 == 1
  {
  }

  lemma MaskStep(x: nat, mask: nat, half: nat)
    requires mask % 2 == 1 && mask / 2 == half
    ensures BitAnd(x, mask) == 2 * BitAnd(x / 2, half) + x % 2
  {
  }

  lemma ModuloHalves(x: nat, m: nat)
    requires m > 0
    ensures x % (2 * m) == 2 * ((x / 2) % m) + x % 2
  {
    var h := x / 2;
    var q, r := h / m, h % m;
    assert x == (2 * m) * q + (2 * r + x % 2);
    ModuloUnique(x, 2 * m, q, 2 * r + x % 2);
  }

  lemma ModuloUnique(x: int, m: nat, q: int, r: nat)
    requires m > 0 && r < m && x == m * q + r
    ensures x % m == r && x / m == q
  {
    var d := x / m - q;
    assert m * d == r - x % m;
    assert d >= 1 ==> m * d >= m;
    assert d <= -1 ==> m * d <= -(m as int);
  }

  lemma {:induction false} LogOf(c: nat) returns (k: nat)
    requires c > 0 && BitAnd(c, c - 1) == 0
    ensures c == Pow2(k)
  {
    k := 0;
    if c > 1 {
      assert c % 2 == 1 ==> (c - 1) / 2 == c / 2;
      BitAndSelf(c / 2);
      assert (c - 1) / 2 == c / 2 - 1;
      k := LogOf(c / 2);
      k := k + 1;
    }
  }

  lemma PowerSharesNoBit(k: nat)
    ensures BitAnd(Pow2(k), Pow2(k) - 1) == 0
  {
    MaskIsModulo(Pow2(k), k);
    ModuloUnique(Pow2(k), Pow2(k), 1, 0);
  }

  /** A positive word is a power of two exactly when it shares no bit with its predecessor. */
  lemma PowerOfTwoTest(c: nat)
    requires c > 0
    ensures BitAnd(c, c - 1) == 0 <==> exists k: nat :: c == Pow2(k)
  {
    if BitAnd(c, c - 1) == 0 {
      var k := LogOf(c);
    }
    forall k: nat ensures BitAnd(Pow2(k), Pow2(k) - 1) == 0 {
      PowerSharesNoBit(k);
    }
  }

  lemma {:induction false} BitAndSelf(a: nat)
    ensures BitAnd(a, a) == a
  {
    if a > 0 {
      BitAndSelf(a / 2);
    }
  }

  /** The bit of weight 2^k. */
  lemma {:induction false} SingleBit(x: nat, k: nat)
    ensures BitAnd(x, Pow2(k)) == if (x / Pow2(k)) % 2 == 1 then Pow2(k) else 0
  {
    if k > 0 {
      SingleBit(x / 2, k - 1);
      DivideTwice(x, Pow2(k - 1));
    } else {
      assert BitAnd(x / 2, 0) == 0;
    }
  }

  lemma DivideTwice(x: nat, m: nat)
    requires m > 0
    ensures x / (2 * m) == (x / 2) / m
  {
    var q, r := (x / 2) / m, (x / 2) % m;
    assert x == (2 * m) * q + (2 * r + x % 2);
    ModuloUnique(x, 2 * m, q, 2 * r + x % 2);
  }

  /** Masks that share no bit add up. */
  lemma {:induction false} DisjointMasks(x: nat, b: nat, c: nat)
    requires BitAnd(b, c) == 0
    ensures BitAnd(x, b + c) == BitAnd(x, b) + BitAnd(x, c)
  {
    if x > 0 {
      hide BitAnd;
      BitAndStep(b, c);
      assert (b + c) / 2 == b / 2 + c / 2;
      DisjointMasks(x / 2, b / 2, c / 2);
      BitAndStep(x, b + c);
      BitAndStep(x, b);
      BitAndStep(x, c);
    }
  }

  lemma BitAndStep(a: nat, b: nat)
    ensures BitAnd(a, b) == 2 * BitAnd(a / 2, b / 2) + (if a % 2 == 1 && b % 2 == 1 then 1 else 0)
  {
  }

  lemma {:induction false} PowersDivide(k: nat, n: nat)
    requires k <= n
    ensures Pow2(n) == Pow2(k) * Pow2(n - k)
  {
    if k > 0 {
      PowersDivide(k - 1, n - 1);
    }
  }

  lemma MultipleOfPower(k: nat, n: nat)
    requires k <= n
    ensures Pow2(k) <= Pow2(n) && (Pow2(n) - Pow2(k)) % Pow2(k) == 0
  {
    PowersDivide(k, n);
    OneMultipleLess(Pow2(k), Pow2(n - k));
  }

  lemma OneMultipleLess(m: nat, w: nat)
    requires m > 0 && w > 0
    ensures m <= m * w && (m * w - m) % m == 0
  {
    assert m * w - m == m * (w - 1);
    ModuloUnique(m * w - m, m, w - 1, 0);
  }

  /** The mask of bits k to n - 1 finds nothing exactly when x fits below bit k. */
  lemma MaskAbove(x: nat, k: nat, n: nat)
    requires k <= n && x < Pow2(n) && Pow2(k) <= Pow2(n)
    ensures BitAnd(x, Pow2(n) - Pow2(k)) == 0 <==> x < Pow2(k)
  {
    MultipleOfPower(k, n);
    MaskIsModulo(Pow2(n) - Pow2(k), k);
    DisjointMasks(x, Pow2(n) - Pow2(k), Pow2(k) - 1);
    assert BitAnd(x, Pow2(n) - 1) == x by {
      MaskIsModulo(x, n);
      SmallModulo(x, Pow2(n));
    }
    assert BitAnd(x, Pow2(k) - 1) == x % Pow2(k) by {
      MaskIsModulo(x, k);
    }
    SmallModulo(x, Pow2(k));
  }

  lemma SmallModulo(x: nat, m: nat)
    requires m > 0
    ensures x % m == x <==> x < m
  {
  }

  lemma {:induction false} PowersGrow(k: nat, n: nat)
    requires k < n
    ensures Pow2(k) < Pow2(n)
  {
    if k + 1 < n {
      PowersGrow(k, n - 1);
    }
  }
}
