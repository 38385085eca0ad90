// Bitwise AND on size_t values, and why masking with capacity - 1 is reduction modulo the capacity.

module Mask {

  /** Width of size_t on the native build. */
  const SIZE_BITS: nat := 64

  function Pow2(n: nat): (p: nat)
    ensures p >= 1
  {
    if n == 0 then 1 else 2 * Pow2(n - 1)
  }

  predicate IsPow2(x: nat) {
    x == 1 || (x > 1 && x % 2 == 0 && IsPow2(x / 2))
  }

  /** x & y, bit by bit. */
  function And(x: nat, y: nat): nat {
    if x == 0 || y == 0 then 0 else 2 * And(x / 2, y / 2) + (x % 2) * (y % 2)
  }

  /** ~x + 1 in w-bit arithmetic. */
  function Negate(x: nat, w: nat): nat
    requires x < Pow2(w)
  {
    if x == 0 then 0 else Pow2(w) - x
  }

  lemma Pow2Unfold(k: nat)
    ensures Pow2(0) == 1 && Pow2(k + 1) == 2 * Pow2(k)
  {
  }

  lemma DoubleIsPow2(p: nat)
    requires IsPow2(p)
    ensures IsPow2(2 * p)
  {
    assert 2 * p / 2 == p && 2 * p % 2 == 0;
  }

  lemma {:induction false} Pow2IsPow2(k: nat)
    ensures IsPow2(Pow2(k))
  {
    hide Pow2, IsPow2;
    if k > 0 {
      Pow2Unfold(k - 1);
      Pow2IsPow2(k - 1);
      DoubleIsPow2(Pow2(k - 1));
    } else {
      Pow2Unfold(0);
      One();
    }
  }

  lemma One()
    ensures IsPow2(1)
  {
  }

  lemma {:induction false} IsPow2Exact(x: nat)
    ensures IsPow2(x) <==> exists k: nat :: Pow2(k) == x
  {
    hide Pow2;
    if k: nat :| Pow2(k) == x {
      Pow2IsPow2(k);
    }
    if x > 1 && IsPow2(x) {
      IsPow2Exact(x / 2);
      var k: nat :| Pow2(k) == x / 2;
      Pow2Unfold(k);
    }
    Pow2Unfold(0);
  }

  lemma {:induction false} MaskIsModulus(x: nat, c: nat)
    requires IsPow2(c)
    ensures And(x, c - 1) == x % c
    decreases c
  {
    if c > 1 {
      var h := c / 2;
      MaskIsModulus(x / 2, h);
      assert (c - 1) / 2 == h - 1 && (c - 1) % 2 == 1;
      HalveModulus(x, h);
      if x != 0 {
        assert And(x, c - 1) == 2 * And(x / 2, h - 1) + x % 2;
      }
    }
  }

  lemma HalveModulus(x: nat, h: nat)
    requires h > 0
    ensures x % (2 * h) == 2 * ((x / 2) % h) + x % 2
  {
    var q, r := (x / 2) / h, (x / 2) % h;
    assert x / 2 == h * q + r;
    assert x == (2 * h) * q + (2 * r + x % 2) by {
      assert (2 * h) * q == 2 * (h * q);
    }
    DivisionUnique(x, 2 * h, q, 2 * r + x % 2);
  }

  lemma DivisionUnique(x: nat, d: nat, q: nat, r: nat)
    requires d > 0 && r < d && x == d * q + r
    ensures x % d == r && x / d == q
  {
    var k := x / d - q;
    assert d * k == r - x % d by {
      assert d * (x / d) + x % d == x;
      assert d * (x / d - q) == d * (x / d) - d * q;
    }
    if k != 0 {
      NonzeroMultiple(d, k);
      assert false;
    }
  }

  lemma NonzeroMultiple(d: int, k: int)
    requires d >= 0 && k != 0
    ensures d * k >= d || d * k <= -d
  {
    if k > 0 {
      assert d * (k - 1) >= 0;
    } else {
      assert d * (-k - 1) >= 0;
    }
  }

  lemma {:induction false} ComplementShares(q: nat, w: nat)
    requires q < Pow2(w)
    ensures And(q, Pow2(w) - 1 - q) == 0
  {
    if w > 0 {
      ComplementShares(q / 2, w - 1);
      var r := Pow2(w) - 1 - q;
      assert r / 2 == Pow2(w - 1) - 1 - q / 2;
      assert (q % 2) * (r % 2) == 0;
    }
  }

  /** The macro isPowerOfTwo: x != 0 and x & (~x + 1) == x. */
  predicate PowerOfTwoTest(x: nat, w: nat)
    requires x < Pow2(w)
  {
    x != 0 && And(x, Negate(x, w)) == x
  }

  lemma {:induction false} PowerOfTwoTestExact(x: nat, w: nat)
    requires x < Pow2(w)
    ensures PowerOfTwoTest(x, w) <==> IsPow2(x)
    decreases w
  {
    if x != 0 {
      var n := Pow2(w) - x;
      assert Negate(x, w) == n;
      var q := x / 2;
      if x % 2 == 0 {
        PowerOfTwoTestExact(q, w - 1);
        assert n / 2 == Pow2(w - 1) - q && n % 2 == 0;
        assert And(x, n) == 2 * And(q, n / 2);
      } else {
        ComplementShares(q, w - 1);
        assert n / 2 == Pow2(w - 1) - 1 - q && n % 2 == 1;
        assert And(x, n) == 2 * And(q, n / 2) + 1;
      }
    }
  }

  /** x mod c for an index at most one lap ahead. */
  function Wrap(x: nat, c: nat): nat {
    if x < c then x else x - c
  }

  lemma WrapIsModulus(x: nat, c: nat)
    requires x < 2 * c
    ensures Wrap(x, c) == x % c
  {
    DivisionUnique(x, c, if x < c then 0 else 1, Wrap(x, c));
  }

  lemma MaskWraps(x: nat, c: nat)
    requires IsPow2(c) && x < 2 * c
    ensures And(x, c - 1) == Wrap(x, c)
  {
    MaskIsModulus(x, c);
    WrapIsModulus(x, c);
  }
}
