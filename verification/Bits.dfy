/** Bitwise `and` on naturals, as the segment reader's masks use it (examples/reader.py). */
module Bits {

  /** `x & y`. */
  function And(x: nat, y: nat): nat {
    if x == 0 || y == 0 then 0 else 2 * And(x / 2, y / 2) + (x % 2) * (y % 2)
  }

  /** `x & ~y`. */
  function AndNot(x: nat, y: nat): nat {
    if x == 0 then 0 else 2 * AndNot(x / 2, y / 2) + (x % 2) * (1 - y % 2)
  }

  lemma {:induction false} BitSquares(b: nat)
    requires b < 2
    ensures b * b == b
  {
  }

  lemma {:induction false} AndSelf(x: nat)
    ensures And(x, x) == x
  {
    if x > 0 {
      AndSelf(x / 2);
      BitSquares(x % 2);
      assert And(x, x) == 2 * And(x / 2, x / 2) + (x % 2) * (x % 2);
    }
  }

  lemma {:induction false} AndNotZero(x: nat)
    ensures AndNot(x, 0) == x
  {
    if x > 0 {
      AndNotZero(x / 2);
      assert AndNot(x, 0) == 2 * AndNot(x / 2, 0) + (x % 2) * 1;
    }
  }

  lemma {:induction false} HalvedModulo(x: nat, half: nat)
    requires half > 0
    ensures 2 * (x / 2 % half) + x % 2 == x % (2 * half)
  {
    var q, r := x / 2 / half, x / 2 % half;
    assert x / 2 == q * half + r;
    assert x == 2 * (x / 2) + x % 2;
    Remainder(x, 2 * half, q, 2 * r + x % 2);
  }

  lemma {:induction false} Remainder(x: nat, d: nat, q: nat, r: nat)
    requires d > 0 && r < d && x == d * q + r
    ensures x / d == q && x % d == r
  {
    var p, s := x / d, x % d;
    assert x == d * p + s;
    if p < q {
      MultipleGap(d, p, q);
    } else if q < p {
      MultipleGap(d, q, p);
    }
  }

  lemma {:induction false} NaturalProduct(x: nat, y: nat)
    ensures x * y >= 0
  {
  }

  lemma {:induction false} Distributes(d: int, p: int, k: int)
    ensures d * (p + 1 + k) == d * p + d + d * k
  {
  }

  lemma {:induction false} MultipleGap(d: nat, p: nat, q: nat)
    requires p < q
    ensures d * p + d <= d * q
  {
    Distributes(d, p, q - p - 1);
    NaturalProduct(d, q - p - 1);
    assert p + 1 + (q - p - 1) == q;
  }

  lemma {:induction false} MaskWraps(capacity: nat, x: nat)
    requires capacity > 0 && And(capacity, capacity - 1) == 0
    ensures And(x, capacity - 1) == x % capacity
    decreases capacity
  {
    if capacity > 1 {
      var half := capacity / 2;
      if capacity % 2 == 1 {
        assert (capacity - 1) / 2 == half;
        AndSelf(half);
        assert false;
      }
      assert (capacity - 1) / 2 == half - 1;
      MaskWraps(half, x / 2);
      HalvedModulo(x, half);
    }
  }

  /** The reader's capacity test is exactly what makes its mask a wrap-around. */
  lemma {:induction false} MaskIsModulo(capacity: nat)
    requires capacity > 0
    ensures And(capacity, capacity - 1) == 0 <==> (forall x: nat :: And(x, capacity - 1) == x % capacity)
  {
    if And(capacity, capacity - 1) == 0 {
      forall x: nat
        ensures And(x, capacity - 1) == x % capacity
      {
        MaskWraps(capacity, x);
      }
    } else {
      assert capacity % capacity == 0;
    }
  }

  function Pow2(k: nat): nat {
    if k == 0 then 1 else 2 * Pow2(k - 1)
  }

  ghost predicate IsPowerOfTwo(n: nat) {
    exists k :: Pow2(k) == n
  }

  /** The test drops the lowest set bit, so on an even number it is the test on the half. */
  lemma {:induction false} TestHalves(n: nat)
    requires n > 1
    ensures n % 2 == 0 ==> And(n, n - 1) == 2 * And(n / 2, n / 2 - 1)
    ensures n % 2 == 1 ==> And(n, n - 1) != 0
  {
    var half := n / 2;
    if n % 2 == 0 {
      assert (n - 1) / 2 == half - 1;
    } else {
      assert (n - 1) / 2 == half;
      AndSelf(half);
    }
  }

  lemma {:induction false} PowerPasses(k: nat)
    ensures Pow2(k) > 0 && And(Pow2(k), Pow2(k) - 1) == 0
  {
    if k > 0 {
      PowerPasses(k - 1);
      TestHalves(Pow2(k));
    }
  }

  lemma {:induction false} PassingIsPower(n: nat) returns (k: nat)
    requires n > 0 && And(n, n - 1) == 0
    ensures Pow2(k) == n
    decreases n
  {
    if n == 1 {
      k := 0;
    } else {
      TestHalves(n);
      k := PassingIsPower(n / 2);
      k := k + 1;
    }
  }

  /** The reader's capacity test passes exactly the powers of two. */
  lemma {:induction false} TestIsPowerOfTwo(n: nat)
    requires n > 0
    ensures And(n, n - 1) == 0 <==> IsPowerOfTwo(n)
  {
    if And(n, n - 1) == 0 {
      var k := PassingIsPower(n);
    }
    if IsPowerOfTwo(n) {
      var k :| Pow2(k) == n;
      PowerPasses(k);
    }
  }
}
