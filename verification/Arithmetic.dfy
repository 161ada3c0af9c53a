/** Facts about products, quotients, powers and bitwise AND that the address arithmetic rests on. */
module Arithmetic {

  lemma MulMonotone(a: nat, b: nat, c: nat)
    requires a <= b
    ensures a * c <= b * c
  {
  }

  lemma MulAssociative(a: nat, b: nat, c: nat)
    ensures a * (b * c) == (a * b) * c
  {
  }

  lemma DivUnique(x: nat, c: nat, q: nat, r: nat)
    requires c > 0 && r < c && x == q * c + r
    ensures x / c == q && x % c == r
  {
    var d := x / c - q;
    assert x == (x / c) * c + x % c;
    assert d * c == (x / c) * c - q * c;
    assert d * c == r - x % c;
    if d >= 1 {
      MulMonotone(1, d, c);
    } else if d <= -1 {
      MulMonotone(1, -d, c);
    }
  }

  lemma DivOfProduct(a: nat, c: nat)
    requires c > 0
    ensures a * c / c == a && a * c % c == 0
  {
    DivUnique(a * c, c, a, 0);
  }

  lemma QuotientBound(x: nat, c: nat, q: nat)
    requires c > 0
    ensures q <= x / c <==> q * c <= x
  {
    assert x == (x / c) * c + x % c;
    if q <= x / c {
      MulMonotone(q, x / c, c);
    } else {
      MulMonotone(x / c + 1, q, c);
      assert (x / c + 1) * c == (x / c) * c + c;
    }
  }

  /** The guard `a > max / b` written before a product keeps `a * b` in range. */
  lemma GuardedProduct(a: nat, b: nat, max: nat)
    requires b > 0 && a <= max / b
    ensures a * b <= max && b * a <= max
  {
    QuotientBound(max, b, a);
  }

  /** The least `q` with `x <= q * c`. */
  function CeilDiv(x: nat, c: nat): nat
    requires c > 0
  {
    if x == 0 then 0 else (x - 1) / c + 1
  }

  lemma CeilDivBounds(x: nat, c: nat)
    requires c > 0
    ensures x <= CeilDiv(x, c) * c
    ensures x > 0 ==> (CeilDiv(x, c) - 1) * c < x
  {
    if x > 0 {
      var q := (x - 1) / c;
      assert x - 1 == q * c + (x - 1) % c;
      assert (q + 1) * c == q * c + c;
    }
  }

  /** The usual rounding-up expression computes `CeilDiv` when the sum is exact. */
  lemma CeilDivSum(x: nat, c: nat)
    requires c > 0
    ensures (x + c - 1) / c == CeilDiv(x, c)
  {
    if x == 0 {
      DivUnique(c - 1, c, 0, c - 1);
    } else {
      var q, r := (x - 1) / c, (x - 1) % c;
      assert x - 1 == q * c + r;
      assert (q + 1) * c == q * c + c;
      DivUnique(x + c - 1, c, q + 1, r);
    }
  }

  function Pow(base: nat, k: nat): nat {
    if k == 0 then 1 else base * Pow(base, k - 1)
  }

  lemma {:induction false} PowPositive(base: nat, k: nat)
    requires base >= 1
    ensures Pow(base, k) >= 1
  {
    if k > 0 {
      PowPositive(base, k - 1);
      MulMonotone(1, Pow(base, k - 1), base);
    }
  }

  lemma {:induction false} PowAdd(base: nat, j: nat, k: nat)
    ensures Pow(base, j + k) == Pow(base, j) * Pow(base, k)
    decreases j
  {
    if j > 0 {
      PowAdd(base, j - 1, k);
      MulAssociative(base, Pow(base, j - 1), Pow(base, k));
    }
  }

  lemma {:induction false} PowGrows(base: nat, j: nat, k: nat)
    requires base >= 2 && j < k
    ensures Pow(base, j) < Pow(base, k)
    decreases k
  {
    PowPositive(base, k - 1);
    MulMonotone(2, base, Pow(base, k - 1));
    if j < k - 1 {
      PowGrows(base, j, k - 1);
    }
  }

  lemma PowersOfTwo()
    ensures Pow(2, 4) == 16 && Pow(2, 8) == 0x100 && Pow(2, 10) == 1024
    ensures Pow(2, 16) == 0x1_0000 && Pow(2, 32) == 0x1_0000_0000 && Pow(2, 31) == 0x8000_0000
  {
    assert Pow(2, 2) == 4;
    PowAdd(2, 2, 2);
    PowAdd(2, 4, 4);
    PowAdd(2, 8, 2);
    PowAdd(2, 8, 8);
    PowAdd(2, 16, 16);
    assert Pow(2, 32) == 2 * Pow(2, 31);
  }

  /** Of two powers of the same base, the one that is not larger divides the other. */
  lemma PowDivides(base: nat, j: nat, k: nat)
    requires base >= 2 && Pow(base, j) <= Pow(base, k)
    ensures exists m: nat :: Pow(base, k) == m * Pow(base, j)
  {
    if j > k {
      PowGrows(base, k, j);
    } else {
      PowAdd(base, k - j, j);
      assert Pow(base, k) == Pow(base, k - j) * Pow(base, j);
    }
  }

  /** Bitwise AND of two naturals, bit by bit. */
  function BitAnd(a: nat, b: nat): nat {
    if a == 0 || b == 0 then 0 else (a % 2) * (b % 2) + 2 * BitAnd(a / 2, b / 2)
  }

  lemma {:induction false} BitAndSelf(a: nat)
    ensures BitAnd(a, a) == a
  {
    if a > 0 {
      BitAndSelf(a / 2);
    }
  }

  lemma HalveTwice(n: nat, c: nat)
    requires c > 0
    ensures n / 2 / c == n / (2 * c)
  {
    var h := n / 2;
    var q, r := h / c, h % c;
    assert h == q * c + r;
    assert (2 * c) * q == 2 * (q * c) && q * (2 * c) == 2 * (q * c);
    DivUnique(n, 2 * c, q, 2 * r + n % 2);
  }

  /** Testing one bit with a mask is dividing it down to the units. */
  lemma {:induction false} BitAndPower(n: nat, k: nat, m: nat)
    requires m == Pow(2, k) && m > 0
    ensures BitAnd(n, m) != 0 <==> n / m % 2 == 1
  {
    if k == 0 {
      assert BitAnd(n / 2, 0) == 0;
    } else if n > 0 {
      BitAndPower(n / 2, k - 1, m / 2);
      HalveTwice(n, m / 2);
    }
  }

  /** The masks in use: bits 1, 7, 10 and 19. */
  lemma Masks(n: nat)
    ensures BitAnd(n, 0x2) != 0 <==> n / 0x2 % 2 == 1
    ensures BitAnd(n, 0x80) != 0 <==> n / 0x80 % 2 == 1
    ensures BitAnd(n, 0x400) != 0 <==> n / 0x400 % 2 == 1
    ensures BitAnd(n, 0x8_0000) != 0 <==> n / 0x8_0000 % 2 == 1
  {
    hide BitAnd;
    MaskPowers();
    BitAndPower(n, 1, 0x2);
    BitAndPower(n, 7, 0x80);
    BitAndPower(n, 10, 0x400);
    BitAndPower(n, 19, 0x8_0000);
  }

  lemma MaskPowers()
    ensures Pow(2, 1) == 0x2 && Pow(2, 7) == 0x80 && Pow(2, 10) == 0x400 && Pow(2, 19) == 0x8_0000
  {
    PowersOfTwo();
    PowAdd(2, 16, 3);
    assert Pow(2, 3) == 8;
  }

  ghost predicate IsPowerOfTwo(n: nat) {
    exists k: nat :: n == Pow(2, k)
  }

  /** The bit trick `n & (n - 1) == 0` holds of exactly the powers of two. */
  lemma {:induction false} BitTrick(n: nat)
    requires n > 0
    ensures BitAnd(n, n - 1) == 0 <==> IsPowerOfTwo(n)
  {
    if n == 1 {
      assert n == Pow(2, 0);
    } else if n % 2 == 0 {
      BitTrick(n / 2);
      assert (n - 1) / 2 == n / 2 - 1;
      if IsPowerOfTwo(n / 2) {
        var k: nat :| n / 2 == Pow(2, k);
        assert n == Pow(2, k + 1);
      }
      if IsPowerOfTwo(n) {
        var k: nat :| n == Pow(2, k);
        assert n / 2 == Pow(2, k - 1);
      }
    } else {
      assert (n - 1) / 2 == n / 2;
      BitAndSelf(n / 2);
    }
  }
}
