/** Mathematical reference definitions the decimal integer is specified against:
    powers, Java's truncating integer division, factorial and the binomial coefficient. */
module Arith {

  /** The range of a Java `int`. */
  predicate IsInt32(x: int) { -0x8000_0000 <= x < 0x8000_0000 }

  /** The range of a Java `long`. */
  predicate IsInt64(x: int) { -0x8000_0000_0000_0000 <= x < 0x8000_0000_0000_0000 }

  function Abs(x: int): nat { if x < 0 then -x else x }

  /** -1, 0 or +1 as x is negative, zero or positive. */
  function Sign(x: int): int { if x < 0 then -1 else if x == 0 then 0 else 1 }

  function Max(a: int, b: int): int { if a < b then b else a }

  /** Java's 32-bit `int` addition: the result wraps around modulo 2^32. */
  function Wrap32(x: int): (r: int)
    ensures IsInt32(r)
    ensures IsInt32(x) ==> r == x
    ensures (x - r) % 0x1_0000_0000 == 0
  {
    var m := x % 0x1_0000_0000;
    if m >= 0x8000_0000 then m - 0x1_0000_0000 else m
  }

  lemma MulLe(x: int, y: int, c: int)
    requires x <= y && c >= 0
    ensures x * c <= y * c
  {
  }

  lemma MulLeLeft(c: int, x: int, y: int)
    requires x <= y && c >= 0
    ensures c * x <= c * y
  {
  }

  /** The product of two numbers below two bounds is below the product of the bounds. */
  lemma MulBelow(x: int, xs: int, y: int, ys: int)
    requires 0 <= x < xs && 0 <= y < ys
    ensures x * y < xs * ys
  {
    MulLeLeft(x, y, ys);
    MulLe(x + 1, xs, ys);
    MulSucc(x, ys);
  }

  /** Distributing a product over a successor. */
  lemma MulSucc(x: int, p: int)
    ensures (x + 1) * p == x * p + p
  {
  }

  lemma MulComm(x: int, y: int)
    ensures x * y == y * x
  {
  }

  lemma MulSwap(x: int, y: int, z: int)
    ensures x * (y * z) == y * (x * z)
  {
  }

  lemma MulAssoc(x: int, y: int, z: int)
    ensures x * (y * z) == (x * y) * z
  {
  }

  /** Moving a factor of ten out of a product. */
  lemma MulTen(x: int, p: int)
    ensures x * (10 * p) == 10 * (x * p)
  {
  }

  function Pow(b: nat, e: nat): nat
  {
    if e == 0 then 1 else b * Pow(b, e - 1)
  }

  function Pow10(e: nat): nat { Pow(10, e) }

  lemma {:induction false} PowPositive(b: nat, e: nat)
    requires b >= 1
    ensures Pow(b, e) >= 1
  {
    if e > 0 {
      PowPositive(b, e - 1);
    }
  }

  lemma {:induction false} PowAdd(b: nat, e1: nat, e2: nat)
    ensures Pow(b, e1 + e2) == Pow(b, e1) * Pow(b, e2)
  {
    if e2 > 0 {
      PowAdd(b, e1, e2 - 1);
      var p1, p2 := Pow(b, e1), Pow(b, e2 - 1);
      assert Pow(b, e1 + e2) == b * Pow(b, e1 + e2 - 1) == b * (p1 * p2);
      MulSwap(b, p1, p2);
    }
  }

  /** 10^19, the first power of ten above every Java `long`. */
  lemma Pow10Of19()
    ensures Pow10(19) == 10000000000000000000
  {
    assert Pow10(1) == 10;
    assert Pow10(2) == 100;
    assert Pow10(3) == 1000;
    assert Pow10(4) == 10000;
    assert Pow10(5) == 100000;
    assert Pow10(6) == 1000000;
    assert Pow10(7) == 10000000;
    assert Pow10(8) == 100000000;
    assert Pow10(9) == 1000000000;
    assert Pow10(10) == 10000000000;
    assert Pow10(11) == 100000000000;
    assert Pow10(12) == 1000000000000;
    assert Pow10(13) == 10000000000000;
    assert Pow10(14) == 100000000000000;
    assert Pow10(15) == 1000000000000000;
    assert Pow10(16) == 10000000000000000;
    assert Pow10(17) == 100000000000000000;
    assert Pow10(18) == 1000000000000000000;
    assert Pow10(19) == 10000000000000000000;
  }

  /** Powers grow strictly with the exponent, for bases above one. */
  lemma {:induction false} PowStrictlyIncreasing(b: nat, e1: nat, e2: nat)
    requires b >= 2 && e1 < e2
    ensures Pow(b, e1) < Pow(b, e2)
  {
    PowPositive(b, e2 - 1);
    if e1 < e2 - 1 {
      PowStrictlyIncreasing(b, e1, e2 - 1);
    }
  }

  lemma PowMonotone(b: nat, e1: nat, e2: nat)
    requires b >= 2 && e1 <= e2
    ensures Pow(b, e1) <= Pow(b, e2)
  {
    if e1 < e2 {
      PowStrictlyIncreasing(b, e1, e2);
    }
  }

  /** A smaller base gives a smaller power, strictly so for a positive exponent. */
  lemma {:induction false} PowBaseMonotone(b1: nat, b2: nat, e: nat)
    requires 1 <= b1 < b2 && e >= 1
    ensures Pow(b1, e) < Pow(b2, e)
  {
    PowPositive(b1, e - 1);
    PowPositive(b2, e - 1);
    if e > 1 {
      PowBaseMonotone(b1, b2, e - 1);
    }
    var p1, p2 := Pow(b1, e - 1), Pow(b2, e - 1);
    assert p1 <= p2;
    MulLeLeft(b1, p1, p2);
    MulLe(b1 + 1, b2, p2);
    MulSucc(b1, p2);
    assert Pow(b1, e) == b1 * p1 && Pow(b2, e) == b2 * p2;
  }

  lemma {:induction false} PowSquare(b: nat, e: nat)
    ensures Pow(b, 2 * e) == Pow(b * b, e)
  {
    if e > 0 {
      PowSquare(b, e - 1);
      var p := Pow(b, 2 * (e - 1));
      assert Pow(b, 2 * e) == b * (b * p);
      MulAssoc(b, b, p);
    }
  }

  /** n base-2 or base-16 digits always fit in 2n decimal digits: base^n < 10^(2n). */
  lemma SmallBasePowerFits(base: nat, n: nat)
    requires 2 <= base <= 16 && n >= 1
    ensures Pow(base, n) < Pow10(2 * n)
  {
    var x, y := Pow(base, n), Pow(100, n);
    PowBaseMonotone(base, 100, n);
    assert x < y;
    PowSquare(10, n);
    assert Pow10(2 * n) == y;
  }

  /** Java's `a / b` on integers: the quotient truncated toward zero. */
  function JavaDiv(a: int, b: int): int
    requires b != 0
  {
    var q := Abs(a) / Abs(b);
    if (a < 0) == (b < 0) then q else -q
  }

  /** Java's `a % b` on integers: the remainder that goes with the truncated quotient. */
  function JavaRem(a: int, b: int): int
    requires b != 0
  {
    a - b * JavaDiv(a, b)
  }

  /** Truncating division: the identity, the bound on the remainder and its sign. */
  lemma JavaDivRem(a: int, b: int)
    requires b != 0
    ensures a == b * JavaDiv(a, b) + JavaRem(a, b)
    ensures Abs(JavaRem(a, b)) < Abs(b)
    ensures JavaRem(a, b) == 0 || Sign(JavaRem(a, b)) == Sign(a)
    ensures Abs(JavaDiv(a, b)) == Abs(a) / Abs(b)
  {
    var q, r := EuclidDivMod(Abs(a), Abs(b));
    var p := Abs(b) * q;
    SignedProduct(b, q);
    if a < 0 {
      assert JavaRem(a, b) + r == 0;
    } else {
      assert JavaRem(a, b) == r;
    }
  }

  /** Division of naturals: the quotient and remainder with x == y * q + r and 0 <= r < y. */
  lemma EuclidDivMod(x: nat, y: nat) returns (q: nat, r: nat)
    requires y > 0
    ensures q == x / y && r == x % y
    ensures x == y * q + r && r < y
  {
    q, r := x / y, x % y;
  }

  lemma MulAtLeast(y: nat, q: nat)
    ensures q >= 1 ==> y * q >= y
  {
    if q >= 1 {
      MulLeLeft(y, 1, q);
    }
  }

  /** b * q and b * -q in terms of |b| * q. */
  lemma SignedProduct(b: int, q: int)
    ensures b * q == (if b < 0 then -(Abs(b) * q) else Abs(b) * q)
    ensures b * -q == (if b < 0 then Abs(b) * q else -(Abs(b) * q))
  {
  }

  /** The two truncating steps by 10 used to take a `long` apart digit by digit. */
  lemma JavaDivRemTen(v: int)
    ensures Abs(JavaRem(v, 10)) == Abs(v) % 10
    ensures Abs(JavaDiv(v, 10)) == Abs(v) / 10
    ensures JavaDiv(v, 10) == 0 || (JavaDiv(v, 10) < 0) == (v < 0)
  {
    JavaDivRem(v, 10);
    if v < 0 {
      assert JavaRem(v, 10) == -(Abs(v) % 10);
    }
  }

  function Factorial(n: nat): nat
  {
    if n == 0 then 1 else n * Factorial(n - 1)
  }

  /** The binomial coefficient by Pascal's rule: the number of k-element subsets of n elements. */
  function Choose(n: nat, k: nat): nat
  {
    if k == 0 then 1 else if n == 0 then 0 else Choose(n - 1, k - 1) + Choose(n - 1, k)
  }

  lemma {:induction false} ChooseAbove(n: nat, k: nat)
    requires k > n
    ensures Choose(n, k) == 0
  {
    if n > 0 {
      ChooseAbove(n - 1, k - 1);
      ChooseAbove(n - 1, k);
    }
  }

  lemma {:induction false} ChooseAll(n: nat)
    ensures Choose(n, n) == 1
  {
    if n > 0 {
      ChooseAll(n - 1);
      ChooseAbove(n - 1, n);
    }
  }

  lemma {:induction false} ChooseOne(n: nat)
    ensures Choose(n, 1) == n
  {
    if n > 0 {
      ChooseOne(n - 1);
    }
  }

  /** Symmetry of the binomial coefficient, which combinations exploits. */
  lemma {:induction false} ChooseSymmetric(n: nat, k: nat)
    requires k <= n
    ensures Choose(n, k) == Choose(n, n - k)
  {
    if k == 0 {
      ChooseAll(n);
    } else if k == n {
      ChooseAll(n);
    } else {
      ChooseSymmetric(n - 1, k - 1);
      ChooseSymmetric(n - 1, k);
      assert Choose(n, n - k) == Choose(n - 1, n - k - 1) + Choose(n - 1, n - k);
    }
  }

  /** (k+1) * C(n+1, k+1) == (n+1) * C(n, k): why every step of combinations divides exactly. */
  lemma {:induction false} ChooseAbsorption(n: nat, k: nat)
    ensures (k + 1) * Choose(n + 1, k + 1) == (n + 1) * Choose(n, k)
  {
    if n == 0 {
      if k > 0 {
        ChooseAbove(0, k);
        ChooseAbove(1, k + 1);
      }
    } else if k == 0 {
      ChooseOne(n + 1);
    } else {
      ChooseAbsorption(n - 1, k - 1);
      ChooseAbsorption(n - 1, k);
      var a, b, c := Choose(n - 1, k - 1), Choose(n - 1, k), Choose(n, k + 1);
      assert Choose(n + 1, k + 1) == a + b + c;
      AbsorptionStep(n, k, a, b, c);
    }
  }

  lemma AbsorptionStep(n: int, k: int, a: int, b: int, c: int)
    requires k * (a + b) == n * a && (k + 1) * c == n * b
    ensures (k + 1) * (a + b + c) == (n + 1) * (a + b)
  {
    calc {
      (k + 1) * (a + b + c);
      k * (a + b) + (a + b) + (k + 1) * c;
      n * a + (a + b) + n * b;
      (n + 1) * (a + b);
    }
  }
}
