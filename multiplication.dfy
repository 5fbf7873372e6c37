/** The arithmetic behind schoolbook multiplication on least-significant-first digit arrays:
    the partial products summed so far, and rippling a carry up from one position. */
module LongMultiplication {
  import opened Arith
  import opened Digits

  /** What the digit array holds after the rows below i and the first j columns of row i:
      (a's lowest i digits) * b + a[i] * (b's lowest j digits) * 10^i. */
  ghost function MulPartial(a: seq<Digit>, b: seq<Digit>, i: nat, j: nat): int
  {
    PrefixVal(a, i) * Val(b) + DigitAt(a, i) * PrefixVal(b, j) * Pow10(i)
  }

  /** A product of two digits is at most 81. */
  lemma DigitProduct(x: Digit, y: Digit)
    ensures 0 <= x * y <= 81
  {
    MulLe(x, 9, y);
    MulLe(y, 9, 9);
  }

  lemma {:induction false} PrefixValLe(s: seq<Digit>, i: nat)
    requires i <= |s|
    ensures PrefixVal(s, i) <= Val(s)
  {
    PrefixValSlice(s, i);
    ValPrefixLe(s, i);
  }

  /** n digits times m digits fit in n + m digits. */
  lemma ProductFits(a: seq<Digit>, b: seq<Digit>)
    ensures Val(a) * Val(b) < Pow10(|a| + |b|)
  {
    ValBound(a);
    ValBound(b);
    PowAdd(10, |a|, |b|);
    MulBelow(Val(a), Pow10(|a|), Val(b), Pow10(|b|));
  }

  /** Adding a[i] * b[j] at position i + j moves on by one column, and the total stays below
      10^(|a| + |b|): the carry of the step never runs off the end of the product array. */
  lemma MulStepFits(a: seq<Digit>, b: seq<Digit>, i: nat, j: nat)
    requires i < |a| && j < |b|
    ensures MulPartial(a, b, i, j) + a[i] * b[j] * Pow10(i + j) == MulPartial(a, b, i, j + 1)
    ensures MulPartial(a, b, i, j + 1) < Pow10(|a| + |b|)
  {
    var p, q := Pow10(i), Pow10(j);
    PowAdd(10, i, j);
    var pa, v, bj, bj1 := PrefixVal(a, i), Val(b), PrefixVal(b, j), PrefixVal(b, j + 1);
    assert bj1 == bj + b[j] * q;
    assert MulPartial(a, b, i, j) == pa * v + a[i] * bj * p;
    assert MulPartial(a, b, i, j + 1) == pa * v + a[i] * bj1 * p;
    ColumnTerm(a[i], bj, b[j], q, p);
    PrefixValLe(b, j + 1);
    PrefixValLe(a, i + 1);
    assert PrefixVal(a, i + 1) == pa + a[i] * p;
    RowBound(pa, v, a[i], bj1, p, Val(a));
    ProductFits(a, b);
  }

  lemma ColumnTerm(x: int, s: int, y: int, q: int, p: int)
    ensures x * (s + y * q) * p == x * s * p + x * y * (p * q)
  {
  }

  /** Row i with its first columns added is bounded by the product of the first i + 1 rows. */
  lemma RowBound(pa: nat, v: nat, x: nat, s: nat, p: nat, va: nat)
    requires s <= v && pa + x * p <= va
    ensures pa * v + x * s * p <= va * v
  {
    MulLe(s, v, x * p);
    assert x * s * p == s * (x * p);
    MulLe(pa + x * p, va, v);
  }

  /** A finished row i is row i + 1 before any column. */
  lemma MulPartialRow(a: seq<Digit>, b: seq<Digit>, i: nat)
    requires i < |a|
    ensures MulPartial(a, b, i, |b|) == MulPartial(a, b, i + 1, 0)
  {
    PrefixValFull(b, |b|);
    RowTotal(PrefixVal(a, i), a[i], Val(b), Pow10(i), PrefixVal(a, i + 1), DigitAt(a, i + 1),
             PrefixVal(b, |b|), PrefixVal(b, 0), Pow10(i + 1));
  }

  /** The arithmetic of a finished row: with the whole of b, row i is the prefix of a one digit
      longer times b. */
  lemma RowTotal(pa: int, x: int, v: int, p: int, pa': int, d: int, bv: int, b0: int, p': int)
    requires pa' == pa + x * p && bv == v && b0 == 0
    ensures pa * v + x * bv * p == pa' * v + d * b0 * p'
  {
    assert d * b0 * p' == 0;
    assert pa * v + x * v * p == (pa + x * p) * v;
  }

  /** All rows done: the array holds the product. */
  lemma MulPartialDone(a: seq<Digit>, b: seq<Digit>)
    ensures MulPartial(a, b, |a|, 0) == Val(a) * Val(b)
  {
    PrefixValFull(a, |a|);
  }

  /** The state of the carry ripple at position k: the value with the pending carry is the
      target, no nonzero digit lies at or above size, and the digit below size is nonzero
      unless the ripple has passed it and still carries (a 9 turned into a 0). */
  ghost predicate Rippling(d: seq<Digit>, size: nat, k: nat, carry: int, target: int)
  {
    size <= |d| && k <= |d| && carry >= 0 &&
    (forall j :: size <= j < |d| ==> d[j] == 0) &&
    (size > 0 && d[size - 1] == 0 ==> size <= k && carry > 0) &&
    Val(d) + carry * Pow10(k) == target
  }

  /** One step of the ripple: the digit at k plus the carry, split into a digit and a carry. */
  lemma RippleStep(d: seq<Digit>, size: nat, k: nat, carry: int, target: int, word: Digit, carry': int, size': nat)
    requires Rippling(d, size, k, carry, target) && k < |d| && carry > 0
    requires word + 10 * carry' == d[k] + carry && 0 <= carry'
    requires size' == if word > 0 then Max(size, k + 1) else size
    ensures Rippling(d[k := word], size', k + 1, carry', target)
  {
    var d' := d[k := word];
    var p := Pow10(k);
    ValUpdate(d, k, word);
    assert Pow10(k + 1) == 10 * p;
    CarryMoves(Val(d'), Val(d), d[k], word, carry, carry', p);
    if size' > 0 && d'[size' - 1] == 0 {
      assert size' == size;
    }
  }

  lemma CarryMoves(v': int, v: int, dk: int, w: int, c: int, c': int, p: int)
    requires v' + dk * p == v + w * p && w + 10 * c' == dk + c
    ensures v' + c' * (10 * p) == v + c * p
  {
    assert c' * (10 * p) == (dk + c - w) * p;
  }

  /** The ripple ends with no carry left, and then the size is exact. */
  lemma RippleFinish(d: seq<Digit>, size: nat, k: nat, carry: int, target: int)
    requires Rippling(d, size, k, carry, target) && target < Pow10(|d|)
    requires carry == 0 || k == |d|
    ensures carry == 0 && Val(d) == target && (size > 0 ==> d[size - 1] != 0)
  {
    if carry != 0 {
      MulLe(1, carry, Pow10(k));
    }
  }
}
