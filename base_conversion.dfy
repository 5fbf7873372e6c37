/** The arithmetic behind reading a base-2 or base-16 literal into decimal digits: one pass over
    the digit array multiplies the number by the base and adds the next literal digit. */
module BaseConversion {
  import opened Arith
  import opened Digits

  /** The state of one pass at position i, started from the digits o whose top nonzero digit
      is below s0: the slots from i up still hold o; the new low digits with the carry make
      base * o + b so far; the size has grown past every nonzero digit written, and above s0
      it sits right on top of the last one. */
  ghost predicate Scaling(d: seq<Digit>, o: seq<Digit>, size: nat, s0: nat, i: nat, carry: int, base: int, b: int)
  {
    |d| == |o| && i <= |d| && s0 <= size <= |d| && 0 <= carry &&
    (forall j :: i <= j < |d| ==> d[j] == o[j]) &&
    (forall j :: size <= j < i ==> d[j] == 0) &&
    (size > s0 ==> size <= i && d[size - 1] != 0) &&
    PrefixVal(d, i) + carry * Pow10(i) == base * PrefixVal(o, i) + b
  }

  /** One column: the old digit times the base plus the carry, split into a digit and a carry. */
  lemma ScaleStep(d: seq<Digit>, o: seq<Digit>, size: nat, s0: nat, i: nat, carry: int, base: int, b: int,
                  sum: int, word: Digit, carry': int, size': nat)
    requires Scaling(d, o, size, s0, i, carry, base, b) && i < |d|
    requires 0 <= base
    requires sum == o[i] * base + carry && word == sum % 10 && carry' == sum / 10
    requires size' == if word != 0 then Max(size, i + 1) else size
    ensures Scaling(d[i := word], o, size', s0, i + 1, carry', base, b)
  {
    MulLe(0, o[i], base);
    var d' := d[i := word];
    PrefixValSlice(d, i);
    PrefixValSlice(d', i);
    assert d'[..i] == d[..i];
    assert PrefixVal(d', i + 1) == PrefixVal(d, i) + word * Pow10(i);
    assert PrefixVal(o, i + 1) == PrefixVal(o, i) + o[i] * Pow10(i);
    assert Pow10(i + 1) == 10 * Pow10(i);
    ScaleArith(PrefixVal(d, i), PrefixVal(o, i), word, carry, carry', Pow10(i), base, b, o[i]);
  }

  lemma ScaleArith(pd: int, po: int, w: int, c: int, c': int, p: int, base: int, b: int, oi: int)
    requires pd + c * p == base * po + b && w + 10 * c' == oi * base + c
    ensures pd + w * p + c' * (10 * p) == base * (po + oi * p) + b
  {
    calc {
      pd + w * p + c' * (10 * p);
      pd + (w + 10 * c') * p;
      pd + (oi * base + c) * p;
      pd + c * p + base * (oi * p);
      base * po + b + base * (oi * p);
    }
  }

  /** After the last column no carry is left, the digits hold base * o + b, and the size is
      exact: the number did not shrink, so its top digit is not below s0 - 1. */
  lemma ScaleFinish(d: seq<Digit>, o: seq<Digit>, size: nat, s0: nat, carry: int, base: int, b: int)
    requires Scaling(d, o, size, s0, |d|, carry, base, b)
    requires 1 <= base && 0 <= b && base * Val(o) + b < Pow10(|d|)
    requires s0 <= |o| && (s0 > 0 ==> o[s0 - 1] != 0)
    requires forall j :: s0 <= j < |o| ==> o[j] == 0
    ensures carry == 0 && Val(d) == base * Val(o) + b
    ensures size > 0 ==> d[size - 1] != 0
    ensures forall j :: size <= j < |d| ==> d[j] == 0
  {
    PrefixValFull(d, |d|);
    PrefixValFull(o, |o|);
    NoCarryOut(Val(d), carry, Pow10(|d|), base * Val(o) + b);
    if size > 0 && size == s0 && d[size - 1] == 0 {
      TopNotLost(d, o, s0, base, b);
    }
  }

  lemma NoCarryOut(v: nat, carry: int, p: nat, x: int)
    requires 0 <= carry && v + carry * p == x < p
    ensures carry == 0 && v == x
  {
    if carry != 0 {
      MulLe(1, carry, p);
    }
  }

  /** base * o + b is at least o, so it keeps o's top digit position. */
  lemma TopNotLost(d: seq<Digit>, o: seq<Digit>, s0: nat, base: int, b: int)
    requires 0 < s0 <= |o| == |d| && o[s0 - 1] != 0 && 1 <= base && 0 <= b
    requires forall j :: s0 <= j < |o| ==> o[j] == 0
    requires Val(d) == base * Val(o) + b
    ensures exists j :: s0 - 1 <= j < |d| && d[j] != 0
  {
    if forall j :: s0 - 1 <= j < |d| ==> d[j] == 0 {
      ValTrailingZeros(d, s0 - 1);
      ValBound(d[..s0 - 1]);
      ValTrailingZeros(o, s0);
      assert o[..s0][s0 - 1] == o[s0 - 1];
      ValLowerBound(o[..s0]);
      MulLe(1, base, Val(o));
      assert false;
    }
  }
}
