/** Sequences of decimal digits, least significant first, as the decimal integer stores them,
    and sequences of digits in a base, most significant first, as a literal spells them. */
module Digits {
  import opened Arith

  /** One decimal digit, as held in one slot of the digit array. */
  type Digit = d: int | 0 <= d <= 9

  /** The value of a digit sequence stored least significant digit first. */
  function Val(s: seq<Digit>): nat
  {
    if s == [] then 0 else Val(s[..|s| - 1]) + s[|s| - 1] * Pow10(|s| - 1)
  }

  /** A sequence whose most significant digit is not zero: the trimmed form. */
  predicate Trimmed(s: seq<Digit>)
  {
    s == [] || s[|s| - 1] != 0
  }

  /** Adding a new most significant digit on top. */
  lemma ValSnoc(s: seq<Digit>, w: Digit)
    ensures Val(s + [w]) == Val(s) + w * Pow10(|s|)
  {
    assert (s + [w])[..|s|] == s;
  }

  lemma ValPrefixStep(s: seq<Digit>, i: nat)
    requires i < |s|
    ensures Val(s[..i + 1]) == Val(s[..i]) + s[i] * Pow10(i)
  {
    assert s[..i + 1][..i] == s[..i];
  }

  /** n digits hold a value below 10^n. */
  lemma {:induction false} ValBound(s: seq<Digit>)
    ensures Val(s) < Pow10(|s|)
  {
    if s != [] {
      var n := |s| - 1;
      ValBound(s[..n]);
      MulSucc(s[n], Pow10(n));
      MulLe(s[n] as int + 1, 10, Pow10(n));
      calc {
        Val(s);
        Val(s[..n]) + s[n] * Pow10(n);
      < Pow10(n) + s[n] * Pow10(n);
        (s[n] + 1) * Pow10(n);
      <= 10 * Pow10(n);
        Pow10(n + 1);
      }
    }
  }

  /** A trimmed nonempty sequence of n digits holds a value of at least 10^(n-1). */
  lemma ValLowerBound(s: seq<Digit>)
    requires s != [] && Trimmed(s)
    ensures Val(s) >= Pow10(|s| - 1)
  {
    var n := |s| - 1;
    assert Val(s) == Val(s[..n]) + s[n] * Pow10(n);
    MulLe(1, s[n], Pow10(n));
  }

  lemma TrimmedPositive(s: seq<Digit>)
    requires s != [] && Trimmed(s)
    ensures Val(s) > 0
  {
    ValLowerBound(s);
    PowPositive(10, |s| - 1);
  }

  /** Trimmed sequences of different lengths compare by length. */
  lemma SizeDecides(a: seq<Digit>, b: seq<Digit>)
    requires Trimmed(a) && Trimmed(b) && |a| < |b|
    ensures Val(a) < Val(b)
  {
    ValBound(a);
    ValLowerBound(b);
    PowMonotone(10, |a|, |b| - 1);
  }

  /** A prefix never holds more than the whole sequence. */
  lemma {:induction false} ValPrefixLe(s: seq<Digit>, i: nat)
    requires i <= |s|
    ensures Val(s[..i]) <= Val(s)
  {
    if i < |s| {
      var n := |s| - 1;
      ValPrefixLe(s[..n], i);
      assert s[..n][..i] == s[..i];
      MulLe(0, s[n], Pow10(n));
    } else {
      assert s[..i] == s;
    }
  }

  /** Zero digits above position n do not change the value. */
  lemma {:induction false} ValTrailingZeros(s: seq<Digit>, n: nat)
    requires n <= |s|
    requires forall j :: n <= j < |s| ==> s[j] == 0
    ensures Val(s) == Val(s[..n])
  {
    if n < |s| {
      var m := |s| - 1;
      ValTrailingZeros(s[..m], n);
      assert s[..m][..n] == s[..n];
    } else {
      assert s[..n] == s;
    }
  }

  /** Overwriting the digit at position k changes the value by the difference times 10^k. */
  lemma {:induction false} ValUpdate(s: seq<Digit>, k: nat, w: Digit)
    requires k < |s|
    ensures Val(s[k := w]) + s[k] * Pow10(k) == Val(s) + w * Pow10(k)
  {
    var n := |s| - 1;
    var t := s[k := w];
    if k == n {
      assert t[..n] == s[..n];
    } else {
      ValUpdate(s[..n], k, w);
      assert t[..n] == s[..n][k := w];
    }
  }

  /** Adding a new least significant digit. */
  lemma {:induction false} ValCons(d: Digit, s: seq<Digit>)
    ensures Val([d] + s) == d + 10 * Val(s)
  {
    if s != [] {
      var n := |s| - 1;
      ValCons(d, s[..n]);
      assert ([d] + s)[..n + 1] == [d] + s[..n];
      MulTen(s[n], Pow10(n));
      calc {
        Val([d] + s);
        Val([d] + s[..n]) + s[n] * Pow10(n + 1);
        d + 10 * Val(s[..n]) + 10 * (s[n] * Pow10(n));
        d + 10 * Val(s);
      }
    }
  }

  lemma {:induction false} ValZeros(n: nat)
    ensures Val(seq(n, _ => 0)) == 0
  {
    if n > 0 {
      ValZeros(n - 1);
      assert seq(n, _ => 0)[..n - 1] == seq(n - 1, _ => 0);
    }
  }

  /** A one followed by e zeros is 10^e. */
  lemma PowerOfTenDigits(e: nat)
    ensures Val(seq(e, _ => 0) + [1]) == Pow10(e)
  {
    var s := seq(e, _ => 0) + [1];
    assert s[..e] == seq(e, _ => 0);
    ValZeros(e);
  }

  /** The digit at position i of a sequence padded on top with zeros. */
  function DigitAt(s: seq<Digit>, i: nat): Digit
  {
    if i < |s| then s[i] else 0
  }

  /** The value of the lowest i digits of a sequence padded on top with zeros. */
  function PrefixVal(s: seq<Digit>, i: nat): nat
  {
    if i == 0 then 0 else PrefixVal(s, i - 1) + DigitAt(s, i - 1) * Pow10(i - 1)
  }

  lemma {:induction false} PrefixValSlice(s: seq<Digit>, k: nat)
    requires k <= |s|
    ensures PrefixVal(s, k) == Val(s[..k])
  {
    if k > 0 {
      PrefixValSlice(s, k - 1);
      ValPrefixStep(s, k - 1);
    }
  }

  /** Past the top digit the padding adds nothing: the prefix value is the value. */
  lemma {:induction false} PrefixValFull(s: seq<Digit>, n: nat)
    requires |s| <= n
    ensures PrefixVal(s, n) == Val(s)
  {
    if n > |s| {
      PrefixValFull(s, n - 1);
    } else {
      PrefixValSlice(s, n);
      assert s[..n] == s;
    }
  }

  /** The value of digits in base `base`, most significant first. */
  function ValMsd(ds: seq<int>, base: nat): int
  {
    if ds == [] then 0 else ValMsd(ds[..|ds| - 1], base) * base + ds[|ds| - 1]
  }

  predicate AllBelow(ds: seq<int>, base: nat)
  {
    forall i :: 0 <= i < |ds| ==> 0 <= ds[i] < base
  }

  /** n digits in a base hold a value in [0, base^n). */
  lemma {:induction false} ValMsdBound(ds: seq<int>, base: nat)
    requires AllBelow(ds, base)
    ensures 0 <= ValMsd(ds, base) < Pow(base, |ds|)
  {
    if ds != [] {
      var n := |ds| - 1;
      ValMsdBound(ds[..n], base);
      var v := ValMsd(ds[..n], base);
      MulLe(v + 1, Pow(base, n), base);
      MulSucc(v, base);
      assert ValMsd(ds, base) == v * base + ds[n] < (v + 1) * base;
      MulComm(base, Pow(base, n));
    }
  }

  /** Putting a new most significant digit in front. */
  lemma {:induction false} ValMsdCons(d: int, ds: seq<int>)
    ensures ValMsd([d] + ds, 10) == d * Pow10(|ds|) + ValMsd(ds, 10)
  {
    if ds != [] {
      var n := |ds| - 1;
      ValMsdCons(d, ds[..n]);
      assert ([d] + ds)[..n + 1] == [d] + ds[..n];
      calc {
        ValMsd([d] + ds, 10);
        ValMsd([d] + ds[..n], 10) * 10 + ds[n];
        (d * Pow10(n) + ValMsd(ds[..n], 10)) * 10 + ds[n];
        d * Pow10(n + 1) + ValMsd(ds, 10);
      }
    }
  }

  /** A least-significant-first sequence read back to front is the same number in base 10. */
  lemma {:induction false} ValReversed(s: seq<Digit>, ds: seq<int>)
    requires |s| == |ds|
    requires forall j :: 0 <= j < |s| ==> s[j] == ds[|ds| - 1 - j]
    ensures Val(s) == ValMsd(ds, 10)
  {
    if s != [] {
      var n := |s| - 1;
      ValReversed(s[..n], ds[1..]);
      assert ds == [ds[0]] + ds[1..];
      ValMsdCons(ds[0], ds[1..]);
    }
  }

  /** The magnitude comparison scan, from position i-1 down to 0; the first differing digit decides. */
  function CompareFrom(a: seq<Digit>, b: seq<Digit>, i: nat): int
    requires i <= |a| && i <= |b|
  {
    if i == 0 then 0
    else if a[i - 1] < b[i - 1] then -1
    else if a[i - 1] > b[i - 1] then 1
    else CompareFrom(a, b, i - 1)
  }

  lemma TopDigitDecides(a: seq<Digit>, b: seq<Digit>, i: nat)
    requires i < |a| && i < |b| && a[i] < b[i]
    ensures Val(a[..i + 1]) < Val(b[..i + 1])
  {
    ValPrefixStep(a, i);
    ValPrefixStep(b, i);
    ValBound(a[..i]);
    MulLe(a[i] + 1, b[i], Pow10(i));
    MulSucc(a[i], Pow10(i));
  }

  /** The scan returns the sign of the difference of the two numbers below position i. */
  lemma {:induction false} CompareFromSign(a: seq<Digit>, b: seq<Digit>, i: nat)
    requires i <= |a| && i <= |b|
    ensures CompareFrom(a, b, i) == Sign(Val(a[..i]) - Val(b[..i]))
  {
    if i > 0 {
      var j := i - 1;
      if a[j] < b[j] {
        TopDigitDecides(a, b, j);
      } else if a[j] > b[j] {
        TopDigitDecides(b, a, j);
      } else {
        CompareFromSign(a, b, j);
        ValPrefixStep(a, j);
        ValPrefixStep(b, j);
      }
    }
  }

  /** The character that renders a decimal digit. */
  function DigitChar(d: Digit): char
  {
    (48 + d) as char
  }

  /** The characters of a least-significant-first digit sequence, most significant first. */
  function Render(s: seq<Digit>): string
  {
    if s == [] then "" else Render(s[1..]) + [DigitChar(s[0])]
  }
}
