/** The arbitrary-precision decimal integer: a sign flag and an array of decimal digits,
    least significant first, of which the first `size` are in use. */
module DecimalInts {
  import opened Arith
  import opened Digits
  import opened Literals
  import opened LongMultiplication
  import opened BaseConversion
  import Parser

  /** The exceptions the operations throw. */
  datatype Error = SyntaxError | NegativeExponent | NegativeSize | DivisionByZero

  datatype Result<T> = Ok(value: T) | Err(error: Error)

  /** The two-element array that division returns. */
  datatype Division = Division(quotient: DecimalInt, remainder: DecimalInt)

  class DecimalInt {
    var data: array<Digit>
    var size: nat
    var negative: bool

    /** The representation invariant: `size` digits in use, the most significant one nonzero. */
    ghost predicate Valid()
      reads this`size, this`data, data
    {
      size <= data.Length && (size > 0 ==> data[size - 1] != 0)
    }

    /** The slots beyond `size` hold zeros, so the whole array has the same value. */
    ghost predicate ZeroAbove()
      reads this`size, this`data, data
    {
      forall j :: size <= j < data.Length ==> data[j] == 0
    }

    /** Zero carries no minus sign; every operation but multiplication keeps this. */
    ghost predicate Canonical()
      reads this, data
    {
      Valid() && (negative ==> size > 0)
    }

    ghost function Magnitude(): nat
      reads this`size, this`data, data
      requires size <= data.Length
    {
      Val(data[..size])
    }

    ghost function Value(): int
      reads this, data
      requires size <= data.Length
    {
      if negative then -(Magnitude() as int) else Magnitude()
    }

    /** Zero: no digits in use (the null array of the original is an empty one here). */
    constructor ()
      ensures fresh(data) && data.Length == 0
      ensures size == 0 && !negative
    {
      data := new Digit[0];
      size := 0;
      negative := false;
    }

    /** The value of a Java `long`, taken apart with truncating division by ten. */
    constructor FromLong(v: int)
      requires IsInt64(v)
      ensures Valid() && Value() == v
      ensures negative == (v < 0) && data.Length == size
    {
      var buf, counter := LongDigits(v);
      negative := v < 0;
      data := buf;
      size := counter;
      new;
      Shrink();
      assert data[..size] == data[..];
    }

    /** The digits of a `long`, least significant first, split off by repeated truncating
        division by ten into a buffer of the 19 digits any `long` needs. */
    static method LongDigits(v: int) returns (buf: array<Digit>, counter: nat)
      requires IsInt64(v)
      ensures fresh(buf) && buf.Length == 19 && counter <= 19
      ensures Val(buf[..counter]) == Abs(v)
      ensures counter > 0 ==> buf[counter - 1] != 0
    {
      buf := new Digit[19](_ => 0);
      var val := v;
      counter := 0;
      while val != 0
        invariant 0 <= counter <= 19
        invariant Val(buf[..counter]) + Pow10(counter) * Abs(val) == Abs(v)
        invariant val == 0 && counter > 0 ==> buf[counter - 1] != 0
        decreases Abs(val)
      {
        ghost var before := buf[..counter];
        LongDivStep(val, counter, Abs(v), Val(before));
        var remainder := Abs(JavaRem(val, 10));
        val := JavaDiv(val, 10);
        buf[counter] := remainder;
        assert buf[..counter + 1] == before + [remainder];
        ValSnoc(before, remainder);
        counter := counter + 1;
      }
      assert Val(buf[..counter]) == Abs(v);
    }

    /** The value of a literal: "-12", "+0x1F", "0b101", with leading zeros allowed; anything
        else is a syntax error. */
    static method FromString(s: string) returns (r: Result<DecimalInt>)
      ensures r.Ok? <==> ValidLiteral(s)
      ensures r.Err? ==> r.error == SyntaxError
      ensures r.Ok? ==> fresh(r.value) && r.value.Canonical() && r.value.Value() == LiteralValue(s)
    {
      var parser := new Parser.DecimalIntParser(s);
      var ok := parser.Parse();
      if !ok {
        return Err(SyntaxError);
      }
      DigitsWithinBase(s);
      NoLeadingZero(s);
      var n := FromLiteral(parser.sign, parser.base, parser.digits);
      return Ok(n);
    }

    /** The body of the string constructor once the literal is lexed: the digits, most
        significant first, are copied in reverse for base 10, and otherwise run through
        "times base plus digit" in decimal, in an array twice as long as the literal. */
    static method FromLiteral(sign: int, base: int, digits: seq<int>) returns (r: DecimalInt)
      requires sign == 1 || sign == -1
      requires base == 2 || base == 10 || base == 16
      requires AllBelow(digits, base) && (digits == [] || digits[0] != 0)
      ensures fresh(r) && r.Canonical()
      ensures r.Value() == sign * ValMsd(digits, base)
    {
      r := new DecimalInt();
      var size := |digits|;
      if size > 0 {
        if base == 10 {
          var a := new Digit[size];
          var i := size - 1;
          var k := 0;
          while k < size
            invariant 0 <= k <= size && i == size - 1 - k
            invariant forall j :: size - k <= j < size ==> a[j] == digits[size - 1 - j]
          {
            a[i] := digits[k];
            i := i - 1;
            k := k + 1;
          }
          r.size := size;
          r.data := a;
          ValReversed(a[..], digits);
          assert a[..r.size] == a[..];
          assert a[size - 1] == digits[0];
        } else {
          r.data := new Digit[size * 2](_ => 0);
          ValTrailingZeros(r.data[..], 0);
          AccumulateDigits(r, base, digits);
        }
        r.negative := sign < 0;
        assert r.data[..r.size][r.size - 1] == r.data[r.size - 1];
      } else {
        // zero: no digits, and never negative
        r.negative := false;
        assert r.data[..0] == [];
      }
    }

    /** The base-2 and base-16 path of the string constructor: for each literal digit, one pass
        that multiplies the number by the base and adds the digit. */
    static method AccumulateDigits(r: DecimalInt, base: int, digits: seq<int>)
      requires base == 2 || base == 16
      requires AllBelow(digits, base) && digits != [] && digits[0] != 0
      requires r.size == 0 && r.data.Length == 2 * |digits| && Val(r.data[..]) == 0 && r.ZeroAbove()
      modifies r`size, r.data
      ensures r.Valid() && r.size > 0 && r.Magnitude() == ValMsd(digits, base)
    {
      var k := 0;
      while k < |digits|
        invariant 0 <= k <= |digits|
        invariant r.Valid() && r.ZeroAbove()
        invariant Val(r.data[..]) == ValMsd(digits[..k], base)
      {
        NextDigitFits(digits, base, k);
        MulAddDigit(r, base, digits[k]);
        k := k + 1;
      }
      assert digits[..k] == digits;
      ValTrailingZeros(r.data[..], r.size);
      assert r.data[..][..r.size] == r.data[..r.size];
      SizeOfPositive(digits, base, r.data[..r.size]);
    }

    /** One pass: r := r * base + b over every slot of the array, the size following the
        nonzero digits written. */
    static method MulAddDigit(r: DecimalInt, base: int, b: int)
      requires r.Valid() && r.ZeroAbove() && 2 <= base <= 16 && 0 <= b < base
      requires base * Val(r.data[..]) + b < Pow10(r.data.Length)
      modifies r`size, r.data
      ensures r.Valid() && r.ZeroAbove()
      ensures Val(r.data[..]) == base * old(Val(r.data[..])) + b
    {
      ghost var o, s0 := r.data[..], r.size;
      assert s0 > 0 ==> o[s0 - 1] != 0;
      var carry := b;
      var i := 0;
      while i < r.data.Length
        invariant Scaling(r.data[..], o, r.size, s0, i, carry, base, b)
      {
        carry := MulAddColumn(r, base, i, carry, o, s0, b);
        i := i + 1;
      }
      ScaleFinish(r.data[..], o, r.size, s0, carry, base, b);
      assert r.size > 0 ==> r.data[..][r.size - 1] == r.data[r.size - 1];
      assert forall j :: r.size <= j < r.data.Length ==> r.data[..][j] == r.data[j];
    }

    /** One column of the pass: digit i times the base plus the carry. */
    static method MulAddColumn(r: DecimalInt, base: int, i: nat, carry: int, ghost o: seq<Digit>, ghost s0: nat, ghost b: int)
      returns (carry': int)
      requires i < r.data.Length && 2 <= base <= 16
      requires Scaling(r.data[..], o, r.size, s0, i, carry, base, b)
      modifies r`size, r.data
      ensures Scaling(r.data[..], o, r.size, s0, i + 1, carry', base, b)
    {
      ghost var before, size := r.data[..], r.size;
      assert r.data[i] == o[i];
      var sum := (r.data[i] as int) * base + carry;
      var word: Digit := sum % 10;
      carry' := sum / 10;
      r.data[i] := word;
      if word != 0 {
        r.size := Max(r.size, i + 1);
      }
      assert r.data[..] == before[i := word];
      ScaleStep(before, o, size, s0, i, carry, base, b, sum, word, carry', r.size);
    }

    /** Grows the array to at least n slots, keeping the digits and zero-filling the rest. */
    method Grow(n: nat)
      modifies this
      ensures size == old(size) && negative == old(negative)
      ensures data.Length == Max(old(data.Length), n)
      ensures data[..old(data.Length)] == old(data[..])
      ensures forall j :: old(data.Length) <= j < data.Length ==> data[j] == 0
      ensures old(data.Length) < n ==> fresh(data)
      ensures n <= old(data.Length) ==> data == old(data)
    {
      if n > data.Length {
        var a := new Digit[n];
        forall j | 0 <= j < n {
          a[j] := if j < data.Length then data[j] else 0;
        }
        data := a;
      }
    }

    /** Cuts the array down to the digits in use. */
    method Shrink()
      requires size <= data.Length
      modifies this
      ensures size == old(size) && negative == old(negative)
      ensures data.Length == size && data[..] == old(data[..size])
    {
      if data.Length > size {
        var a := new Digit[size];
        forall j | 0 <= j < size {
          a[j] := data[j];
        }
        data := a;
      }
    }

    /** -1, 0 or +1; a number with no digits is zero whatever its flag says. */
    function GetSign(): (s: int)
      reads this, data
      requires Valid()
      ensures s == Sign(Value())
    {
      if size == 0 then 0
      else
        assert data[..size][size - 1] == data[size - 1];
        TrimmedPositive(data[..size]);
        if negative then -1 else 1
    }

    /** A copy in a new array that holds exactly the digits in use. */
    method Copy() returns (r: DecimalInt)
      requires Valid()
      ensures fresh(r) && fresh(r.data)
      ensures r.size == size && r.negative == negative && r.data[..] == data[..size]
      ensures r.Valid() && r.Value() == Value()
    {
      r := new DecimalInt();
      r.size := size;
      r.negative := negative;
      var a := new Digit[size];
      forall j | 0 <= j < size {
        a[j] := data[j];
      }
      r.data := a;
      assert r.data[..r.size] == r.data[..];
    }

    /** The decimal text: "0" for zero, otherwise an optional '-' and the digits, most significant first. */
    method ToString() returns (s: string)
      requires Valid()
      ensures s == Show(Value())
    {
      if size == 0 {
        s := "0";
        return;
      }
      ghost var t := data[..size];
      s := if negative then "-" else "";
      ghost var sgn := s;
      var i := size;
      while i > 0
        invariant 0 <= i <= size
        invariant s == sgn + Render(t[i..])
      {
        i := i - 1;
        RenderStep(sgn, t, i);
        s := s + [DigitChar(data[i])];
      }
      assert t[size - 1] == data[size - 1] && t[0..] == t;
      SignedRender(t, negative);
    }

    /** The decimal text of a number, read back by the string constructor, gives the same number. */
    method ReadBack() returns (r: Result<DecimalInt>)
      requires Valid()
      ensures r.Ok? && r.value.Canonical() && r.value.Value() == Value()
    {
      var s := ToString();
      ShowRoundTrip(Value());
      r := FromString(s);
    }

    /** Equality of values; a number is equal to itself. */
    method Equals(o: DecimalInt) returns (b: bool)
      requires Valid() && o.Valid()
      ensures b == (Value() == o.Value())
    {
      if o == this {
        return true;
      }
      b := Eq(o, this);
    }

    /** 10^exponent; a negative exponent, and one whose successor wraps around, are refused. */
    static method GetPowerOfTen(exponent: int) returns (r: Result<DecimalInt>)
      requires IsInt32(exponent)
      ensures r.Err? <==> exponent < 0 || exponent == 0x7fff_ffff
      ensures r.Err? ==> r.error == if exponent < 0 then NegativeExponent else NegativeSize
      ensures r.Ok? ==> 0 <= exponent && r.value.Valid() && r.value.Canonical()
      ensures r.Ok? ==> r.value.size == exponent + 1 && r.value.Value() == Pow10(exponent)
    {
      if exponent < 0 {
        return Err(NegativeExponent);
      }
      var n := Wrap32(exponent + 1);
      if n < 0 {
        return Err(NegativeSize);
      }
      var result := new DecimalInt();
      result.Grow(n);
      result.data[exponent] := 1;
      result.size := exponent + 1;
      assert result.data[..result.size] == seq(exponent, _ => 0) + [1];
      PowerOfTenDigits(exponent);
      return Ok(result);
    }

    static method Lte(lhs: DecimalInt, rhs: DecimalInt) returns (b: bool)
      requires lhs.Valid() && rhs.Valid()
      ensures b == (lhs.Value() <= rhs.Value())
    {
      var c := Compare(lhs, rhs);
      b := c <= 0;
    }

    static method Lt(lhs: DecimalInt, rhs: DecimalInt) returns (b: bool)
      requires lhs.Valid() && rhs.Valid()
      ensures b == (lhs.Value() < rhs.Value())
    {
      var c := Compare(lhs, rhs);
      b := c < 0;
    }

    static method Gte(lhs: DecimalInt, rhs: DecimalInt) returns (b: bool)
      requires lhs.Valid() && rhs.Valid()
      ensures b == (lhs.Value() >= rhs.Value())
    {
      var c := Compare(lhs, rhs);
      b := c >= 0;
    }

    static method Gt(lhs: DecimalInt, rhs: DecimalInt) returns (b: bool)
      requires lhs.Valid() && rhs.Valid()
      ensures b == (lhs.Value() > rhs.Value())
    {
      var c := Compare(lhs, rhs);
      b := c > 0;
    }

    static method Eq(lhs: DecimalInt, rhs: DecimalInt) returns (b: bool)
      requires lhs.Valid() && rhs.Valid()
      ensures b == (lhs.Value() == rhs.Value())
    {
      var c := Compare(lhs, rhs);
      b := c == 0;
    }

    static method Neq(lhs: DecimalInt, rhs: DecimalInt) returns (b: bool)
      requires lhs.Valid() && rhs.Valid()
      ensures b == (lhs.Value() != rhs.Value())
    {
      var c := Compare(lhs, rhs);
      b := c != 0;
    }

    /** The sign of lhs - rhs: first by sign, then by magnitude, reversed for negatives. */
    static method Compare(lhs: DecimalInt, rhs: DecimalInt) returns (c: int)
      requires lhs.Valid() && rhs.Valid()
      ensures c == Sign(lhs.Value() - rhs.Value())
    {
      var lhsSign := lhs.GetSign();
      var rhsSign := rhs.GetSign();
      if lhsSign < rhsSign {
        return -1;
      }
      if lhsSign > rhsSign {
        return 1;
      }
      var sign := lhsSign;
      var m := CompareMagnitudes(lhs, rhs);
      c := sign * m;
    }

    /** The sign of |lhs| - |rhs|: more digits is larger, else the highest differing digit decides. */
    static method CompareMagnitudes(lhs: DecimalInt, rhs: DecimalInt) returns (c: int)
      requires lhs.Valid() && rhs.Valid()
      ensures c == Sign(lhs.Magnitude() - rhs.Magnitude())
    {
      var lhsSize := lhs.size;
      var rhsSize := rhs.size;
      ghost var a, b := lhs.data[..lhsSize], rhs.data[..rhsSize];
      assert Trimmed(a) && Trimmed(b) by {
        if lhsSize > 0 { assert a[lhsSize - 1] == lhs.data[lhsSize - 1]; }
        if rhsSize > 0 { assert b[rhsSize - 1] == rhs.data[rhsSize - 1]; }
      }
      if lhsSize < rhsSize {
        SizeDecides(a, b);
        return -1;
      }
      if lhsSize > rhsSize {
        SizeDecides(b, a);
        return 1;
      }
      var size := lhsSize;
      CompareFromSign(a, b, size);
      assert a[..size] == a && b[..size] == b;
      var i := size;
      while i > 0
        invariant 0 <= i <= size
        invariant CompareFrom(a, b, size) == CompareFrom(a, b, i)
      {
        var lhsWord := lhs.data[i - 1];
        var rhsWord := rhs.data[i - 1];
        assert lhsWord == a[i - 1] && rhsWord == b[i - 1];
        if lhsWord < rhsWord {
          return -1;
        }
        if lhsWord > rhsWord {
          return 1;
        }
        i := i - 1;
      }
      return 0;
    }

    /** lhs + sign * rhs for sign = 1 or -1: a copy when one side is zero, otherwise the digits of
        the larger magnitude with those of the smaller added, or taken away when the signs differ. */
    static method AddHelper(lhs: DecimalInt, rhs: DecimalInt, sign: int) returns (r: DecimalInt)
      requires lhs.Valid() && rhs.Valid() && (sign == 1 || sign == -1)
      ensures fresh(r) && r.Valid()
      ensures r.Value() == lhs.Value() + sign * rhs.Value()
      ensures lhs.Canonical() ==> r.Canonical()
    {
      ghost var x, y := lhs.Value(), sign * rhs.Value();
      var lhsSign := lhs.GetSign();
      var rhsSign := sign * rhs.GetSign();
      assert rhsSign == Sign(y);

      if rhsSign == 0 {
        r := lhs.Copy();
        return;
      }
      if lhsSign == 0 {
        r := rhs.Copy();
        if sign < 0 && rhs.size > 0 {
          r.negative := !r.negative;
        }
        return;
      }

      r := AddNonZero(lhs, rhs, lhsSign, rhsSign);
    }

    /** The general case of addHelper, both operands nonzero: lhs plus rhs's magnitude under
        the sign rhsSign (rhs's own sign, reversed for a subtraction). */
    static method AddNonZero(lhs: DecimalInt, rhs: DecimalInt, lhsSign: int, rhsSign: int) returns (r: DecimalInt)
      requires lhs.Valid() && rhs.Valid() && lhs.size > 0 && rhs.size > 0
      requires lhsSign == Sign(lhs.Value()) && (rhsSign == 1 || rhsSign == -1)
      ensures fresh(r) && r.Canonical()
      ensures r.Value() == lhs.Value() + if rhsSign > 0 then rhs.Magnitude() as int else -(rhs.Magnitude() as int)
    {
      ghost var x, y := lhs.Value(), if rhsSign > 0 then rhs.Magnitude() as int else -(rhs.Magnitude() as int);
      assert lhs.data[..lhs.size][lhs.size - 1] == lhs.data[lhs.size - 1];
      assert rhs.data[..rhs.size][rhs.size - 1] == rhs.data[rhs.size - 1];
      TrimmedPositive(lhs.data[..lhs.size]);
      TrimmedPositive(rhs.data[..rhs.size]);
      var capacity := Max(lhs.size, rhs.size) + 1;
      var cmp := CompareMagnitudes(lhs, rhs);

      if lhsSign == rhsSign {
        // add the magnitudes, the larger one first, under the common sign
        if cmp > 0 {
          r := WordsResult(lhs, rhs, capacity, true, lhsSign < 0 && rhsSign < 0);
        } else {
          r := WordsResult(rhs, lhs, capacity, true, lhsSign < 0 && rhsSign < 0);
        }
        SameSignSum(x, y, r.Magnitude(), r.negative);
      } else if cmp > 0 {
        // subtract the smaller magnitude from the larger one, under the larger one's sign
        r := WordsResult(lhs, rhs, capacity, false, lhsSign < 0);
        LargerFirstSum(x, y, r.Magnitude(), r.negative);
      } else if cmp < 0 {
        r := WordsResult(rhs, lhs, capacity, false, rhsSign < 0);
        LargerFirstSum(y, x, r.Magnitude(), r.negative);
      } else {
        // equal magnitudes and opposite signs: the result is zero
        r := new DecimalInt();
        r.Grow(capacity);
        assert r.data[..r.size] == [];
      }
    }

    /** A new number of the given capacity holding |larger| + |smaller| (add) or
        |larger| - |smaller| (not add), then given the sign: negative exactly when `negative`. */
    static method WordsResult(larger: DecimalInt, smaller: DecimalInt, capacity: nat, add: bool, negative: bool)
      returns (r: DecimalInt)
      requires larger.Valid() && smaller.Valid()
      requires larger.size < capacity && smaller.size < capacity
      requires !add ==> larger.Magnitude() >= smaller.Magnitude()
      ensures fresh(r) && r.Valid() && r.negative == negative
      ensures r.Magnitude() == if add then larger.Magnitude() + smaller.Magnitude()
                               else larger.Magnitude() - smaller.Magnitude()
    {
      r := new DecimalInt();
      r.Grow(capacity);
      if add {
        AddWords(larger, smaller, r);
      } else {
        SubtractWords(larger, smaller, r);
      }
      if negative {
        r.negative := true;
      }
    }

    static method Add(lhs: DecimalInt, rhs: DecimalInt) returns (r: DecimalInt)
      requires lhs.Valid() && rhs.Valid()
      ensures fresh(r) && r.Valid() && r.Value() == lhs.Value() + rhs.Value()
      ensures lhs.Canonical() ==> r.Canonical()
    {
      r := AddHelper(lhs, rhs, 1);
    }

    static method Subtract(lhs: DecimalInt, rhs: DecimalInt) returns (r: DecimalInt)
      requires lhs.Valid() && rhs.Valid()
      ensures fresh(r) && r.Valid() && r.Value() == lhs.Value() - rhs.Value()
      ensures lhs.Canonical() ==> r.Canonical()
    {
      r := AddHelper(lhs, rhs, -1);
    }

    /** The schoolbook product of the signed numbers. The sign is the exclusive or of the flags,
        so a zero product of a negative and a positive number comes out as a negative zero. */
    static method Multiply(lhs: DecimalInt, rhs: DecimalInt) returns (r: DecimalInt)
      requires lhs.Valid() && rhs.Valid()
      ensures fresh(r) && r.Valid() && r.data.Length == lhs.size + rhs.size
      ensures r.Magnitude() == lhs.Magnitude() * rhs.Magnitude()
      ensures r.negative == (lhs.negative != rhs.negative)
      ensures r.Value() == lhs.Value() * rhs.Value()
      ensures r.size == 0 <==> lhs.size == 0 || rhs.size == 0
    {
      r := MultiplyMagnitudes(lhs, rhs);
      r.negative := lhs.negative != rhs.negative;
      ProductSign(lhs.Magnitude(), rhs.Magnitude(), r.Magnitude(), lhs.negative, rhs.negative, r.negative);
    }

    /** The digit loops of multiply: every digit product lhs[i] * rhs[j] rippled into a zeroed
        result from position i + j. */
    static method MultiplyMagnitudes(lhs: DecimalInt, rhs: DecimalInt) returns (r: DecimalInt)
      requires lhs.Valid() && rhs.Valid()
      ensures fresh(r) && r.Valid() && !r.negative && r.data.Length == lhs.size + rhs.size
      ensures r.Magnitude() == lhs.Magnitude() * rhs.Magnitude()
      ensures r.size == 0 <==> lhs.size == 0 || rhs.size == 0
    {
      ghost var a, b := lhs.data[..lhs.size], rhs.data[..rhs.size];
      var capacity := lhs.size + rhs.size;
      r := new DecimalInt();
      r.Grow(capacity);
      ValTrailingZeros(r.data[..], 0);
      MultiplyRows(lhs, rhs, r, a, b);
      assert r.size > 0 ==> r.data[..][r.size - 1] == r.data[r.size - 1];
      ProductDone(r.data[..], r.size, a, b);
      assert r.data[..][..r.size] == r.data[..r.size];
    }

    /** Truncating division with the remainder that goes with it; a zero divisor is refused. */
    static method Divide(lhs: DecimalInt, rhs: DecimalInt) returns (r: Result<Division>)
      requires lhs.Valid() && rhs.Valid()
      ensures r.Err? <==> rhs.Value() == 0
      ensures r.Err? ==> r.error == DivisionByZero
      ensures r.Ok? ==> r.value.quotient.Valid() && r.value.remainder.Valid()
      ensures r.Ok? ==> r.value.quotient.Value() == JavaDiv(lhs.Value(), rhs.Value())
      ensures r.Ok? ==> r.value.remainder.Value() == JavaRem(lhs.Value(), rhs.Value())
      ensures r.Ok? ==> r.value.quotient.Canonical()
      ensures r.Ok? && lhs.Canonical() ==> r.value.remainder.Canonical()
    {
      var sign := rhs.GetSign();
      if sign == 0 {
        return Err(DivisionByZero);
      }
      var cmp := CompareMagnitudes(lhs, rhs);
      if cmp < 0 {
        // the quotient is zero and the dividend itself is the remainder
        var zero := new DecimalInt();
        assert zero.data[..zero.size] == [];
        SmallQuotient(lhs.Value(), rhs.Value());
        return Ok(Division(zero, lhs));
      }
      var result, remainder := DivideLarge(lhs, rhs);
      return Ok(Division(result, remainder));
    }

    /** Division when |lhs| >= |rhs| > 0: the quotient by digit descent, then the check
        rhs * quotient and the remainder lhs - check. */
    static method DivideLarge(lhs: DecimalInt, rhs: DecimalInt) returns (result: DecimalInt, remainder: DecimalInt)
      requires lhs.Valid() && rhs.Valid() && 0 < rhs.Magnitude() <= lhs.Magnitude()
      ensures result.Canonical() && remainder.Valid() && rhs.Value() != 0
      ensures result.Value() == JavaDiv(lhs.Value(), rhs.Value())
      ensures remainder.Value() == JavaRem(lhs.Value(), rhs.Value())
      ensures lhs.Canonical() ==> remainder.Canonical()
    {
      result := Quotient(lhs, rhs);
      QuotientValue(lhs, rhs, result);
      var check := Multiply(rhs, result);
      remainder := Subtract(lhs, check);
      RemainderValue(lhs.Value(), rhs.Value(), result.Value(), check.Value(), remainder.Value());
    }

    /** The state of division's digit descent at position `digit`, for the quotient q: the
        digits above `digit` are those of q, the digit at `digit` is at least q's and not zero,
        and the digits below it are zero. In values: q < m + 10^digit and m - d * 10^digit <= q
        for the magnitude m and the digit d at `digit`. */
    ghost predicate Descending(digit: nat, q: nat)
      reads this`size, this`data, data
    {
      size <= data.Length && DescendingDigits(data[..size], digit, q)
    }

    /** The positive quotient |lhs| / |rhs| for |lhs| >= |rhs|, found digit by digit from an
        upper estimate of its digit count: each digit starts at 9 and is lowered while rhs times
        the guess exceeds |lhs|. Its sign is the exclusive or of the flags. */
    static method Quotient(lhs: DecimalInt, rhs: DecimalInt) returns (result: DecimalInt)
      requires lhs.Valid() && rhs.Valid() && 0 < rhs.Magnitude() <= lhs.Magnitude()
      ensures fresh(result) && result.Canonical()
      ensures result.Magnitude() == lhs.Magnitude() / rhs.Magnitude()
      ensures result.negative == (lhs.negative != rhs.negative)
    {
      ghost var q := lhs.Magnitude() / rhs.Magnitude();
      QuotientRange(lhs, rhs);

      // the initial guess: 9 followed by zeros, one digit more than the quotient can have
      var maxDigit := lhs.size - rhs.size + 1;
      var digit: nat := maxDigit - 1;
      result := InitialGuess(maxDigit, q);
      result.negative := lhs.negative != rhs.negative;

      var cmp := CheckGuess(lhs, rhs, result, q);
      Search(lhs, rhs, result, digit, cmp, q);
    }

    /** Division's loop: passes until the check equals |lhs| or the last digit is done. */
    static method Search(lhs: DecimalInt, rhs: DecimalInt, result: DecimalInt, digit: nat, cmp: int, ghost q: nat)
      requires lhs.Valid() && rhs.Valid() && rhs.Magnitude() > 0 && q == lhs.Magnitude() / rhs.Magnitude()
      requires result != lhs && result != rhs && result.data != lhs.data && result.data != rhs.data
      requires result.Descending(digit, q) && q >= 1
      requires cmp > 0 ==> result.Magnitude() > q
      requires cmp < 0 ==> result.Magnitude() <= q
      requires cmp == 0 ==> result.Magnitude() == q
      modifies result`size, result.data
      ensures result.Valid() && result.Magnitude() == q
    {
      var digit, cmp := digit, cmp;
      while cmp != 0
        invariant result.Descending(digit, q)
        invariant cmp > 0 ==> result.Magnitude() > q
        invariant cmp < 0 ==> result.Magnitude() <= q
        invariant cmp == 0 ==> result.Magnitude() == q
        decreases 10 * digit + result.data[digit]
      {
        var done;
        digit, done := QuotientStep(result, digit, cmp > 0, q);
        if done {
          break;
        }
        cmp := CheckGuess(lhs, rhs, result, q);
      }
    }

    /** The check of a guess: rhs times the guess, and the remainder it leaves, which divide
        works out on every pass; the sign of check - |lhs| places the guess against the quotient q. */
    static method CheckGuess(lhs: DecimalInt, rhs: DecimalInt, result: DecimalInt, ghost q: nat) returns (cmp: int)
      requires lhs.Valid() && rhs.Valid() && result.Valid()
      requires rhs.Magnitude() > 0 && q == lhs.Magnitude() / rhs.Magnitude()
      ensures cmp > 0 ==> result.Magnitude() > q
      ensures cmp < 0 ==> result.Magnitude() <= q
      ensures cmp == 0 ==> result.Magnitude() == q
    {
      var check := Multiply(rhs, result);
      var remainder := Subtract(lhs, check);
      cmp := CompareMagnitudes(check, lhs);
      DivCompare(lhs.Magnitude(), rhs.Magnitude(), result.Magnitude(), check.Magnitude());
    }

    /** The initial guess of division: a 9 at position maxDigit - 1, zeros below. */
    static method InitialGuess(maxDigit: nat, ghost q: nat) returns (result: DecimalInt)
      requires 1 <= maxDigit && q < Pow10(maxDigit)
      ensures fresh(result) && fresh(result.data) && !result.negative
      ensures result.Descending(maxDigit - 1, q) && result.data[maxDigit - 1] == 9
    {
      result := new DecimalInt();
      result.Grow(maxDigit);
      var digit := maxDigit - 1;
      result.data[digit] := 9;
      result.size := digit + 1;
      assert result.data[..result.size] == result.data[..];
      StartGuess(result.data[..], digit, q);
    }

    /** One pass of division's loop body. A digit that made the check too large is lowered by
        one; a digit that is right, or has come down to zero, hands over to the next lower
        position, which starts at 9. `done` when there is no lower position. */
    static method QuotientStep(result: DecimalInt, digit: nat, above: bool, ghost q: nat) returns (digit': nat, done: bool)
      requires result.Descending(digit, q) && q >= 1
      requires above ==> result.Magnitude() > q
      requires !above ==> result.Magnitude() <= q
      modifies result`size, result.data
      ensures result.Valid()
      ensures done ==> result.Magnitude() == q
      ensures !done ==> result.Descending(digit', q)
      ensures !done ==> 10 * digit' + result.data[digit'] < 10 * digit + old(result.data[digit])
    {
      digit' := digit;
      done := false;
      if above {
        LowerDigit(result, digit, q);
        if result.data[digit] == 0 {
          if digit == 0 {
            SettledDone(result, q);
            done := true;
            return;
          }
          if result.size == digit + 1 {
            DropTopZero(result, digit, q);
          }
          digit' := NextDigit(result, digit, q);
        }
      } else {
        if digit == 0 {
          done := true;
          return;
        }
        assert result.Settled(digit, q);
        digit' := NextDigit(result, digit, q);
      }
    }

    /** The digits from position `digit` up are those of the quotient q and the ones below are
        zero, so the search goes on one position lower. The top slot in use may be a zero at
        `digit` or just below it while the size is being corrected. */
    ghost predicate Settled(digit: nat, q: nat)
      reads this`size, this`data, data
    {
      size <= data.Length && SettledDigits(data[..size], digit, q)
    }

    /** `result.mData[digit]--`: the guess was too large, so it is lowered by one. */
    static method LowerDigit(result: DecimalInt, digit: nat, ghost q: nat)
      requires result.Descending(digit, q) && result.Magnitude() > q
      modifies result.data
      ensures result.data[digit] == old(result.data[digit]) - 1
      ensures result.data[digit] != 0 ==> result.Descending(digit, q)
      ensures result.data[digit] == 0 ==> result.Settled(digit, q)
    {
      ghost var before := result.data[..result.size];
      LowerStep(before, digit, q);
      result.data[digit] := result.data[digit] - 1;
      assert result.data[..result.size] == before[digit := before[digit] - 1];
    }

    /** `--result.mSize`: the lowered digit was the top one and is now zero. */
    static method DropTopZero(result: DecimalInt, digit: nat, ghost q: nat)
      requires result.Settled(digit, q) && result.size == digit + 1 && result.data[digit] == 0
      modifies result`size
      ensures result.size == digit && result.Settled(digit, q)
    {
      ghost var before := result.data[..result.size];
      DropStep(before, digit, q);
      result.size := digit;
      assert before[..digit] == result.data[..result.size];
    }

    /** `result.mData[--digit] = 9`: the next lower position starts at 9. */
    static method NextDigit(result: DecimalInt, digit: nat, ghost q: nat) returns (digit': nat)
      requires result.Settled(digit, q) && 0 < digit
      requires result.size == digit + 1 ==> result.data[digit] != 0
      modifies result.data
      ensures digit' == digit - 1 && result.data[digit'] == 9
      ensures result.Descending(digit', q)
    {
      digit' := digit - 1;
      ghost var before := result.data[..result.size];
      NextStep(before, digit, q);
      result.data[digit'] := 9;
      assert result.data[..result.size] == before[digit' := 9];
    }

    /** The outer loop of multiply: one row for every digit of lhs. */
    static method MultiplyRows(lhs: DecimalInt, rhs: DecimalInt, r: DecimalInt, ghost a: seq<Digit>, ghost b: seq<Digit>)
      requires lhs.Valid() && rhs.Valid()
      requires a == lhs.data[..lhs.size] && b == rhs.data[..rhs.size]
      requires r != lhs && r != rhs && r.data != lhs.data && r.data != rhs.data
      requires r.Valid() && r.ZeroAbove() && r.data.Length == lhs.size + rhs.size
      requires Val(r.data[..]) == 0
      modifies r`size, r.data
      ensures r.Valid() && r.ZeroAbove()
      ensures Val(r.data[..]) == MulPartial(a, b, |a|, 0)
    {
      assert PrefixVal(a, 0) == 0 && PrefixVal(b, 0) == 0;
      var i := 0;
      while i < lhs.size
        invariant i <= lhs.size
        invariant r.Valid() && r.ZeroAbove()
        invariant Val(r.data[..]) == MulPartial(a, b, i, 0)
      {
        MultiplyRow(lhs, rhs, r, i, a, b);
        i := i + 1;
      }
    }

    /** Row i of multiply: lhs[i] * rhs[j] added at position i + j for every digit j of rhs. */
    static method MultiplyRow(lhs: DecimalInt, rhs: DecimalInt, r: DecimalInt, i: nat, ghost a: seq<Digit>, ghost b: seq<Digit>)
      requires lhs.Valid() && rhs.Valid() && i < lhs.size
      requires a == lhs.data[..lhs.size] && b == rhs.data[..rhs.size]
      requires r != lhs && r != rhs && r.data != lhs.data && r.data != rhs.data
      requires r.Valid() && r.ZeroAbove() && r.data.Length == lhs.size + rhs.size
      requires Val(r.data[..]) == MulPartial(a, b, i, 0)
      modifies r`size, r.data
      ensures r.Valid() && r.ZeroAbove()
      ensures Val(r.data[..]) == MulPartial(a, b, i + 1, 0)
    {
      var j := 0;
      while j < rhs.size
        invariant j <= rhs.size
        invariant r.Valid() && r.ZeroAbove()
        invariant Val(r.data[..]) == MulPartial(a, b, i, j)
      {
        assert a[i] == lhs.data[i] && b[j] == rhs.data[j];
        MulStepFits(a, b, i, j);
        DigitProduct(lhs.data[i], rhs.data[j]);
        RippleCarry(r, (lhs.data[i] as int) * rhs.data[j], i + j);
        j := j + 1;
      }
      MulPartialRow(a, b, i);
    }

    /** The innermost loop of multiply: adds c0 * 10^k0 to r's digits by rippling the carry up
        from position k0, stopping as soon as no carry is left. */
    static method RippleCarry(r: DecimalInt, c0: int, k0: nat)
      requires r.Valid() && r.ZeroAbove() && 0 <= c0 && k0 <= r.data.Length
      requires Val(r.data[..]) + c0 * Pow10(k0) < Pow10(r.data.Length)
      modifies r`size, r.data
      ensures r.Valid() && r.ZeroAbove()
      ensures Val(r.data[..]) == old(Val(r.data[..])) + c0 * Pow10(k0)
    {
      ghost var target := Val(r.data[..]) + c0 * Pow10(k0);
      var carry := c0;
      var k := k0;
      while k < r.data.Length
        invariant Rippling(r.data[..], r.size, k, carry, target)
        decreases r.data.Length - k
      {
        if carry == 0 {
          break;
        }
        carry := RippleDigit(r, k, carry, target);
        k := k + 1;
      }
      RippleFinish(r.data[..], r.size, k, carry, target);
      assert r.size > 0 ==> r.data[..][r.size - 1] == r.data[r.size - 1];
      assert forall j :: r.size <= j < r.data.Length ==> r.data[..][j] == r.data[j];
    }

    /** One step of the ripple: the carry added to the digit at k, the new digit stored and
        the size raised past it when it is nonzero. */
    static method RippleDigit(r: DecimalInt, k: nat, carry: int, ghost target: int) returns (carry': int)
      requires k < r.data.Length && carry > 0
      requires Rippling(r.data[..], r.size, k, carry, target)
      modifies r`size, r.data
      ensures Rippling(r.data[..], r.size, k + 1, carry', target)
    {
      var sum := r.data[k] + carry;
      var word: Digit := sum % 10;
      ghost var before, size := r.data[..], r.size;
      carry' := sum / 10;
      r.data[k] := word;
      if word > 0 {
        r.size := Max(r.size, k + 1);
      }
      assert r.data[..] == before[k := word];
      RippleStep(before, size, k, carry, target, word, carry', r.size);
    }

    /** dst := |larger| + |smaller|, one digit and carry at a time over all of dst's slots. */
    static method AddWords(larger: DecimalInt, smaller: DecimalInt, dst: DecimalInt)
      requires larger.Valid() && smaller.Valid()
      requires dst != larger && dst != smaller && dst.data != larger.data && dst.data != smaller.data
      requires dst.size == 0 && larger.size < dst.data.Length && smaller.size < dst.data.Length
      modifies dst`size, dst.data
      ensures dst.Valid()
      ensures dst.Magnitude() == old(larger.Magnitude()) + old(smaller.Magnitude())
    {
      ghost var a, b := larger.data[..larger.size], smaller.data[..smaller.size];
      var carry := 0;
      var i := 0;
      while i < dst.data.Length
        invariant 0 <= i <= dst.data.Length && 0 <= carry <= 1
        invariant ColumnsDone(dst.data[..i], dst.size, carry, a, b, 1)
      {
        carry := AddColumnAt(larger, smaller, dst, i, carry, a, b);
        i := i + 1;
      }
      AddFinish(dst.data[..i], dst.size, carry, a, b);
      assert dst.data[..i][..dst.size] == dst.data[..dst.size];
    }

    /** One column of addWords: the digit sum of column i plus the carry, split into the digit
        stored at i and the carry out; the size moves up to i + 1 when that digit is not zero. */
    static method AddColumnAt(larger: DecimalInt, smaller: DecimalInt, dst: DecimalInt, i: nat, carry: int,
                         ghost a: seq<Digit>, ghost b: seq<Digit>)
      returns (carry': int)
      requires larger.Valid() && smaller.Valid()
      requires dst != larger && dst != smaller && dst.data != larger.data && dst.data != smaller.data
      requires i < dst.data.Length && 0 <= carry <= 1
      requires a == larger.data[..larger.size] && b == smaller.data[..smaller.size]
      requires ColumnsDone(dst.data[..i], dst.size, carry, a, b, 1)
      modifies dst`size, dst.data
      ensures 0 <= carry' <= 1
      ensures ColumnsDone(dst.data[..i + 1], dst.size, carry', a, b, 1)
    {
      var x: Digit := if i < larger.size then larger.data[i] else 0;
      var y: Digit := if i < smaller.size then smaller.data[i] else 0;
      var sum := carry + x + y;
      var word: Digit := sum % 10;
      ghost var before, size := dst.data[..i], dst.size;
      carry' := sum / 10;
      dst.data[i] := word;
      if word != 0 {
        dst.size := i + 1;
      }
      assert dst.data[..i + 1] == before + [word];
      ColumnStep(before, size, carry, a, b, 1, word, carry', dst.size);
    }

    /** dst := |larger| - |smaller|, borrowing from the next digit where a digit goes below zero. */
    static method SubtractWords(larger: DecimalInt, smaller: DecimalInt, dst: DecimalInt)
      requires larger.Valid() && smaller.Valid() && larger.Magnitude() >= smaller.Magnitude()
      requires dst != larger && dst != smaller && dst.data != larger.data && dst.data != smaller.data
      requires dst.size == 0 && larger.size < dst.data.Length && smaller.size < dst.data.Length
      modifies dst`size, dst.data
      ensures dst.Valid()
      ensures dst.Magnitude() == old(larger.Magnitude()) - old(smaller.Magnitude())
    {
      ghost var a, b := larger.data[..larger.size], smaller.data[..smaller.size];
      var carry := 0;
      var i := 0;
      while i < dst.data.Length
        invariant 0 <= i <= dst.data.Length && -1 <= carry <= 0
        invariant ColumnsDone(dst.data[..i], dst.size, carry, a, b, -1)
      {
        carry := SubtractColumnAt(larger, smaller, dst, i, carry, a, b);
        i := i + 1;
      }
      BorrowFinish(dst.data[..i], dst.size, carry, a, b);
      assert dst.data[..i][..dst.size] == dst.data[..dst.size];
    }

    /** One column of subtractWords: the digit difference of column i plus the borrow (a carry
        of 0 or -1), brought into [0, 9] by borrowing ten from the next column when needed. */
    static method SubtractColumnAt(larger: DecimalInt, smaller: DecimalInt, dst: DecimalInt, i: nat, carry: int,
                         ghost a: seq<Digit>, ghost b: seq<Digit>)
      returns (carry': int)
      requires larger.Valid() && smaller.Valid()
      requires dst != larger && dst != smaller && dst.data != larger.data && dst.data != smaller.data
      requires i < dst.data.Length && -1 <= carry <= 0
      requires a == larger.data[..larger.size] && b == smaller.data[..smaller.size]
      requires ColumnsDone(dst.data[..i], dst.size, carry, a, b, -1)
      modifies dst`size, dst.data
      ensures -1 <= carry' <= 0
      ensures ColumnsDone(dst.data[..i + 1], dst.size, carry', a, b, -1)
    {
      var x: Digit := if i < larger.size then larger.data[i] else 0;
      var y: Digit := if i < smaller.size then smaller.data[i] else 0;
      var sum := carry + x - y;
      ghost var before, size := dst.data[..i], dst.size;
      var word: Digit;
      // sum lies in [-10, 9], so the operands of / and % below are never negative
      if sum > 0 {
        word := sum % 10;
        carry' := sum / 10;
      } else {
        sum := sum + 10;
        word := sum % 10;
        carry' := sum / 10 - 1;
      }
      dst.data[i] := word;
      if word != 0 {
        dst.size := i + 1;
      }
      assert dst.data[..i + 1] == before + [word];
      ColumnStep(before, size, carry, a, b, -1, word, carry', dst.size);
    }

    /** n! as the product 1 * 2 * ... * n; a negative n gives the empty product 1. */
    static method Factorial(n: int) returns (result: DecimalInt)
      requires IsInt32(n) && n < 0x7fff_ffff
      ensures result.Canonical()
      ensures result.Value() == if n < 0 then 1 else Arith.Factorial(n)
    {
      result := new DecimalInt.FromLong(1);
      var i := 1;
      while i <= n
        invariant 1 <= i <= Max(n + 1, 1)
        invariant result.Canonical() && result.Value() == Arith.Factorial(i - 1)
      {
        ghost var c := result.Value();
        var factor := new DecimalInt.FromLong(i);
        ghost var f := factor.Value();
        result := Multiply(result, factor);
        FactorialStep(i, c, f);
        i := i + 1;
      }
    }

    /** The binomial coefficient C(n, k) by the running product: after the symmetry step turns k
        into min(k, n - k), the result is multiplied by n - k + i and divided by i for i from 1
        to k. A k outside [0, n] leaves the loop empty and gives 1. */
    static method Combinations(n: int, k: int) returns (result: DecimalInt)
      requires -0x4000_0000 <= n < 0x8000_0000 && -0x4000_0000 <= k < 0x4000_0000
      ensures result.Canonical()
      ensures result.Value() == if 0 <= k <= n then Choose(n, k) else 1
    {
      var k' := k;
      if 2 * k' > n {
        k' := n - k';
      }
      result := new DecimalInt.FromLong(1);
      var i := 1;
      while i <= k'
        invariant 1 <= i <= Max(k' + 1, 1) && (k' >= 1 ==> 0 <= n - k')
        invariant result.Canonical() && result.Value() == if k' >= 1 then Choose(n - k' + i - 1, i - 1) else 1
      {
        result := CombinationsPass(result, n, k', i);
        i := i + 1;
      }
      CombinationsDone(n, k, k');
    }

    /** One pass of combinations: result * (n - k + i), then the quotient of that by i. */
    static method CombinationsPass(result: DecimalInt, n: int, k: int, i: int) returns (next: DecimalInt)
      requires 1 <= i <= k && 0 <= n - k && n < 0x8000_0000
      requires result.Canonical() && result.Value() == Choose(n - k + i - 1, i - 1)
      ensures next.Canonical() && next.Value() == Choose(n - k + (i + 1) - 1, (i + 1) - 1)
    {
      ghost var c := result.Value();
      var factor := new DecimalInt.FromLong(n - k + i);
      ghost var f := factor.Value();
      var product := Multiply(result, factor);
      assert product.Value() == c * f;
      var divisor := new DecimalInt.FromLong(i);
      var division := Divide(product, divisor);
      CombinationsStep(n, k, i, c, f);
      next := division.value.quotient;
    }
  }

  /** Like signs: the magnitudes add under the common sign. */
  lemma SameSignSum(x: int, y: int, m: nat, neg: bool)
    requires x != 0 && Sign(x) == Sign(y) && m == Abs(x) + Abs(y) && neg == (x < 0)
    ensures (if neg then -(m as int) else m) == x + y && (neg ==> m > 0)
  {
  }

  /** Unlike signs, x the larger in magnitude: the difference of the magnitudes under x's sign. */
  lemma LargerFirstSum(x: int, y: int, m: nat, neg: bool)
    requires Sign(x) == -Sign(y) && Abs(x) > Abs(y) && m == Abs(x) - Abs(y) && neg == (x < 0)
    ensures (if neg then -(m as int) else m) == x + y && (neg ==> m > 0)
  {
  }

  /** Nineteen digits hold every long: while digits remain, fewer than 19 have been taken. */
  lemma LongFits(c: nat, rest: nat, v: nat)
    requires rest >= 1 && Pow10(c) * rest <= v <= 0x8000_0000_0000_0000
    ensures c < 19
  {
    MulLe(1, rest, Pow10(c));
    if c >= 19 {
      PowMonotone(10, 19, c);
      Pow10Of19();
    }
  }

  /** One truncating division of the remaining `long` by ten: the digit it yields, the smaller
      rest, and that digits and rest still make up the whole magnitude. */
  lemma LongDivStep(val: int, c: nat, whole: nat, low: nat)
    requires val != 0 && whole <= 0x8000_0000_0000_0000
    requires low + Pow10(c) * Abs(val) == whole
    ensures c < 19 && 0 <= Abs(JavaRem(val, 10)) <= 9
    ensures Abs(JavaDiv(val, 10)) < Abs(val)
    ensures JavaDiv(val, 10) == 0 ==> JavaRem(val, 10) != 0
    ensures low + Abs(JavaRem(val, 10)) * Pow10(c) + Pow10(c + 1) * Abs(JavaDiv(val, 10)) == whole
  {
    JavaDivRemTen(val);
    LongFits(c, Abs(val), whole);
    var p := Pow10(c);
    assert Pow10(c + 1) == 10 * p;
    LongStep(low, Abs(val) % 10, Abs(val), Abs(val) / 10, p);
  }

  lemma LongStep(low: int, rem: int, rest: int, next: int, p: int)
    requires rem == rest % 10 && next == rest / 10
    ensures low + rem * p + (10 * p) * next == low + p * rest
  {
    assert rest == 10 * next + rem;
    calc {
      rem * p + (10 * p) * next;
      (rem + 10 * next) * p;
      p * rest;
    }
  }

  /** One column of an addition: the digit and the carry out of it stand for the column's sum. */
  lemma AddColumn(v: int, w: int, c: int, c2: int, x: int, y: int, p: int, s: int, t: int)
    requires v + c * p == s + t && w + 10 * c2 == c + x + y
    ensures v + w * p + c2 * (10 * p) == (s + x * p) + (t + y * p)
  {
    calc {
      v + w * p + c2 * (10 * p);
      v + (w + 10 * c2) * p;
      v + (c + x + y) * p;
      v + c * p + x * p + y * p;
    }
  }

  /** One column of a subtraction, with the borrow as a negative carry. */
  lemma SubtractColumn(v: int, w: int, c: int, c2: int, x: int, y: int, p: int, s: int, t: int)
    requires v + c * p == s - t && w + 10 * c2 == c + x - y
    ensures v + w * p + c2 * (10 * p) == (s + x * p) - (t + y * p)
  {
    calc {
      v + w * p + c2 * (10 * p);
      v + (w + 10 * c2) * p;
      v + (c + x - y) * p;
      v + c * p + x * p - y * p;
    }
  }

  /** The state of a column-wise addition (op = 1) or subtraction (op = -1) after the columns d:
      size covers every nonzero digit of d, and d with the carry worth 10^|d| is the sum or
      difference of the operands' lowest |d| digits. */
  ghost predicate ColumnsDone(d: seq<Digit>, size: nat, carry: int, a: seq<Digit>, b: seq<Digit>, op: int)
  {
    size <= |d| && (size > 0 ==> d[size - 1] != 0) && Val(d[..size]) == Val(d) &&
    Val(d) + carry * Pow10(|d|) == PrefixVal(a, |d|) + op * PrefixVal(b, |d|)
  }

  /** Storing one more column digit: the tracked size still covers every nonzero digit. */
  lemma ColumnStored(before: seq<Digit>, word: Digit, size: nat, size': nat)
    requires size <= |before| && Val(before[..size]) == Val(before)
    requires size' == if word != 0 then |before| + 1 else size
    ensures Val((before + [word])[..size']) == Val(before + [word])
  {
    var after := before + [word];
    ValSnoc(before, word);
    if word == 0 {
      assert after[..size'] == before[..size];
    } else {
      assert after[..size'] == after;
    }
  }

  /** One more column keeps the state: the new digit and carry stand for the column's sum. */
  lemma ColumnStep(d: seq<Digit>, size: nat, carry: int, a: seq<Digit>, b: seq<Digit>, op: int,
                   word: Digit, carry': int, size': nat)
    requires op == 1 || op == -1
    requires ColumnsDone(d, size, carry, a, b, op)
    requires word + 10 * carry' == carry + DigitAt(a, |d|) + op * DigitAt(b, |d|)
    requires size' == if word != 0 then |d| + 1 else size
    ensures ColumnsDone(d + [word], size', carry', a, b, op)
  {
    var i := |d|;
    ColumnStored(d, word, size, size');
    ValSnoc(d, word);
    assert Pow10(i + 1) == 10 * Pow10(i);
    if op == 1 {
      AddColumn(Val(d), word, carry, carry', DigitAt(a, i), DigitAt(b, i), Pow10(i), PrefixVal(a, i), PrefixVal(b, i));
    } else {
      SubtractColumn(Val(d), word, carry, carry', DigitAt(a, i), DigitAt(b, i), Pow10(i), PrefixVal(a, i), PrefixVal(b, i));
    }
  }

  /** After the last column of an addition the carry is gone: the sum fits in the slots. */
  lemma AddFinish(d: seq<Digit>, size: nat, carry: int, a: seq<Digit>, b: seq<Digit>)
    requires |a| < |d| && |b| < |d| && 0 <= carry
    requires ColumnsDone(d, size, carry, a, b, 1)
    ensures carry == 0 && Val(d[..size]) == Val(a) + Val(b)
  {
    PrefixValFull(a, |d|);
    PrefixValFull(b, |d|);
    SumFits(a, b, |d|);
    NoCarryLeft(Val(d), carry, Pow10(|d|), Val(a) + Val(b));
  }

  /** After the last column of a subtraction there is nothing left to borrow. */
  lemma BorrowFinish(d: seq<Digit>, size: nat, carry: int, a: seq<Digit>, b: seq<Digit>)
    requires |a| < |d| && |b| < |d| && -1 <= carry <= 0 && Val(a) >= Val(b)
    requires ColumnsDone(d, size, carry, a, b, -1)
    ensures carry == 0 && Val(d[..size]) == Val(a) - Val(b)
  {
    PrefixValFull(a, |d|);
    PrefixValFull(b, |d|);
    ValBound(d);
    NoBorrowLeft(Val(d), carry, Pow10(|d|), Val(a) - Val(b));
  }

  /** Two numbers of fewer than n digits add up to fewer than 10^n. */
  lemma SumFits(a: seq<Digit>, b: seq<Digit>, n: nat)
    requires |a| < n && |b| < n
    ensures Val(a) + Val(b) < Pow10(n)
  {
    ValBound(a);
    ValBound(b);
    PowMonotone(10, |a|, n - 1);
    PowMonotone(10, |b|, n - 1);
  }

  /** A value below p leaves no positive carry worth p. */
  lemma NoCarryLeft(v: nat, carry: int, p: nat, x: int)
    requires v + carry * p == x < p && carry >= 0
    ensures carry == 0 && v == x
  {
    if carry > 0 {
      MulLe(1, carry, p);
    }
  }

  /** A value of at least zero leaves no borrow worth p from digits below p. */
  lemma NoBorrowLeft(v: nat, carry: int, p: nat, x: int)
    requires v < p && v + carry * p == x && x >= 0 && -1 <= carry <= 0
    ensures carry == 0 && v == x
  {
  }

  /** The sign rule of multiply: the exclusive or of the flags on the product of the magnitudes
      is the product of the signed values. */
  lemma ProductSign(ml: nat, mr: nat, m: nat, nl: bool, nr: bool, n: bool)
    requires m == ml * mr && n == (nl != nr)
    ensures (if n then -(m as int) else m) == (if nl then -(ml as int) else ml) * (if nr then -(mr as int) else mr)
  {
  }

  /** After the last row the digits in use hold the product, and none are in use exactly when
      a factor has none. */
  lemma ProductDone(d: seq<Digit>, size: nat, a: seq<Digit>, b: seq<Digit>)
    requires size <= |d| && (size > 0 ==> d[size - 1] != 0)
    requires forall j :: size <= j < |d| ==> d[j] == 0
    requires Trimmed(a) && Trimmed(b) && Val(d) == MulPartial(a, b, |a|, 0)
    ensures Val(d[..size]) == Val(a) * Val(b)
    ensures size == 0 <==> a == [] || b == []
  {
    MulPartialDone(a, b);
    ValTrailingZeros(d, size);
    ProductZero(a, b, d[..size]);
  }

  /** A product has no digits exactly when one of its trimmed factors has none. */
  lemma ProductZero(a: seq<Digit>, b: seq<Digit>, p: seq<Digit>)
    requires Trimmed(a) && Trimmed(b) && Trimmed(p) && Val(p) == Val(a) * Val(b)
    ensures p == [] <==> a == [] || b == []
  {
    if a != [] && b != [] {
      TrimmedPositive(a);
      TrimmedPositive(b);
    }
    if p != [] {
      TrimmedPositive(p);
    }
  }

  /** Division's digit descent at position `digit` on the digits d of the guess, for the
      quotient q: the digits above `digit` are those of q, the digit at `digit` is at least
      q's and not zero, and the digits below it are zero. In values: q < v + 10^digit and
      v - d[digit] * 10^digit <= q for the value v of d. */
  ghost predicate DescendingDigits(d: seq<Digit>, digit: nat, q: nat)
  {
    Trimmed(d) && digit < |d| && 1 <= d[digit] &&
    (forall j :: 0 <= j < digit ==> d[j] == 0) &&
    q < Val(d) + Pow10(digit) && Val(d) - d[digit] * Pow10(digit) <= q
  }

  /** The digits from position `digit` up are those of q and the ones below are zero. The top
      digit may be a zero at `digit` or just below it while the size is being corrected. */
  ghost predicate SettledDigits(d: seq<Digit>, digit: nat, q: nat)
  {
    digit <= |d| && (|d| > 0 && |d| - 1 > digit ==> d[|d| - 1] != 0) &&
    (forall j :: 0 <= j < digit ==> d[j] == 0) &&
    q < Val(d) + Pow10(digit) && Val(d) <= q
  }

  /** Lowering a digit that made the guess too large keeps the search on the quotient. */
  lemma LowerStep(d: seq<Digit>, digit: nat, q: nat)
    requires DescendingDigits(d, digit, q) && Val(d) > q
    ensures d[digit] - 1 != 0 ==> DescendingDigits(d[digit := d[digit] - 1], digit, q)
    ensures d[digit] - 1 == 0 ==> SettledDigits(d[digit := d[digit] - 1], digit, q)
  {
    var w: Digit := d[digit] - 1;
    ValUpdate(d, digit, w);
    MulSucc(w, Pow10(digit));
  }

  /** Dropping a zero top digit leaves the value as it is. */
  lemma DropStep(d: seq<Digit>, digit: nat, q: nat)
    requires SettledDigits(d, digit, q) && |d| == digit + 1 && d[digit] == 0
    ensures SettledDigits(d[..digit], digit, q)
  {
    ValPrefixStep(d, digit);
    assert d[..digit + 1] == d;
  }

  /** Starting the next lower position at 9 resumes the descent there. */
  lemma NextStep(d: seq<Digit>, digit: nat, q: nat)
    requires SettledDigits(d, digit, q) && 0 < digit
    requires |d| == digit + 1 ==> d[digit] != 0
    ensures DescendingDigits(d[digit - 1 := 9], digit - 1, q)
  {
    var k := digit - 1;
    ValUpdate(d, k, 9);
    assert Pow10(digit) == 10 * Pow10(k);
  }

  /** The last position settled: the digits hold the quotient, and since it is not zero, the
      top slot in use is not a zero either. */
  lemma SettledDone(result: DecimalInt, q: nat)
    requires result.Settled(0, q) && q >= 1
    ensures result.Valid() && result.Magnitude() == q
  {
    if result.size == 1 {
      assert result.data[..1] == [] + [result.data[0]];
      ValSnoc([], result.data[0]);
    }
  }

  /** The initial guess of division, a 9 above zeros, is 9 * 10^digit. */
  lemma StartGuess(d: seq<Digit>, digit: nat, q: nat)
    requires |d| == digit + 1 && d[digit] == 9 && q < Pow10(digit + 1)
    requires forall j :: 0 <= j < digit ==> d[j] == 0
    ensures Val(d) == 9 * Pow10(digit)
    ensures DescendingDigits(d, digit, q)
  {
    assert d[..digit] == seq(digit, _ => 0);
    ValZeros(digit);
    ValSnoc(d[..digit], 9);
    assert d[..digit] + [9] == d;
  }

  /** The quotient of two valid numbers is at least 1 and has at most lhs.size - rhs.size + 1 digits. */
  lemma QuotientRange(lhs: DecimalInt, rhs: DecimalInt)
    requires lhs.Valid() && rhs.Valid() && 0 < rhs.Magnitude() <= lhs.Magnitude()
    ensures lhs.size >= rhs.size
    ensures 1 <= lhs.Magnitude() / rhs.Magnitude() < Pow10(lhs.size - rhs.size + 1)
  {
    var a, b := lhs.data[..lhs.size], rhs.data[..rhs.size];
    assert Trimmed(a) && Trimmed(b) by {
      if lhs.size > 0 {
        assert a[lhs.size - 1] == lhs.data[lhs.size - 1];
      }
      if rhs.size > 0 {
        assert b[rhs.size - 1] == rhs.data[rhs.size - 1];
      }
    }
    DivisionStart(a, b);
  }

  /** Where division starts: the dividend has at least as many digits as the divisor, and the
      quotient is at least 1 and has at most one digit more than the difference in lengths. */
  lemma DivisionStart(a: seq<Digit>, b: seq<Digit>)
    requires Trimmed(a) && Trimmed(b) && b != [] && Val(a) >= Val(b)
    ensures |a| >= |b| && Val(b) > 0
    ensures 1 <= Val(a) / Val(b) < Pow10(|a| - |b| + 1)
  {
    TrimmedPositive(b);
    if |a| < |b| {
      SizeDecides(a, b);
    }
    ValBound(a);
    ValLowerBound(b);
    QuotientDigits(Val(a), Val(b), |a|, |b|);
  }

  lemma QuotientDigits(l: nat, d: nat, n: nat, m: nat)
    requires 1 <= m <= n && 0 < d && Pow10(m - 1) <= d <= l < Pow10(n)
    ensures 1 <= l / d < Pow10(n - m + 1)
  {
    var k := n - m + 1;
    PowAdd(10, k, m - 1);
    assert k + (m - 1) == n;
    MulLe(Pow10(m - 1), d, Pow10(k));
    DivBelow(l, d, Pow10(k));
  }

  lemma DivBelow(l: nat, d: nat, x: nat)
    requires d > 0 && l < d * x && l >= d
    ensures 1 <= l / d < x
  {
    var k := l / d;
    assert l == d * k + l % d;
    if k >= x {
      MulLe(x, k, d);
    }
  }

  /** Comparing d * m with l tells where m lies relative to the quotient l / d. */
  lemma DivCompare(l: nat, d: nat, m: nat, p: nat)
    requires d > 0 && p == d * m
    ensures p > l ==> m > l / d
    ensures p < l ==> m <= l / d
    ensures p == l ==> m == l / d
  {
    var k := l / d;
    assert l == d * k + l % d;
    if m <= k {
      MulLe(m, k, d);
    }
    if m >= k + 1 {
      MulLe(k + 1, m, d);
    }
  }

  /** The sign of the quotient: Java's truncating division of the signed values. */
  lemma QuotientSign(l: nat, d: nat, ln: bool, rn: bool)
    requires l >= d > 0
    ensures JavaDiv(if ln then -(l as int) else l, if rn then -(d as int) else d) ==
            if ln != rn then -(l / d) else l / d
  {
  }

  /** The quotient's digits and flag make up Java's truncating quotient of the values. */
  lemma QuotientValue(lhs: DecimalInt, rhs: DecimalInt, result: DecimalInt)
    requires lhs.Valid() && rhs.Valid() && result.Valid() && 0 < rhs.Magnitude() <= lhs.Magnitude()
    requires result.Magnitude() == lhs.Magnitude() / rhs.Magnitude()
    requires result.negative == (lhs.negative != rhs.negative)
    ensures rhs.Value() != 0 && result.Value() == JavaDiv(lhs.Value(), rhs.Value())
  {
    QuotientSign(lhs.Magnitude(), rhs.Magnitude(), lhs.negative, rhs.negative);
  }

  /** What is left of the dividend after taking away divisor times quotient is Java's remainder. */
  lemma RemainderValue(x: int, y: int, q: int, c: int, r: int)
    requires y != 0 && q == JavaDiv(x, y) && c == y * q && r == x - c
    ensures r == JavaRem(x, y)
  {
  }

  /** A dividend of smaller magnitude gives quotient zero and is its own remainder. */
  lemma SmallQuotient(a: int, b: int)
    requires b != 0 && Abs(a) < Abs(b)
    ensures JavaDiv(a, b) == 0 && JavaRem(a, b) == a
  {
    var q, r := EuclidDivMod(Abs(a), Abs(b));
    MulAtLeast(Abs(b), q);
  }

  /** The pass for digit k of a base-2 or base-16 literal of n digits fits in 2n decimal digits. */
  lemma NextDigitFits(digits: seq<int>, base: int, k: nat)
    requires (base == 2 || base == 16) && AllBelow(digits, base) && k < |digits|
    ensures ValMsd(digits[..k + 1], base) == base * ValMsd(digits[..k], base) + digits[k]
    ensures base * ValMsd(digits[..k], base) + digits[k] < Pow10(2 * |digits|)
  {
    assert digits[..k + 1][..k] == digits[..k];
    ValMsdBound(digits[..k + 1], base);
    PowMonotone(base, k + 1, |digits|);
    SmallBasePowerFits(base, |digits|);
  }

  /** A literal with a nonzero leading digit denotes a positive number, so its digits are not empty. */
  lemma SizeOfPositive(digits: seq<int>, base: int, p: seq<Digit>)
    requires 2 <= base && AllBelow(digits, base) && digits != [] && digits[0] != 0
    requires Val(p) == ValMsd(digits, base)
    ensures p != []
  {
    ValMsdPositive(digits, base);
  }

  lemma {:induction false} ValMsdPositive(ds: seq<int>, base: int)
    requires 2 <= base && AllBelow(ds, base) && ds != [] && ds[0] != 0
    ensures ValMsd(ds, base) > 0
  {
    var n := |ds| - 1;
    if n > 0 {
      assert ds[..n][0] == ds[0];
      ValMsdPositive(ds[..n], base);
      ValMsdBound([ds[n]], base);
      assert ValMsd(ds, base) == ValMsd(ds[..n], base) * base + ds[n];
      MulLe(1, ValMsd(ds[..n], base), base);
    } else {
      assert ds[..0] == [];
    }
  }

  lemma FactorialStep(i: nat, c: int, f: int)
    requires i >= 1 && c == Factorial(i - 1) && f == i
    ensures c * f == Factorial(i)
  {
    MulComm(i, Factorial(i - 1));
  }

  /** Step i of combinations divides exactly: C(m + i - 1, i - 1) * (m + i) is i * C(m + i, i). */
  lemma CombinationsStep(n: int, k: int, i: int, c: int, f: int)
    requires 1 <= i && 0 <= n - k
    requires c == Choose(n - k + i - 1, i - 1) && f == n - k + i
    ensures JavaDiv(c * f, i) == Choose(n - k + (i + 1) - 1, (i + 1) - 1)
  {
    var m := n - k;
    ChooseAbsorption(m + i - 1, i - 1);
    MulComm(Choose(m + i - 1, i - 1), m + i);
    ExactQuotient(Choose(m + i, i), i);
  }

  /** A multiple of d divided by d. */
  lemma ExactQuotient(c: nat, d: nat)
    requires d > 0
    ensures JavaDiv(d * c, d) == c
  {
    MulLeLeft(d, 0, c);
    var q, r := EuclidDivMod(d * c, d);
    MulDiff(d, c, q);
    if c > q {
      MulLeLeft(d, 1, c - q);
    } else if c < q {
      MulLeLeft(d, 1, q - c);
    }
  }

  lemma MulDiff(d: int, c: int, q: int)
    ensures d * c - d * q == d * (c - q)
  {
  }

  /** What the loop of combinations hands back is C(n, k) for k in [0, n] and 1 otherwise. */
  lemma CombinationsDone(n: int, k: int, k': int)
    requires k' == if 2 * k > n then n - k else k
    ensures (if k' >= 1 then Choose(n - k' + k', k') else 1) == if 0 <= k <= n then Choose(n, k) else 1
  {
    if 0 <= k <= n {
      if k' < 1 {
        if k == n {
          ChooseAll(n);
        }
      } else if 2 * k > n {
        ChooseSymmetric(n, k);
      }
    }
  }
}
