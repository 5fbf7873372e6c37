/** The language of integer literals, stated declaratively, and the canonical decimal rendering.

    A literal is an optional sign, an optional base prefix ("0b"/"0B" for base 2,
    "0x"/"0X" for base 16; a prefix is only recognised right after the sign), and a
    nonempty body of digits valid in the base. Leading zeros of the body carry no
    value and are dropped from the digit list. */
module Literals {
  import opened Arith
  import opened Digits

  /** The digit value of a character ('0'-'9', then 'a'-'f' in either case as 10-15), or -1. */
  function DigitValue(c: char): int
  {
    if '0' <= c <= '9' then c as int - '0' as int
    else if 'a' <= c <= 'f' then c as int - 'a' as int + 10
    else if 'A' <= c <= 'F' then c as int - 'A' as int + 10
    else -1
  }

  function DigitValues(t: string): (ds: seq<int>)
    ensures |ds| == |t|
  {
    if t == [] then [] else DigitValues(t[..|t| - 1]) + [DigitValue(t[|t| - 1])]
  }

  lemma {:induction false} DigitValuesAt(t: string, i: nat)
    requires i < |t|
    ensures DigitValues(t)[i] == DigitValue(t[i])
  {
    if i < |t| - 1 {
      DigitValuesAt(t[..|t| - 1], i);
    }
  }

  /** The length of the optional sign. */
  function SignLength(s: string): nat
  {
    if |s| > 0 && (s[0] == '+' || s[0] == '-') then 1 else 0
  }

  function LiteralSign(s: string): int
  {
    if |s| > 0 && s[0] == '-' then -1 else 1
  }

  function LiteralBase(s: string): int
  {
    var k := SignLength(s);
    if |s| >= k + 2 && s[k] == '0' && (s[k + 1] == 'b' || s[k + 1] == 'B') then 2
    else if |s| >= k + 2 && s[k] == '0' && (s[k + 1] == 'x' || s[k + 1] == 'X') then 16
    else 10
  }

  /** Where the body starts: after the sign and, if there is one, the base prefix. */
  function BodyStart(s: string): (k: nat)
    ensures k <= |s|
  {
    SignLength(s) + if LiteralBase(s) == 10 then 0 else 2
  }

  predicate ValidLiteral(s: string)
  {
    BodyStart(s) < |s| &&
    forall i :: BodyStart(s) <= i < |s| ==> 0 <= DigitValue(s[i]) < LiteralBase(s)
  }

  /** The first position at or after i that does not hold a '0'. */
  function ZerosEnd(s: string, i: nat): (j: nat)
    requires i <= |s|
    ensures i <= j <= |s|
    decreases |s| - i
  {
    if i < |s| && s[i] == '0' then ZerosEnd(s, i + 1) else i
  }

  /** Where the significant digits start: after the leading zeros of the body. */
  function SignificantStart(s: string): nat
  {
    ZerosEnd(s, BodyStart(s))
  }

  /** The digit list of a literal, most significant first, leading zeros dropped. */
  function LiteralDigits(s: string): seq<int>
  {
    DigitValues(s[SignificantStart(s)..])
  }

  /** The number a literal denotes. */
  function LiteralValue(s: string): int
  {
    LiteralSign(s) * ValMsd(LiteralDigits(s), LiteralBase(s))
  }

  lemma ZerosEndSpec(s: string, i: nat)
    requires i <= |s|
    ensures forall j :: i <= j < ZerosEnd(s, i) ==> s[j] == '0'
    ensures ZerosEnd(s, i) < |s| ==> s[ZerosEnd(s, i)] != '0'
    decreases |s| - i
  {
    if i < |s| && s[i] == '0' {
      ZerosEndSpec(s, i + 1);
    }
  }

  /** A run of '0' from i up to m, ended by the end of the string or another character. */
  lemma ZerosEndAt(s: string, i: nat, m: nat)
    requires i <= m <= |s|
    requires forall j :: i <= j < m ==> s[j] == '0'
    requires m == |s| || s[m] != '0'
    ensures ZerosEnd(s, i) == m
    decreases m - i
  {
    if i < m {
      ZerosEndAt(s, i + 1, m);
    }
  }

  /** Every digit of a valid literal lies in [0, base). */
  lemma DigitsWithinBase(s: string)
    requires ValidLiteral(s)
    ensures AllBelow(LiteralDigits(s), LiteralBase(s))
  {
    var p := SignificantStart(s);
    forall i | 0 <= i < |LiteralDigits(s)|
      ensures 0 <= LiteralDigits(s)[i] < LiteralBase(s)
    {
      DigitValuesAt(s[p..], i);
      assert s[p..][i] == s[p + i];
    }
  }

  /** Leading zeros are gone: the digit list is empty or starts with a nonzero digit. */
  lemma NoLeadingZero(s: string)
    requires ValidLiteral(s)
    ensures LiteralDigits(s) == [] || LiteralDigits(s)[0] != 0
  {
    var p := SignificantStart(s);
    ZerosEndSpec(s, BodyStart(s));
    if p < |s| {
      DigitValuesAt(s[p..], 0);
      assert s[p..][0] == s[p];
    }
  }

  /** The decimal rendering of a natural number, most significant digit first, as Java prints it. */
  function ShowNat(n: nat): string
  {
    if n < 10 then [DigitChar(n)] else ShowNat(n / 10) + [DigitChar(n % 10)]
  }

  /** The decimal rendering of an integer: "0" for zero, otherwise an optional '-' and the digits. */
  function Show(v: int): string
  {
    if v < 0 then "-" + ShowNat(-v) else ShowNat(v)
  }

  /** Rendering a trimmed digit array gives the canonical decimal text of its value. */
  lemma {:induction false} RenderIsShow(s: seq<Digit>)
    requires s != [] && Trimmed(s)
    ensures Render(s) == ShowNat(Val(s))
  {
    assert s == [s[0]] + s[1..];
    ValCons(s[0], s[1..]);
    if |s| > 1 {
      RenderIsShow(s[1..]);
      ValLowerBound(s[1..]);
      PowPositive(10, |s| - 2);
    } else {
      assert s[1..] == [];
    }
  }

  /** Rendering from position i on: the rendering from i + 1 on, then the digit at i. */
  lemma RenderStep(prefix: string, s: seq<Digit>, i: nat)
    requires i < |s|
    ensures prefix + Render(s[i..]) == (prefix + Render(s[i + 1..])) + [DigitChar(s[i])]
  {
    assert s[i..][0] == s[i] && s[i..][1..] == s[i + 1..];
  }

  /** A sign for negative numbers before the rendered digits gives the decimal text of the
      signed value. */
  lemma SignedRender(s: seq<Digit>, negative: bool)
    requires s != [] && Trimmed(s)
    ensures (if negative then "-" else "") + Render(s) == Show(if negative then -(Val(s) as int) else Val(s))
  {
    RenderIsShow(s);
    TrimmedPositive(s);
  }

  lemma ShowNatDigits(n: nat)
    ensures |ShowNat(n)| >= 1
    ensures forall i :: 0 <= i < |ShowNat(n)| ==> '0' <= ShowNat(n)[i] <= '9'
    ensures n > 0 ==> ShowNat(n)[0] != '0'
    ensures ValMsd(DigitValues(ShowNat(n)), 10) == n
  {
    ShowNatChars(n);
    ShowNatValue(n);
  }

  /** The rendering is a nonempty run of decimal digit characters with no leading zero. */
  lemma {:induction false} ShowNatChars(n: nat)
    ensures |ShowNat(n)| >= 1
    ensures forall i :: 0 <= i < |ShowNat(n)| ==> '0' <= ShowNat(n)[i] <= '9'
    ensures n > 0 ==> ShowNat(n)[0] != '0'
  {
    if n >= 10 {
      ShowNatChars(n / 10);
      var t := ShowNat(n / 10);
      assert ShowNat(n) == t + [DigitChar(n % 10)];
    }
  }

  /** The character of a digit reads back as that digit. */
  lemma DigitValueOfChar(d: Digit)
    ensures DigitValue(DigitChar(d)) == d
  {
  }

  /** Reading the rendered digits back, most significant first, gives n. */
  lemma {:induction false} ShowNatValue(n: nat)
    ensures ValMsd(DigitValues(ShowNat(n)), 10) == n
  {
    if n >= 10 {
      ShowNatValue(n / 10);
      var t := ShowNat(n / 10);
      var c := DigitChar(n % 10);
      assert ShowNat(n) == t + [c];
      assert (t + [c])[..|t|] == t;
      var ds := DigitValues(t);
      DigitValueOfChar(n % 10);
      assert DigitValues(t + [c]) == DigitValues(t) + [DigitValue(c)];
      assert DigitValues(t + [c]) == ds + [n % 10];
      assert (ds + [n % 10])[..|ds|] == ds;
      assert ValMsd(ds + [n % 10], 10) == ValMsd(ds, 10) * 10 + n % 10;
    }
  }

  /** Reading the rendering of v back as a literal gives v again. */
  lemma ShowRoundTrip(v: int)
    ensures ValidLiteral(Show(v)) && LiteralBase(Show(v)) == 10
    ensures LiteralValue(Show(v)) == v
  {
    var t := ShowNat(Abs(v));
    ShowNatDigits(Abs(v));
    var s := Show(v);
    var k := if v < 0 then 1 else 0;
    assert s[k..] == t;
    assert SignLength(s) == k;
    assert BodyStart(s) == k;
    assert ValidLiteral(s) by {
      forall i | k <= i < |s| ensures 0 <= DigitValue(s[i]) < 10 {
        assert s[i] == t[i - k];
      }
    }
    if v == 0 {
      assert s == "0";
      assert SignificantStart(s) == 1;
      assert LiteralDigits(s) == [];
    } else {
      assert SignificantStart(s) == k;
    }
  }
}
