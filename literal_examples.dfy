/** The literals of the unit tests, read through the literal grammar: which strings are refused,
    and what the accepted ones denote. */
module LiteralExamples {
  import opened Arith
  import opened Digits
  import opened Literals

  /** A character of the body that is not a digit of the base rules the string out. */
  lemma NotADigit(s: string, i: nat)
    requires BodyStart(s) <= i < |s| && !(0 <= DigitValue(s[i]) < LiteralBase(s))
    ensures !ValidLiteral(s)
  {
  }

  /** Strings with no body after the sign and the base prefix are syntax errors. */
  lemma NoBody()
    ensures !ValidLiteral("") && !ValidLiteral("+") && !ValidLiteral("-")
    ensures !ValidLiteral("0x") && !ValidLiteral("0X") && !ValidLiteral("0b") && !ValidLiteral("0B")
  {
  }

  /** Strings with a character outside the base are syntax errors. */
  lemma BadDigit()
    ensures !ValidLiteral("0-") && !ValidLiteral("F") && !ValidLiteral("0f") && !ValidLiteral("xf")
  {
    NotADigit("0-", 1);
    NotADigit("F", 0);
    NotADigit("0f", 1);
    NotADigit("xf", 0);
  }

  /** A second prefix letter is a syntax error too. */
  lemma DoublePrefix()
    ensures !ValidLiteral("0xxf")
  {
    NotADigit("0xxf", 2);
  }

  /** A body of zeros up to p, then digits of the base: the literal of those digits. */
  lemma ReadLiteral(s: string, p: nat, ds: seq<int>)
    requires BodyStart(s) < |s| && BodyStart(s) <= p <= |s|
    requires forall j :: BodyStart(s) <= j < p ==> s[j] == '0'
    requires p == |s| || s[p] != '0'
    requires DigitValues(s[p..]) == ds && AllBelow(ds, LiteralBase(s))
    ensures ValidLiteral(s)
    ensures LiteralValue(s) == LiteralSign(s) * ValMsd(ds, LiteralBase(s))
  {
    ZerosEndAt(s, BodyStart(s), p);
    forall i | BodyStart(s) <= i < |s|
      ensures 0 <= DigitValue(s[i]) < LiteralBase(s)
    {
      if i >= p {
        DigitValuesAt(s[p..], i - p);
        assert s[p..][i - p] == s[i];
      }
    }
  }

  /** A body of zeros alone, under any sign, denotes zero. */
  lemma ZeroBody(s: string)
    requires SignLength(s) < |s|
    requires forall j :: SignLength(s) <= j < |s| ==> s[j] == '0'
    ensures ValidLiteral(s) && LiteralValue(s) == 0
  {
    assert LiteralBase(s) == 10;
    assert s[|s|..] == [];
    ReadLiteral(s, |s|, []);
  }

  lemma Zeros()
    ensures ValidLiteral("0") && LiteralValue("0") == 0
    ensures ValidLiteral("0000") && LiteralValue("0000") == 0
    ensures ValidLiteral("+0") && LiteralValue("+0") == 0
    ensures ValidLiteral("-0") && LiteralValue("-0") == 0
  {
    ZeroBody("0");
    ZeroBody("0000");
    ZeroBody("+0");
    ZeroBody("-0");
  }

  /** Two digits, most significant first. */
  lemma TwoDigits(t: string)
    requires |t| == 2
    ensures DigitValues(t) == [DigitValue(t[0]), DigitValue(t[1])]
  {
    assert t[..1][..0] == [];
  }

  /** Where the parts of "0099" lie. */
  lemma DecimalParts()
    ensures LiteralBase("0099") == 10 && BodyStart("0099") == 0 && LiteralSign("0099") == 1
    ensures "0099"[2..] == "99" && "0099"[0] == '0' && "0099"[1] == '0' && "0099"[2] != '0'
  {
  }

  lemma DecimalDigits()
    ensures DigitValues("99") == [9, 9] && ValMsd([9, 9], 10) == 99
  {
    TwoDigits("99");
    assert [9, 9][..1] == [9];
  }

  lemma Decimal()
    ensures ValidLiteral("0099") && LiteralValue("0099") == 99
  {
    DecimalParts();
    DecimalDigits();
    ReadLiteral("0099", 2, [9, 9]);
  }

  lemma HexadecimalZerosParts()
    ensures LiteralBase("0x00FF") == 16 && BodyStart("0x00FF") == 2 && LiteralSign("0x00FF") == 1
    ensures "0x00FF"[4..] == "FF" && "0x00FF"[2] == '0' && "0x00FF"[3] == '0' && "0x00FF"[4] != '0'
  {
  }

  lemma HexadecimalZerosDigits()
    ensures DigitValues("FF") == [15, 15] && ValMsd([15, 15], 16) == 255
  {
    TwoDigits("FF");
    assert [15, 15][..1] == [15];
  }

  /** Hexadecimal digits after leading zeros. */
  lemma HexadecimalZeros()
    ensures ValidLiteral("0x00FF") && LiteralValue("0x00FF") == 255
  {
    HexadecimalZerosParts();
    HexadecimalZerosDigits();
    ReadLiteral("0x00FF", 4, [15, 15]);
  }

  lemma HexadecimalCaseParts()
    ensures LiteralBase("0XFf") == 16 && BodyStart("0XFf") == 2 && LiteralSign("0XFf") == 1
    ensures "0XFf"[2..] == "Ff" && "0XFf"[2] != '0'
  {
  }

  lemma HexadecimalCaseDigits()
    ensures DigitValues("Ff") == [15, 15] && ValMsd([15, 15], 16) == 255
  {
    TwoDigits("Ff");
    assert [15, 15][..1] == [15];
  }

  /** Hexadecimal digits and prefix in either case. */
  lemma HexadecimalCase()
    ensures ValidLiteral("0XFf") && LiteralValue("0XFf") == 255
  {
    HexadecimalCaseParts();
    HexadecimalCaseDigits();
    ReadLiteral("0XFf", 2, [15, 15]);
  }

  lemma NegativeHexadecimalParts()
    ensures LiteralBase("-0x10") == 16 && BodyStart("-0x10") == 3 && LiteralSign("-0x10") == -1
    ensures "-0x10"[3..] == "10" && "-0x10"[3] != '0'
  {
  }

  lemma NegativeHexadecimalDigits()
    ensures DigitValues("10") == [1, 0] && ValMsd([1, 0], 16) == 16
  {
    TwoDigits("10");
    assert [1, 0][..1] == [1];
  }

  lemma NegativeHexadecimal()
    ensures ValidLiteral("-0x10") && LiteralValue("-0x10") == -16
  {
    NegativeHexadecimalParts();
    NegativeHexadecimalDigits();
    ReadLiteral("-0x10", 3, [1, 0]);
  }

  lemma BinaryParts()
    ensures LiteralBase("0b0000101010") == 2 && BodyStart("0b0000101010") == 2
    ensures LiteralSign("0b0000101010") == 1 && "0b0000101010"[6..] == "101010"
    ensures forall j :: 2 <= j < 6 ==> "0b0000101010"[j] == '0'
    ensures "0b0000101010"[6] != '0'
  {
  }

  lemma BinaryDigits()
    ensures DigitValues("101010") == [1, 0, 1, 0, 1, 0]
  {
    var t := "101010";
    assert t[..2] == "10" && t[..3][..2] == "10" && t[..4][..3] == t[..3];
    assert t[..5][..4] == t[..4] && t[..5] == t[..6][..5] && t[..6] == t;
    TwoDigits("10");
    assert DigitValues(t[..3]) == [1, 0, 1];
    assert DigitValues(t[..4]) == [1, 0, 1, 0];
    assert DigitValues(t[..5]) == [1, 0, 1, 0, 1];
  }

  lemma BinaryValue()
    ensures ValMsd([1, 0, 1, 0, 1, 0], 2) == 42
  {
    assert [1, 0][..1] == [1];
    assert [1, 0, 1][..2] == [1, 0];
    assert [1, 0, 1, 0][..3] == [1, 0, 1];
    assert [1, 0, 1, 0, 1][..4] == [1, 0, 1, 0];
    assert [1, 0, 1, 0, 1, 0][..5] == [1, 0, 1, 0, 1];
    assert ValMsd([1], 2) == 1;
    assert ValMsd([1, 0], 2) == 2;
    assert ValMsd([1, 0, 1], 2) == 5;
    assert ValMsd([1, 0, 1, 0], 2) == 10;
    assert ValMsd([1, 0, 1, 0, 1], 2) == 21;
  }

  /** Binary digits after leading zeros. */
  lemma Binary()
    ensures ValidLiteral("0b0000101010") && LiteralValue("0b0000101010") == 42
  {
    BinaryParts();
    BinaryDigits();
    BinaryValue();
    ReadLiteral("0b0000101010", 6, [1, 0, 1, 0, 1, 0]);
  }
}
