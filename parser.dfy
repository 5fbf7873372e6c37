/** The literal lexer: a finite-state machine over the characters of a string that yields a
    sign, a base and the digits of the literal, most significant first. */
module Parser {
  import opened Literals

  datatype ParsingState = Start | Sign | Zero | Base | Zeros | Digits

  /** The order in which the machine may visit its states; it never goes back. */
  function Rank(st: ParsingState): nat
  {
    match st
    case Start => 0
    case Sign => 1
    case Zero => 2
    case Base => 3
    case Zeros => 4
    case Digits => 5
  }

  class DecimalIntParser {
    var str: string
    var digits: seq<int>
    var sign: int
    var base: int
    var index: nat
    var state: ParsingState

    /** What the machine knows in each state about the part of the string read so far. */
    ghost predicate Consistent()
      reads this
    {
      index <= |str| &&
      match state
      case Start =>
        index == 0 && sign == 1 && base == 10 && digits == []
      case Sign =>
        index == 1 && SignLength(str) == 1 && sign == LiteralSign(str) && base == 10 && digits == []
      case Zero =>
        index == SignLength(str) + 1 && str[index - 1] == '0' &&
        sign == LiteralSign(str) && base == 10 && digits == []
      case Base =>
        index == SignLength(str) + 2 && LiteralBase(str) != 10 && BodyStart(str) == index &&
        sign == LiteralSign(str) && base == LiteralBase(str) && digits == []
      case Zeros =>
        BodyStart(str) <= index && BodyStart(str) < |str| &&
        (forall j :: BodyStart(str) <= j < index ==> str[j] == '0') &&
        sign == LiteralSign(str) && base == LiteralBase(str) && digits == []
      case Digits =>
        InDigits(str, index, sign, base, digits)
    }

    /** Characters still to read plus states still to visit: every step lowers it. */
    ghost function Measure(): nat
      reads this
      requires index <= |str|
    {
      (|str| - index) + (5 - Rank(state))
    }

    /** Stores the string; parsing it is a separate call, because a constructor cannot fail. */
    constructor (s: string)
      ensures str == s && index == 0 && state == Start
      ensures digits == [] && sign == 1 && base == 10
    {
      str := s;
      digits := [];
      sign := 1;
      base := 10;
      index := 0;
      state := Start;
    }

    /** Parses a new string; nothing from an earlier parse survives. */
    method ParseString(s: string) returns (ok: bool)
      modifies this
      ensures str == s
      ensures ok == ValidLiteral(s)
      ensures ok ==> sign == LiteralSign(s) && base == LiteralBase(s) && digits == LiteralDigits(s)
      ensures ok ==> state == Zero || state == Zeros || state == Digits
    {
      str := s;
      ok := Parse();
    }

    /** Runs the machine over the stored string; false where the lexer throws a syntax error. */
    method Parse() returns (ok: bool)
      modifies this
      ensures str == old(str)
      ensures ok == ValidLiteral(str)
      ensures ok ==> sign == LiteralSign(str) && base == LiteralBase(str) && digits == LiteralDigits(str)
      ensures ok ==> state == Zero || state == Zeros || state == Digits
    {
      index := 0;
      state := Start;
      digits := [];
      sign := 1;
      base := 10;

      while index < |str|
        invariant Consistent() && str == old(str)
        decreases Measure()
      {
        match state
        case Start => StateStart();
        case Sign => StateSign();
        case Zero => StateZero();
        case Base => StateBase();
        case Zeros => StateZeros();
        case Digits =>
          var valid := StateDigits();
          if !valid {
            return false;
          }
      }

      ok := Accept();
    }

    /** The check after the last character: only the states that have seen a digit accept. */
    method Accept() returns (ok: bool)
      requires Consistent() && index == |str|
      ensures ok == ValidLiteral(str)
      ensures ok ==> sign == LiteralSign(str) && base == LiteralBase(str) && digits == LiteralDigits(str)
      ensures ok ==> state == Zero || state == Zeros || state == Digits
    {
      match state
      case Zero =>
        ZerosEndAt(str, BodyStart(str), |str|);
        assert str[|str|..] == [];
        ok := true;
      case Zeros =>
        ZerosEndAt(str, BodyStart(str), |str|);
        assert str[|str|..] == [];
        ok := true;
      case Digits =>
        assert str[SignificantStart(str)..index] == str[SignificantStart(str)..];
        ok := true;
      case Start =>
        ok := false;
      case Sign =>
        ok := false;
      case Base =>
        ok := false;
    }

    method StateStart()
      requires Consistent() && state == Start && index < |str|
      modifies this
      ensures Consistent() && str == old(str) && Measure() < old(Measure())
    {
      var c := str[index];
      match c
      case '+' =>
        sign := 1;
        state := Sign;
        index := index + 1;
      case '-' =>
        sign := -1;
        state := Sign;
        index := index + 1;
      case '0' =>
        state := Zero;
        index := index + 1;
      case _ =>
        ZerosEndAt(str, 0, 0);
        state := Digits;
    }

    method StateSign()
      requires Consistent() && state == Sign && index < |str|
      modifies this
      ensures Consistent() && str == old(str) && Measure() < old(Measure())
    {
      var c := str[index];
      match c
      case '0' =>
        state := Zero;
        index := index + 1;
      case _ =>
        ZerosEndAt(str, 1, 1);
        state := Digits;
    }

    method StateZero()
      requires Consistent() && state == Zero && index < |str|
      modifies this
      ensures Consistent() && str == old(str) && Measure() < old(Measure())
    {
      var c := str[index];
      match c
      case 'b' =>
        base := 2;
        state := Base;
        index := index + 1;
      case 'B' =>
        base := 2;
        state := Base;
        index := index + 1;
      case 'x' =>
        base := 16;
        state := Base;
        index := index + 1;
      case 'X' =>
        base := 16;
        state := Base;
        index := index + 1;
      case '0' =>
        state := Zeros;
      case _ =>
        ZerosEndAt(str, index - 1, index);
        state := Digits;
    }

    method StateBase()
      requires Consistent() && state == Base && index < |str|
      modifies this
      ensures Consistent() && str == old(str) && Measure() < old(Measure())
    {
      state := Zeros;
    }

    method StateZeros()
      requires Consistent() && state == Zeros && index < |str|
      modifies this
      ensures Consistent() && str == old(str) && Measure() < old(Measure())
    {
      var c := str[index];
      match c
      case '0' =>
        index := index + 1;
      case _ =>
        ZerosEndAt(str, BodyStart(str), index);
        state := Digits;
    }

    /** Reads one digit; false, leaving the rest unread, if it is not a digit of the base. */
    method StateDigits() returns (ok: bool)
      requires Consistent() && state == Digits && index < |str|
      modifies this
      ensures str == old(str)
      ensures ok ==> Consistent() && Measure() < old(Measure())
      ensures !ok ==> !ValidLiteral(str)
    {
      var c := str[index];
      var b := DigitValue(c);
      if b < 0 || b >= base {
        DigitRejected(str, index, sign, base, digits);
        return false;
      }
      DigitAccepted(str, index, sign, base, digits);
      index := index + 1;
      digits := digits + [b];
      ok := true;
    }
  }

  /** In the digits state: every character of the body read so far is a digit of the base,
      and the digit list holds the significant ones. */
  ghost predicate InDigits(str: string, index: nat, sign: int, base: int, digits: seq<int>)
  {
    index <= |str| &&
    BodyStart(str) <= SignificantStart(str) <= index && SignificantStart(str) < |str| &&
    (forall j :: BodyStart(str) <= j < index ==> 0 <= DigitValue(str[j]) < base) &&
    sign == LiteralSign(str) && base == LiteralBase(str) &&
    digits == DigitValues(str[SignificantStart(str)..index])
  }

  /** A digit of the base extends the digit list by its value. */
  lemma DigitAccepted(str: string, index: nat, sign: int, base: int, digits: seq<int>)
    requires InDigits(str, index, sign, base, digits) && index < |str|
    requires 0 <= DigitValue(str[index]) < base
    ensures InDigits(str, index + 1, sign, base, digits + [DigitValue(str[index])])
  {
    var p := SignificantStart(str);
    assert str[p..index + 1][..index - p] == str[p..index];
  }

  /** Any other character in the body makes the string no literal. */
  lemma DigitRejected(str: string, index: nat, sign: int, base: int, digits: seq<int>)
    requires InDigits(str, index, sign, base, digits) && index < |str|
    requires !(0 <= DigitValue(str[index]) < base)
    ensures !ValidLiteral(str)
  {
  }
}
