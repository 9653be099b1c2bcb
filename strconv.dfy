/**
 * Go's strconv.Atoi on a 64-bit platform, the parser the converter applies to
 * the internal id field (main.go:197). It accepts an optional '+' or '-'
 * followed by at least one decimal digit; digits are consumed left to right,
 * and a magnitude that no longer fits 64 bits is a range error.
 */
module Strconv {
  import opened Wrappers
  import opened Schema

  const MaxUint64: nat := 0xFFFF_FFFF_FFFF_FFFF
  const MaxInt64: nat := 0x7FFF_FFFF_FFFF_FFFF

  /** The two ways strconv reports a bad number. */
  datatype NumError = InvalidSyntax | OutOfRange

  function Pow10(n: nat): (p: nat)
    ensures p >= 1
  {
    if n == 0 then 1 else 10 * Pow10(n - 1)
  }

  function DigitValue(c: char): (d: nat)
    requires IsDigit(c)
    ensures d <= 9
  {
    c as int - '0' as int
  }

  /** The value of a string of decimal digits, most significant first. */
  function DecimalValue(s: string): (v: nat)
    requires AllDigits(s)
    ensures v < Pow10(|s|)
  {
    if |s| == 0 then 0
    else
      var rest := DecimalValue(s[1..]);
      DigitLead(DigitValue(s[0]), rest, Pow10(|s| - 1));
      DigitValue(s[0]) * Pow10(|s| - 1) + rest
  }

  /** A leading digit d in front of a tail below p stays below 10 * p. */
  lemma DigitLead(d: nat, rest: nat, p: nat)
    requires d <= 9 && rest < p
    ensures d * p + rest < 10 * p
  {
    assert d * p <= 9 * p;
  }

  /**
   * The digit loop of strconv's unsigned parser: `acc` is the value read so
   * far. A non-digit stops with a syntax error; a value above 2^64 - 1 stops
   * with a range error at the digit that caused it.
   */
  function ScanDigits(s: string, acc: nat): Result<nat, NumError>
  {
    if |s| == 0 then Success(acc)
    else if !IsDigit(s[0]) then Failure(InvalidSyntax)
    else
      var n := acc * 10 + DigitValue(s[0]);
      if n > MaxUint64 then Failure(OutOfRange) else ScanDigits(s[1..], n)
  }

  /** The sign character, if there is one, removed. */
  function Unsigned(s: string): (d: string)
    ensures |d| <= |s|
  {
    if |s| > 0 && (s[0] == '+' || s[0] == '-') then s[1..] else s
  }

  /** strconv.Atoi. */
  function Atoi(s: string): Result<int, NumError>
  {
    var digits := Unsigned(s);
    var negative := |s| > 0 && s[0] == '-';
    if |digits| == 0 then Failure(InvalidSyntax)
    else
      match ScanDigits(digits, 0)
      case Failure(e) => Failure(e)
      case Success(u) =>
        if !negative && u > MaxInt64 then Failure(OutOfRange)
        else if negative && u > MaxInt64 + 1 then Failure(OutOfRange)
        else Success(if negative then -(u as int) else u)
  }

  /** The syntax Atoi accepts: an optional sign, then one or more digits. */
  predicate IsSignedDecimal(s: string) {
    |Unsigned(s)| > 0 && AllDigits(Unsigned(s))
  }

  /** The value of a string with that syntax. */
  function SignedValue(s: string): int
    requires IsSignedDecimal(s)
  {
    if s[0] == '-' then -(DecimalValue(Unsigned(s)) as int) else DecimalValue(Unsigned(s))
  }

  lemma MulMonotone(a: nat, b: nat, p: nat)
    requires a <= b
    ensures a * p <= b * p
  {
  }

  /** Scanning digits whose final value fits 64 bits yields that value. */
  lemma {:induction false} ScanDigitsValue(s: string, acc: nat)
    requires AllDigits(s)
    requires acc * Pow10(|s|) + DecimalValue(s) <= MaxUint64
    ensures ScanDigits(s, acc) == Success(acc * Pow10(|s|) + DecimalValue(s))
  {
    if |s| > 0 {
      var tail := s[1..];
      var p := Pow10(|tail|);
      var d := DigitValue(s[0]);
      var rest := DecimalValue(tail);
      var n := acc * 10 + d;
      assert Pow10(|s|) == 10 * p;
      assert DecimalValue(s) == d * p + rest;
      ShiftDigit(acc, d, p, rest);
      assert acc * Pow10(|s|) + DecimalValue(s) == n * p + rest;
      MulMonotone(1, p, n);
      assert n <= MaxUint64;
      assert ScanDigits(s, acc) == ScanDigits(tail, n);
      ScanDigitsValue(tail, n);
    }
  }

  /** Moving one digit from the tail into the accumulator keeps the total. */
  lemma ShiftDigit(acc: nat, d: nat, p: nat, rest: nat)
    ensures acc * (10 * p) + (d * p + rest) == (acc * 10 + d) * p + rest
  {
    calc {
      (acc * 10 + d) * p + rest;
      (acc * 10) * p + d * p + rest;
      { assert (acc * 10) * p == acc * (10 * p); }
      acc * (10 * p) + (d * p + rest);
    }
  }

  /**
   * A string with a non-digit is a syntax error, provided no prefix of it
   * can overflow first.
   */
  lemma {:induction false} ScanDigitsSyntax(s: string, acc: nat)
    requires !AllDigits(s)
    requires (acc + 1) * Pow10(|s|) <= MaxUint64 + 1
    ensures ScanDigits(s, acc) == Failure(InvalidSyntax)
  {
    if IsDigit(s[0]) {
      var k := |s| - 1;
      var p := Pow10(k);
      var n := acc * 10 + DigitValue(s[0]);
      assert !AllDigits(s[1..]) by {
        var i :| 0 <= i < |s| && !IsDigit(s[i]);
        assert i > 0 && s[1..][i - 1] == s[i];
      }
      assert (acc + 1) * Pow10(|s|) == ((acc + 1) * 10) * p;
      MulMonotone(n + 1, (acc + 1) * 10, p);
      MulMonotone(1, p, n + 1);
      assert n <= MaxUint64;
      ScanDigitsSyntax(s[1..], n);
    }
  }

  lemma Pow10Monotone(a: nat, b: nat)
    requires a <= b
    ensures Pow10(a) <= Pow10(b)
    decreases b
  {
    if a < b {
      Pow10Monotone(a, b - 1);
    }
  }

  lemma Pow10Eighteen()
    ensures Pow10(18) <= MaxInt64
  {
    assert Pow10(4) == 10000;
    assert Pow10(8) == 100000000;
    assert Pow10(12) == 1000000000000;
    assert Pow10(16) == 10000000000000000;
  }

  /**
   * On strings shorter than 19 bytes (so no overflow is possible) Atoi
   * succeeds exactly on an optional sign followed by digits, with the value
   * those digits denote, and otherwise reports a syntax error.
   */
  lemma AtoiShort(s: string)
    requires |s| <= 18
    ensures Atoi(s).Success? <==> IsSignedDecimal(s)
    ensures Atoi(s).Success? ==> Atoi(s).value == SignedValue(s)
    ensures Atoi(s).Failure? ==> Atoi(s).error == InvalidSyntax
  {
    var d := Unsigned(s);
    if |d| > 0 {
      if AllDigits(d) {
        ShortDigitsScan(d);
      } else {
        ShortNonDigitsScan(d);
      }
    }
  }

  /** Up to 18 digits scan to their value. */
  lemma ShortDigitsScan(d: string)
    requires 0 < |d| <= 18 && AllDigits(d)
    ensures ScanDigits(d, 0) == Success(DecimalValue(d)) && DecimalValue(d) <= MaxInt64
  {
    Pow10Monotone(|d|, 18);
    Pow10Eighteen();
    var u := DecimalValue(d);
    assert u < Pow10(18);
    assert 0 * Pow10(|d|) + u == u;
    ScanDigitsValue(d, 0);
  }

  /** Up to 18 bytes with a non-digit among them are a syntax error. */
  lemma ShortNonDigitsScan(d: string)
    requires 0 < |d| <= 18 && !AllDigits(d)
    ensures ScanDigits(d, 0) == Failure(InvalidSyntax)
  {
    Pow10Monotone(|d|, 18);
    Pow10Eighteen();
    assert (0 + 1) * Pow10(|d|) == Pow10(|d|);
    ScanDigitsSyntax(d, 0);
  }

  /**
   * An 8-byte field that Atoi accepts denotes a number between -9999999
   * (sign and seven digits) and 99999999 (eight digits).
   */
  lemma EightByteRange(s: string)
    requires |s| == IdWidth && Atoi(s).Success?
    ensures -9999999 <= Atoi(s).value <= 99999999
  {
    AtoiShort(s);
    var d := Unsigned(s);
    assert Pow10(7) == 10000000 && Pow10(8) == 100000000;
    assert DecimalValue(d) < Pow10(|d|);
  }

  /** The id examples: plain digits, and fields that are not numbers. */
  lemma AtoiExamples()
    ensures Atoi("12345678") == Success(12345678)
    ensures Atoi("12ab5678") == Failure(InvalidSyntax)
    ensures Atoi("") == Failure(InvalidSyntax)
    ensures Atoi("-") == Failure(InvalidSyntax)
  {
    AtoiShort("12ab5678");
    assert !IsDigit("12ab5678"[2]);
    AtoiShort("12345678");
    assert Unsigned("12345678") == "12345678";
    EightDigitLiteral();
  }

  /** The signed id examples: a '+' is accepted, a '-' gives a negative value. */
  lemma AtoiSignedExamples()
    ensures Atoi("+1234567") == Success(1234567)
    ensures Atoi("-1234567") == Success(-1234567)
    ensures Atoi("-0000001") == Success(-1)
  {
    AtoiShort("+1234567");
    assert Unsigned("+1234567") == "1234567";
    AtoiShort("-1234567");
    assert Unsigned("-1234567") == "1234567";
    SevenDigitLiteral();
    AtoiShort("-0000001");
    assert Unsigned("-0000001") == "0000001";
    UnitLiteral();
  }

  /** A string of zeros, of any length, denotes 0. */
  lemma {:induction false} ZerosValue(s: string)
    requires forall i :: 0 <= i < |s| ==> s[i] == '0'
    ensures AllDigits(s) && DecimalValue(s) == 0
  {
    if |s| > 0 {
      ZerosValue(s[1..]);
      DecimalCons(s[0], s[1..], 0);
      assert [s[0]] + s[1..] == s;
    }
  }

  /** A minus sign on zeros still parses, to 0, which is not negative. */
  lemma NegativeZeroExample()
    ensures Atoi("-0000000") == Success(0)
  {
    AtoiShort("-0000000");
    assert Unsigned("-0000000") == "0000000";
    ZerosValue("0000000");
  }

  /** One step of DecimalValue on a digit in front of a string. */
  lemma DecimalCons(c: char, t: string, v: nat)
    requires IsDigit(c) && AllDigits(t) && DecimalValue(t) == v
    ensures AllDigits([c] + t) && DecimalValue([c] + t) == DigitValue(c) * Pow10(|t|) + v
  {
    assert ([c] + t)[1..] == t;
  }

  lemma SevenDigitLiteral()
    ensures AllDigits("1234567") && DecimalValue("1234567") == 1234567
  {
    FourDigitLiteral();
    DecimalCons('3', "4567", 4567);
    DecimalCons('2', "34567", 34567);
    DecimalCons('1', "234567", 234567);
  }

  lemma FourDigitLiteral()
    ensures AllDigits("4567") && DecimalValue("4567") == 4567
  {
    DecimalCons('7', "", 0);
    DecimalCons('6', "7", 7);
    DecimalCons('5', "67", 67);
    DecimalCons('4', "567", 567);
  }

  lemma EightDigitLiteral()
    ensures AllDigits("12345678") && DecimalValue("12345678") == 12345678
  {
    SevenDigitTail();
    assert Pow10(7) == 10000000;
    DecimalCons('1', "2345678", 2345678);
  }

  lemma SevenDigitTail()
    ensures AllDigits("2345678") && DecimalValue("2345678") == 2345678
  {
    FourDigitTail();
    DecimalCons('4', "5678", 5678);
    DecimalCons('3', "45678", 45678);
    DecimalCons('2', "345678", 345678);
  }

  lemma FourDigitTail()
    ensures AllDigits("5678") && DecimalValue("5678") == 5678
  {
    DecimalCons('8', "", 0);
    DecimalCons('7', "8", 8);
    DecimalCons('6', "78", 78);
    DecimalCons('5', "678", 678);
  }

  lemma UnitLiteral()
    ensures AllDigits("0000001") && DecimalValue("0000001") == 1
  {
    FourDigitUnit();
    DecimalCons('0', "0001", 1);
    DecimalCons('0', "00001", 1);
    DecimalCons('0', "000001", 1);
  }

  lemma FourDigitUnit()
    ensures AllDigits("0001") && DecimalValue("0001") == 1
  {
    DecimalCons('1', "", 0);
    DecimalCons('0', "1", 1);
    DecimalCons('0', "01", 1);
    DecimalCons('0', "001", 1);
  }
}
