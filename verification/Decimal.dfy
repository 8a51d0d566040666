/** Integers as decimal text: how they are printed and how the standard parsers read them. */
module Decimal {
  import opened Bytes

  const PLUS: byte := 43
  const MINUS: byte := 45

  const I64_MIN: int := -0x8000_0000_0000_0000
  const I64_MAX: int := 0x7fff_ffff_ffff_ffff
  const U64_MAX: int := 0xffff_ffff_ffff_ffff

  predicate IsDigit(b: byte) {
    48 <= b <= 57
  }

  /** The decimal digits of a natural number, without leading zeros. */
  function Digits(n: nat): (s: bytes)
    ensures s != [] && forall i :: 0 <= i < |s| ==> IsDigit(s[i])
    decreases n
  {
    if n < 10 then [(48 + n) as byte]
    else Digits(n / 10) + [(48 + n % 10) as byte]
  }

  function Show(n: int): (s: bytes)
    ensures s != [] && forall i :: 0 <= i < |s| ==> IsDigit(s[i]) || s[i] == MINUS
  {
    if n < 0 then [MINUS] + Digits(-n) else Digits(n)
  }

  /** The number that a non-empty string of digits stands for. */
  function ValueOf(s: bytes): Option<nat> {
    if s == [] then None
    else
      var last := s[|s| - 1];
      if !IsDigit(last) then None
      else
        var d := last as int - 48;
        if |s| == 1 then Some(d)
        else match ValueOf(s[..|s| - 1])
          case None => None
          case Some(v) => Some(10 * v + d)
  }

  /** Signed 64-bit numbers: an optional sign, then digits, within range. */
  function ParseI64(s: bytes): (r: Option<int>)
    ensures r.Some? ==> I64_MIN <= r.value <= I64_MAX
  {
    if s == [] then None
    else
      var signed := s[0] == PLUS || s[0] == MINUS;
      match ValueOf(if signed then s[1..] else s)
      case None => None
      case Some(v) =>
        var n := if s[0] == MINUS then 0 - v else v as int;
        if I64_MIN <= n <= I64_MAX then Some(n) else None
  }

  /** Unsigned 64-bit numbers: an optional plus, then digits, within range. */
  function ParseU64(s: bytes): (r: Option<nat>)
    ensures r.Some? ==> r.value <= U64_MAX
  {
    if s == [] then None
    else
      match ValueOf(if s[0] == PLUS then s[1..] else s)
      case None => None
      case Some(v) => if v <= U64_MAX then Some(v) else None
  }

  lemma {:induction false} ValueOfDigits(n: nat)
    ensures ValueOf(Digits(n)) == Some(n)
    decreases n
  {
    if n >= 10 {
      ValueOfDigits(n / 10);
      var s := Digits(n);
      assert s[..|s| - 1] == Digits(n / 10);
    }
  }

  lemma ParseShownI64(n: int)
    requires I64_MIN <= n <= I64_MAX
    ensures ParseI64(Show(n)) == Some(n)
  {
    ValueOfDigits(if n < 0 then -n else n);
    if n < 0 {
      assert Show(n)[1..] == Digits(-n);
    }
  }

  lemma ParseShownU64(n: nat)
    requires n <= U64_MAX
    ensures ParseU64(Digits(n)) == Some(n)
  {
    ValueOfDigits(n);
  }

  /** Decimal text: the last digit is the remainder by ten, what is before it is the text of the quotient,
      and there is no leading zero. */
  lemma {:induction false} DecimalText(n: nat)
    ensures n < 10 ==> Digits(n) == [(48 + n) as byte]
    ensures n >= 10 ==> Digits(n) == Digits(n / 10) + [(48 + n % 10) as byte]
    ensures n > 0 ==> Digits(n)[0] != 48
    ensures n > 0 ==> Show(0 - n) == [45] + Digits(n) && Show(n) == Digits(n)
    decreases n
  {
    if n >= 10 {
      DecimalText(n / 10);
    }
  }

  /** A leading plus sign is read over, and text that is not a number or too large is refused. */
  lemma PlusAndRange(n: nat)
    ensures ParseI64([43] + Digits(n)) == if n <= 9223372036854775807 then Some(n as int) else None
    ensures ParseU64([43] + Digits(n)) == if n <= 18446744073709551615 then Some(n) else None
    ensures ParseI64([45] + Digits(n)) == if n <= 9223372036854775808 then Some(0 - n) else None
    ensures ParseI64([]) == None && ParseI64([43]) == None && ParseI64([45]) == None
  {
    ValueOfDigits(n);
    var s := Digits(n);
    assert ([43] + s)[1..] == s && ([45] + s)[1..] == s;
    assert [43][1..] == [] && [45][1..] == [];
  }

  /** Text is a number if and only if it is not empty and all digits. */
  lemma {:induction false} NumberIff(s: bytes)
    ensures ValueOf(s).Some? <==> s != [] && forall i :: 0 <= i < |s| ==> 48 <= s[i] <= 57
    decreases |s|
  {
    if |s| > 1 {
      var t := s[..|s| - 1];
      NumberIff(t);
      assert s == t + [s[|s| - 1]];
    }
  }

  /** Leading zeros change nothing. */
  lemma {:induction false} LeadingZero(s: bytes)
    requires ValueOf(s).Some?
    ensures ValueOf([48] + s) == ValueOf(s)
    decreases |s|
  {
    var z := [48] + s;
    if |s| > 1 {
      LeadingZero(s[..|s| - 1]);
      assert z[..|z| - 1] == [48] + s[..|s| - 1];
    } else {
      assert z[..1] == [48];
    }
  }
}
