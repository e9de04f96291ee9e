/**
 * Go's decimal integer formatting (`%d`, strconv.Itoa) and parsing
 * (strconv.Atoi) on the 64-bit `int` of the platforms the relay runs on.
 * Redis stores every set member and hash field as a string, so user ids
 * cross this boundary whenever an `int` member is written or read back.
 */
module Strconv {
  import opened Common

  const MinInt: int := -0x8000_0000_0000_0000
  const MaxInt: int := 0x7FFF_FFFF_FFFF_FFFF

  /** Go's `int` on a 64-bit platform. */
  type GoInt = x: int | MinInt <= x <= MaxInt

  predicate IsDigit(c: char) {
    '0' <= c <= '9'
  }

  predicate AllDigits(s: string) {
    forall i :: 0 <= i < |s| ==> IsDigit(s[i])
  }

  function DigitChar(d: int): (c: char)
    requires 0 <= d < 10
    ensures IsDigit(c) && c as int - '0' as int == d
  {
    (d + '0' as int) as char
  }

  /** Decimal digits of a natural number, most significant first, no leading zero. */
  function Digits(n: nat): (s: string)
    ensures |s| >= 1 && AllDigits(s)
    ensures |s| > 1 ==> s[0] != '0'
    decreases n
  {
    if n < 10 then [DigitChar(n)] else Digits(n / 10) + [DigitChar(n % 10)]
  }

  /** The value of a string of decimal digits. */
  function DigitsValue(s: string): nat
    requires AllDigits(s)
    decreases |s|
  {
    if s == [] then 0 else DigitsValue(s[..|s| - 1]) * 10 + (s[|s| - 1] as int - '0' as int)
  }

  /** `%d` / strconv.Itoa: a minus sign for negatives, then the digits. */
  function Itoa(n: int): string {
    if n < 0 then "-" + Digits(-n) else Digits(n)
  }

  /**
   * strconv.Atoi: an optional `+` or `-`, then at least one decimal digit and
   * nothing else; a value outside Go's `int` is a range error.
   */
  function Atoi(s: string): (r: Option<int>)
    ensures r.Some? ==> MinInt <= r.value <= MaxInt
  {
    var signed := |s| > 0 && (s[0] == '+' || s[0] == '-');
    var body := if signed then s[1..] else s;
    if body == [] || !AllDigits(body) then None
    else
      var v: int := if signed && s[0] == '-' then 0 - DigitsValue(body) as int else DigitsValue(body);
      if MinInt <= v <= MaxInt then Some(v) else None
  }

  lemma {:induction false} DigitsValueOfDigits(n: nat)
    ensures DigitsValue(Digits(n)) == n
    decreases n
  {
    if n >= 10 {
      DigitsValueOfDigits(n / 10);
      var s := Digits(n);
      assert s[..|s| - 1] == Digits(n / 10);
    }
  }

  /** Parsing what `%d` printed gives the number back, for every Go `int`. */
  lemma AtoiItoa(n: GoInt)
    ensures Atoi(Itoa(n)) == Some(n)
  {
    var mag: int := if n < 0 then -(n as int) else n;
    DigitsValueOfDigits(mag);
    if n < 0 {
      assert Itoa(n)[1..] == Digits(mag);
    }
  }

  /** Distinct Go `int`s print as distinct strings. */
  lemma ItoaInjective(a: GoInt, b: GoInt)
    ensures Itoa(a) == Itoa(b) <==> a == b
  {
    AtoiItoa(a);
    AtoiItoa(b);
  }

  /** Atoi accepts non-canonical spellings: a leading zero or a plus sign. */
  lemma AtoiNonCanonical()
    ensures Atoi("007") == Some(7) && Atoi("+7") == Some(7)
    ensures Itoa(7) == "7"
    ensures Atoi("") == None && Atoi("-") == None && Atoi("7a") == None
  {
    assert Digits(7) == "7";
    assert DigitsValue("00") == 0;
    assert DigitsValue("007") == 7;
    assert DigitsValue("7") == 7;
    assert !AllDigits("7a") by { assert !IsDigit("7a"[1]); }
  }
}
