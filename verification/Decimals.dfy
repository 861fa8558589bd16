/** Decimal notation as the program's formatter prints it and reads it back. */
module Decimals {
  import opened Outcomes

  const DIGITS := "0123456789"

  predicate IsDigit(c: char) {
    '0' <= c <= '9'
  }

  function DigitValue(c: char): nat
    requires IsDigit(c)
  {
    c as int - '0' as int
  }

  predicate AllDigits(s: string) {
    forall c <- s :: IsDigit(c)
  }

  /** The format verb %d for a natural number. */
  function Decimal(n: nat): string {
    if n < 10 then [DIGITS[n]] else Decimal(n / 10) + [DIGITS[n % 10]]
  }

  /** The format verb %d. */
  function Signed(i: int): string {
    if i < 0 then "-" + Decimal(-i) else Decimal(i)
  }

  /** The format verb %04d for a natural number. */
  function Padded4(n: nat): string {
    var d := Decimal(n);
    if |d| < 4 then seq(4 - |d|, _ => '0') + d else d
  }

  function Value(s: string): nat
    requires AllDigits(s)
  {
    if s == [] then 0 else Value(s[..|s| - 1]) * 10 + DigitValue(s[|s| - 1])
  }

  lemma {:induction false} DecimalValue(n: nat)
    ensures Decimal(n) != [] && AllDigits(Decimal(n)) && Value(Decimal(n)) == n
  {
    if n >= 10 {
      DecimalValue(n / 10);
      assert Decimal(n)[..|Decimal(n)| - 1] == Decimal(n / 10);
    }
  }

  lemma {:induction false} LeadingZeros(k: nat, s: string)
    requires AllDigits(s)
    ensures AllDigits(seq(k, _ => '0') + s) && Value(seq(k, _ => '0') + s) == Value(s)
    decreases |s|, k
  {
    var t := seq(k, _ => '0') + s;
    if s != [] {
      assert t[..|t| - 1] == seq(k, _ => '0') + s[..|s| - 1];
      LeadingZeros(k, s[..|s| - 1]);
    } else if k > 0 {
      assert t[..|t| - 1] == seq(k - 1, _ => '0') + s;
      LeadingZeros(k - 1, s);
    }
  }

  lemma Padded4Value(n: nat)
    ensures AllDigits(Padded4(n)) && Value(Padded4(n)) == n
  {
    DecimalValue(n);
    if |Decimal(n)| < 4 {
      LeadingZeros(4 - |Decimal(n)|, Decimal(n));
    }
  }

  /** No leading zero but in zero itself; with the value this fixes the notation. */
  lemma {:induction false} NoLeadingZero(n: nat)
    ensures Decimal(n) != [] && (Decimal(n)[0] == '0' <==> n == 0)
  {
    if n < 10 {
    } else {
      NoLeadingZero(n / 10);
    }
  }

  lemma {:induction false} DecimalLength(n: nat)
    ensures |Decimal(n)| >= 4 <==> n >= 1000
    ensures |Decimal(n)| >= 3 <==> n >= 100
    ensures |Decimal(n)| >= 2 <==> n >= 10
  {
    if n < 10 {
    } else {
      DecimalLength(n / 10);
    }
  }

  /** At least four digits, and more only for a number that needs them. */
  lemma Padded4Shape(n: nat)
    ensures |Padded4(n)| >= 4 && (|Padded4(n)| > 4 ==> Padded4(n)[0] != '0')
  {
    NoLeadingZero(n);
    DecimalLength(n);
  }

  lemma SignedFirst(i: int)
    ensures Signed(i) != [] && (Signed(i)[0] == '-' <==> i < 0)
  {
    DecimalValue(if i < 0 then -i else i);
    assert i >= 0 ==> IsDigit(Decimal(i)[0]);
  }

  lemma SignedInjective(a: int, b: int)
    requires Signed(a) == Signed(b)
    ensures a == b
  {
    SignedFirst(a);
    SignedFirst(b);
    DecimalValue(if a < 0 then -a else a);
    DecimalValue(if b < 0 then -b else b);
    if a < 0 {
      assert Signed(a)[1..] == Decimal(-a) && Signed(b)[1..] == Decimal(-b);
    }
  }

  predicate InInt64(i: int) {
    -0x8000_0000_0000_0000 <= i < 0x8000_0000_0000_0000
  }

  /** The decimal conversion of a word to a 64-bit int: an optional sign, digits, and a range check. */
  function Atoi(s: string): Option<int> {
    var digits := if s != [] && (s[0] == '-' || s[0] == '+') then s[1..] else s;
    if digits == [] || !AllDigits(digits) then None
    else
      var i: int := if s[0] == '-' then 0 - Value(digits) else Value(digits);
      if InInt64(i) then Some(i) else None
  }

  lemma AtoiReadsSigned(i: int)
    ensures Atoi(Signed(i)) == if InInt64(i) then Some(i) else None
  {
    SignedFirst(i);
    DecimalValue(if i < 0 then -i else i);
    assert i < 0 ==> Signed(i)[1..] == Decimal(-i);
    assert i >= 0 ==> IsDigit(Decimal(i)[0]);
  }

  lemma SignedChars(i: int)
    ensures forall c <- Signed(i) :: c == '-' || IsDigit(c)
  {
    DecimalValue(if i < 0 then -i else i);
  }

  /** i is the number with these digits behind the sign. */
  ghost predicate Reads(s: string, sign: string, digits: string, i: int) {
    && s == sign + digits && (sign == "" || sign == "+" || sign == "-")
    && digits != [] && AllDigits(digits) && InInt64(i)
    && i == if sign == "-" then 0 - Value(digits) else Value(digits)
  }

  /** Exactly the words made of an optional sign and digits, with a value of 64 bits, are read. */
  lemma AtoiIff(s: string, i: int)
    ensures Atoi(s) == Some(i) <==> exists sign, digits :: Reads(s, sign, digits, i)
  {
    hide Value;
    var signed := s != [] && (s[0] == '-' || s[0] == '+');
    if Atoi(s) == Some(i) {
      var sign := if signed then s[..1] else "";
      assert Reads(s, sign, if signed then s[1..] else s, i);
    }
    if sign, digits :| Reads(s, sign, digits, i) {
      assert digits[0] in digits;
      assert sign == "" ==> s == digits;
      assert sign != "" ==> s[1..] == digits;
    }
  }
}
