/** Decimal text: the counters, version numbers and hook progress of the plugin are stored as strings. */
module Decimal {
  import opened Wrappers

  /** One more than the largest value of Go's 64-bit int. */
  const INT64_LIMIT: nat := 0x8000_0000_0000_0000

  predicate IsDigit(c: char) {
    '0' <= c <= '9'
  }

  predicate AllDigits(s: string) {
    forall i | 0 <= i < |s| :: IsDigit(s[i])
  }

  /** strconv.Itoa on a non-negative number. */
  function Itoa(n: nat): (s: string)
    ensures s != [] && AllDigits(s)
  {
    var digit := ('0' as int + n % 10) as char;
    if n < 10 then [digit] else Itoa(n / 10) + [digit]
  }

  /** The number a string of digits denotes. */
  function Value(s: string): nat
    requires AllDigits(s)
  {
    if s == [] then 0 else 10 * Value(s[..|s| - 1]) + (s[|s| - 1] as int - '0' as int)
  }

  /** strconv.Atoi: an optional sign, at least one digit, and a result that fits 64 bits; anything else is an error. */
  function Atoi(s: string): Option<int> {
    var signed := s != [] && (s[0] == '-' || s[0] == '+');
    var digits := if signed then s[1..] else s;
    if digits == [] || !AllDigits(digits) then None
    else
      var v: int := Value(digits);
      if signed && s[0] == '-' then (if v <= INT64_LIMIT then Some(-v) else None)
      else if v < INT64_LIMIT then Some(v)
      else None
  }

  /** The conversion uint(i) of a 64-bit int: a negative number becomes a huge one. */
  function ToUint(i: int): nat {
    i % (2 * INT64_LIMIT)
  }

  lemma {:induction false} ValueOfItoa(n: nat)
    ensures Value(Itoa(n)) == n
  {
    if n >= 10 {
      ValueOfItoa(n / 10);
      var digit := ('0' as int + n % 10) as char;
      assert Itoa(n)[..|Itoa(n)| - 1] == Itoa(n / 10);
    }
  }

  /** What a counter key stores is read back as the same counter. */
  lemma AtoiOfItoa(n: nat)
    requires n < INT64_LIMIT
    ensures Atoi(Itoa(n)) == Some(n) && ToUint(n) == n
  {
    ValueOfItoa(n);
  }

  /** The digits come in the usual order. */
  lemma DecimalText()
    ensures Itoa(0) == "0" && Itoa(120) == "120" && Atoi("120") == Some(120)
  {
    assert Itoa(120) == Itoa(12) + ['0'] && Itoa(12) == Itoa(1) + ['2'];
    AtoiOfItoa(120);
  }

  /** A sign may come first. */
  lemma SignedText(digits: string)
    requires digits != [] && AllDigits(digits) && Value(digits) < INT64_LIMIT
    ensures Atoi("-" + digits).Some? && Atoi("-" + digits).value == 0 - Value(digits)
    ensures Atoi("+" + digits) == Some(Value(digits))
  {
    assert ("-" + digits)[1..] == digits && ("+" + digits)[1..] == digits;
  }

  /** A negative number becomes a huge one. */
  lemma NegativeIsHuge(n: nat)
    requires 0 < n <= INT64_LIMIT
    ensures ToUint(0 - n) == 0x1_0000_0000_0000_0000 - n
  {
  }

  /** Nothing else is a number. */
  lemma NoNumber(s: string, i: nat)
    requires i < |s| && !IsDigit(s[i]) && (i > 0 || (s[0] != '-' && s[0] != '+'))
    ensures Atoi(s) == None && Atoi("") == None
  {
    if s[0] == '-' || s[0] == '+' {
      assert s[1..][i - 1] == s[i];
    }
  }

  /** Two version numbers never share a key segment. */
  lemma ItoaInjective(m: nat, n: nat)
    requires Itoa(m) == Itoa(n)
    ensures m == n
  {
    ValueOfItoa(m);
    ValueOfItoa(n);
  }
}
