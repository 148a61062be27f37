/** Decimal numerals: what `printf("%ld")` writes and what a digit-by-digit reader accumulates. */
module Decimal {

  predicate IsDigit(c: char) { '0' <= c <= '9' }

  predicate AllDigits(s: string) { forall i | 0 <= i < |s| :: IsDigit(s[i]) }

  function DigitValue(c: char): (d: nat)
    requires IsDigit(c)
  {
    (c - '0') as nat
  }

  /** The value a left-to-right reader `v = v * 10 + digit` ends with. */
  function Value(s: string): (v: nat)
    requires AllDigits(s)
  {
    if s == "" then 0 else Value(s[..|s| - 1]) * 10 + DigitValue(s[|s| - 1])
  }

  function DigitChar(d: nat): (c: char)
    requires d < 10
  {
    '0' + d as char
  }

  /** The numeral of a natural number, without leading zeros. */
  function ShowNat(n: nat): (s: string)
    ensures s != "" && AllDigits(s)
  {
    if n < 10 then [DigitChar(n)] else ShowNat(n / 10) + [DigitChar(n % 10)]
  }

  function ShowInt(n: int): string {
    if n < 0 then "-" + ShowNat(-n) else ShowNat(n)
  }

  /** Reading a numeral back gives the number: `Value` inverts `ShowNat`. */
  lemma {:induction false} ValueOfShow(n: nat)
    ensures Value(ShowNat(n)) == n
  {
    if n >= 10 {
      ValueOfShow(n / 10);
      assert ShowNat(n)[..|ShowNat(n)| - 1] == ShowNat(n / 10);
    } else {
      assert [DigitChar(n)][..0] == "";
    }
  }

  // ----- signed numerals -----

  /** Digits, or digits after a minus sign. */
  predicate Numeral(s: string) {
    s != "" && (AllDigits(s) || (s[0] == '-' && |s| > 1 && AllDigits(s[1..])))
  }

  /** A leading minus sign negates the value of the rest. */
  function IntValue(s: string): int
    requires Numeral(s)
  {
    if s[0] == '-' then 0 - Value(s[1..]) else Value(s)
  }

  /** No leading zeros, and zero has no sign. */
  predicate Canonical(s: string) {
    && Numeral(s)
    && var digits := if s[0] == '-' then s[1..] else s;
      (|digits| > 1 || s[0] == '-') ==> digits[0] != '0'
  }

  lemma {:induction false} NoLeadingZero(n: nat)
    ensures n > 0 ==> ShowNat(n)[0] != '0'
    ensures n == 0 ==> ShowNat(n) == "0"
  {
    if n >= 10 { NoLeadingZero(n / 10); }
  }

  /** Reading what is printed gives the number back, and the text begins with a minus sign exactly for
      negative numbers. */
  lemma ReadShown(n: int)
    ensures Canonical(ShowInt(n)) && IntValue(ShowInt(n)) == n
    ensures ShowInt(n)[0] == '-' <==> n < 0
  {
    var m := if n < 0 then -n else n;
    ValueOfShow(m);
    NoLeadingZero(m);
    assert n < 0 ==> ShowInt(n)[1..] == ShowNat(m);
  }

  lemma {:induction false} ValueGrows(s: string)
    requires s != "" && AllDigits(s) && s[0] != '0'
    ensures Value(s) > 0
  {
    if |s| > 1 {
      ValueGrows(s[..|s| - 1]);
    } else {
      assert s[..0] == "";
    }
  }

  lemma {:induction false} ShowValue(s: string)
    requires s != "" && AllDigits(s) && (|s| > 1 ==> s[0] != '0')
    ensures ShowNat(Value(s)) == s
  {
    var f, d := s[..|s| - 1], DigitValue(s[|s| - 1]);
    assert s == f + [s[|s| - 1]] && DigitChar(d) == s[|s| - 1];
    if |s| > 1 {
      ShowValue(f);
      ValueGrows(f);
      assert Value(s) / 10 == Value(f) && Value(s) % 10 == d;
    } else {
      assert f == "";
    }
  }

  /** And no other text in this form reads as the number. */
  lemma ShownRead(s: string)
    requires Canonical(s)
    ensures ShowInt(IntValue(s)) == s
  {
    if s[0] == '-' {
      ShowValue(s[1..]);
      ValueGrows(s[1..]);
      assert s == "-" + s[1..];
    } else {
      ShowValue(s);
    }
  }
}
