/** Decimal numbers as text: what `operator<<` and `to_string` print and what `atoi` reads. */
module Decimal {

  predicate IsDigit(c: char) { '0' <= c <= '9' }

  function DigitChar(d: nat): (c: char)
    requires d < 10
    ensures IsDigit(c)
  {
    ('0' as int + d) as char
  }

  function DigitValue(c: char): nat
    requires IsDigit(c)
  {
    c as int - '0' as int
  }

  /** The decimal text of `n`. */
  function Dec(n: nat): (text: string)
    ensures text != "" && forall i | 0 <= i < |text| :: IsDigit(text[i])
  {
    if n < 10 then [DigitChar(n)] else Dec(n / 10) + [DigitChar(n % 10)]
  }

  /** The longest prefix of digits. */
  function Digits(s: string): (n: nat)
    ensures n <= |s| && forall i | 0 <= i < n :: IsDigit(s[i])
  {
    if s == "" || !IsDigit(s[0]) then 0 else 1 + Digits(s[1..])
  }

  function Value(digits: string): nat
    requires forall i | 0 <= i < |digits| :: IsDigit(digits[i])
  {
    if digits == "" then 0
    else 10 * Value(digits[..|digits| - 1]) + DigitValue(digits[|digits| - 1])
  }

  predicate IsSpace(c: char) { c == ' ' || '\t' <= c <= '\r' }

  /** `atoi`: leading white space, an optional sign, then digits. */
  function Atoi(s: string): int {
    if s == "" then 0
    else if IsSpace(s[0]) then Atoi(s[1..])
    else if s[0] == '-' then 0 - Leading(s[1..])
    else if s[0] == '+' then Leading(s[1..])
    else Leading(s)
  }

  /** The value of the longest prefix of digits. */
  function Leading(s: string): nat { Value(s[..Digits(s)]) }

  lemma {:induction false} ValueOfDec(n: nat)
    ensures Value(Dec(n)) == n
  {
    if n < 10 {
      assert Dec(n)[..0] == "";
    } else {
      ValueOfDec(n / 10);
      assert Dec(n)[..|Dec(n)| - 1] == Dec(n / 10);
    }
  }

  lemma {:induction false} AtoiSkips(blanks: string, text: string)
    requires forall i | 0 <= i < |blanks| :: blanks[i] in {' ', '\t', '\n', 11 as char, 12 as char, '\r'}
    ensures Atoi(blanks + text) == Atoi(text)
  {
    if blanks == "" {
      assert blanks + text == text;
    } else {
      AtoiSkips(blanks[1..], text);
      assert (blanks + text)[1..] == blanks[1..] + text;
    }
  }

  /** `atoi` skips white space, takes a sign, and stops behind the number. */
  lemma AtoiReads(blanks: string, n: nat, rest: string)
    requires forall i | 0 <= i < |blanks| :: blanks[i] in {' ', '\t', '\n', 11 as char, 12 as char, '\r'}
    requires rest == "" || !('0' <= rest[0] <= '9')
    ensures Atoi(blanks + (Dec(n) + rest)) == n
    ensures Atoi(blanks + ("+" + (Dec(n) + rest))) == n
    ensures Atoi(blanks + ("-" + (Dec(n) + rest))) == 0 - n
  {
    hide Dec, Atoi;
    var text := Dec(n) + rest;
    SignedReads(text);
    LeadingReads(n, rest);
    AtoiSkips(blanks, text);
    AtoiSkips(blanks, "+" + text);
    AtoiSkips(blanks, "-" + text);
  }

  lemma SignedReads(text: string)
    requires text != "" && IsDigit(text[0])
    ensures Atoi(text) == Atoi("+" + text) == Leading(text) && Atoi("-" + text) == 0 - Leading(text)
  {
    hide Leading;
    assert ("+" + text)[1..] == text && ("-" + text)[1..] == text;
  }

  lemma LeadingReads(n: nat, rest: string)
    requires rest == "" || !IsDigit(rest[0])
    ensures Leading(Dec(n) + rest) == n
  {
    DigitsStop(Dec(n), rest);
    assert (Dec(n) + rest)[..|Dec(n)|] == Dec(n);
    ValueOfDec(n);
  }

  lemma {:induction false} DigitsStop(s: string, rest: string)
    requires forall i | 0 <= i < |s| :: IsDigit(s[i])
    requires rest == "" || !IsDigit(rest[0])
    ensures Digits(s + rest) == |s|
  {
    if s == "" {
      assert s + rest == rest;
    } else {
      DigitsStop(s[1..], rest);
      assert (s + rest)[1..] == s[1..] + rest;
    }
  }

  /** Text that starts like a name reads as 0. */
  lemma AtoiOfName(s: string)
    requires s != "" && !IsDigit(s[0]) && !IsSpace(s[0]) && s[0] != '+' && s[0] != '-'
    ensures Atoi(s) == 0
  {
  }

  /** Reading a printed number gives the number back. */
  lemma AtoiOfDec(n: nat)
    ensures Atoi(Dec(n)) == n
  {
    AtoiReads("", n, "");
    assert "" + (Dec(n) + "") == Dec(n);
  }
}
