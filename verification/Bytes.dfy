/**
 A C++ `char` is modelled by a Dafny `char`. Where the code looks at the value of a char the
 conversions below spell out that `char` is signed and eight bits wide.
 */
module Bytes {

  const EOF: int := -1
  const CR: char := '\r'
  const LF: char := '\n'

  /** The byte that a signed `char` cannot tell from EOF. */
  const FF: char := 255 as char

  /** A char that fits in eight bits. */
  type octet = c: char | c as int < 256 witness 'a'

  /** The value of a signed char promoted to `int`. */
  function SignedChar(c: char): int {
    if c as int < 128 then c as int else c as int - 256
  }

  /** The conversion `(char) i`. */
  function ToChar(i: int): char {
    (i % 256) as char
  }

  predicate IsByte(c: char) {
    c as int < 256
  }

  /** Promotion followed by narrowing is the identity, and only 0xFF promotes to EOF. */
  lemma PromoteThenNarrow(c: char)
    requires IsByte(c)
    ensures ToChar(SignedChar(c)) == c
    ensures SignedChar(c) == EOF <==> c == FF
  {
  }

  function Min(a: int, b: int): int {
    if a < b then a else b
  }

  function Max(a: int, b: int): int {
    if a < b then b else a
  }

  /** Concatenation of a list of strings. */
  function Concat(parts: seq<string>): string {
    if parts == [] then "" else parts[0] + Concat(parts[1..])
  }

  lemma {:induction false} ConcatAppend(xs: seq<string>, ys: seq<string>)
    ensures Concat(xs + ys) == Concat(xs) + Concat(ys)
  {
    if xs == [] {
      assert xs + ys == ys;
    } else {
      assert (xs + ys)[0] == xs[0] && (xs + ys)[1..] == xs[1..] + ys;
      ConcatAppend(xs[1..], ys);
    }
  }
}
