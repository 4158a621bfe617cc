/**
 URL encoding of parameters (sections 2.1 and 2.3 of RFC 3986 give the percent form and the
 unreserved characters). A byte from 0x80 up is sign-extended by the code, so it comes out as a
 percent sign and eight hexadecimal digits.
 */
module UrlEncoding {
  import opened Bytes

  type bytes = seq<octet>

  predicate Unreserved(c: char) {
    || 'A' <= c <= 'Z' || 'a' <= c <= 'z' || '0' <= c <= '9'
    || c == '.' || c == '-' || c == '_' || c == '~'
  }

  function HexDigit(d: nat): char
    requires d < 16
  {
    if d < 10 then ('0' as int + d) as char else ('a' as int + d - 10) as char
  }

  /** What `std::hex` prints for an unsigned number. */
  function Hex(n: nat): string {
    if n < 16 then [HexDigit(n)] else Hex(n / 16) + [HexDigit(n % 16)]
  }

  /** `unsigned int ich = c` for a signed char. */
  function SignExtended(c: octet): nat {
    if SignedChar(c) < 0 then 0x1_0000_0000 + SignedChar(c) else SignedChar(c)
  }

  /** What the loop of urlEncode prints for a byte outside the unreserved set. */
  function Escape(c: octet): string {
    var ich := SignExtended(c);
    (if ich < 16 then "%0" else "%") + Hex(ich)
  }

  function Code(c: octet): string {
    if Unreserved(c) then [c] else Escape(c)
  }

  /** The per-byte code that the run-copying loop amounts to. */
  function Encode(s: bytes): string {
    if s == [] then "" else Code(s[0]) + Encode(s[1..])
  }

  function FindReserved(s: bytes, from: nat): (n: nat)
    requires from <= |s|
    ensures from <= n <= |s|
    ensures forall i | from <= i < n :: Unreserved(s[i])
    ensures n < |s| ==> !Unreserved(s[n])
    decreases |s| - from
  {
    if from == |s| || !Unreserved(s[from]) then from else FindReserved(s, from + 1)
  }

  lemma {:induction false} EncodeRun(s: bytes, from: nat, end: nat)
    requires from <= end <= |s| && forall i | from <= i < end :: Unreserved(s[i])
    ensures Encode(s[from..]) == s[from..end] + Encode(s[end..])
    decreases end - from
  {
    hide Escape;
    var tail := Encode(s[end..]);
    if from < end {
      EncodeRun(s, from + 1, end);
      var c, run := s[from], s[from + 1..end];
      assert s[from..][1..] == s[from + 1..];
      assert s[from..end] == [c] + run;
      assert [c] + (run + tail) == ([c] + run) + tail;
    } else {
      assert s[from..end] + tail == tail;
    }
  }

  /** UrlParameterEncoder::urlEncode: it copies runs of unreserved bytes and escapes the others. */
  method UrlEncode(inStr: bytes) returns (oss: string)
    ensures oss == Encode(inStr)
  {
    hide Encode, Escape;
    oss := "";
    var lastPos := 0;
    var pos := FindReserved(inStr, 0);
    assert inStr[0..] == inStr;
    while pos < |inStr|
      invariant lastPos <= pos <= |inStr|
      invariant pos < |inStr| ==> !Unreserved(inStr[pos])
      invariant forall i | lastPos <= i < pos :: Unreserved(inStr[i])
      invariant oss + Encode(inStr[lastPos..]) == Encode(inStr)
      decreases |inStr| - pos
    {
      AppendRun(oss, inStr, lastPos, pos);
      if lastPos != pos {
        oss := oss + inStr[lastPos..pos];
      }
      AppendEscape(oss, inStr, pos);
      oss := oss + Escape(inStr[pos]);
      lastPos := pos + 1;
      pos := FindReserved(inStr, lastPos);
    }
    AppendRun(oss, inStr, lastPos, |inStr|);
    oss := oss + inStr[lastPos..];
  }

  lemma AppendRun(oss: string, s: bytes, from: nat, end: nat)
    requires from <= end <= |s| && forall i | from <= i < end :: Unreserved(s[i])
    ensures oss + Encode(s[from..]) == (oss + s[from..end]) + Encode(s[end..])
    ensures from == end ==> oss + s[from..end] == oss
    ensures end == |s| ==> oss + Encode(s[from..]) == oss + s[from..]
  {
    hide Escape;
    EncodeRun(s, from, end);
    var run, tail := s[from..end], Encode(s[end..]);
    assert oss + (run + tail) == (oss + run) + tail;
    if end == |s| {
      assert run == s[from..] && tail == "";
    }
  }

  lemma AppendEscape(oss: string, s: bytes, i: nat)
    requires i < |s| && !Unreserved(s[i])
    ensures oss + Encode(s[i..]) == (oss + Escape(s[i])) + Encode(s[i + 1..])
  {
    hide Escape;
    assert s[i..][1..] == s[i + 1..];
    var code, tail := Escape(s[i]), Encode(s[i + 1..]);
    assert oss + (code + tail) == (oss + code) + tail;
  }

  lemma Regroup(a: string, b: string, c: string, d: string)
    ensures a + (b + (c + d)) == a + b + c + d
  {
  }

  /** Encoding distributes over concatenation. */
  lemma {:induction false} EncodeConcat(a: bytes, b: bytes)
    ensures Encode(a + b) == Encode(a) + Encode(b)
  {
    hide Code;
    if a == [] {
      assert a + b == b;
    } else {
      EncodeConcat(a[1..], b);
      assert (a + b)[1..] == a[1..] + b;
      Regroup("", Code(a[0]), Encode(a[1..]), Encode(b));
    }
  }

  // ----- The codes spelled out -----

  function Low(c: octet): string { [HexDigit(c as int / 16), HexDigit(c as int % 16)] }

  lemma HexLow(n: nat)
    requires 16 <= n < 256
    ensures Hex(n) == [HexDigit(n / 16), HexDigit(n % 16)]
  {
    assert Hex(n / 16) == [HexDigit(n / 16)];
  }

  lemma {:induction false} HexHigh(k: nat, top: nat)
    requires top == 1 || top == 2 || top == 3 || top == 4 || top == 5 || top == 6
    requires k == if top == 1 then 0xf else if top == 2 then 0xff else if top == 3 then 0xfff
                  else if top == 4 then 0xffff else if top == 5 then 0xfffff else 0xffffff
    ensures Hex(k) == "ffffff"[..top]
  {
    if top > 1 {
      HexHigh(k / 16, top - 1);
      assert "ffffff"[..top] == "ffffff"[..top - 1] + "f";
    } else {
      assert "ffffff"[..1] == "f";
    }
  }

  /** Two digits below 0x80; six `f`s and two digits from 0x80 up. */
  lemma EscapeForm(c: octet)
    ensures Escape(c) == if c as int < 128 then "%" + Low(c) else "%ffffff" + Low(c)
  {
    var n := SignExtended(c);
    if c as int < 16 {
      assert Hex(n) == [HexDigit(n)];
    } else if c as int < 128 {
      HexLow(n);
    } else {
      assert n == 16 * (n / 16) + n % 16 && n / 16 / 16 == 0xffffff;
      HexHigh(0xffffff, 6);
      assert Hex(n / 16) == "ffffff" + [HexDigit(c as int / 16)];
      assert n % 16 == c as int % 16;
    }
  }

  /** The code of a byte, character by character. */
  lemma CodeForm(c: octet)
    ensures
      var hi, lo := HexDigit(c as int / 16), HexDigit(c as int % 16);
      && HexValue(hi) == c as int / 16 && HexValue(lo) == c as int % 16 && hi != '%' && lo != '%'
      && (c as int >= 128 ==> !Unreserved(c))
      && Code(c) == if Unreserved(c) then [c]
                    else if c as int < 128 then ['%', hi, lo]
                    else ['%', 'f', 'f', 'f', 'f', 'f', 'f', hi, lo]
  {
    hide Escape, Hex;
    EscapeForm(c);
    HexValueOfDigit(c as int / 16);
    HexValueOfDigit(c as int % 16);
  }

  const UPPER: set<char> :=
    {'A', 'B', 'C', 'D', 'E', 'F', 'G', 'H', 'I', 'J', 'K', 'L', 'M',
     'N', 'O', 'P', 'Q', 'R', 'S', 'T', 'U', 'V', 'W', 'X', 'Y', 'Z'}
  const LOWER: set<char> :=
    {'a', 'b', 'c', 'd', 'e', 'f', 'g', 'h', 'i', 'j', 'k', 'l', 'm',
     'n', 'o', 'p', 'q', 'r', 's', 't', 'u', 'v', 'w', 'x', 'y', 'z'}
  const DIGITS: set<char> := {'0', '1', '2', '3', '4', '5', '6', '7', '8', '9'}

  /** The chars that stand for themselves. */
  const VALID_IN_URL: set<char> := UPPER + LOWER + DIGITS + {'.', '-', '_', '~'}

  lemma UpperRange(c: char)
    ensures c in UPPER <==> 'A' <= c <= 'Z'
  {
  }

  lemma LowerRange(c: char)
    ensures c in LOWER <==> 'a' <= c <= 'z'
  {
  }

  lemma ValidIffUnreserved(c: char)
    ensures c in VALID_IN_URL <==> Unreserved(c)
  {
    UpperRange(c);
    LowerRange(c);
  }

  /** A byte stands for itself if and only if it is a letter, a digit or one of the four marks. */
  lemma CodeIsLiteralIff(c: octet)
    ensures Code(c) == [c] <==> c in VALID_IN_URL
    ensures c !in VALID_IN_URL ==>
              |Code(c)| >= 3 && Code(c)[0] == '%' && forall i | 1 <= i < |Code(c)| :: HexValue(Code(c)[i]) >= 0
  {
    hide Code, Unreserved, HexDigit;
    ValidIffUnreserved(c);
    CodeForm(c);
  }

  /** So every char of a code is a letter, a digit, one of the four marks or a percent sign. */
  lemma {:induction false} EncodedChars(s: bytes)
    ensures forall i | 0 <= i < |Encode(s)| :: Encode(s)[i] in VALID_IN_URL || Encode(s)[i] == '%'
  {
    hide Code;
    if s != [] {
      EncodedChars(s[1..]);
      CodeIsLiteralIff(s[0]);
      forall i | 0 <= i < |Code(s[0])|
        ensures Code(s[0])[i] in VALID_IN_URL || Code(s[0])[i] == '%'
      {
        if i > 0 {
          HexIsValid(Code(s[0])[i]);
        }
      }
    }
  }

  lemma HexIsValid(c: char)
    requires HexValue(c) >= 0
    ensures c in VALID_IN_URL
  {
    ValidIffUnreserved(c);
  }

  // ----- Decoders -----

  function HexValue(c: char): int {
    if '0' <= c <= '9' then c as int - '0' as int
    else if 'a' <= c <= 'f' then c as int - 'a' as int + 10
    else if 'A' <= c <= 'F' then c as int - 'A' as int + 10
    else -1
  }

  lemma HexValueOfDigit(d: nat)
    requires d < 16
    ensures HexValue(HexDigit(d)) == d && HexDigit(d) != '%'
  {
  }

  predicate IsTriplet(t: string) {
    |t| >= 3 && t[0] == '%' && HexValue(t[1]) >= 0 && HexValue(t[2]) >= 0
  }

  /** The standard percent-decoding: `%` and two hexadecimal digits stand for one byte. */
  function PercentDecode(t: string): string {
    if t == "" then ""
    else if IsTriplet(t) then [ToChar(16 * HexValue(t[1]) + HexValue(t[2]))] + PercentDecode(t[3..])
    else [t[0]] + PercentDecode(t[1..])
  }

  /** A decoder for this encoder: after `%f` the eight-digit form. */
  function OwnDecode(t: string): string {
    if t == "" then ""
    else if IsTriplet(t) && t[1] != 'f' then
      [ToChar(16 * HexValue(t[1]) + HexValue(t[2]))] + OwnDecode(t[3..])
    else if |t| >= 9 && t[0] == '%' then
      [ToChar(16 * HexValue(t[7]) + HexValue(t[8]))] + OwnDecode(t[9..])
    else [t[0]] + OwnDecode(t[1..])
  }

  lemma DecodeShort(hi: char, lo: char, rest: string)
    requires HexValue(hi) >= 0 && HexValue(lo) >= 0
    ensures
      var t, c := ['%', hi, lo] + rest, ToChar(16 * HexValue(hi) + HexValue(lo));
      && PercentDecode(t) == [c] + PercentDecode(rest)
      && (hi != 'f' ==> OwnDecode(t) == [c] + OwnDecode(rest))
  {
    hide HexValue;
    var t := ['%', hi, lo] + rest;
    assert t[3..] == rest;
  }

  lemma DecodeLong(hi: char, lo: char, rest: string)
    ensures
      var t := ['%', 'f', 'f', 'f', 'f', 'f', 'f', hi, lo] + rest;
      OwnDecode(t) == [ToChar(16 * HexValue(hi) + HexValue(lo))] + OwnDecode(rest)
  {
    var t := ['%', 'f', 'f', 'f', 'f', 'f', 'f', hi, lo] + rest;
    assert t[1] == 'f' && t[7] == hi && t[8] == lo && t[9..] == rest;
  }

  lemma DecodeLiteral(c: char, rest: string)
    requires c != '%'
    ensures OwnDecode([c] + rest) == [c] + OwnDecode(rest)
    ensures PercentDecode([c] + rest) == [c] + PercentDecode(rest)
  {
    assert ([c] + rest)[1..] == rest;
  }

  lemma OwnDecodeStep(c: octet, rest: string)
    ensures OwnDecode(Code(c) + rest) == [c] + OwnDecode(rest)
  {
    hide Code, Unreserved, OwnDecode;
    CodeForm(c);
    var hi, lo := HexDigit(c as int / 16), HexDigit(c as int % 16);
    if Unreserved(c) {
      UnreservedNotPercent(c);
      DecodeLiteral(c, rest);
    } else if c as int < 128 {
      DecodeShort(hi, lo, rest);
    } else {
      DecodeLong(hi, lo, rest);
    }
  }

  lemma UnreservedNotPercent(c: char)
    requires Unreserved(c)
    ensures c != '%' && c != '='
  {
  }

  lemma {:induction false} OwnDecodeInverts(s: bytes)
    ensures OwnDecode(Encode(s)) == s
  {
    if s != [] {
      OwnDecodeStep(s[0], Encode(s[1..]));
      OwnDecodeInverts(s[1..]);
    }
  }

  /** The code is uniquely decodable on all byte strings. */
  lemma EncodeInjective(a: bytes, b: bytes)
    requires Encode(a) == Encode(b)
    ensures a == b
  {
    OwnDecodeInverts(a);
    OwnDecodeInverts(b);
  }

  predicate SevenBit(s: bytes) { forall i | 0 <= i < |s| :: s[i] as int < 128 }

  /** One code under the standard decoder: the byte itself below 0x80, else seven chars. */
  lemma PercentDecodeStep(c: octet, rest: string)
    ensures c as int < 128 ==> PercentDecode(Code(c) + rest) == [c] + PercentDecode(rest)
    ensures c as int >= 128 ==> |PercentDecode(Code(c) + rest)| == 7 + |PercentDecode(rest)|
  {
    hide Code, Unreserved, PercentDecode;
    CodeForm(c);
    var hi, lo := HexDigit(c as int / 16), HexDigit(c as int % 16);
    if Unreserved(c) {
      UnreservedNotPercent(c);
      DecodeLiteral(c, rest);
    } else if c as int < 128 {
      DecodeShort(hi, lo, rest);
    } else {
      var plain := ['f', 'f', 'f', 'f', hi, lo];
      assert Code(c) + rest == ['%', 'f', 'f'] + (plain + rest);
      DecodeShort('f', 'f', plain + rest);
      PercentDecodePlain(plain, rest);
    }
  }

  lemma {:induction false} PercentDecodePlain(plain: string, rest: string)
    requires forall i | 0 <= i < |plain| :: plain[i] != '%'
    ensures PercentDecode(plain + rest) == plain + PercentDecode(rest)
  {
    if plain == "" {
      assert plain + rest == rest;
    } else {
      PercentDecodePlain(plain[1..], rest);
      assert (plain + rest)[1..] == plain[1..] + rest;
    }
  }

  lemma {:induction false} PercentDecodeLength(s: bytes)
    ensures |PercentDecode(Encode(s))| >= |s|
    ensures SevenBit(s) ==> PercentDecode(Encode(s)) == s
    ensures !SevenBit(s) ==> |PercentDecode(Encode(s))| > |s|
  {
    if s != [] {
      PercentDecodeStep(s[0], Encode(s[1..]));
      PercentDecodeLength(s[1..]);
      if s[0] as int < 128 {
        assert SevenBit(s[1..]) ==> SevenBit(s) by {
          assert forall i | 0 < i < |s| :: s[i] == s[1..][i - 1];
        }
      }
    }
  }

  /** The standard decoder inverts the encoder exactly on the 7-bit strings. */
  lemma PercentDecodeInvertsIff(s: bytes)
    ensures PercentDecode(Encode(s)) == s <==> SevenBit(s)
  {
    PercentDecodeLength(s);
  }

  // ----- Parameters -----

  /** UrlParameterEncoder::toString. */
  function Parameter(name: bytes, value: bytes): string { Encode(name) + "=" + Encode(value) }

  lemma CodeHasNoEquals(c: octet)
    ensures forall i | 0 <= i < |Code(c)| :: Code(c)[i] != '='
  {
    hide Code, Unreserved;
    CodeForm(c);
    if Unreserved(c) {
      UnreservedNotPercent(c);
    }
  }

  lemma {:induction false} EncodeHasNoEquals(s: bytes)
    ensures forall i | 0 <= i < |Encode(s)| :: Encode(s)[i] != '='
  {
    if s != [] {
      CodeHasNoEquals(s[0]);
      EncodeHasNoEquals(s[1..]);
    }
  }

  /** A printed parameter determines its name and its value. */
  lemma ParameterInjective(n1: bytes, v1: bytes, n2: bytes, v2: bytes)
    requires Parameter(n1, v1) == Parameter(n2, v2)
    ensures n1 == n2 && v1 == v2
  {
    hide Encode;
    EncodeHasNoEquals(n1);
    EncodeHasNoEquals(n2);
    CutAtEquals(Encode(n1), Encode(v1), Encode(n2), Encode(v2));
    EncodeInjective(n1, n2);
    EncodeInjective(v1, v2);
  }

  lemma CutAtEquals(a1: string, b1: string, a2: string, b2: string)
    requires a1 + "=" + b1 == a2 + "=" + b2
    requires forall i | 0 <= i < |a1| :: a1[i] != '='
    requires forall i | 0 <= i < |a2| :: a2[i] != '='
    ensures a1 == a2 && b1 == b2
  {
    var t, k1, k2 := a1 + "=" + b1, |a1|, |a2|;
    assert t[k1] == '=' && t[k2] == '=';
    assert a1 == t[..k1] && a2 == t[..k2] && b1 == t[k1 + 1..] && b2 == t[k2 + 1..];
  }
}
