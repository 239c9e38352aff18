/**
 Numerals in base 10 and base 16: the text that `%d`, `%u` and `%x` print, and what `strtol`,
 `atoll` and the conversions of `sscanf` take from the front of a text (section 7.21.6.2 of
 ISO/IEC 9899:2011). Hexadecimal digits are read in either case and printed in lower case.
 */
module Numerals {

  import opened Basics

  /** The bases the program uses. */
  type base = b: int | b == 10 || b == 16 witness 10

  /** The value of a digit character, or 99 for any other character. */
  function DigitValue(c: char): (v: nat) {
    if '0' <= c <= '9' then c as int - '0' as int
    else if 'a' <= c <= 'f' then 10 + (c as int - 'a' as int)
    else if 'A' <= c <= 'F' then 10 + (c as int - 'A' as int)
    else 99
  }

  predicate IsDigit(c: char, b: base) {
    DigitValue(c) < b
  }

  predicate AllDigits(s: string, b: base) {
    forall i :: 0 <= i < |s| ==> IsDigit(s[i], b)
  }

  function DigitChar(d: nat): (c: char)
    requires d < 16
    ensures DigitValue(c) == d
  {
    if d < 10 then '0' + d as char else 'a' + (d - 10) as char
  }

  /** The digits against their tables, in both cases; what is printed is lower case. */
  lemma DigitTables(i: nat)
    requires i < 16
    ensures DigitValue("0123456789abcdef"[i]) == DigitValue("0123456789ABCDEF"[i]) == i
    ensures DigitChar(i) == "0123456789abcdef"[i]
  {}

  /** No other character is a digit. */
  lemma OnlyDigits(c: char)
    ensures IsDigit(c, 10) <==> c in "0123456789"
    ensures IsDigit(c, 16) <==> c in "0123456789abcdefABCDEF"
  {
    var v := DigitValue(c);
    if v < 10 {
      assert c == "0123456789"[v] == "0123456789abcdefABCDEF"[v];
    } else if v < 16 {
      assert c == "0123456789abcdefABCDEF"[v] || c == "0123456789abcdefABCDEF"[v + 6];
    }
  }

  /** The value of a string of digits; the empty string has value 0. */
  function Value(s: string, b: base): nat
    requires AllDigits(s, b)
  {
    if s == "" then 0 else b * Value(s[..|s| - 1], b) + DigitValue(s[|s| - 1])
  }

  /** The text printed for a number: no leading zero, and "0" for zero. */
  function Text(n: nat, b: base): (s: string)
    ensures s != "" && AllDigits(s, b)
    decreases n
  {
    if n < b then [DigitChar(n)] else Text(n / b, b) + [DigitChar(n % b)]
  }

  /** Reading a printed number gives the number back. */
  lemma {:induction false} ValueOfText(n: nat, b: base)
    ensures Value(Text(n, b), b) == n
    decreases n
  {
    if n < b {
      assert Text(n, b)[..0] == "";
    } else {
      ValueOfText(n / b, b);
      var s := Text(n, b);
      assert s[..|s| - 1] == Text(n / b, b);
    }
  }

  function Power(b: base, k: nat): nat {
    if k == 0 then 1 else b * Power(b, k - 1)
  }

  /** One more digit behind. */
  lemma ValueStep(s: string, c: char, b: base)
    requires AllDigits(s, b) && IsDigit(c, b)
    ensures AllDigits(s + [c], b) && Value(s + [c], b) == b * Value(s, b) + DigitValue(c)
  {
    assert (s + [c])[..|s|] == s;
  }

  /** Digits in front count for as many places as there are digits behind them. */
  lemma {:induction false} ValueSplit(s: string, t: string, b: base)
    requires AllDigits(s, b) && AllDigits(t, b)
    ensures AllDigits(s + t, b)
    ensures Value(s + t, b) == Value(s, b) * Power(b, |t|) + Value(t, b)
    decreases |t|
  {
    hide IsDigit, DigitValue;
    if t == "" {
      assert s + t == s;
    } else {
      var front, c := t[..|t| - 1], t[|t| - 1];
      ValueSplit(s, front, b);
      assert s + t == (s + front) + [c] && t == front + [c];
      ValueStep(s + front, c, b);
      ValueStep(front, c, b);
      Places(Value(s, b), Power(b, |front|), Value(front, b), b);
    }
  }

  lemma Places(v: nat, p: nat, f: nat, b: base)
    ensures b * (v * p + f) == v * (b * p) + b * f
  {}

  lemma OneDigit(c: char, b: base)
    requires IsDigit(c, b)
    ensures AllDigits([c], b) && Value([c], b) == DigitValue(c)
  {
    assert [c][..0] == "";
  }

  /** A printed number has no leading zero, and zero is "0"; so it is the only such text of its value. */
  lemma {:induction false} TextIsPlain(n: nat, b: base)
    ensures n == 0 ==> Text(n, b) == "0"
    ensures n > 0 ==> Text(n, b)[0] != '0'
    decreases n
  {
    if n >= b {
      TextIsPlain(n / b, b);
    }
  }

  lemma DecimalExamples()
    ensures Text(192, 10) == "192" && Text(168, 10) == "168" && Text(44, 10) == "44" && Text(1, 10) == "1"
    ensures Text(200, 10) == "200" && Text(174, 10) == "174"
  {
    assert Text(19, 10) == "19" && Text(16, 10) == "16" && Text(20, 10) == "20" && Text(17, 10) == "17";
  }

  lemma HexExamples()
    ensures Text(0x2001, 16) == "2001" && Text(0xDB8, 16) == "db8" && Text(1, 16) == "1" && Text(0, 16) == "0"
  {
    assert Text(0x2, 16) == "2" && Text(0x20, 16) == "20" && Text(0x200, 16) == "200";
    assert Text(0xD, 16) == "d" && Text(0xDB, 16) == "db";
  }

  /** A number below b^k prints in at most k digits. */
  lemma {:induction false} TextLength(n: nat, b: base, k: nat)
    requires 1 <= k && n < Power(b, k)
    ensures |Text(n, b)| <= k
    decreases k
  {
    if n >= b {
      assert k > 1 by { assert Power(b, 1) == b * Power(b, 0); }
      TextLength(n / b, b, k - 1);
    }
  }

  lemma Bounded(v: nat, p: nat, d: nat, b: base)
    requires v < p && d < b
    ensures b * v + d < b * p
  {
    assert b * (v + 1) <= b * p;
  }

  /** k digits have a value below b^k. */
  lemma {:induction false} ValueBound(s: string, b: base)
    requires AllDigits(s, b)
    ensures Value(s, b) < Power(b, |s|)
  {
    hide DigitValue;
    if s != "" {
      var front, c := s[..|s| - 1], s[|s| - 1];
      ValueBound(front, b);
      assert IsDigit(c, b);
      Bounded(Value(front, b), Power(b, |front|), DigitValue(c), b);
    }
  }

  /** A 16-bit word prints in at most four hexadecimal digits and four such digits fit in a word. */
  lemma WordText(w: word)
    ensures 1 <= |Text(w, 16)| <= 4
    ensures Value(Text(w, 16), 16) == w
  {
    assert Power(16, 4) == 0x1_0000;
    TextLength(w, 16, 4);
    ValueOfText(w, 16);
  }

  /** A byte prints in at most three decimal digits. */
  lemma ByteText(v: byte)
    ensures 1 <= |Text(v, 10)| <= 3
    ensures Value(Text(v, 10), 10) == v
  {
    assert Power(10, 3) == 1000;
    TextLength(v, 10, 3);
    ValueOfText(v, 10);
  }

  /** The length of the longest run of digits at the front of s. */
  function DigitRun(s: string, b: base): (n: nat)
    ensures n <= |s| && AllDigits(s[..n], b)
    ensures n < |s| ==> !IsDigit(s[n], b)
  {
    if s == "" || !IsDigit(s[0], b) then 0
    else
      assert forall i :: 1 <= i < |s| ==> s[i] == s[1..][i - 1];
      1 + DigitRun(s[1..], b)
  }

  /** A digit string followed by the end or by a character that is no digit is a maximal run. */
  lemma DigitRunOf(s: string, rest: string, b: base)
    requires AllDigits(s, b)
    requires rest == "" || !IsDigit(rest[0], b)
    ensures DigitRun(s + rest, b) == |s|
  {
    var t := s + rest;
    assert forall i :: 0 <= i < |s| ==> t[i] == s[i];
    assert rest != "" ==> t[|s|] == rest[0];
    assert forall n :: 0 <= n <= |t| ==> forall i :: 0 <= i < n ==> t[..n][i] == t[i];
  }

  // ---------------------------------------------------------------- signed numbers and white space

  /** White space, as `isspace` has it. */
  predicate IsBlank(c: char) {
    c == ' ' || '\t' <= c <= '\r'
  }

  lemma BlankTable(c: char)
    ensures IsBlank(c) <==> c in [' ', '\t', '\n', '\U{0B}', '\U{0C}', '\r']
  {}

  /** The length of the white space at the front of s. */
  function Blanks(s: string): (n: nat)
    ensures n <= |s|
  {
    if s == "" || !IsBlank(s[0]) then 0 else 1 + Blanks(s[1..])
  }

  lemma {:induction false} BlanksAre(s: string)
    ensures forall i :: 0 <= i < Blanks(s) ==> IsBlank(s[i])
    ensures Blanks(s) < |s| ==> !IsBlank(s[Blanks(s)])
  {
    hide IsBlank;
    if s != "" {
      BlanksAre(s[1..]);
    }
  }

  function SignLength(t: string): nat {
    if t != "" && (t[0] == '+' || t[0] == '-') then 1 else 0
  }

  /** The length of a sign and, in base 16, a "0X" behind it. No text with a small x gets here. */
  function PrefixLength(t: string, b: base): (n: nat)
    ensures n <= |t|
  {
    var n := SignLength(t);
    if b == 16 && n + 1 < |t| && t[n] == '0' && t[n + 1] == 'X' then n + 2 else n
  }

  /** An optional sign, in base 16 an optional "0X", and at least one digit. */
  predicate IsSigned(t: string, b: base) {
    PrefixLength(t, b) < |t| && AllDigits(t[PrefixLength(t, b)..], b)
  }

  function SignedValue(t: string, b: base): int
    requires IsSigned(t, b)
  {
    var v: int := Value(t[PrefixLength(t, b)..], b);
    if t[0] == '-' then -v else v
  }

  /** How much of t is such a number; none when a digit is missing where one must be. */
  function SignedRun(t: string, b: base): (n: nat)
    ensures n <= |t| && (n > 0 ==> IsSigned(t[..n], b))
    ensures 0 < n < |t| ==> !IsDigit(t[n], b)
  {
    var p := PrefixLength(t, b);
    var d := DigitRun(t[p..], b);
    if d == 0 then 0
    else
      FrontSigned(t, d, b);
      p + d
  }

  lemma PrefixOfFront(t: string, m: nat, b: base)
    requires PrefixLength(t, b) < m <= |t|
    ensures PrefixLength(t[..m], b) == PrefixLength(t, b)
  {
    var u, n := t[..m], SignLength(t);
    assert u[0] == t[0];
    assert n + 1 < m ==> u[n] == t[n] && u[n + 1] == t[n + 1];
  }

  lemma FrontSigned(t: string, d: nat, b: base)
    requires 0 < d && PrefixLength(t, b) + d <= |t| && AllDigits(t[PrefixLength(t, b)..][..d], b)
    ensures IsSigned(t[..PrefixLength(t, b) + d], b)
  {
    hide DigitValue, IsDigit;
    var p := PrefixLength(t, b);
    assert t[..p + d][p..] == t[p..][..d];
    PrefixOfFront(t, p + d, b);
  }

  /** A number in front of a text that does not continue it. */
  lemma SignedRunOf(t: string, rest: string, b: base)
    requires IsSigned(t, b)
    requires rest != "" ==> !IsDigit(rest[0], b) && (rest[0] == 'X' ==> SignedValue(t, b) != 0)
    ensures SignedRun(t + rest, b) == |t|
  {
    hide Value, DigitRun;
    var u, p := t + rest, PrefixLength(t, b);
    if PrefixLength(u, b) != p {
      ZeroText(t[p..]);
      assert false;
    }
    assert u[p..] == t[p..] + rest;
    DigitRunOf(t[p..], rest, b);
  }

  lemma ZeroText(z: string)
    ensures z == "0" ==> Value(z, 10) == Value(z, 16) == 0
  {}

  /** Digits have no white space, sign or "0X" in front. */
  lemma NoPrefix(s: string, b: base)
    requires s != "" && AllDigits(s, b)
    ensures Blanks(s) == 0 && PrefixLength(s, b) == 0 && s[0] != '-'
  {
    assert IsDigit(s[0], b) && (|s| > 1 ==> IsDigit(s[1], b));
  }

  /** The text of a number is read to its end. */
  lemma SignedText(n: nat, b: base)
    ensures IsSigned(Text(n, b), b) && SignedValue(Text(n, b), b) == n && Blanks(Text(n, b)) == 0
  {
    hide Value, Text, Blanks, PrefixLength, IsDigit;
    var t := Text(n, b);
    NoPrefix(t, b);
    assert t[0..] == t;
    ValueOfText(n, b);
  }

  lemma {:induction false} BlanksIs(s: string, k: nat)
    requires k < |s| && !IsBlank(s[k]) && forall i :: 0 <= i < k ==> IsBlank(s[i])
    ensures Blanks(s) == k
  {
    if k > 0 {
      BlanksIs(s[1..], k - 1);
    }
  }

  /** White space in front of a number is skipped. */
  lemma BlanksInFront(s: string, rest: string)
    requires Blanks(s) < |s|
    ensures Blanks(s + rest) == Blanks(s) && (s + rest)[Blanks(s)..] == s[Blanks(s)..] + rest
  {
    hide IsBlank, Blanks;
    BlanksAre(s);
    BlanksIs(s + rest, Blanks(s));
  }

  /** White space and a decimal number, as `sscanf` of one "%u" takes it, and the text behind it. */
  function ScanNumber(s: string): Option<(int, string)> {
    var t := s[Blanks(s)..];
    var n := SignedRun(t, 10);
    if n == 0 then None else Some((SignedValue(t[..n], 10), t[n..]))
  }

  /** A printed number is taken up to its end. */
  lemma ScanText(v: nat, rest: string)
    requires rest != "" ==> !IsDigit(rest[0], 10) && rest[0] != 'X'
    ensures ScanNumber(Text(v, 10) + rest) == Some((v, rest))
  {
    hide Text, IsSigned, SignedValue, SignedRun, Blanks;
    var t := Text(v, 10);
    SignedText(v, 10);
    BlanksInFront(t, rest);
    SignedRunOf(t, rest, 10);
    assert t[0..] == t && (t + rest)[..|t|] == t && (t + rest)[|t|..] == rest;
  }

  /** A minus sign in front of a printed number. */
  lemma ScanNegative(n: int)
    requires n < 0
    ensures ScanNumber("-" + Text(-n, 10)) == Some((n, ""))
  {
    hide Text, Value, DigitRun;
    var t, u := Text(-n, 10), "-" + Text(-n, 10);
    ValueOfText(-n, 10);
    assert u[1..] == t && u[0..] == u && u + "" == u;
    assert IsSigned(u, 10) && SignedValue(u, 10) == n && Blanks(u) == 0;
    SignedRunOf(u, "", 10);
    assert u[..|u|] == u && u[|u|..] == "";
  }

  /** There is no number exactly when no digit stands behind white space and at most one sign. */
  lemma NoNumber(s: string)
    ensures var t := s[Blanks(s)..];
            var k := if t != "" && t[0] in "+-" then 1 else 0;
            ScanNumber(s) == None <==> k == |t| || t[k] !in "0123456789"
  {
    hide IsDigit, Value;
    var t := s[Blanks(s)..];
    var k := if t != "" && t[0] in "+-" then 1 else 0;
    assert k == PrefixLength(t, 10);
    if k < |t| {
      OnlyDigits(t[k]);
      assert t[k..][0] == t[k];
      assert DigitRun(t[k..], 10) > 0 <==> IsDigit(t[k], 10);
    }
  }
}
