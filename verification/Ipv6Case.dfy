/**
 The parser of IPv6 addresses and the case of hexadecimal digits: capitals mean what small letters
 mean (section 2.2 of RFC 4291 leaves the case open), and addresses as they are commonly written.
 */
module Ipv6Case {
  import opened Basics
  import opened Numerals
  import opened Ipv6Text
  import opened Ipv6Parse
  import Ipv4Text

  function LowerChar(c: char): char {
    if 'A' <= c <= 'F' then 'a' + (c - 'A') else c
  }

  lemma LowerTable(i: nat)
    requires i < 6
    ensures LowerChar("ABCDEF"[i]) == "abcdef"[i]
  {}

  /** A text with its hexadecimal capitals made small. */
  function LowerHex(s: string): (t: string)
    ensures |t| == |s| && forall i :: 0 <= i < |s| ==> t[i] == LowerChar(s[i])
  {
    seq(|s|, i requires 0 <= i < |s| => LowerChar(s[i]))
  }

  lemma LowerSlices(s: string, n: nat)
    requires n <= |s|
    ensures LowerHex(s[..n]) == LowerHex(s)[..n] && LowerHex(s[n..]) == LowerHex(s)[n..]
  {}

  /** A character that is no letter from a to f in either case. */
  predicate Other(c: char) {
    c !in "abcdefABCDEF"
  }

  lemma LowerKeeps(c: char, d: char, b: base)
    ensures DigitValue(LowerChar(c)) == DigitValue(c) && (IsDigit(LowerChar(c), b) <==> IsDigit(c, b))
    ensures IsBlank(LowerChar(c)) <==> IsBlank(c)
    ensures Other(d) ==> (LowerChar(c) == d <==> c == d)
  {}

  /** The characters the parser looks for are found at the same places. */
  lemma LowerFinds(s: string, d: char)
    requires Other(d)
    ensures d in LowerHex(s) <==> d in s
    ensures IndexOf(LowerHex(s), d) == IndexOf(s, d)
  {
    hide LowerChar, IndexOf;
    var t, n := LowerHex(s), IndexOf(s, d);
    forall i | 0 <= i < |s|
      ensures t[i] == d <==> s[i] == d
    {
      LowerKeeps(s[i], d, 16);
    }
    assert forall i :: 0 <= i < n ==> s[..n][i] == s[i];
    IndexOfIs(t, d, n);
  }

  lemma {:induction false} LowerColons(s: string)
    ensures Colons(LowerHex(s)) == Colons(s)
  {
    hide LowerChar;
    if s != "" {
      LowerKeeps(s[0], ':', 16);
      LowerSlices(s, 1);
      LowerColons(s[1..]);
    }
  }

  lemma {:induction false} LowerBlanks(s: string)
    ensures Blanks(LowerHex(s)) == Blanks(s)
  {
    hide LowerChar, IsBlank;
    if s != "" {
      LowerKeeps(s[0], ':', 16);
      LowerSlices(s, 1);
      LowerBlanks(s[1..]);
    }
  }

  lemma {:induction false} LowerRun(s: string, b: base)
    ensures DigitRun(LowerHex(s), b) == DigitRun(s, b)
  {
    hide LowerChar, IsDigit;
    if s != "" {
      LowerKeeps(s[0], ':', b);
      LowerSlices(s, 1);
      LowerRun(s[1..], b);
    }
  }

  lemma {:induction false} LowerValue(s: string, b: base)
    requires AllDigits(s, b)
    ensures AllDigits(LowerHex(s), b) && Value(LowerHex(s), b) == Value(s, b)
  {
    hide LowerChar, IsDigit, DigitValue;
    forall i | 0 <= i < |s|
      ensures IsDigit(LowerHex(s)[i], b)
    {
      LowerKeeps(s[i], ':', b);
    }
    if s != "" {
      LowerKeeps(s[|s| - 1], ':', b);
      LowerSlices(s, |s| - 1);
      LowerValue(s[..|s| - 1], b);
    }
  }

  lemma LowerPrefix(t: string, b: base)
    ensures PrefixLength(LowerHex(t), b) == PrefixLength(t, b)
  {
    hide LowerChar;
    if t != "" {
      LowerKeeps(t[0], '+', b);
      LowerKeeps(t[0], '-', b);
      var n := SignLength(t);
      if n + 1 < |t| {
        LowerKeeps(t[n], '0', b);
        LowerKeeps(t[n + 1], 'X', b);
      }
    }
  }

  lemma LowerSigned(t: string, b: base)
    ensures SignedRun(LowerHex(t), b) == SignedRun(t, b)
    ensures IsSigned(t, b) ==> IsSigned(LowerHex(t), b) && SignedValue(LowerHex(t), b) == SignedValue(t, b)
  {
    hide LowerChar, DigitRun, PrefixLength, Value;
    var p := PrefixLength(t, b);
    LowerPrefix(t, b);
    LowerSlices(t, p);
    LowerRun(t[p..], b);
    if IsSigned(t, b) {
      LowerValue(t[p..], b);
      LowerKeeps(t[0], '-', b);
    }
  }

  lemma LowerScan(s: string, width: nat)
    ensures ScanLength(LowerHex(s), width) == ScanLength(s, width)
  {
    hide LowerChar, Blanks, SignedRun;
    var t := s[Blanks(s)..];
    LowerBlanks(s);
    LowerSlices(s, Blanks(s));
    if |t| <= width {
      LowerSigned(t, 16);
    } else {
      LowerSlices(t, width);
      LowerSigned(t[..width], 16);
    }
  }

  lemma LowerGroup(g: string)
    requires IsGroup(g)
    ensures IsGroup(LowerHex(g)) && GroupValue(LowerHex(g)) == GroupValue(g)
  {
    hide LowerChar, Blanks, SignedValue, IsSigned;
    LowerBlanks(g);
    LowerSlices(g, Blanks(g));
    LowerSigned(g[Blanks(g)..], 16);
  }

  lemma DottedLower(s: string)
    requires Ipv4Text.DottedChars(s) || Ipv4Text.DottedChars(LowerHex(s))
    ensures LowerHex(s) == s
  {}

  /** Dotted text holds no letters. */
  lemma LowerV4(s: string)
    ensures Ipv4Text.ParseV4(LowerHex(s)) == Ipv4Text.ParseV4(s)
  {
    hide Ipv4Text.ParseV4, Ipv4Text.DottedChars, LowerHex;
    if Ipv4Text.ParseV4(s).Some? {
      Ipv4Text.AcceptedChars(s);
      DottedLower(s);
    } else if Ipv4Text.ParseV4(LowerHex(s)).Some? {
      Ipv4Text.AcceptedChars(LowerHex(s));
      DottedLower(s);
    }
  }

  lemma LowerPrefixRefused(s: string)
    ensures RefusedPrefix(LowerHex(s)) == RefusedPrefix(s)
  {
    hide LowerChar, ScanLength, GroupValue, IsScanned;
    LowerScan(s, |s|);
    if ScanLength(s, |s|) == 4 {
      LowerSlices(s, 4);
      ScannedWhole(s[..4], |s|);
      LowerGroup(s[..4]);
    }
  }

  lemma LowerTail(s: string)
    ensures ParseTail(LowerHex(s)) == ParseTail(s)
  {
    hide LowerHex, IndexOf, RefusedPrefix, Ipv4Text.ParseV4, TailWords;
    var n := IndexOf(s, ':');
    LowerFinds(s, ':');
    LowerV4(s);
    LowerPrefixRefused(s);
    if n < |s| {
      LowerSlices(s, n + 1);
      LowerV4(s[n + 1..]);
    }
  }

  lemma {:induction false} LowerRunV6(s: string, a: Words, k: nat, seen: bool)
    requires k <= 8
    ensures Run(LowerHex(s), a, k, seen) == Run(s, a, k, seen)
    decreases |s|
  {
    hide LowerHex, Run, LowerChar;
    var t := LowerHex(s);
    if s == "" || k == 8 {
      RunExit(s, a, k, seen);
      RunExit(t, a, k, seen);
    } else {
      LowerKeeps(s[0], ':', 16);
      if s[0] == ':' {
        LowerColon(s, a, k, seen);
      } else {
        LowerWord(s, a, k, seen);
      }
    }
  }

  lemma {:induction false} LowerColon(s: string, a: Words, k: nat, seen: bool)
    requires s != "" && s[0] == ':' && k < 8
    ensures Run(LowerHex(s), a, k, seen) == Run(s, a, k, seen)
    decreases |s|, 0
  {
    hide LowerHex, Run, LowerChar, Colons;
    var t := LowerHex(s);
    LowerKeeps(s[0], ':', 16);
    ColonStep(s, a, k, seen);
    ColonStep(t, a, k, seen);
    if |s| == 1 || s[1] != ':' {
      if |s| > 1 {
        LowerKeeps(s[1], ':', 16);
      }
      LowerSlices(s, 1);
      LowerRunV6(s[1..], a, k, seen);
    } else {
      LowerKeeps(s[1], ':', 16);
      LowerSlices(s, 2);
      LowerColons(s[2..]);
      if !seen && |s| > 2 && Colons(s[2..]) + 1 <= 8 - k {
        LowerRunV6(s[2..], a, 8 - (Colons(s[2..]) + 1), true);
      }
    }
  }

  lemma {:induction false} LowerWord(s: string, a: Words, k: nat, seen: bool)
    requires s != "" && s[0] != ':' && k < 8
    ensures Run(LowerHex(s), a, k, seen) == Run(s, a, k, seen)
    decreases |s|, 0
  {
    hide LowerHex, Run, LowerChar, ScanLength, IsGroup, GroupValue;
    var t, n := LowerHex(s), GroupLength(s);
    LowerKeeps(s[0], ':', 16);
    GroupStep(s, a, k, seen);
    GroupStep(t, a, k, seen);
    LowerScan(s, 4);
    if n > 0 {
      LowerSlices(s, n);
      LowerGroup(s[..n]);
      if n < |s| {
        LowerKeeps(s[n], ':', 16);
      }
      LowerRunV6(s[n..], a[k := GroupValue(s[..n])], k + 1, seen);
    }
  }

  /** For every text, making its hexadecimal capitals small changes neither acceptance nor address. */
  lemma CaseDoesNotMatter(s: string)
    ensures ParseV6(LowerHex(s)) == ParseV6(s)
  {
    hide LowerHex, Run, ParseTail, LowerChar;
    var t := LowerHex(s);
    LowerFinds(s, 'x');
    LowerRunV6(s, NO_WORDS, 0, false);
    if |s| > 2 {
      LowerKeeps(s[0], ':', 16);
      LowerKeeps(s[1], ':', 16);
      LowerSlices(s, 2);
      LowerFinds(s[2..], '.');
      LowerTail(s[2..]);
    }
  }

  // ---------------------------------------------------------------- addresses as they are written

  lemma ThreeDigits(a: char, b: char, c: char)
    requires AllDigits([a, b, c], 16)
    ensures IsGroup([a, b, c])
    ensures GroupValue([a, b, c]) == 256 * DigitValue(a) + 16 * DigitValue(b) + DigitValue(c)
  {
    hide DigitValue, IsDigit, IsGroup, GroupValue, Value;
    var s := [a, b, c];
    assert s[0] == a && s[1] == b && s[2] == c;
    OneDigit(a, 16);
    ValueStep([a], b, 16);
    ValueStep([a] + [b], c, 16);
    assert [a] + [b] + [c] == s;
    DigitGroup(s);
  }

  lemma FourDigits(a: char, b: char, c: char, d: char)
    requires AllDigits([a, b, c, d], 16)
    ensures IsGroup([a, b, c, d])
    ensures GroupValue([a, b, c, d])
         == 4096 * DigitValue(a) + 256 * DigitValue(b) + 16 * DigitValue(c) + DigitValue(d)
  {
    hide DigitValue, IsDigit, IsGroup, GroupValue, Value;
    var s := [a, b, c, d];
    assert s[0] == a && s[1] == b && s[2] == c && s[3] == d;
    OneDigit(a, 16);
    ValueStep([a], b, 16);
    ValueStep([a] + [b], c, 16);
    ValueStep([a] + [b] + [c], d, 16);
    assert [a] + [b] + [c] + [d] == s;
    DigitGroup(s);
  }

  lemma SingleDigit(a: char)
    requires IsDigit(a, 16)
    ensures IsGroup([a]) && GroupValue([a]) == DigitValue(a)
  {
    hide DigitValue, IsDigit, IsGroup, GroupValue;
    OneDigit(a, 16);
    DigitGroup([a]);
  }

  lemma TwoThenOne(g: string, h: string, i: string)
    requires IsGroup(g) && IsGroup(h) && IsGroup(i)
    ensures ParseV6(g + (":" + (h + ("::" + i))))
         == Some([GroupValue(g), GroupValue(h), 0, 0, 0, 0, 0, GroupValue(i)])
  {
    hide ParseV6, IsGroup, GroupValue;
    var f := Compressed(false, [g, h], [i]);
    assert [g, h][1..] == [h] && [h][1..] == [] && [i][1..] == [];
    assert Join([g, h]) == g + (":" + h) && Join([i]) == i;
    assert "" + ((g + (":" + h)) + ("::" + i)) == g + (":" + (h + ("::" + i)));
    assert FormWords(f) == [GroupValue(g), GroupValue(h), 0, 0, 0, 0, 0, GroupValue(i)];
    ParseForm(f);
  }

  lemma DocumentationGroups()
    ensures IsGroup("2001") && IsGroup("DB8") && IsGroup("1")
    ensures GroupValue("2001") == 0x2001 && GroupValue("DB8") == 0xDB8 && GroupValue("1") == 1
  {
    hide IsGroup, GroupValue;
    FourDigits('2', '0', '0', '1');
    ThreeDigits('D', 'B', '8');
    SingleDigit('1');
  }

  lemma DocumentationText()
    ensures "2001" + (":" + ("DB8" + ("::" + "1"))) == "2001:DB8::1"
    ensures LowerHex("2001:DB8::1") == "2001:db8::1"
  {}

  /** The documentation address, in capitals and in small letters. */
  lemma DocumentationAddress()
    ensures ParseV6("2001:DB8::1") == ParseV6("2001:db8::1") == Some([0x2001, 0xDB8, 0, 0, 0, 0, 0, 1])
  {
    hide ParseV6, IsGroup, GroupValue, LowerHex;
    DocumentationGroups();
    TwoThenOne("2001", "DB8", "1");
    DocumentationText();
    CaseDoesNotMatter("2001:DB8::1");
  }

  /** Every capital letter behind "::". */
  lemma CapitalDigit(i: nat)
    requires i < 16
    ensures ParseV6("::" + ["0123456789ABCDEF"[i]]) == Some([0, 0, 0, 0, 0, 0, 0, i])
  {
    hide ParseV6;
    DigitTables(i);
    SingleDigit("0123456789ABCDEF"[i]);
    LastGroup(["0123456789ABCDEF"[i]]);
  }

  lemma MappedText(ffff: string, d: string, a: Ipv4Text.Ipv4)
    requires |ffff| == 4 && IsGroup(ffff) && GroupValue(ffff) == 0xFFFF && Ipv4Text.ParseV4(d) == Some(a)
    ensures ParseV6("::" + (ffff + ":" + d))
         == Some(ToWords([0, 0, 0, 0, 0, 0, 0, 0, 0, 0, 0xFF, 0xFF, a[0], a[1], a[2], a[3]]))
  {
    hide ParseV6, IsGroup, GroupValue, Ipv4Text.ParseV4;
    assert ffff + "" + ":" == ffff + ":";
    ParseForm(Tail(Mapped(ffff, ""), d));
  }

  lemma CompatibleText(d: string, a: Ipv4Text.Ipv4)
    requires Ipv4Text.ParseV4(d) == Some(a)
    ensures ParseV6("::" + d) == Some(ToWords([0, 0, 0, 0, 0, 0, 0, 0, 0, 0, 0, 0, a[0], a[1], a[2], a[3]]))
  {
    hide ParseV6, Ipv4Text.ParseV4;
    assert "::" + ("" + d) == "::" + d;
    ParseForm(Tail(Compatible, d));
  }

  lemma MappedPrefixes(d: string)
    ensures "::" + ("ffff" + ":" + d) == "::ffff:" + d && "::" + ("FFFF" + ":" + d) == "::FFFF:" + d
  {}

  /** Mapped and compatible addresses (section 2.5.5 of RFC 4291), byte by byte, in either case. */
  lemma DottedTails(a: Ipv4Text.Ipv4)
    ensures ParseV6("::ffff:" + Ipv4Text.Dotted(a)) == ParseV6("::FFFF:" + Ipv4Text.Dotted(a))
         == Some(ToWords([0, 0, 0, 0, 0, 0, 0, 0, 0, 0, 0xFF, 0xFF, a[0], a[1], a[2], a[3]]))
    ensures ParseV6("::" + Ipv4Text.Dotted(a))
         == Some(ToWords([0, 0, 0, 0, 0, 0, 0, 0, 0, 0, 0, 0, a[0], a[1], a[2], a[3]]))
  {
    hide ParseV6, Ipv4Text.Dotted, Ipv4Text.ParseV4, IsGroup, GroupValue, ToWords;
    var d := Ipv4Text.Dotted(a);
    Ipv4Text.ParseDotted(a);
    FourDigits('f', 'f', 'f', 'f');
    FourDigits('F', 'F', 'F', 'F');
    MappedText("ffff", d, a);
    MappedText("FFFF", d, a);
    CompatibleText(d, a);
    MappedPrefixes(d);
  }

  /** A small x anywhere refuses the whole text. */
  lemma SmallXRefused(s: string)
    requires 'x' in s
    ensures ParseV6(s) == None
  {}

  /** A "0X" without a digit, a second "::", and too few groups are refused. */
  lemma RefusedExamples()
    ensures ParseV6("::0X") == None && ParseV6("1::2::3") == None && ParseV6("1:2") == None
  {
    PrefixAlone();
    SecondDoubleColon();
    TooFewGroups();
  }

  lemma ScanPrefixAlone()
    ensures GroupLength("0X") == 0
  {
    hide Blanks, IsDigit, IsScanned;
    BlanksIs("0X", 0);
    assert "0X"[0..] == "0X" && "0X"[2..] == "";
  }

  lemma PrefixAlone()
    ensures ParseV6("::0X") == None
  {
    hide Run, Colons, GroupLength, IsGroup, GroupValue;
    ColonStep("::0X", NO_WORDS, 0, false);
    assert "::0X"[2..] == "0X";
    NoColons("0X");
    ScanPrefixAlone();
    GroupStep("0X", NO_WORDS, 7, true);
  }

  lemma SecondDoubleColon()
    ensures ParseV6("1::2::3") == None
  {
    hide Run, IsGroup, GroupValue;
    SingleDigit('1');
    SingleDigit('2');
    assert "1" + "::2::3" == "1::2::3" && "::2::3"[2..] == "2::3" && "2" + "::3" == "2::3";
    RunGroup("1", "::2::3", NO_WORDS, 0, false);
    var a := NO_WORDS[0 := GroupValue("1")];
    ColonStep("::2::3", a, 1, false);
    assert "2::3"[1..] == "::3" && "::3"[1..] == ":3" && ":3"[1..] == "3" && "3"[1..] == "";
    assert Colons(":3") == 1 && Colons("::3") == 2 && Colons("2::3") == 2;
    RunGroup("2", "::3", a, 5, true);
    ColonStep("::3", a[5 := GroupValue("2")], 6, true);
  }

  lemma TooFewGroups()
    ensures ParseV6("1:2") == None
  {
    hide Run, IsGroup, GroupValue;
    SingleDigit('1');
    SingleDigit('2');
    assert "1" + ":2" == "1:2" && ":2"[1..] == "2" && "2" + "" == "2";
    RunGroup("1", ":2", NO_WORDS, 0, false);
    var a := NO_WORDS[0 := GroupValue("1")];
    ColonStep(":2", a, 1, false);
    RunGroup("2", "", a, 1, false);
    RunExitShort(a[1 := GroupValue("2")]);
  }

  lemma RunExitShort(a: Words)
    ensures Run("", a, 2, false) == None
  {}
}
