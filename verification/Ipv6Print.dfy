/**
 The printer `inet_ntop_v6`: the two passes that mark the leftmost longest block of zero words
 (section 4.2.3 of RFC 5952), the text the third pass writes, and the round trip through the parser.
 */
module Ipv6Print {
  import opened Basics
  import opened Numerals
  import opened Ipv6Text
  import Ipv4Text
  import Ipv6Parse

  /** What `INET6_ADDRSTRLEN` can be: the repository's own 46, or a platform's larger value. */
  type addrStrLen = n: nat | n >= 46 witness 46

  // ---------------------------------------------------------------- blocks of zero words

  /** The words at start, ..., start + n - 1 are all zero. */
  predicate IsBlock(w: Words, start: nat, n: nat) {
    start + n <= 8 && forall i :: start <= i < start + n ==> w[i] == 0
  }

  /** A longest block of zero words, and the first of that length; n is 0 when no word is zero. */
  ghost predicate IsLeftmostLongest(w: Words, start: nat, n: nat) {
    && IsBlock(w, start, n)
    && (n == 0 ==> start == 0)
    && forall s: nat, m: nat :: IsBlock(w, s, m) && m > 0 ==> m < n || (m == n && start <= s)
  }

  /** The number of zero words that end at word i. */
  function ZerosTo(w: Words, i: nat): (n: nat)
    requires i < 8
    ensures n <= i + 1 && (n == 0 <==> w[i] != 0) && IsBlock(w, i + 1 - n, n)
    ensures n <= i ==> w[i - n] != 0
  {
    if w[i] != 0 then 0 else if i == 0 then 1 else 1 + ZerosTo(w, i - 1)
  }

  lemma ZerosToIsLongest(w: Words, s: nat, m: nat)
    requires IsBlock(w, s, m) && m > 0
    ensures m <= ZerosTo(w, s + m - 1)
  {}

  /** The last word of the leftmost longest block among the words before i, or -1. */
  function MaxPos(w: Words, i: nat): (p: int)
    requires i <= 8
    ensures -1 <= p < i && (p >= 0 ==> w[p] == 0)
  {
    if i == 0 then -1
    else
      var p := MaxPos(w, i - 1);
      if w[i - 1] == 0 && (p == -1 || ZerosTo(w, i - 1) > ZerosTo(w, p)) then i - 1 else p
  }

  lemma MaxPosStep(w: Words, i: nat)
    requires i < 8
    ensures MaxPos(w, i + 1) ==
            if w[i] == 0 && (MaxPos(w, i) == -1 || ZerosTo(w, i) > ZerosTo(w, MaxPos(w, i))) then i
            else MaxPos(w, i)
  {
    hide ZerosTo;
  }

  /** No earlier word ends a longer block, and none before it ends one as long. */
  lemma {:induction false} MaxPosIsBest(w: Words, i: nat, j: nat)
    requires j < i <= 8 && w[j] == 0
    ensures var p := MaxPos(w, i);
            p >= 0 && (ZerosTo(w, j) < ZerosTo(w, p) || (ZerosTo(w, j) == ZerosTo(w, p) && p <= j))
    decreases i
  {
    hide ZerosTo, MaxPos;
    MaxPosStep(w, i - 1);
    if j < i - 1 {
      MaxPosIsBest(w, i - 1, j);
    }
  }

  function BlockLength(w: Words): (n: nat)
    ensures n <= 8
  {
    var p := MaxPos(w, 8);
    if p == -1 then 0 else ZerosTo(w, p)
  }

  function BlockStart(w: Words): (s: nat)
    ensures IsBlock(w, s, BlockLength(w))
  {
    var p := MaxPos(w, 8);
    if p == -1 then 0 else p + 1 - ZerosTo(w, p)
  }

  lemma BlockIsLeftmostLongest(w: Words)
    ensures IsLeftmostLongest(w, BlockStart(w), BlockLength(w))
  {
    forall s: nat, m: nat | IsBlock(w, s, m) && m > 0
      ensures m < BlockLength(w) || (m == BlockLength(w) && BlockStart(w) <= s)
    {
      ZerosToIsLongest(w, s, m);
      MaxPosIsBest(w, 8, s + m - 1);
    }
  }

  lemma LeftmostLongestIsUnique(w: Words, s: nat, n: nat, s': nat, n': nat)
    requires IsLeftmostLongest(w, s, n) && IsLeftmostLongest(w, s', n')
    ensures s == s' && n == n'
  {
    assert IsBlock(w, s, n) && IsBlock(w, s', n');
  }

  /** What the first pass stores for word i. */
  function Marked(w: Words, i: nat): int
    requires i < 8
  {
    if w[i] == 0 then ZerosTo(w, i) else -1
  }

  /** What is left for word i after the second pass: its number in the leftmost longest block. */
  function Numbered(w: Words, i: nat): int
    requires i < 8
  {
    if BlockStart(w) <= i < BlockStart(w) + BlockLength(w) then i - BlockStart(w) + 1 else -1
  }

  /** Inside the block the numbers of the first pass are already the final ones. */
  lemma MarkedInBlock(w: Words, i: nat)
    requires i < BlockLength(w)
    ensures BlockStart(w) + i < 8 && Marked(w, BlockStart(w) + i) == i + 1
    decreases i
  {
    var s := BlockStart(w);
    var p := MaxPos(w, 8);
    if i == 0 {
      assert ZerosTo(w, p) == BlockLength(w);
    } else {
      MarkedInBlock(w, i - 1);
    }
  }

  /** How the second pass knows the block: it ends at the best position and starts behind a nonzero word. */
  lemma NumberedIs(w: Words, i: nat)
    requires i < 8 && MaxPos(w, 8) >= 0
    ensures BlockStart(w) + BlockLength(w) == MaxPos(w, 8) + 1 && BlockLength(w) > 0
    ensures BlockStart(w) <= i <= MaxPos(w, 8) ==> Marked(w, i) == Numbered(w, i) > 0
    ensures i < BlockStart(w) || i > MaxPos(w, 8) ==> Numbered(w, i) == -1
    ensures i == BlockStart(w) - 1 ==> Marked(w, i) == -1
  {
    if BlockStart(w) <= i <= MaxPos(w, 8) {
      MarkedInBlock(w, i - BlockStart(w));
    }
  }

  /** Where the third pass can stand: outside the block, or at its first word. */
  lemma NumberedCases(w: Words, i: nat)
    requires i < 8 && Numbered(w, i) <= 1
    ensures Numbered(w, i) == -1 || (Numbered(w, i) == 1 && i == BlockStart(w) && BlockLength(w) > 0)
    ensures BlockStart(w) + BlockLength(w) < 8 ==> Numbered(w, BlockStart(w) + BlockLength(w)) == -1
    ensures Numbered(w, i) == -1 && i < 7 ==> Numbered(w, i + 1) <= 1
  {}

  lemma NumberedFirst(w: Words)
    ensures Numbered(w, 0) <= 1
  {}

  lemma FirstPassStep(w: Words, i: nat)
    requires i < 8
    ensures w[i] == 0 ==> ZerosTo(w, i) == 1 + if i > 0 then ZerosTo(w, i - 1) else 0
    ensures MaxPos(w, i + 1) ==
            if w[i] == 0 && (MaxPos(w, i) == -1 || ZerosTo(w, i) > ZerosTo(w, MaxPos(w, i))) then i
            else MaxPos(w, i)
    ensures Marked(w, i) == if w[i] == 0 then ZerosTo(w, i) else -1
    ensures BlockLength(w) == if MaxPos(w, 8) == -1 then 0 else ZerosTo(w, MaxPos(w, 8))
  {}

  /** The first pass over `runpos`: number the words of every zero block, remember the best block. */
  method MarkBlocks(asShorts: Bytes, runPos: array<int>) returns (max: int, maxPos: int)
    requires runPos.Length == 8
    modifies runPos
    ensures var w := ToWords(asShorts);
            && maxPos == MaxPos(w, 8) && max == BlockLength(w)
            && forall i :: 0 <= i < 8 ==> runPos[i] == Marked(w, i)
  {
    hide ZerosTo, MaxPos, ToWords, Short, BlockLength, Marked;
    ghost var w := ToWords(asShorts);
    FirstPassStep(w, 7);
    var current := 1;
    max, maxPos := 0, -1;
    for i := 0 to 8
      invariant current == 1 + if i > 0 then ZerosTo(w, i - 1) else 0
      invariant maxPos == MaxPos(w, i) && max == if maxPos == -1 then 0 else ZerosTo(w, maxPos)
      invariant forall j :: 0 <= j < i ==> runPos[j] == Marked(w, j)
    {
      FirstPassStep(w, i);
      assert w[i] == Short(asShorts, i);
      if Short(asShorts, i) == 0 {
        runPos[i] := current;
        if current > max {
          maxPos := i;
          max := current;
        }
        current := current + 1;
      } else {
        runPos[i] := -1;
        current := 1;
      }
    }
  }

  /** The second pass: unmark everything but the best block. */
  method KeepLongestBlock(ghost w: Words, runPos: array<int>, maxPos: int)
    requires runPos.Length == 8 && maxPos == MaxPos(w, 8) && maxPos >= 0
    requires forall i :: 0 <= i < 8 ==> runPos[i] == Marked(w, i)
    modifies runPos
    ensures forall i :: 0 <= i < 8 ==> runPos[i] == Numbered(w, i)
  {
    hide ZerosTo, MaxPos;
    var tmpMax := maxPos;
    var i := 7;
    while i >= 0
      invariant -1 <= i < 8
      invariant forall j :: 0 <= j <= i ==> runPos[j] == Marked(w, j)
      invariant forall j :: i < j < 8 ==> runPos[j] == Numbered(w, j)
      invariant tmpMax == if i < BlockStart(w) - 1 then -1 else maxPos
    {
      NumberedIs(w, i);
      if i > tmpMax {
        runPos[i] := -1;
      } else if runPos[i] == -1 {
        tmpMax := -1;
      }
      i := i - 1;
    }
  }

  lemma BlockFacts(w: Words)
    ensures BlockLength(w) == 0 ==> forall i :: 0 <= i < 8 ==> Marked(w, i) == Numbered(w, i)
    ensures BlockLength(w) > 0 ==> MaxPos(w, 8) >= 0
  {
    forall i | 0 <= i < 8 && w[i] == 0
      ensures BlockLength(w) > 0
    {
      MaxPosIsBest(w, 8, i);
    }
  }

  /** Both passes: exactly the leftmost longest block stays marked, numbered from 1. */
  method MarkLongestBlock(asShorts: Bytes) returns (runPos: array<int>, max: int, maxPos: int)
    ensures fresh(runPos) && runPos.Length == 8
    ensures max == BlockLength(ToWords(asShorts)) && maxPos == MaxPos(ToWords(asShorts), 8)
    ensures forall i :: 0 <= i < 8 ==> runPos[i] == Numbered(ToWords(asShorts), i)
  {
    hide BlockStart, BlockLength, MaxPos, Marked, Numbered, ToWords;
    runPos := new int[8];
    max, maxPos := MarkBlocks(asShorts, runPos);
    BlockFacts(ToWords(asShorts));
    if max > 0 {
      KeepLongestBlock(ToWords(asShorts), runPos, maxPos);
    }
  }

  // ---------------------------------------------------------------- the printed text

  function Groups(ws: seq<word>): (gs: seq<string>)
    ensures |gs| == |ws| && AllGroups(gs) && Values(gs) == ws
  {
    if ws == [] then []
    else
      var rest := Groups(ws[1..]);
      GroupsCons(ws, rest);
      [Text(ws[0], 16)] + rest
  }

  lemma GroupsCons(ws: seq<word>, rest: seq<string>)
    requires ws != [] && AllGroups(rest) && Values(rest) == ws[1..]
    ensures AllGroups([Text(ws[0], 16)] + rest) && Values([Text(ws[0], 16)] + rest) == ws
  {
    hide Text, IsGroup, GroupValue;
    var g := Text(ws[0], 16);
    WordGroup(ws[0]);
    assert ([g] + rest)[1..] == rest;
  }

  /** IPv4-compatible and IPv4-mapped addresses get a dotted tail. */
  predicate HasTail(w: Words) {
    BlockStart(w) == 0 && (BlockLength(w) == 6 || (BlockLength(w) == 5 && w[5] == 0xFFFF))
  }

  function LastFour(w: Words): Ipv4Text.Ipv4 {
    [High(w[6]), Low(w[6]), High(w[7]), Low(w[7])]
  }

  function PrintedForm(w: Words): Form {
    var s, n := BlockStart(w), BlockLength(w);
    if HasTail(w) then
      Tail(if n == 5 then Mapped("ffff", "") else Compatible, Ipv4Text.Dotted(LastFour(w)))
    else if n == 0 then Full(false, Groups(w))
    else Compressed(false, Groups(w[..s]), Groups(w[s + n..]))
  }

  function PrintedText(w: Words): string {
    FormText(PrintedForm(w))
  }

  lemma FfffIsAllOnes()
    ensures IsGroup("ffff") && GroupValue("ffff") == 0xFFFF
  {
    assert Value("f", 16) == 15;
    assert "ff"[..1] == "f" && "fff"[..2] == "ff" && "ffff"[..3] == "fff";
    DigitGroup("ffff");
  }

  lemma TailWordsOf(w: Words)
    requires HasTail(w)
    ensures TailWords(BlockLength(w) == 5, LastFour(w)) == w
  {
    hide BlockStart, BlockLength;
    assert IsBlock(w, 0, BlockLength(w));
    assert w[0] == w[1] == w[2] == w[3] == w[4] == 0;
    assert MakeWord(High(w[6]), Low(w[6])) == w[6] && MakeWord(High(w[7]), Low(w[7])) == w[7];
  }

  /** The printer picks a form of the address. */
  lemma PrintedFormIsValid(w: Words)
    ensures ValidForm(PrintedForm(w)) && FormWords(PrintedForm(w)) == w
  {
    hide BlockStart, BlockLength, Ipv4Text.ParseV4, Ipv4Text.Dotted, TailWords, LastFour, Groups, Values;
    hide IsGroup, GroupValue;
    var s, n := BlockStart(w), BlockLength(w);
    if HasTail(w) {
      FfffIsAllOnes();
      Ipv4Text.ParseDotted(LastFour(w));
      TailWordsOf(w);
    } else if n > 0 {
      assert IsBlock(w, s, n);
      assert w[..s] + Zeros(n) + w[s + n..] == w;
    }
  }

  /** For every address, the parser returns the address whose text the printer wrote. */
  lemma RoundTrip(w: Words)
    ensures Ipv6Parse.ParseV6(PrintedText(w)) == Some(w)
  {
    PrintedFormIsValid(w);
    Ipv6Parse.ParseForm(PrintedForm(w));
  }

  /** In terms of the sixteen bytes in memory. */
  lemma RoundTripBytes(b: Bytes)
    ensures var r := Ipv6Parse.ParseV6(PrintedText(ToWords(b)));
            r.Some? && ToBytes(r.value) == b
  {
    hide PrintedText;
    RoundTrip(ToWords(b));
    BytesAndWords(b, ToWords(b));
  }

  /** Two addresses never print alike. */
  lemma PrintedTextIsInjective(w: Words, w': Words)
    requires PrintedText(w) == PrintedText(w')
    ensures w == w'
  {
    RoundTrip(w);
    RoundTrip(w');
  }

  // ---------------------------------------------------------------- the third pass

  /** What the main loop has written when it comes to word i. */
  function Emitted(w: Words, i: nat): string
    requires i <= 8
  {
    if i == 0 then ""
    else
      var before := Emitted(w, i - 1);
      if Numbered(w, i - 1) == -1 then
        before + Text(w[i - 1], 16) + (if i < 8 && Numbered(w, i) != 1 then ":" else "")
      else if Numbered(w, i - 1) == 1 then before + "::"
      else before
  }

  /** Nothing is written for the other words of the block. */
  lemma SkipBlock(w: Words, i: nat)
    requires BlockStart(w) < i <= BlockStart(w) + BlockLength(w) <= 8
    ensures Emitted(w, i) == Emitted(w, BlockStart(w) + 1)
  {
    if i > BlockStart(w) + 1 {
      SkipBlock(w, i - 1);
    }
  }

  lemma {:induction false} JoinAtEnd(gs: seq<string>, g: string)
    ensures Join(gs + [g]) == Join(gs) + (if gs == [] then "" else ":") + g
    decreases |gs|
  {
    if |gs| == 1 {
      assert (gs + [g])[1..] == [g];
    } else if |gs| > 1 {
      assert (gs + [g])[1..] == gs[1..] + [g];
      JoinAtEnd(gs[1..], g);
    }
  }

  lemma {:induction false} GroupsAtEnd(ws: seq<word>, v: word)
    ensures Groups(ws + [v]) == Groups(ws) + [Text(v, 16)]
  {
    hide Text;
    if ws == [] {
      assert ([] + [v])[1..] == [];
    } else {
      assert (ws + [v])[1..] == ws[1..] + [v];
      GroupsAtEnd(ws[1..], v);
    }
  }

  lemma NoGroups()
    ensures Groups([]) == [] && Join([]) == ""
  {}

  lemma Append(base: string, x: string, t: string, sep: string)
    ensures base + x + t + sep == base + (x + t + sep)
  {}

  lemma EmittedStep(w: Words, i: nat)
    requires 0 < i <= 8 && Numbered(w, i - 1) == -1
    ensures Emitted(w, i) ==
            Emitted(w, i - 1) + Text(w[i - 1], 16) + (if i < 8 && Numbered(w, i) != 1 then ":" else "")
  {}

  /** The words from, ..., i - 1 as joined groups, with a colon when more words follow before to. */
  function RunText(w: Words, from: nat, i: nat, to: nat): string
    requires from <= i <= to <= 8
  {
    Join(Groups(w[from..i])) + if from < i < to then ":" else ""
  }

  lemma RunTextStart(w: Words, from: nat, to: nat)
    requires from <= to <= 8
    ensures RunText(w, from, from, to) == ""
  {
    assert w[from..from] == [];
  }

  lemma RunTextStep(w: Words, from: nat, i: nat, to: nat)
    requires from < i <= to <= 8
    ensures RunText(w, from, i, to) == RunText(w, from, i - 1, to) + Text(w[i - 1], 16) + if i < to then ":" else ""
  {
    hide Join, Groups;
    assert w[from..i] == w[from..i - 1] + [w[i - 1]];
    GroupsAtEnd(w[from..i - 1], w[i - 1]);
    JoinAtEnd(Groups(w[from..i - 1]), Text(w[i - 1], 16));
    if i == from + 1 {
      assert w[from..from] == [];
      NoGroups();
    }
  }

  /** A run of words outside the block comes out as joined groups. */
  lemma {:induction false} EmittedRun(w: Words, from: nat, i: nat, to: nat, base: string)
    requires from <= i <= to <= 8 && (to == 8 || Numbered(w, to) == 1)
    requires forall j :: from <= j < to ==> Numbered(w, j) == -1
    requires Emitted(w, from) == base
    ensures Emitted(w, i) == base + RunText(w, from, i, to)
    decreases i
  {
    hide *;
    if i == from {
      RunTextStart(w, from, to);
    } else {
      EmittedStep(w, i);
      EmittedRun(w, from, i - 1, to, base);
      RunTextStep(w, from, i, to);
      Append(base, RunText(w, from, i - 1, to), Text(w[i - 1], 16), if i < to then ":" else "");
    }
  }

  lemma EmittedBlock(w: Words)
    requires BlockLength(w) > 0
    ensures Emitted(w, BlockStart(w) + BlockLength(w)) == Emitted(w, BlockStart(w)) + "::"
  {
    SkipBlock(w, BlockStart(w) + BlockLength(w));
  }

  /** The text in front of the "::". */
  function LeftText(w: Words): string {
    Join(Groups(w[..BlockStart(w)]))
  }

  /** The text behind the "::". */
  function RightText(w: Words): string {
    Join(Groups(w[BlockStart(w) + BlockLength(w)..]))
  }

  lemma PrintedGroups(w: Words)
    requires !HasTail(w)
    ensures PrintedText(w) ==
            if BlockLength(w) == 0 then Join(Groups(w)) else LeftText(w) + ("::" + RightText(w))
  {
    hide Join, Groups, BlockStart, BlockLength;
    var t := PrintedText(w);
    assert t == "" + t[0..];
  }

  lemma EmittedGroups(w: Words)
    requires BlockLength(w) == 0
    ensures Emitted(w, 8) == Join(Groups(w))
  {
    hide Join, Groups, BlockStart;
    NothingEmitted(w);
    EmittedRun(w, 0, 8, 8, "");
    assert w[0..8] == w;
  }

  lemma WholeRuns(w: Words, i: nat, j: nat)
    requires i <= 8 && j <= 8
    ensures "" + RunText(w, 0, i, i) == Join(Groups(w[..i]))
    ensures RunText(w, j, 8, 8) == Join(Groups(w[j..]))
  {
    assert w[0..i] == w[..i] && w[j..8] == w[j..];
  }

  lemma EmittedLeft(w: Words)
    requires BlockLength(w) > 0
    ensures Emitted(w, BlockStart(w)) == LeftText(w)
  {
    var s := BlockStart(w);
    NothingEmitted(w);
    hide Join, Groups, BlockStart, BlockLength, Emitted;
    EmittedRun(w, 0, s, s, "");
    WholeRuns(w, s, 8);
  }

  lemma EmittedRight(w: Words)
    requires BlockLength(w) > 0
    ensures Emitted(w, 8) == Emitted(w, BlockStart(w)) + "::" + RightText(w)
  {
    var s, n := BlockStart(w), BlockLength(w);
    EmittedBlock(w);
    hide Join, Groups, BlockStart, BlockLength, Emitted;
    EmittedRun(w, s + n, 8, 8, Emitted(w, s) + "::");
    WholeRuns(w, s, s + n);
  }

  /** At its end the loop has written the printed form. */
  lemma EmittedIsPrinted(w: Words)
    requires !HasTail(w)
    ensures Emitted(w, 8) == PrintedText(w)
  {
    hide *;
    PrintedGroups(w);
    if BlockLength(w) == 0 {
      EmittedGroups(w);
    } else {
      EmittedLeft(w);
      EmittedRight(w);
      Append(LeftText(w), "::", RightText(w), "");
    }
  }

  lemma NothingEmitted(w: Words)
    ensures Emitted(w, 0) == ""
  {}

  /** Five characters a word bound what is written. */
  lemma EmittedLength(w: Words, i: nat)
    requires i <= 8
    ensures |Emitted(w, i)| <= if i == 8 then 39 else 5 * i
  {
    if i > 0 {
      EmittedLength(w, i - 1);
      WordText(w[i - 1]);
    }
  }

  /** `%x` and the separator of one word: the character behind the digits is a colon or a NUL. */
  method WriteGroup(dst: array<char>, at: nat, v: word, colon: bool, strLen: addrStrLen) returns (next: nat)
    requires at + 5 < strLen <= dst.Length
    modifies dst
    ensures var t := Text(v, 16);
            && at + |t| < dst.Length && next == at + |t| + (if colon then 1 else 0)
            && dst[..] == old(dst[..at]) + t + (if colon then ":" else "\0") + old(dst[at + |t| + 1..])
  {
    hide Text;
    WordText(v);
    var cursor := at;
    ghost var front, back := dst[..at], dst[at + |Text(v, 16)| + 1..];
    var n := Ipv4Text.Snprintf(dst, cursor, strLen - cursor, Text(v, 16));
    cursor := cursor + n;
    if colon {
      ghost var was := dst[..];
      dst[cursor] := ':';
      assert dst[..] == was[cursor := ':'];
      ColonForNul(front, Text(v, 16), back);
      cursor := cursor + 1;
    }
    next := cursor;
  }

  lemma ColonForNul(front: string, t: string, back: string)
    ensures (front + t + "\0" + back)[|front| + |t| := ':'] == front + t + ":" + back
  {}

  /** The state of the buffer: t is written, perhaps with a NUL behind it, and the rest is as it was. */
  ghost predicate Wrote(dst: seq<char>, was: seq<char>, t: string) {
    && |t| < |dst| == |was|
    && dst[..|t|] == t
    && dst[|t|] == (if t != "" && t[|t| - 1] != ':' then '\0' else was[|t|])
    && dst[|t| + 1..] == was[|t| + 1..]
  }

  lemma WroteGroup(dst: seq<char>, was: seq<char>, t: string, g: string, colon: bool, after: seq<char>)
    requires Wrote(dst, was, t) && g != "" && |t| + |g| + 1 < |was| && g[|g| - 1] != ':'
    requires after == dst[..|t|] + g + (if colon then ":" else "\0") + dst[|t| + |g| + 1..]
    ensures Wrote(after, was, t + g + if colon then ":" else "")
  {
    var u := t + g + if colon then ":" else "";
    assert forall i :: |t| < i < |was| ==> dst[i] == dst[|t| + 1..][i - |t| - 1] == was[i];
    assert after[..|u|] == u;
  }

  lemma WroteNothing(was: seq<char>)
    requires was != []
    ensures Wrote(was, was, "")
  {}

  lemma WroteColons(dst: seq<char>, was: seq<char>, t: string, after: seq<char>)
    requires Wrote(dst, was, t) && |t| + 2 < |was|
    requires after == dst[|t| := ':'][|t| + 1 := ':']
    ensures Wrote(after, was, t + "::")
  {
    var u := t + "::";
    assert forall i :: |t| < i < |was| ==> dst[i] == dst[|t| + 1..][i - |t| - 1] == was[i];
    assert forall i :: 0 <= i < |t| ==> dst[i] == dst[..|t|][i];
    assert after[..|u|] == u;
  }

  lemma LastOfGroup(v: word)
    ensures var t := Text(v, 16); t[|t| - 1] != ':' && 1 <= |t| <= 4
  {
    WordText(v);
  }

  method WriteColons(dst: array<char>, at: nat) returns (cursor: nat)
    requires at + 2 <= dst.Length
    modifies dst
    ensures cursor == at + 2 && dst[..] == old(dst[..])[at := ':'][at + 1 := ':']
  {
    cursor := at;
    dst[cursor] := ':';
    cursor := cursor + 1;
    dst[cursor] := ':';
    cursor := cursor + 1;
  }

  /** The main loop of the printer: the mark decides for each word. */
  method WriteWords(src: Bytes, runPos: array<int>, max: int, dst: array<char>, strLen: addrStrLen)
    requires runPos.Length == 8 && strLen <= dst.Length
    requires max == BlockLength(ToWords(src))
    requires forall i :: 0 <= i < 8 ==> runPos[i] == Numbered(ToWords(src), i)
    modifies dst
    ensures Wrote(dst[..], old(dst[..]), Emitted(ToWords(src), 8))
  {
    hide BlockStart, BlockLength, Emitted, ToWords, Short, Text, Wrote, Numbered;
    ghost var w := ToWords(src);
    ghost var was := dst[..];
    var cursor := 0;
    var i := 0;
    NothingEmitted(w);
    WroteNothing(was);
    NumberedFirst(w);
    while i < 8
      invariant 0 <= i <= 8 && cursor == |Emitted(w, i)| <= 5 * i
      invariant i == 8 || Numbered(w, i) <= 1
      invariant Wrote(dst[..], was, Emitted(w, i))
      modifies dst
    {
      ghost var before, done := dst[..], Emitted(w, i);
      NumberedCases(w, i);
      if runPos[i] == -1 {
        var colon := i != 7 && runPos[i + 1] != 1;
        EmittedStep(w, i + 1);
        LastOfGroup(w[i]);
        cursor := WriteGroup(dst, cursor, Short(src, i), colon, strLen);
        WroteGroup(before, was, done, Text(w[i], 16), colon, dst[..]);
        i := i + 1;
      } else if runPos[i] == 1 {
        cursor := WriteColons(dst, cursor);
        EmittedBlock(w);
        WroteColons(before, was, done, dst[..]);
        i := i + (max - 1) + 1;
      } else {
        i := i + 1;
      }
    }
  }

  /** What the printer puts in front of a dotted tail. */
  function TailFront(mapped: bool): string {
    if mapped then "::ffff:" else "::"
  }

  lemma TailText(w: Words)
    requires HasTail(w)
    ensures PrintedText(w) == TailFront(BlockLength(w) == 5) + Ipv4Text.Dotted(LastFour(w))
  {
    hide BlockStart, BlockLength, Ipv4Text.Dotted, LastFour;
    assert "ffff" + "" + ":" == "ffff:";
    assert "::ffff:" == "::" + "ffff:";
    Append("::", if BlockLength(w) == 5 then "ffff:" else "", Ipv4Text.Dotted(LastFour(w)), "");
  }

  method WriteTailFront(dst: array<char>, mapped: bool, strLen: addrStrLen) returns (cursor: nat)
    requires strLen <= dst.Length
    modifies dst
    ensures cursor == |TailFront(mapped)| <= 7
    ensures dst[..cursor] == TailFront(mapped)
    ensures dst[cursor + 1..] == old(dst[..])[cursor + 1..]
  {
    ghost var was := dst[..];
    cursor := WriteColons(dst, 0);
    if mapped {
      assert dst[..2] == "::" && dst[8..] == was[8..];
      var n := Ipv4Text.Snprintf(dst, cursor, strLen - 2, "ffff:");
      cursor := cursor + n;
    }
  }

  lemma LastFourOf(src: Bytes)
    ensures LastFour(ToWords(src)) == [src[12], src[13], src[14], src[15]]
  {
    var w := ToWords(src);
    assert w[6] == MakeWord(src[12], src[13]) && w[7] == MakeWord(src[14], src[15]);
  }

  /** The dotted branch of the printer. */
  method WriteTail(src: Bytes, maxPos: int, dst: array<char>, strLen: addrStrLen)
    requires strLen <= dst.Length && HasTail(ToWords(src))
    requires maxPos == BlockLength(ToWords(src)) - 1
    modifies dst
    ensures Wrote(dst[..], old(dst[..]), PrintedText(ToWords(src)))
  {
    hide LastFour, PrintedText, ToWords, HasTail, BlockStart, BlockLength, Ipv4Text.Dotted, Wrote;
    ghost var w := ToWords(src);
    var inAddr: Ipv4Text.Ipv4 := [src[12], src[13], src[14], src[15]];
    TailText(w);
    LastFourOf(src);
    Ipv4Text.DottedLength(inAddr);
    ghost var was := dst[..];
    var cursor := WriteTailFront(dst, maxPos == 4, strLen);
    ghost var before := dst[..];
    var ok := Ipv4Text.InetNtopV4(inAddr, dst, cursor, strLen - cursor);
    WroteTail(before, was, TailFront(maxPos == 4), Ipv4Text.Dotted(inAddr), dst[..]);
  }

  lemma WroteTail(dst: seq<char>, was: seq<char>, front: string, t: string, after: seq<char>)
    requires |front| + |t| < |dst| == |was| && t != "" && t[|t| - 1] != ':'
    requires dst[..|front|] == front && dst[|front| + 1..] == was[|front| + 1..]
    requires after == dst[..|front|] + t + "\0" + dst[|front| + |t| + 1..]
    ensures Wrote(after, was, front + t)
  {
    assert forall i :: |front| < i < |was| ==> dst[i] == dst[|front| + 1..][i - |front| - 1] == was[i];
    assert after[..|front + t|] == front + t;
  }

  /**
   `inet_ntop_v6`: a null result (false) exactly for a buffer size below INET6_ADDRSTRLEN, here strLen;
   otherwise the printed text stands at the front of the buffer, and behind it a NUL, unless the text ends in
   "::", when the byte behind it keeps its old value.
   */
  method InetNtopV6(src: Bytes, dst: array<char>, size: nat, strLen: addrStrLen) returns (ok: bool)
    requires size <= dst.Length
    modifies dst
    ensures ok == (size >= strLen)
    ensures !ok ==> dst[..] == old(dst[..])
    ensures ok ==> Wrote(dst[..], old(dst[..]), PrintedText(ToWords(src)))
  {
    hide HasTail, BlockStart, BlockLength, MaxPos, Numbered, ToWords, Short, Emitted, PrintedText, Wrote;
    if size < strLen {
      return false;
    }
    ok := true;
    ghost var w := ToWords(src);
    var runPos, max, maxPos := MarkLongestBlock(src);
    TailTest(w);
    var dotted := runPos[0] == 1 && (maxPos == 5 || (maxPos == 4 && Short(src, 5) == 0xFFFF));
    assert dotted == HasTail(w);
    if dotted {
      WriteTail(src, maxPos, dst, strLen);
    } else {
      EmittedIsPrinted(w);
      WriteWords(src, runPos, max, dst, strLen);
    }
  }

  /** The branch of the printer is taken for exactly the addresses with a dotted tail. */
  lemma TailTest(w: Words)
    ensures HasTail(w) <==> Numbered(w, 0) == 1 && (MaxPos(w, 8) == 5 || (MaxPos(w, 8) == 4 && w[5] == 0xFFFF))
    ensures HasTail(w) ==> MaxPos(w, 8) == BlockLength(w) - 1
  {}

  // ---------------------------------------------------------------- what the text looks like

  /** The printed text is at most 39 characters long. */
  lemma PrintedLength(w: Words)
    ensures |PrintedText(w)| <= 39
  {
    hide PrintedText, Emitted, BlockStart, BlockLength;
    if HasTail(w) {
      TailText(w);
      Ipv4Text.DottedLength(LastFour(w));
    } else {
      EmittedIsPrinted(w);
      EmittedLength(w, 8);
    }
  }

  predicate DoubleColonAt(t: string, p: nat) {
    p + 1 < |t| && t[p] == ':' && t[p + 1] == ':'
  }

  predicate OnlyDoubleColonAt(t: string, q: nat) {
    DoubleColonAt(t, q) && forall p :: 0 <= p < |t| && p != q ==> !DoubleColonAt(t, p)
  }

  /** Joined groups neither start nor end with a colon, and hold no two colons in a row. */
  lemma {:induction false} JoinedColons(gs: seq<string>)
    requires AllGroups(gs)
    ensures var t := Join(gs);
            && (t == "" <==> gs == []) && (t != "" ==> t[0] != ':' && t[|t| - 1] != ':')
            && forall p: nat :: !DoubleColonAt(t, p)
    decreases |gs|
  {
    if gs != [] {
      Ipv6Parse.GroupHasNoColon(gs[0]);
    }
    if |gs| > 1 {
      JoinedColons(gs[1..]);
      GroupAndColon(gs[0], Join(gs[1..]));
    }
  }

  lemma GroupAndColon(g: string, u: string)
    requires IsGroup(g) && u != "" && u[0] != ':' && forall p: nat :: !DoubleColonAt(u, p)
    ensures forall p: nat :: !DoubleColonAt(g + (":" + u), p)
  {
    Ipv6Parse.GroupHasNoColon(g);
    hide IsGroup;
    var t := g + (":" + u);
    forall p: nat
      ensures !DoubleColonAt(t, p)
    {
      if |g| < p < |t| {
        assert !DoubleColonAt(u, p - |g| - 1);
      }
    }
  }

  lemma DoubleColonBetween(l: string, r: string)
    requires forall p: nat :: !DoubleColonAt(l, p) && !DoubleColonAt(r, p)
    requires (l != "" ==> l[|l| - 1] != ':') && (r != "" ==> r[0] != ':')
    ensures OnlyDoubleColonAt(l + ("::" + r), |l|)
  {
    var t := l + ("::" + r);
    forall p: nat | p < |t| && p != |l|
      ensures !DoubleColonAt(t, p)
    {
      if p + 1 < |l| {
        assert DoubleColonAt(t, p) == DoubleColonAt(l, p);
      } else if p >= |l| + 2 {
        assert DoubleColonAt(t, p) == DoubleColonAt(r, p - |l| - 2);
      }
    }
  }

  lemma DoubleColonInTail(w: Words)
    requires HasTail(w)
    ensures OnlyDoubleColonAt(PrintedText(w), 0)
  {
    hide PrintedText, BlockStart, BlockLength, HasTail, Ipv4Text.Dotted, LastFour;
    TailText(w);
    var f, d := TailFront(BlockLength(w) == 5), Ipv4Text.Dotted(LastFour(w));
    Ipv4Text.DottedLength(LastFour(w));
    var t := f + d;
    assert forall i :: 0 <= i < |d| ==> d[i] != ':' && t[|f| + i] == d[i];
    assert forall i :: 0 <= i < |f| ==> t[i] == f[i];
  }

  /** Where the text has "::" (section 4.2.3 of RFC 5952): nowhere without a zero word, else once. */
  lemma OneDoubleColon(w: Words)
    ensures var t := PrintedText(w);
            if BlockLength(w) == 0 then forall p: nat :: !DoubleColonAt(t, p)
            else OnlyDoubleColonAt(t, if HasTail(w) then 0 else |LeftText(w)|)
  {
    hide PrintedText, BlockStart, BlockLength, HasTail, Join, Groups;
    TailTest(w);
    if HasTail(w) {
      DoubleColonInTail(w);
    } else {
      PrintedGroups(w);
      if BlockLength(w) == 0 {
        JoinedColons(Groups(w));
      } else {
        JoinedColons(Groups(w[..BlockStart(w)]));
        JoinedColons(Groups(w[BlockStart(w) + BlockLength(w)..]));
        DoubleColonBetween(LeftText(w), RightText(w));
      }
    }
  }

  /** The text ends in a colon exactly when the block of zero words is the end of the address. */
  lemma EndsInColon(w: Words)
    ensures var t := PrintedText(w);
            t != "" && (t[|t| - 1] == ':' <==> BlockLength(w) > 0 && BlockStart(w) + BlockLength(w) == 8)
  {
    if HasTail(w) {
      hide PrintedText, BlockStart, BlockLength, Ipv4Text.Dotted;
      TailText(w);
      Ipv4Text.DottedLength(LastFour(w));
    } else {
      hide PrintedText, BlockStart, BlockLength, HasTail, Join, Groups;
      PrintedGroups(w);
      if BlockLength(w) == 0 {
        JoinedColons(Groups(w));
      } else {
        JoinedColons(Groups(w[BlockStart(w) + BlockLength(w)..]));
      }
    }
  }

  /**
   A NUL does not always follow the text: it does exactly when the block of zero words is not the
   end of the address, or the buffer held a NUL there before.
   */
  lemma TerminatedExactly(w: Words, dst: seq<char>, was: seq<char>)
    requires Wrote(dst, was, PrintedText(w))
    ensures var n := |PrintedText(w)|;
            dst[n] == '\0' <==>
            !(BlockLength(w) > 0 && BlockStart(w) + BlockLength(w) == 8) || was[n] == '\0'
  {
    hide PrintedText, BlockStart, BlockLength;
    EndsInColon(w);
  }

  lemma DottedHasNoNul(a: Ipv4Text.Ipv4)
    ensures '\0' !in Ipv4Text.Dotted(a)
  {
    hide Ipv4Text.Dotted;
    Ipv4Text.DottedLength(a);
  }

  lemma NoNul(w: Words)
    ensures '\0' !in PrintedText(w)
  {
    if HasTail(w) {
      hide PrintedText, BlockStart, BlockLength, HasTail, LastFour, Ipv4Text.Dotted, IsDigit;
      TailText(w);
      DottedHasNoNul(LastFour(w));
    } else {
      hide ValidForm, FormText, FormWords, BlockStart, BlockLength, Groups, IsDigit;
      PrintedFormIsValid(w);
      Ipv6Parse.BodyText(PrintedForm(w));
      Ipv6Parse.NotNul(PrintedText(w));
    }
  }

  /**
   The round trip through the buffer: the C string that starts there is the printed text, and is
   parsed as the address, unless the block of zero words is the end of the address and the buffer
   held no NUL behind it; then the old content up to its next NUL continues the text.
   */
  lemma BufferRoundTrip(w: Words, dst: seq<char>, was: seq<char>)
    requires Wrote(dst, was, PrintedText(w))
    ensures var n := |PrintedText(w)|;
            var kept := BlockLength(w) > 0 && BlockStart(w) + BlockLength(w) == 8 && was[n] != '\0';
            && (CStr(dst) == PrintedText(w) <==> !kept)
            && (!kept ==> Ipv6Parse.ParseV6(CStr(dst)) == Some(w))
            && (kept ==> CStr(dst) == PrintedText(w) + CStr(was[n..]))
  {
    hide PrintedText, BlockStart, BlockLength, Ipv6Parse.ParseV6;
    var t := PrintedText(w);
    TerminatedExactly(w, dst, was);
    NoNul(w);
    RoundTrip(w);
    if dst[|t|] == '\0' {
      CStrIs(dst, |t|);
    } else {
      OldTail(dst, was, t);
    }
  }

  /** Without a NUL behind the text, the old content goes on. */
  lemma OldTail(dst: seq<char>, was: seq<char>, t: string)
    requires Wrote(dst, was, t) && '\0' !in t && dst[|t|] != '\0'
    ensures CStr(dst) == t + CStr(was[|t|..]) != t
  {
    hide CStr;
    var n := |t|;
    assert dst[n] == was[n];
    assert dst[n..] == [dst[n]] + dst[n + 1..] == [was[n]] + was[n + 1..] == was[n..];
    assert dst == t + was[n..];
    CStrBehind(t, was[n..]);
  }

  lemma CStrBehind(t: string, rest: string)
    requires '\0' !in t && rest != "" && rest[0] != '\0'
    ensures CStr(t + rest) == t + CStr(rest) != t
  {
    var c := CStr(rest);
    if |c| < |rest| {
      assert (t + rest)[..|t + c|] == t + c;
      CStrIs(t + rest, |t + c|);
    } else {
      assert '\0' !in t + rest;
    }
  }

  const ONE_THEN_ZEROS: Words := [1, 0, 0, 0, 0, 0, 0, 0]

  lemma BlockOfOneThenZeros()
    ensures BlockStart(ONE_THEN_ZEROS) == 1 && BlockLength(ONE_THEN_ZEROS) == 7
  {
    hide BlockStart, BlockLength;
    forall s: nat, m: nat | IsBlock(ONE_THEN_ZEROS, s, m) && m > 0
      ensures m < 7 || (m == 7 && 1 <= s)
    {
      assert ONE_THEN_ZEROS[s] == 0;
    }
    BlockIsLeftmostLongest(ONE_THEN_ZEROS);
    LeftmostLongestIsUnique(ONE_THEN_ZEROS, 1, 7, BlockStart(ONE_THEN_ZEROS), BlockLength(ONE_THEN_ZEROS));
  }

  /** The address 1:: is printed into a buffer of other characters without a terminating NUL. */
  lemma NotTerminated(dst: seq<char>, was: seq<char>)
    requires forall i :: 0 <= i < |was| ==> was[i] == '#'
    requires Wrote(dst, was, PrintedText(ONE_THEN_ZEROS))
    ensures dst[|PrintedText(ONE_THEN_ZEROS)|] == '#'
  {
    hide PrintedText, BlockStart, BlockLength;
    BlockOfOneThenZeros();
    EndsInColon(ONE_THEN_ZEROS);
  }

  lemma GroupOfOne()
    ensures Groups([]) == [] && Groups([1]) == ["1"]
  {
    assert [1][1..] == [];
    assert Text(1, 16) == "1";
  }

  lemma TextOfOneThenZeros()
    ensures PrintedText(ONE_THEN_ZEROS) == "1::"
  {
    hide BlockStart, BlockLength, Groups;
    BlockOfOneThenZeros();
    GroupOfOne();
    var w := ONE_THEN_ZEROS;
    assert w[..1] == [1] && w[8..] == [];
    assert PrintedForm(w) == Compressed(false, ["1"], []);
    Ipv6Parse.JoinSingle("1");
    assert "1" + ("::" + "") == "1::" && "" + "1::" == "1::";
  }

  lemma OneColonsFive()
    ensures Ipv6Parse.ParseV6("1::5") == Some([1, 0, 0, 0, 0, 0, 0, 5])
  {
    hide Ipv6Parse.ParseV6;
    var f := Compressed(false, ["1"], ["5"]);
    assert Value("1", 16) == 1 && Value("5", 16) == 5;
    DigitGroup("1");
    DigitGroup("5");
    hide IsGroup, GroupValue, Value;
    assert ["1"][1..] == [] && ["5"][1..] == [];
    assert "" + ("1" + ("::" + "5")) == "1::5";
    assert FormWords(f) == [1, 0, 0, 0, 0, 0, 0, 5];
    Ipv6Parse.ParseForm(f);
  }

  /** The address 1:: printed in front of an old "5" and NUL is read back as the address 1::5. */
  lemma ReadAsOther(dst: seq<char>, was: seq<char>)
    requires Wrote(dst, was, PrintedText(ONE_THEN_ZEROS)) && |was| > 4 && was[3] == '5' && was[4] == '\0'
    ensures CStr(dst) == "1::5" && Ipv6Parse.ParseV6(CStr(dst)) == Some([1, 0, 0, 0, 0, 0, 0, 5])
  {
    hide PrintedText, BlockStart, BlockLength, Ipv6Parse.ParseV6, Wrote;
    TextOfOneThenZeros();
    BlockOfOneThenZeros();
    BufferRoundTrip(ONE_THEN_ZEROS, dst, was);
    CStrIs(was[3..], 1);
    assert was[3..][..1] == "5" && "1::" + "5" == "1::5";
    OneColonsFive();
  }

  // ---------------------------------------------------------------- which text is printed

  lemma BlockIs(w: Words, start: nat, n: nat)
    requires IsLeftmostLongest(w, start, n)
    ensures BlockStart(w) == start && BlockLength(w) == n
  {
    hide BlockStart, BlockLength;
    BlockIsLeftmostLongest(w);
    LeftmostLongestIsUnique(w, start, n, BlockStart(w), BlockLength(w));
  }

  /** Zero words from the first one on, up to a word that is not zero and behind which there is less room. */
  lemma FrontBlock(w: Words, n: nat)
    requires 4 <= n < 8 && w[n] != 0 && forall i :: 0 <= i < n ==> w[i] == 0
    ensures BlockStart(w) == 0 && BlockLength(w) == n
  {
    forall s: nat, m: nat | IsBlock(w, s, m) && m > 0
      ensures m < n || (m == n && 0 <= s)
    {
      assert s > n || s + m <= n;
    }
    BlockIs(w, 0, n);
  }

  /** The addresses whose text has a dotted tail, by their words alone. */
  predicate IsDotted(w: Words) {
    w[0] == w[1] == w[2] == w[3] == w[4] == 0 && (w[5] == 0xFFFF || (w[5] == 0 && w[6] != 0))
  }

  lemma DottedBlock(w: Words)
    ensures HasTail(w) <==> IsDotted(w)
    ensures IsDotted(w) ==> BlockLength(w) == if w[5] == 0 then 6 else 5
  {
    if IsDotted(w) {
      FrontBlock(w, if w[5] == 0 then 6 else 5);
    } else if HasTail(w) {
      BlockIsLeftmostLongest(w);
      var n := BlockLength(w);
      assert IsBlock(w, 0, n);
      assert w[0] == w[1] == w[2] == w[3] == w[4] == 0;
      assert n == 6 && w[6] == 0 ==> IsBlock(w, 0, 7);
    }
  }

  /** A dot is printed for exactly those addresses. */
  lemma DottedExactly(w: Words)
    ensures '.' in PrintedText(w) <==> IsDotted(w)
  {
    hide PrintedText, BlockStart, BlockLength, Ipv4Text.Dotted, LastFour, IsDotted, HasTail;
    DottedBlock(w);
    if HasTail(w) {
      TailText(w);
      Ipv4Text.DottedLength(LastFour(w));
    } else {
      NoDot(w);
    }
  }

  lemma NoDot(w: Words)
    requires !HasTail(w)
    ensures '.' !in PrintedText(w)
  {
    hide ValidForm, FormText, FormWords, BlockStart, BlockLength, Groups, IsDigit;
    PrintedFormIsValid(w);
    Ipv6Parse.BodyText(PrintedForm(w));
    Ipv6Parse.NotDot(PrintedText(w));
  }

  /** Their text: "::", or "::ffff:" for a mapped address, and the last four bytes in order. */
  lemma DottedPrinted(w: Words)
    requires IsDotted(w)
    ensures PrintedText(w)
         == (if w[5] == 0 then "::" else "::ffff:") + Ipv4Text.Dotted([High(w[6]), Low(w[6]), High(w[7]), Low(w[7])])
  {
    hide PrintedText, BlockStart, BlockLength, Ipv4Text.Dotted, HasTail;
    DottedBlock(w);
    TailText(w);
  }

  const DOCUMENTATION: Words := [0x2001, 0xDB8, 0, 0, 1, 0, 0, 1]

  lemma DocumentationBlock()
    ensures BlockStart(DOCUMENTATION) == 2 && BlockLength(DOCUMENTATION) == 2
  {
    var w := DOCUMENTATION;
    forall s: nat, m: nat | IsBlock(w, s, m) && m > 0
      ensures m < 2 || (m == 2 && 2 <= s)
    {
      assert w[0] != 0 && w[1] != 0 && w[4] != 0 && w[7] != 0;
    }
    BlockIs(w, 2, 2);
  }

  lemma GroupsStep(v: word, ws: seq<word>)
    ensures Groups([v] + ws) == [Text(v, 16)] + Groups(ws)
  {
    hide Text, AllGroups, Values;
    assert ([v] + ws)[1..] == ws;
  }

  lemma PairGroups(v: word, u: word)
    ensures Groups([v, u]) == [Text(v, 16), Text(u, 16)]
  {
    hide Text, AllGroups, Values;
    hide Groups;
    NoGroups();
    GroupsStep(u, []);
    GroupsStep(v, [u]);
    assert [u] + [] == [u] && [v] + [u] == [v, u];
  }

  lemma DocumentationGroups()
    ensures Groups([0x2001, 0xDB8]) == ["2001", "db8"] && Groups([1, 0, 0, 1]) == ["1", "0", "0", "1"]
  {
    hide Text, Groups, AllGroups, Values;
    HexExamples();
    PairGroups(0x2001, 0xDB8);
    PairGroups(0, 1);
    GroupsStep(0, [0, 1]);
    GroupsStep(1, [0, 0, 1]);
    assert [0] + [0, 1] == [0, 0, 1] && [1] + [0, 0, 1] == [1, 0, 0, 1];
  }

  lemma JoinStep(g: string, gs: seq<string>)
    requires gs != []
    ensures Join([g] + gs) == g + (":" + Join(gs))
  {
    assert ([g] + gs)[1..] == gs;
  }

  lemma JoinExamples()
    ensures Join(["2001", "db8"]) == "2001:db8" && Join(["1", "0", "0", "1"]) == "1:0:0:1"
  {
    hide Join;
    Ipv6Parse.JoinSingle("db8");
    Ipv6Parse.JoinSingle("1");
    JoinStep("2001", ["db8"]);
    JoinStep("0", ["1"]);
    JoinStep("0", ["0", "1"]);
    JoinStep("1", ["0", "0", "1"]);
    assert ["2001"] + ["db8"] == ["2001", "db8"] && ["0"] + ["1"] == ["0", "1"];
    assert ["0"] + ["0", "1"] == ["0", "0", "1"] && ["1"] + ["0", "0", "1"] == ["1", "0", "0", "1"];
    JoinStrings();
  }

  lemma JoinStrings()
    ensures "2001" + (":" + "db8") == "2001:db8"
    ensures "1" + (":" + ("0" + (":" + ("0" + (":" + "1"))))) == "1:0:0:1"
  {}

  lemma DocumentationForm()
    ensures PrintedForm(DOCUMENTATION) == Compressed(false, ["2001", "db8"], ["1", "0", "0", "1"])
  {
    hide BlockStart, BlockLength, Groups, AllGroups, Values;
    DocumentationBlock();
    DocumentationGroups();
    var w := DOCUMENTATION;
    assert w[..2] == [0x2001, 0xDB8] && w[4..] == [1, 0, 0, 1];
  }

  lemma DocumentationStrings()
    ensures "" + ("2001:db8" + ("::" + "1:0:0:1")) == "2001:db8::1:0:0:1"
  {}

  /** The example of section 4.2.3 of RFC 5952: of two blocks of the same length the first is shortened. */
  lemma DocumentationText()
    ensures PrintedText(DOCUMENTATION) == "2001:db8::1:0:0:1"
  {
    hide PrintedForm, Join;
    DocumentationForm();
    JoinExamples();
    DocumentationStrings();
  }
}
