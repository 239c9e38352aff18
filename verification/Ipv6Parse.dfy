/**
 The parser `inet_pton_v6`: its loop as a function of the text that is left, the exact set of texts
 it accepts with their meaning, and the procedure itself.
 */
module Ipv6Parse {
  import opened Basics
  import opened Numerals
  import opened Ipv6Text
  import Ipv4Text

  /** The number of colons in a text. */
  function Colons(s: string): nat {
    if s == "" then 0 else (if s[0] == ':' then 1 else 0) + Colons(s[1..])
  }

  /**
   How many characters `sscanf` takes for a "%hx" of a field width: white space and the longest number
   within the width; none when it fails.
   */
  function ScanLength(s: string, width: nat): (n: nat)
    ensures n <= |s| && (n > 0 ==> IsScanned(s[..n], width))
  {
    var t := s[Blanks(s)..];
    var u := if |t| <= width then t else t[..width];
    var n := SignedRun(u, 16);
    if n == 0 then 0
    else
      assert u[..n] == t[..n];
      ScannedFront(s, n, width);
      Blanks(s) + n
  }

  lemma ScannedFront(s: string, n: nat, width: nat)
    requires 0 < n <= width && Blanks(s) + n <= |s| && IsSigned(s[Blanks(s)..][..n], 16)
    ensures IsScanned(s[..Blanks(s) + n], width)
  {
    hide IsBlank, Blanks, IsSigned;
    var k := Blanks(s);
    BlanksAre(s);
    BlanksIs(s[..k + n], k);
    assert s[..k + n][k..] == s[k..][..n];
  }

  function GroupLength(s: string): (n: nat)
    ensures n <= |s| && (n > 0 ==> IsGroup(s[..n]))
  {
    ScanLength(s, 4)
  }

  /** A number in front of a text that does not continue it. */
  lemma ScanInFront(g: string, rest: string, width: nat)
    requires IsScanned(g, width)
    requires rest != "" ==> !IsDigit(rest[0], 16) && (rest[0] == 'X' ==> SignedValue(g[Blanks(g)..], 16) != 0)
    ensures ScanLength(g + rest, width) == |g|
  {
    hide SignedRun, SignedValue, IsDigit, IsSigned, Blanks;
    ScannedWhole(g, width);
    var t := g[Blanks(g)..];
    BlanksInFront(g, rest);
    var more := if |t| + |rest| <= width then rest else rest[..width - |t|];
    assert |t| + |rest| > width ==> (t + rest)[..width] == t + more;
    SignedRunOf(t, more, 16);
  }

  /** What `sscanf` leaves behind a number without a width starts with no digit. */
  lemma ScanStops(s: string)
    ensures var n := ScanLength(s, |s|); 0 < n < |s| ==> !IsDigit(s[n], 16)
  {
    hide IsSigned, SignedRun, IsDigit, Blanks;
  }

  /**
   The main loop: s is what is left to read, a the address so far, k the word the write cursor
   points at (8 is the end), seen whether a "::" was met.
   */
  function Run(s: string, a: Words, k: nat, seen: bool): Option<Words>
    requires k <= 8
    decreases |s|
  {
    if s == "" || k == 8 then
      if s == "" && k == 8 then Some(a) else None
    else if s[0] == ':' then
      if |s| > 1 && s[1] == ':' then
        if seen then None
        else if |s| == 2 then Run("", a, 8, false)
        else
          var count := Colons(s[2..]);
          if count + 1 > 8 - k then None else Run(s[2..], a, 8 - (count + 1), true)
      else Run(s[1..], a, k, seen)
    else
      var n := GroupLength(s);
      if n == 0 || (n < |s| && s[n] != ':') then None
      else Run(s[n..], a[k := GroupValue(s[..n])], k + 1, seen)
  }

  const NO_WORDS: Words := [0, 0, 0, 0, 0, 0, 0, 0]

  /** Whether `sscanf` with "%hx" takes other than four characters with the value 0xFFFF. */
  predicate RefusedPrefix(s: string) {
    ScanLength(s, |s|) != 4 || GroupValue(s[..4]) != 0xFFFF
  }

  /** The dotted branch, for the text behind the leading "::". */
  function ParseTail(s: string): Option<Words> {
    var colon := IndexOf(s, ':');
    if colon == |s| then
      match Ipv4Text.ParseV4(s)
      case None => None
      case Some(v4) => Some(TailWords(false, v4))
    else if RefusedPrefix(s) then None
    else
      match Ipv4Text.ParseV4(s[colon + 1..])
      case None => None
      case Some(v4) => Some(TailWords(true, v4))
  }

  predicate StartsCompressed(s: string) {
    |s| > 2 && s[0] == ':' && s[1] == ':'
  }

  /** The whole parser. */
  function ParseV6(s: string): Option<Words> {
    if 'x' in s then None
    else if StartsCompressed(s) && '.' in s[2..] then ParseTail(s[2..])
    else Run(s, NO_WORDS, 0, false)
  }

  /** One pass of the loop over a group. */
  lemma GroupStep(left: string, a: Words, k: nat, seen: bool)
    requires left != "" && left[0] != ':' && k < 8
    ensures var n := GroupLength(left);
            Run(left, a, k, seen) ==
            if n == 0 || (n < |left| && left[n] != ':') then None
            else Run(left[n..], a[k := GroupValue(left[..n])], k + 1, seen)
  {
    hide Colons, GroupLength, GroupValue, IsGroup;
  }

  /** One pass of the loop over a colon. */
  lemma ColonStep(left: string, a: Words, k: nat, seen: bool)
    requires left != "" && left[0] == ':' && k < 8
    ensures Run(left, a, k, seen) ==
            if |left| == 1 || left[1] != ':' then Run(left[1..], a, k, seen)
            else if seen then None
            else if |left| == 2 then Run("", a, 8, false)
            else if Colons(left[2..]) + 1 > 8 - k then None
            else Run(left[2..], a, 8 - (Colons(left[2..]) + 1), true)
  {
    hide Colons, GroupLength, GroupValue, IsGroup;
  }

  // ---------------------------------------------------------------- groups in front of a text

  /** A text that may follow a group. */
  predicate AfterGroup(rest: string) {
    rest == "" || rest[0] == ':'
  }

  lemma GroupInFront(g: string, rest: string)
    requires IsGroup(g) && AfterGroup(rest)
    ensures GroupLength(g + rest) == |g|
    ensures (g + rest)[..|g|] == g && (g + rest)[|g|..] == rest
    ensures (g + rest)[0] != ':' && g + rest != ""
  {
    GroupChars(g);
    ScanInFront(g, rest, 4);
    assert (g + rest)[0] == g[0];
  }

  /** One group is stored and the cursor moves by one word. */
  lemma RunGroup(g: string, rest: string, a: Words, k: nat, seen: bool)
    requires IsGroup(g) && AfterGroup(rest) && k < 8
    ensures Run(g + rest, a, k, seen) == Run(rest, a[k := GroupValue(g)], k + 1, seen)
  {
    GroupInFront(g, rest);
  }

  /** The address with the words ws written from word k on. */
  function Put(a: Words, k: nat, ws: seq<word>): Words
    requires k + |ws| <= 8
  {
    a[..k] + ws + a[k + |ws|..]
  }

  lemma JoinStart(gs: seq<string>)
    requires AllGroups(gs) && gs != []
    ensures Join(gs) != "" && Join(gs)[0] != ':'
  {
    GroupChars(gs[0]);
  }

  lemma PutNext(a: Words, k: nat, gs: seq<string>)
    requires AllGroups(gs) && gs != [] && k + |gs| <= 8
    ensures Put(a, k, Values(gs)) == Put(a[k := GroupValue(gs[0])], k + 1, Values(gs[1..]))
  {
    PutHead(a, k, GroupValue(gs[0]), Values(gs[1..]));
  }

  lemma PutHead(a: Words, k: nat, v: word, vs: seq<word>)
    requires k + 1 + |vs| <= 8
    ensures Put(a, k, [v] + vs) == Put(a[k := v], k + 1, vs)
  {}

  lemma PutOne(a: Words, k: nat, g: string)
    requires IsGroup(g) && k < 8
    ensures Put(a, k, Values([g])) == a[k := GroupValue(g)]
  {
    assert [g][1..] == [];
  }

  /** A single colon is skipped. */
  lemma RunColon(tail: string, a: Words, k: nat, seen: bool)
    requires k < 8 && tail != "" && tail[0] != ':'
    ensures Run(":" + tail, a, k, seen) == Run(tail, a, k, seen)
  {
    assert (":" + tail)[1..] == tail;
  }

  /** Joined groups are stored one after the other. */
  lemma {:induction false} RunGroups(gs: seq<string>, rest: string, a: Words, k: nat, seen: bool)
    requires AllGroups(gs) && gs != [] && AfterGroup(rest) && k + |gs| <= 8
    ensures Run(Join(gs) + rest, a, k, seen) == Run(rest, Put(a, k, Values(gs)), k + |gs|, seen)
    decreases |gs|
  {
    hide Run, Put, IsScanned, IsGroup, GroupValue;
    var g, more := gs[0], gs[1..];
    var a' := a[k := GroupValue(g)];
    if more == [] {
      RunGroup(g, rest, a, k, seen);
      PutOne(a, k, g);
      assert gs == [g];
    } else {
      var tail := Join(more) + rest;
      JoinStart(more);
      calc {
        Run(Join(gs) + rest, a, k, seen);
        { assert Join(gs) + rest == g + (":" + tail); }
        Run(g + (":" + tail), a, k, seen);
        { RunGroup(g, ":" + tail, a, k, seen); }
        Run(":" + tail, a', k + 1, seen);
        { RunColon(tail, a', k + 1, seen); }
        Run(tail, a', k + 1, seen);
        { RunGroups(more, rest, a', k + 1, seen); }
        Run(rest, Put(a', k + 1, Values(more)), k + 1 + |more|, seen);
        { PutNext(a, k, gs); }
        Run(rest, Put(a, k, Values(gs)), k + |gs|, seen);
      }
    }
  }

  // ---------------------------------------------------------------- every form is accepted

  predicate GroupsAndColons(s: string) {
    forall i :: 0 <= i < |s| ==> GroupChar(s[i]) || s[i] == ':'
  }

  lemma {:induction false} JoinedText(gs: seq<string>)
    requires AllGroups(gs)
    ensures GroupsAndColons(Join(gs))
    ensures Colons(Join(gs)) == if gs == [] then 0 else |gs| - 1
    decreases |gs|
  {
    if gs != [] {
      GroupChars(gs[0]);
      GroupHasNoColon(gs[0]);
    }
    if |gs| > 1 {
      JoinedText(gs[1..]);
      ColonsOf(gs[0], ":" + Join(gs[1..]));
      assert (":" + Join(gs[1..]))[1..] == Join(gs[1..]);
    }
  }

  lemma {:induction false} ColonsOf(s: string, t: string)
    ensures Colons(s + t) == Colons(s) + Colons(t)
  {
    if s == "" {
      assert s + t == t;
    } else {
      ColonsOf(s[1..], t);
      assert (s + t)[1..] == s[1..] + t;
    }
  }

  lemma {:induction false} NoColons(s: string)
    requires ':' !in s
    ensures Colons(s) == 0
  {
    if s != "" {
      NoColons(s[1..]);
    }
  }

  lemma GroupHasNoColon(g: string)
    requires IsGroup(g)
    ensures ':' !in g && Colons(g) == 0
  {
    GroupChars(g);
    NoColons(g);
  }

  lemma RunEnd(a: Words, seen: bool)
    ensures Run("", a, 8, seen) == Some(a)
  {}

  /** A "::" moves the write cursor so that the groups behind it end at the last word. */
  lemma RunCompressed(right: seq<string>, a: Words, k: nat)
    requires AllGroups(right) && k < 8 && k + |right| <= 8
    ensures Run("::" + Join(right), a, k, false) == Some(Put(a, 8 - |right|, Values(right)))
  {
    hide Run, Join;
    var s := "::" + Join(right);
    assert s[2..] == Join(right);
    JoinedText(right);
    ColonStep(s, a, k, false);
    if right != [] {
      JoinStart(right);
      RunAll(right, a, 8 - |right|, true);
    } else {
      JoinNothing();
      RunEnd(a, false);
      assert Put(a, 8, []) == a;
    }
  }

  lemma RunAll(gs: seq<string>, a: Words, k: nat, seen: bool)
    requires AllGroups(gs) && gs != [] && k + |gs| == 8
    ensures Run(Join(gs), a, k, seen) == Some(Put(a, k, Values(gs)))
  {
    hide Run, Join, Put;
    RunEnd(Put(a, k, Values(gs)), seen);
    RunGroups(gs, "", a, k, seen);
    assert Join(gs) + "" == Join(gs);
  }

  /** The text behind an optional leading colon. */
  function Body(f: Form): string
    requires !f.Tail?
  {
    match f
    case Full(_, gs) => Join(gs)
    case Compressed(_, l, r) => Join(l) + ("::" + Join(r))
  }

  /** What was not written stays zero. */
  lemma PutTwice(l: seq<word>, r: seq<word>)
    requires |l| + |r| <= 8
    ensures Put(Put(NO_WORDS, 0, l), 8 - |r|, r) == l + Zeros(8 - |l| - |r|) + r
  {}

  lemma PutAll(ws: Words)
    ensures Put(NO_WORDS, 0, ws) == ws && Put(NO_WORDS, 0, []) == NO_WORDS
  {}

  /** The groups in front of the "::" leave the cursor behind them. */
  lemma RunLeft(l: seq<string>, rest: string)
    requires AllGroups(l) && |l| <= 7 && AfterGroup(rest)
    ensures Run(Join(l) + rest, NO_WORDS, 0, false) == Run(rest, Put(NO_WORDS, 0, Values(l)), |l|, false)
  {
    hide Run, Put, Values;
    if l == [] {
      PutAll(NO_WORDS);
      assert Join(l) + rest == rest;
      assert Values(l) == [];
    } else {
      RunGroups(l, rest, NO_WORDS, 0, false);
    }
  }

  lemma RunCompressedBody(l: seq<string>, r: seq<string>)
    requires AllGroups(l) && AllGroups(r) && |l| <= 7 && |l| + |r| <= 8
    ensures Run(Join(l) + ("::" + Join(r)), NO_WORDS, 0, false)
         == Some(Values(l) + Zeros(8 - |l| - |r|) + Values(r))
  {
    hide Run, Join, Put, Values, Zeros;
    RunLeft(l, "::" + Join(r));
    RunCompressed(r, Put(NO_WORDS, 0, Values(l)), |l|);
    PutTwice(Values(l), Values(r));
  }

  lemma RunBody(f: Form)
    requires ValidForm(f) && !f.Tail?
    ensures Run(Body(f), NO_WORDS, 0, false) == Some(FormWords(f))
  {
    hide Run, Join, Put, Values, Zeros;
    match f {
      case Full(_, gs) =>
        RunAll(gs, NO_WORDS, 0, false);
        PutAll(Values(gs));
      case Compressed(_, l, r) =>
        RunCompressedBody(l, r);
    }
  }

  lemma JoinNothing()
    ensures Join([]) == ""
  {}

  lemma BodyText(f: Form)
    requires ValidForm(f) && !f.Tail?
    ensures GroupsAndColons(FormText(f))
    ensures FormText(f) == Lead(f.colon) + Body(f)
    ensures f.colon ==> Body(f) != "" && Body(f)[0] != ':'
  {
    hide IsGroup, GroupChar, Join;
    match f {
      case Full(_, gs) =>
        JoinedText(gs);
        JoinStart(gs);
      case Compressed(_, l, r) =>
        JoinedText(l);
        JoinedText(r);
        if l != [] {
          JoinStart(l);
        }
    }
  }

  lemma PlainChars(s: string)
    requires GroupsAndColons(s)
    ensures 'x' !in s && (|s| > 2 ==> '.' !in s[2..])
  {
    assert forall i :: 0 <= i < |s| ==> s[i] != 'x' && s[i] != '.';
  }

  lemma NotNul(s: string)
    requires GroupsAndColons(s)
    ensures '\0' !in s
  {
    assert forall i :: 0 <= i < |s| ==> s[i] != '\0';
  }

  lemma NotDot(s: string)
    requires GroupsAndColons(s)
    ensures '.' !in s
  {
    assert forall i :: 0 <= i < |s| ==> s[i] != '.';
  }

  lemma ParseGroups(f: Form)
    requires ValidForm(f) && !f.Tail?
    ensures ParseV6(FormText(f)) == Some(FormWords(f))
  {
    hide Run, GroupsAndColons, ValidForm, FormText, FormWords, ParseTail, Body;
    BodyText(f);
    RunBody(f);
    PlainChars(FormText(f));
    if f.colon {
      RunColon(Body(f), NO_WORDS, 0, false);
    } else {
      assert "" + Body(f) == Body(f);
    }
  }

  // ---------------------------------------------------------------- nothing else is accepted

  /** A group at the front of an accepted text. */
  lemma FrontGroup(s: string, a: Words, k: nat, seen: bool)
    requires s != "" && s[0] != ':' && k <= 8 && Run(s, a, k, seen).Some?
    ensures k < 8 && GroupLength(s) > 0
    ensures var n := GroupLength(s);
            && s == s[..n] + s[n..] && AfterGroup(s[n..]) && Colons(s) == Colons(s[n..])
            && Run(s, a, k, seen) == Run(s[n..], a[k := GroupValue(s[..n])], k + 1, seen)
            && (s[n..] != "" ==> k < 7)
  {
    var n := GroupLength(s);
    assert s == s[..n] + s[n..];
    GroupHasNoColon(s[..n]);
    ColonsOf(s[..n], s[n..]);
  }

  /** Behind a "::" no more words are stored than there are colons, plus one. */
  lemma {:induction false} EnoughColons(s: string, a: Words, k: nat)
    requires s != "" && k <= 8 && Run(s, a, k, true).Some?
    ensures k < 8 && Colons(s) + 1 >= 8 - k
    decreases |s|
  {
    if s[0] == ':' {
      EnoughColons(s[1..], a, k);
    } else {
      FrontGroup(s, a, k, true);
      var rest := s[GroupLength(s)..];
      if rest != "" {
        assert Run(rest, a[k := GroupValue(s[..GroupLength(s)])], k + 1, true)
            == Run(rest[1..], a[k := GroupValue(s[..GroupLength(s)])], k + 1, true);
        EnoughColons(rest[1..], a[k := GroupValue(s[..GroupLength(s)])], k + 1);
      }
    }
  }

  lemma JoinCons(g: string, gs: seq<string>)
    requires IsGroup(g) && AllGroups(gs) && gs != []
    ensures AllGroups([g] + gs) && Join([g] + gs) == g + (":" + Join(gs))
  {
    assert ([g] + gs)[1..] == gs;
  }

  lemma PutCons(a: Words, k: nat, g: string, gs: seq<string>)
    requires IsGroup(g) && AllGroups(gs) && k + 1 + |gs| <= 8
    ensures AllGroups([g] + gs)
    ensures Put(a[k := GroupValue(g)], k + 1, Values(gs)) == Put(a, k, Values([g] + gs))
  {
    hide Put, Values, GroupValue;
    assert ([g] + gs)[1..] == gs && ([g] + gs)[0] == g;
    PutNext(a, k, [g] + gs);
  }

  /** Behind the "::" an accepted text is exactly as many groups as the colon count said. */
  lemma {:induction false} SoundRight(s: string, a: Words, k: nat) returns (gs: seq<string>)
    requires s != "" && k <= 8 && Run(s, a, k, true).Some? && Colons(s) + 1 == 8 - k
    ensures AllGroups(gs) && |gs| == 8 - k && s == Join(gs)
    ensures Run(s, a, k, true) == Some(Put(a, k, Values(gs)))
    decreases |s|
  {
    hide Run, Join, Put, GroupLength, IsGroup, GroupValue, Values;
    if s[0] == ':' {
      ColonStep(s, a, k, true);
      RunStop(a, k, true);
      EnoughColons(s[1..], a, k);
      assert false;
    } else {
      FrontGroup(s, a, k, true);
      var n := GroupLength(s);
      var g, rest, a' := s[..n], s[n..], a[k := GroupValue(s[..n])];
      if rest == "" {
        gs := [g];
        assert s == g;
        RunStop(a', k + 1, true);
        JoinSingle(g);
        PutOne(a, k, g);
      } else {
        ColonStep(rest, a', k + 1, true);
        RunStop(a', k + 1, true);
        var more := SoundRight(rest[1..], a', k + 1);
        gs := [g] + more;
        JoinCons(g, more);
        PutCons(a, k, g, more);
        assert rest == ":" + rest[1..];
      }
    }
  }

  /** At the end of the text only a full address is accepted. */
  lemma RunStop(a: Words, k: nat, seen: bool)
    requires k <= 8
    ensures Run("", a, k, seen) == if k == 8 then Some(a) else None
  {}

  lemma JoinSingle(g: string)
    ensures Join([g]) == g && Join([]) == ""
  {}

  lemma SoundCompressed(s: string, a: Words, k: nat) returns (right: seq<string>)
    requires |s| >= 2 && s[0] == ':' && s[1] == ':' && k < 8 && Run(s, a, k, false).Some?
    ensures AllGroups(right) && k + |right| <= 8 && s == "::" + Join(right)
    ensures Run(s, a, k, false) == Some(Put(a, 8 - |right|, Values(right)))
  {
    hide Run, Join;
    ColonStep(s, a, k, false);
    if |s| == 2 {
      right := [];
      RunEnd(a, false);
      JoinNothing();
      assert Put(a, 8, []) == a;
    } else {
      right := SoundRight(s[2..], a, 8 - (Colons(s[2..]) + 1));
    }
  }

  lemma SkipColon(s: string, a: Words, k: nat)
    requires |s| >= 1 && s[0] == ':' && (|s| >= 2 ==> s[1] != ':') && k < 8 && Run(s, a, k, false).Some?
    ensures |s| >= 2 && s == ":" + s[1..] && Run(s, a, k, false) == Run(s[1..], a, k, false)
  {}

  lemma JoinLeft(g: string, more: seq<string>, right: seq<string>)
    requires IsGroup(g) && AllGroups(more) && more != []
    ensures g + (":" + (Join(more) + ("::" + Join(right)))) == Join([g] + more) + ("::" + Join(right))
  {
    JoinCons(g, more);
    var x, y := Join(more), "::" + Join(right);
    assert g + (":" + (x + y)) == (g + (":" + x)) + y;
  }

  /** From a group on, an accepted text is groups up to the last word, or groups, "::" and groups. */
  lemma {:induction false} SoundLeft(s: string, a: Words, k: nat)
    returns (full: bool, left: seq<string>, right: seq<string>)
    requires s != "" && s[0] != ':' && k <= 8 && Run(s, a, k, false).Some?
    ensures AllGroups(left) && AllGroups(right) && left != [] && k + |left| + |right| <= 8
    ensures full ==> right == [] && k + |left| == 8 && s == Join(left)
                     && Run(s, a, k, false) == Some(Put(a, k, Values(left)))
    ensures !full ==> k + |left| <= 7 && s == Join(left) + ("::" + Join(right))
                      && Run(s, a, k, false)
                         == Some(Put(Put(a, k, Values(left)), 8 - |right|, Values(right)))
    decreases |s|
  {
    hide Run, Join, Put, GroupLength, IsGroup, GroupValue, Values, Colons;
    FrontGroup(s, a, k, false);
    var n := GroupLength(s);
    var g, rest, a' := s[..n], s[n..], a[k := GroupValue(s[..n])];
    PutOne(a, k, g);
    JoinSingle(g);
    if rest == "" {
      full, left, right := true, [g], [];
      assert s == g;
      RunStop(a', k + 1, false);
    } else if |rest| >= 2 && rest[1] == ':' {
      full, left := false, [g];
      right := SoundCompressed(rest, a', k + 1);
    } else {
      SkipColon(rest, a', k + 1);
      var more;
      full, more, right := SoundLeft(rest[1..], a', k + 1);
      left := [g] + more;
      JoinCons(g, more);
      PutCons(a, k, g, more);
      JoinLeft(g, more, right);
    }
  }

  lemma StartsNonempty(s: string)
    requires Run(s, NO_WORDS, 0, false).Some?
    ensures s != "" && (s[0] == ':' && (|s| == 1 || s[1] != ':') ==> |s| > 1 && Run(s[1..], NO_WORDS, 0, false).Some?)
  {}

  /** From a group on, with the single colon that may stand in front. */
  lemma SoundBody(colon: bool, body: string) returns (f: Form)
    requires body != "" && body[0] != ':' && Run(body, NO_WORDS, 0, false).Some?
    ensures !f.Tail? && ValidForm(f) && FormText(f) == Lead(colon) + body
  {
    hide Run, IsGroup, Join, Values, Put;
    var full, left, right := SoundLeft(body, NO_WORDS, 0);
    f := if full then Full(colon, left) else Compressed(colon, left, right);
  }

  /** An accepted text that is not in the dotted branch is one of the first two forms. */
  lemma SoundGroups(s: string) returns (f: Form)
    requires Run(s, NO_WORDS, 0, false).Some?
    ensures !f.Tail? && ValidForm(f) && FormText(f) == s
  {
    hide Run, IsGroup, Join, Values, Put, ValidForm, FormText;
    StartsNonempty(s);
    if |s| >= 2 && s[0] == ':' && s[1] == ':' {
      var right := SoundCompressed(s, NO_WORDS, 0);
      f := Compressed(false, [], right);
      ShortForm(right);
    } else if s[0] == ':' {
      f := SoundBody(true, s[1..]);
      assert ":" + s[1..] == s;
    } else {
      f := SoundBody(false, s);
      assert "" + s == s;
    }
  }

  lemma ShortForm(right: seq<string>)
    requires AllGroups(right) && |right| <= 8
    ensures ValidForm(Compressed(false, [], right)) && FormText(Compressed(false, [], right)) == "::" + Join(right)
  {
    hide IsGroup;
    JoinNothing();
    assert "" + ("" + ("::" + Join(right))) == "::" + Join(right);
  }

  // ---------------------------------------------------------------- the dotted branch

  lemma PrefixScanned(m: Mapping, v4: string)
    requires ValidMapping(m) && m.Mapped?
    ensures var s := MappingText(m) + v4;
            s == m.ffff + (m.junk + ":" + v4) && ScanLength(s, |s|) == 4
  {
    hide ScanLength, SignedValue, IsDigit;
    var rest := m.junk + ":" + v4;
    assert MappingText(m) + v4 == m.ffff + rest;
    assert rest[0] == if m.junk == "" then ':' else m.junk[0];
    ColonNoDigit();
    ScanInFront(m.ffff, rest, |m.ffff + rest|);
  }

  lemma ColonNoDigit()
    ensures !IsDigit(':', 16)
  {}

  /** The mapped prefix is read up to its colon. */
  lemma MappedPrefix(m: Mapping, v4: string)
    requires ValidMapping(m) && m.Mapped?
    ensures var s := MappingText(m) + v4;
            var n := IndexOf(s, ':');
            n < |s| && ScanLength(s, |s|) == 4 && s[..4] == m.ffff && s[n + 1..] == v4
  {
    hide ScanLength, IndexOf, IsGroup, GroupValue, IsDigit;
    PrefixScanned(m, v4);
    GroupHasNoColon(m.ffff);
    var s, n := MappingText(m) + v4, 4 + |m.junk|;
    assert s[..n] == m.ffff + m.junk;
    IndexOfIs(s, ':', n);
  }

  lemma TailWithoutColon(s: string)
    requires ':' !in s
    ensures ParseTail(s) == match Ipv4Text.ParseV4(s) case None => None case Some(v4) => Some(TailWords(false, v4))
  {
    IndexOfIs(s, ':', |s|);
  }

  lemma TailWithColon(s: string, colon: nat)
    requires colon < |s| && s[colon] == ':' && ':' !in s[..colon]
    ensures ParseTail(s) ==
            if RefusedPrefix(s) then None
            else match Ipv4Text.ParseV4(s[colon + 1..]) case None => None case Some(v4) => Some(TailWords(true, v4))
  {
    IndexOfIs(s, ':', colon);
  }

  lemma ParseTailForm(f: Form)
    requires ValidForm(f) && f.Tail?
    ensures ParseTail(MappingText(f.mapping) + f.v4) == Some(FormWords(f))
  {
    hide ParseTail, Ipv4Text.ParseV4, TailWords, GroupValue, ScanLength;
    var s := MappingText(f.mapping) + f.v4;
    Ipv4Text.AcceptedChars(f.v4);
    if f.mapping.Mapped? {
      MappedPrefix(f.mapping, f.v4);
      TailWithColon(s, IndexOf(s, ':'));
    } else {
      assert s == f.v4;
      TailWithoutColon(s);
    }
  }

  /** The dotted form holds a dot and no small x. */
  lemma TailChars(f: Form)
    requires ValidForm(f) && f.Tail?
    ensures var s := MappingText(f.mapping) + f.v4;
            '.' in s && 'x' !in s && |s| >= 4
  {
    hide GroupValue, IsGroup, Ipv4Text.ParseV4, Value;
    Ipv4Text.AcceptedChars(f.v4);
    if f.mapping.Mapped? {
      GroupChars(f.mapping.ffff);
    }
  }

  lemma ParseTailText(f: Form)
    requires ValidForm(f) && f.Tail?
    ensures ParseV6(FormText(f)) == Some(FormWords(f))
  {
    hide ParseTail, Run, ValidForm, MappingText, FormWords;
    var s := MappingText(f.mapping) + f.v4;
    TailChars(f);
    ParseTailForm(f);
    assert FormText(f)[2..] == s;
  }

  /** The prefix is a group of four characters in front of the first colon. */
  lemma PrefixChars(s: string)
    requires ScanLength(s, |s|) == 4
    ensures IsGroup(s[..4]) && ':' !in s[..4] && forall i :: 0 <= i < 4 ==> s[i] != ':'
  {
    hide IsScanned, ScanLength;
    ScannedWhole(s[..4], |s|);
    GroupChars(s[..4]);
    assert forall i :: 0 <= i < 4 ==> s[..4][i] == s[i];
  }

  lemma SoundTail(s: string) returns (f: Form)
    requires ParseTail(s).Some? && 'x' !in s
    ensures f.Tail? && ValidForm(f) && MappingText(f.mapping) + f.v4 == s
  {
    hide GroupValue, Ipv4Text.ParseV4, TailWords, IsScanned, IsGroup, ScanLength;
    ScanStops(s);
    var n := IndexOf(s, ':');
    if n == |s| {
      f := Tail(Compatible, s);
      assert "" + s == s;
    } else {
      PrefixChars(s);
      var m := Mapped(s[..4], s[4..n]);
      f := Tail(m, s[n + 1..]);
      assert forall i :: 0 <= i < n ==> s[..n][i] == s[i];
      assert n > 4 ==> s[4..n][0] == s[4];
      assert s == s[..4] + s[4..n] + ":" + s[n + 1..];
    }
  }

  // ---------------------------------------------------------------- the parser as a whole

  /** Every form is accepted with the address it stands for. */
  lemma ParseForm(f: Form)
    requires ValidForm(f)
    ensures ParseV6(FormText(f)) == Some(FormWords(f))
  {
    if f.Tail? {
      ParseTailText(f);
    } else {
      ParseGroups(f);
    }
  }

  /**
   For every address, any nonempty block of zero words may be written as "::", and every other word as
   any group that stands for it, such as one to four digits of either case (forms 1 and 2 of section
   2.2 of RFC 4291).
   */
  lemma AnySpelling(w: Words, left: seq<string>, right: seq<string>)
    requires AllGroups(left) && AllGroups(right) && |left| + |right| <= 8
    requires Values(left) == w[..|left|] && Values(right) == w[8 - |right|..]
    requires forall i :: |left| <= i < 8 - |right| ==> w[i] == 0
    ensures |left| + |right| < 8 ==> ParseV6(Join(left) + ("::" + Join(right))) == Some(w)
    ensures |left| == 8 ==> ParseV6(Join(left)) == Some(w)
  {
    hide ParseV6, Join, Values, FormWords;
    if |left| == 8 {
      FullWords(w, left);
      assert "" + Join(left) == Join(left);
      ParseForm(Full(false, left));
    } else if |left| + |right| < 8 {
      var text := Join(left) + ("::" + Join(right));
      CompressedWords(w, left, right);
      assert "" + text == text;
      ParseForm(Compressed(false, left, right));
    }
  }

  lemma FullWords(w: Words, gs: seq<string>)
    requires AllGroups(gs) && |gs| == 8 && Values(gs) == w[..8]
    ensures FormWords(Full(false, gs)) == w
  {
    hide Values;
    assert w[..8] == w;
  }

  lemma CompressedWords(w: Words, left: seq<string>, right: seq<string>)
    requires AllGroups(left) && AllGroups(right) && |left| + |right| < 8
    requires Values(left) == w[..|left|] && Values(right) == w[8 - |right|..]
    requires forall i :: |left| <= i < 8 - |right| ==> w[i] == 0
    ensures FormWords(Compressed(false, left, right)) == w
  {
    hide Values;
    assert Zeros(8 - |left| - |right|) == w[|left|..8 - |right|];
  }

  lemma TailForm(f: Form)
    requires f.Tail?
    ensures FormText(f) == "::" + (MappingText(f.mapping) + f.v4)
  {}

  lemma SoundForm(s: string) returns (f: Form)
    requires ParseV6(s).Some?
    ensures ValidForm(f) && FormText(f) == s
  {
    hide Run, ParseTail, ValidForm, FormText;
    if StartsCompressed(s) && '.' in s[2..] {
      f := SoundTail(s[2..]);
      TailForm(f);
      assert s == "::" + s[2..];
    } else {
      f := SoundGroups(s);
    }
  }

  /** The parser accepts a text as an address exactly when the text is a form of that address. */
  lemma AcceptsExactly(s: string, w: Words)
    ensures ParseV6(s) == Some(w) <==> exists f :: ValidForm(f) && FormText(f) == s && FormWords(f) == w
  {
    hide ParseV6;
    if ParseV6(s) == Some(w) {
      var f := SoundForm(s);
      ParseForm(f);
    }
    forall f | ValidForm(f) && FormText(f) == s
      ensures ParseV6(s) == Some(FormWords(f))
    {
      ParseForm(f);
    }
  }

  /** No text is a form of two addresses. */
  lemma FormsAreUnambiguous(f: Form, g: Form)
    requires ValidForm(f) && ValidForm(g) && FormText(f) == FormText(g)
    ensures FormWords(f) == FormWords(g)
  {
    ParseForm(f);
    ParseForm(g);
  }

  /** A single group behind "::" is the last word. */
  lemma LastGroup(g: string)
    requires IsGroup(g)
    ensures ParseV6("::" + g) == Some([0, 0, 0, 0, 0, 0, 0, GroupValue(g)])
  {
    hide ParseV6, GroupValue, IsScanned;
    var f := Compressed(false, [], [g]);
    JoinSingle(g);
    assert "" + ("" + ("::" + g)) == "::" + g;
    ParseForm(f);
    assert [g][1..] == [];
    assert FormWords(f) == [0, 0, 0, 0, 0, 0, 0, GroupValue(g)];
  }

  lemma ValueOfOne()
    ensures AllDigits("1", 16) && Value("1", 16) == 1
  {
    assert "1"[..0] == "";
  }

  /** A group whose digits are a single 1, behind k characters of white space and p of sign and "0X". */
  lemma GroupOfOne(g: string, k: nat, p: nat)
    requires k + p + 1 == |g| && |g| <= 4 && g[k + p..] == "1"
    requires Blanks(g) == k && PrefixLength(g[k..], 16) == p
    ensures IsGroup(g) && GroupValue(g) == if g[k] == '-' then 0xFFFF else 1
  {
    hide Blanks, PrefixLength, Value;
    ValueOfOne();
    assert g[k..][p..] == g[k + p..];
  }

  lemma BlankOne()
    ensures IsGroup(" 1") && GroupValue(" 1") == 1
  {
    hide IsGroup, GroupValue;
    BlanksIs(" 1", 1);
    NoPrefix("1", 16);
    assert " 1"[1..] == "1" && " 1"[1..][0] == '1';
    GroupOfOne(" 1", 1, 0);
  }

  lemma PlusOne()
    ensures IsGroup("+1") && GroupValue("+1") == 1
  {
    hide IsGroup, GroupValue;
    BlanksIs("+1", 0);
    assert "+1"[0..] == "+1" && "+1"[1..] == "1";
    GroupOfOne("+1", 0, 1);
  }

  lemma MinusOne()
    ensures IsGroup("-1") && GroupValue("-1") == 0xFFFF
  {
    hide IsGroup, GroupValue;
    BlanksIs("-1", 0);
    assert "-1"[0..] == "-1" && "-1"[1..] == "1";
    GroupOfOne("-1", 0, 1);
  }

  lemma PrefixedOne()
    ensures IsGroup("0X1") && GroupValue("0X1") == 1
  {
    hide IsGroup, GroupValue;
    BlanksIs("0X1", 0);
    assert "0X1"[0..] == "0X1" && "0X1"[2..] == "1";
    GroupOfOne("0X1", 0, 2);
  }

  /** White space, signs and "0X" are read as `sscanf` reads them. */
  lemma BeyondDigits()
    ensures ParseV6(":: 1") == ParseV6("::+1") == ParseV6("::0X1") == Some([0, 0, 0, 0, 0, 0, 0, 1])
    ensures ParseV6("::-1") == Some([0, 0, 0, 0, 0, 0, 0, 0xFFFF])
  {
    hide ParseV6, IsGroup, GroupValue;
    BlankOne();
    PlusOne();
    MinusOne();
    PrefixedOne();
    LastGroup(" 1");
    LastGroup("+1");
    LastGroup("0X1");
    LastGroup("-1");
    assert "::" + " 1" == ":: 1" && "::" + "+1" == "::+1" && "::" + "0X1" == "::0X1" && "::" + "-1" == "::-1";
  }

  // ---------------------------------------------------------------- the procedures

  /** `rtc_strchr`: the first position that holds one of the characters chs, or -1. */
  method RtcStrchr(str: string, chs: string) returns (p: int)
    ensures -1 <= p < |str|
    ensures p >= 0 ==> str[p] in chs
    ensures forall k :: 0 <= k < (if p < 0 then |str| else p) ==> str[k] !in chs
  {
    for i := 0 to |str|
      invariant forall k :: 0 <= k < i ==> str[k] !in chs
    {
      for j := 0 to |chs|
        invariant str[i] !in chs[..j]
      {
        if str[i] == chs[j] {
          return i;
        }
      }
    }
    p := -1;
  }

  lemma PutBytes(a: Words, k: nat, v: word)
    requires k < 8
    ensures ToBytes(a[k := v]) == ToBytes(a)[2 * k := High(v)][2 * k + 1 := Low(v)]
  {
    var b, b' := ToBytes(a)[2 * k := High(v)][2 * k + 1 := Low(v)], ToBytes(a[k := v]);
    forall i | 0 <= i < 16
      ensures b[i] == b'[i]
    {
      assert i == 2 * (i / 2) || i == 2 * (i / 2) + 1;
      assert b'[2 * (i / 2)] == High(a[k := v][i / 2]);
    }
  }

  /**
   `inet_pton_v6`: accepts exactly the texts that ParseV6 does, stores the sixteen bytes, and leaves
   dst alone when it refuses.
   */
  method InetPtonV6(src: string, dst: array<byte>) returns (ok: bool)
    requires dst.Length == 16
    modifies dst
    ensures ok == ParseV6(src).Some?
    ensures dst[..] == if ok then ToBytes(ParseV6(src).value) else old(dst[..])
  {
    for i := 0 to |src|
      invariant 'x' !in src[..i]
    {
      if src[i] == 'x' {
        return false;
      }
    }
    assert src[..|src|] == src;
    if |src| > 2 && src[0] == ':' && src[1] == ':' {
      var addrStart := src[2..];
      var period := RtcStrchr(addrStart, ".");
      if period >= 0 {
        ok := InetPtonTail(addrStart, dst);
        return;
      }
    }
    ok := InetPtonGroups(src, dst);
  }

  lemma TailBytes(mapped: bool, a: Ipv4Text.Ipv4)
    ensures var f: byte := if mapped then 0xFF else 0;
            ToBytes(TailWords(mapped, a)) == [0, 0, 0, 0, 0, 0, 0, 0, 0, 0, f, f, a[0], a[1], a[2], a[3]]
  {
    var w := TailWords(mapped, a);
    assert w[6] == MakeWord(a[0], a[1]) && w[7] == MakeWord(a[2], a[3]);
  }

  /** The IPv4 half of the dotted branch: anAddr holds what the prefix wrote. */
  method InetPtonTailV4(v4Start: string, anAddr: array<byte>, ghost mapped: bool, dst: array<byte>)
    returns (ok: bool)
    requires anAddr.Length == dst.Length == 16
    requires anAddr[..12] == ToBytes(TailWords(mapped, [0, 0, 0, 0]))[..12]
    modifies anAddr, dst
    ensures ok == Ipv4Text.ParseV4(v4Start).Some?
    ensures ok ==> dst[..] == ToBytes(TailWords(mapped, Ipv4Text.ParseV4(v4Start).value))
    ensures !ok ==> dst[..] == old(dst[..])
  {
    hide ToBytes, TailWords, Ipv4Text.ParseV4;
    var v4 := new byte[4];
    ok := Ipv4Text.InetPtonV4(v4Start, v4);
    if ok {
      TailBytes(mapped, [0, 0, 0, 0]);
      ghost var a := v4[..];
      TailBytes(mapped, a);
      ghost var f: byte := if mapped then 0xFF else 0;
      assert anAddr[..12] == [0, 0, 0, 0, 0, 0, 0, 0, 0, 0, f, f];
      ghost var front := anAddr[..12];
      forall i | 0 <= i < 4 {
        anAddr[12 + i] := v4[i];
      }
      assert anAddr[..] == front + a;
      assert a == [a[0], a[1], a[2], a[3]];
      CopyBytes(anAddr, dst);
    }
  }

  /** The dotted branch: addrStart is the text behind the "::". */
  method InetPtonTail(addrStart: string, dst: array<byte>) returns (ok: bool)
    requires dst.Length == 16 && 'x' !in addrStart
    modifies dst
    ensures ok == ParseTail(addrStart).Some?
    ensures dst[..] == if ok then ToBytes(ParseTail(addrStart).value) else old(dst[..])
  {
    hide ToBytes, TailWords, ParseTail, RefusedPrefix, Ipv4Text.ParseV4;
    var anAddr := new byte[16](_ => 0);
    var colon := RtcStrchr(addrStart, "::");
    TailBytes(colon >= 0, [0, 0, 0, 0]);
    if colon >= 0 {
      TailWithColon(addrStart, colon);
      if RefusedPrefix(addrStart) {
        return false;
      }
      anAddr[10], anAddr[11] := 0xFF, 0xFF;
      ok := InetPtonTailV4(addrStart[colon + 1..], anAddr, true, dst);
    } else {
      TailWithoutColon(addrStart);
      ok := InetPtonTailV4(addrStart, anAddr, false, dst);
    }
  }

  /** `*addr_cursor = htons(word)`. */
  method StoreWord(anAddr: array<byte>, ghost a: Words, k: nat, v: word)
    requires anAddr.Length == 16 && anAddr[..] == ToBytes(a) && k < 8
    modifies anAddr
    ensures anAddr[..] == ToBytes(a[k := v])
  {
    PutBytes(a, k, v);
    anAddr[2 * k] := High(v);
    anAddr[2 * k + 1] := Low(v);
  }

  /** The main loop. */
  method InetPtonGroups(src: string, dst: array<byte>) returns (ok: bool)
    requires dst.Length == 16 && 'x' !in src
    modifies dst
    ensures ok == Run(src, NO_WORDS, 0, false).Some?
    ensures dst[..] == if ok then ToBytes(Run(src, NO_WORDS, 0, false).value) else old(dst[..])
  {
    hide Run, ToBytes, GroupLength, IsGroup, GroupValue;
    NoBytes();
    var anAddr := new byte[16](_ => 0);
    ghost var a := NO_WORDS;
    var readCursor, addrCursor, addrEnd := 0, 0, 8;
    var seenCompressed := false;
    assert src[0..] == src;
    while readCursor < |src| && addrCursor < addrEnd
      invariant 0 <= readCursor <= |src| && 0 <= addrCursor <= addrEnd
      invariant anAddr[..] == ToBytes(a)
      invariant Run(src, NO_WORDS, 0, false) == Run(src[readCursor..], a, addrCursor, seenCompressed)
      modifies anAddr
      decreases |src| - readCursor
    {
      ghost var left := src[readCursor..];
      if src[readCursor] == ':' {
        ColonStep(left, a, addrCursor, seenCompressed);
        if readCursor + 1 < |src| && src[readCursor + 1] == ':' {
          if seenCompressed {
            return false;
          }
          readCursor := readCursor + 2;
          assert src[readCursor..] == left[2..];
          if readCursor == |src| {
            addrCursor := addrEnd;
          } else {
            var colonCount := CountColons(src, readCursor);
            if colonCount + 1 > addrEnd - addrCursor {
              return false;
            }
            addrCursor := addrEnd - (colonCount + 1);
            seenCompressed := true;
          }
        } else {
          readCursor := readCursor + 1;
          assert src[readCursor..] == left[1..];
        }
      } else {
        GroupStep(left, a, addrCursor, seenCompressed);
        var bytesRead := GroupLength(src[readCursor..]);
        if bytesRead == 0 {
          return false;
        }
        var word := GroupValue(src[readCursor..][..bytesRead]);
        StoreWord(anAddr, a, addrCursor, word);
        a := a[addrCursor := word];
        addrCursor := addrCursor + 1;
        readCursor := readCursor + bytesRead;
        assert src[readCursor..] == left[bytesRead..];
        if readCursor < |src| && src[readCursor] != ':' {
          return false;
        }
      }
    }
    RunExit(src[readCursor..], a, addrCursor, seenCompressed);
    if readCursor < |src| || addrCursor < addrEnd {
      return false;
    }
    CopyBytes(anAddr, dst);
    return true;
  }

  lemma NoBytes()
    ensures ToBytes(NO_WORDS) == [0, 0, 0, 0, 0, 0, 0, 0, 0, 0, 0, 0, 0, 0, 0, 0]
  {}

  lemma RunExit(s: string, a: Words, k: nat, seen: bool)
    requires k <= 8 && (s == "" || k == 8)
    ensures Run(s, a, k, seen) == if s == "" && k == 8 then Some(a) else None
  {}

  /** `memcpy(dst, &an_addr, sizeof(an_addr))`. */
  method CopyBytes(anAddr: array<byte>, dst: array<byte>)
    requires anAddr.Length == dst.Length == 16
    modifies dst
    ensures dst[..] == old(anAddr[..])
  {
    forall i | 0 <= i < 16 {
      dst[i] := anAddr[i];
    }
  }

  method CountColons(src: string, from: nat) returns (count: nat)
    requires from <= |src|
    ensures count == Colons(src[from..])
  {
    var colonCounter := from;
    count := 0;
    while colonCounter < |src|
      invariant from <= colonCounter <= |src|
      invariant count + Colons(src[colonCounter..]) == Colons(src[from..])
    {
      assert src[colonCounter..][1..] == src[colonCounter + 1..];
      if src[colonCounter] == ':' {
        count := count + 1;
      }
      colonCounter := colonCounter + 1;
    }
  }
}
