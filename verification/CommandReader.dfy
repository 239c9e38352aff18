/**
 The command reader: the loop that resets the session's buffers, reads a line, trims it, splits it at
 the first space and upper-cases the verb, working on zeroed buffers in place.
 */
module CommandReader {
  import opened Basics
  import opened ByteStream

  const MAX_COMMAND := 1024

  // ---------------------------------------------------------------- strings

  predicate IsBreak(c: char) {
    c == '\r' || c == '\n'
  }

  predicate OnlyBreaks(s: string) {
    forall i :: 0 <= i < |s| ==> IsBreak(s[i])
  }

  function ToUpper(c: char): char {
    if 'a' <= c <= 'z' then 'A' + (c - 'a') else c
  }

  /** The small letters become the capitals of the same place, and nothing else changes. */
  lemma UpperTable(i: nat)
    requires i < 26
    ensures ToUpper("abcdefghijklmnopqrstuvwxyz"[i]) == "ABCDEFGHIJKLMNOPQRSTUVWXYZ"[i]
  {}

  lemma UpperKeeps(c: char)
    requires !('a' <= c <= 'z')
    ensures ToUpper(c) == c
  {}

  /** A text without small letters. */
  predicate NoSmall(s: string) {
    forall i :: 0 <= i < |s| ==> !('a' <= s[i] <= 'z')
  }

  function Upper(s: string): (u: string)
    ensures |u| == |s| && forall i :: 0 <= i < |s| ==> u[i] == ToUpper(s[i])
  {
    seq(|s|, i requires 0 <= i < |s| => ToUpper(s[i]))
  }

  lemma UpperHasNoSmall(s: string)
    ensures NoSmall(Upper(s))
  {}

  /** A string without the line breaks at its end. */
  function Trimmed(s: string): string
    decreases |s|
  {
    if s != "" && IsBreak(s[|s| - 1]) then Trimmed(s[..|s| - 1]) else s
  }

  // ---------------------------------------------------------------- the meaning of a stream

  /** A command as the dispatcher sees it. */
  datatype Command = Command(verb: string, args: string)

  /** The command in a line that has some character besides line breaks. */
  function ParseLine(line: string): Command {
    var t := Trimmed(line);
    var i := IndexOf(t, ' ');
    Command(Upper(t[..i]), if i < |t| then t[i + 1..] else "")
  }

  /**
   How the loop ends: the peer closed the stream, a command ended the session, reading failed, or a
   line held nothing but line breaks, for which trimming runs off the front of the buffer.
   */
  datatype Ending = Closed | Dispatched | ReadError | EmptyLine

  /** The commands in a stream, and how reading them ends. */
  function Commands(s: string, ends: Command -> bool): (r: (seq<Command>, Ending))
    decreases |s|
  {
    match ReadByByte(s, MAX_COMMAND - 1)
    case EndOfStream => ([], Closed)
    case Line(text, rest) =>
      ReadSome(s, MAX_COMMAND - 1);
      if OnlyBreaks(CStr(text)) then ([], EmptyLine)
      else
        var c := ParseLine(CStr(text));
        if ends(c) then ([c], Dispatched)
        else
          var (cs, e) := Commands(rest, ends);
          ([c] + cs, e)
  }

  // ---------------------------------------------------------------- the buffers

  class Session {
    const command: array<char>
    const com: array<char>
    const args: array<char>

    ghost predicate Valid() {
      && command.Length == com.Length == args.Length == MAX_COMMAND
      && command != com && command != args && com != args
    }

    constructor ()
      ensures Valid() && fresh(command) && fresh(com) && fresh(args)
    {
      command := new char[MAX_COMMAND];
      com := new char[MAX_COMMAND];
      args := new char[MAX_COMMAND];
    }
  }

  ghost predicate AllZero(s: string) {
    forall i :: 0 <= i < |s| ==> s[i] == '\0'
  }

  method Zero(buf: array<char>)
    modifies buf
    ensures AllZero(buf[..])
  {
    forall i | 0 <= i < buf.Length {
      buf[i] := '\0';
    }
  }

  /** `session_reset_command`. */
  method ResetCommand(session: Session)
    requires session.Valid()
    modifies session.command, session.com, session.args
    ensures AllZero(session.command[..]) && AllZero(session.com[..]) && AllZero(session.args[..])
  {
    Zero(session.command);
    Zero(session.com);
    Zero(session.args);
  }

  function StrLenOf(s: string): (n: nat)
    requires '\0' in s
    ensures n < |s| && s[n] == '\0' && n == |CStr(s)| && forall j :: 0 <= j < n ==> CStr(s)[j] == s[j] != '\0'
  {
    var t := CStr(s);
    assert |t| == |s| ==> t == s;
    |t|
  }

  /** `strlen`. */
  method StrLen(str: array<char>) returns (n: nat)
    requires '\0' in str[..]
    ensures n < str.Length && str[n] == '\0' && str[..n] == CStr(str[..])
  {
    ghost var len := StrLenOf(str[..]);
    n := 0;
    while str[n] != '\0'
      invariant n <= len < str.Length
      decreases len - n
    {
      n := n + 1;
    }
    assert str[..][..n] == str[..n];
  }

  lemma {:induction false} TrimStep(s: string, k: nat)
    requires k <= |s| && (forall i :: k <= i < |s| ==> IsBreak(s[i])) && (k == 0 || !IsBreak(s[k - 1]))
    ensures Trimmed(s) == s[..k]
    decreases |s|
  {
    if k < |s| {
      var t := s[..|s| - 1];
      TrimStep(t, k);
      assert t[..k] == s[..k];
    }
  }

  lemma NonBreak(s: string) returns (q: nat)
    requires !OnlyBreaks(s)
    ensures q < |s| && !IsBreak(s[q])
  {
    q :| q < |s| && !IsBreak(s[q]);
  }

  /** `str_trim_crlf`: needs a character that is no line break, or it leaves the buffer at the front. */
  method TrimCrlf(str: array<char>)
    requires '\0' in str[..] && !OnlyBreaks(CStr(str[..]))
    modifies str
    ensures '\0' in str[..]
    ensures CStr(str[..]) == Trimmed(CStr(old(str[..])))
  {
    hide CStr, Trimmed, OnlyBreaks;
    ghost var line := CStr(str[..]);
    ghost var q := NonBreak(line);
    var n := StrLen(str);
    assert forall i :: 0 <= i < n ==> str[i] == str[..n][i] == line[i];
    var p := n - 1;
    while IsBreak(str[p])
      invariant q <= p < n < str.Length && str[p + 1] == '\0'
      invariant forall i :: 0 <= i <= p ==> str[i] == line[i]
      invariant forall i :: p < i < n ==> IsBreak(line[i])
      decreases p
    {
      str[p] := '\0';
      p := p - 1;
    }
    TrimStep(line, p + 1);
    assert str[..][..p + 1] == line[..p + 1];
    CStrIs(str[..], p + 1);
  }

  /** A buffer with a string copied to its front, with its NUL (strcpy) or without (strncpy). */
  method Copy(dst: array<char>, src: string, terminate: bool)
    requires |src| + 1 <= dst.Length
    modifies dst
    ensures dst[..] == src + (if terminate then "\0" else [old(dst[|src|])]) + old(dst[|src| + 1..])
  {
    forall i | 0 <= i < |src| {
      dst[i] := src[i];
    }
    if terminate {
      dst[|src|] := '\0';
    }
  }

  /** `str_split`: strncpy of the part before the separator writes no NUL behind it. */
  method StrSplit(str: array<char>, left: array<char>, right: array<char>, c: char)
    requires '\0' in str[..] && str != left && str != right && left != right
    requires str.Length <= left.Length && str.Length <= right.Length
    modifies left, right
    ensures var s := CStr(str[..]);
            var i := IndexOf(s, c);
            && |s| < str.Length
            && left[..] == s[..i] + (if i == |s| then "\0" else [old(left[i])]) + old(left[i + 1..])
            && right[..] == if i == |s| then old(right[..])
                            else s[i + 1..] + "\0" + old(right[|s| - i..])
  {
    var n := StrLen(str);
    var s := str[..n];
    var p := IndexOf(s, c);
    if p == n {
      assert s[..p] == s;
      Copy(left, s, true);
    } else {
      Copy(left, s[..p], false);
      Copy(right, s[p + 1..], true);
    }
  }

  /** A piece with a NUL behind it. */
  lemma CStrOfPiece(buffer: string, piece: string)
    requires '\0' !in piece && piece + "\0" <= buffer
    ensures CStr(buffer) == piece
  {
    assert buffer[..|piece|] == (piece + "\0")[..|piece|] == piece;
    assert buffer[|piece|] == (piece + "\0")[|piece|];
    CStrIs(buffer, |piece|);
  }

  /**
   The verb is a C string of its own exactly when the buffer held a NUL where it ends: this is what
   the reset of the buffers is for.
   */
  lemma SplitNeedsReset(left: string, verb: string, was: string)
    requires |verb| < |was| && '\0' !in verb
    requires left == verb + [was[|verb|]] + was[|verb| + 1..]
    ensures CStr(left) == verb <==> was[|verb|] == '\0'
  {
    if was[|verb|] == '\0' {
      CStrOfPiece(left, verb);
    } else {
      assert left[|verb|] == was[|verb|];
    }
  }

  /** In a buffer that holds other characters, "NOOP" is read back with one of them behind it. */
  lemma SplitInstance()
    ensures CStr("NOOP" + ["XXXXX\0"[4]] + "XXXXX\0"[5..]) == "NOOPX"
  {
    assert "NOOP" + ["XXXXX\0"[4]] + "XXXXX\0"[5..] == "NOOPX\0";
    CStrIs("NOOPX\0", 5);
  }

  /** `str_upper`. */
  method StrUpper(str: array<char>)
    requires '\0' in str[..]
    modifies str
    ensures CStr(str[..]) == Upper(CStr(old(str[..])))
  {
    ghost var s := CStr(str[..]);
    ghost var n := StrLenOf(str[..]);
    var i := 0;
    while str[i] != '\0'
      invariant 0 <= i <= n < str.Length && str[n] == '\0' && str[..i] == Upper(s)[..i]
      invariant forall j :: i <= j < n ==> str[j] == s[j] != '\0'
      decreases n - i
    {
      str[i] := ToUpper(str[i]);
      assert str[..i + 1] == str[..i] + [str[i]];
      i := i + 1;
    }
    assert str[..][..n] == Upper(s);
    CStrIs(str[..], n);
  }

  // ---------------------------------------------------------------- the loop

  /** What the buffers hold when a line is handed to the dispatcher. */
  ghost predicate Holds(session: Session, c: Command)
    reads session.com, session.args
  {
    CStr(session.com[..]) == c.verb && CStr(session.args[..]) == c.args
  }

  /** Trim, split and upper-case the line in `command`, with the other two buffers zeroed. */
  method ParseCommand(session: Session)
    requires session.Valid() && '\0' in session.command[..] && !OnlyBreaks(CStr(session.command[..]))
    requires AllZero(session.com[..]) && AllZero(session.args[..])
    modifies session.command, session.com, session.args
    ensures Holds(session, ParseLine(old(CStr(session.command[..]))))
  {
    hide OnlyBreaks, Trimmed, CStr, IndexOf, Upper;
    ghost var line := CStr(session.command[..]);
    ghost var t := Trimmed(line);
    TrimCrlf(session.command);
    var _ := StrLenOf(session.command[..]);
    ghost var com, args := session.com[..], session.args[..];
    StrSplit(session.command, session.com, session.args, ' ');
    var i := IndexOf(t, ' ');
    PieceOf(t, i);
    CStrOfPiece(session.com[..], t[..i]);
    if i < |t| {
      CStrOfPiece(session.args[..], t[i + 1..]);
    } else {
      CStrOfPiece(session.args[..], "");
    }
    assert session.com[i] == '\0';
    StrUpper(session.com);
  }

  lemma PieceOf(t: string, i: nat)
    requires '\0' !in t && i <= |t|
    ensures '\0' !in t[..i] && (i < |t| ==> '\0' !in t[i + 1..])
  {}

  /** One turn of the loop in terms of the stream. */
  lemma CommandsStep(s: string, ends: Command -> bool)
    ensures Commands(s, ends) ==
            match ReadByByte(s, MAX_COMMAND - 1)
            case EndOfStream => ([], Closed)
            case Line(text, rest) =>
              if OnlyBreaks(CStr(text)) then ([], EmptyLine)
              else if ends(ParseLine(CStr(text))) then ([ParseLine(CStr(text))], Dispatched)
              else ([ParseLine(CStr(text))] + Commands(rest, ends).0, Commands(rest, ends).1)
    ensures ReadByByte(s, MAX_COMMAND - 1).Line? ==>
              ReadByByte(s, MAX_COMMAND - 1).text != "" && |ReadByByte(s, MAX_COMMAND - 1).rest| < |s|
  {
    ReadSome(s, MAX_COMMAND - 1);
  }

  lemma ReadSome(s: string, n: nat)
    requires n > 0
    ensures ReadByByte(s, n).Line? ==> ReadByByte(s, n).text != "" && |ReadByByte(s, n).rest| < |s|
  {}

  /** No verb handed to the dispatcher holds a small letter. */
  lemma {:induction false} VerbsAreUpper(s: string, ends: Command -> bool)
    ensures forall i :: 0 <= i < |Commands(s, ends).0| ==> NoSmall(Commands(s, ends).0[i].verb)
    decreases |s|
  {
    hide Commands, ReadByByte, OnlyBreaks, CStr, NoSmall, Upper, Trimmed;
    CommandsStep(s, ends);
    var line := ReadByByte(s, MAX_COMMAND - 1);
    if line.Line? && !OnlyBreaks(CStr(line.text)) {
      var t := Trimmed(CStr(line.text));
      UpperHasNoSmall(t[..IndexOf(t, ' ')]);
      if !ends(ParseLine(CStr(line.text))) {
        VerbsAreUpper(line.rest, ends);
      }
    }
  }

  /** A line that was read with a NUL behind it is the C string of the line. */
  lemma CStrOfLine(buffer: string, text: string)
    requires |text| < |buffer| && buffer[..|text|] == text && buffer[|text|] == '\0'
    ensures CStr(buffer) == CStr(text) && '\0' in buffer
  {
    var k := |CStr(text)|;
    assert forall i :: 0 <= i < |text| ==> buffer[i] == text[i];
    assert buffer[..k] == text[..k];
    CStrIs(buffer, k);
  }

  /**
   `handle_proto`: under every fragmentation, the commands handed to the dispatcher and the way the
   loop ends are those of the stream; up to a failed read, the commands are its first ones. `ends` says
   which commands end the session.
   */
  method HandleProto(session: Session, sock: Socket, ends: Command -> bool)
    returns (log: seq<Command>, ending: Ending)
    requires session.Valid()
    modifies sock`schedule, sock`incoming, session.command, session.com, session.args
    ensures Failed !in old(sock.schedule) ==> ending != ReadError
    ensures ending != ReadError ==> (log, ending) == Commands(old(sock.incoming), ends)
    ensures ending == ReadError ==> log <= Commands(old(sock.incoming), ends).0
    ensures forall i :: 0 <= i < |log| ==> NoSmall(log[i].verb)
  {
    hide Commands, ReadByByte, ParseLine, OnlyBreaks, CStr, NoSmall, Upper, Trimmed;
    VerbsAreUpper(sock.incoming, ends);
    log := [];
    assert log + Commands(sock.incoming, ends).0 == Commands(sock.incoming, ends).0;
    while true
      invariant forall o :: o in sock.schedule ==> o in old(sock.schedule)
      invariant Commands(old(sock.incoming), ends)
             == (log + Commands(sock.incoming, ends).0, Commands(sock.incoming, ends).1)
      decreases |sock.incoming|
    {
      ghost var s := sock.incoming;
      CommandsStep(s, ends);
      ResetCommand(session);
      var ret := Readline(sock, session.command, MAX_COMMAND);
      if ret < 0 {
        return log, ReadError;
      } else if ret == 0 {
        assert log + [] == log;
        return log, Closed;
      }
      ghost var text := ReadByByte(s, MAX_COMMAND - 1).text;
      assert session.command[..][..|text|] == session.command[..|text|];
      CStrOfLine(session.command[..], text);
      if OnlyBreaks(CStr(session.command[..])) {
        assert log + [] == log;
        return log, EmptyLine;
      }
      ParseCommand(session);
      var c := Command(CStr(session.com[..]), CStr(session.args[..]));
      ghost var more := Commands(sock.incoming, ends).0;
      assert log + ([c] + more) == (log + [c]) + more;
      log := log + [c];
      if ends(c) {
        return log, Dispatched;
      }
    }
  }

  // ---------------------------------------------------------------- printing and reading back

  /** A command as a client types it: a verb, and arguments if there is a space behind the verb. */
  datatype Typed = NoArgs(verb: string) | WithArgs(verb: string, args: string)

  predicate IsPlain(s: string) {
    forall i :: 0 <= i < |s| ==> s[i] != '\r' && s[i] != '\n' && s[i] != '\0'
  }

  function BodyOf(c: Typed): string {
    match c
    case NoArgs(verb) => verb
    case WithArgs(verb, args) => verb + (" " + args)
  }

  /** The command line of section 5.3.1 of RFC 959, ended by CR LF. */
  function LineOf(c: Typed): string {
    BodyOf(c) + "\r\n"
  }

  predicate IsTyped(c: Typed) {
    && c.verb != "" && IsPlain(c.verb) && ' ' !in c.verb && (c.WithArgs? ==> IsPlain(c.args))
    && |LineOf(c)| < 1024
  }

  /** What the dispatcher is to see. */
  function Seen(c: Typed): Command {
    Command(Upper(c.verb), if c.WithArgs? then c.args else "")
  }

  function LinesOf(cs: seq<Typed>): string {
    if cs == [] then "" else LineOf(cs[0]) + LinesOf(cs[1..])
  }

  function AllSeen(cs: seq<Typed>): seq<Command> {
    if cs == [] then [] else [Seen(cs[0])] + AllSeen(cs[1..])
  }

  lemma BodyIsPlain(c: Typed)
    requires IsTyped(c)
    ensures IsPlain(BodyOf(c)) && BodyOf(c) != ""
  {}

  /** A line is read as a whole, whatever follows it. */
  lemma ReadLineOf(c: Typed, rest: string)
    requires IsTyped(c)
    ensures ReadByByte(LineOf(c) + rest, MAX_COMMAND - 1) == Line(LineOf(c), rest)
  {
    hide ReadByByte;
    var b, s := BodyOf(c), LineOf(c) + rest;
    BodyIsPlain(c);
    var k := |b| + 1;
    assert s[..k] == b + "\r" && s[k] == '\n';
    ReadByByteIs(s, MAX_COMMAND - 1, k);
    assert s[..k + 1] == LineOf(c) && s[k + 1..] == rest;
  }

  /** Trimming takes off exactly the CR LF, and splitting finds the verb. */
  lemma ParseLineOf(c: Typed)
    requires IsTyped(c)
    ensures CStr(LineOf(c)) == LineOf(c) && !OnlyBreaks(LineOf(c)) && ParseLine(LineOf(c)) == Seen(c)
  {
    hide Trimmed, IndexOf, CStr;
    var b, l := BodyOf(c), LineOf(c);
    BodyIsPlain(c);
    assert l[0] == b[0];
    assert forall i :: 0 <= i < |l| ==> l[i] == if i < |b| then b[i] else "\r\n"[i - |b|];
    assert l[..|l|] == l;
    assert l[..|b|] == b && l[|b| - 1] == b[|b| - 1];
    TrimStep(l, |b|);
    assert b[..|c.verb|] == c.verb;
    IndexOfIs(b, ' ', |c.verb|);
    assert c.WithArgs? ==> b[|c.verb| + 1..] == c.args;
  }

  /**
   Any list of commands, printed as CR LF lines and read back, comes out as the same list of
   upper-cased verbs and arguments, up to and including command n, the first that ends the session;
   what follows that one is not read. When there is none, n is the length of the list.
   */
  lemma {:induction false} PrintedCommands(cs: seq<Typed>, ends: Command -> bool, n: nat)
    requires n <= |cs| && forall i :: 0 <= i < |cs| && i <= n ==> IsTyped(cs[i])
    requires forall i :: 0 <= i < n ==> !ends(Seen(cs[i]))
    requires n < |cs| ==> ends(Seen(cs[n]))
    ensures Commands(LinesOf(cs), ends)
         == if n < |cs| then (AllSeen(cs[..n + 1]), Dispatched) else (AllSeen(cs), Closed)
    decreases |cs|
  {
    hide Commands, ReadByByte, ParseLine, OnlyBreaks, CStr, IsTyped, Seen, LineOf;
    CommandsStep(LinesOf(cs), ends);
    if cs == [] {
      NoLine();
    } else {
      ReadLineOf(cs[0], LinesOf(cs[1..]));
      ParseLineOf(cs[0]);
      if n == 0 {
        assert cs[..1][1..] == [];
        assert AllSeen(cs[..1]) == [Seen(cs[0])];
      } else {
        PrintedCommands(cs[1..], ends, n - 1);
        assert n < |cs| ==> cs[..n + 1][1..] == cs[1..][..n];
      }
    }
  }

  lemma NoLine()
    ensures ReadByByte("", MAX_COMMAND - 1) == EndOfStream
  {}

  lemma UpperRetr()
    ensures Upper("retr") == "RETR" && Upper("Quit") == "QUIT"
  {
    UpperTable(17);
    UpperTable(4);
    UpperTable(19);
    UpperTable(20);
    UpperTable(8);
    UpperKeeps('Q');
    assert Upper("retr") == "RETR";
    assert Upper("Quit") == "QUIT";
  }

  /** Two lines as a client types them, of which the second ends the session; what follows is not read. */
  lemma TypedExample(ends: Command -> bool)
    requires !ends(Command("RETR", "a b")) && ends(Command("QUIT", ""))
    ensures Commands("retr a b\r\nQuit\r\nNOOP\r\n", ends)
         == ([Command("RETR", "a b"), Command("QUIT", "")], Dispatched)
  {
    hide Commands, Upper;
    UpperRetr();
    var cs := [WithArgs("retr", "a b"), NoArgs("Quit"), NoArgs("NOOP")];
    ExampleLines();
    PrintedCommands(cs, ends, 1);
    assert cs[..2] == [cs[0], cs[1]];
    SeenTwo(cs[0], cs[1]);
  }

  lemma SeenTwo(a: Typed, b: Typed)
    ensures AllSeen([a, b]) == [Seen(a), Seen(b)]
  {
    hide Seen;
    assert [a, b][1..] == [b] && [b][1..] == [];
    assert AllSeen([b]) == [Seen(b)];
  }

  lemma LinesCons(c: Typed, cs: seq<Typed>)
    ensures LinesOf([c] + cs) == LineOf(c) + LinesOf(cs)
  {
    assert ([c] + cs)[1..] == cs;
  }

  lemma ExampleLines()
    ensures LinesOf([WithArgs("retr", "a b"), NoArgs("Quit"), NoArgs("NOOP")]) == "retr a b\r\nQuit\r\nNOOP\r\n"
  {
    hide LinesOf;
    var a, b, c := WithArgs("retr", "a b"), NoArgs("Quit"), NoArgs("NOOP");
    LinesCons(c, []);
    LinesCons(b, [c]);
    LinesCons(a, [b, c]);
    NoLines();
    assert [c] + [] == [c] && [b] + [c] == [b, c] && [a] + [b, c] == [a, b, c];
    ExampleText();
  }

  lemma NoLines()
    ensures LinesOf([]) == ""
  {}

  lemma ExampleText()
    ensures LineOf(WithArgs("retr", "a b")) == "retr a b\r\n"
    ensures LineOf(NoArgs("Quit")) == "Quit\r\n" && LineOf(NoArgs("NOOP")) == "NOOP\r\n"
    ensures "retr a b\r\n" + ("Quit\r\n" + ("NOOP\r\n" + "")) == "retr a b\r\nQuit\r\nNOOP\r\n"
  {}

  /** A line longer than the buffer is taken in pieces of 1023 characters. */
  lemma LongLine(s: string)
    requires |s| >= 1023 && '\n' !in s[..1023]
    ensures ReadByByte(s, MAX_COMMAND - 1) == Line(s[..1023], s[1023..])
  {
    hide ReadByByte;
    ReadByByteIs(s, MAX_COMMAND - 1, 1023);
  }

  /** A line of nothing but CR LF ends the loop with its own outcome, whatever follows it. */
  lemma EmptyLineEnds(rest: string, ends: Command -> bool)
    ensures Commands("\r\n" + rest, ends) == ([], EmptyLine)
  {
    hide Commands, ReadByByte, ParseLine, CStr;
    var s := "\r\n" + rest;
    assert s[..1] == "\r" && s[1] == '\n' && s[..2] == "\r\n" && s[2..] == rest;
    ReadByByteIs(s, MAX_COMMAND - 1, 1);
    CStrWhole("\r\n");
    CommandsStep(s, ends);
  }

  lemma CStrWhole(t: string)
    requires '\0' !in t
    ensures CStr(t) == t
  {
    hide CStr;
    assert t[..|t|] == t;
  }
}
