/**
 File transfers with restart: storing in pieces, sending a file in 65536-byte blocks built of
 4096-byte reads, and the callback-driven sender that reports ranges.
 */
module Transfer {
  import opened Basics
  import opened Numerals

  const BLOCK_SIZE := 65536

  const READ_SIZE := 4096

  const WRAP64 := 0x1_0000_0000_0000_0000

  type Data = seq<byte>

  /** `ftruncate`: cut, or filled up with zeros. */
  function Resized(s: Data, n: nat): (r: Data)
    ensures |r| == n
  {
    if n <= |s| then s[..n] else s + Zeros(n - |s|)
  }

  /** Data written at a position; a gap behind the old end reads as zeros. */
  function Overlay(s: Data, pos: nat, d: Data): (r: Data)
    ensures |r| == if d == [] || pos + |d| < |s| then |s| else pos + |d|
  {
    if d == [] then s else Resized(s, pos) + d + Rest(s, pos + |d|)
  }

  /** What a file holds from a position on. */
  function Rest(s: Data, n: nat): Data {
    if n < |s| then s[n..] else []
  }

  /** A file that continues s behind a new front of n bytes. */
  lemma RestOfRest(front: Data, s: Data, n: nat, m: nat)
    requires |front| == n <= m
    ensures Resized(front + Rest(s, n), n) == front
    ensures Rest(front + Rest(s, n), m) == Rest(s, m)
  {}

  lemma OverlayIs(s: Data, pos: nat, d: Data)
    requires d != []
    ensures Overlay(s, pos, d) == Resized(s, pos) + d + Rest(s, pos + |d|)
  {}

  lemma OverlayNothing(s: Data, pos: nat)
    ensures Overlay(s, pos, []) == s
  {}

  lemma OverlayAtEnd(s: Data, d: Data)
    ensures Overlay(s, |s|, d) == s + d
  {}

  /** What stands at each place of a file after a write: the new data, the old content, or zeros in a gap. */
  lemma OverlayByte(s: Data, pos: nat, d: Data, i: nat)
    requires i < |Overlay(s, pos, d)|
    ensures Overlay(s, pos, d)[i] == if pos <= i < pos + |d| then d[i - pos] else if i < |s| then s[i] else 0
  {}

  lemma ResizedByte(s: Data, n: nat, i: nat)
    requires i < n
    ensures Resized(s, n)[i] == if i < |s| then s[i] else 0
  {}

  /** Writing in two pieces one behind the other is writing once. */
  lemma OverlayTwice(s: Data, pos: nat, a: Data, b: Data)
    ensures Overlay(Overlay(s, pos, a), pos + |a|, b) == Overlay(s, pos, a + b)
  {
    hide Overlay, Resized, Rest;
    if a == [] {
      assert a + b == b;
      OverlayNothing(s, pos);
    } else if b == [] {
      assert a + b == a;
      OverlayNothing(Overlay(s, pos, a), pos + |a|);
    } else {
      OverlayPieces(s, pos, a, b);
    }
  }

  lemma OverlayPieces(s: Data, pos: nat, a: Data, b: Data)
    requires a != [] && b != []
    ensures Overlay(Overlay(s, pos, a), pos + |a|, b) == Overlay(s, pos, a + b)
  {
    hide Overlay, Resized, Rest;
    var front, n := Resized(s, pos) + a, pos + |a|;
    RestOfRest(front, s, n, n + |b|);
    OverlayIs(s, pos, a);
    OverlayIs(s, pos, a + b);
    OverlayIs(front + Rest(s, n), n, b);
    assert Resized(s, pos) + (a + b) == front + b;
  }

  // ---------------------------------------------------------------- open files

  /** An open regular file: its content and the file position. */
  class File {
    var content: Data
    var pos: nat

    constructor (content: Data)
      ensures this.content == content && pos == 0
    {
      this.content, pos := content, 0;
    }

    /** `ftruncate`; a negative length is refused. */
    method Truncate(n: int)
      modifies this`content
      ensures content == if n < 0 then old(content) else Resized(old(content), n)
    {
      if n >= 0 {
        content := Resized(content, n);
      }
    }

    /** `lseek` from the start; a negative position is refused. */
    method Seek(n: int) returns (ok: bool)
      modifies this`pos
      ensures ok == (n >= 0) && pos == if ok then n else old(pos)
    {
      ok := n >= 0;
      if ok {
        pos := n;
      }
    }

    /** `writen` to the file, of which the first n bytes succeed. */
    method Write(d: Data, n: nat)
      requires n <= |d|
      modifies this
      ensures content == Overlay(old(content), old(pos), d[..n]) && pos == old(pos) + n
    {
      content := Overlay(content, pos, d[..n]);
      pos := pos + n;
    }

    /** `read`: up to n bytes from the position on. */
    method Read(n: nat) returns (d: Data)
      modifies this`pos
      ensures old(pos) <= |content| ==>
                d == content[old(pos)..if old(pos) + n < |content| then old(pos) + n else |content|]
      ensures old(pos) > |content| ==> d == []
      ensures pos == old(pos) + |d|
    {
      if pos > |content| {
        return [];
      }
      var end := if pos + n < |content| then pos + n else |content|;
      d := content[pos..end];
      pos := end;
    }
  }

  // ---------------------------------------------------------------- storing

  /**
   One turn of the receiving loop: bytes arrive and `written` of them reach the file, the read is
   interrupted or fails, or an ABOR arrives. The end of the list is the end of the data stream.
   */
  datatype Arrival = Bytes(d: Data, written: nat) | Interrupted | NetError | Abort

  predicate ValidArrivals(arrivals: seq<Arrival>) {
    forall i :: 0 <= i < |arrivals| && arrivals[i].Bytes? ==>
      arrivals[i].d != [] && arrivals[i].written <= |arrivals[i].d|
  }

  datatype Flag = Complete | BadNet | BadFile | Aborted | SeekFailed

  /** The bytes that reach the file, and how the transfer ends. */
  function Received(arrivals: seq<Arrival>): (Data, Flag)
    requires ValidArrivals(arrivals)
  {
    if arrivals == [] then ([], Complete)
    else
      match arrivals[0]
      case Abort => ([], Aborted)
      case NetError => ([], BadNet)
      case Interrupted => Received(arrivals[1..])
      case Bytes(d, written) =>
        if written < |d| then (d[..written], BadFile)
        else
          var (more, flag) := Received(arrivals[1..]);
          (d + more, flag)
  }

  /** The data stream itself. */
  function Joined(arrivals: seq<Arrival>): Data {
    if arrivals == [] then []
    else (if arrivals[0].Bytes? then arrivals[0].d else []) + Joined(arrivals[1..])
  }

  /** The first arrival that ends the loop: an ABOR, a failed read or a short write; or the end of the list. */
  function FirstStop(arrivals: seq<Arrival>): (k: nat)
    ensures k <= |arrivals|
    ensures forall i :: 0 <= i < k ==>
              arrivals[i] == Interrupted || (arrivals[i].Bytes? && arrivals[i].written == |arrivals[i].d|)
    ensures k < |arrivals| ==>
              arrivals[k] == Abort || arrivals[k] == NetError
              || (arrivals[k].Bytes? && arrivals[k].written != |arrivals[k].d|)
  {
    if arrivals == [] then 0
    else
      match arrivals[0]
      case Interrupted => 1 + FirstStop(arrivals[1..])
      case Bytes(d, written) => if written == |d| then 1 + FirstStop(arrivals[1..]) else 0
      case _ => 0
  }

  /** What reaches the file, and how the loop ends, in terms of the arrival that ends it. */
  lemma {:induction false} ReceivedIs(arrivals: seq<Arrival>)
    requires ValidArrivals(arrivals)
    ensures var k := FirstStop(arrivals);
            && Received(arrivals).0 == Joined(arrivals[..k])
                 + (if k < |arrivals| && arrivals[k].Bytes? then arrivals[k].d[..arrivals[k].written] else [])
            && Received(arrivals).1 == if k == |arrivals| then Complete
                                       else match arrivals[k]
                                            case Abort => Aborted
                                            case NetError => BadNet
                                            case _ => BadFile
    decreases |arrivals|
  {
    if arrivals != [] {
      var a, k := arrivals[0], FirstStop(arrivals);
      if k == 0 {
        assert arrivals[..0] == [];
      } else {
        ReceivedIs(arrivals[1..]);
        assert arrivals[..k] == [a] + arrivals[1..][..k - 1];
        assert arrivals[..k][1..] == arrivals[1..][..k - 1];
      }
    }
  }

  /** Cutting the data stream differently, with interruptions or without, stores the same bytes. */
  lemma {:induction false} ChunksDoNotMatter(arrivals: seq<Arrival>)
    requires ValidArrivals(arrivals)
    requires forall i :: 0 <= i < |arrivals| ==>
               arrivals[i].Interrupted? || (arrivals[i].Bytes? && arrivals[i].written == |arrivals[i].d|)
    ensures Received(arrivals) == (Joined(arrivals), Complete)
    decreases |arrivals|
  {
    if arrivals != [] {
      ChunksDoNotMatter(arrivals[1..]);
      assert [] + Joined(arrivals[1..]) == Joined(arrivals[1..]);
    }
  }

  /**
   The file after a STOR (at a restart position) or an APPE; `truncates` tells the POSIX branch,
   which cuts the file first, from the other one, which does not.
   */
  function Stored(truncates: bool, content: Data, appending: bool, restartPos: nat, d: Data): Data {
    if appending then content + d
    else Overlay(if truncates then Resized(content, restartPos) else content, restartPos, d)
  }

  /** `atoll`: the number at the front of a text, or 0 when there is none. */
  function Atoll(s: string): int {
    match ScanNumber(s)
    case None => 0
    case Some((v, _)) => v
  }

  /** The text that "%lld" prints. */
  function Decimal(n: int): string {
    if n < 0 then "-" + Text(-n, 10) else Text(n, 10)
  }

  /** A printed position is the position it names (section 5 of RFC 3659). */
  lemma RestArgument(position: int)
    ensures Atoll(Decimal(position)) == position
  {
    hide ScanNumber, Text;
    if position < 0 {
      ScanNegative(position);
    } else {
      ScanText(position, "");
      assert Text(position, 10) + "" == Text(position, 10);
    }
  }

  class Session {
    var restartPos: int

    constructor ()
      ensures restartPos == 0
    {
      restartPos := 0;
    }

    /**
     `do_rest`: a printed position becomes the position of every later transfer, any other text the
     number at its front or 0; the reply names it.
     */
    method DoRest(args: string) returns (reply: string)
      modifies this
      ensures restartPos == Atoll(args) && (ScanNumber(args) == None ==> restartPos == 0)
      ensures forall n: int :: args == Decimal(n) ==> restartPos == n
      ensures reply == "Restart position accepted (" + Decimal(restartPos) + ")."
    {
      hide ScanNumber, Decimal;
      restartPos := Atoll(args);
      reply := "Restart position accepted (" + Decimal(restartPos) + ").";
      forall n: int | args == Decimal(n)
        ensures restartPos == n
      {
        RestArgument(n);
      }
    }

    /** Where `upload_file` starts writing. */
    method Position(file: File, appending: bool, truncates: bool) returns (ok: bool)
      requires file.pos == 0
      modifies file
      ensures ok == (appending || restartPos >= 0)
      ensures ok ==>
                && file.content == (if truncates && !appending then Resized(old(file.content), restartPos)
                                    else old(file.content))
                && file.pos == if appending then |file.content| else restartPos
      ensures !ok ==> file.content == old(file.content)
    {
      var offset := restartPos;
      ok := true;
      if !appending && offset == 0 {
        if truncates {
          file.Truncate(0);
        }
      } else if !appending && offset != 0 {
        if truncates {
          file.Truncate(offset);
        }
        ok := file.Seek(offset);
      } else {
        ok := file.Seek(|file.content|);
      }
    }

    /** The loop of `upload_file`, behind finding the position. */
    method Receive(file: File, appending: bool, truncates: bool, arrivals: seq<Arrival>) returns (flag: Flag)
      requires file.pos == 0 && ValidArrivals(arrivals)
      modifies file
      ensures !appending && restartPos < 0 ==> flag == SeekFailed && file.content == old(file.content)
      ensures appending || restartPos >= 0 ==>
                && flag == Received(arrivals).1
                && file.content == Stored(truncates, old(file.content), appending,
                                          if appending then 0 else restartPos, Received(arrivals).0)
    {
      hide Overlay, Resized;
      var ok := Position(file, appending, truncates);
      if !ok {
        return SeekFailed;
      }
      ghost var base, start := file.content, file.pos;
      ghost var done: Data := [];
      var i := 0;
      assert arrivals[0..] == arrivals;
      assert done + Received(arrivals).0 == Received(arrivals).0;
      OverlayNothing(base, start);
      if appending {
        OverlayAtEnd(base, Received(arrivals).0);
      }
      while i < |arrivals|
        invariant 0 <= i <= |arrivals| && ValidArrivals(arrivals[i..])
        invariant file.content == Overlay(base, start, done) && file.pos == start + |done|
        invariant Received(arrivals) == (done + Received(arrivals[i..]).0, Received(arrivals[i..]).1)
      {
        assert arrivals[i..][1..] == arrivals[i + 1..];
        match arrivals[i] {
          case Abort =>
            assert done + [] == done;
            return Aborted;
          case Interrupted =>
          case NetError =>
            assert done + [] == done;
            return BadNet;
          case Bytes(d, written) =>
            OverlayTwice(base, start, done, d[..written]);
            file.Write(d, written);
            if written != |d| {
              return BadFile;
            }
            assert d[..written] == d;
            assert (done + d) + Received(arrivals[i + 1..]).0 == done + (d + Received(arrivals[i + 1..]).0);
            done := done + d;
        }
        i := i + 1;
      }
      assert arrivals[i..] == [];
      assert done + [] == done;
      return Complete;
    }

    /**
     `upload_file`, once data connection and file are open: the outcome, and the code of the last reply.
     A failed seek ends it without one.
     */
    method UploadFile(file: File, appending: bool, truncates: bool, arrivals: seq<Arrival>)
      returns (flag: Flag, reply: Option<nat>)
      requires file.pos == 0 && ValidArrivals(arrivals)
      modifies file
      ensures !appending && restartPos < 0 ==>
                flag == SeekFailed && reply == None && file.content == old(file.content)
      ensures appending || restartPos >= 0 ==>
                var k := FirstStop(arrivals);
                && flag == (if k == |arrivals| then Complete
                            else match arrivals[k]
                                 case Abort => Aborted
                                 case NetError => BadNet
                                 case _ => BadFile)
                && file.content == Stored(truncates, old(file.content), appending,
                                          if appending then 0 else restartPos,
                                          Joined(arrivals[..k])
                                          + (if k < |arrivals| && arrivals[k].Bytes?
                                             then arrivals[k].d[..arrivals[k].written] else []))
      ensures reply == match flag
                       case Complete => Some(226)
                       case BadNet => Some(426)
                       case BadFile => Some(451)
                       case Aborted => Some(226)
                       case SeekFailed => None
    {
      hide Stored, Received, Joined, FirstStop;
      ReceivedIs(arrivals);
      flag := Receive(file, appending, truncates, arrivals);
      if flag == SeekFailed {
        reply := None;
      } else if flag == Complete {
        reply := Some(226);
      } else if flag == BadNet {
        reply := Some(426);
      } else if flag == BadFile {
        reply := Some(451);
      } else {
        reply := Some(226);
      }
    }
  }

  // ---------------------------------------------------------------- storing in pieces

  /** How a later piece is sent: REST at the number of bytes sent so far and STOR, or APPE. */
  datatype Piece = RestStor(d: Data) | Appe(d: Data)

  /** The bytes sent with a first STOR and the pieces behind it. */
  function Sent(first: Data, pieces: seq<Piece>): Data {
    if pieces == [] then first
    else Sent(first, pieces[..|pieces| - 1]) + pieces[|pieces| - 1].d
  }

  /** The file after a first STOR at position 0 and the pieces behind it. */
  function AfterPieces(truncates: bool, content: Data, first: Data, pieces: seq<Piece>): Data {
    if pieces == [] then Stored(truncates, content, false, 0, first)
    else
      var front, p := pieces[..|pieces| - 1], pieces[|pieces| - 1];
      Stored(truncates, AfterPieces(truncates, content, first, front), p.Appe?,
             if p.Appe? then 0 else |Sent(first, front)|, p.d)
  }

  /**
   Where the file is cut first, a STOR at position 0 followed by any pieces leaves the same file as one
   STOR of all the data: exactly that data.
   */
  lemma {:induction false} PiecesAreOneStore(content: Data, first: Data, pieces: seq<Piece>)
    ensures AfterPieces(true, content, first, pieces)
         == Stored(true, content, false, 0, Sent(first, pieces))
         == Sent(first, pieces)
    decreases |pieces|
  {
    hide Overlay;
    StoredAlone(content, Sent(first, pieces));
    StoredAlone(content, first);
    if pieces != [] {
      var front := pieces[..|pieces| - 1];
      PiecesAreOneStore(content, first, front);
      assert Resized(Sent(first, front), |Sent(first, front)|) == Sent(first, front);
      OverlayAtEnd(Sent(first, front), pieces[|pieces| - 1].d);
    }
  }

  lemma StoredAlone(content: Data, d: Data)
    ensures Stored(true, content, false, 0, d) == d
  {
    assert Resized(content, 0) == [];
  }

  /** Every APPE that brings data finds the file no longer than the bytes sent so far. */
  predicate AppendsFit(content: Data, first: Data, pieces: seq<Piece>) {
    forall k :: 0 <= k < |pieces| && pieces[k].Appe? && pieces[k].d != [] ==>
      |content| <= |Sent(first, pieces[..k])|
  }

  /** One APPE where the file is not cut. */
  lemma UncutAppend(content: Data, sent: Data, d: Data)
    ensures Overlay(content, 0, sent) + d == Overlay(content, 0, sent + d) <==> d == [] || |content| <= |sent|
  {
    hide Resized, Rest;
    var c := Overlay(content, 0, sent);
    if d == [] {
      assert sent + d == sent;
    } else if |content| <= |sent| {
      hide Overlay;
      OverlayAtEnd(c, d);
      OverlayTwice(content, 0, sent, d);
    } else {
      assert |Overlay(content, 0, sent + d)| < |c + d|;
    }
  }

  /** Where the file is not cut, pieces by REST and STOR, and APPEs that fit, are one STOR too. */
  lemma {:induction false} UncutPieces(content: Data, first: Data, pieces: seq<Piece>)
    requires AppendsFit(content, first, pieces)
    ensures AfterPieces(false, content, first, pieces) == Stored(false, content, false, 0, Sent(first, pieces))
    decreases |pieces|
  {
    hide Overlay;
    if pieces != [] {
      var front, p := pieces[..|pieces| - 1], pieces[|pieces| - 1];
      assert forall k :: 0 <= k < |front| ==> front[..k] == pieces[..k];
      UncutPieces(content, first, front);
      if p.Appe? {
        UncutAppend(content, Sent(first, front), p.d);
      } else {
        OverlayTwice(content, 0, Sent(first, front), p.d);
      }
    }
  }

  /**
   Where the file is not cut, it is after every piece what one STOR of the bytes sent so far would
   leave, if and only if every APPE that brings data finds the file no longer than those bytes.
   */
  lemma UncutPiecesExactly(content: Data, first: Data, pieces: seq<Piece>)
    ensures (forall k :: 0 <= k <= |pieces| ==>
               AfterPieces(false, content, first, pieces[..k])
               == Stored(false, content, false, 0, Sent(first, pieces[..k])))
            <==> AppendsFit(content, first, pieces)
  {
    hide Overlay;
    if AppendsFit(content, first, pieces) {
      forall k | 0 <= k <= |pieces|
        ensures AfterPieces(false, content, first, pieces[..k])
             == Stored(false, content, false, 0, Sent(first, pieces[..k]))
      {
        assert forall j :: 0 <= j < k ==> pieces[..k][..j] == pieces[..j];
        UncutPieces(content, first, pieces[..k]);
      }
    } else {
      var k :| 0 <= k < |pieces| && pieces[k].Appe? && pieces[k].d != [] && |content| > |Sent(first, pieces[..k])|;
      var more := pieces[..k + 1];
      assert more[..k] == pieces[..k] && more[k] == pieces[k];
      UncutAppend(content, Sent(first, pieces[..k]), pieces[k].d);
    }
  }

  /**
   Where the file is not cut, a STOR leaves exactly its data if and only if the file was no longer than
   the data before, and otherwise keeps the old end.
   */
  lemma UncutStore(content: Data, d: Data)
    ensures Stored(false, content, false, 0, d) == d + (if |d| < |content| then content[|d|..] else [])
    ensures Stored(false, content, false, 0, d) == d <==> |content| <= |d|
  {
    assert Resized(content, 0) == [];
  }

  /**
   The restart position is never reset: after a REST, a STOR without another REST leaves exactly its
   data if and only if the position was 0.
   */
  lemma StickyRestart(content: Data, restartPos: nat, d: Data)
    ensures Stored(true, content, false, restartPos, d) == Resized(content, restartPos) + d
    ensures Stored(true, content, false, restartPos, d) == d <==> restartPos == 0
  {
    assert Resized(Resized(content, restartPos), restartPos) == Resized(content, restartPos);
  }

  /** The same where the file is not cut. */
  lemma UncutStickyRestart(content: Data, restartPos: nat, d: Data)
    ensures Stored(false, content, false, restartPos, d) == d <==>
            (restartPos == 0 && |content| <= |d|) || (content == [] && d == [])
  {
    if restartPos == 0 {
      UncutStore(content, d);
    } else {
      hide Resized, Rest;
    }
  }

  /** A connection that fails in the middle: what has come is stored, and the outcome says so. */
  lemma UploadInstance()
    ensures Received([Bytes([1, 2], 2), Interrupted, Bytes([3], 1), NetError]) == ([1, 2, 3], BadNet)
  {
    var c := [Bytes([3], 1), NetError];
    var b := [Interrupted, Bytes([3], 1), NetError];
    var a := [Bytes([1, 2], 2), Interrupted, Bytes([3], 1), NetError];
    assert c[1..] == [NetError] && b[1..] == c && a[1..] == b;
    assert Received(c[1..]) == ([], BadNet);
    assert Received(c).1 == BadNet && Received(c).0 == [3] + Received(c[1..]).0 == [3];
    assert Received(b) == Received(b[1..]);
    assert Received(a).1 == BadNet && Received(a).0 == [1, 2] + Received(b).0 == [1, 2, 3];
  }

  /** A STOR of one byte over three keeps two; after REST 2 it keeps two in front; an APPE comes too late. */
  lemma StoreInstances()
    ensures Stored(false, [1, 2, 3], false, 0, [9]) == [9, 2, 3]
    ensures Stored(true, [1, 2, 3], false, 2, [9]) == [1, 2, 9]
    ensures AfterPieces(false, [1, 2, 3], [9], [Appe([8])]) == [9, 2, 3, 8]
  {
    var three: Data := [1, 2, 3];
    UncutStore(three, [9]);
    StickyRestart(three, 2, [9]);
    assert [Appe([8])][..0] == [];
  }

  // ---------------------------------------------------------------- sending

  /** The sink end of a data connection that accepts all it is given. */
  class Connection {
    var sent: Data

    constructor ()
      ensures sent == []
    {
      sent := [];
    }

    method Send(d: Data) returns (n: nat)
      modifies this
      ensures sent == old(sent) + d && n == |d|
    {
      sent := sent + d;
      n := |d|;
    }
  }

  function Min(a: nat, b: nat): (m: nat)
    ensures m <= a && m <= b && (m == a || m == b)
  {
    if a < b then a else b
  }

  /** blockSize rounded up to whole reads. */
  function RoundUp(blockSize: nat): (n: nat)
    ensures n % 4096 == 0 && blockSize <= n < blockSize + 4096
  {
    (blockSize + READ_SIZE - 1) / READ_SIZE * READ_SIZE
  }

  lemma SliceJoin(s: Data, a: nat, b: nat, c: nat)
    requires a <= b <= c <= |s|
    ensures s[a..b] + s[b..c] == s[a..c]
  {}

  /** Whole reads stay within the block rounded up, and reach it at the end. */
  lemma WholeReads(i: nat, blockSize: nat)
    requires i % READ_SIZE == 0
    ensures i < blockSize ==> i + READ_SIZE <= RoundUp(blockSize)
    ensures i >= blockSize ==> RoundUp(blockSize) <= i
    ensures (i + READ_SIZE) % READ_SIZE == 0
  {}

  /** `send_file_block` without an offset: reads of 4096 bytes until the block is covered or the file ends. */
  method SendFileBlock(conn: Connection, file: File, blockSize: nat) returns (n: nat)
    requires file.pos <= |file.content|
    modifies conn, file`pos
    ensures n == Min(RoundUp(blockSize), |file.content| - old(file.pos))
    ensures file.pos == old(file.pos) + n <= |file.content|
    ensures conn.sent == old(conn.sent) + file.content[old(file.pos)..file.pos]
  {
    hide RoundUp;
    n := 0;
    var i := 0;
    ghost var start, s, was := file.pos, file.content, conn.sent;
    WholeReads(0, blockSize);
    while i < blockSize
      invariant i % READ_SIZE == 0 && i <= RoundUp(blockSize)
      invariant n == i && file.pos == start + n <= |s|
      invariant conn.sent == was + s[start..start + n]
    {
      WholeReads(i, blockSize);
      var buffer := file.Read(READ_SIZE);
      SliceJoin(s, start, start + n, start + n + |buffer|);
      var d := conn.Send(buffer);
      n := n + d;
      if |buffer| < READ_SIZE {
        return;
      }
      i := i + READ_SIZE;
    }
    WholeReads(i, blockSize);
  }

  /** A block is covered exactly: 65536 is a multiple of 4096, and a smaller block is the end of the file. */
  lemma RoundedBlock(blockSize: nat, nLeft: nat)
    requires blockSize == if nLeft > BLOCK_SIZE then BLOCK_SIZE else nLeft
    ensures Min(RoundUp(blockSize), nLeft) == blockSize
  {}

  /** `(long long)` of an `unsigned long long`. */
  function ToSigned(x: int): int
    requires 0 <= x < WRAP64
  {
    if x < WRAP64 / 2 then x else x - WRAP64
  }

  /**
   `download_file` over an unchanging file, without ABOR and over a connection that accepts all it is
   given: it ends having sent exactly the file from the restart position on, nothing when that is
   behind the end. The subtraction wraps as in the source.
   */
  method DownloadFile(conn: Connection, file: File, restartPos: nat) returns (flag: Flag)
    requires |file.content| < WRAP64 / 2 && restartPos < WRAP64 / 2
    modifies conn, file`pos
    ensures flag == Complete
    ensures conn.sent == old(conn.sent) + if restartPos <= |file.content| then file.content[restartPos..] else []
  {
    var fileSize := |file.content|;
    var offset := restartPos;
    if offset != 0 {
      fileSize := (fileSize - offset) % WRAP64;
    }
    var _ := file.Seek(offset);
    flag := Complete;
    var nLeft := ToSigned(fileSize);
    assert nLeft == |file.content| - restartPos;
    while nLeft > 0
      invariant nLeft == |file.content| - file.pos
      invariant file.pos >= restartPos && (nLeft < 0 ==> file.pos == restartPos)
      invariant nLeft >= 0 ==> conn.sent == old(conn.sent) + file.content[restartPos..file.pos]
      invariant nLeft < 0 ==> conn.sent == old(conn.sent)
    {
      var blockSize := if nLeft > BLOCK_SIZE then BLOCK_SIZE else nLeft;
      ghost var before := file.pos;
      RoundedBlock(blockSize, nLeft);
      var nWrite := SendFileBlock(conn, file, blockSize);
      SliceJoin(file.content, restartPos, before, file.pos);
      nLeft := nLeft - nWrite;
    }
    if nLeft == 0 {
      assert file.content[restartPos..file.pos] == file.content[restartPos..];
      flag := Complete;
    }
  }

  // ---------------------------------------------------------------- sending by callback

  /** What the download callback answers for a block: bytes sent, or an error, or an ABOR came in. */
  datatype Answer = Reported(n: nat) | CallbackError | CallbackAbort

  /** A range of the file: an offset and a length. */
  datatype Range = Range(offset: int, n: nat)

  /** Ranges that follow one another without gap or overlap, from one offset to another. */
  predicate Contiguous(ranges: seq<Range>, from: int, to: int) {
    if ranges == [] then from == to
    else ranges[0].offset == from && ranges[0].n > 0 && Contiguous(ranges[1..], from + ranges[0].n, to)
  }

  lemma {:induction false} ContiguousAdd(ranges: seq<Range>, from: int, to: int, n: nat)
    requires Contiguous(ranges, from, to) && n > 0
    ensures Contiguous(ranges + [Range(to, n)], from, to + n)
    decreases |ranges|
  {
    if ranges == [] {
      assert (ranges + [Range(to, n)])[1..] == [];
    } else {
      ContiguousAdd(ranges[1..], from + ranges[0].n, to, n);
      assert (ranges + [Range(to, n)])[1..] == ranges[1..] + [Range(to, n)];
    }
  }

  /** How many of the ranges hold an offset. */
  function Covering(ranges: seq<Range>, x: int): nat {
    if ranges == [] then 0
    else (if ranges[0].offset <= x < ranges[0].offset + ranges[0].n then 1 else 0) + Covering(ranges[1..], x)
  }

  /** Every offset between the ends is in exactly one of contiguous ranges, and no other is in any. */
  lemma {:induction false} ContiguousTiles(ranges: seq<Range>, from: int, to: int, x: int)
    requires Contiguous(ranges, from, to)
    ensures from <= to
    ensures Covering(ranges, x) == if from <= x < to then 1 else 0
    decreases |ranges|
  {
    if ranges != [] {
      ContiguousTiles(ranges[1..], from + ranges[0].n, to, x);
    }
  }

  /** The callback's answers: an entry for each call; when they run out it sends whole blocks. */
  predicate ValidAnswers(answers: seq<Answer>) {
    forall i :: 0 <= i < |answers| && answers[i].Reported? ==> 1 <= answers[i].n
  }

  /** Range i is what the callback reported for a block of at most 65536 bytes of what is left. */
  predicate IsAnswered(answers: seq<Answer>, i: nat, range: Range, end: int) {
    && (i < |answers| ==> answers[i].Reported?)
    && range.n <= 65536 && range.n <= end - range.offset && (i < |answers| ==> range.n <= answers[i].n)
    && (range.n == 65536 || range.n == end - range.offset || (i < |answers| && range.n == answers[i].n))
  }

  /**
   `fake_download_file`, once the data connection is open. The ranges asked for follow one another
   from the restart position; when no error and no ABOR occurs they total the reported size.
   */
  method FakeDownloadFile(fileSize: int, restartPos: int, answers: seq<Answer>)
    returns (flag: Flag, ranges: seq<Range>)
    requires ValidAnswers(answers)
    ensures exists to :: Contiguous(ranges, restartPos, to) && to <= restartPos + (if fileSize > 0 then fileSize else 0)
    ensures (CallbackError !in answers && CallbackAbort !in answers) ==> flag == Complete
    ensures flag == Complete ==> Contiguous(ranges, restartPos, restartPos + if fileSize > 0 then fileSize else 0)
    ensures flag != Complete ==>
              && |ranges| < |answers|
              && (answers[|ranges|] == CallbackAbort || answers[|ranges|] == CallbackError)
              && flag == (if answers[|ranges|] == CallbackAbort then Aborted else BadFile)
    ensures forall i :: 0 <= i < |ranges| ==> IsAnswered(answers, i, ranges[i], restartPos + fileSize)
  {
    var offset := restartPos;
    var nLeft := fileSize;
    ranges := [];
    flag := Complete;
    var calls := 0;
    while nLeft > 0
      invariant Contiguous(ranges, restartPos, offset) && calls == |ranges| && flag == Complete
      invariant forall i :: 0 <= i < |ranges| ==> IsAnswered(answers, i, ranges[i], restartPos + fileSize)
      invariant fileSize > 0 ==> nLeft >= 0 && offset - restartPos + nLeft == fileSize
      invariant fileSize <= 0 ==> nLeft == fileSize && offset == restartPos
      decreases nLeft
    {
      var blockSize := if nLeft > BLOCK_SIZE then BLOCK_SIZE else nLeft;
      var answer := if calls < |answers| then answers[calls] else Reported(blockSize);
      calls := calls + 1;
      match answer {
        case CallbackAbort =>
          flag := Aborted;
          break;
        case CallbackError =>
          flag := BadFile;
          break;
        case Reported(n) =>
          var nWrite := Min(n, blockSize);
          ContiguousAdd(ranges, restartPos, offset, nWrite);
          ranges := ranges + [Range(offset, nWrite)];
          offset := offset + nWrite;
          nLeft := nLeft - nWrite;
      }
    }
    if nLeft == 0 {
      flag := Complete;
    }
  }

  /**
   The size is not reduced by the restart position: the ranges of a complete run hold exactly the
   rest of the file, each offset once, if and only if the position is 0 or the file is empty.
   */
  lemma FakeCoversTheRest(ranges: seq<Range>, fileSize: nat, restartPos: nat)
    requires Contiguous(ranges, restartPos, restartPos + fileSize)
    ensures (forall x: int :: Covering(ranges, x) == if restartPos <= x < fileSize then 1 else 0)
            <==> restartPos == 0 || fileSize == 0
  {
    forall x: int
      ensures Covering(ranges, x) == if restartPos <= x < restartPos + fileSize then 1 else 0
    {
      ContiguousTiles(ranges, restartPos, restartPos + fileSize, x);
    }
    var last := restartPos + fileSize - 1;
    assert Covering(ranges, last) == if restartPos <= last then 1 else 0;
  }

  /** For a file of two bytes and position 1, a complete run asks for a byte behind the end. */
  lemma FakeInstance()
    ensures var ranges := [Range(1, 2)]; Contiguous(ranges, 1, 1 + 2) && Covering(ranges, 2) == 1
  {
    assert [Range(1, 2)][1..] == [];
  }
}
