/**
 The byte-stream layer: exact-length reads and writes and the peeking line reader over a socket that
 hands out its data in arbitrary pieces, with interruptions and failures.
 */
module ByteStream {

  /** What one call into the operating system does: move some bytes, be interrupted, or fail. */
  datatype Outcome = Chunk(n: nat) | Interrupted | Failed

  /** How many of at most `most` bytes a read moves: n of them, but at least one. */
  function Portion(n: nat, most: nat): (r: nat)
    ensures r <= most && (r == 0 <==> most == 0)
  {
    if n > most then most else if n == 0 && most > 0 then 1 else n
  }

  /**
   A connected stream socket: the bytes the peer has sent and will send, the bytes sent to it, and
   how the coming calls behave. When the schedule is used up, calls move all they are asked for.
   */
  class Socket {
    var incoming: string
    var outgoing: string
    var schedule: seq<Outcome>

    constructor (incoming: string, schedule: seq<Outcome>)
      ensures this.incoming == incoming && this.schedule == schedule && outgoing == ""
    {
      this.incoming, this.outgoing, this.schedule := incoming, "", schedule;
    }

    method NextOutcome() returns (o: Outcome)
      modifies this`schedule
      ensures o == if old(schedule) == [] then Chunk(|incoming|) else old(schedule)[0]
      ensures schedule == if old(schedule) == [] then [] else old(schedule)[1..]
      ensures old(schedule) != [] ==> o in old(schedule) && |schedule| < |old(schedule)|
      ensures forall a :: a in schedule ==> a in old(schedule)
    {
      o := Chunk(|incoming|);
      if schedule != [] {
        o, schedule := schedule[0], schedule[1..];
      }
    }

    static method Deliver(buf: array<char>, at: nat, data: string)
      requires at + |data| <= buf.Length
      modifies buf
      ensures buf[..] == old(buf[..at]) + data + old(buf[at + |data|..])
    {
      forall i | 0 <= i < |data| {
        buf[at + i] := data[i];
      }
    }

    /** `recv`, plain or with MSG_PEEK: at least one byte unless the stream has ended. */
    method Recv(buf: array<char>, at: nat, len: nat, peek: bool) returns (r: int, interrupted: bool)
      requires len > 0 && at + len <= buf.Length
      modifies this`schedule, this`incoming, buf
      ensures -1 <= r <= len && r <= |old(incoming)|
      ensures interrupted ==> r == -1 && |schedule| < |old(schedule)|
      ensures r == -1 && !interrupted ==> Failed in old(schedule)
      ensures r == 0 <==> r != -1 && old(incoming) == ""
      ensures forall o :: o in schedule ==> o in old(schedule)
      ensures |schedule| <= |old(schedule)|
      ensures incoming == if peek || r < 0 then old(incoming) else old(incoming)[r..]
      ensures buf[..] == if r < 0 then old(buf[..])
                         else old(buf[..at]) + old(incoming)[..r] + old(buf[at + r..])
    {
      hide Portion;
      var o := NextOutcome();
      interrupted := false;
      match o {
        case Interrupted =>
          return -1, true;
        case Failed =>
          return -1, false;
        case Chunk(n) =>
          r := Portion(n, if len < |incoming| then len else |incoming|);
          var piece := incoming[..r];
          assert |piece| == r;
          Deliver(buf, at, piece);
          if !peek {
            incoming := incoming[r..];
          }
      }
    }

    /** `send`: any number of bytes up to all of them. */
    method Send(data: string) returns (r: int, interrupted: bool)
      requires data != ""
      modifies this`schedule, this`outgoing
      ensures -1 <= r <= |data|
      ensures interrupted ==> r == -1
      ensures interrupted || r == 0 ==> |schedule| < |old(schedule)|
      ensures r == -1 && !interrupted ==> Failed in old(schedule)
      ensures forall o :: o in schedule ==> o in old(schedule)
      ensures |schedule| <= |old(schedule)|
      ensures outgoing == old(outgoing) + if r < 0 then "" else data[..r]
    {
      interrupted := false;
      if schedule == [] {
        outgoing := outgoing + data;
        return |data|, false;
      }
      var o := schedule[0];
      schedule := schedule[1..];
      match o {
        case Interrupted =>
          return -1, true;
        case Failed =>
          return -1, false;
        case Chunk(n) =>
          r := if n > |data| then |data| else n;
          outgoing := outgoing + data[..r];
      }
    }
  }

  /** A buffer with the first n bytes of a stream at a position. */
  function Filled(was: string, at: nat, s: string, n: nat): string
    requires n <= |s| && at + n <= |was|
  {
    was[..at] + s[..n] + was[at + n..]
  }

  /** The first k bytes of a stream have moved into the buffer. */
  predicate Moved(was: string, at: nat, s: string, k: nat, buf: string, rest: string) {
    k <= |s| && at + k <= |was| && buf == Filled(was, at, s, k) && rest == s[k..]
  }

  lemma MovedNothing(was: string, at: nat, s: string)
    requires at <= |was|
    ensures Moved(was, at, s, 0, was, s)
  {
    assert Filled(was, at, s, 0) == was;
  }

  /** One more piece: buffer, stream and cursor. */
  lemma MovedMore(was: string, at: nat, s: string, k: nat, buf: string, rest: string, r: nat)
    requires Moved(was, at, s, k, buf, rest) && r <= |rest| && at + k + r <= |was|
    ensures |buf| == |was|
    ensures Moved(was, at, s, k + r, buf[..at + k] + rest[..r] + buf[at + k + r..], rest[r..])
  {
    FilledMore(was, at, s, k, r);
  }

  lemma FilledMore(was: string, at: nat, s: string, n: nat, k: nat)
    requires n + k <= |s| && at + n + k <= |was|
    ensures |Filled(was, at, s, n)| == |was| && s[n..][k..] == s[n + k..]
    ensures var b := Filled(was, at, s, n);
            b[..at + n] + s[n..][..k] + b[at + n + k..] == Filled(was, at, s, n + k)
  {}

  lemma FilledIs(was: string, at: nat, s: string, n: nat)
    requires n <= |s| && at + n <= |was|
    ensures Filled(was, at, s, n) == was[..at] + s[..n] + was[at + n..]
  {}

  lemma MovedIs(was: string, at: nat, s: string, k: nat, buf: string, rest: string)
    requires Moved(was, at, s, k, buf, rest)
    ensures k <= |s| && at + k <= |was| && buf == Filled(was, at, s, k) && rest == s[k..] && |rest| == |s| - k
  {}

  /** One call of `recv` behind the bytes that have moved already. */
  method RecvMore(sock: Socket, buf: array<char>, at: nat, k: nat, len: nat,
                  ghost was: string, ghost s: string)
    returns (r: int, interrupted: bool)
    requires len > 0 && at + k + len <= buf.Length && Moved(was, at, s, k, buf[..], sock.incoming)
    modifies sock`schedule, sock`incoming, buf
    ensures -1 <= r <= len && (r == 0 ==> k == |s|)
    ensures interrupted ==> r == -1 && |sock.schedule| < |old(sock.schedule)|
    ensures r == -1 && !interrupted ==> Failed in old(sock.schedule)
    ensures forall o :: o in sock.schedule ==> o in old(sock.schedule)
    ensures |sock.schedule| <= |old(sock.schedule)|
    ensures Moved(was, at, s, if r < 0 then k else k + r, buf[..], sock.incoming)
  {
    hide Filled, Moved;
    MovedIs(was, at, s, k, buf[..], sock.incoming);
    ghost var before, rest := buf[..], sock.incoming;
    assert |before| == |was| by { MovedMore(was, at, s, k, before, rest, 0); }
    r, interrupted := sock.Recv(buf, at + k, len, false);
    if r >= 0 {
      MovedMore(was, at, s, k, before, rest, r);
    }
  }

  /** `readn`: exactly n bytes, or fewer only when the stream ends; -1 on a failure, with fewer taken. */
  method Readn(sock: Socket, buf: array<char>, at: nat, n: nat) returns (r: int)
    requires at + n <= buf.Length
    modifies sock`schedule, sock`incoming, buf
    ensures Failed !in old(sock.schedule) ==> r >= 0
    ensures forall o :: o in sock.schedule ==> o in old(sock.schedule)
    ensures |sock.schedule| <= |old(sock.schedule)|
    ensures r >= 0 ==> var k := if n < |old(sock.incoming)| then n else |old(sock.incoming)|;
              && r == k && sock.incoming == old(sock.incoming)[k..]
              && buf[..] == old(buf[..at]) + old(sock.incoming)[..k] + old(buf[at + k..])
    ensures r < 0 ==> exists k :: 0 <= k < n && k <= |old(sock.incoming)| && sock.incoming == old(sock.incoming)[k..]
  {
    hide Filled, Moved;
    var nLeft := n;
    var bufp := at;
    ghost var s, was := sock.incoming, buf[..];
    MovedNothing(was, at, s);
    while nLeft > 0
      invariant bufp == at + (n - nLeft) && 0 <= nLeft <= n
      invariant Moved(was, at, s, n - nLeft, buf[..], sock.incoming)
      invariant forall o :: o in sock.schedule ==> o in old(sock.schedule)
      invariant |sock.schedule| <= |old(sock.schedule)|
      decreases nLeft + |sock.schedule|
    {
      var nRead, interrupted := RecvMore(sock, buf, at, n - nLeft, nLeft, was, s);
      MovedIs(was, at, s, if nRead < 0 then n - nLeft else n - nLeft + nRead, buf[..], sock.incoming);
      if nRead < 0 {
        if interrupted {
          continue;
        }
        return -1;
      } else if nRead == 0 {
        FilledIs(was, at, s, n - nLeft);
        return n - nLeft;
      }
      bufp := bufp + nRead;
      nLeft := nLeft - nRead;
    }
    MovedIs(was, at, s, n, buf[..], sock.incoming);
    FilledIs(was, at, s, n);
    return n;
  }

  /** `writen`: all of the data, or -1 with some front part of it written. */
  method Writen(sock: Socket, data: string) returns (r: int)
    modifies sock`schedule, sock`outgoing
    ensures Failed !in old(sock.schedule) ==> r == |data|
    ensures r == -1 || r == |data|
    ensures r == |data| ==> sock.outgoing == old(sock.outgoing) + data
    ensures r == -1 ==> exists k :: 0 <= k < |data| && sock.outgoing == old(sock.outgoing) + data[..k]
  {
    var nLeft := |data|;
    while nLeft > 0
      invariant 0 <= nLeft <= |data|
      invariant sock.outgoing == old(sock.outgoing) + data[..|data| - nLeft]
      invariant forall o :: o in sock.schedule ==> o in old(sock.schedule)
      decreases nLeft + |sock.schedule|
    {
      var nWrite, interrupted := sock.Send(data[|data| - nLeft..]);
      if nWrite < 0 {
        if interrupted {
          continue;
        }
        return -1;
      } else if nWrite == 0 {
        continue;
      }
      nLeft := nLeft - nWrite;
    }
    return |data|;
  }

  /** `recv_peek`: retries while interrupted; the stream keeps its bytes. */
  method RecvPeek(sock: Socket, buf: array<char>, at: nat, len: nat) returns (r: int)
    requires len > 0 && at + len <= buf.Length
    modifies sock`schedule, sock`incoming, buf
    ensures -1 <= r <= len && r <= |sock.incoming|
    ensures r == -1 ==> Failed in old(sock.schedule)
    ensures r == 0 <==> r != -1 && sock.incoming == ""
    ensures forall o :: o in sock.schedule ==> o in old(sock.schedule)
    ensures |sock.schedule| <= |old(sock.schedule)|
    ensures sock.incoming == old(sock.incoming)
    ensures r >= 0 ==> buf[..] == old(buf[..at]) + sock.incoming[..r] + old(buf[at + r..])
    ensures r < 0 ==> buf[..] == old(buf[..])
  {
    while true
      invariant sock.incoming == old(sock.incoming) && buf[..] == old(buf[..])
      invariant forall o :: o in sock.schedule ==> o in old(sock.schedule)
      invariant |sock.schedule| <= |old(sock.schedule)|
      decreases |sock.schedule|
    {
      var nRead, interrupted := sock.Recv(buf, at, len, true);
      if nRead < 0 && interrupted {
        continue;
      }
      if nRead < 0 {
        return -1;
      }
      return nRead;
    }
  }

  // ---------------------------------------------------------------- lines

  datatype LineRead = Line(text: string, rest: string) | EndOfStream

  /** The reference: a reader that takes one byte at a time, at most n, up to the first newline. */
  function ReadByByte(s: string, n: nat): LineRead
    decreases n
  {
    if n == 0 then Line("", s)
    else if s == "" then EndOfStream
    else if s[0] == '\n' then Line("\n", s[1..])
    else
      match ReadByByte(s[1..], n - 1)
      case EndOfStream => EndOfStream
      case Line(text, rest) => Line([s[0]] + text, rest)
  }

  lemma HeadBack(s: string, k: nat)
    requires k < |s|
    ensures [s[0]] + s[1..][..k] == s[..k + 1]
  {
    var t := [s[0]] + s[1..][..k];
    assert |t| == k + 1 && forall i :: 0 < i <= k ==> t[i] == s[1..][i - 1] == s[i];
  }

  /** What the reader returns, described by where the first newline is. */
  lemma {:induction false} ReadByByteIs(s: string, n: nat, k: nat)
    requires k <= |s| && '\n' !in s[..k]
    requires k == n || (k < n && (k == |s| || s[k] == '\n'))
    ensures ReadByByte(s, n) ==
            if k == n then Line(s[..k], s[k..])
            else if k == |s| then EndOfStream
            else Line(s[..k + 1], s[k + 1..])
    decreases k
  {
    if k > 0 {
      assert s[0] == s[..k][0] && s[..k][1..] == s[1..][..k - 1];
      ReadByByteIs(s[1..], n - 1, k - 1);
      HeadBack(s, k - 1);
      if k < |s| {
        HeadBack(s, k);
      }
    }
  }

  /** The first newline in a piece of the buffer, or the length of the piece. */
  method FindNewline(buf: array<char>, at: nat, n: nat) returns (i: nat)
    requires at + n <= buf.Length
    ensures i <= n && '\n' !in buf[at..at + i] && (i < n ==> buf[at + i] == '\n')
  {
    i := 0;
    while i < n
      invariant i <= n && '\n' !in buf[at..at + i]
    {
      if buf[at + i] == '\n' {
        return;
      }
      i := i + 1;
    }
  }

  /** A front part of a line, of fewer than n bytes, is gone from the stream. */
  ghost predicate FrontTaken(s: string, n: nat, rest: string) {
    exists k :: 0 <= k < n && k <= |s| && '\n' !in s[..k] && rest == s[k..]
  }

  /** Two pieces without a newline, one behind the other. */
  lemma NoNewlineIn(s: string, total: nat, k: nat)
    requires total + k <= |s| && '\n' !in s[..total] && '\n' !in s[total..][..k]
    ensures '\n' !in s[..total + k] && s[total..][k..] == s[total + k..]
  {
    var t := s[..total + k];
    forall i | 0 <= i < |t|
      ensures t[i] != '\n'
    {
      if i < total {
        assert t[i] == s[..total][i];
      } else {
        assert t[i] == s[total..][..k][i - total];
      }
    }
  }

  lemma FrontAdded(s: string, total: nat, n: nat, rest: string)
    requires total <= |s| && '\n' !in s[..total] && FrontTaken(s[total..], n, rest)
    ensures FrontTaken(s, total + n, rest)
  {
    var u := s[total..];
    var k :| 0 <= k < n && k <= |u| && '\n' !in u[..k] && rest == u[k..];
    NoNewlineIn(s, total, k);
  }

  lemma TakenInFront(s: string, n: nat, nLeft: nat, rest: string)
    requires 0 < n <= nLeft && n <= |s| && '\n' !in s[..n - 1]
    requires exists k :: 0 <= k < n && k <= |s| && rest == s[k..]
    ensures FrontTaken(s, nLeft, rest)
  {
    var k :| 0 <= k < n && k <= |s| && rest == s[k..];
    assert s[..k] == s[..n - 1][..k];
  }

  /** Peeks, and looks for a newline: n is how much is to be consumed. */
  method PeekPiece(sock: Socket, buf: array<char>, ptr: nat, nLeft: nat) returns (n: int, newline: bool)
    requires nLeft > 0 && ptr + nLeft <= buf.Length
    modifies sock`schedule, sock`incoming, buf
    ensures -1 <= n <= nLeft && n <= |sock.incoming|
    ensures n == -1 ==> Failed in old(sock.schedule)
    ensures n == 0 ==> sock.incoming == ""
    ensures forall o :: o in sock.schedule ==> o in old(sock.schedule)
    ensures sock.incoming == old(sock.incoming) && buf[..ptr] == old(buf[..ptr])
    ensures n > 0 ==> '\n' !in sock.incoming[..n - 1] && (newline <==> sock.incoming[n - 1] == '\n')
  {
    n := RecvPeek(sock, buf, ptr, nLeft);
    newline := false;
    if n <= 0 {
      return;
    }
    ghost var s := sock.incoming;
    var i := FindNewline(buf, ptr, n);
    assert forall j :: 0 <= j < n ==> buf[ptr + j] == s[j];
    assert forall j :: 0 <= j < i ==> buf[ptr..ptr + i][j] == s[j];
    newline := i < n;
    n := if newline then i + 1 else n;
    assert forall j :: 0 <= j < n - 1 ==> s[..n - 1][j] == s[j] != '\n';
  }

  /** One pass of the loop of `readline`: peek, look for a newline, consume up to it or all that was peeked. */
  method TakePiece(sock: Socket, buf: array<char>, ptr: nat, nLeft: nat) returns (ret: int, newline: bool)
    requires nLeft > 0 && ptr + nLeft <= buf.Length
    modifies sock`schedule, sock`incoming, buf
    ensures -1 <= ret <= nLeft && ret <= |old(sock.incoming)|
    ensures Failed !in old(sock.schedule) ==> ret >= 0
    ensures forall o :: o in sock.schedule ==> o in old(sock.schedule)
    ensures ret == 0 ==> old(sock.incoming) == "" == sock.incoming
    ensures ret < 0 ==> FrontTaken(old(sock.incoming), nLeft, sock.incoming)
    ensures ret > 0 ==> var s := old(sock.incoming);
              && sock.incoming == s[ret..] && buf[..ptr + ret] == old(buf[..ptr]) + s[..ret]
              && '\n' !in s[..ret - 1] && (newline <==> s[ret - 1] == '\n')
  {
    hide FrontTaken;
    ghost var s := sock.incoming;
    var n;
    n, newline := PeekPiece(sock, buf, ptr, nLeft);
    if n <= 0 {
      NothingTaken(s, nLeft);
      return n, false;
    }
    ghost var was := buf[..];
    assert was[..ptr] == buf[..ptr];
    ret := Readn(sock, buf, ptr, n);
    if ret != n {
      TakenInFront(s, n, nLeft, sock.incoming);
      ret := -1;
    } else {
      assert buf[..ptr + n] == buf[..][..ptr + n];
    }
  }

  lemma NothingTaken(s: string, n: nat)
    requires n > 0
    ensures FrontTaken(s, n, s)
  {
    assert s[0..] == s;
  }

  /** Pieces without a newline, then one that ends in the first newline or not. */
  lemma PieceAdded(s: string, total: nat, k: nat)
    requires total + k <= |s| && k > 0 && '\n' !in s[..total] && '\n' !in s[total..][..k - 1]
    ensures '\n' !in s[..total + k - 1] && s[total..][k - 1] == s[total + k - 1]
    ensures s[total..][k..] == s[total + k..] && s[..total] + s[total..][..k] == s[..total + k]
    ensures s[total + k - 1] != '\n' ==> '\n' !in s[..total + k]
  {
    assert s[..total + k - 1] == s[..total] + s[total..][..k - 1];
    assert s[..total + k] == s[..total + k - 1] + [s[total + k - 1]];
  }

  /**
   `readline`: for every way the socket splits its data, the bytes a byte-at-a-time reader would take
   stand in the buffer behind them a NUL, exactly they are consumed, and the rest of the stream is
   untouched. The end of the stream inside a line gives 0, with the line consumed. When a read fails,
   only a proper front part of the line is consumed.
   */
  method Readline(sock: Socket, buf: array<char>, maxSize: nat) returns (r: int)
    requires 1 <= maxSize <= buf.Length
    modifies sock`schedule, sock`incoming, buf
    ensures Failed !in old(sock.schedule) ==> r >= 0
    ensures forall o :: o in sock.schedule ==> o in old(sock.schedule)
    ensures r >= 0 ==>
              match ReadByByte(old(sock.incoming), maxSize - 1)
              case Line(text, rest) =>
                r == |text| < maxSize && buf[..r] == text && buf[r] == '\0' && sock.incoming == rest
              case EndOfStream => r == 0 && sock.incoming == ""
    ensures r < 0 ==> FrontTaken(old(sock.incoming), maxSize - 1, sock.incoming)
  {
    hide ReadByByte, FrontTaken;
    var nLeft := maxSize - 1;
    var total := 0;
    ghost var s := sock.incoming;
    while nLeft > 0
      invariant 0 <= nLeft <= maxSize - 1 && total == maxSize - 1 - nLeft <= |s|
      invariant sock.incoming == s[total..] && buf[..total] == s[..total] && '\n' !in s[..total]
      invariant forall o :: o in sock.schedule ==> o in old(sock.schedule)
    {
      var ret, newline := TakePiece(sock, buf, total, nLeft);
      if ret <= 0 {
        if ret == 0 {
          ReadByByteIs(s, maxSize - 1, total);
        } else {
          FrontAdded(s, total, nLeft, sock.incoming);
        }
        return ret;
      }
      PieceAdded(s, total, ret);
      nLeft := nLeft - ret;
      total := total + ret;
      if newline {
        ReadByByteIs(s, maxSize - 1, total - 1);
        buf[total] := '\0';
        return total;
      }
    }
    ReadByByteIs(s, maxSize - 1, maxSize - 1);
    buf[total] := '\0';
    return maxSize - 1;
  }
}
