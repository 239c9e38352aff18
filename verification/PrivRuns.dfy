/**
 What holds over every run of the private channel: each read takes the bytes of the matching write,
 the queues are empty between requests, a request comes to its end in a bounded number of reads and
 writes, and which transfers are granted.
 */
module PrivRuns {
  import opened Basics
  import opened PrivFrames
  import opened PrivChannel
  import opened PrivInvariant
  import Ipv4Text

  // ---------------------------------------------------------------- what holds over every run

  /** The frames taken by one thread are, in order, the first of those the other thread sent. */
  predicate ReadsMatchWrites(s: State) {
    s.readByNobody <= s.sentToNobody && s.readByProto <= s.sentToProto
  }

  /**
   In every interleaving up to the first failed operation, each read takes exactly the bytes of the
   matching write; and whenever the protocol thread is between requests, everything sent has been
   read and both queues are empty.
   */
  lemma EveryReadMatches(s: State)
    requires Reachable(s) && Running(s)
    ensures ReadsMatchWrites(s)
    ensures s.proto.Idle? ==>
              s.toNobody == [] && s.toProto == []
              && s.readByNobody == s.sentToNobody && s.readByProto == s.sentToProto
  {
    hide History, RequestFrames, Flatten, Reachable;
    ReachableInv(s);
  }

  /** Some thread can move: it has bytes to write, or waits for bytes and the queue holds some. */
  predicate CanMove(s: State) {
    || Enabled(s, ProtoWrites(1))
    || Enabled(s, ProtoReads(1))
    || Enabled(s, NobodyReads(1, Broken))
    || Enabled(s, NobodyWrites(1))
  }

  /** An incomplete item of a request lies in the queue, at least in part. */
  lemma RequestingMoves(s: State, req: Request)
    requires Running(s) && ProtoInRange(s.proto) && Requesting(s, req) && s.proto.Receiving? && s.proto.req == req
    ensures CanMove(s)
  {
    hide RequestFrames, Flatten;
    var fs, j := RequestFrames(req), s.nobody.j;
    FlattenStep(fs, j);
    assert |s.nobody.got| + |s.toNobody| + |Unsent(s.proto)| == |fs[j]| + |Flatten(fs[j + 1..])|;
  }

  /** Either replies are still to be written, or an incomplete one lies in the queue in part. */
  lemma ServedMoves(s: State, req: Request)
    requires Running(s) && ProtoInRange(s.proto) && Served(s, req) && s.proto.req == req
    ensures CanMove(s)
  {
    hide RequestFrames, RightReplies;
    if s.nobody.Replying? {
      assert s.nobody.left[0] in s.nobody.left;
    } else {
      FlattenStep(s.replies, s.proto.m);
      assert |s.proto.got| + |s.toProto| + 0 == |s.replies[s.proto.m]| + |Flatten(s.replies[s.proto.m + 1..])|;
    }
  }

  lemma RequestMoves(s: State)
    requires Inv(s) && Running(s) && !s.proto.Idle?
    ensures CanMove(s)
  {
    hide History, RightTransfer, Requesting, Served, RequestFrames, Flatten;
    if s.proto.Receiving? {
      if s.served {
        ServedMoves(s, s.proto.req);
      } else {
        RequestingMoves(s, s.proto.req);
      }
    }
  }

  /** Inside a request the two threads never both wait on empty queues. */
  lemma NeverBothWaiting(s: State)
    requires Reachable(s) && Running(s) && !s.proto.Idle?
    ensures CanMove(s)
  {
    hide Inv, CanMove, Reachable;
    ReachableInv(s);
    RequestMoves(s);
  }

  // ---------------------------------------------------------------- requests come to an end

  /** An upper bound on the reads and writes that are left before the attempt or command is over. */
  function Work(s: State): nat {
    match s.proto
    case Idle => 0
    case ProtoStopped => 0
    case _ =>
      (if s.proto.req.Active? then 100 else 0)
      + if s.served then 2 * |Flatten(Unwritten(s.nobody))| + |s.toProto|
        else 2 * |Unsent(s.proto)| + |s.toNobody| + 19
  }

  predicate IsTransport(e: Event) {
    e.ProtoWrites? || e.ProtoReads? || e.NobodyReads? || e.NobodyWrites?
  }

  lemma FlattenAdd(a: Frame, fs: seq<Frame>)
    ensures Flatten([a] + fs) == a + Flatten(fs)
  {
    assert ([a] + fs)[1..] == fs;
  }

  lemma WriteWorks(s: State, n: nat)
    requires Inv(s) && Enabled(s, ProtoWrites(n))
    ensures Work(Next(s, ProtoWrites(n))) < Work(s)
  {
    hide Flatten, RequestFrames, RightTransfer, History, Unsent, Requesting, ProtoInRange;
    WriteMoves(s, n);
    WroteBytes(s, n);
    var t := ProtoWrote(s, n);
    assert |t.toNobody| + |Unsent(t.proto)| == |s.toNobody| + |Unsent(s.proto)| && |t.toNobody| == |s.toNobody| + n;
  }

  lemma NobodyWriteWorks(s: State, n: nat)
    requires Inv(s) && Enabled(s, NobodyWrites(n))
    ensures Work(Next(s, NobodyWrites(n))) < Work(s)
  {
    hide RequestFrames, RightGrant, Granted, RightTransfer, History, RightReplies;
    var (first, more) := (s.nobody.left[0], s.nobody.left[1..]);
    FlattenAdd(first[n..], more);
    assert Flatten(s.nobody.left) == first + Flatten(more);
  }

  lemma FlattenTwo(fs: seq<Frame>)
    ensures |fs| == 1 ==> |Flatten(fs)| == |fs[0]|
    ensures |fs| == 2 ==> |Flatten(fs)| == |fs[0]| + |fs[1]|
  {
    if |fs| == 2 {
      assert Flatten(fs) == fs[0] + Flatten(fs[1..]) && Flatten(fs[1..]) == fs[1] + Flatten(fs[1..][1..]);
    }
  }

  /** What acting on an item adds: nothing, or replies of at most nine bytes. */
  lemma ActingAdds(s: State, j: nat, f: Frame, len: nat, ip: Frame, o: Outcome)
    requires !s.served
    ensures var t := NobodyGot(s, j, f, len, ip, o);
            && t.proto == s.proto && t.toNobody == s.toNobody && t.toProto == s.toProto
            && (t.served ==> t.nobody == Replying(t.replies) && |Flatten(t.replies)| <= 9)
  {
    hide Encode, Decode, TargetIp, Flatten;
    FlattenTwo(NobodyGot(s, j, f, len, ip, o).replies);
  }

  lemma NobodyReadWorks(s: State, n: nat, o: Outcome)
    requires Inv(s) && Enabled(s, NobodyReads(n, o))
    ensures Work(Next(s, NobodyReads(n, o))) < Work(s)
  {
    hide RequestFrames, RightTransfer, History, RightReplies, Understood, Unsent, Flatten, NobodyGot;
    if n == NobodyNeeds(s) {
      ActingAdds(Taken(s, n), s.nobody.j, s.nobody.got + s.toNobody[..n], s.nobody.len, s.nobody.ip, o);
    }
  }

  lemma RequestLength(req: Request)
    requires !req.Active?
    ensures |Flatten(RequestFrames(req))| <= 24
  {
    hide Encode, Ipv4Text.Dotted;
    var fs := RequestFrames(req);
    if req.GetData? {
      Ipv4Text.DottedLength(req.addr.ip);
      FlattenTwo(fs[2..]);
      assert fs[2..][0] == fs[2] && fs[2..][1] == fs[3];
      FlattenStep(fs, 1);
    } else {
      FlattenTwo(fs);
    }
    FlattenStep(fs, 0);
    assert fs[0..] == fs;
  }

  lemma AskWorks(s: State, req: Request)
    requires !req.Active? && s.toNobody == []
    ensures Work(Ask(s, req)) <= 67
  {
    hide RequestFrames;
    RequestLength(req);
    var fs := RequestFrames(req);
    FlattenStep(fs, 0);
    assert fs[0..] == fs;
  }

  /** Bytes can be read on the protocol side only when the nobody thread has acted. */
  lemma ReadIsServed(s: State, n: nat)
    requires Inv(s) && Enabled(s, ProtoReads(n))
    ensures s.served && s.toNobody == []
  {
    hide Flatten, RequestFrames, History, RightTransfer, RightReplies, Understood;
  }

  /** What is left after a completed reply. */
  lemma GotWorks(s: State, m: nat, f: Frame)
    requires s.proto.Receiving? && s.served && s.toNobody == []
    ensures Work(ProtoGot(s, s.proto.req, m, f))
         <= if s.proto.req.Active? then 67 else 2 * |Flatten(Unwritten(s.nobody))| + |s.toProto|
  {
    hide Flatten, Unwritten, RequestFrames, Decode, Ask, Unsent;
    AskWorks(s, Accept);
    if s.pAddr.Some? {
      AskWorks(s, GetData(s.pAddr.value));
    }
  }

  lemma ProtoReadWorks(s: State, n: nat)
    requires Inv(s) && Enabled(s, ProtoReads(n))
    ensures Work(Next(s, ProtoReads(n))) < Work(s)
  {
    hide Inv, Flatten, Unwritten, ProtoGot, ProtoNeeds;
    ReadIsServed(s, n);
    if n == ProtoNeeds(s) {
      GotWorks(ReplyTaken(s, n), s.proto.m, s.proto.got + s.toProto[..n]);
    }
  }

  lemma TransportWorks(s: State, e: Event)
    requires Inv(s) && Enabled(s, e) && IsTransport(e)
    ensures Inv(Next(s, e)) && Work(Next(s, e)) < Work(s)
  {
    hide Inv, Work, Next;
    NextKeeps(s, e);
    match e {
      case ProtoWrites(n) => WriteWorks(s, n);
      case ProtoReads(n) => ProtoReadWorks(s, n);
      case NobodyReads(n, o) => NobodyReadWorks(s, n, o);
      case NobodyWrites(n) => NobodyWriteWorks(s, n);
    }
  }

  ghost predicate IsTransportStep(a: State, b: State) {
    exists e :: IsTransport(e) && Enabled(a, e) && b == Next(a, e)
  }

  /** Reads and writes only. */
  ghost predicate IsTransportRun(states: seq<State>) {
    states != [] && forall k :: 0 < k < |states| ==> IsTransportStep(states[k - 1], states[k])
  }

  lemma {:induction false} WorkShrinks(states: seq<State>, i: nat)
    requires IsTransportRun(states) && i < |states| && Inv(states[0])
    ensures Inv(states[i]) && Work(states[i]) + i <= Work(states[0])
    decreases i
  {
    hide Inv, Work, Next, Enabled;
    if i > 0 {
      WorkShrinks(states, i - 1);
      assert IsTransportStep(states[i - 1], states[i]);
      var e :| IsTransport(e) && Enabled(states[i - 1], e) && states[i] == Next(states[i - 1], e);
      TransportWorks(states[i - 1], e);
    }
  }

  lemma {:induction false} FlattenSuffix(fs: seq<Frame>, j: nat)
    requires j <= |fs|
    ensures |Flatten(fs[j..])| <= |Flatten(fs)|
    decreases j
  {
    if j == |fs| {
      NoFrames(fs);
    } else if j > 0 {
      FlattenSuffix(fs[1..], j - 1);
      assert fs[1..][j - 1..] == fs[j..];
    } else {
      assert fs[0..] == fs;
    }
  }

  /** The longest attempt asks which mode is active and then for a connection. */
  const MAX_STEPS := 121

  lemma RepliesLength(s: State, req: Request)
    requires RightSizes(req, s.replies)
    ensures |Flatten(s.replies)| <= 9 && (req.Active? ==> |Flatten(s.replies)| == 4)
  {
    hide Flatten;
    FlattenTwo(s.replies);
  }

  lemma ActiveLength()
    ensures |Flatten(RequestFrames(Active))| == 1
  {
    FlattenTwo(RequestFrames(Active));
  }

  lemma WorkBound(s: State)
    requires Inv(s) && Running(s)
    ensures Work(s) <= MAX_STEPS
  {
    hide Flatten, RequestFrames, History, RightTransfer, RightReplies, RightSizes, Unsent, Understood;
    if !s.proto.Idle? {
      var req := s.proto.req;
      if s.served {
        RepliesLength(s, req);
        FlattenSuffix(s.replies, s.proto.m);
        assert |s.proto.got| + |s.toProto| + |Flatten(Unwritten(s.nobody))| == |Flatten(s.replies[s.proto.m..])|;
      } else {
        ActiveLength();
        if !req.Active? {
          RequestLength(req);
        }
        RequestTail(s, req);
      }
    }
  }

  lemma RequestTail(s: State, req: Request)
    requires Requesting(s, req)
    ensures |s.toNobody| + |Unsent(s.proto)| <= |Flatten(RequestFrames(req))|
  {
    hide Flatten, RequestFrames, Unsent;
    FlattenSuffix(RequestFrames(req), s.nobody.j);
    assert |s.nobody.got| + |s.toNobody| + |Unsent(s.proto)| == |Flatten(RequestFrames(req)[s.nobody.j..])|;
  }

  /**
   However reads and writes are cut and interleaved, from any reachable state on at most 121 of them
   follow one another before the next command; and when no thread can read or write any more, the
   protocol thread is between requests, or an operation has failed.
   */
  lemma RequestsEnd(states: seq<State>)
    requires IsTransportRun(states) && Reachable(states[0])
    ensures |states| - 1 <= MAX_STEPS
    ensures var last := states[|states| - 1];
            (forall e :: IsTransport(e) ==> !Enabled(last, e)) ==> last.proto.Idle? || !Running(last)
  {
    hide Reachable, Inv, Work, IsTransportStep, Enabled;
    ReachableInv(states[0]);
    WorkShrinks(states, |states| - 1);
    if |states| > 1 {
      StepRuns(states[0], states[1]);
      WorkBound(states[0]);
    }
    var last := states[|states| - 1];
    if !last.proto.Idle? && Running(last) {
      RequestMoves(last);
    }
  }

  lemma StepRuns(a: State, b: State)
    requires IsTransportStep(a, b)
    ensures Running(a)
  {}

  // ---------------------------------------------------------------- which transfers are granted

  /**
   In every run up to the first failed operation, each attempt to open a data connection ended as
   RightGrant says, no more connections were granted than PORT and PASV commands succeeded, and the
   port announced last is the one being listened on.
   */
  lemma GrantsAreRight(s: State)
    requires Reachable(s) && Running(s)
    ensures forall i :: 0 <= i < |s.grants| ==> RightGrant(s.grants[i])
    ensures Granted(s.grants) <= s.successes
    ensures s.proto.Idle? && s.listener.Some? ==> s.pasvPort == Some(s.listener.value.port)
  {
    hide RightGrant, Granted, RequestFrames, Flatten, Reachable;
    ReachableInv(s);
  }

  /** A PORT command with six numbers up to 255 sets exactly the address it names. */
  lemma PortCommandSets(s: State, v: seq<byte>)
    requires |v| == 6 && Enabled(s, PortCommand(CommaText(AsNats(v))))
    ensures var t := Next(s, PortCommand(CommaText(AsNats(v))));
            t.pAddr == Some(Addr(v[..4], MakeWord(v[4], v[5]))) && t.portArgs == Some(CommaText(AsNats(v)))
  {
    hide CommaText, DoPort;
    PortArgument(v);
  }

  /** A PORT command without six numbers changes nothing. */
  lemma BadPortKeeps(s: State, args: string)
    requires Enabled(s, PortCommand(args)) && |ScanList(args, 6)| < 6
    ensures Next(s, PortCommand(args)) == s
  {
    hide ScanList;
  }

  /** What counts as a success: a PORT that set an address, and the last reply to a PASV; nothing else. */
  lemma SuccessSteps(s: State, e: Event)
    requires Enabled(s, e)
    ensures var t := Next(s, e);
            t.successes == s.successes
              + Bit((e.PortCommand? && DoPort(e.args).Some?)
                    || (e.ProtoReads? && e.n == ProtoNeeds(s) && s.proto.req.Listen? && s.proto.m > 0))
  {
    hide RequestFrames, Decode, Encode, TargetIp, DoPort, ProtoNeeds, NobodyNeeds;
  }

  /** The nobody thread connects for a PORT request only, once, and to the address of that request. */
  lemma ConnectsOnly(s: State, n: nat, o: Outcome)
    requires Inv(s) && Enabled(s, NobodyReads(n, o)) && NobodyRead(s, n, o).connects != s.connects
    ensures s.proto.Receiving? && s.proto.req.GetData?
    ensures NobodyRead(s, n, o).connects == s.connects + [s.proto.req.addr] && NobodyRead(s, n, o).served
  {
    hide Flatten, RequestFrames, RightGrant, Granted, RightTransfer, RightReplies, NobodyConnect, Decode, Encode;
    var req := s.proto.req;
    ItemRead(s, req, n);
    LastItem(s, req, n);
    ConnectServed(Taken(s, n), req.addr, o);
    Connected(Taken(s, n), RequestFrames(req)[2], RequestFrames(req)[3], o);
  }

  /** A step that changes the connections made is an answered request. */
  lemma Connected(s: State, ip: Frame, f: Frame, o: Outcome)
    ensures var t := NobodyConnect(s, ip, f, o);
            t.connects != s.connects ==> t.served && t.nobody.Replying? && t.proto == s.proto
  {
    hide Decode, Encode, TargetIp;
  }

  /** Every other step leaves the connections made alone. */
  lemma OthersConnectNothing(s: State, e: Event)
    requires Enabled(s, e) && !e.NobodyReads?
    ensures Next(s, e).connects == s.connects
  {
    hide RequestFrames, Decode, DoPort, ProtoNeeds;
  }

  /** The bytes of the requests on the channel. */
  lemma RequestBytes(addr: Addr)
    ensures RequestFrames(Active) == [[2]] && RequestFrames(Listen) == [[3]] && RequestFrames(Accept) == [[4]]
    ensures RequestFrames(GetData(addr))[0] == [1]
    ensures RequestFrames(GetData(addr))[2] == CharBytes(Ipv4Text.Dotted(addr.ip))
    ensures Decode(RequestFrames(GetData(addr))[1]) == |Ipv4Text.Dotted(addr.ip)|
    ensures Decode(RequestFrames(GetData(addr))[3]) == addr.port
  {
    hide Encode, Decode, Ipv4Text.Dotted;
    Ipv4Text.DottedLength(addr.ip);
    IntFits(|CharBytes(Ipv4Text.Dotted(addr.ip))|);
    IntFits(addr.port);
  }

  /**
   Over every run, a connection granted while PORT was active went to the address and port that the
   last PORT command named.
   */
  lemma PortGrantsConnect(s: State, i: nat, v: seq<byte>)
    requires Reachable(s) && Running(s) && i < |s.grants| && |v| == 6
    requires s.grants[i].handle.Some? && s.grants[i].before.port.Some?
    ensures s.grants[i].portArgs.Some? && s.grants[i].connectedTo == DoPort(s.grants[i].portArgs.value)
    ensures s.grants[i].portArgs == Some(CommaText(AsNats(v)))
            ==> s.grants[i].connectedTo == Some(Addr(v[..4], MakeWord(v[4], v[5])))
  {
    hide CommaText, DoPort, Reachable, Granted;
    GrantsAreRight(s);
    assert RightGrant(s.grants[i]);
    PortArgument(v);
  }

  /** A transfer that started with modes m, after the attempts gs, is still waiting for its answer. */
  predicate Pending(s: State, m: Modes, gs: seq<Grant>) {
    (s.proto.Sending? || s.proto.Receiving?) && s.transfer == Some(m) && s.grants == gs
  }

  /** It is over. */
  predicate Finished(s: State, m: Modes, gs: seq<Grant>) {
    && s.proto.Idle? && |s.grants| == |gs| + 1 && s.grants[..|gs|] == gs
    && s.grants[|gs|].before == m && s.grants[|gs|].after == ModesOf(s)
  }

  /** A PASV is no transfer. */
  lemma PendingRequest(s: State, m: Modes, gs: seq<Grant>)
    requires Inv(s) && Running(s) && Pending(s, m, gs)
    ensures !s.proto.req.Listen?
  {
    hide RequestFrames, Flatten, History, Requesting, Served, ProtoInRange;
  }

  lemma EndFinishes(s: State, handle: Option<nat>, to: Option<Addr>, m: Modes, gs: seq<Grant>)
    requires s.transfer == Some(m) && s.grants == gs
    ensures Finished(EndTransfer(s, handle, to), m, gs)
  {}

  /** A completed reply of a transfer goes on with it, ends it, or stops the thread. */
  lemma GotEnds(s: State, req: Request, k: nat, f: Frame, m: Modes, gs: seq<Grant>)
    requires s.transfer == Some(m) && s.grants == gs && !req.Listen?
    ensures var t := ProtoGot(s, req, k, f); Running(t) ==> Pending(t, m, gs) || Finished(t, m, gs)
  {
    hide RequestFrames, Decode, EndTransfer, Finished;
    var to := if s.connects == [] then None else Some(s.connects[|s.connects| - 1]);
    EndFinishes(s, None, None, m, gs);
    EndFinishes(s.(pAddr := None), Some(Decode(f)), to, m, gs);
    EndFinishes(s, Some(Decode(f)), None, m, gs);
  }

  lemma ReadEnds(s: State, n: nat, m: Modes, gs: seq<Grant>)
    requires Inv(s) && Enabled(s, ProtoReads(n)) && Pending(s, m, gs) && Running(ProtoRead(s, n))
    ensures Pending(ProtoRead(s, n), m, gs) || Finished(ProtoRead(s, n), m, gs)
  {
    PendingRequest(s, m, gs);
    hide Inv, ProtoNeeds, ProtoGot, Finished;
    if n == ProtoNeeds(s) {
      GotEnds(ReplyTaken(s, n), s.proto.req, s.proto.m, s.proto.got + s.toProto[..n], m, gs);
    }
  }

  /** What the nobody thread does leaves the protocol thread and its modes alone. */
  lemma NobodyLeaves(s: State, e: Event)
    requires Enabled(s, e) && (e.NobodyReads? || e.NobodyWrites?)
    ensures var t := Next(s, e);
            t.proto == s.proto && t.transfer == s.transfer && t.grants == s.grants && t.pAddr == s.pAddr
  {
    hide NobodyGot, NobodyNeeds;
    if e.NobodyReads? {
      var got := s.nobody.got + s.toNobody[..e.n];
      ActingLeaves(s.(toNobody := s.toNobody[e.n..], readByNobody := s.readByNobody + [got]),
                   s.nobody.j, got, s.nobody.len, s.nobody.ip, e.outcome);
    }
  }

  lemma ActingLeaves(s: State, j: nat, f: Frame, len: nat, ip: Frame, o: Outcome)
    ensures var t := NobodyGot(s, j, f, len, ip, o);
            t.proto == s.proto && t.transfer == s.transfer && t.grants == s.grants && t.pAddr == s.pAddr
  {
    hide Decode, Encode, TargetIp;
  }

  lemma TransportEnds(s: State, e: Event, m: Modes, gs: seq<Grant>)
    requires Inv(s) && Enabled(s, e) && IsTransport(e) && Pending(s, m, gs) && Running(Next(s, e))
    ensures Pending(Next(s, e), m, gs) || Finished(Next(s, e), m, gs)
  {
    hide RequestFrames, ProtoRead, Inv, NobodyRead, NobodyWrote, NobodyNeeds, ProtoNeeds;
    match e {
      case ProtoWrites(n) =>
      case ProtoReads(n) => ReadEnds(s, n, m, gs);
      case _ => NobodyLeaves(s, e);
    }
  }

  /** Between requests nothing is left to read or write. */
  lemma NothingToMove(s: State, e: Event)
    requires Inv(s) && s.proto.Idle? && IsTransport(e)
    ensures !Enabled(s, e)
  {
    hide History;
  }

  lemma {:induction false} TransferRun(states: seq<State>, i: nat, m: Modes, gs: seq<Grant>)
    requires IsTransportRun(states) && i < |states| && Inv(states[0]) && Pending(states[0], m, gs)
    requires Running(states[i])
    ensures Inv(states[i]) && (Pending(states[i], m, gs) || Finished(states[i], m, gs))
    decreases i
  {
    hide Inv, Next, Enabled, Pending, IsTransport;
    if i > 0 {
      assert IsTransportStep(states[i - 1], states[i]);
      StepRuns(states[i - 1], states[i]);
      TransferRun(states, i - 1, m, gs);
      var e :| IsTransport(e) && Enabled(states[i - 1], e) && states[i] == Next(states[i - 1], e);
      NextKeeps(states[i - 1], e);
      if Finished(states[i - 1], m, gs) {
        NothingToMove(states[i - 1], e);
      }
      TransportEnds(states[i - 1], e, m, gs);
    }
  }

  /**
   The next transfer, from any reachable state between requests: however its reads and writes are cut
   and interleaved, when it is over it was granted if and only if exactly one of PORT and PASV was
   active. A granted transfer leaves no mode active; a refused one leaves both modes as they were.
   */
  lemma TransferOutcome(s: State, states: seq<State>)
    requires Reachable(s) && Enabled(s, TransferCommand)
    requires IsTransportRun(states) && states[0] == Next(s, TransferCommand)
    requires Running(states[|states| - 1]) && states[|states| - 1].proto.Idle?
    ensures var t := states[|states| - 1];
            && |t.grants| == |s.grants| + 1 && t.grants[..|s.grants|] == s.grants
            && t.grants[|s.grants|].before == ModesOf(s)
            && (t.grants[|s.grants|].handle.Some? <==> s.pAddr.Some? != s.listener.Some?)
            && ModesOf(t) == if t.grants[|s.grants|].handle.Some? then Modes(None, false) else ModesOf(s)
  {
    hide Reachable, RequestFrames, Flatten, Granted, IsTransportStep, Channel;
    ReachableInv(s);
    NextKeeps(s, TransferCommand);
    TransferRun(states, |states| - 1, ModesOf(s), s.grants);
    var t := states[|states| - 1];
    assert RightGrant(t.grants[|s.grants|]);
  }

  // ---------------------------------------------------------------- both modes at once

  predicate BothActive(s: State) {
    s.pAddr.Some? && s.listener.Some?
  }

  /** gs continues before with refused attempts only. */
  predicate OnlyRefused(before: seq<Grant>, gs: seq<Grant>) {
    before <= gs && forall i :: |before| <= i < |gs| ==> gs[i].handle == None
  }

  /** With both modes active a completed reply leaves both active, and an attempt that ends is refused. */
  lemma BothAnswered(s: State, n: nat)
    requires Inv(s) && BothActive(s) && Enabled(s, ProtoReads(n)) && Running(ProtoRead(s, n))
    ensures BothActive(ProtoRead(s, n)) && OnlyRefused(s.grants, ProtoRead(s, n).grants)
  {
    hide Flatten, RequestFrames, History, Encode, Decode, ProtoInRange;
    if n == ProtoNeeds(s) && s.proto.req.Active? {
      BothSeen(s, n);
    }
  }

  /** The answer to "is PASV active" says that it is. */
  lemma BothSeen(s: State, n: nat)
    requires Inv(s) && BothActive(s) && Enabled(s, ProtoReads(n)) && n == ProtoNeeds(s) && s.proto.req.Active?
    ensures Decode(s.proto.got + s.toProto[..n]) != 0
  {
    hide Flatten, RequestFrames, History, Encode, Decode;
    if s.served {
      ReplyRead(s, Active, n);
      IntFits(1);
    }
  }

  /** The nobody thread is not asked for an accept while a PORT is active. */
  lemma BothAsked(s: State, n: nat, o: Outcome)
    requires Inv(s) && BothActive(s) && Enabled(s, NobodyReads(n, o)) && Running(NobodyRead(s, n, o))
    ensures BothActive(NobodyRead(s, n, o)) && NobodyRead(s, n, o).grants == s.grants
  {
    hide Flatten, RequestFrames, History, Encode, Decode, ProtoInRange, TargetIp, Understood;
    if n == NobodyNeeds(s) {
      var req := s.proto.req;
      ItemRead(s, req, n);
      CommandFrame(req);
    }
  }

  lemma CommandFrame(req: Request)
    ensures RequestFrames(req)[0] == [PRIV_SOCK_PASV_ACCEPT] <==> req.Accept?
  {
    hide Encode, Ipv4Text.Dotted;
  }

  lemma BothStay(s: State, e: Event)
    requires Inv(s) && BothActive(s) && Enabled(s, e) && Running(Next(s, e))
    ensures BothActive(Next(s, e)) && OnlyRefused(s.grants, Next(s, e).grants)
  {
    hide Flatten, RequestFrames, Inv, ProtoRead, NobodyRead, ProtoNeeds, NobodyNeeds, DoPort;
    match e {
      case ProtoReads(n) => BothAnswered(s, n);
      case NobodyReads(n, o) => BothAsked(s, n, o);
      case _ =>
    }
  }

  /**
   Once both modes are active no transfer is granted any more: in every continuation up to the first
   failed operation both stay active and each attempt is refused. Only a granted PORT frees its
   address and only an accept closes the listener.
   */
  lemma {:induction false} BothForever(states: seq<State>, i: nat)
    requires states != [] && Reachable(states[0]) && BothActive(states[0])
    requires forall k :: 0 < k < |states| ==> IsStep(states[k - 1], states[k])
    requires i < |states| && Running(states[i])
    ensures Inv(states[i]) && BothActive(states[i]) && OnlyRefused(states[0].grants, states[i].grants)
    decreases i
  {
    hide Reachable, Inv, Next, Enabled, BothActive;
    if i == 0 {
      ReachableInv(states[0]);
    } else {
      assert IsStep(states[i - 1], states[i]);
      var e :| Enabled(states[i - 1], e) && states[i] == Next(states[i - 1], e);
      EnabledRuns(states[i - 1], e);
      BothForever(states, i - 1);
      NextKeeps(states[i - 1], e);
      BothStay(states[i - 1], e);
    }
  }

  lemma EnabledRuns(s: State, e: Event)
    requires Enabled(s, e)
    ensures Running(s)
  {}

  /** A PASV on its way, and completed. */
  predicate Listening(s: State, port: Option<Addr>, gs: seq<Grant>) {
    (s.proto.Sending? || s.proto.Receiving?) && s.proto.req.Listen? && s.pAddr == port && s.grants == gs
  }

  predicate Listened(s: State, port: Option<Addr>, gs: seq<Grant>) {
    s.proto.Idle? && s.listener.Some? && s.pAddr == port && s.grants == gs
  }

  lemma ListenRead(s: State, n: nat, port: Option<Addr>, gs: seq<Grant>)
    requires Inv(s) && Enabled(s, ProtoReads(n)) && Listening(s, port, gs)
    ensures Listening(ProtoRead(s, n), port, gs) || Listened(ProtoRead(s, n), port, gs)
  {
    hide Flatten, RequestFrames, History, Encode, Decode;
    if n == ProtoNeeds(s) && s.served {
      ReplyRead(s, Listen, n);
    }
  }

  lemma ListenStep(s: State, e: Event, port: Option<Addr>, gs: seq<Grant>)
    requires Inv(s) && Enabled(s, e) && IsTransport(e) && Listening(s, port, gs)
    ensures Listening(Next(s, e), port, gs) || Listened(Next(s, e), port, gs)
  {
    hide RequestFrames, ProtoRead, Inv, NobodyRead, NobodyWrote, NobodyNeeds, ProtoNeeds;
    match e {
      case ProtoWrites(n) =>
      case ProtoReads(n) => ListenRead(s, n, port, gs);
      case _ => NobodyLeaves(s, e);
    }
  }

  lemma {:induction false} ListenRun(states: seq<State>, i: nat, port: Option<Addr>, gs: seq<Grant>)
    requires IsTransportRun(states) && i < |states| && Inv(states[0]) && Listening(states[0], port, gs)
    ensures Inv(states[i]) && (Listening(states[i], port, gs) || Listened(states[i], port, gs))
    decreases i
  {
    hide Inv, Next, Enabled, Listening, IsTransport;
    if i > 0 {
      ListenRun(states, i - 1, port, gs);
      assert IsTransportStep(states[i - 1], states[i]);
      var e :| IsTransport(e) && Enabled(states[i - 1], e) && states[i] == Next(states[i - 1], e);
      NextKeeps(states[i - 1], e);
      if Listened(states[i - 1], port, gs) {
        NothingToMove(states[i - 1], e);
      }
      ListenStep(states[i - 1], e, port, gs);
    }
  }

  /**
   A PASV that completes keeps the address of an earlier PORT: with PORT active, both modes are active
   afterwards, and by BothForever no transfer is granted any more.
   */
  lemma PasvAfterPort(s: State, states: seq<State>)
    requires Reachable(s) && Enabled(s, PasvCommand) && s.pAddr.Some?
    requires IsTransportRun(states) && states[0] == Next(s, PasvCommand) && states[|states| - 1].proto.Idle?
    ensures BothActive(states[|states| - 1])
  {
    hide Reachable, RequestFrames, Flatten, IsTransportStep, Inv;
    ReachableInv(s);
    NextKeeps(s, PasvCommand);
    ListenRun(states, |states| - 1, s.pAddr, s.grants);
  }

  /** One more step of a run. */
  lemma Reaches(s: State, e: Event)
    requires Reachable(s) && Enabled(s, e)
    ensures Reachable(Next(s, e))
  {
    hide Next, Enabled, INITIAL;
    var states :| IsRun(states) && states[|states| - 1] == s;
    var more := states + [Next(s, e)];
    forall i | 0 < i < |more|
      ensures IsStep(more[i - 1], more[i])
    {
      if i < |states| {
        assert IsStep(states[i - 1], states[i]);
      }
    }
    assert IsRun(more) && more[|more| - 1] == Next(s, e);
  }

  lemma AtStart()
    ensures Reachable(INITIAL)
  {
    assert IsRun([INITIAL]) && [INITIAL][|[INITIAL]| - 1] == INITIAL;
  }

  /** The protocol thread has sent a PASV request behind a PORT command. */
  lemma PasvAsked(v: seq<byte>) returns (s: State)
    requires |v| == 6
    ensures Reachable(s) && s.pAddr.Some? && s.proto == Receiving(Listen, 0, []) && s.nobody == AT_COMMAND
    ensures s.toNobody == [PRIV_SOCK_PASV_LISTEN] && s.toProto == []
  {
    hide Reachable, CommaText, DoPort, AsNats;
    PortArgument(v);
    AtStart();
    s := INITIAL;
    var e := PortCommand(CommaText(AsNats(v)));
    Reaches(s, e);
    s := Next(s, e);
    Reaches(s, PasvCommand);
    s := Next(s, PasvCommand);
    Reaches(s, ProtoWrites(1));
    s := Next(s, ProtoWrites(1));
  }

  /** The nobody thread listens and is about to reply. */
  lemma PasvTaken(s: State, fd: nat, port: word) returns (t: State)
    requires Reachable(s) && s.pAddr.Some? && s.proto == Receiving(Listen, 0, []) && s.nobody == AT_COMMAND
    requires s.toNobody == [PRIV_SOCK_PASV_LISTEN] && s.toProto == [] && fd < 0x1_0000_0000_0000_0000
    ensures Reachable(t) && BothActive(t) && t.proto == Receiving(Listen, 0, []) && t.toProto == []
    ensures t.nobody == Replying([[PRIV_SOCK_RESULT_OK], Encode(port, INT_SIZE)])
  {
    hide Reachable, Encode, Decode;
    assert [] + s.toNobody[..1] == [PRIV_SOCK_PASV_LISTEN];
    Reaches(s, NobodyReads(1, Done(fd, port)));
    t := Next(s, NobodyReads(1, Done(fd, port)));
  }

  /** The nobody thread listens and has sent both replies. */
  lemma PasvServed(s: State, fd: nat, port: word) returns (t: State)
    requires Reachable(s) && s.pAddr.Some? && s.proto == Receiving(Listen, 0, []) && s.nobody == AT_COMMAND
    requires s.toNobody == [PRIV_SOCK_PASV_LISTEN] && s.toProto == [] && fd < 0x1_0000_0000_0000_0000
    ensures Reachable(t) && BothActive(t) && t.proto == Receiving(Listen, 0, []) && t.nobody == AT_COMMAND
    ensures t.toProto == [PRIV_SOCK_RESULT_OK] + Encode(port, INT_SIZE)
  {
    hide Reachable, Encode, Decode, NobodyRead;
    t := PasvTaken(s, fd, port);
    Reaches(t, NobodyWrites(1));
    t := Next(t, NobodyWrites(1));
    Reaches(t, NobodyWrites(INT_SIZE));
    t := Next(t, NobodyWrites(INT_SIZE));
  }

  /** PORT and then PASV from the start, for any argument, socket and port: both modes are active. */
  lemma PortThenPasv(v: seq<byte>, fd: nat, port: word) returns (t: State)
    requires |v| == 6 && fd < 0x1_0000_0000_0000_0000
    ensures Reachable(t) && Running(t) && t.proto.Idle? && BothActive(t)
  {
    hide Reachable, Encode, Decode;
    var s := PasvAsked(v);
    t := PasvServed(s, fd, port);
    assert [] + t.toProto[..1] == [PRIV_SOCK_RESULT_OK];
    Reaches(t, ProtoReads(1));
    t := Next(t, ProtoReads(1));
    Reaches(t, ProtoReads(INT_SIZE));
    t := Next(t, ProtoReads(INT_SIZE));
  }
}
