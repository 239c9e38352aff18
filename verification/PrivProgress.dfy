/**
 Progress over the private channel: when the sockets of the nobody thread do what they are asked for,
 no thread stops, and every transfer with one mode active ends with its data connection granted.
 */
module PrivProgress {
  import opened Basics
  import opened PrivFrames
  import opened PrivChannel
  import opened PrivInvariant
  import opened PrivRuns
  import Ipv4Text

  /** A read or write in which the nobody thread's sockets behave as one of the given outcomes. */
  predicate IsSmooth(e: Event, os: set<Outcome>) {
    IsTransport(e) && (e.NobodyReads? ==> e.outcome.Done? && e.outcome in os)
  }

  ghost predicate IsSmoothStep(a: State, b: State, os: set<Outcome>) {
    exists e :: IsSmooth(e, os) && Enabled(a, e) && b == Next(a, e)
  }

  ghost predicate IsSmoothRun(states: seq<State>, os: set<Outcome>) {
    states != [] && forall k :: 0 < k < |states| ==> IsSmoothStep(states[k - 1], states[k], os)
  }

  /** No such read or write is possible any more. */
  ghost predicate AtRest(s: State, os: set<Outcome>) {
    forall e :: IsSmooth(e, os) ==> !Enabled(s, e)
  }

  predicate CanSucceed(o: Outcome) {
    o.Done? && FitsHandle(o)
  }

  // ---------------------------------------------------------------- no thread stops

  lemma ReadRuns(s: State, n: nat)
    requires Inv(s) && Enabled(s, ProtoReads(n))
    ensures Running(ProtoRead(s, n))
  {
    hide Flatten, RequestFrames, History, RightTransfer, Encode, Decode;
    ReadIsServed(s, n);
    if n == ProtoNeeds(s) {
      ReplyRead(s, s.proto.req, n);
    }
  }

  /** The command byte is one the nobody thread knows. */
  lemma CommandRuns(s: State, req: Request, o: Outcome)
    requires Running(s) && o.Done?
    ensures Running(NobodyCommand(s, RequestFrames(req)[0], o))
  {
    hide Encode, Ipv4Text.Dotted;
  }

  /** The address text it receives fits its buffer and is an address. */
  lemma ConnectRuns(s: State, addr: Addr, o: Outcome)
    requires Running(s) && o.Done?
    ensures var fs := RequestFrames(GetData(addr));
            Running(NobodyConnect(s, fs[2], fs[3], o))
  {
    hide Encode, Decode, TargetIp, Ipv4Text.Dotted;
    DottedThroughBuffer(addr.ip);
  }

  lemma ItemRuns(s: State, req: Request, j: nat, len: nat, ip: Frame, o: Outcome)
    requires Running(s) && o.Done? && j < |RequestFrames(req)| && (j == 3 ==> ip == RequestFrames(req)[2])
    ensures Running(NobodyGot(s, j, RequestFrames(req)[j], len, ip, o))
  {
    hide NobodyCommand, NobodyConnect, RequestFrames, Decode;
    if j == 0 {
      CommandRuns(s, req, o);
    } else {
      assert req.GetData?;
      GetDataFrames(req.addr);
      ConnectRuns(s, req.addr, o);
    }
  }

  lemma NobodyRuns(s: State, n: nat, o: Outcome)
    requires Inv(s) && Enabled(s, NobodyReads(n, o)) && o.Done?
    ensures Running(NobodyRead(s, n, o))
  {
    hide Flatten, RequestFrames, History, RightTransfer, RightReplies, NobodyGot;
    if n == NobodyNeeds(s) {
      var req := s.proto.req;
      ItemRead(s, req, n);
      ItemRuns(Taken(s, n), req, s.nobody.j, s.nobody.len, s.nobody.ip, o);
    }
  }

  /** No read or write stops a thread when the sockets do what they are asked for. */
  lemma SmoothRuns(s: State, e: Event, os: set<Outcome>)
    requires Inv(s) && Enabled(s, e) && IsSmooth(e, os)
    ensures Running(Next(s, e))
  {
    hide Inv, ProtoRead, NobodyRead, RequestFrames;
    match e {
      case ProtoReads(n) => ReadRuns(s, n);
      case NobodyReads(n, o) => NobodyRuns(s, n, o);
      case _ =>
    }
  }

  /** Whether the nobody thread can read does not depend on how its sockets will behave. */
  lemma AnyOutcome(s: State, o: Outcome)
    requires FitsHandle(o)
    ensures Enabled(s, NobodyReads(1, Broken)) <==> Enabled(s, NobodyReads(1, o))
  {}

  /** Without such a failure, a request that is not over can go on. */
  lemma RestIsIdle(s: State, os: set<Outcome>, o: Outcome)
    requires Inv(s) && Running(s) && AtRest(s, os) && o in os && CanSucceed(o)
    ensures s.proto.Idle?
  {
    hide Inv;
    assert IsSmooth(ProtoWrites(1), os) && IsSmooth(ProtoReads(1), os);
    assert IsSmooth(NobodyReads(1, o), os) && IsSmooth(NobodyWrites(1), os);
    AnyOutcome(s, o);
    if !s.proto.Idle? {
      RequestMoves(s);
    }
  }

  // ---------------------------------------------------------------- what the sockets gave

  ghost predicate IsHandleOf(fd: nat, os: set<Outcome>) {
    exists o :: o in os && o.Done? && fd == o.fd
  }

  ghost predicate IsListenerOf(l: Listener, os: set<Outcome>) {
    exists o :: o in os && o.Done? && l == Listener(o.fd, o.port)
  }

  /** What the nobody thread has obtained for the request it has acted on comes from its sockets. */
  ghost predicate FromSockets(s: State, os: set<Outcome>) {
    (s.proto.Sending? || s.proto.Receiving?) && s.served ==>
      && (s.proto.req.GetData? || s.proto.req.Accept? ==> IsHandleOf(s.obtained, os))
      && (s.proto.req.Listen? ==> s.listener.Some? && IsListenerOf(s.listener.value, os))
  }

  lemma ItemFromSockets(s: State, req: Request, o: Outcome, os: set<Outcome>)
    requires (s.proto.Sending? || s.proto.Receiving?) && s.proto.req == req && !s.served && o.Done? && o in os
    ensures FromSockets(NobodyCommand(s, RequestFrames(req)[0], o), os)
    ensures req.GetData? ==>
              FromSockets(NobodyConnect(s, RequestFrames(req)[2], RequestFrames(req)[3], o), os)
  {
    hide Encode, Decode, TargetIp, Ipv4Text.Dotted;
  }

  lemma ReadFromSockets(s: State, n: nat, o: Outcome, os: set<Outcome>)
    requires Inv(s) && Enabled(s, NobodyReads(n, o)) && o.Done? && o in os && FromSockets(s, os)
    ensures FromSockets(NobodyRead(s, n, o), os)
  {
    hide Flatten, RequestFrames, History, RightTransfer, RightReplies, NobodyCommand, NobodyConnect, Decode, IsHandleOf;
    if n == NobodyNeeds(s) {
      var req := s.proto.req;
      ItemRead(s, req, n);
      ItemFromSockets(Taken(s, n), req, o, os);
    }
  }

  /** A request that has just been started has not been acted on. */
  lemma ReadStarts(s: State, n: nat, os: set<Outcome>)
    requires Enabled(s, ProtoReads(n)) && FromSockets(s, os)
    ensures FromSockets(ProtoRead(s, n), os)
  {
    hide RequestFrames, Decode, IsHandleOf, IsListenerOf, ProtoNeeds;
  }

  lemma SmoothFromSockets(s: State, e: Event, os: set<Outcome>)
    requires Inv(s) && Enabled(s, e) && IsSmooth(e, os) && FromSockets(s, os)
    ensures FromSockets(Next(s, e), os)
  {
    hide Inv, ProtoRead, NobodyRead, RequestFrames, IsHandleOf, IsListenerOf;
    match e {
      case ProtoReads(n) => ReadStarts(s, n, os);
      case NobodyReads(n, o) => ReadFromSockets(s, n, o, os);
      case _ =>
    }
  }

  lemma SmoothIsTransport(states: seq<State>, os: set<Outcome>)
    requires IsSmoothRun(states, os)
    ensures IsTransportRun(states)
  {
    hide Next, Enabled;
    forall k | 0 < k < |states|
      ensures IsTransportStep(states[k - 1], states[k])
    {
      assert IsSmoothStep(states[k - 1], states[k], os);
    }
  }

  lemma {:induction false} SmoothRunKeeps(states: seq<State>, i: nat, os: set<Outcome>)
    requires IsSmoothRun(states, os) && i < |states|
    requires Inv(states[0]) && Running(states[0]) && FromSockets(states[0], os)
    ensures Inv(states[i]) && Running(states[i]) && FromSockets(states[i], os)
    decreases i
  {
    hide Inv, Next, Enabled, Running, FromSockets, IsSmooth;
    if i > 0 {
      SmoothRunKeeps(states, i - 1, os);
      assert IsSmoothStep(states[i - 1], states[i], os);
      var e :| IsSmooth(e, os) && Enabled(states[i - 1], e) && states[i] == Next(states[i - 1], e);
      NextKeeps(states[i - 1], e);
      SmoothRuns(states[i - 1], e, os);
      SmoothFromSockets(states[i - 1], e, os);
    }
  }

  // ---------------------------------------------------------------- granted transfers

  /** The handle of the last attempt, if it was granted, comes from the sockets. */
  ghost predicate LastFromSockets(s: State, os: set<Outcome>) {
    s.grants != [] && (s.grants[|s.grants| - 1].handle.Some? ==> IsHandleOf(s.grants[|s.grants| - 1].obtained, os))
  }

  /** An attempt that ends carries the handle obtained last. */
  lemma GotFromSockets(s: State, req: Request, k: nat, f: Frame, os: set<Outcome>)
    requires s.transfer.Some? && !req.Listen? && (req.GetData? || req.Accept? ==> IsHandleOf(s.obtained, os))
    ensures var t := ProtoGot(s, req, k, f); t.proto.Idle? ==> LastFromSockets(t, os)
  {
    hide RequestFrames, Decode, IsHandleOf;
  }

  lemma EndFromSockets(s: State, n: nat, m: Modes, gs: seq<Grant>, os: set<Outcome>)
    requires Inv(s) && Enabled(s, ProtoReads(n)) && Pending(s, m, gs) && FromSockets(s, os)
    ensures ProtoRead(s, n).proto.Idle? ==> LastFromSockets(ProtoRead(s, n), os)
  {
    hide Inv, ProtoNeeds, ProtoGot, IsHandleOf, IsListenerOf;
    ReadIsServed(s, n);
    PendingRequest(s, m, gs);
    if n == ProtoNeeds(s) {
      GotFromSockets(ReplyTaken(s, n), s.proto.req, s.proto.m, s.proto.got + s.toProto[..n], os);
    }
  }

  /** A step of a pending transfer keeps it pending, or ends it with a handle from the sockets. */
  lemma StepFromSockets(s: State, e: Event, m: Modes, gs: seq<Grant>, os: set<Outcome>)
    requires Inv(s) && Enabled(s, e) && IsSmooth(e, os) && Pending(s, m, gs) && FromSockets(s, os)
    ensures Next(s, e).proto.Idle? ==> LastFromSockets(Next(s, e), os)
  {
    hide RequestFrames, ProtoRead, Inv, NobodyRead, NobodyWrote, NobodyNeeds, ProtoNeeds;
    match e {
      case ProtoWrites(n) =>
      case ProtoReads(n) => EndFromSockets(s, n, m, gs, os);
      case _ => NobodyLeaves(s, e);
    }
  }

  lemma {:induction false} TransferFromSockets(states: seq<State>, i: nat, m: Modes, gs: seq<Grant>, os: set<Outcome>)
    requires IsSmoothRun(states, os) && i < |states|
    requires Inv(states[0]) && Running(states[0]) && FromSockets(states[0], os) && Pending(states[0], m, gs)
    ensures states[i].proto.Idle? ==> LastFromSockets(states[i], os)
  {
    hide Inv, Next, Enabled, Running, FromSockets, IsSmooth, Finished, LastFromSockets;
    if i > 0 {
      SmoothIsTransport(states, os);
      SmoothRunKeeps(states, i - 1, os);
      TransferRun(states, i - 1, m, gs);
      assert IsSmoothStep(states[i - 1], states[i], os);
      var e :| IsSmooth(e, os) && Enabled(states[i - 1], e) && states[i] == Next(states[i - 1], e);
      SmoothTransport(e, os);
      if !Pending(states[i - 1], m, gs) {
        FinishedIsIdle(states[i - 1], m, gs);
        NothingToMove(states[i - 1], e);
      } else {
        StepFromSockets(states[i - 1], e, m, gs, os);
      }
    }
  }

  lemma SmoothTransport(e: Event, os: set<Outcome>)
    requires IsSmooth(e, os)
    ensures IsTransport(e)
  {}

  lemma FinishedIsIdle(s: State, m: Modes, gs: seq<Grant>)
    requires Finished(s, m, gs)
    ensures s.proto.Idle?
  {}

  /** The start of a transfer. */
  lemma TransferStarts(s: State, os: set<Outcome>)
    requires Inv(s) && Enabled(s, TransferCommand)
    ensures var t := Next(s, TransferCommand);
            Inv(t) && Running(t) && FromSockets(t, os) && Pending(t, ModesOf(s), s.grants)
  {
    hide Inv, RequestFrames;
    NextKeeps(s, TransferCommand);
  }

  /**
   From every reachable state between requests with exactly one mode active: if the sockets of the
   nobody thread do what they are asked for, no thread stops, and when nothing is left to read or write
   the transfer has been granted, for PORT with a connection to the address of the PORT command and for
   PASV with the accepted one, by the handle that the sockets gave.
   */
  lemma TransferGranted(s: State, states: seq<State>, os: set<Outcome>, o: Outcome)
    requires Reachable(s) && Enabled(s, TransferCommand) && (s.pAddr.Some? != s.listener.Some?)
    requires IsSmoothRun(states, os) && states[0] == Next(s, TransferCommand)
    requires AtRest(states[|states| - 1], os) && o in os && CanSucceed(o)
    ensures var t := states[|states| - 1];
            && Running(t) && t.proto.Idle? && ModesOf(t) == Modes(None, false)
            && |t.grants| == |s.grants| + 1 && t.grants[..|s.grants|] == s.grants
            && t.grants[|s.grants|].handle.Some? && IsHandleOf(t.grants[|s.grants|].handle.value, os)
            && t.grants[|s.grants|].connectedTo == s.pAddr
  {
    hide Reachable, Inv, Next, Enabled, FromSockets, AtRest, IsHandleOf, IsSmoothStep, IsTransportRun;
    var last := |states| - 1;
    ReachableInv(s);
    TransferStarts(s, os);
    SmoothRunKeeps(states, last, os);
    RestIsIdle(states[last], os, o);
    SmoothIsTransport(states, os);
    TransferOutcome(s, states);
    TransferFromSockets(states, last, ModesOf(s), s.grants, os);
    LastGrantIsRight(states[last]);
  }

  lemma LastGrantIsRight(s: State)
    requires Inv(s) && Running(s) && s.grants != []
    ensures RightGrant(s.grants[|s.grants| - 1])
  {
    hide RightGrant, Channel, ProtoInRange;
  }

  // ---------------------------------------------------------------- completed PASV commands

  /** A PASV in progress, and one that has announced what it listens on. */
  ghost predicate Announced(s: State, port: Option<Addr>, os: set<Outcome>) {
    s.proto.Idle? ==>
      && s.listener.Some? && IsListenerOf(s.listener.value, os)
      && s.pasvPort == Some(s.listener.value.port) && s.pAddr == port
  }

  /** The second reply to a PASV, and what is announced. */
  lemma ListenReadAnnounces(s: State, n: nat, port: Option<Addr>, gs: seq<Grant>, os: set<Outcome>)
    requires Inv(s) && Enabled(s, ProtoReads(n)) && Listening(s, port, gs) && FromSockets(s, os)
    ensures Announced(ProtoRead(s, n), port, os)
  {
    hide Flatten, RequestFrames, History, Encode, Decode, IsListenerOf, IsHandleOf;
    ReadIsServed(s, n);
    if n == ProtoNeeds(s) {
      ReplyRead(s, Listen, n);
      IntFits(s.listener.value.port);
    }
  }

  lemma StepAnnounces(s: State, e: Event, port: Option<Addr>, gs: seq<Grant>, os: set<Outcome>)
    requires Inv(s) && Enabled(s, e) && IsSmooth(e, os) && Listening(s, port, gs) && FromSockets(s, os)
    ensures Announced(Next(s, e), port, os)
  {
    hide RequestFrames, ProtoRead, Inv, NobodyRead, NobodyWrote, NobodyNeeds, ProtoNeeds;
    match e {
      case ProtoWrites(n) =>
      case ProtoReads(n) => ListenReadAnnounces(s, n, port, gs, os);
      case _ => NobodyLeaves(s, e);
    }
  }

  lemma {:induction false} ListenAnnounces(states: seq<State>, i: nat, port: Option<Addr>, gs: seq<Grant>,
                                           os: set<Outcome>)
    requires IsSmoothRun(states, os) && i < |states|
    requires Inv(states[0]) && Running(states[0]) && FromSockets(states[0], os) && Listening(states[0], port, gs)
    ensures Announced(states[i], port, os)
    decreases i
  {
    hide Inv, Next, Enabled, Running, FromSockets, IsSmooth, Announced;
    if i == 0 {
      NotAnnounced(states[0], port, gs, os);
    } else {
      SmoothIsTransport(states, os);
      SmoothRunKeeps(states, i - 1, os);
      ListenRun(states, i - 1, port, gs);
      assert IsSmoothStep(states[i - 1], states[i], os);
      var e :| IsSmooth(e, os) && Enabled(states[i - 1], e) && states[i] == Next(states[i - 1], e);
      SmoothTransport(e, os);
      if Listening(states[i - 1], port, gs) {
        StepAnnounces(states[i - 1], e, port, gs, os);
      } else {
        NothingToMove(states[i - 1], e);
      }
    }
  }

  lemma NotAnnounced(s: State, port: Option<Addr>, gs: seq<Grant>, os: set<Outcome>)
    requires Listening(s, port, gs)
    ensures Announced(s, port, os)
  {}

  lemma PasvStarts(s: State, os: set<Outcome>)
    requires Inv(s) && Enabled(s, PasvCommand)
    ensures var t := Next(s, PasvCommand);
            Inv(t) && Running(t) && FromSockets(t, os) && Listening(t, s.pAddr, s.grants)
  {
    hide Inv, RequestFrames;
    NextKeeps(s, PasvCommand);
  }

  /**
   The same for a PASV command: no thread stops, and when nothing is left to read or write, the sockets
   listen, their port is the one announced, and a PORT that was active still is.
   */
  lemma PasvAnnounced(s: State, states: seq<State>, os: set<Outcome>, o: Outcome)
    requires Reachable(s) && Enabled(s, PasvCommand)
    requires IsSmoothRun(states, os) && states[0] == Next(s, PasvCommand)
    requires AtRest(states[|states| - 1], os) && o in os && CanSucceed(o)
    ensures var t := states[|states| - 1];
            && Running(t) && t.proto.Idle? && t.pAddr == s.pAddr
            && t.listener.Some? && IsListenerOf(t.listener.value, os)
            && t.pasvPort == Some(t.listener.value.port) && t.grants == s.grants
  {
    hide Reachable, Inv, Next, Enabled, FromSockets, AtRest, IsListenerOf, IsSmoothStep, IsTransportRun;
    var last := |states| - 1;
    ReachableInv(s);
    PasvStarts(s, os);
    SmoothRunKeeps(states, last, os);
    RestIsIdle(states[last], os, o);
    SmoothIsTransport(states, os);
    ListenRun(states, last, s.pAddr, s.grants);
    ListenAnnounces(states, last, s.pAddr, s.grants, os);
  }

  // ---------------------------------------------------------------- such runs exist

  /** Some step that goes on, when there is one. */
  lemma SomeStep(s: State, o: Outcome) returns (e: Event)
    requires Inv(s) && Running(s) && !s.proto.Idle? && CanSucceed(o)
    ensures IsSmooth(e, {o}) && Enabled(s, e)
  {
    hide Inv;
    RequestMoves(s);
    AnyOutcome(s, o);
    if Enabled(s, ProtoWrites(1)) {
      e := ProtoWrites(1);
    } else if Enabled(s, ProtoReads(1)) {
      e := ProtoReads(1);
    } else if Enabled(s, NobodyReads(1, o)) {
      e := NobodyReads(1, o);
    } else {
      e := NobodyWrites(1);
    }
  }

  lemma RunInFront(s: State, t: State, rest: seq<State>, os: set<Outcome>)
    requires IsSmoothStep(s, t, os) && IsSmoothRun(rest, os) && rest[0] == t
    ensures IsSmoothRun([s] + rest, os)
  {
    hide IsSmoothStep;
    var all := [s] + rest;
    forall k | 0 < k < |all|
      ensures IsSmoothStep(all[k - 1], all[k], os)
    {
      assert k > 1 ==> IsSmoothStep(rest[k - 2], rest[k - 1], os);
    }
  }

  lemma IdleRests(s: State, os: set<Outcome>)
    requires Inv(s) && s.proto.Idle?
    ensures AtRest(s, os)
  {
    hide Inv, Enabled;
    forall e | IsSmooth(e, os)
      ensures !Enabled(s, e)
    {
      NothingToMove(s, e);
    }
  }

  /** Reading and writing until nothing is left, with sockets that behave as o. */
  lemma {:induction false} Finish(s: State, o: Outcome) returns (states: seq<State>)
    requires Inv(s) && Running(s) && Reachable(s) && CanSucceed(o)
    ensures IsSmoothRun(states, {o}) && states[0] == s
    ensures AtRest(states[|states| - 1], {o}) && Reachable(states[|states| - 1])
    decreases Work(s)
  {
    hide Inv, Work, Next, Enabled, Running, Reachable, AtRest, IsSmooth, CanSucceed;
    if s.proto.Idle? {
      states := [s];
      IdleRests(s, {o});
    } else {
      var e := SomeStep(s, o);
      SmoothTransport(e, {o});
      TransportWorks(s, e);
      SmoothRuns(s, e, {o});
      Reaches(s, e);
      var rest := Finish(Next(s, e), o);
      states := [s] + rest;
      assert IsSmoothStep(s, Next(s, e), {o});
      RunInFront(s, Next(s, e), rest, {o});
    }
  }

  lemma OnlyHandle(fd: nat, o: Outcome)
    requires o.Done? && IsHandleOf(fd, {o})
    ensures fd == o.fd
  {}

  /** A transfer that is granted, from any reachable state with one mode active. */
  lemma SomeTransfer(s: State, o: Outcome) returns (t: State)
    requires Reachable(s) && Enabled(s, TransferCommand) && (s.pAddr.Some? != s.listener.Some?) && CanSucceed(o)
    ensures Reachable(t) && Running(t) && t.proto.Idle?
    ensures |t.grants| == |s.grants| + 1 && t.grants[|s.grants|].handle == Some(o.fd)
    ensures t.grants[|s.grants|].connectedTo == s.pAddr
  {
    hide Reachable, Inv, Next, Enabled, FromSockets, AtRest, IsSmoothRun, IsHandleOf;
    ReachableInv(s);
    TransferStarts(s, {o});
    Reaches(s, TransferCommand);
    var states := Finish(Next(s, TransferCommand), o);
    NonemptyRun(states, {o});
    TransferGranted(s, states, {o}, o);
    t := states[|states| - 1];
    OnlyHandle(t.grants[|s.grants|].handle.value, o);
  }

  lemma NonemptyRun(states: seq<State>, os: set<Outcome>)
    requires IsSmoothRun(states, os)
    ensures states != []
  {}

  /** From the start: PORT and a transfer, granted by a connection to the address of the argument. */
  lemma PortTransfer(v: seq<byte>, fd: nat) returns (t: State)
    requires |v| == 6 && fd < 0x1_0000_0000_0000_0000
    ensures Reachable(t) && Running(t) && t.proto.Idle? && |t.grants| == 1
    ensures t.grants[0].handle == Some(fd) && t.grants[0].connectedTo == Some(Addr(v[..4], MakeWord(v[4], v[5])))
  {
    hide Reachable, CommaText, DoPort, AsNats, RequestFrames, MakeWord;
    AtStart();
    var e := PortCommand(CommaText(AsNats(v)));
    PortCommandSets(INITIAL, v);
    Reaches(INITIAL, e);
    t := SomeTransfer(Next(INITIAL, e), Done(fd, 0));
  }

  /** From the start: PASV, announced at state s, and a transfer, granted by the accepted connection. */
  lemma PasvTransfer(listenFd: nat, port: word, fd: nat) returns (s: State, t: State)
    requires listenFd < 0x1_0000_0000_0000_0000 && fd < 0x1_0000_0000_0000_0000
    ensures Reachable(s) && s.pasvPort == Some(port) && s.listener == Some(Listener(listenFd, port))
    ensures Reachable(t) && Running(t) && t.proto.Idle? && |t.grants| == 1
    ensures t.grants[0].handle == Some(fd) && t.grants[0].connectedTo == None
  {
    hide Reachable, Inv, FromSockets, AtRest, IsSmoothRun, RequestFrames;
    var o := Done(listenFd, port);
    AtStart();
    InitialInv();
    PasvStarts(INITIAL, {o});
    Reaches(INITIAL, PasvCommand);
    var states := Finish(Next(INITIAL, PasvCommand), o);
    NonemptyRun(states, {o});
    PasvAnnounced(INITIAL, states, {o}, o);
    s := states[|states| - 1];
    OnlyListener(s.listener.value, o);
    t := SomeTransfer(s, Done(fd, 0));
  }

  lemma OnlyListener(l: Listener, o: Outcome)
    requires o.Done? && IsListenerOf(l, {o})
    ensures l == Listener(o.fd, o.port)
  {}
}
