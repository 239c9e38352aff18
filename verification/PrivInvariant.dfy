/**
 What every step of the private channel keeps: the bytes under way are those of the request and of
 its replies, in order; the modes, the replies and the history of transfers agree.
 */
module PrivInvariant {
  import opened Basics
  import opened PrivFrames
  import opened PrivChannel
  import Ipv4Text

  function Flatten(fs: seq<Frame>): Frame {
    if fs == [] then [] else fs[0] + Flatten(fs[1..])
  }

  /** What is still to be written of the current request. */
  function Unsent(p: Proto): Frame {
    match p
    case Sending(req, k, left) => if k < |RequestFrames(req)| then left + Flatten(RequestFrames(req)[k + 1..]) else []
    case _ => []
  }

  /** The nobody thread knows from the items it has read what the next one is. */
  predicate Understood(req: Request, n: Nobody)
    requires n.Reading?
  {
    var fs := RequestFrames(req);
    && n.j < |fs| && |n.got| < |fs[n.j]| == ItemSize(n.j, n.len)
    && (n.j == 3 ==> n.ip == fs[2])
  }

  predicate ProtoInRange(p: Proto) {
    match p
    case Sending(req, k, left) => k < |RequestFrames(req)| && left != [] && |left| <= |RequestFrames(req)[k]|
    case Receiving(req, m, got) => m < |ReplySizes(req)| && |got| < ReplySizes(req)[m]
    case _ => true
  }

  /** The nobody thread has not acted on the request yet. */
  predicate Requesting(s: State, req: Request) {
    && s.nobody.Reading? && Understood(req, s.nobody)
    && s.nobody.got + s.toNobody + Unsent(s.proto) == Flatten(RequestFrames(req)[s.nobody.j..])
    && s.sentToNobody == s.readByNobody + RequestFrames(req)[s.nobody.j..]
    && s.toProto == [] && s.sentToProto == s.readByProto
    && (s.proto.Receiving? ==> s.proto.m == 0 && s.proto.got == [])
  }

  /** The replies have the sizes the protocol thread expects. */
  predicate RightSizes(req: Request, replies: seq<Frame>) {
    |replies| == |ReplySizes(req)| && forall i :: 0 <= i < |replies| ==> |replies[i]| == ReplySizes(req)[i]
  }

  /** The replies carry the right values. */
  predicate RightReplies(s: State, req: Request) {
    match req
    case Active => s.replies == [Encode(if s.listener.Some? then 1 else 0, INT_SIZE)]
    case Listen => s.listener.Some? && s.replies == OkAnd(Encode(s.listener.value.port, INT_SIZE))
    case GetData(addr) =>
      HandleSent(s) && s.connects != [] && s.connects[|s.connects| - 1] == addr
    case Accept => HandleSent(s) && s.listener == None
  }

  /** The replies carry the handle the nobody thread obtained. */
  predicate HandleSent(s: State) {
    s.replies == OkAnd(Encode(s.obtained, SOCKET_SIZE)) && s.obtained < 0x1_0000_0000_0000_0000
  }

  /** The frames the nobody thread has still to write. */
  function Unwritten(n: Nobody): seq<Frame> {
    if n.Replying? then n.left else []
  }

  /** The nobody thread has acted; its replies are under way. */
  predicate Served(s: State, req: Request) {
    && s.proto.Receiving? && (s.nobody.Replying? || s.nobody == AT_COMMAND)
    && (s.nobody.Replying? ==> s.nobody.left != [] && forall f :: f in s.nobody.left ==> f != [])
    && s.toNobody == [] && s.sentToNobody == s.readByNobody
    && RightSizes(req, s.replies) && RightReplies(s, req) && s.proto.m < |s.replies|
    && s.proto.got + s.toProto + Flatten(Unwritten(s.nobody)) == Flatten(s.replies[s.proto.m..])
    && s.sentToProto == s.readByProto + s.replies[s.proto.m..]
  }

  /** Which modes belong to which request of a transfer. */
  predicate RightTransfer(s: State, req: Request) {
    match req
    case Active => s.transfer == Some(ModesOf(s))
    case Listen => s.transfer == None
    case GetData(addr) => s.pAddr == Some(addr) && s.listener == None && s.transfer == Some(ModesOf(s))
    case Accept => s.pAddr == None && s.transfer == Some(Modes(None, true)) && (!s.served ==> s.listener.Some?)
  }

  /**
   A finished attempt: granted exactly when one of the two modes was active. A granted attempt leaves
   none active and, for a PORT, went to the address that the argument of the PORT command names; a
   refused one leaves the modes as they were.
   */
  predicate RightGrant(g: Grant) {
    && (g.handle.Some? <==> g.before.port.Some? != g.before.pasv)
    && g.after == (if g.handle.Some? then Modes(None, false) else g.before)
    && (g.handle.Some? ==> g.handle == Some(g.obtained))
    && g.connectedTo == (if g.handle.Some? then g.before.port else None)
    && (g.connectedTo.Some? ==> g.portArgs.Some? && DoPort(g.portArgs.value) == g.connectedTo)
  }

  function Granted(gs: seq<Grant>): (n: nat)
    ensures n <= |gs|
  {
    if gs == [] then 0 else Granted(gs[..|gs| - 1]) + if gs[|gs| - 1].handle.Some? then 1 else 0
  }

  function Bit(b: bool): nat { if b then 1 else 0 }

  predicate InRequest(s: State, isListen: bool) {
    match s.proto
    case Sending(req, _, _) => (if isListen then req.Listen? else req.Accept?)
    case Receiving(req, _, _) => (if isListen then req.Listen? else req.Accept?)
    case _ => false
  }

  /** Modes and connections are paid for by successful commands. */
  predicate PaidFor(s: State) {
    Granted(s.grants) + Bit(s.pAddr.Some?) + Bit(s.listener.Some?) + Bit(InRequest(s, false) && s.served)
    <= s.successes + Bit(InRequest(s, true) && s.served)
  }

  /** The port announced for PASV is the one being listened on. */
  predicate PortAnnounced(s: State) {
    !(InRequest(s, true) && s.served) && s.listener.Some? ==> s.pasvPort == Some(s.listener.value.port)
  }

  /** The address for the next transfer is the one the last PORT command named. */
  predicate PortNamed(s: State) {
    s.pAddr.Some? ==> s.portArgs.Some? && DoPort(s.portArgs.value) == s.pAddr
  }

  predicate History(s: State) {
    && (forall i :: 0 <= i < |s.grants| ==> RightGrant(s.grants[i]))
    && PaidFor(s) && PortAnnounced(s) && PortNamed(s)
  }

  predicate Quiet(s: State) {
    && s.nobody == AT_COMMAND && s.toNobody == [] && s.toProto == []
    && s.sentToNobody == s.readByNobody && s.sentToProto == s.readByProto
    && s.transfer == None
  }

  predicate Channel(s: State) {
    match s.proto
    case Idle => Quiet(s)
    case Sending(req, _, _) => !s.served && Requesting(s, req) && RightTransfer(s, req)
    case Receiving(req, _, _) =>
      (if s.served then Served(s, req) else Requesting(s, req)) && RightTransfer(s, req)
    case ProtoStopped => true
  }

  predicate Inv(s: State) {
    Running(s) ==> ProtoInRange(s.proto) && Channel(s) && History(s)
  }

  // ---------------------------------------------------------------- streams

  lemma FlattenStep(fs: seq<Frame>, j: nat)
    requires j < |fs|
    ensures Flatten(fs[j..]) == fs[j] + Flatten(fs[j + 1..])
  {
    assert fs[j..][1..] == fs[j + 1..];
  }

  /** The first bytes of a stream of frames are the first frame. */
  lemma FirstFrame(got: Frame, rest: Frame, fs: seq<Frame>, j: nat)
    requires j < |fs| && got + rest == Flatten(fs[j..]) && |got| == |fs[j]|
    ensures got == fs[j] && rest == Flatten(fs[j + 1..])
  {
    FlattenStep(fs, j);
    var a, b := got + rest, fs[j] + Flatten(fs[j + 1..]);
    assert got == a[..|got|] == b[..|got|] == fs[j];
    assert rest == a[|got|..] == b[|got|..] == Flatten(fs[j + 1..]);
  }

  lemma Shift(a: Frame, q: Frame, c: Frame, n: nat)
    requires n <= |q|
    ensures (a + q[..n]) + q[n..] + c == a + q + c
  {}

  lemma ShiftOut(a: Frame, q: Frame, c: Frame, d: Frame, n: nat)
    requires n <= |c|
    ensures a + (q + c[..n]) + (c[n..] + d) == a + q + (c + d)
  {}

  lemma NoFrames(fs: seq<Frame>)
    ensures Flatten(fs[|fs|..]) == [] && fs[|fs|..] == []
  {}

  lemma NonemptyFlatten(fs: seq<Frame>)
    requires fs != [] && fs[0] != []
    ensures Flatten(fs) != []
  {}

  // ---------------------------------------------------------------- steps of the protocol thread

  /** A request is started between requests. */
  lemma AskKeeps(s: State, r: Request)
    requires Quiet(s.(transfer := None))
    requires RightTransfer(s.(served := false), r) && Running(s) && !s.proto.Sending? && !s.proto.Receiving?
    ensures var t := Ask(s, r); ProtoInRange(t.proto) && Channel(t)
  {
    hide Flatten, RequestFrames;
    var fs := RequestFrames(r);
    FlattenStep(fs, 0);
    assert fs[0..] == fs;
    var t := Ask(s, r);
    assert [] + [] + Unsent(t.proto) == Flatten(fs[0..]);
  }

  lemma CommandKeeps(s: State, e: Event)
    requires Inv(s) && Enabled(s, e) && s.proto.Idle?
    requires e.PortCommand? || e.PasvCommand? || e.TransferCommand?
    ensures Inv(Next(s, e))
  {
    hide Flatten, RequestFrames, DoPort, Understood, RightGrant, Granted;
    match e {
      case PortCommand(_) =>
      case PasvCommand => AskKeeps(s, Listen);
      case TransferCommand => AskKeeps(s.(transfer := Some(ModesOf(s))), Active);
    }
  }

  lemma MoveBytes(q: Frame, left: Frame, d: Frame, n: nat)
    requires n <= |left|
    ensures (q + left[..n]) + (left[n..] + d) == q + (left + d)
    ensures n == |left| ==> left[n..] + d == d
  {}

  /** What is unsent behind frame k of a request. */
  function Behind(req: Request, k: nat): Frame
    requires k < |RequestFrames(req)|
  {
    Flatten(RequestFrames(req)[k + 1..])
  }

  /** A write that leaves a rest of the frame. */
  lemma WrotePart(s: State, n: nat)
    requires ProtoInRange(s.proto) && s.proto.Sending? && 1 <= n < |s.proto.left|
    ensures var p := ProtoWrote(s, n).proto;
            && p == Sending(s.proto.req, s.proto.k, s.proto.left[n..]) && ProtoInRange(p)
            && Unsent(p) == s.proto.left[n..] + Behind(s.proto.req, s.proto.k)
  {
    hide Flatten, RequestFrames;
  }

  /** A write that ends a frame: the next frame follows. */
  lemma WroteFrame(s: State, n: nat)
    requires ProtoInRange(s.proto) && s.proto.Sending? && n == |s.proto.left|
    requires s.proto.k + 1 < |RequestFrames(s.proto.req)|
    ensures var p := ProtoWrote(s, n).proto;
            && p.Sending? && p.req == s.proto.req && ProtoInRange(p)
            && Unsent(p) == Behind(s.proto.req, s.proto.k)
  {
    hide Flatten, RequestFrames;
    var k, fs := s.proto.k, RequestFrames(s.proto.req);
    FlattenStep(fs, k + 1);
    FramesNonempty(s.proto.req, k + 1);
  }

  /** A write that ends the request: the first reply follows. */
  lemma WroteRequest(s: State, n: nat)
    requires ProtoInRange(s.proto) && s.proto.Sending? && n == |s.proto.left|
    requires s.proto.k + 1 == |RequestFrames(s.proto.req)|
    ensures ProtoWrote(s, n).proto == Receiving(s.proto.req, 0, [])
    ensures ProtoInRange(ProtoWrote(s, n).proto) && Behind(s.proto.req, s.proto.k) == []
  {
    hide Flatten, RequestFrames;
    NoFrames(RequestFrames(s.proto.req));
  }

  lemma WroteBytes(s: State, n: nat)
    requires s.proto.Sending? && n <= |s.proto.left|
    ensures ProtoWrote(s, n).toNobody == s.toNobody + s.proto.left[..n]
  {
    hide RequestFrames;
  }

  lemma UnsentIs(p: Proto)
    requires ProtoInRange(p)
    ensures p.Sending? ==> Unsent(p) == p.left + Behind(p.req, p.k)
    ensures p.Receiving? ==> Unsent(p) == []
  {
    hide Flatten, RequestFrames;
  }

  /** A write moves bytes from what is unsent to the queue; what follows is the next frame, or the replies. */
  lemma WriteMoves(s: State, n: nat)
    requires ProtoInRange(s.proto) && s.proto.Sending? && 1 <= n <= |s.proto.left|
    ensures var t := ProtoWrote(s, n);
            && t.toNobody + Unsent(t.proto) == s.toNobody + Unsent(s.proto)
            && ProtoInRange(t.proto) && (t.proto.Sending? || t.proto.Receiving?) && t.proto.req == s.proto.req
            && (t.proto.Receiving? ==> t.proto == Receiving(s.proto.req, 0, []))
  {
    hide Flatten, RequestFrames, Behind, Unsent, ProtoWrote;
    UnsentIs(s.proto);
    WroteBytes(s, n);
    MoveBytes(s.toNobody, s.proto.left, Behind(s.proto.req, s.proto.k), n);
    if n < |s.proto.left| {
      WrotePart(s, n);
    } else if s.proto.k + 1 < |RequestFrames(s.proto.req)| {
      WroteFrame(s, n);
    } else {
      WroteRequest(s, n);
      UnsentIs(ProtoWrote(s, n).proto);
    }
  }

  lemma WriteKeeps(s: State, n: nat)
    requires Inv(s) && Enabled(s, ProtoWrites(n))
    ensures Inv(Next(s, ProtoWrites(n)))
  {
    hide Flatten, RequestFrames, Understood, Unsent, ProtoInRange, History, RightTransfer, RightReplies;
    var t := ProtoWrote(s, n);
    TransportOnly(s, t, s.proto.req);
    WriteMoves(s, n);
    assert s.nobody.got + (t.toNobody + Unsent(t.proto)) == s.nobody.got + t.toNobody + Unsent(t.proto);
    assert s.nobody.got + (s.toNobody + Unsent(s.proto)) == s.nobody.got + s.toNobody + Unsent(s.proto);
  }

  lemma FramesNonempty(req: Request, k: nat)
    requires k < |RequestFrames(req)|
    ensures RequestFrames(req)[k] != []
  {
    if req.GetData? {
      Ipv4Text.DottedLength(req.addr.ip);
    }
  }

  // ---------------------------------------------------------------- steps of the nobody thread

  /** What Requesting says once the request has been taken in completely: the request was sent completely too. */
  lemma RequestTaken(s: State, req: Request, rest: Frame)
    requires rest + Unsent(s.proto) == [] && ProtoInRange(s.proto)
    requires (s.proto.Sending? || s.proto.Receiving?) && s.proto.req == req
    ensures rest == [] && s.proto.Receiving?
  {}

  predicate Fresh(s: State, req: Request) {
    && s.proto == Receiving(req, 0, []) && !s.served && RightTransfer(s, req)
    && s.toNobody == [] && s.toProto == [] && s.sentToNobody == s.readByNobody && s.sentToProto == s.readByProto
    && History(s)
  }

  lemma ReplyKeeps(s: State, req: Request, t: State, frames: seq<Frame>)
    requires s.proto == Receiving(req, 0, []) && s.toNobody == [] && s.toProto == []
    requires s.sentToNobody == s.readByNobody && s.sentToProto == s.readByProto
    requires t == Reply(s, frames)
    requires RightSizes(req, frames) && RightReplies(t, req) && RightTransfer(t, req) && |frames| > 0
    requires forall i :: 0 <= i < |frames| ==> frames[i] != []
    ensures Channel(t) && ProtoInRange(t.proto)
  {
    hide Flatten, RightReplies, RightTransfer, RequestFrames;
    assert frames[0..] == frames;
    assert [] + [] + Flatten(Unwritten(t.nobody)) == Flatten(frames[0..]);
  }

  /** The dispatch on a command byte that was the whole request. */
  lemma CommandServed(s: State, req: Request, o: Outcome)
    requires Fresh(s, req) && !req.GetData? && FitsHandle(o)
    ensures Inv(NobodyCommand(s, RequestFrames(req)[0], o))
  {
    hide Flatten, RightGrant, Granted, DoPort, Encode;
    var t := NobodyCommand(s, RequestFrames(req)[0], o);
    if Running(t) {
      var acted := match req
        case Accept => s.(listener := None, obtained := t.obtained)
        case Listen => s.(listener := t.listener)
        case _ => s;
      ReplyKeeps(acted, req, t, t.replies);
    }
  }

  /** The connection the nobody thread makes for a PORT is to the address of the PORT command. */
  lemma ConnectServed(s: State, addr: Addr, o: Outcome)
    requires Fresh(s, GetData(addr)) && FitsHandle(o)
    ensures var fs := RequestFrames(GetData(addr));
            var t := NobodyConnect(s, fs[2], fs[3], o);
            Inv(t) && (Running(t) ==> t.connects == s.connects + [addr])
  {
    hide Flatten, RightGrant, Granted, DoPort, Encode, Decode, TargetIp, Ipv4Text.Dotted;
    var fs := RequestFrames(GetData(addr));
    DottedThroughBuffer(addr.ip);
    IntFits(addr.port);
    var t := NobodyConnect(s, fs[2], fs[3], o);
    if Running(t) {
      ReplyKeeps(s.(connects := t.connects, obtained := t.obtained), GetData(addr), t, t.replies);
    }
  }

  function ReqOf(p: Proto): Request
    requires p.Sending? || p.Receiving?
  {
    p.req
  }

  /** Moving bytes leaves modes, replies and history alone. */
  lemma TransportOnly(s: State, t: State, req: Request)
    requires t == s.(proto := t.proto, nobody := t.nobody, toNobody := t.toNobody, toProto := t.toProto,
                     readByNobody := t.readByNobody, readByProto := t.readByProto)
    requires InRequest(t, false) == InRequest(s, false) && InRequest(t, true) == InRequest(s, true)
    ensures History(s) == History(t) && RightTransfer(s, req) == RightTransfer(t, req)
    ensures RightReplies(s, req) == RightReplies(t, req)
  {
    hide RightGrant, Granted;
  }

  /** A read that does not complete an item moves bytes from the queue to the buffer. */
  lemma PartReadKeeps(s: State, n: nat, o: Outcome)
    requires Inv(s) && Enabled(s, NobodyReads(n, o)) && n < NobodyNeeds(s)
    ensures Inv(Next(s, NobodyReads(n, o)))
  {
    hide Flatten, RequestFrames, History, RightTransfer, RightReplies, NobodyGot;
    TransportOnly(s, NobodyRead(s, n, o), s.proto.req);
    Shift(s.nobody.got, s.toNobody, Unsent(s.proto), n);
  }

  /** The item that a completed read yields is the frame that was sent. */
  lemma ItemRead(s: State, req: Request, n: nat)
    requires Requesting(s, req) && n <= |s.toNobody| && n == NobodyNeeds(s)
    ensures var fs, j := RequestFrames(req), s.nobody.j;
            && j < |fs| && s.nobody.got + s.toNobody[..n] == fs[j]
            && s.toNobody[n..] + Unsent(s.proto) == Flatten(fs[j + 1..])
            && s.sentToNobody == (s.readByNobody + [fs[j]]) + fs[j + 1..]
  {
    hide Flatten, RequestFrames;
    var fs, j := RequestFrames(req), s.nobody.j;
    Shift(s.nobody.got, s.toNobody, Unsent(s.proto), n);
    var got, rest := s.nobody.got + s.toNobody[..n], s.toNobody[n..] + Unsent(s.proto);
    assert got + rest == got + s.toNobody[n..] + Unsent(s.proto);
    FirstFrame(got, rest, fs, j);
    assert fs[j..] == [fs[j]] + fs[j + 1..];
  }

  /** The state after taking in item j, before acting on it. */
  function Taken(s: State, n: nat): State
    requires s.nobody.Reading? && n <= |s.toNobody|
  {
    s.(toNobody := s.toNobody[n..], readByNobody := s.readByNobody + [s.nobody.got + s.toNobody[..n]])
  }

  /** After the last item the request is complete. */
  lemma LastItem(s: State, req: Request, n: nat)
    requires Inv(s) && Running(s) && !s.proto.Idle? && ReqOf(s.proto) == req && Requesting(s, req) && !s.served
    requires n <= |s.toNobody| && n == NobodyNeeds(s) && s.nobody.j + 1 == |RequestFrames(req)|
    ensures Fresh(Taken(s, n), req)
  {
    hide Flatten, RequestFrames, RightGrant, Granted;
    ItemRead(s, req, n);
    NoFrames(RequestFrames(req));
    RequestTaken(s, req, s.toNobody[n..]);
  }

  /** The four frames that ask for a connection. */
  lemma GetDataFrames(addr: Addr)
    ensures var fs := RequestFrames(GetData(addr));
            && fs[0] == [PRIV_SOCK_GET_DATA_SOCK] && |fs[1]| == |fs[3]| == INT_SIZE
            && Decode(fs[1]) == |fs[2]| && 7 <= |fs[2]| <= 15
  {
    hide Encode, Decode, Ipv4Text.Dotted;
    DottedThroughBuffer(addr.ip);
    IntFits(|CharBytes(Ipv4Text.Dotted(addr.ip))|);
  }

  /** Items in front of the last one only change what is read next. */
  lemma NextItem(s: State, addr: Addr, n: nat, o: Outcome)
    requires Inv(s) && Enabled(s, NobodyReads(n, o)) && n == NobodyNeeds(s)
    requires !s.proto.Idle? && ReqOf(s.proto) == GetData(addr) && Requesting(s, GetData(addr)) && !s.served
    requires s.nobody.j < 3
    ensures Inv(Next(s, NobodyReads(n, o)))
  {
    hide Flatten, History, RightTransfer, RightReplies, RequestFrames, Decode;
    ItemRead(s, GetData(addr), n);
    GetDataFrames(addr);
    var t := Next(s, NobodyReads(n, o));
    TransportOnly(s, t, GetData(addr));
    assert t.nobody.got + t.toNobody + Unsent(t.proto) == t.toNobody + Unsent(t.proto);
  }

  lemma NobodyReadKeeps(s: State, n: nat, o: Outcome)
    requires Inv(s) && Enabled(s, NobodyReads(n, o))
    ensures Inv(Next(s, NobodyReads(n, o)))
  {
    hide Flatten, RequestFrames, RightGrant, Granted, RightTransfer, NobodyCommand, NobodyConnect, TargetIp;
    if n < NobodyNeeds(s) {
      PartReadKeeps(s, n, o);
    } else {
      var req := ReqOf(s.proto);
      ItemRead(s, req, n);
      if s.nobody.j + 1 < |RequestFrames(req)| {
        NextItem(s, req.addr, n, o);
      } else {
        LastItem(s, req, n);
        if req.GetData? {
          ConnectServed(Taken(s, n), req.addr, o);
        } else {
          CommandServed(Taken(s, n), req, o);
        }
      }
    }
  }

  lemma NobodyWriteKeeps(s: State, n: nat)
    requires Inv(s) && Enabled(s, NobodyWrites(n))
    ensures Inv(Next(s, NobodyWrites(n)))
  {
    hide RequestFrames, History, RightTransfer, RightReplies;
    var (first, more) := (s.nobody.left[0], s.nobody.left[1..]);
    var t := NobodyWrote(s, n);
    TransportOnly(s, t, s.proto.req);
    assert Flatten(s.nobody.left) == first + Flatten(more);
    assert Served(s, s.proto.req);
    ShiftOut(s.proto.got, s.toProto, first, Flatten(more), n);
    var left := if n < |first| then [first[n..]] + more else more;
    if n < |first| {
      assert left[1..] == more;
    } else {
      assert first[n..] == [] && [] + Flatten(more) == Flatten(more);
    }
    assert Unwritten(t.nobody) == left;
    assert Flatten(left) == first[n..] + Flatten(more);
    assert forall f :: f in more ==> f in s.nobody.left;
    assert forall f :: f in left ==> f in more || f == first[n..];
  }

  // ---------------------------------------------------------------- replies

  lemma PartReplyKeeps(s: State, n: nat)
    requires Inv(s) && Enabled(s, ProtoReads(n)) && n < ProtoNeeds(s)
    ensures Inv(Next(s, ProtoReads(n)))
  {
    hide Flatten, RequestFrames, History, RightTransfer, RightReplies, ProtoGot;
    TransportOnly(s, ProtoRead(s, n), s.proto.req);
    Shift(s.proto.got, s.toProto, Flatten(Unwritten(s.nobody)), n);
  }

  /** The reply that a completed read yields is the frame that was sent. */
  lemma ReplyRead(s: State, req: Request, n: nat)
    requires s.proto.Receiving? && ProtoInRange(s.proto) && Served(s, req) && s.proto.req == req
    requires n <= |s.toProto| && n == ProtoNeeds(s)
    ensures var m := s.proto.m;
            && s.proto.got + s.toProto[..n] == s.replies[m]
            && s.toProto[n..] + Flatten(Unwritten(s.nobody)) == Flatten(s.replies[m + 1..])
            && s.sentToProto == (s.readByProto + [s.replies[m]]) + s.replies[m + 1..]
  {
    hide Flatten, RequestFrames, RightReplies;
    var m := s.proto.m;
    Shift(s.proto.got, s.toProto, Flatten(Unwritten(s.nobody)), n);
    var got, rest := s.proto.got + s.toProto[..n], s.toProto[n..] + Flatten(Unwritten(s.nobody));
    assert got + rest == got + s.toProto[n..] + Flatten(Unwritten(s.nobody));
    FirstFrame(got, rest, s.replies, m);
    assert s.replies[m..] == [s.replies[m]] + s.replies[m + 1..];
  }

  /** The state after taking in a reply, before acting on it. */
  function ReplyTaken(s: State, n: nat): State
    requires s.proto.Receiving? && n <= |s.toProto|
  {
    s.(toProto := s.toProto[n..], readByProto := s.readByProto + [s.proto.got + s.toProto[..n]])
  }

  /** After the last reply both queues are empty and the nobody thread waits for a command. */
  lemma LastReply(s: State, req: Request, n: nat)
    requires s.proto.Receiving? && ProtoInRange(s.proto) && Served(s, req) && s.proto.req == req
    requires n <= |s.toProto| && n == ProtoNeeds(s) && s.proto.m + 1 == |s.replies|
    ensures Quiet(ReplyTaken(s, n).(transfer := None))
  {
    hide Flatten, RequestFrames, RightReplies;
    ReplyRead(s, req, n);
    NoFrames(s.replies);
    if s.nobody.Replying? {
      assert s.nobody.left[0] in s.nobody.left;
      NonemptyFlatten(s.nobody.left);
    }
  }

  lemma GrantedAdd(gs: seq<Grant>, g: Grant)
    ensures Granted(gs + [g]) == Granted(gs) + Bit(g.handle.Some?)
  {
    assert (gs + [g])[..|gs|] == gs;
  }

  /** The end of an attempt: the modes are paid for, and the entry in the history is right. */
  lemma EndKeeps(s: State, handle: Option<nat>, to: Option<Addr>)
    requires Quiet(s.(transfer := None)) && (forall i :: 0 <= i < |s.grants| ==> RightGrant(s.grants[i]))
    requires PortAnnounced(s.(proto := Idle)) && PortNamed(s) && s.transfer.Some? && Running(s)
    requires RightGrant(Grant(s.transfer.value, handle, s.obtained, to, s.portArgs, ModesOf(s)))
    requires Granted(s.grants) + Bit(handle.Some?) + Bit(s.pAddr.Some?) + Bit(s.listener.Some?) <= s.successes
    ensures Inv(EndTransfer(s, handle, to))
  {
    hide RightGrant, Granted, DoPort;
    GrantedAdd(s.grants, Grant(s.transfer.value, handle, s.obtained, to, s.portArgs, ModesOf(s)));
  }

  /** What holds when a completed reply is about to be acted on. */
  predicate Answered(s: State, req: Request) {
    && Inv(s) && Running(s) && s.proto.Receiving? && s.proto.req == req && s.served
  }

  /** The answer to "is PASV active" decides between refusal, PORT and PASV. */
  lemma ActiveAnswered(s: State, n: nat)
    requires Answered(s, Active) && n <= |s.toProto| && n == ProtoNeeds(s)
    ensures Inv(ProtoGot(ReplyTaken(s, n), Active, 0, s.replies[0]))
  {
    hide Flatten, RequestFrames, RightGrant, Granted, DoPort, Encode, Decode;
    LastReply(s, Active, n);
    IntFits(if s.listener.Some? then 1 else 0);
    var u := ReplyTaken(s, n);
    assert PaidFor(u) && PortAnnounced(u.(proto := Idle));
    var isPort, isPasv := s.pAddr.Some?, s.listener.Some?;
    assert Decode(s.replies[0]) != 0 <==> isPasv;
    if isPort == isPasv {
      NothingGranted(s.transfer.value, s.obtained, s.portArgs);
      EndKeeps(u, None, None);
    } else if isPort {
      AskKeeps(u.(proto := Idle), GetData(s.pAddr.value));
    } else {
      AskKeeps(u.(proto := Idle), Accept);
    }
  }

  lemma NothingGranted(before: Modes, obtained: nat, portArgs: Option<string>)
    requires before.port.Some? == before.pasv
    ensures RightGrant(Grant(before, None, obtained, None, portArgs, before))
  {}

  /** A first reply only moves on to the second. */
  lemma ResultRead(s: State, req: Request, n: nat)
    requires Answered(s, req) && n <= |s.toProto| && n == ProtoNeeds(s) && !req.Active? && s.proto.m == 0
    ensures Inv(ProtoGot(ReplyTaken(s, n), req, 0, s.replies[0]))
  {
    hide Flatten, RequestFrames, RightGrant, Granted, DoPort, Encode;
    ReplyRead(s, req, n);
    assert s.replies[0] == [PRIV_SOCK_RESULT_OK];
    assert [] + s.toProto[n..] == s.toProto[n..];
  }

  /** PASV: the port that is announced is the one being listened on. */
  lemma ListenAnswered(s: State, n: nat)
    requires Answered(s, Listen) && n <= |s.toProto| && n == ProtoNeeds(s) && s.proto.m == 1
    ensures Inv(ProtoGot(ReplyTaken(s, n), Listen, 1, s.replies[1]))
  {
    hide Flatten, RequestFrames, RightGrant, Granted, DoPort, Encode, Decode;
    LastReply(s, Listen, n);
    IntFits(s.listener.value.port);
  }

  /** The socket handle arrives: the connection is granted and its mode is gone. */
  lemma HandleAnswered(s: State, req: Request, n: nat)
    requires Answered(s, req) && n <= |s.toProto| && n == ProtoNeeds(s) && s.proto.m == 1
    requires req.GetData? || req.Accept?
    ensures Inv(ProtoGot(ReplyTaken(s, n), req, 1, s.replies[1]))
  {
    hide Flatten, RequestFrames, Granted, DoPort, Encode, Decode;
    LastReply(s, req, n);
    HandleFits(s.obtained);
    var u := ReplyTaken(s, n);
    if req.GetData? {
      EndKeeps(u.(pAddr := None), Some(s.obtained), Some(s.connects[|s.connects| - 1]));
    } else {
      EndKeeps(u, Some(s.obtained), None);
    }
  }

  lemma ProtoReadKeeps(s: State, n: nat)
    requires Inv(s) && Enabled(s, ProtoReads(n))
    ensures Inv(Next(s, ProtoReads(n)))
  {
    hide Flatten, RequestFrames, RightGrant, Granted, RightReplies, RightTransfer, ProtoGot;
    if n < ProtoNeeds(s) {
      PartReplyKeeps(s, n);
    } else {
      var req := s.proto.req;
      ReplyRead(s, req, n);
      if req.Active? {
        ActiveAnswered(s, n);
      } else if s.proto.m == 0 {
        ResultRead(s, req, n);
      } else if req.Listen? {
        ListenAnswered(s, n);
      } else {
        HandleAnswered(s, req, n);
      }
    }
  }

  lemma NextKeeps(s: State, e: Event)
    requires Inv(s) && Enabled(s, e)
    ensures Inv(Next(s, e))
  {
    hide Inv, Next;
    match e {
      case ProtoWrites(n) => WriteKeeps(s, n);
      case ProtoReads(n) => ProtoReadKeeps(s, n);
      case NobodyReads(n, o) => NobodyReadKeeps(s, n, o);
      case NobodyWrites(n) => NobodyWriteKeeps(s, n);
      case _ => CommandKeeps(s, e);
    }
  }

  lemma InitialInv()
    ensures Inv(INITIAL)
  {}

  lemma {:induction false} RunKeeps(states: seq<State>, i: nat)
    requires IsRun(states) && i < |states|
    ensures Inv(states[i])
    decreases i
  {
    hide Inv, Next, Enabled;
    if i == 0 {
      InitialInv();
    } else {
      RunKeeps(states, i - 1);
      assert IsStep(states[i - 1], states[i]);
      var e :| Enabled(states[i - 1], e) && states[i] == Next(states[i - 1], e);
      NextKeeps(states[i - 1], e);
    }
  }

  /** The invariant holds in every state of every interleaving. */
  lemma ReachableInv(s: State)
    requires Reachable(s)
    ensures Inv(s)
  {
    hide Inv, IsStep;
    var states :| IsRun(states) && states[|states| - 1] == s;
    RunKeeps(states, |states| - 1);
  }
}
