/**
 The private channel between the protocol thread and the nobody thread: two byte queues, four kinds
 of request, and the PORT and PASV modes. Every write and read moves an arbitrary piece of a frame,
 so all interleavings and all fragmentations of the two threads are runs of this machine. A failed
 operation stops the thread that meets it; no step follows.
 */
module PrivChannel {
  import opened Basics
  import opened PrivFrames
  import Ipv4Text

  // ---------------------------------------------------------------- requests and their frames

  datatype Request = Active | GetData(addr: Addr) | Listen | Accept

  /** What the protocol thread sends for a request. */
  function RequestFrames(r: Request): (fs: seq<Frame>)
    ensures |fs| == (if r.GetData? then 4 else 1) && |fs[0]| == 1
  {
    match r
    case Active => [[PRIV_SOCK_PASV_ACTIVE]]
    case Listen => [[PRIV_SOCK_PASV_LISTEN]]
    case Accept => [[PRIV_SOCK_PASV_ACCEPT]]
    case GetData(addr) =>
      var ip := CharBytes(Ipv4Text.Dotted(addr.ip));
      [[PRIV_SOCK_GET_DATA_SOCK], Encode(|ip|, INT_SIZE), ip, Encode(addr.port, INT_SIZE)]
  }

  /** The sizes of the replies it then reads. */
  function ReplySizes(r: Request): seq<nat> {
    match r
    case Active => [INT_SIZE]
    case Listen => [1, INT_SIZE]
    case GetData(_) => [1, SOCKET_SIZE]
    case Accept => [1, SOCKET_SIZE]
  }

  // ---------------------------------------------------------------- states

  /** left: what is still to be written of frame k; got: what has been read of reply m. */
  datatype Proto =
    | Idle
    | Sending(req: Request, k: nat, left: Frame)
    | Receiving(req: Request, m: nat, got: Frame)
    | ProtoStopped

  /** Reading: item j of a request (command, text length, text, port). */
  datatype Nobody =
    | Reading(j: nat, got: Frame, len: nat, ip: Frame)
    | Replying(left: seq<Frame>)
    | NobodyStopped

  datatype Listener = Listener(fd: nat, port: word)

  /** The modes as they were when a transfer asked for its data connection. */
  datatype Modes = Modes(port: Option<Addr>, pasv: bool)

  /**
   How asking ended: the socket handle received, if a connection was granted, the handle the nobody
   thread had obtained last, the address it had connected to for a PORT, the argument of the last PORT
   command that succeeded, and the modes afterwards.
   */
  datatype Grant = Grant(
    before: Modes, handle: Option<nat>, obtained: nat, connectedTo: Option<Addr>, portArgs: Option<string>,
    after: Modes)

  datatype State = State(
    proto: Proto, nobody: Nobody, toNobody: Frame, toProto: Frame,
    pAddr: Option<Addr>, listener: Option<Listener>, pasvPort: Option<nat>,
    // history: the transfer in progress, whether the nobody thread has acted on the current request,
    // its reply frames, and what has happened so far
    transfer: Option<Modes>, served: bool, replies: seq<Frame>, connects: seq<Addr>, obtained: nat,
    portArgs: Option<string>, successes: nat, grants: seq<Grant>,
    sentToNobody: seq<Frame>, readByNobody: seq<Frame>, sentToProto: seq<Frame>, readByProto: seq<Frame>)

  const AT_COMMAND: Nobody := Reading(0, [], 0, [])

  /** `session_init` and both threads started. */
  const INITIAL: State :=
    State(Idle, AT_COMMAND, [], [], None, None, None, None, false, [], [], 0, None, 0, [], [], [], [], [])

  predicate Running(s: State) {
    !s.proto.ProtoStopped? && !s.nobody.NobodyStopped?
  }

  function ModesOf(s: State): Modes {
    Modes(s.pAddr, s.listener.Some?)
  }

  // ---------------------------------------------------------------- the protocol thread

  /** Starts sending a request. */
  function Ask(s: State, r: Request): State {
    s.(proto := Sending(r, 0, RequestFrames(r)[0]), served := false, replies := [],
       sentToNobody := s.sentToNobody + RequestFrames(r))
  }

  /** `writen` of the next n bytes; the frame after the last one is the first reply. */
  function ProtoWrote(s: State, n: nat): State
    requires s.proto.Sending? && n <= |s.proto.left|
  {
    var (req, k, left) := (s.proto.req, s.proto.k, s.proto.left[n..]);
    var t := s.(toNobody := s.toNobody + s.proto.left[..n]);
    if left != [] then t.(proto := Sending(req, k, left))
    else if k + 1 < |RequestFrames(req)| then t.(proto := Sending(req, k + 1, RequestFrames(req)[k + 1]))
    else t.(proto := Receiving(req, 0, []))
  }

  /** The end of `get_trans_data_fd`. */
  function EndTransfer(s: State, handle: Option<nat>, connectedTo: Option<Addr>): State {
    var before := if s.transfer.Some? then s.transfer.value else ModesOf(s);
    s.(proto := Idle, transfer := None,
       grants := s.grants + [Grant(before, handle, s.obtained, connectedTo, s.portArgs, ModesOf(s))])
  }

  /**
   What the protocol thread does with reply m once it is complete. A transfer with neither mode active
   or with both is refused, and the session goes on.
   */
  function ProtoGot(s: State, req: Request, m: nat, f: Frame): State {
    match req
    case Active =>
      var isPort, isPasv := s.pAddr.Some?, Decode(f) != 0;
      if isPort == isPasv then EndTransfer(s, None, None)
      else if isPort then Ask(s, GetData(s.pAddr.value))
      else Ask(s, Accept)
    case Listen =>
      if m == 0 then s.(proto := if f == [PRIV_SOCK_RESULT_BAD] then Idle else Receiving(req, 1, []))
      else s.(proto := Idle, pasvPort := Some(Decode(f) % 0x1_0000), successes := s.successes + 1)
    case _ =>
      if m == 0 then s.(proto := if f == [PRIV_SOCK_RESULT_BAD] then ProtoStopped else Receiving(req, 1, []))
      else if req.GetData? then
        EndTransfer(s.(pAddr := None), Some(Decode(f)),
                    if s.connects == [] then None else Some(s.connects[|s.connects| - 1]))
      else EndTransfer(s, Some(Decode(f)), None)
  }

  /** How many bytes the protocol thread waits for. */
  function ProtoNeeds(s: State): nat
    requires s.proto.Receiving?
  {
    var sizes := ReplySizes(s.proto.req);
    if s.proto.m < |sizes| && |s.proto.got| <= sizes[s.proto.m] then sizes[s.proto.m] - |s.proto.got| else 0
  }

  /** `readn` of the next n bytes. */
  function ProtoRead(s: State, n: nat): State
    requires s.proto.Receiving? && n <= |s.toProto| && n <= ProtoNeeds(s)
  {
    var got := s.proto.got + s.toProto[..n];
    var t := s.(toProto := s.toProto[n..]);
    if n < ProtoNeeds(s) then t.(proto := Receiving(s.proto.req, s.proto.m, got))
    else ProtoGot(t.(readByProto := s.readByProto + [got]), s.proto.req, s.proto.m, got)
  }

  // ---------------------------------------------------------------- the nobody thread

  /** How the sockets behave when the nobody thread uses them. */
  datatype Outcome = Done(fd: nat, port: word) | Broken

  predicate FitsHandle(o: Outcome) {
    o.Done? ==> o.fd < 0x1_0000_0000_0000_0000
  }

  function Reply(s: State, frames: seq<Frame>): State {
    s.(nobody := Replying(frames), served := true, replies := frames, sentToProto := s.sentToProto + frames)
  }

  function OkAnd(f: Frame): seq<Frame> {
    [[PRIV_SOCK_RESULT_OK], f]
  }

  /** The dispatch of `handle_nobody` on the command byte, with the handlers that need nothing more. */
  function NobodyCommand(s: State, f: Frame, o: Outcome): State {
    if f == [PRIV_SOCK_GET_DATA_SOCK] then s.(nobody := Reading(1, [], 0, []))
    else if f == [PRIV_SOCK_PASV_ACTIVE] then Reply(s, [Encode(if s.listener.Some? then 1 else 0, INT_SIZE)])
    else if f == [PRIV_SOCK_PASV_LISTEN] then
      match o
      case Broken => s.(nobody := NobodyStopped)
      case Done(fd, port) => Reply(s.(listener := Some(Listener(fd, port))), OkAnd(Encode(port, INT_SIZE)))
    else if f == [PRIV_SOCK_PASV_ACCEPT] then
      match o
      case Broken => s.(nobody := NobodyStopped, listener := None)
      case Done(fd, _) => Reply(s.(listener := None, obtained := fd), OkAnd(Encode(fd, SOCKET_SIZE)))
    else s.(nobody := NobodyStopped)
  }

  /** `privop_pasv_get_data_sock` from the port number on. */
  function NobodyConnect(s: State, ip: Frame, f: Frame, o: Outcome): State {
    if o.Broken? || |ip| > IP_BUFFER || TargetIp(ip) == None then s.(nobody := NobodyStopped)
    else
      Reply(s.(connects := s.connects + [Addr(TargetIp(ip).value, Decode(f) % 0x1_0000)], obtained := o.fd),
            OkAnd(Encode(o.fd, SOCKET_SIZE)))
  }

  /** What the nobody thread does with item j of a request once it is complete. */
  function NobodyGot(s: State, j: nat, f: Frame, len: nat, ip: Frame, o: Outcome): State {
    if j == 0 then NobodyCommand(s, f, o)
    else if j == 1 then
      if Decode(f) > IP_BUFFER then s.(nobody := NobodyStopped)
      else if Decode(f) == 0 then s.(nobody := Reading(3, [], 0, []))
      else s.(nobody := Reading(2, [], Decode(f), []))
    else if j == 2 then s.(nobody := Reading(3, [], len, f))
    else NobodyConnect(s, ip, f, o)
  }

  function ItemSize(j: nat, len: nat): nat {
    if j == 0 then 1 else if j == 2 then len else INT_SIZE
  }

  function NobodyNeeds(s: State): nat
    requires s.nobody.Reading?
  {
    var size := ItemSize(s.nobody.j, s.nobody.len);
    if |s.nobody.got| <= size then size - |s.nobody.got| else 0
  }

  function NobodyRead(s: State, n: nat, o: Outcome): State
    requires s.nobody.Reading? && n <= |s.toNobody| && n <= NobodyNeeds(s)
  {
    var (j, len, ip) := (s.nobody.j, s.nobody.len, s.nobody.ip);
    var got := s.nobody.got + s.toNobody[..n];
    var t := s.(toNobody := s.toNobody[n..]);
    if n < NobodyNeeds(s) then t.(nobody := Reading(j, got, len, ip))
    else NobodyGot(t.(readByNobody := s.readByNobody + [got]), j, got, len, ip, o)
  }

  function NobodyWrote(s: State, n: nat): State
    requires s.nobody.Replying? && s.nobody.left != [] && n <= |s.nobody.left[0]|
  {
    var (first, more) := (s.nobody.left[0], s.nobody.left[1..]);
    var t := s.(toProto := s.toProto + first[..n]);
    if n < |first| then t.(nobody := Replying([first[n..]] + more))
    else if more != [] then t.(nobody := Replying(more))
    else t.(nobody := AT_COMMAND)
  }

  // ---------------------------------------------------------------- steps and runs

  datatype Event =
    | PortCommand(args: string)
    | PasvCommand
    | TransferCommand
    | ProtoWrites(n: nat)
    | ProtoReads(n: nat)
    | NobodyReads(n: nat, outcome: Outcome)
    | NobodyWrites(n: nat)

  predicate Enabled(s: State, e: Event) {
    Running(s) &&
    match e
    case PortCommand(_) => s.proto.Idle?
    case PasvCommand => s.proto.Idle?
    case TransferCommand => s.proto.Idle?
    case ProtoWrites(n) => s.proto.Sending? && 1 <= n <= |s.proto.left|
    case ProtoReads(n) => s.proto.Receiving? && 1 <= n <= |s.toProto| && n <= ProtoNeeds(s)
    case NobodyReads(n, o) => s.nobody.Reading? && 1 <= n <= |s.toNobody| && n <= NobodyNeeds(s) && FitsHandle(o)
    case NobodyWrites(n) => s.nobody.Replying? && s.nobody.left != [] && 1 <= n <= |s.nobody.left[0]|
  }

  function Next(s: State, e: Event): State
    requires Enabled(s, e)
  {
    match e
    case PortCommand(args) =>
      var a := DoPort(args);
      if a.Some? then s.(pAddr := a, portArgs := Some(args), successes := s.successes + 1) else s
    case PasvCommand => Ask(s, Listen)
    case TransferCommand => Ask(s.(transfer := Some(ModesOf(s))), Active)
    case ProtoWrites(n) => ProtoWrote(s, n)
    case ProtoReads(n) => ProtoRead(s, n)
    case NobodyReads(n, o) => NobodyRead(s, n, o)
    case NobodyWrites(n) => NobodyWrote(s, n)
  }

  ghost predicate IsStep(a: State, b: State) {
    exists e :: Enabled(a, e) && b == Next(a, e)
  }

  /** The states of an interleaving, from the beginning on. */
  ghost predicate IsRun(states: seq<State>) {
    states != [] && states[0] == INITIAL && forall i :: 0 < i < |states| ==> IsStep(states[i - 1], states[i])
  }

  /** The states that some interleaving leads to. */
  ghost predicate Reachable(s: State) {
    exists states :: IsRun(states) && states[|states| - 1] == s
  }
}
