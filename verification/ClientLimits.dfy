/**
 Client accounting as a state machine: accepts, recorded forks, limit checks in the children and
 reaps in the signal handler, in any order the main loop allows. Each event is one step: the signal
 handler does not run inside another one. A run ends where an assertion of the handler fails; which
 reaps these are is stated exactly. The tables are maps here; the module ClientAccounting keeps them
 in hash tables.
 */
module ClientLimits {
  import opened Basics

  const WRAP := 0x1_0000_0000

  const MAX_PID := 0x7FFF_FFFF

  /** `unsigned int` and `uint32_t`. */
  type uint32 = x: int | 0 <= x < 0x1_0000_0000

  /** Identifiers of child processes: positive values of `pid_t`. */
  type Pid = x: int | 0 < x <= 0x7FFF_FFFF witness 1

  function Inc(x: uint32): uint32 { (x + 1) % WRAP }

  function Dec(x: uint32): uint32 { (x - 1) % WRAP }

  datatype Verdict = Unchecked | Passed | Refused

  /** A live session: the counts are those copied into it when it was accepted. */
  datatype Session = Session(pid: Option<Pid>, ip: uint32, currClients: uint32, currIpClients: uint32, verdict: Verdict)

  /**
   The parent's variables, and the sessions that have been accepted and not yet reaped, in order of
   acceptance. A session without a pid has been counted but its fork is not recorded yet.
   */
  datatype State = State(
    maxClients: uint32, maxPerIp: uint32,
    numClients: uint32, perIp: map<uint32, uint32>, pidToIp: map<Pid, seq<uint32>>,
    sessions: seq<Session>)

  datatype Event = Accepted(ip: uint32) | Recorded(pid: Pid) | Checked(index: nat) | Reaped(pid: Pid)

  function Initial(maxClients: uint32, maxPerIp: uint32): State {
    State(maxClients, maxPerIp, 0, map[], map[], [])
  }

  function IpsOf(s: State, pid: Pid): seq<uint32> {
    if pid in s.pidToIp then s.pidToIp[pid] else []
  }

  /** `add_ip_to_hash`: the new count of an address. */
  function NextIpCount(s: State, ip: uint32): uint32 {
    if ip in s.perIp then Inc(s.perIp[ip]) else 1
  }

  /** `limit_num_clients`. */
  function Judge(s: State, v: Session): Verdict {
    if s.maxClients > 0 && v.currClients > s.maxClients then Refused
    else if s.maxPerIp > 0 && v.currIpClients > s.maxPerIp then Refused
    else Passed
  }

  predicate HasPending(s: State) {
    s.sessions != [] && s.sessions[|s.sessions| - 1].pid == None
  }

  predicate IsLive(s: State, pid: Pid) {
    exists i :: 0 <= i < |s.sessions| && s.sessions[i].pid == Some(pid)
  }

  function IndexOfPid(sessions: seq<Session>, pid: Pid): (i: nat)
    ensures i <= |sessions|
    ensures i < |sessions| ==> sessions[i].pid == Some(pid)
    ensures forall j :: 0 <= j < i ==> sessions[j].pid != Some(pid)
  {
    if sessions == [] || sessions[0].pid == Some(pid) then 0 else 1 + IndexOfPid(sessions[1..], pid)
  }

  /**
   When an event can happen: the main loop accepts only after recording the previous fork; a new
   pid is not that of a live child; only recorded children are reaped.
   */
  predicate Enabled(s: State, e: Event) {
    match e
    case Accepted(_) => !HasPending(s)
    case Recorded(pid) => HasPending(s) && !IsLive(s, pid)
    case Checked(i) => i < |s.sessions| && s.sessions[i].verdict == Unchecked
    case Reaped(pid) => IsLive(s, pid)
  }

  /** What `handle_sigchld` asserts about a reaped pid. */
  predicate AssertionsHold(s: State, pid: Pid) {
    IpsOf(s, pid) != [] && IpsOf(s, pid)[0] in s.perIp && s.perIp[IpsOf(s, pid)[0]] > 0
  }

  /** One event. A failed assertion would end the server; ReapAsserts shows that none of these reaps fails. */
  function Next(s: State, e: Event): State
    requires Enabled(s, e)
  {
    match e
    case Accepted(ip) =>
      var v := Session(None, ip, Inc(s.numClients), NextIpCount(s, ip), Unchecked);
      s.(numClients := Inc(s.numClients), perIp := s.perIp[ip := NextIpCount(s, ip)], sessions := s.sessions + [v])
    case Recorded(pid) =>
      var last := |s.sessions| - 1;
      s.(pidToIp := s.pidToIp[pid := [s.sessions[last].ip] + IpsOf(s, pid)],
         sessions := s.sessions[last := s.sessions[last].(pid := Some(pid))])
    case Checked(i) =>
      s.(sessions := s.sessions[i := s.sessions[i].(verdict := Judge(s, s.sessions[i]))])
    case Reaped(pid) =>
      if !AssertionsHold(s, pid) then s
      else
        var ip := IpsOf(s, pid)[0];
        s.(numClients := Dec(s.numClients), perIp := s.perIp[ip := Dec(s.perIp[ip])],
           pidToIp := s.pidToIp[pid := IpsOf(s, pid)[1..]],
           sessions := Without(s.sessions, IndexOfPid(s.sessions, pid)))
  }

  predicate ValidRun(s: State, events: seq<Event>)
    decreases |events|
  {
    events == [] || (Enabled(s, events[0]) && ValidRun(Next(s, events[0]), events[1..]))
  }

  function After(s: State, events: seq<Event>): State
    requires ValidRun(s, events)
    decreases |events|
  {
    if events == [] then s else After(Next(s, events[0]), events[1..])
  }

  // ---------------------------------------------------------------- the invariant

  function CountIp(sessions: seq<Session>, ip: uint32): (n: nat)
    ensures n <= |sessions|
  {
    if sessions == [] then 0
    else
      var last := |sessions| - 1;
      CountIp(sessions[..last], ip) + if sessions[last].ip == ip then 1 else 0
  }

  predicate DistinctPids(sessions: seq<Session>) {
    forall i, j :: 0 <= i < j < |sessions| && sessions[i].pid != None ==> sessions[i].pid != sessions[j].pid
  }

  /** Only the newest session may be without a pid. */
  predicate OnlyLastPending(sessions: seq<Session>) {
    forall i :: 0 <= i < |sessions| - 1 ==> sessions[i].pid != None
  }

  function IpCount(s: State, ip: uint32): uint32 {
    if ip in s.perIp then s.perIp[ip] else 0
  }

  /** The three counters agree with the sessions. */
  ghost predicate Counted(s: State) {
    && s.numClients == |s.sessions|
    && (forall ip: uint32 :: IpCount(s, ip) == CountIp(s.sessions, ip))
    && (forall pid: Pid ::
          var i := IndexOfPid(s.sessions, pid);
          IpsOf(s, pid) == if i < |s.sessions| then [s.sessions[i].ip] else [])
  }

  /** The counts a session carries bound what was accepted no later than it and still lives. */
  predicate Snapshots(sessions: seq<Session>) {
    forall i :: 0 <= i < |sessions| ==>
      sessions[i].currClients >= i + 1 && sessions[i].currIpClients >= CountIp(sessions[..i + 1], sessions[i].ip)
  }

  predicate Judged(s: State) {
    forall i :: 0 <= i < |s.sessions| && s.sessions[i].verdict == Passed ==> Judge(s, s.sessions[i]) == Passed
  }

  ghost predicate Inv(s: State) {
    && DistinctPids(s.sessions) && OnlyLastPending(s.sessions)
    && Counted(s) && Snapshots(s.sessions) && Judged(s)
  }

  // ---------------------------------------------------------------- counting

  lemma CountAdd(sessions: seq<Session>, v: Session, ip: uint32)
    ensures CountIp(sessions + [v], ip) == CountIp(sessions, ip) + if v.ip == ip then 1 else 0
  {
    assert (sessions + [v])[..|sessions|] == sessions;
  }

  /** Counts depend on the addresses only. */
  lemma {:induction false} CountSame(a: seq<Session>, b: seq<Session>, ip: uint32)
    requires |a| == |b| && forall i :: 0 <= i < |a| ==> a[i].ip == b[i].ip
    ensures CountIp(a, ip) == CountIp(b, ip)
    decreases |a|
  {
    if a != [] {
      CountSame(a[..|a| - 1], b[..|b| - 1], ip);
    }
  }

  lemma {:induction false} CountRemove(sessions: seq<Session>, i: nat, ip: uint32)
    requires i < |sessions|
    ensures CountIp(Without(sessions, i), ip) == CountIp(sessions, ip) - if sessions[i].ip == ip then 1 else 0
    decreases |sessions|
  {
    var last := |sessions| - 1;
    if i == last {
      assert Without(sessions, i) == sessions[..last];
    } else {
      CountRemove(sessions[..last], i, ip);
      var r := Without(sessions, i);
      assert r[..|r| - 1] == Without(sessions[..last], i);
    }
  }

  /** Distinct positive pids bound the number of recorded sessions. */
  lemma {:induction false} PidsBelow(sessions: seq<Session>, n: nat)
    requires forall i :: 0 <= i < |sessions| ==> sessions[i].pid.Some? && sessions[i].pid.value <= n
    requires DistinctPids(sessions)
    ensures |sessions| <= n
    decreases n
  {
    if sessions == [] {
      return;
    }
    var first := sessions[0].pid;
    if n == 0 {
      assert false;
    } else if exists i :: 0 <= i < |sessions| && sessions[i].pid == Some(n) {
      var i :| 0 <= i < |sessions| && sessions[i].pid == Some(n);
      var r := Without(sessions, i);
      assert forall j :: 0 <= j < |r| ==> r[j] == sessions[if j < i then j else j + 1];
      PidsBelow(r, n - 1);
    } else {
      PidsBelow(sessions, n - 1);
    }
  }

  /** Before an accept there are at most as many live sessions as there are pids, so no counter wraps. */
  lemma NoWrap(s: State)
    requires Inv(s) && !HasPending(s)
    ensures |s.sessions| <= MAX_PID && Inc(s.numClients) == |s.sessions| + 1
    ensures forall ip: uint32 :: NextIpCount(s, ip) == CountIp(s.sessions, ip) + 1
  {
    PidsBelow(s.sessions, MAX_PID);
  }

  // ---------------------------------------------------------------- every event keeps the invariant

  lemma IndexIs(sessions: seq<Session>, pid: Pid, i: nat)
    requires DistinctPids(sessions) && i < |sessions| && sessions[i].pid == Some(pid)
    ensures IndexOfPid(sessions, pid) == i
  {}

  lemma IndexIsNone(sessions: seq<Session>, pid: Pid)
    requires forall i :: 0 <= i < |sessions| ==> sessions[i].pid != Some(pid)
    ensures IndexOfPid(sessions, pid) == |sessions|
  {}

  /** A new session carries the counts at its acceptance. */
  lemma SnapshotsAdd(sessions: seq<Session>, v: Session)
    requires Snapshots(sessions)
    requires v.currClients >= |sessions| + 1 && v.currIpClients >= CountIp(sessions, v.ip) + 1
    ensures Snapshots(sessions + [v])
  {
    hide CountIp;
    var all, n := sessions + [v], |sessions|;
    CountAdd(sessions, v, v.ip);
    forall i | 0 <= i <= n
      ensures all[i].currClients >= i + 1 && all[i].currIpClients >= CountIp(all[..i + 1], all[i].ip)
    {
      assert all[..i + 1] == if i < n then sessions[..i + 1] else all;
    }
  }

  lemma AcceptKeeps(s: State, ip: uint32)
    requires Inv(s) && Enabled(s, Accepted(ip))
    ensures Inv(Next(s, Accepted(ip)))
  {
    hide CountIp, IndexOfPid, Snapshots;
    NoWrap(s);
    var t := Next(s, Accepted(ip));
    var n := |s.sessions|;
    SnapshotsAdd(s.sessions, t.sessions[n]);
    forall a: uint32
      ensures IpCount(t, a) == CountIp(t.sessions, a)
    {
      CountAdd(s.sessions, t.sessions[n], a);
    }
    forall pid: Pid
      ensures var i := IndexOfPid(t.sessions, pid);
              IpsOf(t, pid) == if i < |t.sessions| then [t.sessions[i].ip] else []
    {
      var i := IndexOfPid(s.sessions, pid);
      if i < n {
        IndexIs(t.sessions, pid, i);
      } else {
        IndexIsNone(t.sessions, pid);
      }
    }
  }

  lemma RecordKeeps(s: State, pid: Pid)
    requires Inv(s) && Enabled(s, Recorded(pid))
    ensures Inv(Next(s, Recorded(pid)))
  {
    hide CountIp, IndexOfPid, Snapshots;
    SameIpsKeep(s, Next(s, Recorded(pid)));
    RecordedPids(s, pid);
  }

  /** The table finds the new pid, and the others as before. */
  lemma RecordedPids(s: State, pid: Pid)
    requires Inv(s) && Enabled(s, Recorded(pid))
    ensures var t := Next(s, Recorded(pid));
            && DistinctPids(t.sessions)
            && forall p: Pid ::
                 var i := IndexOfPid(t.sessions, p);
                 IpsOf(t, p) == if i < |t.sessions| then [t.sessions[i].ip] else []
  {
    hide CountIp, IndexOfPid, Snapshots, Judged;
    var t := Next(s, Recorded(pid));
    var last := |s.sessions| - 1;
    forall p: Pid
      ensures var i := IndexOfPid(t.sessions, p);
              IpsOf(t, p) == if i < |t.sessions| then [t.sessions[i].ip] else []
    {
      var i := IndexOfPid(s.sessions, p);
      if p == pid {
        IndexIs(t.sessions, pid, last);
      } else if i < |s.sessions| {
        IndexIs(t.sessions, p, i);
      } else {
        IndexIsNone(t.sessions, p);
      }
    }
  }

  /** Steps that change only pids and verdicts keep the counts. */
  lemma SameIpsKeep(s: State, t: State)
    requires |s.sessions| == |t.sessions| && s.perIp == t.perIp && s.numClients == t.numClients
    requires forall i :: 0 <= i < |s.sessions| ==>
               && s.sessions[i].ip == t.sessions[i].ip && s.sessions[i].currClients == t.sessions[i].currClients
               && s.sessions[i].currIpClients == t.sessions[i].currIpClients
    requires Counted(s) && Snapshots(s.sessions)
    ensures Snapshots(t.sessions)
    ensures t.numClients == |t.sessions| && forall ip: uint32 :: IpCount(t, ip) == CountIp(t.sessions, ip)
  {
    hide CountIp;
    forall ip: uint32
      ensures IpCount(t, ip) == CountIp(t.sessions, ip)
    {
      CountSame(s.sessions, t.sessions, ip);
    }
    forall i | 0 <= i < |t.sessions|
      ensures t.sessions[i].currIpClients >= CountIp(t.sessions[..i + 1], t.sessions[i].ip)
    {
      CountSame(s.sessions[..i + 1], t.sessions[..i + 1], t.sessions[i].ip);
    }
  }

  lemma CheckKeeps(s: State, k: nat)
    requires Inv(s) && Enabled(s, Checked(k))
    ensures Inv(Next(s, Checked(k)))
  {
    hide CountIp, IndexOfPid;
    var t := Next(s, Checked(k));
    SameIpsKeep(s, t);
    forall p: Pid
      ensures var i := IndexOfPid(t.sessions, p);
              IpsOf(t, p) == if i < |t.sessions| then [t.sessions[i].ip] else []
    {
      var i := IndexOfPid(s.sessions, p);
      if i < |s.sessions| {
        IndexIs(t.sessions, p, i);
      } else {
        IndexIsNone(t.sessions, p);
      }
    }
  }

  lemma {:induction false} CountPositive(sessions: seq<Session>, i: nat)
    requires i < |sessions|
    ensures CountIp(sessions, sessions[i].ip) > 0
    decreases |sessions|
  {
    if i < |sessions| - 1 {
      CountPositive(sessions[..|sessions| - 1], i);
    }
  }

  /**
   Both assertions of `handle_sigchld` hold for exactly the children that are recorded and live; for any
   other it is the first that fails.
   */
  lemma ReapAsserts(s: State, pid: Pid)
    requires Inv(s)
    ensures AssertionsHold(s, pid) <==> IsLive(s, pid)
    ensures IpsOf(s, pid) != [] <==> IsLive(s, pid)
    ensures IsLive(s, pid) ==>
              && IndexOfPid(s.sessions, pid) < |s.sessions|
              && IpsOf(s, pid) == [s.sessions[IndexOfPid(s.sessions, pid)].ip]
              && s.numClients > 0
  {
    var i := IndexOfPid(s.sessions, pid);
    if i < |s.sessions| {
      CountPositive(s.sessions, i);
      assert IpCount(s, s.sessions[i].ip) == CountIp(s.sessions, s.sessions[i].ip);
    } else {
      assert IpsOf(s, pid) == [];
    }
  }

  lemma SnapshotsAfterRemove(sessions: seq<Session>, i: nat)
    requires i < |sessions| && Snapshots(sessions)
    ensures Snapshots(Without(sessions, i))
  {
    hide CountIp;
    var r := Without(sessions, i);
    forall j | 0 <= j < |r|
      ensures r[j].currClients >= j + 1 && r[j].currIpClients >= CountIp(r[..j + 1], r[j].ip)
    {
      if j < i {
        assert r[j] == sessions[j] && r[..j + 1] == sessions[..j + 1];
      } else {
        assert r[j] == sessions[j + 1] && r[..j + 1] == Without(sessions[..j + 2], i);
        CountRemove(sessions[..j + 2], i, r[j].ip);
      }
    }
  }

  lemma PidsAfterRemove(sessions: seq<Session>, i: nat)
    requires i < |sessions| && DistinctPids(sessions) && OnlyLastPending(sessions)
    ensures DistinctPids(Without(sessions, i)) && OnlyLastPending(Without(sessions, i))
    ensures forall pid: Pid ::
              var r, j, k := Without(sessions, i), IndexOfPid(sessions, pid), IndexOfPid(Without(sessions, i), pid);
              if j == i || j == |sessions| then k == |r| else k < |r| && r[k] == sessions[j]
  {
    hide IndexOfPid;
    var r := Without(sessions, i);
    assert forall j :: 0 <= j < |r| ==> r[j] == sessions[if j < i then j else j + 1];
    forall pid: Pid
      ensures var j, k := IndexOfPid(sessions, pid), IndexOfPid(r, pid);
              if j == i || j == |sessions| then k == |r| else k < |r| && r[k] == sessions[j]
    {
      var j := IndexOfPid(sessions, pid);
      if j == i || j == |sessions| {
        IndexIsNone(r, pid);
      } else {
        var k := if j < i then j else j - 1;
        assert r[k] == sessions[j];
        IndexIs(r, pid, k);
      }
    }
  }

  lemma ReapCounted(s: State, pid: Pid)
    requires Inv(s) && Enabled(s, Reaped(pid))
    ensures Counted(Next(s, Reaped(pid)))
  {
    hide CountIp, IndexOfPid, Snapshots, Judged;
    ReapAsserts(s, pid);
    var i := IndexOfPid(s.sessions, pid);
    var t := Next(s, Reaped(pid));
    PidsAfterRemove(s.sessions, i);
    forall ip: uint32
      ensures IpCount(t, ip) == CountIp(t.sessions, ip)
    {
      CountRemove(s.sessions, i, ip);
    }
    forall p: Pid
      ensures var k := IndexOfPid(t.sessions, p);
              IpsOf(t, p) == if k < |t.sessions| then [t.sessions[k].ip] else []
    {
      var j := IndexOfPid(s.sessions, p);
      assert j == i ==> p == pid;
    }
  }

  lemma ReapKeeps(s: State, pid: Pid)
    requires Inv(s) && Enabled(s, Reaped(pid))
    ensures Inv(Next(s, Reaped(pid)))
  {
    hide CountIp, IndexOfPid, Judge, Counted;
    ReapAsserts(s, pid);
    ReapCounted(s, pid);
    var i := IndexOfPid(s.sessions, pid);
    var t := Next(s, Reaped(pid));
    PidsAfterRemove(s.sessions, i);
    SnapshotsAfterRemove(s.sessions, i);
    assert forall j :: 0 <= j < |t.sessions| ==> t.sessions[j] == s.sessions[if j < i then j else j + 1];
    JudgeSame(s, t);
  }

  lemma JudgeSame(s: State, t: State)
    requires s.maxClients == t.maxClients && s.maxPerIp == t.maxPerIp
    ensures forall v :: Judge(s, v) == Judge(t, v)
  {}

  lemma InitialInv(maxClients: uint32, maxPerIp: uint32)
    ensures Inv(Initial(maxClients, maxPerIp))
  {}

  lemma NextKeeps(s: State, e: Event)
    requires Inv(s) && Enabled(s, e)
    ensures Inv(Next(s, e))
  {
    match e {
      case Accepted(ip) => AcceptKeeps(s, ip);
      case Recorded(pid) => RecordKeeps(s, pid);
      case Checked(i) => CheckKeeps(s, i);
      case Reaped(pid) => ReapKeeps(s, pid);
    }
  }

  lemma {:induction false} RunKeeps(s: State, events: seq<Event>)
    requires Inv(s) && ValidRun(s, events)
    ensures Inv(After(s, events))
    decreases |events|
  {
    if events != [] {
      NextKeeps(s, events[0]);
      RunKeeps(Next(s, events[0]), events[1..]);
    }
  }

  // ---------------------------------------------------------------- what holds over every run

  function CountRecorded(sessions: seq<Session>): (n: nat)
    ensures n <= |sessions|
  {
    if sessions == [] then 0
    else CountRecorded(sessions[..|sessions| - 1]) + if sessions[|sessions| - 1].pid.Some? then 1 else 0
  }

  lemma {:induction false} AllRecorded(sessions: seq<Session>)
    requires forall i :: 0 <= i < |sessions| ==> sessions[i].pid.Some?
    ensures CountRecorded(sessions) == |sessions|
    decreases |sessions|
  {
    if sessions != [] {
      AllRecorded(sessions[..|sessions| - 1]);
    }
  }

  /**
   In every reachable state the client count is the number of recorded live children plus the
   pending one, each address has its number of live sessions, and a reaped child meets the assertions
   of the signal handler if and only if its pid is recorded and it has not been reaped before.
   */
  lemma CountersAgree(maxClients: uint32, maxPerIp: uint32, events: seq<Event>)
    requires ValidRun(Initial(maxClients, maxPerIp), events)
    ensures var s := After(Initial(maxClients, maxPerIp), events);
            && s.numClients == CountRecorded(s.sessions) + (if HasPending(s) then 1 else 0)
            && (forall ip: uint32 :: IpCount(s, ip) == CountIp(s.sessions, ip))
            && (forall pid: Pid :: AssertionsHold(s, pid) <==> IsLive(s, pid))
  {
    var i := Initial(maxClients, maxPerIp);
    InitialInv(maxClients, maxPerIp);
    RunKeeps(i, events);
    var s := After(i, events);
    var n := |s.sessions|;
    if HasPending(s) {
      AllRecorded(s.sessions[..n - 1]);
    } else {
      AllRecorded(s.sessions);
    }
    forall pid: Pid
      ensures AssertionsHold(s, pid) <==> IsLive(s, pid)
    {
      ReapAsserts(s, pid);
    }
  }

  /**
   A child that exits before its pid is recorded fails an assertion: in every reachable state, for
   whichever pid is about to be recorded; so after the very first accept, for every pid.
   */
  lemma EarlyExitFails(maxClients: uint32, maxPerIp: uint32, events: seq<Event>, pid: Pid)
    requires ValidRun(Initial(maxClients, maxPerIp), events)
    requires Enabled(After(Initial(maxClients, maxPerIp), events), Recorded(pid))
    ensures !AssertionsHold(After(Initial(maxClients, maxPerIp), events), pid)
  {
    InitialInv(maxClients, maxPerIp);
    RunKeeps(Initial(maxClients, maxPerIp), events);
    ReapAsserts(After(Initial(maxClients, maxPerIp), events), pid);
  }

  lemma EarlyExitInstance(maxClients: uint32, maxPerIp: uint32, ip: uint32, pid: Pid)
    ensures var s, run := Initial(maxClients, maxPerIp), [Accepted(ip)];
            ValidRun(s, run) && Enabled(After(s, run), Recorded(pid)) && !AssertionsHold(After(s, run), pid)
  {
    var s, run := Initial(maxClients, maxPerIp), [Accepted(ip)];
    assert run[1..] == [];
    EarlyExitFails(maxClients, maxPerIp, run, pid);
  }

  function CountPassed(sessions: seq<Session>): (n: nat)
    ensures n <= |sessions|
  {
    if sessions == [] then 0
    else CountPassed(sessions[..|sessions| - 1]) + if sessions[|sessions| - 1].verdict == Passed then 1 else 0
  }

  function CountPassedIp(sessions: seq<Session>, ip: uint32): nat {
    if sessions == [] then 0
    else
      var v := sessions[|sessions| - 1];
      CountPassedIp(sessions[..|sessions| - 1], ip) + if v.verdict == Passed && v.ip == ip then 1 else 0
  }

  lemma {:induction false} PassedIpIsCounted(sessions: seq<Session>, ip: uint32)
    ensures CountPassedIp(sessions, ip) <= CountIp(sessions, ip)
    decreases |sessions|
  {
    if sessions != [] {
      PassedIpIsCounted(sessions[..|sessions| - 1], ip);
    }
  }

  /** The newest session that passed bounds all that passed before it. */
  lemma {:induction false} PassedWithin(s: State, n: nat)
    requires Snapshots(s.sessions) && Judged(s) && n <= |s.sessions|
    ensures s.maxClients > 0 ==> CountPassed(s.sessions[..n]) <= s.maxClients
    ensures s.maxPerIp > 0 ==> forall ip: uint32 :: CountPassedIp(s.sessions[..n], ip) <= s.maxPerIp
    decreases n
  {
    if n > 0 {
      PassedWithin(s, n - 1);
      var a, v := s.sessions[..n], s.sessions[n - 1];
      assert a[..n - 1] == s.sessions[..n - 1];
      PassedIpIsCounted(a, v.ip);
      assert s.sessions[..(n - 1) + 1] == a;
    }
  }

  /**
   In every reachable state the live sessions that passed the limit check number at most
   `max_clients` in all and `max_per_ip` per address, when those are not zero.
   */
  lemma LimitsHold(maxClients: uint32, maxPerIp: uint32, events: seq<Event>)
    requires ValidRun(Initial(maxClients, maxPerIp), events)
    ensures var s := After(Initial(maxClients, maxPerIp), events);
            && (maxClients > 0 ==> CountPassed(s.sessions) <= maxClients)
            && (maxPerIp > 0 ==> forall ip: uint32 :: CountPassedIp(s.sessions, ip) <= maxPerIp)
  {
    var i := Initial(maxClients, maxPerIp);
    InitialInv(maxClients, maxPerIp);
    RunKeeps(i, events);
    var s := After(i, events);
    LimitsStay(i, events);
    PassedWithin(s, |s.sessions|);
    assert s.sessions[..|s.sessions|] == s.sessions;
  }

  lemma {:induction false} LimitsStay(s: State, events: seq<Event>)
    requires ValidRun(s, events)
    ensures After(s, events).maxClients == s.maxClients && After(s, events).maxPerIp == s.maxPerIp
    decreases |events|
  {
    if events != [] {
      LimitsStay(Next(s, events[0]), events[1..]);
    }
  }

  /**
   The counts an accepted session carries are exact in every reachable state: all live sessions and
   itself. So a session for which there is room passes the check.
   */
  lemma RoomMeansPass(maxClients: uint32, maxPerIp: uint32, events: seq<Event>, ip: uint32)
    requires ValidRun(Initial(maxClients, maxPerIp), events)
    requires Enabled(After(Initial(maxClients, maxPerIp), events), Accepted(ip))
    ensures var s := After(Initial(maxClients, maxPerIp), events);
            var v := Next(s, Accepted(ip)).sessions[|s.sessions|];
            && v.currClients == |s.sessions| + 1 && v.currIpClients == CountIp(s.sessions, ip) + 1
            && (Judge(s, v) == Passed <==>
                  (maxClients == 0 || |s.sessions| < maxClients)
                  && (maxPerIp == 0 || CountIp(s.sessions, ip) < maxPerIp))
  {
    hide CountIp, IndexOfPid;
    var i := Initial(maxClients, maxPerIp);
    InitialInv(maxClients, maxPerIp);
    RunKeeps(i, events);
    LimitsStay(i, events);
    NoWrap(After(i, events));
  }

  // ---------------------------------------------------------------- what each event does to the sessions

  /** An accepted session is pending, and is the only new one. */
  lemma AcceptAdds(s: State, ip: uint32)
    requires Inv(s) && Enabled(s, Accepted(ip))
    ensures var t := Next(s, Accepted(ip));
            && |t.sessions| == |s.sessions| + 1 && t.sessions[..|s.sessions|] == s.sessions
            && t.sessions[|s.sessions|].ip == ip && HasPending(t) && t.numClients == s.numClients + 1
            && forall pid: Pid :: IsLive(t, pid) <==> IsLive(s, pid)
  {
    hide Inv, Counted;
    NoWrap(s);
    var t := Next(s, Accepted(ip));
    forall pid: Pid
      ensures IsLive(t, pid) <==> IsLive(s, pid)
    {
      assert forall i :: 0 <= i < |s.sessions| ==> t.sessions[i] == s.sessions[i];
    }
  }

  /** A recorded pid belongs to the pending session, which then is live and pending no more. */
  lemma RecordMakesLive(s: State, pid: Pid)
    requires Enabled(s, Recorded(pid))
    ensures var t, last := Next(s, Recorded(pid)), |s.sessions| - 1;
            && t.sessions == s.sessions[last := s.sessions[last].(pid := Some(pid))]
            && t.numClients == s.numClients && !HasPending(t) && IsLive(t, pid)
            && forall p: Pid :: p != pid ==> (IsLive(t, p) <==> IsLive(s, p))
  {
    var t, last := Next(s, Recorded(pid)), |s.sessions| - 1;
    assert t.sessions[last].pid == Some(pid);
    forall p: Pid | p != pid
      ensures IsLive(t, p) <==> IsLive(s, p)
    {
      assert forall i :: 0 <= i < last ==> t.sessions[i] == s.sessions[i];
    }
  }

  /** Taking one session out leaves the pids of the others. */
  lemma PidsWithout(sessions: seq<Session>, i: nat, pid: Pid)
    requires i < |sessions| && sessions[i].pid != Some(pid)
    ensures (exists j :: 0 <= j < |sessions| && sessions[j].pid == Some(pid))
            <==> (exists j :: 0 <= j < |sessions| - 1 && Without(sessions, i)[j].pid == Some(pid))
  {
    var r := Without(sessions, i);
    if j :| 0 <= j < |sessions| && sessions[j].pid == Some(pid) {
      assert r[if j < i then j else j - 1] == sessions[j];
    }
    if j :| 0 <= j < |r| && r[j].pid == Some(pid) {
      assert r[j] == sessions[if j < i then j else j + 1];
    }
  }

  lemma OnlyOne(s: State, pid: Pid, i: nat)
    requires Inv(s) && i < |s.sessions| && s.sessions[i].pid == Some(pid)
    ensures forall j :: 0 <= j < |s.sessions| - 1 ==> Without(s.sessions, i)[j].pid != Some(pid)
  {
    hide Counted;
    var r := Without(s.sessions, i);
    assert forall j :: 0 <= j < |r| ==> r[j] == s.sessions[if j < i then j else j + 1];
  }

  /** A reaped child is gone, one client less is counted, and all others live on. */
  lemma ReapRemoves(s: State, pid: Pid)
    requires Inv(s) && Enabled(s, Reaped(pid))
    ensures var t := Next(s, Reaped(pid));
            && |t.sessions| == |s.sessions| - 1 && t.numClients == s.numClients - 1 && !IsLive(t, pid)
            && forall p: Pid :: p != pid ==> (IsLive(t, p) <==> IsLive(s, p))
  {
    hide IndexOfPid, Inv, Without, AssertionsHold, IpsOf;
    ReapAsserts(s, pid);
    var i := IndexOfPid(s.sessions, pid);
    var t := Next(s, Reaped(pid));
    assert t.sessions == Without(s.sessions, i);
    WithoutLength(s.sessions, i);
    OnlyOne(s, pid, i);
    forall p: Pid | p != pid
      ensures IsLive(t, p) <==> IsLive(s, p)
    {
      PidsWithout(s.sessions, i, p);
    }
  }

  lemma WithoutLength(sessions: seq<Session>, i: nat)
    requires i < |sessions|
    ensures |Without(sessions, i)| == |sessions| - 1
  {}

  // ---------------------------------------------------------------- verdicts

  /**
   What the check records, in every reachable state: a session is passed if and only if neither of the
   counts copied at its acceptance is above its limit, and else refused. Nothing else changes.
   */
  lemma VerdictExactly(maxClients: uint32, maxPerIp: uint32, events: seq<Event>, i: nat)
    requires ValidRun(Initial(maxClients, maxPerIp), events)
    requires Enabled(After(Initial(maxClients, maxPerIp), events), Checked(i))
    ensures var s := After(Initial(maxClients, maxPerIp), events);
            var v := s.sessions[i];
            var fits := (maxClients == 0 || v.currClients <= maxClients)
                        && (maxPerIp == 0 || v.currIpClients <= maxPerIp);
            Next(s, Checked(i)) == s.(sessions := s.sessions[i := v.(verdict := if fits then Passed else Refused)])
  {
    LimitsStay(Initial(maxClients, maxPerIp), events);
  }

  /** Where session i stands after an event; nowhere when it is the one reaped. */
  function FollowOne(s: State, i: nat, e: Event): Option<nat> {
    match e
    case Reaped(pid) =>
      var j := IndexOfPid(s.sessions, pid);
      if j == i then None else Some(if j < i then i - 1 else i)
    case _ => Some(i)
  }

  function Follow(s: State, i: nat, events: seq<Event>): Option<nat>
    requires ValidRun(s, events)
    decreases |events|
  {
    if events == [] then Some(i)
    else
      match FollowOne(s, i, events[0])
      case None => None
      case Some(k) => Follow(Next(s, events[0]), k, events[1..])
  }

  predicate SameCounts(a: Session, b: Session) {
    a.ip == b.ip && a.currClients == b.currClients && a.currIpClients == b.currIpClients
  }

  lemma FollowedOne(s: State, i: nat, e: Event)
    requires Inv(s) && Enabled(s, e) && i < |s.sessions| && FollowOne(s, i, e).Some?
    ensures var k, t := FollowOne(s, i, e).value, Next(s, e);
            k < |t.sessions| && SameCounts(t.sessions[k], s.sessions[i])
  {
    hide Inv, IndexOfPid, Judge;
    if e.Reaped? {
      ReapAsserts(s, e.pid);
    }
  }

  /** A session keeps its address and the counts copied into it for as long as it lives. */
  lemma {:induction false} Followed(s: State, i: nat, events: seq<Event>)
    requires Inv(s) && ValidRun(s, events) && i < |s.sessions| && Follow(s, i, events).Some?
    ensures var k, t := Follow(s, i, events).value, After(s, events);
            k < |t.sessions| && SameCounts(t.sessions[k], s.sessions[i])
    decreases |events|
  {
    hide Inv, Next, Enabled, FollowOne;
    if events != [] {
      NextKeeps(s, events[0]);
      FollowedOne(s, i, events[0]);
      Followed(Next(s, events[0]), FollowOne(s, i, events[0]).value, events[1..]);
    }
  }

  /**
   A session for which there is room when it is accepted passes its check, whenever that happens and
   whatever happens before, and one for which there is none is refused.
   */
  lemma RoomMeansVerdict(maxClients: uint32, maxPerIp: uint32, events: seq<Event>, ip: uint32, later: seq<Event>)
    requires ValidRun(Initial(maxClients, maxPerIp), events)
    requires Enabled(After(Initial(maxClients, maxPerIp), events), Accepted(ip))
    requires var s := After(Initial(maxClients, maxPerIp), events);
             var t := Next(s, Accepted(ip));
             && ValidRun(t, later) && Follow(t, |s.sessions|, later).Some?
             && Enabled(After(t, later), Checked(Follow(t, |s.sessions|, later).value))
    ensures var s := After(Initial(maxClients, maxPerIp), events);
            var t := Next(s, Accepted(ip));
            var k := Follow(t, |s.sessions|, later).value;
            var room := (maxClients == 0 || |s.sessions| < maxClients)
                        && (maxPerIp == 0 || CountIp(s.sessions, ip) < maxPerIp);
            Next(After(t, later), Checked(k)).sessions[k].verdict == if room then Passed else Refused
  {
    hide CountIp, IndexOfPid, Inv, Follow;
    var i := Initial(maxClients, maxPerIp);
    var s := After(i, events);
    var t := Next(s, Accepted(ip));
    InitialInv(maxClients, maxPerIp);
    RunKeeps(i, events);
    NextKeeps(s, Accepted(ip));
    RoomMeansPass(maxClients, maxPerIp, events, ip);
    Followed(t, |s.sessions|, later);
    LimitsStay(i, events);
    LimitsStay(t, later);
  }
}
