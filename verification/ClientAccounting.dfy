/**
 The parent's variables as the program keeps them: a client counter and two chained hash tables.
 Every procedure is proved to take the step of the state machine ClientLimits, so that what holds
 over its runs holds of the tables.
 */
module ClientAccounting {
  import opened Basics
  import opened HashTable
  import opened ClientLimits

  const BUCKETS := 256

  /** The session record of the parent, as far as accounting uses it. */
  class SessionRecord {
    var ip: uint32
    var currClients: uint32
    var currIpClients: uint32

    constructor ()
      ensures ip == currClients == currIpClients == 0
    {
      ip, currClients, currIpClients := 0, 0, 0;
    }
  }

  /** The two 421 replies to a session for which there is no room. */
  datatype Refusal = TooManyUsers | IpLimit

  /** `hash_func`: the key's first word modulo the number of buckets. */
  function HashFunc(buckets: nat, key: uint32): (h: nat)
    ensures buckets > 0 ==> h < buckets && exists q: nat :: key == q * buckets + h
  {
    assert buckets > 0 ==> key == key / buckets * buckets + key % buckets;
    if buckets == 0 then 0 else key % buckets
  }

  class Server {
    const maxClients: uint32
    const maxPerIp: uint32
    var numOfClients: uint32
    const ipToClients: Hash<uint32, uint32>
    const tidToIp: Hash<uint32, uint32>

    /** The state of the machine the variables stand for. */
    ghost var state: State

    ghost predicate Tables()
      reads ipToClients, ipToClients.nodes, ipToClients.Nodes()
      reads tidToIp, tidToIp.nodes, tidToIp.Nodes()
    {
      && ipToClients != tidToIp && ipToClients.nodes != tidToIp.nodes
      && ipToClients.Nodes() !! tidToIp.Nodes()
      && ipToClients.Valid() && tidToIp.Valid()
    }

    ghost function Footprint(): set<object>
      reads ipToClients, tidToIp
    {
      {this, ipToClients, ipToClients.nodes, tidToIp, tidToIp.nodes} + ipToClients.Nodes() + tidToIp.Nodes()
    }

    /** The first table holds one counter for each address in m. */
    ghost predicate HoldsCounts(m: map<uint32, uint32>)
      requires ipToClients.Valid()
      reads ipToClients, ipToClients.nodes, ipToClients.Nodes()
    {
      forall ip: uint32 :: ipToClients.Stack(ip) == if ip in m then [m[ip]] else []
    }

    /** The second table holds the addresses pushed under each pid. */
    ghost predicate HoldsPids(m: map<Pid, seq<uint32>>)
      requires tidToIp.Valid()
      reads tidToIp, tidToIp.nodes, tidToIp.Nodes()
    {
      forall pid: Pid :: tidToIp.Stack(pid) == if pid in m then m[pid] else []
    }

    /** The tables hold the maps of the state, and the state is one the invariant allows. */
    ghost predicate Valid()
      reads this, Footprint()
    {
      && Tables() && HoldsCounts(state.perIp) && HoldsPids(state.pidToIp)
      && state.maxClients == maxClients && state.maxPerIp == maxPerIp
      && state.numClients == numOfClients
      && Inv(state)
    }

    /** `init_hash`. */
    constructor (maxClients: uint32, maxPerIp: uint32)
      ensures Valid() && fresh(Footprint()) && state == Initial(maxClients, maxPerIp)
    {
      hide ipToClients.Valid, ipToClients.Stack, Inv;
      InitialInv(maxClients, maxPerIp);
      this.maxClients, this.maxPerIp := maxClients, maxPerIp;
      numOfClients := 0;
      ipToClients := new Hash(BUCKETS, HashFunc);
      tidToIp := new Hash(BUCKETS, HashFunc);
      state := Initial(maxClients, maxPerIp);
      new;
      assert ipToClients.Nodes() == {} && tidToIp.Nodes() == {};
      assert HoldsCounts(map[]) && HoldsPids(map[]);
    }

    /** `add_ip_to_hash`: one more client of the address. */
    method AddIpToHash(ip: uint32, ghost m: map<uint32, uint32>) returns (count: uint32)
      requires Tables() && HoldsCounts(m)
      modifies ipToClients, ipToClients.nodes, ipToClients.Nodes()
      ensures Tables() && fresh(ipToClients.Nodes() - old(ipToClients.Nodes()))
      ensures count == if ip in m then Inc(m[ip]) else 1
      ensures HoldsCounts(m[ip := count])
    {
      hide ipToClients.Valid, ipToClients.Stack, ipToClients.IsNewest;
      var node, i := ipToClients.LookupValueByKey(ip);
      if node == null {
        count := 1;
        ipToClients.AddEntry(ip, count);
      } else {
        count := Inc(node.value);
        ipToClients.StoreValue(ip, node, i, count);
      }
    }

    /** The second lookup of `handle_sigchld`: the address has a positive counter, which goes down. */
    method DropIpCount(ip: uint32, ghost m: map<uint32, uint32>)
      requires Tables() && HoldsCounts(m) && ip in m && m[ip] > 0
      modifies ipToClients, ipToClients.nodes, ipToClients.Nodes()
      ensures Tables() && ipToClients.Nodes() == old(ipToClients.Nodes())
      ensures HoldsCounts(m[ip := Dec(m[ip])])
    {
      hide ipToClients.Valid, ipToClients.Stack, ipToClients.IsNewest;
      var pValue, i := ipToClients.LookupValueByKey(ip);
      assert pValue != null && pValue.value > 0;
      ipToClients.StoreValue(ip, pValue, i, Dec(pValue.value));
    }

    method PushPid(pid: Pid, ip: uint32, ghost m: map<Pid, seq<uint32>>)
      requires Tables() && HoldsPids(m)
      modifies tidToIp, tidToIp.nodes, tidToIp.Nodes()
      ensures Tables() && fresh(tidToIp.Nodes() - old(tidToIp.Nodes()))
      ensures HoldsPids(m[pid := [ip] + if pid in m then m[pid] else []])
    {
      hide ipToClients.Valid, ipToClients.Stack;
      tidToIp.AddEntry(pid, ip);
    }

    /** `hash_free_entry` for a reaped pid. */
    method PopPid(pid: Pid, ghost m: map<Pid, seq<uint32>>)
      requires Tables() && HoldsPids(m) && pid in m && m[pid] != []
      modifies tidToIp, tidToIp.nodes, tidToIp.Nodes()
      ensures Tables() && tidToIp.Nodes() <= old(tidToIp.Nodes())
      ensures HoldsPids(m[pid := m[pid][1..]])
    {
      hide ipToClients.Valid, ipToClients.Stack;
      ghost var freed := tidToIp.FreeEntry(pid);
    }

    /** The first lookup of `handle_sigchld`. */
    method IpOfPid(pid: Pid, ghost m: map<Pid, seq<uint32>>) returns (ip: Option<uint32>)
      requires Tables() && HoldsPids(m)
      ensures ip == if pid in m && m[pid] != [] then Some(m[pid][0]) else None
    {
      hide ipToClients.Valid, ipToClients.Stack, ipToClients.IsNewest;
      var pIp, _ := tidToIp.LookupValueByKey(pid);
      ip := if pIp == null then None else Some(pIp.value);
    }

    /** `add_clients_to_hash`: counts an accepted client and copies the counts into the session. */
    method AddClientsToHash(session: SessionRecord, ip: uint32)
      requires Valid() && Enabled(state, Accepted(ip)) && session !in Footprint()
      modifies Footprint(), session
      ensures Valid() && fresh(Footprint() - old(Footprint()))
      ensures state == Next(old(state), Accepted(ip))
      ensures var v := state.sessions[|state.sessions| - 1];
              session.currClients == v.currClients && session.currIpClients == v.currIpClients
    {
      hide ipToClients.Valid, HoldsCounts, HoldsPids, Inv, Inc;
      AcceptKeeps(state, ip);
      numOfClients := Inc(numOfClients);
      session.currClients := numOfClients;
      var count := AddIpToHash(ip, state.perIp);
      session.currIpClients := count;
      state := Next(state, Accepted(ip));
    }

    /** `add_tid_ip_to_hash`: records the pid of the forked child. */
    method AddTidIpToHash(pid: Pid, ip: uint32)
      requires Valid() && Enabled(state, Recorded(pid))
      requires ip == state.sessions[|state.sessions| - 1].ip
      modifies Footprint()
      ensures Valid() && fresh(Footprint() - old(Footprint()))
      ensures state == Next(old(state), Recorded(pid))
    {
      hide ipToClients.Valid, HoldsCounts, HoldsPids, Inv;
      RecordKeeps(state, pid);
      PushPid(pid, ip, state.pidToIp);
      state := Next(state, Recorded(pid));
    }

    /** `limit_num_clients` in the child of a session, and the reply with which it is refused, if it is. */
    method LimitNumClients(session: SessionRecord, ghost index: nat) returns (refusal: Option<Refusal>)
      requires Valid() && Enabled(state, Checked(index))
      requires session.currClients == state.sessions[index].currClients
      requires session.currIpClients == state.sessions[index].currIpClients
      modifies this`state
      ensures Valid() && Footprint() == old(Footprint())
      ensures state == Next(old(state), Checked(index))
      ensures refusal == None <==> state.sessions[index].verdict == Passed
      ensures refusal == None <==> (maxClients == 0 || session.currClients <= maxClients)
                                   && (maxPerIp == 0 || session.currIpClients <= maxPerIp)
      ensures refusal == Some(TooManyUsers) <==> 0 < maxClients < session.currClients
      ensures refusal == Some(IpLimit) <==> (maxClients == 0 || session.currClients <= maxClients)
                                            && 0 < maxPerIp < session.currIpClients
    {
      hide ipToClients.Valid, HoldsCounts, HoldsPids, Inv;
      CheckKeeps(state, index);
      state := Next(state, Checked(index));
      if maxClients > 0 && session.currClients > maxClients {
        return Some(TooManyUsers);
      }
      if maxPerIp > 0 && session.currIpClients > maxPerIp {
        return Some(IpLimit);
      }
      return None;
    }

    /**
     One turn of the loop of `handle_sigchld`. The result tells whether its assertions hold; they do for
     exactly the recorded live children, and a failure ends the server.
     */
    method ReapChild(pid: Pid) returns (asserted: bool)
      requires Valid()
      modifies Footprint()
      ensures asserted <==> IsLive(old(state), pid)
      ensures asserted ==> Valid() && fresh(Footprint() - old(Footprint())) && state == Next(old(state), Reaped(pid))
      ensures !asserted ==> state == old(state) && numOfClients == Dec(old(numOfClients))
    {
      hide ipToClients.Valid, HoldsCounts, HoldsPids, Inv, IndexOfPid, Dec, IsLive;
      ReapAsserts(state, pid);
      numOfClients := Dec(numOfClients);
      var ip := IpOfPid(pid, state.pidToIp);
      if ip == None {
        return false;
      }
      ReapKeeps(state, pid);
      DropIpCount(ip.value, state.perIp);
      PopPid(pid, state.pidToIp);
      state := Next(state, Reaped(pid));
      asserted := true;
    }

    /**
     `handle_sigchld`: every child that `waitpid` reports is taken off the books, unless one is reported
     that is not recorded.
     */
    method HandleSigchld(exited: seq<Pid>) returns (asserted: bool)
      requires Valid()
      modifies Footprint()
      ensures asserted <==> ValidRun(old(state), Reaps(exited))
      ensures asserted ==> Valid() && fresh(Footprint() - old(Footprint()))
      ensures asserted ==> state == After(old(state), Reaps(exited))
    {
      hide Valid, Next, IsLive, ValidRun, After, Reaps;
      var i := 0;
      assert exited[0..] == exited;
      while i < |exited|
        invariant 0 <= i <= |exited| && Valid() && fresh(Footprint() - old(Footprint()))
        invariant ValidRun(old(state), Reaps(exited)) == ValidRun(state, Reaps(exited[i..]))
        invariant ValidRun(state, Reaps(exited[i..]))
                  ==> After(state, Reaps(exited[i..])) == After(old(state), Reaps(exited))
      {
        FirstReap(state, exited[i..]);
        assert exited[i..][1..] == exited[i + 1..];
        var held := ReapChild(exited[i]);
        if !held {
          return false;
        }
        i := i + 1;
      }
      assert exited[i..] == [];
      NoReap(state);
      asserted := true;
    }
  }

  lemma FirstReap(s: State, pids: seq<Pid>)
    requires pids != []
    ensures ValidRun(s, Reaps(pids)) <==>
            IsLive(s, pids[0]) && ValidRun(Next(s, Reaped(pids[0])), Reaps(pids[1..]))
    ensures ValidRun(s, Reaps(pids)) ==>
              After(Next(s, Reaped(pids[0])), Reaps(pids[1..])) == After(s, Reaps(pids))
  {
    hide Next, IsLive;
  }

  lemma NoReap(s: State)
    ensures ValidRun(s, Reaps([])) && After(s, Reaps([])) == s
  {}

  function Reaps(pids: seq<Pid>): (es: seq<Event>)
    ensures |es| == |pids|
    ensures pids != [] ==> es[0] == Reaped(pids[0]) && es[1..] == Reaps(pids[1..])
  {
    if pids == [] then [] else [Reaped(pids[0])] + Reaps(pids[1..])
  }
}
