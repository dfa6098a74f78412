/** The version 6 NAPT engine (nat_project/version6/static_nat.c): two hash
    tables over shared heap entries, a wrapping port cursor, and one timer per
    entry whose callback deletes both keys and frees the entry.

    `Nat` is the value of the whole engine and the functions below say what each
    routine computes; class `Engine` is the code itself, updating its fields in
    place, proved equal to them. */
module Napt {
  import opened Wire

  const MIN_PORT: U16 := 1024
  const MAX_PORT: U16 := 65535
  const TIMEOUT_SEC := 30

  /** Both tables are keyed by a 5-tuple. */
  datatype Key = Key(srcIp: U32, dstIp: U32, srcPort: U16, dstPort: U16, proto: U8)
  {
    function Mirror(): Key {
      Key(dstIp, srcIp, dstPort, srcPort, proto)
    }
  }

  /** The header fields `parse` reads and the rewrites set. `rest` is the other bytes but
      for the two checksums, which the rewrites set too: `NaptRewrite` has the frame. */
  datatype Packet = Packet(etherType: U16, tuple: Key, rest: seq<U8>)

  /** Addresses handed out by rte_malloc; an address may come back after it is freed. */
  type Ptr = nat

  /** `timer` is the pending deadline, None while the timer is stopped. */
  datatype Entry = Entry(
    fwdKey: Key, revKey: Key,
    privateIp: U32, privatePort: U16,
    publicIp: U32, publicPort: U16,
    remoteIp: U32, remotePort: U16,
    proto: U8, timer: Option<nat>)

  /** `heap` holds the entries allocated and not yet freed. */
  datatype Nat = Nat(
    publicIp: U32, timeout: nat, port: U16,
    fwd: map<Key, Ptr>, rev: map<Key, Ptr>, heap: map<Ptr, Entry>)

  /** What the environment decides while one packet is processed: the clock, the
      address rte_malloc would return (None: out of memory), and whether each
      hash has room for a key it does not hold yet. */
  datatype Env = Env(now: nat, mem: Option<Ptr>, fwdRoom: bool, revRoom: bool)

  // ---------------------------------------------------------------- state

  predicate WellFormed(e: Entry, publicIp: U32) {
    && e.timer.Some?
    && e.publicIp == publicIp
    && e.fwdKey == Key(e.privateIp, e.remoteIp, e.privatePort, e.remotePort, e.proto)
    && e.revKey == Key(e.remoteIp, e.publicIp, e.remotePort, e.publicPort, e.proto)
    && e.remoteIp != publicIp
  }

  /** No pointer in either table dangles: it leads to an entry not yet freed, stored
      under that entry's own key, with its timer armed. */
  ghost predicate Consistent(s: Nat) {
    && MIN_PORT <= s.port < MAX_PORT
    && (forall k <- s.fwd :: s.fwd[k] in s.heap && s.heap[s.fwd[k]].fwdKey == k)
    && (forall k <- s.rev :: s.rev[k] in s.heap && s.heap[s.rev[k]].revKey == k)
    && (forall p <- s.heap :: WellFormed(s.heap[p], s.publicIp))
  }

  /** rte_malloc never returns an address that is still in use. */
  predicate Fresh(s: Nat, mem: Option<Ptr>) {
    mem.Some? ==> mem.value !in s.heap
  }

  // ------------------------------------------------------------ operations

  function NextPort(port: U16): (r: U16)
    requires MIN_PORT <= port < MAX_PORT
    ensures MIN_PORT <= r < MAX_PORT
  {
    if port + 1 >= MAX_PORT then MIN_PORT else port + 1
  }

  /** rte_hash_add_key_data: an existing key is overwritten, a new one may not fit. */
  function HashAdd(m: map<Key, Ptr>, k: Key, p: Ptr, room: bool): map<Key, Ptr> {
    if k in m || room then m[k := p] else m
  }

  function NewEntry(s: Nat, t: Key, now: nat): Entry
    requires MIN_PORT <= s.port < MAX_PORT
  {
    var public := NextPort(s.port);
    Entry(t, Key(t.dstIp, s.publicIp, t.dstPort, public, t.proto),
          t.srcIp, t.srcPort, s.publicIp, public, t.dstIp, t.dstPort, t.proto,
          Some(now + s.timeout))
  }

  function Create(s: Nat, t: Key, p: Ptr, env: Env): Nat
    requires MIN_PORT <= s.port < MAX_PORT
  {
    var e := NewEntry(s, t, env.now);
    s.(port := e.publicPort,
       heap := s.heap[p := e],
       fwd := HashAdd(s.fwd, e.fwdKey, p, env.fwdRoom),
       rev := HashAdd(s.rev, e.revKey, p, env.revRoom))
  }

  function Refreshed(s: Nat, p: Ptr, now: nat): Nat
    requires p in s.heap
  {
    s.(heap := s.heap[p := s.heap[p].(timer := Some(now + s.timeout))])
  }

  function Parse(m: Packet): Option<Key> {
    if m.etherType == ETHER_IPV4 && m.tuple.proto in {PROTO_TCP, PROTO_UDP}
    then Some(m.tuple) else None
  }

  function RewriteOut(m: Packet, e: Entry): Packet {
    m.(tuple := m.tuple.(srcIp := e.publicIp, srcPort := e.publicPort))
  }

  function RewriteIn(m: Packet, e: Entry): Packet {
    m.(tuple := m.tuple.(dstIp := e.privateIp, dstPort := e.privatePort))
  }

  predicate Inbound(s: Nat, m: Packet) {
    Parse(m).Some? && m.tuple.dstIp == s.publicIp
  }

  predicate Outbound(s: Nat, m: Packet) {
    Parse(m).Some? && m.tuple.dstIp != s.publicIp
  }

  /** The packet makes the engine allocate a new entry. */
  predicate Creates(s: Nat, m: Packet, env: Env) {
    Outbound(s, m) && m.tuple !in s.fwd && env.mem.Some?
  }

  /** The entry that translates the packet once it has been processed, if any. */
  function Handler(s: Nat, m: Packet, env: Env): Option<Ptr> {
    if Inbound(s, m) then
      if m.tuple in s.rev then Some(s.rev[m.tuple]) else None
    else if Outbound(s, m) then
      if m.tuple in s.fwd then Some(s.fwd[m.tuple]) else env.mem
    else None
  }

  function AfterPacket(s: Nat, m: Packet, env: Env): (s': Nat)
    requires Consistent(s) && Fresh(s, env.mem)
    ensures Consistent(s')
    ensures s'.publicIp == s.publicIp && s'.timeout == s.timeout
    ensures s.heap.Keys <= s'.heap.Keys
    ensures Handler(s, m, env).Some? ==> Handler(s, m, env).value in s'.heap
  {
    if Creates(s, m, env) then Create(s, m.tuple, env.mem.value, env)
    else match Handler(s, m, env)
      case Some(p) => Refreshed(s, p, env.now)
      case None => s
  }

  /** The packet as sent on, or None when it is dropped. */
  function Output(s: Nat, m: Packet, env: Env): Option<Packet>
    requires Consistent(s) && Fresh(s, env.mem)
  {
    match Handler(s, m, env)
    case None => None
    case Some(p) =>
      var e := AfterPacket(s, m, env).heap[p];
      Some(if Inbound(s, m) then RewriteIn(m, e) else RewriteOut(m, e))
  }

  function Expire(s: Nat, p: Ptr): (s': Nat)
    requires p in s.heap
    ensures Consistent(s) ==> Consistent(s')
  {
    s.(fwd := s.fwd - {s.heap[p].fwdKey},
       rev := s.rev - {s.heap[p].revKey},
       heap := s.heap - {p})
  }

  predicate Due(e: Entry, now: nat) {
    e.timer.Some? && e.timer.value <= now
  }

  function DueSet(s: Nat, now: nat): set<Ptr> {
    set p <- s.heap | Due(s.heap[p], now)
  }

  /** Every due entry and its keys are gone, in whatever order the callbacks ran. */
  function AfterManage(s: Nat, now: nat): (s': Nat)
    ensures Consistent(s) ==> Consistent(s')
  {
    var due := DueSet(s, now);
    s.(fwd := s.fwd - (set p <- due :: s.heap[p].fwdKey),
       rev := s.rev - (set p <- due :: s.heap[p].revKey),
       heap := s.heap - due)
  }

  /** Running one due callback first does not change where the whole batch ends. */
  lemma ExpireThenManage(s: Nat, p: Ptr, now: nat)
    requires p in DueSet(s, now)
    ensures AfterManage(Expire(s, p), now) == AfterManage(s, now)
    ensures DueSet(Expire(s, p), now) == DueSet(s, now) - {p}
  {
    var s1 := Expire(s, p);
    var due, due1 := DueSet(s, now), DueSet(s1, now);
    assert due1 == due - {p};
    assert forall q <- due1 :: s1.heap[q] == s.heap[q];
    var f := set q <- due :: s.heap[q].fwdKey;
    var f1 := set q <- due1 :: s1.heap[q].fwdKey;
    assert f == f1 + {s.heap[p].fwdKey} by {
      forall k | k in f ensures k in f1 + {s.heap[p].fwdKey} {
        var q :| q in due && k == s.heap[q].fwdKey;
        assert q != p ==> q in due1 && k == s1.heap[q].fwdKey;
      }
    }
    var r := set q <- due :: s.heap[q].revKey;
    var r1 := set q <- due1 :: s1.heap[q].revKey;
    assert r == r1 + {s.heap[p].revKey} by {
      forall k | k in r ensures k in r1 + {s.heap[p].revKey} {
        var q :| q in due && k == s.heap[q].revKey;
        assert q != p ==> q in due1 && k == s1.heap[q].revKey;
      }
    }
    assert s1.fwd - f1 == s.fwd - f;
    assert s1.rev - r1 == s.rev - r;
    assert s1.heap - due1 == s.heap - due;
  }

  // ------------------------------------------------------------ the code

  class Engine {
    const publicIp: U32
    const timeout: nat
    var currentPort: U16
    var fwdHash: map<Key, Ptr>
    var revHash: map<Key, Ptr>
    var heap: map<Ptr, Entry>

    constructor (publicIp: U32, hz: nat)
      ensures Value() == Nat(publicIp, TIMEOUT_SEC * hz, MIN_PORT, map[], map[], map[])
      ensures Consistent(Value())
    {
      this.publicIp, timeout, currentPort := publicIp, TIMEOUT_SEC * hz, MIN_PORT;
      fwdHash, revHash, heap := map[], map[], map[];
    }

    function Value(): Nat
      reads this
    {
      Nat(publicIp, timeout, currentPort, fwdHash, revHash, heap)
    }

    method AllocatePort() returns (port: U16)
      requires MIN_PORT <= currentPort < MAX_PORT
      modifies this`currentPort
      ensures port == currentPort == NextPort(old(currentPort))
    {
      currentPort := currentPort + 1;
      if currentPort >= MAX_PORT {
        currentPort := MIN_PORT;
      }
      port := currentPort;
    }

    method CreateEntry(t: Key, env: Env) returns (e: Option<Ptr>)
      requires Consistent(Value()) && Fresh(Value(), env.mem)
      modifies this
      ensures e == env.mem
      ensures Value() == if e.Some? then Create(old(Value()), t, e.value, env) else old(Value())
    {
      if env.mem.None? {
        return None;
      }
      var p := env.mem.value;
      var public := AllocatePort();
      var fwdKey := t;
      var revKey := Key(t.dstIp, publicIp, t.dstPort, public, t.proto);
      heap := heap[p := Entry(fwdKey, revKey, t.srcIp, t.srcPort, publicIp, public,
                              t.dstIp, t.dstPort, t.proto, None)];
      heap := heap[p := heap[p].(timer := Some(env.now + timeout))];
      fwdHash := HashAdd(fwdHash, fwdKey, p, env.fwdRoom);
      revHash := HashAdd(revHash, revKey, p, env.revRoom);
      e := Some(p);
    }

    method Refresh(p: Ptr, now: nat)
      requires p in heap
      modifies this`heap
      ensures Value() == Refreshed(old(Value()), p, now)
    {
      heap := heap[p := heap[p].(timer := None)];
      heap := heap[p := heap[p].(timer := Some(now + timeout))];
    }

    /** The timer callback of entry `p`. */
    method EntryExpire(p: Ptr)
      requires p in heap
      modifies this
      ensures Value() == Expire(old(Value()), p)
    {
      fwdHash := fwdHash - {heap[p].fwdKey};
      revHash := revHash - {heap[p].revKey};
      heap := heap - {p};
    }

    /** rte_timer_manage: run the callback of every due timer. */
    method TimerManage(now: nat)
      requires Consistent(Value())
      modifies this
      ensures Value() == AfterManage(old(Value()), now)
      ensures Consistent(Value())
    {
      ghost var start := Value();
      var due := set p <- heap | Due(heap[p], now);
      while due != {}
        invariant Consistent(Value())
        invariant due == DueSet(Value(), now)
        invariant AfterManage(Value(), now) == AfterManage(start, now)
        decreases due
      {
        var p :| p in due;
        ExpireThenManage(Value(), p, now);
        EntryExpire(p);
        due := due - {p};
      }
    }
  }
}
