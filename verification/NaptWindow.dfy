/** When the two NAPT tables are in bijection, and what that buys: round trips and
    isolation of flows. The engine never checks whether a port is still in use, so
    the bijection rests on a condition, given here exactly. */
module NaptWindow {
  import opened Finite
  import opened Wire
  import opened Napt
  import opened NaptRuns

  /** How many different ports the cursor goes through before it repeats. */
  const PORT_SPAN := 64511
  const CAPACITY := 65536

  // ------------------------------------------------------------- the ports

  /** The port of the n-th allocation, counting from 0. */
  function PortAt(n: nat): U16 {
    MIN_PORT + (n + 1) % PORT_SPAN
  }

  /** The cursor after `n` allocations. */
  function CursorAfter(n: nat): (c: U16)
    ensures MIN_PORT <= c < MAX_PORT
  {
    if n == 0 then MIN_PORT else NextPort(CursorAfter(n - 1))
  }

  lemma {:induction false} CursorIsPortAt(n: nat)
    ensures CursorAfter(n) == MIN_PORT + n % PORT_SPAN
    ensures CursorAfter(n + 1) == PortAt(n)
  {
    if n > 0 {
      CursorIsPortAt(n - 1);
    }
    SuccMod(n);
  }

  lemma SuccMod(n: nat)
    ensures (n + 1) % PORT_SPAN == if n % PORT_SPAN == PORT_SPAN - 1 then 0 else n % PORT_SPAN + 1
  {
  }

  /** Any 64511 consecutive results of allocate_port are distinct and lie in
      1024..65534, and the very next one repeats the first. */
  lemma WindowOfPortsIsDistinct(i: nat, j: nat)
    requires i < j
    ensures MIN_PORT <= CursorAfter(i + 1) <= MAX_PORT - 1
    ensures j - i < PORT_SPAN ==> CursorAfter(i + 1) != CursorAfter(j + 1)
    ensures j - i == PORT_SPAN ==> CursorAfter(i + 1) == CursorAfter(j + 1)
  {
    CursorIsPortAt(i);
    CursorIsPortAt(j);
    ResiduesInWindow(i + 1, j + 1);
  }

  lemma ResiduesInWindow(a: nat, b: nat)
    requires a < b
    ensures b - a < PORT_SPAN ==> a % PORT_SPAN != b % PORT_SPAN
    ensures b - a == PORT_SPAN ==> a % PORT_SPAN == b % PORT_SPAN
  {
  }

  // -------------------------------------------------------- the conditions

  /** Each live entry is stored under its forward key. */
  ghost predicate OwnsForwardKeys(s: Nat) {
    forall p <- s.heap :: s.heap[p].fwdKey in s.fwd && s.fwd[s.heap[p].fwdKey] == p
  }

  /** Each live entry is stored under both of its keys; with `Consistent`, both
      tables are in one-to-one correspondence with the live entries. */
  ghost predicate Bijective(s: Nat) {
    && OwnsForwardKeys(s)
    && forall p <- s.heap :: s.heap[p].revKey in s.rev && s.rev[s.heap[p].revKey] == p
  }

  /** Live entries share a reply key if and only if they share a forward key. */
  ghost predicate KeysMatchUp(s: Nat) {
    forall p <- s.heap, q <- s.heap ::
      s.heap[p].revKey == s.heap[q].revKey <==> s.heap[p].fwdKey == s.heap[q].fwdKey
  }

  /** The reply 5-tuple of the record leads to an entry of the record's own flow. */
  ghost predicate LeadsHome(s: Nat, r: Record)
    requires Consistent(s)
  {
    r.Reply() in s.rev && s.heap[s.rev[r.Reply()]].fwdKey == r.Flow()
  }

  /** Creation finds the reply key unused and room in both tables. */
  predicate CleanCreate(s: Nat, e: Event)
    requires MIN_PORT <= s.port < MAX_PORT
  {
    e.Receive? && Creates(s, e.pkt, e.env) ==>
      && NewEntry(s, e.pkt.tuple, e.env.now).revKey !in s.rev
      && e.env.fwdRoom && e.env.revRoom
  }

  /** All live entries come from the last 64511 allocations. */
  ghost predicate Window(w: World) {
    forall p <- w.napt.heap :: p in w.born && w.allocs - w.born[p] <= PORT_SPAN
  }

  /** A table holding fewer keys than it was created for has room for another. */
  predicate RoomBelowCapacity(s: Nat, e: Event) {
    e.Receive? ==> && (|s.fwd| < CAPACITY ==> e.env.fwdRoom)
                   && (|s.rev| < CAPACITY ==> e.env.revRoom)
  }

  ghost predicate BijectiveThroughout(w: World, es: seq<Event>)
    requires IsRun(w, es)
    decreases |es|
  {
    Bijective(Exec(w, es).napt) && (es != [] ==> BijectiveThroughout(w, es[..|es| - 1]))
  }

  ghost predicate CleanThroughout(w: World, es: seq<Event>)
    requires IsRun(w, es)
    decreases |es|
  {
    es != [] ==>
      var before := es[..|es| - 1];
      CleanThroughout(w, before) && CleanCreate(Exec(w, before).napt, es[|es| - 1])
  }

  ghost predicate WindowThroughout(w: World, es: seq<Event>)
    requires IsRun(w, es)
    decreases |es|
  {
    Window(Exec(w, es)) && (es != [] ==> WindowThroughout(w, es[..|es| - 1]))
  }

  ghost predicate RoomThroughout(w: World, es: seq<Event>)
    requires IsRun(w, es)
    decreases |es|
  {
    es != [] ==>
      var before := es[..|es| - 1];
      RoomThroughout(w, before) && RoomBelowCapacity(Exec(w, before).napt, es[|es| - 1])
  }

  // -------------------------------------------- bijection, if and only if

  lemma CreateBijective(s: Nat, t: Key, p: Ptr, env: Env)
    requires Consistent(s) && Bijective(s) && t !in s.fwd && p !in s.heap
    ensures Bijective(Create(s, t, p, env)) <==>
            NewEntry(s, t, env.now).revKey !in s.rev && env.fwdRoom && env.revRoom
  {
    var s' := Create(s, t, p, env);
    var e := NewEntry(s, t, env.now);
    assert e.fwdKey == t;
    if e.revKey in s.rev {
      var q := s.rev[e.revKey];
      assert s'.heap[q].revKey == e.revKey && s'.rev[e.revKey] == p != q;
    } else if env.fwdRoom && env.revRoom {
      assert s'.fwd == s.fwd[t := p] && s'.rev == s.rev[e.revKey := p];
    } else {
      assert p in s'.heap && s'.heap[p] == e;
    }
  }

  lemma StepBijective(w: World, e: Event)
    requires Possible(w, e) && Bijective(w.napt)
    ensures Bijective(Step(w, e).napt) <==> CleanCreate(w.napt, e)
  {
    var s := w.napt;
    match e
    case Manage(now) =>
      var due := DueSet(s, now);
      var s' := AfterManage(s, now);
      forall p | p in s'.heap
        ensures s.heap[p].fwdKey in s'.fwd && s.heap[p].revKey in s'.rev
      {
        assert forall q <- due :: s.heap[q].fwdKey != s.heap[p].fwdKey && s.heap[q].revKey != s.heap[p].revKey;
      }
    case Receive(m, env) =>
      if Creates(s, m, env) {
        CreateBijective(s, m.tuple, env.mem.value, env);
      }
  }

  /** The two tables stay in bijection with the live entries all along a run exactly
      when every creation of the run found its reply key unused and room for both. */
  lemma {:induction false} BijectionIffClean(publicIp: U32, hz: nat, es: seq<Event>)
    requires IsRun(Start(publicIp, hz), es)
    ensures BijectiveThroughout(Start(publicIp, hz), es) <==> CleanThroughout(Start(publicIp, hz), es)
  {
    if es != [] {
      var before := es[..|es| - 1];
      BijectionIffClean(publicIp, hz, before);
      if BijectiveThroughout(Start(publicIp, hz), before) {
        StepBijective(Exec(Start(publicIp, hz), before), es[|es| - 1]);
      }
    }
  }

  // ------------------------------------------------- the window suffices

  /** Entries carry the port of the allocation they were born with. */
  ghost predicate BornRight(w: World) {
    && w.napt.port == CursorAfter(w.allocs)
    && (forall p <- w.napt.heap ::
          && p in w.born && w.born[p] < w.allocs
          && w.napt.heap[p].publicPort == CursorAfter(w.born[p] + 1))
    && (forall p <- w.napt.heap, q <- w.napt.heap :: p != q ==> w.born[p] != w.born[q])
  }

  lemma CreateBornRight(w: World, w': World, p: Ptr)
    requires BornRight(w) && MIN_PORT <= w.napt.port < MAX_PORT
    requires p !in w.napt.heap && w'.napt.heap.Keys == w.napt.heap.Keys + {p}
    requires forall q <- w.napt.heap :: w'.napt.heap[q].publicPort == w.napt.heap[q].publicPort
    requires w'.napt.heap[p].publicPort == w'.napt.port == NextPort(w.napt.port)
    requires w'.allocs == w.allocs + 1 && w'.born == w.born[p := w.allocs]
    ensures BornRight(w')
  {
    assert w'.napt.port == CursorAfter(w'.allocs);
    forall q, r | q in w'.napt.heap && r in w'.napt.heap && q != r ensures w'.born[q] != w'.born[r] {
      assert q == p || q in w.napt.heap;
      assert r == p || r in w.napt.heap;
    }
  }

  lemma SubHeapBornRight(w: World, w': World)
    requires BornRight(w) && w'.napt.port == w.napt.port
    requires w'.allocs == w.allocs && w'.born == w.born
    requires forall q <- w'.napt.heap ::
               q in w.napt.heap && w'.napt.heap[q].publicPort == w.napt.heap[q].publicPort
    ensures BornRight(w')
  {
  }

  lemma StepBornRight(w: World, e: Event)
    requires Possible(w, e) && BornRight(w)
    ensures BornRight(Step(w, e))
  {
    if e.Receive? && Creates(w.napt, e.pkt, e.env) {
      CreateBornRight(w, Step(w, e), e.env.mem.value);
    } else {
      SubHeapBornRight(w, Step(w, e));
    }
  }

  lemma {:induction false} RunBornRight(publicIp: U32, hz: nat, es: seq<Event>)
    requires IsRun(Start(publicIp, hz), es)
    ensures BornRight(Exec(Start(publicIp, hz), es))
  {
    if es != [] {
      RunBornRight(publicIp, hz, es[..|es| - 1]);
      StepBornRight(Exec(Start(publicIp, hz), es[..|es| - 1]), es[|es| - 1]);
    }
  }

  /** Within the window there are at most 64511 live entries, and neither table is larger. */
  lemma WindowBoundsTables(w: World)
    requires Consistent(w.napt) && BornRight(w) && Window(w)
    ensures |w.napt.heap| <= PORT_SPAN && |w.napt.fwd| <= PORT_SPAN && |w.napt.rev| <= PORT_SPAN
  {
    var born: map<Ptr, int> := map p | p in w.napt.heap :: w.born[p];
    assert born.Keys == w.napt.heap.Keys;
    InjectiveSize(born, Range(w.allocs - PORT_SPAN, PORT_SPAN));
    TablesWithinHeap(w.napt);
  }

  lemma TablesWithinHeap(s: Nat)
    requires Consistent(s)
    ensures |s.fwd| <= |s.heap| && |s.rev| <= |s.heap|
  {
    InjectiveSize(s.fwd, s.heap.Keys);
    InjectiveSize(s.rev, s.heap.Keys);
  }

  /** A creation that leaves every live entry in the window is clean. */
  lemma WindowMakesCleanCreate(w: World, e: Event)
    requires Possible(w, e) && BornRight(w) && Window(w) && Window(Step(w, e))
    requires RoomBelowCapacity(w.napt, e)
    ensures CleanCreate(w.napt, e)
  {
    if e.Receive? && Creates(w.napt, e.pkt, e.env) {
      var s := w.napt;
      var entry := NewEntry(s, e.pkt.tuple, e.env.now);
      WindowBoundsTables(w);
      if entry.revKey in s.rev {
        var p := s.rev[entry.revKey];
        assert p in Step(w, e).napt.heap;
        WindowOfPortsIsDistinct(w.born[p], w.allocs);
        assert false;
      }
    }
  }

  /** The main result on table agreement: over every run whose live entries always
      come from the last 64511 allocations, the tables are in bijection with the
      live entries and never exceed 64511 of their 65536 slots. */
  lemma {:induction false} WindowGivesBijection(publicIp: U32, hz: nat, es: seq<Event>)
    requires IsRun(Start(publicIp, hz), es)
    requires WindowThroughout(Start(publicIp, hz), es) && RoomThroughout(Start(publicIp, hz), es)
    ensures CleanThroughout(Start(publicIp, hz), es)
    ensures var s := Exec(Start(publicIp, hz), es).napt;
            && Bijective(s)
            && |s.fwd| == |s.rev| == |s.heap| <= PORT_SPAN < CAPACITY
  {
    var w0 := Start(publicIp, hz);
    if es != [] {
      var before := es[..|es| - 1];
      WindowGivesBijection(publicIp, hz, before);
      RunBornRight(publicIp, hz, before);
      WindowMakesCleanCreate(Exec(w0, before), es[|es| - 1]);
    }
    BijectionIffClean(publicIp, hz, es);
    RunBornRight(publicIp, hz, es);
    WindowBoundsTables(Exec(w0, es));
    TablesAsLargeAsHeap(Exec(w0, es).napt);
  }

  lemma TablesAsLargeAsHeap(s: Nat)
    requires Consistent(s) && Bijective(s)
    ensures |s.fwd| == |s.heap| && |s.rev| == |s.heap|
  {
    var f := map p | p in s.heap :: s.heap[p].fwdKey;
    var r := map p | p in s.heap :: s.heap[p].revKey;
    assert f.Keys == s.heap.Keys == r.Keys;
    InjectiveSize(f, s.fwd.Keys);
    InjectiveSize(r, s.rev.Keys);
    TablesWithinHeap(s);
  }

  // --------------------------------------------- round trip and isolation

  /** Round trip: while the last packet of a flow is less than 30 s older than the
      last timer manage, the mirror image of what was sent out is delivered to
      exactly the flow's private endpoint, with no other address or port changed, if
      and only if the reply table leads back to the flow. The bijection sees to that. */
  lemma RoundTripIff(w: World, hz: nat, i: nat, reply: Packet, env: Env)
    requires Reachable(w, hz) && Possible(w, Receive(reply, env))
    requires i < |w.log| && Recent(w, w.log[i])
    requires reply.etherType == ETHER_IPV4 && reply.tuple == w.log[i].Reply()
    ensures Output(w.napt, reply, env) ==
              Some(reply.(tuple := reply.tuple.(dstIp := w.log[i].Flow().srcIp,
                                                dstPort := w.log[i].Flow().srcPort)))
            <==> LeadsHome(w.napt, w.log[i])
    ensures Bijective(w.napt) ==> LeadsHome(w.napt, w.log[i])
    ensures !w.log[i].inbound ==> w.log[i].Flow() == w.log[i].pkt.tuple
                                  && w.log[i].Reply() == w.log[i].out.tuple.Mirror()
  {
    var p := RecentHasEntry(w, hz, i);
    ReplyReachesFlowIff(w.napt, w.log[i], p, reply, env);
  }

  lemma ReplyReachesFlowIff(s: Nat, r: Record, p: Ptr, reply: Packet, env: Env)
    requires Consistent(s) && Fresh(s, env.mem) && p in s.heap
    requires s.heap[p].fwdKey == r.Flow() && s.heap[p].revKey == r.Reply()
    requires Parse(reply).Some? && reply.tuple == r.Reply()
    ensures Output(s, reply, env) ==
              Some(reply.(tuple := reply.tuple.(dstIp := r.Flow().srcIp, dstPort := r.Flow().srcPort)))
            <==> LeadsHome(s, r)
  {
    assert Inbound(s, reply);
    if r.Reply() in s.rev {
      var q := s.rev[r.Reply()];
      assert Handler(s, reply, env) == Some(q) && s.heap[q].revKey == s.heap[p].revKey;
    }
  }

  /** The translation of a flow does not move: as long as its last packet is recent and
      live entries own their forward keys, its next one leaves with the same public
      address and port, whether or not ports are reused. */
  lemma MappingIsStable(w: World, hz: nat, i: nat, m: Packet, env: Env)
    requires Reachable(w, hz) && OwnsForwardKeys(w.napt) && Possible(w, Receive(m, env))
    requires i < |w.log| && Recent(w, w.log[i])
    requires m.etherType == ETHER_IPV4 && m.tuple == w.log[i].Flow()
    ensures Output(w.napt, m, env) == Some(m.(tuple := w.log[i].Reply().Mirror()))
    ensures !w.log[i].inbound ==> w.log[i].Flow() == w.log[i].pkt.tuple
                                  && w.log[i].Reply().Mirror() == w.log[i].out.tuple
  {
    var p := RecentHasEntry(w, hz, i);
    FlowKeepsPort(w.napt, w.log[i], p, m, env);
  }

  lemma FlowKeepsPort(s: Nat, r: Record, p: Ptr, m: Packet, env: Env)
    requires Consistent(s) && OwnsForwardKeys(s) && Fresh(s, env.mem) && p in s.heap
    requires s.heap[p].fwdKey == r.Flow() && s.heap[p].revKey == r.Reply()
    requires Parse(m).Some? && m.tuple == r.Flow()
    ensures Output(s, m, env) == Some(m.(tuple := r.Reply().Mirror()))
  {
    assert Handler(s, m, env) == Some(p);
  }

  /** Recent packets went through the same translated 5-tuple exactly when they belong
      to the same flow. */
  ghost predicate FlowsMatchUp(w: World) {
    forall i, j :: 0 <= i < |w.log| && 0 <= j < |w.log| && Recent(w, w.log[i]) && Recent(w, w.log[j]) ==>
      (w.log[i].Reply() == w.log[j].Reply() <==> w.log[i].Flow() == w.log[j].Flow())
  }

  /** Isolation: that holds if and only if live entries share reply keys just when they
      share forward keys. The bijection sees to it. */
  lemma FlowsAreIsolatedIff(w: World, hz: nat)
    requires hz > 0 && Reachable(w, hz)
    ensures FlowsMatchUp(w) <==> KeysMatchUp(w.napt)
    ensures Bijective(w.napt) ==> KeysMatchUp(w.napt)
  {
    if FlowsMatchUp(w) {
      forall p, q | p in w.napt.heap && q in w.napt.heap
        ensures w.napt.heap[p].revKey == w.napt.heap[q].revKey <==> w.napt.heap[p].fwdKey == w.napt.heap[q].fwdKey
      {
        var i := EntryIsRecent(w, hz, p);
        var j := EntryIsRecent(w, hz, q);
      }
    }
    if KeysMatchUp(w.napt) {
      forall i, j | 0 <= i < |w.log| && 0 <= j < |w.log| && Recent(w, w.log[i]) && Recent(w, w.log[j])
        ensures w.log[i].Reply() == w.log[j].Reply() <==> w.log[i].Flow() == w.log[j].Flow()
      {
        var p := RecentHasEntry(w, hz, i);
        var q := RecentHasEntry(w, hz, j);
      }
    }
  }
}
