/** What happens one packet past the window: 64512 flows to one server, all within
    30 seconds. The engine hands the first port out twice, and everything the
    bijection gave is lost. So the window condition of `NaptWindow` is tight. */
module NaptReuse {
  import opened Wire
  import opened Napt
  import opened NaptRuns
  import opened NaptWindow

  const PUBLIC_IP: U32 := 0x0102_0304
  const HZ := 1

  function FloodTuple(i: U16): Key {
    Key(0x0A00_0001, 0x0808_0808, i, 53, PROTO_UDP)
  }

  function FloodEvent(i: U16): Event {
    Receive(Packet(ETHER_IPV4, FloodTuple(i), []), Env(0, Some(i), true, true))
  }

  function Flood(n: nat): (es: seq<Event>)
    requires n <= 65536
    ensures |es| == n
    ensures n > 0 ==> es[..n - 1] == Flood(n - 1) && es[n - 1] == FloodEvent(n - 1)
  {
    if n == 0 then [] else Flood(n - 1) + [FloodEvent(n - 1)]
  }

  function FloodRecord(i: U16): Record {
    Record(0, false, Packet(ETHER_IPV4, FloodTuple(i), []),
           Packet(ETHER_IPV4, FloodTuple(i).(srcIp := PUBLIC_IP, srcPort := CursorAfter(i + 1)), []))
  }

  /** The world after `n` flows. */
  ghost predicate Flooded(w: World, n: nat)
    requires n <= 65536
  {
    && Consistent(w.napt) && w.napt.publicIp == PUBLIC_IP && w.napt.timeout == 30
    && w.clock == w.fired == 0 && w.napt.port == CursorAfter(n)
    && (forall k <- w.napt.fwd :: k.srcPort < n)
    && (forall p <- w.napt.heap :: p < n)
    && |w.log| == n && (forall i :: 0 <= i < n ==> w.log[i] == FloodRecord(i))
  }

  lemma {:induction false} FloodRuns(n: nat)
    requires n <= 65536
    ensures IsRun(Start(PUBLIC_IP, HZ), Flood(n))
    ensures Flooded(Exec(Start(PUBLIC_IP, HZ), Flood(n)), n)
  {
    if n > 0 {
      FloodRuns(n - 1);
      FloodStep(Exec(Start(PUBLIC_IP, HZ), Flood(n - 1)), n - 1);
    }
  }

  lemma FloodStep(w: World, n: nat)
    requires n < 65536 && Flooded(w, n)
    ensures Possible(w, FloodEvent(n)) && Flooded(Step(w, FloodEvent(n)), n + 1)
  {
    assert FloodTuple(n) !in w.napt.fwd;
  }

  /** Two recent packets of different private flows left with the same 5-tuple. */
  ghost predicate Clash(w: World, i: nat, j: nat) {
    && i < |w.log| && j < |w.log|
    && !w.log[i].inbound && !w.log[j].inbound
    && Recent(w, w.log[i]) && Recent(w, w.log[j])
    && w.log[i].pkt.tuple != w.log[j].pkt.tuple
    && w.log[i].out.tuple == w.log[j].out.tuple
  }

  /** After 64512 flows a reachable world holds such a pair, the first packet and the
      last, so its tables are not in bijection. */
  lemma PortReuseBreaksIsolation(n: nat)
    requires n == PORT_SPAN
    ensures exists w: World ::
      Reachable(w, HZ) && |w.log| == n + 1 && Clash(w, 0, n) && !Bijective(w.napt)
  {
    FloodRuns(n + 1);
    var w := Exec(Start(PUBLIC_IP, HZ), Flood(n + 1));
    assert Reachable(w, HZ);
    FloodClash(w, n);
    FlowsAreIsolatedIff(w, HZ);
    assert w.log[0].Reply() == w.log[n].Reply() && w.log[0].Flow() != w.log[n].Flow();
  }

  lemma FloodClash(w: World, n: nat)
    requires n == PORT_SPAN && Flooded(w, n + 1)
    ensures Clash(w, 0, n)
  {
    WindowOfPortsIsDistinct(0, n);
    assert w.log[0] == FloodRecord(0) && w.log[n] == FloodRecord(n);
  }

  /** Asking for the window in the last state alone is not enough either: when the
      older of two entries with one reply key expires, its callback deletes the
      younger one's reply mapping. One live entry is left, from the very last
      allocation, and replies to it no longer find it. */
  lemma ExpiryOfReusedPortLosesReplies(n: nat)
    requires n == PORT_SPAN
    ensures exists w: World, p: Ptr ::
      && Reachable(w, HZ) && Window(w)
      && w.napt.heap.Keys == {p} && w.napt.heap[p].revKey !in w.napt.rev
  {
    FloodRuns(n);
    FloodAllocations(n);
    var w := Exec(Start(PUBLIC_IP, HZ), Flood(n));
    assert Reachable(w, HZ);
    var late := Receive(Packet(ETHER_IPV4, FloodTuple(n), []), Env(20, Some(n), true, true));
    LateFlow(w, n);
    ReachableStep(w, HZ, late);
    ReachableStep(Step(w, late), HZ, Manage(30));
  }

  lemma LateFlow(w: World, n: nat)
    requires n == PORT_SPAN && Flooded(w, n) && Reachable(w, HZ) && w.allocs == n
    ensures var late := Receive(Packet(ETHER_IPV4, FloodTuple(n), []), Env(20, Some(n), true, true));
            && Possible(w, late) && Possible(Step(w, late), Manage(30))
            && var w' := Step(Step(w, late), Manage(30));
            Window(w') && w'.napt.heap.Keys == {n} && w'.napt.heap[n].revKey !in w'.napt.rev
  {
    EveryFloodTimerIsAt30(w, n);
    WindowOfPortsIsDistinct(0, n);
    SharedReplyKeyDeleted(w, n);
    LateFlowIsBorn(w, n);
  }

  lemma LateFlowIsBorn(w: World, n: nat)
    requires n == PORT_SPAN && Flooded(w, n) && w.allocs == n
    ensures var late := Receive(Packet(ETHER_IPV4, FloodTuple(n), []), Env(20, Some(n), true, true));
            && Possible(w, late) && Step(w, late).napt == AfterPacket(w.napt, late.pkt, late.env)
            && n in Step(w, late).born && Step(w, late).born[n] == n && Step(w, late).allocs == n + 1
  {
    assert FloodTuple(n) !in w.napt.fwd;
  }

  lemma EveryFloodTimerIsAt30(w: World, n: nat)
    requires n <= 65536 && Flooded(w, n) && Reachable(w, HZ)
    ensures forall p <- w.napt.heap :: w.napt.heap[p].timer == Some(30)
    ensures n > 0 ==> exists p <- w.napt.heap :: w.napt.heap[p].revKey == FloodRecord(0).Reply()
  {
    forall p | p in w.napt.heap ensures w.napt.heap[p].timer == Some(30) {
      EntryWasSet(w, HZ, p);
    }
    if n > 0 {
      RecentRecord(w, HZ, 0);
      var p :| p in w.napt.heap && Carries(w.napt.heap[p], w.log[0], w.napt.timeout);
    }
  }

  lemma {:induction false} FloodAllocations(n: nat)
    requires n <= 65536 && IsRun(Start(PUBLIC_IP, HZ), Flood(n))
    ensures Exec(Start(PUBLIC_IP, HZ), Flood(n)).allocs == n
  {
    if n > 0 {
      FloodAllocations(n - 1);
      FloodRuns(n - 1);
      FloodAllocates(Exec(Start(PUBLIC_IP, HZ), Flood(n - 1)), n - 1);
    }
  }

  lemma FloodAllocates(w: World, n: nat)
    requires n < 65536 && Flooded(w, n) && Possible(w, FloodEvent(n))
    ensures Step(w, FloodEvent(n)).allocs == w.allocs + 1
  {
    assert FloodTuple(n) !in w.napt.fwd;
  }

  lemma SharedReplyKeyDeleted(w: World, n: nat)
    requires n == PORT_SPAN && Flooded(w, n)
    requires CursorAfter(n + 1) == CursorAfter(1)
    requires forall p <- w.napt.heap :: w.napt.heap[p].timer == Some(30)
    requires exists p <- w.napt.heap :: w.napt.heap[p].revKey == FloodRecord(0).Reply()
    ensures var s := AfterManage(AfterPacket(w.napt, Packet(ETHER_IPV4, FloodTuple(n), []),
                                             Env(20, Some(n), true, true)), 30);
            s.heap.Keys == {n} && s.heap[n].revKey !in s.rev
  {
    var m := Packet(ETHER_IPV4, FloodTuple(n), []);
    var env := Env(20, Some(n), true, true);
    var s := w.napt;
    assert Creates(s, m, env);
    var e := NewEntry(s, m.tuple, 20);
    var s' := AfterPacket(s, m, env);
    assert s'.heap == s.heap[n := e];
    assert e.revKey == FloodRecord(0).Reply();
    var p :| p in s.heap && s.heap[p].revKey == FloodRecord(0).Reply();
    assert p in DueSet(s', 30);
    assert DueSet(s', 30) == s.heap.Keys;
  }
}
