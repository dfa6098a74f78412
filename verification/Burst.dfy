/** Who owns the buffers of a burst: the in-place compaction of the version 6 main loop
    (nat_project/version6/main.c) and of the firewall node
    (dpdk-graph-fw/nodes/firewall_node.c), and the three-way split of the graph
    pipeline (graph/pipeline/pipeline.c). Every buffer received is transmitted or
    freed exactly once. */
module Burst {
  import opened Wire

  const BURST := 32
  const ETHER_IPV6: U16 := 0x86DD
  const MIN_LEN := 60

  /** A packet buffer, by identity, with what the nodes look at. */
  datatype Buf = Buf(id: nat, pktLen: nat, etherType: U16)

  // ---------------------------------------------------------- specification

  /** The elements whose flag is set, in order. */
  function Select<T>(s: seq<T>, keep: seq<bool>): seq<T>
    requires |s| == |keep|
  {
    if s == [] then []
    else Select(s[..|s| - 1], keep[..|s| - 1]) + if keep[|s| - 1] then [s[|s| - 1]] else []
  }

  /** The others, in order. */
  function Reject<T>(s: seq<T>, keep: seq<bool>): seq<T>
    requires |s| == |keep|
  {
    if s == [] then []
    else Reject(s[..|s| - 1], keep[..|s| - 1]) + if keep[|s| - 1] then [] else [s[|s| - 1]]
  }

  /** How many flags are set among the first `n`. */
  function Rank(keep: seq<bool>, n: nat): (r: nat)
    requires n <= |keep|
    ensures r <= n
  {
    if n == 0 then 0 else Rank(keep, n - 1) + if keep[n - 1] then 1 else 0
  }

  /** Selection is stable: element `i`, if kept, comes after exactly the kept ones
      before it, and there is nothing else. */
  lemma {:induction false} SelectAt<T>(s: seq<T>, keep: seq<bool>, i: nat)
    requires |s| == |keep| && i < |s|
    ensures |Select(s, keep)| == Rank(keep, |s|)
    ensures keep[i] ==> Rank(keep, i) < Rank(keep, |s|) && Select(s, keep)[Rank(keep, i)] == s[i]
  {
    var n := |s| - 1;
    RankPrefix(keep, n, n);
    if n > 0 {
      SelectAt(s[..n], keep[..n], if i < n then i else 0);
      if i < n { RankPrefix(keep, n, i); }
    } else {
      assert Select(s[..0], keep[..0]) == [];
    }
  }

  lemma {:induction false} RankPrefix(keep: seq<bool>, m: nat, n: nat)
    requires n <= m <= |keep|
    ensures Rank(keep[..m], n) == Rank(keep, n)
  {
    if n > 0 { RankPrefix(keep, m, n - 1); }
  }

  /** Kept and rejected elements together are all of them, each once. */
  lemma {:induction false} SelectPartitions<T>(s: seq<T>, keep: seq<bool>)
    requires |s| == |keep|
    ensures multiset(Select(s, keep)) + multiset(Reject(s, keep)) == multiset(s)
  {
    if s != [] {
      var front, x := s[..|s| - 1], s[|s| - 1];
      var flags := keep[..|s| - 1];
      SelectPartitions(front, flags);
      AddToOne(Select(front, flags), Reject(front, flags), front, x, keep[|s| - 1]);
      assert s == front + [x];
    }
  }

  lemma AddToOne<T>(a: seq<T>, b: seq<T>, whole: seq<T>, x: T, toA: bool)
    requires multiset(a) + multiset(b) == multiset(whole)
    ensures multiset(a + if toA then [x] else []) + multiset(b + if toA then [] else [x]) == multiset(whole + [x])
  {
  }

  lemma SelectStep<T>(s: seq<T>, keep: seq<bool>, i: nat)
    requires |s| == |keep| && i < |s|
    ensures Select(s[..i + 1], keep[..i + 1]) == Select(s[..i], keep[..i]) + if keep[i] then [s[i]] else []
    ensures Reject(s[..i + 1], keep[..i + 1]) == Reject(s[..i], keep[..i]) + if keep[i] then [] else [s[i]]
  {
    assert s[..i + 1][..i] == s[..i] && keep[..i + 1][..i] == keep[..i];
  }

  // ------------------------------------------- version 6: compact, send, free

  /** Compact a burst in place: kept buffers move to the front, the others are freed.
      No buffer is overwritten before it has been read. */
  method Compact(bufs: array<Buf>, nbRx: nat, forward: seq<bool>) returns (txCount: nat, freed: seq<Buf>)
    requires nbRx == |forward| <= bufs.Length
    modifies bufs
    ensures txCount <= nbRx && bufs[..txCount] == Select(old(bufs[..nbRx]), forward)
    ensures freed == Reject(old(bufs[..nbRx]), forward)
  {
    ghost var received := bufs[..nbRx];
    txCount, freed := 0, [];
    var i := 0;
    while i < nbRx
      invariant 0 <= txCount <= i <= nbRx
      invariant bufs[..txCount] == Select(received[..i], forward[..i])
      invariant freed == Reject(received[..i], forward[..i])
      invariant forall j :: i <= j < nbRx ==> bufs[j] == received[j]
    {
      SelectStep(received, forward, i);
      ghost var kept := bufs[..txCount];
      if forward[i] {
        bufs[txCount] := bufs[i];
        txCount := txCount + 1;
        assert bufs[..txCount] == kept + [received[i]];
      } else {
        freed := freed + [bufs[i]];
      }
      i := i + 1;
    }
    assert received[..i] == received && forward[..i] == forward;
  }

  /** Transmit `objs`: the port accepts at most `room` of them, the rest is freed. */
  method TxBurst(objs: seq<Buf>, room: nat) returns (sent: seq<Buf>, freed: seq<Buf>)
    ensures sent + freed == objs
    ensures |sent| == if room < |objs| then room else |objs|
  {
    var n := if room < |objs| then room else |objs|;
    sent, freed := objs[..n], [];
    var i := n;
    while i < |objs|
      invariant n <= i <= |objs| && freed == objs[n..i]
    {
      freed := freed + [objs[i]];
      i := i + 1;
    }
  }

  /** One burst of the version 6 main loop, `forward[i]` being the verdict of
      nat_process_packet on buffer `i`: the port gets a prefix of the forwarded
      buffers, in order, and each received buffer is sent or freed exactly once. */
  method ForwardBurst(bufs: array<Buf>, nbRx: nat, forward: seq<bool>, room: nat)
    returns (sent: seq<Buf>, freed: seq<Buf>)
    requires nbRx == |forward| <= bufs.Length
    modifies bufs
    ensures sent <= Select(old(bufs[..nbRx]), forward)
    ensures |sent| == room || sent == Select(old(bufs[..nbRx]), forward)
    ensures multiset(sent) + multiset(freed) == multiset(old(bufs[..nbRx]))
  {
    SelectPartitions(bufs[..nbRx], forward);
    var txCount, dropped := Compact(bufs, nbRx, forward);
    var unsent;
    sent, unsent := TxBurst(bufs[..txCount], room);
    freed := dropped + unsent;
    assert multiset(sent + unsent) == multiset(bufs[..txCount]);
  }

  // ------------------------------------------------------------ the firewall

  function LongEnough(s: seq<Buf>): seq<bool> {
    seq(|s|, i requires 0 <= i < |s| => s[i].pktLen >= MIN_LEN)
  }

  /** The firewall node: short packets are freed, the rest go on in the same array. */
  method FirewallNode(objs: array<Buf>, nbObjs: nat, count: nat)
    returns (next: seq<Buf>, freed: seq<Buf>, count': nat)
    requires nbObjs <= objs.Length
    modifies objs
    ensures next == Select(old(objs[..nbObjs]), LongEnough(old(objs[..nbObjs])))
    ensures multiset(next) + multiset(freed) == multiset(old(objs[..nbObjs]))
    ensures (forall b <- next :: b.pktLen >= 60) && (forall b <- freed :: b.pktLen < 60)
    ensures count' == count + nbObjs
  {
    ghost var received := objs[..nbObjs];
    ghost var keep := LongEnough(received);
    count' := count + nbObjs;
    var out := 0;
    freed := [];
    var i := 0;
    while i < nbObjs
      invariant 0 <= out <= i <= nbObjs
      invariant objs[..out] == Select(received[..i], keep[..i])
      invariant freed == Reject(received[..i], keep[..i])
      invariant (forall b <- objs[..out] :: b.pktLen >= MIN_LEN) && (forall b <- freed :: b.pktLen < MIN_LEN)
      invariant forall j :: i <= j < nbObjs ==> objs[j] == received[j]
    {
      SelectStep(received, keep, i);
      ghost var kept := objs[..out];
      if objs[i].pktLen < MIN_LEN {
        freed := freed + [objs[i]];
        i := i + 1;
        continue;
      }
      objs[out] := objs[i];
      out := out + 1;
      assert objs[..out] == kept + [received[i]];
      i := i + 1;
    }
    assert received[..i] == received && keep[..i] == keep;
    SelectPartitions(received, keep);
    next := objs[..out];
  }

  // ------------------------------------------------------ the graph pipeline

  /** The edge a frame leaves the L2 node by: 0 to IPv4, 1 to IPv6, 2 to drop. */
  function Edge(b: Buf): (e: nat)
    ensures e < 3
  {
    if b.etherType == ETHER_IPV4 then 0 else if b.etherType == ETHER_IPV6 then 1 else 2
  }

  function OnEdge(s: seq<Buf>, e: nat): seq<Buf> {
    if s == [] then []
    else OnEdge(s[..|s| - 1], e) + if Edge(s[|s| - 1]) == e then [s[|s| - 1]] else []
  }

  lemma {:induction false} OnEdgeSelects(s: seq<Buf>, e: nat, keep: seq<bool>)
    requires |keep| == |s| && forall i :: 0 <= i < |s| ==> keep[i] == (Edge(s[i]) == e)
    ensures OnEdge(s, e) == Select(s, keep)
  {
    if s != [] { OnEdgeSelects(s[..|s| - 1], e, keep[..|s| - 1]); }
  }

  lemma OnEdgeStep(s: seq<Buf>, e: nat, i: nat)
    requires i < |s|
    ensures OnEdge(s[..i + 1], e) == OnEdge(s[..i], e) + if Edge(s[i]) == e then [s[i]] else []
  {
    assert s[..i + 1][..i] == s[..i];
  }

  lemma {:induction false} OnEdgeCount(s: seq<Buf>, e: nat, b: Buf)
    ensures multiset(OnEdge(s, e))[b] == if Edge(b) == e then multiset(s)[b] else 0
  {
    if s != [] {
      var front, last := s[..|s| - 1], s[|s| - 1];
      OnEdgeCount(front, e, b);
      assert s == front + [last];
    }
  }

  /** IPv4 frames leave by edge 0, IPv6 frames by edge 1, all others by edge 2. */
  lemma EdgeByType(s: seq<Buf>, b: Buf)
    ensures b in OnEdge(s, 0) <==> b in s && b.etherType == 0x0800
    ensures b in OnEdge(s, 1) <==> b in s && b.etherType == 0x86DD
    ensures b in OnEdge(s, 2) <==> b in s && b.etherType != 0x0800 && b.etherType != 0x86DD
  {
    OnEdgeCount(s, 0, b);
    OnEdgeCount(s, 1, b);
    OnEdgeCount(s, 2, b);
    assert b in s <==> b in multiset(s);
    assert b in OnEdge(s, 0) <==> b in multiset(OnEdge(s, 0));
    assert b in OnEdge(s, 1) <==> b in multiset(OnEdge(s, 1));
    assert b in OnEdge(s, 2) <==> b in multiset(OnEdge(s, 2));
  }

  /** Each frame leaves by exactly one edge. */
  lemma EdgesPartition(s: seq<Buf>)
    ensures multiset(OnEdge(s, 0)) + multiset(OnEdge(s, 1)) + multiset(OnEdge(s, 2)) == multiset(s)
  {
    forall b: Buf
      ensures multiset(OnEdge(s, 0))[b] + multiset(OnEdge(s, 1))[b] + multiset(OnEdge(s, 2))[b] == multiset(s)[b]
    {
      OnEdgeCount(s, 0, b);
      OnEdgeCount(s, 1, b);
      OnEdgeCount(s, 2, b);
    }
  }

  method Put(slots: array<Buf>, n: nat, m: Buf)
    requires n < slots.Length
    modifies slots
    ensures slots[..n + 1] == old(slots[..n]) + [m]
  {
    slots[n] := m;
  }

  /** The L2 node: three local arrays of 32 slots, filled side by side. The receive
      node feeds it one burst at a time, so 32 slots are enough for each. */
  method L2Node(objs: seq<Buf>) returns (ipv4: seq<Buf>, ipv6: seq<Buf>, drop: seq<Buf>)
    requires |objs| <= BURST
    ensures ipv4 == OnEdge(objs, 0) && ipv6 == OnEdge(objs, 1) && drop == OnEdge(objs, 2)
  {
    var slots4 := new Buf[BURST](_ => Buf(0, 0, 0));
    var slots6 := new Buf[BURST](_ => Buf(0, 0, 0));
    var slotsDrop := new Buf[BURST](_ => Buf(0, 0, 0));
    var v4, v6, d := 0, 0, 0;
    var i := 0;
    while i < |objs|
      invariant 0 <= i <= |objs| && 0 <= v4 && 0 <= v6 && 0 <= d && v4 + v6 + d == i
      invariant slots4[..v4] == OnEdge(objs[..i], 0)
      invariant slots6[..v6] == OnEdge(objs[..i], 1)
      invariant slotsDrop[..d] == OnEdge(objs[..i], 2)
    {
      OnEdgeStep(objs, 0, i);
      OnEdgeStep(objs, 1, i);
      OnEdgeStep(objs, 2, i);
      if objs[i].etherType == ETHER_IPV4 {
        Put(slots4, v4, objs[i]);
        v4 := v4 + 1;
      } else if objs[i].etherType == ETHER_IPV6 {
        Put(slots6, v6, objs[i]);
        v6 := v6 + 1;
      } else {
        Put(slotsDrop, d, objs[i]);
        d := d + 1;
      }
      i := i + 1;
    }
    assert objs[..i] == objs;
    ipv4, ipv6, drop := slots4[..v4], slots6[..v6], slotsDrop[..d];
  }

  /** One walk of the graph over a received burst: each buffer is transmitted or freed
      exactly once, IPv4 before IPv6, and frames of other types are all freed. */
  method GraphWalk(burst: seq<Buf>, room: nat) returns (sent: seq<Buf>, freed: seq<Buf>)
    requires |burst| <= BURST
    ensures multiset(sent) + multiset(freed) == multiset(burst)
    ensures sent <= OnEdge(burst, 0) + OnEdge(burst, 1)
    ensures |sent| == room || (|sent| < room && sent == OnEdge(burst, 0) + OnEdge(burst, 1))
    ensures OnEdge(burst, 2) <= freed
  {
    EdgesPartition(burst);
    var ipv4, ipv6, drop := L2Node(burst);
    var unsent;
    sent, unsent := TxBurst(ipv4 + ipv6, room);
    freed := drop + unsent;
    assert multiset(sent + unsent) == multiset(ipv4 + ipv6);
  }
}
