/** Whole runs of the NAPT engine, with a ghost history: what was received and
    sent, and in which order the live entries were allocated. Nothing here
    assumes that ports are not reused or that hash inserts succeed. */
module NaptRuns {
  import opened Wire
  import opened Napt

  datatype Event =
    | Receive(pkt: Packet, env: Env)
    | Manage(now: nat)
  {
    function Time(): nat {
      if Receive? then env.now else now
    }
  }

  /** One forwarded packet: `flow` and `reply` are the 5-tuples of the private
      side's packets and of the remote side's packets. */
  datatype Record = Record(now: nat, inbound: bool, pkt: Packet, out: Packet)
  {
    function Flow(): Key {
      if inbound then out.tuple.Mirror() else pkt.tuple
    }

    function Reply(): Key {
      if inbound then pkt.tuple else out.tuple.Mirror()
    }
  }

  /** `born[p]` counts the allocations made before entry `p`; `fired` is the time
      of the last timer manage. */
  datatype World = World(
    napt: Nat, clock: nat, fired: nat, log: seq<Record>,
    allocs: nat, born: map<Ptr, nat>)

  function Start(publicIp: U32, hz: nat): World {
    World(Nat(publicIp, TIMEOUT_SEC * hz, MIN_PORT, map[], map[], map[]), 0, 0, [], 0, map[])
  }

  ghost predicate Possible(w: World, e: Event) {
    && Consistent(w.napt)
    && w.clock <= e.Time()
    && (e.Receive? ==> Fresh(w.napt, e.env.mem))
  }

  ghost function Step(w: World, e: Event): (w': World)
    requires Possible(w, e)
    ensures Consistent(w'.napt)
    ensures w'.clock == e.Time() && w.log <= w'.log
    ensures w'.napt.publicIp == w.napt.publicIp && w'.napt.timeout == w.napt.timeout
  {
    match e
    case Manage(now) => w.(napt := AfterManage(w.napt, now), clock := now, fired := now)
    case Receive(m, env) =>
      var created := Creates(w.napt, m, env);
      var out := Output(w.napt, m, env);
      w.(napt := AfterPacket(w.napt, m, env),
         clock := env.now,
         allocs := if created then w.allocs + 1 else w.allocs,
         born := if created then w.born[env.mem.value := w.allocs] else w.born,
         log := if out.None? then w.log
                else w.log + [Record(env.now, Inbound(w.napt, m), m, out.value)])
  }

  /** Every event of the run can happen where it happens. */
  ghost predicate IsRun(w: World, es: seq<Event>)
    decreases |es|, 0
  {
    && Consistent(w.napt)
    && (es != [] ==> IsRun(w, es[..|es| - 1]) && Possible(Exec(w, es[..|es| - 1]), es[|es| - 1]))
  }

  ghost function Exec(w: World, es: seq<Event>): (w': World)
    requires IsRun(w, es)
    ensures Consistent(w'.napt)
    ensures w'.napt.publicIp == w.napt.publicIp && w'.napt.timeout == w.napt.timeout
    decreases |es|, 1
  {
    if es == [] then w else Step(Exec(w, es[..|es| - 1]), es[|es| - 1])
  }

  // ------------------------------------------------- what every run keeps

  /** Some earlier packet left the private endpoint `flow` names, for the remote one. */
  ghost predicate Requested(log: seq<Record>, n: nat, flow: Key) {
    exists j :: 0 <= j < n <= |log| && !log[j].inbound && log[j].pkt.tuple == flow
  }

  ghost predicate LogExplained(log: seq<Record>) {
    forall i :: 0 <= i < |log| && log[i].inbound ==> Requested(log, i, log[i].Flow())
  }

  /** The timer of `e` was last set by a logged packet that e itself translated. */
  ghost predicate LastSet(log: seq<Record>, e: Entry, timeout: nat) {
    exists i :: 0 <= i < |log| && log[i].Flow() == e.fwdKey && log[i].Reply() == e.revKey
                && e.timer == Some(log[i].now + timeout)
  }

  ghost predicate Carries(e: Entry, r: Record, timeout: nat) {
    && e.fwdKey == r.Flow() && e.revKey == r.Reply()
    && e.timer.Some? && r.now + timeout <= e.timer.value
  }

  ghost predicate Held(s: Nat, r: Record) {
    exists p :: p in s.heap && Carries(s.heap[p], r, s.timeout)
  }

  /** The packet was forwarded less than 30 seconds before the last timer manage. */
  ghost predicate Recent(w: World, r: Record) {
    w.fired < r.now + w.napt.timeout
  }

  ghost predicate Explained(w: World) {
    && LogExplained(w.log)
    && (forall p <- w.napt.heap :: Requested(w.log, |w.log|, w.napt.heap[p].fwdKey))
  }

  ghost predicate Timed(w: World) {
    && w.fired <= w.clock
    && (forall i :: 0 <= i < |w.log| ==> w.log[i].now <= w.clock)
    && (forall p <- w.napt.heap ::
          && LastSet(w.log, w.napt.heap[p], w.napt.timeout)
          && (w.fired < w.napt.heap[p].timer.value || w.napt.timeout == 0))
  }

  ghost predicate Remembered(w: World) {
    forall i :: 0 <= i < |w.log| && Recent(w, w.log[i]) ==> Held(w.napt, w.log[i])
  }

  ghost predicate Kept(w: World) {
    Consistent(w.napt) && Explained(w) && Timed(w) && Remembered(w)
  }

  lemma RequestedMono(log: seq<Record>, more: seq<Record>, n: nat, n': nat, flow: Key)
    requires Requested(log, n, flow) && log <= more && n <= n' <= |more|
    ensures Requested(more, n', flow)
  {
  }

  lemma LastSetMono(log: seq<Record>, more: seq<Record>, e: Entry, timeout: nat)
    requires LastSet(log, e, timeout) && log <= more
    ensures LastSet(more, e, timeout)
  {
  }

  /** `s'` differs from `s` in the entry at `p` alone, which now records `r`. */
  ghost predicate Touches(s: Nat, s': Nat, p: Ptr, r: Record) {
    && s'.timeout == s.timeout
    && s'.heap.Keys == s.heap.Keys + {p}
    && (forall q <- s.heap :: q != p ==> s'.heap[q] == s.heap[q])
    && s'.heap[p].fwdKey == r.Flow() && s'.heap[p].revKey == r.Reply()
    && s'.heap[p].timer == Some(r.now + s.timeout)
    && (p in s.heap ==> s.heap[p].fwdKey == r.Flow() && s.heap[p].revKey == r.Reply())
    && (p !in s.heap ==> !r.inbound)
  }

  lemma HandlerTouches(s: Nat, m: Packet, env: Env, p: Ptr)
    requires Consistent(s) && Fresh(s, env.mem) && Handler(s, m, env) == Some(p)
    ensures Touches(s, AfterPacket(s, m, env), p,
                    Record(env.now, Inbound(s, m), m, Output(s, m, env).value))
  {
  }

  lemma TouchExplained(w: World, w': World, p: Ptr, r: Record)
    requires Explained(w) && Touches(w.napt, w'.napt, p, r) && w'.log == w.log + [r]
    ensures Explained(w')
  {
    var n := |w.log|;
    assert Requested(w'.log, n + 1, r.Flow()) && (r.inbound ==> Requested(w'.log, n, r.Flow())) by {
      if r.inbound {
        RequestedMono(w.log, w'.log, n, n, r.Flow());
        RequestedMono(w.log, w'.log, n, n + 1, r.Flow());
      } else {
        assert w'.log[n] == r;
      }
    }
    forall i | 0 <= i < |w'.log| && w'.log[i].inbound
      ensures Requested(w'.log, i, w'.log[i].Flow())
    {
      if i < n { RequestedMono(w.log, w'.log, i, i, w.log[i].Flow()); }
    }
    forall q | q in w'.napt.heap ensures Requested(w'.log, n + 1, w'.napt.heap[q].fwdKey) {
      if q != p { RequestedMono(w.log, w'.log, n, n + 1, w.napt.heap[q].fwdKey); }
    }
  }

  lemma TouchTimed(w: World, w': World, p: Ptr, r: Record)
    requires Timed(w) && Touches(w.napt, w'.napt, p, r) && w'.log == w.log + [r]
    requires w.clock <= r.now == w'.clock && w'.fired == w.fired
    ensures Timed(w')
  {
    forall q | q in w'.napt.heap
      ensures LastSet(w'.log, w'.napt.heap[q], w'.napt.timeout)
      ensures w'.fired < w'.napt.heap[q].timer.value || w'.napt.timeout == 0
    {
      if q == p {
        assert w'.log[|w.log|] == r;
      } else {
        LastSetMono(w.log, w'.log, w.napt.heap[q], w.napt.timeout);
      }
    }
  }

  lemma TouchRemembered(w: World, w': World, p: Ptr, r: Record)
    requires Remembered(w) && Timed(w) && Touches(w.napt, w'.napt, p, r) && w'.log == w.log + [r]
    requires w.clock <= r.now && w'.fired == w.fired
    ensures Remembered(w')
  {
    forall i | 0 <= i < |w'.log| && Recent(w', w'.log[i])
      ensures Held(w'.napt, w'.log[i])
    {
      if i == |w.log| {
        assert Carries(w'.napt.heap[p], r, w.napt.timeout);
      } else {
        assert w'.log[i] == w.log[i] && Recent(w, w.log[i]);
        var q :| q in w.napt.heap && Carries(w.napt.heap[q], w.log[i], w.napt.timeout);
        assert Carries(w'.napt.heap[q], w'.log[i], w.napt.timeout);
      }
    }
  }

  lemma KeptByPacket(w: World, m: Packet, env: Env)
    requires Kept(w) && Possible(w, Receive(m, env))
    ensures Kept(Step(w, Receive(m, env)))
  {
    var w' := Step(w, Receive(m, env));
    match Handler(w.napt, m, env)
    case None =>
    case Some(p) =>
      var r := Record(env.now, Inbound(w.napt, m), m, Output(w.napt, m, env).value);
      HandlerTouches(w.napt, m, env, p);
      TouchExplained(w, w', p, r);
      TouchTimed(w, w', p, r);
      TouchRemembered(w, w', p, r);
  }

  lemma KeptByManage(w: World, now: nat)
    requires Kept(w) && Possible(w, Manage(now))
    ensures Kept(Step(w, Manage(now)))
  {
    var w' := Step(w, Manage(now));
    forall i | 0 <= i < |w'.log| && Recent(w', w'.log[i])
      ensures Held(w'.napt, w'.log[i])
    {
      assert Recent(w, w.log[i]);
      var q :| q in w.napt.heap && Carries(w.napt.heap[q], w.log[i], w.napt.timeout);
      assert q in w'.napt.heap && Carries(w'.napt.heap[q], w'.log[i], w.napt.timeout);
    }
  }

  lemma {:induction false} KeptByRun(w: World, es: seq<Event>)
    requires Kept(w) && IsRun(w, es)
    ensures Kept(Exec(w, es))
  {
    if es != [] {
      var before := es[..|es| - 1];
      KeptByRun(w, before);
      match es[|es| - 1]
      case Receive(m, env) => KeptByPacket(Exec(w, before), m, env);
      case Manage(now) => KeptByManage(Exec(w, before), now);
    }
  }

  // ------------------------------------------------------ reachable worlds

  /** `w` is where some run of an engine started with timer frequency `hz` ends. */
  ghost predicate Reachable(w: World, hz: nat) {
    exists publicIp: U32, es: seq<Event> ::
      IsRun(Start(publicIp, hz), es) && w == Exec(Start(publicIp, hz), es)
  }

  lemma ReachableStep(w: World, hz: nat, e: Event)
    requires Reachable(w, hz) && Possible(w, e)
    ensures Reachable(Step(w, e), hz)
  {
    var publicIp: U32, es: seq<Event> :|
      IsRun(Start(publicIp, hz), es) && w == Exec(Start(publicIp, hz), es);
    var longer := es + [e];
    assert longer[..|longer| - 1] == es;
    assert IsRun(Start(publicIp, hz), longer);
    assert Exec(Start(publicIp, hz), longer) == Step(w, e);
  }

  /** How translation relates the packet sent to the packet received. */
  predicate Translation(r: Record, publicIp: U32) {
    && Parse(r.pkt).Some?
    && r.out == r.pkt.(tuple := r.out.tuple)
    && r.out.tuple == if r.inbound
                      then r.pkt.tuple.(dstIp := r.out.tuple.dstIp, dstPort := r.out.tuple.dstPort)
                      else r.pkt.tuple.(srcIp := publicIp, srcPort := r.out.tuple.srcPort)
  }

  lemma {:induction false} RecordsAreTranslations(w: World, es: seq<Event>, i: nat)
    requires IsRun(w, es) && w.log == [] && i < |Exec(w, es).log|
    ensures Translation(Exec(w, es).log[i], w.napt.publicIp)
  {
    var before := es[..|es| - 1];
    if i < |Exec(w, before).log| {
      RecordsAreTranslations(w, before, i);
    }
  }

  lemma ReachableFacts(w: World, hz: nat)
    requires Reachable(w, hz)
    ensures Kept(w) && w.napt.timeout == TIMEOUT_SEC * hz
    ensures forall i :: 0 <= i < |w.log| ==> Translation(w.log[i], w.napt.publicIp)
  {
    var publicIp: U32, es: seq<Event> :|
      IsRun(Start(publicIp, hz), es) && w == Exec(Start(publicIp, hz), es);
    KeptByRun(Start(publicIp, hz), es);
    forall i | 0 <= i < |w.log| ensures Translation(w.log[i], w.napt.publicIp) {
      RecordsAreTranslations(Start(publicIp, hz), es, i);
    }
  }

  /** What `ReachableFacts` says of one live entry. */
  lemma EntryWasSet(w: World, hz: nat, p: Ptr)
    requires hz > 0 && Reachable(w, hz) && p in w.napt.heap
    ensures LastSet(w.log, w.napt.heap[p], w.napt.timeout)
    ensures w.napt.heap[p].timer.Some? && w.fired < w.napt.heap[p].timer.value
  {
    ReachableFacts(w, hz);
  }

  /** A live entry shows in the log as a recent record. */
  lemma EntryIsRecent(w: World, hz: nat, p: Ptr) returns (i: nat)
    requires hz > 0 && Reachable(w, hz) && p in w.napt.heap
    ensures i < |w.log| && Recent(w, w.log[i])
    ensures w.log[i].Flow() == w.napt.heap[p].fwdKey && w.log[i].Reply() == w.napt.heap[p].revKey
  {
    EntryWasSet(w, hz, p);
    i :| 0 <= i < |w.log| && w.log[i].Flow() == w.napt.heap[p].fwdKey && w.log[i].Reply() == w.napt.heap[p].revKey
         && w.napt.heap[p].timer == Some(w.log[i].now + w.napt.timeout);
  }

  lemma RecentRecord(w: World, hz: nat, i: nat)
    requires Reachable(w, hz) && i < |w.log| && Recent(w, w.log[i])
    ensures Held(w.napt, w.log[i]) && Translation(w.log[i], w.napt.publicIp)
  {
    ReachableFacts(w, hz);
  }

  /** And a recent record has a live entry. */
  lemma RecentHasEntry(w: World, hz: nat, i: nat) returns (p: Ptr)
    requires Reachable(w, hz) && i < |w.log| && Recent(w, w.log[i])
    ensures p in w.napt.heap
    ensures w.log[i].Flow() == w.napt.heap[p].fwdKey && w.log[i].Reply() == w.napt.heap[p].revKey
    ensures w.log[i].Reply().proto in {PROTO_TCP, PROTO_UDP}
  {
    RecentRecord(w, hz, i);
    p :| p in w.napt.heap && Carries(w.napt.heap[p], w.log[i], w.napt.timeout);
  }

  // ------------------------------------------------------ the main results

  /** In every reachable state, through any interleaving of creation, overwrite,
      refresh and expiry and with inserts free to fail, a pointer in either table
      is an entry not yet freed, stored under its own key, with its timer armed. */
  lemma NoDanglingPointer(w: World, hz: nat, k: Key)
    requires Reachable(w, hz)
    ensures var s := w.napt;
            && (k in s.fwd ==> s.fwd[k] in s.heap && s.heap[s.fwd[k]].fwdKey == k
                               && s.heap[s.fwd[k]].timer.Some?)
            && (k in s.rev ==> s.rev[k] in s.heap && s.heap[s.rev[k]].revKey == k
                               && s.heap[s.rev[k]].timer.Some?)
  {
    ReachableFacts(w, hz);
  }

  /** Filtering: an inbound packet only ever reaches a private endpoint that had
      itself sent a packet to that same remote address, port and protocol. */
  lemma OnlyRequestedTrafficEnters(w: World, hz: nat, i: nat)
    requires Reachable(w, hz)
    requires i < |w.log| && w.log[i].inbound
    ensures exists j :: 0 <= j < i && !w.log[j].inbound
              && w.log[j].pkt.tuple.srcIp == w.log[i].out.tuple.dstIp
              && w.log[j].pkt.tuple.srcPort == w.log[i].out.tuple.dstPort
              && w.log[j].pkt.tuple.dstIp == w.log[i].pkt.tuple.srcIp
              && w.log[j].pkt.tuple.dstPort == w.log[i].pkt.tuple.srcPort
              && w.log[j].pkt.tuple.proto == w.log[i].pkt.tuple.proto
  {
    ReachableFacts(w, hz);
    assert Requested(w.log, i, w.log[i].Flow());
  }

  /** And only lately: what lets an inbound packet in is a translation that some packet,
      of either direction, went through less than 30 s before the last timer manage. */
  lemma InboundNeedsRecentTraffic(w: World, hz: nat, m: Packet, env: Env)
    requires hz > 0 && Reachable(w, hz) && Possible(w, Receive(m, env))
    requires Inbound(w.napt, m) && Output(w.napt, m, env).Some?
    ensures exists i :: 0 <= i < |w.log| && Recent(w, w.log[i]) && w.log[i].Reply() == m.tuple
              && Output(w.napt, m, env).value ==
                   m.(tuple := m.tuple.(dstIp := w.log[i].Flow().srcIp, dstPort := w.log[i].Flow().srcPort))
  {
    var i := EntryIsRecent(w, hz, w.napt.rev[m.tuple]);
  }

  /** A packet is dropped exactly when it is not IPv4 with TCP or UDP, when it comes in
      for a translation that is not there, or when it needs a new one and memory is out. */
  lemma DropIff(w: World, m: Packet, env: Env)
    requires Possible(w, Receive(m, env))
    ensures Output(w.napt, m, env).None? <==>
              || m.etherType != 0x0800 || m.tuple.proto !in {6, 17}
              || (m.tuple.dstIp == w.napt.publicIp && m.tuple !in w.napt.rev)
              || (m.tuple.dstIp != w.napt.publicIp && m.tuple !in w.napt.fwd && env.mem.None?)
    ensures Output(w.napt, m, env).None? ==> Step(w, Receive(m, env)) == w.(clock := env.now)
  {
  }

  /** Lifetime: after a timer manage at time `now`, the translations with a live entry
      (a flow and the 5-tuple of its replies) are exactly those that some packet went
      through, either way, less than 30 s before. */
  lemma LiveEntriesAfterManage(w: World, hz: nat, now: nat, flow: Key, reply: Key)
    requires hz > 0 && Reachable(w, hz) && Possible(w, Manage(now))
    ensures var w' := Step(w, Manage(now));
            (exists p :: p in w'.napt.heap && w'.napt.heap[p].fwdKey == flow && w'.napt.heap[p].revKey == reply)
            <==> (exists i :: 0 <= i < |w'.log| && w'.log[i].Flow() == flow && w'.log[i].Reply() == reply
                              && now < w'.log[i].now + 30 * hz)
  {
    ReachableStep(w, hz, Manage(now));
    ReachableFacts(Step(w, Manage(now)), hz);
    LiveEntries(Step(w, Manage(now)), flow, reply);
  }

  lemma LiveEntries(w: World, flow: Key, reply: Key)
    requires Kept(w) && w.napt.timeout > 0
    ensures (exists p :: p in w.napt.heap && w.napt.heap[p].fwdKey == flow && w.napt.heap[p].revKey == reply)
            <==> (exists i :: 0 <= i < |w.log| && w.log[i].Flow() == flow && w.log[i].Reply() == reply
                              && Recent(w, w.log[i]))
  {
    if p :| p in w.napt.heap && w.napt.heap[p].fwdKey == flow && w.napt.heap[p].revKey == reply {
      assert LastSet(w.log, w.napt.heap[p], w.napt.timeout);
    }
    if i :| 0 <= i < |w.log| && w.log[i].Flow() == flow && w.log[i].Reply() == reply && Recent(w, w.log[i]) {
      assert Held(w.napt, w.log[i]);
    }
  }
}
