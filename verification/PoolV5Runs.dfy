/** Whole runs of the version 5 NAT: timer manages, bursts and their packets, at
    times that never go back. Main results: the index and the slots agree in every
    reachable state, and packets are dropped only when they must be. */
module PoolV5Runs {
  import opened Wire
  import opened PoolCore
  import opened PoolV5

  /** `Arm` is the start of a burst, `Arrive` one packet of it, `Reset` a call of
      nat_pool_reset from outside the main loop. */
  datatype Event =
    | Manage(cur: nat, now: nat)
    | Arm(at: nat)
    | Arrive(at: nat, m: Frame)
    | Reset(at: nat)

  /** `log` records the outbound packets that left, as they left; `fired` is when the
      callbacks last read the clock, `armed` when the last burst began. */
  datatype World = World(s: Nat, clock: nat, fired: nat, armed: nat, log: seq<Use>)

  ghost predicate Possible(w: World, e: Event) {
    && Agree(w.s.pool)
    && match e
       case Manage(cur, now) => w.clock <= cur <= now
       case Arm(at) => w.clock <= at
       case Arrive(at, m) => w.clock <= at
       case Reset(at) => w.clock <= at
  }

  ghost function Step(w: World, e: Event): (w': World)
    requires Possible(w, e)
    ensures Agree(w'.s.pool)
    ensures w'.s.hz == w.s.hz && w'.s.inbound == w.s.inbound && w.clock <= w'.clock
  {
    match e
    case Manage(cur, now) =>
      ManageAgrees(w.s, cur, now);
      w.(s := AfterManage(w.s, cur, now), clock := now, fired := now)
    case Arm(at) => w.(s := Armed(w.s, at), clock := at, armed := at)
    case Arrive(at, m) =>
      var s' := AfterFrame(w.s, m, at);
      w.(s := s', clock := at,
         log := match Output(w.s, m, at)
                case Some(out) => if Outbound(w.s, m) then w.log + [Use(at, m.srcIp, out.srcIp)] else w.log
                case None => w.log)
    case Reset(at) => w.(s := AfterReset(w.s), clock := at)
  }

  ghost predicate IsRun(w: World, es: seq<Event>)
    decreases |es|, 0
  {
    && Agree(w.s.pool)
    && (es != [] ==> IsRun(w, es[..|es| - 1]) && Possible(Exec(w, es[..|es| - 1]), es[|es| - 1]))
  }

  ghost function Exec(w: World, es: seq<Event>): (w': World)
    requires IsRun(w, es)
    ensures Agree(w'.s.pool)
    decreases |es|, 1
  {
    if es == [] then w else Step(Exec(w, es[..|es| - 1]), es[|es| - 1])
  }

  /** What a pool is created with. */
  datatype Setup = Setup(start: U32, range: U32, inbound: map<U32, U32>, hz: nat)

  function Begin(u: Setup): (w: World)
    ensures Agree(w.s.pool)
  {
    NewPoolAgrees(u.start, u.range);
    World(Start(u.start, u.range, u.inbound, u.hz, 0), 0, 0, 0, [])
  }

  ghost predicate Reachable(w: World, u: Setup) {
    exists es :: IsRun(Begin(u), es) && w == Exec(Begin(u), es)
  }

  lemma ReachableStart(u: Setup)
    ensures Reachable(Begin(u), u)
  {
    assert IsRun(Begin(u), []) && Exec(Begin(u), []) == Begin(u);
  }

  lemma Next(w: World, u: Setup, e: Event) returns (w': World)
    requires Reachable(w, u) && Possible(w, e)
    ensures Reachable(w', u) && w' == Step(w, e)
  {
    var es :| IsRun(Begin(u), es) && w == Exec(Begin(u), es);
    var longer := es + [e];
    assert longer[..|longer| - 1] == es;
    assert IsRun(Begin(u), longer) && Exec(Begin(u), longer) == Step(w, e);
    w' := Step(w, e);
  }

  // ---------------------------------------------------- turns of the main loop

  /** Times that never go back, from `t` on. */
  ghost predicate Timely(t: nat, times: seq<nat>) {
    && (forall i :: 0 <= i < |times| ==> t <= times[i])
    && (forall i, j :: 0 <= i < j < |times| ==> times[i] <= times[j])
  }

  function Turn(cur: nat, now: nat, arm: nat, ms: seq<Frame>, times: seq<nat>): seq<Event>
    requires |ms| == |times|
  {
    [Manage(cur, now), Arm(arm)] + seq(|ms|, i requires 0 <= i < |ms| => Arrive(times[i], ms[i]))
  }

  /** A turn of the main loop that received a burst is a run of these events: they end
      in the state that `NatPool.MainTurn` leaves. */
  lemma {:induction false} TurnIsRun(w: World, cur: nat, now: nat, arm: nat, ms: seq<Frame>, times: seq<nat>)
    requires Possible(w, Manage(cur, now)) && now <= arm && |ms| == |times| && Timely(arm, times)
    ensures Agree(AfterManage(w.s, cur, now).pool)
    ensures IsRun(w, Turn(cur, now, arm, ms, times))
    ensures var w' := Exec(w, Turn(cur, now, arm, ms, times));
            && w'.s == AfterBurst(Armed(AfterManage(w.s, cur, now), arm), ms, times)
            && arm <= w'.clock && (|ms| > 0 ==> w'.clock == times[|ms| - 1])
  {
    ManageAgrees(w.s, cur, now);
    var es, n := Turn(cur, now, arm, ms, times), |ms|;
    if n == 0 {
      TurnStarts(w, cur, now, arm);
      assert es == [Manage(cur, now), Arm(arm)];
    } else {
      TurnIsRun(w, cur, now, arm, ms[..n - 1], times[..n - 1]);
      assert es[..|es| - 1] == Turn(cur, now, arm, ms[..n - 1], times[..n - 1]);
      assert es[|es| - 1] == Arrive(times[n - 1], ms[n - 1]);
    }
  }

  lemma TurnStarts(w: World, cur: nat, now: nat, arm: nat)
    requires Possible(w, Manage(cur, now)) && now <= arm
    ensures IsRun(w, [Manage(cur, now), Arm(arm)])
    ensures var w' := Exec(w, [Manage(cur, now), Arm(arm)]);
            w'.s == Armed(AfterManage(w.s, cur, now), arm) && w'.clock == arm
  {
    OneEvent(w, Manage(cur, now));
    assert [Manage(cur, now), Arm(arm)][..1] == [Manage(cur, now)];
  }

  lemma OneEvent(w: World, e: Event)
    requires Possible(w, e)
    ensures IsRun(w, [e]) && Exec(w, [e]) == Step(w, e)
  {
    assert [e][..0] == [];
    assert IsRun(w, []) && Exec(w, []) == w;
  }

  // ------------------------------------------------- what every run keeps

  ghost predicate Kept(w: World, u: Setup) {
    && w.s.hz == u.hz && w.s.inbound == u.inbound
    && Agree(w.s.pool) && Publics(w.s.pool, u.start, u.range)
    && History(w.log, w.s.pool, w.clock)
    && w.fired <= w.clock && w.armed <= w.clock
    && (w.s.table.Some? ==> w.s.table.value == w.armed + u.hz * TABLE_SEC)
    && (w.s.started <==> w.s.table.Some?)
    && w.s.expiry <= w.fired + u.hz * EXPIRY_SEC
  }

  lemma StepKept(w: World, u: Setup, e: Event)
    requires Possible(w, e) && Kept(w, u)
    ensures Kept(Step(w, e), u)
  {
    var p, w' := w.s.pool, Step(w, e);
    match e
    case Manage(cur, now) => FreedHistory(w.log, p, w'.s.pool, w.clock, now);
    case Arm(at) => FreedHistory(w.log, p, p, w.clock, at);
    case Reset(at) => FreedHistory(w.log, p, w'.s.pool, w.clock, at);
    case Arrive(at, m) =>
      if Outbound(w.s, m) && m.srcIp in p.index {
        StampedHistory(w.log, p, w'.s.pool, p.index[m.srcIp], m.srcIp, w.clock, at);
      } else if Outbound(w.s, m) && LowestFree(p.slots) >= 0 {
        StampedHistory(w.log, p, w'.s.pool, LowestFree(p.slots), m.srcIp, w.clock, at);
      } else {
        FreedHistory(w.log, p, p, w.clock, at);
      }
  }

  lemma {:induction false} RunKept(u: Setup, es: seq<Event>)
    requires IsRun(Begin(u), es)
    ensures Kept(Exec(Begin(u), es), u)
  {
    if es == [] {
      NewPoolAgrees(u.start, u.range);
    } else {
      RunKept(u, es[..|es| - 1]);
      StepKept(Exec(Begin(u), es[..|es| - 1]), u, es[|es| - 1]);
    }
  }

  lemma ReachableKept(w: World, u: Setup)
    requires Reachable(w, u)
    ensures Kept(w, u)
  {
    var es :| IsRun(Begin(u), es) && w == Exec(Begin(u), es);
    RunKept(u, es);
  }

  // ------------------------------------------------- agreement and drops

  /** In every reachable state: index and slots describe the same mapping, which is
      one to one, every slot still has the public address it was created with, and
      the index holds as many addresses as there are slots in use. */
  lemma PoolAgreesInEveryReachableState(w: World, u: Setup, k: U32, i: nat, l: U32)
    requires Reachable(w, u)
    ensures var p := w.s.pool;
            && |p.index| == |Used(p)| <= |p.slots| == u.range
            && (k in p.index && p.index[k] == i <==>
                i < |p.slots| && p.slots[i].inUse && p.slots[i].privateIp == k)
            && (i < u.range ==> p.slots[i].publicIp == PublicIp(u.start, i))
            && (k in p.index && l in p.index && k != l ==>
                p.slots[p.index[k]].publicIp != p.slots[p.index[l]].publicIp)
  {
    ReachableKept(w, u);
    IndexCountsUsedSlots(w.s.pool);
    if k in w.s.pool.index && l in w.s.pool.index {
      TranslationIsInjective(w.s.pool, u.start, u.range, k, l);
    }
  }

  /** A timer manage a second or more after the one before leaves no idle slot in use. */
  lemma ManageASecondLaterReleasesIdle(w: World, u: Setup, cur: nat, now: nat, i: nat)
    requires Reachable(w, u) && Possible(w, Manage(cur, now)) && w.fired + u.hz <= cur
    requires i < |Step(w, Manage(cur, now)).s.pool.slots|
    ensures !IsIdle(Step(w, Manage(cur, now)).s.pool.slots[i], now, u.hz * IDLE_SEC)
  {
    ReachableKept(w, u);
    if u.hz == 0 { assert w.s.expiry <= cur; }
  }

  /** What a timer manage does: it empties the table exactly when the last burst began 10 s
      ago or more and the table was not emptied since; else it releases idle mappings
      only, and those not before the next second is due. */
  lemma ManageEmptiesAfterTenSeconds(w: World, u: Setup, cur: nat, now: nat)
    requires Reachable(w, u) && Possible(w, Manage(cur, now))
    ensures var p, w' := w.s.pool, Step(w, Manage(cur, now));
            && (if w.s.started && w.armed + 10 * u.hz <= cur
                then w'.s.pool.index == map[] && !w'.s.started && w'.s.table == None
                     && forall i :: 0 <= i < |w'.s.pool.slots| ==> !w'.s.pool.slots[i].inUse
                else w'.s.started == w.s.started
                     && forall k <- p.index ::
                          (k in w'.s.pool.index && w'.s.pool.index[k] == p.index[k])
                          || now - p.slots[p.index[k]].lastSeen >= 5 * u.hz)
            && (cur < w.s.expiry && !(w.s.started && w.armed + 10 * u.hz <= cur) ==> w'.s.pool == p)
            && w'.s.expiry == w.s.expiry + if w.s.expiry <= cur then u.hz else 0
  {
    ReachableKept(w, u);
    ReleasedAgrees(w.s.pool, now, u.hz * IDLE_SEC);
  }

  /** A packet is dropped exactly when it is IPv4, neither map knows it and every slot
      is in use; otherwise an outbound packet leaves from an address of the pool. */
  lemma DropIffUnmappedAndFull(w: World, u: Setup, at: nat, m: Frame)
    requires Reachable(w, u) && Possible(w, Arrive(at, m))
    ensures Output(w.s, m, at).None? <==>
              && m.etherType == ETHER_IPV4 && m.dstIp !in u.inbound && m.srcIp !in w.s.pool.index
              && forall i :: 0 <= i < |w.s.pool.slots| ==> w.s.pool.slots[i].inUse
    ensures Outbound(w.s, m) && Output(w.s, m, at).Some? ==>
              exists i :: 0 <= i < u.range && Output(w.s, m, at).value == m.(srcIp := PublicIp(u.start, i))
  {
    ReachableKept(w, u);
    var p := w.s.pool;
    var p' := AfterFrame(w.s, m, at).pool;
    if Outbound(w.s, m) && m.srcIp in p'.index {
      var i := p'.index[m.srcIp];
      assert p'.slots[i].publicIp == PublicIp(u.start, i);
    }
  }

  // ------------------------------------------------------- what leaves the box

  /** An outbound packet that is not dropped leaves from the address of the one slot in
      use for its source, and from then on that slot is stamped with its time. All other
      packets leave the pool alone: those that are not IPv4 go out as they came, and those
      for an address of the static map with the address it maps to. */
  lemma PacketLeavesTranslated(w: World, u: Setup, at: nat, m: Frame)
    requires Reachable(w, u) && Possible(w, Arrive(at, m))
    ensures var out, w' := Output(w.s, m, at), Step(w, Arrive(at, m));
            if m.etherType != 0x0800 then
              out == Some(m) && w'.s == w.s
            else if m.dstIp in u.inbound then
              out == Some(m.(dstIp := u.inbound[m.dstIp])) && w'.s == w.s
            else out.Some? ==>
              && w'.log == w.log + [Use(at, m.srcIp, out.value.srcIp)]
              && exists i :: 0 <= i < u.range && OwnSlot(w'.s.pool, i, m.srcIp, at)
                             && out == Some(m.(srcIp := PublicIp(u.start, i)))
  {
    ReachableKept(w, u);
    if Outbound(w.s, m) && Output(w.s, m, at).Some? {
      StepKept(w, u, Arrive(at, m));
      var p' := AfterFrame(w.s, m, at).pool;
      assert OwnSlot(p', p'.index[m.srcIp], m.srcIp, at);
    }
  }

  /** Two outbound packets in a row leave from one address exactly when they come from
      one source, whether their sources had mappings before or not. */
  lemma PacketsInARowLeaveApart(w: World, u: Setup, at: nat, m: Frame, at2: nat, m2: Frame)
    requires Reachable(w, u) && Possible(w, Arrive(at, m)) && Outbound(w.s, m) && Outbound(w.s, m2)
    requires Possible(Step(w, Arrive(at, m)), Arrive(at2, m2))
    requires var w' := Step(w, Arrive(at, m)); Output(w.s, m, at).Some? && Output(w'.s, m2, at2).Some?
    ensures var w' := Step(w, Arrive(at, m));
            Output(w.s, m, at).value.srcIp == Output(w'.s, m2, at2).value.srcIp <==> m.srcIp == m2.srcIp
  {
    var w1 := Next(w, u, Arrive(at, m));
    PacketLeavesTranslated(w, u, at, m);
    PacketLeavesTranslated(w1, u, at2, m2);
    ReachableKept(w1, u);
    var p1, p2 := w1.s.pool, AfterFrame(w1.s, m2, at2).pool;
    var i :| 0 <= i < u.range && OwnSlot(p1, i, m.srcIp, at)
             && Output(w.s, m, at) == Some(m.(srcIp := PublicIp(u.start, i)));
    var j :| 0 <= j < u.range && OwnSlot(p2, j, m2.srcIp, at2)
             && Output(w1.s, m2, at2) == Some(m2.(srcIp := PublicIp(u.start, j)));
    ArrivalKeepsSlots(w1.s, m2, at2, i);
    SameSlotSameSource(u, p2, i, j, m.srcIp, m2.srcIp, at2);
  }

  lemma ArrivalKeepsSlots(s: Nat, m: Frame, at: nat, i: nat)
    requires Agree(s.pool) && i < |s.pool.slots| && s.pool.slots[i].inUse
    ensures var p' := AfterFrame(s, m, at).pool;
            p'.slots[i].inUse && p'.slots[i].privateIp == s.pool.slots[i].privateIp
  {
  }

  lemma SameSlotSameSource(u: Setup, p: Pool, i: nat, j: nat, src: U32, src2: U32, at: nat)
    requires i < |p.slots| == u.range && p.slots[i].inUse && p.slots[i].privateIp == src && OwnSlot(p, j, src2, at)
    ensures PublicIp(u.start, i) == PublicIp(u.start, j) <==> src == src2
  {
    if i < j { PublicsAreDistinct(u.start, u.range, i, j); }
    if j < i { PublicsAreDistinct(u.start, u.range, j, i); }
  }

  /** In every reachable state, packets whose mappings are still in place left from one
      address exactly when they came from one source. */
  lemma SourcesLeaveApart(w: World, u: Setup, i: nat, j: nat)
    requires Reachable(w, u) && i < |w.log| && j < |w.log|
    requires InPlace(w.s.pool, w.log[i]) && InPlace(w.s.pool, w.log[j])
    ensures w.log[i].src == w.log[j].src <==> w.log[i].pub == w.log[j].pub
  {
    ReachableKept(w, u);
    InPlaceTogether(w.s.pool, u.start, u.range, w.log[i], w.log[j]);
  }
}
