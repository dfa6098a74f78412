/** The version 4 dynamic NAT (nat_project/version4/static_nat.c): one pass over the
    slots both releases the idle ones and finds the lowest free one. */
module PoolV4 {
  import opened Wire
  import opened PoolCore

  const IDLE_SEC := 5

  /** Clock readings while one packet is handled: at the slot search, then at the stamp. */
  datatype Reading = Reading(search: nat, stamp: nat)

  // ------------------------------------------------------- one packet's work

  /** The simple two-phase search: release every idle slot, then take the lowest free one. */
  function TwoPhase(p: Pool, now: nat, idle: nat): (Pool, int) {
    var p' := Released(p, now, idle);
    (p', LowestFree(p'.slots))
  }

  predicate Mapped(p: Pool, m: Frame) {
    m.srcIp in p.index
  }

  function AfterFrame(p: Pool, idle: nat, m: Frame, t: Reading): (p': Pool)
    requires Agree(p)
    ensures Agree(p') && |p'.slots| == |p.slots|
  {
    if m.etherType != ETHER_IPV4 then p
    else if Mapped(p, m) then
      RefreshedAgrees(p, m.srcIp, t.stamp);
      Refreshed(p, m.srcIp, t.stamp)
    else
      var (q, slot) := TwoPhase(p, t.search, idle);
      ReleasedAgrees(p, t.search, idle);
      if slot < 0 then q
      else
        AssignedAgrees(q, slot, m.srcIp, t.stamp);
        Assigned(q, slot, m.srcIp, t.stamp)
  }

  /** None: dropped, the buffer pointer is set to NULL. */
  function Output(p: Pool, idle: nat, m: Frame, t: Reading): Option<Frame>
    requires Agree(p)
  {
    if m.etherType != ETHER_IPV4 then Some(m)
    else
      var p' := AfterFrame(p, idle, m, t);
      if m.srcIp in p'.index then Some(m.(srcIp := p'.slots[p'.index[m.srcIp]].publicIp)) else None
  }

  // ------------------------------------------------------------- the code

  class NatPool {
    const entries: array<Slot>
    const idleTsc: nat
    var index: map<U32, nat>

    constructor (start: U32, range: U32, hz: nat)
      ensures fresh(entries) && idleTsc == hz * IDLE_SEC
      ensures Value() == NewPool(start, range) && Agree(Value())
    {
      entries := new Slot[range](i => Slot(0, PublicIp(start, if i < 0 then 0 else i), 0, false));
      idleTsc := hz * IDLE_SEC;
      index := map[];
    }

    function Value(): Pool
      reads this, entries
    {
      Pool(entries[..], index)
    }

    /** One pass over any pool, well-formed or not, gives the same slots, the same
        index and the same answer as the two-phase search. */
    method FindFreeSlot(now: nat) returns (freeSlot: int)
      modifies this, entries
      ensures (Value(), freeSlot) == TwoPhase(old(Value()), now, idleTsc)
    {
      ghost var p := Value();
      freeSlot := -1;
      var i := 0;
      while i < entries.Length
        invariant 0 <= i <= entries.Length == |p.slots|
        invariant forall j :: 0 <= j < i ==> entries[j] == ReleasedSlot(p.slots[j], now, idleTsc)
        invariant forall j :: i <= j < entries.Length ==> entries[j] == p.slots[j]
        invariant index == p.index - IdleKeys(p.slots, now, idleTsc, i)
        invariant freeSlot == -1 || (0 <= freeSlot < i && !entries[freeSlot].inUse)
        invariant forall j :: 0 <= j < (if freeSlot == -1 then i else freeSlot) ==> entries[j].inUse
      {
        IdleKeysStep(p.slots, now, idleTsc, i);
        if !entries[i].inUse {
          if freeSlot == -1 {
            freeSlot := i;
          }
        } else if now - entries[i].lastSeen >= idleTsc {
          index := index - {entries[i].privateIp};
          entries[i] := entries[i].(inUse := false, privateIp := 0, lastSeen := 0);
          if freeSlot == -1 {
            freeSlot := i;
          }
        }
        i := i + 1;
      }
      assert entries[..] == Released(p, now, idleTsc).slots;
    }

    /** The body of the burst loop for buffer `i`. */
    method ApplyOne(bufs: array<Option<Frame>>, i: nat, t: Reading)
      requires Agree(Value())
      requires i < bufs.Length && bufs[i].Some?
      modifies this, entries, bufs
      ensures Value() == AfterFrame(old(Value()), idleTsc, old(bufs[i].value), t)
      ensures bufs[..] == old(bufs[..])[i := Output(old(Value()), idleTsc, old(bufs[i].value), t)]
      ensures Agree(Value())
    {
      var m := bufs[i].value;
      if m.etherType != ETHER_IPV4 {
        return;
      }
      ghost var p := Value();
      if m.srcIp in index {
        var slot := index[m.srcIp];
        entries[slot] := entries[slot].(lastSeen := t.stamp);
        bufs[i] := Some(m.(srcIp := entries[slot].publicIp));
      } else {
        var slot := FindFreeSlot(t.search);
        ReleasedAgrees(p, t.search, idleTsc);
        if slot < 0 {
          bufs[i] := None;
          return;
        }
        entries[slot] := entries[slot].(privateIp := m.srcIp, inUse := true, lastSeen := t.stamp);
        index := index[m.srcIp := slot];
        bufs[i] := Some(m.(srcIp := entries[slot].publicIp));
      }
    }
  }

  // ------------------------------------------------------------------- runs

  datatype Arrival = Arrival(m: Frame, t: Reading)

  /** `log` records the IPv4 packets that left, as they left. */
  datatype World = World(pool: Pool, clock: nat, log: seq<Use>)

  ghost predicate Possible(w: World, a: Arrival) {
    Agree(w.pool) && w.clock <= a.t.search <= a.t.stamp
  }

  ghost function Step(w: World, idle: nat, a: Arrival): (w': World)
    requires Possible(w, a)
    ensures Agree(w'.pool)
  {
    World(AfterFrame(w.pool, idle, a.m, a.t), a.t.stamp,
          match Output(w.pool, idle, a.m, a.t)
          case Some(out) =>
            if a.m.etherType == ETHER_IPV4 then w.log + [Use(a.t.stamp, a.m.srcIp, out.srcIp)] else w.log
          case None => w.log)
  }

  ghost predicate IsRun(w: World, idle: nat, run: seq<Arrival>)
    decreases |run|, 0
  {
    && Agree(w.pool)
    && (run != [] ==> IsRun(w, idle, run[..|run| - 1])
                      && Possible(Exec(w, idle, run[..|run| - 1]), run[|run| - 1]))
  }

  ghost function Exec(w: World, idle: nat, run: seq<Arrival>): (w': World)
    requires IsRun(w, idle, run)
    ensures Agree(w'.pool)
    decreases |run|, 1
  {
    if run == [] then w else Step(Exec(w, idle, run[..|run| - 1]), idle, run[|run| - 1])
  }

  function Start(start: U32, range: U32): (w: World)
    ensures Agree(w.pool)
  {
    NewPoolAgrees(start, range);
    World(NewPool(start, range), 0, [])
  }

  ghost predicate Reachable(w: World, start: U32, range: U32, idle: nat) {
    exists run :: IsRun(Start(start, range), idle, run) && w == Exec(Start(start, range), idle, run)
  }

  ghost predicate Kept(w: World, start: U32, range: nat) {
    && Agree(w.pool) && Publics(w.pool, start, range)
    && History(w.log, w.pool, w.clock)
  }

  lemma MappedKept(w: World, start: U32, range: nat, idle: nat, a: Arrival)
    requires Possible(w, a) && Kept(w, start, range) && a.m.etherType == ETHER_IPV4 && Mapped(w.pool, a.m)
    ensures Kept(Step(w, idle, a), start, range)
  {
    var p := w.pool;
    StampedHistory(w.log, p, Step(w, idle, a).pool, p.index[a.m.srcIp], a.m.srcIp, w.clock, a.t.stamp);
  }

  lemma UnmappedKept(w: World, start: U32, range: nat, idle: nat, a: Arrival)
    requires Possible(w, a) && Kept(w, start, range) && a.m.etherType == ETHER_IPV4 && !Mapped(w.pool, a.m)
    ensures Kept(Step(w, idle, a), start, range)
  {
    var (q, slot) := TwoPhase(w.pool, a.t.search, idle);
    ReleasedAgrees(w.pool, a.t.search, idle);
    FreedHistory(w.log, w.pool, q, w.clock, a.t.search);
    var w' := Step(w, idle, a);
    if slot >= 0 {
      AssignKept(q, w.log, start, range, slot, a.m.srcIp, a.t.search, a.t.stamp);
      assert w'.pool == Assigned(q, slot, a.m.srcIp, a.t.stamp);
    } else {
      assert w'.pool == q && w'.log == w.log;
    }
  }

  lemma AssignKept(q: Pool, log: seq<Use>, start: U32, range: nat, slot: nat, src: U32, before: nat, at: nat)
    requires Agree(q) && Publics(q, start, range) && History(log, q, before) && before <= at
    requires slot < |q.slots| && !q.slots[slot].inUse && src !in q.index
    ensures var p := Assigned(q, slot, src, at);
            Kept(World(p, at, log + [Use(at, src, q.slots[slot].publicIp)]), start, range)
  {
    AssignedAgrees(q, slot, src, at);
    StampedHistory(log, q, Assigned(q, slot, src, at), slot, src, before, at);
  }

  lemma StepKept(w: World, start: U32, range: nat, idle: nat, a: Arrival)
    requires Possible(w, a) && Kept(w, start, range)
    ensures Kept(Step(w, idle, a), start, range)
  {
    if a.m.etherType == ETHER_IPV4 {
      if Mapped(w.pool, a.m) {
        MappedKept(w, start, range, idle, a);
      } else {
        UnmappedKept(w, start, range, idle, a);
      }
    }
  }

  lemma {:induction false} RunKept(start: U32, range: U32, idle: nat, run: seq<Arrival>)
    requires IsRun(Start(start, range), idle, run)
    ensures Kept(Exec(Start(start, range), idle, run), start, range)
  {
    if run == [] {
      NewPoolAgrees(start, range);
    } else {
      RunKept(start, range, idle, run[..|run| - 1]);
      StepKept(Exec(Start(start, range), idle, run[..|run| - 1]), start, range, idle, run[|run| - 1]);
    }
  }

  // ------------------------------------------------------ the main results

  /** A slot is busy when a packet of the private address that owns it was sent out
      through it less than the idle time before `now`. */
  ghost predicate BusySlot(w: World, i: nat, now: nat, idle: nat)
    requires i < |w.pool.slots|
  {
    var s := w.pool.slots[i];
    s.inUse && exists j :: 0 <= j < |w.log| && w.log[j].src == s.privateIp
                           && w.log[j].pub == s.publicIp && now - w.log[j].at < idle
  }

  lemma BusyIffNotIdle(w: World, start: U32, range: nat, i: nat, now: nat, idle: nat)
    requires Kept(w, start, range) && i < |w.pool.slots|
    ensures BusySlot(w, i, now, idle) <==> w.pool.slots[i].inUse && !IsIdle(w.pool.slots[i], now, idle)
  {
    var s := w.pool.slots[i];
    if s.inUse {
      assert Backed(w.log, s);
    }
  }

  /** Over every run, a packet is dropped exactly when it is IPv4, its source has no
      slot, and every slot of the pool is busy; the owners are then all distinct. */
  lemma DropIffEverySlotBusy(w: World, start: U32, range: U32, idle: nat, a: Arrival)
    requires Reachable(w, start, range, idle) && Possible(w, a)
    ensures Output(w.pool, idle, a.m, a.t).None? <==>
              && a.m.etherType == ETHER_IPV4 && !Mapped(w.pool, a.m)
              && forall i :: 0 <= i < |w.pool.slots| ==> BusySlot(w, i, a.t.search, idle)
    ensures Output(w.pool, idle, a.m, a.t).None? ==>
              forall i, j :: 0 <= i < j < |w.pool.slots| ==>
                w.pool.slots[i].privateIp != w.pool.slots[j].privateIp
  {
    var run :| IsRun(Start(start, range), idle, run) && w == Exec(Start(start, range), idle, run);
    RunKept(start, range, idle, run);
    DropIff(w, start, range, idle, a);
  }

  lemma DropIff(w: World, start: U32, range: U32, idle: nat, a: Arrival)
    requires Kept(w, start, range)
    ensures Output(w.pool, idle, a.m, a.t).None? <==>
              && a.m.etherType == ETHER_IPV4 && !Mapped(w.pool, a.m)
              && forall i :: 0 <= i < |w.pool.slots| ==> BusySlot(w, i, a.t.search, idle)
    ensures Output(w.pool, idle, a.m, a.t).None? ==>
              forall i :: 0 <= i < |w.pool.slots| ==> w.pool.slots[i].inUse
  {
    var q := Released(w.pool, a.t.search, idle);
    ReleasedAgrees(w.pool, a.t.search, idle);
    forall i | 0 <= i < |w.pool.slots|
      ensures BusySlot(w, i, a.t.search, idle) <==> q.slots[i].inUse
      ensures q.slots[i].inUse ==> w.pool.slots[i].inUse
    {
      BusyIffNotIdle(w, start, range, i, a.t.search, idle);
    }
    assert (forall i :: 0 <= i < |q.slots| ==> q.slots[i].inUse)
      <==> (forall i :: 0 <= i < |w.pool.slots| ==> BusySlot(w, i, a.t.search, idle));
  }

  // ------------------------------------------------------- what leaves the box

  /** Over every run, an IPv4 packet that is not dropped leaves from the address of the
      one slot in use for its source, and other packets leave as they came. */
  lemma PacketLeavesTranslated(w: World, start: U32, range: U32, idle: nat, a: Arrival)
    requires Reachable(w, start, range, idle) && Possible(w, a)
    ensures var out, w' := Output(w.pool, idle, a.m, a.t), Step(w, idle, a);
            if a.m.etherType != 0x0800 then
              out == Some(a.m) && w'.pool == w.pool
            else out.Some? ==>
              && w'.log == w.log + [Use(a.t.stamp, a.m.srcIp, out.value.srcIp)]
              && exists i :: 0 <= i < range && OwnSlot(w'.pool, i, a.m.srcIp, a.t.stamp)
                             && out == Some(a.m.(srcIp := PublicIp(start, i)))
  {
    ReachableKept(w, start, range, idle);
    if a.m.etherType == ETHER_IPV4 && Output(w.pool, idle, a.m, a.t).Some? {
      StepKept(w, start, range, idle, a);
      LeavesFromOwnSlot(w.pool, idle, a.m, a.t);
    }
  }

  lemma LeavesFromOwnSlot(p: Pool, idle: nat, m: Frame, t: Reading)
    requires Agree(p) && m.etherType == ETHER_IPV4 && Output(p, idle, m, t).Some?
    ensures var p' := AfterFrame(p, idle, m, t);
            && m.srcIp in p'.index && OwnSlot(p', p'.index[m.srcIp], m.srcIp, t.stamp)
            && Output(p, idle, m, t) == Some(m.(srcIp := p'.slots[p'.index[m.srcIp]].publicIp))
  {
    ReleasedAgrees(p, t.search, idle);
  }

  lemma ReachableKept(w: World, start: U32, range: U32, idle: nat)
    requires Reachable(w, start, range, idle)
    ensures Kept(w, start, range)
  {
    var run :| IsRun(Start(start, range), idle, run) && w == Exec(Start(start, range), idle, run);
    RunKept(start, range, idle, run);
  }

  // --------------------------------------------------------------- stability

  /** Every packet sent less than the idle time ago still has its mapping. */
  ghost predicate AllInPlace(w: World, idle: nat) {
    forall i :: 0 <= i < |w.log| && w.clock < w.log[i].at + idle ==> InPlace(w.pool, w.log[i])
  }

  /** A mapping in use survives the search for a free slot and the stamp after it. */
  lemma InPlaceStep(w: World, idle: nat, a: Arrival, r: Use)
    requires Possible(w, a) && InPlace(w.pool, r) && r.at <= w.clock && a.t.stamp < r.at + idle
    ensures InPlace(Step(w, idle, a).pool, r)
  {
    if a.m.etherType == ETHER_IPV4 {
      if Mapped(w.pool, a.m) {
        StampInPlace(w.pool, Step(w, idle, a).pool, w.pool.index[a.m.srcIp], a.m.srcIp, a.t.stamp, r);
      } else {
        var (q, slot) := TwoPhase(w.pool, a.t.search, idle);
        ReleasedAgrees(w.pool, a.t.search, idle);
        assert InPlace(q, r);
        if slot >= 0 {
          StampInPlace(q, Step(w, idle, a).pool, slot, a.m.srcIp, a.t.stamp, r);
        }
      }
    }
  }

  lemma ArrivalInPlace(w: World, idle: nat, a: Arrival)
    requires Possible(w, a)
    ensures var w' := Step(w, idle, a);
            || w'.log == w.log
            || (w'.log == w.log + [w'.log[|w.log|]] && w'.log[|w.log|].at == a.t.stamp
                && InPlace(w'.pool, w'.log[|w.log|]))
  {
  }

  lemma StableStep(w: World, start: U32, range: U32, idle: nat, a: Arrival)
    requires Kept(w, start, range) && Possible(w, a) && AllInPlace(w, idle) && LocallyStable(w.log, idle)
    ensures AllInPlace(Step(w, idle, a), idle) && LocallyStable(Step(w, idle, a).log, idle)
  {
    var w' := Step(w, idle, a);
    ArrivalInPlace(w, idle, a);
    forall i | 0 <= i < |w.log| && w'.clock < w.log[i].at + idle ensures InPlace(w'.pool, w.log[i]) {
      InPlaceStep(w, idle, a, w.log[i]);
    }
  }

  lemma {:induction false} RunIsStable(start: U32, range: U32, idle: nat, run: seq<Arrival>)
    requires IsRun(Start(start, range), idle, run)
    ensures var w := Exec(Start(start, range), idle, run);
            AllInPlace(w, idle) && LocallyStable(w.log, idle)
  {
    if run != [] {
      var before := run[..|run| - 1];
      RunIsStable(start, range, idle, before);
      RunKept(start, range, idle, before);
      StableStep(Exec(Start(start, range), idle, before), start, range, idle, run[|run| - 1]);
    }
  }

  /** Without a table timer a private address whose consecutive packets are less than
      the idle time apart keeps one public address over every run whatever. */
  lemma SteadyUseKeepsAddress(w: World, start: U32, range: U32, idle: nat, src: U32, i: nat, j: nat)
    requires Reachable(w, start, range, idle) && InSteadyUse(w.log, src, idle)
    requires i < j < |w.log| && w.log[i].src == src && w.log[j].src == src
    ensures w.log[i].pub == w.log[j].pub
  {
    var run :| IsRun(Start(start, range), idle, run) && w == Exec(Start(start, range), idle, run);
    RunIsStable(start, range, idle, run);
    ChainKeepsAddress(w.log, idle, src, i, j);
  }

  /** And of the packets sent within the idle time, or that still have their mapping, two
      left from one address exactly when they came from one source. */
  lemma SourcesLeaveApart(w: World, start: U32, range: U32, idle: nat, i: nat, j: nat)
    requires Reachable(w, start, range, idle) && i < |w.log| && j < |w.log|
    requires w.clock < w.log[i].at + idle || InPlace(w.pool, w.log[i])
    requires w.clock < w.log[j].at + idle || InPlace(w.pool, w.log[j])
    ensures w.log[i].src == w.log[j].src <==> w.log[i].pub == w.log[j].pub
  {
    var run :| IsRun(Start(start, range), idle, run) && w == Exec(Start(start, range), idle, run);
    RunIsStable(start, range, idle, run);
    ReachableKept(w, start, range, idle);
    InPlaceTogether(w.pool, start, range, w.log[i], w.log[j]);
  }
}
