/** The version 5 dynamic NAT (nat_project/version5/static_nat.c and main.c): the
    same pool, now emptied by two timers. A periodic one releases idle slots every
    second; a single one, armed again on every burst, clears the whole table after
    ten seconds without traffic. */
module PoolV5 {
  import opened Wire
  import opened PoolCore

  const IDLE_SEC := 5
  const TABLE_SEC := 10
  const EXPIRY_SEC := 1

  /** `inbound` is the static map loaded at start; `table` is the pending deadline of
      the table timer, None while it is not armed; `expiry` that of the periodic one. */
  datatype Nat = Nat(
    pool: Pool, inbound: map<U32, U32>, hz: nat,
    table: Option<nat>, expiry: nat, started: bool)
  {
    function Idle(): nat { hz * IDLE_SEC }
  }

  // ------------------------------------------------------------- operations

  function Start(start: U32, range: U32, inbound: map<U32, U32>, hz: nat, now: nat): Nat {
    Nat(NewPool(start, range), inbound, hz, None, now + hz * EXPIRY_SEC, false)
  }

  predicate TableDue(s: Nat, cur: nat) {
    s.table.Some? && s.table.value <= cur
  }

  /** The periodic timer has fired and is armed for its next period. */
  function AfterExpiry(s: Nat, now: nat): Nat {
    s.(pool := Released(s.pool, now, s.Idle()), expiry := s.expiry + s.hz * EXPIRY_SEC)
  }

  /** The table was cleared, by its timer or by nat_pool_reset; either way the timer
      is stopped now. */
  function AfterReset(s: Nat): Nat {
    s.(pool := Cleared(s.pool), started := false, table := None)
  }

  /** rte_timer_manage at time `cur`, its callbacks reading the clock as `now`. */
  function AfterManage(s: Nat, cur: nat, now: nat): Nat {
    var s1 := if s.expiry <= cur then AfterExpiry(s, now) else s;
    if TableDue(s, cur) then AfterReset(s1) else s1
  }

  function Armed(s: Nat, at: nat): Nat {
    s.(started := true, table := Some(at + s.hz * TABLE_SEC))
  }

  /** The packet is an outbound one: not translated by the static inbound map. */
  predicate Outbound(s: Nat, m: Frame) {
    m.etherType == ETHER_IPV4 && m.dstIp !in s.inbound
  }

  function AfterFrame(s: Nat, m: Frame, at: nat): (s': Nat)
    requires Agree(s.pool)
    ensures Agree(s'.pool) && |s'.pool.slots| == |s.pool.slots|
    ensures s' == s.(pool := s'.pool)
  {
    if !Outbound(s, m) then s
    else if m.srcIp in s.pool.index then
      RefreshedAgrees(s.pool, m.srcIp, at);
      s.(pool := Refreshed(s.pool, m.srcIp, at))
    else
      var slot := LowestFree(s.pool.slots);
      if slot < 0 then s
      else
        AssignedAgrees(s.pool, slot, m.srcIp, at);
        s.(pool := Assigned(s.pool, slot, m.srcIp, at))
  }

  /** None: dropped, the buffer pointer is set to NULL. */
  function Output(s: Nat, m: Frame, at: nat): Option<Frame>
    requires Agree(s.pool)
  {
    if m.etherType != ETHER_IPV4 then Some(m)
    else if m.dstIp in s.inbound then Some(m.(dstIp := s.inbound[m.dstIp]))
    else
      var p' := AfterFrame(s, m, at).pool;
      if m.srcIp in p'.index then Some(m.(srcIp := p'.slots[p'.index[m.srcIp]].publicIp)) else None
  }

  // ------------------------------------------------------------- the code

  class NatPool {
    const entries: array<Slot>
    const hz: nat
    const idleTsc: nat
    var outboundMap: map<U32, nat>
    const inboundMap: map<U32, U32>
    var tableTimer: Option<nat>
    var expiryTimer: nat
    var started: bool

    constructor (start: U32, range: U32, inbound: map<U32, U32>, hz: nat, now: nat)
      ensures fresh(entries) && Valid()
      ensures Value() == Start(start, range, inbound, hz, now)
    {
      entries := new Slot[range](i => Slot(0, PublicIp(start, if i < 0 then 0 else i), 0, false));
      this.hz, idleTsc := hz, hz * IDLE_SEC;
      outboundMap, inboundMap := map[], inbound;
      tableTimer, expiryTimer, started := None, now + hz * EXPIRY_SEC, false;
    }

    predicate Valid()
    {
      idleTsc == hz * IDLE_SEC
    }

    function Value(): Nat
      reads this, entries
    {
      Nat(Pool(entries[..], outboundMap), inboundMap, hz, tableTimer, expiryTimer, started)
    }

    /** Timer 1: release idle slots. */
    method ExpiryTimerCb(now: nat)
      requires Valid()
      modifies this`outboundMap, entries
      ensures Value() == old(Value()).(pool := Released(old(Value()).pool, now, idleTsc))
    {
      ghost var p := Value().pool;
      ghost var q := Released(p, now, idleTsc);
      var i := 0;
      while i < entries.Length
        invariant 0 <= i <= entries.Length == |p.slots|
        invariant forall j :: 0 <= j < i ==> entries[j] == q.slots[j]
        invariant forall j :: i <= j < entries.Length ==> entries[j] == p.slots[j]
        invariant outboundMap == p.index - IdleKeys(p.slots, now, idleTsc, i)
      {
        IdleKeysStep(p.slots, now, idleTsc, i);
        if entries[i].inUse && now - entries[i].lastSeen >= idleTsc {
          outboundMap := outboundMap - {entries[i].privateIp};
          entries[i] := entries[i].(inUse := false, privateIp := 0, lastSeen := 0);
        }
        i := i + 1;
      }
      assert entries[..] == q.slots;
    }

    /** Timer 2: clear the whole table; it was a single timer, so it is now stopped. */
    method TableTimerCb()
      modifies this`outboundMap, this`tableTimer, this`started, entries
      ensures Value() == AfterReset(old(Value()))
    {
      tableTimer := None;
      Clear();
    }

    /** nat_pool_reset: stop the table timer, then the same as its callback. */
    method Reset()
      modifies this`outboundMap, this`tableTimer, this`started, entries
      ensures Value() == AfterReset(old(Value()))
    {
      tableTimer := None;
      Clear();
    }

    method Clear()
      modifies this`outboundMap, this`started, entries
      ensures Value() == old(Value()).(pool := Cleared(old(Value()).pool), started := false)
    {
      var i := 0;
      while i < entries.Length
        invariant 0 <= i <= entries.Length
        invariant forall j :: 0 <= j < i ==> entries[j] == Freed(old(entries[j]))
        invariant forall j :: i <= j < entries.Length ==> entries[j] == old(entries[j])
      {
        entries[i] := entries[i].(inUse := false, privateIp := 0, lastSeen := 0);
        i := i + 1;
      }
      outboundMap := map[];
      started := false;
      assert entries[..] == Cleared(old(Value()).pool).slots;
    }

    method TimerManage(cur: nat, now: nat)
      requires Valid()
      modifies this, entries
      ensures Value() == AfterManage(old(Value()), cur, now)
    {
      var tableDue := tableTimer.Some? && tableTimer.value <= cur;
      if expiryTimer <= cur {
        ExpiryTimerCb(now);
        expiryTimer := expiryTimer + hz * EXPIRY_SEC;
      }
      if tableDue {
        TableTimerCb();
      }
    }

    method FindFreeSlot() returns (slot: int)
      ensures slot == LowestFree(entries[..])
    {
      var i := 0;
      while i < entries.Length
        invariant 0 <= i <= entries.Length
        invariant forall j :: 0 <= j < i ==> entries[j].inUse
      {
        if !entries[i].inUse {
          return i;
        }
        i := i + 1;
      }
      return -1;
    }

    /** The body of the burst loop for buffer `i`. */
    method ApplyOne(bufs: array<Option<Frame>>, i: nat, at: nat)
      requires Valid() && Agree(Value().pool)
      requires i < bufs.Length && bufs[i].Some?
      modifies this`outboundMap, entries, bufs
      ensures Value() == AfterFrame(old(Value()), old(bufs[i].value), at)
      ensures bufs[..] == old(bufs[..])[i := Output(old(Value()), old(bufs[i].value), at)]
      ensures Agree(Value().pool)
    {
      var m := bufs[i].value;
      if m.etherType != ETHER_IPV4 {
        return;
      }
      if m.dstIp in inboundMap {
        bufs[i] := Some(m.(dstIp := inboundMap[m.dstIp]));
        return;
      }
      if m.srcIp in outboundMap {
        var slot := outboundMap[m.srcIp];
        entries[slot] := entries[slot].(lastSeen := at);
        bufs[i] := Some(m.(srcIp := entries[slot].publicIp));
        return;
      }
      var slot := FindFreeSlot();
      if slot < 0 {
        bufs[i] := None;
        return;
      }
      entries[slot] := entries[slot].(privateIp := m.srcIp, inUse := true, lastSeen := at);
      outboundMap := outboundMap[m.srcIp := slot];
      bufs[i] := Some(m.(srcIp := entries[slot].publicIp));
    }

    /** nat_pool_apply on a burst `ms` whose packets are handled at `times`. */
    method Apply(bufs: array<Option<Frame>>, times: seq<nat>, ghost ms: seq<Frame>)
      requires Valid() && Agree(Value().pool)
      requires bufs.Length == |times| == |ms|
      requires forall i :: 0 <= i < bufs.Length ==> bufs[i] == Some(ms[i])
      modifies this`outboundMap, entries, bufs
      ensures Value() == AfterBurst(old(Value()), ms, times) && Agree(Value().pool)
      ensures bufs[..] == BurstOutput(old(Value()), ms, times)
    {
      ghost var s := Value();
      var i := 0;
      while i < bufs.Length
        invariant 0 <= i <= bufs.Length
        invariant Agree(Value().pool) && Value() == AfterBurst(s, ms[..i], times[..i])
        invariant bufs[..i] == BurstOutput(s, ms[..i], times[..i])
        invariant forall j :: i <= j < bufs.Length ==> bufs[..][j] == Some(ms[j])
      {
        BurstStep(s, ms, times, i);
        ghost var before := bufs[..];
        ApplyOne(bufs, i, times[i]);
        KeepFront(before, bufs[..], i);
        i := i + 1;
      }
      assert ms[..i] == ms && times[..i] == times && bufs[..i] == bufs[..];
    }

    /** The frames handed to the port, one at a time; NULL buffers are skipped. */
    method Transmit(bufs: array<Option<Frame>>) returns (sent: seq<Frame>)
      ensures sent == Somes(bufs[..])
    {
      sent := [];
      var i := 0;
      while i < bufs.Length
        invariant 0 <= i <= bufs.Length && sent == Somes(bufs[..i])
      {
        assert bufs[..i + 1][..i] == bufs[..i];
        if bufs[i].Some? {
          sent := sent + [bufs[i].value];
        }
        i := i + 1;
      }
      assert bufs[..i] == bufs[..];
    }

    /** One turn of the main loop: run both timers, then arm the table timer, translate
        the burst if one was received and transmit what is left of it. */
    method MainTurn(cur: nat, now: nat, arm: nat, times: seq<nat>,
                    bufs: array<Option<Frame>>, ghost ms: seq<Frame>) returns (sent: seq<Frame>)
      requires Valid() && Agree(Value().pool)
      requires bufs.Length == |times| == |ms|
      requires forall i :: 0 <= i < bufs.Length ==> bufs[i] == Some(ms[i])
      modifies this, entries, bufs
      ensures Agree(AfterManage(old(Value()), cur, now).pool) && Agree(Value().pool)
      ensures |ms| == 0 ==> Value() == AfterManage(old(Value()), cur, now) && sent == []
      ensures |ms| > 0 ==>
                var s := Armed(AfterManage(old(Value()), cur, now), arm);
                && Value() == AfterBurst(s, ms, times) && bufs[..] == BurstOutput(s, ms, times)
                && sent == Somes(BurstOutput(s, ms, times))
    {
      sent := [];
      ManageAgrees(Value(), cur, now);
      TimerManage(cur, now);
      if bufs.Length > 0 {
        if !started {
          started := true;
        }
        tableTimer := Some(arm + hz * TABLE_SEC);
        Apply(bufs, times, ms);
        sent := Transmit(bufs);
      }
    }
  }

  /** With both timers due, running the table timer first would have come to the same
      state, which keeps nothing of the old mapping. */
  lemma ClearAbsorbsReleaseInTimers(s: Nat, cur: nat, now: nat)
    requires s.expiry <= cur && TableDue(s, cur)
    ensures AfterManage(s, cur, now) == AfterExpiry(AfterReset(s), now)
    ensures AfterManage(s, cur, now) == AfterReset(s).(expiry := s.expiry + s.hz * EXPIRY_SEC)
  {
    ClearAbsorbsRelease(s.pool, now, s.Idle());
  }

  lemma ManageAgrees(s: Nat, cur: nat, now: nat)
    requires Agree(s.pool)
    ensures Agree(AfterManage(s, cur, now).pool)
  {
    ReleasedAgrees(s.pool, now, s.Idle());
  }

  function AfterBurst(s: Nat, ms: seq<Frame>, times: seq<nat>): (s': Nat)
    requires Agree(s.pool) && |ms| == |times|
    ensures Agree(s'.pool)
  {
    var n := |ms|;
    if n == 0 then s
    else AfterFrame(AfterBurst(s, ms[..n - 1], times[..n - 1]), ms[n - 1], times[n - 1])
  }

  function BurstOutput(s: Nat, ms: seq<Frame>, times: seq<nat>): seq<Option<Frame>>
    requires Agree(s.pool) && |ms| == |times|
  {
    var n := |ms|;
    if n == 0 then []
    else BurstOutput(s, ms[..n - 1], times[..n - 1])
         + [Output(AfterBurst(s, ms[..n - 1], times[..n - 1]), ms[n - 1], times[n - 1])]
  }

  /** What is there, in order. */
  function Somes<T>(s: seq<Option<T>>): seq<T> {
    var n := |s|;
    if n == 0 then []
    else Somes(s[..n - 1]) + if s[n - 1].Some? then [s[n - 1].value] else []
  }

  /** Nothing is lost, added or moved past a dropped buffer. */
  lemma {:induction false} SomesLaws<T>(s: seq<Option<T>>, t: seq<Option<T>>, x: Option<T>)
    ensures Somes(s + t) == Somes(s) + Somes(t)
    ensures Somes([x]) == if x.Some? then [x.value] else []
  {
    var n := |t|;
    if n == 0 {
      assert s + t == s;
    } else {
      SomesLaws(s, t[..n - 1], x);
      assert (s + t)[..|s| + n - 1] == s + t[..n - 1];
    }
    assert [x][..0] == [];
  }

  lemma {:induction false} BurstLength(s: Nat, ms: seq<Frame>, times: seq<nat>)
    requires Agree(s.pool) && |ms| == |times|
    ensures |BurstOutput(s, ms, times)| == |ms|
  {
    if ms != [] { BurstLength(s, ms[..|ms| - 1], times[..|ms| - 1]); }
  }

  /** What becomes of buffer `i` is what becomes of its packet after those before it. */
  lemma {:induction false} BurstOutputAt(s: Nat, ms: seq<Frame>, times: seq<nat>, i: nat)
    requires Agree(s.pool) && |ms| == |times| && i < |ms|
    ensures |BurstOutput(s, ms, times)| == |ms|
    ensures BurstOutput(s, ms, times)[i] == Output(AfterBurst(s, ms[..i], times[..i]), ms[i], times[i])
  {
    var n := |ms| - 1;
    var front, early := ms[..n], times[..n];
    BurstLength(s, front, early);
    LastBuffer(s, ms, times);
    if i < n {
      assert front[..i] == ms[..i] && early[..i] == times[..i];
      BurstOutputAt(s, front, early, i);
    }
  }

  lemma LastBuffer(s: Nat, ms: seq<Frame>, times: seq<nat>)
    requires Agree(s.pool) && |ms| == |times| > 0
    ensures var n := |ms| - 1;
            BurstOutput(s, ms, times) ==
              BurstOutput(s, ms[..n], times[..n])
              + [Output(AfterBurst(s, ms[..n], times[..n]), ms[n], times[n])]
  {
  }

  lemma BurstStep(s: Nat, ms: seq<Frame>, times: seq<nat>, i: nat)
    requires Agree(s.pool) && |ms| == |times| && i < |ms|
    ensures var s' := AfterBurst(s, ms[..i], times[..i]);
            && AfterBurst(s, ms[..i + 1], times[..i + 1]) == AfterFrame(s', ms[i], times[i])
            && BurstOutput(s, ms[..i + 1], times[..i + 1])
               == BurstOutput(s, ms[..i], times[..i]) + [Output(s', ms[i], times[i])]
  {
    assert ms[..i + 1][..i] == ms[..i] && times[..i + 1][..i] == times[..i];
  }

  /** Storing at `i` keeps what is in front of it. */
  lemma KeepFront<T>(before: seq<T>, after: seq<T>, i: nat)
    requires i < |before| == |after| && after == before[i := after[i]]
    ensures after[..i + 1] == before[..i] + [after[i]]
  {
  }
}
