/** When a private address keeps its public address under the two timers of version 5.
    The table timer clears every mapping, and may do so while some are in use. Main
    results: exactly when it does, that mappings survive a run exactly when it never
    does, and that no weaker condition lets every source keep its address. */
module PoolV5Stability {
  import opened Wire
  import opened PoolCore
  import opened PoolV5
  import opened PoolV5Runs

  // ------------------------------------------------------------ definitions

  /** Every packet sent less than the idle time ago still has its mapping. */
  ghost predicate AllInPlace(w: World) {
    forall i :: 0 <= i < |w.log| && w.clock < w.log[i].at + w.s.Idle() ==> InPlace(w.s.pool, w.log[i])
  }

  /** No packet was sent less than the idle time before `t`. */
  ghost predicate Quiet(log: seq<Use>, idle: nat, t: nat) {
    forall i :: 0 <= i < |log| ==> log[i].at + idle <= t
  }

  /** The event empties the table: a due table timer, or a reset from outside. */
  predicate Clears(w: World, e: Event) {
    e.Reset? || (e.Manage? && TableDue(w.s, e.cur))
  }

  /** If the event empties the table, nothing was sent in the 5 s before. */
  ghost predicate Spares(w: World, e: Event)
    requires Possible(w, e)
  {
    Clears(w, e) ==> Quiet(w.log, w.s.Idle(), Step(w, e).clock)
  }

  ghost predicate SparesThroughout(w: World, es: seq<Event>)
    requires IsRun(w, es)
    decreases |es|
  {
    es != [] ==>
      var before := es[..|es| - 1];
      SparesThroughout(w, before) && Spares(Exec(w, before), es[|es| - 1])
  }

  ghost predicate InPlaceThroughout(w: World, es: seq<Event>)
    requires IsRun(w, es)
    decreases |es|
  {
    AllInPlace(Exec(w, es)) && (es != [] ==> InPlaceThroughout(w, es[..|es| - 1]))
  }

  /** Some run ends in `w` that spared every mapping in use. */
  ghost predicate ReachableSparing(w: World, u: Setup) {
    exists es :: IsRun(Begin(u), es) && SparesThroughout(Begin(u), es) && w == Exec(Begin(u), es)
  }

  // ------------------------------------------- one step, if and only if

  /** A logged arrival is a stamp of one slot. */
  lemma ArrivalStamps(s: Nat, at: nat, m: Frame)
    requires Agree(s.pool) && Outbound(s, m) && m.srcIp in AfterFrame(s, m, at).pool.index
    ensures var p, p' := s.pool, AfterFrame(s, m, at).pool;
            var i := p'.index[m.srcIp];
            && i < |p.slots| && (m.srcIp in p.index ==> p.index[m.srcIp] == i)
            && p' == Pool(p.slots[i := p.slots[i].(privateIp := m.srcIp, inUse := true, lastSeen := at)],
                          p.index[m.srcIp := i])
  {
  }

  /** What an arrival logs is in place. */
  lemma ArrivalInPlace(w: World, at: nat, m: Frame)
    requires Possible(w, Arrive(at, m))
    ensures var w' := Step(w, Arrive(at, m));
            || w'.log == w.log
            || (w'.log == w.log + [w'.log[|w.log|]] && w'.log[|w.log|].at == at
                && InPlace(w'.s.pool, w'.log[|w.log|]))
  {
  }

  /** Unless the table is emptied, a mapping used in the last 5 s stays in place. */
  lemma InPlaceStep(w: World, e: Event, r: Use)
    requires Possible(w, e) && !Clears(w, e) && InPlace(w.s.pool, r)
    requires r.at <= w.clock && Step(w, e).clock < r.at + w.s.Idle()
    ensures InPlace(Step(w, e).s.pool, r)
  {
    match e
    case Manage(cur, now) => ReleasedAgrees(w.s.pool, now, w.s.Idle());
    case Arm(_) =>
    case Reset(_) =>
    case Arrive(at, m) =>
      if Outbound(w.s, m) && m.srcIp in AfterFrame(w.s, m, at).pool.index {
        ArrivalStamps(w.s, at, m);
        StampInPlace(w.s.pool, AfterFrame(w.s, m, at).pool, AfterFrame(w.s, m, at).pool.index[m.srcIp],
                     m.srcIp, at, r);
      }
  }

  lemma ClearedStep(w: World, e: Event)
    requires Possible(w, e) && Clears(w, e)
    ensures Step(w, e).s.pool.index == map[] && Step(w, e).log == w.log
  {
  }

  /** One step: mappings in use stay in place exactly when the step spares them. */
  lemma InPlaceIffSpares(w: World, u: Setup, e: Event)
    requires Reachable(w, u) && Possible(w, e) && AllInPlace(w)
    ensures AllInPlace(Step(w, e)) <==> Spares(w, e)
  {
    ReachableKept(w, u);
    StepInPlaceIff(w, u, e);
  }

  lemma StepInPlaceIff(w: World, u: Setup, e: Event)
    requires Kept(w, u) && Possible(w, e) && AllInPlace(w)
    ensures AllInPlace(Step(w, e)) <==> Spares(w, e)
  {
    var w' := Step(w, e);
    if Clears(w, e) {
      ClearedStep(w, e);
      forall i | 0 <= i < |w.log| ensures !InPlace(w'.s.pool, w.log[i]) {
      }
    } else {
      forall i | 0 <= i < |w'.log| && w'.clock < w'.log[i].at + w'.s.Idle()
        ensures InPlace(w'.s.pool, w'.log[i])
      {
        if e.Arrive? { ArrivalInPlace(w, e.at, e.m); }
        if i < |w.log| {
          InPlaceStep(w, e, w.log[i]);
        }
      }
    }
  }

  lemma StableStep(w: World, u: Setup, e: Event)
    requires Kept(w, u) && Possible(w, e) && AllInPlace(w) && LocallyStable(w.log, w.s.Idle())
    ensures LocallyStable(Step(w, e).log, w.s.Idle())
  {
    if e.Arrive? {
      ArrivalInPlace(w, e.at, e.m);
      var w' := Step(w, e);
      forall i | 0 <= i < |w.log| && |w'.log| > |w.log|
                 && w.log[i].src == w'.log[|w.log|].src && e.at < w.log[i].at + w.s.Idle()
        ensures w.log[i].pub == w'.log[|w.log|].pub
      {
        InPlaceStep(w, e, w.log[i]);
      }
    }
  }

  // ------------------------------------------- whole runs, if and only if

  /** Over a run, every packet sent in the last 5 s has its mapping at every moment
      exactly when the table was never emptied within 5 s of a packet. */
  lemma {:induction false} InPlaceThroughoutIffSpares(u: Setup, es: seq<Event>)
    requires IsRun(Begin(u), es)
    ensures InPlaceThroughout(Begin(u), es) <==> SparesThroughout(Begin(u), es)
    ensures SparesThroughout(Begin(u), es) ==> LocallyStable(Exec(Begin(u), es).log, u.hz * IDLE_SEC)
  {
    if es != [] {
      var before, e := es[..|es| - 1], es[|es| - 1];
      InPlaceThroughoutIffSpares(u, before);
      RunKept(u, before);
      if SparesThroughout(Begin(u), before) {
        StepInPlaceIff(Exec(Begin(u), before), u, e);
        StableStep(Exec(Begin(u), before), u, e);
      }
    }
  }

  /** While the table timer is armed, what was sent since is in place for 5 s. */
  ghost predicate InPlaceSinceArmed(w: World) {
    w.s.table.Some? ==>
      forall i :: 0 <= i < |w.log| && w.armed < w.log[i].at && w.clock < w.log[i].at + w.s.Idle() ==>
        InPlace(w.s.pool, w.log[i])
  }

  lemma SinceArmedStep(w: World, u: Setup, e: Event)
    requires Kept(w, u) && Possible(w, e) && InPlaceSinceArmed(w)
    ensures InPlaceSinceArmed(Step(w, e))
  {
    var w' := Step(w, e);
    if !Clears(w, e) && !e.Arm? && w'.s.table.Some? {
      forall i | 0 <= i < |w'.log| && w'.armed < w'.log[i].at && w'.clock < w'.log[i].at + w'.s.Idle()
        ensures InPlace(w'.s.pool, w'.log[i])
      {
        if e.Arrive? { ArrivalInPlace(w, e.at, e.m); }
        if i < |w.log| {
          InPlaceStep(w, e, w.log[i]);
        }
      }
    }
  }

  lemma {:induction false} RunSinceArmed(u: Setup, es: seq<Event>)
    requires IsRun(Begin(u), es)
    ensures InPlaceSinceArmed(Exec(Begin(u), es))
  {
    if es != [] {
      RunSinceArmed(u, es[..|es| - 1]);
      RunKept(u, es[..|es| - 1]);
      SinceArmedStep(Exec(Begin(u), es[..|es| - 1]), u, es[|es| - 1]);
    }
  }

  /** When the table timer fires, in any reachable state, every slot it clears is idle
      exactly when no packet was sent in the 5 s before. */
  lemma TableTimerClearsOnlyIdleIff(w: World, u: Setup, cur: nat, now: nat)
    requires Reachable(w, u) && Possible(w, Manage(cur, now)) && TableDue(w.s, cur)
    ensures (forall i :: 0 <= i < |w.s.pool.slots| && w.s.pool.slots[i].inUse ==>
               IsIdle(w.s.pool.slots[i], now, u.hz * IDLE_SEC))
            <==> Spares(w, Manage(cur, now))
  {
    ReachableKept(w, u);
    var es :| IsRun(Begin(u), es) && w == Exec(Begin(u), es);
    RunSinceArmed(u, es);
    var idle := u.hz * IDLE_SEC;
    forall i | 0 <= i < |w.s.pool.slots| && w.s.pool.slots[i].inUse && Quiet(w.log, idle, now)
      ensures IsIdle(w.s.pool.slots[i], now, idle)
    {
      assert Backed(w.log, w.s.pool.slots[i]);
    }
    forall j | 0 <= j < |w.log| && now < w.log[j].at + idle
      ensures InPlace(w.s.pool, w.log[j])
    {
      assert w.armed + u.hz * TABLE_SEC <= cur;
    }
  }

  // ----------------------------------------- what it means for the sources

  /** A private address whose consecutive packets are less than 5 s apart keeps one
      public address over a whole run that spares the mappings in use. */
  lemma SteadyUseKeepsAddress(w: World, u: Setup, src: U32, i: nat, j: nat)
    requires ReachableSparing(w, u) && InSteadyUse(w.log, src, u.hz * IDLE_SEC)
    requires i < j < |w.log| && w.log[i].src == src && w.log[j].src == src
    ensures w.log[i].pub == w.log[j].pub
  {
    var es :| IsRun(Begin(u), es) && SparesThroughout(Begin(u), es) && w == Exec(Begin(u), es);
    InPlaceThroughoutIffSpares(u, es);
    ChainKeepsAddress(w.log, u.hz * IDLE_SEC, src, i, j);
  }

  /** In such runs, of the packets sent in the last 5 s two left from one address exactly
      when they came from one source. */
  lemma RecentPacketsLeaveApart(w: World, u: Setup, i: nat, j: nat)
    requires ReachableSparing(w, u) && i < |w.log| && j < |w.log|
    requires w.clock < w.log[i].at + u.hz * IDLE_SEC && w.clock < w.log[j].at + u.hz * IDLE_SEC
    ensures w.log[i].src == w.log[j].src <==> w.log[i].pub == w.log[j].pub
  {
    SparingFacts(w, u);
    InPlaceTogether(w.s.pool, u.start, u.range, w.log[i], w.log[j]);
  }

  // ---------------------------------------- the condition cannot be relaxed

  /** Nothing but further packets, all at one time. */
  predicate OnlyPackets(es: seq<Event>, at: nat) {
    forall i :: 0 <= i < |es| ==> es[i].Arrive? && es[i].at == at
  }

  /** Sparing is what the sources need. Packets that follow a step at once can make some
      source change its address within 5 s exactly when the step did not spare the
      mappings in use and there is another address to change to. */
  lemma SparingIsExact(w: World, u: Setup, e: Event, dst: U32)
    requires ReachableSparing(w, u) && Possible(w, e) && dst !in u.inbound
    ensures Spares(w, e) || u.range < 2 <==>
            forall es :: IsRun(Step(w, e), es) && OnlyPackets(es, Step(w, e).clock) ==>
              LocallyStable(Exec(Step(w, e), es).log, u.hz * IDLE_SEC)
  {
    SparingFacts(w, u);
    StepKept(w, u, e);
    StepInPlaceIff(w, u, e);
    StableStep(w, u, e);
    StepFromOneAddress(w, u, e);
    var w' := Step(w, e);
    if Spares(w, e) || u.range < 2 {
      forall es | IsRun(w', es) && OnlyPackets(es, w'.clock)
        ensures LocallyStable(Exec(w', es).log, u.hz * IDLE_SEC)
      {
        if Spares(w, e) {
          PacketsKeepStable(w', u, es, w'.clock);
        } else {
          RunFromOneAddress(w', u, es);
        }
      }
    } else {
      var j :| 0 <= j < |w.log| && w.log[j].at + w.s.Idle() > w'.clock;
      ClearedStep(w, e);
      var k := SlotOfRecord(w, u, j);
      var es := UnsparedLosesAddress(w', u, j, k, dst);
    }
  }

  lemma SparingFacts(w: World, u: Setup)
    requires ReachableSparing(w, u)
    ensures Kept(w, u) && AllInPlace(w) && LocallyStable(w.log, w.s.Idle()) && FromOneAddress(w, u)
  {
    var run :| IsRun(Begin(u), run) && SparesThroughout(Begin(u), run) && w == Exec(Begin(u), run);
    InPlaceThroughoutIffSpares(u, run);
    RunKept(u, []);
    RunFromOneAddress(Begin(u), u, run);
  }

  lemma {:induction false} PacketsKeepStable(w: World, u: Setup, es: seq<Event>, at: nat)
    requires IsRun(w, es) && OnlyPackets(es, at)
    requires Kept(w, u) && AllInPlace(w) && LocallyStable(w.log, w.s.Idle())
    ensures Kept(Exec(w, es), u) && AllInPlace(Exec(w, es))
    ensures LocallyStable(Exec(w, es).log, u.hz * IDLE_SEC)
  {
    if es != [] {
      var before, e := es[..|es| - 1], es[|es| - 1];
      PacketsKeepStable(w, u, before, at);
      StepKept(Exec(w, before), u, e);
      StepInPlaceIff(Exec(w, before), u, e);
      StableStep(Exec(w, before), u, e);
    }
  }

  /** A pool of one address gives every source that one. */
  ghost predicate FromOneAddress(w: World, u: Setup) {
    u.range < 2 ==> forall i :: 0 <= i < |w.log| ==> w.log[i].pub == PublicIp(u.start, 0)
  }

  lemma StepFromOneAddress(w: World, u: Setup, e: Event)
    requires Kept(w, u) && Possible(w, e) && FromOneAddress(w, u)
    ensures FromOneAddress(Step(w, e), u)
  {
    if e.Arrive? {
      ArrivalInPlace(w, e.at, e.m);
      StepKept(w, u, e);
    }
  }

  lemma {:induction false} RunFromOneAddress(w: World, u: Setup, es: seq<Event>)
    requires IsRun(w, es) && Kept(w, u) && FromOneAddress(w, u)
    ensures Kept(Exec(w, es), u) && FromOneAddress(Exec(w, es), u)
  {
    if es != [] {
      RunFromOneAddress(w, u, es[..|es| - 1]);
      StepKept(Exec(w, es[..|es| - 1]), u, es[|es| - 1]);
      StepFromOneAddress(Exec(w, es[..|es| - 1]), u, es[|es| - 1]);
    }
  }

  /** In a table emptied too soon for record `j`, which used slot `k`, the source of the
      record comes out of another address. */
  lemma UnsparedLosesAddress(w: World, u: Setup, j: nat, k: nat, dst: U32) returns (es: seq<Event>)
    requires Kept(w, u) && w.s.pool.index == map[]
    requires u.range >= 2 && dst !in u.inbound
    requires j < |w.log| && w.clock < w.log[j].at + w.s.Idle()
    requires k < u.range && w.log[j].pub == PublicIp(u.start, k)
    ensures IsRun(w, es) && OnlyPackets(es, w.clock)
    ensures !LocallyStable(Exec(w, es).log, u.hz * IDLE_SEC)
  {
    es := AnotherAddress(w, u, w.log[j].src, k, dst);
    DifferentLater(w.log, Exec(w, es).log, j, w.clock, u.hz * IDLE_SEC);
  }

  lemma SlotOfRecord(w: World, u: Setup, j: nat) returns (k: nat)
    requires Kept(w, u) && AllInPlace(w)
    requires j < |w.log| && w.clock < w.log[j].at + w.s.Idle()
    ensures k < u.range && w.log[j].pub == PublicIp(u.start, k)
  {
    assert InPlace(w.s.pool, w.log[j]);
    k := w.s.pool.index[w.log[j].src];
  }

  /** From an empty table a source can come out of another address than slot k's: at
      once if k is not the lowest slot, else behind another source. */
  lemma AnotherAddress(w: World, u: Setup, src: U32, k: nat, dst: U32) returns (es: seq<Event>)
    requires Kept(w, u) && w.s.pool.index == map[]
    requires k < u.range && u.range >= 2 && dst !in u.inbound
    ensures IsRun(w, es) && OnlyPackets(es, w.clock)
    ensures var log := Exec(w, es).log;
            && |w.log| < |log| && w.log <= log
            && log[|log| - 1].at == w.clock && log[|log| - 1].src == src
            && log[|log| - 1].pub != PublicIp(u.start, k)
  {
    var again := Arrive(w.clock, Frame(ETHER_IPV4, src, dst));
    if k != 0 {
      NothingInUse(w);
      PublicsAreDistinct(u.start, u.range, 0, k);
      ArrivalGetsSlot(w, u, again, 0);
      es := [again];
      OneEvent(w, again);
    } else {
      PublicsAreDistinct(u.start, u.range, 0, 1);
      var other := Arrive(w.clock, Frame(ETHER_IPV4, if src == 0 then 1 else 0, dst));
      BehindAnother(w, u, other, again);
      es := [other, again];
    }
  }

  lemma DifferentLater(log: seq<Use>, log': seq<Use>, j: nat, t: nat, idle: nat)
    requires j < |log| < |log'| && log <= log' && t < log[j].at + idle
    requires log'[|log'| - 1].at == t && log'[|log'| - 1].src == log[j].src
    requires log'[|log'| - 1].pub != log[j].pub
    ensures !LocallyStable(log', idle)
  {
    assert log'[j] == log[j];
  }

  lemma NothingInUse(w: World)
    requires Agree(w.s.pool) && w.s.pool.index == map[]
    ensures forall i :: 0 <= i < |w.s.pool.slots| ==> !w.s.pool.slots[i].inUse
    ensures |w.s.pool.slots| > 0 ==> LowestFree(w.s.pool.slots) == 0
  {
    assert |w.s.pool.slots| > 0 ==> !w.s.pool.slots[0].inUse;
  }

  /** Two new sources in a row take the two lowest slots. */
  lemma BehindAnother(w: World, u: Setup, other: Event, again: Event)
    requires Kept(w, u) && u.range >= 2 && w.s.pool.index == map[]
    requires Possible(w, other) && other.Arrive? && Outbound(w.s, other.m)
    requires again.Arrive? && again.at == other.at && Outbound(w.s, again.m)
    requires again.m.srcIp != other.m.srcIp
    ensures IsRun(w, [other, again])
    ensures Exec(w, [other, again]).log ==
              w.log + [Use(other.at, other.m.srcIp, PublicIp(u.start, 0)),
                       Use(again.at, again.m.srcIp, PublicIp(u.start, 1))]
  {
    NothingInUse(w);
    ArrivalGetsSlot(w, u, other, 0);
    StepKept(w, u, other);
    var w1 := Step(w, other);
    assert w1.s.pool.slots[0].inUse && !w1.s.pool.slots[1].inUse;
    ArrivalGetsSlot(w1, u, again, 1);
    TwoEvents(w, other, again);
  }

  lemma TwoEvents(w: World, e: Event, e': Event)
    requires Possible(w, e) && Possible(Step(w, e), e')
    ensures IsRun(w, [e, e']) && Exec(w, [e, e']) == Step(Step(w, e), e')
  {
    OneEvent(w, e);
    assert [e, e'][..1] == [e];
  }

  /** A new source takes the lowest free slot and leaves from its address. */
  lemma ArrivalGetsSlot(w: World, u: Setup, e: Event, n: nat)
    requires Kept(w, u) && Possible(w, e) && e.Arrive? && Outbound(w.s, e.m) && n < u.range
    requires e.m.srcIp !in w.s.pool.index && LowestFree(w.s.pool.slots) == n
    ensures Step(w, e).log == w.log + [Use(e.at, e.m.srcIp, PublicIp(u.start, n))]
    ensures Step(w, e).s.pool.index == w.s.pool.index[e.m.srcIp := n]
    ensures Step(w, e).s.pool.slots[n].inUse
    ensures forall i :: 0 <= i < u.range && i != n ==> Step(w, e).s.pool.slots[i] == w.s.pool.slots[i]
  {
  }

  // ---------------------------------------------- short bursts are enough

  /** No packet is handled 5 seconds or more after its burst began, and nobody resets
      the pool within 5 seconds of a packet. */
  ghost predicate BriskThroughout(w: World, es: seq<Event>)
    requires IsRun(w, es)
    decreases |es|
  {
    es != [] ==>
      var before, e := es[..|es| - 1], es[|es| - 1];
      && BriskThroughout(w, before)
      && (e.Arrive? ==> e.at < Exec(w, before).armed + w.s.Idle())
      && (e.Reset? ==> Spares(Exec(w, before), e))
  }

  /** All that was sent went out less than 5 s after its burst, or a later one, began. */
  ghost predicate SentBriskly(w: World) {
    forall i :: 0 <= i < |w.log| ==> w.log[i].at < w.armed + w.s.Idle()
  }

  lemma BriskStep(w: World, u: Setup, e: Event)
    requires Kept(w, u) && SentBriskly(w) && Possible(w, e)
    requires e.Arrive? ==> e.at < w.armed + w.s.Idle()
    requires e.Reset? ==> Spares(w, e)
    ensures Spares(w, e) && SentBriskly(Step(w, e))
  {
    if e.Arrive? { ArrivalInPlace(w, e.at, e.m); }
  }

  /** Runs whose bursts are all shorter than 5 s spare the mappings in use. */
  lemma {:induction false} BriskRunsSpare(u: Setup, es: seq<Event>)
    requires IsRun(Begin(u), es) && BriskThroughout(Begin(u), es)
    ensures SparesThroughout(Begin(u), es) && SentBriskly(Exec(Begin(u), es))
  {
    if es != [] {
      BriskRunsSpare(u, es[..|es| - 1]);
      RunKept(u, es[..|es| - 1]);
      BriskStep(Exec(Begin(u), es[..|es| - 1]), u, es[|es| - 1]);
    }
  }

  // ------------------------------------- why bursts have to be short for that

  const SLOW := Setup(100, 2, map[], 1)
  const A := Frame(ETHER_IPV4, 1, 7)
  const B := Frame(ETHER_IPV4, 2, 7)

  function SlowPool(
    first: Slot, second: Slot, index: map<U32, nat>, table: Option<nat>, expiry: nat, started: bool): Nat
  {
    Nat(Pool([first, second], index), map[], 1, table, expiry, started)
  }

  /** A burst that takes 9 s: the table timer, armed when the burst began, fires one
      second after the last packet and a steady source loses its address. */
  lemma SlowBurstLosesAddress()
    ensures exists w: World ::
      Reachable(w, SLOW) && w.log == SlowLog() && InSteadyUse(w.log, 1, SLOW.hz * IDLE_SEC)
  {
    var w := ClearedTooSoon();
    var w' := ThenLost(w);
    SlowLogIsSteady();
  }

  function SlowLog(): seq<Use> {
    [Use(9, 1, 100), Use(11, 2, 100), Use(12, 1, 101)]
  }

  lemma SlowLogIsSteady()
    ensures InSteadyUse(SlowLog(), 1, SLOW.hz * IDLE_SEC)
  {
  }

  lemma ClearedTooSoon() returns (w: World)
    ensures Reachable(w, SLOW) && w.clock == 10 && w.log == [Use(9, 1, 100)]
    ensures w.s == SlowPool(Slot(0, 100, 0, false), Slot(0, 101, 0, false), map[], None, 2, false)
  {
    var free0, free1 := Slot(0, 100, 0, false), Slot(0, 101, 0, false);
    ReachableStart(SLOW);
    var w0 := Begin(SLOW);
    assert w0.s == SlowPool(free0, free1, map[], None, 1, false) by {
      assert w0.s.pool.slots == [free0, free1];
    }
    var w1 := Next(w0, SLOW, Arm(0));
    var w2 := Next(w1, SLOW, Arrive(9, A));
    FirstFreeTaken(w1, free0, free1, 9);
    w := Next(w2, SLOW, Manage(10, 10));
    SlowManage(w2);
  }

  lemma ThenLost(w: World) returns (w': World)
    requires Reachable(w, SLOW) && w.clock == 10 && w.log == [Use(9, 1, 100)]
    requires w.s == SlowPool(Slot(0, 100, 0, false), Slot(0, 101, 0, false), map[], None, 2, false)
    ensures Reachable(w', SLOW) && w'.log == SlowLog()
  {
    ReachableKept(w, SLOW);
    var w1 := Next(w, SLOW, Arm(11));
    TwoSourcesInTurn(w1, Slot(0, 100, 0, false), Slot(0, 101, 0, false));
    var w2 := Next(w1, SLOW, Arrive(11, B));
    w' := Next(w2, SLOW, Arrive(12, A));
  }

  lemma FirstFreeTaken(w: World, free0: Slot, free1: Slot, at: nat)
    requires w.s == SlowPool(free0, free1, map[], Some(10), 1, true) && w.clock <= at && Agree(w.s.pool)
    requires free0 == Slot(0, 100, 0, false) && free1 == Slot(0, 101, 0, false)
    ensures var w' := Step(w, Arrive(at, A));
            && w'.s == SlowPool(Slot(1, 100, at, true), free1, map[1 := 0], Some(10), 1, true)
            && w'.log == w.log + [Use(at, 1, 100)]
  {
    assert LowestFree(w.s.pool.slots) == 0;
  }

  lemma SlowManage(w: World)
    requires w.s == SlowPool(Slot(1, 100, 9, true), Slot(0, 101, 0, false), map[1 := 0], Some(10), 1, true)
    requires w.clock <= 10 && Agree(w.s.pool)
    ensures Step(w, Manage(10, 10)).s ==
              SlowPool(Slot(0, 100, 0, false), Slot(0, 101, 0, false), map[], None, 2, false)
  {
    ClearAbsorbsRelease(w.s.pool, 10, 5);
    assert Cleared(w.s.pool).slots == [Slot(0, 100, 0, false), Slot(0, 101, 0, false)];
  }

  lemma TwoSourcesInTurn(w: World, free0: Slot, free1: Slot)
    requires w.s == SlowPool(free0, free1, map[], Some(21), 2, true) && w.clock <= 11 && Agree(w.s.pool)
    requires free0 == Slot(0, 100, 0, false) && free1 == Slot(0, 101, 0, false)
    ensures var w' := Step(w, Arrive(11, B));
            && w'.clock == 11
            && Step(w', Arrive(12, A)).log == w.log + [Use(11, 2, 100), Use(12, 1, 101)]
  {
    assert LowestFree(w.s.pool.slots) == 0;
    var w' := Step(w, Arrive(11, B));
    assert w'.s == SlowPool(Slot(2, 100, 11, true), free1, map[2 := 0], Some(21), 2, true);
    assert LowestFree(w'.s.pool.slots) == 1;
  }
}
