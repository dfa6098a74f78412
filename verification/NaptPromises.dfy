/** What the NAPT engine promises the flows through it, and exactly when it keeps its
    word: for each promise, the step that breaks it and the runs that never do. No
    assumption is made on ports, hash inserts or timers. */
module NaptPromises {
  import opened Wire
  import opened Napt
  import opened NaptRuns
  import opened NaptWindow

  /** Isolation: no two flows share a translated 5-tuple. Delivery: a reply reaches the
      private endpoint of its flow. Steadiness: a flow keeps its public port. All three
      are about the translations used less than 30 s before the last timer manage. */
  datatype Promise = Isolation | Delivery | Steadiness

  // ------------------------------------------------------------- the promises

  ghost predicate Isolated(w: World) {
    forall i, j :: 0 <= i < |w.log| && 0 <= j < |w.log| && Recent(w, w.log[i]) && Recent(w, w.log[j])
                   && w.log[i].Reply() == w.log[j].Reply() ==>
      w.log[i].Flow() == w.log[j].Flow()
  }

  ghost predicate Delivered(w: World, r: Record)
    requires Consistent(w.napt)
  {
    forall reply: Packet, env: Env ::
      Possible(w, Receive(reply, env)) && reply.etherType == ETHER_IPV4 && reply.tuple == r.Reply() ==>
        Output(w.napt, reply, env) ==
          Some(reply.(tuple := reply.tuple.(dstIp := r.Flow().srcIp, dstPort := r.Flow().srcPort)))
  }

  ghost predicate SentAlike(w: World, r: Record)
    requires Consistent(w.napt)
  {
    forall m: Packet, env: Env ::
      Possible(w, Receive(m, env)) && m.etherType == ETHER_IPV4 && m.tuple == r.Flow() ==>
        Output(w.napt, m, env) == Some(m.(tuple := r.Reply().Mirror()))
  }

  ghost predicate Holds(promise: Promise, w: World)
    requires Consistent(w.napt)
  {
    match promise
    case Isolation => Isolated(w)
    case Delivery => forall i :: 0 <= i < |w.log| && Recent(w, w.log[i]) ==> Delivered(w, w.log[i])
    case Steadiness => forall i :: 0 <= i < |w.log| && Recent(w, w.log[i]) ==> SentAlike(w, w.log[i])
  }

  // ----------------------------------------------- the steps that keep them

  /** An entry about to expire has the same reply key, or the same forward key, as one
      that stays; its callback will delete the key of both. */
  ghost predicate ExpiresWithAnother(s: Nat, e: Event, promise: Promise) {
    exists p, q :: p in s.heap && q in s.heap && e.Manage? && Due(s.heap[p], e.now) && !Due(s.heap[q], e.now)
      && if promise.Delivery? then s.heap[p].revKey == s.heap[q].revKey
         else s.heap[p].fwdKey == s.heap[q].fwdKey
  }

  /** What can be seen of the tables and the event before a step that keeps a promise. */
  ghost predicate Safe(promise: Promise, s: Nat, e: Event)
    requires Consistent(s)
  {
    var created := e.Receive? && Creates(s, e.pkt, e.env);
    match promise
    case Isolation =>
      created ==> forall p <- s.heap ::
        s.heap[p].revKey == NewEntry(s, e.pkt.tuple, e.env.now).revKey ==> s.heap[p].fwdKey == e.pkt.tuple
    case Delivery =>
      && !ExpiresWithAnother(s, e, promise)
      && (created ==>
            var reply := NewEntry(s, e.pkt.tuple, e.env.now).revKey;
            if reply in s.rev then s.heap[s.rev[reply]].fwdKey == e.pkt.tuple else e.env.revRoom)
    case Steadiness =>
      && !ExpiresWithAnother(s, e, promise)
      && (created ==> e.env.fwdRoom)
  }

  // ------------------------------------------ the promises, in the tables

  /** What the promise asks of the tables and the live entries. */
  ghost predicate Tabled(promise: Promise, s: Nat)
    requires Consistent(s)
  {
    match promise
    case Isolation =>
      forall p <- s.heap, q <- s.heap :: s.heap[p].revKey == s.heap[q].revKey ==> s.heap[p].fwdKey == s.heap[q].fwdKey
    case Delivery =>
      forall p <- s.heap :: s.heap[p].revKey in s.rev && s.heap[s.rev[s.heap[p].revKey]].fwdKey == s.heap[p].fwdKey
    case Steadiness =>
      forall p <- s.heap :: s.heap[p].fwdKey in s.fwd && s.heap[s.fwd[s.heap[p].fwdKey]].revKey == s.heap[p].revKey
  }

  lemma IsolatedIffTabled(w: World, hz: nat)
    requires hz > 0 && Reachable(w, hz) && Consistent(w.napt)
    ensures Isolated(w) <==> Tabled(Isolation, w.napt)
  {
    if Isolated(w) {
      forall p, q | p in w.napt.heap && q in w.napt.heap && w.napt.heap[p].revKey == w.napt.heap[q].revKey
        ensures w.napt.heap[p].fwdKey == w.napt.heap[q].fwdKey
      {
        var i := EntryIsRecent(w, hz, p);
        var j := EntryIsRecent(w, hz, q);
      }
    }
    if Tabled(Isolation, w.napt) {
      forall i, j | 0 <= i < |w.log| && 0 <= j < |w.log| && Recent(w, w.log[i]) && Recent(w, w.log[j])
                    && w.log[i].Reply() == w.log[j].Reply()
        ensures w.log[i].Flow() == w.log[j].Flow()
      {
        var p := RecentHasEntry(w, hz, i);
        var q := RecentHasEntry(w, hz, j);
      }
    }
  }

  lemma DeliveredIffTabled(w: World, hz: nat)
    requires hz > 0 && Reachable(w, hz) && Consistent(w.napt)
    ensures Holds(Delivery, w) <==> Tabled(Delivery, w.napt)
  {
    if Holds(Delivery, w) {
      forall p | p in w.napt.heap
        ensures var s := w.napt;
                s.heap[p].revKey in s.rev && s.heap[s.rev[s.heap[p].revKey]].fwdKey == s.heap[p].fwdKey
      {
        var i := EntryIsRecent(w, hz, p);
        var j := RecentHasEntry(w, hz, i);
        DeliveredToEntry(w, w.log[i], p);
      }
    }
    if Tabled(Delivery, w.napt) {
      forall i | 0 <= i < |w.log| && Recent(w, w.log[i]) ensures Delivered(w, w.log[i]) {
        var p := RecentHasEntry(w, hz, i);
        EntryDelivers(w, w.log[i], p);
      }
    }
  }

  lemma EntryDelivers(w: World, r: Record, p: Ptr)
    requires Consistent(w.napt) && Tabled(Delivery, w.napt) && p in w.napt.heap
    requires r.Flow() == w.napt.heap[p].fwdKey && r.Reply() == w.napt.heap[p].revKey
    requires r.Reply().proto in {PROTO_TCP, PROTO_UDP}
    ensures Delivered(w, r)
  {
  }

  lemma DeliveredToEntry(w: World, r: Record, p: Ptr)
    requires Consistent(w.napt) && Delivered(w, r) && p in w.napt.heap
    requires r.Flow() == w.napt.heap[p].fwdKey && r.Reply() == w.napt.heap[p].revKey
    requires r.Reply().proto in {PROTO_TCP, PROTO_UDP}
    ensures r.Reply() in w.napt.rev && w.napt.heap[w.napt.rev[r.Reply()]].fwdKey == r.Flow()
  {
    var reply, env := Packet(ETHER_IPV4, r.Reply(), []), Env(w.clock, None, true, true);
    assert Possible(w, Receive(reply, env));
    assert Output(w.napt, reply, env).Some?;
  }

  lemma SentAlikeIffTabled(w: World, hz: nat)
    requires hz > 0 && Reachable(w, hz) && Consistent(w.napt)
    ensures Holds(Steadiness, w) <==> Tabled(Steadiness, w.napt)
  {
    if Holds(Steadiness, w) {
      forall p | p in w.napt.heap
        ensures var s := w.napt;
                s.heap[p].fwdKey in s.fwd && s.heap[s.fwd[s.heap[p].fwdKey]].revKey == s.heap[p].revKey
      {
        var i := EntryIsRecent(w, hz, p);
        var j := RecentHasEntry(w, hz, i);
        SentAlikeByEntry(w, w.log[i], p);
      }
    }
    if Tabled(Steadiness, w.napt) {
      forall i | 0 <= i < |w.log| && Recent(w, w.log[i]) ensures SentAlike(w, w.log[i]) {
        var p := RecentHasEntry(w, hz, i);
        EntrySendsAlike(w, w.log[i], p);
      }
    }
  }

  lemma EntrySendsAlike(w: World, r: Record, p: Ptr)
    requires Consistent(w.napt) && Tabled(Steadiness, w.napt) && p in w.napt.heap
    requires r.Flow() == w.napt.heap[p].fwdKey && r.Reply() == w.napt.heap[p].revKey
    requires r.Reply().proto in {PROTO_TCP, PROTO_UDP}
    ensures SentAlike(w, r)
  {
  }

  lemma SentAlikeByEntry(w: World, r: Record, p: Ptr)
    requires Consistent(w.napt) && SentAlike(w, r) && p in w.napt.heap
    requires r.Flow() == w.napt.heap[p].fwdKey && r.Reply() == w.napt.heap[p].revKey
    requires r.Reply().proto in {PROTO_TCP, PROTO_UDP}
    ensures r.Flow() in w.napt.fwd && w.napt.heap[w.napt.fwd[r.Flow()]].revKey == r.Reply()
  {
    var m, env := Packet(ETHER_IPV4, r.Flow(), []), Env(w.clock, None, true, true);
    assert Possible(w, Receive(m, env));
    assert Output(w.napt, m, env).Some?;
  }

  /** In every reachable state a promise about packets is a property of the tables. */
  lemma HoldsIffTabled(promise: Promise, w: World, hz: nat)
    requires hz > 0 && Reachable(w, hz) && Consistent(w.napt)
    ensures Holds(promise, w) <==> Tabled(promise, w.napt)
  {
    match promise
    case Isolation => IsolatedIffTabled(w, hz);
    case Delivery => DeliveredIffTabled(w, hz);
    case Steadiness => SentAlikeIffTabled(w, hz);
  }

  // ------------------------------------------- one step, if and only if

  lemma CreateIsolated(s: Nat, t: Key, p: Ptr, env: Env)
    requires Consistent(s) && p !in s.heap && Tabled(Isolation, s)
    requires Consistent(Create(s, t, p, env))
    ensures Tabled(Isolation, Create(s, t, p, env)) <==>
            forall q <- s.heap :: s.heap[q].revKey == NewEntry(s, t, env.now).revKey ==> s.heap[q].fwdKey == t
  {
    var s' := Create(s, t, p, env);
    assert s'.heap[p].fwdKey == t && forall q <- s.heap :: s'.heap[q] == s.heap[q];
  }

  lemma CreateDelivers(s: Nat, t: Key, p: Ptr, env: Env)
    requires Consistent(s) && p !in s.heap && Tabled(Delivery, s)
    requires Consistent(Create(s, t, p, env))
    ensures var reply := NewEntry(s, t, env.now).revKey;
            Tabled(Delivery, Create(s, t, p, env)) <==>
            if reply in s.rev then s.heap[s.rev[reply]].fwdKey == t else env.revRoom
  {
    var s', e := Create(s, t, p, env), NewEntry(s, t, env.now);
    assert s'.heap == s.heap[p := e] && s'.heap[p].revKey == e.revKey;
    if e.revKey in s.rev {
      assert s'.rev == s.rev[e.revKey := p];
      assert s'.heap[s.rev[e.revKey]] == s.heap[s.rev[e.revKey]];
    }
  }

  lemma CreateSendsAlike(s: Nat, t: Key, p: Ptr, env: Env)
    requires Consistent(s) && p !in s.heap && t !in s.fwd && Tabled(Steadiness, s)
    requires Consistent(Create(s, t, p, env))
    ensures Tabled(Steadiness, Create(s, t, p, env)) <==> env.fwdRoom
  {
    var s' := Create(s, t, p, env);
    assert s'.heap[p].fwdKey == t && forall q <- s.heap :: s'.heap[q] == s.heap[q];
  }

  /** What a safe step is, for a packet that creates an entry. */
  lemma CreateIsSafeIff(promise: Promise, s: Nat, m: Packet, env: Env)
    requires Consistent(s) && Fresh(s, env.mem) && Creates(s, m, env)
    ensures AfterPacket(s, m, env) == Create(s, m.tuple, env.mem.value, env)
    ensures var reply := NewEntry(s, m.tuple, env.now).revKey;
            Safe(promise, s, Receive(m, env)) <==>
            match promise
            case Isolation => forall q <- s.heap :: s.heap[q].revKey == reply ==> s.heap[q].fwdKey == m.tuple
            case Delivery => if reply in s.rev then s.heap[s.rev[reply]].fwdKey == m.tuple else env.revRoom
            case Steadiness => env.fwdRoom
  {
  }

  lemma CreateTabled(promise: Promise, s: Nat, m: Packet, env: Env)
    requires Consistent(s) && Fresh(s, env.mem) && Creates(s, m, env) && Tabled(promise, s)
    ensures Tabled(promise, AfterPacket(s, m, env)) <==> Safe(promise, s, Receive(m, env))
  {
    CreateIsSafeIff(promise, s, m, env);
    match promise
    case Isolation => CreateIsolated(s, m.tuple, env.mem.value, env);
    case Delivery => CreateDelivers(s, m.tuple, env.mem.value, env);
    case Steadiness => CreateSendsAlike(s, m.tuple, env.mem.value, env);
  }

  lemma ManageTabled(promise: Promise, s: Nat, now: nat)
    requires Consistent(s) && Tabled(promise, s)
    ensures Tabled(promise, AfterManage(s, now)) <==> Safe(promise, s, Manage(now))
  {
    if !promise.Isolation? {
      if ExpiresWithAnother(s, Manage(now), promise) {
        SharedKeyDeleted(promise, s, now);
      } else if promise.Delivery? {
        OwnReplyKeysStay(s, now);
      } else {
        OwnForwardKeysStay(s, now);
      }
    }
  }

  lemma SharedKeyDeleted(promise: Promise, s: Nat, now: nat)
    requires Consistent(s) && !promise.Isolation? && ExpiresWithAnother(s, Manage(now), promise)
    ensures !Tabled(promise, AfterManage(s, now))
  {
    var p, q :| p in s.heap && q in s.heap && Due(s.heap[p], now) && !Due(s.heap[q], now)
                && if promise.Delivery? then s.heap[p].revKey == s.heap[q].revKey
                   else s.heap[p].fwdKey == s.heap[q].fwdKey;
    assert q in AfterManage(s, now).heap && p in DueSet(s, now);
  }

  lemma OwnReplyKeysStay(s: Nat, now: nat)
    requires Consistent(s) && Tabled(Delivery, s) && !ExpiresWithAnother(s, Manage(now), Delivery)
    ensures Tabled(Delivery, AfterManage(s, now))
  {
    var s' := AfterManage(s, now);
    forall p | p in s'.heap
      ensures s'.heap[p].revKey in s'.rev && s'.heap[s'.rev[s'.heap[p].revKey]].fwdKey == s'.heap[p].fwdKey
    {
      assert p in s.heap && s'.heap[p] == s.heap[p] && !Due(s.heap[p], now);
      var q := s.rev[s.heap[p].revKey];
      assert q in s.heap && s.heap[q].revKey == s.heap[p].revKey;
    }
  }

  lemma OwnForwardKeysStay(s: Nat, now: nat)
    requires Consistent(s) && Tabled(Steadiness, s) && !ExpiresWithAnother(s, Manage(now), Steadiness)
    ensures Tabled(Steadiness, AfterManage(s, now))
  {
    var s' := AfterManage(s, now);
    forall p | p in s'.heap
      ensures s'.heap[p].fwdKey in s'.fwd && s'.heap[s'.fwd[s'.heap[p].fwdKey]].revKey == s'.heap[p].revKey
    {
      assert p in s.heap && s'.heap[p] == s.heap[p] && !Due(s.heap[p], now);
      var q := s.fwd[s.heap[p].fwdKey];
      assert q in s.heap && s.heap[q].fwdKey == s.heap[p].fwdKey;
    }
  }

  lemma RefreshKeepsKeys(s: Nat, m: Packet, env: Env)
    requires Consistent(s) && Fresh(s, env.mem) && !Creates(s, m, env)
    ensures var s' := AfterPacket(s, m, env);
            && s'.fwd == s.fwd && s'.rev == s.rev && s'.heap.Keys == s.heap.Keys
            && forall p <- s.heap ::
                 s'.heap[p].fwdKey == s.heap[p].fwdKey && s'.heap[p].revKey == s.heap[p].revKey
  {
  }

  /** Packets of known flows only set timers. */
  lemma SameKeysTabled(promise: Promise, s: Nat, s': Nat)
    requires Consistent(s) && Consistent(s') && Tabled(promise, s)
    requires s'.fwd == s.fwd && s'.rev == s.rev && s'.heap.Keys == s.heap.Keys
    requires forall p <- s.heap :: s'.heap[p].fwdKey == s.heap[p].fwdKey && s'.heap[p].revKey == s.heap[p].revKey
    ensures Tabled(promise, s')
  {
  }

  lemma StepTabled(promise: Promise, w: World, e: Event)
    requires Possible(w, e) && Tabled(promise, w.napt)
    ensures Tabled(promise, Step(w, e).napt) <==> Safe(promise, w.napt, e)
  {
    match e
    case Manage(now) => ManageTabled(promise, w.napt, now);
    case Receive(m, env) =>
      if Creates(w.napt, m, env) {
        CreateTabled(promise, w.napt, m, env);
      } else {
        RefreshKeepsKeys(w.napt, m, env);
        SameKeysTabled(promise, w.napt, AfterPacket(w.napt, m, env));
      }
  }

  /** One step: a promise kept so far is still kept exactly when the step is safe for it. */
  lemma PromiseStepIffSafe(promise: Promise, w: World, hz: nat, e: Event)
    requires hz > 0 && Reachable(w, hz) && Possible(w, e) && Holds(promise, w)
    ensures Holds(promise, Step(w, e)) <==> Safe(promise, w.napt, e)
  {
    HoldsIffTabled(promise, w, hz);
    ReachableStep(w, hz, e);
    HoldsIffTabled(promise, Step(w, e), hz);
    StepTabled(promise, w, e);
  }

  // ------------------------------------------- whole runs, if and only if

  ghost predicate HoldsThroughout(promise: Promise, w: World, es: seq<Event>)
    requires IsRun(w, es)
    decreases |es|
  {
    Holds(promise, Exec(w, es)) && (es != [] ==> HoldsThroughout(promise, w, es[..|es| - 1]))
  }

  ghost predicate SafeThroughout(promise: Promise, w: World, es: seq<Event>)
    requires IsRun(w, es)
    decreases |es|
  {
    es != [] ==>
      var before := es[..|es| - 1];
      SafeThroughout(promise, w, before) && Safe(promise, Exec(w, before).napt, es[|es| - 1])
  }

  /** Over any run the promise is kept at every moment exactly when every step of the
      run was safe for it. */
  lemma {:induction false} PromiseIffSafe(promise: Promise, publicIp: U32, hz: nat, es: seq<Event>)
    requires hz > 0 && IsRun(Start(publicIp, hz), es)
    ensures HoldsThroughout(promise, Start(publicIp, hz), es) <==> SafeThroughout(promise, Start(publicIp, hz), es)
  {
    var w0 := Start(publicIp, hz);
    if es != [] {
      var before := es[..|es| - 1];
      PromiseIffSafe(promise, publicIp, hz, before);
      if HoldsThroughout(promise, w0, before) {
        assert Reachable(Exec(w0, before), hz);
        PromiseStepIffSafe(promise, Exec(w0, before), hz, es[|es| - 1]);
      }
    }
  }

  // -------------------------------------------------------- steady ports

  /** A creation finds room in the forward table. */
  predicate ForwardRoom(s: Nat, e: Event) {
    e.Receive? && Creates(s, e.pkt, e.env) ==> e.env.fwdRoom
  }

  ghost predicate ForwardRoomThroughout(w: World, es: seq<Event>)
    requires IsRun(w, es)
    decreases |es|
  {
    es != [] ==>
      var before := es[..|es| - 1];
      ForwardRoomThroughout(w, before) && ForwardRoom(Exec(w, before).napt, es[|es| - 1])
  }

  /** While live entries own their forward keys, no two can expire apart under one key,
      so that nothing but the room decides. */
  lemma OwnedIsSteady(s: Nat, e: Event)
    requires Consistent(s) && OwnsForwardKeys(s)
    ensures Tabled(Steadiness, s)
    ensures Safe(Steadiness, s, e) <==> ForwardRoom(s, e)
  {
  }

  lemma StepOwnsForward(w: World, e: Event)
    requires Possible(w, e) && OwnsForwardKeys(w.napt) && ForwardRoom(w.napt, e)
    ensures OwnsForwardKeys(Step(w, e).napt)
  {
    var s := w.napt;
    match e
    case Manage(now) =>
      var s' := AfterManage(s, now);
      forall p | p in s'.heap ensures s.heap[p].fwdKey in s'.fwd {
        assert forall q <- DueSet(s, now) :: s.heap[q].fwdKey != s.heap[p].fwdKey;
      }
    case Receive(m, env) =>
      if Creates(s, m, env) {
        assert AfterPacket(s, m, env) == Create(s, m.tuple, env.mem.value, env);
      } else {
        RefreshKeepsKeys(s, m, env);
      }
  }

  /** Steady ports: flows keep their public port all along a run exactly when every
      creation found room in the forward table, however often ports are reused. */
  lemma {:induction false} SteadyIffForwardRoom(publicIp: U32, hz: nat, es: seq<Event>)
    requires hz > 0 && IsRun(Start(publicIp, hz), es)
    ensures HoldsThroughout(Steadiness, Start(publicIp, hz), es) <==> ForwardRoomThroughout(Start(publicIp, hz), es)
    ensures ForwardRoomThroughout(Start(publicIp, hz), es) ==> OwnsForwardKeys(Exec(Start(publicIp, hz), es).napt)
  {
    PromiseIffSafe(Steadiness, publicIp, hz, es);
    if es != [] {
      var before := es[..|es| - 1];
      SteadyIffForwardRoom(publicIp, hz, before);
      PromiseIffSafe(Steadiness, publicIp, hz, before);
      if ForwardRoomThroughout(Start(publicIp, hz), before) {
        var w := Exec(Start(publicIp, hz), before);
        OwnedIsSteady(w.napt, es[|es| - 1]);
        if ForwardRoom(w.napt, es[|es| - 1]) {
          StepOwnsForward(w, es[|es| - 1]);
        }
      }
    }
  }

  /** The first packet of a flow, whose entry does not get into the forward table. */
  const UNROOMY := Receive(Packet(ETHER_IPV4, Key(1, 2, 3, 4, PROTO_UDP), []), Env(0, Some(7), false, true))

  /** And a failed insert does move a port: the next packet of the flow finds no entry,
      gets a second one and leaves from the port after the first. */
  lemma FailedInsertMovesPort()
    ensures exists w: World, env: Env ::
      && Reachable(w, 1) && |w.log| == 1 && Recent(w, w.log[0]) && !Holds(Steadiness, w)
      && Possible(w, Receive(w.log[0].pkt, env)) && Output(w.napt, w.log[0].pkt, env).Some?
      && Output(w.napt, w.log[0].pkt, env).value.tuple.srcPort != w.log[0].out.tuple.srcPort
  {
    var w0 := Start(9, 1);
    assert Reachable(w0, 1) by {
      assert IsRun(Start(9, 1), []) && Exec(Start(9, 1), []) == w0;
    }
    ReachableStep(w0, 1, UNROOMY);
    SecondPortDiffers();
  }

  lemma SecondPortDiffers()
    ensures Possible(Start(9, 1), UNROOMY)
    ensures var w, env := Step(Start(9, 1), UNROOMY), Env(0, Some(8), true, true);
      && |w.log| == 1 && Recent(w, w.log[0]) && !Holds(Steadiness, w)
      && Possible(w, Receive(w.log[0].pkt, env)) && Output(w.napt, w.log[0].pkt, env).Some?
      && Output(w.napt, w.log[0].pkt, env).value.tuple.srcPort != w.log[0].out.tuple.srcPort
  {
    var w, env := Step(Start(9, 1), UNROOMY), Env(0, Some(8), true, true);
    assert w.napt.heap.Keys == {7} && w.napt.fwd == map[];
    assert Possible(w, Receive(w.log[0].pkt, env));
    assert !SentAlike(w, w.log[0]);
  }

  // --------------------------------------------- with room in the tables

  /** Every creation finds room in both tables. */
  ghost predicate RoomyThroughout(w: World, es: seq<Event>)
    requires IsRun(w, es)
    decreases |es|
  {
    es != [] ==>
      var before, e := es[..|es| - 1], es[|es| - 1];
      && RoomyThroughout(w, before)
      && (e.Receive? && Creates(Exec(w, before).napt, e.pkt, e.env) ==> e.env.fwdRoom && e.env.revRoom)
  }

  /** With the tables in bijection a clean step is safe, and a safe one with room is clean. */
  lemma CleanVersusSafe(promise: Promise, s: Nat, e: Event)
    requires Consistent(s) && Bijective(s)
    ensures CleanCreate(s, e) ==> Safe(promise, s, e)
    ensures Safe(promise, s, e) && !promise.Steadiness?
            && (e.Receive? && Creates(s, e.pkt, e.env) ==> e.env.fwdRoom && e.env.revRoom)
            ==> CleanCreate(s, e)
  {
  }

  /** Round trip and isolation: when every creation has room, replies to recent flows
      reach them all along a run, and no two recent flows share a translated 5-tuple,
      exactly when every creation found its reply key unused. */
  lemma {:induction false} RoomyPromiseIffClean(promise: Promise, publicIp: U32, hz: nat, es: seq<Event>)
    requires hz > 0 && IsRun(Start(publicIp, hz), es) && RoomyThroughout(Start(publicIp, hz), es)
    requires promise in {Isolation, Delivery}
    ensures HoldsThroughout(promise, Start(publicIp, hz), es) <==> CleanThroughout(Start(publicIp, hz), es)
  {
    PromiseIffSafe(promise, publicIp, hz, es);
    BijectionIffClean(publicIp, hz, es);
    if es != [] {
      var before := es[..|es| - 1];
      RoomyPromiseIffClean(promise, publicIp, hz, before);
      PromiseIffSafe(promise, publicIp, hz, before);
      BijectionIffClean(publicIp, hz, before);
      if CleanThroughout(Start(publicIp, hz), before) {
        CleanVersusSafe(promise, Exec(Start(publicIp, hz), before).napt, es[|es| - 1]);
      }
    }
  }

  /** A clean run keeps all three promises. */
  lemma {:induction false} CleanRunsKeepPromises(promise: Promise, publicIp: U32, hz: nat, es: seq<Event>)
    requires hz > 0 && IsRun(Start(publicIp, hz), es) && CleanThroughout(Start(publicIp, hz), es)
    ensures SafeThroughout(promise, Start(publicIp, hz), es) && HoldsThroughout(promise, Start(publicIp, hz), es)
  {
    if es != [] {
      var before := es[..|es| - 1];
      CleanRunsKeepPromises(promise, publicIp, hz, before);
      BijectionIffClean(publicIp, hz, before);
      CleanVersusSafe(promise, Exec(Start(publicIp, hz), before).napt, es[|es| - 1]);
    }
    PromiseIffSafe(promise, publicIp, hz, es);
  }

  /** So a run whose live entries always come from the last 64511 allocations isolates
      flows and delivers replies. For steady ports room is enough. */
  lemma WindowKeepsPromises(promise: Promise, publicIp: U32, hz: nat, es: seq<Event>)
    requires hz > 0 && IsRun(Start(publicIp, hz), es)
    requires if promise.Steadiness? then ForwardRoomThroughout(Start(publicIp, hz), es)
             else WindowThroughout(Start(publicIp, hz), es) && RoomThroughout(Start(publicIp, hz), es)
    ensures HoldsThroughout(promise, Start(publicIp, hz), es)
  {
    if promise.Steadiness? {
      SteadyIffForwardRoom(publicIp, hz, es);
    } else {
      WindowGivesBijection(publicIp, hz, es);
      CleanRunsKeepPromises(promise, publicIp, hz, es);
    }
  }

  /** A port handed out again belongs to its newest flow: right after a creation the
      mirrored reply reaches the flow that was created, whoever had the reply key before,
      unless the key was new and there was no room for it. */
  lemma RepliesGoToNewestFlow(w: World, m: Packet, env: Env, reply: Packet, later: Env)
    requires Possible(w, Receive(m, env)) && Creates(w.napt, m, env)
    requires Possible(Step(w, Receive(m, env)), Receive(reply, later))
    requires reply.etherType == ETHER_IPV4 && reply.tuple == Output(w.napt, m, env).value.tuple.Mirror()
    ensures Output(Step(w, Receive(m, env)).napt, reply, later) ==
              Some(reply.(tuple := reply.tuple.(dstIp := m.tuple.srcIp, dstPort := m.tuple.srcPort)))
            <==> reply.tuple in w.napt.rev || env.revRoom
  {
    assert reply.tuple == NewEntry(w.napt, m.tuple, env.now).revKey;
    assert Step(w, Receive(m, env)).napt == Create(w.napt, m.tuple, env.mem.value, env);
  }

  /** Where replies are delivered, recent traffic is all that lets a packet in: it is
      forwarded exactly when some packet went through its translation lately. */
  lemma InboundIffRecentTraffic(w: World, hz: nat, m: Packet, env: Env)
    requires hz > 0 && Reachable(w, hz) && Possible(w, Receive(m, env)) && Inbound(w.napt, m)
    requires Holds(Delivery, w)
    ensures Output(w.napt, m, env).Some? <==>
            exists i :: 0 <= i < |w.log| && Recent(w, w.log[i]) && w.log[i].Reply() == m.tuple
  {
    if Output(w.napt, m, env).Some? {
      InboundNeedsRecentTraffic(w, hz, m, env);
    }
    if i :| 0 <= i < |w.log| && Recent(w, w.log[i]) && w.log[i].Reply() == m.tuple {
      assert Delivered(w, w.log[i]);
    }
  }
}
