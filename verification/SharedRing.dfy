/** Two processes exchanging N requests and replies over rings, as step systems: the
    simple protocol with one ring each way (inter_process_comm/ring_full_duplex), and
    the one that shares a single ring, where a process puts back what is not for it
    (inter_process_comm/single_ring_full_duplex). A run is a schedule saying which
    process moves; a process that finds its ring empty, or full, tries again. */
module SharedRing {
  /** A ring created with size 1024 holds 1023 objects. */
  const USABLE := 1023

  datatype Who = Primary | Secondary

  /** `i` counts the requests; `m` is an object in hand. */
  datatype PrimaryPc<M> =
    | Prepare(i: nat) | Send(i: nat, m: M) | Await(i: nat) | PutBackP(i: nat, m: M)
    | Receive(i: nat, m: M) | SendExit(m: M) | DoneP

  datatype SecondaryPc<M> =
    | Poll | PutBackS(m: M) | Handle(m: M) | Reply(m: M) | DoneS

  predicate Full<M>(ring: seq<M>) {
    |ring| >= USABLE
  }

  /** rte_ring_enqueue with its answer ignored: on a full ring the object is lost. */
  function Enqueue<M>(ring: seq<M>, m: M): seq<M> {
    if Full(ring) then ring else ring + [m]
  }

  // -------------------------------------------------------- one ring each way

  /** An allocated int; `id` tells allocations apart. */
  datatype Cell = Cell(id: nat, value: int)

  /** `allocs` objects were allocated so far, `freed` lists those freed, `got` the
      replies the primary received. */
  datatype Two = Two(
    aToB: seq<Cell>, bToA: seq<Cell>, p: PrimaryPc<Cell>, s: SecondaryPc<Cell>,
    allocs: nat, freed: seq<nat>, got: seq<int>)

  const INIT_TWO := Two([], [], Prepare(0), Poll, 0, [], [])

  function TwoPrimary(t: Two, n: nat): Two {
    match t.p
    case Prepare(i) =>
      if i < n then t.(p := Send(i, Cell(t.allocs, i)), allocs := t.allocs + 1)
      else t.(p := SendExit(Cell(t.allocs, -1)), allocs := t.allocs + 1)
    case Send(i, m) => if Full(t.aToB) then t else t.(aToB := t.aToB + [m], p := Await(i))
    case Await(i) => if t.bToA == [] then t else t.(bToA := t.bToA[1..], p := Receive(i, t.bToA[0]))
    case Receive(i, m) => t.(got := t.got + [m.value], freed := t.freed + [m.id], p := Prepare(i + 1))
    case SendExit(m) => t.(aToB := Enqueue(t.aToB, m), p := DoneP)
    case _ => t
  }

  function TwoSecondary(t: Two): Two {
    match t.s
    case Poll => if t.aToB == [] then t else t.(aToB := t.aToB[1..], s := Handle(t.aToB[0]))
    case Handle(m) =>
      if m.value == -1 then t.(freed := t.freed + [m.id], s := DoneS)
      else t.(freed := t.freed + [m.id], allocs := t.allocs + 1, s := Reply(Cell(t.allocs, m.value * 10)))
    case Reply(m) => if Full(t.bToA) then t else t.(bToA := t.bToA + [m], s := Poll)
    case _ => t
  }

  function StepTwo(t: Two, n: nat, who: Who): Two {
    if who.Primary? then TwoPrimary(t, n) else TwoSecondary(t)
  }

  function ExecTwo(n: nat, schedule: seq<Who>): Two {
    if schedule == [] then INIT_TWO
    else StepTwo(ExecTwo(n, schedule[..|schedule| - 1]), n, schedule[|schedule| - 1])
  }

  // --------------------------------------------------------- one shared ring

  datatype Kind = Req | Resp | Exit

  datatype Msg = Msg(id: nat, src: Who, dst: Who, kind: Kind, value: int)

  datatype One = One(
    ring: seq<Msg>, p: PrimaryPc<Msg>, s: SecondaryPc<Msg>,
    allocs: nat, freed: seq<nat>, got: seq<int>)

  const INIT_ONE := One([], Prepare(0), Poll, 0, [], [])

  function OnePrimary(o: One, n: nat): One {
    match o.p
    case Prepare(i) =>
      if i < n then o.(p := Send(i, Msg(o.allocs, Primary, Secondary, Req, i)), allocs := o.allocs + 1)
      else o.(p := SendExit(Msg(o.allocs, Primary, Secondary, Exit, 0)), allocs := o.allocs + 1)
    case Send(i, m) => if Full(o.ring) then o else o.(ring := o.ring + [m], p := Await(i))
    case Await(i) =>
      if o.ring == [] then o
      else
        var r := o.ring[0];
        o.(ring := o.ring[1..],
           p := if r.dst != Primary then PutBackP(i, r)
                else if r.kind == Resp then Receive(i, r)
                else Await(i))
    case PutBackP(i, m) => o.(ring := Enqueue(o.ring, m), p := Await(i))
    case Receive(i, m) => o.(got := o.got + [m.value], freed := o.freed + [m.id], p := Prepare(i + 1))
    case SendExit(m) => o.(ring := Enqueue(o.ring, m), p := DoneP)
    case DoneP => o
  }

  function OneSecondary(o: One): One {
    match o.s
    case Poll =>
      if o.ring == [] then o
      else
        var m := o.ring[0];
        o.(ring := o.ring[1..],
           s := if m.dst != Secondary then PutBackS(m)
                else if m.kind == Exit || m.kind == Req then Handle(m)
                else Poll)
    case PutBackS(m) => o.(ring := Enqueue(o.ring, m), s := Poll)
    case Handle(m) =>
      if m.kind == Exit then o.(freed := o.freed + [m.id], s := DoneS)
      else o.(freed := o.freed + [m.id], allocs := o.allocs + 1,
              s := Reply(Msg(o.allocs, Secondary, Primary, Resp, m.value * 10)))
    case Reply(m) => if Full(o.ring) then o else o.(ring := o.ring + [m], s := Poll)
    case DoneS => o
  }

  function StepOne(o: One, n: nat, who: Who): One {
    if who.Primary? then OnePrimary(o, n) else OneSecondary(o)
  }

  function ExecOne(n: nat, schedule: seq<Who>): One {
    if schedule == [] then INIT_ONE
    else StepOne(ExecOne(n, schedule[..|schedule| - 1]), n, schedule[|schedule| - 1])
  }

  // --------------------------------------------------------------- invariant

  function UpTo(k: nat): seq<nat> {
    seq(k, i => i)
  }

  function Tens(k: nat): seq<int> {
    seq(k, i => 10 * i)
  }

  function Request(i: nat): Msg { Msg(2 * i, Primary, Secondary, Req, i) }
  function Response(i: nat): Msg { Msg(2 * i + 1, Secondary, Primary, Resp, 10 * i) }
  function ExitMsg(n: nat): Msg { Msg(2 * n, Primary, Secondary, Exit, 0) }

  /** Message `m` is under way: in the ring, or with the secondary, which will put it
      back (a message for the primary) or handle it (one of its own). */
  ghost predicate UnderWay(o: One, m: Msg) {
    || (o.ring == [m] && o.s == Poll)
    || (o.ring == [] && o.s == if m.dst.Primary? then PutBackS(m) else Handle(m))
  }

  /** Where the one message of the protocol is, and what was done before. */
  ghost predicate Inv(o: One, n: nat) {
    match o.p
    case Prepare(i) =>
      i <= n && o.ring == [] && o.s == Poll && Books(o, 2 * i, 2 * i, i)
    case Send(i, m) =>
      i < n && m == Request(i) && o.ring == [] && o.s == Poll && Books(o, 2 * i + 1, 2 * i, i)
    case PutBackP(i, m) =>
      i < n && m == Request(i) && o.ring == [] && o.s == Poll && Books(o, 2 * i + 1, 2 * i, i)
    case Await(i) =>
      i < n && (|| (UnderWay(o, Request(i)) && Books(o, 2 * i + 1, 2 * i, i))
                || (UnderWay(o, Response(i)) && Books(o, 2 * i + 2, 2 * i + 1, i))
                || (o.ring == [] && o.s == Reply(Response(i)) && Books(o, 2 * i + 2, 2 * i + 1, i)))
    case Receive(i, m) =>
      i < n && m == Response(i) && o.ring == [] && o.s == Poll && Books(o, 2 * i + 2, 2 * i + 1, i)
    case SendExit(m) =>
      m == ExitMsg(n) && o.ring == [] && o.s == Poll && Books(o, 2 * n + 1, 2 * n, n)
    case DoneP =>
      || (UnderWay(o, ExitMsg(n)) && Books(o, 2 * n + 1, 2 * n, n))
      || (o.ring == [] && o.s == DoneS && Books(o, 2 * n + 1, 2 * n + 1, n))
  }

  ghost predicate Books(o: One, allocs: nat, freed: nat, got: nat) {
    o.allocs == allocs && o.freed == UpTo(freed) && o.got == Tens(got)
  }

  lemma StepInv(o: One, n: nat, who: Who)
    requires Inv(o, n)
    ensures Inv(StepOne(o, n, who), n)
  {
    assert forall k: nat :: UpTo(k) + [k] == UpTo(k + 1);
    assert forall k: nat :: Tens(k) + [10 * k] == Tens(k + 1);
  }

  lemma {:induction false} ExecInv(n: nat, schedule: seq<Who>)
    ensures Inv(ExecOne(n, schedule), n)
  {
    if schedule != [] {
      ExecInv(n, schedule[..|schedule| - 1]);
      StepInv(ExecOne(n, schedule[..|schedule| - 1]), n, schedule[|schedule| - 1]);
    }
  }

  // -------------------------------------------------------------- refinement

  /** The int that stands for a message in the two-ring protocol: its value, and -1
      for exit. */
  function ToCell(m: Msg): Cell {
    Cell(m.id, if m.kind == Exit then -1 else m.value)
  }

  /** The shared ring split by destination. */
  function Split(ring: seq<Msg>, dst: Who): seq<Cell> {
    if ring == [] then []
    else Split(ring[..|ring| - 1], dst)
         + if ring[|ring| - 1].dst == dst then [ToCell(ring[|ring| - 1])] else []
  }

  /** The ring together with what is about to be put back into it. */
  function Shared(o: One): seq<Msg> {
    o.ring + (if o.p.PutBackP? then [o.p.m] else []) + (if o.s.PutBackS? then [o.s.m] else [])
  }

  function AbsP(p: PrimaryPc<Msg>): PrimaryPc<Cell> {
    match p
    case Prepare(i) => Prepare(i)
    case Send(i, m) => Send(i, ToCell(m))
    case Await(i) => Await(i)
    case PutBackP(i, _) => Await(i)
    case Receive(i, m) => Receive(i, ToCell(m))
    case SendExit(m) => SendExit(ToCell(m))
    case DoneP => DoneP
  }

  function AbsS(s: SecondaryPc<Msg>): SecondaryPc<Cell> {
    match s
    case Poll => Poll
    case PutBackS(_) => Poll
    case Handle(m) => Handle(ToCell(m))
    case Reply(m) => Reply(ToCell(m))
    case DoneS => DoneS
  }

  function Abs(o: One): Two {
    Two(Split(Shared(o), Secondary), Split(Shared(o), Primary), AbsP(o.p), AbsS(o.s),
        o.allocs, o.freed, o.got)
  }

  /** The step finds the ring empty, or takes or returns a message of the other process. */
  predicate Stutters(o: One, who: Who) {
    if who.Primary? then
      o.p.PutBackP? || (o.p.Await? && (o.ring == [] || o.ring[0].dst.Secondary?))
    else
      o.s.PutBackS? || (o.s.Poll? && (o.ring == [] || o.ring[0].dst.Primary?))
  }

  lemma SplitOne(m: Msg)
    ensures Split([m], Secondary) == if m.dst.Secondary? then [ToCell(m)] else []
    ensures Split([m], Primary) == if m.dst.Primary? then [ToCell(m)] else []
  {
  }

  lemma PrimaryPuts(o: One, n: nat)
    requires o.p.Send? || o.p.SendExit? || o.p.PutBackP?
    requires o.ring == [] && o.s == Poll && (o.p.PutBackP? ==> o.p.m.dst.Secondary?)
    requires o.p.Send? || o.p.SendExit? ==> o.p.m.dst.Secondary?
    ensures Abs(OnePrimary(o, n)) == if o.p.PutBackP? then Abs(o) else TwoPrimary(Abs(o), n)
  {
    var m := o.p.m;
    SplitOne(m);
    assert Shared(OnePrimary(o, n)) == [m];
    assert Shared(o) == if o.p.PutBackP? then [m] else [];
  }

  lemma PrimaryTakes(o: One, n: nat, m: Msg)
    requires o.p.Await? && o.ring == [m] && o.s == Poll && (m.dst.Primary? ==> m.kind == Resp)
    ensures Abs(OnePrimary(o, n)) == if m.dst.Secondary? then Abs(o) else TwoPrimary(Abs(o), n)
  {
    SplitOne(m);
    assert Shared(o) == [m];
    assert Shared(OnePrimary(o, n)) == if m.dst.Secondary? then [m] else [];
  }

  lemma PrimaryElse(o: One, n: nat)
    requires o.p.Prepare? || o.p.DoneP? || (o.p.Receive? && o.p.m.kind == Resp)
    ensures Abs(OnePrimary(o, n)) == TwoPrimary(Abs(o), n)
  {
    assert Shared(OnePrimary(o, n)) == Shared(o);
  }

  lemma PrimaryRefines(o: One, n: nat)
    requires Inv(o, n)
    ensures Abs(OnePrimary(o, n)) == if Stutters(o, Primary) then Abs(o) else TwoPrimary(Abs(o), n)
  {
    match o.p
    case Prepare(_) => PrimaryElse(o, n);
    case Send(_, _) => PrimaryPuts(o, n);
    case Await(_) => if o.ring != [] { PrimaryTakes(o, n, o.ring[0]); }
    case PutBackP(_, _) => PrimaryPuts(o, n);
    case Receive(_, _) => PrimaryElse(o, n);
    case SendExit(_) => PrimaryPuts(o, n);
    case DoneP => PrimaryElse(o, n);
  }

  lemma SecondaryPuts(o: One)
    requires o.s.Reply? || o.s.PutBackS?
    requires o.ring == [] && !o.p.PutBackP? && o.s.m.dst.Primary?
    ensures Abs(OneSecondary(o)) == if o.s.PutBackS? then Abs(o) else TwoSecondary(Abs(o))
  {
    var m := o.s.m;
    SplitOne(m);
    assert Shared(OneSecondary(o)) == [m];
    assert Shared(o) == if o.s.PutBackS? then [m] else [];
  }

  lemma SecondaryTakes(o: One, m: Msg)
    requires o.s.Poll? && o.ring == [m] && !o.p.PutBackP? && (m.dst.Secondary? ==> m.kind in {Req, Exit})
    ensures Abs(OneSecondary(o)) == if m.dst.Primary? then Abs(o) else TwoSecondary(Abs(o))
  {
    SplitOne(m);
    assert Shared(o) == [m];
    assert Shared(OneSecondary(o)) == if m.dst.Primary? then [m] else [];
  }

  /** A request is never the stop value, so both protocols take the same branch. */
  lemma SecondaryElse(o: One)
    requires o.s.Handle? || o.s.DoneS?
    requires o.s.Handle? ==> o.s.m.kind == Exit || (o.s.m.kind == Req && o.s.m.value >= 0)
    ensures Abs(OneSecondary(o)) == TwoSecondary(Abs(o))
  {
    assert Shared(OneSecondary(o)) == Shared(o);
  }

  lemma SecondaryRefines(o: One, n: nat)
    requires Inv(o, n)
    ensures Abs(OneSecondary(o)) == if Stutters(o, Secondary) then Abs(o) else TwoSecondary(Abs(o))
  {
    match o.s
    case Poll => if o.ring != [] { SecondaryTakes(o, o.ring[0]); }
    case PutBackS(_) => SecondaryPuts(o);
    case Handle(_) => SecondaryElse(o);
    case Reply(_) => SecondaryPuts(o);
    case DoneS => SecondaryElse(o);
  }

  /** The schedule of the two-ring protocol: the stutters are left out. */
  function Matching(n: nat, schedule: seq<Who>): seq<Who> {
    if schedule == [] then []
    else
      var before, who := schedule[..|schedule| - 1], schedule[|schedule| - 1];
      Matching(n, before) + if Stutters(ExecOne(n, before), who) then [] else [who]
  }

  /** Refinement: whatever the interleaving of the single-ring protocol, splitting its
      ring by destination gives the state the two-ring protocol reaches when the
      polls of an empty ring and the dequeues and put-backs of foreign messages are
      left out. */
  lemma {:induction false} SingleRingRefinesTwoRings(n: nat, schedule: seq<Who>)
    ensures Abs(ExecOne(n, schedule)) == ExecTwo(n, Matching(n, schedule))
  {
    if schedule != [] {
      var before, who := schedule[..|schedule| - 1], schedule[|schedule| - 1];
      SingleRingRefinesTwoRings(n, before);
      ExecInv(n, before);
      var o := ExecOne(n, before);
      if who.Primary? { PrimaryRefines(o, n); } else { SecondaryRefines(o, n); }
      var m := Matching(n, before);
      if Stutters(o, who) {
        assert Matching(n, schedule) == m;
      } else {
        assert Matching(n, schedule) == m + [who];
        assert (m + [who])[..|m|] == m && (m + [who])[|m|] == who;
      }
    }
  }

  // ------------------------------------------------------ the main results

  function InHand(o: One): seq<Msg> {
    (if o.p.Send? || o.p.PutBackP? || o.p.Receive? || o.p.SendExit? then [o.p.m] else [])
    + (if o.s.PutBackS? || o.s.Handle? || o.s.Reply? then [o.s.m] else [])
  }

  /** At most one message exists at any time, so every enqueue, checked or not, finds
      the ring empty. */
  lemma AtMostOneMessage(n: nat, schedule: seq<Who>)
    ensures var o := ExecOne(n, schedule);
            && |o.ring| + |InHand(o)| <= 1
            && (o.p.Send? || o.p.PutBackP? || o.p.SendExit? || o.s.PutBackS? || o.s.Reply? ==> o.ring == [])
  {
    ExecInv(n, schedule);
  }

  /** The primary receives 0, 10, 20, ... in order, and all N replies by its end. */
  lemma RepliesInOrder(n: nat, schedule: seq<Who>)
    ensures var o := ExecOne(n, schedule);
            && |o.got| <= n && (forall k :: 0 <= k < |o.got| ==> o.got[k] == 10 * k)
            && (o.p.DoneP? ==> |o.got| == n)
  {
    ExecInv(n, schedule);
  }

  /** When the secondary has exited, the ring is empty and each of the 2N + 1 messages
      allocated has been freed exactly once; no message is ever freed twice. */
  lemma EveryMessageFreedOnce(n: nat, schedule: seq<Who>)
    ensures var o := ExecOne(n, schedule);
            && (forall i, j :: 0 <= i < j < |o.freed| ==> o.freed[i] != o.freed[j])
            && (o.s.DoneS? ==>
                  && o.ring == [] && o.p.DoneP? && o.allocs == 2 * n + 1 == |o.freed|
                  && forall id :: 0 <= id < o.allocs ==> id in o.freed)
  {
    ExecInv(n, schedule);
    var o := ExecOne(n, schedule);
    forall id | 0 <= id < |o.freed| ensures id in o.freed {
      assert o.freed[id] == id;
    }
  }

  /** Steps of real work left; taking a message and putting it back does none. */
  function WorkLeft(o: One, n: nat): int {
    match o.p
    case Prepare(i) => 10 * (n - i) + 10
    case Send(i, _) => 10 * (n - i) + 9
    case Receive(i, _) => 10 * (n - i) + 4
    case SendExit(_) => 3
    case DoneP => if o.s.DoneS? then 0 else if o.s.Handle? then 1 else 2
    case _ =>
      10 * (n - o.p.i) + if o.s.Handle? then 7 else if o.s.Reply? then 6
                         else if o.allocs == 2 * o.p.i + 1 then 8 else 5
  }

  /** Every step that is not a stutter and not of a finished process is progress, a
      stutter undoes none, and until both have finished there is such a step to take
      or a message to be put back: the exchange cannot get stuck. */
  lemma WorkGetsDone(n: nat, schedule: seq<Who>, who: Who)
    ensures var o := ExecOne(n, schedule);
            var left, left' := WorkLeft(o, n), WorkLeft(StepOne(o, n, who), n);
            && 0 <= left && (Stutters(o, who) ==> left' == left)
            && (!Stutters(o, who) && (if who.Primary? then !o.p.DoneP? else !o.s.DoneS?) ==> left' < left)
            && (left == 0 <==> o.p.DoneP? && o.s.DoneS?)
    ensures var o := ExecOne(n, schedule);
            || (o.p.DoneP? && o.s.DoneS?)
            || (!o.p.DoneP? && !Stutters(o, Primary)) || (!o.s.DoneS? && !Stutters(o, Secondary))
            || o.p.PutBackP? || o.s.PutBackS?
  {
    ExecInv(n, schedule);
  }

  // ------------------------------------------- the two-ring protocol itself

  ghost predicate BooksTwo(t: Two, allocs: nat, freed: nat, got: nat) {
    t.allocs == allocs && t.freed == UpTo(freed) && t.got == Tens(got)
  }

  /** Cell `c` is on its way to the secondary, or with it. */
  ghost predicate Outgoing(t: Two, c: Cell) {
    t.bToA == [] && ((t.aToB == [c] && t.s == Poll) || (t.aToB == [] && t.s == Handle(c)))
  }

  /** Cell `c` is with the secondary, which will send it, or on its way back. */
  ghost predicate Returning(t: Two, c: Cell) {
    t.aToB == [] && ((t.bToA == [] && t.s == Reply(c)) || (t.bToA == [c] && t.s == Poll))
  }

  ghost predicate InvTwo(t: Two, n: nat) {
    match t.p
    case Prepare(i) =>
      i <= n && t.aToB == [] && t.bToA == [] && t.s == Poll && BooksTwo(t, 2 * i, 2 * i, i)
    case Send(i, m) =>
      && i < n && m == Cell(2 * i, i) && t.aToB == [] && t.bToA == [] && t.s == Poll
      && BooksTwo(t, 2 * i + 1, 2 * i, i)
    case Await(i) =>
      i < n && (|| (Outgoing(t, Cell(2 * i, i)) && BooksTwo(t, 2 * i + 1, 2 * i, i))
                || (Returning(t, Cell(2 * i + 1, 10 * i)) && BooksTwo(t, 2 * i + 2, 2 * i + 1, i)))
    case Receive(i, m) =>
      && i < n && m == Cell(2 * i + 1, 10 * i) && t.aToB == [] && t.bToA == [] && t.s == Poll
      && BooksTwo(t, 2 * i + 2, 2 * i + 1, i)
    case SendExit(m) =>
      && m == Cell(2 * n, -1) && t.aToB == [] && t.bToA == [] && t.s == Poll
      && BooksTwo(t, 2 * n + 1, 2 * n, n)
    case DoneP =>
      || (Outgoing(t, Cell(2 * n, -1)) && BooksTwo(t, 2 * n + 1, 2 * n, n))
      || (t.aToB == [] && t.bToA == [] && t.s == DoneS && BooksTwo(t, 2 * n + 1, 2 * n + 1, n))
    case PutBackP(_, _) => false
  }

  lemma StepInvTwo(t: Two, n: nat, who: Who)
    requires InvTwo(t, n)
    ensures InvTwo(StepTwo(t, n, who), n)
  {
    assert forall k: nat :: UpTo(k) + [k] == UpTo(k + 1);
    assert forall k: nat :: Tens(k) + [10 * k] == Tens(k + 1);
  }

  lemma {:induction false} ExecInvTwo(n: nat, schedule: seq<Who>)
    ensures InvTwo(ExecTwo(n, schedule), n)
  {
    if schedule != [] {
      ExecInvTwo(n, schedule[..|schedule| - 1]);
      StepInvTwo(ExecTwo(n, schedule[..|schedule| - 1]), n, schedule[|schedule| - 1]);
    }
  }

  /** The two-ring protocol keeps the same promises, over every schedule of its own:
      one object in its rings at most, so no enqueue fails, the replies 0, 10, 20, ...
      in order and all N by the end, each object freed once and all by the exit. */
  lemma TwoRingRepliesInOrder(n: nat, schedule: seq<Who>)
    ensures var t := ExecTwo(n, schedule);
            && |t.aToB| + |t.bToA| <= 1
            && |t.got| <= n && (forall k :: 0 <= k < |t.got| ==> t.got[k] == 10 * k)
            && (t.p.DoneP? ==> |t.got| == n)
            && (forall i, j :: 0 <= i < j < |t.freed| ==> t.freed[i] != t.freed[j])
            && (t.s.DoneS? ==>
                  && t.p.DoneP? && t.allocs == 2 * n + 1 == |t.freed|
                  && forall id :: 0 <= id < t.allocs ==> id in t.freed)
  {
    ExecInvTwo(n, schedule);
    var t := ExecTwo(n, schedule);
    forall id | 0 <= id < |t.freed| ensures id in t.freed {
      assert t.freed[id] == id;
    }
  }
}
