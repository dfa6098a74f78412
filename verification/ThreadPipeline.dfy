/** The three-thread pipeline (thread_parsing/threaded_project: rx.c, parser.c, tx.c)
    as a step system: rx fills the first ring, the parser moves bursts to the second,
    tx drains that. A run is a schedule of moves with what the port delivered or took. */
module ThreadPipeline {
  /** A ring created with size 1024 holds 1023 packets. */
  const USABLE := 1023
  const BURST := 32
  const RX_LIMIT := 10

  type Pkt = nat

  /** rx tests the quit flag (`RxTop`), puts a burst into the ring one packet at a
      time, then tests the limit (`RxEnd`). */
  datatype RxPc = RxTop | RxPut | RxEnd | RxDone

  /** The parser takes a burst, counts it, then forwards it. */
  datatype ParserPc = ParserTop | ParserCount | ParserForward | ParserDone

  datatype TxPc = TxTop | TxCount | TxSend | TxDone

  /** The hands are the local burst arrays. `received` and `handed` list every packet
      that came from the port and that tx handed to it or freed; `lost` those a full
      first ring refused, `dropped` those the parser freed. */
  datatype State = State(
    quit: bool,
    rx: RxPc, rxHand: seq<Pkt>, rxCount: nat, rxRing: seq<Pkt>,
    parser: ParserPc, parserHand: seq<Pkt>, parserCount: nat, txRing: seq<Pkt>,
    tx: TxPc, txHand: seq<Pkt>, txCount: nat,
    received: seq<Pkt>, handed: seq<Pkt>, lost: seq<Pkt>, dropped: seq<Pkt>)

  const INIT := State(false, RxTop, [], 0, [], ParserTop, [], 0, [], TxTop, [], 0, [], [], [], [])

  /** `burst` is what the port would deliver now; at most 32 packets of it are taken. */
  datatype Move = Rx(burst: seq<Pkt>) | Parser | Tx

  function Take(s: seq<Pkt>, n: nat): seq<Pkt> {
    if |s| <= n then s else s[..n]
  }

  function Drop(s: seq<Pkt>, n: nat): seq<Pkt> {
    if |s| <= n then [] else s[n..]
  }

  function RxStep(s: State, burst: seq<Pkt>): State {
    match s.rx
    case RxTop =>
      if s.quit then s.(rx := RxDone)
      else
        var pkts := Take(burst, BURST);
        s.(rx := RxPut, rxHand := pkts, rxCount := s.rxCount + |pkts|, received := s.received + pkts)
    case RxPut =>
      if s.rxHand == [] then s.(rx := RxEnd)
      else if |s.rxRing| < USABLE then s.(rxRing := s.rxRing + [s.rxHand[0]], rxHand := s.rxHand[1..])
      else s.(lost := s.lost + [s.rxHand[0]], rxHand := s.rxHand[1..])
    case RxEnd => if s.rxCount >= RX_LIMIT then s.(quit := true, rx := RxDone) else s.(rx := RxTop)
    case RxDone => s
  }

  function ParserStep(s: State): State {
    match s.parser
    case ParserTop =>
      if s.quit then s.(parser := ParserDone)
      else
        var pkts := Take(s.rxRing, BURST);
        if pkts == [] then s
        else s.(rxRing := Drop(s.rxRing, BURST), parserHand := pkts, parser := ParserCount)
    case ParserCount => s.(parserCount := s.parserCount + |s.parserHand|, parser := ParserForward)
    case ParserForward =>
      var room := if |s.txRing| < USABLE then USABLE - |s.txRing| else 0;
      s.(txRing := s.txRing + Take(s.parserHand, room),
         dropped := s.dropped + Drop(s.parserHand, room), parserHand := [], parser := ParserTop)
    case ParserDone => s
  }

  function TxStep(s: State): State {
    match s.tx
    case TxTop =>
      if s.quit then s.(tx := TxDone)
      else
        var pkts := Take(s.txRing, BURST);
        if pkts == [] then s
        else s.(txRing := Drop(s.txRing, BURST), txHand := pkts, tx := TxCount)
    case TxCount => s.(txCount := s.txCount + |s.txHand|, tx := TxSend)
    case TxSend => s.(handed := s.handed + s.txHand, txHand := [], tx := TxTop)
    case TxDone => s
  }

  function Step(s: State, m: Move): State {
    match m
    case Rx(burst) => RxStep(s, burst)
    case Parser => ParserStep(s)
    case Tx => TxStep(s)
  }

  function Exec(run: seq<Move>): State {
    if run == [] then INIT else Step(Exec(run[..|run| - 1]), run[|run| - 1])
  }

  // --------------------------------------------------------------- invariant

  function Counted(b: bool, s: seq<Pkt>): nat {
    if b then |s| else 0
  }

  /** Everything received lies, in order, with tx, in the hands or in the rings. */
  ghost predicate Conserved(s: State) {
    s.received == s.handed + s.txHand + s.txRing + s.parserHand + s.rxRing + s.rxHand
  }

  ghost predicate Inv(s: State) {
    && Conserved(s) && s.lost == [] && s.dropped == []
    && |s.rxHand| <= BURST && |s.parserHand| <= BURST && |s.txHand| <= BURST
    && (!s.rx.RxPut? ==> s.rxHand == [])
    && (s.rx.RxTop? ==> s.rxCount < RX_LIMIT)
    && s.rxCount == |s.received| <= RX_LIMIT - 1 + BURST
    && (s.quit <==> s.rx.RxDone?) && (s.rx.RxDone? ==> s.rxCount >= RX_LIMIT)
    && (s.parser.ParserTop? || s.parser.ParserDone? ==> s.parserHand == [])
    && s.parserCount == |s.handed| + |s.txHand| + |s.txRing| + Counted(s.parser.ParserForward?, s.parserHand)
    && (s.tx.TxTop? || s.tx.TxDone? ==> s.txHand == [])
    && s.txCount == |s.handed| + Counted(s.tx.TxSend?, s.txHand)
  }

  lemma TakeDrop(s: seq<Pkt>, n: nat)
    ensures Take(s, n) + Drop(s, n) == s && |Take(s, n)| <= n
  {
  }

  lemma RxInv(s: State, burst: seq<Pkt>)
    requires Inv(s)
    ensures Inv(RxStep(s, burst))
  {
    var s' := RxStep(s, burst);
    var front := s.handed + s.txHand + s.txRing + s.parserHand;
    match s.rx
    case RxTop => TakeDrop(burst, BURST);
    case RxPut =>
      if s.rxHand != [] {
        assert s.rxHand == [s.rxHand[0]] + s.rxHand[1..];
        assert front + s.rxRing + s.rxHand == front + (s.rxRing + [s.rxHand[0]]) + s.rxHand[1..];
      }
    case RxEnd =>
    case RxDone =>
  }

  lemma ParserInv(s: State)
    requires Inv(s)
    ensures Inv(ParserStep(s))
  {
    match s.parser
    case ParserTop =>
      TakeDrop(s.rxRing, BURST);
      var front := s.handed + s.txHand + s.txRing;
      assert front + [] + s.rxRing == front + Take(s.rxRing, BURST) + Drop(s.rxRing, BURST);
    case ParserCount =>
    case ParserForward =>
      var front := s.handed + s.txHand;
      assert front + s.txRing + s.parserHand == front + (s.txRing + s.parserHand) + [];
    case ParserDone =>
  }

  lemma TxInv(s: State)
    requires Inv(s)
    ensures Inv(TxStep(s))
  {
    match s.tx
    case TxTop =>
      TakeDrop(s.txRing, BURST);
      assert s.handed + [] + s.txRing == s.handed + Take(s.txRing, BURST) + Drop(s.txRing, BURST);
    case TxCount =>
    case TxSend => assert s.handed + s.txHand == (s.handed + s.txHand) + [];
    case TxDone =>
  }

  lemma {:induction false} ExecInv(run: seq<Move>)
    ensures Inv(Exec(run))
  {
    if run != [] {
      ExecInv(run[..|run| - 1]);
      match run[|run| - 1]
      case Rx(burst) => RxInv(Exec(run[..|run| - 1]), burst);
      case Parser => ParserInv(Exec(run[..|run| - 1]));
      case Tx => TxInv(Exec(run[..|run| - 1]));
    }
  }

  // ------------------------------------------------------ the main results

  /** rx stops within one burst of its limit, so no ring ever refuses a packet and the
      parser has none to free, whatever the interleaving. */
  lemma NothingLost(run: seq<Move>)
    ensures var s := Exec(run);
            && s.rxCount <= 41 && s.lost == [] && s.dropped == []
            && |s.rxRing| + |s.txRing| <= 41 < USABLE
  {
    ExecInv(run);
  }

  /** The gap between two neighbouring counters is what lies between the two threads. */
  lemma CountersMatchPackets(run: seq<Move>)
    ensures var s := Exec(run);
            && s.rxCount - s.parserCount ==
                 |s.rxHand| + |s.rxRing| + Counted(!s.parser.ParserForward?, s.parserHand)
            && s.parserCount - s.txCount ==
                 Counted(s.parser.ParserForward?, s.parserHand) + |s.txRing| + Counted(!s.tx.TxSend?, s.txHand)
  {
    ExecInv(run);
  }

  /** What tx has handed on is a prefix of what was received, in order; nothing is
      duplicated, and the rest is still in the rings and hands. */
  lemma HandedIsPrefix(run: seq<Move>)
    ensures var s := Exec(run);
            && s.handed <= s.received
            && s.received[|s.handed|..] == s.txHand + s.txRing + s.parserHand + s.rxRing + s.rxHand
  {
    ExecInv(run);
    var s := Exec(run);
    Regroup(s.handed, s.txHand, s.txRing, s.parserHand, s.rxRing, s.rxHand);
    PrefixAndRest(s.received, s.handed, s.txHand + s.txRing + s.parserHand + s.rxRing + s.rxHand);
  }

  lemma Regroup(a: seq<Pkt>, b: seq<Pkt>, c: seq<Pkt>, d: seq<Pkt>, e: seq<Pkt>, f: seq<Pkt>)
    ensures a + b + c + d + e + f == a + (b + c + d + e + f)
  {
    assert a + b + c == a + (b + c);
    assert a + (b + c) + d == a + (b + c + d);
    assert a + (b + c + d) + e == a + (b + c + d + e);
    assert a + (b + c + d + e) + f == a + (b + c + d + e + f);
  }

  lemma PrefixAndRest(s: seq<Pkt>, front: seq<Pkt>, rest: seq<Pkt>)
    requires s == front + rest
    ensures front <= s && s[|front|..] == rest
  {
  }

  /** When all three threads have stopped, the packets not handed on are exactly those
      stranded in the two rings. */
  lemma StrandedInRings(run: seq<Move>)
    requires var s := Exec(run); s.rx.RxDone? && s.parser.ParserDone? && s.tx.TxDone?
    ensures var s := Exec(run); s.received == s.handed + s.txRing + s.rxRing
  {
    ExecInv(run);
  }

  // ------------------------------------------------------------- the end of a run

  /** The pipeline goes on exactly until rx stops, and rx stops only once it has received
      10 packets; until then it takes up to 32 of those the port has whenever it polls. */
  lemma StopsAtLimit(run: seq<Move>, burst: seq<Pkt>)
    ensures var s := Exec(run);
            && (s.quit <==> s.rx.RxDone?)
            && (s.quit ==> |s.received| >= 10)
            && (s.parser.ParserDone? || s.tx.TxDone? ==> s.quit)
            && (s.rx.RxTop? ==>
                  && |s.received| < 10
                  && Exec(run + [Rx(burst)]).received == s.received + if |burst| <= 32 then burst else burst[..32])
  {
    ExecInv(run);
    ExecStep(run, Rx(burst));
    DoneMeansQuit(run);
  }

  lemma {:induction false} DoneMeansQuit(run: seq<Move>)
    ensures Exec(run).parser.ParserDone? || Exec(run).tx.TxDone? ==> Exec(run).quit
  {
    if run != [] { DoneMeansQuit(run[..|run| - 1]); }
  }

  lemma ExecStep(run: seq<Move>, m: Move)
    ensures Exec(run + [m]) == Step(Exec(run), m)
  {
    assert (run + [m])[..|run|] == run;
  }

  lemma ThreeMoves(run: seq<Move>, m: Move)
    ensures Exec(run + [m, m, m]) == Step(Step(Step(Exec(run), m), m), m)
  {
    var one, two := run + [m], run + [m, m];
    assert two == one + [m] && run + [m, m, m] == two + [m];
    ExecStep(run, m);
    ExecStep(one, m);
    ExecStep(two, m);
  }

  /** Once rx has stopped, three more moves each stop the other two threads. */
  lemma QuitStopsAll(run: seq<Move>)
    requires Exec(run).quit
    ensures var s := Exec(run + [Parser, Parser, Parser] + [Tx, Tx, Tx]);
            s.rx.RxDone? && s.parser.ParserDone? && s.tx.TxDone?
  {
    ExecInv(run);
    ThreeMoves(run, Parser);
    ThreeMoves(run + [Parser, Parser, Parser], Tx);
    ThreadsStop(Exec(run));
  }

  lemma ThreadsStop(s: State)
    requires s.quit
    ensures var s' := ParserStep(ParserStep(ParserStep(s)));
            && s'.parser.ParserDone? && s'.quit && s'.rx == s.rx && s'.tx == s.tx
            && var s'' := TxStep(TxStep(TxStep(s')));
               s''.tx.TxDone? && s''.parser.ParserDone? && s''.rx == s.rx
  {
    ParserStops(s);
    TxStops(ParserStep(ParserStep(ParserStep(s))));
  }

  lemma ParserStops(s: State)
    requires s.quit
    ensures var s' := ParserStep(ParserStep(ParserStep(s)));
            s'.parser.ParserDone? && s'.quit && s'.rx == s.rx && s'.tx == s.tx
  {
    var s1 := ParserStep(s);
    var s2 := ParserStep(s1);
    assert s1.parser.ParserDone? || s1.parser.ParserForward? || s1.parser.ParserTop?;
    assert s2.parser.ParserDone? || s2.parser.ParserTop?;
  }

  lemma TxStops(s: State)
    requires s.quit
    ensures var s' := TxStep(TxStep(TxStep(s)));
            s'.tx.TxDone? && s'.rx == s.rx && s'.parser == s.parser
  {
    var s1 := TxStep(s);
    var s2 := TxStep(s1);
    assert s1.tx.TxDone? || s1.tx.TxSend? || s1.tx.TxTop?;
    assert s2.tx.TxDone? || s2.tx.TxTop?;
  }

  predicate OnlyForward(moves: seq<Move>) {
    forall i :: 0 <= i < |moves| ==> !moves[i].Rx?
  }

  /** Work that the parser and tx have before them: the nearer a packet is to the port,
      the less. */
  function Work(s: State): nat {
    18 * |s.rxRing| + 9 * |s.txRing|
    + (if s.parser.ParserForward? then 12 else 15) * |s.parserHand|
    + (if s.tx.TxSend? then 3 else 6) * |s.txHand|
    + (match s.parser case ParserCount => 2 case ParserForward => 1 case _ => 0)
    + (match s.tx case TxCount => 2 case TxSend => 1 case _ => 0)
  }

  ghost predicate Drained(s: State) {
    s.txHand == [] && s.txRing == [] && s.parserHand == [] && s.rxRing == []
  }

  lemma SomeoneForwards(s: State) returns (m: Move)
    requires Inv(s) && !s.quit && !s.parser.ParserDone? && !s.tx.TxDone? && !Drained(s)
    ensures !m.Rx? && Work(Step(s, m)) < Work(s)
    ensures Step(s, m).received == s.received && Step(s, m).rxHand == s.rxHand
    ensures Step(s, m).rx == s.rx && !Step(s, m).quit
  {
    if !s.parser.ParserTop? || s.rxRing != [] {
      m := Parser;
      TakeDrop(s.rxRing, BURST);
      if s.parser.ParserForward? { ParserForwardsAll(s); }
    } else {
      m := Tx;
      TakeDrop(s.txRing, BURST);
    }
  }

  lemma ParserForwardsAll(s: State)
    requires Inv(s) && s.parser.ParserForward?
    ensures ParserStep(s).txRing == s.txRing + s.parserHand
  {
    ParserInv(s);
  }

  /** The moves `more` take everything from `s` to `s'`, rx standing still. */
  ghost predicate HandsOn(s: State, more: seq<Move>, s': State) {
    && OnlyForward(more)
    && s'.received == s.received && s'.rxHand == s.rxHand
    && s'.received == s'.handed + s'.rxHand
  }

  lemma HandsOnAfter(s: State, m: Move, s1: State, more: seq<Move>, s': State)
    requires !m.Rx? && s1.received == s.received && s1.rxHand == s.rxHand && HandsOn(s1, more, s')
    ensures HandsOn(s, [m] + more, s')
  {
  }

  lemma NothingToHandOn(s: State)
    requires Inv(s) && Drained(s)
    ensures HandsOn(s, [], s)
  {
  }

  /** Progress: until the pipeline stops, the parser and tx alone can hand on every packet
      that rx has put into its ring, in order. */
  lemma {:induction false} EverythingIsHandedOn(run: seq<Move>)
    requires !Exec(run).quit
    ensures exists more :: HandsOn(Exec(run), more, Exec(run + more))
    decreases Work(Exec(run))
  {
    ExecInv(run);
    DoneMeansQuit(run);
    if Drained(Exec(run)) {
      NothingToHandOn(Exec(run));
      assert run + [] == run;
    } else {
      var m := SomeoneForwards(Exec(run));
      ExecStep(run, m);
      EverythingIsHandedOn(run + [m]);
      var more :| HandsOn(Exec(run + [m]), more, Exec(run + [m] + more));
      assert run + [m] + more == run + ([m] + more);
      HandsOnAfter(Exec(run), m, Exec(run + [m]), more, Exec(run + ([m] + more)));
    }
  }
}
