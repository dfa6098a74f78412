/** RCU publish, grace period and reclaim (rcu/sample/main.c) for any number of
    readers and updates, as a step system: a run is a schedule saying who moves.

    A version is named by its update number, so no later allocation can pass for it.
    The grace period is modelled by epochs: synchronize starts a new one and waits
    until every online reader has reported a quiescent state in it. */
module Rcu {
  /** A reader between its program points; `Loaded(v)` holds the pointer to version v. */
  datatype ReaderPc = Unregistered | Online | Locked | Loaded(v: nat) | Unlocking | Reporting | Done

  datatype Reader = Reader(pc: ReaderPc, epoch: nat, seen: seq<nat>)
  {
    /** Counted by a grace period. */
    predicate IsOnline() { !pc.Unregistered? && !pc.Done? }
  }

  /** `Update(i)`: about to allocate version i + 1. After the last one, stop is set,
      the readers are joined and the last version is freed. */
  datatype WriterPc =
    | Update(i: nat) | Swap(i: nat) | Synchronize(i: nat) | Waiting(i: nat) | Free(i: nat)
    | SetStop | Join | FreeLast | Finished

  /** `gdata` is the published version; `live` the versions allocated and not freed;
      `freed` those freed, in order. Version v holds the value v. */
  datatype State = State(
    gdata: nat, live: set<nat>, freed: seq<nat>, stop: bool,
    epoch: nat, writer: WriterPc, readers: seq<Reader>)

  datatype Who = Writer | ReaderAt(id: nat)

  function Init(readers: nat): State {
    State(0, {0}, [], false, 1, Update(0),
          seq(readers, _ => Reader(Unregistered, 0, [])))
  }

  /** Every online reader has reported since the grace period began. */
  predicate GraceOver(s: State) {
    forall r <- s.readers :: r.IsOnline() ==> r.epoch >= s.epoch
  }

  predicate AllDone(s: State) {
    forall r <- s.readers :: r.pc.Done?
  }

  /** The writer makes `updates` updates; a writer that has to wait stays where it is. */
  function WriterStep(s: State, updates: nat): State {
    match s.writer
    case Update(i) =>
      if i < updates then s.(live := s.live + {i + 1}, writer := Swap(i)) else s.(writer := SetStop)
    case Swap(i) => s.(gdata := i + 1, writer := Synchronize(i))
    case Synchronize(i) => s.(epoch := s.epoch + 1, writer := Waiting(i))
    case Waiting(i) => if GraceOver(s) then s.(writer := Free(i)) else s
    case Free(i) => s.(live := s.live - {i}, freed := s.freed + [i], writer := Update(i + 1))
    case SetStop => s.(stop := true, writer := Join)
    case Join => if AllDone(s) then s.(writer := FreeLast) else s
    case FreeLast => s.(live := s.live - {s.gdata}, freed := s.freed + [s.gdata], writer := Finished)
    case Finished => s
  }

  /** A reader registers and goes online, then loops: test stop, lock, load, read and
      unlock, report quiescence; at stop it goes offline and unregisters. */
  function ReaderMove(s: State, r: Reader): Reader {
    match r.pc
    case Unregistered => r.(pc := Online, epoch := s.epoch)
    case Online => if s.stop then r.(pc := Done) else r.(pc := Locked)
    case Locked => r.(pc := Loaded(s.gdata))
    case Loaded(v) => r.(pc := Unlocking, seen := r.seen + [v])
    case Unlocking => r.(pc := Reporting)
    case Reporting => r.(pc := Online, epoch := s.epoch)
    case Done => r
  }

  function Step(s: State, updates: nat, who: Who): State {
    match who
    case Writer => WriterStep(s, updates)
    case ReaderAt(id) =>
      if id < |s.readers| then s.(readers := s.readers[id := ReaderMove(s, s.readers[id])]) else s
  }

  function Exec(readers: nat, updates: nat, schedule: seq<Who>): State {
    if schedule == [] then Init(readers)
    else Step(Exec(readers, updates, schedule[..|schedule| - 1]), updates, schedule[|schedule| - 1])
  }

  // ------------------------------------------------------------- invariant

  /** Versions the writer has freed: 0 up to, not including, this. */
  function FreedUpTo(s: State, updates: nat): nat {
    match s.writer
    case Update(i) => i
    case Swap(i) => i
    case Synchronize(i) => i
    case Waiting(i) => i
    case Free(i) => i
    case SetStop => updates
    case Join => updates
    case FreeLast => updates
    case Finished => updates + 1
  }

  ghost predicate WriterInv(s: State, updates: nat) {
    && s.freed == seq(FreedUpTo(s, updates), i => i)
    && match s.writer
       case Update(i) => i <= updates && s.gdata == i && s.live == {i} && !s.stop
       case Swap(i) => i < updates && s.gdata == i && s.live == {i, i + 1} && !s.stop
       case Synchronize(i) => i < updates && s.gdata == i + 1 && s.live == {i, i + 1} && !s.stop
       case Waiting(i) => i < updates && s.gdata == i + 1 && s.live == {i, i + 1} && !s.stop
       case Free(i) => i < updates && s.gdata == i + 1 && s.live == {i, i + 1} && !s.stop
       case SetStop => s.gdata == updates && s.live == {updates} && !s.stop
       case Join => s.gdata == updates && s.live == {updates} && s.stop
       case FreeLast => s.gdata == updates && s.live == {updates} && s.stop && AllDone(s)
       case Finished => s.gdata == updates && s.live == {} && s.stop && AllDone(s)
  }

  ghost predicate NonDecreasing(a: seq<nat>) {
    forall i, j :: 0 <= i < j < |a| ==> a[i] <= a[j]
  }

  /** What a reader holds is the published version, or the one before it until the
      reader has reported in the current grace period. */
  ghost predicate ReaderInv(s: State, r: Reader) {
    && r.epoch <= s.epoch
    && NonDecreasing(r.seen)
    && (forall v <- r.seen :: v <= s.gdata)
    && (r.pc.Loaded? ==>
          && (forall v <- r.seen :: v <= r.pc.v)
          && (r.pc.v == s.gdata
              || (r.pc.v + 1 == s.gdata
                  && (s.writer.Synchronize? || (s.writer.Waiting? && r.epoch < s.epoch)))))
  }

  ghost predicate Inv(s: State, updates: nat) {
    WriterInv(s, updates) && forall r <- s.readers :: ReaderInv(s, r)
  }

  lemma WriterKeepsReader(s: State, updates: nat, r: Reader)
    requires WriterInv(s, updates) && r in s.readers && ReaderInv(s, r)
    ensures ReaderInv(WriterStep(s, updates), r)
  {
  }

  lemma WriterStepInv(s: State, updates: nat)
    requires Inv(s, updates)
    ensures Inv(WriterStep(s, updates), updates)
  {
    var s' := WriterStep(s, updates);
    forall r | r in s'.readers ensures ReaderInv(s', r) {
      WriterKeepsReader(s, updates, r);
    }
  }

  lemma ReaderKeepsItself(s: State, updates: nat, r: Reader)
    requires WriterInv(s, updates) && ReaderInv(s, r)
    ensures ReaderInv(s, ReaderMove(s, r))
  {
    assert forall i :: 0 <= i < |r.seen| ==> r.seen[i] in r.seen;
  }

  lemma ReaderStepInv(s: State, updates: nat, id: nat)
    requires Inv(s, updates) && id < |s.readers|
    ensures Inv(Step(s, updates, ReaderAt(id)), updates)
  {
    var s' := Step(s, updates, ReaderAt(id));
    var r := s.readers[id];
    assert r in s.readers;
    ReaderKeepsItself(s, updates, r);
    forall q | q in s'.readers ensures ReaderInv(s', q) {
      if q != s'.readers[id] { assert q in s.readers && ReaderInv(s, q); }
    }
    if AllDone(s) {
      assert s'.readers == s.readers;
    }
  }

  lemma {:induction false} ExecInv(readers: nat, updates: nat, schedule: seq<Who>)
    ensures Inv(Exec(readers, updates, schedule), updates)
  {
    if schedule != [] {
      ExecInv(readers, updates, schedule[..|schedule| - 1]);
      var s := Exec(readers, updates, schedule[..|schedule| - 1]);
      match schedule[|schedule| - 1]
      case Writer => WriterStepInv(s, updates);
      case ReaderAt(id) => if id < |s.readers| { ReaderStepInv(s, updates, id); }
    }
  }

  // ------------------------------------------------------ the main results

  /** No reader ever dereferences a freed version, whatever the interleaving. */
  lemma ReadersNeverTouchFreed(readers: nat, updates: nat, schedule: seq<Who>, r: Reader)
    requires r in Exec(readers, updates, schedule).readers && r.pc.Loaded?
    ensures var s := Exec(readers, updates, schedule);
            r.pc.v in s.live && r.pc.v !in s.freed
  {
    ExecInv(readers, updates, schedule);
    var s := Exec(readers, updates, schedule);
    assert ReaderInv(s, r);
  }

  /** At most two versions are allocated at once, and never one that was freed. */
  lemma AtMostTwoVersions(readers: nat, updates: nat, schedule: seq<Who>)
    ensures var s := Exec(readers, updates, schedule);
            |s.live| <= 2 && forall v <- s.live :: v !in s.freed
  {
    ExecInv(readers, updates, schedule);
  }

  /** The values one reader sees never go back. */
  lemma ReadersSeeNonDecreasingValues(readers: nat, updates: nat, schedule: seq<Who>, r: Reader)
    requires r in Exec(readers, updates, schedule).readers
    ensures NonDecreasing(r.seen) && forall v <- r.seen :: v <= updates
  {
    ExecInv(readers, updates, schedule);
    assert ReaderInv(Exec(readers, updates, schedule), r);
  }

  /** When the program has finished, each of its versions was freed exactly once. */
  lemma EveryVersionFreedOnce(readers: nat, updates: nat, schedule: seq<Who>)
    requires Exec(readers, updates, schedule).writer.Finished?
    ensures var s := Exec(readers, updates, schedule);
            && s.live == {} && |s.freed| == updates + 1
            && forall v :: 0 <= v <= updates ==> multiset(s.freed)[v] == 1
  {
    ExecInv(readers, updates, schedule);
    forall v | 0 <= v <= updates ensures multiset(Exec(readers, updates, schedule).freed)[v] == 1 {
      CountingOnce(updates + 1, v);
    }
  }

  lemma {:induction false} CountingOnce(n: nat, v: nat)
    requires v < n
    ensures multiset(seq(n, i => i))[v] == 1
  {
    var whole, front := seq(n, i => i), seq(n - 1, i => i);
    assert whole == front + [n - 1];
    if v < n - 1 {
      CountingOnce(n - 1, v);
    } else {
      assert v !in front;
    }
  }

  // ----------------------------------------------------------- what readers see

  lemma ExecStep(readers: nat, updates: nat, schedule: seq<Who>, who: Who)
    ensures Exec(readers, updates, schedule + [who]) == Step(Exec(readers, updates, schedule), updates, who)
  {
    assert (schedule + [who])[..|schedule|] == schedule;
  }

  lemma {:induction false} ExecReaders(readers: nat, updates: nat, schedule: seq<Who>)
    ensures |Exec(readers, updates, schedule).readers| == readers
  {
    if schedule != [] { ExecReaders(readers, updates, schedule[..|schedule| - 1]); }
  }

  lemma OtherMove(s: State, updates: nat, who: Who, id: nat)
    requires id < |s.readers| && who != ReaderAt(id)
    ensures var s' := Step(s, updates, who); |s'.readers| == |s.readers| && s'.readers[id] == s.readers[id]
  {
  }

  /** Nothing but its own moves changes a reader. */
  lemma {:induction false} OthersLeaveReader(readers: nat, updates: nat, before: seq<Who>, between: seq<Who>, id: nat)
    requires id < readers && ReaderAt(id) !in between
    ensures |Exec(readers, updates, before).readers| == |Exec(readers, updates, before + between).readers| == readers
    ensures Exec(readers, updates, before + between).readers[id] == Exec(readers, updates, before).readers[id]
  {
    ExecReaders(readers, updates, before);
    if between == [] {
      assert before + between == before;
    } else {
      var front, last := between[..|between| - 1], between[|between| - 1];
      OthersLeaveReader(readers, updates, before, front, id);
      assert before + between == before + front + [last];
      ExecStep(readers, updates, before + front, last);
      OtherMove(Exec(readers, updates, before + front), updates, last, id);
    }
  }

  /** A reader about to load gets the version published at that moment, and that value
      is what its next move prints, whatever the others do in between. */
  lemma ReadsWhatItLoaded(readers: nat, updates: nat, before: seq<Who>, between: seq<Who>, id: nat)
    requires id < readers && ReaderAt(id) !in between
    requires |Exec(readers, updates, before).readers| == readers
    requires Exec(readers, updates, before).readers[id].pc.Locked?
    ensures var s := Exec(readers, updates, before);
            var s' := Exec(readers, updates, before + [ReaderAt(id)] + between + [ReaderAt(id)]);
            && |s'.readers| == readers
            && s'.readers[id].seen == s.readers[id].seen + [s.gdata]
  {
    ExecStep(readers, updates, before, ReaderAt(id));
    OthersLeaveReader(readers, updates, before + [ReaderAt(id)], between, id);
    ExecStep(readers, updates, before + [ReaderAt(id)] + between, ReaderAt(id));
  }

  /** How often `who` moves. */
  function Moves(schedule: seq<Who>, who: Who): nat {
    if schedule == [] then 0
    else Moves(schedule[..|schedule| - 1], who) + if schedule[|schedule| - 1] == who then 1 else 0
  }

  /** Moves of a loop made so far. */
  function Position(pc: ReaderPc): nat {
    match pc
    case Locked => 1
    case Loaded(_) => 2
    case Unlocking => 3
    case Reporting => 4
    case _ => 0
  }

  /** Until it stops a reader reads exactly once in every five of its moves. */
  lemma {:induction false} ReadsOncePerLoop(readers: nat, updates: nat, schedule: seq<Who>, id: nat)
    requires id < readers
    ensures var s := Exec(readers, updates, schedule);
            && |s.readers| == readers
            && var r := s.readers[id];
            && (r.pc.Unregistered? ==> Moves(schedule, ReaderAt(id)) == 0 && r.seen == [])
            && (r.IsOnline() ==>
                  Moves(schedule, ReaderAt(id)) ==
                    1 + 5 * (|r.seen| - if Position(r.pc) >= 3 then 1 else 0) + Position(r.pc))
  {
    ExecReaders(readers, updates, schedule);
    if schedule != [] {
      ReadsOncePerLoop(readers, updates, schedule[..|schedule| - 1], id);
    }
  }

  /** The law of reclamation: once version v has been freed, every value that any reader
      sees from then on, in any continuation of the run, is newer than v. */
  lemma {:induction false} NothingFreedIsSeen(
    readers: nat, updates: nat, before: seq<Who>, after: seq<Who>, id: nat, v: nat)
    requires id < readers && v in Exec(readers, updates, before).freed
    ensures var s, s' := Exec(readers, updates, before), Exec(readers, updates, before + after);
            && |s.readers| == |s'.readers| == readers
            && s.freed <= s'.freed && s.readers[id].seen <= s'.readers[id].seen
            && forall k :: |s.readers[id].seen| <= k < |s'.readers[id].seen| ==> s'.readers[id].seen[k] > v
  {
    ExecReaders(readers, updates, before);
    if after == [] {
      assert before + after == before;
    } else {
      var n := |after| - 1;
      NothingFreedIsSeen(readers, updates, before, after[..n], id, v);
      assert before + after == before + after[..n] + [after[n]];
      ExecStep(readers, updates, before + after[..n], after[n]);
      ExecInv(readers, updates, before + after[..n]);
      SeenStep(Exec(readers, updates, before + after[..n]), updates, after[n], id, v);
    }
  }

  lemma SeenStep(s: State, updates: nat, who: Who, id: nat, v: nat)
    requires Inv(s, updates) && id < |s.readers| && v in s.freed
    ensures var s' := Step(s, updates, who);
            && |s'.readers| == |s.readers| && s.freed <= s'.freed
            && (s'.readers[id].seen == s.readers[id].seen
                || exists x :: x > v && s'.readers[id].seen == s.readers[id].seen + [x])
  {
    assert s.readers[id] in s.readers && ReaderInv(s, s.readers[id]);
  }

  // --------------------------------------------------------------- progress

  /** Moves a lagging reader has to make before it reports. */
  function ToReport(s: State, r: Reader): nat {
    if !r.IsOnline() || r.epoch >= s.epoch then 0
    else if r.pc.Online? then 5
    else if r.pc.Locked? then 4
    else if r.pc.Loaded? then 3
    else if r.pc.Unlocking? then 2
    else 1
  }

  function Lag(s: State, n: nat): nat
    requires n <= |s.readers|
  {
    if n == 0 then 0 else Lag(s, n - 1) + ToReport(s, s.readers[n - 1])
  }

  lemma {:induction false} LagOfStep(s: State, s': State, id: nat, n: nat)
    requires n <= |s.readers| == |s'.readers| && id < |s.readers| && s'.epoch == s.epoch
    requires forall i :: 0 <= i < |s.readers| && i != id ==> s'.readers[i] == s.readers[i]
    ensures Lag(s', n) == Lag(s, n)
            + if id < n then ToReport(s', s'.readers[id]) - ToReport(s, s.readers[id]) else 0
  {
    if n > 0 { LagOfStep(s, s', id, n - 1); }
  }

  lemma {:induction false} NoLagIffGraceOver(s: State, n: nat)
    requires n <= |s.readers|
    ensures Lag(s, n) == 0 <==> forall i :: 0 <= i < n && s.readers[i].IsOnline() ==> s.readers[i].epoch >= s.epoch
  {
    if n > 0 { NoLagIffGraceOver(s, n - 1); }
  }

  /** The grace period ends: while the writer waits, every move of a reader that lags
      brings the end one move nearer, no other move of a reader puts it off, and when
      nothing lags the writer's next move gets through. */
  lemma GracePeriodProgress(readers: nat, updates: nat, schedule: seq<Who>, id: nat)
    requires var s := Exec(readers, updates, schedule); s.writer.Waiting? && id < |s.readers|
    ensures var s := Exec(readers, updates, schedule);
            var s' := Step(s, updates, ReaderAt(id));
            && Lag(s', |s'.readers|) ==
                 Lag(s, |s.readers|) - (if ToReport(s, s.readers[id]) > 0 then 1 else 0)
            && (Lag(s, |s.readers|) == 0 <==> WriterStep(s, updates).writer.Free?)
            && Lag(s, |s.readers|) <= 5 * |s.readers|
  {
    ExecInv(readers, updates, schedule);
    var s := Exec(readers, updates, schedule);
    LagOfStep(s, Step(s, updates, ReaderAt(id)), id, |s.readers|);
    NoLagIffGraceOver(s, |s.readers|);
    LagBound(s, |s.readers|);
  }

  lemma {:induction false} LagBound(s: State, n: nat)
    requires n <= |s.readers|
    ensures Lag(s, n) <= 5 * n
  {
    if n > 0 { LagBound(s, n - 1); }
  }

  /** Moves the writer still has to make. */
  function WriterLeft(s: State, updates: nat): int {
    match s.writer
    case Update(i) => 5 * (updates - i) + 4
    case Swap(i) => 5 * (updates - i) + 3
    case Synchronize(i) => 5 * (updates - i) + 2
    case Waiting(i) => 5 * (updates - i) + 1
    case Free(i) => 5 * (updates - i)
    case SetStop => 3
    case Join => 2
    case FreeLast => 1
    case Finished => 0
  }

  /** Moves a reader has to make to stop, once told to. */
  function ToStop(s: State, r: Reader): nat {
    match r.pc
    case Unregistered => 6
    case Online => if s.stop then 1 else 6
    case Locked => 5
    case Loaded(_) => 4
    case Unlocking => 3
    case Reporting => 2
    case Done => 0
  }

  function StopLag(s: State, n: nat): nat
    requires n <= |s.readers|
  {
    if n == 0 then 0 else StopLag(s, n - 1) + ToStop(s, s.readers[n - 1])
  }

  lemma {:induction false} StopLagOfStep(s: State, s': State, id: nat, n: nat)
    requires n <= |s.readers| == |s'.readers| && id < |s.readers| && s'.stop == s.stop
    requires forall i :: 0 <= i < |s.readers| && i != id ==> s'.readers[i] == s.readers[i]
    ensures StopLag(s', n) == StopLag(s, n)
            + if id < n then ToStop(s', s'.readers[id]) - ToStop(s, s.readers[id]) else 0
  {
    if n > 0 { StopLagOfStep(s, s', id, n - 1); }
  }

  /** What keeps the writer waiting. */
  function Wait(s: State): nat {
    if s.writer.Waiting? then Lag(s, |s.readers|) else if s.writer.Join? then StopLag(s, |s.readers|) else 0
  }

  lemma LaggardProgresses(s: State, updates: nat) returns (id: nat)
    requires Inv(s, updates) && s.writer.Waiting? && !GraceOver(s)
    ensures var s' := Step(s, updates, ReaderAt(id)); s'.writer == s.writer && Wait(s') < Wait(s)
  {
    var r :| r in s.readers && r.IsOnline() && r.epoch < s.epoch;
    id :| 0 <= id < |s.readers| && s.readers[id] == r;
    LagOfStep(s, Step(s, updates, ReaderAt(id)), id, |s.readers|);
  }

  lemma RunnerProgresses(s: State, updates: nat) returns (id: nat)
    requires Inv(s, updates) && s.writer.Join? && !AllDone(s)
    ensures var s' := Step(s, updates, ReaderAt(id)); s'.writer == s.writer && Wait(s') < Wait(s)
  {
    var r :| r in s.readers && !r.pc.Done?;
    id :| 0 <= id < |s.readers| && s.readers[id] == r;
    StopLagOfStep(s, Step(s, updates, ReaderAt(id)), id, |s.readers|);
  }

  /** In every state but the last some thread has a move that brings the end nearer. */
  lemma SomeoneProgresses(s: State, updates: nat) returns (who: Who)
    requires Inv(s, updates) && !s.writer.Finished?
    ensures var s' := Step(s, updates, who);
            && 0 <= WriterLeft(s', updates)
            && (|| WriterLeft(s', updates) < WriterLeft(s, updates)
                || (WriterLeft(s', updates) == WriterLeft(s, updates) && Wait(s') < Wait(s)))
  {
    if s.writer.Waiting? && !GraceOver(s) {
      var id := LaggardProgresses(s, updates);
      who := ReaderAt(id);
    } else if s.writer.Join? && !AllDone(s) {
      var id := RunnerProgresses(s, updates);
      who := ReaderAt(id);
    } else {
      who := Writer;
    }
  }

  /** The program never gets stuck: every run can be continued to its end. */
  lemma {:induction false} EveryRunCanFinish(readers: nat, updates: nat, schedule: seq<Who>)
    ensures exists more :: Exec(readers, updates, schedule + more).writer.Finished?
    decreases WriterLeft(Exec(readers, updates, schedule), updates), Wait(Exec(readers, updates, schedule))
  {
    ExecInv(readers, updates, schedule);
    var s := Exec(readers, updates, schedule);
    if s.writer.Finished? {
      assert schedule + [] == schedule;
    } else {
      var who := SomeoneProgresses(s, updates);
      ExecStep(readers, updates, schedule, who);
      EveryRunCanFinish(readers, updates, schedule + [who]);
      var more :| Exec(readers, updates, schedule + [who] + more).writer.Finished?;
      assert schedule + [who] + more == schedule + ([who] + more);
    }
  }
}
