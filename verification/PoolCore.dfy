/** The slot array and index map that the version 4 and version 5 NAT pools share:
    what assigning, refreshing, releasing idle slots and clearing do to the pair. */
module PoolCore {
  import opened Finite
  import opened Wire
  import opened Checksum

  datatype Slot = Slot(privateIp: U32, publicIp: U32, lastSeen: nat, inUse: bool)

  /** `index` maps a private address to its slot. */
  datatype Pool = Pool(slots: seq<Slot>, index: map<U32, nat>)

  /** The header fields a pool looks at. */
  datatype Frame = Frame(etherType: U16, srcIp: U32, dstIp: U32)

  /** What a pool looks at in an IPv4 frame. */
  function View(f: seq<U8>): Frame
    requires IP + 20 <= |f|
  {
    Frame(WordAt(f, 12), AddressAt(f, IP + 12), AddressAt(f, IP + 16))
  }

  /** rewrite_and_recalc on the bytes is the change of one address that the pools make. */
  lemma RewriteSetsAddress(f: seq<U8>, addr: U32, isSrc: bool)
    requires Covered(f, IP)
    ensures View(Rewritten(f, IP, addr, isSrc)) ==
              if isSrc then View(f).(srcIp := addr) else View(f).(dstIp := addr)
  {
  }

  // ------------------------------------------------------------- invariants

  /** index[k] is i exactly when slot i is in use for private address k. */
  ghost predicate Agree(p: Pool) {
    && (forall k <- p.index :: p.index[k] < |p.slots|)
    && (forall k <- p.index :: p.slots[p.index[k]].inUse && p.slots[p.index[k]].privateIp == k)
    && (forall i :: 0 <= i < |p.slots| && p.slots[i].inUse ==>
          p.slots[i].privateIp in p.index && p.index[p.slots[i].privateIp] == i)
  }

  function PublicIp(start: U32, i: nat): U32 {
    (start + i) % 0x1_0000_0000
  }

  /** Every slot still has the public address it was created with. */
  ghost predicate Publics(p: Pool, start: U32, range: nat) {
    |p.slots| == range && forall i :: 0 <= i < range ==> p.slots[i].publicIp == PublicIp(start, i)
  }

  ghost function Used(p: Pool): set<nat> {
    set i: nat | i < |p.slots| && p.slots[i].inUse
  }

  // ------------------------------------------------------------- operations

  function NewPool(start: U32, range: U32): Pool {
    Pool(seq(range, i requires 0 <= i => Slot(0, PublicIp(start, i), 0, false)), map[])
  }

  function Freed(s: Slot): Slot {
    s.(inUse := false, privateIp := 0, lastSeen := 0)
  }

  predicate IsIdle(s: Slot, now: nat, idle: nat) {
    s.inUse && now - s.lastSeen >= idle
  }

  function ReleasedSlot(s: Slot, now: nat, idle: nat): Slot {
    if IsIdle(s, now, idle) then Freed(s) else s
  }

  /** The private addresses of the idle ones among the first `n` slots. */
  function IdleKeys(slots: seq<Slot>, now: nat, idle: nat, n: nat): set<U32>
    requires n <= |slots|
  {
    set i | 0 <= i < n && IsIdle(slots[i], now, idle) :: slots[i].privateIp
  }

  /** Release every idle slot. */
  function Released(p: Pool, now: nat, idle: nat): Pool {
    Pool(seq(|p.slots|, i requires 0 <= i < |p.slots| => ReleasedSlot(p.slots[i], now, idle)),
         p.index - IdleKeys(p.slots, now, idle, |p.slots|))
  }

  function Cleared(p: Pool): Pool {
    Pool(seq(|p.slots|, i requires 0 <= i < |p.slots| => Freed(p.slots[i])), map[])
  }

  /** The lowest free slot, or -1 when every slot is in use. */
  function LowestFree(slots: seq<Slot>): (r: int)
    ensures -1 <= r < |slots|
    ensures r >= 0 ==> !slots[r].inUse && forall j :: 0 <= j < r ==> slots[j].inUse
    ensures r == -1 <==> forall j :: 0 <= j < |slots| ==> slots[j].inUse
  {
    if |slots| == 0 then -1
    else
      var r := LowestFree(slots[..|slots| - 1]);
      if r >= 0 then r else if slots[|slots| - 1].inUse then -1 else |slots| - 1
  }

  function Assigned(p: Pool, i: nat, src: U32, at: nat): Pool
    requires i < |p.slots|
  {
    Pool(p.slots[i := p.slots[i].(privateIp := src, inUse := true, lastSeen := at)], p.index[src := i])
  }

  function Refreshed(p: Pool, src: U32, at: nat): Pool
    requires src in p.index && p.index[src] < |p.slots|
  {
    p.(slots := p.slots[p.index[src] := p.slots[p.index[src]].(lastSeen := at)])
  }

  // ------------------------------------------- what the operations preserve

  lemma IdleKeysStep(slots: seq<Slot>, now: nat, idle: nat, i: nat)
    requires i < |slots|
    ensures IdleKeys(slots, now, idle, i + 1) ==
            IdleKeys(slots, now, idle, i) + if IsIdle(slots[i], now, idle) then {slots[i].privateIp} else {}
  {
  }

  lemma NewPoolAgrees(start: U32, range: U32)
    ensures Agree(NewPool(start, range)) && Publics(NewPool(start, range), start, range)
  {
  }

  lemma ReleasedAgrees(p: Pool, now: nat, idle: nat)
    requires Agree(p)
    ensures Agree(Released(p, now, idle))
    ensures forall k :: k in Released(p, now, idle).index <==>
                        k in p.index && !IsIdle(p.slots[p.index[k]], now, idle)
  {
    var p' := Released(p, now, idle);
    forall k ensures k in p'.index <==> k in p.index && !IsIdle(p.slots[p.index[k]], now, idle) {
      if k in p.index && IsIdle(p.slots[p.index[k]], now, idle) {
        assert k in IdleKeys(p.slots, now, idle, |p.slots|);
      }
    }
  }

  lemma AssignedAgrees(p: Pool, i: nat, src: U32, at: nat)
    requires Agree(p) && i < |p.slots| && !p.slots[i].inUse && src !in p.index
    ensures Agree(Assigned(p, i, src, at))
  {
  }

  lemma RefreshedAgrees(p: Pool, src: U32, at: nat)
    requires Agree(p) && src in p.index
    ensures Agree(Refreshed(p, src, at))
  {
  }

  /** Clearing absorbs releasing, so it does not matter in which order two due
      timers run. */
  lemma ClearAbsorbsRelease(p: Pool, now: nat, idle: nat)
    ensures Cleared(Released(p, now, idle)) == Cleared(p) == Released(Cleared(p), now, idle)
  {
    assert Cleared(Released(p, now, idle)).slots == Cleared(p).slots;
    assert Released(Cleared(p), now, idle).slots == Cleared(p).slots;
  }

  /** The index is as large as the number of slots in use. */
  lemma IndexCountsUsedSlots(p: Pool)
    requires Agree(p)
    ensures |p.index| == |Used(p)| <= |p.slots|
  {
    InjectiveSize(p.index, Used(p));
    var owner := map i | i in Used(p) :: p.slots[i].privateIp;
    assert owner.Keys == Used(p);
    InjectiveSize(owner, p.index.Keys);
    var position: map<nat, int> := map i | i in Used(p) :: i as int;
    assert position.Keys == Used(p);
    InjectiveSize(position, Range(0, |p.slots|));
  }

  /** Different slots have different public addresses. */
  lemma PublicsAreDistinct(start: U32, range: U32, i: nat, j: nat)
    requires i < j < range
    ensures PublicIp(start, i) != PublicIp(start, j)
  {
  }

  /** So two private addresses in the index never share a public address. */
  lemma TranslationIsInjective(p: Pool, start: U32, range: U32, k: U32, l: U32)
    requires Agree(p) && Publics(p, start, range) && k in p.index && l in p.index
    ensures p.slots[p.index[k]].publicIp == p.slots[p.index[l]].publicIp <==> k == l
  {
    var i, j := p.index[k], p.index[l];
    if i < j { PublicsAreDistinct(start, range, i, j); }
    if j < i { PublicsAreDistinct(start, range, j, i); }
  }

  // ----------------------------------------------------------------- history

  /** A packet of private address `src` left, its source address now being `pub`. */
  datatype Use = Use(at: nat, src: U32, pub: U32)

  /** Slot `s` was last used by the packet of some record of the log. */
  ghost predicate Backed(log: seq<Use>, s: Slot) {
    exists i :: 0 <= i < |log| && log[i] == Use(s.lastSeen, s.privateIp, s.publicIp)
  }

  /** No record of the slot's owner is later than the slot's stamp. */
  ghost predicate Latest(log: seq<Use>, s: Slot) {
    forall i :: 0 <= i < |log| && log[i].src == s.privateIp ==> log[i].at <= s.lastSeen
  }

  /** The slots in use agree with what was sent so far. */
  ghost predicate History(log: seq<Use>, p: Pool, clock: nat) {
    && (forall i :: 0 <= i < |log| ==> log[i].at <= clock)
    && (forall i :: 0 <= i < |p.slots| && p.slots[i].inUse ==>
          Backed(log, p.slots[i]) && Latest(log, p.slots[i]))
  }

  lemma BackedMono(log: seq<Use>, u: Use, s: Slot)
    requires Backed(log, s)
    ensures Backed(log + [u], s)
  {
    var i :| 0 <= i < |log| && log[i] == Use(s.lastSeen, s.privateIp, s.publicIp);
    assert (log + [u])[i] == log[i];
  }

  /** Stamping slot `i` for a packet that is logged keeps the history right. */
  lemma StampedHistory(log: seq<Use>, p: Pool, p': Pool, i: nat, src: U32, clock: nat, at: nat)
    requires History(log, p, clock) && Agree(p') && clock <= at
    requires i < |p.slots| == |p'.slots|
    requires forall j :: 0 <= j < |p.slots| && j != i ==> p'.slots[j] == p.slots[j]
    requires p'.slots[i] == p.slots[i].(privateIp := src, inUse := true, lastSeen := at)
    ensures History(log + [Use(at, src, p.slots[i].publicIp)], p', at)
  {
    var u := Use(at, src, p.slots[i].publicIp);
    forall j | 0 <= j < |p'.slots| && p'.slots[j].inUse
      ensures Backed(log + [u], p'.slots[j]) && Latest(log + [u], p'.slots[j])
    {
      if j == i {
        assert (log + [u])[|log|] == u;
      } else {
        BackedMono(log, u, p.slots[j]);
        assert p'.slots[j].privateIp != p'.slots[i].privateIp;
      }
    }
  }

  /** So does giving up slots. */
  lemma FreedHistory(log: seq<Use>, p: Pool, p': Pool, clock: nat, later: nat)
    requires History(log, p, clock) && clock <= later && |p'.slots| == |p.slots|
    requires forall i :: 0 <= i < |p'.slots| && p'.slots[i].inUse ==> p'.slots[i] == p.slots[i]
    ensures History(log, p', later)
  {
  }

  // --------------------------------------------------------------- stability

  /** The mapping a record shows is still in place. */
  ghost predicate InPlace(p: Pool, r: Use) {
    && r.src in p.index && p.index[r.src] < |p.slots|
    && p.slots[p.index[r.src]].publicIp == r.pub
    && r.at <= p.slots[p.index[r.src]].lastSeen
  }

  /** Two records whose mappings are in place are of one source exactly when they left alike. */
  lemma InPlaceTogether(p: Pool, start: U32, range: U32, r: Use, q: Use)
    requires Agree(p) && Publics(p, start, range) && InPlace(p, r) && InPlace(p, q)
    ensures r.src == q.src <==> r.pub == q.pub
  {
    TranslationIsInjective(p, start, range, r.src, q.src);
  }

  /** Slot `i` is in use for `src`, stamped `at`, and no other slot is in use for it. */
  ghost predicate OwnSlot(p: Pool, i: nat, src: U32, at: nat) {
    && i < |p.slots| && p.slots[i].inUse && p.slots[i].privateIp == src && p.slots[i].lastSeen == at
    && forall j :: 0 <= j < |p.slots| && p.slots[j].inUse && p.slots[j].privateIp == src ==> j == i
  }

  /** Any two packets of one source less than the idle time apart left alike. */
  ghost predicate LocallyStable(log: seq<Use>, idle: nat) {
    forall i, j :: 0 <= i < j < |log| && log[i].src == log[j].src && log[j].at < log[i].at + idle ==>
      log[i].pub == log[j].pub
  }

  /** Consecutive packets of `src` are less than the idle time apart. */
  ghost predicate InSteadyUse(log: seq<Use>, src: U32, idle: nat) {
    forall i, j :: 0 <= i < j < |log| && log[i].src == src && log[j].src == src
                   && (forall k :: i < k < j ==> log[k].src != src)
                   ==> log[j].at < log[i].at + idle
  }

  /** A stamp of slot `i` for `src` leaves every mapping in place. */
  lemma StampInPlace(p: Pool, p': Pool, i: nat, src: U32, at: nat, r: Use)
    requires InPlace(p, r) && Agree(p) && r.at <= at && i < |p.slots|
    requires p' == Pool(p.slots[i := p.slots[i].(privateIp := src, inUse := true, lastSeen := at)],
                        p.index[src := i])
    requires src in p.index ==> p.index[src] == i
    ensures InPlace(p', r)
  {
  }

  lemma {:induction false} ChainKeepsAddress(log: seq<Use>, idle: nat, src: U32, i: nat, j: nat)
    requires LocallyStable(log, idle) && InSteadyUse(log, src, idle)
    requires i < j < |log| && log[i].src == src && log[j].src == src
    ensures log[i].pub == log[j].pub
    decreases j - i
  {
    var k := LastBefore(log, src, i, j);
    assert log[k].pub == log[j].pub;
    if i < k {
      ChainKeepsAddress(log, idle, src, i, k);
    }
  }

  /** The last record of `src` before `j`. */
  ghost function LastBefore(log: seq<Use>, src: U32, i: nat, j: nat): (k: nat)
    requires i < j < |log| && log[i].src == src
    ensures i <= k < j && log[k].src == src
    ensures forall l :: k < l < j ==> log[l].src != src
    decreases j
  {
    if log[j - 1].src == src then j - 1 else LastBefore(log, src, i, j - 1)
  }
}
