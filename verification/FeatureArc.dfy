/** The feature arc (feature_arc/sample/main.c): a chain of features between a start
    and an end node, kept as `next` links that a rebuild overwrites in place. Links of
    disabled features are left behind, stale. */
module FeatureArc {
  import opened Wire

  const MAX_FEATURES := 8
  const MAX_NODES := 16

  type Name = string

  datatype Node = Node(name: Name, next: Option<Name>)

  /** Registered features in order, and which are enabled. */
  datatype Feature = Feature(name: Name, enabled: bool)

  datatype Arc = Arc(nodes: seq<Node>, start: Name, end: Name, features: seq<Feature>)

  // ------------------------------------------------------------- operations

  /** The first node of that name, or the number of nodes. */
  function FirstNode(nodes: seq<Node>, name: Name): (i: nat)
    ensures i <= |nodes|
    ensures i < |nodes| ==> nodes[i].name == name
    ensures forall j :: 0 <= j < i ==> nodes[j].name != name
  {
    if nodes == [] then 0 else if nodes[0].name == name then 0 else 1 + FirstNode(nodes[1..], name)
  }

  function SetNext(nodes: seq<Node>, from: Name, to: Name): seq<Node> {
    var i := FirstNode(nodes, from);
    if i < |nodes| then nodes[i := nodes[i].(next := Some(to))] else nodes
  }

  function SetEnabled(features: seq<Feature>, name: Name, on: bool): seq<Feature> {
    seq(|features|, i requires 0 <= i < |features| =>
      if features[i].name == name then features[i].(enabled := on) else features[i])
  }

  /** Names of the enabled features, in registration order. */
  function Enabled(features: seq<Feature>): seq<Name> {
    if features == [] then []
    else Enabled(features[..|features| - 1])
         + if features[|features| - 1].enabled then [features[|features| - 1].name] else []
  }

  /** Link each name of `chain` to the one after it. */
  function Link(nodes: seq<Node>, chain: seq<Name>): seq<Node> {
    if |chain| <= 1 then nodes
    else SetNext(Link(nodes, chain[..|chain| - 1]), chain[|chain| - 2], chain[|chain| - 1])
  }

  /** What a rebuild is to make of the arc. */
  function Chain(a: Arc): seq<Name> {
    [a.start] + Enabled(a.features) + [a.end]
  }

  function Rebuilt(a: Arc): Arc {
    a.(nodes := Link(a.nodes, Chain(a)))
  }

  /** The link dump_pipeline finds: it keeps the last node of that name. */
  function NextOf(nodes: seq<Node>, name: Name): Option<Name> {
    if nodes == [] then None
    else if nodes[|nodes| - 1].name == name then nodes[|nodes| - 1].next
    else NextOf(nodes[..|nodes| - 1], name)
  }

  /** `path` is what a walk from its first name visits before it stops. */
  ghost predicate IsWalk(nodes: seq<Node>, path: seq<Name>) {
    path != [] && forall i :: 0 <= i < |path| ==> LinkAfter(nodes, path, i)
  }

  /** From position `i` the links lead to the next one, and nowhere from the last. */
  ghost predicate LinkAfter(nodes: seq<Node>, path: seq<Name>, i: nat)
    requires i < |path|
  {
    NextOf(nodes, path[i]) == if i < |path| - 1 then Some(path[i + 1]) else None
  }

  // ------------------------------------------------------- distinct names

  ghost predicate Distinct(names: seq<Name>) {
    forall i, j :: 0 <= i < j < |names| ==> names[i] != names[j]
  }

  ghost predicate DistinctNodes(nodes: seq<Node>) {
    forall i, j :: 0 <= i < j < |nodes| ==> nodes[i].name != nodes[j].name
  }

  ghost predicate DistinctFeatures(a: Arc) {
    && (forall i, j :: 0 <= i < j < |a.features| ==> a.features[i].name != a.features[j].name)
    && a.start != a.end
    && forall f <- a.features :: f.name != a.start && f.name != a.end
  }

  predicate HasNode(nodes: seq<Node>, name: Name) {
    FirstNode(nodes, name) < |nodes|
  }

  /** The end node is never linked onwards. */
  ghost predicate EndIsLast(a: Arc) {
    NextOf(a.nodes, a.end) == None
  }

  // ------------------------------------------------------------- linking

  lemma {:induction false} NextOfIsFirst(nodes: seq<Node>, name: Name)
    requires DistinctNodes(nodes)
    ensures NextOf(nodes, name) ==
              if HasNode(nodes, name) then nodes[FirstNode(nodes, name)].next else None
  {
    if nodes != [] {
      var front := nodes[..|nodes| - 1];
      NextOfIsFirst(front, name);
      var i := FirstNode(nodes, name);
      if nodes[|nodes| - 1].name == name {
        assert i == |nodes| - 1;
      } else if i < |nodes| {
        assert front[i].name == name;
        var j := FirstNode(front, name);
        assert j == i;
      }
    }
  }

  /** Names do not change, and only the link of `from` does, if it has a node. */
  lemma SetNextLinks(nodes: seq<Node>, from: Name, to: Name, name: Name)
    requires DistinctNodes(nodes)
    ensures DistinctNodes(SetNext(nodes, from, to))
    ensures HasNode(SetNext(nodes, from, to), name) == HasNode(nodes, name)
    ensures NextOf(SetNext(nodes, from, to), name) ==
              if name == from && HasNode(nodes, name) then Some(to) else NextOf(nodes, name)
  {
    var after := SetNext(nodes, from, to);
    assert |after| == |nodes| && forall i :: 0 <= i < |nodes| ==> after[i].name == nodes[i].name;
    NextOfIsFirst(nodes, name);
    NextOfIsFirst(after, name);
    var i, j := FirstNode(nodes, name), FirstNode(after, name);
    if i < |nodes| { assert after[i].name == name; }
    if j < |nodes| { assert nodes[j].name == name; }
    assert i == j;
  }

  /** The name that follows `name` in the chain, taking its last occurrence. */
  function Successor(chain: seq<Name>, name: Name): Option<Name> {
    if |chain| <= 1 then None
    else if chain[|chain| - 2] == name then Some(chain[|chain| - 1])
    else Successor(chain[..|chain| - 1], name)
  }

  /** After linking a chain, each name that has a node and a successor in it leads to
      that successor, and every other link is as it was. */
  lemma {:induction false} LinkLinks(nodes: seq<Node>, chain: seq<Name>, name: Name)
    requires DistinctNodes(nodes)
    ensures DistinctNodes(Link(nodes, chain))
    ensures HasNode(Link(nodes, chain), name) == HasNode(nodes, name)
    ensures NextOf(Link(nodes, chain), name) ==
              if Successor(chain, name).Some? && HasNode(nodes, name) then Successor(chain, name)
              else NextOf(nodes, name)
  {
    if |chain| > 1 {
      var front := chain[..|chain| - 1];
      LinkLinks(nodes, front, name);
      SetNextLinks(Link(nodes, front), chain[|chain| - 2], chain[|chain| - 1], name);
    }
  }

  lemma {:induction false} SuccessorInChain(chain: seq<Name>, i: nat)
    requires Distinct(chain) && i < |chain|
    ensures Successor(chain, chain[i]) == if i < |chain| - 1 then Some(chain[i + 1]) else None
    decreases |chain|
  {
    if |chain| > 1 && i != |chain| - 2 {
      var front := chain[..|chain| - 1];
      if i < |front| {
        SuccessorInChain(front, i);
      } else {
        NoSuccessor(front, chain[i]);
      }
    }
  }

  lemma {:induction false} NoSuccessor(chain: seq<Name>, name: Name)
    requires name !in chain
    ensures Successor(chain, name) == None
  {
    if |chain| > 1 { NoSuccessor(chain[..|chain| - 1], name); }
  }

  /** A walk is determined by where it begins: two of them agree at every position. */
  lemma {:induction false} WalkIsUnique(nodes: seq<Node>, p: seq<Name>, q: seq<Name>, i: nat)
    requires IsWalk(nodes, p) && IsWalk(nodes, q) && p[0] == q[0]
    requires i < |p|
    ensures i < |q| && p[i] == q[i]
  {
    if i > 0 {
      WalkIsUnique(nodes, p, q, i - 1);
      assert LinkAfter(nodes, p, i - 1) && LinkAfter(nodes, q, i - 1);
    }
  }

  // ------------------------------------------------- the chain of an arc

  lemma {:induction false} EnabledNames(features: seq<Feature>, name: Name)
    ensures name in Enabled(features) <==> exists f <- features :: f.enabled && f.name == name
  {
    if features != [] {
      var last := features[|features| - 1];
      EnabledNames(features[..|features| - 1], name);
      if f :| f in features && f.enabled && f.name == name {
        assert f == last || f in features[..|features| - 1];
      }
    }
  }

  lemma {:induction false} EnabledDistinct(features: seq<Feature>)
    requires forall i, j :: 0 <= i < j < |features| ==> features[i].name != features[j].name
    ensures Distinct(Enabled(features))
  {
    if features != [] {
      var front := features[..|features| - 1];
      EnabledDistinct(front);
      EnabledNames(front, features[|features| - 1].name);
    }
  }

  lemma ChainDistinct(a: Arc)
    requires DistinctFeatures(a)
    ensures Distinct(Chain(a))
  {
    EnabledDistinct(a.features);
    EnabledNames(a.features, a.start);
    EnabledNames(a.features, a.end);
  }

  lemma ChainLink(a: Arc, i: nat)
    requires DistinctNodes(a.nodes) && DistinctFeatures(a) && i < |Chain(a)|
    ensures NextOf(Rebuilt(a).nodes, Chain(a)[i]) ==
              if i < |Chain(a)| - 1 && HasNode(a.nodes, Chain(a)[i]) then Some(Chain(a)[i + 1])
              else NextOf(a.nodes, Chain(a)[i])
    ensures !HasNode(a.nodes, Chain(a)[i]) ==> NextOf(a.nodes, Chain(a)[i]) == None
  {
    var c := Chain(a);
    ChainDistinct(a);
    LinkLinks(a.nodes, c, c[i]);
    SuccessorInChain(c, i);
    NextOfIsFirst(a.nodes, c[i]);
  }

  predicate AllHaveNodes(a: Arc) {
    HasNode(a.nodes, a.start) && forall n <- Enabled(a.features) :: HasNode(a.nodes, n)
  }

  /** After a rebuild, walking from the start visits exactly the start, the enabled
      features in registration order and the end, whatever links were there before,
      if and only if the start and every enabled feature have a node. */
  lemma RebuildGivesWalkIff(a: Arc)
    requires DistinctNodes(a.nodes) && DistinctFeatures(a) && EndIsLast(a)
    ensures IsWalk(Rebuilt(a).nodes, Chain(a)) <==> AllHaveNodes(a)
  {
    var c, nodes := Chain(a), Rebuilt(a).nodes;
    if AllHaveNodes(a) {
      forall i | 0 <= i < |c| ensures LinkAfter(nodes, c, i) {
        ChainLink(a, i);
        if 0 < i < |c| - 1 { assert c[i] == Enabled(a.features)[i - 1]; }
      }
    } else if !HasNode(a.nodes, a.start) {
      assert c[0] == a.start;
      ChainLink(a, 0);
      assert !LinkAfter(nodes, c, 0);
    } else {
      var n :| n in Enabled(a.features) && !HasNode(a.nodes, n);
      var i :| 0 <= i < |Enabled(a.features)| && Enabled(a.features)[i] == n;
      ChainLink(a, i + 1);
      assert c[i + 1] == n && !LinkAfter(nodes, c, i + 1);
    }
  }

  /** The position of the first name of the chain without a node, or the last position. */
  function StopAt(a: Arc, from: nat): (k: nat)
    requires from < |Chain(a)|
    ensures from <= k < |Chain(a)|
    ensures forall i :: from <= i < k ==> HasNode(a.nodes, Chain(a)[i])
    ensures k < |Chain(a)| - 1 ==> !HasNode(a.nodes, Chain(a)[k])
    decreases |Chain(a)| - from
  {
    if from == |Chain(a)| - 1 || !HasNode(a.nodes, Chain(a)[from]) then from else StopAt(a, from + 1)
  }

  /** What a walk visits after a rebuild. */
  function Reached(a: Arc): seq<Name> {
    Chain(a)[..StopAt(a, 0) + 1]
  }

  /** With or without nodes, a rebuild leaves a finite walk from the start: the chain
      up to its first name that has no node. */
  lemma RebuildGivesWalk(a: Arc)
    requires DistinctNodes(a.nodes) && DistinctFeatures(a) && EndIsLast(a)
    ensures IsWalk(Rebuilt(a).nodes, Reached(a)) && Reached(a)[0] == a.start
    ensures Reached(a) == Chain(a) <==> AllHaveNodes(a)
  {
    var k := StopAt(a, 0);
    forall i | 0 <= i <= k ensures LinkAfter(Rebuilt(a).nodes, Reached(a), i) {
      ChainLink(a, i);
    }
    RebuildGivesWalkIff(a);
    if 0 < k < |Chain(a)| - 1 {
      assert Chain(a)[k] == Enabled(a.features)[k - 1];
    }
  }

  /** A rebuild right after a rebuild changes nothing. */
  lemma RebuildIsIdempotent(a: Arc)
    requires DistinctNodes(a.nodes)
    ensures Rebuilt(Rebuilt(a)) == Rebuilt(a)
  {
    var c, once := Chain(a), Rebuilt(a).nodes;
    LinkKeepsNames(a.nodes, c);
    LinkKeepsNames(once, c);
    forall i | 0 <= i < |once| ensures Link(once, c)[i] == once[i] {
      LinkTwice(a.nodes, c, i);
    }
  }

  lemma LinkTwice(nodes: seq<Node>, c: seq<Name>, i: nat)
    requires DistinctNodes(nodes) && i < |nodes| == |Link(nodes, c)| == |Link(Link(nodes, c), c)|
    requires Link(Link(nodes, c), c)[i].name == Link(nodes, c)[i].name == nodes[i].name
    ensures Link(Link(nodes, c), c)[i].next == Link(nodes, c)[i].next
  {
    var once, name := Link(nodes, c), nodes[i].name;
    LinkLinks(nodes, c, name);
    LinkLinks(once, c, name);
    LinkAt(once, i);
    LinkAt(Link(once, c), i);
  }

  lemma LinkAt(nodes: seq<Node>, i: nat)
    requires DistinctNodes(nodes) && i < |nodes|
    ensures NextOf(nodes, nodes[i].name) == nodes[i].next
  {
    NextOfIsFirst(nodes, nodes[i].name);
    assert FirstNode(nodes, nodes[i].name) == i;
  }

  lemma {:induction false} LinkKeepsNames(nodes: seq<Node>, chain: seq<Name>)
    ensures |Link(nodes, chain)| == |nodes|
    ensures forall i :: 0 <= i < |nodes| ==> Link(nodes, chain)[i].name == nodes[i].name
  {
    if |chain| > 1 { LinkKeepsNames(nodes, chain[..|chain| - 1]); }
  }

  // --------------------------------------------------------------- histories

  datatype Op = Enable(name: Name) | Disable(name: Name) | Rebuild

  function Apply(a: Arc, op: Op): Arc {
    match op
    case Enable(n) => a.(features := SetEnabled(a.features, n, true))
    case Disable(n) => a.(features := SetEnabled(a.features, n, false))
    case Rebuild => Rebuilt(a)
  }

  function Exec(a: Arc, ops: seq<Op>): Arc {
    if ops == [] then a else Apply(Exec(a, ops[..|ops| - 1]), ops[|ops| - 1])
  }

  ghost predicate Sound(a: Arc) {
    DistinctNodes(a.nodes) && DistinctFeatures(a) && EndIsLast(a)
  }

  /** Same names in the same places. */
  ghost predicate SameNames(a: Arc, b: Arc) {
    && a.start == b.start && a.end == b.end
    && |a.nodes| == |b.nodes| && (forall i :: 0 <= i < |a.nodes| ==> a.nodes[i].name == b.nodes[i].name)
    && |a.features| == |b.features|
    && (forall i :: 0 <= i < |a.features| ==> a.features[i].name == b.features[i].name)
  }

  lemma {:induction false} HistoryKeepsSound(a: Arc, ops: seq<Op>)
    requires Sound(a)
    ensures Sound(Exec(a, ops)) && SameNames(a, Exec(a, ops))
  {
    if ops != [] {
      var before := Exec(a, ops[..|ops| - 1]);
      HistoryKeepsSound(a, ops[..|ops| - 1]);
      ApplyKeepsSound(before, ops[|ops| - 1]);
    }
  }

  lemma ApplyKeepsSound(a: Arc, op: Op)
    requires Sound(a)
    ensures Sound(Apply(a, op)) && SameNames(a, Apply(a, op))
  {
    if op.Rebuild? {
      var c := Chain(a);
      LinkKeepsNames(a.nodes, c);
      ChainDistinct(a);
      LinkLinks(a.nodes, c, a.end);
      SuccessorInChain(c, |c| - 1);
    }
  }

  /** Enabling and disabling do not touch the links. */
  lemma {:induction false} NoRebuildKeepsNodes(a: Arc, ops: seq<Op>)
    requires Rebuild !in ops
    ensures Exec(a, ops).nodes == a.nodes
  {
    if ops != [] { NoRebuildKeepsNodes(a, ops[..|ops| - 1]); }
  }

  /** None of the operations from position `k` on disables `name`. */
  ghost predicate NotDisabledFrom(ops: seq<Op>, k: nat, name: Name) {
    forall j :: k <= j < |ops| ==> ops[j] != Disable(name)
  }

  /** The last operation that enables or disables the feature enables it, or there is
      none and it was enabled to begin with. */
  ghost predicate TurnedOn(f: Feature, ops: seq<Op>) {
    || (f.enabled && NotDisabledFrom(ops, 0, f.name))
    || exists k :: 0 <= k < |ops| && ops[k] == Enable(f.name) && NotDisabledFrom(ops, k, f.name)
  }

  /** What enabling and disabling do, from the list of operations alone. */
  lemma {:induction false} EnabledIffTurnedOn(a: Arc, ops: seq<Op>, i: nat)
    requires i < |a.features|
    ensures |Exec(a, ops).features| == |a.features|
    ensures Exec(a, ops).features[i].name == a.features[i].name
    ensures Exec(a, ops).features[i].enabled <==> TurnedOn(a.features[i], ops)
  {
    if ops != [] {
      var before, f := ops[..|ops| - 1], a.features[i];
      EnabledIffTurnedOn(a, before, i);
      TurnedOnStep(f, before, ops[|ops| - 1]);
      assert ops == before + [ops[|ops| - 1]];
    }
  }

  lemma TurnedOnStep(f: Feature, ops: seq<Op>, op: Op)
    ensures TurnedOn(f, ops + [op]) <==> op == Enable(f.name) || (TurnedOn(f, ops) && op != Disable(f.name))
  {
    var all := ops + [op];
    assert all[|ops|] == op && forall j :: 0 <= j < |ops| ==> all[j] == ops[j];
    if op == Enable(f.name) {
      assert NotDisabledFrom(all, |ops|, f.name);
    } else if TurnedOn(f, ops) && op != Disable(f.name) {
      if k :| 0 <= k < |ops| && ops[k] == Enable(f.name) && NotDisabledFrom(ops, k, f.name) {
        assert all[k] == Enable(f.name) && NotDisabledFrom(all, k, f.name);
      }
    } else if k :| 0 <= k < |all| && all[k] == Enable(f.name) && NotDisabledFrom(all, k, f.name) {
      assert ops[k] == Enable(f.name) && NotDisabledFrom(ops, k, f.name);
    }
  }

  /** The start, the features turned on by `ops` in registration order, and the end. */
  ghost function ChainAfter(a: Arc, ops: seq<Op>): seq<Name> {
    [a.start] + NamesOn(a.features, ops) + [a.end]
  }

  ghost function NamesOn(features: seq<Feature>, ops: seq<Op>): seq<Name> {
    if features == [] then []
    else NamesOn(features[..|features| - 1], ops)
         + if TurnedOn(features[|features| - 1], ops) then [features[|features| - 1].name] else []
  }

  lemma {:induction false} EnabledIsNamesOn(features: seq<Feature>, later: seq<Feature>, ops: seq<Op>)
    requires |later| == |features|
    requires forall i :: 0 <= i < |features| ==> later[i].name == features[i].name
    requires forall i :: 0 <= i < |features| ==> (later[i].enabled <==> TurnedOn(features[i], ops))
    ensures Enabled(later) == NamesOn(features, ops)
  {
    if features != [] {
      EnabledIsNamesOn(features[..|features| - 1], later[..|features| - 1], ops);
    }
  }

  lemma ChainIsChainAfter(a: Arc, ops: seq<Op>)
    requires Sound(a)
    ensures Chain(Exec(a, ops)) == ChainAfter(a, ops)
    ensures forall name :: HasNode(Exec(a, ops).nodes, name) <==> HasNode(a.nodes, name)
  {
    HistoryKeepsSound(a, ops);
    var b := Exec(a, ops);
    forall i | 0 <= i < |a.features|
      ensures b.features[i].name == a.features[i].name && (b.features[i].enabled <==> TurnedOn(a.features[i], ops))
    {
      EnabledIffTurnedOn(a, ops, i);
    }
    EnabledIsNamesOn(a.features, b.features, ops);
    forall name ensures HasNode(b.nodes, name) <==> HasNode(a.nodes, name) {
      var i, j := FirstNode(a.nodes, name), FirstNode(b.nodes, name);
      if i < |a.nodes| { assert b.nodes[i].name == name; }
      if j < |b.nodes| { assert a.nodes[j].name == name; }
    }
  }

  /** The walk reaches position `k` of the chain and ends there: at its end, or at the
      first name without a node. */
  ghost predicate StopsAt(nodes: seq<Node>, chain: seq<Name>, k: nat) {
    && k < |chain|
    && (forall i :: 0 <= i < k ==> HasNode(nodes, chain[i]))
    && (k < |chain| - 1 ==> !HasNode(nodes, chain[k]))
  }

  /** The links since the last rebuild are those it made. */
  lemma WalkAtLastRebuild(a: Arc, before: seq<Op>, since: seq<Op>)
    requires Sound(a) && Rebuild !in since
    ensures var atRebuild := Exec(a, before);
            var now := Exec(Exec(a, before + [Rebuild]), since);
            && (IsWalk(now.nodes, Chain(atRebuild)) <==> AllHaveNodes(atRebuild))
            && IsWalk(now.nodes, Reached(atRebuild)) && Reached(atRebuild)[0] == now.start
  {
    assert (before + [Rebuild])[..|before|] == before;
    HistoryKeepsSound(a, before);
    NoRebuildKeepsNodes(Exec(a, before + [Rebuild]), since);
    RebuildGivesWalkIff(Exec(a, before));
    RebuildGivesWalk(Exec(a, before));
    HistoryKeepsSound(a, before + [Rebuild]);
    HistoryKeepsSound(Exec(a, before + [Rebuild]), since);
  }

  lemma ReachedByTurnedOn(a: Arc, ops: seq<Op>)
    requires Sound(a)
    ensures var b, chain := Exec(a, ops), ChainAfter(a, ops);
            && Chain(b) == chain
            && StopsAt(a.nodes, chain, StopAt(b, 0)) && Reached(b) == chain[..StopAt(b, 0) + 1]
            && (AllHaveNodes(b) <==> StopsAt(a.nodes, chain, |chain| - 1))
  {
    ChainIsChainAfter(a, ops);
    var b := Exec(a, ops);
    AllHaveNodesIff(b);
    assert Chain(b) == ChainAfter(a, ops);
  }

  lemma AllHaveNodesIff(a: Arc)
    ensures AllHaveNodes(a) <==> forall i :: 0 <= i < |Chain(a)| - 1 ==> HasNode(a.nodes, Chain(a)[i])
  {
    assert Chain(a)[0] == a.start;
    if forall i :: 0 <= i < |Chain(a)| - 1 ==> HasNode(a.nodes, Chain(a)[i]) {
      forall n | n in Enabled(a.features) ensures HasNode(a.nodes, n) {
        var i :| 0 <= i < |Enabled(a.features)| && Enabled(a.features)[i] == n;
        assert Chain(a)[i + 1] == n;
      }
    }
    forall i | 0 < i < |Chain(a)| - 1 ensures Chain(a)[i] in Enabled(a.features) {
      assert Chain(a)[i] == Enabled(a.features)[i - 1];
    }
  }

  /** After any history whose last rebuild follows `before`, the walk from the start
      visits the features that `before` turned on, in registration order and up to the
      first without a node, whatever links there were earlier and whatever was enabled
      or disabled since. So dump_pipeline ends. */
  lemma WalkShowsLastRebuild(a: Arc, before: seq<Op>, since: seq<Op>)
    requires Sound(a) && Rebuild !in since
    ensures var now, chain := Exec(Exec(a, before + [Rebuild]), since), ChainAfter(a, before);
            && now.start == chain[0]
            && (exists k :: StopsAt(a.nodes, chain, k) && IsWalk(now.nodes, chain[..k + 1]))
            && (IsWalk(now.nodes, chain) <==> StopsAt(a.nodes, chain, |chain| - 1))
  {
    WalkAtLastRebuild(a, before, since);
    ReachedByTurnedOn(a, before);
  }

  // ------------------------------------------------------------- the code

  lemma EnabledStep(features: seq<Feature>, i: nat)
    requires i < |features|
    ensures Enabled(features[..i + 1]) ==
            Enabled(features[..i]) + if features[i].enabled then [features[i].name] else []
  {
    assert features[..i + 1][..i] == features[..i];
  }

  lemma LinkStep(nodes: seq<Node>, chain: seq<Name>, name: Name)
    requires chain != []
    ensures Link(nodes, chain + [name]) == SetNext(Link(nodes, chain), chain[|chain| - 1], name)
  {
  }

  class Graph {
    const nodes: array<Node>
    var nodeCount: nat
    var start: Name
    var end: Name
    const features: array<Feature>
    var count: nat

    constructor (start: Name, end: Name)
      ensures Valid() && fresh(nodes) && fresh(features)
      ensures Value() == Arc([], start, end, [])
    {
      nodes := new Node[MAX_NODES](_ => Node("", None));
      features := new Feature[MAX_FEATURES](_ => Feature("", false));
      nodeCount, this.start, this.end, count := 0, start, end, 0;
    }

    ghost predicate Valid()
      reads this
    {
      nodes.Length == MAX_NODES && nodeCount <= MAX_NODES && features.Length == MAX_FEATURES && count <= MAX_FEATURES
    }

    ghost function Value(): Arc
      requires Valid()
      reads this, nodes, features
    {
      Arc(nodes[..nodeCount], start, end, features[..count])
    }

    /** The source does not test for a full table. */
    method AddNode(name: Name)
      requires Valid() && nodeCount < MAX_NODES
      modifies this`nodeCount, nodes
      ensures Valid()
      ensures Value() == old(Value()).(nodes := old(Value()).nodes + [Node(name, None)])
    {
      nodes[nodeCount] := Node(name, None);
      nodeCount := nodeCount + 1;
    }

    method FeatureRegister(name: Name)
      requires Valid() && count < MAX_FEATURES
      modifies this`count, features
      ensures Valid()
      ensures Value() == old(Value()).(features := old(Value()).features + [Feature(name, false)])
    {
      features[count] := Feature(name, false);
      count := count + 1;
    }

    method SetNextLink(from: Name, to: Name)
      requires Valid()
      modifies nodes
      ensures Valid() && Value() == old(Value()).(nodes := SetNext(old(Value()).nodes, from, to))
    {
      ghost var before := nodes[..nodeCount];
      var i := 0;
      while i < nodeCount
        invariant 0 <= i <= nodeCount
        invariant forall j :: 0 <= j < i ==> nodes[j].name != from
      {
        if nodes[i].name == from {
          assert FirstNode(before, from) == i;
          nodes[i] := nodes[i].(next := Some(to));
          return;
        }
        i := i + 1;
      }
    }

    method FeatureSet(name: Name, on: bool)
      requires Valid()
      modifies features
      ensures Valid() && Value() == Apply(old(Value()), if on then Enable(name) else Disable(name))
    {
      var i := 0;
      while i < count
        invariant 0 <= i <= count
        invariant forall j :: 0 <= j < i ==>
          features[j] == if old(features[j]).name == name then old(features[j]).(enabled := on) else old(features[j])
        invariant forall j :: i <= j < features.Length ==> features[j] == old(features[j])
      {
        if features[i].name == name {
          features[i] := features[i].(enabled := on);
        }
        i := i + 1;
      }
      assert features[..count] == SetEnabled(old(Value()).features, name, on);
    }

    method ArcRebuild()
      requires Valid()
      modifies nodes
      ensures Valid() && Value() == Rebuilt(old(Value()))
    {
      ghost var a := Value();
      ghost var chain := [start];
      var prev := start;
      var i := 0;
      while i < count
        invariant 0 <= i <= count
        invariant Value() == a.(nodes := Link(a.nodes, chain))
        invariant chain == [a.start] + Enabled(a.features[..i]) && prev == chain[|chain| - 1]
      {
        EnabledStep(a.features, i);
        assert features[i] == a.features[i];
        if features[i].enabled {
          LinkStep(a.nodes, chain, features[i].name);
          SetNextLink(prev, features[i].name);
          prev := features[i].name;
          chain := chain + [features[i].name];
        }
        i := i + 1;
      }
      assert a.features[..i] == a.features;
      LinkStep(a.nodes, chain, end);
      SetNextLink(prev, end);
    }

    /** The names printed. It ends where a finite walk exists, which `path` names. */
    method DumpPipeline(ghost path: seq<Name>) returns (visited: seq<Name>)
      requires Valid() && IsWalk(Value().nodes, path) && path[0] == start
      ensures visited == path
    {
      var cur := start;
      visited := [];
      while true
        invariant |visited| < |path| && visited == path[..|visited|] && cur == path[|visited|]
        decreases |path| - |visited|
      {
        visited := visited + [cur];
        var next: Option<Name> := None;
        var i := 0;
        while i < nodeCount
          invariant 0 <= i <= nodeCount
          invariant next == NextOf(nodes[..i], cur)
        {
          assert nodes[..i + 1][..i] == nodes[..i];
          if nodes[i].name == cur {
            next := nodes[i].next;
          }
          i := i + 1;
        }
        assert next == NextOf(Value().nodes, cur) && LinkAfter(Value().nodes, path, |visited| - 1);
        if next.None? {
          break;
        }
        cur := next.value;
      }
    }
  }
}
