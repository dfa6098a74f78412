/** The round-robin balancer (Load_Balancer/load_balancer.c): a cursor over the
    backends, one hit counter for each, and the totals of the main loop. */
module LoadBalancer {
  import opened Wire
  import opened Checksum

  datatype Backend = Backend(ip: U32, port: U16)

  /** The header fields that are read or rewritten. */
  datatype Frame = Frame(etherType: U16, proto: U8, dstIp: U32, dstPort: U16)

  predicate Supported(m: Frame) {
    m.etherType == ETHER_IPV4 && m.proto in {PROTO_TCP, PROTO_UDP}
  }

  // ---------------------------------------------------------- specification

  /** How many of `k` turns fall to backend `j` of `n`. */
  function Share(k: nat, n: nat, j: nat): nat
    requires j < n
  {
    (k + n - 1 - j) / n
  }

  function CountSupported(ms: seq<Frame>): (c: nat)
    ensures c <= |ms|
  {
    if ms == [] then 0 else CountSupported(ms[..|ms| - 1]) + if Supported(ms[|ms| - 1]) then 1 else 0
  }

  /** Frame `i` of a burst met by a cursor that has made `k` turns. */
  function Balanced(backends: seq<Backend>, k: nat, ms: seq<Frame>, i: nat): Frame
    requires i < |ms| && |backends| > 0
  {
    if Supported(ms[i]) then
      var b := backends[(k + CountSupported(ms[..i])) % |backends|];
      ms[i].(dstIp := b.ip, dstPort := b.port)
    else ms[i]
  }

  function Sum(s: seq<nat>): nat {
    if s == [] then 0 else Sum(s[..|s| - 1]) + s[|s| - 1]
  }

  // ------------------------------------------------------------- arithmetic

  /** With `k` written as q rounds and r more turns, the first r backends are one ahead. */
  lemma ShareByRounds(k: nat, n: nat, j: nat, q: nat, r: nat)
    requires j < n && r < n && k == q * n + r
    ensures Share(k, n, j) == q + if j < r then 1 else 0
  {
    if j < r {
      Distribute(q + 1, 1, n);
      QuotientIs(k + n - 1 - j, n, q + 1, r - 1 - j);
    } else {
      QuotientIs(k + n - 1 - j, n, q, r + n - 1 - j);
    }
  }

  lemma DivMod(k: nat, n: nat) returns (q: nat, r: nat)
    requires n > 0
    ensures q == k / n && r == k % n && r < n && k == q * n + r
  {
    q, r := k / n, k % n;
    assert k == n * q + r;
  }

  lemma QuotientIs(a: nat, n: nat, q: nat, r: nat)
    requires r < n && a == q * n + r
    ensures a / n == q && a % n == r
  {
    var q', r' := DivMod(a, n);
    Distribute(q, q', n);
    NotBetweenMultiples(q - q', n);
  }

  lemma Distribute(a: int, b: int, n: int)
    ensures (a - b) * n == a * n - b * n
  {
  }

  lemma NotBetweenMultiples(d: int, n: int)
    requires n > 0 && -n < d * n < n
    ensures d == 0
  {
  }

  /** One more turn goes to the backend under the cursor and to no other. */
  lemma ShareStep(k: nat, n: nat, j: nat)
    requires j < n
    ensures Share(k + 1, n, j) == Share(k, n, j) + if j == k % n then 1 else 0
    ensures (k + 1) % n == (k % n + 1) % n
  {
    var q, r := DivMod(k, n);
    ShareByRounds(k, n, j, q, r);
    if r + 1 < n {
      ShareByRounds(k + 1, n, j, q, r + 1);
      QuotientIs(k + 1, n, q, r + 1);
      QuotientIs(r + 1, n, 0, r + 1);
    } else {
      Distribute(q + 1, 1, n);
      ShareByRounds(k + 1, n, j, q + 1, 0);
      QuotientIs(k + 1, n, q + 1, 0);
      QuotientIs(n, n, 1, 0);
    }
  }

  lemma {:induction false} SumUpdate(s: seq<nat>, i: nat, v: nat)
    requires i < |s|
    ensures Sum(s[i := v]) == Sum(s) - s[i] + v
  {
    var t := s[i := v];
    if i == |s| - 1 {
      assert t[..i] == s[..i];
    } else {
      SumUpdate(s[..|s| - 1], i, v);
      assert t[..|s| - 1] == s[..|s| - 1][i := v];
    }
  }

  function Shares(k: nat, n: nat): seq<nat> {
    seq(n, j requires 0 <= j < n => Share(k, n, j))
  }

  /** After any number of turns the shares add up to it, and no two differ by more
      than one. */
  lemma {:induction false} SharesAreFair(k: nat, n: nat, i: nat, j: nat)
    requires i < n && j < n
    ensures Sum(Shares(k, n)) == k
    ensures Share(k, n, i) <= Share(k, n, j) + 1
  {
    var q, r := DivMod(k, n);
    ShareByRounds(k, n, i, q, r);
    ShareByRounds(k, n, j, q, r);
    if k == 0 {
      NoTurns(n);
    } else {
      SharesAreFair(k - 1, n, i, j);
      var before, at := Shares(k - 1, n), (k - 1) % n;
      forall l | 0 <= l < n ensures Shares(k, n)[l] == before[at := before[at] + 1][l] {
        ShareStep(k - 1, n, l);
      }
      assert Shares(k, n) == before[at := before[at] + 1];
      SumUpdate(before, at, before[at] + 1);
    }
  }

  lemma NoTurns(n: nat)
    ensures Sum(Shares(0, n)) == 0
  {
    forall j | 0 <= j < n ensures Shares(0, n)[j] == 0 {
      ShareByRounds(0, n, j, 0, 0);
    }
    ZeroSum(Shares(0, n));
  }

  lemma {:induction false} ZeroSum(s: seq<nat>)
    requires forall j :: 0 <= j < |s| ==> s[j] == 0
    ensures Sum(s) == 0
  {
    if s != [] { ZeroSum(s[..|s| - 1]); }
  }

  /** In a burst of supported frames the backends take turns, `n` frames apart the same
      one; what leaves is addressed to its IP address and port, all else as it came. */
  lemma {:induction false} BackendsTakeTurns(backends: seq<Backend>, k: nat, ms: seq<Frame>, i: nat)
    requires |backends| > 0 && i < |ms| && forall j :: 0 <= j < |ms| ==> Supported(ms[j])
    ensures CountSupported(ms[..i]) == i
    ensures var b := backends[(k + i) % |backends|];
            Balanced(backends, k, ms, i) == Frame(ms[i].etherType, ms[i].proto, b.ip, b.port)
  {
    if i > 0 {
      BackendsTakeTurns(backends, k, ms, i - 1);
      assert ms[..i][..i - 1] == ms[..i - 1];
    }
  }

  // -------------------------------------------------------- frames as bytes

  /** What the balancer sees of a frame it supports. */
  function View(f: seq<U8>): (m: Frame)
    requires Translatable(f)
    ensures Supported(m)
  {
    Frame(WordAt(f, 12), Proto(f, IP), AddressAt(f, IP + 16), WordAt(f, IP + 22))
  }

  function Redirected(f: seq<U8>, b: Backend): (r: seq<U8>)
    requires Translatable(f)
    ensures |r| == |f|
  {
    WithHeaderCksum(WithL4Cksum(WithEndpoint(f, false, b.ip, b.port), IP), IP)
  }

  /** The stores of rewrite_l4_packet, in its order. */
  method StoreBackend(a: array<U8>, b: Backend)
    requires Translatable(a[..])
    modifies a
    ensures a[..] == Redirected(old(a[..]), b)
  {
    StoreWord(a, IP + 16, b.ip / 0x1_0000);
    StoreWord(a, IP + 18, b.ip % 0x1_0000);
    StoreWord(a, IP + 22, b.port);
    StoreL4Cksum(a, IP);
    StoreHeaderCksum(a, IP);
  }

  /** On what the balancer sees this is the new destination and nothing else. */
  lemma RedirectSetsDestination(f: seq<U8>, b: Backend)
    requires Translatable(f)
    ensures Translatable(Redirected(f, b))
    ensures View(Redirected(f, b)) == View(f).(dstIp := b.ip, dstPort := b.port)
  {
  }

  /** Without IPv4 options both checksums of what is sent verify. */
  lemma RedirectedVerifies(f: seq<U8>, b: Backend)
    requires Translatable(f) && HoldsL4(f, IP)
    ensures Covered(Redirected(f, b), IP)
    ensures Verifies(WordSum(Redirected(f, b)[IP..IP + 20])) && Verifies(L4Sum(Redirected(f, b), IP))
  {
    DestinationKeepsLayout(f, b);
    L4CksumVerifies(WithEndpoint(f, false, b.ip, b.port), IP);
    HeaderCksumVerifies(WithL4Cksum(WithEndpoint(f, false, b.ip, b.port), IP), IP);
  }

  lemma DestinationKeepsLayout(f: seq<U8>, b: Backend)
    requires Translatable(f) && HoldsL4(f, IP)
    ensures HoldsL4(WithEndpoint(f, false, b.ip, b.port), IP)
    ensures HoldsL4(WithL4Cksum(WithEndpoint(f, false, b.ip, b.port), IP), IP)
  {
  }

  // ------------------------------------------------------------- the code

  class Balancer {
    const backends: seq<Backend>
    var nextBackend: nat
    const hits: array<nat>
    var totalRx: nat
    var totalTx: nat
    var totalDrop: nat
    /** Packets rewritten so far. */
    ghost var turns: nat

    ghost predicate Valid()
      reads this, hits
    {
      && |backends| > 0
      && nextBackend == turns % |backends|
      && hits[..] == Shares(turns, |backends|)
      && totalRx == totalTx + totalDrop
    }

    constructor (backends: seq<Backend>)
      requires |backends| > 0
      ensures Valid() && fresh(hits) && turns == 0 && this.backends == backends
    {
      this.backends := backends;
      hits := new nat[|backends|](_ => 0);
      nextBackend, totalRx, totalTx, totalDrop, turns := 0, 0, 0, 0, 0;
      new;
      forall j | 0 <= j < |backends| ensures Share(0, |backends|, j) == 0 {
        ShareByRounds(0, |backends|, j, 0, 0);
      }
    }

    /** The index of the backend chosen, or -1 for a frame left alone. */
    method RewriteL4(pkts: array<Frame>, i: nat) returns (selected: int)
      requires Valid() && i < pkts.Length
      modifies this`nextBackend, this`turns, hits, pkts
      ensures Valid()
      ensures turns == old(turns) + if Supported(old(pkts[i])) then 1 else 0
      ensures selected == if Supported(old(pkts[i])) then old(turns) % |backends| else -1
      ensures selected >= 0 <==> old(pkts[i]).etherType == 0x0800 && old(pkts[i]).proto in {6, 17}
      ensures pkts[..] == old(pkts[..])[i := if selected < 0 then old(pkts[i])
                                             else old(pkts[i]).(dstIp := backends[selected].ip,
                                                                dstPort := backends[selected].port)]
    {
      var m := pkts[i];
      if m.etherType != ETHER_IPV4 || (m.proto != PROTO_TCP && m.proto != PROTO_UDP) {
        return -1;
      }
      selected := nextBackend;
      nextBackend := (nextBackend + 1) % |backends|;
      pkts[i] := m.(dstIp := backends[selected].ip, dstPort := backends[selected].port);
      hits[selected] := hits[selected] + 1;
      ghost var n := |backends|;
      forall j | 0 <= j < n ensures hits[j] == Share(turns + 1, n, j) {
        ShareStep(turns, n, j);
      }
      ShareStep(turns, n, 0);
      turns := turns + 1;
    }

    /** One burst of the main loop; the port accepts the first `nbTx` of the packets and
        the others are freed. */
    method Burst(pkts: array<Frame>, nbTx: nat) returns (freed: seq<Frame>)
      requires Valid() && nbTx <= pkts.Length
      modifies this, hits, pkts
      ensures Valid()
      ensures turns == old(turns) + CountSupported(old(pkts[..]))
      ensures forall i :: 0 <= i < pkts.Length ==>
                pkts[i] == Balanced(backends, old(turns), old(pkts[..]), i)
      ensures freed == pkts[nbTx..]
      ensures totalRx == old(totalRx) + pkts.Length && totalTx == old(totalTx) + nbTx
      ensures totalDrop == old(totalDrop) + |freed|
    {
      ghost var ms := pkts[..];
      var i := 0;
      while i < pkts.Length
        invariant 0 <= i <= pkts.Length
        invariant Valid() && turns == old(turns) + CountSupported(ms[..i])
        invariant totalRx == old(totalRx) && totalTx == old(totalTx) && totalDrop == old(totalDrop)
        invariant forall j :: 0 <= j < i ==> pkts[j] == Balanced(backends, old(turns), ms, j)
        invariant forall j :: i <= j < pkts.Length ==> pkts[j] == ms[j]
      {
        assert ms[..i + 1][..i] == ms[..i];
        ghost var before := pkts[..];
        var selected := RewriteL4(pkts, i);
        assert forall j :: 0 <= j < pkts.Length && j != i ==> pkts[j] == before[j];
        i := i + 1;
      }
      assert ms[..i] == ms;
      totalRx := totalRx + pkts.Length;
      totalTx := totalTx + nbTx;
      totalDrop := totalDrop + (pkts.Length - nbTx);
      freed := [];
      var k := nbTx;
      while k < pkts.Length
        invariant nbTx <= k <= pkts.Length && freed == pkts[nbTx..k]
      {
        freed := freed + [pkts[k]];
        k := k + 1;
      }
    }
  }
}
