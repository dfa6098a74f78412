/** Counting: a one-to-one map is no larger than what it maps into. */
module Finite {
  lemma {:induction false} InjectiveSize<A, B>(m: map<A, B>, target: set<B>)
    requires forall a <- m :: m[a] in target
    requires forall a <- m, b <- m :: a != b ==> m[a] != m[b]
    ensures |m| <= |target|
    decreases |m|
  {
    if m != map[] {
      var a :| a in m;
      assert |m - {a}| == |m| - 1 by {
        assert (m - {a}).Keys == m.Keys - {a};
      }
      InjectiveSize(m - {a}, target - {m[a]});
    }
  }

  function Range(lo: int, n: nat): (r: set<int>)
    ensures |r| == n
    ensures forall i :: i in r <==> lo <= i < lo + n
  {
    if n == 0 then {} else Range(lo, n - 1) + {lo + n - 1}
  }
}
