/** Sums over the values of a map, and their conservation under grouping. */
module Sums {

  ghost function Total<K(!new)>(m: map<K, nat>): nat
    decreases |m.Keys|
  {
    if m.Keys == {} then 0
    else
      var k :| k in m;
      assert (m - {k}).Keys == m.Keys - {k};
      m[k] + Total(m - {k})
  }

  /** Any key may be taken out first. */
  lemma {:induction false} TotalRemove<K(!new)>(m: map<K, nat>, k: K)
    requires k in m
    ensures Total(m) == m[k] + Total(m - {k})
    decreases |m.Keys|
  {
    var j :| j in m && Total(m) == m[j] + Total(m - {j});
    if j != k {
      assert (m - {j}).Keys == m.Keys - {j};
      assert (m - {k}).Keys == m.Keys - {k};
      TotalRemove(m - {j}, k);
      TotalRemove(m - {k}, j);
      assert m - {j} - {k} == m - {k} - {j};
    }
  }

  function Get<K>(m: map<K, nat>, k: K): nat {
    if k in m then m[k] else 0
  }

  lemma TotalSet<K(!new)>(m: map<K, nat>, k: K, v: nat)
    ensures Total(m[k := v]) + Get(m, k) == Total(m) + v
  {
    var n := m[k := v];
    TotalRemove(n, k);
    if k in m {
      TotalRemove(m, k);
      assert n - {k} == m - {k};
    } else {
      assert n - {k} == m;
    }
  }

  function Filter<K(!new)>(m: map<K, nat>, p: K -> bool): map<K, nat> {
    map k | k in m && p(k) :: m[k]
  }

  function Not<K>(p: K -> bool): K -> bool {
    k => !p(k)
  }

  lemma {:induction false} TotalSplit<K(!new)>(m: map<K, nat>, p: K -> bool)
    ensures Total(m) == Total(Filter(m, p)) + Total(Filter(m, Not(p)))
    decreases |m.Keys|
  {
    var q := Not(p);
    if m.Keys == {} {
      assert Filter(m, p) == map[] && Filter(m, q) == map[];
    } else {
      var k :| k in m;
      var rest := m - {k};
      assert rest.Keys == m.Keys - {k};
      TotalRemove(m, k);
      TotalSplit(rest, p);
      FilterRemove(m, p, k);
      FilterRemove(m, q, k);
    }
  }

  lemma FilterTwice<K(!new)>(m: map<K, nat>, p: K -> bool, q: K -> bool, r: K -> bool)
    requires forall k :: p(k) && q(k) <==> r(k)
    ensures Filter(Filter(m, p), q) == Filter(m, r)
  {
  }

  lemma FilterRemove<K(!new)>(m: map<K, nat>, p: K -> bool, k: K)
    requires k in m
    ensures Total(Filter(m, p)) == Total(Filter(m - {k}, p)) + (if p(k) then m[k] else 0)
  {
    if p(k) {
      TotalRemove(Filter(m, p), k);
      assert Filter(m, p) - {k} == Filter(m - {k}, p);
    } else {
      assert Filter(m, p) == Filter(m - {k}, p);
    }
  }

  // ----- GROUP BY with SUM -----

  function GroupKeys<K(!new), G>(m: map<K, nat>, g: K -> G): set<G> {
    set k | k in m :: g(k)
  }

  function InGroup<K, G(==)>(g: K -> G, x: G): K -> bool {
    k => g(k) == x
  }

  ghost function GroupBy<K(!new), G(!new)>(m: map<K, nat>, g: K -> G): map<G, nat> {
    map x | x in GroupKeys(m, g) :: Total(Filter(m, InGroup(g, x)))
  }

  /** Whatever the rows are grouped by, the group sums add up to the sum of the rows. */
  lemma {:induction false} GroupingConserves<K(!new), G(!new)>(m: map<K, nat>, g: K -> G)
    ensures Total(GroupBy(m, g)) == Total(m)
    decreases |m.Keys|
  {
    if m.Keys == {} {
      assert GroupBy(m, g) == map[];
    } else {
      var k :| k in m;
      var rest := Filter(m, Not(InGroup(g, g(k))));
      SplitOffGroup(m, g, k);
      assert k !in rest && rest.Keys <= m.Keys - {k};
      assert |rest.Keys| < |m.Keys| by {
        FewerKeys(rest.Keys, m.Keys, k);
      }
      GroupingConserves(rest, g);
      TotalRemove(GroupBy(m, g), g(k));
    }
  }

  lemma FewerKeys<K>(a: set<K>, b: set<K>, k: K)
    requires a <= b - {k} && k in b
    ensures |a| < |b|
  {
    assert b == a + (b - a) && k in b - a;
  }

  lemma SplitOffGroup<K(!new), G(!new)>(m: map<K, nat>, g: K -> G, k: K)
    requires k in m
    ensures var x, rest := g(k), Filter(m, Not(InGroup(g, g(k))));
            && Total(m) == Total(Filter(m, InGroup(g, x))) + Total(rest)
            && x in GroupBy(m, g) && GroupBy(m, g)[x] == Total(Filter(m, InGroup(g, x)))
            && GroupBy(m, g) - {x} == GroupBy(rest, g)
  {
    var x, rest := g(k), Filter(m, Not(InGroup(g, g(k))));
    TotalSplit(m, InGroup(g, x));
    GroupKeysSplit(m, g, k);
    forall y | y != x ensures Filter(rest, InGroup(g, y)) == Filter(m, InGroup(g, y)) {
      FilterTwice(m, Not(InGroup(g, x)), InGroup(g, y), InGroup(g, y));
    }
  }

  lemma GroupKeysSplit<K(!new), G(!new)>(m: map<K, nat>, g: K -> G, k: K)
    requires k in m
    ensures var x, rest := g(k), Filter(m, Not(InGroup(g, g(k))));
            GroupKeys(rest, g) == GroupKeys(m, g) - {x} && x in GroupKeys(m, g)
  {
    var x, rest := g(k), Filter(m, Not(InGroup(g, g(k))));
    forall j | j in m && g(j) != x ensures j in rest {
    }
  }

  // ----- the same rows under other keys -----

  /** Renaming keys one to one keeps the sum. */
  lemma {:induction false} TotalRenamed<K(!new), L(!new)>(m: map<K, nat>, n: map<L, nat>, rename: K -> L)
    requires forall j, k | j in m && k in m && rename(j) == rename(k) :: j == k
    requires forall k | k in m :: rename(k) in n && n[rename(k)] == m[k]
    requires forall l | l in n :: exists k :: k in m && rename(k) == l
    ensures Total(n) == Total(m)
    decreases |m.Keys|
  {
    if m.Keys == {} {
      assert n == map[];
    } else {
      var k :| k in m;
      assert (m - {k}).Keys == m.Keys - {k};
      TotalRemove(m, k);
      TotalRemove(n, rename(k));
      TotalRenamed(m - {k}, n - {rename(k)}, rename);
    }
  }
}
