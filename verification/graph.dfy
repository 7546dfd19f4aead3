/** Reachability in a finite dependency graph given as a map from a node to
    its successors; nodes missing from the map have none. */
module Graph {

  type Graph<T> = map<T, set<T>>

  /** Successors of every node of `r`. */
  function Step<T>(g: Graph<T>, r: set<T>): set<T>
  {
    set v, w | v in r && v in g && w in g[v] :: w
  }

  /** Every node that is some node's successor. */
  function Targets<T>(g: Graph<T>): set<T>
  {
    set v, w | v in g && w in g[v] :: w
  }

  /** A path of at least one edge. */
  ghost predicate IsPath<T>(g: Graph<T>, p: seq<T>)
  {
    |p| >= 2 && forall i :: 0 <= i < |p| - 1 ==> p[i] in g && p[i + 1] in g[p[i]]
  }

  /** `x` can be reached from `s` by following one edge or more. */
  ghost predicate Reachable<T(!new)>(g: Graph<T>, s: T, x: T)
  {
    exists p :: IsPath(g, p) && p[0] == s && p[|p| - 1] == x
  }

  lemma PathExtend<T(!new)>(g: Graph<T>, s: T, v: T, w: T)
    requires Reachable(g, s, v) && v in g && w in g[v]
    ensures Reachable(g, s, w)
  {
    var p :| IsPath(g, p) && p[0] == s && p[|p| - 1] == v;
    var q := p + [w];
    assert IsPath(g, q);
  }

  /** The least set holding `r` that is closed under `Step`, computed by
      iteration; it stays inside `r` plus the edge targets, which bounds the
      iteration. */
  function Closure<T>(g: Graph<T>, r: set<T>): (c: set<T>)
    ensures r <= c && Step(g, c) <= c
    ensures forall x :: x in c ==> x in r || x in Targets(g)
    decreases |Targets(g) - r|
  {
    var next := r + Step(g, r);
    if next <= r then r
    else
      assert Targets(g) - next < Targets(g) - r by {
        var x :| x in next && x !in r;
        assert x in Targets(g);
      }
      StrictSubsetCard(Targets(g) - next, Targets(g) - r);
      Closure(g, next)
  }

  lemma StrictSubsetCard<T>(a: set<T>, b: set<T>)
    requires a < b
    ensures |a| < |b|
  {
    var x :| x in b && x !in a;
    assert b == a + (b - a);
    assert x in b - a;
  }

  /** Nodes reachable from `s` in one step or more. */
  function ReachFrom<T>(g: Graph<T>, s: T): set<T>
  {
    Closure(g, if s in g then g[s] else {})
  }

  /** A cycle through `s`: `s` can reach itself. */
  predicate CycleThrough<T>(g: Graph<T>, s: T)
  {
    s in ReachFrom(g, s)
  }

  /** Every node of a closure whose seed is reachable is reachable. */
  lemma {:induction false} ClosureReachable<T(!new)>(g: Graph<T>, s: T, r: set<T>)
    requires forall x :: x in r ==> Reachable(g, s, x)
    ensures forall x :: x in Closure(g, r) ==> Reachable(g, s, x)
    decreases |Targets(g) - r|
  {
    var next := r + Step(g, r);
    if !(next <= r) {
      forall x | x in next ensures Reachable(g, s, x)
      {
        if x !in r {
          var v :| v in r && v in g && x in g[v];
          PathExtend(g, s, v, x);
        }
      }
      var y :| y in next && y !in r;
      assert y in Targets(g);
      StrictSubsetCard(Targets(g) - next, Targets(g) - r);
      ClosureReachable(g, s, next);
    }
  }

  /** Every node on a path from `s` lies in any set closed under `Step`
      that holds the successors of `s`. */
  lemma {:induction false} PathInClosed<T>(g: Graph<T>, p: seq<T>, c: set<T>, k: nat)
    requires IsPath(g, p) && 1 <= k < |p|
    requires (if p[0] in g then g[p[0]] else {}) <= c && Step(g, c) <= c
    ensures p[k] in c
  {
    if k > 1 {
      PathInClosed(g, p, c, k - 1);
      assert p[k] in Step(g, c);
    }
  }

  /** `ReachFrom` is exactly the set of reachable nodes. */
  lemma ReachFromIsReachable<T(!new)>(g: Graph<T>, s: T, x: T)
    ensures x in ReachFrom(g, s) <==> Reachable(g, s, x)
  {
    var seed := if s in g then g[s] else {};
    forall y | y in seed ensures Reachable(g, s, y)
    {
      assert IsPath(g, [s, y]);
    }
    ClosureReachable(g, s, seed);
    if Reachable(g, s, x) {
      var p :| IsPath(g, p) && p[0] == s && p[|p| - 1] == x;
      PathInClosed(g, p, ReachFrom(g, s), |p| - 1);
    }
  }

  /** The cycle check holds iff `s` lies on a cycle. */
  lemma CycleThroughIsCycle<T(!new)>(g: Graph<T>, s: T)
    ensures CycleThrough(g, s) <==> Reachable(g, s, s)
  {
    ReachFromIsReachable(g, s, s);
  }

  /** A node with no successors lies on no cycle. */
  lemma NoSuccessorsNoCycle<T>(g: Graph<T>, s: T)
    requires s !in g || g[s] == {}
    ensures !CycleThrough(g, s)
  {
    assert Closure(g, {}) == {} by {
      assert Step(g, {}) == {};
    }
  }

  /** A self-loop is a cycle. */
  lemma SelfLoopIsCycle<T>(g: Graph<T>, s: T)
    requires s in g && s in g[s]
    ensures CycleThrough(g, s)
  {
  }
}
