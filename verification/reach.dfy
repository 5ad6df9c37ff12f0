/**
 Reachability over an adjacency map from each node to the set of its
 neighbours. A node without an entry has no neighbours.
 */
module Reach {

  /** Neighbours of `u`; the empty set when `u` has no entry. */
  function Succ<T(!new)>(g: map<T, set<T>>, u: T): set<T>
  {
    if u in g then g[u] else {}
  }

  /** Every value listed as a neighbour of some node. */
  ghost function Targets<T(!new)>(g: map<T, set<T>>): set<T>
  {
    set u, w | u in g && w in g[u] :: w
  }

  /** `p` is a non-empty walk along edges of `g`. */
  ghost predicate IsPath<T(!new)>(g: map<T, set<T>>, p: seq<T>)
  {
    && |p| > 0
    && forall i :: 0 <= i < |p| - 1 ==> p[i + 1] in Succ(g, p[i])
  }

  /** `t` can be reached from `s` by a walk of zero or more edges. */
  ghost predicate Reachable<T(!new)>(g: map<T, set<T>>, s: T, t: T)
  {
    exists p :: IsPath(g, p) && p[0] == s && p[|p| - 1] == t
  }

  /** `s` is closed under taking neighbours. */
  ghost predicate Closed<T(!new)>(g: map<T, set<T>>, s: set<T>)
  {
    forall u :: u in s ==> Succ(g, u) <= s
  }

  lemma ReachRefl<T(!new)>(g: map<T, set<T>>, s: T)
    ensures Reachable(g, s, s)
  {
    assert IsPath(g, [s]);
  }

  /** A reachable node's neighbours are reachable. */
  lemma ReachStep<T(!new)>(g: map<T, set<T>>, s: T, u: T, w: T)
    requires Reachable(g, s, u)
    requires w in Succ(g, u)
    ensures Reachable(g, s, w)
  {
    var p :| IsPath(g, p) && p[0] == s && p[|p| - 1] == u;
    var q := p + [w];
    assert IsPath(g, q);
  }

  /** Whatever is reachable from a neighbour of `s` is reachable from `s`. */
  lemma ReachPrepend<T(!new)>(g: map<T, set<T>>, s: T, n: T, t: T)
    requires n in Succ(g, s)
    requires Reachable(g, n, t)
    ensures Reachable(g, s, t)
  {
    var p :| IsPath(g, p) && p[0] == n && p[|p| - 1] == t;
    var q := [s] + p;
    assert q[1..] == p;
    assert IsPath(g, q);
  }

  /** A closed set containing `s` contains every node reachable from `s`. */
  lemma {:induction false} ClosedHoldsReachable<T(!new)>(g: map<T, set<T>>, c: set<T>, s: T, t: T)
    requires Closed(g, c) && s in c
    requires Reachable(g, s, t)
    ensures t in c
  {
    var p :| IsPath(g, p) && p[0] == s && p[|p| - 1] == t;
    var i := 0;
    while i < |p| - 1
      invariant 0 <= i < |p|
      invariant p[i] in c
    {
      assert p[i + 1] in Succ(g, p[i]);
      i := i + 1;
    }
  }

  /** `t` can be reached from `s` by a walk whose nodes after the first all
      lie outside `blocked`. */
  ghost predicate ReachableAvoiding<T(!new)>(g: map<T, set<T>>, s: T, t: T, blocked: set<T>)
  {
    exists p :: IsPath(g, p) && p[0] == s && p[|p| - 1] == t
      && forall i :: 1 <= i < |p| ==> p[i] !in blocked
  }

  /** A set containing `s` that holds every unblocked neighbour of its
      members contains every node reachable from `s` avoiding `blocked`. */
  lemma {:induction false} ClosedHoldsAvoiding<T(!new)>(g: map<T, set<T>>, c: set<T>, blocked: set<T>, s: T, t: T)
    requires s in c
    requires forall u :: u in c ==> Succ(g, u) - blocked <= c
    requires ReachableAvoiding(g, s, t, blocked)
    ensures t in c
  {
    var p :| IsPath(g, p) && p[0] == s && p[|p| - 1] == t
      && forall i :: 1 <= i < |p| ==> p[i] !in blocked;
    var i := 0;
    while i < |p| - 1
      invariant 0 <= i < |p|
      invariant p[i] in c
    {
      assert p[i + 1] in Succ(g, p[i]) - blocked;
      i := i + 1;
    }
  }
}
