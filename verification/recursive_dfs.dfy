/**
 The recursive depth-first traversal of src/algorithm/dfs.rs, modelled after
 its evident intent: it reads the adjacency map of a `Graph` (node to
 neighbour set). The caller's `visited` map is threaded through and returned; each
 `println!("Visited: {}", ..)` line is returned as one entry of a log.
 Neighbours are taken from a set in no particular order.
 */
module RecursiveDfs {
  import opened Seqs
  import opened Reach
  import opened GraphStore

  /** `*visited.get(&n).unwrap_or(&false)`. */
  function IsVisited(visited: map<int, bool>, n: int): (r: bool)
    ensures r <==> n in Marked(visited)
  {
    n in visited && visited[n]
  }

  /** The nodes a visited map marks `true`. */
  ghost function Marked(visited: map<int, bool>): set<int>
  {
    set n | n in visited && visited[n]
  }

  /** `after` differs from `before` only by entries set to `true`: no entry
      is removed and no entry is changed except to `true`. */
  ghost predicate OnlyMarks(before: map<int, bool>, after: map<int, bool>)
  {
    && before.Keys <= after.Keys
    && forall n :: n in after ==> after[n] || (n in before && after[n] == before[n])
  }

  lemma OnlyMarksTrans(a: map<int, bool>, b: map<int, bool>, c: map<int, bool>)
    requires OnlyMarks(a, b) && OnlyMarks(b, c)
    ensures OnlyMarks(a, c)
  {
  }

  /** Some element of a non-empty set; which one is left open, as is the
      order in which a `HashSet` yields its elements. */
  method Choose(s: set<int>) returns (x: int)
    requires s != {}
    ensures x in s
  {
    EmptyOrHasElement(s);
    x :| x in s;
  }

  lemma EmptyOrHasElement(s: set<int>)
    ensures s == {} || exists y :: y in s
  {
    if forall y :: y !in s {
      assert s == {};
    }
  }

  /** Recursing into an unmarked neighbour `n` after `start` is marked
      lowers the termination measure. */
  lemma DescentShrinks(g: map<int, set<int>>, start: int, visited: map<int, bool>, marks: map<int, bool>, n: int)
    requires n in Succ(g, start)
    requires Marked(visited) + {start} <= Marked(marks)
    requires n !in Marked(marks)
    ensures |Targets(g) - Marked(marks) - {n}| < |Targets(g) - Marked(visited) - {start}|
  {
    assert n in Targets(g);
    var small := Targets(g) - Marked(marks) - {n};
    var big := Targets(g) - Marked(visited) - {start};
    assert small <= big - {n};
    SubsetCard(small, big - {n});
  }

  /** What holds of a call on `start` once `start` is marked and reported:
      marks only ever turn `true`, the report starts with `start` and lists
      each newly marked node once, newly marked nodes are reachable from
      `start`, and the nodes reported by recursive calls have all their
      neighbours marked. */
  ghost predicate Progress(g: map<int, set<int>>, start: int, visited: map<int, bool>, marks: map<int, bool>, log: seq<int>)
  {
    && IsVisited(marks, start)
    && OnlyMarks(visited, marks)
    && Marked(visited) + {start} <= Marked(marks)
    && |log| > 0 && log[0] == start
    && NoDup(log)
    && Elems(log) == Marked(marks) - Marked(visited) + {start}
    && (forall k :: k in Marked(marks) - Marked(visited) ==> Reachable(g, start, k))
    && (forall k :: k in log[1..] ==> Succ(g, k) <= Marked(marks))
  }

  /** The neighbour loop hands one more unmarked neighbour `n` to a recursive
      call that marks `after` and reports `sub`; the progress of the call on
      `start` carries over. */
  lemma ChildKeeps(g: map<int, set<int>>, start: int, visited: map<int, bool>, marks: map<int, bool>,
                   log: seq<int>, n: int, after: map<int, bool>, sub: seq<int>)
    requires n in Succ(g, start) && !IsVisited(marks, n)
    requires Progress(g, start, visited, marks, log)
    requires Progress(g, n, marks, after, sub)
    requires forall k :: k in sub ==> Succ(g, k) <= Marked(after)
    ensures Progress(g, start, visited, after, log + sub)
  {
    assert (log + sub)[1..] == log[1..] + sub;
    OnlyMarksTrans(visited, marks, after);
    forall k | k in Marked(after) - Marked(visited)
      ensures Reachable(g, start, k)
    {
      if k !in Marked(marks) {
        ReachPrepend(g, start, n, k);
      }
    }
    assert Elems(log) <= Marked(marks);
    assert Elems(sub) == Marked(after) - Marked(marks);
    NoDupAppend(log, sub);
    assert Elems(log + sub) == Elems(log) + Elems(sub);
  }

  /** Every node reachable from `start` through nodes unmarked on entry is
      marked on return. If the marks on entry were closed under edges, the
      marks on return are closed too, so they hold everything reachable from
      `start`. */
  lemma CompleteWhenClosed(g: map<int, set<int>>, start: int, visited: map<int, bool>, marks: map<int, bool>, log: seq<int>)
    requires Marked(visited) + {start} <= Marked(marks)
    requires Elems(log) == Marked(marks) - Marked(visited) + {start}
    requires forall k :: k in Marked(marks) - Marked(visited) ==> Reachable(g, start, k)
    requires forall k :: k in log ==> Succ(g, k) <= Marked(marks)
    ensures Closed(g, Marked(visited)) ==> forall n :: Reachable(g, start, n) ==> IsVisited(marks, n)
    ensures Marked(visited) == {} ==> forall n :: IsVisited(marks, n) <==> Reachable(g, start, n)
    ensures forall n :: ReachableAvoiding(g, start, n, Marked(visited)) ==> IsVisited(marks, n)
  {
    forall n | ReachableAvoiding(g, start, n, Marked(visited))
      ensures IsVisited(marks, n)
    {
      forall u | u in Elems(log)
        ensures Succ(g, u) - Marked(visited) <= Elems(log)
      {
      }
      ClosedHoldsAvoiding(g, Elems(log), Marked(visited), start, n);
    }
    if Closed(g, Marked(visited)) {
      assert Closed(g, Marked(marks)) by {
        forall k | k in Marked(marks)
          ensures Succ(g, k) <= Marked(marks)
        {
          if k !in Marked(visited) {
            assert k in Elems(log);
          }
        }
      }
      forall n | Reachable(g, start, n)
        ensures IsVisited(marks, n)
      {
        assert start in Elems(log);
        ClosedHoldsReachable(g, Marked(marks), start, n);
      }
    }
    if Marked(visited) == {} {
      assert Closed(g, Marked(visited));
    }
  }

  /** `dfs(graph, start, visited)`: mark `start`, report it, and recurse
      into every neighbour that is not yet marked. Returns the final visited
      map and the reported nodes in order. */
  method Dfs(graph: Graph, start: int, visited: map<int, bool>) returns (marks: map<int, bool>, log: seq<int>)
    ensures IsVisited(marks, start)
    ensures OnlyMarks(visited, marks)
    ensures Marked(visited) + {start} <= Marked(marks)
    // the report: `start` first, then each newly marked node exactly once
    ensures |log| > 0 && log[0] == start
    ensures NoDup(log)
    ensures Elems(log) == Marked(marks) - Marked(visited) + {start}
    // soundness: only nodes reachable from `start` get marked
    ensures forall n :: n in Marked(marks) - Marked(visited) ==> Reachable(graph.adjacency, start, n)
    // every node reported has all its neighbours marked
    ensures forall n :: n in log ==> Succ(graph.adjacency, n) <= Marked(marks)
    // completeness: every node reachable from `start` through nodes that were
    // unmarked on entry ends up marked; from a closed (in particular an
    // empty) visited map, that is everything reachable from `start`
    ensures forall n :: ReachableAvoiding(graph.adjacency, start, n, Marked(visited)) ==> IsVisited(marks, n)
    ensures Closed(graph.adjacency, Marked(visited)) ==> forall n :: Reachable(graph.adjacency, start, n) ==> IsVisited(marks, n)
    ensures Marked(visited) == {} ==> forall n :: IsVisited(marks, n) <==> Reachable(graph.adjacency, start, n)
    ensures start !in graph.adjacency ==> marks == visited[start := true] && log == [start]
    decreases |Targets(graph.adjacency) - Marked(visited) - {start}|, 1
  {
    marks := visited[start := true];
    log := [start];
    if start in graph.adjacency {
      marks, log := VisitNeighbours(graph, start, visited, marks, log);
    }
    assert forall n :: n in log ==> n == start || n in log[1..];
    CompleteWhenClosed(graph.adjacency, start, visited, marks, log);
  }

  /** The loop `for &neighbor in neighbors { if !visited.. { dfs(..) } }` of
      the call on `start`, taking the neighbours in an unspecified order. On
      return every neighbour of `start` is marked. */
  method VisitNeighbours(graph: Graph, start: int, visited: map<int, bool>, marks0: map<int, bool>, log0: seq<int>)
    returns (marks: map<int, bool>, log: seq<int>)
    requires start in graph.adjacency
    requires Progress(graph.adjacency, start, visited, marks0, log0)
    ensures Progress(graph.adjacency, start, visited, marks, log)
    ensures graph.adjacency[start] <= Marked(marks)
    decreases |Targets(graph.adjacency) - Marked(visited) - {start}|, 0
  {
    marks, log := marks0, log0;
    var todo := graph.adjacency[start];
    while todo != {}
      invariant todo <= graph.adjacency[start]
      invariant graph.adjacency[start] - todo <= Marked(marks)
      invariant Progress(graph.adjacency, start, visited, marks, log)
      decreases todo
    {
      var n := Choose(todo);
      todo := todo - {n};
      if !IsVisited(marks, n) {
        DescentShrinks(graph.adjacency, start, visited, marks, n);
        var after, sub := Dfs(graph, n, marks);
        ChildKeeps(graph.adjacency, start, visited, marks, log, n, after, sub);
        log := log + sub;
        marks := after;
      }
    }
  }
}
