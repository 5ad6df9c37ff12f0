/**
 The iterative depth-first traversal with an explicit stack: `dfs` of
 src/lib.rs (copied verbatim as src/utils.rs) and `dfs_python` of
 dfs_module/main.py, over an adjacency map from each node to an ordered list
 of neighbours.
 */
module StackDfs {
  import opened Seqs
  import opened Reach

  /** `graph.get(node, [])`: a node without an entry has no neighbours, and
      the list read as a set is the node's set of edges. */
  function Neighbours<T(!new)>(g: map<T, seq<T>>, n: T): (r: seq<T>)
    ensures n !in g ==> r == []
    ensures Elems(r) == Succ(Edges(g), n)
  {
    if n in g then g[n] else []
  }

  /** The edges of the ordered adjacency, forgetting order and repetition. */
  ghost function Edges<T>(g: map<T, seq<T>>): map<T, set<T>>
  {
    map n | n in g :: Elems(g[n])
  }

  /** Every value that can ever sit on the stack or in the visited set. */
  ghost function Universe<T(!new)>(g: map<T, seq<T>>, stack: seq<T>, visited: set<T>): set<T>
  {
    Targets(Edges(g)) + Elems(stack) + visited
  }

  /** Facts behind the termination measure (|Universe - visited|, |stack|)
      of one loop iteration: popping never grows the first component, and
      visiting a new node shrinks it. */
  lemma StepShrinks<T(!new)>(g: map<T, seq<T>>, stack: seq<T>, visited: set<T>)
    requires stack != []
    ensures var node, rest := stack[|stack| - 1], stack[..|stack| - 1];
      && |Universe(g, rest, visited) - visited| <= |Universe(g, stack, visited) - visited|
      && (node !in visited ==>
            |Universe(g, rest + Reverse(Neighbours(g, node)), visited + {node}) - (visited + {node})|
            < |Universe(g, stack, visited) - visited|)
  {
    var node, rest := stack[|stack| - 1], stack[..|stack| - 1];
    assert stack == rest + [node];
    var u := Universe(g, stack, visited);
    SubsetCard(Universe(g, rest, visited) - visited, u - visited);
    var nbrs := Neighbours(g, node);
    ReverseElems(nbrs);
    assert Elems(nbrs) <= Targets(Edges(g)) by {
      forall x | x in nbrs
        ensures x in Targets(Edges(g))
      {
        assert x in Edges(g)[node];
      }
    }
    if node !in visited {
      var u' := Universe(g, rest + Reverse(nbrs), visited + {node});
      assert u' - (visited + {node}) <= (u - visited) - {node};
      SubsetCard(u' - (visited + {node}), (u - visited) - {node});
    }
  }

  /** The loop `while stack: node = stack.pop() ...` run to completion from
      the given state; a newly visited node has its neighbours appended
      reversed, as `stack.extend(reversed(graph.get(node, [])))` does. The
      order built so far is never altered, only extended. */
  function Explore<T(==,!new)>(g: map<T, seq<T>>, stack: seq<T>, visited: set<T>, order: seq<T>): (r: seq<T>)
    ensures order <= r
    decreases |Universe(g, stack, visited) - visited|, |stack|
  {
    if stack == [] then order
    else
      var node, rest := stack[|stack| - 1], stack[..|stack| - 1];
      StepShrinks(g, stack, visited);
      if node in visited then Explore(g, rest, visited, order)
      else Explore(g, rest + Reverse(Neighbours(g, node)), visited + {node}, order + [node])
  }

  /** The loop invariant of the traversal: the order lists the visited nodes
      once each, everything visited or stacked is reachable from `start`, and
      each neighbour of a visited node is visited or still on the stack. */
  ghost predicate Inv<T(!new)>(g: map<T, seq<T>>, start: T, stack: seq<T>, visited: set<T>, order: seq<T>)
  {
    && Elems(order) == visited
    && NoDup(order)
    && (forall x :: x in visited ==> Reachable(Edges(g), start, x))
    && (forall i :: 0 <= i < |stack| ==> Reachable(Edges(g), start, stack[i]))
    && (forall v, w :: v in visited && w in Neighbours(g, v) ==> w in visited || w in stack)
  }

  /** Popping a node that is already visited keeps the invariant. */
  lemma SkipKeepsInv<T(!new)>(g: map<T, seq<T>>, start: T, stack: seq<T>, visited: set<T>, order: seq<T>)
    requires Inv(g, start, stack, visited, order)
    requires stack != [] && stack[|stack| - 1] in visited
    ensures Inv(g, start, stack[..|stack| - 1], visited, order)
  {
  }

  /** Visiting a new node, recording it and stacking its neighbours reversed
      keeps the invariant. */
  lemma VisitKeepsInv<T(!new)>(g: map<T, seq<T>>, start: T, stack: seq<T>, visited: set<T>, order: seq<T>)
    requires Inv(g, start, stack, visited, order)
    requires stack != [] && stack[|stack| - 1] !in visited
    ensures var node := stack[|stack| - 1];
      Inv(g, start, stack[..|stack| - 1] + Reverse(Neighbours(g, node)), visited + {node}, order + [node])
  {
    var node, rest := stack[|stack| - 1], stack[..|stack| - 1];
    assert stack == rest + [node];
    assert Reachable(Edges(g), start, node);
    var nbrs := Neighbours(g, node);
    var stack' := rest + Reverse(nbrs);
    var visited' := visited + {node};
    var order' := order + [node];
    ReverseElems(nbrs);
    NoDupAppend(order, [node]);
    assert Elems(order') == visited';
    forall i | 0 <= i < |stack'|
      ensures Reachable(Edges(g), start, stack'[i])
    {
      if i >= |rest| {
        assert stack'[i] in Elems(Reverse(nbrs));
        ReachStep(Edges(g), start, node, stack'[i]);
      } else {
        assert stack'[i] == stack[i];
      }
    }
    forall v, w | v in visited' && w in Neighbours(g, v)
      ensures w in visited' || w in stack'
    {
      if v == node {
        assert w in Elems(Reverse(nbrs));
      } else if w !in visited && w != node {
        assert w in stack;
        assert w in rest;
      }
    }
  }

  /** With an empty stack the invariant says the order is closed under edges. */
  lemma DoneClosed<T(!new)>(g: map<T, seq<T>>, start: T, visited: set<T>, order: seq<T>)
    requires Inv(g, start, [], visited, order)
    ensures Closed(Edges(g), Elems(order))
  {
  }

  /** Running the loop from a state satisfying `Inv` yields a duplicate-free
      order of reachable nodes whose node set is closed under edges. */
  lemma {:induction false} ExploreKeeps<T(!new)>(g: map<T, seq<T>>, start: T, stack: seq<T>, visited: set<T>, order: seq<T>)
    requires Inv(g, start, stack, visited, order)
    ensures var r := Explore(g, stack, visited, order);
      && NoDup(r)
      && visited <= Elems(r)
      && (forall x :: x in r ==> Reachable(Edges(g), start, x))
      && Closed(Edges(g), Elems(r))
    decreases |Universe(g, stack, visited) - visited|, |stack|
  {
    if stack == [] {
      DoneClosed(g, start, visited, order);
    } else {
      StepShrinks(g, stack, visited);
      var node, rest := stack[|stack| - 1], stack[..|stack| - 1];
      if node in visited {
        SkipKeepsInv(g, start, stack, visited, order);
        ExploreKeeps(g, start, rest, visited, order);
      } else {
        VisitKeepsInv(g, start, stack, visited, order);
        ExploreKeeps(g, start, rest + Reverse(Neighbours(g, node)), visited + {node}, order + [node]);
      }
    }
  }

  /** What the whole traversal from `start` produces: `start` first, no node
      twice, and exactly the nodes reachable from `start`. */
  lemma ExploreFromStart<T(!new)>(g: map<T, seq<T>>, start: T)
    ensures var r := Explore(g, [start], {}, []);
      && |r| > 0 && r[0] == start
      && NoDup(r)
      && forall x :: x in r <==> Reachable(Edges(g), start, x)
  {
    ReachRefl(Edges(g), start);
    assert Inv(g, start, [start], {}, []);
    ExploreKeeps(g, start, [start], {}, []);
    var r := Explore(g, [start], {}, []);
    var empty: seq<T> := [];
    assert r == Explore(g, [start][..0] + Reverse(Neighbours(g, start)), {} + {start}, empty + [start]);
    assert r[0] == start;
    assert start in Elems(r);
    forall x | Reachable(Edges(g), start, x)
      ensures x in r
    {
      ClosedHoldsReachable(Edges(g), Elems(r), start, x);
    }
  }

  /** `dfs_python(graph, start)` of dfs_module/main.py. */
  function PythonDfs<T(==,!new)>(g: map<T, seq<T>>, start: T): (r: seq<T>)
    ensures |r| > 0 && r[0] == start
    ensures NoDup(r)
    ensures forall x :: x in r <==> Reachable(Edges(g), start, x)
  {
    ExploreFromStart(g, start);
    Explore(g, [start], {}, [])
  }

  /** The inner loop of the Rust `dfs`:
      `for neighbor in neighbors.iter().rev() { stack.push(neighbor) }`.
      It leaves the same stack as Python's `stack.extend(reversed(..))`, with
      the first-listed neighbour on top. */
  method PushReversed<T>(stack: seq<T>, nbrs: seq<T>) returns (s: seq<T>)
    ensures s == stack + Reverse(nbrs)
    ensures |nbrs| > 0 ==> |s| > 0 && s[|s| - 1] == nbrs[0]
  {
    s := stack;
    var i := |nbrs|;
    while i > 0
      invariant 0 <= i <= |nbrs|
      invariant s == stack + Reverse(nbrs[i..])
    {
      i := i - 1;
      assert nbrs[i..][1..] == nbrs[i + 1..];
      s := s + [nbrs[i]];
    }
    assert nbrs[0..] == nbrs;
  }

  /** `dfs` of src/lib.rs (and its verbatim copy in src/utils.rs): pop the
      top of the stack; if it is new, mark it, record it and, when it has an
      entry in the map, push its neighbours last-to-first. It returns what
      `dfs_python` returns on every input. */
  method RustDfs<T(==,!new)>(g: map<T, seq<T>>, start: T) returns (result: seq<T>)
    ensures result == PythonDfs(g, start)
    ensures |result| > 0 && result[0] == start
    ensures NoDup(result)
    ensures forall x :: x in result <==> Reachable(Edges(g), start, x)
  {
    var visited: set<T> := {};
    var stack := [start];
    result := [];
    while stack != []
      invariant Explore(g, stack, visited, result) == Explore(g, [start], {}, [])
      decreases |Universe(g, stack, visited) - visited|, |stack|
    {
      StepShrinks(g, stack, visited);
      var node := stack[|stack| - 1];
      stack := stack[..|stack| - 1];
      if node !in visited {
        visited := visited + {node};
        result := result + [node];
        if node in g {
          stack := PushReversed(stack, g[node]);
        } else {
          assert stack + Reverse(Neighbours(g, node)) == stack;
        }
      }
    }
  }

  /** A start node whose only possible neighbour is itself (no entry, an
      empty list, or only self-loops) yields exactly `[start]`. */
  lemma IsolatedStart<T(!new)>(g: map<T, seq<T>>, start: T)
    requires forall w :: w in Neighbours(g, start) ==> w == start
    ensures PythonDfs(g, start) == [start]
  {
    var r := PythonDfs(g, start);
    assert Closed(Edges(g), {start});
    forall i | 0 <= i < |r|
      ensures r[i] == start
    {
      ClosedHoldsReachable(Edges(g), {start}, start, r[i]);
    }
    NoDupCard(r);
    SubsetCard(Elems(r), {start});
    assert r == [start];
  }

  /** A start node missing from the map yields exactly `[start]`. */
  lemma UnknownStart<T(!new)>(g: map<T, seq<T>>, start: T)
    requires start !in g
    ensures PythonDfs(g, start) == [start]
  {
    IsolatedStart(g, start);
  }

  /** After a new node is visited its first-listed neighbour is on top of the
      stack, so if that neighbour is new too it is the very next node
      recorded. */
  lemma FirstNeighbourNext<T(!new)>(g: map<T, seq<T>>, stack: seq<T>, visited: set<T>, order: seq<T>)
    requires stack != []
    requires stack[|stack| - 1] !in visited
    requires |Neighbours(g, stack[|stack| - 1])| > 0
    requires Neighbours(g, stack[|stack| - 1])[0] !in visited + {stack[|stack| - 1]}
    ensures var node := stack[|stack| - 1];
      order + [node, Neighbours(g, node)[0]] <= Explore(g, stack, visited, order)
  {
  }

  /** The graph `compare_dfs` traverses from "A". */
  function CompareGraph(): (g: map<string, seq<string>>)
    ensures g.Keys == {"A", "B", "C", "D", "E", "F"}
    ensures forall n, w :: n in g && w in g[n] ==> w in g
    ensures forall n :: n in g ==> NoDup(g[n])
  {
    map["A" := ["B", "C"], "B" := ["D", "E"], "C" := ["F"], "D" := [], "E" := [], "F" := []]
  }

  /** The order both implementations produce on the `compare_dfs` graph. */
  lemma CompareDfsOrder()
    ensures PythonDfs(CompareGraph(), "A") == ["A", "B", "D", "E", "C", "F"]
  {
    CompareStep0();
    CompareStep1();
    CompareStep2();
    CompareStep3();
    CompareStep4();
    CompareStep5();
    assert Explore(CompareGraph(), [], {"A", "B", "D", "E", "C", "F"}, ["A", "B", "D", "E", "C", "F"]) == ["A", "B", "D", "E", "C", "F"];
  }

  // One lemma per node the loop records on the `compare_dfs` graph: the state
  // before the pop and the state after the node's neighbours are stacked.
  lemma CompareStep0()
    ensures Explore(CompareGraph(), ["A"], {}, []) == Explore(CompareGraph(), ["C", "B"], {"A"}, ["A"])
  {
    assert Neighbours(CompareGraph(), "A") == ["B", "C"];
    assert ["A"][..0] + Reverse(["B", "C"]) == ["C", "B"];
    assert {} + {"A"} == {"A"};
    assert [] + ["A"] == ["A"];
    VisitStep(CompareGraph(), ["A"], {}, []);
  }

  lemma CompareStep1()
    ensures Explore(CompareGraph(), ["C", "B"], {"A"}, ["A"]) == Explore(CompareGraph(), ["C", "E", "D"], {"A", "B"}, ["A", "B"])
  {
    assert "B" != "A";
    assert Neighbours(CompareGraph(), "B") == ["D", "E"];
    assert ["C", "B"][..1] + Reverse(["D", "E"]) == ["C", "E", "D"];
    assert {"A"} + {"B"} == {"A", "B"};
    assert ["A"] + ["B"] == ["A", "B"];
    VisitStep(CompareGraph(), ["C", "B"], {"A"}, ["A"]);
  }

  lemma CompareStep2()
    ensures Explore(CompareGraph(), ["C", "E", "D"], {"A", "B"}, ["A", "B"]) == Explore(CompareGraph(), ["C", "E"], {"A", "B", "D"}, ["A", "B", "D"])
  {
    assert "D" != "A";
    assert "D" != "B";
    assert Neighbours(CompareGraph(), "D") == [];
    assert ["C", "E", "D"][..2] + Reverse([]) == ["C", "E"];
    assert {"A", "B"} + {"D"} == {"A", "B", "D"};
    assert ["A", "B"] + ["D"] == ["A", "B", "D"];
    VisitStep(CompareGraph(), ["C", "E", "D"], {"A", "B"}, ["A", "B"]);
  }

  lemma CompareStep3()
    ensures Explore(CompareGraph(), ["C", "E"], {"A", "B", "D"}, ["A", "B", "D"]) == Explore(CompareGraph(), ["C"], {"A", "B", "D", "E"}, ["A", "B", "D", "E"])
  {
    assert "E" != "A";
    assert "E" != "B";
    assert "E" != "D";
    assert Neighbours(CompareGraph(), "E") == [];
    assert ["C", "E"][..1] + Reverse([]) == ["C"];
    assert {"A", "B", "D"} + {"E"} == {"A", "B", "D", "E"};
    assert ["A", "B", "D"] + ["E"] == ["A", "B", "D", "E"];
    VisitStep(CompareGraph(), ["C", "E"], {"A", "B", "D"}, ["A", "B", "D"]);
  }

  lemma CompareStep4()
    ensures Explore(CompareGraph(), ["C"], {"A", "B", "D", "E"}, ["A", "B", "D", "E"]) == Explore(CompareGraph(), ["F"], {"A", "B", "D", "E", "C"}, ["A", "B", "D", "E", "C"])
  {
    assert "C" != "A";
    assert "C" != "B";
    assert "C" != "D";
    assert "C" != "E";
    assert Neighbours(CompareGraph(), "C") == ["F"];
    assert ["C"][..0] + Reverse(["F"]) == ["F"];
    assert {"A", "B", "D", "E"} + {"C"} == {"A", "B", "D", "E", "C"};
    assert ["A", "B", "D", "E"] + ["C"] == ["A", "B", "D", "E", "C"];
    VisitStep(CompareGraph(), ["C"], {"A", "B", "D", "E"}, ["A", "B", "D", "E"]);
  }

  lemma CompareStep5()
    ensures Explore(CompareGraph(), ["F"], {"A", "B", "D", "E", "C"}, ["A", "B", "D", "E", "C"]) == Explore(CompareGraph(), [], {"A", "B", "D", "E", "C", "F"}, ["A", "B", "D", "E", "C", "F"])
  {
    assert "F" != "A";
    assert "F" != "B";
    assert "F" != "D";
    assert "F" != "E";
    assert "F" != "C";
    assert Neighbours(CompareGraph(), "F") == [];
    assert ["F"][..0] + Reverse([]) == [];
    assert {"A", "B", "D", "E", "C"} + {"F"} == {"A", "B", "D", "E", "C", "F"};
    assert ["A", "B", "D", "E", "C"] + ["F"] == ["A", "B", "D", "E", "C", "F"];
    VisitStep(CompareGraph(), ["F"], {"A", "B", "D", "E", "C"}, ["A", "B", "D", "E", "C"]);
  }

  /** One iteration of the loop that visits a new node. */
  lemma VisitStep<T(!new)>(g: map<T, seq<T>>, stack: seq<T>, visited: set<T>, order: seq<T>)
    requires stack != [] && stack[|stack| - 1] !in visited
    ensures var node := stack[|stack| - 1];
      Explore(g, stack, visited, order)
      == Explore(g, stack[..|stack| - 1] + Reverse(Neighbours(g, node)), visited + {node}, order + [node])
  {
  }
}
