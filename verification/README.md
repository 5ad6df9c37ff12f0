# Depth-first traversal of rs-optimizer, modelled in Dafny

The repository's algorithmic core is a depth-first graph traversal and the
small undirected adjacency store it runs over. The model has five modules:

- `GraphStore` (graph.dfy) covers `Graph` of
  src/task_service/common/object/graph.rs. The store is a map from node to
  neighbour set. `New` builds the empty store. `AddEdge` inserts each
  endpoint into the other's set, creating entries on first use. The lemmas
  show that the store stays symmetric and that inserting an edge twice
  changes nothing.
- `StackDfs` (stack_dfs.dfy) covers the explicit-stack traversal. The
  Python `dfs_python` is the functional reference `PythonDfs`: pop the top;
  if it is new, record it and append its neighbour list reversed
  (`stack + Reverse(nbrs)`). The Rust `dfs` of src/lib.rs is the method
  `RustDfs`, which pushes the neighbours one by one in reverse
  (`PushReversed`). `RustDfs` is proved to return exactly what `PythonDfs`
  returns on every input. src/utils.rs holds a verbatim copy of the Rust
  `dfs` (src/utils.rs:6-25 equals src/lib.rs:5-24), so both copies are the
  same member. The traversal is generic in the node type. A node missing
  from the map has no neighbours.
- `RecursiveDfs` (recursive_dfs.dfy) covers the recursive `dfs` of
  src/algorithm/dfs.rs. That file does not compile as written: `graph` is
  moved into the recursion, `Graph` has no `get`, and `HashMap` is not
  imported. The model follows its evident intent. It reads the `Graph`
  adjacency and threads the caller's `visited: HashMap<i32, bool>` through as
  a `map<int, bool>`. Each `println!("Visited: ..")` becomes one entry of a
  returned log. Neighbours come out of a `HashSet`, so their order is left
  open (`Choose`).
- `Reach` (reach.dfy) and `Seqs` (seqs.dfy) hold the shared vocabulary:
  paths and reachability over a node-to-set adjacency, closed node sets,
  duplicate-freedom and reversal. Reachability for an ordered adjacency is
  reachability over `Edges(g)`, the same lists read as sets.

The iterative loop terminates even on cyclic graphs. Its measure is the
lexicographic pair (|universe − visited|, |stack|). The universe is every
listed neighbour, together with the stack contents and the visited set.

The recursive `dfs` marks every node reachable from `start` along a path
whose nodes after `start` were unmarked on entry. A node that a caller
pre-marked stops the traversal there. So when the nodes marked on entry are
closed under edges, which includes a fresh, empty map, everything reachable
from `start` ends up marked. Soundness and the once-per-node report hold
unconditionally.

## Model

| member | source | states |
|---|---|---|
| `GraphStore.New` | src/task_service/common/object/graph.rs:9-13 | a new store has no neighbours for any node and is symmetric |
| `GraphStore.AddEdge` | src/task_service/common/object/graph.rs:15-18 | afterwards u's set is the old set plus v, v's set is the old set plus u (a self-loop adds u once), every other node's set is unchanged, and the key set gains exactly u and v |
| `GraphStore.AddEdgeIdempotent` | src/task_service/common/object/graph.rs:15-18 | adding the same edge a second time leaves the store unchanged |
| `GraphStore.AddEdgeCommutes` | src/task_service/common/object/graph.rs:15-18 | `add_edge(u, v)` and `add_edge(v, u)` give the same store |
| `GraphStore.AddEdgeKeepsSymmetric` | src/task_service/common/object/graph.rs:15-18 | if w is a neighbour of x exactly when x is a neighbour of w before the insertion, the same holds after it |
| `GraphStore.Build` | src/task_service/common/object/graph.rs:9-18 | any store built from `new` by a sequence of `add_edge` calls is symmetric, holds every added edge in both directions, and holds no edge other than the added pairs |
| `GraphStore.BuildStep` | src/task_service/common/object/graph.rs:15-18 | one more `add_edge` stores only the earlier pairs and the new one |
| `Seqs.Reverse` | dfs_module/main.py:16 | `reversed(..)`: same length, and element i is element len-1-i of the input |
| `Seqs.ReverseElems` | dfs_module/main.py:16 | reversing a neighbour list keeps exactly the same nodes |
| `StackDfs.Neighbours` | dfs_module/main.py:16 | `graph.get(node, [])`: a node missing from the map has no neighbours, and a listed neighbour list read as a set is exactly that node's edge set |
| `StackDfs.PushReversed` | src/lib.rs:16-18 | the Rust per-element push of the reversed neighbours gives `stack + reversed(nbrs)`, the Python `extend` step, so the first-listed neighbour ends on top |
| `StackDfs.Explore` | dfs_module/main.py:11-16 | running the loop from any state only extends the order recorded so far |
| `StackDfs.StepShrinks` | src/lib.rs:11-13 | popping never grows the number of unvisited nodes in the universe, and visiting a new node strictly lowers it, so the loop ends on cyclic graphs and self-loops |
| `StackDfs.SkipKeepsInv` | src/utils.rs:12-13 | discarding an already visited node keeps the loop invariant |
| `StackDfs.VisitKeepsInv` | src/utils.rs:12-20 | visiting a new node keeps the invariant. The invariant says the order lists each visited node once and its set equals `visited`, that every visited or stacked node is reachable from `start`, and that each neighbour of a visited node is visited or on the stack |
| `StackDfs.DoneClosed` | src/utils.rs:12-22 | when the stack is empty the recorded nodes are closed under edges |
| `StackDfs.ExploreKeeps` | src/lib.rs:11-23 | from any state meeting the invariant, the final order is duplicate-free, contains every visited node, holds only nodes reachable from `start`, and is closed under edges |
| `StackDfs.ExploreFromStart` | src/utils.rs:7-25 | the traversal from `[start]` puts `start` first, has no duplicates, and contains a node exactly when it is reachable from `start` |
| `StackDfs.PythonDfs` | dfs_module/main.py:6-18 | `dfs_python` returns a list that begins with `start`, has no duplicates, and contains exactly the nodes reachable from `start` |
| `StackDfs.RustDfs` | src/lib.rs:5-24 | the Rust `dfs` returns the same list as `dfs_python` on every input, so it too begins with `start`, has no duplicates, and contains exactly the reachable nodes |
| `StackDfs.IsolatedStart` | src/lib.rs:15-19 | when `start` has no neighbour other than itself (no entry, an empty list, or only self-loops), the result is exactly `[start]` |
| `StackDfs.UnknownStart` | src/utils.rs:16 | a start node missing from the map yields `[start]` |
| `StackDfs.FirstNeighbourNext` | src/utils.rs:17-19 | after a new node is recorded, its first-listed neighbour is popped next, so if that neighbour is new it is the next recorded node |
| `StackDfs.CompareGraph` | dfs_module/main.py:23-30 | the `compare_dfs` graph has entries for exactly A to F, every listed neighbour has an entry of its own, and no list repeats a node |
| `StackDfs.CompareDfsOrder` | dfs_module/main.py:23-44 | on the `compare_dfs` graph from "A" the order is A, B, D, E, C, F. Both implementations return it, because `RustDfs` equals `PythonDfs` |
| `RecursiveDfs.IsVisited` | src/algorithm/dfs.rs:8 | `*visited.get(&n).unwrap_or(&false)` is true exactly when `n` has an entry and that entry is true, so a missing entry reads as unvisited |
| `RecursiveDfs.Choose` | src/algorithm/dfs.rs:7 | the next neighbour taken is some member of the not-yet-handled part of the neighbour set, in no fixed order |
| `RecursiveDfs.DescentShrinks` | src/algorithm/dfs.rs:3-9 | `start` is marked before any recursive call and recursion only enters unmarked neighbours, so the number of unmarked listed nodes falls with each nested call and the recursion ends on cyclic graphs |
| `RecursiveDfs.ChildKeeps` | src/algorithm/dfs.rs:7-9 | after one recursive call into an unmarked neighbour, marks have still only turned true, the report still lists each newly marked node once, and newly marked nodes are still reachable from `start` |
| `RecursiveDfs.CompleteWhenClosed` | src/algorithm/dfs.rs:6-11 | every node reachable from `start` through nodes unmarked on entry is marked on return. If the entry marks are closed under edges, every reachable node is marked. From an empty map, the marked nodes are exactly the reachable ones |
| `RecursiveDfs.VisitNeighbours` | src/algorithm/dfs.rs:6-11 | after the neighbour loop every neighbour of `start` is marked, and the progress facts of `ChildKeeps` still hold |
| `RecursiveDfs.Dfs` | src/algorithm/dfs.rs:2-13 | on return `start` is marked. Entries are only ever set to true. `start` is reported first and each newly marked node exactly once. Only nodes reachable from `start` become marked, and every reported node has all its neighbours marked. Every node reachable from `start` through nodes unmarked on entry becomes marked. From an empty map exactly the reachable nodes are marked. With no adjacency entry, only `start` is marked and reported |

## Left out

- src/main.rs (HTTP routes, listener, per-request threads and mutex handlers): network I/O and concurrency, outside the traversal.
- src/auth_service/data.rs and src/auth_service/user.rs: a global locked user store and a data record, with no algorithmic content.
- src/engine/staff.rs: a data holder whose only behaviour draws from a thread RNG.
- `Graph::display` (graph.rs:20-24): console output only.
- The `println!` of src/algorithm/dfs.rs:4 is modelled as the returned log, not as output.
- PyO3 module registration (src/lib.rs:26-30, src/utils.rs:27-32) and the pyo3 packaging and driver scripts: foreign-call glue.
- The timing and memory-profiling part of `compare_dfs` (dfs_module/main.py:46-74): wall-clock and memory measurements, not behaviour.
- Hash iteration order of `HashMap`/`HashSet`: Dafny maps and sets are used. The recursive traversal's neighbour order is left unspecified.
- Node identifiers: `String` and `i32` become a generic type and `int`. The traversal does no arithmetic on them, so 32-bit width plays no role.
