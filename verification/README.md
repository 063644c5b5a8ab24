# Static timing analysis of a netlist, in Dafny

This project models the core of a small static-timing analyser (`main.py`).
Its three parts are:

- **Delay table** (`get_delay`). It maps a component type (`INPUT`, `OUTPUT`, `ADD`, `MUL`, `REG`) to a propagation delay. Any other type gets a default delay.
- **Netlist parser** (`parse_circuit`). It reads lines of the form `<TYPE> <id> [<input-id> ...]` and builds a directed graph. Blank and `#` comment lines are skipped. Every definition line adds a node carrying a type and a delay, plus one edge from each listed input to the new node.
- **Critical-path engine** (`find_critical_path`). It walks the graph in topological order and sets `arrival[n]` to the largest `arrival[p] + delay[p]` over the predecessors `p` (0 when there are none), plus `delay[n]`. It keeps the running maximum, which is raised only by a strictly larger arrival, and returns a critical path together with that maximum.

Modules, one per file:

| file | module | contents |
|---|---|---|
| `wrappers.dfy` | `Wrappers` | `Option`, `Result`, distinctness, `Elems`, `IndexOf`, pigeonhole |
| `text.dfy` | `Text` | Python's `str.strip()` and argument-less `str.split()` |
| `delays.dfy` | `Delays` | the delay table |
| `graph.dfy` | `CircuitGraph` | components, the graph, node and edge insertion, topological orders and cycles |
| `netlist.dfy` | `Netlist` | line classification, collection of definitions, graph construction |
| `toposort.dfy` | `TopoSort` | a deterministic Kahn sort, which fails exactly on a cyclic graph |
| `timing.dfy` | `Timing` | the forward pass, the critical path, and the analysis entry point |

Delays are exact `real`s (`0.2` is exactly one fifth), not binary floats.

The graph mirrors the way `networkx.DiGraph` is used:
- Nodes are kept in insertion order.
- Re-adding a node replaces its attributes.
- An edge to or from an unknown id creates that node without attributes.
- Edges form a set.

**The recurrence counts delays twice.** `arrival[p]` already includes `delay[p]`, and the recurrence adds `delay[p]` again. Along a chain `v0 … vk` of maximal predecessors, `arrival(vk) = 2·(d(v0) + … + d(v(k-1))) + d(vk)`. The driver halves the total before printing it (`main.py:104`). The model keeps the recurrence as written and proves this relation (`Timing.ChainArrivalDoubles`).

**Code and tests disagree.** The repository's tests expect a different table: `ADD` and `MUL` at 0.5, `REG` at 0.1. They also expect an undoubled total of 1.6 for their first circuit (`test_critical_path_analysis.py:78-83, 116`). The model follows `main.py`. Under its table the raw maximum for that circuit is `2·(0 + 1 + 1 + 0.2 + 1) + 0 = 6.4`, by `Timing.ChainArrivalDoubles`.

**Substituted library calls.**
- `nx.topological_sort` becomes `TopoSort.TopoSort`. It is Kahn's algorithm that always emits the first ready node in insertion order. It returns a topological order, or nothing exactly when the graph has a directed cycle.
- `nx.dag_longest_path(graph, weight='delay')` becomes `Timing.BackWalk`. The walk starts at the first node, in processing order, that attains the maximum. At each step it moves back to the first predecessor whose `arrival + delay` is largest, and it stops at a source.

## Model

| member | source | states |
|---|---|---|
| Delays.GetDelay | main.py:26-34 | INPUT and OUTPUT cost 0.0, ADD and MUL cost 1.0, REG costs 0.2, and every other type costs the default 1.0; every delay lies in [0, 1] |
| Text.Strip | main.py:11 | the stripped line is a slice of the line with only whitespace removed on both sides; it starts and ends with non-whitespace, and is empty exactly when the line is all whitespace |
| Text.StripPadded | main.py:11 | stripping whitespace padding around a trimmed text gives back that text |
| Text.Split | main.py:15 | the tokens are non-empty and whitespace-free, and there are none exactly when the line is blank |
| Text.SplitWordFirst | main.py:15 | a word followed by whitespace or by nothing is the first token, and the rest of the line gives the other tokens |
| Text.SplitSpaceFirst | main.py:15 | a leading whitespace character does not change the tokens; with Text.SplitWordFirst and the empty line this fixes the tokens as the maximal runs of non-whitespace |
| Text.SplitSpacesFirst | main.py:15 | a leading run of whitespace of any length does not change the tokens |
| Text.SplitDecomposes | main.py:15 | every line that is not blank is its tokens joined by non-empty whitespace runs and padded with whitespace on both sides |
| Text.SplitKeepsCharacters | main.py:15 | the tokens, concatenated, are exactly the non-whitespace characters of the line in order |
| Text.SplitJoin | main.py:15 | splitting words joined by any non-empty runs of whitespace gives back the words (round trip) |
| CircuitGraph.AddNode | main.py:19 | a new id is appended to the nodes; an existing id keeps its place and has its attributes replaced; no other attributes change and the edges are untouched |
| CircuitGraph.AddEdge | main.py:21 | the edge joins the edge set, unknown endpoints become attribute-less nodes, and attributes are untouched |
| CircuitGraph.Preds | main.py:47 | a node is listed as a predecessor exactly when there is an edge from it to the given node |
| CircuitGraph.CycleHasNoOrder | main.py:43 | a graph with a directed cycle has no topological order |
| Netlist.ClassifyLine | main.py:11-18 | a line kept as a definition has whitespace-free type, id and input tokens, and its type does not start with `#` |
| Netlist.ClassifyRender | main.py:11-18 | a definition written with any non-empty whitespace runs between its tokens, padded with any whitespace, reads back as the same type, id and inputs |
| Netlist.DefinitionLineShape | main.py:11-18 | conversely, every definition line is its type, id and inputs written with non-empty whitespace runs between them and padded with whitespace |
| Netlist.ClassifyBlank | main.py:12-13 | a line that is empty after stripping is skipped |
| Netlist.ClassifyComment | main.py:12-13 | a line whose first non-blank character is `#` is skipped |
| Netlist.ClassifyLoneToken | main.py:15-16 | a kept line with a single token is an error, since it has no id |
| Netlist.Collect | main.py:10-16 | parsing succeeds exactly when no line is malformed; an error names the first malformed line; on success the definitions are exactly those of the definition lines |
| Netlist.CollectedDecls | main.py:10-16 | on success the collected definitions are exactly those of the lines classified as definitions |
| Netlist.AddInputs | main.py:20-21 | one edge from every listed input into the node, and nothing else added; the inputs become nodes |
| Netlist.AddDecl | main.py:19-21 | the defined id gets the type and table delay of the line, other attributes are kept, and the new edges are exactly input-to-id |
| Netlist.Build | main.py:19-21 | nodes are exactly the ids defined or referenced; attributes exist exactly for defined ids and come from their last definition; edges are exactly the listed wires, repeats collapsed |
| Netlist.ParseCircuit | main.py:6-23 | parsing succeeds exactly when no kept line has fewer than two tokens, otherwise it reports the first such line; a successful parse is a well-formed graph |
| Netlist.ParseAppendLine | main.py:10-21 | one more line: a skipped line changes nothing, a malformed line is the error, and a definition line is added to the graph built so far |
| Netlist.ParsedGraph | main.py:10-21 | the parsed graph in terms of the lines: a node exactly for each id a definition line defines or uses, attributes exactly for defined ids, an edge exactly for each listed input |
| Netlist.RedefinitionWins | main.py:19-21 | a later definition of an id sets its type and delay, and the edges from the earlier definitions remain |
| Netlist.ParseIgnoresSkippedLine | main.py:12-13 | inserting a blank or comment line anywhere changes neither the outcome nor the graph |
| Netlist.ClosedNetlistNodes | main.py:19-21 | when every referenced input is also defined, the nodes are exactly the defined ids and all carry a delay |
| TopoSort.Kahn | main.py:43 | extending a closed prefix yields a topological order that extends it, and fails only on a graph with a directed cycle |
| TopoSort.TopoSort | main.py:43 | the processing order is a permutation of the nodes with every edge going forward; there is none exactly when the graph has a directed cycle, that is, exactly when no topological order exists |
| Timing.Incoming | main.py:45-49 | the incoming value is 0 with no predecessors, and otherwise is at least every predecessor's arrival plus delay and equals one of them |
| Timing.Step | main.py:45-53 | one loop iteration: the new node's arrival satisfies the recurrence, earlier arrivals are unchanged, and the maximum and its node change only on a strictly larger arrival |
| Timing.Fold | main.py:42-53 | after k nodes, exactly those have arrivals, each satisfying the recurrence, all within [0, max]; the maximum is 0 exactly when no node was recorded, otherwise it is attained first in the order by the recorded node |
| Timing.FoldSolves | main.py:42-53 | after the whole pass the arrivals cover exactly the nodes and solve the recurrence, and the maximum is 0 or attained and bounds every arrival |
| Timing.BackWalk | main.py:54 | the path ends at the given node, starts at a source, and each step is an edge from a predecessor with the largest arrival plus delay |
| Timing.ChainArrivalDoubles | main.py:45-49 | along such a path the arrival of the last node is twice the delays of all earlier nodes plus its own delay |
| Timing.WalkBelowArrival | main.py:45-49 | every walk ending at a node has doubled weight at most that node's arrival |
| Timing.RecurrenceNonNegative | main.py:45-49 | on an acyclic graph every solution of the recurrence is nonnegative |
| Timing.RecurrenceUnique | main.py:43-49 | on an acyclic graph the recurrence has exactly one solution: two solutions agree on every node, and are the same map when both cover exactly the nodes |
| Timing.MaxDelayOrderIndependent | main.py:43-53 | the arrivals and the maximum are the same for every topological order |
| Timing.FirstUndefined | main.py:46-49 | finds the first node in the order that lacks a delay, or reports that all have one |
| Timing.Analyse | main.py:38-56 | on an acyclic fully-defined graph: arrivals satisfy the recurrence at every node and lie in [0, max]; the path is empty exactly when the max is 0; otherwise it is a critical chain ending at the first node in the order to attain the max, which equals its doubled weight |
| Timing.FindCriticalPath | main.py:37-56 | fails with a cycle error exactly on a cyclic graph; succeeds exactly when the graph is acyclic and every node is defined; a missing-delay error names a node without attributes; on success, the guarantees of Timing.Analyse for the sorted order |
| Timing.MissingDelayIsFirst | main.py:43-49 | a missing-delay failure names the first node, in processing order, that has no attributes |
| Timing.CriticalPathIsLongest | main.py:52-56 | no walk has doubled weight above the reported maximum, and a non-empty reported path is a walk attaining it |

## Left out

- File reading (`main.py:9`) is I/O. The parser takes the netlist as a sequence of lines. Splitting the file text into lines is not modelled.
- `visualize_circuits` (`main.py:59-85`) is left out: it is matplotlib drawing and floating-point layout.
- `main` (`main.py:88-121`) is left out. It is a driver with fixed file names and console output, and the halving at line 104 only affects display.
- TopoSort.TopoSort: the order `networkx.topological_sort` emits is not modelled. Kahn's algorithm with first-ready-in-insertion-order stands in for it. The arrivals and the maximum do not depend on the order (Timing.MaxDelayOrderIndependent). The tie-break node can depend on it.
- Timing.BackWalk: `networkx.dag_longest_path` is not modelled. Its edges carry no `delay` attribute, so the library weights every edge 1 and returns a longest path by edge count, not tied to the maximum node. The model returns the backward walk described above instead.
- Timing.BackWalk: the order of `graph.predecessors(n)` is not modelled. The library lists predecessors in the order their edges into `n` were first added; `CircuitGraph.Preds` lists them in node insertion order. For `INPUT a`, `INPUT b`, `ADD c b a` the library gives `b, a` and the model `a, b`. The maximum does not depend on this order; the walk's choice among predecessors that tie can.
- Timing.FindCriticalPath: the error reported on a graph that is both cyclic and has an undefined node is always the cycle. The library's sort is a lazy generator, so Python may instead raise the `KeyError` for the undefined node first. Both outcomes are failures without a result.
- Exceptions are modelled as `Err` values. The parser's `IndexError` becomes `MalformedLine`, the sort's `NetworkXUnfeasible` becomes `CyclicGraph`, and the missing `'delay'` key becomes `MissingDelay`.
- Binary floating point is not modelled: delays and sums are exact reals.
