/** The circuit graph: components keyed by id, in the order they were first
    mentioned, and a set of producer-to-consumer dependency edges. */
module CircuitGraph {
  import opened Wrappers
  import Delays

  type Id = string

  /** A dependency edge: the first id feeds the second. */
  type Edge = (Id, Id)

  /** A defined component; its delay is fixed by its type. */
  datatype Component = Component(id: Id, kind: string, delay: real)

  /** `nodes` lists every node once, in insertion order; `info` holds the
      attributes of the nodes that were defined by a netlist line (a node
      that was only referenced as an input has none); `edges` is a set, so
      repeated wires collapse. */
  datatype Graph = Graph(nodes: seq<Id>, info: map<Id, Component>, edges: set<Edge>)

  const Empty: Graph := Graph([], map[], {})

  /** Representation invariant of every graph the parser builds. */
  predicate Valid(g: Graph) {
    && Distinct(g.nodes)
    && (forall v :: v in g.info ==> v in g.nodes)
    && (forall v :: v in g.info ==> g.info[v].id == v && g.info[v].delay == Delays.GetDelay(g.info[v].kind))
    && (forall e :: e in g.edges ==> e.0 in g.nodes && e.1 in g.nodes)
  }

  /** Every node carries a type and a delay. */
  predicate AllDefined(g: Graph) {
    forall v :: v in g.nodes ==> v in g.info
  }

  function Delay(g: Graph, v: Id): real
    requires v in g.info
  {
    g.info[v].delay
  }

  /** Appends `v` to a node list unless it is already listed. */
  function Touch(nodes: seq<Id>, v: Id): (r: seq<Id>)
    ensures forall x :: x in r <==> x in nodes || x == v
    ensures Distinct(nodes) ==> Distinct(r)
    ensures nodes <= r
  {
    if v in nodes then nodes else nodes + [v]
  }

  /** Adding a node with attributes: a new id is appended to the node
      order, an existing one keeps its place and has its attributes
      replaced. Edges are untouched. */
  function AddNode(g: Graph, c: Component): (r: Graph)
    requires Valid(g) && c.delay == Delays.GetDelay(c.kind)
    ensures Valid(r)
    ensures r.info.Keys == g.info.Keys + {c.id} && r.info[c.id] == c
    ensures forall v :: v in g.info && v != c.id ==> r.info[v] == g.info[v]
    ensures forall v :: v in r.nodes <==> v in g.nodes || v == c.id
    ensures r.edges == g.edges
    ensures g.nodes <= r.nodes
  {
    Graph(Touch(g.nodes, c.id), g.info[c.id := c], g.edges)
  }

  /** Adding the edge (u, v): endpoints not yet present become nodes
      without attributes, producer first. */
  function AddEdge(g: Graph, u: Id, v: Id): (r: Graph)
    requires Valid(g)
    ensures Valid(r)
    ensures r.info == g.info
    ensures forall x :: x in r.nodes <==> x in g.nodes || x == u || x == v
    ensures r.edges == g.edges + {(u, v)}
    ensures g.nodes <= r.nodes
  {
    var ns := Touch(Touch(g.nodes, u), v);
    Graph(ns, g.info, g.edges + {(u, v)})
  }

  /** The members of `cands` that have an edge into `n`, in the order of `cands`. */
  function PredsIn(cands: seq<Id>, edges: set<Edge>, n: Id): (ps: seq<Id>)
    ensures forall u :: u in ps <==> u in cands && (u, n) in edges
  {
    if cands == [] then []
    else (if (cands[0], n) in edges then [cands[0]] else []) + PredsIn(cands[1..], edges, n)
  }

  /** The predecessors of `n`, in node insertion order. */
  function Preds(g: Graph, n: Id): (ps: seq<Id>)
    requires Valid(g)
    ensures forall u :: u in ps <==> (u, n) in g.edges
  {
    PredsIn(g.nodes, g.edges, n)
  }

  /** `o` lists each node exactly once and every edge goes forward in it. */
  ghost predicate IsTopoOrder(g: Graph, o: seq<Id>) {
    && Distinct(o)
    && (forall v :: v in o <==> v in g.nodes)
    && (forall i, j :: 0 <= i < |o| && 0 <= j < |o| && (o[i], o[j]) in g.edges ==> i < j)
  }

  /** Some topological order of the graph exists. */
  ghost predicate Acyclic(g: Graph) {
    exists o :: IsTopoOrder(g, o)
  }

  /** A directed walk of at least one edge that returns to its start. */
  ghost predicate IsCycle(g: Graph, c: seq<Id>) {
    && |c| >= 2
    && c[0] == c[|c| - 1]
    && forall i :: 0 <= i < |c| - 1 ==> (c[i], c[i + 1]) in g.edges
  }

  ghost predicate HasCycle(g: Graph) {
    exists c :: IsCycle(g, c)
  }

  /** Along a walk, positions in a topological order strictly increase. */
  lemma {:induction false} WalkClimbsOrder(g: Graph, c: seq<Id>, o: seq<Id>, k: nat)
    requires Valid(g) && IsTopoOrder(g, o)
    requires 1 <= k < |c|
    requires forall i :: 0 <= i < |c| - 1 ==> (c[i], c[i + 1]) in g.edges
    ensures c[0] in o && c[k] in o && IndexOf(o, c[0]) < IndexOf(o, c[k])
  {
    assert (c[k - 1], c[k]) in g.edges;
    var a, b := IndexOf(o, c[k - 1]), IndexOf(o, c[k]);
    assert (o[a], o[b]) in g.edges;
    if k > 1 {
      WalkClimbsOrder(g, c, o, k - 1);
    }
  }

  /** A graph with a directed cycle has no topological order. */
  lemma CycleHasNoOrder(g: Graph)
    requires Valid(g)
    ensures HasCycle(g) ==> !Acyclic(g)
  {
    if c :| IsCycle(g, c) {
      if o :| IsTopoOrder(g, o) {
        WalkClimbsOrder(g, c, o, |c| - 1);
      }
    }
  }
}
