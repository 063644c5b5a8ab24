/** A deterministic topological sort (Kahn's algorithm): repeatedly emit
    the first node, in insertion order, all of whose producers have been
    emitted; report a cycle when no such node remains. */
module TopoSort {
  import opened Wrappers
  import opened CircuitGraph

  /** `v` is not yet emitted and every producer feeding it is. */
  predicate Ready(g: Graph, done: seq<Id>, v: Id) {
    v !in done && forall e :: e in g.edges && e.1 == v ==> e.0 in done
  }

  /** The first candidate that is ready, if any. */
  function FirstReady(g: Graph, done: seq<Id>, cands: seq<Id>): (r: Option<Id>)
    ensures r.Some? ==> r.value in cands && Ready(g, done, r.value)
    ensures r.None? ==> forall v {:trigger Ready(g, done, v)} :: v in cands ==> !Ready(g, done, v)
  {
    if cands == [] then None
    else if Ready(g, done, cands[0]) then Some(cands[0])
    else FirstReady(g, done, cands[1..])
  }

  /** Every emitted node comes after all of its producers. */
  ghost predicate Closed(g: Graph, done: seq<Id>) {
    forall i, e :: 0 <= i < |done| && e in g.edges && e.1 == done[i] ==> e.0 in done[..i]
  }

  /** A closed emission of every node is a topological order. */
  lemma ClosedIsTopo(g: Graph, done: seq<Id>)
    requires Distinct(done) && Closed(g, done)
    requires forall v :: v in done <==> v in g.nodes
    ensures IsTopoOrder(g, done)
  {
    forall i, j | 0 <= i < |done| && 0 <= j < |done| && (done[i], done[j]) in g.edges
      ensures i < j
    {
      var e := (done[i], done[j]);
      assert e.0 in done[..j];
      var k :| 0 <= k < j && done[k] == done[i];
    }
  }

  /** Some producer of `v` lies in `r`. */
  ghost predicate HasProducerIn(g: Graph, r: set<Id>, v: Id) {
    exists u :: u in r && (u, v) in g.edges
  }

  /** Every node of `r` has a producer inside `r`. */
  ghost predicate Stuck(g: Graph, r: set<Id>) {
    forall v {:trigger HasProducerIn(g, r, v)} :: v in r ==> HasProducerIn(g, r, v)
  }

  /** A walk of `n` edges inside a stuck set, ending at `v`, built backwards. */
  ghost function BackChain(g: Graph, r: set<Id>, v: Id, n: nat): (c: seq<Id>)
    requires v in r && Stuck(g, r)
    ensures |c| == n + 1 && c[n] == v
    ensures forall i :: 0 <= i < |c| ==> c[i] in r
    ensures forall i :: 0 <= i < n ==> (c[i], c[i + 1]) in g.edges
    decreases n
  {
    if n == 0 then [v]
    else
      assert HasProducerIn(g, r, v);
      var u :| u in r && (u, v) in g.edges;
      BackChain(g, r, u, n - 1) + [v]
  }

  /** A non-empty set in which every node has a producer contains a cycle. */
  lemma StuckSetHasCycle(g: Graph, r: set<Id>)
    requires r != {} && Stuck(g, r)
    ensures HasCycle(g)
  {
    var v :| v in r;
    var c := BackChain(g, r, v, |r|);
    Pigeonhole(c, r);
    var i, j :| 0 <= i < j < |c| && c[i] == c[j];
    var cyc := c[i..j + 1];
    forall k | 0 <= k < |cyc| - 1
      ensures (cyc[k], cyc[k + 1]) in g.edges
    {
      assert cyc[k] == c[i + k] && cyc[k + 1] == c[i + k + 1];
    }
    assert IsCycle(g, cyc);
  }

  /** When no remaining node is ready, the remaining nodes form a stuck set. */
  lemma NoReadyHasCycle(g: Graph, done: seq<Id>)
    requires Valid(g)
    requires exists v :: v in g.nodes && v !in done
    requires forall v {:trigger Ready(g, done, v)} :: v in g.nodes ==> !Ready(g, done, v)
    ensures HasCycle(g)
  {
    var r := Elems(g.nodes) - Elems(done);
    forall v | v in r
      ensures HasProducerIn(g, r, v)
    {
      assert v in g.nodes && v !in done;
      assert !Ready(g, done, v);
      var e :| e in g.edges && e.1 == v && e.0 !in done;
      assert e.0 in g.nodes;
      assert e.0 in r && (e.0, v) == e;
    }
    var w :| w in g.nodes && w !in done;
    assert w in r;
    StuckSetHasCycle(g, r);
  }

  /** Kahn's algorithm from the emitted prefix `done`. */
  function Kahn(g: Graph, done: seq<Id>): (r: Option<seq<Id>>)
    requires Valid(g)
    requires Distinct(done) && (forall v :: v in done ==> v in g.nodes) && Closed(g, done)
    ensures r.Some? ==> IsTopoOrder(g, r.value) && done <= r.value
    ensures r.None? ==> HasCycle(g)
    decreases |Elems(g.nodes) - Elems(done)|
  {
    if forall v :: v in g.nodes ==> v in done then
      ClosedIsTopo(g, done);
      Some(done)
    else
      match FirstReady(g, done, g.nodes)
      case None =>
        NoReadyHasCycle(g, done);
        None
      case Some(v) =>
        KahnStep(g, done, v);
        Kahn(g, done + [v])
  }

  /** Emitting a ready node keeps the prefix closed and leaves fewer nodes to emit. */
  lemma KahnStep(g: Graph, done: seq<Id>, v: Id)
    requires Valid(g)
    requires Distinct(done) && (forall u :: u in done ==> u in g.nodes) && Closed(g, done)
    requires v in g.nodes && Ready(g, done, v)
    ensures Distinct(done + [v]) && (forall u :: u in done + [v] ==> u in g.nodes)
    ensures Closed(g, done + [v])
    ensures |Elems(g.nodes) - Elems(done + [v])| < |Elems(g.nodes) - Elems(done)|
  {
    var done' := done + [v];
    assert forall i :: 0 <= i < |done| ==> done'[..i] == done[..i];
    assert done'[..|done|] == done;
    assert Elems(g.nodes) - Elems(done') == (Elems(g.nodes) - Elems(done)) - {v};
  }

  /** The processing order of the critical-path engine: a topological order
      of the whole graph, or nothing exactly when the graph has a directed cycle. */
  function TopoSort(g: Graph): (r: Option<seq<Id>>)
    requires Valid(g)
    ensures r.Some? ==> IsTopoOrder(g, r.value)
    ensures r.None? <==> HasCycle(g)
    ensures r.None? <==> !Acyclic(g)
  {
    CycleHasNoOrder(g);
    Kahn(g, [])
  }
}
