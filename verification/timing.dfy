/** The critical-path engine: arrival times propagated along a topological
    order, the running maximum with its first attaining node, and the
    critical path traced back from that node. */
module Timing {
  import opened Wrappers
  import opened CircuitGraph
  import TopoSort

  datatype AnalysisError =
    | CyclicGraph          // no topological order exists
    | MissingDelay(id: Id) // a node that was referenced but never defined

  /** The critical path and the maximum arrival time, together with the
      per-node arrival times behind them. */
  datatype Report = Report(path: seq<Id>, maxDelay: real, arrival: map<Id, real>)

  /** Every listed node has an arrival time and a delay. */
  predicate Known(g: Graph, arr: map<Id, real>, ps: seq<Id>) {
    forall p :: p in ps ==> p in arr && p in g.info
  }

  /** What a predecessor contributes to the nodes it feeds: its arrival
      time plus, once more, its own delay. */
  function Contribution(g: Graph, arr: map<Id, real>, p: Id): real
    requires p in arr && p in g.info
  {
    arr[p] + Delay(g, p)
  }

  /** The largest contribution among `ps`, or 0 when there is none. */
  function Incoming(g: Graph, arr: map<Id, real>, ps: seq<Id>): (r: real)
    requires Known(g, arr, ps)
    ensures ps == [] ==> r == 0.0
    ensures forall p :: p in ps ==> Contribution(g, arr, p) <= r
    ensures ps != [] ==> exists p :: p in ps && Contribution(g, arr, p) == r
  {
    if ps == [] then 0.0
    else if |ps| == 1 then Contribution(g, arr, ps[0])
    else
      var rest := Incoming(g, arr, ps[1..]);
      var c := Contribution(g, arr, ps[0]);
      assert forall p :: p in ps ==> p == ps[0] || p in ps[1..];
      if c >= rest then c else rest
  }

  /** Incoming depends only on the entries of the listed nodes. */
  lemma {:induction false} IncomingFrame(g: Graph, a1: map<Id, real>, a2: map<Id, real>, ps: seq<Id>)
    requires Known(g, a1, ps) && Known(g, a2, ps)
    requires forall p :: p in ps ==> a1[p] == a2[p]
    ensures Incoming(g, a1, ps) == Incoming(g, a2, ps)
  {
    if |ps| > 1 {
      IncomingFrame(g, a1, a2, ps[1..]);
    }
  }

  /** The recurrence holds at `n` in `arr`: its arrival time is the
      largest incoming contribution plus its own delay. */
  ghost predicate RecurrenceAt(g: Graph, arr: map<Id, real>, n: Id)
    requires Valid(g)
  {
    var ps := Preds(g, n);
    && n in arr && n in g.info && Known(g, arr, ps)
    && arr[n] == Incoming(g, arr, ps) + Delay(g, n)
  }

  /** `arr` satisfies the arrival-time recurrence at every node. */
  ghost predicate Recurrence(g: Graph, arr: map<Id, real>)
    requires Valid(g)
  {
    && (forall n :: n in g.nodes ==> n in arr)
    && forall n {:trigger RecurrenceAt(g, arr, n)} :: n in g.nodes ==> RecurrenceAt(g, arr, n)
  }

  /** In a topological order, the predecessors of a node come before it. */
  lemma PredsEarlier(g: Graph, order: seq<Id>, k: nat)
    requires Valid(g) && IsTopoOrder(g, order) && k < |order|
    ensures forall p :: p in Preds(g, order[k]) ==> p in order[..k]
  {
    forall p | p in Preds(g, order[k])
      ensures p in order[..k]
    {
      var i := IndexOf(order, p);
      assert (order[i], order[k]) in g.edges;
    }
  }

  /** The state of the forward pass: arrival times so far, the running
      maximum (starting at 0) and the node that last raised it. */
  datatype Scan = Scan(arrival: map<Id, real>, maxDelay: real, best: Option<Id>)

  /** What the forward pass guarantees after the first `k` nodes of
      `order`: exactly those nodes have arrival times, each satisfying the
      recurrence; the running maximum bounds every arrival time; it is
      raised only by a strictly larger arrival, so `best` is the first node
      in the order attaining it, and there is no `best` exactly when the
      maximum is still 0. */
  ghost predicate FoldFacts(g: Graph, order: seq<Id>, k: nat, s: Scan)
    requires Valid(g) && k <= |order|
  {
    && (forall v :: v in s.arrival <==> v in order[..k])
    && (forall v {:trigger RecurrenceAt(g, s.arrival, v)} :: v in s.arrival ==> RecurrenceAt(g, s.arrival, v))
    && (forall v :: v in s.arrival ==> 0.0 <= s.arrival[v] <= s.maxDelay)
    && (s.best.None? <==> s.maxDelay == 0.0)
    && (s.best.Some? ==>
          exists j :: 0 <= j < k && order[j] == s.best.value
            && s.arrival[order[j]] == s.maxDelay
            && forall i :: 0 <= i < j ==> s.arrival[order[i]] < s.maxDelay)
  }

  /** One iteration of the loop: record the arrival time of `n` and raise
      the maximum, and the node holding it, only on a strictly larger value. */
  function Step(g: Graph, s: Scan, n: Id): (t: Scan)
    requires Valid(g) && AllDefined(g) && n in g.nodes && n !in s.arrival
    requires forall p :: p in Preds(g, n) ==> p in s.arrival
    requires forall v {:trigger RecurrenceAt(g, s.arrival, v)} :: v in s.arrival ==> RecurrenceAt(g, s.arrival, v)
    requires forall v :: v in s.arrival ==> 0.0 <= s.arrival[v] <= s.maxDelay
    ensures n in t.arrival && t.arrival == s.arrival[n := t.arrival[n]]
    ensures forall v {:trigger RecurrenceAt(g, t.arrival, v)} :: v in t.arrival ==> RecurrenceAt(g, t.arrival, v)
    ensures t.arrival[n] >= 0.0
    ensures t.arrival[n] > s.maxDelay ==> t.maxDelay == t.arrival[n] && t.best == Some(n)
    ensures t.arrival[n] <= s.maxDelay ==> t.maxDelay == s.maxDelay && t.best == s.best
  {
    PredsKnown(g, s.arrival, n);
    var a := Incoming(g, s.arrival, Preds(g, n)) + Delay(g, n);
    StepRecurrence(g, s.arrival, n, a);
    var arr := s.arrival[n := a];
    if a > s.maxDelay then Scan(arr, a, Some(n)) else Scan(arr, s.maxDelay, s.best)
  }

  /** The producers of a node whose producers are all processed are known. */
  lemma PredsKnown(g: Graph, arr: map<Id, real>, n: Id)
    requires Valid(g) && AllDefined(g)
    requires forall p :: p in Preds(g, n) ==> p in arr
    ensures Known(g, arr, Preds(g, n))
  {
  }

  /** Recording the arrival time the recurrence gives a new node keeps the
      recurrence everywhere, and the new arrival time is nonnegative. */
  lemma StepRecurrence(g: Graph, arr: map<Id, real>, n: Id, a: real)
    requires Valid(g) && n in g.info && n !in arr
    requires Known(g, arr, Preds(g, n))
    requires forall v {:trigger RecurrenceAt(g, arr, v)} :: v in arr ==> RecurrenceAt(g, arr, v)
    requires forall v :: v in arr ==> 0.0 <= arr[v]
    requires a == Incoming(g, arr, Preds(g, n)) + Delay(g, n)
    ensures a >= 0.0
    ensures forall v {:trigger RecurrenceAt(g, arr[n := a], v)} :: v in arr[n := a] ==> RecurrenceAt(g, arr[n := a], v)
  {
    var ps := Preds(g, n);
    IncomingNonNegative(g, arr, ps);
    FoldStep(g, arr, n, a);
    IncomingUpdate(g, arr, ps, n, a);
    assert RecurrenceAt(g, arr[n := a], n);
  }

  /** The forward pass of `find_critical_path` over the first `k` nodes of
      a topological order. */
  function Fold(g: Graph, order: seq<Id>, k: nat): (s: Scan)
    requires Valid(g) && AllDefined(g) && IsTopoOrder(g, order) && k <= |order|
    ensures FoldFacts(g, order, k, s)
  {
    if k == 0 then Scan(map[], 0.0, None)
    else
      var s := Fold(g, order, k - 1);
      FoldReady(g, order, k, s);
      var t := Step(g, s, order[k - 1]);
      FoldExtend(g, order, k, s, t);
      t
  }

  /** The next node of the order is new and all of its producers are processed. */
  lemma FoldReady(g: Graph, order: seq<Id>, k: nat, s: Scan)
    requires Valid(g) && IsTopoOrder(g, order) && 0 < k <= |order|
    requires forall v :: v in s.arrival <==> v in order[..k - 1]
    ensures order[k - 1] in g.nodes && order[k - 1] !in s.arrival
    ensures forall p :: p in Preds(g, order[k - 1]) ==> p in s.arrival
  {
    PredsEarlier(g, order, k - 1);
    assert forall i :: 0 <= i < k - 1 ==> order[i] != order[k - 1];
  }

  /** One step of the pass carries its guarantees from `k - 1` to `k` nodes. */
  lemma FoldExtend(g: Graph, order: seq<Id>, k: nat, s: Scan, t: Scan)
    requires Valid(g) && 0 < k <= |order|
    requires FoldFacts(g, order, k - 1, s)
    requires order[k - 1] !in s.arrival
    requires order[k - 1] in t.arrival && t.arrival == s.arrival[order[k - 1] := t.arrival[order[k - 1]]]
    requires forall v {:trigger RecurrenceAt(g, t.arrival, v)} :: v in t.arrival ==> RecurrenceAt(g, t.arrival, v)
    requires t.arrival[order[k - 1]] >= 0.0
    requires t.arrival[order[k - 1]] > s.maxDelay ==> t.maxDelay == t.arrival[order[k - 1]] && t.best == Some(order[k - 1])
    requires t.arrival[order[k - 1]] <= s.maxDelay ==> t.maxDelay == s.maxDelay && t.best == s.best
    ensures FoldFacts(g, order, k, t)
  {
    var n := order[k - 1];
    ExtendKeys(order, k, s.arrival, t.arrival);
    if t.best != s.best {
      ExtendBest(order, k, s, t);
    } else if t.best.Some? {
      var j :| 0 <= j < k - 1 && order[j] == s.best.value
        && s.arrival[order[j]] == s.maxDelay
        && forall i :: 0 <= i < j ==> s.arrival[order[i]] < s.maxDelay;
      assert t.arrival[order[j]] == t.maxDelay;
    }
  }

  /** Recording the next node of the order extends the processed prefix by it,
      and leaves the arrival times of the earlier nodes unchanged. */
  lemma ExtendKeys(order: seq<Id>, k: nat, a: map<Id, real>, b: map<Id, real>)
    requires 0 < k <= |order|
    requires forall v :: v in a <==> v in order[..k - 1]
    requires order[k - 1] !in a
    requires order[k - 1] in b && b == a[order[k - 1] := b[order[k - 1]]]
    ensures forall v :: v in b <==> v in order[..k]
    ensures forall i :: 0 <= i < k - 1 ==> order[i] in a && b[order[i]] == a[order[i]]
  {
    assert order[..k] == order[..k - 1] + [order[k - 1]];
    forall i | 0 <= i < k - 1
      ensures order[i] in a
    {
      assert order[i] in order[..k - 1];
    }
  }

  /** A strictly larger arrival makes the new node the first to attain the maximum. */
  lemma ExtendBest(order: seq<Id>, k: nat, s: Scan, t: Scan)
    requires 0 < k <= |order|
    requires forall i :: 0 <= i < k - 1 ==>
      (order[i] in s.arrival && order[i] in t.arrival
       && t.arrival[order[i]] == s.arrival[order[i]] && s.arrival[order[i]] <= s.maxDelay)
    requires order[k - 1] in t.arrival
    requires t.arrival[order[k - 1]] > s.maxDelay ==> t.maxDelay == t.arrival[order[k - 1]] && t.best == Some(order[k - 1])
    requires t.arrival[order[k - 1]] <= s.maxDelay ==> t.maxDelay == s.maxDelay && t.best == s.best
    requires t.best != s.best
    ensures t.best == Some(order[k - 1]) && t.maxDelay > s.maxDelay
    ensures exists j :: (0 <= j < k && order[j] == t.best.value
      && t.arrival[order[j]] == t.maxDelay
      && forall i :: 0 <= i < j ==> t.arrival[order[i]] < t.maxDelay)
  {
    assert forall i :: 0 <= i < k - 1 ==> t.arrival[order[i]] < t.maxDelay;
  }

  /** Updating the entry of a node outside `ps` leaves `Incoming` over `ps` unchanged. */
  lemma IncomingUpdate(g: Graph, arr: map<Id, real>, ps: seq<Id>, n: Id, a: real)
    requires Known(g, arr, ps) && n !in ps
    ensures Known(g, arr[n := a], ps)
    ensures Incoming(g, arr[n := a], ps) == Incoming(g, arr, ps)
  {
    IncomingFrame(g, arr, arr[n := a], ps);
  }

  /** Recording a new node keeps the recurrence at every processed node. */
  lemma FoldStep(g: Graph, arr: map<Id, real>, n: Id, a: real)
    requires Valid(g) && n !in arr
    requires forall v {:trigger RecurrenceAt(g, arr, v)} :: v in arr ==> RecurrenceAt(g, arr, v)
    ensures forall v {:trigger RecurrenceAt(g, arr[n := a], v)} :: v in arr ==> RecurrenceAt(g, arr[n := a], v)
  {
    forall v | v in arr
      ensures RecurrenceAt(g, arr[n := a], v)
    {
      assert RecurrenceAt(g, arr, v);
      IncomingUpdate(g, arr, Preds(g, v), n, a);
    }
  }

  /** With nonnegative arrival times and delays, the incoming value is nonnegative. */
  lemma IncomingNonNegative(g: Graph, arr: map<Id, real>, ps: seq<Id>)
    requires Valid(g) && Known(g, arr, ps)
    requires forall p :: p in ps ==> arr[p] >= 0.0
    ensures Incoming(g, arr, ps) >= 0.0
  {
    var m := Incoming(g, arr, ps);
    if ps != [] {
      var p :| p in ps && Contribution(g, arr, p) == m;
      assert Delay(g, p) >= 0.0;
    }
  }

  /** The first node of `ps` whose contribution equals `target`. */
  function FirstAttaining(g: Graph, arr: map<Id, real>, ps: seq<Id>, target: real): (p: Id)
    requires Known(g, arr, ps)
    requires exists q :: q in ps && Contribution(g, arr, q) == target
    ensures p in ps && Contribution(g, arr, p) == target
  {
    if Contribution(g, arr, ps[0]) == target then ps[0]
    else
      assert forall q :: q in ps ==> q == ps[0] || q in ps[1..];
      FirstAttaining(g, arr, ps[1..], target)
  }

  /** `c` is a walk from a source in which every node is fed by its
      predecessor on the walk with a largest contribution. */
  ghost predicate CriticalChain(g: Graph, arr: map<Id, real>, c: seq<Id>)
    requires Valid(g)
  {
    && |c| >= 1
    && (forall i :: 0 <= i < |c| ==> c[i] in g.nodes && c[i] in g.info && c[i] in arr)
    && Preds(g, c[0]) == []
    && forall i :: 0 <= i < |c| - 1 ==> MaxStep(g, arr, c[i], c[i + 1])
  }

  /** `u` feeds `v` and its contribution is the largest `v` receives. */
  ghost predicate MaxStep(g: Graph, arr: map<Id, real>, u: Id, v: Id)
    requires Valid(g)
  {
    && (u, v) in g.edges
    && u in arr && u in g.info
    && Known(g, arr, Preds(g, v))
    && Contribution(g, arr, u) == Incoming(g, arr, Preds(g, v))
  }

  /** The critical path ending at `v`: step back through the first
      predecessor (in insertion order) with a largest contribution until a
      source is reached. The topological order only bounds the walk. */
  function BackWalk(g: Graph, arr: map<Id, real>, ghost order: seq<Id>, v: Id): (c: seq<Id>)
    requires Valid(g) && AllDefined(g) && IsTopoOrder(g, order)
    requires forall n :: n in g.nodes ==> n in arr
    requires v in g.nodes
    ensures CriticalChain(g, arr, c) && c[|c| - 1] == v
    decreases IndexOf(order, v)
  {
    var ps := Preds(g, v);
    AllKnown(g, arr, v);
    if ps == [] then
      SourceChain(g, arr, v);
      [v]
    else
      var p := FirstAttaining(g, arr, ps, Incoming(g, arr, ps));
      StepBack(g, arr, v, p);
      EdgeClimbs(g, order, p, v);
      var c := BackWalk(g, arr, order, p);
      ChainExtend(g, arr, c, v);
      c + [v]
  }

  /** Once every node has an arrival time, every producer list is known. */
  lemma AllKnown(g: Graph, arr: map<Id, real>, v: Id)
    requires Valid(g) && AllDefined(g) && forall n :: n in g.nodes ==> n in arr
    ensures Known(g, arr, Preds(g, v))
  {
  }

  /** A source on its own is a critical chain. */
  lemma SourceChain(g: Graph, arr: map<Id, real>, v: Id)
    requires Valid(g) && v in g.nodes && v in g.info && v in arr && Preds(g, v) == []
    ensures CriticalChain(g, arr, [v])
  {
  }

  /** A producer with the largest contribution is a maximal step into `v`. */
  lemma StepBack(g: Graph, arr: map<Id, real>, v: Id, p: Id)
    requires Valid(g) && AllDefined(g) && Known(g, arr, Preds(g, v))
    requires p in Preds(g, v) && Contribution(g, arr, p) == Incoming(g, arr, Preds(g, v))
    ensures p in g.nodes && MaxStep(g, arr, p, v)
  {
  }

  /** An edge goes forward in a topological order. */
  lemma EdgeClimbs(g: Graph, order: seq<Id>, u: Id, v: Id)
    requires Valid(g) && IsTopoOrder(g, order) && (u, v) in g.edges
    ensures IndexOf(order, u) < IndexOf(order, v)
  {
    var i, j := IndexOf(order, u), IndexOf(order, v);
    assert (order[i], order[j]) in g.edges;
  }

  /** A critical chain extends by a node its last node feeds maximally. */
  lemma ChainExtend(g: Graph, arr: map<Id, real>, c: seq<Id>, v: Id)
    requires Valid(g) && CriticalChain(g, arr, c)
    requires v in g.nodes && v in g.info && v in arr
    requires MaxStep(g, arr, c[|c| - 1], v)
    ensures CriticalChain(g, arr, c + [v])
  {
    var c' := c + [v];
    assert forall k :: 0 <= k < |c| ==> c'[k] == c[k];
    assert forall k :: 0 <= k < |c| - 1 ==> MaxStep(g, arr, c'[k], c'[k + 1]);
  }

  /** Sum of the delays of the listed nodes. */
  function Sum(g: Graph, ns: seq<Id>): real
    requires forall k :: 0 <= k < |ns| ==> ns[k] in g.info
  {
    if ns == [] then 0.0 else Sum(g, ns[..|ns| - 1]) + Delay(g, ns[|ns| - 1])
  }

  /** The weight the recurrence gives a walk: every node but the last
      counted twice, the last once. */
  function DoubledWeight(g: Graph, c: seq<Id>): real
    requires c != [] && forall k :: 0 <= k < |c| ==> c[k] in g.info
  {
    2.0 * Sum(g, c[..|c| - 1]) + Delay(g, c[|c| - 1])
  }

  /** Dropping the last node of a critical chain leaves a critical chain. */
  lemma ChainPrefix(g: Graph, arr: map<Id, real>, c: seq<Id>)
    requires Valid(g) && CriticalChain(g, arr, c) && |c| >= 2
    ensures CriticalChain(g, arr, c[..|c| - 1])
  {
    var c' := c[..|c| - 1];
    assert forall i :: 0 <= i < |c'| ==> c'[i] == c[i];
  }

  /** The doubled weight of a walk of at least two nodes, from that of the
      walk without its last node. */
  lemma DoubledWeightSnoc(g: Graph, c: seq<Id>)
    requires |c| >= 2 && forall k :: 0 <= k < |c| ==> c[k] in g.info
    ensures DoubledWeight(g, c) == DoubledWeight(g, c[..|c| - 1]) + Delay(g, c[|c| - 2]) + Delay(g, c[|c| - 1])
  {
    var k := |c| - 1;
    assert c[..k][..k - 1] == c[..k - 1];
    assert c[..k][k - 1] == c[k - 1];
  }

  /** The recurrence double-counts: along a critical chain v0..vk,
      arrival(vk) = 2 * (d(v0) + ... + d(v(k-1))) + d(vk). */
  lemma {:induction false} ChainArrivalDoubles(g: Graph, arr: map<Id, real>, c: seq<Id>)
    requires Valid(g) && AllDefined(g) && Recurrence(g, arr) && CriticalChain(g, arr, c)
    ensures arr[c[|c| - 1]] == DoubledWeight(g, c)
  {
    var k := |c| - 1;
    assert RecurrenceAt(g, arr, c[k]);
    if k > 0 {
      ChainPrefix(g, arr, c);
      ChainArrivalDoubles(g, arr, c[..k]);
      assert c[..k][k - 1] == c[k - 1];
      assert MaxStep(g, arr, c[k - 1], c[k]);
      DoubledWeightSnoc(g, c);
    } else {
      assert c[..0] == [];
    }
  }

  /** A directed walk through the graph. */
  ghost predicate Walk(g: Graph, c: seq<Id>) {
    && |c| >= 1
    && (forall i :: 0 <= i < |c| ==> c[i] in g.nodes)
    && forall i :: 0 <= i < |c| - 1 ==> (c[i], c[i + 1]) in g.edges
  }

  /** Dropping the last node of a walk leaves a walk. */
  lemma WalkPrefix(g: Graph, c: seq<Id>)
    requires Walk(g, c) && |c| >= 2
    ensures Walk(g, c[..|c| - 1])
  {
    var c' := c[..|c| - 1];
    assert forall i :: 0 <= i < |c'| ==> c'[i] == c[i];
  }

  /** Arrival times that satisfy the recurrence bound the doubled weight of
      every walk ending at the node. */
  lemma {:induction false} WalkBelowArrival(g: Graph, arr: map<Id, real>, c: seq<Id>)
    requires Valid(g) && AllDefined(g) && Recurrence(g, arr) && Walk(g, c)
    requires forall n :: n in g.nodes ==> arr[n] >= 0.0
    ensures forall i :: 0 <= i < |c| ==> c[i] in g.info
    ensures DoubledWeight(g, c) <= arr[c[|c| - 1]]
  {
    var k := |c| - 1;
    var ps := Preds(g, c[k]);
    assert RecurrenceAt(g, arr, c[k]);
    if k == 0 {
      assert c[..0] == [];
      if ps != [] {
        var p :| p in ps && Contribution(g, arr, p) == Incoming(g, arr, ps);
        assert Delay(g, p) >= 0.0;
      }
    } else {
      WalkPrefix(g, c);
      WalkBelowArrival(g, arr, c[..k]);
      assert c[..k][k - 1] == c[k - 1];
      assert c[k - 1] in ps;
      DoubledWeightSnoc(g, c);
    }
  }

  /** A critical chain is a walk. */
  lemma ChainIsWalk(g: Graph, arr: map<Id, real>, c: seq<Id>)
    requires Valid(g) && CriticalChain(g, arr, c)
    ensures Walk(g, c)
  {
    forall i | 0 <= i < |c| - 1
      ensures (c[i], c[i + 1]) in g.edges
    {
      assert MaxStep(g, arr, c[i], c[i + 1]);
    }
  }

  /** No walk outweighs a bound on all arrival times that satisfy the recurrence. */
  lemma WalksBounded(g: Graph, arr: map<Id, real>, m: real)
    requires Valid(g) && AllDefined(g) && Recurrence(g, arr)
    requires forall n :: n in g.nodes ==> 0.0 <= arr[n] <= m
    ensures forall c :: Walk(g, c) ==> DoubledWeight(g, c) <= m
  {
    forall c | Walk(g, c)
      ensures DoubledWeight(g, c) <= m
    {
      WalkBelowArrival(g, arr, c);
    }
  }

  /** Arrival times that satisfy the recurrence on an acyclic graph are
      nonnegative, by induction along a topological order. */
  lemma {:induction false} RecurrenceNonNegative(g: Graph, arr: map<Id, real>, order: seq<Id>, k: nat)
    requires Valid(g) && AllDefined(g) && Recurrence(g, arr) && IsTopoOrder(g, order)
    requires k <= |order|
    ensures forall i :: 0 <= i < k ==> arr[order[i]] >= 0.0
  {
    if k > 0 {
      RecurrenceNonNegative(g, arr, order, k - 1);
      var n := order[k - 1];
      var ps := Preds(g, n);
      assert RecurrenceAt(g, arr, n);
      PredsEarlier(g, order, k - 1);
      if ps != [] {
        var p :| p in ps && Contribution(g, arr, p) == Incoming(g, arr, ps);
        assert p in order[..k - 1];
        assert Delay(g, p) >= 0.0;
      }
    }
  }

  /** Two solutions of the recurrence agree on an acyclic graph, by
      induction along a topological order. */
  lemma {:induction false} RecurrenceAgree(g: Graph, a1: map<Id, real>, a2: map<Id, real>, order: seq<Id>, k: nat)
    requires Valid(g) && AllDefined(g) && Recurrence(g, a1) && Recurrence(g, a2)
    requires IsTopoOrder(g, order) && k <= |order|
    ensures forall i :: 0 <= i < k ==> a1[order[i]] == a2[order[i]]
  {
    if k > 0 {
      RecurrenceAgree(g, a1, a2, order, k - 1);
      var n := order[k - 1];
      PredsEarlier(g, order, k - 1);
      forall p | p in Preds(g, n)
        ensures a1[p] == a2[p]
      {
        assert p in order[..k - 1];
      }
      AgreeAt(g, a1, a2, n);
    }
  }

  /** Two solutions that agree on the producers of `n` agree on `n`. */
  lemma AgreeAt(g: Graph, a1: map<Id, real>, a2: map<Id, real>, n: Id)
    requires Valid(g) && n in g.nodes && Recurrence(g, a1) && Recurrence(g, a2)
    requires forall p :: p in Preds(g, n) ==> p in a1 && p in a2 && a1[p] == a2[p]
    ensures a1[n] == a2[n]
  {
    assert RecurrenceAt(g, a1, n) && RecurrenceAt(g, a2, n);
    IncomingFrame(g, a1, a2, Preds(g, n));
  }

  /** On an acyclic graph the recurrence has exactly one solution, so the
      arrival times do not depend on which topological order is used. */
  lemma RecurrenceUnique(g: Graph, a1: map<Id, real>, a2: map<Id, real>)
    requires Valid(g) && AllDefined(g) && Acyclic(g)
    requires Recurrence(g, a1) && Recurrence(g, a2)
    ensures forall n :: n in g.nodes ==> a1[n] == a2[n]
    ensures a1.Keys == Elems(g.nodes) && a2.Keys == Elems(g.nodes) ==> a1 == a2
  {
    var order :| IsTopoOrder(g, order);
    RecurrenceAgree(g, a1, a2, order, |order|);
    forall n | n in g.nodes
      ensures a1[n] == a2[n]
    {
      var i :| 0 <= i < |order| && order[i] == n;
    }
    if a1.Keys == Elems(g.nodes) && a2.Keys == Elems(g.nodes) {
      assert forall n :: n in a1 ==> a1[n] == a2[n];
    }
  }

  /** The first node of `order` that is not defined, if any. */
  function FirstUndefined(g: Graph, order: seq<Id>): (r: Option<Id>)
    ensures r.None? <==> forall k :: 0 <= k < |order| ==> order[k] in g.info
    ensures r.Some? ==>
              exists j :: 0 <= j < |order| && order[j] == r.value && r.value !in g.info
                && forall i :: 0 <= i < j ==> order[i] in g.info
  {
    if order == [] then None
    else if order[0] !in g.info then Some(order[0])
    else
      var r := FirstUndefined(g, order[1..]);
      assert forall k :: 0 < k < |order| ==> order[k] == order[1..][k - 1];
      r
  }

  /** The analysis of an acyclic graph whose nodes are all defined, along
      the topological order `order`. */
  function Analyse(g: Graph, order: seq<Id>): (rep: Report)
    requires Valid(g) && AllDefined(g) && IsTopoOrder(g, order)
    ensures Recurrence(g, rep.arrival) && rep.arrival.Keys == Elems(g.nodes)
    ensures forall n :: n in g.nodes ==> 0.0 <= rep.arrival[n] <= rep.maxDelay
    ensures rep.path == [] <==> rep.maxDelay == 0.0
    ensures rep.path != [] ==>
              && CriticalChain(g, rep.arrival, rep.path)
              && rep.arrival[rep.path[|rep.path| - 1]] == rep.maxDelay
              && rep.maxDelay == DoubledWeight(g, rep.path)
    ensures rep.path != [] ==>
              exists j :: 0 <= j < |order| && order[j] == rep.path[|rep.path| - 1]
                && forall i :: 0 <= i < j ==> rep.arrival[order[i]] < rep.maxDelay
  {
    var s := Fold(g, order, |order|);
    FoldSolves(g, order, s);
    match s.best
    case None => Report([], s.maxDelay, s.arrival)
    case Some(b) =>
      var path := BackWalk(g, s.arrival, order, b);
      ChainArrivalDoubles(g, s.arrival, path);
      Report(path, s.maxDelay, s.arrival)
  }

  /** `find_critical_path`: fails on a cyclic graph, then on the first
      undefined node in processing order; otherwise reports the maximum
      arrival time (0 when no arrival is positive) and the critical path
      ending at the first node, in processing order, that attains it. */
  function FindCriticalPath(g: Graph): (r: Result<Report, AnalysisError>)
    requires Valid(g)
    ensures r == Err(CyclicGraph) <==> HasCycle(g)
    ensures r.Ok? <==> !HasCycle(g) && AllDefined(g)
    ensures r.Err? && r.error.MissingDelay? ==> r.error.id in g.nodes && r.error.id !in g.info
    ensures r.Ok? ==> AllDefined(g) && Recurrence(g, r.value.arrival) && r.value.arrival.Keys == Elems(g.nodes)
    ensures r.Ok? ==> forall n :: n in g.nodes ==> 0.0 <= r.value.arrival[n] <= r.value.maxDelay
    ensures r.Ok? ==> (r.value.path == [] <==> r.value.maxDelay == 0.0)
    ensures r.Ok? && r.value.path != [] ==>
              && CriticalChain(g, r.value.arrival, r.value.path)
              && r.value.arrival[r.value.path[|r.value.path| - 1]] == r.value.maxDelay
              && r.value.maxDelay == DoubledWeight(g, r.value.path)
    ensures r.Ok? && r.value.path != [] ==>
              var order := TopoSort.TopoSort(g).value;
              exists j :: 0 <= j < |order| && order[j] == r.value.path[|r.value.path| - 1]
                && forall i :: 0 <= i < j ==> r.value.arrival[order[i]] < r.value.maxDelay
  {
    match TopoSort.TopoSort(g)
    case None => Err(CyclicGraph)
    case Some(order) =>
      match FirstUndefined(g, order)
      case Some(n) => Err(MissingDelay(n))
      case None =>
        assert AllDefined(g) by {
          forall v | v in g.nodes ensures v in g.info {
            var k :| 0 <= k < |order| && order[k] == v;
          }
        }
        Ok(Analyse(g, order))
  }

  /** A missing-delay failure names the first node, in processing order,
      that has no attributes. */
  lemma MissingDelayIsFirst(g: Graph)
    requires Valid(g)
    ensures var r := FindCriticalPath(g);
      r.Err? && r.error.MissingDelay? ==>
        && TopoSort.TopoSort(g).Some?
        && var order := TopoSort.TopoSort(g).value;
           exists j :: 0 <= j < |order| && order[j] == r.error.id
             && forall i :: 0 <= i < j ==> order[i] in g.info
  {
  }

  /** Maximality: no walk in the graph has a larger doubled weight than
      the reported maximum, and the reported path attains it. */
  lemma CriticalPathIsLongest(g: Graph)
    requires Valid(g) && FindCriticalPath(g).Ok?
    ensures var rep := FindCriticalPath(g).value;
      && (forall c :: Walk(g, c) ==> DoubledWeight(g, c) <= rep.maxDelay)
      && (rep.path != [] ==> Walk(g, rep.path) && DoubledWeight(g, rep.path) == rep.maxDelay)
  {
    var rep := FindCriticalPath(g).value;
    WalksBounded(g, rep.arrival, rep.maxDelay);
    if rep.path != [] {
      ChainIsWalk(g, rep.arrival, rep.path);
    }
  }

  /** Two numbers that are each 0 or attained, and bound every value of the
      same map, are equal. */
  lemma MaximumUnique(arr: map<Id, real>, m1: real, m2: real)
    requires 0.0 <= m1 && forall v :: v in arr ==> arr[v] <= m1
    requires 0.0 <= m2 && forall v :: v in arr ==> arr[v] <= m2
    requires m1 == 0.0 || exists v :: v in arr && arr[v] == m1
    requires m2 == 0.0 || exists v :: v in arr && arr[v] == m2
    ensures m1 == m2
  {
  }

  /** The whole forward pass solves the recurrence over all nodes, and its
      maximum is 0 or attained and bounds every arrival. */
  lemma FoldSolves(g: Graph, order: seq<Id>, s: Scan)
    requires Valid(g) && AllDefined(g) && IsTopoOrder(g, order)
    requires FoldFacts(g, order, |order|, s)
    ensures Recurrence(g, s.arrival)
    ensures s.arrival.Keys == Elems(g.nodes)
    ensures forall n :: n in g.nodes ==> 0.0 <= s.arrival[n] <= s.maxDelay
    ensures s.best.Some? ==> s.best.value in g.nodes
    ensures 0.0 <= s.maxDelay
    ensures s.maxDelay == 0.0 || exists v :: v in s.arrival && s.arrival[v] == s.maxDelay
  {
    assert order[..|order|] == order;
    if s.best.Some? {
      var j :| 0 <= j < |order| && order[j] == s.best.value && s.arrival[order[j]] == s.maxDelay;
      assert order[j] in order[..|order|];
    }
  }

  /** The maximum delay and the arrival times are the same whichever
      topological order the forward pass follows. */
  lemma MaxDelayOrderIndependent(g: Graph, o1: seq<Id>, o2: seq<Id>)
    requires Valid(g) && AllDefined(g) && IsTopoOrder(g, o1) && IsTopoOrder(g, o2)
    ensures Fold(g, o1, |o1|).arrival == Fold(g, o2, |o2|).arrival
    ensures Fold(g, o1, |o1|).maxDelay == Fold(g, o2, |o2|).maxDelay
  {
    var s1, s2 := Fold(g, o1, |o1|), Fold(g, o2, |o2|);
    FoldSolves(g, o1, s1);
    FoldSolves(g, o2, s2);
    RecurrenceUnique(g, s1.arrival, s2.arrival);
    MaximumUnique(s1.arrival, s1.maxDelay, s2.maxDelay);
  }
}
