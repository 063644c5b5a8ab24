/** The netlist parser: line-oriented text `<TYPE> <id> [<input-id> ...]`
    turned into a circuit graph. */
module Netlist {
  import opened Wrappers
  import opened Text
  import Delays
  import opened CircuitGraph

  /** One component definition: its type, its id, and the ids feeding it. */
  datatype Decl = Decl(kind: string, id: Id, inputs: seq<Id>)

  /** What a single line contributes. */
  datatype LineKind = Skip | Define(decl: Decl) | Malformed

  /** The (0-based) index of the first line that names a type but no id. */
  datatype ParseError = MalformedLine(line: nat)

  /** The fields of a definition are whitespace-free tokens, and the type
      does not start with the comment marker. */
  predicate WellFormedDecl(d: Decl) {
    && IsWord(d.kind)
    && d.kind[0] != '#'
    && IsWord(d.id)
    && forall k :: 0 <= k < |d.inputs| ==> IsWord(d.inputs[k])
  }

  /** A line is skipped when it is blank or a comment once stripped;
      otherwise its first token is the type, the second the id, and the
      rest the inputs. A single token is an error. */
  function ClassifyLine(line: string): (k: LineKind)
    ensures k.Define? ==> WellFormedDecl(k.decl)
  {
    var l := Strip(line);
    if l == [] || l[0] == '#' then Skip
    else
      var toks := Split(l);
      if |toks| < 2 then Malformed
      else
        SplitFirst(l);
        TokensWellFormed(toks);
        Define(Decl(toks[0], toks[1], toks[2..]))
  }

  /** At least two words, the first not a comment, make a well-formed definition. */
  lemma TokensWellFormed(toks: seq<string>)
    requires |toks| >= 2 && forall k :: 0 <= k < |toks| ==> IsWord(toks[k])
    requires IsWord(toks[0]) && toks[0][0] != '#'
    ensures WellFormedDecl(Decl(toks[0], toks[1], toks[2..]))
  {
    assert forall k :: 0 <= k < |toks| - 2 ==> toks[2..][k] == toks[k + 2];
  }

  /** A definition written out: its type, id and inputs separated by the
      given runs of whitespace (one fewer than the tokens). */
  function Render(d: Decl, seps: seq<string>): string
    requires |seps| == 1 + |d.inputs|
  {
    Join([d.kind, d.id] + d.inputs, seps)
  }

  /** A well-formed definition, written with any whitespace between its
      tokens and padded with any whitespace, reads back as itself. */
  lemma ClassifyRender(pre: string, d: Decl, seps: seq<string>, post: string)
    requires WellFormedDecl(d) && AllSpace(pre) && AllSpace(post)
    requires Separators(seps, 2 + |d.inputs|)
    ensures ClassifyLine(pre + Render(d, seps) + post) == Define(d)
  {
    var ws := [d.kind, d.id] + d.inputs;
    assert forall k :: 0 <= k < |ws| ==> IsWord(ws[k]);
    JoinTrimmed(ws, seps);
    StripPadded(pre, Render(d, seps), post);
    SplitJoin(ws, seps);
    assert ws[2..] == d.inputs;
  }

  /** Conversely, every definition line is its type, id and inputs written
      with some runs of whitespace between them and padded with whitespace:
      the fields are exactly the line's maximal runs of non-whitespace. */
  lemma DefinitionLineShape(line: string) returns (pre: string, seps: seq<string>, post: string)
    requires ClassifyLine(line).Define?
    ensures var d := ClassifyLine(line).decl;
      && AllSpace(pre) && AllSpace(post) && Separators(seps, 2 + |d.inputs|)
      && line == pre + Render(d, seps) + post
  {
    var d := ClassifyLine(line).decl;
    DefinitionTokens(line);
    pre, seps, post := PaddedTokens(line);
  }

  /** The fields of a definition are the tokens of the stripped line. */
  lemma DefinitionTokens(line: string)
    requires ClassifyLine(line).Define?
    ensures var d := ClassifyLine(line).decl;
      Split(Strip(line)) == [d.kind, d.id] + d.inputs
  {
  }

  /** A line that is not blank is its tokens joined by whitespace runs and
      padded with whitespace. */
  lemma PaddedTokens(line: string) returns (pre: string, seps: seq<string>, post: string)
    requires Strip(line) != []
    ensures AllSpace(pre) && AllSpace(post) && Separators(seps, |Split(Strip(line))|)
    ensures line == pre + Join(Split(Strip(line)), seps) + post
  {
    var l := Strip(line);
    var i, j :| 0 <= i <= j <= |line| && l == line[i..j] && AllSpace(line[..i]) && AllSpace(line[j..]);
    assert !IsSpace(l[0]);
    var p, q;
    p, seps, q := SplitDecomposes(l);
    pre, post := line[..i] + p, q + line[j..];
    PadBoth(line, i, j, p, Join(Split(l), seps), q);
  }

  /** Blank lines contribute nothing. */
  lemma ClassifyBlank(line: string)
    requires AllSpace(line)
    ensures ClassifyLine(line) == Skip
  {
  }

  /** A line whose first non-blank character is `#` is a comment. */
  lemma ClassifyComment(pre: string, rest: string)
    requires AllSpace(pre)
    ensures ClassifyLine(pre + "#" + rest) == Skip
  {
    assert pre + "#" + rest == pre + ("#" + rest);
    StripFirst(pre, "#" + rest);
  }

  /** A line holding a single (non-comment) token is malformed. */
  lemma ClassifyLoneToken(pre: string, w: string, post: string)
    requires IsWord(w) && w[0] != '#' && AllSpace(pre) && AllSpace(post)
    ensures ClassifyLine(pre + w + post) == Malformed
  {
    StripPadded(pre, w, post);
    SplitJoin([w], []);
  }

  /** The definitions among classified lines, in line order, or the index
      of the first malformed line. */
  function Collect(ks: seq<LineKind>): (r: Result<seq<Decl>, ParseError>)
    ensures r.Ok? <==> forall i :: 0 <= i < |ks| ==> !ks[i].Malformed?
    ensures r.Err? ==>
              && r.error.line < |ks|
              && ks[r.error.line].Malformed?
              && forall i :: 0 <= i < r.error.line ==> !ks[i].Malformed?
    ensures r.Ok? ==> forall d :: d in r.value <==> exists i :: 0 <= i < |ks| && ks[i] == Define(d)
  {
    if ks == [] then Ok([])
    else
      var init := ks[..|ks| - 1];
      assert forall i :: 0 <= i < |init| ==> init[i] == ks[i];
      match Collect(init)
      case Err(e) => Err(e)
      case Ok(ds) =>
        match ks[|ks| - 1]
        case Malformed => Err(MalformedLine(|ks| - 1))
        case Skip => Ok(ds)
        case Define(d) => Ok(ds + [d])
  }

  /** Collecting one more classified line. */
  lemma CollectLast(ks: seq<LineKind>, k: LineKind)
    ensures Collect(ks + [k]) ==
      match Collect(ks)
      case Err(e) => Err(e)
      case Ok(ds) =>
        match k
        case Malformed => Err(MalformedLine(|ks|))
        case Skip => Ok(ds)
        case Define(d) => Ok(ds + [d])
  {
    assert (ks + [k])[..|ks|] == ks;
  }

  /** Adds one edge from each input to `id`, in order. */
  function AddInputs(g: Graph, inputs: seq<Id>, id: Id): (r: Graph)
    requires Valid(g) && id in g.nodes
    ensures Valid(r)
    ensures r.info == g.info
    ensures forall x :: x in r.nodes <==> x in g.nodes || x in inputs
    ensures forall e :: e in r.edges <==> e in g.edges || (e.1 == id && e.0 in inputs)
    decreases |inputs|
  {
    if inputs == [] then g
    else
      var g' := AddEdge(g, inputs[0], id);
      var r := AddInputs(g', inputs[1..], id);
      assert forall x :: x in inputs <==> x == inputs[0] || x in inputs[1..];
      r
  }

  /** One definition: the node gets its type and table delay (replacing any
      earlier definition of the same id), then one edge arrives from each input. */
  function AddDecl(g: Graph, d: Decl): (r: Graph)
    requires Valid(g)
    ensures Valid(r)
    ensures d.id in r.info && r.info[d.id].kind == d.kind && r.info[d.id].delay == Delays.GetDelay(d.kind)
    ensures forall v :: v in g.info && v != d.id ==> v in r.info && r.info[v] == g.info[v]
    ensures forall v :: v in r.info <==> v in g.info || v == d.id
    ensures forall e :: e in r.edges <==> e in g.edges || (e.1 == d.id && e.0 in d.inputs)
    ensures forall v :: v in r.nodes <==> v in g.nodes || v == d.id || v in d.inputs
  {
    var c := Component(d.id, d.kind, Delays.GetDelay(d.kind));
    AddInputs(AddNode(g, c), d.inputs, d.id)
  }

  /** Some definition in `ds` has id `v`. */
  ghost predicate Defined(ds: seq<Decl>, v: Id) {
    exists i :: 0 <= i < |ds| && ds[i].id == v
  }

  /** `v` is defined or used as an input somewhere in `ds`. */
  ghost predicate Mentioned(ds: seq<Decl>, v: Id) {
    exists i :: 0 <= i < |ds| && (ds[i].id == v || v in ds[i].inputs)
  }

  /** Some definition of the consumer `e.1` lists the producer `e.0` as an input. */
  ghost predicate Wired(ds: seq<Decl>, e: Edge) {
    exists i :: 0 <= i < |ds| && ds[i].id == e.1 && e.0 in ds[i].inputs
  }

  /** `c` holds the attributes of the definition of `v` that no later definition overrides. */
  ghost predicate LastDefinition(ds: seq<Decl>, v: Id, c: Component) {
    exists i :: 0 <= i < |ds| && ds[i].id == v
      && c == Component(v, ds[i].kind, Delays.GetDelay(ds[i].kind))
      && forall j :: i < j < |ds| ==> ds[j].id != v
  }

  lemma DefinedSnoc(ds: seq<Decl>, d: Decl, v: Id)
    ensures Defined(ds + [d], v) <==> Defined(ds, v) || v == d.id
  {
    var ds' := ds + [d];
    if Defined(ds, v) {
      var i :| 0 <= i < |ds| && ds[i].id == v;
      assert ds'[i] == ds[i];
    }
    if v == d.id {
      assert ds'[|ds|] == d;
    }
    if Defined(ds', v) && v != d.id {
      var i :| 0 <= i < |ds'| && ds'[i].id == v;
      assert ds[i] == ds'[i];
    }
  }

  lemma MentionedSnoc(ds: seq<Decl>, d: Decl, v: Id)
    ensures Mentioned(ds + [d], v) <==> Mentioned(ds, v) || v == d.id || v in d.inputs
  {
    var ds' := ds + [d];
    if Mentioned(ds, v) {
      var i :| 0 <= i < |ds| && (ds[i].id == v || v in ds[i].inputs);
      assert ds'[i] == ds[i];
    }
    if v == d.id || v in d.inputs {
      assert ds'[|ds|] == d;
    }
    if Mentioned(ds', v) && v != d.id && v !in d.inputs {
      var i :| 0 <= i < |ds'| && (ds'[i].id == v || v in ds'[i].inputs);
      assert ds[i] == ds'[i];
    }
  }

  lemma WiredSnoc(ds: seq<Decl>, d: Decl, e: Edge)
    ensures Wired(ds + [d], e) <==> Wired(ds, e) || (e.1 == d.id && e.0 in d.inputs)
  {
    var ds' := ds + [d];
    if Wired(ds, e) {
      var i :| 0 <= i < |ds| && ds[i].id == e.1 && e.0 in ds[i].inputs;
      assert ds'[i] == ds[i];
    }
    if e.1 == d.id && e.0 in d.inputs {
      assert ds'[|ds|] == d;
    }
    if Wired(ds', e) && !(e.1 == d.id && e.0 in d.inputs) {
      var i :| 0 <= i < |ds'| && ds'[i].id == e.1 && e.0 in ds'[i].inputs;
      assert ds[i] == ds'[i];
    }
  }

  lemma LastDefinitionSnoc(ds: seq<Decl>, d: Decl, v: Id, c: Component)
    ensures v == d.id ==> LastDefinition(ds + [d], v, Component(v, d.kind, Delays.GetDelay(d.kind)))
    ensures v != d.id && LastDefinition(ds, v, c) ==> LastDefinition(ds + [d], v, c)
  {
    var ds' := ds + [d];
    assert ds'[|ds|] == d;
    if v != d.id && LastDefinition(ds, v, c) {
      var i :| 0 <= i < |ds| && ds[i].id == v
        && c == Component(v, ds[i].kind, Delays.GetDelay(ds[i].kind))
        && forall j :: i < j < |ds| ==> ds[j].id != v;
      assert ds'[i] == ds[i];
      assert forall j :: i < j < |ds'| ==> ds'[j].id != v by {
        forall j | i < j < |ds'|
          ensures ds'[j].id != v
        {
          if j < |ds| { assert ds'[j] == ds[j]; }
        }
      }
    }
  }

  /** The graph of a list of definitions: the nodes are the ids defined or
      referenced; the defined ones carry the attributes of their last
      definition; the edges are exactly the wires the definitions list,
      with repeats collapsed. */
  function Build(ds: seq<Decl>): (g: Graph)
    ensures Valid(g)
    ensures forall v :: v in g.info <==> Defined(ds, v)
    ensures forall v :: v in g.nodes <==> Mentioned(ds, v)
    ensures forall e :: e in g.edges <==> Wired(ds, e)
    ensures forall v :: v in g.info ==> LastDefinition(ds, v, g.info[v])
  {
    if ds == [] then Empty
    else
      var init := ds[..|ds| - 1];
      var d := ds[|ds| - 1];
      assert ds == init + [d];
      var g0 := Build(init);
      BuildStep(init, d, g0);
      AddDecl(g0, d)
  }

  /** The inductive step of `Build`: adding one more definition. */
  lemma BuildStep(init: seq<Decl>, d: Decl, g0: Graph)
    requires Valid(g0)
    requires forall v :: v in g0.info <==> Defined(init, v)
    requires forall v :: v in g0.nodes <==> Mentioned(init, v)
    requires forall e :: e in g0.edges <==> Wired(init, e)
    requires forall v :: v in g0.info ==> LastDefinition(init, v, g0.info[v])
    ensures var g := AddDecl(g0, d);
      && (forall v :: v in g.info <==> Defined(init + [d], v))
      && (forall v :: v in g.nodes <==> Mentioned(init + [d], v))
      && (forall e :: e in g.edges <==> Wired(init + [d], e))
      && (forall v :: v in g.info ==> LastDefinition(init + [d], v, g.info[v]))
  {
    var c := Component(d.id, d.kind, Delays.GetDelay(d.kind));
    var g1 := AddNode(g0, c);
    var g := AddInputs(g1, d.inputs, d.id);
    assert g == AddDecl(g0, d);
    forall v
      ensures v in g.info <==> Defined(init + [d], v)
    {
      DefinedSnoc(init, d, v);
    }
    forall v
      ensures v in g.nodes <==> Mentioned(init + [d], v)
    {
      MentionedSnoc(init, d, v);
    }
    forall e
      ensures e in g.edges <==> Wired(init + [d], e)
    {
      WiredSnoc(init, d, e);
    }
    forall v | v in g.info
      ensures LastDefinition(init + [d], v, g.info[v])
    {
      if v == d.id {
        LastDefinitionSnoc(init, d, v, c);
      } else {
        LastDefinitionSnoc(init, d, v, g0.info[v]);
      }
    }
  }

  /** `parse_circuit` over the lines of a netlist: the graph of its
      definitions, or the index of the first malformed line. */
  function ParseCircuit(lines: seq<string>): (r: Result<Graph, ParseError>)
    ensures r.Ok? <==> forall i :: 0 <= i < |lines| ==> !ClassifyLine(lines[i]).Malformed?
    ensures r.Err? ==>
              && r.error.line < |lines|
              && ClassifyLine(lines[r.error.line]).Malformed?
              && forall i :: 0 <= i < r.error.line ==> !ClassifyLine(lines[i]).Malformed?
    ensures r.Ok? ==> Valid(r.value)
  {
    match Collect(Map(ClassifyLine, lines))
    case Err(e) => Err(e)
    case Ok(ds) => Ok(Build(ds))
  }

  /** A skipped line adds no definition and causes no error. */
  lemma {:induction false} CollectIgnoresSkip(ka: seq<LineKind>, kb: seq<LineKind>)
    ensures Collect(ka + [Skip] + kb).Ok? <==> Collect(ka + kb).Ok?
    ensures Collect(ka + kb).Ok? ==> Collect(ka + [Skip] + kb) == Collect(ka + kb)
    decreases |kb|
  {
    if kb == [] {
      assert ka + [Skip] + kb == ka + [Skip] && ka + kb == ka;
      CollectLast(ka, Skip);
    } else {
      var kb' := kb[..|kb| - 1];
      var k := kb[|kb| - 1];
      assert ka + [Skip] + kb == (ka + [Skip] + kb') + [k];
      assert ka + kb == (ka + kb') + [k];
      CollectIgnoresSkip(ka, kb');
      CollectLast(ka + [Skip] + kb', k);
      CollectLast(ka + kb', k);
    }
  }

  /** Inserting a blank or comment line anywhere changes neither the
      outcome nor the graph. */
  lemma ParseIgnoresSkippedLine(a: seq<string>, l: string, b: seq<string>)
    requires ClassifyLine(l) == Skip
    ensures ParseCircuit(a + [l] + b).Ok? <==> ParseCircuit(a + b).Ok?
    ensures ParseCircuit(a + b).Ok? ==> ParseCircuit(a + [l] + b) == ParseCircuit(a + b)
  {
    var ka, kb := Map(ClassifyLine, a), Map(ClassifyLine, b);
    MapConcat(ClassifyLine, a + [l], b);
    MapConcat(ClassifyLine, a, [l]);
    MapConcat(ClassifyLine, a, b);
    assert Map(ClassifyLine, [l]) == [Skip];
    assert Map(ClassifyLine, a + [l] + b) == ka + [Skip] + kb;
    CollectIgnoresSkip(ka, kb);
  }

  /** When every referenced input is also defined, the nodes of the parsed
      graph are exactly the defined ids, and all of them carry attributes. */
  lemma ClosedNetlistNodes(ds: seq<Decl>)
    requires forall i, k :: 0 <= i < |ds| && 0 <= k < |ds[i].inputs| ==> Defined(ds, ds[i].inputs[k])
    ensures AllDefined(Build(ds))
    ensures forall v :: v in Build(ds).nodes <==> Defined(ds, v)
  {
    var g := Build(ds);
    forall v | v in g.nodes
      ensures Defined(ds, v)
    {
      var i :| 0 <= i < |ds| && (ds[i].id == v || v in ds[i].inputs);
      if ds[i].id != v {
        var k :| 0 <= k < |ds[i].inputs| && ds[i].inputs[k] == v;
      }
    }
  }

  /** The loop of `parse_circuit`, one line at a time: once the lines so
      far parse, a further skipped line changes nothing, a malformed one is
      the error, and a definition is added to the graph built so far. */
  lemma ParseAppendLine(lines: seq<string>, l: string)
    requires ParseCircuit(lines).Ok?
    ensures ClassifyLine(l) == Skip ==> ParseCircuit(lines + [l]) == ParseCircuit(lines)
    ensures ClassifyLine(l) == Malformed ==> ParseCircuit(lines + [l]) == Err(MalformedLine(|lines|))
    ensures ClassifyLine(l).Define? ==>
              ParseCircuit(lines + [l]) == Ok(AddDecl(ParseCircuit(lines).value, ClassifyLine(l).decl))
  {
    var ks, k := Map(ClassifyLine, lines), ClassifyLine(l);
    MapConcat(ClassifyLine, lines, [l]);
    assert Map(ClassifyLine, lines + [l]) == ks + [k];
    CollectLast(ks, k);
    if k.Define? {
      BuildSnoc(Collect(ks).value, k.decl);
    }
  }

  /** One more definition is added to the graph of the earlier ones. */
  lemma BuildSnoc(ds: seq<Decl>, d: Decl)
    ensures Build(ds + [d]) == AddDecl(Build(ds), d)
  {
    var s := ds + [d];
    assert s[..|s| - 1] == ds && s[|s| - 1] == d;
  }

  /** Line `l` defines `v`. */
  ghost predicate LineDefines(l: string, v: Id) {
    ClassifyLine(l).Define? && ClassifyLine(l).decl.id == v
  }

  /** Line `l` defines or uses `v`. */
  ghost predicate LineMentions(l: string, v: Id) {
    ClassifyLine(l).Define? && (ClassifyLine(l).decl.id == v || v in ClassifyLine(l).decl.inputs)
  }

  /** Line `l` defines `e.1` with `e.0` among its inputs. */
  ghost predicate LineWires(l: string, e: Edge) {
    ClassifyLine(l).Define? && ClassifyLine(l).decl.id == e.1 && e.0 in ClassifyLine(l).decl.inputs
  }

  /** The definitions collected from the lines are exactly those of the
      definition lines. */
  lemma CollectedDecls(lines: seq<string>, ds: seq<Decl>)
    requires Collect(Map(ClassifyLine, lines)) == Ok(ds)
    ensures forall d :: d in ds <==> exists i :: 0 <= i < |lines| && ClassifyLine(lines[i]) == Define(d)
  {
    var ks := Map(ClassifyLine, lines);
    forall d
      ensures d in ds <==> exists i :: 0 <= i < |lines| && ClassifyLine(lines[i]) == Define(d)
    {
      if d in ds {
        var i :| 0 <= i < |ks| && ks[i] == Define(d);
        assert ClassifyLine(lines[i]) == Define(d);
      }
      if i :| 0 <= i < |lines| && ClassifyLine(lines[i]) == Define(d) {
        assert ks[i] == Define(d);
      }
    }
  }

  lemma DefinedLines(lines: seq<string>, ds: seq<Decl>, v: Id)
    requires forall d :: d in ds <==> exists i :: 0 <= i < |lines| && ClassifyLine(lines[i]) == Define(d)
    ensures Defined(ds, v) <==> exists i :: 0 <= i < |lines| && LineDefines(lines[i], v)
  {
    if Defined(ds, v) {
      var j :| 0 <= j < |ds| && ds[j].id == v;
      assert ds[j] in ds;
      var i :| 0 <= i < |lines| && ClassifyLine(lines[i]) == Define(ds[j]);
      assert LineDefines(lines[i], v);
    }
    if i :| 0 <= i < |lines| && LineDefines(lines[i], v) {
      var d := ClassifyLine(lines[i]).decl;
      var j := IndexOf(ds, d);
    }
  }

  lemma MentionedLines(lines: seq<string>, ds: seq<Decl>, v: Id)
    requires forall d :: d in ds <==> exists i :: 0 <= i < |lines| && ClassifyLine(lines[i]) == Define(d)
    ensures Mentioned(ds, v) <==> exists i :: 0 <= i < |lines| && LineMentions(lines[i], v)
  {
    if Mentioned(ds, v) {
      var j :| 0 <= j < |ds| && (ds[j].id == v || v in ds[j].inputs);
      assert ds[j] in ds;
      var i :| 0 <= i < |lines| && ClassifyLine(lines[i]) == Define(ds[j]);
      assert LineMentions(lines[i], v);
    }
    if i :| 0 <= i < |lines| && LineMentions(lines[i], v) {
      var d := ClassifyLine(lines[i]).decl;
      var j := IndexOf(ds, d);
    }
  }

  lemma WiredLines(lines: seq<string>, ds: seq<Decl>, e: Edge)
    requires forall d :: d in ds <==> exists i :: 0 <= i < |lines| && ClassifyLine(lines[i]) == Define(d)
    ensures Wired(ds, e) <==> exists i :: 0 <= i < |lines| && LineWires(lines[i], e)
  {
    if Wired(ds, e) {
      var j :| 0 <= j < |ds| && ds[j].id == e.1 && e.0 in ds[j].inputs;
      assert ds[j] in ds;
      var i :| 0 <= i < |lines| && ClassifyLine(lines[i]) == Define(ds[j]);
      assert LineWires(lines[i], e);
    }
    if i :| 0 <= i < |lines| && LineWires(lines[i], e) {
      var d := ClassifyLine(lines[i]).decl;
      var j := IndexOf(ds, d);
    }
  }

  /** The parsed graph in terms of the netlist lines: a node for every id a
      line defines or uses, attributes exactly for the defined ids, and an
      edge for exactly each input listed on a definition line. */
  lemma ParsedGraph(lines: seq<string>)
    requires ParseCircuit(lines).Ok?
    ensures var g := ParseCircuit(lines).value;
      && (forall v :: v in g.info <==> exists i :: 0 <= i < |lines| && LineDefines(lines[i], v))
      && (forall v :: v in g.nodes <==> exists i :: 0 <= i < |lines| && LineMentions(lines[i], v))
      && (forall e :: e in g.edges <==> exists i :: 0 <= i < |lines| && LineWires(lines[i], e))
  {
    var ds := Collect(Map(ClassifyLine, lines)).value;
    CollectedDecls(lines, ds);
    forall v
      ensures Defined(ds, v) <==> exists i :: 0 <= i < |lines| && LineDefines(lines[i], v)
      ensures Mentioned(ds, v) <==> exists i :: 0 <= i < |lines| && LineMentions(lines[i], v)
    {
      DefinedLines(lines, ds, v);
      MentionedLines(lines, ds, v);
    }
    forall e
      ensures Wired(ds, e) <==> exists i :: 0 <= i < |lines| && LineWires(lines[i], e)
    {
      WiredLines(lines, ds, e);
    }
  }

  /** Redefining an id: the last definition sets the type and the delay,
      and the edges of the earlier definitions remain. */
  lemma RedefinitionWins(lines: seq<string>, l: string)
    requires ParseCircuit(lines).Ok? && ClassifyLine(l).Define?
    ensures ParseCircuit(lines + [l]).Ok?
    ensures var g, g' := ParseCircuit(lines).value, ParseCircuit(lines + [l]).value;
      var d := ClassifyLine(l).decl;
      && d.id in g'.info
      && g'.info[d.id].kind == d.kind
      && g'.info[d.id].delay == Delays.GetDelay(d.kind)
      && g.edges <= g'.edges
  {
    ParseAppendLine(lines, l);
  }
}
