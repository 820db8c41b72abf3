/*
 * The two rules of generate_plantuml that decide what the diagram holds
 * (main.py:195, 227-238): the colour tier of every key, capped at the last of
 * the five colours, and the edges, of which only those whose target is a key
 * are drawn. Names become PlantUML aliases by replacing every `-` with `_`.
 * The text of the diagram itself is not modelled.
 */
module Diagram {
  import opened DepGraph
  import opened Layering

  /** The five tier colours, shallowest first. */
  const Colors: seq<string> := ["#FF6B6B", "#4ECDC4", "#45B7D1", "#96CEB4", "#FFEAA7"]

  /**
   * `min(levels.get(pkg, 0), len(colors) - 1)`: the deepest tier not below
   * the name's level, where an unlevelled name counts as level 0.
   */
  function Tier(levels: map<string, nat>, pkg: string): (t: nat)
    ensures t < |Colors|
    ensures pkg !in levels ==> t == 0
    ensures pkg in levels ==> t <= levels[pkg] && (t < levels[pkg] ==> t == |Colors| - 1)
  {
    var level := if pkg in levels then levels[pkg] else 0;
    if level < |Colors| - 1 then level else |Colors| - 1
  }

  /** Along a stored edge of a layering the tier grows by at most one. */
  lemma TierStepsByOne(g: Graph, root: string, levels: map<string, nat>, u: string, v: string)
    requires IsLayering(g, root, levels) && u in levels && v in g.Get(u)
    ensures Tier(levels, v) <= Tier(levels, u) + 1
  {
  }

  /** `pkg.replace("-", "_")`: the PlantUML alias of a name. */
  function NodeId(name: string): (id: string)
    ensures |id| == |name|
    ensures forall i :: 0 <= i < |name| ==> id[i] == (if name[i] == '-' then '_' else name[i])
    ensures '-' !in id
  {
    if name == [] then []
    else [if name[0] == '-' then '_' else name[0]] + NodeId(name[1..])
  }

  /** An alias has nothing left to replace. */
  lemma {:induction false} NodeIdIdempotent(name: string)
    ensures NodeId(NodeId(name)) == NodeId(name)
  {
    var id := NodeId(name);
    assert NodeId(id) == id;
  }

  /**
   * Aliases are not unique: `a-b` and `a_b` are two packages but one
   * PlantUML node.
   */
  lemma NodeIdCollides()
    ensures "a-b" != "a_b" && NodeId("a-b") == NodeId("a_b")
  {
    assert NodeId("a-b")[1] == '_';
  }

  /** One `rectangle "<name>" as <alias> #<colour>` declaration. */
  datatype Node = Node(name: string, alias: string, color: string)

  /** An arrow `<source alias> --> <target alias>` between two names. */
  datatype Edge = Edge(source: string, target: string)

  /**
   * The loop over `graph.keys()` (main.py:227-230): one node per key, in
   * iteration order, coloured by its tier.
   */
  method NodeDeclarations(graph: Graph, levels: map<string, nat>) returns (nodes: seq<Node>)
    ensures |nodes| == |graph.keys|
    ensures forall i :: 0 <= i < |nodes| ==>
      nodes[i].name == graph.keys[i] && nodes[i].alias == NodeId(graph.keys[i])
      && nodes[i].color == Colors[Tier(levels, graph.keys[i])]
    ensures forall i :: 0 <= i < |nodes| ==> graph.keys[i] !in levels ==> nodes[i].color == Colors[0]
  {
    nodes := [];
    for i := 0 to |graph.keys|
      invariant |nodes| == i
      invariant forall k :: 0 <= k < i ==>
        nodes[k] == Node(graph.keys[k], NodeId(graph.keys[k]), Colors[Tier(levels, graph.keys[k])])
    {
      var pkg := graph.keys[i];
      var level := Tier(levels, pkg);
      nodes := nodes + [Node(pkg, NodeId(pkg), Colors[level])];
    }
  }

  /** The arrows from `pkg` to the names among `ds` that are keys, in order. */
  function KeptEdges(graph: Graph, pkg: string, ds: seq<string>): seq<Edge>
  {
    if ds == [] then []
    else
      var dep := ds[|ds| - 1];
      KeptEdges(graph, pkg, ds[..|ds| - 1]) + if dep in graph.deps then [Edge(pkg, dep)] else []
  }

  /** The arrows of the keys `ks`, key by key and dependency by dependency. */
  function EdgeList(graph: Graph, ks: seq<string>): seq<Edge>
    requires forall k :: k in ks ==> k in graph.deps
  {
    if ks == [] then []
    else
      var pkg := ks[|ks| - 1];
      EdgeList(graph, ks[..|ks| - 1]) + KeptEdges(graph, pkg, graph.deps[pkg])
  }

  lemma {:induction false} KeptEdgesExactly(graph: Graph, pkg: string, ds: seq<string>)
    ensures forall e :: e in KeptEdges(graph, pkg, ds) <==> e.source == pkg && e.target in ds && e.target in graph.deps
  {
    if ds != [] {
      KeptEdgesExactly(graph, pkg, ds[..|ds| - 1]);
      assert ds == ds[..|ds| - 1] + [ds[|ds| - 1]];
    }
  }

  /**
   * The arrows are exactly the stored edges whose target is a key: a
   * dependency that is not a key is dropped.
   */
  lemma {:induction false} EdgeListExactly(graph: Graph, ks: seq<string>)
    requires forall k :: k in ks ==> k in graph.deps
    ensures forall e :: e in EdgeList(graph, ks) <==>
      e.source in ks && e.target in graph.deps[e.source] && e.target in graph.deps
  {
    if ks != [] {
      var pkg := ks[|ks| - 1];
      EdgeListExactly(graph, ks[..|ks| - 1]);
      KeptEdgesExactly(graph, pkg, graph.deps[pkg]);
      assert ks == ks[..|ks| - 1] + [pkg];
    }
  }

  /**
   * The loops over `graph.items()` and their dependency lists
   * (main.py:235-238): an arrow per stored edge whose target is a key, in
   * iteration order; no arrow ends at a name that is not a key.
   */
  method Edges(graph: Graph) returns (edges: seq<Edge>)
    requires graph.Valid()
    ensures edges == EdgeList(graph, graph.keys)
    ensures forall e :: e in edges <==>
      e.source in graph.deps && e.target in graph.deps[e.source] && e.target in graph.deps
  {
    edges := [];
    for i := 0 to |graph.keys|
      invariant edges == EdgeList(graph, graph.keys[..i])
    {
      assert graph.keys[..i + 1][..i] == graph.keys[..i];
      var pkg := graph.keys[i];
      var deps := graph.deps[pkg];
      for j := 0 to |deps|
        invariant edges == EdgeList(graph, graph.keys[..i]) + KeptEdges(graph, pkg, deps[..j])
      {
        assert deps[..j + 1][..j] == deps[..j];
        if deps[j] in graph.deps {
          edges := edges + [Edge(pkg, deps[j])];
        }
      }
      assert deps[..|deps|] == deps;
    }
    assert graph.keys[..|graph.keys|] == graph.keys;
    EdgeListExactly(graph, graph.keys);
  }
}
