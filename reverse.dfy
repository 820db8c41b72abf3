/*
 * find_reverse_dependencies (main.py:173-178): one pass over the dict's
 * items in iteration order, keeping each key whose dependency list contains
 * the target.
 */
module ReverseIndex {
  import opened DepGraph

  /**
   * The keys among `ks` whose list in `deps` mentions `target`, in the
   * order of `ks` (defined on prefixes, as the loop consumes them).
   */
  function Dependents(ks: seq<string>, deps: map<string, seq<string>>, target: string): seq<string>
    requires forall k :: k in ks ==> k in deps
  {
    if ks == [] then []
    else
      var k := ks[|ks| - 1];
      var before := Dependents(ks[..|ks| - 1], deps, target);
      if target in deps[k] then before + [k] else before
  }

  /** The dependents are exactly the keys whose list mentions the target. */
  lemma {:induction false} DependentsExactly(ks: seq<string>, deps: map<string, seq<string>>, target: string)
    requires forall k :: k in ks ==> k in deps
    ensures forall k :: k in Dependents(ks, deps, target) <==> k in ks && target in deps[k]
  {
    if ks != [] {
      DependentsExactly(ks[..|ks| - 1], deps, target);
      assert ks == ks[..|ks| - 1] + [ks[|ks| - 1]];
    }
  }

  /**
   * The dependents keep the order of `ks`: they are a subsequence of it,
   * read through strictly increasing positions.
   */
  lemma {:induction false} DependentsInOrder(ks: seq<string>, deps: map<string, seq<string>>, target: string)
    requires forall k :: k in ks ==> k in deps
    ensures var r := Dependents(ks, deps, target);
      exists pos: seq<nat> :: |pos| == |r|
        && (forall i :: 0 <= i < |pos| ==> pos[i] < |ks| && ks[pos[i]] == r[i])
        && (forall i, j :: 0 <= i < j < |pos| ==> pos[i] < pos[j])
  {
    if ks == [] {
      var none: seq<nat> := [];
      assert |none| == 0;
    } else {
      var init := ks[..|ks| - 1];
      DependentsInOrder(init, deps, target);
      var before := Dependents(init, deps, target);
      var pos: seq<nat> :| |pos| == |before|
        && (forall i :: 0 <= i < |pos| ==> pos[i] < |init| && init[pos[i]] == before[i])
        && (forall i, j :: 0 <= i < j < |pos| ==> pos[i] < pos[j]);
      if target in deps[ks[|ks| - 1]] {
        var pos' := pos + [|ks| - 1];
        assert forall i :: 0 <= i < |pos'| ==> pos'[i] < |ks| && ks[pos'[i]] == (before + [ks[|ks| - 1]])[i];
      } else {
        assert forall i :: 0 <= i < |pos| ==> pos[i] < |ks| && ks[pos[i]] == before[i];
      }
    }
  }

  /** A key listed once in `ks` is listed at most once among its dependents. */
  lemma {:induction false} DependentsNoDup(ks: seq<string>, deps: map<string, seq<string>>, target: string)
    requires forall k :: k in ks ==> k in deps
    requires NoDup(ks)
    ensures NoDup(Dependents(ks, deps, target))
  {
    if ks != [] {
      var init := ks[..|ks| - 1];
      DependentsNoDup(init, deps, target);
      DependentsExactly(init, deps, target);
      assert ks[|ks| - 1] !in init;
    }
  }

  /**
   * `find_reverse_dependencies(graph, target)`: exactly the keys whose list
   * contains `target`, each once, in the dict's iteration order; empty when
   * no list contains it.
   */
  method FindReverseDependencies(graph: Graph, target: string) returns (reverse: seq<string>)
    requires graph.Valid()
    ensures reverse == Dependents(graph.keys, graph.deps, target)
    ensures forall k :: k in reverse <==> k in graph.deps && target in graph.deps[k]
    ensures NoDup(reverse)
    ensures reverse == [] <==> forall k :: k in graph.deps ==> target !in graph.deps[k]
  {
    reverse := [];
    for i := 0 to |graph.keys|
      invariant reverse == Dependents(graph.keys[..i], graph.deps, target)
    {
      assert graph.keys[..i + 1][..i] == graph.keys[..i];
      var pkg := graph.keys[i];
      if target in graph.deps[pkg] {
        reverse := reverse + [pkg];
      }
    }
    assert graph.keys[..|graph.keys|] == graph.keys;
    DependentsExactly(graph.keys, graph.deps, target);
    DependentsNoDup(graph.keys, graph.deps, target);
    if reverse != [] {
      assert reverse[0] in reverse;
    }
  }
}
