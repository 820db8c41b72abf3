/*
 * The dependency graph of main.py: a Python dict from package name to the
 * ordered list of its direct dependencies. A Python dict remembers insertion
 * order and keeps a key's position when its value is overwritten, so the
 * graph is a key sequence (iteration order) beside a map (the values).
 */
module DepGraph {

  /** No element occurs twice. */
  predicate NoDup<T(==)>(s: seq<T>)
  {
    forall i, j :: 0 <= i < j < |s| ==> s[i] != s[j]
  }

  /** The set of elements of a sequence. */
  function Elems(s: seq<string>): (r: set<string>)
    ensures forall x :: x in r <==> x in s
  {
    set x | x in s
  }

  /** Position of the first occurrence of `x` in `s`. */
  function IndexOf<T(==)>(s: seq<T>, x: T): (i: nat)
    requires x in s
    ensures i < |s| && s[i] == x && x !in s[..i]
  {
    if s[0] == x then 0 else 1 + IndexOf(s[1..], x)
  }

  /** An insertion-ordered dictionary from package name to dependency list. */
  datatype Graph = Graph(keys: seq<string>, deps: map<string, seq<string>>)
  {
    /** The dict invariant: each key once, and exactly the keys of the map. */
    ghost predicate Valid()
    {
      NoDup(keys) && deps.Keys == Elems(keys)
    }

    /** `graph[k] = v`: a new key goes last, an existing key keeps its place. */
    function Put(k: string, v: seq<string>): (g: Graph)
      ensures g.deps == deps[k := v]
      ensures k in deps ==> g.keys == keys
      ensures k !in deps ==> g.keys == keys + [k]
      ensures Valid() ==> g.Valid()
      ensures keys <= g.keys
    {
      Graph(if k in deps then keys else keys + [k], deps[k := v])
    }

    /** `graph.get(k, [])`: a name that is not a key has no successors. */
    function Get(k: string): (ds: seq<string>)
      ensures k in deps ==> ds == deps[k]
      ensures k !in deps ==> ds == []
    {
      if k in deps then deps[k] else []
    }

    /**
     * Every name the graph mentions: its keys and every name in a
     * dependency list.
     */
    ghost function Names(): (ns: set<string>)
      ensures Elems(keys) <= ns
      ensures forall k, d :: k in deps && d in deps[k] ==> d in ns
    {
      Elems(keys) + deps.Keys + (set k, d | k in deps && d in deps[k] :: d)
    }
  }

  /**
   * Reading back after `graph[k] = v` gives `v` under `k` and the old list
   * under every other name.
   */
  lemma PutThenGet(g: Graph, k: string, v: seq<string>, other: string)
    ensures g.Put(k, v).Get(k) == v
    ensures other != k ==> g.Put(k, v).Get(other) == g.Get(other)
  {
  }

  /** Removing more of `universe` leaves strictly fewer names. */
  lemma RemainderShrinks(universe: set<string>, small: set<string>, large: set<string>, p: string)
    requires small <= large && p in large && p !in small && p in universe
    ensures |universe - large| < |universe - small|
  {
    assert universe - large <= universe - small - {p};
    assert p in universe - small;
    assert |universe - small - {p}| == |universe - small| - 1;
    SubsetCard(universe - large, universe - small - {p});
  }

  /** Growing a subset of `universe` leaves fewer of its names outside. */
  lemma GrowthShrinksRemainder(universe: set<string>, small: set<string>, large: set<string>)
    requires small <= large <= universe && small != large
    ensures |universe - large| < |universe - small|
  {
    assert exists x :: x in large && x !in small;
    var p :| p in large && p !in small;
    RemainderShrinks(universe, small, large, p);
  }

  lemma SubsetCard(a: set<string>, b: set<string>)
    requires a <= b
    ensures |a| <= |b|
  {
    assert b == a + (b - a);
  }

  /** The empty dict `{}`. */
  const Empty: Graph := Graph([], map[])
}
