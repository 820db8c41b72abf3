/*
 * build_dependency_graph (main.py:135-170): a recursive depth-first walk
 * that shares three mutable containers between all its recursive calls, the
 * `visited` set, the on-path set `path` and the output dict `graph`.
 *
 * The dependency source (fetch_apk_dependencies) is the total function
 * `lookup`. The walk terminates because every name it can reach lies in a
 * finite `universe` closed under `lookup`; the universe is ghost, since the
 * program never sees it.
 *
 * `WalkFrom` and `WalkEach` below are the reference definition of one call and
 * of its `for dep in deps` loop on a snapshot (`Walk`) of the shared state;
 * class GraphBuilder is the imperative walk, proved equal to them.
 */
module Builder {
  import opened DepGraph

  /**
   * A snapshot of the walk's shared state. `fetched` is the trace of the
   * names handed to the dependency source, in call order; the program keeps
   * no such list, it is there to state how often `lookup` is called.
   */
  datatype Walk = Walk(visited: set<string>, path: set<string>, graph: Graph, fetched: seq<string>)

  /** The state a top-level call starts from: fresh `set()`, `set()`, `{}`. */
  const Start: Walk := Walk({}, {}, Empty, [])

  /** Every dependency of a name in `universe` is in `universe`. */
  ghost predicate Closed(lookup: string -> seq<string>, universe: set<string>)
  {
    forall p, d :: p in universe && d in lookup(p) ==> d in universe
  }

  /**
   * One call `build_dependency_graph(p, ...)` on the shared state `w`:
   * a name on the current path is a cycle and its entry is reset to `[]`;
   * a visited name is left alone; a fresh name is marked visited and on the
   * path, looked up, recorded, its dependencies walked in order, and it
   * leaves the path again.
   */
  function WalkFrom(lookup: string -> seq<string>, universe: set<string>, p: string, w: Walk): (r: Walk)
    requires Closed(lookup, universe) && p in universe && w.visited <= universe
    ensures w.visited <= r.visited <= universe
    decreases |universe - w.visited|, 0
  {
    if p in w.path then
      w.(graph := w.graph.Put(p, []))
    else if p in w.visited then
      w
    else
      var deps := lookup(p);
      var entered := Walk(w.visited + {p}, w.path + {p}, w.graph.Put(p, deps), w.fetched + [p]);
      RemainderShrinks(universe, w.visited, entered.visited, p);
      var walked := WalkEach(lookup, universe, deps, 0, entered);
      walked.(path := walked.path - {p})
  }

  /** The loop `for dep in deps[i:]: build_dependency_graph(dep, ...)`. */
  function WalkEach(lookup: string -> seq<string>, universe: set<string>, deps: seq<string>, i: nat, w: Walk): (r: Walk)
    requires Closed(lookup, universe) && w.visited <= universe && i <= |deps|
    requires forall d :: d in deps ==> d in universe
    ensures w.visited <= r.visited <= universe
    decreases |universe - w.visited|, 1, |deps| - i
  {
    if i == |deps| then w
    else
      var w' := WalkFrom(lookup, universe, deps[i], w);
      SubsetCard(universe - w'.visited, universe - w.visited);
      WalkEach(lookup, universe, deps, i + 1, w')
  }

  /** What a top-level call `build_dependency_graph(root, ...)` returns. */
  function Build(lookup: string -> seq<string>, universe: set<string>, root: string): Graph
    requires Closed(lookup, universe) && root in universe
  {
    WalkFrom(lookup, universe, root, Start).graph
  }

  /**
   * The invariant the shared state keeps between calls:
   * path <= visited <= universe; the dict is well formed and its keys are
   * exactly the visited names; every visited name was looked up exactly
   * once; each entry is the looked-up list or the `[]` a cycle left there;
   * and every dependency of a name that has left the path has been visited.
   */
  ghost predicate Inv(lookup: string -> seq<string>, universe: set<string>, w: Walk)
  {
    && w.path <= w.visited <= universe
    && w.graph.Valid()
    && w.graph.deps.Keys == w.visited
    && NoDup(w.fetched) && Elems(w.fetched) == w.visited
    && (forall k :: k in w.graph.deps ==> w.graph.deps[k] == lookup(k) || w.graph.deps[k] == [])
    && (forall k, d :: k in w.visited && k !in w.path && d in lookup(k) ==> d in w.visited)
  }

  lemma StartInv(lookup: string -> seq<string>, universe: set<string>)
    ensures Inv(lookup, universe, Start)
  {
  }

  /** The cycle branch writes `[]` under a key that is already there. */
  lemma CycleKeepsInv(lookup: string -> seq<string>, universe: set<string>, p: string, w: Walk)
    requires Inv(lookup, universe, w) && p in w.path
    ensures Inv(lookup, universe, w.(graph := w.graph.Put(p, [])))
    ensures w.graph.Put(p, []).keys == w.graph.keys
  {
  }

  /** Entering a fresh name: mark it, look it up, record the result. */
  lemma EnterKeepsInv(lookup: string -> seq<string>, universe: set<string>, p: string, w: Walk)
    requires Inv(lookup, universe, w) && p in universe && p !in w.visited
    ensures Inv(lookup, universe, Walk(w.visited + {p}, w.path + {p}, w.graph.Put(p, lookup(p)), w.fetched + [p]))
  {
    var e := Walk(w.visited + {p}, w.path + {p}, w.graph.Put(p, lookup(p)), w.fetched + [p]);
    assert Elems(e.fetched) == Elems(w.fetched) + {p};
    assert NoDup(e.fetched) by {
      forall i, j | 0 <= i < j < |e.fetched| ensures e.fetched[i] != e.fetched[j] {
        if j == |w.fetched| {
          assert e.fetched[i] in Elems(w.fetched);
        }
      }
    }
  }

  /** Leaving a name whose dependencies have all been visited. */
  lemma LeaveKeepsInv(lookup: string -> seq<string>, universe: set<string>, p: string, w: Walk)
    requires Inv(lookup, universe, w) && p in w.path
    requires forall d :: d in lookup(p) ==> d in w.visited
    ensures Inv(lookup, universe, w.(path := w.path - {p}))
  {
  }

  /** One call restores `path` and leaves the entered name visited. */
  lemma {:induction false} WalkFromRestoresPath(lookup: string -> seq<string>, universe: set<string>, p: string, w: Walk)
    requires Closed(lookup, universe) && p in universe && w.path <= w.visited <= universe
    ensures var r := WalkFrom(lookup, universe, p, w);
      r.path == w.path && p in r.visited
    decreases |universe - w.visited|, 0
  {
    if p !in w.path && p !in w.visited {
      var deps := lookup(p);
      var entered := Walk(w.visited + {p}, w.path + {p}, w.graph.Put(p, deps), w.fetched + [p]);
      RemainderShrinks(universe, w.visited, entered.visited, p);
      WalkEachRestoresPath(lookup, universe, deps, 0, entered);
    }
  }

  /** The loop restores `path` and leaves every name it is given visited. */
  lemma {:induction false} WalkEachRestoresPath(lookup: string -> seq<string>, universe: set<string>, deps: seq<string>, i: nat, w: Walk)
    requires Closed(lookup, universe) && i <= |deps| && w.path <= w.visited <= universe
    requires forall d :: d in deps ==> d in universe
    ensures var r := WalkEach(lookup, universe, deps, i, w);
      r.path == w.path && forall j :: i <= j < |deps| ==> deps[j] in r.visited
    decreases |universe - w.visited|, 1, |deps| - i
  {
    if i < |deps| {
      var w' := WalkFrom(lookup, universe, deps[i], w);
      WalkFromRestoresPath(lookup, universe, deps[i], w);
      assert w'.path <= w'.visited <= universe;
      SubsetCard(universe - w'.visited, universe - w.visited);
      WalkEachRestoresPath(lookup, universe, deps, i + 1, w');
      var r := WalkEach(lookup, universe, deps, i + 1, w');
      assert r == WalkEach(lookup, universe, deps, i, w);
      forall j | i <= j < |deps|
        ensures deps[j] in r.visited
      {
        if j == i {
          assert deps[i] in w'.visited && w'.visited <= r.visited;
        }
      }
    }
  }

  /** One call only appends to the key order and to the lookup trace. */
  lemma {:induction false} WalkFromAppends(lookup: string -> seq<string>, universe: set<string>, p: string, w: Walk)
    requires Closed(lookup, universe) && p in universe && w.visited <= universe
    ensures var r := WalkFrom(lookup, universe, p, w);
      w.graph.keys <= r.graph.keys && w.fetched <= r.fetched
    decreases |universe - w.visited|, 0
  {
    if p !in w.path && p !in w.visited {
      var deps := lookup(p);
      var entered := Walk(w.visited + {p}, w.path + {p}, w.graph.Put(p, deps), w.fetched + [p]);
      RemainderShrinks(universe, w.visited, entered.visited, p);
      WalkEachAppends(lookup, universe, deps, 0, entered);
      var walked := WalkEach(lookup, universe, deps, 0, entered);
      assert w.graph.keys <= entered.graph.keys <= walked.graph.keys;
      assert w.fetched <= entered.fetched <= walked.fetched;
    }
  }

  /** The loop only appends to the key order and to the lookup trace. */
  lemma {:induction false} WalkEachAppends(lookup: string -> seq<string>, universe: set<string>, deps: seq<string>, i: nat, w: Walk)
    requires Closed(lookup, universe) && i <= |deps| && w.visited <= universe
    requires forall d :: d in deps ==> d in universe
    ensures var r := WalkEach(lookup, universe, deps, i, w);
      w.graph.keys <= r.graph.keys && w.fetched <= r.fetched
    decreases |universe - w.visited|, 1, |deps| - i
  {
    if i < |deps| {
      var w' := WalkFrom(lookup, universe, deps[i], w);
      SubsetCard(universe - w'.visited, universe - w.visited);
      WalkFromAppends(lookup, universe, deps[i], w);
      WalkEachAppends(lookup, universe, deps, i + 1, w');
      var r := WalkEach(lookup, universe, deps, i + 1, w');
      assert r == WalkEach(lookup, universe, deps, i, w);
      assert w.graph.keys <= w'.graph.keys <= r.graph.keys;
      assert w.fetched <= w'.fetched <= r.fetched;
    }
  }

  /** One call keeps the invariant. */
  lemma {:induction false} WalkFromKeepsInv(lookup: string -> seq<string>, universe: set<string>, p: string, w: Walk)
    requires Closed(lookup, universe) && p in universe && Inv(lookup, universe, w)
    ensures Inv(lookup, universe, WalkFrom(lookup, universe, p, w))
    decreases |universe - w.visited|, 0
  {
    if p in w.path {
      CycleKeepsInv(lookup, universe, p, w);
    } else if p !in w.visited {
      var deps := lookup(p);
      var entered := Walk(w.visited + {p}, w.path + {p}, w.graph.Put(p, deps), w.fetched + [p]);
      RemainderShrinks(universe, w.visited, entered.visited, p);
      var walked := WalkEach(lookup, universe, deps, 0, entered);
      assert Inv(lookup, universe, walked) && p in walked.path && forall d :: d in deps ==> d in walked.visited by {
        EnterKeepsInv(lookup, universe, p, w);
        WalkEachKeepsInv(lookup, universe, deps, 0, entered);
        WalkEachRestoresPath(lookup, universe, deps, 0, entered);
        forall d | d in deps ensures d in walked.visited {
          var j :| 0 <= j < |deps| && deps[j] == d;
        }
      }
      LeaveKeepsInv(lookup, universe, p, walked);
    }
  }

  /** The loop keeps the invariant. */
  lemma {:induction false} WalkEachKeepsInv(lookup: string -> seq<string>, universe: set<string>, deps: seq<string>, i: nat, w: Walk)
    requires Closed(lookup, universe) && i <= |deps| && Inv(lookup, universe, w)
    requires forall d :: d in deps ==> d in universe
    ensures Inv(lookup, universe, WalkEach(lookup, universe, deps, i, w))
    decreases |universe - w.visited|, 1, |deps| - i
  {
    if i < |deps| {
      var w' := WalkFrom(lookup, universe, deps[i], w);
      SubsetCard(universe - w'.visited, universe - w.visited);
      WalkFromKeepsInv(lookup, universe, deps[i], w);
      WalkEachKeepsInv(lookup, universe, deps, i + 1, w');
    }
  }

  /**
   * A top-level call ends with an empty path; the dict's first key is the
   * root and its keys are exactly the visited names; every name was looked
   * up at most once, and exactly the keys were looked up; every entry is the
   * looked-up list or `[]`; and every dependency the source reported for a
   * key is itself a key.
   */
  lemma BuildResult(lookup: string -> seq<string>, universe: set<string>, root: string)
    requires Closed(lookup, universe) && root in universe
    ensures var r := WalkFrom(lookup, universe, root, Start);
      && r.path == {}
      && r.graph.Valid()
      && |r.graph.keys| > 0 && r.graph.keys[0] == root
      && r.graph.deps.Keys == r.visited
      && NoDup(r.fetched) && Elems(r.fetched) == r.graph.deps.Keys
      && (forall k :: k in r.graph.deps ==> r.graph.deps[k] == lookup(k) || r.graph.deps[k] == [])
      && (forall k, d :: k in r.graph.deps && d in lookup(k) ==> d in r.graph.deps)
  {
    var r := WalkFrom(lookup, universe, root, Start);
    assert Inv(lookup, universe, r) && r.path == {} by {
      StartInv(lookup, universe);
      WalkFromKeepsInv(lookup, universe, root, Start);
      WalkFromRestoresPath(lookup, universe, root, Start);
    }
    assert |r.graph.keys| > 0 && r.graph.keys[0] == root by {
      // the first name the walk records is the root
      var entered := Walk(Start.visited + {root}, Start.path + {root}, Start.graph.Put(root, lookup(root)), Start.fetched + [root]);
      RemainderShrinks(universe, Start.visited, entered.visited, root);
      WalkEachAppends(lookup, universe, lookup(root), 0, entered);
      assert r.graph == WalkEach(lookup, universe, lookup(root), 0, entered).graph;
      assert [root] <= r.graph.keys;
    }
  }

  /** `s` follows the dependency source: each name lists the next one. */
  ghost predicate IsChain(lookup: string -> seq<string>, s: seq<string>)
  {
    forall i :: 0 <= i < |s| - 1 ==> s[i + 1] in lookup(s[i])
  }

  /** `b` is reachable from `a` in zero or more dependency steps. */
  ghost predicate Reaches(lookup: string -> seq<string>, a: string, b: string)
  {
    exists s :: |s| > 0 && IsChain(lookup, s) && s[0] == a && s[|s| - 1] == b
  }

  /** `b` is reachable from `a` in one or more dependency steps. */
  ghost predicate LeadsTo(lookup: string -> seq<string>, a: string, b: string)
  {
    exists c :: c in lookup(a) && Reaches(lookup, c, b)
  }

  /** `k` depends on itself through the source: it lies on a cycle. */
  ghost predicate OnCycle(lookup: string -> seq<string>, k: string)
  {
    LeadsTo(lookup, k, k)
  }

  lemma ReachesRefl(lookup: string -> seq<string>, a: string)
    ensures Reaches(lookup, a, a)
  {
    assert IsChain(lookup, [a]);
  }

  /** A reachable name's dependencies are reachable. */
  lemma ReachesStep(lookup: string -> seq<string>, a: string, b: string, c: string)
    requires Reaches(lookup, a, b) && c in lookup(b)
    ensures Reaches(lookup, a, c)
  {
    var s :| |s| > 0 && IsChain(lookup, s) && s[0] == a && s[|s| - 1] == b;
    var t := s + [c];
    assert forall i :: 0 <= i < |s| ==> t[i] == s[i];
    assert IsChain(lookup, t);
  }

  lemma LeadsToStep(lookup: string -> seq<string>, a: string, b: string, c: string)
    requires LeadsTo(lookup, a, b) && c in lookup(b)
    ensures LeadsTo(lookup, a, c)
  {
    var m :| m in lookup(a) && Reaches(lookup, m, b);
    ReachesStep(lookup, m, b, c);
  }

  /** A set closed under the source holds everything reachable from its members. */
  lemma ReachesStaysIn(lookup: string -> seq<string>, names: set<string>, a: string, b: string)
    requires a in names && forall k, d :: k in names && d in lookup(k) ==> d in names
    requires Reaches(lookup, a, b)
    ensures b in names
  {
    var s :| |s| > 0 && IsChain(lookup, s) && s[0] == a && s[|s| - 1] == b;
    var i := 0;
    while i < |s| - 1
      invariant 0 <= i < |s| && s[i] in names
    {
      assert s[i + 1] in lookup(s[i]);
      i := i + 1;
    }
  }

  /** One call visits only names reachable from `root`, given that `p` is. */
  lemma {:induction false} WalkFromReaches(lookup: string -> seq<string>, universe: set<string>, root: string, p: string, w: Walk)
    requires Closed(lookup, universe) && p in universe && w.visited <= universe
    requires Reaches(lookup, root, p) && forall v :: v in w.visited ==> Reaches(lookup, root, v)
    ensures forall v :: v in WalkFrom(lookup, universe, p, w).visited ==> Reaches(lookup, root, v)
    decreases |universe - w.visited|, 0
  {
    if p !in w.path && p !in w.visited {
      var deps := lookup(p);
      var entered := Walk(w.visited + {p}, w.path + {p}, w.graph.Put(p, deps), w.fetched + [p]);
      RemainderShrinks(universe, w.visited, entered.visited, p);
      forall d | d in deps
        ensures Reaches(lookup, root, d)
      {
        ReachesStep(lookup, root, p, d);
      }
      WalkEachReaches(lookup, universe, root, deps, 0, entered);
    }
  }

  /** The loop visits only names reachable from `root`, given that its dependencies are. */
  lemma {:induction false} WalkEachReaches(lookup: string -> seq<string>, universe: set<string>, root: string, deps: seq<string>, i: nat, w: Walk)
    requires Closed(lookup, universe) && i <= |deps| && w.visited <= universe
    requires forall d :: d in deps ==> d in universe && Reaches(lookup, root, d)
    requires forall v :: v in w.visited ==> Reaches(lookup, root, v)
    ensures forall v :: v in WalkEach(lookup, universe, deps, i, w).visited ==> Reaches(lookup, root, v)
    decreases |universe - w.visited|, 1, |deps| - i
  {
    if i < |deps| {
      var w' := WalkFrom(lookup, universe, deps[i], w);
      SubsetCard(universe - w'.visited, universe - w.visited);
      WalkFromReaches(lookup, universe, root, deps[i], w);
      WalkEachReaches(lookup, universe, root, deps, i + 1, w');
    }
  }

  /** Each entry is the looked-up list, unless its key lies on a cycle. */
  ghost predicate Faithful(lookup: string -> seq<string>, g: Graph)
  {
    forall k :: k in g.deps && g.deps[k] != lookup(k) ==> OnCycle(lookup, k)
  }

  /**
   * Only a cycle blanks an entry: every name on the path leads to the name
   * being entered, so a name found on the path lies on a cycle.
   */
  lemma {:induction false} WalkFromFaithful(lookup: string -> seq<string>, universe: set<string>, p: string, w: Walk)
    requires Closed(lookup, universe) && p in universe && w.path <= w.visited <= universe
    requires forall q :: q in w.path ==> LeadsTo(lookup, q, p)
    requires Faithful(lookup, w.graph)
    ensures Faithful(lookup, WalkFrom(lookup, universe, p, w).graph)
    decreases |universe - w.visited|, 0
  {
    if p !in w.path && p !in w.visited {
      var deps := lookup(p);
      var entered := Walk(w.visited + {p}, w.path + {p}, w.graph.Put(p, deps), w.fetched + [p]);
      RemainderShrinks(universe, w.visited, entered.visited, p);
      forall q, d | q in entered.path && d in deps
        ensures LeadsTo(lookup, q, d)
      {
        if q == p {
          ReachesRefl(lookup, d);
        } else {
          LeadsToStep(lookup, q, p, d);
        }
      }
      WalkEachFaithful(lookup, universe, deps, 0, entered);
    }
  }

  /** The loop keeps every entry faithful, given that the path leads to each dependency. */
  lemma {:induction false} WalkEachFaithful(lookup: string -> seq<string>, universe: set<string>, deps: seq<string>, i: nat, w: Walk)
    requires Closed(lookup, universe) && i <= |deps| && w.path <= w.visited <= universe
    requires forall d :: d in deps ==> d in universe
    requires forall q, d :: q in w.path && d in deps ==> LeadsTo(lookup, q, d)
    requires Faithful(lookup, w.graph)
    ensures Faithful(lookup, WalkEach(lookup, universe, deps, i, w).graph)
    decreases |universe - w.visited|, 1, |deps| - i
  {
    if i < |deps| {
      var w' := WalkFrom(lookup, universe, deps[i], w);
      WalkFromRestoresPath(lookup, universe, deps[i], w);
      assert w'.path <= w'.visited <= universe;
      SubsetCard(universe - w'.visited, universe - w.visited);
      WalkFromFaithful(lookup, universe, deps[i], w);
      WalkEachFaithful(lookup, universe, deps, i + 1, w');
    }
  }

  /**
   * The keys of a top-level call are exactly the names reachable from the
   * root, and an entry differs from the looked-up list only for a name on a
   * cycle; so on a source without cycles every entry is its looked-up list.
   */
  lemma BuildContents(lookup: string -> seq<string>, universe: set<string>, root: string)
    requires Closed(lookup, universe) && root in universe
    ensures var g := Build(lookup, universe, root);
      && (forall k :: k in g.deps <==> Reaches(lookup, root, k))
      && (forall k :: k in g.deps && g.deps[k] != lookup(k) ==> OnCycle(lookup, k))
  {
    var r := WalkFrom(lookup, universe, root, Start);
    BuildResult(lookup, universe, root);
    assert forall v :: v in r.visited ==> Reaches(lookup, root, v) by {
      ReachesRefl(lookup, root);
      WalkFromReaches(lookup, universe, root, root, Start);
    }
    forall k | Reaches(lookup, root, k)
      ensures k in r.graph.deps
    {
      ReachesStaysIn(lookup, r.graph.deps.Keys, root, k);
    }
    WalkFromFaithful(lookup, universe, root, Start);
  }

  /** The source `A -> [B]`, `B -> [A]`, nothing else. */
  function TwoCycle(name: string): seq<string>
  {
    if name == "A" then ["B"] else if name == "B" then ["A"] else []
  }

  lemma TwoCycleClosed()
    ensures Closed(TwoCycle, {"A", "B"})
  {
  }

  /** Inside `B`, entering `A` again finds it on the path. */
  lemma TwoCycleReentry()
    ensures (TwoCycleClosed(); var b := Walk({"A", "B"}, {"A", "B"}, Graph(["A", "B"], map["A" := ["B"], "B" := ["A"]]), ["A", "B"]);
      WalkEach(TwoCycle, {"A", "B"}, ["A"], 0, b) == b.(graph := Graph(["A", "B"], map["A" := [], "B" := ["A"]])))
  {
    TwoCycleClosed();
    var u := {"A", "B"};
    var b := Walk({"A", "B"}, {"A", "B"}, Graph(["A", "B"], map["A" := ["B"], "B" := ["A"]]), ["A", "B"]);
    var c := b.(graph := Graph(["A", "B"], map["A" := [], "B" := ["A"]]));
    assert WalkFrom(TwoCycle, u, "A", b) == c;
    assert WalkEach(TwoCycle, u, ["A"], 1, c) == c;
  }

  /** Entering `B` from `A`. */
  lemma TwoCycleFromA()
    ensures (TwoCycleClosed(); var a := Walk({"A"}, {"A"}, Graph(["A"], map["A" := ["B"]]), ["A"]);
      WalkEach(TwoCycle, {"A", "B"}, ["B"], 0, a) == Walk({"A", "B"}, {"A"}, Graph(["A", "B"], map["A" := [], "B" := ["A"]]), ["A", "B"]))
  {
    TwoCycleClosed();
    var u := {"A", "B"};
    var a := Walk({"A"}, {"A"}, Graph(["A"], map["A" := ["B"]]), ["A"]);
    var b := Walk({"A", "B"}, {"A", "B"}, Graph(["A", "B"], map["A" := ["B"], "B" := ["A"]]), ["A", "B"]);
    var c := b.(graph := Graph(["A", "B"], map["A" := [], "B" := ["A"]]));
    assert b == Walk(a.visited + {"B"}, a.path + {"B"}, a.graph.Put("B", ["A"]), a.fetched + ["B"]);
    TwoCycleReentry();
    assert WalkFrom(TwoCycle, u, "B", a) == c.(path := {"A"});
    assert WalkEach(TwoCycle, u, ["B"], 1, c.(path := {"A"})) == c.(path := {"A"});
  }

  /**
   * On a two-cycle the walk re-enters `A` from `B` while `A` is on the path
   * and overwrites `A`'s entry: the result is `{A: [], B: [A]}` in that key
   * order, with one lookup each of `A` and `B`.
   */
  lemma TwoCycleResult()
    ensures (TwoCycleClosed(); var r := WalkFrom(TwoCycle, {"A", "B"}, "A", Start);
      && r.graph == Graph(["A", "B"], map["A" := [], "B" := ["A"]])
      && r.fetched == ["A", "B"])
  {
    TwoCycleClosed();
    var a := Walk({"A"}, {"A"}, Graph(["A"], map["A" := ["B"]]), ["A"]);
    assert a == Walk(Start.visited + {"A"}, Start.path + {"A"}, Start.graph.Put("A", ["B"]), Start.fetched + ["A"]);
    TwoCycleFromA();
  }

  /** The acyclic source `A -> [B, C]`, `B -> [D]`, `C -> [D]`, nothing else. */
  function Diamond(name: string): seq<string>
  {
    if name == "A" then ["B", "C"] else if name == "B" || name == "C" then ["D"] else []
  }

  lemma DiamondClosed()
    ensures Closed(Diamond, {"A", "B", "C", "D"})
  {
  }

  /** The whole dict of the diamond, keys in discovery order. */
  const DiamondGraph: Graph :=
    Graph(["A", "B", "D", "C"], map["A" := ["B", "C"], "B" := ["D"], "D" := [], "C" := ["D"]])

  /** Entering `D` from `B`: a leaf, recorded with its empty list. */
  lemma DiamondFromD()
    ensures (DiamondClosed(); var b := Walk({"A", "B"}, {"A", "B"}, Graph(["A", "B"], map["A" := ["B", "C"], "B" := ["D"]]), ["A", "B"]);
      WalkFrom(Diamond, {"A", "B", "C", "D"}, "D", b)
      == Walk({"A", "B", "D"}, {"A", "B"}, Graph(["A", "B", "D"], map["A" := ["B", "C"], "B" := ["D"], "D" := []]), ["A", "B", "D"]))
  {
    DiamondClosed();
    var u := {"A", "B", "C", "D"};
    var b := Walk({"A", "B"}, {"A", "B"}, Graph(["A", "B"], map["A" := ["B", "C"], "B" := ["D"]]), ["A", "B"]);
    var d := Walk({"A", "B", "D"}, {"A", "B", "D"}, Graph(["A", "B", "D"], map["A" := ["B", "C"], "B" := ["D"], "D" := []]), ["A", "B", "D"]);
    assert d == Walk(b.visited + {"D"}, b.path + {"D"}, b.graph.Put("D", []), b.fetched + ["D"]);
    assert WalkEach(Diamond, u, [], 0, d) == d;
  }

  /** Entering `B` from `A` enters `D`, which is then visited. */
  lemma DiamondFromB()
    ensures (DiamondClosed(); var a := Walk({"A"}, {"A"}, Graph(["A"], map["A" := ["B", "C"]]), ["A"]);
      WalkFrom(Diamond, {"A", "B", "C", "D"}, "B", a)
      == Walk({"A", "B", "D"}, {"A"}, Graph(["A", "B", "D"], map["A" := ["B", "C"], "B" := ["D"], "D" := []]), ["A", "B", "D"]))
  {
    DiamondClosed();
    var u := {"A", "B", "C", "D"};
    var a := Walk({"A"}, {"A"}, Graph(["A"], map["A" := ["B", "C"]]), ["A"]);
    var b := Walk({"A", "B"}, {"A", "B"}, Graph(["A", "B"], map["A" := ["B", "C"], "B" := ["D"]]), ["A", "B"]);
    assert b == Walk(a.visited + {"B"}, a.path + {"B"}, a.graph.Put("B", ["D"]), a.fetched + ["B"]);
    assert Diamond("B") == ["D"] && "B" !in a.visited;
    DiamondFromD();
    var d := Walk({"A", "B", "D"}, {"A", "B"}, Graph(["A", "B", "D"], map["A" := ["B", "C"], "B" := ["D"], "D" := []]), ["A", "B", "D"]);
    assert WalkEach(Diamond, u, ["D"], 0, b) == WalkEach(Diamond, u, ["D"], 1, d) == d;
  }

  /** Entering `C` after `B` finds `D` already visited and fetches nothing more for it. */
  lemma DiamondFromC()
    ensures (DiamondClosed(); var s := Walk({"A", "B", "D"}, {"A"}, Graph(["A", "B", "D"], map["A" := ["B", "C"], "B" := ["D"], "D" := []]), ["A", "B", "D"]);
      WalkFrom(Diamond, {"A", "B", "C", "D"}, "C", s) == Walk({"A", "B", "D", "C"}, {"A"}, DiamondGraph, ["A", "B", "D", "C"]))
  {
    DiamondClosed();
    var u := {"A", "B", "C", "D"};
    var s := Walk({"A", "B", "D"}, {"A"}, Graph(["A", "B", "D"], map["A" := ["B", "C"], "B" := ["D"], "D" := []]), ["A", "B", "D"]);
    var c := Walk({"A", "B", "D", "C"}, {"A", "C"}, DiamondGraph, ["A", "B", "D", "C"]);
    assert c == Walk(s.visited + {"C"}, s.path + {"C"}, s.graph.Put("C", ["D"]), s.fetched + ["C"]);
    assert WalkFrom(Diamond, u, "D", c) == c;
    assert WalkEach(Diamond, u, ["D"], 1, c) == c;
  }

  /**
   * On the diamond every package is looked up once, `D` only the first time
   * it is reached, and the dict holds every looked-up list, keys in the order
   * A, B, D, C.
   */
  lemma DiamondResult()
    ensures (DiamondClosed(); var r := WalkFrom(Diamond, {"A", "B", "C", "D"}, "A", Start);
      r.graph == DiamondGraph && r.fetched == ["A", "B", "D", "C"])
  {
    DiamondClosed();
    var u := {"A", "B", "C", "D"};
    var a := Walk({"A"}, {"A"}, Graph(["A"], map["A" := ["B", "C"]]), ["A"]);
    assert a == Walk(Start.visited + {"A"}, Start.path + {"A"}, Start.graph.Put("A", ["B", "C"]), Start.fetched + ["A"]);
    DiamondFromB();
    DiamondFromC();
    var s2 := Walk({"A", "B", "D", "C"}, {"A"}, DiamondGraph, ["A", "B", "D", "C"]);
    assert WalkEach(Diamond, u, ["B", "C"], 2, s2) == s2;
  }

  /**
   * The shared state of build_dependency_graph. Python passes the same
   * `visited`, `path` and `graph` objects to every recursive call; here they
   * are the fields of one object that every call updates.
   */
  class GraphBuilder {
    const lookup: string -> seq<string>
    ghost const universe: set<string>
    var visited: set<string>
    var path: set<string>
    var graph: Graph
    ghost var fetched: seq<string>

    ghost function State(): Walk
      reads this
    {
      Walk(visited, path, graph, fetched)
    }

    /** The walk's invariant holds of the shared state. */
    ghost predicate Valid()
      reads this
    {
      Closed(lookup, universe) && Inv(lookup, universe, State())
    }

    /** The defaults a top-level call fills in: `set()`, `set()`, `{}`. */
    constructor (lookup: string -> seq<string>, ghost universe: set<string>)
      requires Closed(lookup, universe)
      ensures Valid()
      ensures this.lookup == lookup && this.universe == universe
      ensures State() == Start
    {
      this.lookup := lookup;
      this.universe := universe;
      visited := {};
      path := {};
      graph := Empty;
      fetched := [];
      StartInv(lookup, universe);
    }

    /**
     * `build_dependency_graph(p, ...)` on the shared state. The new state is
     * the reference walk applied to the old one; `path` is restored,
     * `visited` only grows and now holds `p`, and the invariant is kept.
     */
    method Visit(p: string)
      requires Valid() && p in universe
      modifies this
      ensures Valid()
      ensures State() == WalkFrom(lookup, universe, p, old(State()))
      ensures path == old(path) && old(visited) <= visited && p in visited
      decreases |universe - visited|, 1
    {
      if p in path {
        // a cycle: the ancestor's entry is overwritten, nothing is fetched
        CycleKeepsInv(lookup, universe, p, State());
        graph := graph.Put(p, []);
        return;
      }
      if p in visited {
        return;
      }
      Enter(p);
    }

    /**
     * The body of `build_dependency_graph` for a name seen for the first
     * time: mark it, fetch and store its list, visit every dependency in
     * order, then take it off the path.
     */
    method Enter(p: string)
      requires Valid() && p in universe && p !in visited
      modifies this
      ensures Valid()
      ensures State() == WalkFrom(lookup, universe, p, old(State()))
      ensures path == old(path) && old(visited) <= visited && p in visited
      decreases |universe - visited|, 0
    {
      ghost var w := State();
      WalkFromKeepsInv(lookup, universe, p, w);
      WalkFromRestoresPath(lookup, universe, p, w);
      var deps := lookup(p);
      ghost var entered := Walk(w.visited + {p}, w.path + {p}, w.graph.Put(p, deps), w.fetched + [p]);
      EnterKeepsInv(lookup, universe, p, w);
      visited, path, fetched := visited + {p}, path + {p}, fetched + [p];
      graph := graph.Put(p, deps);
      assert State() == entered;
      for i := 0 to |deps|
        invariant entered.visited <= visited && Valid()
        invariant WalkEach(lookup, universe, deps, i, State()) == WalkEach(lookup, universe, deps, 0, entered)
      {
        RemainderShrinks(universe, w.visited, visited, p);
        Visit(deps[i]);
      }
      path := path - {p};
      assert State() == WalkFrom(lookup, universe, p, w);
    }
  }

  /**
   * A top-level call `build_dependency_graph(root, ...)`: it starts from
   * empty containers and returns the dict, which is the reference walk's
   * dict (so two calls on one deterministic source return equal dicts),
   * starts with the root, has exactly the names reachable from the root as
   * keys, and holds the looked-up list under every key except one that lies
   * on a cycle, whose entry may have been reset to `[]`.
   */
  method BuildDependencyGraph(root: string, lookup: string -> seq<string>, ghost universe: set<string>)
    returns (graph: Graph)
    requires Closed(lookup, universe) && root in universe
    ensures graph == Build(lookup, universe, root)
    ensures graph.Valid() && |graph.keys| > 0 && graph.keys[0] == root
    ensures forall k :: k in graph.deps ==> graph.deps[k] == lookup(k) || graph.deps[k] == []
    ensures forall k, d :: k in graph.deps && d in lookup(k) ==> d in graph.deps
    ensures forall k :: k in graph.deps <==> Reaches(lookup, root, k)
    ensures forall k :: k in graph.deps && graph.deps[k] != lookup(k) ==> OnCycle(lookup, k)
  {
    var builder := new GraphBuilder(lookup, universe);
    builder.Visit(root);
    graph := builder.graph;
    BuildResult(lookup, universe, root);
    BuildContents(lookup, universe, root);
  }
}
