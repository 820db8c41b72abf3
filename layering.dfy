/*
 * The level computation at the start of generate_plantuml (main.py:198-212):
 * a breadth-first search over the dict from its first key, with a queue of
 * (name, level) pairs, that gives every name it reaches its distance from
 * that key. Successors are read with `graph.get(name, [])`, so a name that
 * is not a key is levelled but has no successors.
 */
module Layering {
  import opened DepGraph

  /** `s` follows stored edges: each name lists the next one. */
  ghost predicate IsPath(g: Graph, s: seq<string>)
  {
    |s| > 0 && forall i :: 0 <= i < |s| - 1 ==> s[i + 1] in g.Get(s[i])
  }

  /** `v` has a levelled predecessor exactly one level above it. */
  ghost predicate HasParent(g: Graph, levels: map<string, nat>, v: string)
    requires v in levels
  {
    exists u :: u in levels && v in g.Get(u) && levels[u] + 1 == levels[v]
  }

  /**
   * `levels` is a breadth-first layering of `g` from `root`: the root is at
   * level 0; a successor of a levelled name is levelled at most one deeper;
   * and every other levelled name has a levelled predecessor exactly one
   * level above it.
   */
  ghost predicate IsLayering(g: Graph, root: string, levels: map<string, nat>)
  {
    && root in levels && levels[root] == 0
    && (forall u, v :: u in levels && v in g.Get(u) ==> v in levels && levels[v] <= levels[u] + 1)
    && (forall v {:trigger HasParent(g, levels, v)} :: v in levels && v != root ==> HasParent(g, levels, v))
  }

  /** The names held in a queue of (name, level) pairs. */
  ghost function Queued(queue: seq<(string, nat)>): set<string>
  {
    set e | e in queue :: e.0
  }

  /** Every queued pair carries the level recorded for its name. */
  ghost predicate QueueAgrees(levels: map<string, nat>, queue: seq<(string, nat)>)
  {
    forall i :: 0 <= i < |queue| ==> queue[i].0 in levels && levels[queue[i].0] == queue[i].1
  }

  /** Queued levels never decrease from front to back. */
  ghost predicate QueueSorted(queue: seq<(string, nat)>)
  {
    forall i, j :: 0 <= i <= j < |queue| ==> queue[i].1 <= queue[j].1
  }

  /** Every queued level is `low` or `low + 1`. */
  ghost predicate QueueWithin(queue: seq<(string, nat)>, low: nat)
  {
    forall i :: 0 <= i < |queue| ==> low <= queue[i].1 <= low + 1
  }

  /** Every successor of an expanded name is levelled at most one deeper. */
  ghost predicate Expanded(g: Graph, levels: map<string, nat>, done: set<string>)
    requires done <= levels.Keys
  {
    forall u, v :: u in done && v in g.Get(u) ==> v in levels && levels[v] <= levels[u] + 1
  }

  /** Every levelled name but the root has a parent one level above it. */
  ghost predicate Parented(g: Graph, root: string, levels: map<string, nat>)
  {
    forall v {:trigger HasParent(g, levels, v)} :: v in levels && v != root ==> HasParent(g, levels, v)
  }

  /**
   * The state at the head of the `while queue` loop: levelled names are
   * expanded (`done`) or queued; queued levels span at most two adjacent
   * values in order; expanded names are no deeper than anything queued.
   */
  ghost predicate Frontier(g: Graph, root: string, levels: map<string, nat>, queue: seq<(string, nat)>, done: set<string>)
  {
    && root in levels && levels[root] == 0
    && QueueAgrees(levels, queue)
    && QueueSorted(queue)
    && (|queue| > 0 ==> QueueWithin(queue, queue[0].1))
    && done <= levels.Keys <= done + Queued(queue)
    && Expanded(g, levels, done)
    && (|queue| > 0 ==> forall u :: u in done ==> levels[u] <= queue[0].1)
    && Parented(g, root, levels)
  }

  /**
   * The state inside `for dep in graph.get(pkg, [])` after `j` successors
   * of `pkg`, which was popped at `level`.
   */
  ghost predicate Expanding(g: Graph, root: string, levels: map<string, nat>, queue: seq<(string, nat)>, done: set<string>,
                            pkg: string, level: nat, j: nat)
  {
    && root in levels && levels[root] == 0
    && pkg in levels && levels[pkg] == level
    && j <= |g.Get(pkg)|
    && QueueAgrees(levels, queue)
    && QueueSorted(queue)
    && QueueWithin(queue, level)
    && done <= levels.Keys <= done + {pkg} + Queued(queue)
    && Expanded(g, levels, done)
    && (forall u :: u in done ==> levels[u] <= level)
    && (forall k :: 0 <= k < j ==> g.Get(pkg)[k] in levels && levels[g.Get(pkg)[k]] <= level + 1)
    && Parented(g, root, levels)
  }

  lemma StartFrontier(g: Graph, root: string)
    ensures Frontier(g, root, map[root := 0], [(root, 0)], {})
  {
    assert Queued([(root, 0)]) == {root};
  }

  /** `queue.popleft()` starts the expansion of the front name. */
  lemma PopStartsExpanding(g: Graph, root: string, levels: map<string, nat>, queue: seq<(string, nat)>, done: set<string>)
    requires Frontier(g, root, levels, queue, done) && |queue| > 0
    ensures Expanding(g, root, levels, queue[1..], done, queue[0].0, queue[0].1, 0)
  {
    assert queue == [queue[0]] + queue[1..];
    assert Queued(queue) == {queue[0].0} + Queued(queue[1..]);
  }

  /** A successor without a level gets `level + 1` and joins the queue. */
  lemma DiscoverKeepsExpanding(g: Graph, root: string, levels: map<string, nat>, queue: seq<(string, nat)>, done: set<string>,
                               pkg: string, level: nat, j: nat)
    requires Expanding(g, root, levels, queue, done, pkg, level, j) && j < |g.Get(pkg)|
    requires g.Get(pkg)[j] !in levels
    ensures var dep := g.Get(pkg)[j];
      Expanding(g, root, levels[dep := level + 1], queue + [(dep, level + 1)], done, pkg, level, j + 1)
  {
    var dep := g.Get(pkg)[j];
    var levels' := levels[dep := level + 1];
    var queue' := queue + [(dep, level + 1)];
    assert Queued(queue') == Queued(queue) + {dep};
    EnqueueKeepsQueue(levels, queue, dep, level);
    assert Expanded(g, levels', done) && forall u :: u in done ==> levels'[u] <= level;
    assert forall k :: 0 <= k < j + 1 ==> g.Get(pkg)[k] in levels' && levels'[g.Get(pkg)[k]] <= level + 1;
    ExtendKeepsParented(g, root, levels, pkg, dep, level + 1);
  }

  /** Appending a newly levelled name one deeper keeps the queue's shape. */
  lemma EnqueueKeepsQueue(levels: map<string, nat>, queue: seq<(string, nat)>, dep: string, level: nat)
    requires QueueAgrees(levels, queue) && QueueSorted(queue) && QueueWithin(queue, level) && dep !in levels
    ensures var queue' := queue + [(dep, level + 1)];
      QueueAgrees(levels[dep := level + 1], queue') && QueueSorted(queue') && QueueWithin(queue', level)
  {
  }

  /** Levelling a new name below a levelled parent keeps every parent. */
  lemma ExtendKeepsParented(g: Graph, root: string, levels: map<string, nat>, pkg: string, dep: string, level: nat)
    requires Parented(g, root, levels) && pkg in levels && dep in g.Get(pkg) && dep !in levels
    requires levels[pkg] + 1 == level
    ensures Parented(g, root, levels[dep := level])
  {
    var levels' := levels[dep := level];
    assert HasParent(g, levels', dep);
    forall v | v in levels' && v != root
      ensures HasParent(g, levels', v)
    {
      if v != dep {
        assert HasParent(g, levels, v);
        var u :| u in levels && v in g.Get(u) && levels[u] + 1 == levels[v];
        assert u in levels' && levels'[u] + 1 == levels'[v];
      }
    }
  }

  /** A successor that already has a level is at most one deeper. */
  lemma SkipKeepsExpanding(g: Graph, root: string, levels: map<string, nat>, queue: seq<(string, nat)>, done: set<string>,
                           pkg: string, level: nat, j: nat)
    requires Expanding(g, root, levels, queue, done, pkg, level, j) && j < |g.Get(pkg)|
    requires g.Get(pkg)[j] in levels
    ensures Expanding(g, root, levels, queue, done, pkg, level, j + 1)
  {
    var dep := g.Get(pkg)[j];
    if dep !in done && dep != pkg {
      var e :| e in queue && e.0 == dep;
      var i :| 0 <= i < |queue| && queue[i] == e;
    }
  }

  /** Once all successors are seen, `pkg` is expanded. */
  lemma FinishKeepsFrontier(g: Graph, root: string, levels: map<string, nat>, queue: seq<(string, nat)>, done: set<string>,
                            pkg: string, level: nat)
    requires Expanding(g, root, levels, queue, done, pkg, level, |g.Get(pkg)|)
    ensures Frontier(g, root, levels, queue, done + {pkg})
  {
    var deps := g.Get(pkg);
    forall u, v | u in done + {pkg} && v in g.Get(u)
      ensures v in levels && levels[v] <= levels[u] + 1
    {
      if u == pkg {
        var k :| 0 <= k < |deps| && deps[k] == v;
      }
    }
  }

  /** With the queue empty, every levelled name is expanded: a layering. */
  lemma EmptyFrontierIsLayering(g: Graph, root: string, levels: map<string, nat>, done: set<string>)
    requires Frontier(g, root, levels, [], done)
    ensures IsLayering(g, root, levels)
  {
    assert Queued([]) == {};
  }

  /**
   * The BFS of generate_plantuml. Python starts from `list(graph.keys())[0]`
   * only when that name is truthy, so an empty dict, and also a dict whose
   * first key is the empty string, get no levels at all. Otherwise the
   * result is a layering from the first key.
   */
  method Levels(graph: Graph) returns (levels: map<string, nat>)
    ensures (|graph.keys| == 0 || graph.keys[0] == "") ==> levels == map[]
    ensures |graph.keys| > 0 && graph.keys[0] != "" ==> IsLayering(graph, graph.keys[0], levels)
  {
    levels := map[];
    var root := if |graph.keys| > 0 then graph.keys[0] else "";
    if root == "" {
      return;
    }
    var queue: seq<(string, nat)> := [(root, 0)];
    levels := levels[root := 0];
    ghost var done: set<string> := {};
    StartFrontier(graph, root);
    while |queue| > 0
      invariant levels.Keys <= graph.Names()
      invariant Frontier(graph, root, levels, queue, done)
      decreases |graph.Names() - levels.Keys|, |queue|
    {
      PopStartsExpanding(graph, root, levels, queue, done);
      var (pkg, level) := queue[0];
      queue := queue[1..];
      ghost var before := levels.Keys;
      ghost var rest := |queue|;
      var deps := graph.Get(pkg);
      for j := 0 to |deps|
        invariant before <= levels.Keys <= graph.Names()
        invariant levels.Keys == before ==> |queue| == rest
        invariant Expanding(graph, root, levels, queue, done, pkg, level, j)
      {
        var dep := deps[j];
        if dep !in levels {
          DiscoverKeepsExpanding(graph, root, levels, queue, done, pkg, level, j);
          levels := levels[dep := level + 1];
          queue := queue + [(dep, level + 1)];
        } else {
          SkipKeepsExpanding(graph, root, levels, queue, done, pkg, level, j);
        }
      }
      FinishKeepsFrontier(graph, root, levels, queue, done, pkg, level);
      done := done + {pkg};
      if levels.Keys != before {
        GrowthShrinksRemainder(graph.Names(), before, levels.Keys);
      }
    }
    EmptyFrontierIsLayering(graph, root, levels, done);
  }

  /**
   * No path from the root is shorter than its end's level; in particular
   * every name reachable from the root is levelled.
   */
  lemma {:induction false} LevelAtMostPathLength(g: Graph, root: string, levels: map<string, nat>, s: seq<string>)
    requires IsLayering(g, root, levels)
    requires IsPath(g, s) && s[0] == root
    ensures s[|s| - 1] in levels && levels[s[|s| - 1]] <= |s| - 1
  {
    if |s| > 1 {
      var init := s[..|s| - 1];
      assert IsPath(g, init);
      LevelAtMostPathLength(g, root, levels, init);
      assert s[|s| - 1] in g.Get(s[|s| - 2]);
    }
  }

  /**
   * Every levelled name is reached from the root by a path exactly as long
   * as its level, so levels are shortest-path distances and only reachable
   * names are levelled.
   */
  lemma {:induction false} PathOfLevelLength(g: Graph, root: string, levels: map<string, nat>, v: string)
    returns (s: seq<string>)
    requires IsLayering(g, root, levels) && v in levels
    ensures IsPath(g, s) && s[0] == root && s[|s| - 1] == v && |s| == levels[v] + 1
    decreases levels[v]
  {
    if v == root {
      s := [root];
    } else {
      assert HasParent(g, levels, v);
      var u :| u in levels && v in g.Get(u) && levels[u] + 1 == levels[v];
      var t := PathOfLevelLength(g, root, levels, u);
      s := t + [v];
      assert forall i :: 0 <= i < |t| ==> s[i] == t[i];
    }
  }
}
