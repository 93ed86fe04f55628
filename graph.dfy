/**
 * The `Graph` class of projects/graph/graph.py: a directed graph stored as a
 * map from each vertex to the set of its out-neighbours, with its mutators,
 * neighbour lookup, three traversals (which return the vertices they would
 * print, in order) and three path searches.
 *
 * The stack and queue helpers of the source are sequences here: a stack pushes
 * and pops at the end, a queue enqueues at the end and dequeues at the front.
 * Looping over a neighbour set picks its elements with `:|`, so no iteration
 * order is fixed.
 */
module Graphs {
  import opened Walks
  import opened Frontiers
  import opened DepthFirst

  /** The ValueError raised for a vertex that is not in the graph. */
  datatype GraphError = MissingVertex

  datatype Result<T> = Ok(value: T) | Err(error: GraphError)

  /** A search's answer: a path, or Python's `None`. */
  datatype Option<T> = None | Some(value: T)

  /** The adjacency map after `add_vertex(id)`: `id` maps to no neighbours. */
  function WithVertex<V(==)>(g: map<V, set<V>>, id: V): (r: map<V, set<V>>)
    ensures r.Keys == g.Keys + {id}
    ensures r[id] == {}
    ensures forall u :: u in g && u != id ==> r[u] == g[u]
  {
    g[id := {}]
  }

  /** The adjacency map after `add_edge(v1, v2)`, or the error it raises. */
  function WithEdge<V(==)>(g: map<V, set<V>>, v1: V, v2: V): (r: Result<map<V, set<V>>>)
    ensures r.Ok? <==> v1 in g && v2 in g
    ensures r.Ok? ==> r.value.Keys == g.Keys && r.value[v1] == g[v1] + {v2}
    ensures r.Ok? ==> forall u :: u in g && u != v1 ==> r.value[u] == g[u]
  {
    if v1 in g && v2 in g then Ok(g[v1 := g[v1] + {v2}]) else Err(MissingVertex)
  }

  lemma WithVertexKeepsClosed<V(!new)>(g: map<V, set<V>>, id: V)
    requires Closed(g)
    ensures Closed(WithVertex(g, id))
  {
  }

  lemma WithEdgeKeepsClosed<V(!new)>(g: map<V, set<V>>, v1: V, v2: V)
    requires Closed(g) && WithEdge(g, v1, v2).Ok?
    ensures Closed(WithEdge(g, v1, v2).value)
  {
  }

  /** Adding an edge that is already there changes nothing. */
  lemma WithEdgeIdempotent<V(!new)>(g: map<V, set<V>>, v1: V, v2: V)
    requires WithEdge(g, v1, v2).Ok?
    ensures WithEdge(WithEdge(g, v1, v2).value, v1, v2) == WithEdge(g, v1, v2)
  {
    var h := WithEdge(g, v1, v2).value;
    assert h[v1] + {v2} == h[v1];
    assert h[v1 := h[v1] + {v2}] == h;
  }

  /**
   * The neighbour loop of `bft` and `dft`: enqueues (or pushes) every vertex
   * of `nbrs` once, in an unspecified order; both append at the end. `added`
   * is the order the neighbours were taken in.
   */
  method AppendEach<V(!new)>(queue: seq<V>, nbrs: set<V>) returns (queue': seq<V>, added: seq<V>)
    ensures queue' == queue + added
    ensures NoDup(added) && Elems(added) == nbrs
  {
    queue' := queue;
    added := [];
    var rest := nbrs;
    while rest != {}
      invariant rest <= nbrs
      invariant queue' == queue + added
      invariant NoDup(added) && Elems(added) == nbrs - rest
      decreases rest
    {
      var w :| w in rest;
      NoDupSnoc(added, w);
      added := added + [w];
      queue' := queue' + [w];
      rest := rest - {w};
    }
  }

  /**
   * The neighbour loop of `bfs` and `dfs`: enqueues (or pushes) `path + [w]`
   * for every `w` of `nbrs` once; `added` is the order the neighbours were
   * taken in.
   */
  method AppendExtensions<V(!new)>(queue: seq<seq<V>>, path: seq<V>, nbrs: set<V>)
    returns (queue': seq<seq<V>>, added: seq<V>)
    ensures queue' == queue + Extend(path, added)
    ensures NoDup(added) && Elems(added) == nbrs
  {
    queue' := queue;
    added := [];
    var rest := nbrs;
    while rest != {}
      invariant rest <= nbrs
      invariant queue' == queue + Extend(path, added)
      invariant NoDup(added) && Elems(added) == nbrs - rest
      decreases rest
    {
      var w :| w in rest;
      NoDupSnoc(added, w);
      ExtendSnoc(path, added, w);
      added := added + [w];
      queue' := queue' + [path + [w]];
      rest := rest - {w};
    }
  }

  class Graph<V(==, !new)> {
    var vertices: map<V, set<V>>

    /** Every neighbour is itself a vertex; the mutators keep this. */
    ghost predicate Valid()
      reads this
    {
      Closed(vertices)
    }

    constructor ()
      ensures vertices == map[] && Valid()
    {
      vertices := map[];
    }

    method AddVertex(id: V)
      modifies this
      ensures vertices == WithVertex(old(vertices), id)
      ensures old(Valid()) ==> Valid()
    {
      vertices := vertices[id := {}];
      if old(Valid()) {
        WithVertexKeepsClosed(old(vertices), id);
      }
    }

    method AddEdge(v1: V, v2: V) returns (r: Result<()>)
      modifies this
      ensures r.Ok? <==> WithEdge(old(vertices), v1, v2).Ok?
      ensures vertices == if r.Ok? then WithEdge(old(vertices), v1, v2).value else old(vertices)
      ensures old(Valid()) ==> Valid()
    {
      if v1 in vertices && v2 in vertices {
        vertices := vertices[v1 := vertices[v1] + {v2}];
        r := Ok(());
        if old(Valid()) {
          WithEdgeKeepsClosed(old(vertices), v1, v2);
        }
      } else {
        r := Err(MissingVertex);
      }
    }

    method GetNeighbors(id: V) returns (r: Result<set<V>>)
      ensures r.Ok? <==> id in vertices
      ensures r.Ok? ==> r.value == vertices[id]
    {
      if id in vertices {
        r := Ok(vertices[id]);
      } else {
        r := Err(MissingVertex);
      }
    }

    /**
     * Breadth-first traversal with a queue. `order` is what the source prints:
     * each reachable vertex once, by non-decreasing distance from `start`. It
     * raises exactly when some vertex reachable from `start` is missing.
     */
    method Bft(start: V) returns (order: seq<V>, status: Result<()>)
      ensures |order| > 0 && order[0] == start
      ensures NoDup(order) && InDistOrder(vertices, start, order)
      ensures status.Ok? ==> forall v :: v in order <==> Reachable(vertices, start, v)
      ensures status.Err? ==> Last(order) !in vertices
      ensures status.Ok? <==> NoMissingFrom(vertices, start)
      ensures Closed(vertices) && start in vertices ==> status.Ok?
    {
      var queue := [start];
      ghost var walks := [[start]];
      var visited: set<V> := {};
      ghost var best: map<V, seq<V>> := map[];
      ghost var anchor := start;
      order := [];
      while queue != []
        invariant BftState(vertices, start, queue, walks, visited, best, anchor, order)
        decreases vertices.Keys - visited, |queue|
      {
        var v := queue[0];
        ghost var queue0, walks0 := queue, walks;
        queue := queue[1..];
        if v !in visited {
          BftFrontInGraph(vertices, start, queue0, walks0, visited, best, anchor, order);
          var nb := GetNeighbors(v);
          if nb.Err? {
            BftStop(vertices, start, queue0, walks0, visited, best, anchor, order);
            order := order + [v];
            status := Err(nb.error);
            return;
          }
          var added;
          queue, added := AppendEach(queue, nb.value);
          BftVisit(vertices, start, queue0, walks0, visited, best, anchor, order, added);
          order := order + [v];
          visited := visited + {v};
          walks := walks0[1..] + Extend(walks0[0], added);
          best := best[v := walks0[0]];
          anchor := v;
        } else {
          BftDiscard(vertices, start, queue0, walks0, visited, best, anchor, order);
          walks := walks[1..];
        }
      }
      status := Ok(());
      BftDone(vertices, start, walks, visited, best, anchor, order);
    }

    /**
     * Breadth-first search over a queue of paths: a shortest path from `start`
     * to `dest`, or `None` when `dest` is unreachable. It raises only on a
     * missing vertex reachable from `start`, and `None` is never given for one.
     */
    method Bfs(start: V, dest: V) returns (r: Result<Option<seq<V>>>)
      ensures r.Ok? && r.value.Some? ==> Shortest(vertices, start, dest, r.value.value) && NoDup(r.value.value)
      ensures r == Ok(None) ==> !Reachable(vertices, start, dest) && NoMissingFrom(vertices, start)
      ensures r.Err? ==> !NoMissingFrom(vertices, start)
      ensures start !in vertices && start != dest ==> r.Err?
      ensures start == dest ==> r == Ok(Some([start]))
      ensures Closed(vertices) && start in vertices ==> r.Ok?
    {
      var queue := [[start]];
      var visited: set<V> := {};
      ghost var best: map<V, seq<V>> := map[];
      ghost var anchor := start;
      while queue != []
        invariant Frontier(vertices, start, queue, visited, best, anchor, {})
        invariant dest !in visited && visited <= vertices.Keys
        decreases vertices.Keys - visited, |queue|
      {
        var path := queue[0];
        ghost var queue0 := queue;
        FrontInGraph(vertices, start, queue0);
        queue := queue[1..];
        var v := path[|path| - 1];
        if v !in visited {
          if v == dest {
            FrontFound(vertices, start, queue0, visited, best, anchor);
            if start != dest {
              WalkLeavesStart(vertices, path, start, dest);
            }
            return Ok(Some(path));
          }
          var nb := GetNeighbors(v);
          if nb.Err? {
            WalkReachable(vertices, path, start);
            return Err(nb.error);
          }
          var added;
          queue, added := AppendExtensions(queue, path, nb.value);
          FrontierStep(vertices, start, queue0, visited, best, anchor, added);
          visited := visited + {v};
          best := best[v := path];
          anchor := v;
        } else {
          FrontierDiscard(vertices, start, queue0, visited, best, anchor);
        }
      }
      FrontierDone(vertices, start, visited, best, anchor);
      ReachableSelf(vertices, start);
      r := Ok(None);
    }

    /**
     * Depth-first traversal with a stack. `order` is what the source prints;
     * on a missing vertex it stops after printing that vertex, and it meets
     * one exactly when some vertex reachable from `start` is missing.
     */
    method Dft(start: V) returns (order: seq<V>, status: Result<()>)
      ensures |order| > 0 && order[0] == start
      ensures NoDup(order)
      ensures forall i :: 0 <= i < |order| ==> Reachable(vertices, start, order[i])
      ensures status.Ok? ==> forall v :: v in order <==> Reachable(vertices, start, v)
      ensures status.Err? ==> Last(order) !in vertices
      ensures status.Ok? <==> NoMissingFrom(vertices, start)
      ensures Closed(vertices) && start in vertices ==> status.Ok?
    {
      var stack := [start];
      var visited: set<V> := {};
      order := [];
      ReachableSelf(vertices, start);
      while stack != []
        invariant DftState(vertices, start, stack, visited, order)
        invariant visited <= vertices.Keys
        decreases vertices.Keys - visited, |stack|
      {
        var v := stack[|stack| - 1];
        ghost var stack0 := stack;
        stack := stack[..|stack| - 1];
        if v !in visited {
          DftTop(vertices, start, stack0, visited, order);
          var nb := GetNeighbors(v);
          if nb.Err? {
            DftEmit(vertices, start, stack0, visited, order);
            order := order + [v];
            MissingFrom(vertices, start, order[|order| - 1]);
            status := Err(nb.error);
            return;
          }
          var added;
          stack, added := AppendEach(stack, nb.value);
          DftVisit(vertices, start, stack0, visited, order, added);
          order := order + [v];
          visited := visited + {v};
        } else {
          DftDiscard(vertices, start, stack0, visited, order);
        }
      }
      status := Ok(());
      DftDone(vertices, start, visited, order);
      NoMissingWithin(vertices, start, visited);
    }

    /**
     * `dft_recursive(s, visited)`: the shared `visited` set is passed in and the
     * updated set handed back. Emits `s` first, then only vertices that were not
     * visited before, each reached from `s` without passing through a vertex
     * visited before; on success every new vertex has all its neighbours visited.
     */
    method DftFrom(s: V, visited: set<V>) returns (visitedOut: set<V>, order: seq<V>, status: Result<()>)
      ensures |order| > 0 && order[0] == s
      ensures NoDup(order)
      ensures forall i :: 1 <= i < |order| ==> order[i] !in visited
      ensures forall v :: v in visitedOut <==> v in visited || v in order
      ensures forall i :: 0 <= i < |order| ==> Reachable(vertices, s, order[i])
      ensures forall i :: 0 <= i < |order| ==> ReachableAvoiding(vertices, s, order[i], visited)
      ensures status.Ok? ==> s in vertices && vertices[s] <= visitedOut
      ensures status.Ok? ==> forall u :: u in visitedOut && u !in visited ==> u in vertices && vertices[u] <= visitedOut
      ensures status.Err? ==> Last(order) !in vertices
      ensures Closed(vertices) && s in vertices ==> status.Ok?
      decreases vertices.Keys - (visited + {s}), if s in vertices then 1 else 0
    {
      visitedOut := visited + {s};
      order := [s];
      ReachableSelf(vertices, s);
      ReachableAvoidingSelf(vertices, s, visited);
      var nb := GetNeighbors(s);
      if nb.Err? {
        status := Err(nb.error);
        return;
      }
      var rest := nb.value;
      while rest != {}
        invariant rest <= vertices[s]
        invariant visited + {s} <= visitedOut
        invariant |order| > 0 && order[0] == s && NoDup(order)
        invariant forall i :: 1 <= i < |order| ==> order[i] !in visited
        invariant forall v :: v in visitedOut <==> v in visited || v in order
        invariant forall i :: 0 <= i < |order| ==> Reachable(vertices, s, order[i])
        invariant forall i :: 0 <= i < |order| ==> ReachableAvoiding(vertices, s, order[i], visited)
        invariant forall w :: w in vertices[s] && w !in rest ==> w in visitedOut
        invariant forall u :: u in visitedOut && u !in visited && u != s ==> u in vertices && vertices[u] <= visitedOut
        decreases rest
      {
        var n :| n in rest;
        rest := rest - {n};
        if n !in visitedOut {
          assert vertices.Keys - (visitedOut + {n}) <= vertices.Keys - (visited + {s});
          var vis, sub, subStatus := DftFrom(n, visitedOut);
          NoDupConcat(order, sub, visitedOut);
          forall j | 0 <= j < |sub|
            ensures Reachable(vertices, s, sub[j]) && ReachableAvoiding(vertices, s, sub[j], visited)
          {
            ReachablePrepend(vertices, s, n, sub[j]);
            ReachableAvoidingPrepend(vertices, s, n, sub[j], visited, visitedOut);
          }
          order := order + sub;
          visitedOut := vis;
          if subStatus.Err? {
            status := subStatus;
            return;
          }
        }
      }
      status := Ok(());
    }

    /**
     * `dft_recursive(start)`: the start first, then each reachable vertex
     * once; it raises exactly when some vertex reachable from `start` is missing.
     */
    method DftRecursive(start: V) returns (order: seq<V>, status: Result<()>)
      ensures |order| > 0 && order[0] == start
      ensures NoDup(order)
      ensures forall i :: 0 <= i < |order| ==> Reachable(vertices, start, order[i])
      ensures status.Ok? ==> forall v :: v in order <==> Reachable(vertices, start, v)
      ensures status.Err? ==> Last(order) !in vertices
      ensures status.Ok? <==> NoMissingFrom(vertices, start)
      ensures Closed(vertices) && start in vertices ==> status.Ok?
    {
      var visited;
      visited, order, status := DftFrom(start, {});
      if status.Ok? {
        ClosedSetHoldsReachable(vertices, visited, start);
      } else {
        assert Reachable(vertices, start, order[|order| - 1]);
      }
    }

    /**
     * Depth-first search over a stack of paths: a path from `start` to `dest`
     * that repeats no vertex, or `None` when `dest` is unreachable. It raises
     * only on a missing vertex reachable from `start`, and `None` is never
     * given for one.
     */
    method Dfs(start: V, dest: V) returns (r: Result<Option<seq<V>>>)
      ensures r.Ok? && r.value.Some? ==> WalkFromTo(vertices, r.value.value, start, dest) && NoDup(r.value.value)
      ensures r == Ok(None) ==> !Reachable(vertices, start, dest) && NoMissingFrom(vertices, start)
      ensures r.Err? ==> !NoMissingFrom(vertices, start)
      ensures start !in vertices && start != dest ==> r.Err?
      ensures start == dest ==> r == Ok(Some([start]))
      ensures Closed(vertices) && start in vertices ==> r.Ok?
    {
      var stack := [[start]];
      var visited: set<V> := {};
      while stack != []
        invariant DfsState(vertices, start, dest, stack, visited)
        invariant visited <= vertices.Keys
        decreases vertices.Keys - visited, |stack|
      {
        var path := stack[|stack| - 1];
        ghost var stack0 := stack;
        DfsTop(vertices, start, dest, stack0, visited);
        stack := stack[..|stack| - 1];
        var v := path[|path| - 1];
        if v !in visited {
          if v == dest {
            SettledPathSimple(path, visited);
            if start != dest {
              WalkLeavesStart(vertices, path, start, dest);
            }
            return Ok(Some(path));
          }
          var nb := GetNeighbors(v);
          if nb.Err? {
            WalkReachable(vertices, path, start);
            return Err(nb.error);
          }
          var added;
          stack, added := AppendExtensions(stack, path, nb.value);
          DfsVisit(vertices, start, dest, stack0, visited, added);
          visited := visited + {v};
        } else {
          DfsDiscard(vertices, start, dest, stack0, visited);
        }
      }
      DfsDone(vertices, start, dest, visited);
      ReachableSelf(vertices, start);
      r := Ok(None);
    }

    /**
     * `dfs_recursive(s, d, visited, path)`: the shared `visited` set is passed
     * in and the updated set handed back; it gains only vertices reached from
     * `s` without passing through a vertex visited before. A find is `path`
     * extended by a walk from `s` to `d` through such vertices; `None` means every
     * vertex this call visited has all its neighbours visited, and none of
     * them is `d`. It raises only on a missing vertex reachable from `s`.
     */
    method DfsFrom(s: V, d: V, visited: set<V>, path: seq<V>) returns (visitedOut: set<V>, r: Result<Option<seq<V>>>)
      ensures visited + {s} <= visitedOut
      ensures forall u :: u in visitedOut ==> u in visited || ReachableAvoiding(vertices, s, u, visited)
      ensures r.Ok? && r.value.Some? ==> ExtendsWith(vertices, path, s, d, visited, r.value.value)
      ensures s == d ==> r == Ok(Some(path + [s])) && visitedOut == visited + {s}
      ensures r == Ok(None) ==> s != d && s in vertices && vertices[s] <= visitedOut
      ensures r == Ok(None) ==> forall u :: u in visitedOut && u !in visited ==>
                u != d && u in vertices && vertices[u] <= visitedOut
      ensures r.Err? ==> !NoMissingFrom(vertices, s)
      ensures Closed(vertices) && s in vertices ==> r.Ok?
      decreases vertices.Keys - (visited + {s}), if s in vertices then 1 else 0
    {
      visitedOut := visited + {s};
      ReachableAvoidingSelf(vertices, s, visited);
      var here := path + [s];
      if s == d {
        assert here[|path|..] == [s] && here[..|path|] == path;
        return visitedOut, Ok(Some(here));
      }
      var nb := GetNeighbors(s);
      if nb.Err? {
        ReachableSelf(vertices, s);
        return visitedOut, Err(nb.error);
      }
      var rest := nb.value;
      while rest != {}
        invariant rest <= vertices[s]
        invariant visited + {s} <= visitedOut
        invariant forall w :: w in vertices[s] && w !in rest ==> w in visitedOut
        invariant forall u :: u in visitedOut && u !in visited && u != s ==>
                    u != d && u in vertices && vertices[u] <= visitedOut
        invariant forall u :: u in visitedOut ==> u in visited || ReachableAvoiding(vertices, s, u, visited)
        decreases rest
      {
        var n :| n in rest;
        rest := rest - {n};
        if n !in visitedOut {
          assert vertices.Keys - (visitedOut + {n}) <= vertices.Keys - (visited + {s});
          var vis, sub := DfsFrom(n, d, visitedOut, here);
          forall u | u in vis && u !in visitedOut
            ensures ReachableAvoiding(vertices, s, u, visited)
          {
            ReachableAvoidingPrepend(vertices, s, n, u, visited, visitedOut);
          }
          if sub.Err? {
            ghost var t :| Reachable(vertices, n, t) && t !in vertices;
            ReachablePrepend(vertices, s, n, t);
            return vis, sub;
          }
          if sub.value.Some? {
            ExtendsWithPrepend(vertices, path, s, n, d, visited, visitedOut, sub.value.value);
            return vis, sub;
          }
          visitedOut := vis;
        }
      }
      r := Ok(None);
    }

    /**
     * `dfs_recursive(start, dest)`: a path repeating no vertex, or `None` when
     * `dest` is unreachable; it raises only on a missing vertex reachable from
     * `start`, and `None` is never given for one.
     */
    method DfsRecursive(start: V, dest: V) returns (r: Result<Option<seq<V>>>)
      ensures r.Ok? && r.value.Some? ==> WalkFromTo(vertices, r.value.value, start, dest) && NoDup(r.value.value)
      ensures r == Ok(None) ==> !Reachable(vertices, start, dest) && NoMissingFrom(vertices, start)
      ensures r.Err? ==> !NoMissingFrom(vertices, start)
      ensures start !in vertices && start != dest ==> r.Err?
      ensures start == dest ==> r == Ok(Some([start]))
      ensures Closed(vertices) && start in vertices ==> r.Ok?
    {
      var visited;
      visited, r := DfsFrom(start, dest, {}, []);
      if r.Ok? && r.value.Some? {
        assert r.value.value[0..] == r.value.value;
        if start != dest {
          WalkLeavesStart(vertices, r.value.value, start, dest);
        }
      }
      if r == Ok(None) {
        ClosedSetHoldsReachable(vertices, visited, start);
      }
    }
  }
}
