/**
 * The loop state of `dfs`, which keeps a stack of paths, and the shape of
 * the result of `dfs_recursive`. Unlike the breadth-first searches, a path
 * found depth-first need not be a shortest one, but it never repeats a
 * vertex.
 */
module DepthFirst {
  import opened Walks

  /** Some path on the stack ends at `w`. */
  ghost predicate OnStack<V(!new)>(stack: seq<seq<V>>, w: V)
  {
    exists i :: 0 <= i < |stack| && |stack[i]| > 0 && Last(stack[i]) == w
  }

  /** All vertices of `p` but the last are visited, and they are distinct. */
  ghost predicate SettledPrefix<V(!new)>(p: seq<V>, visited: set<V>)
  {
    |p| > 0 && NoDup(p[..|p| - 1]) && forall k :: 0 <= k < |p| - 1 ==> p[k] in visited
  }

  /**
   * The loop state of `dft(s)`: `order`, the vertices emitted so far, lists
   * the visited ones once each, the start first; everything emitted or
   * stacked is reachable from `s`; and every edge out of a visited vertex
   * ends in a visited or a stacked vertex.
   */
  ghost predicate DftState<V(!new)>(g: map<V, set<V>>, s: V, stack: seq<V>, visited: set<V>, order: seq<V>)
  {
    (forall v :: v in visited <==> v in order) && NoDup(order) &&
    (forall i :: 0 <= i < |order| ==> Reachable(g, s, order[i])) &&
    (forall i :: 0 <= i < |stack| ==> Reachable(g, s, stack[i])) &&
    (forall u, w :: u in visited && u in g && w in g[u] ==> w in visited || w in stack) &&
    (visited == {} ==> stack == [s] && order == []) &&
    (visited != {} ==> |order| > 0 && order[0] == s)
  }

  /** The vertex on top of the stack; in a closed graph containing `s` it is a vertex. */
  lemma DftTop<V(!new)>(g: map<V, set<V>>, s: V, stack: seq<V>, visited: set<V>, order: seq<V>)
    requires DftState(g, s, stack, visited, order) && |stack| > 0
    ensures Reachable(g, s, Last(stack))
    ensures Closed(g) && s in g ==> Last(stack) in g
  {
    assert Reachable(g, s, stack[|stack| - 1]);
    if Closed(g) && s in g {
      ReachableInClosed(g, s, Last(stack));
    }
  }

  /** Emitting the unvisited vertex on top of the stack. */
  lemma DftEmit<V(!new)>(g: map<V, set<V>>, s: V, stack: seq<V>, visited: set<V>, order: seq<V>)
    requires DftState(g, s, stack, visited, order) && |stack| > 0 && Last(stack) !in visited
    ensures NoDup(order + [Last(stack)]) && (order + [Last(stack)])[0] == s
    ensures forall i :: 0 <= i < |order| + 1 ==> Reachable(g, s, (order + [Last(stack)])[i])
  {
    DftTop(g, s, stack, visited, order);
    NoDupSnoc(order, Last(stack));
    if visited == {} {
      assert Last(stack) == s;
    }
  }

  /** Popping a vertex that is already visited. */
  lemma DftDiscard<V(!new)>(g: map<V, set<V>>, s: V, stack: seq<V>, visited: set<V>, order: seq<V>)
    requires DftState(g, s, stack, visited, order) && |stack| > 0 && Last(stack) in visited
    ensures DftState(g, s, stack[..|stack| - 1], visited, order)
  {
    var rest := stack[..|stack| - 1];
    assert stack == rest + [Last(stack)];
  }

  /**
   * One visit: the unvisited vertex `v` on top of the stack is popped and
   * emitted, and its neighbours are pushed in the order `ws`.
   */
  lemma DftVisit<V(!new)>(g: map<V, set<V>>, s: V, stack: seq<V>, visited: set<V>, order: seq<V>, ws: seq<V>)
    requires DftState(g, s, stack, visited, order) && |stack| > 0
    requires Last(stack) !in visited && Last(stack) in g && Elems(ws) == g[Last(stack)]
    ensures DftState(g, s, stack[..|stack| - 1] + ws, visited + {Last(stack)}, order + [Last(stack)])
  {
    var v := Last(stack);
    var rest := stack[..|stack| - 1];
    var q := rest + ws;
    DftEmit(g, s, stack, visited, order);
    assert stack == rest + [v];
    forall i | 0 <= i < |q|
      ensures Reachable(g, s, q[i])
    {
      if i < |rest| {
        assert q[i] == stack[i];
      } else {
        assert q[i] == ws[i - |rest|] && q[i] in Elems(ws);
        ReachableStep(g, s, v, q[i]);
      }
    }
    forall u, w | u in visited + {v} && u in g && w in g[u] && w !in visited + {v}
      ensures w in q
    {
      if u == v {
        assert w in Elems(ws);
      } else {
        assert w in stack;
      }
    }
  }

  /** When the stack runs empty, exactly the reachable vertices have been emitted. */
  lemma DftDone<V(!new)>(g: map<V, set<V>>, s: V, visited: set<V>, order: seq<V>)
    requires DftState(g, s, [], visited, order)
    ensures |order| > 0 && forall t :: t in order <==> Reachable(g, s, t)
  {
    assert ClosedUnder(g, visited);
    ClosedSetHoldsReachable(g, visited, s);
    forall t | t in order
      ensures Reachable(g, s, t)
    {
      var i :| 0 <= i < |order| && order[i] == t;
    }
  }

  /**
   * The loop state of `dfs(s, d)`: every stacked path is a walk from `s`
   * whose vertices before the last are visited and distinct; every edge out
   * of a visited vertex ends in a visited vertex or at the end of a stacked
   * path; before the first visit the stack is `[s]` alone, afterwards `s` is
   * visited; and `d` has not been visited.
   */
  ghost predicate DfsState<V(!new)>(g: map<V, set<V>>, s: V, d: V, stack: seq<seq<V>>, visited: set<V>)
  {
    (forall i :: 0 <= i < |stack| ==> WalkFrom(g, stack[i], s) && SettledPrefix(stack[i], visited)) &&
    (forall u, w :: u in visited && u in g && w in g[u] ==> w in visited || OnStack(stack, w)) &&
    (visited == {} ==> stack == [[s]]) &&
    (visited != {} ==> s in visited) &&
    d !in visited
  }

  /** The path on top of the stack; in a closed graph containing `s` it ends at a vertex. */
  lemma DfsTop<V(!new)>(g: map<V, set<V>>, s: V, d: V, stack: seq<seq<V>>, visited: set<V>)
    requires DfsState(g, s, d, stack, visited) && |stack| > 0
    ensures WalkFrom(g, Last(stack), s) && SettledPrefix(Last(stack), visited)
    ensures Closed(g) && s in g ==> Last(Last(stack)) in g
  {
    assert WalkFrom(g, stack[|stack| - 1], s);
    if Closed(g) && s in g {
      WalkEndsInClosed(g, Last(stack));
    }
  }

  /** A path whose earlier vertices are settled and whose last one is not repeats no vertex. */
  lemma SettledPathSimple<V(!new)>(p: seq<V>, visited: set<V>)
    requires SettledPrefix(p, visited) && Last(p) !in visited
    ensures NoDup(p)
  {
    var init := p[..|p| - 1];
    assert Last(p) !in init;
    NoDupSnoc(init, Last(p));
    assert init + [Last(p)] == p;
  }

  /** Popping a path that ends at a visited vertex. */
  lemma DfsDiscard<V(!new)>(g: map<V, set<V>>, s: V, d: V, stack: seq<seq<V>>, visited: set<V>)
    requires DfsState(g, s, d, stack, visited) && |stack| > 0
    requires |Last(stack)| > 0 && Last(Last(stack)) in visited
    ensures DfsState(g, s, d, stack[..|stack| - 1], visited)
  {
    var rest := stack[..|stack| - 1];
    forall u, w | u in visited && u in g && w in g[u] && w !in visited
      ensures OnStack(rest, w)
    {
      var i :| 0 <= i < |stack| && |stack[i]| > 0 && Last(stack[i]) == w;
      assert i < |stack| - 1 && rest[i] == stack[i];
    }
  }

  /** The paths pushed for the neighbours `ws` of the top path's end are walks with a settled prefix. */
  lemma DfsPushed<V(!new)>(g: map<V, set<V>>, s: V, d: V, stack: seq<seq<V>>, visited: set<V>, ws: seq<V>)
    requires DfsState(g, s, d, stack, visited) && |stack| > 0
    requires Last(Last(stack)) !in visited && Last(Last(stack)) in g
    requires Elems(ws) == g[Last(Last(stack))]
    ensures forall k :: 0 <= k < |ws| ==>
              WalkFrom(g, Last(stack) + [ws[k]], s) &&
              SettledPrefix(Last(stack) + [ws[k]], visited + {Last(Last(stack))})
  {
    var p := Last(stack);
    DfsTop(g, s, d, stack, visited);
    SettledPathSimple(p, visited);
    forall k | 0 <= k < |ws|
      ensures WalkFrom(g, p + [ws[k]], s) && SettledPrefix(p + [ws[k]], visited + {Last(p)})
    {
      assert ws[k] in Elems(ws);
      WalkSnoc(g, p, s, ws[k]);
      assert (p + [ws[k]])[..|p|] == p;
    }
  }

  /**
   * One visit: the top path, to the unvisited vertex `v` other than `d`, is
   * popped, `v` becomes visited, and the path extended by each neighbour of
   * `v` (taken in the order `ws`) is pushed.
   */
  lemma DfsVisit<V(!new)>(g: map<V, set<V>>, s: V, d: V, stack: seq<seq<V>>, visited: set<V>, ws: seq<V>)
    requires DfsState(g, s, d, stack, visited) && |stack| > 0
    requires Last(Last(stack)) !in visited && Last(Last(stack)) in g && Last(Last(stack)) != d
    requires Elems(ws) == g[Last(Last(stack))]
    ensures DfsState(g, s, d, stack[..|stack| - 1] + Extend(Last(stack), ws), visited + {Last(Last(stack))})
  {
    var p := Last(stack);
    var v := Last(p);
    var n := |stack| - 1;
    var q := stack[..n] + Extend(p, ws);
    DfsPushed(g, s, d, stack, visited, ws);
    forall i | 0 <= i < |q|
      ensures WalkFrom(g, q[i], s) && SettledPrefix(q[i], visited + {v})
    {
      if i < n {
        assert q[i] == stack[i];
      } else {
        assert q[i] == p + [ws[i - n]];
      }
    }
    forall u, w | u in visited + {v} && u in g && w in g[u] && w !in visited + {v}
      ensures OnStack(q, w)
    {
      if u == v {
        assert w in Elems(ws);
        var k :| 0 <= k < |ws| && ws[k] == w;
        assert q[n + k] == p + [w];
      } else {
        var i :| 0 <= i < |stack| && |stack[i]| > 0 && Last(stack[i]) == w;
        assert i < n && q[i] == stack[i];
      }
    }
  }

  /** When the stack runs empty, every vertex reachable from `s` is visited, so `d` is unreachable. */
  lemma DfsDone<V(!new)>(g: map<V, set<V>>, s: V, d: V, visited: set<V>)
    requires DfsState(g, s, d, [], visited)
    ensures !Reachable(g, s, d)
    ensures forall t :: Reachable(g, s, t) ==> t in visited
  {
    assert ClosedUnder(g, visited);
    ClosedSetHoldsReachable(g, visited, s);
  }

  /**
   * The answer of `dfs_recursive(s, d, visited, path)`: `path` followed by
   * a walk from `s` to `d` that repeats no vertex and, after `s`, avoids
   * `visited`.
   */
  ghost predicate ExtendsWith<V(!new)>(g: map<V, set<V>>, path: seq<V>, s: V, d: V, visited: set<V>, res: seq<V>)
  {
    |res| > |path| && res[..|path|] == path &&
    WalkFromTo(g, res[|path|..], s, d) && NoDup(res[|path|..]) &&
    forall k :: |path| < k < |res| ==> res[k] !in visited
  }

  /** A find through the neighbour `n` of `s` is a find from `s`. */
  lemma ExtendsWithPrepend<V(!new)>(g: map<V, set<V>>, path: seq<V>, s: V, n: V, d: V,
                                    visited: set<V>, inner: set<V>, res: seq<V>)
    requires ExtendsWith(g, path + [s], n, d, inner, res)
    requires s in g && n in g[s] && n !in inner && s in inner && visited <= inner
    ensures ExtendsWith(g, path, s, d, visited, res)
  {
    var m := |path|;
    var tail := res[m + 1..];
    assert res[..m + 1] == path + [s];
    assert res[..m] == path && res[m] == s;
    assert res[m..] == [s] + tail;
    WalkCons(g, s, tail);
    forall j | 0 <= j < |tail|
      ensures tail[j] !in inner
    {
      if j > 0 {
        assert tail[j] == res[m + 1 + j];
      }
    }
    NoDupConcat([s], tail, inner);
  }
}
