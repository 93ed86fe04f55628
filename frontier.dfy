/**
 * The loop state of `bft` and `bfs`, on which both are proved. The queue is
 * seen as a sequence of walks from the start vertex, one per queued entry
 * (`bfs` holds these walks itself, `bft` keeps them as ghost state beside its
 * queue of vertices). `best` records, for each visited vertex, the walk it was
 * first dequeued with, which is a shortest walk to it.
 */
module Frontiers {
  import opened Walks

  /** Some queued walk of at most `bound` vertices ends at `w`. */
  ghost predicate Queued<V(!new)>(qp: seq<seq<V>>, w: V, bound: nat)
  {
    exists i :: 0 <= i < |qp| && |qp[i]| > 0 && Last(qp[i]) == w && |qp[i]| <= bound
  }

  /** Every queued walk starts at `s`. */
  ghost predicate WalksFrom<V(!new)>(g: map<V, set<V>>, s: V, qp: seq<seq<V>>)
  {
    forall i :: 0 <= i < |qp| ==> WalkFrom(g, qp[i], s)
  }

  /** Walk lengths never decrease along the queue and grow by at most one. */
  ghost predicate Layered<V(!new)>(qp: seq<seq<V>>)
  {
    (forall i, j :: 0 <= i <= j < |qp| ==> |qp[i]| <= |qp[j]|) &&
    (|qp| > 0 ==> |qp[|qp| - 1]| <= |qp[0]| + 1)
  }

  /** `best` maps exactly the visited vertices, each to a shortest walk to it from `s`. */
  ghost predicate Settled<V(!new)>(g: map<V, set<V>>, s: V, visited: set<V>, best: map<V, seq<V>>)
  {
    best.Keys == visited &&
    forall v :: v in visited ==> Shortest(g, s, v, best[v])
  }

  /**
   * Every edge out of a visited vertex `u` ends in a visited vertex or in a
   * queued walk one vertex longer than the shortest walk to `u`, except the
   * edges from `x` into `pending`.
   */
  ghost predicate Covered<V(!new)>(g: map<V, set<V>>, qp: seq<seq<V>>, visited: set<V>,
                                   best: map<V, seq<V>>, x: V, pending: set<V>)
  {
    forall u, w :: u in visited && u in best && u in g && w in g[u] && !(u == x && w in pending) ==>
      w in visited || Queued(qp, w, |best[u]| + 1)
  }

  /**
   * The whole loop state. Besides the parts above: no visited vertex lies
   * beyond the front of the queue; before the first visit the queue is the
   * start alone, and afterwards the start is visited; while the neighbours
   * `pending` of the vertex `x` just visited are being enqueued, `x` is the
   * farthest visited vertex and the queue holds no walk longer than the ones
   * still to come.
   */
  ghost predicate Frontier<V(!new)>(g: map<V, set<V>>, s: V, qp: seq<seq<V>>, visited: set<V>,
                                     best: map<V, seq<V>>, x: V, pending: set<V>)
  {
    WalksFrom(g, s, qp) && Layered(qp) && Settled(g, s, visited, best) &&
    (forall v :: v in visited && |qp| > 0 ==> |best[v]| <= |qp[0]|) &&
    Covered(g, qp, visited, best, x, pending) &&
    (visited == {} ==> qp == [[s]]) &&
    (visited != {} ==> s in visited) &&
    (pending != {} ==>
       x in visited && x in g && pending <= g[x] && (forall v :: v in visited ==> |best[v]| <= |best[x]|) &&
       (|qp| > 0 ==> |qp[|qp| - 1]| <= |best[x]| + 1))
  }

  /**
   * The heart of breadth-first search: no walk to the end of the front walk
   * is shorter than it, when that end is not yet visited.
   */
  lemma FrontIsShortest<V(!new)>(g: map<V, set<V>>, s: V, qp: seq<seq<V>>, visited: set<V>,
                                 best: map<V, seq<V>>, x: V, w: seq<V>)
    requires Frontier(g, s, qp, visited, best, x, {})
    requires |qp| > 0 && |qp[0]| > 0 && Last(qp[0]) !in visited
    requires WalkFromTo(g, w, s, Last(qp[0]))
    ensures |qp[0]| <= |w|
  {
    if visited != {} {
      var j := ExitIndex(visited, w);
      var u := w[j - 1];
      WalkPrefix(g, w, j);
      assert WalkFromTo(g, w[..j], s, u);
      assert |best[u]| <= j;
      assert u in g && w[j] in g[u];
      var i :| 0 <= i < |qp| && |qp[i]| > 0 && Last(qp[i]) == w[j] && |qp[i]| <= |best[u]| + 1;
      assert |qp[0]| <= |qp[i]|;
    }
  }

  /**
   * The front walk, when its end is unvisited, is a shortest walk to that end,
   * and no visited vertex has a longer one.
   */
  lemma FrontShortest<V(!new)>(g: map<V, set<V>>, s: V, qp: seq<seq<V>>, visited: set<V>,
                               best: map<V, seq<V>>, x: V)
    requires Frontier(g, s, qp, visited, best, x, {})
    requires |qp| > 0 && |qp[0]| > 0 && Last(qp[0]) !in visited
    ensures Shortest(g, s, Last(qp[0]), qp[0])
    ensures forall v :: v in visited ==> |best[v]| <= |qp[0]|
  {
    forall w | WalkFromTo(g, w, s, Last(qp[0]))
      ensures |qp[0]| <= |w|
    {
      FrontIsShortest(g, s, qp, visited, best, x, w);
    }
  }

  /** In a closed graph containing `s`, the front walk ends at a vertex of the graph. */
  lemma FrontInGraph<V(!new)>(g: map<V, set<V>>, s: V, qp: seq<seq<V>>)
    requires WalksFrom(g, s, qp) && |qp| > 0
    ensures |qp[0]| > 0
    ensures Closed(g) && s in g ==> Last(qp[0]) in g
  {
    assert WalkFrom(g, qp[0], s);
    if Closed(g) && s in g {
      WalkEndsInClosed(g, qp[0]);
    }
  }

  /** The front walk, when its end is unvisited, is a shortest walk there and repeats no vertex. */
  lemma FrontFound<V(!new)>(g: map<V, set<V>>, s: V, qp: seq<seq<V>>, visited: set<V>,
                            best: map<V, seq<V>>, x: V)
    requires Frontier(g, s, qp, visited, best, x, {})
    requires |qp| > 0 && |qp[0]| > 0 && Last(qp[0]) !in visited
    ensures Shortest(g, s, Last(qp[0]), qp[0]) && NoDup(qp[0])
  {
    FrontShortest(g, s, qp, visited, best, x);
    ShortestIsSimple(g, s, Last(qp[0]), qp[0]);
  }

  lemma WalksFromTail<V(!new)>(g: map<V, set<V>>, s: V, qp: seq<seq<V>>)
    requires WalksFrom(g, s, qp) && |qp| > 0
    ensures WalksFrom(g, s, qp[1..])
  {
    forall i | 0 <= i < |qp| - 1
      ensures WalkFrom(g, qp[1..][i], s)
    {
      assert qp[1..][i] == qp[i + 1];
    }
  }

  lemma LayeredTail<V(!new)>(qp: seq<seq<V>>)
    requires Layered(qp) && |qp| > 0
    ensures Layered(qp[1..])
  {
    forall i, j | 0 <= i <= j < |qp| - 1
      ensures |qp[1..][i]| <= |qp[1..][j]|
    {
      assert qp[1..][i] == qp[i + 1] && qp[1..][j] == qp[j + 1];
    }
    if |qp| > 1 {
      assert qp[1..][0] == qp[1] && qp[1..][|qp| - 2] == qp[|qp| - 1];
    }
  }

  /** Dequeuing the front walk when its end is already visited. */
  lemma CoveredTail<V(!new)>(g: map<V, set<V>>, qp: seq<seq<V>>, visited: set<V>,
                             best: map<V, seq<V>>, x: V, pending: set<V>)
    requires Covered(g, qp, visited, best, x, pending)
    requires |qp| > 0 && |qp[0]| > 0 && Last(qp[0]) in visited
    ensures Covered(g, qp[1..], visited, best, x, pending)
  {
    forall u, w | u in visited && u in best && u in g && w in g[u] && !(u == x && w in pending) && w !in visited
      ensures Queued(qp[1..], w, |best[u]| + 1)
    {
      var i :| 0 <= i < |qp| && |qp[i]| > 0 && Last(qp[i]) == w && |qp[i]| <= |best[u]| + 1;
      assert qp[1..][i - 1] == qp[i];
    }
  }

  /** Visiting `v`: its out-edges are the ones now pending. */
  lemma CoveredVisit<V(!new)>(g: map<V, set<V>>, qp: seq<seq<V>>, visited: set<V>,
                              best: map<V, seq<V>>, x: V, v: V, p: seq<V>)
    requires Covered(g, qp, visited, best, x, {}) && v !in visited && v in g
    ensures Covered(g, qp, visited + {v}, best[v := p], v, g[v])
  {
  }

  /** Dequeuing a walk to a visited vertex keeps the frontier. */
  lemma FrontierDiscard<V(!new)>(g: map<V, set<V>>, s: V, qp: seq<seq<V>>, visited: set<V>,
                                 best: map<V, seq<V>>, x: V)
    requires Frontier(g, s, qp, visited, best, x, {})
    requires |qp| > 0 && |qp[0]| > 0 && Last(qp[0]) in visited
    ensures Frontier(g, s, qp[1..], visited, best, x, {})
  {
    WalksFromTail(g, s, qp);
    LayeredTail(qp);
    CoveredTail(g, qp, visited, best, x, {});
    if |qp| > 1 {
      assert qp[1..][0] == qp[1] && |qp[0]| <= |qp[1]|;
    }
  }

  /**
   * Dequeuing a walk to an unvisited vertex `v` of the graph: `v` becomes
   * visited with that walk, and its neighbours are pending.
   */
  lemma FrontierVisit<V(!new)>(g: map<V, set<V>>, s: V, qp: seq<seq<V>>, visited: set<V>,
                               best: map<V, seq<V>>, x: V)
    requires Frontier(g, s, qp, visited, best, x, {})
    requires |qp| > 0 && |qp[0]| > 0 && Last(qp[0]) !in visited && Last(qp[0]) in g
    ensures Frontier(g, s, qp[1..], visited + {Last(qp[0])}, best[Last(qp[0]) := qp[0]],
                     Last(qp[0]), g[Last(qp[0])])
  {
    var v := Last(qp[0]);
    FrontShortest(g, s, qp, visited, best, x);
    WalksFromTail(g, s, qp);
    LayeredTail(qp);
    CoveredVisit(g, qp, visited, best, x, v, qp[0]);
    CoveredTail(g, qp, visited + {v}, best[v := qp[0]], v, g[v]);
    if |qp| > 1 {
      assert qp[1..][0] == qp[1] && |qp[0]| <= |qp[1]|;
      assert qp[1..][|qp| - 2] == qp[|qp| - 1];
    }
  }

  lemma WalksFromExtend<V(!new)>(g: map<V, set<V>>, s: V, qp: seq<seq<V>>, p: seq<V>, x: V, ws: seq<V>)
    requires WalksFrom(g, s, qp) && WalkFromTo(g, p, s, x) && x in g && Elems(ws) <= g[x]
    ensures WalksFrom(g, s, qp + Extend(p, ws))
  {
    var q := qp + Extend(p, ws);
    forall i | 0 <= i < |q|
      ensures WalkFrom(g, q[i], s)
    {
      if i >= |qp| {
        var w := ws[i - |qp|];
        assert w in Elems(ws) && q[i] == p + [w];
        WalkSnoc(g, p, s, w);
      } else {
        assert q[i] == qp[i];
      }
    }
  }

  lemma LayeredExtend<V(!new)>(qp: seq<seq<V>>, p: seq<V>, ws: seq<V>)
    requires Layered(qp)
    requires |qp| > 0 ==> |qp[|qp| - 1]| <= |p| + 1 && |p| <= |qp[0]|
    ensures Layered(qp + Extend(p, ws))
  {
    var q := qp + Extend(p, ws);
    forall i | |qp| <= i < |q|
      ensures |q[i]| == |p| + 1
    {
      assert q[i] == p + [ws[i - |qp|]];
    }
    forall i | 0 <= i < |qp|
      ensures q[i] == qp[i]
    {
    }
  }

  lemma CoveredExtend<V(!new)>(g: map<V, set<V>>, qp: seq<seq<V>>, visited: set<V>, best: map<V, seq<V>>,
                               x: V, pending: set<V>, p: seq<V>, ws: seq<V>)
    requires Covered(g, qp, visited, best, x, pending)
    requires x in best && |p| == |best[x]|
    ensures Covered(g, qp + Extend(p, ws), visited, best, x, pending - Elems(ws))
  {
    var q := qp + Extend(p, ws);
    forall u, y | u in visited && u in best && u in g && y in g[u] && !(u == x && y in pending - Elems(ws)) && y !in visited
      ensures Queued(q, y, |best[u]| + 1)
    {
      if u == x && y in pending {
        var k :| 0 <= k < |ws| && ws[k] == y;
        assert q[|qp| + k] == p + [y];
      } else {
        var i :| 0 <= i < |qp| && |qp[i]| > 0 && Last(qp[i]) == y && |qp[i]| <= |best[u]| + 1;
        assert q[i] == qp[i];
      }
    }
  }

  /** Enqueuing `p + [w]` for the pending neighbours `w` of `x` in `ws`, in order. */
  lemma FrontierEnqueueAll<V(!new)>(g: map<V, set<V>>, s: V, qp: seq<seq<V>>, visited: set<V>,
                                    best: map<V, seq<V>>, x: V, pending: set<V>, p: seq<V>, ws: seq<V>)
    requires Frontier(g, s, qp, visited, best, x, pending)
    requires WalkFromTo(g, p, s, x) && x in best && |p| == |best[x]|
    requires Elems(ws) <= pending
    ensures Frontier(g, s, qp + Extend(p, ws), visited, best, x, pending - Elems(ws))
  {
    if ws == [] {
      assert qp + Extend(p, ws) == qp;
      assert pending - Elems(ws) == pending;
    } else {
      var q := qp + Extend(p, ws);
      assert q[|q| - 1] == p + [ws[|ws| - 1]];
      assert |qp| > 0 ==> q[0] == qp[0];
      assert ws[0] in Elems(ws);
      WalksFromExtend(g, s, qp, p, x, ws);
      LayeredExtend(qp, p, ws);
      CoveredExtend(g, qp, visited, best, x, pending, p, ws);
    }
  }

  /**
   * One visit: the front walk, to the unvisited vertex `v`, is dequeued, `v`
   * becomes visited with that walk, and the walk extended by each neighbour
   * of `v` (taken in the order `ws`) is enqueued.
   */
  lemma FrontierStep<V(!new)>(g: map<V, set<V>>, s: V, qp: seq<seq<V>>, visited: set<V>,
                              best: map<V, seq<V>>, x: V, ws: seq<V>)
    requires Frontier(g, s, qp, visited, best, x, {})
    requires |qp| > 0 && |qp[0]| > 0 && Last(qp[0]) !in visited && Last(qp[0]) in g
    requires Elems(ws) == g[Last(qp[0])]
    ensures Frontier(g, s, qp[1..] + Extend(qp[0], ws), visited + {Last(qp[0])},
                     best[Last(qp[0]) := qp[0]], Last(qp[0]), {})
  {
    var v := Last(qp[0]);
    FrontierVisit(g, s, qp, visited, best, x);
    assert WalkFromTo(g, qp[0], s, v);
    FrontierEnqueueAll(g, s, qp[1..], visited + {v}, best[v := qp[0]], v, g[v], qp[0], ws);
    assert g[v] - Elems(ws) == {};
  }

  /** Once the queue is empty, exactly the vertices reachable from `s` are visited. */
  lemma FrontierDone<V(!new)>(g: map<V, set<V>>, s: V, visited: set<V>, best: map<V, seq<V>>, x: V)
    requires Frontier(g, s, [], visited, best, x, {})
    ensures forall t :: t in visited <==> Reachable(g, s, t)
  {
    assert ClosedUnder(g, visited);
    ClosedSetHoldsReachable(g, visited, s);
    forall t | t in visited
      ensures Reachable(g, s, t)
    {
      assert WalkFromTo(g, best[t], s, t);
    }
  }

  /** `order` lists vertices reachable from `s` by non-decreasing distance. */
  ghost predicate InDistOrder<V(!new)>(g: map<V, set<V>>, s: V, order: seq<V>)
  {
    (forall i :: 0 <= i < |order| ==> Reachable(g, s, order[i])) &&
    (forall i, j :: 0 <= i < j < |order| ==> Dist(g, s, order[i]) <= Dist(g, s, order[j]))
  }

  /** `order` lists vertices settled in `best` by non-decreasing length of their walks. */
  ghost predicate ByWalkLength<V(!new)>(best: map<V, seq<V>>, order: seq<V>)
  {
    (forall i :: 0 <= i < |order| ==> order[i] in best) &&
    (forall i, j :: 0 <= i < j < |order| ==> |best[order[i]]| <= |best[order[j]]|)
  }

  /** Listing settled vertices by the length of their shortest walks lists them by distance. */
  lemma ByWalkLengthInDistOrder<V(!new)>(g: map<V, set<V>>, s: V, visited: set<V>,
                                         best: map<V, seq<V>>, order: seq<V>)
    requires Settled(g, s, visited, best) && ByWalkLength(best, order)
    ensures InDistOrder(g, s, order)
  {
    forall i | 0 <= i < |order|
      ensures Reachable(g, s, order[i]) && Dist(g, s, order[i]) == |best[order[i]]| - 1
    {
      ShortestDist(g, s, order[i], best[order[i]]);
    }
  }

  /** `queue[i]` is the end of the ghost walk `walks[i]`. */
  ghost predicate Tracks<V(!new)>(queue: seq<V>, walks: seq<seq<V>>)
  {
    |queue| == |walks| && forall i :: 0 <= i < |queue| ==> |walks[i]| > 0 && queue[i] == Last(walks[i])
  }

  lemma TracksTail<V(!new)>(queue: seq<V>, walks: seq<seq<V>>)
    requires Tracks(queue, walks) && |queue| > 0
    ensures Tracks(queue[1..], walks[1..]) && queue[0] == Last(walks[0])
  {
    forall i | 0 <= i < |queue| - 1
      ensures |walks[1..][i]| > 0 && queue[1..][i] == Last(walks[1..][i])
    {
      assert queue[1..][i] == queue[i + 1] && walks[1..][i] == walks[i + 1];
    }
  }

  lemma TracksExtend<V(!new)>(queue: seq<V>, walks: seq<seq<V>>, p: seq<V>, ws: seq<V>)
    requires Tracks(queue, walks)
    ensures Tracks(queue + ws, walks + Extend(p, ws))
  {
    var q, w := queue + ws, walks + Extend(p, ws);
    forall i | 0 <= i < |q|
      ensures |w[i]| > 0 && q[i] == Last(w[i])
    {
      if i >= |queue| {
        assert q[i] == ws[i - |queue|] && w[i] == p + [ws[i - |queue|]];
      }
    }
  }

  /**
   * The loop state of `bft`: the frontier of the ghost walks behind its queue
   * of vertices, and `order`, the vertices emitted so far, lists the visited
   * ones once each by non-decreasing length of their shortest walks, the
   * start first; and every visited vertex is a key of the graph.
   */
  ghost predicate BftState<V(!new)>(g: map<V, set<V>>, s: V, queue: seq<V>, walks: seq<seq<V>>,
                                    visited: set<V>, best: map<V, seq<V>>, x: V, order: seq<V>)
  {
    Tracks(queue, walks) && Frontier(g, s, walks, visited, best, x, {}) &&
    (forall v :: v in visited <==> v in order) &&
    NoDup(order) && ByWalkLength(best, order) &&
    (|order| > 0 ==> order[0] == s) &&
    visited <= g.Keys
  }

  /**
   * Emitting the unvisited vertex at the front of the queue, settled with
   * the front walk, keeps the emitted vertices free of repetitions and by
   * non-decreasing length of their shortest walks.
   */
  lemma BftEmit<V(!new)>(g: map<V, set<V>>, s: V, queue: seq<V>, walks: seq<seq<V>>,
                         visited: set<V>, best: map<V, seq<V>>, x: V, order: seq<V>)
    requires BftState(g, s, queue, walks, visited, best, x, order)
    requires |queue| > 0 && queue[0] !in visited
    ensures WalkFromTo(g, walks[0], s, queue[0])
    ensures Settled(g, s, visited + {queue[0]}, best[queue[0] := walks[0]])
    ensures NoDup(order + [queue[0]]) && ByWalkLength(best[queue[0] := walks[0]], order + [queue[0]])
    ensures (order + [queue[0]])[0] == s
  {
    FrontShortest(g, s, walks, visited, best, x);
    NoDupSnoc(order, queue[0]);
    ByWalkLengthSnoc(best, order, queue[0], walks[0]);
  }

  /** Appending a vertex whose walk is no shorter than any settled one keeps the order. */
  lemma ByWalkLengthSnoc<V(!new)>(best: map<V, seq<V>>, order: seq<V>, v: V, p: seq<V>)
    requires ByWalkLength(best, order) && v !in best
    requires forall u :: u in best ==> |best[u]| <= |p|
    ensures ByWalkLength(best[v := p], order + [v])
  {
    var best', o := best[v := p], order + [v];
    forall i, j | 0 <= i < j < |o|
      ensures |best'[o[i]]| <= |best'[o[j]]|
    {
      assert o[i] == order[i] && o[i] in best;
      if j < |order| {
        assert o[j] == order[j];
      }
    }
  }

  /** In a closed graph containing `s`, the vertex at the front of the queue of `bft` is in the graph. */
  lemma BftFrontInGraph<V(!new)>(g: map<V, set<V>>, s: V, queue: seq<V>, walks: seq<seq<V>>,
                                 visited: set<V>, best: map<V, seq<V>>, x: V, order: seq<V>)
    requires BftState(g, s, queue, walks, visited, best, x, order) && |queue| > 0
    ensures Closed(g) && s in g ==> queue[0] in g
  {
    FrontInGraph(g, s, walks);
  }

  /** The state after a visit of `bft`, which enqueues the neighbours in the order `added`. */
  lemma BftVisit<V(!new)>(g: map<V, set<V>>, s: V, queue: seq<V>, walks: seq<seq<V>>,
                          visited: set<V>, best: map<V, seq<V>>, x: V, order: seq<V>, added: seq<V>)
    requires BftState(g, s, queue, walks, visited, best, x, order)
    requires |queue| > 0 && queue[0] !in visited && queue[0] in g
    requires NoDup(added) && Elems(added) == g[queue[0]]
    ensures BftState(g, s, queue[1..] + added, walks[1..] + Extend(walks[0], added), visited + {queue[0]},
                     best[queue[0] := walks[0]], queue[0], order + [queue[0]])
  {
    BftEmit(g, s, queue, walks, visited, best, x, order);
    FrontierStep(g, s, walks, visited, best, x, added);
    TracksTail(queue, walks);
    TracksExtend(queue[1..], walks[1..], walks[0], added);
  }

  /** Dequeuing a vertex `bft` has already visited. */
  lemma BftDiscard<V(!new)>(g: map<V, set<V>>, s: V, queue: seq<V>, walks: seq<seq<V>>,
                            visited: set<V>, best: map<V, seq<V>>, x: V, order: seq<V>)
    requires BftState(g, s, queue, walks, visited, best, x, order)
    requires |queue| > 0 && queue[0] in visited
    ensures BftState(g, s, queue[1..], walks[1..], visited, best, x, order)
  {
    TracksTail(queue, walks);
    FrontierDiscard(g, s, walks, visited, best, x);
  }

  /**
   * `bft` stopping at the unvisited front vertex, which it has just emitted
   * and which is missing: what it emitted is in distance order, and a
   * vertex reachable from `s` is missing.
   */
  lemma BftStop<V(!new)>(g: map<V, set<V>>, s: V, queue: seq<V>, walks: seq<seq<V>>,
                         visited: set<V>, best: map<V, seq<V>>, x: V, order: seq<V>)
    requires BftState(g, s, queue, walks, visited, best, x, order)
    requires |queue| > 0 && queue[0] !in visited && queue[0] !in g
    ensures NoDup(order + [queue[0]]) && InDistOrder(g, s, order + [queue[0]])
    ensures (order + [queue[0]])[0] == s
    ensures !NoMissingFrom(g, s)
  {
    BftEmit(g, s, queue, walks, visited, best, x, order);
    ByWalkLengthInDistOrder(g, s, visited + {queue[0]}, best[queue[0] := walks[0]], order + [queue[0]]);
    assert (order + [queue[0]])[|order|] == queue[0];
    MissingFrom(g, s, queue[0]);
  }

  /**
   * When the queue of `bft` runs empty it has emitted every reachable vertex,
   * by distance, and none of them is missing.
   */
  lemma BftDone<V(!new)>(g: map<V, set<V>>, s: V, walks: seq<seq<V>>, visited: set<V>,
                         best: map<V, seq<V>>, x: V, order: seq<V>)
    requires BftState(g, s, [], walks, visited, best, x, order)
    ensures |order| > 0 && (forall t :: t in order <==> Reachable(g, s, t))
    ensures InDistOrder(g, s, order)
    ensures NoMissingFrom(g, s)
  {
    assert walks == [];
    FrontierDone(g, s, visited, best, x);
    assert s in visited;
    ByWalkLengthInDistOrder(g, s, visited, best, order);
    NoMissingWithin(g, s, visited);
  }
}
