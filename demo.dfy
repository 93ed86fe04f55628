/**
 * The driver at the end of projects/graph/graph.py: the seven-vertex graph it
 * builds, and what the traversals and searches give on it.
 */
module GraphDemo {
  import opened Walks
  import opened Frontiers
  import opened Graphs

  /** The adjacency map the driver expects to print after building the graph. */
  function DemoMap(): map<int, set<int>>
  {
    map[1 := {2}, 2 := {3, 4}, 3 := {5}, 4 := {6, 7}, 5 := {3}, 6 := {3}, 7 := {1, 6}]
  }

  /** The driver's seven vertices, none with an edge yet. */
  method AddDemoVertices(g: Graph<int>)
    modifies g
    requires g.vertices == map[]
    ensures g.vertices == map[1 := {}, 2 := {}, 3 := {}, 4 := {}, 5 := {}, 6 := {}, 7 := {}]
  {
    g.AddVertex(1);
    g.AddVertex(2);
    g.AddVertex(3);
    g.AddVertex(4);
    g.AddVertex(5);
    g.AddVertex(6);
    g.AddVertex(7);
  }

  /** One of the driver's edges, between two vertices already added: the call succeeds. */
  method AddDemoEdge(g: Graph<int>, v1: int, v2: int) returns (r: Result<()>)
    modifies g
    requires v1 in g.vertices && v2 in g.vertices
    ensures r.Ok?
    ensures g.vertices == old(g.vertices)[v1 := old(g.vertices)[v1] + {v2}]
  {
    r := g.AddEdge(v1, v2);
  }

  /** The driver's first five edges, in the driver's order. */
  method AddDemoEdgesFirst(g: Graph<int>)
    modifies g
    requires g.vertices == map[1 := {}, 2 := {}, 3 := {}, 4 := {}, 5 := {}, 6 := {}, 7 := {}]
    ensures g.vertices == map[1 := {2}, 2 := {}, 3 := {}, 4 := {7}, 5 := {3}, 6 := {3}, 7 := {1}]
  {
    var r53 := AddDemoEdge(g, 5, 3);
    var r63 := AddDemoEdge(g, 6, 3);
    var r71 := AddDemoEdge(g, 7, 1);
    var r47 := AddDemoEdge(g, 4, 7);
    var r12 := AddDemoEdge(g, 1, 2);
    assert g.vertices[1] == {2};
    assert g.vertices[4] == {7};
    assert g.vertices[5] == {3};
    assert g.vertices[6] == {3};
    assert g.vertices[7] == {1};
  }

  /** The driver's last five edges, in the driver's order. */
  method AddDemoEdgesSecond(g: Graph<int>)
    modifies g
    requires g.vertices == map[1 := {2}, 2 := {}, 3 := {}, 4 := {7}, 5 := {3}, 6 := {3}, 7 := {1}]
    ensures g.vertices == DemoMap()
  {
    var r76 := AddDemoEdge(g, 7, 6);
    var r24 := AddDemoEdge(g, 2, 4);
    var r35 := AddDemoEdge(g, 3, 5);
    var r23 := AddDemoEdge(g, 2, 3);
    var r46 := AddDemoEdge(g, 4, 6);
    assert g.vertices[2] == {3, 4};
    assert g.vertices[3] == {5};
    assert g.vertices[4] == {6, 7};
    assert g.vertices[7] == {1, 6};
  }

  /** The graph the driver builds. */
  method BuildDemo() returns (g: Graph<int>)
    ensures fresh(g) && g.vertices == DemoMap()
  {
    g := new Graph();
    AddDemoVertices(g);
    AddDemoEdgesFirst(g);
    AddDemoEdgesSecond(g);
  }

  lemma DemoClosed()
    ensures Closed(DemoMap())
  {
  }

  /** A walk that reaches 3 or 5 stays among them: their only edges are 3 -> 5 and 5 -> 3. */
  lemma {:induction false} DemoTrapped(p: seq<int>, k: nat)
    requires IsWalk(DemoMap(), p) && k < |p|
    ensures p[k] == 3 || p[k] == 5 ==> Last(p) == 3 || Last(p) == 5
    decreases |p| - k
  {
    if k < |p| - 1 {
      assert p[k + 1] in DemoMap()[p[k]];
      DemoTrapped(p, k + 1);
    }
  }

  /**
   * Every walk from 1 to 6 begins 1, 2, 4 and has at least four vertices,
   * and `[1, 2, 4, 6]` is the only one with four.
   */
  lemma DemoShortestWalk(p: seq<int>)
    requires WalkFromTo(DemoMap(), p, 1, 6)
    ensures |p| >= 4 && p[..3] == [1, 2, 4] && (|p| == 4 ==> p == [1, 2, 4, 6])
  {
    var g := DemoMap();
    assert p[0] == 1 && |p| > 1;
    assert p[1] in g[1];
    assert p[1] == 2 && |p| > 2;
    assert p[2] in g[2];
    DemoTrapped(p, 2);
    assert p[2] == 4 && |p| > 3;
    assert p[..3] == [p[0], p[1], p[2]];
    if |p| == 4 {
      assert p[3] in g[4];
      assert p == [p[0], p[1], p[2], p[3]];
    }
  }

  /** The walks from 1 to 6 that repeat no vertex are `[1, 2, 4, 6]` and `[1, 2, 4, 7, 6]`. */
  lemma DemoSimplePaths(p: seq<int>)
    requires WalkFromTo(DemoMap(), p, 1, 6) && NoDup(p)
    ensures p == [1, 2, 4, 6] || p == [1, 2, 4, 7, 6]
  {
    var g := DemoMap();
    DemoShortestWalk(p);
    assert p[0] == 1 && p[1] == 2 && p[2] == 4;
    assert p[3] in g[4];
    if p[3] == 6 {
      assert |p| == 4;
    } else {
      assert p[3] == 7 && |p| > 4 && p[4] in g[7];
      assert p[4] != p[0];
      assert p[4] == 6 && |p| == 5;
      assert p == [p[0], p[1], p[2], p[3], p[4]];
    }
  }

  /** The number of edges from 1 to each vertex of the driver's graph. */
  function DemoLayer(v: int): nat
  {
    if v == 1 then 0 else if v == 2 then 1 else if v == 3 || v == 4 then 2 else 3
  }

  /** A walk from 1 reaches no vertex in fewer edges than its layer: no edge skips a layer. */
  lemma {:induction false} DemoLayerBound(p: seq<int>, k: nat)
    requires WalkFrom(DemoMap(), p, 1) && k < |p|
    ensures DemoLayer(p[k]) <= k
  {
    if k > 0 {
      DemoLayerBound(p, k - 1);
      assert p[k] in DemoMap()[p[k - 1]];
    }
  }

  /** A walk from 1 to `v` with as many edges as the layer of `v`. */
  function DemoWalk(v: int): seq<int>
  {
    if v == 1 then [1] else if v == 2 then [1, 2] else if v == 3 then [1, 2, 3]
    else if v == 4 then [1, 2, 4] else if v == 5 then [1, 2, 3, 5]
    else if v == 6 then [1, 2, 4, 6] else [1, 2, 4, 7]
  }

  /** The distance from 1 to each vertex of the driver's graph is its layer. */
  lemma DemoDist()
    ensures forall v :: v in DemoMap() ==> Reachable(DemoMap(), 1, v) && Dist(DemoMap(), 1, v) == DemoLayer(v)
  {
    var g := DemoMap();
    forall v | v in g
      ensures Reachable(g, 1, v) && Dist(g, 1, v) == DemoLayer(v)
    {
      var w := DemoWalk(v);
      assert WalkFromTo(g, w, 1, v) && |w| == DemoLayer(v) + 1;
      forall q | WalkFromTo(g, q, 1, v)
        ensures |w| <= |q|
      {
        DemoLayerBound(q, |q| - 1);
      }
      ShortestDist(g, 1, v, w);
    }
  }

  /** Exactly the vertices of the driver's graph are reachable from 1. */
  lemma DemoAllReachable()
    ensures forall v :: Reachable(DemoMap(), 1, v) <==> v in DemoMap()
  {
    var g := DemoMap();
    DemoClosed();
    forall v | Reachable(g, 1, v)
      ensures v in g
    {
      ReachableInClosed(g, 1, v);
    }
    DemoDist();
  }

  /** A sequence that repeats nothing has as many elements as positions. */
  lemma {:induction false} NoDupCard(s: seq<int>)
    requires NoDup(s)
    ensures |Elems(s)| == |s|
  {
    if s != [] {
      var init := s[..|s| - 1];
      assert s == init + [Last(s)];
      assert NoDup(init);
      NoDupCard(init);
      assert Elems(s) == Elems(init) + {Last(s)};
    }
  }

  /** An order of the driver's vertices by distance from 1 is an order by layer. */
  lemma DemoByLayer(order: seq<int>)
    requires Elems(order) == DemoMap().Keys && InDistOrder(DemoMap(), 1, order)
    ensures forall i, j :: 0 <= i < j < |order| ==> DemoLayer(order[i]) <= DemoLayer(order[j])
  {
    DemoDist();
    forall i, j | 0 <= i < j < |order|
      ensures DemoLayer(order[i]) <= DemoLayer(order[j])
    {
      assert order[i] in Elems(order) && order[j] in Elems(order);
    }
  }

  /** An element of a seven-element sequence sits in one of its seven slots. */
  lemma InSlots(order: seq<int>, v: int)
    requires |order| == 7 && v in Elems(order)
    ensures v == order[0] || v == order[1] || v == order[2] || v == order[3] ||
            v == order[4] || v == order[5] || v == order[6]
  {
  }

  /** An order listing vertices 1 to 7 once each has seven slots. */
  lemma DemoSevenSlots(order: seq<int>)
    requires NoDup(order) && Elems(order) == {1, 2, 3, 4, 5, 6, 7}
    ensures |order| == 7
  {
    NoDupCard(order);
    assert |{1, 2, 3, 4, 5, 6, 7}| == |{1, 2, 3, 4, 5, 6} + {7}| == |{1, 2, 3, 4, 5, 6}| + 1;
  }

  /**
   * Seven distinct slots holding vertices 1 to 7 by non-decreasing layer hold
   * 1, then 2, then 3 and 4, then 5, 6 and 7.
   */
  lemma DemoSlotsByLayer(order: seq<int>)
    requires |order| == 7 && NoDup(order)
    requires forall k :: 0 <= k < 6 ==> DemoLayer(order[k]) <= DemoLayer(order[k + 1])
    requires Elems(order) == {1, 2, 3, 4, 5, 6, 7}
    ensures order[0] == 1 && order[1] == 2
    ensures {order[2], order[3]} == {3, 4} && {order[4], order[5], order[6]} == {5, 6, 7}
  {
    var a, b, c, d, e, f, h := order[0], order[1], order[2], order[3], order[4], order[5], order[6];
    assert DemoLayer(a) <= DemoLayer(b) <= DemoLayer(c) <= DemoLayer(d);
    assert DemoLayer(d) <= DemoLayer(e) <= DemoLayer(f) <= DemoLayer(h);
    assert a != b && a != c && a != d && a != e && a != f && a != h;
    assert b != c && b != d && b != e && b != f && b != h;
    assert c != d && c != e && c != f && c != h;
    assert d != e && d != f && d != h && e != f && e != h && f != h;
    InSlots(order, 1);
    InSlots(order, 2);
    InSlots(order, 3);
    InSlots(order, 4);
    InSlots(order, 5);
    InSlots(order, 6);
    InSlots(order, 7);
  }

  /**
   * The orders the driver lists as valid for `bft(1)` are 1, 2, then 3 and 4
   * in either order, then 5, 6 and 7 in any order: every order that lists the
   * driver's vertices once each by distance from 1 is one of them.
   */
  lemma DemoBftOrders(order: seq<int>)
    requires NoDup(order) && Elems(order) == DemoMap().Keys && InDistOrder(DemoMap(), 1, order)
    ensures |order| == 7 && order[0] == 1 && order[1] == 2
    ensures {order[2], order[3]} == {3, 4} && {order[4], order[5], order[6]} == {5, 6, 7}
  {
    DemoByLayer(order);
    assert Elems(order) == {1, 2, 3, 4, 5, 6, 7};
    DemoSevenSlots(order);
    DemoSlotsByLayer(order);
  }

  /**
   * `bft(1)` on the driver's graph emits all seven vertices once, in one of
   * the twelve orders the driver lists as valid.
   */
  method DemoBft(g: Graph<int>) returns (order: seq<int>)
    requires g.vertices == DemoMap()
    ensures |order| > 0 && order[0] == 1 && NoDup(order) && Elems(order) == DemoMap().Keys
    ensures |order| == 7 && order[1] == 2
    ensures {order[2], order[3]} == {3, 4} && {order[4], order[5], order[6]} == {5, 6, 7}
  {
    DemoClosed();
    DemoAllReachable();
    var status;
    order, status := g.Bft(1);
    assert forall v :: v in Elems(order) <==> v in DemoMap();
    DemoBftOrders(order);
  }

  /** `dft(1)` on the driver's graph emits all seven vertices once, starting at 1. */
  method DemoDft(g: Graph<int>) returns (order: seq<int>)
    requires g.vertices == DemoMap()
    ensures |order| > 0 && order[0] == 1 && NoDup(order) && Elems(order) == DemoMap().Keys
  {
    DemoClosed();
    DemoAllReachable();
    var status;
    order, status := g.Dft(1);
    assert forall v :: v in Elems(order) <==> v in DemoMap();
  }

  /** `dft_recursive(1)` on the driver's graph emits all seven vertices once, starting at 1. */
  method DemoDftRecursive(g: Graph<int>) returns (order: seq<int>)
    requires g.vertices == DemoMap()
    ensures |order| > 0 && order[0] == 1 && NoDup(order) && Elems(order) == DemoMap().Keys
  {
    DemoClosed();
    DemoAllReachable();
    var status;
    order, status := g.DftRecursive(1);
    assert forall v :: v in Elems(order) <==> v in DemoMap();
  }

  /** `bfs(1, 6)` on the driver's graph finds the path the driver expects. */
  method DemoBfs(g: Graph<int>) returns (r: Result<Option<seq<int>>>)
    requires g.vertices == DemoMap()
    ensures r == Ok(Some([1, 2, 4, 6]))
  {
    DemoClosed();
    DemoAllReachable();
    r := g.Bfs(1, 6);
    DemoShortestWalk(r.value.value);
    assert WalkFromTo(g.vertices, [1, 2, 4, 6], 1, 6);
  }

  /** `dfs(1, 6)` on the driver's graph finds one of the two paths the driver allows. */
  method DemoDfs(g: Graph<int>) returns (r: Result<Option<seq<int>>>)
    requires g.vertices == DemoMap()
    ensures r == Ok(Some([1, 2, 4, 6])) || r == Ok(Some([1, 2, 4, 7, 6]))
  {
    DemoClosed();
    DemoAllReachable();
    r := g.Dfs(1, 6);
    DemoSimplePaths(r.value.value);
  }

  /** `dfs_recursive(1, 6)` on the driver's graph finds one of the two paths the driver allows. */
  method DemoDfsRecursive(g: Graph<int>) returns (r: Result<Option<seq<int>>>)
    requires g.vertices == DemoMap()
    ensures r == Ok(Some([1, 2, 4, 6])) || r == Ok(Some([1, 2, 4, 7, 6]))
  {
    DemoClosed();
    DemoAllReachable();
    r := g.DfsRecursive(1, 6);
    DemoSimplePaths(r.value.value);
  }

  /**
   * Starting from 99, which is not a vertex of the driver's graph, every
   * traversal and every search towards 1 raises.
   */
  method DemoMissingStart(g: Graph<int>) returns (bft: Result<()>, dft: Result<()>, dftRec: Result<()>,
                                                  bfs: Result<Option<seq<int>>>, dfs: Result<Option<seq<int>>>,
                                                  dfsRec: Result<Option<seq<int>>>)
    requires g.vertices == DemoMap()
    ensures bft.Err? && dft.Err? && dftRec.Err? && bfs.Err? && dfs.Err? && dfsRec.Err?
  {
    var order;
    ReachableSelf(g.vertices, 99);
    order, bft := g.Bft(99);
    order, dft := g.Dft(99);
    order, dftRec := g.DftRecursive(99);
    bfs := g.Bfs(99, 1);
    dfs := g.Dfs(99, 1);
    dfsRec := g.DfsRecursive(99, 1);
  }

  /** The chain `0 -> 1 -> 2`. */
  function ChainMap(): map<int, set<int>>
  {
    map[0 := {1}, 1 := {2}, 2 := {}]
  }

  /** With 1 already visited, nothing but 0 itself is reachable from 0 in the chain. */
  lemma ChainAvoiding(t: int)
    requires ReachableAvoiding(ChainMap(), 0, t, {1})
    ensures t == 0
  {
    var p :| WalkFromTo(ChainMap(), p, 0, t) && forall k :: 0 < k < |p| ==> p[k] !in {1};
    WalkFirstEdge(ChainMap(), p);
    if |p| > 1 {
      assert false;
    }
  }

  /**
   * `dft_recursive(0, {1})` and `dfs_recursive(0, 2, {1})` on the chain: 1 is
   * already visited, so the traversal prints only 0 and both calls add only 0
   * to the shared visited set.
   */
  method DemoSharedVisited(g: Graph<int>) returns (order: seq<int>, dftVisited: set<int>, dfsVisited: set<int>)
    requires g.vertices == ChainMap()
    ensures order == [0] && dftVisited == {0, 1} && dfsVisited == {0, 1}
  {
    var status, r;
    dftVisited, order, status := g.DftFrom(0, {1});
    forall i | 0 <= i < |order|
      ensures order[i] == 0
    {
      ChainAvoiding(order[i]);
    }
    NoDupCard(order);
    assert Elems(order) == {0};
    dfsVisited, r := g.DfsFrom(0, 2, {1}, []);
    forall u | u in dfsVisited
      ensures u in {0, 1}
    {
      if u !in {1} {
        ChainAvoiding(u);
      }
    }
  }
}
