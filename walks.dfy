/**
 * Walks, reachability and shortest distances in a directed graph given as an
 * adjacency map: every key is a vertex and maps to the set of its out-neighbours.
 * These are the reference definitions the traversals and searches of the
 * Graphs module are proved against.
 */
module Walks {

  /** The last element of a non-empty sequence (Python's `path[-1]`). */
  function Last<V(!new)>(p: seq<V>): V
    requires |p| > 0
  {
    p[|p| - 1]
  }

  /** No element occurs twice in `s`. */
  ghost predicate NoDup<V(!new)>(s: seq<V>)
  {
    forall i, j :: 0 <= i < j < |s| ==> s[i] != s[j]
  }

  /** `p` is a walk in `g`: it is non-empty and each consecutive pair is an edge. */
  ghost predicate IsWalk<V(!new)>(g: map<V, set<V>>, p: seq<V>)
  {
    |p| > 0 &&
    forall i :: 0 <= i < |p| - 1 ==> p[i] in g && p[i + 1] in g[p[i]]
  }

  ghost predicate WalkFrom<V(!new)>(g: map<V, set<V>>, p: seq<V>, s: V)
  {
    IsWalk(g, p) && p[0] == s
  }

  ghost predicate WalkFromTo<V(!new)>(g: map<V, set<V>>, p: seq<V>, s: V, t: V)
  {
    WalkFrom(g, p, s) && Last(p) == t
  }

  /** Some walk leads from `s` to `t` (always true of `t == s`). */
  ghost predicate Reachable<V(!new)>(g: map<V, set<V>>, s: V, t: V)
  {
    exists p :: WalkFromTo(g, p, s, t)
  }

  /** `n` is the least number of edges of a walk from `s` to `t`. */
  ghost predicate IsDist<V(!new)>(g: map<V, set<V>>, s: V, t: V, n: nat)
  {
    (exists p :: WalkFromTo(g, p, s, t) && |p| == n + 1) &&
    (forall p :: WalkFromTo(g, p, s, t) ==> n + 1 <= |p|)
  }

  /** Every edge of `g` leads to a key of `g`: no dangling neighbour. */
  ghost predicate Closed<V(!new)>(g: map<V, set<V>>)
  {
    forall u, w :: u in g && w in g[u] ==> w in g
  }

  /** Every edge leaving a vertex of `S` ends in `S`. */
  ghost predicate ClosedUnder<V(!new)>(g: map<V, set<V>>, S: set<V>)
  {
    forall u, w :: u in S && u in g && w in g[u] ==> w in S
  }

  /**
   * Every vertex reachable from `s` is a key of `g`, so a traversal from `s`
   * never asks for the neighbours of a missing vertex.
   */
  ghost predicate NoMissingFrom<V(!new)>(g: map<V, set<V>>, s: V)
  {
    forall t :: Reachable(g, s, t) ==> t in g
  }

  /** A missing vertex that is reachable from `s` is one a traversal from `s` can run into. */
  lemma MissingFrom<V(!new)>(g: map<V, set<V>>, s: V, t: V)
    requires Reachable(g, s, t) && t !in g
    ensures !NoMissingFrom(g, s)
  {
  }

  /** If the vertices reachable from `s` all lie in a set of keys, none is missing. */
  lemma NoMissingWithin<V(!new)>(g: map<V, set<V>>, s: V, S: set<V>)
    requires S <= g.Keys && forall t :: Reachable(g, s, t) ==> t in S
    ensures NoMissingFrom(g, s)
  {
  }

  lemma ReachableSelf<V(!new)>(g: map<V, set<V>>, s: V)
    ensures Reachable(g, s, s)
  {
    assert WalkFromTo(g, [s], s, s);
  }

  /** The end of a walk from `s` is reachable from `s`. */
  lemma WalkReachable<V(!new)>(g: map<V, set<V>>, p: seq<V>, s: V)
    requires WalkFrom(g, p, s)
    ensures Reachable(g, s, Last(p))
  {
    assert WalkFromTo(g, p, s, Last(p));
  }

  /** A walk between two different vertices leaves its start along an edge, so the start is a key. */
  lemma WalkLeavesStart<V(!new)>(g: map<V, set<V>>, p: seq<V>, s: V, t: V)
    requires WalkFromTo(g, p, s, t) && s != t
    ensures s in g
  {
    assert |p| > 1;
  }

  /** A walk of more than one vertex leaves its start along an edge. */
  lemma WalkFirstEdge<V(!new)>(g: map<V, set<V>>, p: seq<V>)
    requires IsWalk(g, p)
    ensures |p| > 1 ==> p[0] in g && p[1] in g[p[0]]
  {
  }

  /** Extending a walk by one edge gives a walk. */
  lemma WalkSnoc<V(!new)>(g: map<V, set<V>>, p: seq<V>, s: V, w: V)
    requires WalkFrom(g, p, s) && Last(p) in g && w in g[Last(p)]
    ensures WalkFromTo(g, p + [w], s, w) && |p + [w]| == |p| + 1
  {
    var q := p + [w];
    forall i | 0 <= i < |q| - 1
      ensures q[i] in g && q[i + 1] in g[q[i]]
    {
      if i < |p| - 1 {
        assert q[i] == p[i] && q[i + 1] == p[i + 1];
      }
    }
  }

  /** A non-empty prefix of a walk is a walk. */
  lemma WalkPrefix<V(!new)>(g: map<V, set<V>>, p: seq<V>, k: nat)
    requires IsWalk(g, p) && 0 < k <= |p|
    ensures IsWalk(g, p[..k]) && p[..k][0] == p[0] && Last(p[..k]) == p[k - 1]
  {
    var q := p[..k];
    forall i | 0 <= i < |q| - 1
      ensures q[i] in g && q[i + 1] in g[q[i]]
    {
      assert q[i] == p[i] && q[i + 1] == p[i + 1];
    }
  }

  lemma ReachableStep<V(!new)>(g: map<V, set<V>>, s: V, u: V, w: V)
    requires Reachable(g, s, u) && u in g && w in g[u]
    ensures Reachable(g, s, w)
  {
    var p :| WalkFromTo(g, p, s, u);
    WalkSnoc(g, p, s, w);
  }

  /** An edge `s -> p[0]` followed by the walk `p` is a walk from `s`. */
  lemma WalkCons<V(!new)>(g: map<V, set<V>>, s: V, p: seq<V>)
    requires IsWalk(g, p) && s in g && p[0] in g[s]
    ensures WalkFrom(g, [s] + p, s) && Last([s] + p) == Last(p)
  {
    var q := [s] + p;
    forall i | 0 <= i < |q| - 1
      ensures q[i] in g && q[i + 1] in g[q[i]]
    {
      if 0 < i {
        assert q[i] == p[i - 1] && q[i + 1] == p[i];
      }
    }
  }

  lemma ReachablePrepend<V(!new)>(g: map<V, set<V>>, s: V, n: V, t: V)
    requires s in g && n in g[s] && Reachable(g, n, t)
    ensures Reachable(g, s, t)
  {
    var p :| WalkFromTo(g, p, n, t);
    WalkCons(g, s, p);
    assert WalkFromTo(g, [s] + p, s, t);
  }

  /**
   * Some walk leads from `s` to `t` whose every vertex after the start lies
   * outside `S`: what a traversal from `s` can reach when the vertices of `S`
   * are already marked visited.
   */
  ghost predicate ReachableAvoiding<V(!new)>(g: map<V, set<V>>, s: V, t: V, S: set<V>)
  {
    exists p :: WalkFromTo(g, p, s, t) && forall k :: 0 < k < |p| ==> p[k] !in S
  }

  lemma ReachableAvoidingSelf<V(!new)>(g: map<V, set<V>>, s: V, S: set<V>)
    ensures ReachableAvoiding(g, s, s, S)
  {
    assert WalkFromTo(g, [s], s, s);
  }

  /**
   * A walk from `n` that avoids `T`, entered along the edge `s -> n` with `n`
   * outside `T`, is a walk from `s` that avoids every subset of `T`.
   */
  lemma ReachableAvoidingPrepend<V(!new)>(g: map<V, set<V>>, s: V, n: V, t: V, S: set<V>, T: set<V>)
    requires s in g && n in g[s] && n !in T && S <= T && ReachableAvoiding(g, n, t, T)
    ensures ReachableAvoiding(g, s, t, S)
  {
    var p :| WalkFromTo(g, p, n, t) && forall k :: 0 < k < |p| ==> p[k] !in T;
    WalkCons(g, s, p);
    var q := [s] + p;
    forall k | 0 < k < |q|
      ensures q[k] !in S
    {
      assert q[k] == p[k - 1];
    }
    assert WalkFromTo(g, q, s, t);
  }

  /** Two repetition-free sequences kept apart by a set concatenate to one. */
  lemma NoDupConcat<V(!new)>(a: seq<V>, b: seq<V>, S: set<V>)
    requires NoDup(a) && NoDup(b)
    requires forall i :: 0 <= i < |a| ==> a[i] in S
    requires forall j :: 0 <= j < |b| ==> b[j] !in S
    ensures NoDup(a + b)
  {
    var c := a + b;
    forall i, j | 0 <= i < j < |c|
      ensures c[i] != c[j]
    {
      if j < |a| {
        assert c[i] == a[i] && c[j] == a[j];
      } else if i >= |a| {
        assert c[i] == b[i - |a|] && c[j] == b[j - |a|];
      } else {
        assert c[i] == a[i] && c[j] == b[j - |a|];
      }
    }
  }

  /** In a closed graph every walk that starts at a vertex ends at a vertex. */
  lemma {:induction false} WalkEndsInClosed<V(!new)>(g: map<V, set<V>>, p: seq<V>)
    requires IsWalk(g, p) && Closed(g) && p[0] in g
    ensures Last(p) in g
  {
    if |p| > 1 {
      assert p[|p| - 2] in g && p[|p| - 1] in g[p[|p| - 2]];
    }
  }

  /** In a closed graph, whatever is reachable from a vertex is a vertex. */
  lemma ReachableInClosed<V(!new)>(g: map<V, set<V>>, s: V, t: V)
    requires Reachable(g, s, t) && Closed(g) && s in g
    ensures t in g
  {
    var p :| WalkFromTo(g, p, s, t);
    WalkEndsInClosed(g, p);
  }

  /** A walk that starts inside a set closed under the edges never leaves it. */
  lemma {:induction false} WalkStaysInClosedSet<V(!new)>(g: map<V, set<V>>, S: set<V>, p: seq<V>)
    requires IsWalk(g, p) && p[0] in S && ClosedUnder(g, S)
    ensures Last(p) in S
    decreases |p|
  {
    if |p| > 1 {
      WalkPrefix(g, p, |p| - 1);
      WalkStaysInClosedSet(g, S, p[..|p| - 1]);
      assert p[|p| - 2] in g && p[|p| - 1] in g[p[|p| - 2]];
    }
  }

  /**
   * A set that holds `s` and is closed under the edges holds every vertex
   * reachable from `s`; so a vertex outside it is unreachable.
   */
  lemma ClosedSetHoldsReachable<V(!new)>(g: map<V, set<V>>, S: set<V>, s: V)
    requires s in S && ClosedUnder(g, S)
    ensures forall t :: Reachable(g, s, t) ==> t in S
  {
    forall t | Reachable(g, s, t)
      ensures t in S
    {
      var p :| WalkFromTo(g, p, s, t);
      WalkStaysInClosedSet(g, S, p);
    }
  }

  /**
   * A walk that starts inside `S` and ends outside it has an edge that leaves
   * `S`, at the returned index.
   */
  lemma {:induction false} ExitIndex<V(!new)>(S: set<V>, w: seq<V>) returns (j: nat)
    requires |w| > 0 && w[0] in S && Last(w) !in S
    ensures 1 <= j < |w| && w[j - 1] in S && w[j] !in S
    decreases |w|
  {
    if w[1] !in S {
      j := 1;
    } else {
      var k := ExitIndex(S, w[1..]);
      j := k + 1;
    }
  }

  /** If a walk of at most `k` edges exists, a shortest walk exists. */
  lemma {:induction false} ShortestWalkExists<V(!new)>(g: map<V, set<V>>, s: V, t: V, k: nat)
    requires exists p :: WalkFromTo(g, p, s, t) && |p| <= k + 1
    ensures exists n :: IsDist(g, s, t, n)
    decreases k
  {
    if forall p :: WalkFromTo(g, p, s, t) ==> k + 1 <= |p| {
      var p :| WalkFromTo(g, p, s, t) && |p| <= k + 1;
      assert IsDist(g, s, t, k);
    } else {
      var p :| WalkFromTo(g, p, s, t) && |p| < k + 1;
      ShortestWalkExists(g, s, t, k - 1);
    }
  }

  /**
   * The number of edges of a shortest walk from `s` to `t`. What it means is
   * stated by `DistIsShortest`, kept apart so that only the proofs which need
   * it see it.
   */
  ghost function Dist<V(!new)>(g: map<V, set<V>>, s: V, t: V): nat
    requires Reachable(g, s, t)
  {
    var p :| WalkFromTo(g, p, s, t);
    ShortestWalkExists(g, s, t, |p| - 1);
    var n :| IsDist(g, s, t, n);
    n
  }

  lemma DistIsShortest<V(!new)>(g: map<V, set<V>>, s: V, t: V)
    requires Reachable(g, s, t)
    ensures IsDist(g, s, t, Dist(g, s, t))
  {
  }

  /** `p` is a walk from `s` to `t`, and no walk between them is shorter. */
  ghost predicate Shortest<V(!new)>(g: map<V, set<V>>, s: V, t: V, p: seq<V>)
  {
    WalkFromTo(g, p, s, t) && forall q :: WalkFromTo(g, q, s, t) ==> |p| <= |q|
  }

  /** A shortest walk makes its end reachable, at its number of edges. */
  lemma ShortestDist<V(!new)>(g: map<V, set<V>>, s: V, t: V, p: seq<V>)
    requires Shortest(g, s, t, p)
    ensures Reachable(g, s, t) && Dist(g, s, t) == |p| - 1
  {
    assert IsDist(g, s, t, |p| - 1);
    DistIsShortest(g, s, t);
    DistUnique(g, s, t, |p| - 1, Dist(g, s, t));
  }

  lemma DistUnique<V(!new)>(g: map<V, set<V>>, s: V, t: V, m: nat, n: nat)
    requires IsDist(g, s, t, m) && IsDist(g, s, t, n)
    ensures m == n
  {
    var p :| WalkFromTo(g, p, s, t) && |p| == m + 1;
    var q :| WalkFromTo(g, q, s, t) && |q| == n + 1;
  }

  /** Cutting out the stretch between two occurrences of a vertex keeps a walk. */
  lemma Shortcut<V(!new)>(g: map<V, set<V>>, p: seq<V>, i: nat, j: nat)
    requires IsWalk(g, p) && i < j < |p| && p[i] == p[j]
    ensures IsWalk(g, p[..i] + p[j..])
    ensures (p[..i] + p[j..])[0] == p[0] && Last(p[..i] + p[j..]) == Last(p)
    ensures |p[..i] + p[j..]| < |p|
  {
    var q := p[..i] + p[j..];
    forall k | 0 <= k < |q| - 1
      ensures q[k] in g && q[k + 1] in g[q[k]]
    {
      if k + 1 < i {
        assert q[k] == p[k] && q[k + 1] == p[k + 1];
      } else if k + 1 == i {
        assert q[k] == p[k] && q[k + 1] == p[j] == p[i];
      } else {
        assert q[k] == p[k + j - i] && q[k + 1] == p[k + 1 + j - i];
      }
    }
  }

  /** A walk no walk between the same ends is shorter than repeats no vertex. */
  lemma ShortestIsSimple<V(!new)>(g: map<V, set<V>>, s: V, t: V, p: seq<V>)
    requires Shortest(g, s, t, p)
    ensures NoDup(p)
  {
    forall i, j | 0 <= i < j < |p|
      ensures p[i] != p[j]
    {
      if p[i] == p[j] {
        Shortcut(g, p, i, j);
        assert WalkFromTo(g, p[..i] + p[j..], s, t);
      }
    }
  }

  /** The set of elements of a sequence. */
  ghost function Elems<V>(s: seq<V>): set<V>
  {
    set x | x in s
  }

  /** The walks `p + [w]`, one for each `w` in `ws`, in that order. */
  function Extend<V>(p: seq<V>, ws: seq<V>): seq<seq<V>>
  {
    seq(|ws|, k requires 0 <= k < |ws| => p + [ws[k]])
  }

  lemma ExtendSnoc<V>(p: seq<V>, ws: seq<V>, w: V)
    ensures Extend(p, ws + [w]) == Extend(p, ws) + [p + [w]]
  {
    assert forall k :: 0 <= k < |ws| ==> Extend(p, ws + [w])[k] == p + [ws[k]];
  }

  /** Adding a fresh element keeps a sequence free of repetitions. */
  lemma NoDupSnoc<V(!new)>(s: seq<V>, w: V)
    requires NoDup(s) && w !in s
    ensures NoDup(s + [w]) && Elems(s + [w]) == Elems(s) + {w}
  {
    NoDupConcat(s, [w], Elems(s));
  }
}
