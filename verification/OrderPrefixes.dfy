/** How the order of definitions follows the order they are declared in. */
module OrderPrefixes {
  import opened DefinitionOrder

  /** The node is one of the first `k`, or one of them depends on it. */
  ghost predicate NeededBy(g: Graph, k: nat, v: nat) {
    exists u :: 0 <= u < k && u < |g| && Reaches(g, u, v)
  }

  /** Everything that an emitted node depends on is begun. */
  predicate DependenciesBegun(g: Graph, s: Dfs) {
    && |s.states| == |g|
    && forall v, d :: 0 <= v < |g| && s.states[v] == Emitted && d in g[v] && d < |g| ==> s.states[d] != Unvisited
  }

  /** What was not begun before and is now depends on `v`, or is it. */
  ghost predicate NewFrom(g: Graph, s: Dfs, r: Dfs, v: nat) {
    forall w :: 0 <= w < |s.states| && w < |r.states| && s.states[w] == Unvisited && r.states[w] != Unvisited
      ==> Reaches(g, v, w)
  }

  lemma {:induction false} VisitReaches(g: Graph, index: nat, s: Dfs)
    requires Closed(g) && index < |g| && Invariant(g, s) && Above(g, s, index) && DependenciesBegun(g, s)
    ensures DependenciesBegun(g, Visit(g, index, s)) && NewFrom(g, s, Visit(g, index, s), index)
    decreases Left(s.states), 0, 0
  {
    if s.states[index] == Unvisited {
      var begun := Dfs(s.states[index := Visiting], s.order);
      assert index in Left(s.states) && index !in Left(begun.states) && Left(begun.states) <= Left(s.states);
      ReachesItself(g, index);
      VisitAllKeeps(g, g[index], index, begun);
      VisitAllReaches(g, g[index], index, begun);
    }
  }

  lemma {:induction false} VisitAllReaches(g: Graph, dependencies: seq<nat>, parent: nat, s: Dfs)
    requires Closed(g) && Within(g, dependencies) && Invariant(g, s) && parent < |g| && Above(g, s, parent)
    requires (forall d :: d in dependencies ==> d in g[parent]) && DependenciesBegun(g, s)
    ensures var r := VisitAll(g, dependencies, parent, s); DependenciesBegun(g, r) && NewFrom(g, s, r, parent)
    decreases Left(s.states), 1, |dependencies|
  {
    if dependencies != [] {
      var d := dependencies[0];
      var first := if d == parent then s else Visit(g, d, s);
      if d != parent {
        forall u | 0 <= u < |s.states| && s.states[u] == Visiting ensures Reaches(g, u, d) {
          ReachesStep(g, u, parent, d);
        }
        VisitKeeps(g, d, s);
        VisitReaches(g, d, s);
        forall w | 0 <= w < |g| && Reaches(g, d, w) ensures Reaches(g, parent, w) {
          ReachesFrom(g, parent, d, w);
        }
      }
      VisitAllReaches(g, dependencies[1..], parent, first);
    }
  }

  lemma ReachesFrom(g: Graph, v: nat, d: nat, w: nat)
    requires v < |g| && d in g[v] && Reaches(g, d, w)
    ensures Reaches(g, v, w)
  {
    var p :| IsPath(g, p) && p[0] == d && p[|p| - 1] == w;
    var q := [v] + p;
    assert forall i :: 0 <= i < |q| - 1 ==> q[i + 1] in g[q[i]] by {
      forall i | 0 <= i < |q| - 1 ensures q[i + 1] in g[q[i]] {
        if i > 0 {
          assert p[i - 1 + 1] in g[p[i - 1]];
        }
      }
    }
    assert IsPath(g, q) && q[0] == v && q[|q| - 1] == w;
  }

  lemma {:induction false} PathIsBegun(g: Graph, s: Dfs, p: seq<nat>)
    requires Closed(g) && DependenciesBegun(g, s) && IsPath(g, p) && s.states[p[0]] != Unvisited
    requires forall v :: 0 <= v < |g| ==> s.states[v] != Visiting
    ensures s.states[p[|p| - 1]] == Emitted
    decreases |p|
  {
    if |p| > 1 {
      var q := p[1..];
      assert p[0 + 1] in g[p[0]];
      assert forall i :: 0 <= i < |q| - 1 ==> q[i + 1] in g[q[i]] by {
        forall i | 0 <= i < |q| - 1 ensures q[i + 1] in g[q[i]] {
          assert p[i + 1 + 1] in g[p[i + 1]];
        }
      }
      PathIsBegun(g, s, q);
    }
  }

  /** Before a node is visited, exactly what the nodes before it need is emitted. */
  ghost predicate AtNode(g: Graph, k: nat, s: Dfs) {
    && Invariant(g, s) && DependenciesBegun(g, s)
    && (forall v :: 0 <= v < |g| ==> s.states[v] != Visiting)
    && forall v :: 0 <= v < |g| ==> (s.states[v] == Emitted <==> NeededBy(g, k, v))
  }

  lemma NextNode(g: Graph, k: nat, s: Dfs)
    requires Closed(g) && k < |g| && AtNode(g, k, s)
    ensures AtNode(g, k + 1, Visit(g, k, s)) && s.order <= Visit(g, k, s).order
  {
    var r := Visit(g, k, s);
    VisitKeeps(g, k, s);
    VisitReaches(g, k, s);
    forall v | 0 <= v < |g| ensures r.states[v] == Emitted <==> NeededBy(g, k + 1, v) {
      if r.states[v] == Emitted && s.states[v] == Unvisited {
        assert Reaches(g, k, v);
      }
      if NeededBy(g, k + 1, v) && !NeededBy(g, k, v) {
        assert Reaches(g, k, v);
        var p :| IsPath(g, p) && p[0] == k && p[|p| - 1] == v;
        PathIsBegun(g, r, p);
      }
    }
  }

  lemma {:induction false} LaterGrows(g: Graph, k: nat, s: Dfs)
    requires Closed(g) && k <= |g| && AtNode(g, k, s)
    ensures s.order <= VisitFrom(g, k, s).order
    decreases |g| - k
  {
    if k < |g| {
      NextNode(g, k, s);
      LaterGrows(g, k + 1, Visit(g, k, s));
    }
  }

  lemma {:induction false} NeededPrefix(g: Graph, index: nat, k: nat, s: Dfs) returns (n: nat)
    requires Closed(g) && index <= k <= |g| && AtNode(g, index, s)
    ensures n <= |VisitFrom(g, index, s).order|
    ensures forall v :: v in VisitFrom(g, index, s).order[..n] <==> 0 <= v < |g| && NeededBy(g, k, v)
    decreases k - index
  {
    LaterGrows(g, index, s);
    if index == k {
      n := |s.order|;
      assert VisitFrom(g, index, s).order[..n] == s.order;
    } else {
      NextNode(g, index, s);
      n := NeededPrefix(g, index + 1, k, Visit(g, index, s));
    }
  }

  /** For every k, the first k definitions and all they depend on are emitted before anything else. */
  lemma FirstNeededFirst(g: Graph, k: nat) returns (n: nat)
    requires Closed(g) && k <= |g|
    ensures n <= |Order(g)| && forall v :: v in Order(g)[..n] <==> 0 <= v < |g| && NeededBy(g, k, v)
  {
    assert AtNode(g, 0, Start(|g|));
    n := NeededPrefix(g, 0, k, Start(|g|));
  }

  function Upto(n: nat): seq<nat> {
    seq(n, i requires 0 <= i < n => i)
  }

  /** The first k nodes are emitted in their order, and nothing else is begun. */
  predicate InPlace(g: Graph, k: nat, s: Dfs) {
    && |s.states| == |g| && s.order == Upto(k)
    && forall v :: 0 <= v < |g| ==> s.states[v] == if v < k then Emitted else Unvisited
  }

  lemma {:induction false} NothingToVisit(g: Graph, dependencies: seq<nat>, parent: nat, s: Dfs)
    requires Closed(g) && Within(g, dependencies) && |s.states| == |g|
    requires forall d :: d in dependencies ==> d == parent || s.states[d] != Unvisited
    ensures VisitAll(g, dependencies, parent, s) == s
    decreases |dependencies|
  {
    if dependencies != [] {
      NothingToVisit(g, dependencies[1..], parent, s);
    }
  }

  lemma {:induction false} StaysInPlace(g: Graph, k: nat, s: Dfs)
    requires Closed(g) && k <= |g| && InPlace(g, k, s) && forall v, d :: 0 <= v < |g| && d in g[v] ==> d <= v
    ensures VisitFrom(g, k, s).order == Upto(|g|)
    decreases |g| - k
  {
    if k < |g| {
      var begun := Dfs(s.states[k := Visiting], s.order);
      NothingToVisit(g, g[k], k, begun);
      assert Visit(g, k, s) == Dfs(begun.states[k := Emitted], s.order + [k]);
      assert Upto(k) + [k] == Upto(k + 1);
      StaysInPlace(g, k + 1, Visit(g, k, s));
    }
  }

  /** Definitions that are declared after all they depend on stay in their order. */
  lemma OrderedStays(g: Graph)
    requires Closed(g) && forall v, d :: 0 <= v < |g| && d in g[v] ==> d <= v
    ensures Order(g) == Upto(|g|)
  {
    StaysInPlace(g, 0, Start(|g|));
  }
}
