/** The depth-first ordering of definitions by what they hold by value. */
module DefinitionOrder {
  type Graph = seq<seq<nat>>

  datatype VisitState = Unvisited | Visiting | Emitted

  datatype Dfs = Dfs(states: seq<VisitState>, order: seq<nat>)

  predicate Closed(g: Graph) {
    forall v, i :: 0 <= v < |g| && 0 <= i < |g[v]| ==> g[v][i] < |g|
  }

  predicate Within(g: Graph, nodes: seq<nat>) {
    forall i :: 0 <= i < |nodes| ==> nodes[i] < |g|
  }

  function Left(states: seq<VisitState>): set<nat> {
    set i | 0 <= i < |states| && states[i] == Unvisited
  }

  /** Visiting a node emits the nodes it depends on and then the node, unless it was begun before. */
  function Visit(g: Graph, index: nat, s: Dfs): (r: Dfs)
    requires Closed(g) && index < |g| && |s.states| == |g|
    ensures |r.states| == |g| && Left(r.states) <= Left(s.states)
    decreases Left(s.states), 0, 0
  {
    if s.states[index] != Unvisited then s
    else
      var begun := s.states[index := Visiting];
      assert index in Left(s.states) && index !in Left(begun) && Left(begun) <= Left(s.states);
      var inner := VisitAll(g, g[index], index, Dfs(begun, s.order));
      Dfs(inner.states[index := Emitted], inner.order + [index])
  }

  function VisitAll(g: Graph, dependencies: seq<nat>, parent: nat, s: Dfs): (r: Dfs)
    requires Closed(g) && Within(g, dependencies) && |s.states| == |g|
    ensures |r.states| == |g| && Left(r.states) <= Left(s.states)
    decreases Left(s.states), 1, |dependencies|
  {
    if dependencies == [] then s
    else
      var first := if dependencies[0] == parent then s else Visit(g, dependencies[0], s);
      VisitAll(g, dependencies[1..], parent, first)
  }

  function VisitFrom(g: Graph, index: nat, s: Dfs): (r: Dfs)
    requires Closed(g) && index <= |g| && |s.states| == |g|
    decreases |g| - index
  {
    if index == |g| then s else VisitFrom(g, index + 1, Visit(g, index, s))
  }

  function Start(n: nat): Dfs {
    Dfs(seq(n, i => Unvisited), [])
  }

  /** The order in which the nodes of a graph are emitted. */
  function Order(g: Graph): seq<nat>
    requires Closed(g)
  {
    VisitFrom(g, 0, Start(|g|)).order
  }

  // What the order promises.

  predicate IsPath(g: Graph, p: seq<nat>) {
    && p != []
    && (forall i :: 0 <= i < |p| ==> p[i] < |g|)
    && (forall i :: 0 <= i < |p| - 1 ==> p[i + 1] in g[p[i]])
  }

  /** Does `from` depend on `to`, directly or through others? */
  ghost predicate Reaches(g: Graph, from: nat, to: nat) {
    exists p :: IsPath(g, p) && p[0] == from && p[|p| - 1] == to
  }

  lemma ReachesItself(g: Graph, v: nat)
    requires v < |g|
    ensures Reaches(g, v, v)
  {
    assert IsPath(g, [v]);
  }

  lemma ReachesStep(g: Graph, from: nat, v: nat, d: nat)
    requires Closed(g) && Reaches(g, from, v) && v < |g| && d in g[v]
    ensures Reaches(g, from, d)
  {
    var p :| IsPath(g, p) && p[0] == from && p[|p| - 1] == v;
    var q := p + [d];
    assert IsPath(g, q) && q[0] == from && q[|q| - 1] == d;
  }

  predicate Distinct(s: seq<nat>) {
    forall i, j :: 0 <= i < j < |s| ==> s[i] != s[j]
  }

  ghost predicate IsPermutation(order: seq<nat>, n: nat) {
    Distinct(order) && forall v :: v in order <==> 0 <= v < n
  }

  /** What the emitted node at a position depends on comes earlier, or depends on it in turn. */
  ghost predicate SettledAt(g: Graph, order: seq<nat>, at: nat)
    requires at < |order| && order[at] < |g|
  {
    forall d :: d in g[order[at]] && d != order[at] ==> d in order[..at] || Reaches(g, d, order[at])
  }

  ghost predicate Settled(g: Graph, order: seq<nat>) {
    (forall at :: 0 <= at < |order| ==> order[at] < |g|) && forall at :: 0 <= at < |order| ==> SettledAt(g, order, at)
  }

  ghost predicate Invariant(g: Graph, s: Dfs) {
    && |s.states| == |g|
    && Distinct(s.order)
    && (forall v :: v in s.order <==> 0 <= v < |g| && s.states[v] == Emitted)
    && Settled(g, s.order)
  }

  /** The nodes being visited are the same, and emitted nodes stay where they are. */
  predicate Grows(s: Dfs, r: Dfs) {
    && |s.states| == |r.states|
    && (forall v :: 0 <= v < |s.states| ==> (s.states[v] == Visiting <==> r.states[v] == Visiting))
    && (forall v :: 0 <= v < |s.states| ==> s.states[v] != Unvisited ==> r.states[v] != Unvisited)
    && s.order <= r.order
  }

  /** Every node being visited depends on `v`. */
  ghost predicate Above(g: Graph, s: Dfs, v: nat) {
    forall u :: 0 <= u < |s.states| && s.states[u] == Visiting ==> Reaches(g, u, v)
  }

  lemma {:induction false} VisitKeeps(g: Graph, index: nat, s: Dfs)
    requires Closed(g) && index < |g| && Invariant(g, s) && Above(g, s, index)
    ensures var r := Visit(g, index, s); Invariant(g, r) && Grows(s, r) && r.states[index] != Unvisited
    decreases Left(s.states), 0, 0
  {
    if s.states[index] == Unvisited {
      var begun := Dfs(s.states[index := Visiting], s.order);
      assert index in Left(s.states) && index !in Left(begun.states) && Left(begun.states) <= Left(s.states);
      ReachesItself(g, index);
      var inner := VisitAll(g, g[index], index, begun);
      VisitAllKeeps(g, g[index], index, begun);
      EmitKeeps(g, index, s, inner);
    }
  }

  /** Emitting a node whose dependencies were all begun. */
  lemma EmitKeeps(g: Graph, index: nat, s: Dfs, inner: Dfs)
    requires Closed(g) && index < |g| && |s.states| == |g| && s.states[index] == Unvisited && Above(g, s, index)
    requires Invariant(g, inner) && Grows(Dfs(s.states[index := Visiting], s.order), inner)
    requires forall d :: d in g[index] && d != index ==> inner.states[d] != Unvisited
    ensures var r := Dfs(inner.states[index := Emitted], inner.order + [index]); Invariant(g, r) && Grows(s, r)
  {
    var r := Dfs(inner.states[index := Emitted], inner.order + [index]);
    var n := |inner.order|;
    assert s.states[index := Visiting][index] == Visiting && inner.states[index] == Visiting;
    forall at | 0 <= at <= n ensures r.order[at] < |g| && SettledAt(g, r.order, at) {
      if at < n {
        assert SettledAt(g, inner.order, at) && r.order[..at] == inner.order[..at];
      } else {
        assert r.order[..n] == inner.order;
        forall d | d in g[index] && d != index ensures d in inner.order || Reaches(g, d, index) {
          assert inner.states[d] == Visiting ==> s.states[d] == Visiting;
        }
      }
    }
  }

  lemma {:induction false} VisitAllKeeps(g: Graph, dependencies: seq<nat>, parent: nat, s: Dfs)
    requires Closed(g) && Within(g, dependencies) && Invariant(g, s) && parent < |g| && Above(g, s, parent)
    requires forall d :: d in dependencies ==> d in g[parent]
    ensures var r := VisitAll(g, dependencies, parent, s);
      Invariant(g, r) && Grows(s, r) && forall d :: d in dependencies && d != parent ==> r.states[d] != Unvisited
    decreases Left(s.states), 1, |dependencies|
  {
    if dependencies != [] {
      var d := dependencies[0];
      var first := if d == parent then s else Visit(g, d, s);
      if d != parent {
        forall u | 0 <= u < |s.states| && s.states[u] == Visiting ensures Reaches(g, u, d) {
          ReachesStep(g, u, parent, d);
        }
        VisitKeeps(g, d, s);
      }
      VisitAllKeeps(g, dependencies[1..], parent, first);
    }
  }

  lemma {:induction false} VisitFromKeeps(g: Graph, index: nat, s: Dfs)
    requires Closed(g) && index <= |g| && Invariant(g, s)
    requires forall v :: 0 <= v < |g| ==> s.states[v] != Visiting
    requires forall v :: 0 <= v < index ==> s.states[v] == Emitted
    ensures var r := VisitFrom(g, index, s); Invariant(g, r) && forall v :: 0 <= v < |g| ==> r.states[v] == Emitted
    decreases |g| - index
  {
    if index < |g| {
      var next := Visit(g, index, s);
      VisitKeeps(g, index, s);
      VisitFromKeeps(g, index + 1, next);
    }
  }

  /** Every node is emitted once, and what it depends on comes before it unless the two depend on each
      other; on any graph, cyclic or not. */
  lemma OrderIsSettled(g: Graph)
    requires Closed(g)
    ensures IsPermutation(Order(g), |g|) && Settled(g, Order(g))
  {
    VisitFromKeeps(g, 0, Start(|g|));
  }

  /** No node depends on itself through others. */
  ghost predicate Acyclic(g: Graph) {
    forall v, d :: 0 <= v < |g| && d in g[v] && d != v ==> !Reaches(g, d, v)
  }

  predicate FirstAt(g: Graph, order: seq<nat>, at: nat)
    requires at < |order| && order[at] < |g|
  {
    forall d :: d in g[order[at]] && d != order[at] ==> d in order[..at]
  }

  /** Everything comes after all it depends on. */
  predicate DependenciesFirst(g: Graph, order: seq<nat>) {
    (forall at :: 0 <= at < |order| ==> order[at] < |g|) && forall at :: 0 <= at < |order| ==> FirstAt(g, order, at)
  }

  /** Following dependencies never leads to a later position. */
  lemma {:induction false} PathsLeadBack(g: Graph, order: seq<nat>, p: seq<nat>, from: nat, to: nat)
    requires IsPermutation(order, |g|) && DependenciesFirst(g, order) && IsPath(g, p)
    requires from < |order| && to < |order| && order[from] == p[0] && order[to] == p[|p| - 1]
    ensures to <= from
    decreases |p|
  {
    if |p| > 1 {
      var q := p[1..];
      assert p[1] in g[p[0]];
      assert forall i :: 0 <= i < |q| - 1 ==> q[i + 1] in g[q[i]] by {
        forall i | 0 <= i < |q| - 1 ensures q[i + 1] in g[q[i]] {
          assert p[i + 1 + 1] in g[p[i + 1]];
        }
      }
      if p[1] == p[0] {
        PathsLeadBack(g, order, q, from, to);
      } else {
        assert FirstAt(g, order, from) && p[1] in order[..from];
        var next :| 0 <= next < from && order[next] == p[1];
        PathsLeadBack(g, order, q, next, to);
      }
    }
  }

  /** The order puts dependencies first exactly when some order can: when the graph is acyclic. */
  lemma OrderIsTopologicalIffAcyclic(g: Graph)
    requires Closed(g)
    ensures Acyclic(g) <==> DependenciesFirst(g, Order(g))
    ensures forall other :: IsPermutation(other, |g|) && DependenciesFirst(g, other) ==> DependenciesFirst(g, Order(g))
  {
    OrderIsSettled(g);
    var order := Order(g);
    if Acyclic(g) {
      forall at | 0 <= at < |order| ensures FirstAt(g, order, at) {
        assert SettledAt(g, order, at);
      }
    }
    forall other | IsPermutation(other, |g|) && DependenciesFirst(g, other) ensures Acyclic(g) {
      OrderedIsAcyclic(g, other);
    }
  }

  lemma OrderedIsAcyclic(g: Graph, order: seq<nat>)
    requires Closed(g) && IsPermutation(order, |g|) && DependenciesFirst(g, order)
    ensures Acyclic(g)
  {
    forall v, d | 0 <= v < |g| && d in g[v] && d != v && Reaches(g, d, v) ensures false {
      var p :| IsPath(g, p) && p[0] == d && p[|p| - 1] == v;
      assert v in order;
      var to :| 0 <= to < |order| && order[to] == v;
      assert FirstAt(g, order, to) && d in order[..to];
      var from :| 0 <= from < to && order[from] == d;
      PathsLeadBack(g, order, p, from, to);
    }
  }

  /** The states of the definitions and the order so far. */
  class Sorter {
    const dependencies: Graph
    var states: seq<VisitState>
    var order: seq<nat>

    constructor (dependencies: Graph)
      ensures this.dependencies == dependencies && Progress() == Start(|dependencies|)
    {
      this.dependencies := dependencies;
      states := seq(|dependencies|, i => Unvisited);
      order := [];
    }

    function Progress(): Dfs
      reads this
    {
      Dfs(states, order)
    }

    method VisitDefinition(index: nat)
      requires Closed(dependencies) && index < |dependencies| && |states| == |dependencies|
      modifies this
      ensures Progress() == Visit(dependencies, index, old(Progress()))
      decreases Left(states), 0
    {
      if states[index] == Emitted {
        return;
      }
      if states[index] == Visiting {
        return;
      }
      ghost var before := Left(states);
      states := states[index := Visiting];
      assert index in before && index !in Left(states) && Left(states) <= before;
      ghost var begun, rest := Progress(), dependencies[index];
      for i := 0 to |dependencies[index]|
        invariant |states| == |dependencies| && Left(states) <= Left(begun.states)
        invariant rest == dependencies[index][i..]
        invariant VisitAll(dependencies, dependencies[index], index, begun)
          == VisitAll(dependencies, rest, index, Progress())
      {
        var dependency := dependencies[index][i];
        assert rest[0] == dependency && rest[1..] == dependencies[index][i + 1..];
        rest := rest[1..];
        if dependency != index {
          VisitDefinition(dependency);
        }
      }
      states := states[index := Emitted];
      order := order + [index];
    }
  }

  method EmitOrder(dependencies: Graph) returns (order: seq<nat>)
    requires Closed(dependencies)
    ensures order == Order(dependencies)
  {
    var sorter := new Sorter(dependencies);
    for index := 0 to |dependencies|
      invariant |sorter.states| == |dependencies|
      invariant Order(dependencies) == VisitFrom(dependencies, index, sorter.Progress()).order
    {
      sorter.VisitDefinition(index);
    }
    order := sorter.order;
  }
}
