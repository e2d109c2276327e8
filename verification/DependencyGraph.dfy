/** Which definitions a definition holds by value, and the order in which definitions are emitted. */
module DependencyGraph {
  import opened TypeRefs
  import opened DefinitionOrder

  /** A class with the types of its bases and fields, or an enumeration with the types of the payload
      fields of each value. */
  datatype Definition =
    | ClassDefinition(name: string, bases: seq<TypeRef>, fields: seq<TypeRef>)
    | PayloadEnum(name: string, payloads: seq<seq<TypeRef>>)

  function NamedHead(t: TypeRef): string {
    if t.kind == Named || t.kind == Qualified || t.kind == Template || t.kind == Associated
      || t.kind == AssociatedTemplate
    then t.name else ""
  }

  /** The node is spelled with the name; kinds without a name count as unnamed. */
  predicate IsNamed(t: TypeRef, name: string) {
    match t.kind
    case Named | Qualified | Template | Associated | AssociatedTemplate => t.name == name
    case _ => name == ""
  }

  /** Does the type name this definition? With `complete`, what is behind a pointer or a reference does
      not count. */
  predicate Mentions(t: TypeRef, name: string, complete: bool)
    decreases t
  {
    && !(complete && (t.kind == Pointer || t.kind == Reference))
    && (IsNamed(t, name) || exists i :: 0 <= i < |t.children| && Mentions(t.children[i], name, complete))
  }

  /** The index of the first definition of each name. */
  function IndexUpTo(defs: seq<Definition>, n: nat): map<string, nat>
    requires n <= |defs|
  {
    if n == 0 then map[]
    else
      var index := IndexUpTo(defs, n - 1);
      if defs[n - 1].name in index then index else index[defs[n - 1].name := n - 1]
  }

  predicate FirstOfName(defs: seq<Definition>, d: nat) {
    d < |defs| && forall e :: 0 <= e < d ==> defs[e].name != defs[d].name
  }

  lemma {:induction false} IndexIsFirst(defs: seq<Definition>, n: nat)
    requires n <= |defs|
    ensures forall name :: name in IndexUpTo(defs, n) ==>
      IndexUpTo(defs, n)[name] < n && defs[IndexUpTo(defs, n)[name]].name == name
        && FirstOfName(defs, IndexUpTo(defs, n)[name])
    ensures forall d :: 0 <= d < n ==> defs[d].name in IndexUpTo(defs, n)
  {
    if n > 0 {
      IndexIsFirst(defs, n - 1);
    }
  }

  function Collected(t: TypeRef, index: map<string, nat>, complete: bool): seq<nat>
    decreases t, 1
  {
    if complete && (t.kind == Pointer || t.kind == Reference) then []
    else (if NamedHead(t) in index then [index[NamedHead(t)]] else []) + CollectedAll(t.children, index, complete)
  }

  function CollectedAll(types: seq<TypeRef>, index: map<string, nat>, complete: bool): seq<nat>
    decreases types, 0
  {
    if types == [] then [] else Collected(types[0], index, complete) + CollectedAll(types[1..], index, complete)
  }

  predicate Stops(t: TypeRef, complete: bool) {
    complete && (t.kind == Pointer || t.kind == Reference)
  }

  lemma HeadIsName(t: TypeRef, name: string)
    ensures IsNamed(t, name) <==> NamedHead(t) == name
  {
  }

  lemma MentionFound(t: TypeRef, index: map<string, nat>, complete: bool, d: nat)
    requires !Stops(t, complete) && d in Collected(t, index, complete)
    requires d in CollectedAll(t.children, index, complete) ==>
      exists i, name ::
        0 <= i < |t.children| && name in index && index[name] == d && Mentions(t.children[i], name, complete)
    ensures exists name :: name in index && index[name] == d && Mentions(t, name, complete)
  {
    if d in CollectedAll(t.children, index, complete) {
      var i, name :| 0 <= i < |t.children| && name in index && index[name] == d
        && Mentions(t.children[i], name, complete);
      assert Mentions(t, name, complete);
    } else {
      HeadIsName(t, NamedHead(t));
      assert Mentions(t, NamedHead(t), complete);
    }
  }

  lemma MentionCollected(t: TypeRef, index: map<string, nat>, complete: bool, name: string)
    requires !Stops(t, complete) && name in index && Mentions(t, name, complete)
    requires forall i :: 0 <= i < |t.children| && Mentions(t.children[i], name, complete) ==>
      index[name] in CollectedAll(t.children, index, complete)
    ensures index[name] in Collected(t, index, complete)
  {
    HeadIsName(t, name);
  }

  lemma {:induction false} CollectedAreMentions(t: TypeRef, index: map<string, nat>, complete: bool, d: nat)
    ensures d in Collected(t, index, complete)
       <==> exists name :: name in index && index[name] == d && Mentions(t, name, complete)
    decreases t, 1
  {
    if !Stops(t, complete) {
      CollectedAllAreMentions(t.children, index, complete, d);
      if d in Collected(t, index, complete) {
        MentionFound(t, index, complete, d);
      }
      forall name | name in index && index[name] == d && Mentions(t, name, complete)
        ensures d in Collected(t, index, complete)
      {
        MentionCollected(t, index, complete, name);
      }
    }
  }

  lemma {:induction false} CollectedAllIsUnion(types: seq<TypeRef>, index: map<string, nat>, complete: bool, d: nat)
    ensures d in CollectedAll(types, index, complete) <==>
      exists i :: 0 <= i < |types| && d in Collected(types[i], index, complete)
  {
    if types != [] {
      var rest := types[1..];
      CollectedAllIsUnion(rest, index, complete, d);
      forall i | 1 <= i < |types| ensures rest[i - 1] == types[i] {
      }
      if d in CollectedAll(rest, index, complete) {
        var i :| 0 <= i < |rest| && d in Collected(rest[i], index, complete);
        assert types[i + 1] == rest[i];
      }
    }
  }

  lemma {:induction false} CollectedAllAreMentions(types: seq<TypeRef>, index: map<string, nat>, complete: bool, d: nat)
    ensures d in CollectedAll(types, index, complete) <==>
      exists i, name :: 0 <= i < |types| && name in index && index[name] == d && Mentions(types[i], name, complete)
    decreases types, 0
  {
    CollectedAllIsUnion(types, index, complete, d);
    forall i | 0 <= i < |types|
      ensures d in Collected(types[i], index, complete)
         <==> exists name :: name in index && index[name] == d && Mentions(types[i], name, complete)
    {
      CollectedAreMentions(types[i], index, complete, d);
    }
  }

  function CollectedPayloads(payloads: seq<seq<TypeRef>>, index: map<string, nat>): seq<nat> {
    if payloads == [] then [] else CollectedAll(payloads[0], index, true) + CollectedPayloads(payloads[1..], index)
  }

  /** Fields must be complete types. Bases are stopped at pointers only in `completeBases` mode. */
  function Dependencies(def: Definition, index: map<string, nat>, completeBases: bool): seq<nat> {
    match def
    case ClassDefinition(_, bases, fields) =>
      CollectedAll(bases, index, completeBases) + CollectedAll(fields, index, true)
    case PayloadEnum(_, payloads) => CollectedPayloads(payloads, index)
  }

  predicate AnyMentions(types: seq<TypeRef>, name: string, complete: bool) {
    exists i :: 0 <= i < |types| && Mentions(types[i], name, complete)
  }

  /** The definition needs the definition of this name to be complete. */
  predicate Needs(def: Definition, name: string, completeBases: bool) {
    match def
    case ClassDefinition(_, bases, fields) => AnyMentions(bases, name, completeBases) || AnyMentions(fields, name, true)
    case PayloadEnum(_, payloads) => exists i :: 0 <= i < |payloads| && AnyMentions(payloads[i], name, true)
  }

  function Insert(x: nat, sorted: seq<nat>): seq<nat> {
    if sorted == [] || x < sorted[0] then [x] + sorted
    else if x == sorted[0] then sorted
    else [sorted[0]] + Insert(x, sorted[1..])
  }

  /** The elements in increasing order, each once. */
  function SortedUnique(xs: seq<nat>): seq<nat> {
    if xs == [] then [] else Insert(xs[0], SortedUnique(xs[1..]))
  }

  predicate Increasing(s: seq<nat>) {
    forall i, j :: 0 <= i < j < |s| ==> s[i] < s[j]
  }

  lemma {:induction false} InsertKeeps(x: nat, sorted: seq<nat>)
    requires Increasing(sorted)
    ensures Increasing(Insert(x, sorted)) && forall y :: y in Insert(x, sorted) <==> y == x || y in sorted
  {
    if sorted != [] && x > sorted[0] {
      InsertKeeps(x, sorted[1..]);
      assert sorted == [sorted[0]] + sorted[1..];
      var rest := Insert(x, sorted[1..]);
      forall i | 0 <= i < |rest| ensures sorted[0] < rest[i] {
        assert rest[i] in rest;
      }
    } else if sorted != [] && x < sorted[0] {
      forall i | 0 <= i < |sorted| ensures x < sorted[i] {
      }
    }
  }

  lemma {:induction false} SortedUniqueKeeps(xs: seq<nat>)
    ensures Increasing(SortedUnique(xs)) && forall y :: y in SortedUnique(xs) <==> y in xs
  {
    if xs != [] {
      SortedUniqueKeeps(xs[1..]);
      InsertKeeps(xs[0], SortedUnique(xs[1..]));
      assert xs == [xs[0]] + xs[1..];
    }
  }

  function GraphOf(defs: seq<Definition>, completeBases: bool): Graph {
    var index := IndexUpTo(defs, |defs|);
    seq(|defs|, v requires 0 <= v < |defs| => SortedUnique(Dependencies(defs[v], index, completeBases)))
  }

  lemma {:induction false} PayloadsAreMentions(payloads: seq<seq<TypeRef>>, index: map<string, nat>, d: nat)
    ensures d in CollectedPayloads(payloads, index) <==>
      exists i, name :: 0 <= i < |payloads| && name in index && index[name] == d && AnyMentions(payloads[i], name, true)
  {
    if payloads != [] {
      PayloadsAreMentions(payloads[1..], index, d);
      CollectedAllAreMentions(payloads[0], index, true, d);
      forall i, name | 0 <= i < |payloads| && name in index && index[name] == d && AnyMentions(payloads[i], name, true)
        ensures d in CollectedPayloads(payloads, index)
      {
        if i > 0 {
          assert payloads[1..][i - 1] == payloads[i];
        }
      }
      if d in CollectedAll(payloads[0], index, true) {
        var k, name :| 0 <= k < |payloads[0]| && name in index && index[name] == d
          && Mentions(payloads[0][k], name, true);
        assert AnyMentions(payloads[0], name, true);
      } else if d in CollectedPayloads(payloads[1..], index) {
        var i, name :| 0 <= i < |payloads[1..]| && name in index && index[name] == d
          && AnyMentions(payloads[1..][i], name, true);
        assert payloads[i + 1] == payloads[1..][i];
      }
    }
  }

  lemma DependenciesAreNeeds(def: Definition, index: map<string, nat>, completeBases: bool, d: nat)
    ensures d in Dependencies(def, index, completeBases) <==>
      exists name :: name in index && index[name] == d && Needs(def, name, completeBases)
  {
    if def.ClassDefinition? {
      CollectedAllAreMentions(def.bases, index, completeBases, d);
      CollectedAllAreMentions(def.fields, index, true, d);
      if d in Dependencies(def, index, completeBases) {
        if d in CollectedAll(def.bases, index, completeBases) {
          var i, name :| 0 <= i < |def.bases| && name in index && index[name] == d
            && Mentions(def.bases[i], name, completeBases);
          assert Needs(def, name, completeBases);
        } else {
          var i, name :| 0 <= i < |def.fields| && name in index && index[name] == d
            && Mentions(def.fields[i], name, true);
          assert Needs(def, name, completeBases);
        }
      }
    } else {
      PayloadsAreMentions(def.payloads, index, d);
    }
  }

  /** The edges of the graph: a definition points to the first definition of each name it needs. */
  lemma GraphEdges(defs: seq<Definition>, completeBases: bool, v: nat, d: nat)
    requires v < |defs|
    ensures d in GraphOf(defs, completeBases)[v]
       <==> FirstOfName(defs, d) && Needs(defs[v], defs[d].name, completeBases)
    ensures Increasing(GraphOf(defs, completeBases)[v])
  {
    var index := IndexUpTo(defs, |defs|);
    IndexIsFirst(defs, |defs|);
    SortedUniqueKeeps(Dependencies(defs[v], index, completeBases));
    DependenciesAreNeeds(defs[v], index, completeBases, d);
    if FirstOfName(defs, d) {
      assert index[defs[d].name] == d;
    }
  }

  lemma GraphIsClosed(defs: seq<Definition>, completeBases: bool)
    ensures Closed(GraphOf(defs, completeBases))
  {
    var g := GraphOf(defs, completeBases);
    forall v, i | 0 <= v < |g| && 0 <= i < |g[v]| ensures g[v][i] < |g| {
      GraphEdges(defs, completeBases, v, g[v][i]);
    }
  }

  /** `v` needs `d` to be complete, and they are different definitions. */
  predicate NeedsFirst(defs: seq<Definition>, completeBases: bool, v: nat, d: nat) {
    v < |defs| && d != v && FirstOfName(defs, d) && Needs(defs[v], defs[d].name, completeBases)
  }

  predicate Before(order: seq<nat>, d: nat, v: nat) {
    exists i, j :: 0 <= i < j < |order| && order[i] == d && order[j] == v
  }

  /** Every definition is emitted once, after every definition it needs complete, except for those that
      need it in turn. */
  lemma DefinitionsInOrder(defs: seq<Definition>, completeBases: bool)
    ensures Closed(GraphOf(defs, completeBases))
    ensures var g := GraphOf(defs, completeBases); var order := Order(g);
      && IsPermutation(order, |defs|)
      && forall v, d :: NeedsFirst(defs, completeBases, v, d) ==> Before(order, d, v) || Reaches(g, d, v)
  {
    GraphIsClosed(defs, completeBases);
    var g := GraphOf(defs, completeBases);
    var order := Order(g);
    OrderIsSettled(g);
    forall v, d | NeedsFirst(defs, completeBases, v, d) ensures Before(order, d, v) || Reaches(g, d, v) {
      GraphEdges(defs, completeBases, v, d);
      assert v in order;
      var at :| 0 <= at < |order| && order[at] == v;
      assert SettledAt(g, order, at);
      if d in order[..at] {
        var i :| 0 <= i < at && order[..at][i] == d;
      }
    }
  }

  lemma CollectedStep(types: seq<TypeRef>, i: nat, index: map<string, nat>, complete: bool)
    requires i < |types|
    ensures CollectedAll(types[i..], index, complete)
         == Collected(types[i], index, complete) + CollectedAll(types[i + 1..], index, complete)
  {
    assert types[i..][0] == types[i] && types[i..][1..] == types[i + 1..];
  }

  lemma Regroup(all: seq<nat>, one: seq<nat>, later: seq<nat>)
    ensures all + (one + later) == all + one + later
  {
  }

  method CollectDependencies(t: TypeRef, index: map<string, nat>, complete: bool, out: seq<nat>) returns (all: seq<nat>)
    ensures all == out + Collected(t, index, complete)
    decreases t, 0
  {
    all := out;
    if complete && (t.kind == Pointer || t.kind == Reference) {
      return;
    }
    if NamedHead(t) in index {
      all := all + [index[NamedHead(t)]];
    }
    all := CollectAll(t.children, index, complete, all);
  }

  method CollectAll(types: seq<TypeRef>, index: map<string, nat>, complete: bool, out: seq<nat>) returns (all: seq<nat>)
    ensures all == out + CollectedAll(types, index, complete)
    decreases types, 1
  {
    all := out;
    ghost var later := CollectedAll(types, index, complete);
    ghost var whole := out + later;
    assert types[0..] == types;
    for i := 0 to |types|
      invariant later == CollectedAll(types[i..], index, complete) && all + later == whole
    {
      CollectedStep(types, i, index, complete);
      ghost var before := all;
      all := CollectDependencies(types[i], index, complete, all);
      later := CollectedAll(types[i + 1..], index, complete);
      Regroup(before, Collected(types[i], index, complete), later);
    }
  }

  lemma PayloadStep(payloads: seq<seq<TypeRef>>, i: nat, index: map<string, nat>)
    requires i < |payloads|
    ensures CollectedPayloads(payloads[i..], index)
         == CollectedAll(payloads[i], index, true) + CollectedPayloads(payloads[i + 1..], index)
  {
    assert payloads[i..][0] == payloads[i] && payloads[i..][1..] == payloads[i + 1..];
  }

  method CollectFrom(def: Definition, index: map<string, nat>, completeBases: bool) returns (current: seq<nat>)
    ensures current == Dependencies(def, index, completeBases)
  {
    current := [];
    match def {
      case ClassDefinition(_, bases, fields) =>
        current := CollectAll(bases, index, completeBases, current);
        current := CollectAll(fields, index, true, current);
      case PayloadEnum(_, payloads) =>
        ghost var later := CollectedPayloads(payloads, index);
        ghost var whole := later;
        assert payloads[0..] == payloads;
        for i := 0 to |payloads|
          invariant later == CollectedPayloads(payloads[i..], index) && current + later == whole
        {
          PayloadStep(payloads, i, index);
          ghost var before := current;
          current := CollectAll(payloads[i], index, true, current);
          later := CollectedPayloads(payloads[i + 1..], index);
          Regroup(before, CollectedAll(payloads[i], index, true), later);
        }
    }
  }

  method BuildGraph(defs: seq<Definition>, completeBases: bool) returns (g: Graph)
    ensures g == GraphOf(defs, completeBases)
  {
    var index: map<string, nat> := map[];
    for i := 0 to |defs|
      invariant index == IndexUpTo(defs, i)
    {
      if defs[i].name !in index {
        index := index[defs[i].name := i];
      }
    }
    g := [];
    for v := 0 to |defs|
      invariant |g| == v
      invariant forall u :: 0 <= u < v ==> g[u] == SortedUnique(Dependencies(defs[u], index, completeBases))
    {
      var current := CollectFrom(defs[v], index, completeBases);
      g := g + [SortedUnique(current)];
    }
  }

  method EmissionOrder(defs: seq<Definition>, completeBases: bool) returns (order: seq<nat>)
    ensures Closed(GraphOf(defs, completeBases)) && order == Order(GraphOf(defs, completeBases))
  {
    var g := BuildGraph(defs, completeBases);
    GraphIsClosed(defs, completeBases);
    order := EmitOrder(g);
  }
}
