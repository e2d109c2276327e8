/** Names of local variables in emitted C++, and names for values that are thrown away. */
module LocalNames {
  import opened ShapeSubstitution
  import opened ShapeEval

  const ESCAPE_PREFIX := "dudu_local_"

  const DISCARD_PREFIX := "dudu_internal_discard_"

  /** The reserved words with a first letter. */
  function ReservedFrom(first: char): seq<string> {
    match first
    case 'a' => ["alignas", "alignof", "and", "and_eq", "asm", "auto"]
    case 'b' => ["bitand", "bitor", "bool", "break"]
    case 'c' => ["case", "catch", "char", "char8_t", "char16_t", "char32_t", "class", "compl", "concept",
      "const", "consteval", "constexpr", "constinit", "const_cast", "continue", "co_await", "co_return",
      "co_yield"]
    case 'd' => ["decltype", "default", "delete", "do", "double", "dynamic_cast"]
    case 'e' => ["else", "enum", "explicit", "export", "extern"]
    case 'f' => ["false", "float", "for", "friend"]
    case 'g' => ["goto"]
    case 'i' => ["if", "inline", "int"]
    case 'l' => ["long"]
    case 'm' => ["mutable"]
    case 'n' => ["namespace", "new", "noexcept", "not", "not_eq", "nullptr"]
    case 'o' => ["operator", "or", "or_eq"]
    case 'p' => ["private", "protected", "public"]
    case 'r' => ["register", "reinterpret_cast", "requires", "return"]
    case 's' => ["short", "signed", "sizeof", "static", "static_assert", "static_cast", "struct", "switch"]
    case 't' => ["template", "this", "thread_local", "throw", "true", "try", "typedef", "typeid", "typename"]
    case 'u' => ["union", "unsigned", "using"]
    case 'v' => ["virtual", "void", "volatile"]
    case 'w' => ["wchar_t", "while"]
    case 'x' => ["xor", "xor_eq"]
    case _ => []
  }

  /** `cpp_reserved_identifier`. */
  predicate IsReserved(name: string) {
    name != "" && name in ReservedFrom(name[0])
  }

  function EmittedLocalName(name: string): string {
    if IsReserved(name) || ESCAPE_PREFIX <= name then ESCAPE_PREFIX + name else name
  }

  lemma ReservedStart(name: string)
    requires IsReserved(name)
    ensures |name| < 2 || name[0] != 'd' || name[1] != 'u'
  {
    if name[0] == 'd' {
      assert name in ReservedFrom('d');
    }
  }

  lemma EscapedStart(name: string)
    requires ESCAPE_PREFIX <= name || DISCARD_PREFIX <= name
    ensures !IsReserved(name) && |name| > 5
    ensures name[5] == if ESCAPE_PREFIX <= name then 'l' else 'i'
  {
    assert name[0] == 'd' && name[1] == 'u';
    if IsReserved(name) {
      ReservedStart(name);
    }
  }

  /** Emitted names are never reserved words, and different names stay different. */
  lemma EmittedNames(a: string, b: string)
    ensures !IsReserved(EmittedLocalName(a))
    ensures EmittedLocalName(a) == EmittedLocalName(b) <==> a == b
  {
    EscapedStart(ESCAPE_PREFIX + a);
    var m := |ESCAPE_PREFIX|;
    assert (ESCAPE_PREFIX + a)[m..] == a && (ESCAPE_PREFIX + b)[m..] == b;
  }

  /** The names of a context as C++ has them. */
  function Emissions(names: set<string>): set<string> {
    set name | name in names :: EmittedLocalName(name)
  }

  /** What a use of a name becomes. */
  function Emitted(names: set<string>, name: string): string {
    if name in names then EmittedLocalName(name) else name
  }

  /** Uses of different names stay different, except when a bound name that is escaped meets its own
      escaped form, used without being bound. */
  lemma UsesStayDifferent(names: set<string>, a: string, b: string)
    requires a != b
    ensures Emitted(names, a) == Emitted(names, b) <==>
      (a in names && b !in names && EmittedLocalName(a) == b) || (b in names && a !in names && EmittedLocalName(b) == a)
  {
    EmittedNames(a, b);
  }

  function DiscardName(count: nat): string {
    DISCARD_PREFIX + Digits(count)
  }

  lemma DiscardNames(i: nat, j: nat)
    ensures DiscardName(i) == DiscardName(j) <==> i == j
    ensures EmittedLocalName(DiscardName(i)) == DiscardName(i)
  {
    var m := |DISCARD_PREFIX|;
    assert DiscardName(i)[m..] == Digits(i) && DiscardName(j)[m..] == Digits(j);
    DigitsRoundTrip(i);
    DigitsRoundTrip(j);
    EscapedStart(DiscardName(i));
  }

  /** A discard name is emitted by a context exactly when it is one of its names. */
  lemma DiscardIsFresh(names: set<string>, i: nat)
    ensures DiscardName(i) in Emissions(names) <==> DiscardName(i) in names
  {
    DiscardNames(i, i);
    if DiscardName(i) in Emissions(names) {
      var name :| name in names && EmittedLocalName(name) == DiscardName(i);
      EmittedNames(name, DiscardName(i));
    }
  }

  /** Binding a name emits a new name exactly when the name was not bound: also a name written like a
      discard name collides with it only if the context holds it. */
  lemma BindEmitsNew(names: set<string>, name: string)
    ensures EmittedLocalName(name) in Emissions(names) <==> name in names
  {
    if EmittedLocalName(name) in Emissions(names) {
      var other :| other in names && EmittedLocalName(other) == EmittedLocalName(name);
      EmittedNames(other, name);
    }
  }

  lemma AddedName(names: set<string>, name: string)
    ensures Emissions(names + {name}) == Emissions(names) + {EmittedLocalName(name)}
  {
  }

  /** The first discard name from a counter on that is not taken. */
  function FirstDiscard(taken: set<string>, count: nat): nat
    decreases taken
  {
    if DiscardName(count) in taken then FirstDiscard(taken - {DiscardName(count)}, count + 1) else count
  }

  lemma {:induction false} FirstDiscardIsFree(taken: set<string>, count: nat)
    ensures FirstDiscard(taken, count) >= count && DiscardName(FirstDiscard(taken, count)) !in taken
    decreases taken
  {
    if DiscardName(count) in taken {
      FirstDiscardIsFree(taken - {DiscardName(count)}, count + 1);
      DiscardNames(FirstDiscard(taken, count), count);
    }
  }

  /** A context as emitting passes it on: the names bound so far, and the discard names with their
      counter. */
  datatype Locals = Locals(names: set<string>, discards: set<string>, count: nat)

  function NextDiscard(locals: Locals): nat {
    FirstDiscard(locals.names + locals.discards, locals.count)
  }

  /** The name that declaring a local emits. */
  function DeclaredAs(locals: Locals, name: string): string {
    if name == "_" then DiscardName(NextDiscard(locals)) else EmittedLocalName(name)
  }

  function WithLocal(locals: Locals, name: string): Locals {
    if name == "_" then
      var next := NextDiscard(locals);
      Locals(locals.names, locals.discards + {DiscardName(next)}, next + 1)
    else locals.(names := locals.names + {name})
  }

  /** Bound names are not emitted like a discarded value. */
  lemma DiscardIsUnbound(locals: Locals, name: string)
    requires name in locals.names
    ensures EmittedLocalName(name) != DeclaredAs(locals, "_")
  {
    FirstDiscardIsFree(locals.names + locals.discards, locals.count);
    DiscardNames(NextDiscard(locals), NextDiscard(locals));
    EmittedNames(name, DiscardName(NextDiscard(locals)));
  }

  class CppLocalContext {
    var names: set<string>
    var discardCount: nat
    /** Every name the context emitted, in order. */
    ghost var history: seq<string>

    ghost predicate Valid()
      reads this
    {
      forall emitted :: emitted in history <==> emitted in Emissions(names)
    }

    constructor ()
      ensures Valid() && names == {} && discardCount == 0 && history == []
    {
      names, discardCount, history := {}, 0, [];
    }

    method Bind(name: string) returns (emitted: string)
      requires Valid()
      modifies this`names, this`history
      ensures Valid() && names == old(names) + {name} && history == old(history) + [emitted]
      ensures emitted == EmittedLocalName(name)
      ensures emitted in old(history) <==> name in old(names)
    {
      BindEmitsNew(names, name);
      emitted := EmittedLocalName(name);
      AddedName(names, name);
      names := names + {name};
      history := history + [emitted];
    }

    /** The first discard name from the counter on that is not taken. */
    method BindDiscard() returns (name: string)
      requires Valid()
      modifies this`names, this`discardCount, this`history
      ensures Valid() && names == old(names) + {name} && history == old(history) + [name]
      ensures name !in old(history)
      ensures discardCount > old(discardCount) && name == DiscardName(discardCount - 1)
      ensures discardCount - 1 == FirstDiscard(old(names), old(discardCount))
    {
      ghost var tried: set<string> := {};
      assert names - tried == names;
      name := DiscardName(discardCount);
      discardCount := discardCount + 1;
      while name in names
        invariant discardCount > old(discardCount) && name == DiscardName(discardCount - 1)
        invariant names == old(names) && history == old(history)
        invariant FirstDiscard(names - tried, discardCount - 1) == FirstDiscard(names, old(discardCount))
        invariant tried <= names
        invariant forall t :: t in tried ==> exists k :: 0 <= k < discardCount - 1 && t == DiscardName(k)
        decreases names - tried
      {
        forall k | 0 <= k < discardCount - 1 ensures DiscardName(k) != name {
          DiscardNames(k, discardCount - 1);
        }
        assert names - tried - {name} == names - (tried + {name});
        tried := tried + {name};
        name := DiscardName(discardCount);
        discardCount := discardCount + 1;
      }
      DiscardIsFresh(names, discardCount - 1);
      DiscardNames(discardCount - 1, discardCount - 1);
      AddedName(names, name);
      names := names + {name};
      history := history + [name];
    }
  }
}
