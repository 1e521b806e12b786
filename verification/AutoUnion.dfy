/** Which structs `auto_union(T)` collects. A candidate whose type is resolved is asked through
    its type; one that is still being resolved is asked through its syntax. Either way the answer
    is the one of the moment: the state says what is in progress then. */
module AutoUnion {
  import opened Options

  type EntityId = nat
  type Name = string

  datatype TypeExpr =
    | Ident(name: Name)
    | Selector(base: TypeExpr, name: Name)
    | Paren(inner: TypeExpr)
    | StructLit(fields: seq<FieldDecl>)
    | OtherExpr

  datatype FieldDecl = FieldDecl(isUsing: bool, typ: TypeExpr)

  datatype Scope = NoScope | Scope(names: map<Name, EntityId>, parent: Scope, ofProc: bool)

  /** `shared` variables are declared at file level or static. */
  datatype EntityKind = TypeName | ImportName(imported: Scope) | Label | Variable(shared: bool) | OtherKind

  datatype Entity = Entity(kind: EntityKind, scope: Scope, decl: Option<TypeExpr>)

  datatype Type = Named(entity: EntityId) | Struct(fields: seq<FieldType>) | OtherType

  datatype FieldType = FieldType(isUsing: bool, typ: Type)

  /** The declarations, and what the checker makes of them: the type each type name stands for,
      and the type underneath each named type. */
  datatype World = World(entities: map<EntityId, Entity>, typeOf: map<EntityId, Type>, base: map<EntityId, Type>)

  const MAX_TYPE_HOPS := 64

  // ----- names -----

  function Unparen(e: TypeExpr): TypeExpr {
    if e.Paren? then Unparen(e.inner) else e
  }

  /** Labels and variables of its own are not seen from inside a nested procedure. */
  predicate OwnedByProc(w: World, x: EntityId) {
    x in w.entities && (w.entities[x].kind.Label? || (w.entities[x].kind.Variable? && !w.entities[x].kind.shared))
  }

  function ScopeLookup(w: World, s: Scope, name: Name, goneThruProc: bool): Option<EntityId> {
    if s.NoScope? then None
    else if name in s.names && !(goneThruProc && OwnedByProc(w, s.names[name])) then Some(s.names[name])
    else ScopeLookup(w, s.parent, name, goneThruProc || s.ofProc)
  }

  function ScopeLookupCurrent(s: Scope, name: Name): Option<EntityId> {
    if s.Scope? && name in s.names then Some(s.names[name]) else None
  }

  /** The entity that a type expression names, looked up from the scope of another entity. */
  function LookupTypeExpr(w: World, from: EntityId, expr: TypeExpr): Option<EntityId> {
    if from !in w.entities then None
    else match Unparen(expr)
      case Ident(name) => ScopeLookup(w, w.entities[from].scope, name, false)
      case Selector(base, name) =>
        (match Unparen(base)
         case Ident(pkg) =>
           var found := ScopeLookup(w, w.entities[from].scope, pkg, false);
           if found.Some? && found.value in w.entities && w.entities[found.value].kind.ImportName?
           then ScopeLookupCurrent(w.entities[found.value].kind.imported, name) else None
         case _ => None)
      case _ => None
  }

  /** The declared fields, when the entity is declared as a struct. */
  function DeclaredFields(w: World, e: EntityId): Option<seq<FieldDecl>> {
    if e in w.entities && w.entities[e].decl.Some? && Unparen(w.entities[e].decl.value).StructLit?
    then Some(Unparen(w.entities[e].decl.value).fields) else None
  }

  predicate FirstFieldUsing(w: World, e: EntityId) {
    var fields := DeclaredFields(w, e);
    fields.Some? && fields.value != [] && fields.value[0].isUsing
  }

  predicate IsTypeName(w: World, e: EntityId) { e in w.entities && w.entities[e].kind.TypeName? }

  // ----- the two tests -----

  /** The test on syntax. `typed` holds the entities whose type is set at the moment. */
  predicate EmbedsByAst(w: World, typed: set<EntityId>, e: EntityId, target: Type, depth: nat)
    decreases 65 - depth
  {
    if depth > 64 || !target.Named? || !FirstFieldUsing(w, e) then false
    else
      var found := LookupTypeExpr(w, e, DeclaredFields(w, e).value[0].typ);
      if found.None? || !IsTypeName(w, found.value) then false
      else
        var fe := found.value;
        || fe == target.entity
        || (fe in typed && fe in w.typeOf && w.typeOf[fe] == target)
        || EmbedsByAst(w, typed, fe, target, depth + 1)
  }

  function BaseType(w: World, t: Type): Type {
    if t.Named? && t.entity in w.base then w.base[t.entity] else t
  }

  /** The test on types, from some iteration of its loop on. */
  predicate EmbedsByType(w: World, s: Type, target: Type, depth: nat)
    decreases MAX_TYPE_HOPS - depth
  {
    if depth >= MAX_TYPE_HOPS then false
    else
      var bt := BaseType(w, s);
      && bt.Struct? && bt.fields != [] && bt.fields[0].isUsing
      && (bt.fields[0].typ == target || EmbedsByType(w, bt.fields[0].typ, target, depth + 1))
  }

  method TypeEmbedsAtOffset0(w: World, s0: Type, target: Type) returns (embeds: bool)
    ensures embeds == EmbedsByType(w, s0, target, 0)
  {
    var s := s0;
    for depth := 0 to MAX_TYPE_HOPS
      invariant EmbedsByType(w, s0, target, 0) == EmbedsByType(w, s, target, depth)
    {
      var bt := BaseType(w, s);
      if !bt.Struct? || bt.fields == [] {
        return false;
      }
      var f0 := bt.fields[0];
      if !f0.isUsing {
        return false;
      }
      if f0.typ == target {
        return true;
      }
      s := f0.typ;
    }
    return false;
  }

  // ----- chains of embedded first fields -----

  /** The type of the first field, when it is a `using` field. */
  function NextType(w: World, s: Type): Option<Type> {
    var bt := BaseType(w, s);
    if bt.Struct? && bt.fields != [] && bt.fields[0].isUsing then Some(bt.fields[0].typ) else None
  }

  /** The type at hop n of the chain of first fields from s. */
  function Chain(w: World, s: Type, n: nat): Option<Type>
    decreases n
  {
    if n == 0 then Some(s)
    else match NextType(w, s)
      case None => None
      case Some(next) => Chain(w, next, n - 1)
  }

  /** The target is on the chain at some hop between 1 and n. */
  ghost predicate Within(w: World, s: Type, target: Type, n: int) {
    exists i: nat :: 1 <= i <= n && Chain(w, s, i) == Some(target)
  }

  /** The type name that the declaration of s gives its first field, when it is a `using` field. */
  function NamedHop(w: World, s: Type): Option<EntityId> {
    if !s.Named? || !FirstFieldUsing(w, s.entity) then None
    else
      var found := LookupTypeExpr(w, s.entity, DeclaredFields(w, s.entity).value[0].typ);
      if found.Some? && IsTypeName(w, found.value) then found else None
  }

  /** The first field is named by its own type name: not through an alias, and not a generic
      instance, a `distinct` copy or an unnamed struct, which the syntax does not show. */
  predicate DirectHop(w: World, s: Type) {
    NamedHop(w, s).Some? && OwnName(w, NamedHop(w, s).value)
  }

  predicate OwnName(w: World, e: EntityId) { e in w.typeOf && w.typeOf[e] == Named(e) }

  /** What an alias is declared as, when that is a name. */
  function AliasOf(w: World, x: EntityId): Option<EntityId> {
    if x !in w.entities || w.entities[x].decl.None? || OwnName(w, x) then None
    else LookupTypeExpr(w, x, w.entities[x].decl.value)
  }

  /** From alias to alias, names of one type lead from h to something that is no alias. */
  ghost predicate AliasPath(w: World, h: EntityId, path: seq<EntityId>) {
    && path != [] && path[0] == h && h in w.typeOf && AliasOf(w, path[|path| - 1]) == None
    && (forall i, j | 0 <= i < j < |path| :: path[i] != path[j])
    && (forall i | 0 <= i < |path| - 1 :: AliasOf(w, path[i]) == Some(path[i + 1]))
    && (forall x | x in path :: x in w.entities && x in w.typeOf && w.typeOf[x] == w.typeOf[h])
    && (forall x | x in path && DeclaredFields(w, x).Some? :: OwnName(w, x))
  }

  /** The checker gives a first field the type that its type name stands for, and only a name
      of its own type is declared as a struct. */
  ghost predicate Readable(w: World, s: Type) {
    NamedHop(w, s).Some? ==>
      var h := NamedHop(w, s).value;
      h in w.typeOf && NextType(w, s) == Some(w.typeOf[h]) && exists path :: AliasPath(w, h, path)
  }

  ghost predicate ReadableFrom(w: World, s: Type) {
    forall i: nat | Chain(w, s, i).Some? :: Readable(w, Chain(w, s, i).value)
  }

  ghost predicate DirectAt(w: World, s: Type, i: nat) {
    Chain(w, s, i).Some? && DirectHop(w, Chain(w, s, i).value)
  }

  /** The hops up to n are direct. */
  ghost predicate DirectUpTo(w: World, s: Type, n: int) {
    forall i: nat | i < n :: DirectAt(w, s, i)
  }

  /** The name through which the chain takes hop i + 1. */
  function NameAt(w: World, s: Type, i: nat): Option<EntityId> {
    if Chain(w, s, i).Some? then NamedHop(w, Chain(w, s, i).value) else None
  }

  /** Going by names, the target is met at hop i: all hops before are direct, and the last one is
      direct or goes through an alias that has its type. */
  ghost predicate SyntaxMeets(w: World, typed: set<EntityId>, s: Type, target: Type, i: nat) {
    && 1 <= i && target.Named? && Chain(w, s, i) == Some(target) && DirectUpTo(w, s, i - 1)
    && NameAt(w, s, i - 1).Some? && (DirectAt(w, s, i - 1) || NameAt(w, s, i - 1).value in typed)
  }

  ghost predicate SyntaxWithin(w: World, typed: set<EntityId>, s: Type, target: Type, n: int) {
    exists i: nat :: i <= n && SyntaxMeets(w, typed, s, target, i)
  }

  lemma ReadableStep(w: World, s: Type)
    requires ReadableFrom(w, s)
    ensures Readable(w, s)
    ensures NextType(w, s).Some? ==> ReadableFrom(w, NextType(w, s).value)
  {
    assert Chain(w, s, 0) == Some(s);
    if NextType(w, s).Some? {
      var next := NextType(w, s).value;
      forall i: nat | Chain(w, next, i).Some? ensures Readable(w, Chain(w, next, i).value) {
        assert Chain(w, s, i + 1) == Chain(w, next, i);
      }
    }
  }

  lemma WithinStep(w: World, s: Type, target: Type, n: int)
    ensures Within(w, s, target, n) <==>
            n >= 1 && NextType(w, s).Some? && (NextType(w, s).value == target || Within(w, NextType(w, s).value, target, n - 1))
  {
    if Within(w, s, target, n) {
      var i: nat :| 1 <= i <= n && Chain(w, s, i) == Some(target);
      assert Chain(w, NextType(w, s).value, i - 1) == Some(target);
    }
    if n >= 1 && NextType(w, s).Some? {
      var next := NextType(w, s).value;
      if next == target {
        assert Chain(w, next, 0) == Some(target);
        assert Chain(w, s, 1) == Some(target);
      } else if Within(w, next, target, n - 1) {
        var i: nat :| 1 <= i <= n - 1 && Chain(w, next, i) == Some(target);
        assert Chain(w, s, i + 1) == Some(target);
      }
    }
  }

  /** The type test finds the target within 64 hops. */
  lemma {:induction false} TypeTestIsWithin(w: World, s: Type, target: Type, depth: nat)
    ensures EmbedsByType(w, s, target, depth) <==> Within(w, s, target, MAX_TYPE_HOPS - depth)
    decreases MAX_TYPE_HOPS - depth
  {
    WithinStep(w, s, target, MAX_TYPE_HOPS - depth);
    if depth < MAX_TYPE_HOPS && NextType(w, s).Some? {
      TypeTestIsWithin(w, NextType(w, s).value, target, depth + 1);
    }
  }

  /** After a direct hop, meeting the target is meeting it one hop earlier from there. */
  lemma SyntaxShift(w: World, typed: set<EntityId>, s: Type, target: Type, i: nat)
    requires DirectHop(w, s) && NextType(w, s).Some? && i >= 1
    ensures SyntaxMeets(w, typed, s, target, i + 1) <==> SyntaxMeets(w, typed, NextType(w, s).value, target, i)
  {
    var next := NextType(w, s).value;
    assert Chain(w, s, 0) == Some(s);
    forall j: nat ensures Chain(w, s, j + 1) == Chain(w, next, j) {
    }
    if SyntaxMeets(w, typed, s, target, i + 1) {
      forall j: nat | j < i - 1 ensures DirectAt(w, next, j) {
        assert DirectAt(w, s, j + 1);
      }
    }
    if SyntaxMeets(w, typed, next, target, i) {
      forall j: nat | j < i ensures DirectAt(w, s, j) {
        assert j > 0 ==> DirectAt(w, next, j - 1);
      }
    }
  }

  lemma SyntaxStep(w: World, typed: set<EntityId>, s: Type, target: Type, n: int)
    requires target.Named? && OwnName(w, target.entity) && Readable(w, s)
    ensures SyntaxWithin(w, typed, s, target, n) <==>
            && n >= 1 && NamedHop(w, s).Some?
            && var h := NamedHop(w, s).value;
               || (w.typeOf[h] == target && (h == target.entity || h in typed))
               || (OwnName(w, h) && SyntaxWithin(w, typed, Named(h), target, n - 1))
  {
    assert Chain(w, s, 0) == Some(s);
    if NamedHop(w, s).Some? {
      var h := NamedHop(w, s).value;
      var next := NextType(w, s).value;
      assert Chain(w, next, 0) == Some(next) && Chain(w, s, 1) == Some(next);
      assert SyntaxMeets(w, typed, s, target, 1) <==> next == target && (h == target.entity || h in typed);
      if DirectHop(w, s) {
        forall i: nat | i >= 1
          ensures SyntaxMeets(w, typed, s, target, i + 1) <==> SyntaxMeets(w, typed, next, target, i)
        {
          SyntaxShift(w, typed, s, target, i);
        }
      } else {
        assert !DirectAt(w, s, 0);
      }
    }
    if SyntaxWithin(w, typed, s, target, n) {
      var i: nat :| i <= n && SyntaxMeets(w, typed, s, target, i);
      assert i > 1 ==> DirectAt(w, s, 0) && SyntaxMeets(w, typed, NextType(w, s).value, target, i - 1);
    }
    if NamedHop(w, s).Some? && DirectHop(w, s) && SyntaxWithin(w, typed, NextType(w, s).value, target, n - 1) {
      var i: nat :| i <= n - 1 && SyntaxMeets(w, typed, NextType(w, s).value, target, i);
      assert SyntaxMeets(w, typed, s, target, i + 1);
    }
  }

  /** The syntax test meets the target within 65 hops, as far as names lead. */
  lemma {:induction false} AstTestIsWithin(w: World, typed: set<EntityId>, e: EntityId, target: Type, depth: nat)
    requires ReadableFrom(w, Named(e))
    requires target.Named? ==> OwnName(w, target.entity)
    ensures EmbedsByAst(w, typed, e, target, depth) <==> SyntaxWithin(w, typed, Named(e), target, 65 - depth)
    decreases 65 - depth
  {
    ReadableStep(w, Named(e));
    if target.Named? {
      SyntaxStep(w, typed, Named(e), target, 65 - depth);
      if depth <= 64 && DirectHop(w, Named(e)) {
        AstTestIsWithin(w, typed, NamedHop(w, Named(e)).value, target, depth + 1);
      }
    }
  }

  ghost predicate FirstMet(w: World, s: Type, target: Type, i: nat) {
    1 <= i && Chain(w, s, i) == Some(target) && !Within(w, s, target, i - 1)
  }

  lemma {:induction false} LeastMet(w: World, s: Type, target: Type, n: nat) returns (i: nat)
    requires Within(w, s, target, n)
    ensures i <= n && FirstMet(w, s, target, i)
  {
    if Within(w, s, target, n - 1) {
      i := LeastMet(w, s, target, n - 1);
    } else {
      i := n;
    }
  }

  lemma {:induction false} ChainEnd(w: World, s: Type, i: nat)
    requires Chain(w, s, i).Some?
    ensures Chain(w, s, i + 1) == NextType(w, Chain(w, s, i).value)
    decreases i
  {
    if i > 0 {
      ChainEnd(w, NextType(w, s).value, i - 1);
    } else if NextType(w, s).Some? {
      assert Chain(w, NextType(w, s).value, 0) == NextType(w, s);
    }
  }

  lemma LastHopIsNamed(w: World, s: Type, target: Type, i: nat)
    requires ReadableFrom(w, s) && i >= 1 && Chain(w, s, i) == Some(target) && DirectAt(w, s, i - 1)
    ensures target.Named? && NameAt(w, s, i - 1) == Some(target.entity)
  {
    ChainEnd(w, s, i - 1);
    assert Readable(w, Chain(w, s, i - 1).value);
  }

  // ----- the state in which the union is checked -----

  /** `stack` holds the declarations in progress, outermost first; `bare` the named types whose
      struct has no fields yet, which are the structs whose first field is being checked, their
      distinct copies, and generic instances being made; `typed` the entities whose type is
      known as it will be. What is neither in progress nor typed is unresolved. */
  datatype State = State(stack: seq<EntityId>, bare: set<EntityId>, typed: set<EntityId>)

  /** The world as the type test sees it. */
  function SeenIn(w: World, st: State): World {
    w.(base := map x | x in w.base :: if x in st.bare then Struct([]) else w.base[x])
  }

  /** An alias that is declared by the plain name of a type with that name. While that type is
      being checked on its behalf, the alias is already known to be it. */
  predicate PlainAlias(w: World, h: EntityId) {
    && AliasOf(w, h).Some? && OwnName(w, AliasOf(w, h).value) && Unparen(w.entities[h].decl.value).Ident?
    && h in w.typeOf && w.typeOf[h] == Named(AliasOf(w, h).value)
  }

  /** The states in which a union can be checked, once the first field of every struct in
      progress has been asked for: a bare struct waits for what its first field names, and an
      alias in progress for what it is declared as; a struct in progress is typed, an alias in
      progress only if it is plain; and what has been asked for has no first field that names
      something unresolved. */
  ghost predicate Consistent(w: World, st: State) {
    Stacked(w, st) && TypedInProgress(w, st) && AskedOn(w, st)
  }

  ghost predicate Stacked(w: World, st: State) {
    && (forall i, j | 0 <= i < j < |st.stack| :: st.stack[i] != st.stack[j])
    && (forall x | x in st.bare && DeclaredFields(w, x).Some? :: WaitsForFirstField(w, st, x))
    && (forall k | 0 <= k < |st.stack| && AliasOf(w, st.stack[k]).Some? :: FollowedBy(st, k, AliasOf(w, st.stack[k]).value))
  }

  ghost predicate TypedInProgress(w: World, st: State) {
    && (forall x | x in st.stack && DeclaredFields(w, x).Some? :: x in st.typed)
    && (forall x | x in st.stack && x in w.typeOf && !OwnName(w, x) :: x in st.typed <==> PlainAlias(w, x))
  }

  ghost predicate AskedOn(w: World, st: State) {
    forall x | Asked(st, x) && NamedHop(w, Named(x)).Some? :: Asked(st, NamedHop(w, Named(x)).value)
  }

  predicate Asked(st: State, x: EntityId) { x in st.stack || x in st.typed }

  ghost predicate WaitsForFirstField(w: World, st: State, x: EntityId) {
    exists k: nat :: WaitsAt(w, st, x, k)
  }

  predicate WaitsAt(w: World, st: State, x: EntityId, k: nat) {
    && k < |st.stack| && st.stack[k] == x
    && (NamedHop(w, Named(x)).Some? ==> FollowedBy(st, k, NamedHop(w, Named(x)).value))
  }

  predicate FollowedBy(st: State, k: nat, x: EntityId) { k + 1 < |st.stack| && st.stack[k + 1] == x }

  // ----- the collecting loop -----

  /** Whether the loop takes e. A candidate that is not in progress is resolved first. */
  predicate Takes(w: World, st: State, target: Type, e: EntityId) {
    && IsTypeName(w, e) && FirstFieldUsing(w, e) && e in w.typeOf
    && if e in st.stack then e in st.typed && EmbedsByAst(w, st.typed, e, target, 0)
       else BaseType(SeenIn(w, st), w.typeOf[e]).Struct? && EmbedsByType(SeenIn(w, st), w.typeOf[e], target, 0)
  }

  function Variants(w: World, candidates: seq<EntityId>, st: State, target: Type): seq<Type> {
    if candidates == [] then []
    else
      var last := candidates[|candidates| - 1];
      Variants(w, candidates[..|candidates| - 1], st, target) + (if Takes(w, st, target, last) then [w.typeOf[last]] else [])
  }

  method CollectVariants(w: World, candidates: seq<EntityId>, st: State, target: Type) returns (variants: seq<Type>)
    ensures variants == Variants(w, candidates, st, target)
  {
    variants := [];
    for i := 0 to |candidates|
      invariant variants == Variants(w, candidates[..i], st, target)
    {
      var e := candidates[i];
      assert candidates[..i + 1][..i] == candidates[..i];
      if !IsTypeName(w, e) {
        continue;
      }
      if e in st.stack {
        if e in st.typed && e in w.typeOf && FirstFieldUsing(w, e) && EmbedsByAst(w, st.typed, e, target, 0) {
          variants := variants + [w.typeOf[e]];
        }
        continue;
      }
      if !FirstFieldUsing(w, e) {
        continue;
      }
      if e !in w.typeOf || !BaseType(SeenIn(w, st), w.typeOf[e]).Struct? {
        continue;
      }
      var embeds := TypeEmbedsAtOffset0(SeenIn(w, st), w.typeOf[e], target);
      if embeds {
        variants := variants + [w.typeOf[e]];
      }
    }
    assert candidates[..|candidates|] == candidates;
  }

  /** Whether e can be a variant at all: a struct declared with a `using` field first. */
  predicate Eligible(w: World, e: EntityId) { IsTypeName(w, e) && FirstFieldUsing(w, e) && e in w.typeOf }

  /** A type name whose own name leads to its type, which does not contain itself, with a readable
      chain, and a target that is named likewise, if at all. */
  ghost predicate Comparable(w: World, e: EntityId, target: Type) {
    && OwnName(w, e) && ReadableFrom(w, Named(e)) && (target.Named? ==> OwnName(w, target.entity))
    && forall i: nat | i >= 1 :: Chain(w, Named(e), i) != Some(Named(e))
  }

  // ----- a candidate that is not in progress -----

  ghost predicate BareAt(w: World, st: State, s: Type, i: nat) {
    && Chain(w, s, i).Some? && Chain(w, s, i).value.Named? && Chain(w, s, i).value.entity in st.bare
  }

  /** No type on the first n places of the chain is bare. */
  ghost predicate Unopened(w: World, st: State, s: Type, n: nat) {
    forall i: nat | i < n :: !BareAt(w, st, s, i)
  }

  /** In a state, a chain ends at the first bare type. */
  lemma {:induction false} SeenChain(w: World, st: State, s: Type, n: nat)
    ensures Chain(SeenIn(w, st), s, n) == if Unopened(w, st, s, n) then Chain(w, s, n) else None
    decreases n
  {
    if n > 0 {
      assert Chain(w, s, 0) == Some(s);
      if !BareAt(w, st, s, 0) && NextType(w, s).Some? {
        var next := NextType(w, s).value;
        SeenChain(w, st, next, n - 1);
        forall i: nat ensures BareAt(w, st, s, i + 1) == BareAt(w, st, next, i) {
        }
        assert Unopened(w, st, s, n) <==> Unopened(w, st, next, n - 1) by {
          if Unopened(w, st, next, n - 1) {
            forall i: nat | i < n ensures !BareAt(w, st, s, i) {
              assert i > 0 ==> !BareAt(w, st, next, i - 1);
            }
          }
          if Unopened(w, st, s, n) {
            forall i: nat | i < n - 1 ensures !BareAt(w, st, next, i) {
              assert !BareAt(w, st, s, i + 1);
            }
          }
        }
      }
    }
  }

  ghost predicate MetUnopened(w: World, st: State, s: Type, target: Type, i: nat) {
    1 <= i && Chain(w, s, i) == Some(target) && Unopened(w, st, s, i)
  }

  /** A candidate that is not in progress is taken exactly when its chain meets the target within
      64 hops with no bare type before it. */
  lemma TakenOutside(w: World, st: State, target: Type, e: EntityId)
    requires Eligible(w, e) && OwnName(w, e) && e !in st.stack
    ensures Takes(w, st, target, e) <==> exists i: nat :: i <= MAX_TYPE_HOPS && MetUnopened(w, st, Named(e), target, i)
  {
    var s, seen := Named(e), SeenIn(w, st);
    TypeTestIsWithin(seen, s, target, 0);
    WithinStep(seen, s, target, MAX_TYPE_HOPS);
    forall i: nat ensures Chain(seen, s, i) == Some(target) <==> Unopened(w, st, s, i) && Chain(w, s, i) == Some(target) {
      SeenChain(w, st, s, i);
    }
    if i: nat :| i <= MAX_TYPE_HOPS && MetUnopened(w, st, s, target, i) {
      assert Chain(seen, s, i) == Some(target);
    }
    if Within(seen, s, target, MAX_TYPE_HOPS) {
      var i: nat :| 1 <= i <= MAX_TYPE_HOPS && Chain(seen, s, i) == Some(target);
      assert MetUnopened(w, st, s, target, i);
    }
  }

  // ----- a candidate in progress -----

  /** Names lead to the target at hop i: all hops before are direct, and the last is direct or
      goes through an alias that is plain or not in progress. */
  ghost predicate NamesMeet(w: World, st: State, s: Type, target: Type, i: nat) {
    && 1 <= i && target.Named? && Chain(w, s, i) == Some(target) && DirectUpTo(w, s, i - 1)
    && NameAt(w, s, i - 1).Some?
    && var h := NameAt(w, s, i - 1).value; OwnName(w, h) || h !in st.stack || PlainAlias(w, h)
  }

  /** Everything that direct hops name from an entity that was asked for was asked for. */
  lemma {:induction false} NamesAsked(w: World, st: State, e: EntityId, n: nat)
    requires Consistent(w, st) && ReadableFrom(w, Named(e)) && Asked(st, e) && DirectUpTo(w, Named(e), n)
    ensures NameAt(w, Named(e), n).Some? ==> Asked(st, NameAt(w, Named(e), n).value)
    decreases n
  {
    var s := Named(e);
    assert Chain(w, s, 0) == Some(s);
    if n > 0 {
      assert DirectAt(w, s, 0);
      ReadableStep(w, s);
      var h := NamedHop(w, s).value;
      forall i: nat | i < n - 1 ensures DirectAt(w, Named(h), i) {
        assert DirectAt(w, s, i + 1);
      }
      NamesAsked(w, st, h, n - 1);
      assert Chain(w, s, n) == Chain(w, Named(h), n - 1);
    }
  }

  /** A candidate in progress is taken exactly when names lead to the target within 65 hops. */
  lemma TakenInside(w: World, st: State, target: Type, e: EntityId)
    requires Eligible(w, e) && Comparable(w, e, target) && Consistent(w, st) && e in st.stack
    ensures Takes(w, st, target, e) <==> exists i: nat :: i <= 65 && NamesMeet(w, st, Named(e), target, i)
  {
    var s := Named(e);
    AstTestIsWithin(w, st.typed, e, target, 0);
    forall i: nat ensures SyntaxMeets(w, st.typed, s, target, i) <==> NamesMeet(w, st, s, target, i) {
      if 1 <= i && DirectUpTo(w, s, i - 1) && NameAt(w, s, i - 1).Some? && Chain(w, s, i) == Some(target) {
        NamesAsked(w, st, e, i - 1);
        assert Readable(w, Chain(w, s, i - 1).value);
      }
    }
    if i: nat :| i <= 65 && NamesMeet(w, st, s, target, i) {
      assert SyntaxMeets(w, st.typed, s, target, i);
    }
  }

  // ----- one state -----

  /** Nothing about the state hides that e embeds the target, or makes it seem to. */
  ghost predicate AgreesIn(w: World, st: State, target: Type, e: EntityId) {
    if e in st.stack then
      && (forall i: nat | i <= MAX_TYPE_HOPS && FirstMet(w, Named(e), target, i) :: NamesMeet(w, st, Named(e), target, i))
      && !(FirstMet(w, Named(e), target, 65) && NamesMeet(w, st, Named(e), target, 65))
    else forall i: nat | i <= MAX_TYPE_HOPS && FirstMet(w, Named(e), target, i) :: Unopened(w, st, Named(e), i)
  }

  lemma AgreeOutside(w: World, st: State, target: Type, e: EntityId)
    requires Eligible(w, e) && Comparable(w, e, target) && e !in st.stack
    ensures AgreesIn(w, st, target, e) <==> (Takes(w, st, target, e) <==> Within(w, Named(e), target, MAX_TYPE_HOPS))
  {
    var s := Named(e);
    TakenOutside(w, st, target, e);
    if Within(w, s, target, MAX_TYPE_HOPS) {
      var i := LeastMet(w, s, target, MAX_TYPE_HOPS);
      forall j: nat | MetUnopened(w, st, s, target, j) ensures Unopened(w, st, s, i) {
        assert i <= j;
      }
      if Unopened(w, st, s, i) {
        assert MetUnopened(w, st, s, target, i);
      }
      forall k: nat | FirstMet(w, s, target, k) ensures k == i {
      }
    }
  }

  lemma AgreeInside(w: World, st: State, target: Type, e: EntityId)
    requires Eligible(w, e) && Comparable(w, e, target) && Consistent(w, st) && e in st.stack
    ensures AgreesIn(w, st, target, e) <==> (Takes(w, st, target, e) <==> Within(w, Named(e), target, MAX_TYPE_HOPS))
  {
    var s := Named(e);
    TakenInside(w, st, target, e);
    forall i: nat, j: nat | FirstMet(w, s, target, i) && NamesMeet(w, st, s, target, j) ensures i <= j && NamesMeet(w, st, s, target, i) {
      if i < j {
        assert DirectAt(w, s, i - 1);
      }
    }
    if Within(w, s, target, MAX_TYPE_HOPS) {
      var i := LeastMet(w, s, target, MAX_TYPE_HOPS);
      forall k: nat | FirstMet(w, s, target, k) ensures k == i {
      }
    } else {
      forall j: nat | j <= 65 && NamesMeet(w, st, s, target, j) ensures j == 65 && FirstMet(w, s, target, 65) {
      }
    }
  }

  lemma AgreesExactly(w: World, st: State, target: Type, e: EntityId)
    requires Eligible(w, e) && Comparable(w, e, target) && Consistent(w, st)
    ensures AgreesIn(w, st, target, e) <==> (Takes(w, st, target, e) <==> Within(w, Named(e), target, MAX_TYPE_HOPS))
  {
    if e in st.stack { AgreeInside(w, st, target, e); } else { AgreeOutside(w, st, target, e); }
  }

  /** The eligible structs with the target on their chain, in the order of the candidates. */
  ghost function Embedders(w: World, candidates: seq<EntityId>, target: Type): seq<Type> {
    if candidates == [] then []
    else
      var last := candidates[|candidates| - 1];
      Embedders(w, candidates[..|candidates| - 1], target) +
      (if Eligible(w, last) && Within(w, Named(last), target, MAX_TYPE_HOPS) then [Named(last)] else [])
  }

  /** Candidates that are no structs with a `using` field first, such as aliases, may be anything. */
  ghost predicate Checked(w: World, candidates: seq<EntityId>, target: Type) {
    forall e | e in candidates && Eligible(w, e) :: Comparable(w, e, target)
  }

  lemma {:induction false} VariantIsTaken(w: World, candidates: seq<EntityId>, st: State, target: Type, e: EntityId)
    requires Checked(w, candidates, target)
    ensures Named(e) in Variants(w, candidates, st, target) <==> e in candidates && Takes(w, st, target, e)
  {
    if candidates != [] {
      var init, last := candidates[..|candidates| - 1], candidates[|candidates| - 1];
      VariantIsTaken(w, init, st, target, e);
      assert candidates == init + [last];
      if Takes(w, st, target, last) {
        assert Eligible(w, last) && w.typeOf[last] == Named(last);
      }
    }
  }

  lemma {:induction false} EmbedderIsWithin(w: World, candidates: seq<EntityId>, target: Type, e: EntityId)
    ensures Named(e) in Embedders(w, candidates, target) <==>
            e in candidates && Eligible(w, e) && Within(w, Named(e), target, MAX_TYPE_HOPS)
  {
    if candidates != [] {
      var init, last := candidates[..|candidates| - 1], candidates[|candidates| - 1];
      EmbedderIsWithin(w, init, target, e);
      assert candidates == init + [last];
    }
  }

  lemma {:induction false} AgreeingVariants(w: World, candidates: seq<EntityId>, st: State, target: Type)
    requires Checked(w, candidates, target) && Consistent(w, st)
    requires forall e | e in candidates && Eligible(w, e) :: AgreesIn(w, st, target, e)
    ensures Variants(w, candidates, st, target) == Embedders(w, candidates, target)
  {
    if candidates != [] {
      var init, e := candidates[..|candidates| - 1], candidates[|candidates| - 1];
      AgreeingVariants(w, init, st, target);
      if Eligible(w, e) {
        AgreesExactly(w, st, target, e);
      }
    }
  }

  /** In one state the variants are the embedders exactly when nothing about the state hides or
      feigns an embedding of a candidate. */
  lemma VariantsAreEmbedders(w: World, candidates: seq<EntityId>, st: State, target: Type)
    requires Checked(w, candidates, target) && Consistent(w, st)
    ensures Variants(w, candidates, st, target) == Embedders(w, candidates, target) <==>
            forall e | e in candidates && Eligible(w, e) :: AgreesIn(w, st, target, e)
  {
    if forall e | e in candidates && Eligible(w, e) :: AgreesIn(w, st, target, e) {
      AgreeingVariants(w, candidates, st, target);
    } else {
      var e :| e in candidates && Eligible(w, e) && !AgreesIn(w, st, target, e);
      AgreesExactly(w, st, target, e);
      VariantIsTaken(w, candidates, st, target, e);
      EmbedderIsWithin(w, candidates, target, e);
    }
  }

  // ----- all states -----

  /** Names lead through 64 direct hops and on to the next type. */
  ghost predicate NamedPast64(w: World, s: Type) {
    DirectUpTo(w, s, MAX_TYPE_HOPS) && NameAt(w, s, MAX_TYPE_HOPS).Some?
  }

  /** The first field of s is named by its type or by a plain alias of it. */
  predicate PlainHop(w: World, s: Type) {
    NamedHop(w, s).Some? && (OwnName(w, NamedHop(w, s).value) || PlainAlias(w, NamedHop(w, s).value))
  }

  /** If the chain meets the target within reach of the type test, then at the first hop and by a
      plain name; if only at hop 65, then not by names. */
  ghost predicate OrderSafe(w: World, target: Type, e: EntityId) {
    && (forall i: nat | i <= MAX_TYPE_HOPS && FirstMet(w, Named(e), target, i) :: i == 1 && PlainHop(w, Named(e)))
    && !(target.Named? && FirstMet(w, Named(e), target, 65) && NamedPast64(w, Named(e)))
  }

  ghost predicate AllSafe(w: World, candidates: seq<EntityId>, target: Type) {
    forall e | e in candidates && Eligible(w, e) :: OrderSafe(w, target, e)
  }

  lemma SafeAgrees(w: World, st: State, target: Type, e: EntityId)
    requires Eligible(w, e) && Comparable(w, e, target) && Consistent(w, st) && OrderSafe(w, target, e)
    ensures AgreesIn(w, st, target, e)
  {
    var s := Named(e);
    assert Chain(w, s, 0) == Some(s);
    ReadableStep(w, s);
    forall i: nat | i <= MAX_TYPE_HOPS && FirstMet(w, s, target, i)
      ensures if e in st.stack then NamesMeet(w, st, s, target, i) else Unopened(w, st, s, i)
    {
      ChainEnd(w, s, 0);
    }
  }

  /** Everything is asked for and typed, except aliases in progress that are not plain. */
  function StateWith(w: World, stack: seq<EntityId>, bare: set<EntityId>): State {
    State(stack, bare, set x | x in w.entities && (x in stack && x in w.typeOf && !OwnName(w, x) ==> PlainAlias(w, x)))
  }

  lemma StateWithConsistent(w: World, stack: seq<EntityId>, bare: set<EntityId>)
    requires forall i, j | 0 <= i < j < |stack| :: stack[i] != stack[j]
    requires forall x | x in bare && DeclaredFields(w, x).Some? :: WaitsForFirstField(w, StateWith(w, stack, bare), x)
    requires forall x | x in stack && DeclaredFields(w, x).Some? :: x in w.typeOf ==> OwnName(w, x)
    requires forall x | x in stack :: x in w.entities
    requires forall k | 0 <= k < |stack| && AliasOf(w, stack[k]).Some? ::
               FollowedBy(StateWith(w, stack, bare), k, AliasOf(w, stack[k]).value)
    ensures Consistent(w, StateWith(w, stack, bare))
  {
  }

  /** Checking e itself: names do not lead to the target past a hop that is not direct. */
  lemma HiddenFromNames(w: World, target: Type, e: EntityId, i: nat, k: nat)
    requires Eligible(w, e) && Comparable(w, e, target) && FirstMet(w, Named(e), target, i) && i <= MAX_TYPE_HOPS
    requires k < i && (NameAt(w, Named(e), k).None? || (k < i - 1 && !DirectAt(w, Named(e), k)))
    ensures var st := StateWith(w, [e], {}); Consistent(w, st) && !AgreesIn(w, st, target, e)
  {
    StateWithConsistent(w, [e], {});
    assert !NamesMeet(w, StateWith(w, [e], {}), Named(e), target, i) by {
      assert k < i - 1 ==> !DirectAt(w, Named(e), k);
    }
  }

  /** A struct x that waits for its first field, and what that names, down to no alias. */
  lemma WaitingState(w: World, x: EntityId, path: seq<EntityId>)
    requires OwnName(w, x) && x in w.entities && x !in path && NamedHop(w, Named(x)).Some?
    requires AliasPath(w, NamedHop(w, Named(x)).value, path)
    ensures Consistent(w, StateWith(w, [x] + path, {x}))
  {
    var stack := [x] + path;
    var st := StateWith(w, stack, {x});
    assert WaitsAt(w, st, x, 0);
    forall k | 0 <= k < |stack| && AliasOf(w, stack[k]).Some? ensures FollowedBy(st, k, AliasOf(w, stack[k]).value) {
      assert k > 0 && stack[k] == path[k - 1];
      assert k - 1 < |path| - 1;
    }
    StateWithConsistent(w, stack, {x});
  }

  /** Checking e, whose first field names an alias that is not plain and still in progress. */
  lemma HiddenByAlias(w: World, target: Type, e: EntityId, h: EntityId, path: seq<EntityId>)
    requires Eligible(w, e) && Comparable(w, e, target) && FirstMet(w, Named(e), target, 1)
    requires NamedHop(w, Named(e)) == Some(h) && !OwnName(w, h) && !PlainAlias(w, h) && AliasPath(w, h, path)
    ensures var st := StateWith(w, [e] + path, {e}); Consistent(w, st) && !AgreesIn(w, st, target, e)
  {
    var s, st := Named(e), StateWith(w, [e] + path, {e});
    assert Chain(w, s, 0) == Some(s);
    ReadableStep(w, s);
    ChainEnd(w, s, 0);
    WaitingState(w, e, path);
    assert h in st.stack by { assert st.stack[1] == h; }
    assert !NamesMeet(w, st, s, target, 1);
  }

  /** Checking the first field x of e, whose own first field is being checked. */
  lemma HiddenByBare(w: World, target: Type, e: EntityId, x: EntityId, h: EntityId, i: nat, path: seq<EntityId>)
    requires Eligible(w, e) && Comparable(w, e, target) && FirstMet(w, Named(e), target, i) && 1 < i <= MAX_TYPE_HOPS
    requires NamedHop(w, Named(e)) == Some(x) && OwnName(w, x) && NamedHop(w, Named(x)) == Some(h) && AliasPath(w, h, path)
    ensures var st := StateWith(w, [x] + path, {x}); Consistent(w, st) && !AgreesIn(w, st, target, e)
  {
    var s, st := Named(e), StateWith(w, [x] + path, {x});
    assert Chain(w, s, 0) == Some(s);
    ReadableStep(w, s);
    ReadableStep(w, Named(x));
    ChainEnd(w, s, 0);
    ChainEnd(w, s, 1);
    assert Chain(w, s, 1) == Some(Named(x)) && Chain(w, s, 2) == Some(w.typeOf[h]);
    if x in path {
      ChainStays(w, Named(x), i - 1);
    }
    WaitingState(w, x, path);
    assert BareAt(w, st, s, 1);
  }

  lemma {:induction false} ChainStays(w: World, s: Type, n: nat)
    requires NextType(w, s) == Some(s)
    ensures Chain(w, s, n) == Some(s)
  {
    if n > 0 { ChainStays(w, s, n - 1); }
  }

  /** Where a candidate is not safe, some state hides it or feigns it. */
  lemma UnsafeDisagrees(w: World, target: Type, e: EntityId) returns (st: State)
    requires Eligible(w, e) && Comparable(w, e, target) && !OrderSafe(w, target, e)
    ensures Consistent(w, st) && !AgreesIn(w, st, target, e)
  {
    var s := Named(e);
    assert Chain(w, s, 0) == Some(s);
    ReadableStep(w, s);
    if i: nat :| i <= MAX_TYPE_HOPS && FirstMet(w, s, target, i) && !(i == 1 && PlainHop(w, s)) {
      st := StateWith(w, [e], {});
      if NamedHop(w, s).None? {
        HiddenFromNames(w, target, e, i, 0);
      } else {
        var h := NamedHop(w, s).value;
        if i == 1 {
          var path :| AliasPath(w, h, path);
          st := StateWith(w, [e] + path, {e});
          HiddenByAlias(w, target, e, h, path);
        } else if !OwnName(w, h) {
          HiddenFromNames(w, target, e, i, 0);
        } else {
          ChainEnd(w, s, 0);
          ReadableStep(w, Named(h));
          if NamedHop(w, Named(h)).None? {
            HiddenFromNames(w, target, e, i, 1);
          } else {
            var next := NamedHop(w, Named(h)).value;
            var path :| AliasPath(w, next, path);
            st := StateWith(w, [h] + path, {h});
            HiddenByBare(w, target, e, h, next, i, path);
          }
        }
      }
    } else {
      st := StateWith(w, [e], {});
      StateWithConsistent(w, [e], {});
      assert NamesMeet(w, st, s, target, 65);
    }
  }

  /** The variants are the same in every state exactly when each candidate that has the target
      within reach names it, plainly, as its own first field, and none meets it by names first at
      hop 65. */
  lemma OrderIndependentExactly(w: World, candidates: seq<EntityId>, target: Type)
    requires Checked(w, candidates, target)
    ensures (forall st | Consistent(w, st) :: Variants(w, candidates, st, target) == Embedders(w, candidates, target))
            <==> AllSafe(w, candidates, target)
  {
    if AllSafe(w, candidates, target) {
      forall st | Consistent(w, st) ensures Variants(w, candidates, st, target) == Embedders(w, candidates, target) {
        forall e | e in candidates && Eligible(w, e) { SafeAgrees(w, st, target, e); }
        VariantsAreEmbedders(w, candidates, st, target);
      }
    } else {
      var e :| e in candidates && Eligible(w, e) && !OrderSafe(w, target, e);
      var st := UnsafeDisagrees(w, target, e);
      VariantsAreEmbedders(w, candidates, st, target);
    }
  }

  /** A candidate whose chain of direct hops first meets the target at hop 65 is a variant or not
      depending on whether it is in progress. */
  lemma LongChainDependsOnOrder(w: World, e: EntityId, target: Type)
    requires Eligible(w, e) && Comparable(w, e, target)
    requires FirstMet(w, Named(e), target, 65) && DirectUpTo(w, Named(e), 65)
    ensures var st := StateWith(w, [e], {}); Consistent(w, st) && Takes(w, st, target, e)
    ensures var st := StateWith(w, [], {}); Consistent(w, st) && !Takes(w, st, target, e)
  {
    var s, inside, outside := Named(e), StateWith(w, [e], {}), StateWith(w, [], {});
    StateWithConsistent(w, [e], {});
    StateWithConsistent(w, [], {});
    assert DirectAt(w, s, 64);
    LastHopIsNamed(w, s, target, 65);
    TakenInside(w, inside, target, e);
    assert NamesMeet(w, inside, s, target, 65);
    TakenOutside(w, outside, target, e);
  }
}
