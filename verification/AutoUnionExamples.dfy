/** Programs whose `auto_union` has other variants when it is checked at another time. */
module AutoUnionExamples {
  import opened AutoUnion
  import opened Options

  function Declared(scope: Scope, decl: TypeExpr): Entity { Entity(TypeName, scope, Some(decl)) }

  function Using(name: Name): TypeExpr { StructLit([FieldDecl(true, Ident(name))]) }

  /** `Entity :: struct {id: int}`, `Base :: struct {using e: Entity, other: ^Any}`,
      `Mid :: struct {using b: Base}`, `Leaf :: struct {using m: Mid}`, `Any :: auto_union(Entity)`,
      numbered in this order, by their initials and their first fields. */
  function LeafWorld(): World {
    var scope := Scope(map["E" := 0, "B" := 1, "M" := 2, "L" := 3, "A" := 4], NoScope, false);
    World(
      map[0 := Declared(scope, StructLit([FieldDecl(false, OtherExpr)])), 1 := Declared(scope, Using("E")),
          2 := Declared(scope, Using("B")), 3 := Declared(scope, Using("M")), 4 := Declared(scope, OtherExpr)],
      map[0 := Named(0), 1 := Named(1), 2 := Named(2), 3 := Named(3), 4 := OtherType],
      map[0 := Struct([FieldType(false, OtherType)]), 1 := Struct([FieldType(true, Named(0))]),
          2 := Struct([FieldType(true, Named(1))]), 3 := Struct([FieldType(true, Named(2))])])
  }

  /** Checking Mid first: Mid has no field yet, Base is at its second one, which asks for Any. */
  function MidFirst(): State { State([2, 1, 4], {2}, {0, 1, 2, 3}) }

  /** Checking Any first. */
  function AnyFirst(): State { State([4], {}, {0, 1, 2, 3}) }

  /** e embeds the type before it. */
  ghost predicate EmbedsPrevious(w: World, e: EntityId) {
    && e > 0 && Eligible(w, e) && DeclaredFields(w, e).Some?
    && NamedHop(w, Named(e)) == Some(e - 1) && NextType(w, Named(e)) == Some(Named(e - 1))
  }

  /** What the names of LeafWorld lead to. */
  ghost predicate LeafShape(w: World) {
    && (forall e: EntityId | 1 <= e <= 3 ::
          Eligible(w, e) && NamedHop(w, Named(e)) == Some(e - 1) && NextType(w, Named(e)) == Some(Named(e - 1)))
    && LeafOthers(w)
  }

  lemma LeafNames()
    ensures LeafShape(LeafWorld())
  {
    LeafEmbeds();
    LeafRest();
    LeafRestTypes();
    LeafPieces(LeafWorld());
  }

  ghost predicate LeafOthers(w: World) { LeafFields(w) && LeafTypes(w) }

  ghost predicate LeafFields(w: World) {
    && (forall e: EntityId | e == 0 || e > 3 :: !FirstFieldUsing(w, e) && NextType(w, Named(e)) == None)
    && (forall e: EntityId | e > 3 :: DeclaredFields(w, e).None?)
  }

  ghost predicate LeafTypes(w: World) {
    && (forall e: EntityId | e <= 3 :: OwnName(w, e) && e in w.entities) && !OwnName(w, 4)
    && (forall e: EntityId | e <= 4 :: AliasOf(w, e) == None) && !PlainAlias(w, 4)
  }

  lemma LeafPieces(w: World)
    requires EmbedsPrevious(w, 1) && EmbedsPrevious(w, 2) && EmbedsPrevious(w, 3) && LeafOthers(w)
    ensures LeafShape(w)
  {
  }

  lemma LeafEmbeds()
    ensures var w := LeafWorld(); EmbedsPrevious(w, 1) && EmbedsPrevious(w, 2) && EmbedsPrevious(w, 3)
  {
    var w := LeafWorld();
    UsingName(w, 1, "E", 0);
    UsingName(w, 2, "B", 1);
    UsingName(w, 3, "M", 2);
  }

  lemma LeafRest()
    ensures LeafFields(LeafWorld())
  {
    var w := LeafWorld();
    assert DeclaredFields(w, 0) == Some([FieldDecl(false, OtherExpr)]);
    assert BaseType(w, Named(0)) == Struct([FieldType(false, OtherType)]);
    forall e: EntityId | e > 3 ensures DeclaredFields(w, e).None? && BaseType(w, Named(e)) == Named(e) {
    }
  }

  lemma LeafRestTypes()
    ensures LeafTypes(LeafWorld())
  {
  }

  /** A declaration that embeds a name of its scope. */
  lemma UsingName(w: World, e: EntityId, name: Name, h: EntityId)
    requires e in w.entities && w.entities[e].decl == Some(Using(name)) && IsTypeName(w, h)
    requires ScopeLookup(w, w.entities[e].scope, name, false) == Some(h)
    ensures DeclaredFields(w, e).Some? && FirstFieldUsing(w, e) && NamedHop(w, Named(e)) == Some(h)
  {
    assert DeclaredFields(w, e) == Some([FieldDecl(true, Ident(name))]);
  }

  lemma {:induction false} LeafChain(w: World, e: EntityId, i: nat)
    requires LeafShape(w) && e <= 3
    ensures Chain(w, Named(e), i) == if i <= e then Some(Named(e - i)) else None
    decreases i
  {
    if i > 0 && e > 0 {
      LeafChain(w, e - 1, i - 1);
    }
  }

  lemma LeafComparable(w: World, e: EntityId)
    requires LeafShape(w) && e <= 3
    ensures Comparable(w, e, Named(0))
    ensures forall i: nat :: Chain(w, Named(e), i) == if i <= e then Some(Named(e - i)) else None
    ensures forall i: nat :: DirectAt(w, Named(e), i) <==> i < e
    ensures forall i: nat :: i < e ==> NameAt(w, Named(e), i) == Some(e - i - 1)
  {
    forall i: nat ensures Chain(w, Named(e), i) == if i <= e then Some(Named(e - i)) else None {
      LeafChain(w, e, i);
    }
    forall x: EntityId | x <= e ensures Readable(w, Named(x)) {
      if x > 0 {
        assert NamedHop(w, Named(x)) == Some(x - 1);
        assert AliasPath(w, x - 1, [x - 1]);
      }
    }
  }

  lemma LeafStates(w: World)
    requires LeafShape(w)
    ensures Consistent(w, AnyFirst()) && Consistent(w, MidFirst())
  {
    LeafAnyFirst(w);
    LeafMidFirst(w);
  }

  /** First fields name what is asked for in any state that asks for the four structs. */
  lemma LeafAsked(w: World, st: State)
    requires LeafShape(w) && st.typed == {0, 1, 2, 3}
    ensures AskedOn(w, st)
  {
    forall x | Asked(st, x) && NamedHop(w, Named(x)).Some? ensures NamedHop(w, Named(x)).value in st.typed {
      assert x in {1, 2, 3};
      assert NamedHop(w, Named(x)) == Some(x - 1);
    }
  }

  lemma LeafAnyFirst(w: World)
    requires LeafShape(w)
    ensures Consistent(w, AnyFirst())
  {
    LeafAsked(w, AnyFirst());
    assert !PlainAlias(w, 4);
  }

  lemma LeafMidFirst(w: World)
    requires LeafShape(w)
    ensures Consistent(w, MidFirst())
  {
    LeafAsked(w, MidFirst());
    LeafStacked(w);
  }

  lemma LeafStacked(w: World)
    requires LeafShape(w)
    ensures Stacked(w, MidFirst())
  {
    assert NamedHop(w, Named(2)) == Some(2 - 1);
    assert WaitsAt(w, MidFirst(), 2, 0);
  }

  lemma LeafTaken(w: World, e: EntityId)
    requires LeafShape(w) && 1 <= e <= 3
    ensures Takes(w, AnyFirst(), Named(0), e) && (Takes(w, MidFirst(), Named(0), e) <==> e != 3)
  {
    LeafStates(w);
    LeafComparable(w, e);
    TakenOutside(w, AnyFirst(), Named(0), e);
    assert MetUnopened(w, AnyFirst(), Named(e), Named(0), e);
    if e == 3 {
      TakenOutside(w, MidFirst(), Named(0), e);
      assert BareAt(w, MidFirst(), Named(3), 1);
    } else {
      TakenInside(w, MidFirst(), Named(0), e);
      assert NamesMeet(w, MidFirst(), Named(e), Named(0), e);
    }
  }

  const FIVE: seq<EntityId> := [0] + [1] + [2] + [3] + [4]

  /** Leaf is a variant unless Mid is checked first. */
  lemma LeafDependsOnOrder()
    ensures var w := LeafWorld();
      && Checked(w, FIVE, Named(0)) && Consistent(w, AnyFirst()) && Consistent(w, MidFirst())
      && Variants(w, FIVE, AnyFirst(), Named(0)) == [Named(1), Named(2), Named(3)]
      && Variants(w, FIVE, MidFirst(), Named(0)) == [Named(1), Named(2)]
  {
    LeafNames();
    LeafVariants(LeafWorld());
  }

  lemma LeafVariants(w: World)
    requires LeafShape(w)
    ensures Checked(w, FIVE, Named(0)) && Consistent(w, AnyFirst()) && Consistent(w, MidFirst())
    ensures Variants(w, FIVE, AnyFirst(), Named(0)) == [Named(1), Named(2), Named(3)]
    ensures Variants(w, FIVE, MidFirst(), Named(0)) == [Named(1), Named(2)]
  {
    LeafStates(w);
    LeafChecked(w);
    LeafVariantsAnyFirst(w);
    LeafVariantsMidFirst(w);
  }

  lemma LeafVariantsAnyFirst(w: World)
    requires LeafShape(w)
    ensures Variants(w, FIVE, AnyFirst(), Named(0)) == [Named(1), Named(2), Named(3)]
  {
    LeafTaken(w, 1);
    LeafTaken(w, 2);
    LeafTaken(w, 3);
    FiveVariants(w, AnyFirst(), Named(0));
    assert OwnName(w, 1) && OwnName(w, 2) && OwnName(w, 3);
  }

  lemma LeafVariantsMidFirst(w: World)
    requires LeafShape(w)
    ensures Variants(w, FIVE, MidFirst(), Named(0)) == [Named(1), Named(2)]
  {
    LeafTaken(w, 1);
    LeafTaken(w, 2);
    LeafTaken(w, 3);
    FiveVariants(w, MidFirst(), Named(0));
    assert OwnName(w, 1) && OwnName(w, 2);
  }

  lemma LeafChecked(w: World)
    requires LeafShape(w)
    ensures Checked(w, FIVE, Named(0))
  {
    forall e: EntityId | e <= 3 ensures Comparable(w, e, Named(0)) { LeafComparable(w, e); }
  }

  function Variant(w: World, st: State, target: Type, e: EntityId): seq<Type> {
    if Takes(w, st, target, e) then [w.typeOf[e]] else []
  }

  lemma VariantsAppend(w: World, st: State, target: Type, init: seq<EntityId>, last: EntityId)
    ensures Variants(w, init + [last], st, target) == Variants(w, init, st, target) + Variant(w, st, target, last)
  {
    assert (init + [last])[..|init|] == init;
  }

  lemma FiveVariants(w: World, st: State, target: Type)
    requires !FirstFieldUsing(w, 0) && !FirstFieldUsing(w, 4)
    ensures Variants(w, FIVE, st, target) ==
            Variant(w, st, target, 1) + Variant(w, st, target, 2) + Variant(w, st, target, 3)
  {
    VariantsAppend(w, st, target, [], 0);
    assert [] + [0] == [0];
    VariantsAppend(w, st, target, [0], 1);
    VariantsAppend(w, st, target, [0] + [1], 2);
    VariantsAppend(w, st, target, [0] + [1] + [2], 3);
    VariantsAppend(w, st, target, [0] + [1] + [2] + [3], 4);
  }

  /** `T :: struct {id: int, others: ^Any}`, `A :: T`, `B :: A`, `S :: struct {using base: B}`,
      `Any :: auto_union(T)`, numbered in this order, by their first fields. */
  function AliasWorld(): World {
    var scope := Scope(map["T" := 0, "A" := 1, "B" := 2, "S" := 3, "Any" := 4], NoScope, false);
    World(
      map[0 := Declared(scope, StructLit([FieldDecl(false, OtherExpr)])), 1 := Declared(scope, Ident("T")),
          2 := Declared(scope, Ident("A")), 3 := Declared(scope, Using("B")), 4 := Declared(scope, OtherExpr)],
      map[0 := Named(0), 1 := Named(0), 2 := Named(0), 3 := Named(3), 4 := OtherType],
      map[0 := Struct([FieldType(false, OtherType)]), 3 := Struct([FieldType(true, Named(0))])])
  }

  /** Checking S first: S waits for B, B for A, A for T, and T, at its second field, for Any. */
  function EmbedderFirst(): State { State([3, 2, 1, 0, 4], {3}, {0, 1, 3}) }

  /** What the names of AliasWorld lead to. */
  ghost predicate AliasShape(w: World) { AliasUse(w) && AliasOthers(w) && AliasTypes(w) }

  ghost predicate AliasUse(w: World) {
    Eligible(w, 3) && NamedHop(w, Named(3)) == Some(2) && NextType(w, Named(3)) == Some(Named(0))
  }

  ghost predicate AliasOthers(w: World) {
    && (forall e | e != 3 :: !FirstFieldUsing(w, e) && NextType(w, Named(e)) == None)
    && (forall e | e !in {0, 3} :: DeclaredFields(w, e).None? && !OwnName(w, e))
  }

  ghost predicate AliasTypes(w: World) {
    && (forall e: EntityId | e <= 3 :: e in w.entities && e in w.typeOf && w.typeOf[e] == Named(if e == 3 then 3 else 0))
    && AliasOf(w, 2) == Some(1) && AliasOf(w, 1) == Some(0) && (forall e | e in {0, 3, 4} :: AliasOf(w, e) == None)
    && PlainAlias(w, 1) && !PlainAlias(w, 2) && !PlainAlias(w, 4)
  }

  lemma AliasNames()
    ensures AliasShape(AliasWorld())
  {
    AliasNamesUse();
    AliasNamesOthers();
    AliasNamesTypes();
  }

  lemma AliasNamesUse()
    ensures AliasUse(AliasWorld())
  {
    UsingName(AliasWorld(), 3, "B", 2);
  }

  lemma AliasNamesOthers()
    ensures AliasOthers(AliasWorld())
  {
  }

  lemma AliasNamesTypes()
    ensures AliasTypes(AliasWorld())
  {
    var w := AliasWorld();
    assert LookupTypeExpr(w, 1, Ident("T")) == Some(0);
    assert LookupTypeExpr(w, 2, Ident("A")) == Some(1);
  }

  lemma AliasComparable(w: World)
    requires AliasShape(w)
    ensures Comparable(w, 3, Named(0))
    ensures Chain(w, Named(3), 0) == Some(Named(3)) && Chain(w, Named(3), 1) == Some(Named(0))
  {
    assert Chain(w, Named(0), 0) == Some(Named(0));
    assert AliasPath(w, 2, [2, 1, 0]);
    assert Readable(w, Named(3)) && Readable(w, Named(0));
    forall i: nat | i > 1 ensures Chain(w, Named(3), i) == None {
      assert Chain(w, Named(0), i - 1) == None;
    }
  }

  lemma AliasAnyFirst(w: World)
    requires AliasShape(w)
    ensures Consistent(w, AnyFirst())
  {
    assert !PlainAlias(w, 4);
  }

  lemma AliasEmbedderFirst(w: World)
    requires AliasShape(w)
    ensures Consistent(w, EmbedderFirst())
  {
    AliasStacked(w);
    AliasTyped(w);
  }

  lemma AliasStacked(w: World)
    requires AliasShape(w)
    ensures Stacked(w, EmbedderFirst())
  {
    var st := EmbedderFirst();
    assert WaitsAt(w, st, 3, 0);
    assert FollowedBy(st, 1, 1) && FollowedBy(st, 2, 0);
  }

  lemma AliasTyped(w: World)
    requires AliasShape(w)
    ensures TypedInProgress(w, EmbedderFirst()) && AskedOn(w, EmbedderFirst())
  {
  }

  lemma AliasTaken(w: World)
    requires AliasShape(w) && Consistent(w, AnyFirst()) && Consistent(w, EmbedderFirst())
    ensures Takes(w, AnyFirst(), Named(0), 3) && !Takes(w, EmbedderFirst(), Named(0), 3)
  {
    AliasComparable(w);
    TakenOutside(w, AnyFirst(), Named(0), 3);
    assert MetUnopened(w, AnyFirst(), Named(3), Named(0), 1);
    TakenInside(w, EmbedderFirst(), Named(0), 3);
    assert !PlainAlias(w, 2);
    forall i: nat ensures !NamesMeet(w, EmbedderFirst(), Named(3), Named(0), i) {
      assert i > 1 ==> !DirectAt(w, Named(3), 0);
    }
  }

  /** S is a variant unless it is checked first: then B, an alias of an alias, is in progress and
      shows nothing of T. */
  lemma AliasDependsOnOrder()
    ensures var w := AliasWorld();
      && Checked(w, FIVE, Named(0)) && Consistent(w, AnyFirst()) && Consistent(w, EmbedderFirst())
      && Variants(w, FIVE, AnyFirst(), Named(0)) == [Named(3)]
      && Variants(w, FIVE, EmbedderFirst(), Named(0)) == []
  {
    AliasNames();
    AliasVariants(AliasWorld());
  }

  lemma AliasVariants(w: World)
    requires AliasShape(w)
    ensures Checked(w, FIVE, Named(0)) && Consistent(w, AnyFirst()) && Consistent(w, EmbedderFirst())
    ensures Variants(w, FIVE, AnyFirst(), Named(0)) == [Named(3)]
    ensures Variants(w, FIVE, EmbedderFirst(), Named(0)) == []
  {
    AliasComparable(w);
    AliasAnyFirst(w);
    AliasEmbedderFirst(w);
    AliasTaken(w);
    FiveVariants(w, AnyFirst(), Named(0));
    FiveVariants(w, EmbedderFirst(), Named(0));
    assert OwnName(w, 3);
  }
}
