/** What a name in a declaration finds, told without the lookup: the innermost binding among the
    enclosing scopes or, behind the name of an import, the binding in the imported scope itself. */
module AutoUnionNames {
  import opened Options
  import opened AutoUnion

  // ----- scopes -----

  /** The scope n levels out of s. */
  function Enclosing(s: Scope, n: nat): Scope
    decreases n
  {
    if n == 0 || s.NoScope? then s else Enclosing(s.parent, n - 1)
  }

  predicate Bound(s: Scope, name: Name) { s.Scope? && name in s.names }

  /** One of the scopes before the n-th is that of a procedure. */
  ghost predicate OutsideProc(s: Scope, n: nat) {
    exists j: nat :: j < n && IsProcScope(Enclosing(s, j))
  }

  predicate IsProcScope(s: Scope) { s.Scope? && s.ofProc }

  /** The n-th enclosing scope binds the name, and not just to a label or variable of a procedure
      that the search comes out of. */
  ghost predicate Sees(w: World, s: Scope, name: Name, outside: bool, n: nat) {
    && Bound(Enclosing(s, n), name)
    && !((outside || OutsideProc(s, n)) && OwnedByProc(w, Enclosing(s, n).names[name]))
  }

  /** The name is seen as x n scopes out, and not seen further in. */
  ghost predicate FoundAt(w: World, s: Scope, name: Name, outside: bool, x: EntityId, n: nat) {
    && Sees(w, s, name, outside, n) && Enclosing(s, n).names[name] == x
    && forall m: nat | m < n :: !Sees(w, s, name, outside, m)
  }

  /** From scope s the name stands for x. */
  ghost predicate Finds(w: World, s: Scope, name: Name, x: EntityId) {
    exists n: nat :: FoundAt(w, s, name, false, x, n)
  }

  lemma SeesFromParent(w: World, s: Scope, name: Name, outside: bool, m: nat)
    requires s.Scope?
    ensures Sees(w, s, name, outside, m + 1) <==> Sees(w, s.parent, name, outside || s.ofProc, m)
  {
    assert Enclosing(s, 0) == s && Enclosing(s, m + 1) == Enclosing(s.parent, m);
    if j: nat :| j < m + 1 && IsProcScope(Enclosing(s, j)) {
      assert j > 0 ==> Enclosing(s, j) == Enclosing(s.parent, j - 1) && IsProcScope(Enclosing(s.parent, j - 1));
    }
    if j: nat :| j < m && IsProcScope(Enclosing(s.parent, j)) {
      assert Enclosing(s, j + 1) == Enclosing(s.parent, j);
    }
  }

  lemma FoundFromParent(w: World, s: Scope, name: Name, outside: bool, x: EntityId, n: nat)
    requires s.Scope? && !Sees(w, s, name, outside, 0)
    ensures FoundAt(w, s, name, outside, x, n + 1) <==> FoundAt(w, s.parent, name, outside || s.ofProc, x, n)
  {
    var beyond := outside || s.ofProc;
    assert Enclosing(s, n + 1) == Enclosing(s.parent, n);
    SeesFromParent(w, s, name, outside, n);
    if FoundAt(w, s, name, outside, x, n + 1) {
      forall m: nat | m < n ensures !Sees(w, s.parent, name, beyond, m) {
        SeesFromParent(w, s, name, outside, m);
        assert !Sees(w, s, name, outside, m + 1);
      }
    }
    if FoundAt(w, s.parent, name, beyond, x, n) {
      forall m: nat | m < n + 1 ensures !Sees(w, s, name, outside, m) {
        if m > 0 { SeesFromParent(w, s, name, outside, m - 1); }
      }
    }
  }

  /** A lookup finds the innermost binding that is seen. */
  lemma LookupFindsInnermost(w: World, s: Scope, name: Name, x: EntityId)
    ensures ScopeLookup(w, s, name, false) == Some(x) <==> Finds(w, s, name, x)
  {
    LookupFindsFirst(w, s, name, false, x);
  }

  lemma {:induction false} LookupFindsFirst(w: World, s: Scope, name: Name, outside: bool, x: EntityId)
    ensures ScopeLookup(w, s, name, outside) == Some(x) <==> exists n: nat :: FoundAt(w, s, name, outside, x, n)
    decreases s
  {
    assert Enclosing(s, 0) == s;
    if s.NoScope? {
      forall n: nat ensures Enclosing(s, n) == NoScope {
      }
    } else if Sees(w, s, name, outside, 0) {
      assert s.names[name] == x ==> FoundAt(w, s, name, outside, x, 0);
      forall n: nat | n > 0 ensures !FoundAt(w, s, name, outside, x, n) {
      }
    } else {
      var beyond := outside || s.ofProc;
      LookupFindsFirst(w, s.parent, name, beyond, x);
      if n: nat :| FoundAt(w, s.parent, name, beyond, x, n) {
        FoundFromParent(w, s, name, outside, x, n);
      }
      if n: nat :| FoundAt(w, s, name, outside, x, n) {
        FoundFromParent(w, s, name, outside, x, n - 1);
      }
    }
  }

  // ----- type expressions -----

  /** e in k pairs of parentheses. */
  function Parenthesized(e: TypeExpr, k: nat): TypeExpr {
    if k == 0 then e else Paren(Parenthesized(e, k - 1))
  }

  lemma {:induction false} UnparenParenthesized(e: TypeExpr, k: nat)
    requires !e.Paren?
    ensures Unparen(Parenthesized(e, k)) == e
  {
    if k > 0 { UnparenParenthesized(e, k - 1); }
  }

  lemma {:induction false} Unwrapped(e: TypeExpr) returns (k: nat)
    ensures !Unparen(e).Paren? && e == Parenthesized(Unparen(e), k)
  {
    k := 0;
    if e.Paren? {
      k := Unwrapped(e.inner);
      k := k + 1;
    }
  }

  /** e is core in some number of parentheses. */
  ghost predicate Wraps(e: TypeExpr, core: TypeExpr) { exists k: nat :: e == Parenthesized(core, k) }

  lemma WrapsExactly(e: TypeExpr, core: TypeExpr)
    requires !core.Paren?
    ensures Wraps(e, core) <==> Unparen(e) == core
  {
    var k := Unwrapped(e);
    if Wraps(e, core) {
      var k' :| e == Parenthesized(core, k');
      UnparenParenthesized(core, k');
    }
  }

  /** Written in scope s, e is a name that stands for x there. */
  ghost predicate NamesPlainly(w: World, s: Scope, e: TypeExpr, x: EntityId) {
    exists name :: Wraps(e, Ident(name)) && Finds(w, s, name, x)
  }

  /** Written in scope s, e is `pkg.name`, where pkg stands for an import that binds the name to x. */
  ghost predicate NamesThroughImport(w: World, s: Scope, e: TypeExpr, x: EntityId) {
    exists base, name, p :: Wraps(e, Selector(base, name)) && NamesPlainly(w, s, base, p) && Imports(w, p, name, x)
  }

  ghost predicate Imports(w: World, p: EntityId, name: Name, x: EntityId) {
    && p in w.entities && w.entities[p].kind.ImportName?
    && Bound(w.entities[p].kind.imported, name) && w.entities[p].kind.imported.names[name] == x
  }

  /** The lookup of a type expression finds exactly what the expression names. */
  lemma LookupFindsNamed(w: World, from: EntityId, e: TypeExpr, x: EntityId)
    requires from in w.entities
    ensures var s := w.entities[from].scope;
      LookupTypeExpr(w, from, e) == Some(x) <==> NamesPlainly(w, s, e, x) || NamesThroughImport(w, s, e, x)
  {
    var s := w.entities[from].scope;
    PlainNameIsIdent(w, s, e, x);
    forall core: TypeExpr | !core.Paren? ensures Wraps(e, core) <==> Unparen(e) == core {
      WrapsExactly(e, core);
    }
    if Unparen(e).Selector? {
      var base, name := Unparen(e).base, Unparen(e).name;
      forall p: EntityId ensures NamesPlainly(w, s, base, p) <==> Unparen(base).Ident? && ScopeLookup(w, s, Unparen(base).name, false) == Some(p) {
        PlainNameIsIdent(w, s, base, p);
      }
      if LookupTypeExpr(w, from, e) == Some(x) {
        var found := ScopeLookup(w, s, Unparen(base).name, false);
        assert Wraps(e, Selector(base, name)) && NamesPlainly(w, s, base, found.value) && Imports(w, found.value, name, x);
      }
    }
  }

  lemma PlainNameIsIdent(w: World, s: Scope, e: TypeExpr, x: EntityId)
    ensures NamesPlainly(w, s, e, x) <==> Unparen(e).Ident? && ScopeLookup(w, s, Unparen(e).name, false) == Some(x)
  {
    forall name ensures Wraps(e, Ident(name)) <==> Unparen(e) == Ident(name) {
      WrapsExactly(e, Ident(name));
    }
    if Unparen(e).Ident? {
      LookupFindsInnermost(w, s, Unparen(e).name, x);
    }
  }

  // ----- first fields -----

  /** a is declared as a struct, in any parentheses, whose first field is a `using` field written t. */
  ghost predicate FirstFieldWritten(w: World, a: EntityId, t: TypeExpr) {
    && a in w.entities && w.entities[a].decl.Some?
    && exists fields :: Wraps(w.entities[a].decl.value, StructLit(fields)) && fields != [] && fields[0] == FieldDecl(true, t)
  }

  /** The first field of a is a `using` field of the type name b, as its declaration reads. */
  ghost predicate FirstFieldNames(w: World, a: EntityId, b: EntityId) {
    && b in w.entities && w.entities[b].kind == TypeName
    && exists t :: FirstFieldWritten(w, a, t)
         && (NamesPlainly(w, w.entities[a].scope, t, b) || NamesThroughImport(w, w.entities[a].scope, t, b))
  }

  lemma FirstFieldIsWritten(w: World, a: EntityId, t: TypeExpr)
    ensures FirstFieldWritten(w, a, t) <==> FirstFieldUsing(w, a) && DeclaredFields(w, a).value[0].typ == t
  {
    if a in w.entities && w.entities[a].decl.Some? {
      var decl := w.entities[a].decl.value;
      forall fields ensures Wraps(decl, StructLit(fields)) <==> Unparen(decl) == StructLit(fields) {
        WrapsExactly(decl, StructLit(fields));
      }
    }
  }

  lemma HopIsNamed(w: World, a: EntityId, b: EntityId)
    ensures NamedHop(w, Named(a)) == Some(b) <==> FirstFieldNames(w, a, b)
  {
    forall t ensures FirstFieldWritten(w, a, t) <==> FirstFieldUsing(w, a) && DeclaredFields(w, a).value[0].typ == t {
      FirstFieldIsWritten(w, a, t);
    }
    if FirstFieldUsing(w, a) {
      LookupFindsNamed(w, a, DeclaredFields(w, a).value[0].typ, b);
    }
  }

  // ----- the syntax test -----

  predicate KnownAs(w: World, typed: set<EntityId>, b: EntityId, target: EntityId) {
    b == target || (b in typed && b in w.typeOf && w.typeOf[b] == Named(target))
  }

  /** From first field to first field, names lead to the target or to something known to be it. */
  ghost predicate NamePath(w: World, typed: set<EntityId>, path: seq<EntityId>, target: EntityId) {
    && |path| >= 2
    && (forall i | 0 <= i < |path| - 1 :: FirstFieldNames(w, path[i], path[i + 1]))
    && KnownAs(w, typed, path[|path| - 1], target)
  }

  ghost predicate NamesLead(w: World, typed: set<EntityId>, e: EntityId, target: EntityId, hops: int) {
    exists path :: NamePath(w, typed, path, target) && path[0] == e && |path| - 1 <= hops
  }

  lemma NamesLeadOn(w: World, typed: set<EntityId>, path: seq<EntityId>, target: EntityId)
    requires NamePath(w, typed, path, target) && |path| > 2
    ensures FirstFieldNames(w, path[0], path[1]) && NamePath(w, typed, path[1..], target)
  {
    var rest := path[1..];
    forall i | 0 <= i < |rest| - 1 ensures FirstFieldNames(w, rest[i], rest[i + 1]) {
      assert FirstFieldNames(w, path[i + 1], path[i + 2]);
    }
  }

  lemma NamesLeadFrom(w: World, typed: set<EntityId>, e: EntityId, rest: seq<EntityId>, target: EntityId)
    requires NamePath(w, typed, rest, target) && FirstFieldNames(w, e, rest[0])
    ensures NamePath(w, typed, [e] + rest, target)
  {
    var path := [e] + rest;
    forall i | 0 <= i < |path| - 1 ensures FirstFieldNames(w, path[i], path[i + 1]) {
      assert i > 0 ==> FirstFieldNames(w, rest[i - 1], rest[i]);
    }
  }

  /** The first name is the target, or names lead on from there. */
  ghost predicate NextLeads(w: World, typed: set<EntityId>, e: EntityId, target: EntityId, hops: int) {
    && hops >= 1
    && exists b :: FirstFieldNames(w, e, b) && (KnownAs(w, typed, b, target) || NamesLead(w, typed, b, target, hops - 1))
  }

  lemma LeadsByNext(w: World, typed: set<EntityId>, e: EntityId, target: EntityId, hops: int)
    requires NextLeads(w, typed, e, target, hops)
    ensures NamesLead(w, typed, e, target, hops)
  {
    var b :| FirstFieldNames(w, e, b) && (KnownAs(w, typed, b, target) || NamesLead(w, typed, b, target, hops - 1));
    if KnownAs(w, typed, b, target) {
      var path := [e, b];
      assert NamePath(w, typed, path, target) && path[0] == e && |path| - 1 <= hops;
    } else {
      LeadsFurther(w, typed, e, b, target, hops - 1);
    }
  }

  lemma LeadsFurther(w: World, typed: set<EntityId>, e: EntityId, b: EntityId, target: EntityId, hops: int)
    requires FirstFieldNames(w, e, b) && NamesLead(w, typed, b, target, hops)
    ensures NamesLead(w, typed, e, target, hops + 1)
  {
    var rest :| NamePath(w, typed, rest, target) && rest[0] == b && |rest| - 1 <= hops;
    NamesLeadFrom(w, typed, e, rest, target);
    var path := [e] + rest;
    assert NamePath(w, typed, path, target) && path[0] == e && |path| - 1 <= hops + 1;
  }

  lemma NamesLeadStep(w: World, typed: set<EntityId>, e: EntityId, target: EntityId, hops: int)
    ensures NamesLead(w, typed, e, target, hops) <==> NextLeads(w, typed, e, target, hops)
  {
    if NextLeads(w, typed, e, target, hops) {
      LeadsByNext(w, typed, e, target, hops);
    } else if NamesLead(w, typed, e, target, hops) {
      var path :| NamePath(w, typed, path, target) && path[0] == e && |path| - 1 <= hops;
      assert FirstFieldNames(w, e, path[1]);
      if |path| > 2 { NamesLeadOn(w, typed, path, target); }
    }
  }

  /** Whatever the world, the syntax test follows the names for up to 65 hops. */
  lemma {:induction false} AstTestFollowsNames(w: World, typed: set<EntityId>, e: EntityId, target: EntityId, depth: nat)
    ensures EmbedsByAst(w, typed, e, Named(target), depth) <==> NamesLead(w, typed, e, target, 65 - depth)
    decreases 65 - depth
  {
    NamesLeadStep(w, typed, e, target, 65 - depth);
    forall b: EntityId ensures NamedHop(w, Named(e)) == Some(b) <==> FirstFieldNames(w, e, b) {
      HopIsNamed(w, e, b);
    }
    if depth <= 64 && NamedHop(w, Named(e)).Some? {
      AstTestFollowsNames(w, typed, NamedHop(w, Named(e)).value, target, depth + 1);
    }
  }

  lemma {:induction false} TakenIsVariant(w: World, candidates: seq<EntityId>, st: State, target: Type, e: EntityId)
    requires e in candidates && Takes(w, st, target, e)
    ensures w.typeOf[e] in Variants(w, candidates, st, target)
  {
    var init, last := candidates[..|candidates| - 1], candidates[|candidates| - 1];
    assert candidates == init + [last];
    if e != last {
      TakenIsVariant(w, init, st, target, e);
    }
  }

  /** A candidate in progress is taken exactly when it is a typed type name and names lead to the
      target within 65 hops. */
  lemma TakenByNames(w: World, st: State, target: EntityId, e: EntityId)
    requires e in st.stack
    ensures Takes(w, st, Named(target), e) <==>
            && e in w.entities && w.entities[e].kind == TypeName && e in w.typeOf && e in st.typed
            && NamesLead(w, st.typed, e, target, 65)
  {
    AstTestFollowsNames(w, st.typed, e, target, 0);
  }

  /** So one whose first field names the target, at any depth of scopes or through an import, is
      collected. */
  lemma NamedTargetIsCollected(w: World, candidates: seq<EntityId>, st: State, target: EntityId, e: EntityId)
    requires e in candidates && e in w.entities && w.entities[e].kind == TypeName && e in w.typeOf
    requires e in st.stack && e in st.typed && FirstFieldNames(w, e, target)
    ensures w.typeOf[e] in Variants(w, candidates, st, Named(target))
  {
    NamesLeadStep(w, st.typed, e, target, 65);
    TakenByNames(w, st, target, e);
    TakenIsVariant(w, candidates, st, Named(target), e);
  }
}
