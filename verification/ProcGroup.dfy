/** Checking a procedure group: collecting its members, then invalidating every member whose
    signature collides with an earlier one. */
module ProcGroup {

  type TypeId = nat

  /** `matchedFeatures` counts the required target features that the target has. */
  datatype Signature = Signature(
    params: seq<TypeId>,
    variadic: bool,
    polymorphic: bool,
    specialized: bool,
    results: seq<TypeId>,
    matchedFeatures: nat)

  datatype ProcType = NullType | InvalidType | NotAProcedure | Proc(sig: Signature)

  datatype OverloadKind =
    | Identical
    | ParamCount
    | ParamVariadic
    | ParamTypes
    | ResultCount
    | ResultTypes
    | Polymorphic
    | TargetFeatures
    | NotProcedure

  function OverloadSafety(x: ProcType, y: ProcType): OverloadKind {
    if !x.Proc? || !y.Proc? then NotProcedure
    else
      var px, py := x.sig, y.sig;
      if |px.params| != |py.params| then ParamCount
      else if px.params != py.params then ParamTypes
      else if px.variadic != py.variadic then ParamVariadic
      else if px.polymorphic != py.polymorphic then Polymorphic
      else if |px.results| != |py.results| then ResultCount
      else if px.results != py.results then ResultTypes
      else if px.matchedFeatures != py.matchedFeatures then TargetFeatures
      else Identical
  }

  datatype EntityKind = Procedure | Variable(holdsProc: bool) | OtherKind

  class Entity {
    const kind: EntityKind
    const disabled: bool
    /** The entity has a procedure literal with a `where` clause. */
    const hasWhere: bool
    var typ: ProcType

    constructor (kind: EntityKind, disabled: bool, hasWhere: bool, typ: ProcType)
      ensures this.kind == kind && this.disabled == disabled && this.hasWhere == hasWhere && this.typ == typ
    {
      this.kind, this.disabled, this.hasWhere, this.typ := kind, disabled, hasWhere, typ;
    }
  }

  // ----- collecting the members -----

  datatype WhereCond = NoWhere | WhereInvalid | WhereNotConstant | WhereConstant(value: bool)

  /** A member as written: its `where` condition, and the entity its name resolves to. */
  datatype Arg = Arg(cond: WhereCond, entity: Entity?)

  predicate Eligible(arg: Arg) {
    && arg.cond != WhereConstant(false)
    && arg.entity != null
    && (arg.entity.kind.Procedure? || arg.entity.kind == Variable(true))
  }

  /** Exactly the eligible entities, each once, in the order of their first mention. */
  ghost predicate Collected(args: seq<Arg>, es: seq<Entity>) {
    && (forall i, j | 0 <= i < j < |es| :: es[i] != es[j])
    && (forall i | 0 <= i < |args| && Eligible(args[i]) :: args[i].entity in es)
    && (exists at: seq<nat> :: FirstMentions(args, es, at))
  }

  /** `at` gives, in increasing order, the argument that first mentions each collected entity. */
  ghost predicate FirstMentions(args: seq<Arg>, es: seq<Entity>, at: seq<nat>) {
    && |at| == |es|
    && (forall i, j | 0 <= i < j < |at| :: at[i] < at[j])
    && (forall i | 0 <= i < |at| :: at[i] < |args| && Eligible(args[at[i]]) && args[at[i]].entity == es[i])
    && (forall i, j | 0 <= i < |at| && 0 <= j < at[i] && Eligible(args[j]) :: args[j].entity != es[i])
  }

  lemma MentionNext(args: seq<Arg>, es: seq<Entity>, at: seq<nat>, n: nat, e: Entity)
    requires FirstMentions(args, es, at) && (forall i | 0 <= i < |at| :: at[i] < n)
    requires n < |args| && Eligible(args[n]) && args[n].entity == e
    requires forall i | 0 <= i < n && Eligible(args[i]) :: args[i].entity in es
    requires e !in es
    ensures FirstMentions(args, es + [e], at + [n])
  {
  }

  /** A mention that counts: no `where` condition that is constantly false, and a procedure or a
      variable that holds one. */
  ghost predicate Mentions(arg: Arg, e: Entity) {
    && arg.entity == e && !(arg.cond.WhereConstant? && !arg.cond.value)
    && (e.kind == Procedure || (e.kind.Variable? && e.kind.holdsProc))
  }

  method Collect(args: seq<Arg>) returns (es: seq<Entity>)
    ensures Collected(args, es)
    ensures forall e :: e in es <==> exists i | 0 <= i < |args| :: Mentions(args[i], e)
  {
    es := [];
    var entitySet: set<Entity> := {};
    ghost var at: seq<nat> := [];
    for n := 0 to |args|
      invariant forall e :: e in entitySet <==> e in es
      invariant forall i, j | 0 <= i < j < |es| :: es[i] != es[j]
      invariant forall i | 0 <= i < n && Eligible(args[i]) :: args[i].entity in es
      invariant FirstMentions(args, es, at) && forall i | 0 <= i < |at| :: at[i] < n
    {
      var arg := args[n];
      if arg.cond == WhereConstant(false) {
        continue;
      }
      if arg.entity == null {
        continue;
      }
      var e: Entity := arg.entity;
      if e.kind.Variable? {
        if !e.kind.holdsProc {
          continue;
        }
      } else if e.kind != Procedure {
        continue;
      }
      if e in entitySet {
        continue;
      }
      MentionNext(args, es, at, n, e);
      entitySet := entitySet + {e};
      es := es + [e];
      at := at + [n];
    }
    assert FirstMentions(args, es, at);
    forall e ensures e in es <==> exists i | 0 <= i < |args| :: Mentions(args[i], e) {
      if e in es {
        var k :| 0 <= k < |es| && es[k] == e;
        assert Mentions(args[at[k]], e);
      }
    }
  }

  // ----- the greedy selection -----

  /** What the conflict loops look at in a member. */
  datatype Member = Member(typ: ProcType, disabled: bool, hasWhere: bool)

  predicate Candidate(m: Member) { m.typ.Proc? && !m.disabled }

  predicate Exempt(m: Member) { m.hasWhere && m.typ.Proc? && (m.typ.sig.polymorphic || m.typ.sig.specialized) }

  predicate Conflict(p: Member, q: Member) {
    && !(Exempt(p) && Exempt(q))
    && OverloadSafety(p.typ, q.typ) in {Identical, ParamVariadic, ResultCount, ResultTypes}
  }

  /** Both have a `where` clause and are polymorphic or specialized. */
  predicate BothGuarded(p: Member, q: Member) {
    && p.typ.Proc? && q.typ.Proc? && p.hasWhere && q.hasWhere
    && (p.typ.sig.polymorphic || p.typ.sig.specialized) && (q.typ.sig.polymorphic || q.typ.sig.specialized)
  }

  /** With the same parameter types: they differ in being variadic, or agree in that and in being
      polymorphic and then differ in results or need features that are matched equally. */
  predicate Clash(x: Signature, y: Signature) {
    && x.params == y.params
    && (x.variadic != y.variadic ||
        (x.polymorphic == y.polymorphic && (x.results != y.results || x.matchedFeatures == y.matchedFeatures)))
  }

  /** With the same parameter types, the ways in which two signatures may differ. */
  predicate MayCoexist(x: Signature, y: Signature) {
    && x.variadic == y.variadic
    && (x.polymorphic != y.polymorphic || (x.results == y.results && x.matchedFeatures != y.matchedFeatures))
  }

  /** Which procedures collide, on their signatures, and that it does not matter which comes first. */
  lemma ConflictIsClash(p: Member, q: Member)
    requires p.typ.Proc? && q.typ.Proc?
    ensures Conflict(p, q) <==> !BothGuarded(p, q) && Clash(p.typ.sig, q.typ.sig)
    ensures Conflict(p, q) <==> !BothGuarded(p, q) && p.typ.sig.params == q.typ.sig.params && !MayCoexist(p.typ.sig, q.typ.sig)
    ensures Conflict(p, q) <==> Conflict(q, p)
  {
    assert OverloadSafety(p.typ, q.typ) in {Identical, ParamVariadic, ResultCount, ResultTypes} <==> Clash(p.typ.sig, q.typ.sig);
  }

  /** Member i survives: it is valid and enabled, and collides with no earlier survivor. */
  predicate Kept(ms: seq<Member>, i: nat)
    requires i < |ms|
  {
    Candidate(ms[i]) && forall h | 0 <= h < i :: Kept(ms, h) ==> !Conflict(ms[h], ms[i])
  }

  /** The type of member k once the members before j have been compared with all later ones. */
  ghost function TypeAfter(ms: seq<Member>, j: nat, k: nat): ProcType
    requires j <= |ms| && k < |ms|
  {
    if Candidate(ms[k]) && exists h | 0 <= h < j && h < k :: Kept(ms, h) && Conflict(ms[h], ms[k])
    then InvalidType else ms[k].typ
  }

  /** Comparing member j with the later ones changes the types of those that collide with it,
      provided it survived. */
  lemma NextRow(ms: seq<Member>, j: nat, k: nat)
    requires j < |ms| && k < |ms|
    ensures TypeAfter(ms, j + 1, k) ==
            if j < k && Candidate(ms[k]) && Kept(ms, j) && Conflict(ms[j], ms[k]) then InvalidType else TypeAfter(ms, j, k)
  {
    var after, before := TypeAfter(ms, j + 1, k), TypeAfter(ms, j, k);
    if Candidate(ms[k]) && exists h | 0 <= h < j && h < k :: Kept(ms, h) && Conflict(ms[h], ms[k]) {
      assert before == after == InvalidType;
    }
  }

  /** When the loop reaches member j, its type tells whether it survived. */
  lemma SurvivalAtOwnRow(ms: seq<Member>, j: nat)
    requires j < |ms| && Candidate(ms[j])
    ensures Kept(ms, j) <==> TypeAfter(ms, j, j) != InvalidType
    ensures TypeAfter(ms, |ms|, j) == TypeAfter(ms, j, j)
  {
  }

  /** A selection is stable when its members are candidates without mutual collisions and every
      candidate left out collides with an earlier member. */
  ghost predicate Stable(ms: seq<Member>, s: set<nat>) {
    && (forall i | i in s :: i < |ms| && Candidate(ms[i]))
    && (forall i, j | i in s && j in s && i < j :: !Conflict(ms[i], ms[j]))
    && (forall j: nat | j < |ms| && Candidate(ms[j]) && j !in s :: exists i | i in s :: i < j && Conflict(ms[i], ms[j]))
  }

  /** There is one stable selection, and it is the set of survivors. */
  lemma SurvivorsAreTheStableSelection(ms: seq<Member>, s: set<nat>)
    ensures Stable(ms, s) <==> s == set i: nat | i < |ms| && Kept(ms, i)
  {
    var survivors := set i: nat | i < |ms| && Kept(ms, i);
    assert Stable(ms, survivors) by {
      forall j: nat | j < |ms| && Candidate(ms[j]) && j !in survivors
        ensures exists i | i in survivors :: i < j && Conflict(ms[i], ms[j])
      {
        var h :| 0 <= h < j && Kept(ms, h) && Conflict(ms[h], ms[j]);
        assert h in survivors;
      }
    }
    if Stable(ms, s) {
      forall i: nat | i < |ms| ensures i in s <==> i in survivors {
        StableMeansKept(ms, s, i);
      }
    }
  }

  lemma {:induction false} StableMeansKept(ms: seq<Member>, s: set<nat>, i: nat)
    requires Stable(ms, s) && i < |ms|
    ensures i in s <==> Kept(ms, i)
  {
    forall h: nat | h < i { StableMeansKept(ms, s, h); }
    if Candidate(ms[i]) && i !in s {
      var h :| h in s && h < i && Conflict(ms[h], ms[i]);
      assert Kept(ms, h);
    }
  }

  // ----- the conflict loops -----

  ghost function MemberOf(e: Entity): Member
    reads e
  {
    Member(e.typ, e.disabled, e.hasWhere)
  }

  ghost function MembersOf(es: seq<Entity>): (ms: seq<Member>)
    reads es
    ensures |ms| == |es| && forall i | 0 <= i < |es| :: ms[i] == MemberOf(es[i])
  {
    if es == [] then [] else [MemberOf(es[0])] + MembersOf(es[1..])
  }

  method Collides(p: Entity, q: Entity) returns (isInvalid: bool)
    ensures isInvalid == Conflict(MemberOf(p), MemberOf(q))
  {
    var kind := OverloadSafety(p.typ, q.typ);
    var bothHaveWhere := false;
    if p.hasWhere && q.hasWhere {
      var pw := p.typ.Proc? && (p.typ.sig.polymorphic || p.typ.sig.specialized);
      var qw := q.typ.Proc? && (q.typ.sig.polymorphic || q.typ.sig.specialized);
      bothHaveWhere := pw && qw;
    }
    isInvalid := false;
    if !bothHaveWhere {
      match kind {
        case Identical => isInvalid := true;
        case ParamVariadic => isInvalid := true;
        case ResultCount => isInvalid := true;
        case ResultTypes => isInvalid := true;
        case _ =>
      }
    }
  }

  method Resolve(es: seq<Entity>, ghost ms: seq<Member>)
    requires forall i, j | 0 <= i < j < |es| :: es[i] != es[j]
    requires |ms| == |es| && forall i | 0 <= i < |es| :: ms[i] == MemberOf(es[i])
    modifies es
    ensures forall k | 0 <= k < |es| ::
      es[k].typ == if Candidate(ms[k]) && !Kept(ms, k) then InvalidType else ms[k].typ
  {
    for j := 0 to |es|
      invariant forall k | 0 <= k < |es| :: es[k].typ == TypeAfter(ms, j, k)
    {
      if Candidate(ms[j]) {
        SurvivalAtOwnRow(ms, j);
      }
      forall k: nat | k < |es| { NextRow(ms, j, k); }
      ResolveRow(es, j, ms);
    }
    forall k: nat | k < |es| && Candidate(ms[k]) { SurvivalAtOwnRow(ms, k); }
  }

  /** One turn of the outer loop: member j against all later ones. */
  method ResolveRow(es: seq<Entity>, j: nat, ghost ms: seq<Member>)
    requires j < |es| == |ms|
    requires forall i, k | 0 <= i < k < |es| :: es[i] != es[k]
    requires forall k | 0 <= k < |es| :: es[k].disabled == ms[k].disabled && es[k].hasWhere == ms[k].hasWhere
    requires forall k | 0 <= k < |es| :: es[k].typ == ms[k].typ || (Candidate(ms[k]) && es[k].typ == InvalidType)
    modifies es
    ensures forall k | 0 <= k < |es| ::
      es[k].typ ==
      if j < k && Candidate(ms[k]) && Candidate(ms[j]) && old(es[j].typ) != InvalidType && Conflict(ms[j], ms[k])
      then InvalidType else old(es[k].typ)
  {
    var p := es[j];
    if p.typ == InvalidType {
      return;
    }
    if p.disabled {
      return;
    }
    for k := j + 1 to |es|
      invariant forall i | 0 <= i < |es| ::
        es[i].typ ==
        if j < i < k && Candidate(ms[i]) && Candidate(ms[j]) && Conflict(ms[j], ms[i])
        then InvalidType else old(es[i].typ)
    {
      var q := es[k];
      if q.typ == NullType || q.typ == InvalidType {
        continue;
      }
      if q.disabled {
        continue;
      }
      var isInvalid := Collides(p, q);
      assert MemberOf(p) == ms[j] && MemberOf(q) == ms[k];
      if isInvalid {
        q.typ := InvalidType;
      }
    }
  }

  /** Checking a group: the members are the distinct eligible entities in order; afterwards no two
      valid enabled members collide, and each newly invalid one collides with an earlier member
      that stayed valid. */
  method CheckProcGroup(args: seq<Arg>) returns (es: seq<Entity>, ghost ms: seq<Member>)
    modifies set arg | arg in args && arg.entity != null :: arg.entity
    ensures Collected(args, es)
    ensures |ms| == |es| && forall k | 0 <= k < |es| :: ms[k] == old(MemberOf(es[k]))
    ensures forall k | 0 <= k < |es| ::
      es[k].typ == if Candidate(ms[k]) && !Kept(ms, k) then InvalidType else ms[k].typ
    ensures forall i, j | 0 <= i < j < |es| && Candidate(MemberOf(es[i])) && Candidate(MemberOf(es[j])) ::
      !Conflict(MemberOf(es[i]), MemberOf(es[j]))
    ensures forall e :: e in es <==> exists i | 0 <= i < |args| :: Mentions(args[i], e)
    ensures forall k | 0 <= k < |es| && es[k].typ != old(es[k].typ) :: Displaced(es, ms, k)
    ensures forall i, j | 0 <= i < j < |es| :: Coexist(es[i], es[j])
  {
    es := Collect(args);
    ms := MembersOf(es);
    CollectedMentioned(args, es);
    Resolve(es, ms);
    NoCollisionsLeft(es, ms);
    forall k | 0 <= k < |es| && es[k].typ != ms[k].typ ensures Displaced(es, ms, k) {
      DisplacedBySurvivor(es, ms, k);
    }
    forall i, j | 0 <= i < j < |es| ensures Coexist(es[i], es[j]) {
      if Candidate(MemberOf(es[i])) && Candidate(MemberOf(es[j])) {
        ConflictIsClash(MemberOf(es[i]), MemberOf(es[j]));
      }
    }
  }

  /** Member k was a valid procedure and is invalid now, and an earlier member, which is still valid
      and not disabled, has a signature that clashes with the one k had. */
  ghost predicate Displaced(es: seq<Entity>, ms: seq<Member>, k: nat)
    requires k < |es| == |ms|
    reads es
  {
    && ms[k].typ.Proc? && !es[k].disabled && es[k].typ == InvalidType
    && exists h | 0 <= h < k ::
         && es[h].typ.Proc? && !es[h].disabled && !BothGuarded(MemberOf(es[h]), ms[k])
         && Clash(es[h].typ.sig, ms[k].typ.sig)
  }

  /** Two valid members that are not disabled have different parameter types, or signatures that
      may coexist, or are both guarded. */
  ghost predicate Coexist(p: Entity, q: Entity)
    reads p, q
  {
    p.typ.Proc? && q.typ.Proc? && !p.disabled && !q.disabled && p.typ.sig.params == q.typ.sig.params ==>
      BothGuarded(MemberOf(p), MemberOf(q)) || MayCoexist(p.typ.sig, q.typ.sig)
  }

  lemma DisplacedBySurvivor(es: seq<Entity>, ms: seq<Member>, k: nat)
    requires |ms| == |es| && forall i | 0 <= i < |es| :: es[i].disabled == ms[i].disabled && es[i].hasWhere == ms[i].hasWhere
    requires forall i | 0 <= i < |es| :: es[i].typ == if Candidate(ms[i]) && !Kept(ms, i) then InvalidType else ms[i].typ
    requires k < |es| && es[k].typ != ms[k].typ
    ensures Displaced(es, ms, k)
  {
    var h :| 0 <= h < k && Kept(ms, h) && Conflict(ms[h], ms[k]);
    ConflictIsClash(ms[h], ms[k]);
    assert MemberOf(es[h]) == ms[h];
  }

  lemma NoCollisionsLeft(es: seq<Entity>, ms: seq<Member>)
    requires |ms| == |es| && forall k | 0 <= k < |es| :: es[k].disabled == ms[k].disabled && es[k].hasWhere == ms[k].hasWhere
    requires forall k | 0 <= k < |es| :: es[k].typ == if Candidate(ms[k]) && !Kept(ms, k) then InvalidType else ms[k].typ
    ensures forall i, j | 0 <= i < j < |es| && Candidate(MemberOf(es[i])) && Candidate(MemberOf(es[j])) ::
      !Conflict(MemberOf(es[i]), MemberOf(es[j]))
  {
    forall k | 0 <= k < |es| && Candidate(MemberOf(es[k])) ensures Kept(ms, k) && MemberOf(es[k]) == ms[k] {
    }
  }

  /** Everything collected was mentioned. */
  lemma CollectedMentioned(args: seq<Arg>, es: seq<Entity>)
    requires Collected(args, es)
    ensures forall e | e in es :: exists arg | arg in args :: arg.entity == e
  {
    var at :| FirstMentions(args, es, at);
    forall i | 0 <= i < |es| ensures args[at[i]].entity == es[i] && args[at[i]] in args { }
  }
}
