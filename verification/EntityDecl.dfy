/** Resolving declarations on demand: the three-state depth-first search of the checker and
    its reports of declaration cycles. */
module EntityDecl {

  type Entity = nat

  datatype EntityState = Unresolved | InProgress | Resolved

  /** A use of an entity. A guarded one, such as by a plain identifier, asks for the declaration
      only while the entity is unresolved; an outright one, such as of a procedure group or through
      an import, always asks. */
  datatype Demand = Demand(entity: Entity, guarded: bool)

  /** `demands` lists, for an entity that has a declaration, the uses met while its declaration is
      being checked, in order. */
  datatype Program = Program(entities: set<Entity>, demands: map<Entity, seq<Demand>>) {
    predicate WellFormed() {
      && demands.Keys <= entities
      && forall e, d | e in demands && d in demands[e] :: d.entity in entities
    }
  }

  /** What the checker has recorded. `typed` holds the entities whose type is set, `errors` the
      entities reported as illegal cycles, `order` the entities in the order they were resolved. */
  datatype Record = Record(state: map<Entity, EntityState>, typed: set<Entity>, errors: seq<Entity>, order: seq<Entity>)

  ghost function With(r: Record, st: EntityState): set<Entity> {
    set e | e in r.state && r.state[e] == st
  }

  ghost function Fresh(p: Program): Record {
    Record(map e | e in p.entities :: Unresolved, {}, [], [])
  }

  ghost predicate Covers(p: Program, r: Record) { p.WellFormed() && r.state.Keys == p.entities }

  /** The entities in progress are exactly the calls on the stack. */
  ghost predicate OnStack(r: Record, stack: seq<Entity>) {
    forall e | e in r.state :: r.state[e] == InProgress <==> e in stack
  }

  /** One call of the search; `stack` is the path of active calls that led to it. */
  ghost function Visit(p: Program, r: Record, e: Entity, stack: seq<Entity>): (r': Record)
    requires Covers(p, r) && e in p.entities && OnStack(r, stack)
    ensures Covers(p, r') && OnStack(r', stack)
    ensures With(r', Unresolved) <= With(r, Unresolved) && r.errors <= r'.errors
    decreases With(r, Unresolved), 0
  {
    if r.state[e] == Resolved then r
    else if e in r.typed || r.state[e] != Unresolved then r.(errors := r.errors + [e])
    else if e !in p.demands then Finish(r, e)
    else
      var entered := r.(state := r.state[e := InProgress]);
      assert e in With(r, Unresolved) && e !in With(entered, Unresolved);
      Finish(VisitAll(p, entered, p.demands[e], stack + [e]), e)
  }

  ghost function Finish(r: Record, e: Entity): Record {
    r.(state := r.state[e := Resolved], typed := r.typed + {e}, order := r.order + [e])
  }

  ghost function Ask(p: Program, r: Record, d: Demand, stack: seq<Entity>): (r': Record)
    requires Covers(p, r) && d.entity in p.entities && OnStack(r, stack)
    ensures Covers(p, r') && OnStack(r', stack)
    ensures With(r', Unresolved) <= With(r, Unresolved) && r.errors <= r'.errors
    decreases With(r, Unresolved), 1
  {
    if d.guarded && r.state[d.entity] != Unresolved then r else Visit(p, r, d.entity, stack)
  }

  ghost function VisitAll(p: Program, r: Record, ds: seq<Demand>, stack: seq<Entity>): (r': Record)
    requires Covers(p, r) && (forall d | d in ds :: d.entity in p.entities) && OnStack(r, stack)
    ensures Covers(p, r') && OnStack(r', stack)
    ensures With(r', Unresolved) <= With(r, Unresolved) && r.errors <= r'.errors
    decreases With(r, Unresolved), 2 + |ds|
  {
    if ds == [] then r else VisitAll(p, Ask(p, r, ds[0], stack), ds[1..], stack)
  }

  // ----- everything asked for ends resolved -----

  /** Only visited entities have a type, and whatever a resolved entity asked for was visited. */
  ghost predicate Settled(p: Program, r: Record)
    requires Covers(p, r)
  {
    && (forall e | e in r.typed :: e in r.state && r.state[e] != Unresolved)
    && (forall e, d | e in p.demands && r.state[e] == Resolved && d in p.demands[e] :: r.state[d.entity] != Unresolved)
  }

  /** States only move forward. */
  ghost predicate Forward(r: Record, r': Record) {
    && r'.state.Keys == r.state.Keys
    && forall e | e in r.state :: (r.state[e] == Resolved ==> r'.state[e] == Resolved)
                               && (r.state[e] != Unresolved ==> r'.state[e] != Unresolved)
  }

  lemma {:induction false} VisitSettles(p: Program, r: Record, e: Entity, stack: seq<Entity>)
    requires Covers(p, r) && e in p.entities && OnStack(r, stack) && Settled(p, r)
    ensures var r' := Visit(p, r, e, stack); Settled(p, r') && Forward(r, r') && r'.state[e] != Unresolved
    decreases With(r, Unresolved), 0
  {
    if r.state[e] == Unresolved && e !in r.typed && e in p.demands {
      var entered := r.(state := r.state[e := InProgress]);
      assert e in With(r, Unresolved) && e !in With(entered, Unresolved);
      VisitAllSettles(p, entered, p.demands[e], stack + [e]);
    }
  }

  lemma {:induction false} VisitAllSettles(p: Program, r: Record, ds: seq<Demand>, stack: seq<Entity>)
    requires Covers(p, r) && (forall d | d in ds :: d.entity in p.entities) && OnStack(r, stack) && Settled(p, r)
    ensures var r' := VisitAll(p, r, ds, stack);
      Settled(p, r') && Forward(r, r') && forall d | d in ds :: r'.state[d.entity] != Unresolved
    decreases With(r, Unresolved), 2 + |ds|
  {
    if ds != [] {
      VisitSettles(p, r, ds[0].entity, stack);
      VisitAllSettles(p, Ask(p, r, ds[0], stack), ds[1..], stack);
    }
  }

  predicate AsksOutright(p: Program, x: Entity, y: Entity) {
    x in p.demands && Demand(y, false) in p.demands[x]
  }

  predicate Asks(p: Program, x: Entity, y: Entity) {
    AsksOutright(p, x, y) || (x in p.demands && Demand(y, true) in p.demands[x])
  }

  /** A walk along demands. */
  ghost predicate Walk(p: Program, w: seq<Entity>) {
    w != [] && forall i | 0 <= i < |w| - 1 :: Asks(p, w[i], w[i + 1])
  }

  ghost predicate StartsAt(ds: seq<Demand>, w: seq<Entity>) {
    w != [] && exists d | d in ds :: d.entity == w[0]
  }

  /** From a fresh record, every entity reachable from a root ends resolved. */
  lemma ReachableResolved(p: Program, roots: seq<Demand>, w: seq<Entity>)
    requires p.WellFormed() && (forall d | d in roots :: d.entity in p.entities)
    requires Walk(p, w) && StartsAt(roots, w)
    ensures var r := VisitAll(p, Fresh(p), roots, []);
      forall i | 0 <= i < |w| :: w[i] in r.state && r.state[w[i]] == Resolved
  {
    VisitAllSettles(p, Fresh(p), roots, []);
    WalkResolved(p, VisitAll(p, Fresh(p), roots, []), w);
  }

  lemma {:induction false} WalkResolved(p: Program, r: Record, w: seq<Entity>)
    requires Covers(p, r) && Settled(p, r) && OnStack(r, [])
    requires Walk(p, w) && w[0] in r.state && r.state[w[0]] != Unresolved
    ensures forall i | 0 <= i < |w| :: w[i] in r.state && r.state[w[i]] == Resolved
  {
    if |w| > 1 {
      assert Asks(p, w[0], w[0 + 1]);
      WalkResolved(p, r, w[1..]);
      assert forall i | 1 <= i < |w| :: w[i] == w[1..][i - 1];
    }
  }

  // ----- reports are cycles -----

  /** A walk from a root that comes back to an entity it has passed, by an outright demand. */
  ghost predicate ClosedWalk(p: Program, w: seq<Entity>, root: Entity) {
    && Walk(p, w) && w[0] == root && |w| > 1 && AsksOutright(p, w[|w| - 2], w[|w| - 1])
    && exists i | 0 <= i < |w| - 1 :: w[i] == w[|w| - 1]
  }

  ghost predicate ReachesClosedWalk(p: Program, root: Entity) {
    exists w :: ClosedWalk(p, w, root)
  }

  /** Whoever asks again for an entity in progress asks outright. */
  ghost predicate Entered(p: Program, r: Record, e: Entity, stack: seq<Entity>) {
    && Walk(p, stack + [e]) && e in r.state
    && (r.state[e] == InProgress ==> stack != [] && AsksOutright(p, stack[|stack| - 1], e))
  }

  /** Every report comes from an entity that is its own ancestor on the stack and was asked for
      outright. */
  lemma {:induction false} ErrorIsCycle(p: Program, r: Record, e: Entity, stack: seq<Entity>)
    requires Covers(p, r) && e in p.entities && OnStack(r, stack) && Settled(p, r) && Entered(p, r, e, stack)
    requires Visit(p, r, e, stack).errors != r.errors
    ensures ReachesClosedWalk(p, (stack + [e])[0])
    decreases With(r, Unresolved), 0
  {
    var w := stack + [e];
    if r.state[e] == InProgress {
      var i :| 0 <= i < |stack| && stack[i] == e;
      assert w[i] == w[|w| - 1];
      assert ClosedWalk(p, w, w[0]);
    } else {
      var entered := r.(state := r.state[e := InProgress]);
      assert e in With(r, Unresolved) && e !in With(entered, Unresolved);
      forall d | d in p.demands[e] ensures Walk(p, w + [d.entity]) && AskedBy(p, d, w) {
        assert Asks(p, e, d.entity);
      }
      ErrorInAllIsCycle(p, entered, p.demands[e], w);
    }
  }

  ghost predicate AskedBy(p: Program, d: Demand, stack: seq<Entity>) {
    d.guarded || (stack != [] && AsksOutright(p, stack[|stack| - 1], d.entity))
  }

  lemma {:induction false} ErrorInAllIsCycle(p: Program, r: Record, ds: seq<Demand>, stack: seq<Entity>)
    requires Covers(p, r) && (forall d | d in ds :: d.entity in p.entities) && OnStack(r, stack) && Settled(p, r)
    requires forall d | d in ds :: Walk(p, stack + [d.entity]) && (stack == [] || AskedBy(p, d, stack))
    requires VisitAll(p, r, ds, stack).errors != r.errors
    ensures exists d | d in ds :: ReachesClosedWalk(p, (stack + [d.entity])[0])
    decreases With(r, Unresolved), 2 + |ds|
  {
    var next := Ask(p, r, ds[0], stack);
    if next.errors != r.errors {
      ErrorIsCycle(p, r, ds[0].entity, stack);
    } else {
      VisitSettles(p, r, ds[0].entity, stack);
      ErrorInAllIsCycle(p, next, ds[1..], stack);
    }
  }

  /** A walk from x back to x that ends with an outright demand. */
  ghost predicate OnCycle(p: Program, x: Entity) {
    exists w :: Walk(p, w) && |w| > 1 && w[0] == x == w[|w| - 1] && AsksOutright(p, w[|w| - 2], x)
  }

  ghost predicate AllOnCycles(p: Program, errors: seq<Entity>, from: nat) {
    forall k | from <= k < |errors| :: OnCycle(p, errors[k])
  }

  lemma OwnAncestor(p: Program, stack: seq<Entity>, e: Entity)
    requires Walk(p, stack + [e]) && e in stack && AsksOutright(p, stack[|stack| - 1], e)
    ensures OnCycle(p, e)
  {
    var w := stack + [e];
    var i :| 0 <= i < |stack| && stack[i] == e;
    var cycle := w[i..];
    forall k | 0 <= k < |cycle| - 1 ensures Asks(p, cycle[k], cycle[k + 1]) {
      assert Asks(p, w[i + k], w[i + k + 1]);
    }
    assert Walk(p, cycle) && cycle[|cycle| - 1] == e && cycle[|cycle| - 2] == stack[|stack| - 1];
  }

  /** Every entity that a call reports lies on a cycle itself. */
  lemma {:induction false} ReportedIsOnCycle(p: Program, r: Record, e: Entity, stack: seq<Entity>)
    requires Covers(p, r) && e in p.entities && OnStack(r, stack) && Settled(p, r) && Entered(p, r, e, stack)
    ensures AllOnCycles(p, Visit(p, r, e, stack).errors, |r.errors|)
    decreases With(r, Unresolved), 0
  {
    if r.state[e] == InProgress {
      OwnAncestor(p, stack, e);
    } else if r.state[e] == Unresolved && e in p.demands {
      var w := stack + [e];
      var entered := r.(state := r.state[e := InProgress]);
      assert e in With(r, Unresolved) && e !in With(entered, Unresolved);
      forall d | d in p.demands[e] ensures Walk(p, w + [d.entity]) && AskedBy(p, d, w) {
        assert Asks(p, e, d.entity);
      }
      AllReportedAreOnCycles(p, entered, p.demands[e], w);
    }
  }

  lemma {:induction false} AllReportedAreOnCycles(p: Program, r: Record, ds: seq<Demand>, stack: seq<Entity>)
    requires Covers(p, r) && (forall d | d in ds :: d.entity in p.entities) && OnStack(r, stack) && Settled(p, r)
    requires forall d | d in ds :: Walk(p, stack + [d.entity]) && (stack == [] || AskedBy(p, d, stack))
    ensures AllOnCycles(p, VisitAll(p, r, ds, stack).errors, |r.errors|)
    decreases With(r, Unresolved), 2 + |ds|
  {
    if ds != [] {
      var next := Ask(p, r, ds[0], stack);
      if next != r { ReportedIsOnCycle(p, r, ds[0].entity, stack); }
      VisitSettles(p, r, ds[0].entity, stack);
      AllReportedAreOnCycles(p, next, ds[1..], stack);
      OnCyclesFurther(p, r.errors, next.errors, VisitAll(p, next, ds[1..], stack).errors);
    }
  }

  lemma OnCyclesFurther(p: Program, a: seq<Entity>, b: seq<Entity>, c: seq<Entity>)
    requires a <= b <= c && AllOnCycles(p, b, |a|) && AllOnCycles(p, c, |b|)
    ensures AllOnCycles(p, c, |a|)
  {
    forall k | |a| <= k < |b| ensures OnCycle(p, c[k]) {
      assert c[k] == b[k];
    }
  }

  // ----- the order of resolution -----

  /** The order of resolution lists the resolved entities, once each. */
  ghost predicate Listed(r: Record) {
    && (forall e | e in r.state :: r.state[e] == Resolved <==> e in r.order)
    && (forall i, j | 0 <= i < j < |r.order| :: r.order[i] != r.order[j])
  }

  /** What the entity at position i asked for outright comes before it. */
  ghost predicate DependenciesFirst(p: Program, order: seq<Entity>, i: nat)
    requires i < |order|
  {
    order[i] in p.demands ==> forall d | d in p.demands[order[i]] && !d.guarded :: d.entity in order[..i]
  }

  ghost predicate Ordered(p: Program, order: seq<Entity>) {
    forall i: nat | i < |order| :: DependenciesFirst(p, order, i)
  }

  lemma OrderExtends(p: Program, order: seq<Entity>, e: Entity)
    ensures Ordered(p, order + [e]) <==>
            Ordered(p, order) && (e in p.demands ==> forall d | d in p.demands[e] && !d.guarded :: d.entity in order)
  {
    var longer := order + [e];
    assert longer[..|order|] == order;
    assert DependenciesFirst(p, longer, |order|) <==>
           (e in p.demands ==> forall d | d in p.demands[e] && !d.guarded :: d.entity in order);
    forall i: nat | i < |order| ensures DependenciesFirst(p, longer, i) <==> DependenciesFirst(p, order, i) {
      assert longer[..i] == order[..i];
    }
    if Ordered(p, longer) {
      forall i: nat | i < |order| ensures DependenciesFirst(p, order, i) {
        assert DependenciesFirst(p, longer, i);
      }
    }
  }

  /** Outright demands that are not yet listed when they should have been. */
  ghost predicate Awaited(r: Record, ds: seq<Demand>) {
    exists d | d in ds :: !d.guarded && d.entity !in r.order
  }

  lemma FinishOrders(p: Program, r: Record, e: Entity)
    requires Listed(r) && e in r.state && r.state[e] != Resolved
    ensures var r' := Finish(r, e);
      && Listed(r') && e in r'.order && r'.errors == r.errors
      && (Ordered(p, r'.order) <==> Ordered(p, r.order) && !(e in p.demands && Awaited(r, p.demands[e])))
  {
    OrderExtends(p, r.order, e);
  }

  /** A call lists what it resolves; it reports nothing exactly if everything it resolves comes
      after what it asked for outright, and itself ends resolved. */
  lemma {:induction false} VisitOrders(p: Program, r: Record, e: Entity, stack: seq<Entity>)
    requires Covers(p, r) && e in p.entities && OnStack(r, stack) && Settled(p, r) && Listed(r)
    ensures var r' := Visit(p, r, e, stack);
      Listed(r') && (r'.errors == r.errors && Ordered(p, r.order) <==> Ordered(p, r'.order) && e in r'.order)
    decreases With(r, Unresolved), 0
  {
    if r.state[e] == Unresolved {
      if e in p.demands {
        var entered := r.(state := r.state[e := InProgress]);
        assert e in With(r, Unresolved) && e !in With(entered, Unresolved);
        VisitAllOrders(p, entered, p.demands[e], stack + [e]);
        FinishOrders(p, VisitAll(p, entered, p.demands[e], stack + [e]), e);
      } else {
        FinishOrders(p, r, e);
      }
    }
  }

  lemma {:induction false} VisitAllOrders(p: Program, r: Record, ds: seq<Demand>, stack: seq<Entity>)
    requires Covers(p, r) && (forall d | d in ds :: d.entity in p.entities) && OnStack(r, stack) && Settled(p, r) && Listed(r)
    ensures var r' := VisitAll(p, r, ds, stack);
      && Listed(r') && Forward(r, r')
      && (r'.errors == r.errors && Ordered(p, r.order) <==> Ordered(p, r'.order) && !Awaited(r', ds))
    decreases With(r, Unresolved), 2 + |ds|
  {
    if ds != [] {
      var next := Ask(p, r, ds[0], stack);
      VisitSettles(p, r, ds[0].entity, stack);
      VisitOrders(p, r, ds[0].entity, stack);
      VisitAllSettles(p, next, ds[1..], stack);
      VisitAllOrders(p, next, ds[1..], stack);
    }
  }

  // ----- the order is the postorder of the plain uses -----

  /** What each declaration uses, whether guarded or not. */
  type Uses = map<Entity, seq<Entity>>

  ghost function PlainUses(p: Program): Uses {
    map e | e in p.demands :: Targets(p.demands[e])
  }

  function Targets(ds: seq<Demand>): seq<Entity> { seq(|ds|, i requires 0 <= i < |ds| => ds[i].entity) }

  datatype Trail = Trail(entered: set<Entity>, left: seq<Entity>)

  /** Depth-first postorder: an entity is left after everything it uses has been entered. */
  ghost function Postorder(uses: Uses, all: set<Entity>, e: Entity, t: Trail): (t': Trail)
    requires Closed(uses, all) && e in all && t.entered <= all
    ensures t.entered <= t'.entered <= all
    decreases all - t.entered, 0
  {
    if e in t.entered then t
    else
      var inner := PostorderAll(uses, all, if e in uses then uses[e] else [], Trail(t.entered + {e}, t.left));
      Trail(inner.entered, inner.left + [e])
  }

  ghost function PostorderAll(uses: Uses, all: set<Entity>, es: seq<Entity>, t: Trail): (t': Trail)
    requires Closed(uses, all) && (forall e | e in es :: e in all) && t.entered <= all
    ensures t.entered <= t'.entered <= all
    decreases all - t.entered, 1 + |es|
  {
    if es == [] then t else PostorderAll(uses, all, es[1..], Postorder(uses, all, es[0], t))
  }

  ghost predicate Closed(uses: Uses, all: set<Entity>) {
    forall e, d | e in uses && d in uses[e] :: d in all
  }

  /** The entities that have been asked for, and the order of resolution. */
  ghost function TrailOf(r: Record): Trail {
    Trail((set e | e in r.state && r.state[e] != Unresolved), r.order)
  }

  lemma {:induction false} VisitIsPostorder(p: Program, r: Record, e: Entity, stack: seq<Entity>)
    requires Covers(p, r) && e in p.entities && OnStack(r, stack) && Settled(p, r)
    ensures TrailOf(Visit(p, r, e, stack)) == Postorder(PlainUses(p), p.entities, e, TrailOf(r))
    decreases With(r, Unresolved), 0
  {
    if r.state[e] == Unresolved {
      var entered := r.(state := r.state[e := InProgress]);
      assert e in With(r, Unresolved) && e !in With(entered, Unresolved);
      assert TrailOf(entered) == Trail(TrailOf(r).entered + {e}, r.order);
      if e in p.demands {
        VisitAllIsPostorder(p, entered, p.demands[e], stack + [e]);
        FinishTrail(VisitAll(p, entered, p.demands[e], stack + [e]), e);
      } else {
        FinishTrail(entered, e);
      }
    }
  }

  lemma FinishTrail(r: Record, e: Entity)
    requires e in r.state && r.state[e] != Unresolved
    ensures TrailOf(Finish(r, e)) == Trail(TrailOf(r).entered, r.order + [e])
  {
  }

  lemma {:induction false} VisitAllIsPostorder(p: Program, r: Record, ds: seq<Demand>, stack: seq<Entity>)
    requires Covers(p, r) && (forall d | d in ds :: d.entity in p.entities) && OnStack(r, stack) && Settled(p, r)
    ensures TrailOf(VisitAll(p, r, ds, stack)) == PostorderAll(PlainUses(p), p.entities, Targets(ds), TrailOf(r))
    decreases With(r, Unresolved), 2 + |ds|
  {
    if ds != [] {
      assert Targets(ds)[0] == ds[0].entity && Targets(ds)[1..] == Targets(ds[1..]);
      VisitSettles(p, r, ds[0].entity, stack);
      VisitIsPostorder(p, r, ds[0].entity, stack);
      VisitAllIsPostorder(p, Ask(p, r, ds[0], stack), ds[1..], stack);
    }
  }

  /** From a fresh record entities are resolved in postorder of the plain uses, whatever is guarded,
      and a report is made exactly when in this order some entity comes before one that it asks
      for outright. */
  lemma ReportsExactlyOnDisorder(p: Program, roots: seq<Demand>)
    requires p.WellFormed() && (forall d | d in roots :: d.entity in p.entities)
    ensures var r := VisitAll(p, Fresh(p), roots, []);
      && Listed(r) && r.order == PostorderAll(PlainUses(p), p.entities, Targets(roots), Trail({}, [])).left
      && (r.errors == [] <==> Ordered(p, r.order))
  {
    VisitAllOrders(p, Fresh(p), roots, []);
    VisitAllSettles(p, Fresh(p), roots, []);
    VisitAllIsPostorder(p, Fresh(p), roots, []);
    assert TrailOf(Fresh(p)) == Trail({}, []);
  }

  // ----- cycles are reports -----

  /** A walk from a root that goes on, from position k, by outright demands and comes back there. */
  ghost predicate OutrightCycle(p: Program, w: seq<Entity>, k: nat) {
    && Walk(p, w) && k < |w| - 1 && w[k] == w[|w| - 1]
    && forall i | k <= i < |w| - 1 :: AsksOutright(p, w[i], w[i + 1])
  }

  ghost predicate ReachesOutrightCycle(p: Program, root: Entity) {
    exists w, k: nat :: OutrightCycle(p, w, k) && w[0] == root
  }

  /** Along outright demands, positions in an orderly resolution go down. */
  lemma {:induction false} WalkDescends(p: Program, order: seq<Entity>, w: seq<Entity>, k: nat, i: nat, at: nat)
    returns (last: nat)
    requires Ordered(p, order) && OutrightCycle(p, w, k)
    requires k <= i < |w| - 1 && at < |order| && w[i] == order[at]
    ensures last < at && order[last] == w[|w| - 1]
    decreases |w| - i
  {
    assert AsksOutright(p, w[i], w[i + 1]) && DependenciesFirst(p, order, at);
    var next :| 0 <= next < at && order[next] == w[i + 1];
    last := next;
    if i + 1 < |w| - 1 {
      last := WalkDescends(p, order, w, k, i + 1, next);
    }
  }

  lemma OutrightCycleIsReported(p: Program, roots: seq<Demand>, w: seq<Entity>, k: nat)
    requires p.WellFormed() && (forall d | d in roots :: d.entity in p.entities)
    requires OutrightCycle(p, w, k) && StartsAt(roots, w)
    ensures VisitAll(p, Fresh(p), roots, []).errors != []
  {
    var r := VisitAll(p, Fresh(p), roots, []);
    ReportsExactlyOnDisorder(p, roots);
    ReachableResolved(p, roots, w);
    if Ordered(p, r.order) {
      var at :| 0 <= at < |r.order| && r.order[at] == w[k];
      var last := WalkDescends(p, r.order, w, k, k, at);
    }
  }

  ghost predicate AllOutright(p: Program) {
    forall e, d | e in p.demands && d in p.demands[e] :: !d.guarded
  }

  /** Checking any entities from a fresh record reports an illegal cycle whenever one of them
      reaches a cycle of outright demands, and only when one reaches a cycle closed by an
      outright demand. Without guarded demands these are the same cycles. */
  lemma ErrorsExactlyOnCycles(p: Program, roots: seq<Demand>)
    requires p.WellFormed() && (forall d | d in roots :: d.entity in p.entities)
    ensures var reported := VisitAll(p, Fresh(p), roots, []).errors != [];
      && (reported ==> exists d | d in roots :: ReachesClosedWalk(p, d.entity))
      && ((exists d | d in roots :: ReachesOutrightCycle(p, d.entity)) ==> reported)
    ensures forall x | x in VisitAll(p, Fresh(p), roots, []).errors :: OnCycle(p, x)
    ensures AllOutright(p) ==> forall e :: ReachesClosedWalk(p, e) <==> ReachesOutrightCycle(p, e)
  {
    var r := VisitAll(p, Fresh(p), roots, []);
    AllReportedAreOnCycles(p, Fresh(p), roots, []);
    if r.errors != [] {
      ErrorInAllIsCycle(p, Fresh(p), roots, []);
    }
    forall d, w, k: nat | d in roots && OutrightCycle(p, w, k) && w[0] == d.entity ensures r.errors != [] {
      OutrightCycleIsReported(p, roots, w, k);
    }
    forall w, e | AllOutright(p) && ClosedWalk(p, w, e) ensures ReachesOutrightCycle(p, e) {
      var k :| 0 <= k < |w| - 1 && w[k] == w[|w| - 1];
      assert forall i | 0 <= i < |w| - 1 :: Asks(p, w[i], w[i + 1]);
      assert OutrightCycle(p, w, k);
    }
    forall w, k: nat | OutrightCycle(p, w, k) ensures ClosedWalk(p, w, w[0]) {
      assert AsksOutright(p, w[|w| - 2], w[|w| - 2 + 1]);
    }
  }

  lemma VisitSingle(p: Program, r: Record, e: Entity, d: Demand, stack: seq<Entity>)
    requires Covers(p, r) && e in p.entities && OnStack(r, stack)
    requires r.state[e] == Unresolved && e !in r.typed && e in p.demands && p.demands[e] == [d]
    ensures var entered := r.(state := r.state[e := InProgress]);
      OnStack(entered, stack + [e]) && Visit(p, r, e, stack).errors == Ask(p, entered, d, stack + [e]).errors
  {
    var entered := r.(state := r.state[e := InProgress]);
    var next := Ask(p, entered, d, stack + [e]);
    assert [d][1..] == [] && VisitAll(p, entered, [d], stack + [e]) == VisitAll(p, next, [], stack + [e]) == next;
  }

  /** Two entities that use only each other, a guarded and b outright. */
  ghost predicate MixedPair(p: Program, a: Entity, b: Entity) {
    && p.WellFormed() && a != b && a in p.demands && b in p.demands
    && p.demands[a] == [Demand(b, true)] && p.demands[b] == [Demand(a, false)]
  }

  /** On a mixed cycle the report depends on where the search enters it. */
  lemma MixedCycleDependsOnRoot(p: Program, a: Entity, b: Entity)
    requires MixedPair(p, a, b)
    ensures Visit(p, Fresh(p), a, []).errors == [a]
    ensures Visit(p, Fresh(p), b, []).errors == []
  {
    EnteredGuarded(p, a, b);
    EnteredOutright(p, a, b);
  }

  lemma EnteredGuarded(p: Program, a: Entity, b: Entity)
    requires MixedPair(p, a, b)
    ensures Visit(p, Fresh(p), a, []).errors == [a]
  {
    var r := Fresh(p);
    VisitSingle(p, r, a, Demand(b, true), []);
    VisitSingle(p, r.(state := r.state[a := InProgress]), b, Demand(a, false), [] + [a]);
  }

  lemma EnteredOutright(p: Program, a: Entity, b: Entity)
    requires MixedPair(p, a, b)
    ensures Visit(p, Fresh(p), b, []).errors == []
  {
    var r := Fresh(p);
    VisitSingle(p, r, b, Demand(a, false), []);
    VisitSingle(p, r.(state := r.state[b := InProgress]), a, Demand(b, true), [] + [b]);
  }

  // ----- the procedure -----

  class Checker {
    const program: Program
    var state: map<Entity, EntityState>
    var typed: set<Entity>
    var errors: seq<Entity>
    var order: seq<Entity>

    ghost function Recorded(): Record
      reads this
    {
      Record(state, typed, errors, order)
    }

    constructor (p: Program)
      requires p.WellFormed()
      ensures program == p && Recorded() == Fresh(p)
    {
      program := p;
      state := map e | e in p.entities :: Unresolved;
      typed, errors, order := {}, [], [];
    }

    method CheckEntityDecl(e: Entity, ghost stack: seq<Entity>)
      requires Covers(program, Recorded()) && e in program.entities && OnStack(Recorded(), stack)
      modifies this
      ensures Recorded() == Visit(program, old(Recorded()), e, stack)
      decreases With(Recorded(), Unresolved), 0
    {
      if state[e] == Resolved {
        return;
      }
      if e in typed || state[e] != Unresolved {
        errors := errors + [e];
      } else if e !in program.demands {
        typed := typed + {e};
        state := state[e := Resolved];
        order := order + [e];
      } else {
        ghost var before := Recorded();
        state := state[e := InProgress];
        assert e in With(before, Unresolved) && e !in With(Recorded(), Unresolved);
        CheckDemands(program.demands[e], stack + [e]);
        typed := typed + {e};
        state := state[e := Resolved];
        order := order + [e];
      }
    }

    /** The uses met while a declaration is being checked. */
    method CheckDemands(demands: seq<Demand>, ghost stack: seq<Entity>)
      requires Covers(program, Recorded()) && OnStack(Recorded(), stack)
      requires forall d | d in demands :: d.entity in program.entities
      modifies this
      ensures Recorded() == VisitAll(program, old(Recorded()), demands, stack)
      decreases With(Recorded(), Unresolved), 1
    {
      for i := 0 to |demands|
        invariant Covers(program, Recorded()) && OnStack(Recorded(), stack)
        invariant With(Recorded(), Unresolved) <= old(With(Recorded(), Unresolved))
        invariant VisitAll(program, Recorded(), demands[i..], stack) == VisitAll(program, old(Recorded()), demands, stack)
      {
        var d := demands[i];
        assert demands[i..][0] == d && demands[i..][1..] == demands[i + 1..];
        if !d.guarded || state[d.entity] == Unresolved {
          CheckEntityDecl(d.entity, stack);
        }
      }
    }
  }
}
