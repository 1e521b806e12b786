/** Many workers completing one struct-of-arrays type: a state machine over the steps of
    `complete_soa_type`, with one mutex, the type's wait signal and the element's wait signal. */
module SoaProtocol {
  import opened Sets
  import opened SoaTypes

  type Worker = nat

  /** Where a worker stands. `Filling(i)` has stored the fields below i. */
  datatype Pc = Idle | Locked | Waiting | Filling(i: nat) | Leaving | Done | Aborted {
    predicate InCritical() { !Idle? && !Done? }
  }

  /** What does not change: the type, and for each worker whether it waits for the element. */
  datatype Task = Task(kind: SoaKind, count: int, waits: map<Worker, bool>)

  /** `elem` is Available once the element's own signal is set. `stores` logs the indices written. */
  datatype Elem = Pending | Available(fields: seq<ElemField>)

  datatype State = State(
    mutex: set<Worker>,
    signal: bool,
    elem: Elem,
    fields: seq<SoaField>,
    total: nat,
    stores: seq<nat>,
    pcs: map<Worker, Pc>)

  ghost predicate Init(task: Task, s: State) {
    && s.mutex == {} && !s.signal && s.fields == [] && s.total == 0 && s.stores == []
    && s.pcs == map w | w in task.waits :: Idle
  }

  /** The element's fields are completed by someone else, once. */
  predicate ElemStep(s: State, s': State) {
    s.elem.Pending? && s'.elem.Available? && s' == s.(elem := s'.elem)
  }

  /** One atomic step of worker w. */
  predicate WorkerStep(task: Task, s: State, s': State, w: Worker)
    requires w in task.waits
  {
    w in s.pcs &&
    match s.pcs[w]
    case Idle =>
      s.mutex == {} && s' == s.(mutex := {w}, pcs := s.pcs[w := Locked])
    case Locked =>
      s' == s.(pcs := s.pcs[w := if s.signal then Leaving else Waiting])
    case Waiting =>
      if s.elem.Available? then
        s' == s.(pcs := s.pcs[w := Filling(0)], fields := [], total := |s.elem.fields| + ExtraCount(task.kind))
      else !task.waits[w] && s' == s.(pcs := s.pcs[w := Aborted])
    case Filling(i) =>
      if i < s.total then
        && s.elem.Available?
        && s' == s.(fields := s.fields + [WriteAt(s.elem.fields, task.kind, task.count, i)],
                    stores := s.stores + [i], pcs := s.pcs[w := Filling(i + 1)])
      else s' == s.(signal := true, pcs := s.pcs[w := Leaving])
    case Leaving =>
      s' == s.(mutex := s.mutex - {w}, pcs := s.pcs[w := Done])
    case Done => false
    case Aborted => false
  }

  ghost predicate Step(task: Task, s: State, s': State) {
    ElemStep(s, s') || exists w | w in task.waits :: WorkerStep(task, s, s', w)
  }

  // ----- the invariant -----

  /** The fields stored so far are the first ones of the finished type, written in order. */
  ghost predicate Prefix(task: Task, s: State, i: nat) {
    && s.elem.Available?
    && var all := SoaFields(s.elem.fields, task.kind, task.count);
       i <= |all| == s.total && s.fields == all[..i] && s.stores == seq(i, j => j)
  }

  ghost predicate Inv(task: Task, s: State) {
    && s.pcs.Keys == task.waits.Keys
    && |s.mutex| <= 1 && s.mutex <= s.pcs.Keys
    && (forall w | w in s.pcs :: s.pcs[w].InCritical() <==> w in s.mutex)
    && (s.signal ==> s.elem.Available? && Prefix(task, s, s.total))
    && (forall w | w in s.pcs :: s.pcs[w].Filling? ==> !s.signal && Prefix(task, s, s.pcs[w].i))
    && (forall w | w in s.pcs :: s.pcs[w].Waiting? || s.pcs[w].Aborted? ==> !s.signal)
    && (forall w | w in s.pcs :: s.pcs[w].Leaving? ==> s.signal)
    && (!s.signal && (forall w | w in s.pcs :: !s.pcs[w].Filling?) ==> s.stores == [])
  }

  lemma InitInv(task: Task, s: State)
    requires Init(task, s)
    ensures Inv(task, s)
  {
  }

  lemma OneHolder(s: set<Worker>, a: Worker, b: Worker)
    requires |s| <= 1 && a in s && b in s
    ensures a == b
  {
    if a != b {
      assert |s - {a}| >= 1 by { assert b in s - {a}; }
    }
  }

  /** Only the holder of the mutex is in the critical section, so a step of w leaves nobody else there. */
  lemma HolderAlone(task: Task, s: State, w: Worker)
    requires Inv(task, s) && w in s.pcs && s.pcs[w].InCritical()
    ensures forall v | v in s.pcs && v != w :: !s.pcs[v].InCritical()
    ensures s.mutex == {w}
  {
    forall v | v in s.mutex ensures v == w { OneHolder(s.mutex, v, w); }
  }

  lemma FillingStepInv(task: Task, s: State, s': State, w: Worker)
    requires Inv(task, s) && w in task.waits && s.pcs[w].Filling? && WorkerStep(task, s, s', w)
    ensures Inv(task, s')
  {
    HolderAlone(task, s, w);
    var i := s.pcs[w].i;
    if i < s.total {
      WritesAreFields(s.elem.fields, task.kind, task.count, i);
      assert Prefix(task, s', i + 1);
    } else {
      assert Prefix(task, s', s'.total);
    }
  }

  lemma OtherStepInv(task: Task, s: State, s': State, w: Worker)
    requires Inv(task, s) && w in task.waits && !s.pcs[w].Filling? && WorkerStep(task, s, s', w)
    ensures Inv(task, s')
  {
    if s.pcs[w].InCritical() {
      HolderAlone(task, s, w);
    }
  }

  lemma StepInv(task: Task, s: State, s': State)
    requires Inv(task, s) && Step(task, s, s')
    ensures Inv(task, s')
  {
    if ElemStep(s, s') {
      assert s'.pcs == s.pcs;
    } else {
      var w :| w in task.waits && WorkerStep(task, s, s', w);
      if s.pcs[w].Filling? {
        FillingStepInv(task, s, s', w);
      } else {
        OtherStepInv(task, s, s', w);
      }
    }
  }

  // ----- whole executions -----

  ghost predicate Execution(task: Task, trace: seq<State>) {
    && trace != [] && Init(task, trace[0])
    && forall i | 0 <= i < |trace| - 1 :: Step(task, trace[i], trace[i + 1])
  }

  lemma {:induction false} ExecutionInv(task: Task, trace: seq<State>, i: nat)
    requires Execution(task, trace) && i < |trace|
    ensures Inv(task, trace[i])
  {
    if i == 0 {
      InitInv(task, trace[0]);
    } else {
      ExecutionInv(task, trace, i - 1);
      StepInv(task, trace[i - 1], trace[i]);
    }
  }

  /** At every moment of every execution: no field has been stored twice, and whoever sees the
      signal sees exactly the element's fields and the bookkeeping ones. */
  lemma CompletedOnce(task: Task, trace: seq<State>, i: nat)
    requires Execution(task, trace) && i < |trace|
    ensures forall a, b | 0 <= a < b < |trace[i].stores| :: trace[i].stores[a] != trace[i].stores[b]
    ensures trace[i].signal ==>
              trace[i].elem.Available? && trace[i].fields == SoaFields(trace[i].elem.fields, task.kind, task.count)
  {
    ExecutionInv(task, trace, i);
    var s := trace[i];
    if w :| w in s.pcs && s.pcs[w].Filling? {
      assert Prefix(task, s, s.pcs[w].i);
    }
  }

  /** Once the signal is set nothing is stored any more, whatever the other workers do. */
  lemma {:induction false} SignalFreezesFields(task: Task, trace: seq<State>, i: nat, j: nat)
    requires Execution(task, trace) && i <= j < |trace| && trace[i].signal
    ensures trace[j].signal && trace[j].fields == trace[i].fields && trace[j].stores == trace[i].stores
    ensures trace[j].elem == trace[i].elem
    decreases j - i
  {
    if i < j {
      SignalFreezesFields(task, trace, i, j - 1);
      SignalStays(task, trace, j - 1);
    }
  }

  lemma SignalStays(task: Task, trace: seq<State>, i: nat)
    requires Execution(task, trace) && i + 1 < |trace| && trace[i].signal
    ensures var s, s' := trace[i], trace[i + 1];
      s'.signal && s'.fields == s.fields && s'.stores == s.stores && s'.elem == s.elem
  {
    ExecutionInv(task, trace, i);
    assert Step(task, trace[i], trace[i + 1]);
  }

  /** Workers never block one another for good: with the element available and no failed
      assertion, an execution that cannot go on has finished every worker. */
  lemma StuckMeansDone(task: Task, s: State)
    requires Inv(task, s) && s.elem.Available?
    requires forall w | w in s.pcs :: !s.pcs[w].Aborted?
    requires forall s' :: !Step(task, s, s')
    ensures forall w | w in s.pcs :: s.pcs[w].Done?
  {
    forall w | w in s.pcs ensures s.pcs[w].Done? {
      if s.pcs[w].InCritical() {
        var s' := HolderMoves(task, s, w);
        assert Step(task, s, s');
      } else if s.pcs[w].Idle? {
        if s.mutex == {} {
          var s' := s.(mutex := {w}, pcs := s.pcs[w := Locked]);
          assert WorkerStep(task, s, s', w);
          assert Step(task, s, s');
        } else {
          var v :| v in s.mutex;
          var s' := HolderMoves(task, s, v);
          assert Step(task, s, s');
        }
      }
    }
  }

  lemma HolderMoves(task: Task, s: State, w: Worker) returns (s': State)
    requires Inv(task, s) && s.elem.Available? && w in s.pcs && s.pcs[w].InCritical() && !s.pcs[w].Aborted?
    ensures WorkerStep(task, s, s', w)
  {
    match s.pcs[w] {
      case Locked => s' := s.(pcs := s.pcs[w := if s.signal then Leaving else Waiting]);
      case Waiting =>
        s' := s.(pcs := s.pcs[w := Filling(0)], fields := [], total := |s.elem.fields| + ExtraCount(task.kind));
      case Filling(i) =>
        if i < s.total {
          s' := s.(fields := s.fields + [WriteAt(s.elem.fields, task.kind, task.count, i)],
                   stores := s.stores + [i], pcs := s.pcs[w := Filling(i + 1)]);
        } else {
          s' := s.(signal := true, pcs := s.pcs[w := Leaving]);
        }
      case Leaving => s' := s.(mutex := s.mutex - {w}, pcs := s.pcs[w := Done]);
    }
  }

  // ----- how long an execution can go on -----

  function Rank(pc: Pc): nat {
    match pc
    case Idle => 5
    case Locked => 4
    case Waiting => 3
    case Filling(_) => 2
    case Leaving => 1
    case Done => 0
    case Aborted => 0
  }

  ghost function AtLeast(pcs: map<Worker, Pc>, k: nat): set<Worker> {
    set w | w in pcs && Rank(pcs[w]) >= k
  }

  /** The ranks of all workers added up, level by level. */
  ghost function Load(pcs: map<Worker, Pc>): nat {
    |AtLeast(pcs, 1)| + |AtLeast(pcs, 2)| + |AtLeast(pcs, 3)| + |AtLeast(pcs, 4)| + |AtLeast(pcs, 5)|
  }

  ghost function FieldCount(task: Task, elem: Elem): nat
    requires elem.Available?
  {
    |SoaFields(elem.fields, task.kind, task.count)|
  }

  /** What is left to do: the workers' ranks and the fields not stored yet. */
  ghost function Remaining(task: Task, s: State): int
    requires s.elem.Available?
  {
    Load(s.pcs) + FieldCount(task, s.elem) - |s.stores|
  }

  lemma LevelFalls(pcs: map<Worker, Pc>, w: Worker, pc: Pc, k: nat)
    requires w in pcs && Rank(pc) <= Rank(pcs[w])
    ensures |AtLeast(pcs[w := pc], k)| == |AtLeast(pcs, k)| - (if Rank(pc) < k <= Rank(pcs[w]) then 1 else 0)
  {
    if Rank(pc) < k <= Rank(pcs[w]) {
      assert AtLeast(pcs[w := pc], k) == AtLeast(pcs, k) - {w};
    } else {
      assert AtLeast(pcs[w := pc], k) == AtLeast(pcs, k);
    }
  }

  lemma LoadFalls(pcs: map<Worker, Pc>, w: Worker, pc: Pc)
    requires w in pcs && Rank(pc) <= Rank(pcs[w])
    ensures Load(pcs[w := pc]) == Load(pcs) - (Rank(pcs[w]) - Rank(pc))
  {
    LevelFalls(pcs, w, pc, 1);
    LevelFalls(pcs, w, pc, 2);
    LevelFalls(pcs, w, pc, 3);
    LevelFalls(pcs, w, pc, 4);
    LevelFalls(pcs, w, pc, 5);
  }

  lemma LoadBound(pcs: map<Worker, Pc>)
    ensures Load(pcs) <= 5 * |pcs|
  {
    forall k: nat ensures |AtLeast(pcs, k)| <= |pcs| { SubsetSize(AtLeast(pcs, k), pcs.Keys); }
  }

  lemma StoresBound(task: Task, s: State)
    requires Inv(task, s) && s.elem.Available?
    ensures |s.stores| <= FieldCount(task, s.elem)
  {
    if w :| w in s.pcs && s.pcs[w].Filling? {
      assert Prefix(task, s, s.pcs[w].i);
    }
  }

  lemma WorkProceeds(task: Task, s: State, s': State)
    requires Inv(task, s) && s.elem.Available? && Step(task, s, s')
    ensures s'.elem == s.elem && Remaining(task, s') < Remaining(task, s)
  {
    var w :| w in task.waits && WorkerStep(task, s, s', w);
    StepSpends(task, s, s', w);
    LoadFalls(s.pcs, w, s'.pcs[w]);
  }

  /** A step lowers the worker's rank or stores a field. */
  lemma StepSpends(task: Task, s: State, s': State, w: Worker)
    requires s.elem.Available? && w in task.waits && WorkerStep(task, s, s', w)
    ensures s'.elem == s.elem && w in s'.pcs && s'.pcs == s.pcs[w := s'.pcs[w]]
    ensures Rank(s'.pcs[w]) <= Rank(s.pcs[w])
    ensures Rank(s'.pcs[w]) - |s'.stores| < Rank(s.pcs[w]) - |s.stores|
  {
  }

  /** With the element available every execution ends: the workers together take at most five
      steps each and one for every field, whatever the interleaving. */
  lemma BoundedSteps(task: Task, trace: seq<State>, i: nat, j: nat)
    requires Execution(task, trace) && i <= j < |trace| && trace[i].elem.Available?
    ensures trace[j].elem == trace[i].elem
    ensures j - i <= 5 * |task.waits| + FieldCount(task, trace[i].elem)
  {
    RemainingFalls(task, trace, i, j);
    ExecutionInv(task, trace, i);
    ExecutionInv(task, trace, j);
    StoresBound(task, trace[j]);
    LoadBound(trace[i].pcs);
    assert |trace[i].pcs| == |trace[i].pcs.Keys| == |task.waits.Keys| == |task.waits|;
  }

  lemma NextProceeds(task: Task, trace: seq<State>, i: nat)
    requires Execution(task, trace) && i + 1 < |trace| && trace[i].elem.Available?
    ensures trace[i + 1].elem == trace[i].elem
    ensures Remaining(task, trace[i + 1]) < Remaining(task, trace[i])
  {
    ExecutionInv(task, trace, i);
    WorkProceeds(task, trace[i], trace[i + 1]);
  }

  lemma {:induction false} RemainingFalls(task: Task, trace: seq<State>, i: nat, j: nat)
    requires Execution(task, trace) && i <= j < |trace| && trace[i].elem.Available?
    ensures trace[j].elem == trace[i].elem
    ensures Remaining(task, trace[j]) + (j - i) <= Remaining(task, trace[i])
    decreases j - i
  {
    if i < j {
      RemainingFalls(task, trace, i, j - 1);
      NextProceeds(task, trace, j - 1);
    }
  }

  /** An assertion fails only for a worker that does not wait while the element is incomplete. */
  lemma {:induction false} AbortsExplained(task: Task, trace: seq<State>, i: nat, w: Worker)
    requires Execution(task, trace) && i < |trace| && w in trace[i].pcs && trace[i].pcs[w].Aborted?
    ensures w in task.waits && !task.waits[w]
  {
    if i > 0 {
      ExecutionInv(task, trace, i - 1);
      assert Step(task, trace[i - 1], trace[i - 1 + 1]);
      if trace[i - 1].pcs[w].Aborted? {
        AbortsExplained(task, trace, i - 1, w);
      }
    }
  }
}
