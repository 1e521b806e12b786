/** Every run of a statement, and, without counting iterations, how the runs can end. */
module StatementRuns {
  import opened Statements

  /** How a run of a statement can end. */
  datatype Completion = Normal | Returned | Diverged | Broke(target: Label) | Continued(target: Label) | FellThrough {
    predicate IsJump() { Broke? || Continued? || FellThrough? }
  }

  predicate Aimed(lab: Label, target: Label) { lab != NO_LABEL && target == lab }

  /** A labelled block or `if` ends normally at a break that names it. */
  function LeaveLabelled(lab: Label, c: Completion): Completion {
    if c.Broke? && Aimed(lab, c.target) then Normal else c
  }

  /** A loop or switch also ends normally at a break without a label. */
  function LeaveBreakable(lab: Label, c: Completion): Completion {
    if c == Broke(NO_LABEL) then Normal else LeaveLabelled(lab, c)
  }

  predicate StartsNextIteration(lab: Label, c: Completion) {
    c == Normal || (c.Continued? && (c.target == NO_LABEL || Aimed(lab, c.target)))
  }

  /** Evaluating expressions can break at one of their `or_break`s; these leave what encloses the
      expressions, which for tags and ranges is outside the switch or loop itself. */
  predicate Breaks(exprs: Exprs, c: Completion) {
    c.Broke? && c.target in exprs.Targets()
  }

  // ----- the runs -----

  /** Some run of s, with at most n iterations of loops on any path of nested loops, ends with c.
      Conditions, tags and calls may go either way. */
  ghost predicate Runs(s: Stmt, c: Completion, n: nat)
    decreases n, s, 0
  {
    match s
    case Empty => c == Normal
    case ConstDecl => c == Normal
    case VarDecl(exprs) => c == Normal || Breaks(exprs, c)
    case Assign(exprs) => c == Normal || Breaks(exprs, c)
    case ExprStmt(exprs) => c == Normal || Breaks(exprs, c)
    case DivergingCall(exprs) => c == Diverged || Breaks(exprs, c)
    case Return(exprs) => c == Returned || Breaks(exprs, c)
    case Break(target) => c == Broke(target)
    case Continue(target) => c == Continued(target)
    case Fallthrough => c == FellThrough
    case Block(lab, stmts) => exists c1 :: RunsList(stmts, c1, n) && c == LeaveLabelled(lab, c1)
    case If(lab, header, body, hasElse, elseStmt) =>
      || (exists c1 :: Breaks(header, c1) && c == LeaveLabelled(lab, c1))
      || (exists c1 :: Runs(body, c1, n) && c == LeaveLabelled(lab, c1))
      || (if hasElse then exists c1 :: Runs(elseStmt, c1, n) && c == LeaveLabelled(lab, c1) else c == Normal)
    case When(cond, body, hasElse, elseStmt) =>
      || (cond != ConstantBool(false) && Runs(body, c, n))
      || (cond != ConstantBool(true) && if hasElse then Runs(elseStmt, c, n) else c == Normal)
    case For(lab, header, hasCond, body) => RunsLoop(lab, header, hasCond, body, c, n)
    case Range(lab, header, body) => Breaks(header, c) || RunsLoop(lab, PLAIN, true, body, c, n)
    case Unroll(times, body) => RunsTimes(times, body, c, n)
    case Switch(lab, header, clauses) => Breaks(header, c) || RunsSwitch(lab, clauses, c, n)
    case TypeSwitch(lab, header, clauses) => Breaks(header, c) || RunsSwitch(lab, clauses, c, n)
  }

  ghost predicate RunsList(stmts: seq<Stmt>, c: Completion, n: nat)
    decreases n, stmts, 0
  {
    if stmts == [] then c == Normal
    else exists c1 :: Runs(stmts[0], c1, n) && if c1 == Normal then RunsList(stmts[1..], c, n) else c == c1
  }

  /** A loop whose condition may fail can stop before any iteration. Its header belongs to it. */
  ghost predicate RunsLoop(lab: Label, header: Exprs, canStop: bool, body: Stmt, c: Completion, n: nat)
    decreases n, body, 1
  {
    || (canStop && c == Normal)
    || (exists c1 :: Breaks(header, c1) && c == LeaveBreakable(lab, c1))
    || (n > 0 && (exists c1 :: Runs(body, c1, n - 1) &&
                    if StartsNextIteration(lab, c1) then RunsLoop(lab, header, canStop, body, c, n - 1)
                    else c == LeaveBreakable(lab, c1)))
  }

  /** An unrolled loop is so many copies of its body, and no target of breaks. */
  ghost predicate RunsTimes(times: nat, body: Stmt, c: Completion, n: nat)
    decreases n, body, 1, times
  {
    if times == 0 then c == Normal
    else exists c1 :: Runs(body, c1, n) && if c1 == Normal then RunsTimes(times - 1, body, c, n) else c == c1
  }

  /** Any clause may be chosen; without a default, possibly none. */
  ghost predicate RunsSwitch(lab: Label, clauses: seq<Clause>, c: Completion, n: nat)
    decreases n, clauses, 1
  {
    || (c == Normal && NoDefault(clauses))
    || exists i: nat, c1 :: i < |clauses| && RunsClauses(clauses[i..], c1, n) && c == LeaveBreakable(lab, c1)
  }

  /** Control enters the first of these clauses and moves on at a fallthrough. */
  ghost predicate RunsClauses(clauses: seq<Clause>, c: Completion, n: nat)
    decreases n, clauses, 0
  {
    if clauses == [] then c == Normal
    else exists c1 :: RunsList(clauses[0].stmts, c1, n) &&
           if c1 == FellThrough then RunsClauses(clauses[1..], c, n) else c == c1
  }

  predicate NoDefault(clauses: seq<Clause>) {
    forall i | 0 <= i < |clauses| :: !clauses[i].isDefault
  }

  // ----- how the runs can end -----

  /** Some run of s ends with c, told from the structure alone: whatever a loop can do it can do
      in its first iteration, and any clause of a switch can be entered directly. */
  ghost predicate Ends(s: Stmt, c: Completion)
    decreases s, 0
  {
    match s
    case Empty => c == Normal
    case ConstDecl => c == Normal
    case VarDecl(exprs) => c == Normal || Breaks(exprs, c)
    case Assign(exprs) => c == Normal || Breaks(exprs, c)
    case ExprStmt(exprs) => c == Normal || Breaks(exprs, c)
    case DivergingCall(exprs) => c == Diverged || Breaks(exprs, c)
    case Return(exprs) => c == Returned || Breaks(exprs, c)
    case Break(target) => c == Broke(target)
    case Continue(target) => c == Continued(target)
    case Fallthrough => c == FellThrough
    case Block(lab, stmts) => exists c1 :: EndsList(stmts, c1) && c == LeaveLabelled(lab, c1)
    case If(lab, header, body, hasElse, elseStmt) =>
      || (exists c1 :: Breaks(header, c1) && c == LeaveLabelled(lab, c1))
      || (exists c1 :: Ends(body, c1) && c == LeaveLabelled(lab, c1))
      || (if hasElse then exists c1 :: Ends(elseStmt, c1) && c == LeaveLabelled(lab, c1) else c == Normal)
    case When(cond, body, hasElse, elseStmt) =>
      || (cond != ConstantBool(false) && Ends(body, c))
      || (cond != ConstantBool(true) && if hasElse then Ends(elseStmt, c) else c == Normal)
    case For(lab, header, hasCond, body) => EndsLoop(lab, header, hasCond, body, c)
    case Range(lab, header, body) => Breaks(header, c) || EndsLoop(lab, PLAIN, true, body, c)
    case Unroll(times, body) => if times == 0 then c == Normal else Ends(body, c)
    case Switch(lab, header, clauses) => Breaks(header, c) || EndsSwitch(lab, clauses, c)
    case TypeSwitch(lab, header, clauses) => Breaks(header, c) || EndsSwitch(lab, clauses, c)
  }

  /** Control gets to a statement that ends with c, or past all of them. */
  ghost predicate EndsList(stmts: seq<Stmt>, c: Completion)
    decreases stmts, 1
  {
    if c == Normal then Passes(stmts, |stmts|)
    else exists i | 0 <= i < |stmts| :: Ends(stmts[i], c) && Passes(stmts, i)
  }

  /** Control can get past the first k statements. */
  ghost predicate Passes(stmts: seq<Stmt>, k: nat)
    requires k <= |stmts|
    decreases stmts, 0
  {
    forall i | 0 <= i < k :: Ends(stmts[i], Normal)
  }

  ghost predicate EndsLoop(lab: Label, header: Exprs, canStop: bool, body: Stmt, c: Completion)
    decreases body, 1
  {
    || (canStop && c == Normal)
    || (exists c1 :: Breaks(header, c1) && c == LeaveBreakable(lab, c1))
    || exists c1 :: Ends(body, c1) && !StartsNextIteration(lab, c1) && c == LeaveBreakable(lab, c1)
  }

  ghost predicate EndsSwitch(lab: Label, clauses: seq<Clause>, c: Completion)
    decreases clauses, 1
  {
    || (c == Normal && (NoDefault(clauses) || LastFallsThrough(clauses)))
    || exists i, c1 | 0 <= i < |clauses| :: EndsList(clauses[i].stmts, c1) && c1 != FellThrough && c == LeaveBreakable(lab, c1)
  }

  /** A fallthrough in the last clause, which other checks of the compiler refuse. */
  ghost predicate LastFallsThrough(clauses: seq<Clause>)
    decreases clauses, 0
  {
    clauses != [] && EndsList(clauses[|clauses| - 1].stmts, FellThrough)
  }

  // ----- more iterations only add runs -----

  lemma {:induction false} MoreIterations(s: Stmt, c: Completion, n: nat, more: nat)
    requires Runs(s, c, n) && n <= more
    ensures Runs(s, c, more)
    decreases n, s, 0
  {
    match s {
      case Block(lab, stmts) =>
        var c1 :| RunsList(stmts, c1, n) && c == LeaveLabelled(lab, c1);
        MoreForList(stmts, c1, n, more);
      case If(lab, header, body, hasElse, elseStmt) =>
        if c1 :| Runs(body, c1, n) && c == LeaveLabelled(lab, c1) {
          MoreIterations(body, c1, n, more);
        } else if c1 :| hasElse && Runs(elseStmt, c1, n) && c == LeaveLabelled(lab, c1) {
          MoreIterations(elseStmt, c1, n, more);
        }
      case When(cond, body, hasElse, elseStmt) =>
        if cond != ConstantBool(false) && Runs(body, c, n) {
          MoreIterations(body, c, n, more);
        } else if hasElse {
          MoreIterations(elseStmt, c, n, more);
        }
      case For(lab, header, hasCond, body) => MoreForLoop(lab, header, hasCond, body, c, n, more);
      case Range(lab, header, body) =>
        if !Breaks(header, c) { MoreForLoop(lab, PLAIN, true, body, c, n, more); }
      case Unroll(times, body) => MoreForTimes(times, body, c, n, more);
      case Switch(lab, header, clauses) =>
        if !Breaks(header, c) { MoreForSwitch(lab, clauses, c, n, more); }
      case TypeSwitch(lab, header, clauses) =>
        if !Breaks(header, c) { MoreForSwitch(lab, clauses, c, n, more); }
      case _ =>
    }
  }

  lemma {:induction false} MoreForList(stmts: seq<Stmt>, c: Completion, n: nat, more: nat)
    requires RunsList(stmts, c, n) && n <= more
    ensures RunsList(stmts, c, more)
    decreases n, stmts, 0
  {
    if stmts != [] {
      var c1 :| Runs(stmts[0], c1, n) && if c1 == Normal then RunsList(stmts[1..], c, n) else c == c1;
      MoreIterations(stmts[0], c1, n, more);
      if c1 == Normal {
        MoreForList(stmts[1..], c, n, more);
      }
    }
  }

  lemma {:induction false} MoreForTimes(times: nat, body: Stmt, c: Completion, n: nat, more: nat)
    requires RunsTimes(times, body, c, n) && n <= more
    ensures RunsTimes(times, body, c, more)
    decreases n, body, 1, times
  {
    if times > 0 {
      var c1 :| Runs(body, c1, n) && if c1 == Normal then RunsTimes(times - 1, body, c, n) else c == c1;
      MoreIterations(body, c1, n, more);
      if c1 == Normal {
        MoreForTimes(times - 1, body, c, n, more);
      }
    }
  }

  /** The loop can leave without another iteration. */
  ghost predicate StopsAtOnce(lab: Label, header: Exprs, canStop: bool, c: Completion) {
    (canStop && c == Normal) || exists c1 :: Breaks(header, c1) && c == LeaveBreakable(lab, c1)
  }

  lemma {:induction false} MoreForLoop(lab: Label, header: Exprs, canStop: bool, body: Stmt, c: Completion, n: nat, more: nat)
    requires RunsLoop(lab, header, canStop, body, c, n) && n <= more
    ensures RunsLoop(lab, header, canStop, body, c, more)
    decreases n, body, 1
  {
    if !StopsAtOnce(lab, header, canStop, c) {
      var fewer, n' := more - 1, n - 1;
      var c1 :| Runs(body, c1, n') &&
                if StartsNextIteration(lab, c1) then RunsLoop(lab, header, canStop, body, c, n')
                else c == LeaveBreakable(lab, c1);
      MoreIterations(body, c1, n', fewer);
      if StartsNextIteration(lab, c1) {
        MoreForLoop(lab, header, canStop, body, c, n', fewer);
      }
      Iterates(lab, header, canStop, body, c1, c, fewer);
    }
  }

  /** One iteration and then what follows it. */
  lemma Iterates(lab: Label, header: Exprs, canStop: bool, body: Stmt, c1: Completion, c: Completion, n: nat)
    requires Runs(body, c1, n)
    requires if StartsNextIteration(lab, c1) then RunsLoop(lab, header, canStop, body, c, n) else c == LeaveBreakable(lab, c1)
    ensures RunsLoop(lab, header, canStop, body, c, n + 1)
  {
    var more := n + 1;
    assert Runs(body, c1, more - 1);
  }

  lemma {:induction false} MoreForSwitch(lab: Label, clauses: seq<Clause>, c: Completion, n: nat, more: nat)
    requires RunsSwitch(lab, clauses, c, n) && n <= more
    ensures RunsSwitch(lab, clauses, c, more)
    decreases n, clauses, 1
  {
    if i: nat, c1 :| i < |clauses| && RunsClauses(clauses[i..], c1, n) && c == LeaveBreakable(lab, c1) {
      MoreForClauses(clauses[i..], c1, n, more);
    }
  }

  lemma {:induction false} MoreForClauses(clauses: seq<Clause>, c: Completion, n: nat, more: nat)
    requires RunsClauses(clauses, c, n) && n <= more
    ensures RunsClauses(clauses, c, more)
    decreases n, clauses, 0
  {
    if clauses != [] {
      var c1 :| RunsList(clauses[0].stmts, c1, n) &&
                if c1 == FellThrough then RunsClauses(clauses[1..], c, n) else c == c1;
      MoreForList(clauses[0].stmts, c1, n, more);
      if c1 == FellThrough {
        MoreForClauses(clauses[1..], c, n, more);
      }
    }
  }

  // ----- every run ends as the structure says -----

  lemma {:induction false} RunEnds(s: Stmt, c: Completion, n: nat)
    requires Runs(s, c, n)
    ensures Ends(s, c)
    decreases n, s, 0
  {
    match s {
      case Block(lab, stmts) =>
        var c1 :| RunsList(stmts, c1, n) && c == LeaveLabelled(lab, c1);
        RunListEnds(stmts, c1, n);
      case If(lab, header, body, hasElse, elseStmt) =>
        if c1 :| Runs(body, c1, n) && c == LeaveLabelled(lab, c1) {
          RunEnds(body, c1, n);
        } else if c1 :| hasElse && Runs(elseStmt, c1, n) && c == LeaveLabelled(lab, c1) {
          RunEnds(elseStmt, c1, n);
        }
      case When(cond, body, hasElse, elseStmt) =>
        if cond != ConstantBool(false) && Runs(body, c, n) {
          RunEnds(body, c, n);
        } else if hasElse {
          RunEnds(elseStmt, c, n);
        }
      case For(lab, header, hasCond, body) => RunLoopEnds(lab, header, hasCond, body, c, n);
      case Range(lab, header, body) =>
        if !Breaks(header, c) { RunLoopEnds(lab, PLAIN, true, body, c, n); }
      case Unroll(times, body) => RunTimesEnds(times, body, c, n);
      case Switch(lab, header, clauses) =>
        if !Breaks(header, c) { RunSwitchEnds(lab, clauses, c, n); }
      case TypeSwitch(lab, header, clauses) =>
        if !Breaks(header, c) { RunSwitchEnds(lab, clauses, c, n); }
      case _ =>
    }
  }

  lemma {:induction false} RunListEnds(stmts: seq<Stmt>, c: Completion, n: nat)
    requires RunsList(stmts, c, n)
    ensures EndsList(stmts, c)
    decreases n, stmts, 0
  {
    if stmts != [] {
      var c1 :| Runs(stmts[0], c1, n) && if c1 == Normal then RunsList(stmts[1..], c, n) else c == c1;
      RunEnds(stmts[0], c1, n);
      if c1 == Normal {
        RunListEnds(stmts[1..], c, n);
        EndsRest(stmts, c);
      } else {
        assert Passes(stmts, 0);
      }
    }
  }

  /** A list ends as its first statement does or, past it, as the rest does. */
  lemma EndsRest(stmts: seq<Stmt>, c: Completion)
    requires stmts != []
    ensures EndsList(stmts, c) <==>
            (c != Normal && Ends(stmts[0], c)) || (Ends(stmts[0], Normal) && EndsList(stmts[1..], c))
  {
    var rest := stmts[1..];
    PassesRest(stmts, |rest|);
    if c != Normal {
      if i :| 1 <= i < |stmts| && Ends(stmts[i], c) && Passes(stmts, i) {
        PassesRest(stmts, i - 1);
        assert Ends(rest[i - 1], c) && Passes(rest, i - 1);
      }
      if i :| 0 <= i < |rest| && Ends(rest[i], c) && Passes(rest, i) && Ends(stmts[0], Normal) {
        PassesRest(stmts, i);
        assert Ends(stmts[i + 1], c) && Passes(stmts, i + 1);
      }
      assert Passes(stmts, 0);
    }
  }

  lemma PassesRest(stmts: seq<Stmt>, k: nat)
    requires k < |stmts|
    ensures Passes(stmts, k + 1) <==> Ends(stmts[0], Normal) && Passes(stmts[1..], k)
  {
    forall i | 0 <= i < k ensures stmts[1..][i] == stmts[i + 1] {
    }
    if Passes(stmts, k + 1) {
      forall i | 0 <= i < k ensures Ends(stmts[1..][i], Normal) {
        assert Ends(stmts[i + 1], Normal);
      }
    }
    if Ends(stmts[0], Normal) && Passes(stmts[1..], k) {
      forall i | 0 <= i < k + 1 ensures Ends(stmts[i], Normal) {
        assert i > 0 ==> Ends(stmts[1..][i - 1], Normal);
      }
    }
  }

  lemma {:induction false} RunTimesEnds(times: nat, body: Stmt, c: Completion, n: nat)
    requires RunsTimes(times, body, c, n)
    ensures if times == 0 then c == Normal else Ends(body, c)
    decreases n, body, 1, times
  {
    if times > 0 {
      var c1 :| Runs(body, c1, n) && if c1 == Normal then RunsTimes(times - 1, body, c, n) else c == c1;
      RunEnds(body, c1, n);
      if c1 == Normal {
        RunTimesEnds(times - 1, body, c, n);
      }
    }
  }

  lemma {:induction false} RunLoopEnds(lab: Label, header: Exprs, canStop: bool, body: Stmt, c: Completion, n: nat)
    requires RunsLoop(lab, header, canStop, body, c, n)
    ensures EndsLoop(lab, header, canStop, body, c)
    decreases n, body, 1
  {
    if !StopsAtOnce(lab, header, canStop, c) {
      var c1 :| Runs(body, c1, n - 1) &&
                if StartsNextIteration(lab, c1) then RunsLoop(lab, header, canStop, body, c, n - 1)
                else c == LeaveBreakable(lab, c1);
      if StartsNextIteration(lab, c1) {
        RunLoopEnds(lab, header, canStop, body, c, n - 1);
      } else {
        RunEnds(body, c1, n - 1);
      }
    }
  }

  lemma {:induction false} RunSwitchEnds(lab: Label, clauses: seq<Clause>, c: Completion, n: nat)
    requires RunsSwitch(lab, clauses, c, n)
    ensures EndsSwitch(lab, clauses, c)
    decreases n, clauses, 1
  {
    if i: nat, c1 :| i < |clauses| && RunsClauses(clauses[i..], c1, n) && c == LeaveBreakable(lab, c1) {
      RunClausesEnd(clauses, i, c1, n);
    }
  }

  /** Entered at clause i, control leaves from some clause, or falls out of the last. */
  lemma {:induction false} RunClausesEnd(clauses: seq<Clause>, i: nat, c: Completion, n: nat)
    requires i < |clauses| && RunsClauses(clauses[i..], c, n)
    ensures c != FellThrough
    ensures (c == Normal && LastFallsThrough(clauses)) || exists j | 0 <= j < |clauses| :: EndsList(clauses[j].stmts, c)
    decreases n, clauses, 0, |clauses| - i
  {
    var c1 :| RunsList(clauses[i..][0].stmts, c1, n) &&
              if c1 == FellThrough then RunsClauses(clauses[i..][1..], c, n) else c == c1;
    assert clauses[i..][0] == clauses[i] && clauses[i..][1..] == clauses[i + 1..];
    RunListEnds(clauses[i].stmts, c1, n);
    if c1 == FellThrough && i + 1 < |clauses| {
      RunClausesEnd(clauses, i + 1, c, n);
    }
  }

  // ----- and every such end is reached by a run -----

  lemma {:induction false} EndIsRun(s: Stmt, c: Completion) returns (n: nat)
    requires Ends(s, c)
    ensures Runs(s, c, n)
    decreases s, 0
  {
    n := 0;
    match s {
      case Block(lab, stmts) =>
        var c1 :| EndsList(stmts, c1) && c == LeaveLabelled(lab, c1);
        n := ListEndIsRun(stmts, c1);
      case If(lab, header, body, hasElse, elseStmt) =>
        if c1 :| Ends(body, c1) && c == LeaveLabelled(lab, c1) {
          n := EndIsRun(body, c1);
        } else if c1 :| hasElse && Ends(elseStmt, c1) && c == LeaveLabelled(lab, c1) {
          n := EndIsRun(elseStmt, c1);
        }
      case When(cond, body, hasElse, elseStmt) =>
        if cond != ConstantBool(false) && Ends(body, c) {
          n := EndIsRun(body, c);
        } else if hasElse {
          n := EndIsRun(elseStmt, c);
        }
      case For(lab, header, hasCond, body) => n := LoopEndIsRun(lab, header, hasCond, body, c);
      case Range(lab, header, body) =>
        if !Breaks(header, c) { n := LoopEndIsRun(lab, PLAIN, true, body, c); }
      case Unroll(times, body) =>
        if times > 0 {
          n := EndIsRun(body, c);
          RepeatedRun(times, body, c, n);
        }
      case Switch(lab, header, clauses) =>
        if !Breaks(header, c) { n := SwitchEndIsRun(lab, clauses, c); }
      case TypeSwitch(lab, header, clauses) =>
        if !Breaks(header, c) { n := SwitchEndIsRun(lab, clauses, c); }
      case _ =>
    }
  }

  lemma {:induction false} ListEndIsRun(stmts: seq<Stmt>, c: Completion) returns (n: nat)
    requires EndsList(stmts, c)
    ensures RunsList(stmts, c, n)
    decreases stmts, 1
  {
    n := 0;
    if stmts != [] {
      EndsRest(stmts, c);
      if c != Normal && Ends(stmts[0], c) {
        n := EndIsRun(stmts[0], c);
      } else {
        var first := EndIsRun(stmts[0], Normal);
        var rest := ListEndIsRun(stmts[1..], c);
        n := first + rest;
        MoreIterations(stmts[0], Normal, first, n);
        MoreForList(stmts[1..], c, rest, n);
      }
    }
  }

  /** What a body can do once it can do in any number of copies. */
  lemma {:induction false} RepeatedRun(times: nat, body: Stmt, c: Completion, n: nat)
    requires times > 0 && Runs(body, c, n)
    ensures RunsTimes(times, body, c, n)
  {
    if c == Normal && times > 1 {
      RepeatedRun(times - 1, body, c, n);
    }
  }

  lemma {:induction false} LoopEndIsRun(lab: Label, header: Exprs, canStop: bool, body: Stmt, c: Completion) returns (n: nat)
    requires EndsLoop(lab, header, canStop, body, c)
    ensures RunsLoop(lab, header, canStop, body, c, n)
    decreases body, 1
  {
    if StopsAtOnce(lab, header, canStop, c) {
      n := 0;
    } else {
      var c1 :| Ends(body, c1) && !StartsNextIteration(lab, c1) && c == LeaveBreakable(lab, c1);
      n := EndIsRun(body, c1);
      Iterates(lab, header, canStop, body, c1, c, n);
      n := n + 1;
    }
  }

  lemma {:induction false} SwitchEndIsRun(lab: Label, clauses: seq<Clause>, c: Completion) returns (n: nat)
    requires EndsSwitch(lab, clauses, c)
    ensures RunsSwitch(lab, clauses, c, n)
    decreases clauses, 2
  {
    n := 0;
    if !(c == Normal && NoDefault(clauses)) {
      var last := |clauses| - 1;
      if c == Normal && LastFallsThrough(clauses) {
        n := ListEndIsRun(clauses[last].stmts, FellThrough);
        EntryRuns(clauses, last, FellThrough, n);
        assert RunsClauses(clauses[last..], Normal, n) && c == LeaveBreakable(lab, Normal);
      } else {
        var i, c1 :| 0 <= i < |clauses| && EndsList(clauses[i].stmts, c1) && c1 != FellThrough && c == LeaveBreakable(lab, c1);
        n := ListEndIsRun(clauses[i].stmts, c1);
        EntryRuns(clauses, i, c1, n);
        assert RunsClauses(clauses[i..], c1, n);
      }
    }
  }

  /** Entering a clause and leaving from it, or falling out of the last one. */
  lemma EntryRuns(clauses: seq<Clause>, i: nat, c: Completion, n: nat)
    requires i < |clauses| && RunsList(clauses[i].stmts, c, n)
    requires c == FellThrough ==> i == |clauses| - 1
    ensures RunsClauses(clauses[i..], if c == FellThrough then Normal else c, n)
  {
    assert clauses[i..][0] == clauses[i];
    assert c == FellThrough ==> clauses[i..][1..] == [];
  }

  /** Some run of s, of any number of iterations, ends with c. */
  ghost predicate CanEnd(s: Stmt, c: Completion) {
    exists n: nat :: Runs(s, c, n)
  }

  lemma EndIsPossible(s: Stmt, c: Completion)
    requires Ends(s, c)
    ensures CanEnd(s, c)
  {
    var n := EndIsRun(s, c);
  }

  lemma PossibleEnds(s: Stmt, c: Completion)
    requires CanEnd(s, c)
    ensures Ends(s, c)
  {
    var n: nat :| Runs(s, c, n);
    RunEnds(s, c, n);
  }

  /** The structural ends are exactly the ends of the runs. */
  lemma EndsAreRuns(s: Stmt, c: Completion)
    ensures Ends(s, c) <==> CanEnd(s, c)
  {
    if Ends(s, c) { EndIsPossible(s, c); }
    if CanEnd(s, c) { PossibleEnds(s, c); }
  }
}
