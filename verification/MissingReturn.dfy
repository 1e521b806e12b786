/** When the "missing return" analysis is right: over all runs, an accepted statement completes
    normally exactly when it has one of the leaks listed here. */
module MissingReturn {
  import opened Statements
  import opened StatementRuns
  import opened Terminating

  // ----- jumps that can leave a statement -----

  /** Syntactically, a jump c can leave s; `unseen` tells whether jumps count that are in places
      the break scan has no case for: unflagged expressions, returned values, tags, ranges, and
      the insides of a `when` and an `#unroll`. */
  predicate Escapes(s: Stmt, c: Completion, unseen: bool)
    decreases s, 0
  {
    match s
    case VarDecl(exprs) => Jumps(exprs, c, unseen)
    case Assign(exprs) => Jumps(exprs, c, unseen)
    case ExprStmt(exprs) => Jumps(exprs, c, unseen)
    case DivergingCall(exprs) => Jumps(exprs, c, unseen)
    case Return(exprs) => unseen && Breaks(exprs, c)
    case Break(target) => c == Broke(target)
    case Continue(target) => c == Continued(target)
    case Fallthrough => c == FellThrough
    case Block(lab, stmts) => LeaveLabelled(lab, c) == c && EscapesList(stmts, c, unseen)
    case If(lab, header, body, hasElse, elseStmt) =>
      && LeaveLabelled(lab, c) == c
      && (Jumps(header, c, unseen) || Escapes(body, c, unseen) || (hasElse && Escapes(elseStmt, c, unseen)))
    case When(_, body, hasElse, elseStmt) => unseen && (Escapes(body, c, unseen) || (hasElse && Escapes(elseStmt, c, unseen)))
    case For(lab, header, _, body) => EscapesLoop(lab, header, body, c, unseen)
    case Range(lab, header, body) => (unseen && Breaks(header, c)) || EscapesLoop(lab, PLAIN, body, c, unseen)
    case Unroll(_, body) => unseen && Escapes(body, c, unseen)
    case Switch(lab, header, clauses) => (unseen && Breaks(header, c)) || EscapesSwitch(lab, clauses, c, unseen)
    case TypeSwitch(lab, header, clauses) => (unseen && Breaks(header, c)) || EscapesSwitch(lab, clauses, c, unseen)
    case _ => false
  }

  predicate Jumps(exprs: Exprs, c: Completion, unseen: bool) {
    c.Broke? && c.target in (if unseen then exprs.Targets() else exprs.flagged)
  }

  predicate EscapesList(stmts: seq<Stmt>, c: Completion, unseen: bool)
    decreases stmts, 0
  {
    exists i | 0 <= i < |stmts| :: Escapes(stmts[i], c, unseen)
  }

  predicate EscapesLoop(lab: Label, header: Exprs, body: Stmt, c: Completion, unseen: bool)
    decreases body, 1
  {
    && LeaveBreakable(lab, c) == c && !StartsNextIteration(lab, c)
    && (Jumps(header, c, unseen) || Escapes(body, c, unseen))
  }

  predicate EscapesSwitch(lab: Label, clauses: seq<Clause>, c: Completion, unseen: bool)
    decreases clauses, 1
  {
    LeaveBreakable(lab, c) == c != FellThrough && EscapesClauses(clauses, c, unseen)
  }

  predicate EscapesClauses(clauses: seq<Clause>, c: Completion, unseen: bool)
    decreases clauses, 0
  {
    exists i | 0 <= i < |clauses| :: EscapesList(clauses[i].stmts, c, unseen)
  }

  /** A run that ends with a jump took a jump that can leave the statement. */
  lemma {:induction false} JumpEscapes(s: Stmt, c: Completion)
    requires Ends(s, c) && c.IsJump()
    ensures Escapes(s, c, true)
    decreases s, 0
  {
    match s {
      case Block(lab, stmts) => JumpEscapesList(stmts, c);
      case If(lab, header, body, hasElse, elseStmt) =>
        if Ends(body, c) { JumpEscapes(body, c); } else if hasElse && Ends(elseStmt, c) { JumpEscapes(elseStmt, c); }
      case When(cond, body, hasElse, elseStmt) =>
        if cond != ConstantBool(false) && Ends(body, c) { JumpEscapes(body, c); } else { JumpEscapes(elseStmt, c); }
      case For(lab, header, hasCond, body) => JumpEscapesLoop(lab, header, hasCond, body, c);
      case Range(lab, header, body) =>
        if !Breaks(header, c) { JumpEscapesLoop(lab, PLAIN, true, body, c); }
      case Unroll(_, body) => JumpEscapes(body, c);
      case Switch(lab, header, clauses) =>
        if !Breaks(header, c) { JumpEscapesSwitch(lab, clauses, c); }
      case TypeSwitch(lab, header, clauses) =>
        if !Breaks(header, c) { JumpEscapesSwitch(lab, clauses, c); }
      case _ =>
    }
  }

  lemma {:induction false} JumpEscapesLoop(lab: Label, header: Exprs, canStop: bool, body: Stmt, c: Completion)
    requires EndsLoop(lab, header, canStop, body, c) && c.IsJump()
    ensures EscapesLoop(lab, header, body, c, true)
    decreases body, 1
  {
    if Ends(body, c) { JumpEscapes(body, c); }
  }

  lemma {:induction false} JumpEscapesList(stmts: seq<Stmt>, c: Completion)
    requires EndsList(stmts, c) && c.IsJump()
    ensures EscapesList(stmts, c, true)
    decreases stmts, 0
  {
    var i :| 0 <= i < |stmts| && Ends(stmts[i], c) && Passes(stmts, i);
    JumpEscapes(stmts[i], c);
  }

  lemma {:induction false} JumpEscapesSwitch(lab: Label, clauses: seq<Clause>, c: Completion)
    requires EndsSwitch(lab, clauses, c) && c.IsJump()
    ensures EscapesSwitch(lab, clauses, c, true)
    decreases clauses, 1
  {
    var i, c1 :| 0 <= i < |clauses| && EndsList(clauses[i].stmts, c1) && c1 != FellThrough && c == LeaveBreakable(lab, c1);
    JumpEscapesList(clauses[i].stmts, c);
  }

  // ----- what the break scan sees -----

  /** Any break that can leave a statement from a place the scan has a case for is seen by it: an
      unlabelled one when breaks are implicit, a labelled one under its label. */
  lemma {:induction false} BreakIsSeen(s: Stmt, target: Label, lab: Label, implicit: bool)
    requires Escapes(s, Broke(target), false)
    requires if target == NO_LABEL then implicit else lab == target
    ensures HasBreak(s, lab, implicit)
    decreases s
  {
    match s {
      case Block(_, stmts) => BreakInListIsSeen(stmts, target, lab, implicit);
      case If(_, header, body, hasElse, elseStmt) =>
        if Escapes(body, Broke(target), false) { BreakIsSeen(body, target, lab, implicit); }
        else if hasElse && Escapes(elseStmt, Broke(target), false) { BreakIsSeen(elseStmt, target, lab, implicit); }
      case For(_, header, _, body) =>
        if header.flagged == {} { BreakIsSeen(body, target, lab, false); }
      case Range(_, _, body) => BreakIsSeen(body, target, lab, false);
      case Switch(own, _, clauses) => BreakInSwitchIsSeen(own, clauses, target, lab);
      case TypeSwitch(own, _, clauses) => BreakInSwitchIsSeen(own, clauses, target, lab);
      case _ =>
    }
  }

  lemma {:induction false} BreakInSwitchIsSeen(own: Label, clauses: seq<Clause>, target: Label, lab: Label)
    requires EscapesSwitch(own, clauses, Broke(target), false) && target != NO_LABEL && lab == target
    ensures HasBreakClauses(clauses, lab, false)
    decreases clauses
  {
    var i :| 0 <= i < |clauses| && EscapesList(clauses[i].stmts, Broke(target), false);
    BreakInListIsSeen(clauses[i].stmts, target, lab, false);
  }

  lemma {:induction false} BreakInListIsSeen(stmts: seq<Stmt>, target: Label, lab: Label, implicit: bool)
    requires EscapesList(stmts, Broke(target), false)
    requires if target == NO_LABEL then implicit else lab == target
    ensures HasBreakList(stmts, lab, implicit)
    decreases stmts
  {
    var i :| 0 <= i < |stmts| && Escapes(stmts[i], Broke(target), false);
    BreakIsSeen(stmts[i], target, lab, implicit);
  }

  /** A break that can leave s, but only from where the scan does not look. */
  predicate OnlyUnseen(s: Stmt, target: Label) {
    Escapes(s, Broke(target), true) && !Escapes(s, Broke(target), false)
  }

  predicate OnlyUnseenInList(stmts: seq<Stmt>, target: Label) {
    EscapesList(stmts, Broke(target), true) && !EscapesList(stmts, Broke(target), false)
  }

  /** Every run of a loop body that leaves by a break aimed at the loop shows up in the scan,
      unless it breaks out of where the scan does not look. */
  lemma BreakingRunIsSeen(body: Stmt, target: Label, n: nat)
    requires Runs(body, Broke(target), n)
    ensures HasBreak(body, target, target == NO_LABEL) || OnlyUnseen(body, target)
  {
    RunEnds(body, Broke(target), n);
    JumpEscapes(body, Broke(target));
    if Escapes(body, Broke(target), false) {
      BreakIsSeen(body, target, target, target == NO_LABEL);
    }
  }

  // ----- the leaks of the analysis -----

  /** Where an accepted statement lets control through: at a flagged `or_break` value that decides,
      at a reachable break to the label of a block, `if` or switch, at a reachable break aimed at
      an endless loop or a switch from where the scan does not look, at an `or_break` in the init
      statement of an endless loop, and past the last clause of a switch. */
  ghost predicate Leaks(s: Stmt)
    decreases s, 0
  {
    match s
    case VarDecl(exprs) => exprs.flagged != {}
    case Assign(exprs) => exprs.flagged != {}
    case Block(lab, stmts) => LeaksList(stmts) || (lab != NO_LABEL && EndsList(stmts, Broke(lab)))
    case If(lab, header, body, hasElse, elseStmt) =>
      || Leaks(body) || (hasElse && Leaks(elseStmt))
      || (lab != NO_LABEL && (lab in header.Targets() || Ends(body, Broke(lab)) || (hasElse && Ends(elseStmt, Broke(lab)))))
    case When(cond, body, hasElse, elseStmt) =>
      (cond != ConstantBool(false) && Leaks(body)) || (cond != ConstantBool(true) && hasElse && Leaks(elseStmt))
    case For(lab, header, _, body) =>
      exists target | target in {NO_LABEL, lab} ::
        target in header.Targets() || (Ends(body, Broke(target)) && OnlyUnseen(body, target))
    case Switch(lab, _, clauses) => LeaksSwitch(lab, clauses)
    case TypeSwitch(lab, _, clauses) => LeaksSwitch(lab, clauses)
    case _ => false
  }

  /** Control gets to the deciding statement, and that one leaks. */
  ghost predicate LeaksList(stmts: seq<Stmt>)
    decreases stmts, 0
  {
    stmts != [] &&
    var last := |stmts| - 1;
    if Skipped(stmts[last]) then LeaksList(stmts[..last]) else Leaks(stmts[last]) && Passes(stmts, last)
  }

  ghost predicate LeaksSwitch(lab: Label, clauses: seq<Clause>)
    decreases clauses, 1
  {
    LastFallsThrough(clauses) || exists i | 0 <= i < |clauses| :: LeaksClause(lab, clauses[i])
  }

  ghost predicate LeaksClause(lab: Label, cc: Clause)
    decreases cc, 0
  {
    || LeaksList(cc.stmts) || (lab != NO_LABEL && EndsList(cc.stmts, Broke(lab)))
    || (EndsList(cc.stmts, Broke(NO_LABEL)) && OnlyUnseenInList(cc.stmts, NO_LABEL))
  }

  /** An accepted statement has a run that completes normally exactly when it leaks. */
  lemma AcceptedCompletesExactly(s: Stmt, lab: Label)
    requires IsTerminating(s, lab)
    ensures CanEnd(s, Normal) <==> Leaks(s)
  {
    EndsAreRuns(s, Normal);
    AcceptedLeaksExactly(s, lab);
  }

  lemma {:induction false} AcceptedLeaksExactly(s: Stmt, lab: Label)
    requires IsTerminating(s, lab)
    ensures Ends(s, Normal) <==> Leaks(s)
    decreases s, 0
  {
    match s {
      case Block(own, stmts) =>
        AcceptedListLeaksExactly(stmts, lab);
        assert Normal == LeaveLabelled(own, Normal) && (own != NO_LABEL ==> Normal == LeaveLabelled(own, Broke(own)));
      case If(own, header, body, _, elseStmt) =>
        AcceptedLeaksExactly(body, lab);
        AcceptedLeaksExactly(elseStmt, lab);
        AcceptedIfLeaks(own, header, body, elseStmt);
      case When(cond, body, hasElse, elseStmt) =>
        if cond != ConstantBool(false) { AcceptedLeaksExactly(body, lab); }
        if cond != ConstantBool(true) { AcceptedLeaksExactly(elseStmt, lab); }
      case For(own, header, _, body) => EndlessLoopLeaksExactly(own, header, body, lab);
      case Switch(own, _, clauses) => AcceptedSwitchLeaksExactly(own, clauses, lab);
      case TypeSwitch(own, _, clauses) => AcceptedSwitchLeaksExactly(own, clauses, lab);
      case _ =>
    }
  }

  lemma AcceptedIfLeaks(own: Label, header: Exprs, body: Stmt, elseStmt: Stmt)
    requires Ends(body, Normal) <==> Leaks(body)
    requires Ends(elseStmt, Normal) <==> Leaks(elseStmt)
    ensures var s := If(own, header, body, true, elseStmt); Ends(s, Normal) <==> Leaks(s)
  {
    var s := If(own, header, body, true, elseStmt);
    assert Normal == LeaveLabelled(own, Normal) && (own != NO_LABEL ==> Normal == LeaveLabelled(own, Broke(own)));
    forall c1 | Normal == LeaveLabelled(own, c1) ensures c1 == Normal || (own != NO_LABEL && c1 == Broke(own)) {
    }
    if own != NO_LABEL && own in header.Targets() {
      assert Breaks(header, Broke(own));
    }
  }

  /** An accepted loop completes normally exactly at a break aimed at it, in its init statement or
      from where the scan does not look. */
  lemma EndlessLoopLeaksExactly(own: Label, header: Exprs, body: Stmt, lab: Label)
    requires IsTerminating(For(own, header, false, body), lab)
    ensures EndsLoop(own, header, false, body, Normal) <==> Leaks(For(own, header, false, body))
  {
    forall target | target in {NO_LABEL, own}
      ensures Normal == LeaveBreakable(own, Broke(target)) && !StartsNextIteration(own, Broke(target))
      ensures Ends(body, Broke(target)) ==> OnlyUnseen(body, target)
      ensures target in header.Targets() ==> Breaks(header, Broke(target))
    {
      if Ends(body, Broke(target)) {
        JumpEscapes(body, Broke(target));
        if Escapes(body, Broke(target), false) {
          BreakIsSeen(body, target, if target == NO_LABEL then lab else own, target == NO_LABEL);
        }
      }
    }
    forall c1 | Normal == LeaveBreakable(own, c1) && !StartsNextIteration(own, c1)
      ensures c1.Broke? && c1.target in {NO_LABEL, own}
    {
    }
  }

  lemma {:induction false} AcceptedListLeaksExactly(stmts: seq<Stmt>, lab: Label)
    requires IsTerminatingList(stmts, lab)
    ensures EndsList(stmts, Normal) <==> LeaksList(stmts)
    decreases stmts, 0
  {
    var last := |stmts| - 1;
    assert Passes(stmts, |stmts|) <==> Passes(stmts, last) && Ends(stmts[last], Normal);
    if Skipped(stmts[last]) {
      AcceptedListLeaksExactly(stmts[..last], lab);
      assert forall i | 0 <= i < last :: stmts[..last][i] == stmts[i];
    } else if !stmts[last].DivergingCall? {
      AcceptedLeaksExactly(stmts[last], lab);
    }
  }

  lemma {:induction false} AcceptedSwitchLeaksExactly(own: Label, clauses: seq<Clause>, lab: Label)
    requires IsTerminatingSwitch(clauses, lab)
    ensures EndsSwitch(own, clauses, Normal) <==> LeaksSwitch(own, clauses)
    decreases clauses, 0
  {
    forall i | 0 <= i < |clauses| ensures LeaksClause(own, clauses[i]) <==> LeavesSwitch(own, clauses[i]) {
      AcceptedListLeaksExactly(clauses[i].stmts, lab);
      if EndsList(clauses[i].stmts, Broke(NO_LABEL)) {
        ClauseBreaksUnseen(clauses[i].stmts, lab);
      }
      assert Normal == LeaveBreakable(own, Normal) == LeaveBreakable(own, Broke(NO_LABEL));
      assert own != NO_LABEL ==> Normal == LeaveBreakable(own, Broke(own));
    }
  }

  lemma ClauseBreaksUnseen(stmts: seq<Stmt>, lab: Label)
    requires EndsList(stmts, Broke(NO_LABEL)) && !HasBreakList(stmts, lab, true)
    ensures OnlyUnseenInList(stmts, NO_LABEL)
  {
    JumpEscapesList(stmts, Broke(NO_LABEL));
    if EscapesList(stmts, Broke(NO_LABEL), false) {
      BreakInListIsSeen(stmts, NO_LABEL, lab, true);
    }
  }

  /** A run that enters the clause directly ends the switch normally. */
  ghost predicate LeavesSwitch(lab: Label, cc: Clause) {
    exists c1 :: EndsList(cc.stmts, c1) && c1 != FellThrough && Normal == LeaveBreakable(lab, c1)
  }

  /** The check on procedure bodies: with no jump left to leave an accepted body, every run
      returns or ends in a diverging call exactly when the body does not leak. */
  lemma AcceptedBodyReturns(body: Stmt)
    requires IsTerminating(body, NO_LABEL)
    requires forall jump: Completion | jump.IsJump() :: !Escapes(body, jump, true)
    ensures (forall c | CanEnd(body, c) :: c == Returned || c == Diverged) <==> !Leaks(body)
  {
    AcceptedCompletesExactly(body, NO_LABEL);
    forall c | CanEnd(body, c) ensures !c.IsJump() {
      EndsAreRuns(body, c);
      if c.IsJump() {
        JumpEscapes(body, c);
      }
    }
  }

  // ----- statements that cannot leak -----

  /** What decides about s is no flagged `or_break` value and not left by a break, as far as the
      syntax tells, that names an enclosing block, `if` or switch or is aimed at an endless loop or
      a switch from where the scan does not look. What does not decide may be anything. */
  ghost predicate Tight(s: Stmt)
    decreases s, 0
  {
    match s
    case VarDecl(exprs) => exprs.flagged == {}
    case Assign(exprs) => exprs.flagged == {}
    case Block(lab, stmts) => TightList(stmts) && !(lab != NO_LABEL && EscapesList(stmts, Broke(lab), true))
    case If(lab, header, body, hasElse, elseStmt) =>
      && Tight(body) && (hasElse ==> Tight(elseStmt))
      && !(lab != NO_LABEL && (lab in header.Targets() || Escapes(body, Broke(lab), true)))
      && !(lab != NO_LABEL && hasElse && Escapes(elseStmt, Broke(lab), true))
    case When(_, body, hasElse, elseStmt) => Tight(body) && (hasElse ==> Tight(elseStmt))
    case For(lab, header, _, body) =>
      forall target | target in {NO_LABEL, lab} :: target !in header.Targets() && !OnlyUnseen(body, target)
    case Switch(lab, _, clauses) => TightSwitch(lab, clauses)
    case TypeSwitch(lab, _, clauses) => TightSwitch(lab, clauses)
    case _ => true
  }

  ghost predicate TightList(stmts: seq<Stmt>)
    decreases stmts, 0
  {
    stmts == [] ||
    var last := |stmts| - 1;
    if Skipped(stmts[last]) then TightList(stmts[..last]) else Tight(stmts[last])
  }

  ghost predicate TightSwitch(lab: Label, clauses: seq<Clause>)
    decreases clauses, 1
  {
    && (forall i | 0 <= i < |clauses| :: TightList(clauses[i].stmts) && !OnlyUnseenInList(clauses[i].stmts, NO_LABEL))
    && (clauses != [] ==> !EscapesList(clauses[|clauses| - 1].stmts, FellThrough, true))
    && !(lab != NO_LABEL && EscapesClauses(clauses, Broke(lab), true))
  }

  /** No run of an accepted, tight statement completes normally. */
  lemma AcceptedNeverCompletes(s: Stmt, lab: Label, n: nat)
    requires Tight(s) && IsTerminating(s, lab)
    ensures !Runs(s, Normal, n)
  {
    TightDoesNotLeak(s);
    AcceptedLeaksExactly(s, lab);
    if Runs(s, Normal, n) {
      RunEnds(s, Normal, n);
    }
  }

  lemma {:induction false} TightDoesNotLeak(s: Stmt)
    requires Tight(s)
    ensures !Leaks(s)
    decreases s, 0
  {
    match s {
      case Block(own, stmts) =>
        TightListDoesNotLeak(stmts);
        NoBreakToList(stmts, own);
      case If(own, _, body, hasElse, elseStmt) =>
        TightDoesNotLeak(body);
        NoBreakTo(body, own);
        if hasElse {
          TightDoesNotLeak(elseStmt);
          NoBreakTo(elseStmt, own);
        }
      case When(cond, body, hasElse, elseStmt) =>
        TightDoesNotLeak(body);
        if hasElse { TightDoesNotLeak(elseStmt); }
      case Switch(own, _, clauses) => TightSwitchDoesNotLeak(own, clauses);
      case TypeSwitch(own, _, clauses) => TightSwitchDoesNotLeak(own, clauses);
      case _ =>
    }
  }

  lemma {:induction false} TightListDoesNotLeak(stmts: seq<Stmt>)
    requires TightList(stmts)
    ensures !LeaksList(stmts)
    decreases stmts, 0
  {
    if stmts != [] {
      var last := |stmts| - 1;
      if Skipped(stmts[last]) {
        TightListDoesNotLeak(stmts[..last]);
      } else {
        TightDoesNotLeak(stmts[last]);
      }
    }
  }

  lemma {:induction false} TightSwitchDoesNotLeak(own: Label, clauses: seq<Clause>)
    requires TightSwitch(own, clauses)
    ensures !LeaksSwitch(own, clauses)
    decreases clauses, 0
  {
    forall i | 0 <= i < |clauses| ensures !LeaksClause(own, clauses[i]) {
      TightListDoesNotLeak(clauses[i].stmts);
      NoBreakToList(clauses[i].stmts, own);
    }
    if LastFallsThrough(clauses) {
      JumpEscapesList(clauses[|clauses| - 1].stmts, FellThrough);
    }
  }

  lemma NoBreakTo(s: Stmt, own: Label)
    requires own != NO_LABEL ==> !Escapes(s, Broke(own), true)
    ensures own != NO_LABEL ==> !Ends(s, Broke(own))
  {
    if own != NO_LABEL && Ends(s, Broke(own)) { JumpEscapes(s, Broke(own)); }
  }

  lemma NoBreakToList(stmts: seq<Stmt>, own: Label)
    requires own != NO_LABEL ==> !EscapesList(stmts, Broke(own), true)
    ensures own != NO_LABEL ==> !EndsList(stmts, Broke(own))
  {
    if own != NO_LABEL && EndsList(stmts, Broke(own)) { JumpEscapesList(stmts, Broke(own)); }
  }

  // ----- exactness of the break scan -----

  /** No statement inside s carries the label: labels in scope are distinct. */
  predicate Unlabelled(s: Stmt, lab: Label)
    decreases s
  {
    match s
    case Block(own, stmts) => own != lab && forall i | 0 <= i < |stmts| :: Unlabelled(stmts[i], lab)
    case If(own, _, body, hasElse, elseStmt) =>
      own != lab && Unlabelled(body, lab) && (hasElse ==> Unlabelled(elseStmt, lab))
    case For(own, _, _, body) => own != lab && Unlabelled(body, lab)
    case Range(own, _, body) => own != lab && Unlabelled(body, lab)
    case Switch(own, _, clauses) =>
      own != lab && forall i, j | 0 <= i < |clauses| && 0 <= j < |clauses[i].stmts| :: Unlabelled(clauses[i].stmts[j], lab)
    case TypeSwitch(own, _, clauses) =>
      own != lab && forall i, j | 0 <= i < |clauses| && 0 <= j < |clauses[i].stmts| :: Unlabelled(clauses[i].stmts[j], lab)
    case _ => true
  }

  /** The scan comes across a flagged `or_break`, whatever it breaks out of; `deep` tells whether
      it goes into inner loops and switches. */
  predicate MeetsOrBreak(s: Stmt, deep: bool)
    decreases s, 0
  {
    match s
    case VarDecl(exprs) => exprs.flagged != {}
    case Assign(exprs) => exprs.flagged != {}
    case ExprStmt(exprs) => exprs.flagged != {}
    case DivergingCall(exprs) => exprs.flagged != {}
    case Block(_, stmts) => MeetsOrBreakInList(stmts, deep)
    case If(_, header, body, hasElse, elseStmt) =>
      header.flagged != {} || MeetsOrBreak(body, deep) || (hasElse && MeetsOrBreak(elseStmt, deep))
    case For(_, header, _, body) => header.flagged != {} || (deep && MeetsOrBreak(body, deep))
    case Range(_, _, body) => deep && MeetsOrBreak(body, deep)
    case Switch(_, _, clauses) => deep && exists i | 0 <= i < |clauses| :: MeetsOrBreakInList(clauses[i].stmts, deep)
    case TypeSwitch(_, _, clauses) => deep && exists i | 0 <= i < |clauses| :: MeetsOrBreakInList(clauses[i].stmts, deep)
    case _ => false
  }

  predicate MeetsOrBreakInList(stmts: seq<Stmt>, deep: bool)
    decreases stmts, 0
  {
    exists i | 0 <= i < |stmts| :: MeetsOrBreak(stmts[i], deep)
  }

  /** Under a label the scan answers yes precisely when a break to that label can leave the
      statement from a place it looks at, or it meets any `or_break`. */
  lemma {:induction false} LabelledScanExact(s: Stmt, lab: Label)
    requires lab != NO_LABEL && Unlabelled(s, lab)
    ensures HasBreak(s, lab, false) <==> Escapes(s, Broke(lab), false) || MeetsOrBreak(s, true)
    decreases s
  {
    match s {
      case Block(_, stmts) => LabelledScanOfListExact(stmts, lab);
      case If(_, _, body, hasElse, elseStmt) =>
        LabelledScanExact(body, lab);
        if hasElse { LabelledScanExact(elseStmt, lab); }
      case For(own, header, _, body) =>
        LabelledScanExact(body, lab);
        assert EscapesLoop(own, header, body, Broke(lab), false) == (lab in header.flagged || Escapes(body, Broke(lab), false));
      case Range(own, _, body) =>
        LabelledScanExact(body, lab);
        assert EscapesLoop(own, PLAIN, body, Broke(lab), false) == Escapes(body, Broke(lab), false);
      case Switch(own, _, clauses) => LabelledScanOfClausesExact(own, clauses, lab);
      case TypeSwitch(own, _, clauses) => LabelledScanOfClausesExact(own, clauses, lab);
      case _ =>
    }
  }

  lemma {:induction false} LabelledScanOfClausesExact(own: Label, clauses: seq<Clause>, lab: Label)
    requires lab != NO_LABEL && own != lab
    requires forall i, j | 0 <= i < |clauses| && 0 <= j < |clauses[i].stmts| :: Unlabelled(clauses[i].stmts[j], lab)
    ensures HasBreakClauses(clauses, lab, false) <==>
            EscapesSwitch(own, clauses, Broke(lab), false) || exists i | 0 <= i < |clauses| :: MeetsOrBreakInList(clauses[i].stmts, true)
    decreases clauses
  {
    forall i | 0 <= i < |clauses| { LabelledScanOfListExact(clauses[i].stmts, lab); }
  }

  lemma {:induction false} LabelledScanOfListExact(stmts: seq<Stmt>, lab: Label)
    requires lab != NO_LABEL && forall i | 0 <= i < |stmts| :: Unlabelled(stmts[i], lab)
    ensures HasBreakList(stmts, lab, false) <==> EscapesList(stmts, Broke(lab), false) || MeetsOrBreakInList(stmts, true)
    decreases stmts
  {
    forall i | 0 <= i < |stmts| { LabelledScanExact(stmts[i], lab); }
  }

  /** Without a label, the scan is likewise exact for breaks that carry none. */
  lemma {:induction false} UnlabelledScanExact(s: Stmt)
    ensures HasBreak(s, NO_LABEL, true) <==> Escapes(s, Broke(NO_LABEL), false) || MeetsOrBreak(s, false)
    decreases s
  {
    match s {
      case Block(_, stmts) => UnlabelledScanOfListExact(stmts);
      case If(_, _, body, hasElse, elseStmt) =>
        UnlabelledScanExact(body);
        if hasElse { UnlabelledScanExact(elseStmt); }
      case For(own, header, _, body) => assert !EscapesLoop(own, header, body, Broke(NO_LABEL), false);
      case Range(own, _, body) => assert !EscapesLoop(own, PLAIN, body, Broke(NO_LABEL), false);
      case Switch(own, _, clauses) => assert !EscapesSwitch(own, clauses, Broke(NO_LABEL), false);
      case TypeSwitch(own, _, clauses) => assert !EscapesSwitch(own, clauses, Broke(NO_LABEL), false);
      case _ =>
    }
  }

  lemma {:induction false} UnlabelledScanOfListExact(stmts: seq<Stmt>)
    ensures HasBreakList(stmts, NO_LABEL, true) <==>
            EscapesList(stmts, Broke(NO_LABEL), false) || MeetsOrBreakInList(stmts, false)
    decreases stmts
  {
    forall i | 0 <= i < |stmts| { UnlabelledScanExact(stmts[i]); }
  }

  /** A loop without a condition is accepted precisely when, in the places the scans look at, no
      break aimed at it can leave its body and they meet no `or_break`. */
  lemma EndlessLoopAcceptedExactly(lab: Label, header: Exprs, body: Stmt)
    requires lab != NO_LABEL ==> Unlabelled(body, lab)
    ensures IsTerminating(For(lab, header, false, body), NO_LABEL) <==>
            && !Escapes(body, Broke(NO_LABEL), false) && !MeetsOrBreak(body, lab != NO_LABEL)
            && (lab != NO_LABEL ==> !Escapes(body, Broke(lab), false))
  {
    UnlabelledScanExact(body);
    if lab != NO_LABEL {
      LabelledScanExact(body, lab);
      ShallowIsDeep(body);
    }
  }

  lemma {:induction false} ShallowIsDeep(s: Stmt)
    ensures MeetsOrBreak(s, false) ==> MeetsOrBreak(s, true)
    decreases s
  {
    match s {
      case Block(_, stmts) => ShallowListIsDeep(stmts);
      case If(_, _, body, hasElse, elseStmt) =>
        ShallowIsDeep(body);
        if hasElse { ShallowIsDeep(elseStmt); }
      case _ =>
    }
  }

  lemma {:induction false} ShallowListIsDeep(stmts: seq<Stmt>)
    ensures MeetsOrBreakInList(stmts, false) ==> MeetsOrBreakInList(stmts, true)
    decreases stmts
  {
    forall i | 0 <= i < |stmts| { ShallowIsDeep(stmts[i]); }
  }

  // ----- each leak at its smallest -----

  ghost predicate AcceptedYetCompletes(s: Stmt) {
    IsTerminating(s, NO_LABEL) && CanEnd(s, Normal)
  }

  /** `if c { break L }`, then `return`. */
  function MaybeBreak(lab: Label): seq<Stmt> {
    [If(NO_LABEL, PLAIN, Break(lab), false, Empty), Return(PLAIN)]
  }

  lemma MaybeBreakAccepted(own: Label, lab: Label)
    requires lab != NO_LABEL
    ensures IsTerminatingList(MaybeBreak(lab), own) && !HasBreakList(MaybeBreak(lab), NO_LABEL, true)
    ensures EndsList(MaybeBreak(lab), Broke(lab))
  {
    var stmts := MaybeBreak(lab);
    assert !HasBreak(Break(lab), NO_LABEL, true);
    assert forall i | 0 <= i < |stmts| :: !HasBreak(stmts[i], NO_LABEL, true);
    assert IsTerminating(Return(PLAIN), own);
    assert Ends(Break(lab), Broke(lab)) && Broke(lab) == LeaveLabelled(NO_LABEL, Broke(lab));
    assert Ends(stmts[0], Broke(lab)) && Passes(stmts, 0);
  }

  /** A break out of a labelled block is not looked for. */
  lemma LabelledBlockIsUnsound(lab: Label)
    requires lab != NO_LABEL
    ensures AcceptedYetCompletes(Block(lab, MaybeBreak(lab)))
  {
    MaybeBreakAccepted(NO_LABEL, lab);
    MaybeBreakAccepted(lab, lab);
    AcceptedCompletesExactly(Block(lab, MaybeBreak(lab)), NO_LABEL);
  }

  /** Nor is one out of a labelled `if`. */
  lemma LabelledIfIsUnsound(lab: Label)
    requires lab != NO_LABEL
    ensures AcceptedYetCompletes(If(lab, PLAIN, Block(NO_LABEL, MaybeBreak(lab)), true, Return(PLAIN)))
  {
    MaybeBreakAccepted(NO_LABEL, lab);
    var body := Block(NO_LABEL, MaybeBreak(lab));
    assert Broke(lab) == LeaveLabelled(NO_LABEL, Broke(lab));
    assert Ends(body, Broke(lab));
    AcceptedCompletesExactly(If(lab, PLAIN, body, true, Return(PLAIN)), NO_LABEL);
  }

  /** Nor is one out of a labelled switch. */
  lemma LabelledSwitchIsUnsound(lab: Label)
    requires lab != NO_LABEL
    ensures AcceptedYetCompletes(Switch(lab, PLAIN, [Clause(true, MaybeBreak(lab))]))
  {
    MaybeBreakAccepted(NO_LABEL, lab);
    var clauses := [Clause(true, MaybeBreak(lab))];
    assert clauses[0].isDefault && LeaksClause(lab, clauses[0]);
    AcceptedCompletesExactly(Switch(lab, PLAIN, clauses), NO_LABEL);
  }

  /** A loop that a break leaves from where the scan does not look is accepted. */
  lemma UnseenBreakIsUnsound(body: Stmt)
    requires Ends(body, Broke(NO_LABEL)) && !HasBreak(body, NO_LABEL, true)
    ensures AcceptedYetCompletes(For(NO_LABEL, PLAIN, false, body))
  {
    EndlessLoopLeaksExactly(NO_LABEL, PLAIN, body, NO_LABEL);
    assert Normal == LeaveBreakable(NO_LABEL, Broke(NO_LABEL));
    AcceptedCompletesExactly(For(NO_LABEL, PLAIN, false, body), NO_LABEL);
  }

  /** An `or_break` without a label, flagged. */
  const BREAKING := Exprs({NO_LABEL}, {})

  /** So it is for a break inside a `when`, and for an `or_break` in a returned value, a switch tag
      or a range. */
  lemma UnseenPlaces()
    ensures AcceptedYetCompletes(For(NO_LABEL, PLAIN, false, When(ConstantBool(true), Break(NO_LABEL), false, Empty)))
    ensures AcceptedYetCompletes(For(NO_LABEL, PLAIN, false, Return(BREAKING)))
    ensures AcceptedYetCompletes(For(NO_LABEL, PLAIN, false, Switch(NO_LABEL, BREAKING, [])))
    ensures AcceptedYetCompletes(For(NO_LABEL, PLAIN, false, Range(NO_LABEL, BREAKING, Empty)))
  {
    assert Ends(When(ConstantBool(true), Break(NO_LABEL), false, Empty), Broke(NO_LABEL));
    UnseenBreakIsUnsound(When(ConstantBool(true), Break(NO_LABEL), false, Empty));
    UnseenBreakIsUnsound(Return(BREAKING));
    UnseenBreakIsUnsound(Switch(NO_LABEL, BREAKING, []));
    UnseenBreakIsUnsound(Range(NO_LABEL, BREAKING, Empty));
  }

  /** And for a break inside an `#unroll`, which has to name the loop. */
  lemma BreakInUnrollIsUnsound(lab: Label)
    requires lab != NO_LABEL
    ensures AcceptedYetCompletes(For(lab, PLAIN, false, Unroll(1, Break(lab))))
  {
    var body := Unroll(1, Break(lab));
    assert Ends(Break(lab), Broke(lab)) && Ends(body, Broke(lab)) && Escapes(Break(lab), Broke(lab), true);
    assert OnlyUnseen(body, lab) && lab in {NO_LABEL, lab};
    assert !HasBreak(body, NO_LABEL, true) && !HasBreak(body, lab, false);
    AcceptedCompletesExactly(For(lab, PLAIN, false, body), NO_LABEL);
  }

  /** A block that ends in a `return` or a diverging call whose value or argument may break out of
      it is accepted. */
  lemma BreakingReturnIsUnsound(lab: Label)
    requires lab != NO_LABEL
    ensures AcceptedYetCompletes(Block(lab, [Return(Exprs({lab}, {}))]))
    ensures AcceptedYetCompletes(Block(lab, [DivergingCall(Exprs({lab}, {}))]))
  {
    var exprs := Exprs({lab}, {});
    var ret, call := [Return(exprs)], [DivergingCall(exprs)];
    assert IsTerminating(ret[0], NO_LABEL) && IsTerminating(ret[0], lab);
    assert Passes(ret, 0) && Passes(call, 0) && Ends(ret[0], Broke(lab)) && Ends(call[0], Broke(lab));
    AcceptedCompletesExactly(Block(lab, ret), NO_LABEL);
    AcceptedCompletesExactly(Block(lab, call), NO_LABEL);
  }

  /** A final declaration or assignment whose value may break out of the block is accepted, and
      completes whenever it does not break. */
  lemma OrBreakValueIsUnsound(lab: Label)
    requires lab != NO_LABEL
    ensures AcceptedYetCompletes(Block(lab, [VarDecl(Exprs({lab}, {}))]))
    ensures AcceptedYetCompletes(Block(lab, [Assign(Exprs({lab}, {}))]))
  {
    var decl, assign := [VarDecl(Exprs({lab}, {}))], [Assign(Exprs({lab}, {}))];
    assert IsTerminating(decl[0], NO_LABEL) && IsTerminating(decl[0], lab);
    assert IsTerminating(assign[0], NO_LABEL) && IsTerminating(assign[0], lab);
    assert Leaks(decl[0]) && Leaks(assign[0]);
    AcceptedCompletesExactly(Block(lab, decl), NO_LABEL);
    AcceptedCompletesExactly(Block(lab, assign), NO_LABEL);
  }

  /** An `or_break` in the init statement of an endless loop leaves the loop, and is not looked for. */
  lemma BreakingInitIsUnsound(lab: Label, body: Stmt)
    requires lab != NO_LABEL && !HasBreak(body, NO_LABEL, true) && !HasBreak(body, lab, false)
    ensures AcceptedYetCompletes(For(lab, Exprs({lab}, {}), false, body))
  {
    var header := Exprs({lab}, {});
    assert lab in {NO_LABEL, lab} && lab in header.Targets();
    AcceptedCompletesExactly(For(lab, header, false, body), NO_LABEL);
  }
}
