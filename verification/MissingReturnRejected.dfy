/** What the "missing return" analysis rejects: statements without dead code that it rejects have
    a run that completes normally or jumps. */
module RejectedBodies {
  import opened Statements
  import opened StatementRuns
  import opened Terminating
  import opened MissingReturn

  /** Statements that do nothing at run time. */
  predicate Inert(s: Stmt) { s.Empty? || s.ConstDecl? }

  // ----- breaks that are met can be taken -----

  /** A break that the scan looks for: an unlabelled one when breaks are implicit, or one to the label. */
  predicate LookedFor(target: Label, lab: Label, implicit: bool) {
    if target == NO_LABEL then implicit else target == lab
  }

  predicate ExprsFlow(exprs: Exprs, lab: Label, implicit: bool) {
    exprs.flagged != {} ==> (implicit && NO_LABEL in exprs.flagged) || (lab != NO_LABEL && lab in exprs.flagged)
  }

  /** Every break that the scan of s meets can be reached and leaves s: no statement is dead, no
      `or_break` there is aimed elsewhere, and labels are distinct. */
  ghost predicate Flows(s: Stmt, lab: Label, implicit: bool)
    decreases s, 0
  {
    match s
    case VarDecl(exprs) => ExprsFlow(exprs, lab, implicit)
    case Assign(exprs) => ExprsFlow(exprs, lab, implicit)
    case ExprStmt(exprs) => ExprsFlow(exprs, lab, implicit)
    case DivergingCall(exprs) => ExprsFlow(exprs, lab, implicit)
    case Block(own, stmts) => !Aimed(own, lab) && FlowsList(stmts, lab, implicit)
    case If(own, header, body, hasElse, elseStmt) =>
      && !Aimed(own, lab) && ExprsFlow(header, lab, implicit)
      && Flows(body, lab, implicit) && (hasElse ==> Flows(elseStmt, lab, implicit))
    case For(own, header, _, body) => !Aimed(own, lab) && ExprsFlow(header, lab, false) && (lab != NO_LABEL ==> Flows(body, lab, false))
    case Range(own, _, body) => lab != NO_LABEL ==> !Aimed(own, lab) && Flows(body, lab, false)
    case Switch(own, _, clauses) => lab != NO_LABEL ==> !Aimed(own, lab) && FlowsClauses(clauses, lab, false)
    case TypeSwitch(own, _, clauses) => lab != NO_LABEL ==> !Aimed(own, lab) && FlowsClauses(clauses, lab, false)
    case _ => true
  }

  ghost predicate FlowsList(stmts: seq<Stmt>, lab: Label, implicit: bool)
    decreases stmts, 0
  {
    forall i | 0 <= i < |stmts| :: Flows(stmts[i], lab, implicit) && (Inert(stmts[i]) || Passes(stmts, i))
  }

  ghost predicate FlowsClauses(clauses: seq<Clause>, lab: Label, implicit: bool)
    decreases clauses, 0
  {
    forall i | 0 <= i < |clauses| :: FlowsList(clauses[i].stmts, lab, implicit)
  }

  /** Some run leaves s by a break that the scan looks for. */
  ghost predicate BreaksOut(s: Stmt, lab: Label, implicit: bool) {
    exists target :: LookedFor(target, lab, implicit) && Ends(s, Broke(target))
  }

  ghost predicate BreaksOutOfList(stmts: seq<Stmt>, lab: Label, implicit: bool) {
    exists target :: LookedFor(target, lab, implicit) && EndsList(stmts, Broke(target))
  }

  lemma ExprsBreakOut(exprs: Exprs, lab: Label, implicit: bool) returns (target: Label)
    requires ExprsFlow(exprs, lab, implicit) && exprs.flagged != {}
    ensures LookedFor(target, lab, implicit) && Breaks(exprs, Broke(target))
  {
    target := if implicit && NO_LABEL in exprs.flagged then NO_LABEL else lab;
  }

  /** Where every break that is met can be taken, the scan answers yes only if some run does leave
      by a break it looks for. */
  lemma {:induction false} SeenBreakIsTaken(s: Stmt, lab: Label, implicit: bool)
    requires Flows(s, lab, implicit) && HasBreak(s, lab, implicit)
    ensures BreaksOut(s, lab, implicit)
    decreases s, 0
  {
    match s {
      case VarDecl(exprs) => var target := ExprsBreakOut(exprs, lab, implicit);
      case Assign(exprs) => var target := ExprsBreakOut(exprs, lab, implicit);
      case ExprStmt(exprs) => var target := ExprsBreakOut(exprs, lab, implicit);
      case DivergingCall(exprs) => var target := ExprsBreakOut(exprs, lab, implicit);
      case Break(target) => assert LookedFor(target, lab, implicit) && Ends(s, Broke(target));
      case Block(own, stmts) =>
        SeenBreakInListIsTaken(stmts, lab, implicit);
        var target :| LookedFor(target, lab, implicit) && EndsList(stmts, Broke(target));
        assert Broke(target) == LeaveLabelled(own, Broke(target));
      case If(own, header, body, hasElse, elseStmt) =>
        var target;
        if header.flagged != {} {
          target := ExprsBreakOut(header, lab, implicit);
        } else if HasBreak(body, lab, implicit) {
          SeenBreakIsTaken(body, lab, implicit);
          target :| LookedFor(target, lab, implicit) && Ends(body, Broke(target));
        } else {
          SeenBreakIsTaken(elseStmt, lab, implicit);
          target :| LookedFor(target, lab, implicit) && Ends(elseStmt, Broke(target));
        }
        assert Broke(target) == LeaveLabelled(own, Broke(target));
        assert Ends(s, Broke(target));
      case For(own, header, hasCond, body) =>
        assert lab != NO_LABEL && Broke(lab) == LeaveBreakable(own, Broke(lab)) && !StartsNextIteration(own, Broke(lab));
        if header.flagged != {} {
          assert Breaks(header, Broke(lab));
        } else {
          SeenLabelIsTaken(body, lab);
        }
        assert LookedFor(lab, lab, implicit) && Ends(s, Broke(lab));
      case Range(own, _, body) =>
        assert Broke(lab) == LeaveBreakable(own, Broke(lab)) && !StartsNextIteration(own, Broke(lab));
        SeenLabelIsTaken(body, lab);
        assert LookedFor(lab, lab, implicit) && Ends(s, Broke(lab));
      case Switch(own, _, clauses) =>
        SeenBreakInSwitchIsTaken(own, clauses, lab);
        assert LookedFor(lab, lab, implicit) && Ends(s, Broke(lab));
      case TypeSwitch(own, _, clauses) =>
        SeenBreakInSwitchIsTaken(own, clauses, lab);
        assert LookedFor(lab, lab, implicit) && Ends(s, Broke(lab));
    }
  }

  lemma {:induction false} SeenLabelIsTaken(s: Stmt, lab: Label)
    requires lab != NO_LABEL && Flows(s, lab, false) && HasBreak(s, lab, false)
    ensures Ends(s, Broke(lab))
    decreases s, 1
  {
    SeenBreakIsTaken(s, lab, false);
  }

  lemma {:induction false} SeenBreakInSwitchIsTaken(own: Label, clauses: seq<Clause>, lab: Label)
    requires lab != NO_LABEL && !Aimed(own, lab)
    requires FlowsClauses(clauses, lab, false) && HasBreakClauses(clauses, lab, false)
    ensures EndsSwitch(own, clauses, Broke(lab))
    decreases clauses, 1
  {
    var i :| 0 <= i < |clauses| && HasBreakList(clauses[i].stmts, lab, false);
    SeenBreakInListIsTaken(clauses[i].stmts, lab, false);
    assert Broke(lab) == LeaveBreakable(own, Broke(lab)) && EndsList(clauses[i].stmts, Broke(lab));
  }

  lemma {:induction false} SeenBreakInListIsTaken(stmts: seq<Stmt>, lab: Label, implicit: bool)
    requires FlowsList(stmts, lab, implicit) && HasBreakList(stmts, lab, implicit)
    ensures BreaksOutOfList(stmts, lab, implicit)
    decreases stmts, 0
  {
    var i :| 0 <= i < |stmts| && HasBreak(stmts[i], lab, implicit);
    SeenBreakIsTaken(stmts[i], lab, implicit);
    var target :| LookedFor(target, lab, implicit) && Ends(stmts[i], Broke(target));
    assert EndsList(stmts, Broke(target));
  }

  // ----- what is rejected completes or jumps -----

  /** The statement that decides can be reached, a `when` in its place has a condition that can be
      decided, and breaks that a scan meets can be taken. A diverging call decides only in a list, and
      what an `#unroll` does is not looked into. */
  ghost predicate InOrder(s: Stmt, lab: Label)
    decreases s, 0
  {
    match s
    case DivergingCall(_) => false
    case Block(own, stmts) => InOrderList(stmts, lab) && (own != NO_LABEL ==> InOrderList(stmts, own))
    case If(_, _, body, hasElse, elseStmt) => InOrder(body, lab) && (hasElse ==> InOrder(elseStmt, lab))
    case When(cond, body, hasElse, elseStmt) =>
      && cond != ConstantOther
      && (cond != ConstantBool(false) ==> InOrder(body, lab))
      && (cond != ConstantBool(true) && hasElse ==> InOrder(elseStmt, lab))
    case For(own, _, hasCond, body) => hasCond || (Flows(body, lab, true) && (own != NO_LABEL ==> Flows(body, own, false)))
    case Unroll(times, _) => times == 0
    case Switch(_, _, clauses) => InOrderClauses(clauses, lab)
    case TypeSwitch(_, _, clauses) => InOrderClauses(clauses, lab)
    case _ => true
  }

  ghost predicate InOrderList(stmts: seq<Stmt>, lab: Label)
    decreases stmts, 0
  {
    stmts == [] ||
    var last := |stmts| - 1;
    if Inert(stmts[last]) then InOrderList(stmts[..last], lab)
    else Passes(stmts, last) && (stmts[last].DivergingCall? || InOrder(stmts[last], lab))
  }

  ghost predicate InOrderClauses(clauses: seq<Clause>, lab: Label)
    decreases clauses, 0
  {
    forall i | 0 <= i < |clauses| :: InOrderList(clauses[i].stmts, lab) && FlowsList(clauses[i].stmts, lab, true)
  }

  /** No run gets past s or leaves it for a place in the procedure, except for the next clause. */
  ghost predicate Settles(s: Stmt) { forall c | Ends(s, c) :: Settled(c) }

  ghost predicate SettlesList(stmts: seq<Stmt>) { forall c | EndsList(stmts, c) :: Settled(c) }

  predicate Settled(c: Completion) { c.Returned? || c.Diverged? || c.FellThrough? }

  /** What is in order and settles is accepted. */
  lemma {:induction false} SettlingIsAccepted(s: Stmt, lab: Label)
    requires InOrder(s, lab) && Settles(s)
    ensures IsTerminating(s, lab)
    decreases s, 0
  {
    match s {
      case Block(own, stmts) =>
        forall c | EndsList(stmts, c) ensures Settled(c) {
          assert Ends(s, LeaveLabelled(own, c));
        }
        SettlingListIsAccepted(stmts, lab);
        if own != NO_LABEL { SettlingListIsAccepted(stmts, own); }
      case If(own, header, body, hasElse, elseStmt) => SettlingIfIsAccepted(s, lab);
      case When(cond, body, hasElse, elseStmt) =>
        assert !Ends(s, Normal);
        if cond != ConstantBool(false) {
          assert Settles(body);
          SettlingIsAccepted(body, lab);
        }
        if cond != ConstantBool(true) {
          assert Settles(elseStmt);
          SettlingIsAccepted(elseStmt, lab);
        }
      case For(own, header, hasCond, body) => SettlingLoopIsAccepted(own, header, hasCond, body, lab);
      case Switch(own, _, clauses) => SettlingSwitchIsAccepted(own, clauses, lab);
      case TypeSwitch(own, _, clauses) => SettlingSwitchIsAccepted(own, clauses, lab);
      case Return(_) =>
      case Fallthrough =>
      case DivergingCall(_) =>
      case _ => GoesOn(s);
    }
  }

  /** Simple statements, range loops and loops unrolled to nothing can complete normally or jump. */
  lemma GoesOn(s: Stmt)
    requires !s.Return? && !s.Fallthrough? && !s.DivergingCall? && !s.Block? && !s.If? && !s.When? && !s.For?
    requires !s.Switch? && !s.TypeSwitch? && (s.Unroll? ==> s.times == 0)
    ensures !Settles(s)
  {
    var c := match s
      case Break(target) => Broke(target)
      case Continue(target) => Continued(target)
      case _ => Normal;
    assert Ends(s, c) && !Settled(c);
  }

  lemma {:induction false} SettlingIfIsAccepted(s: Stmt, lab: Label)
    requires s.If? && InOrder(s, lab) && Settles(s)
    ensures IsTerminating(s, lab)
    decreases s, -1
  {
    assert !Ends(s, Normal);
    forall c | Ends(s.body, c) ensures Settled(c) {
      assert Ends(s, LeaveLabelled(s.lab, c));
    }
    forall c | s.hasElse && Ends(s.elseStmt, c) ensures Settled(c) {
      assert Ends(s, LeaveLabelled(s.lab, c));
    }
    SettlingIsAccepted(s.body, lab);
    SettlingIsAccepted(s.elseStmt, lab);
  }

  lemma SettlingLoopIsAccepted(own: Label, header: Exprs, hasCond: bool, body: Stmt, lab: Label)
    requires InOrder(For(own, header, hasCond, body), lab) && Settles(For(own, header, hasCond, body))
    ensures IsTerminating(For(own, header, hasCond, body), lab)
  {
    var s := For(own, header, hasCond, body);
    assert !hasCond by {
      assert !Ends(s, Normal);
    }
    forall target ensures !Ends(body, Broke(target)) {
      if Ends(body, Broke(target)) {
        assert !StartsNextIteration(own, Broke(target));
        assert Ends(s, LeaveBreakable(own, Broke(target)));
      }
    }
    if HasBreak(body, lab, true) { SeenBreakIsTaken(body, lab, true); }
    if own != NO_LABEL && HasBreak(body, own, false) { SeenBreakIsTaken(body, own, false); }
  }

  lemma {:induction false} SettlingListIsAccepted(stmts: seq<Stmt>, lab: Label)
    requires InOrderList(stmts, lab) && SettlesList(stmts)
    ensures IsTerminatingList(stmts, lab)
    decreases stmts, 0
  {
    assert !EndsList(stmts, Normal);
    var last := |stmts| - 1;
    if Inert(stmts[last]) {
      forall c | EndsList(stmts[..last], c) ensures Settled(c) {
        SkippedAtEnd(stmts, c);
      }
      SettlingListIsAccepted(stmts[..last], lab);
    } else if !stmts[last].DivergingCall? {
      forall c | Ends(stmts[last], c) ensures Settled(c) {
        LastEndsList(stmts, c);
      }
      SettlingIsAccepted(stmts[last], lab);
    }
  }

  /** A list ends as it does without a skipped last statement. */
  lemma SkippedAtEnd(stmts: seq<Stmt>, c: Completion)
    requires stmts != [] && Inert(stmts[|stmts| - 1])
    requires EndsList(stmts[..|stmts| - 1], c)
    ensures EndsList(stmts, c)
  {
    var init := stmts[..|stmts| - 1];
    assert forall i | 0 <= i < |init| :: init[i] == stmts[i];
    if c != Normal {
      var i :| 0 <= i < |init| && Ends(init[i], c) && Passes(init, i);
      assert Ends(stmts[i], c) && Passes(stmts, i);
    } else {
      assert Passes(init, |init|);
      forall i | 0 <= i < |stmts| ensures Ends(stmts[i], Normal) {
        assert i < |init| ==> Ends(init[i], Normal);
      }
    }
  }

  lemma LastEndsList(stmts: seq<Stmt>, c: Completion)
    requires stmts != [] && Passes(stmts, |stmts| - 1) && Ends(stmts[|stmts| - 1], c)
    ensures EndsList(stmts, c)
  {
  }

  lemma {:induction false} SettlingSwitchIsAccepted(own: Label, clauses: seq<Clause>, lab: Label)
    requires InOrderClauses(clauses, lab)
    requires forall c | EndsSwitch(own, clauses, c) :: Settled(c)
    ensures IsTerminatingSwitch(clauses, lab)
    decreases clauses, 0
  {
    assert !EndsSwitch(own, clauses, Normal);
    forall i | 0 <= i < |clauses|
      ensures IsTerminatingList(clauses[i].stmts, lab) && !HasBreakList(clauses[i].stmts, lab, true)
    {
      forall c | EndsList(clauses[i].stmts, c) ensures Settled(c) {
        assert c != FellThrough ==> EndsSwitch(own, clauses, LeaveBreakable(own, c));
      }
      SettlingListIsAccepted(clauses[i].stmts, lab);
      if HasBreakList(clauses[i].stmts, lab, true) {
        SeenBreakInListIsTaken(clauses[i].stmts, lab, true);
      }
    }
  }

  /** A statement in order that is rejected has a run that completes normally or jumps. */
  lemma RejectedCompletesOrJumps(s: Stmt, lab: Label)
    requires InOrder(s, lab) && !IsTerminating(s, lab)
    ensures exists c :: CanEnd(s, c) && !Settled(c)
  {
    if Settles(s) {
      SettlingIsAccepted(s, lab);
    }
    var c :| Ends(s, c) && !Settled(c);
    EndsAreRuns(s, c);
  }

  /** The check on procedure bodies, both ways: for a body in order that no jump leaves, every run
      returns or ends in a diverging call exactly when the body is accepted and does not leak. */
  lemma BodyReturnsExactly(body: Stmt)
    requires InOrder(body, NO_LABEL)
    requires forall jump: Completion | jump.IsJump() :: !Escapes(body, jump, true)
    ensures (forall c | CanEnd(body, c) :: c == Returned || c == Diverged) <==>
            IsTerminating(body, NO_LABEL) && !Leaks(body)
  {
    if IsTerminating(body, NO_LABEL) {
      AcceptedBodyReturns(body);
    } else {
      RejectedCompletesOrJumps(body, NO_LABEL);
    }
  }

  // ----- breaks to the label of a block -----

  /** From a place the scan has a case for, a break to the label can leave an endless loop or a
      switch that decides about s. */
  predicate LeavesDecider(s: Stmt, target: Label)
    decreases s, 0
  {
    match s
    case Block(_, stmts) => LeavesDeciderOfList(stmts, target)
    case If(_, _, body, hasElse, elseStmt) => LeavesDecider(body, target) || (hasElse && LeavesDecider(elseStmt, target))
    case When(cond, body, hasElse, elseStmt) =>
      || (cond != ConstantBool(false) && LeavesDecider(body, target))
      || (cond != ConstantBool(true) && hasElse && LeavesDecider(elseStmt, target))
    case For(_, _, _, body) => Escapes(body, Broke(target), false)
    case Switch(_, _, clauses) => EscapesClauses(clauses, Broke(target), false)
    case TypeSwitch(_, _, clauses) => EscapesClauses(clauses, Broke(target), false)
    case _ => false
  }

  predicate LeavesDeciderOfList(stmts: seq<Stmt>, target: Label)
    decreases stmts, 0
  {
    stmts != [] &&
    var last := |stmts| - 1;
    if Inert(stmts[last]) then LeavesDeciderOfList(stmts[..last], target) else LeavesDecider(stmts[last], target)
  }

  /** A labelled block is accepted only if no break to its label that a scan meets leaves an endless
      loop or a switch that decides about it. */
  lemma AcceptedBlockKeepsDeciders(own: Label, stmts: seq<Stmt>, lab: Label)
    requires own != NO_LABEL && IsTerminating(Block(own, stmts), lab)
    ensures !LeavesDeciderOfList(stmts, own)
  {
    DecidersOfListAreKept(stmts, own);
  }

  lemma {:induction false} DecidersAreKept(s: Stmt, lab: Label)
    requires lab != NO_LABEL && IsTerminating(s, lab)
    ensures !LeavesDecider(s, lab)
    decreases s, 0
  {
    match s {
      case Block(_, stmts) => DecidersOfListAreKept(stmts, lab);
      case If(_, _, body, _, elseStmt) =>
        DecidersAreKept(body, lab);
        DecidersAreKept(elseStmt, lab);
      case When(cond, body, _, elseStmt) =>
        if cond != ConstantBool(false) { DecidersAreKept(body, lab); }
        if cond != ConstantBool(true) { DecidersAreKept(elseStmt, lab); }
      case For(_, _, _, body) =>
        if Escapes(body, Broke(lab), false) { BreakIsSeen(body, lab, lab, true); }
      case Switch(_, _, clauses) => DecidersOfSwitchAreKept(clauses, lab);
      case TypeSwitch(_, _, clauses) => DecidersOfSwitchAreKept(clauses, lab);
      case _ =>
    }
  }

  lemma DecidersOfSwitchAreKept(clauses: seq<Clause>, lab: Label)
    requires lab != NO_LABEL && IsTerminatingSwitch(clauses, lab)
    ensures !EscapesClauses(clauses, Broke(lab), false)
  {
    forall i | 0 <= i < |clauses| ensures !EscapesList(clauses[i].stmts, Broke(lab), false) {
      if EscapesList(clauses[i].stmts, Broke(lab), false) {
        BreakInListIsSeen(clauses[i].stmts, lab, lab, true);
      }
    }
  }

  lemma {:induction false} DecidersOfListAreKept(stmts: seq<Stmt>, lab: Label)
    requires lab != NO_LABEL && IsTerminatingList(stmts, lab)
    ensures !LeavesDeciderOfList(stmts, lab)
    decreases stmts, 0
  {
    var last := |stmts| - 1;
    if Inert(stmts[last]) {
      DecidersOfListAreKept(stmts[..last], lab);
    } else if !stmts[last].DivergingCall? {
      DecidersAreKept(stmts[last], lab);
    }
  }

  // ----- what is not in order may be rejected although it settles -----

  ghost predicate RejectedYetSettles(s: Stmt) {
    !IsTerminating(s, NO_LABEL) && forall c | CanEnd(s, c) :: Settled(c)
  }

  lemma SettlesInRuns(s: Stmt)
    requires Settles(s)
    ensures forall c | CanEnd(s, c) :: Settled(c)
  {
    forall c | CanEnd(s, c) { EndsAreRuns(s, c); }
  }

  /** A dead statement after a `return` decides. */
  lemma DeadStatementDecides(dead: Stmt)
    requires !Inert(dead) && !dead.DivergingCall? && !IsTerminating(dead, NO_LABEL)
    ensures RejectedYetSettles(Block(NO_LABEL, [Return(PLAIN), dead]))
  {
    DeadAfterReturn(dead);
    SettlesInRuns(Block(NO_LABEL, [Return(PLAIN), dead]));
  }

  lemma LoopReturns(body: Stmt)
    requires forall c | Ends(body, c) :: c == Returned
    ensures Settles(For(NO_LABEL, PLAIN, false, body))
  {
    forall c | EndsLoop(NO_LABEL, PLAIN, false, body, c) ensures c == Returned {
      var c1 :| Ends(body, c1) && c == LeaveBreakable(NO_LABEL, c1);
      assert c1 == Returned;
    }
  }

  /** A dead break in an endless loop counts. */
  lemma DeadBreakCounts()
    ensures RejectedYetSettles(For(NO_LABEL, PLAIN, false, Block(NO_LABEL, [Return(PLAIN), Break(NO_LABEL)])))
  {
    var stmts := [Return(PLAIN), Break(NO_LABEL)];
    var body := Block(NO_LABEL, stmts);
    DeadAfterReturn(Break(NO_LABEL));
    assert HasBreak(stmts[1], NO_LABEL, true);
    assert HasBreak(body, NO_LABEL, true);
    LoopReturns(body);
    SettlesInRuns(For(NO_LABEL, PLAIN, false, body));
  }

  /** A diverging call that does not stand in a list, and a `when` whose condition is a constant but
      no boolean, are never accepted. */
  lemma NeverAccepted(body: Stmt, elseStmt: Stmt)
    requires Settles(body) && Settles(elseStmt)
    ensures RejectedYetSettles(DivergingCall(PLAIN))
    ensures RejectedYetSettles(When(ConstantOther, body, true, elseStmt))
  {
    SettlesInRuns(DivergingCall(PLAIN));
    SettlesInRuns(When(ConstantOther, body, true, elseStmt));
  }

  /** An unrolled loop is never accepted. */
  lemma UnrolledReturnIsRejected(times: nat)
    requires times > 0
    ensures RejectedYetSettles(Unroll(times, Return(PLAIN)))
  {
    assert forall c | Ends(Return(PLAIN), c) :: Settled(c);
    SettlesInRuns(Unroll(times, Return(PLAIN)));
  }

  lemma DeadAfterReturn(dead: Stmt)
    ensures forall c | Ends(Block(NO_LABEL, [Return(PLAIN), dead]), c) :: c == Returned
  {
    var stmts := [Return(PLAIN), dead];
    assert !Ends(stmts[0], Normal);
    assert !Passes(stmts, 1) && !Passes(stmts, 2);
    forall c | EndsList(stmts, c) ensures c == Returned {
      assert Ends(stmts[0], c);
    }
  }
}
