/** The statement forms that the "missing return" analysis looks at. */
module Statements {

  type Label = string

  /** The empty string stands for "no label" wherever the analysis passes a label along. */
  const NO_LABEL: Label := ""

  /** The targets of the `or_break`s in the expressions of one statement or header. The flag that
      the analysis looks at is set for the first set only: it is lost, for instance, in compound
      literals and in arguments of built-in procedures. */
  datatype Exprs = Exprs(flagged: set<Label>, hidden: set<Label>) {
    function Targets(): set<Label> { flagged + hidden }
  }

  const PLAIN := Exprs({}, {})

  /** Headers hold the expressions evaluated before the body: the init statement and condition of
      an `if` or `for`, the tag and cases of a switch, what a range loop goes over. */
  datatype Stmt =
    | Empty
    | ConstDecl
    | VarDecl(exprs: Exprs)
    | Assign(exprs: Exprs)
    | ExprStmt(exprs: Exprs)
    | DivergingCall(exprs: Exprs)
    | Return(exprs: Exprs)
    | Break(target: Label)
    | Continue(target: Label)
    | Fallthrough
    | Block(lab: Label, stmts: seq<Stmt>)
    | If(lab: Label, header: Exprs, body: Stmt, hasElse: bool, elseStmt: Stmt)
    | When(cond: WhenCond, body: Stmt, hasElse: bool, elseStmt: Stmt)
    | For(lab: Label, header: Exprs, hasCond: bool, body: Stmt)
    | Range(lab: Label, header: Exprs, body: Stmt)
    | Unroll(times: nat, body: Stmt)
    | Switch(lab: Label, header: Exprs, clauses: seq<Clause>)
    | TypeSwitch(lab: Label, header: Exprs, clauses: seq<Clause>)

  /** A clause without expressions is the default clause. */
  datatype Clause = Clause(isDefault: bool, stmts: seq<Stmt>)

  /** What the checker knows of the condition of a `when`. */
  datatype WhenCond = NotConstant | ConstantBool(value: bool) | ConstantOther
}

/** `check_has_break` and `check_is_terminating`, as they are written: the branching as
    functions, the loops as methods proved against recursive functions on the lists. */
module Terminating {
  import opened Statements

  // ----- check_has_break -----

  predicate HasBreak(s: Stmt, lab: Label, implicit: bool)
    decreases s, 0
  {
    match s
    case Break(target) => if target == NO_LABEL then implicit else target == lab
    case Block(_, stmts) => HasBreakList(stmts, lab, implicit)
    case If(_, header, body, hasElse, elseStmt) =>
      header.flagged != {} || HasBreak(body, lab, implicit) || (hasElse && HasBreak(elseStmt, lab, implicit))
    case For(_, header, _, body) => header.flagged != {} || (lab != NO_LABEL && HasBreak(body, lab, false))
    case Range(_, _, body) => lab != NO_LABEL && HasBreak(body, lab, false)
    case Switch(_, _, clauses) => lab != NO_LABEL && HasBreakClauses(clauses, lab, false)
    case TypeSwitch(_, _, clauses) => lab != NO_LABEL && HasBreakClauses(clauses, lab, false)
    case DivergingCall(exprs) => exprs.flagged != {}
    case ExprStmt(exprs) => exprs.flagged != {}
    case VarDecl(exprs) => exprs.flagged != {}
    case Assign(exprs) => exprs.flagged != {}
    case _ => false
  }

  predicate HasBreakList(stmts: seq<Stmt>, lab: Label, implicit: bool)
    decreases stmts, 0
  {
    exists i | 0 <= i < |stmts| :: HasBreak(stmts[i], lab, implicit)
  }

  predicate HasBreakClauses(clauses: seq<Clause>, lab: Label, implicit: bool)
    decreases clauses, 0
  {
    exists i | 0 <= i < |clauses| :: HasBreakList(clauses[i].stmts, lab, implicit)
  }

  // ----- check_is_terminating -----

  /** Statements the backward scan steps over. */
  predicate Skipped(s: Stmt) { s.Empty? || s.ConstDecl? }

  predicate IsTerminating(s: Stmt, lab: Label)
    decreases s, 0
  {
    match s
    case Return(_) => true
    case Block(blockLabel, stmts) =>
      IsTerminatingList(stmts, lab) && (blockLabel != NO_LABEL ==> IsTerminatingList(stmts, blockLabel))
    case VarDecl(exprs) => exprs.flagged != {}
    case Assign(exprs) => exprs.flagged != {}
    case Fallthrough => true
    case If(_, _, body, hasElse, elseStmt) => hasElse && IsTerminating(body, lab) && IsTerminating(elseStmt, lab)
    case When(cond, body, hasElse, elseStmt) =>
      (match cond
       case NotConstant => hasElse && IsTerminating(body, lab) && IsTerminating(elseStmt, lab)
       case ConstantBool(value) =>
         if value then IsTerminating(body, lab) else hasElse && IsTerminating(elseStmt, lab)
       case ConstantOther => false)
    case For(forLabel, _, hasCond, body) =>
      && !hasCond && !HasBreak(body, lab, true)
      && (forLabel != NO_LABEL ==> !HasBreak(body, forLabel, false))
    case Switch(_, _, clauses) => IsTerminatingSwitch(clauses, lab)
    case TypeSwitch(_, _, clauses) => IsTerminatingSwitch(clauses, lab)
    case _ => false
  }

  /** The last statement that is not skipped decides. */
  predicate IsTerminatingList(stmts: seq<Stmt>, lab: Label)
    decreases stmts, 0
  {
    if stmts == [] then false
    else
      var last := stmts[|stmts| - 1];
      if Skipped(last) then IsTerminatingList(stmts[..|stmts| - 1], lab)
      else last.DivergingCall? || IsTerminating(last, lab)
  }

  predicate IsTerminatingSwitch(clauses: seq<Clause>, lab: Label)
    decreases clauses, 0
  {
    && (exists i | 0 <= i < |clauses| :: clauses[i].isDefault)
    && (forall i | 0 <= i < |clauses| ::
          IsTerminatingList(clauses[i].stmts, lab) && !HasBreakList(clauses[i].stmts, lab, true))
  }

  // ----- the loops -----

  method CheckHasBreakList(stmts: seq<Stmt>, lab: Label, implicit: bool) returns (has: bool)
    ensures has == HasBreakList(stmts, lab, implicit)
    decreases stmts, 0
  {
    for i := 0 to |stmts|
      invariant forall j | 0 <= j < i :: !HasBreak(stmts[j], lab, implicit)
    {
      var here := CheckHasBreak(stmts[i], lab, implicit);
      if here {
        return true;
      }
    }
    return false;
  }

  method CheckHasBreakClauses(clauses: seq<Clause>, lab: Label, implicit: bool) returns (has: bool)
    ensures has == HasBreakClauses(clauses, lab, implicit)
    decreases clauses, 0
  {
    for i := 0 to |clauses|
      invariant forall j | 0 <= j < i :: !HasBreakList(clauses[j].stmts, lab, implicit)
    {
      var here := CheckHasBreakList(clauses[i].stmts, lab, implicit);
      if here {
        return true;
      }
    }
    return false;
  }

  method CheckHasBreak(s: Stmt, lab: Label, implicit: bool) returns (has: bool)
    ensures has == HasBreak(s, lab, implicit)
    decreases s, 0
  {
    match s {
      case Break(target) =>
        has := if target == NO_LABEL then implicit else target == lab;
      case Block(_, stmts) =>
        has := CheckHasBreakList(stmts, lab, implicit);
      case If(_, header, body, hasElse, elseStmt) =>
        if header.flagged != {} {
          return true;
        }
        has := CheckHasBreak(body, lab, implicit);
        if !has && hasElse {
          has := CheckHasBreak(elseStmt, lab, implicit);
        }
      case For(_, header, _, body) =>
        if header.flagged != {} {
          return true;
        }
        has := false;
        if lab != NO_LABEL {
          has := CheckHasBreak(body, lab, false);
        }
      case Range(_, _, body) =>
        has := false;
        if lab != NO_LABEL {
          has := CheckHasBreak(body, lab, false);
        }
      case Switch(_, _, clauses) =>
        has := false;
        if lab != NO_LABEL {
          has := CheckHasBreakClauses(clauses, lab, false);
        }
      case TypeSwitch(_, _, clauses) =>
        has := false;
        if lab != NO_LABEL {
          has := CheckHasBreakClauses(clauses, lab, false);
        }
      case DivergingCall(exprs) => has := exprs.flagged != {};
      case ExprStmt(exprs) => has := exprs.flagged != {};
      case VarDecl(exprs) => has := exprs.flagged != {};
      case Assign(exprs) => has := exprs.flagged != {};
      case _ => has := false;
    }
  }

  method CheckIsTerminatingList(stmts: seq<Stmt>, lab: Label) returns (ok: bool)
    ensures ok == IsTerminatingList(stmts, lab)
    decreases stmts, 0
  {
    var n := |stmts| - 1;
    assert stmts[..n + 1] == stmts;
    while n >= 0
      invariant -1 <= n < |stmts|
      invariant IsTerminatingList(stmts, lab) == IsTerminatingList(stmts[..n + 1], lab)
    {
      var stmt := stmts[n];
      assert stmts[..n + 1][..n] == stmts[..n];
      if Skipped(stmt) {
        // Okay
      } else if stmt.DivergingCall? {
        return true;
      } else {
        ok := CheckIsTerminating(stmt, lab);
        return ok;
      }
      n := n - 1;
    }
    return false;
  }

  method CheckIsTerminatingSwitch(clauses: seq<Clause>, lab: Label) returns (ok: bool)
    ensures ok == IsTerminatingSwitch(clauses, lab)
    decreases clauses, 0
  {
    var hasDefault := false;
    for i := 0 to |clauses|
      invariant hasDefault == exists j | 0 <= j < i :: clauses[j].isDefault
      invariant forall j | 0 <= j < i ::
          IsTerminatingList(clauses[j].stmts, lab) && !HasBreakList(clauses[j].stmts, lab, true)
    {
      var cc := clauses[i];
      if cc.isDefault {
        hasDefault := true;
      }
      var terminating := CheckIsTerminatingList(cc.stmts, lab);
      if !terminating {
        return false;
      }
      var breaks := CheckHasBreakList(cc.stmts, lab, true);
      if breaks {
        return false;
      }
    }
    return hasDefault;
  }

  method CheckIsTerminating(s: Stmt, lab: Label) returns (ok: bool)
    ensures ok == IsTerminating(s, lab)
    decreases s, 0
  {
    match s {
      case Return(_) => ok := true;
      case Block(blockLabel, stmts) =>
        ok := CheckIsTerminatingList(stmts, lab);
        if ok && blockLabel != NO_LABEL {
          ok := CheckIsTerminatingList(stmts, blockLabel);
        }
      case VarDecl(exprs) => ok := exprs.flagged != {};
      case Assign(exprs) => ok := exprs.flagged != {};
      case Fallthrough => ok := true;
      case If(_, _, body, hasElse, elseStmt) =>
        ok := false;
        if hasElse {
          ok := CheckIsTerminating(body, lab);
          if ok {
            ok := CheckIsTerminating(elseStmt, lab);
          }
        }
      case When(cond, body, hasElse, elseStmt) =>
        match cond {
          case NotConstant =>
            ok := false;
            if hasElse {
              ok := CheckIsTerminating(body, lab);
              if ok {
                ok := CheckIsTerminating(elseStmt, lab);
              }
            }
          case ConstantBool(value) =>
            if value {
              ok := CheckIsTerminating(body, lab);
            } else if !hasElse {
              ok := false;
            } else {
              ok := CheckIsTerminating(elseStmt, lab);
            }
          case ConstantOther => ok := false;
        }
      case For(forLabel, _, hasCond, body) =>
        ok := false;
        if !hasCond {
          var breaks := CheckHasBreak(body, lab, true);
          if !breaks {
            ok := true;
            if forLabel != NO_LABEL {
              breaks := CheckHasBreak(body, forLabel, false);
              ok := !breaks;
            }
          }
        }
      case Switch(_, _, clauses) => ok := CheckIsTerminatingSwitch(clauses, lab);
      case TypeSwitch(_, _, clauses) => ok := CheckIsTerminatingSwitch(clauses, lab);
      case _ => ok := false;
    }
  }
}
