/** The folding pass, which overwrites the operands one by one, and what it leaves. */
module ConstFoldPass {
  import opened ConstValues
  import opened ConstEval
  import opened ConstFold
  import opened ConstFoldMeaning

  /** r is e with every subexpression that has a value at the top level, and is in none
      that has one, replaced by that value, and everything else kept. */
  ghost predicate FoldedForm(p: Program, e: Expr, r: Expr, scope: Scope)
    requires Ranked(p)
    decreases e
  {
    match Eval(p, e, scope, [], 0)
    case Value(v) => r == Folded(v)
    case Crash => false
    case Failed =>
      match e
      case Unary(op, a) => r.Unary? && r.op == op && FoldedForm(p, a, r.arg, scope)
      case Binary(op, ty, lhs, rhs) =>
        && r.Binary? && r.bop == op && r.ty == ty
        && FoldedForm(p, lhs, r.lhs, scope) && FoldedForm(p, rhs, r.rhs, scope)
      case Call(f, args) =>
        && r.Call? && r.func == f && |r.args| == |args|
        && forall k :: 0 <= k < |args| ==> FoldedForm(p, args[k], r.args[k], scope)
      case _ => r == e
  }

  /** Evaluation stops the compiler at the expression or, where that is no constant, at
      one of its operands. */
  ghost predicate Stops(p: Program, e: Expr, scope: Scope)
    requires Ranked(p)
    decreases e
  {
    match Eval(p, e, scope, [], 0)
    case Value(_) => false
    case Crash => true
    case Failed =>
      match e
      case Unary(_, a) => Stops(p, a, scope)
      case Binary(_, _, lhs, rhs) => Stops(p, lhs, scope) || Stops(p, rhs, scope)
      case Call(_, args) => exists k | 0 <= k < |args| :: Stops(p, args[k], scope)
      case _ => false
  }

  /** No operand or argument is left that has a value at the top level. */
  ghost predicate NothingLeft(p: Program, r: Expr, scope: Scope)
    requires Ranked(p)
    decreases r
  {
    && (Eval(p, r, scope, [], 0).Value? ==> r.Folded?)
    && match r
       case Unary(_, a) => NothingLeft(p, a, scope)
       case Binary(_, _, lhs, rhs) => NothingLeft(p, lhs, scope) && NothingLeft(p, rhs, scope)
       case Call(_, args) => forall k :: 0 <= k < |args| ==> NothingLeft(p, args[k], scope)
       case _ => true
  }

  // ------------------------------------------------ what the fold function gives

  lemma {:induction false} FoldIsForm(p: Program, e: Expr, scope: Scope)
    requires Ranked(p)
    ensures Fold(p, e, scope, true) == Crash <==> Stops(p, e, scope)
    ensures Fold(p, e, scope, true).Value? ==> FoldedForm(p, e, Fold(p, e, scope, true).value, scope)
    decreases e, 2
  {
    hide Eval, FoldOperands;
    if Eval(p, e, scope, [], 0).Failed? { OperandsAreForms(p, e, scope); }
  }

  lemma {:induction false} OperandsAreForms(p: Program, e: Expr, scope: Scope)
    requires Ranked(p) && Eval(p, e, scope, [], 0).Failed?
    ensures FoldOperands(p, e, scope) == Crash <==> Stops(p, e, scope)
    ensures FoldOperands(p, e, scope).Value? ==> FoldedForm(p, e, FoldOperands(p, e, scope).value, scope)
    decreases e, 1
  {
    hide Eval, Fold, FoldArgs;
    match e {
      case Unary(_, a) => FoldIsForm(p, a, scope);
      case Binary(_, _, lhs, rhs) =>
        FoldIsForm(p, lhs, scope);
        FoldIsForm(p, rhs, scope);
        FoldNeverFails(p, lhs, scope, true);
        FoldNeverFails(p, rhs, scope, true);
      case Call(_, args) => ArgsAreForms(p, e, 0, scope);
      case _ =>
    }
  }

  lemma {:induction false} ArgsAreForms(p: Program, e: Expr, k: nat, scope: Scope)
    requires Ranked(p) && e.Call? && k <= |e.args|
    ensures FoldArgs(p, e, k, scope) != Failed
    ensures FoldArgs(p, e, k, scope) == Crash <==> exists j | k <= j < |e.args| :: Stops(p, e.args[j], scope)
    ensures FoldArgs(p, e, k, scope).Value? ==>
              && |FoldArgs(p, e, k, scope).value| == |e.args| - k
              && forall j :: k <= j < |e.args| ==> FoldedForm(p, e.args[j], FoldArgs(p, e, k, scope).value[j - k], scope)
    decreases e, 0, |e.args| - k
  {
    hide Eval, Fold, FoldedForm, Stops;
    if k < |e.args| {
      FoldIsForm(p, e.args[k], scope);
      FoldNeverFails(p, e.args[k], scope, true);
      ArgsAreForms(p, e, k + 1, scope);
    }
  }

  lemma {:induction false} FoldLeavesNothing(p: Program, e: Expr, scope: Scope)
    requires Ranked(p) && Fold(p, e, scope, true).Value?
    ensures NothingLeft(p, Fold(p, e, scope, true).value, scope)
    decreases e, 1
  {
    hide Eval;
    FoldSame(p, e, scope);
    match e {
      case Unary(_, a) =>
        if Eval(p, e, scope, [], 0).Failed? { FoldLeavesNothing(p, a, scope); }
      case Binary(_, _, lhs, rhs) =>
        if Eval(p, e, scope, [], 0).Failed? {
          FoldLeavesNothing(p, lhs, scope);
          FoldLeavesNothing(p, rhs, scope);
        }
      case Call(_, args) =>
        if Eval(p, e, scope, [], 0).Failed? { ArgsLeaveNothing(p, e, 0, scope); }
      case _ =>
    }
  }

  lemma {:induction false} ArgsLeaveNothing(p: Program, e: Expr, k: nat, scope: Scope)
    requires Ranked(p) && e.Call? && k <= |e.args| && FoldArgs(p, e, k, scope).Value?
    ensures forall j :: 0 <= j < |FoldArgs(p, e, k, scope).value| ==> NothingLeft(p, FoldArgs(p, e, k, scope).value[j], scope)
    decreases e, 0, |e.args| - k
  {
    hide Eval, Fold, NothingLeft;
    if k < |e.args| {
      FoldLeavesNothing(p, e.args[k], scope);
      ArgsLeaveNothing(p, e, k + 1, scope);
    }
  }

  lemma FoldOf(p: Program, e: Expr, scope: Scope, recursive: bool)
    requires Ranked(p)
    ensures match Eval(p, e, scope, [], 0)
            case Value(v) => Fold(p, e, scope, recursive) == Value(Folded(v))
            case Crash => Fold(p, e, scope, recursive) == Crash
            case Failed => Fold(p, e, scope, recursive) == if recursive then FoldOperands(p, e, scope) else Value(e)
    ensures recursive ==> (Fold(p, e, scope, true) == Crash <==> Stops(p, e, scope))
    ensures recursive && Fold(p, e, scope, true) != Crash ==>
              && Fold(p, e, scope, true).Value?
              && FoldedForm(p, e, Fold(p, e, scope, true).value, scope)
              && NothingLeft(p, Fold(p, e, scope, true).value, scope)
  {
    hide Eval, FoldedForm, NothingLeft, Stops;
    if recursive {
      FoldIsForm(p, e, scope);
      FoldNeverFails(p, e, scope, true);
      if Fold(p, e, scope, true).Value? { FoldLeavesNothing(p, e, scope); }
    }
  }

  // -------------------------------------------------------------------- the pass

  /** The folding pass, which overwrites the operands one by one. */
  method ConstFoldExpr(p: Program, e: Expr, scope: Scope, recursive: bool) returns (r: Result<Expr>)
    requires Ranked(p)
    ensures r == Fold(p, e, scope, recursive)
    ensures forall v :: Eval(p, e, scope, [], 0) == Value(v) ==> r == Value(Folded(v))
    ensures !recursive && Eval(p, e, scope, [], 0).Failed? ==> r == Value(e)
    ensures !recursive ==> (r == Crash <==> Eval(p, e, scope, [], 0).Crash?)
    ensures recursive ==> (r == Crash <==> Stops(p, e, scope))
    ensures recursive && r != Crash ==> r.Value? && FoldedForm(p, e, r.value, scope) && NothingLeft(p, r.value, scope)
    decreases e, 1
  {
    hide Eval, FoldedForm, NothingLeft, Stops, Fold;
    FoldOf(p, e, scope, recursive);
    var val := Eval(p, e, scope, [], 0);
    match val {
      case Value(v) => return Value(Folded(v));
      case Crash => return Crash;
      case Failed =>
        if !recursive { return Value(e); }
        r := FoldEachOperand(p, e, scope);
    }
  }

  method FoldEachOperand(p: Program, e: Expr, scope: Scope) returns (r: Result<Expr>)
    requires Ranked(p)
    ensures r == FoldOperands(p, e, scope)
    decreases e, 0
  {
    hide Eval, Fold, FoldArgs;
    match e {
      case Unary(op, a) =>
        var a' := ConstFoldExpr(p, a, scope, true);
        r := match a' case Value(x) => Value(Unary(op, x)) case Failed => Failed case Crash => Crash;
      case Binary(op, ty, lhs, rhs) =>
        FoldNeverFails(p, lhs, scope, true);
        FoldNeverFails(p, rhs, scope, true);
        var l := ConstFoldExpr(p, lhs, scope, true);
        if !l.Value? { return Crash; }
        var x := ConstFoldExpr(p, rhs, scope, true);
        r := if x.Value? then Value(Binary(op, ty, l.value, x.value)) else Crash;
      case Call(f, args) => r := FoldEachArg(p, e, scope);
      case _ => r := Value(e);
    }
  }

  method FoldEachArg(p: Program, e: Expr, scope: Scope) returns (r: Result<Expr>)
    requires Ranked(p) && e.Call?
    ensures r == FoldOperands(p, e, scope)
    decreases e, 0, 0
  {
    hide Eval, Fold, FoldArgs;
    var args, folded := e.args, e.args;
    NoneSoFar(args);
    for i := 0 to |args|
      invariant |folded| == |args| && folded[i..] == args[i..]
      invariant FoldArgs(p, e, 0, scope) == Joined(folded[..i], FoldArgs(p, e, i, scope))
    {
      var a := ConstFoldExpr(p, args[i], scope, true);
      OneMoreArg(p, e, i, scope, folded[..i]);
      if a.Failed? { return Failed; }
      if a.Crash? { return Crash; }
      folded := folded[i := a.value];
      assert folded[..i + 1] == folded[..i] + [a.value];
    }
    NoMoreArgs(p, e, scope, folded);
    r := Value(Call(e.func, folded));
  }

  function Joined(done: seq<Expr>, rest: Result<seq<Expr>>): Result<seq<Expr>>
  {
    match rest
    case Value(more) => Value(done + more)
    case Failed => Failed
    case Crash => Crash
  }

  lemma NoneSoFar(args: seq<Expr>)
    ensures forall rest: Result<seq<Expr>> :: Joined(args[..0], rest) == rest
  {
    forall rest: Result<seq<Expr>> ensures Joined(args[..0], rest) == rest {
      if rest.Value? { assert args[..0] + rest.value == rest.value; }
    }
  }

  lemma OneMoreArg(p: Program, e: Expr, k: nat, scope: Scope, done: seq<Expr>)
    requires Ranked(p) && e.Call? && k < |e.args|
    ensures match Fold(p, e.args[k], scope, true)
            case Value(a) =>
              Joined(done, FoldArgs(p, e, k, scope)) == Joined(done + [a], FoldArgs(p, e, k + 1, scope))
            case Failed => FoldArgs(p, e, k, scope) == Failed
            case Crash => FoldArgs(p, e, k, scope) == Crash
  {
    hide Fold, Eval;
    var a, rest := Fold(p, e.args[k], scope, true), FoldArgs(p, e, k + 1, scope);
    if a.Value? && rest.Value? {
      assert (done + [a.value]) + rest.value == done + ([a.value] + rest.value);
    }
  }

  lemma NoMoreArgs(p: Program, e: Expr, scope: Scope, done: seq<Expr>)
    requires Ranked(p) && e.Call? && |done| == |e.args|
    ensures Joined(done[..|e.args|], FoldArgs(p, e, |e.args|, scope)) == Value(done)
  {
    assert done[..|e.args|] == done && done + [] == done;
  }
}
