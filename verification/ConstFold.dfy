/** Constant folding: an expression with a value is replaced by it, and otherwise
    its operands are folded. */
module ConstFold {
  import opened ConstValues
  import opened ConstEval
  import opened Options

  // ----------------------------------------------------------- the arguments

  function Prepend(vals: seq<Binding>, rest: Result<seq<Binding>>): Result<seq<Binding>>
  {
    match rest
    case Value(more) => Value(vals + more)
    case Failed => Failed
    case Crash => Crash
  }

  lemma ArgStep(p: Program, e: Expr, k: nat, scope: Scope, binds: seq<Binding>, depth: nat, vals: seq<Binding>)
    requires Ranked(p) && e.Call? && e.func < |p.funcs| && k < |p.funcs[e.func].params|
    ensures ArgExpr(p, e, k).None? ==> EvalArgs(p, e, k, scope, binds, depth) == Crash
    ensures ArgExpr(p, e, k).Some? ==>
            match Eval(p, ArgExpr(p, e, k).value, scope, binds, depth)
            case Value(x) =>
              (match Convert(x, p.funcs[e.func].params[k].ty)
               case Value(y) =>
                 Prepend(vals, EvalArgs(p, e, k, scope, binds, depth)) ==
                 Prepend(vals + [Binding(p.funcs[e.func].params[k].name, y)], EvalArgs(p, e, k + 1, scope, binds, depth))
               case Failed => EvalArgs(p, e, k, scope, binds, depth) == Failed
               case Crash => EvalArgs(p, e, k, scope, binds, depth) == Crash)
            case Failed => EvalArgs(p, e, k, scope, binds, depth) == Failed
            case Crash => EvalArgs(p, e, k, scope, binds, depth) == Crash
  {
    hide Eval, Convert;
    var rest := EvalArgs(p, e, k + 1, scope, binds, depth);
    if rest.Value? {
      forall b: Binding ensures (vals + [b]) + rest.value == vals + ([b] + rest.value) {
      }
    }
  }

  /** Evaluates the arguments that are passed, then the default ones, into a
      vector. */
  method GetFuncArgVals(p: Program, e: Expr, scope: Scope, binds: seq<Binding>, depth: nat)
    returns (r: Result<seq<Binding>>)
    requires Ranked(p) && e.Call? && e.func < |p.funcs| && |e.args| <= |p.funcs[e.func].params|
    ensures r == EvalArgs(p, e, 0, scope, binds, depth)
  {
    hide Eval, Convert, EvalArgs, Rank;
    var params := p.funcs[e.func].params;
    var vals: seq<Binding> := [];
    NothingYet(EvalArgs(p, e, 0, scope, binds, depth));
    for i := 0 to |e.args|
      invariant EvalArgs(p, e, 0, scope, binds, depth) == Prepend(vals, EvalArgs(p, e, i, scope, binds, depth))
    {
      ArgStep(p, e, i, scope, binds, depth, vals);
      var x := Eval(p, e.args[i], scope, binds, depth);
      if x.Failed? { return Failed; }
      if x.Crash? { return Crash; }
      var y := Convert(x.value, params[i].ty);
      if y.Failed? { return Failed; }
      if y.Crash? { return Crash; }
      vals := vals + [Binding(params[i].name, y.value)];
    }
    for i := |e.args| to |params|
      invariant EvalArgs(p, e, 0, scope, binds, depth) == Prepend(vals, EvalArgs(p, e, i, scope, binds, depth))
    {
      ArgStep(p, e, i, scope, binds, depth, vals);
      var byDefault := params[i].byDefault;
      if byDefault.None? { return Crash; }
      var x := Eval(p, byDefault.value, scope, binds, depth);
      if x.Failed? { return Failed; }
      if x.Crash? { return Crash; }
      var y := Convert(x.value, params[i].ty);
      if y.Failed? { return Failed; }
      if y.Crash? { return Crash; }
      vals := vals + [Binding(params[i].name, y.value)];
    }
    r := Value(vals);
    NothingLeft(p, e, scope, binds, depth, vals);
  }

  lemma NothingYet(rest: Result<seq<Binding>>)
    ensures Prepend([], rest) == rest
  {
    if rest.Value? { assert [] + rest.value == rest.value; }
  }

  lemma NothingLeft(p: Program, e: Expr, scope: Scope, binds: seq<Binding>, depth: nat, vals: seq<Binding>)
    requires Ranked(p) && e.Call? && e.func < |p.funcs|
    ensures Prepend(vals, EvalArgs(p, e, |p.funcs[e.func].params|, scope, binds, depth)) == Value(vals)
  {
    assert vals + [] == vals;
  }

  // ------------------------------------------------- what evaluation depends on

  /** No bound name has a constant value in the scope. */
  predicate Unbound(binds: seq<Binding>, scope: Scope)
  {
    forall i :: 0 <= i < |binds| ==> binds[i].name !in scope
  }

  lemma {:induction false} LookupUnbound(binds: seq<Binding>, scope: Scope, name: string)
    requires Unbound(binds, scope) && name in scope
    ensures Lookup(binds, name) == None
  {
    if |binds| > 0 { LookupUnbound(binds[1..], scope, name); }
  }

  /** Weakening: what can be evaluated without bindings comes to the same under any
      bindings of names that have no value in the scope. */
  lemma {:induction false} Weaken(p: Program, e: Expr, scope: Scope, binds: seq<Binding>, depth: nat)
    requires Ranked(p) && Unbound(binds, scope)
    ensures Eval(p, e, scope, [], depth) != Failed ==>
            Eval(p, e, scope, binds, depth) == Eval(p, e, scope, [], depth)
    decreases Left(p, depth), Rank(p, e), e
  {
    match e {
      case Ident(name) =>
        if name in scope { LookupUnbound(binds, scope, name); }
      case Unary(_, a) => Weaken(p, a, scope, binds, depth);
      case Binary(_, _, l, r) =>
        Weaken(p, l, scope, binds, depth);
        Weaken(p, r, scope, binds, depth);
      case Call(f, args) =>
        if f < |p.funcs| { WeakenArgs(p, e, 0, scope, binds, depth); }
      case _ =>
    }
  }

  lemma {:induction false} WeakenArgs(p: Program, e: Expr, k: nat, scope: Scope, binds: seq<Binding>, depth: nat)
    requires Ranked(p) && Unbound(binds, scope)
    requires e.Call? && e.func < |p.funcs| && k <= |p.funcs[e.func].params|
    ensures EvalArgs(p, e, k, scope, [], depth) != Failed ==>
            EvalArgs(p, e, k, scope, binds, depth) == EvalArgs(p, e, k, scope, [], depth)
    decreases Left(p, depth), Rank(p, e), e, |p.funcs[e.func].params| - k
  {
    if k < |p.funcs[e.func].params| && ArgExpr(p, e, k).Some? {
      ArgSmaller(p, e, k);
      Weaken(p, ArgExpr(p, e, k).value, scope, binds, depth);
      WeakenArgs(p, e, k + 1, scope, binds, depth);
    }
  }

  /** Depth: what can be evaluated so many calls deep comes to the same less
      deep. */
  lemma {:induction false} Shallower(p: Program, e: Expr, scope: Scope, binds: seq<Binding>, depth: nat, depth': nat)
    requires Ranked(p) && depth' <= depth
    ensures Eval(p, e, scope, binds, depth) != Failed ==>
            Eval(p, e, scope, binds, depth') == Eval(p, e, scope, binds, depth)
    decreases Left(p, depth), Rank(p, e), e
  {
    match e {
      case Unary(_, a) => Shallower(p, a, scope, binds, depth, depth');
      case Binary(_, _, l, r) =>
        Shallower(p, l, scope, binds, depth, depth');
        Shallower(p, r, scope, binds, depth, depth');
      case Call(f, args) =>
        if f < |p.funcs| && depth < p.maxDepth {
          ShallowerArgs(p, e, 0, scope, binds, depth, depth');
          var vals := EvalArgs(p, e, 0, scope, binds, depth);
          if vals.Value? { ShallowerBody(p, f, vals.value, depth, depth'); }
        }
      case _ =>
    }
  }

  lemma {:induction false} ShallowerArgs(p: Program, e: Expr, k: nat, scope: Scope, binds: seq<Binding>, depth: nat, depth': nat)
    requires Ranked(p) && depth' <= depth
    requires e.Call? && e.func < |p.funcs| && k <= |p.funcs[e.func].params|
    ensures EvalArgs(p, e, k, scope, binds, depth) != Failed ==>
            EvalArgs(p, e, k, scope, binds, depth') == EvalArgs(p, e, k, scope, binds, depth)
    decreases Left(p, depth), Rank(p, e), e, |p.funcs[e.func].params| - k
  {
    if k < |p.funcs[e.func].params| && ArgExpr(p, e, k).Some? {
      ArgSmaller(p, e, k);
      Shallower(p, ArgExpr(p, e, k).value, scope, binds, depth, depth');
      ShallowerArgs(p, e, k + 1, scope, binds, depth, depth');
    }
  }

  lemma {:induction false} ShallowerBody(p: Program, f: nat, vals: seq<Binding>, depth: nat, depth': nat)
    requires Ranked(p) && depth' <= depth < p.maxDepth && f < |p.funcs|
    ensures EvalBody(p, f, vals, depth) != Failed ==> EvalBody(p, f, vals, depth') == EvalBody(p, f, vals, depth)
    decreases Left(p, depth + 1)
  {
    var func := p.funcs[f];
    if func.body.Return? {
      Shallower(p, func.body.value, func.scope, vals, depth + 1, depth' + 1);
    }
  }

  // ------------------------------------------------------------------- folding

  /** Folding an expression: its value, if it has one without bindings and outside
      every call, or else the expression with its operands folded, if wanted.
      Folding stops when evaluation does. */
  function Fold(p: Program, e: Expr, scope: Scope, recursive: bool): Result<Expr>
    requires Ranked(p)
    decreases e, 1
  {
    match Eval(p, e, scope, [], 0)
    case Value(v) => Value(Folded(v))
    case Crash => Crash
    case Failed => if recursive then FoldOperands(p, e, scope) else Value(e)
  }

  function FoldOperands(p: Program, e: Expr, scope: Scope): Result<Expr>
    requires Ranked(p)
    decreases e, 0
  {
    match e
    case Unary(op, a) =>
      (match Fold(p, a, scope, true)
       case Value(a') => Value(Unary(op, a'))
       case Failed => Failed
       case Crash => Crash)
    case Binary(op, ty, l, r) =>
      (match (Fold(p, l, scope, true), Fold(p, r, scope, true))
       case (Value(l'), Value(r')) => Value(Binary(op, ty, l', r'))
       case _ => Crash)
    case Call(f, _) =>
      (match FoldArgs(p, e, 0, scope)
       case Value(args') => Value(Call(f, args'))
       case Failed => Failed
       case Crash => Crash)
    case _ => Value(e)
  }

  function FoldArgs(p: Program, e: Expr, k: nat, scope: Scope): Result<seq<Expr>>
    requires Ranked(p) && e.Call? && k <= |e.args|
    decreases e, 0, |e.args| - k
  {
    if k == |e.args| then Value([]) else
      match Fold(p, e.args[k], scope, true)
      case Value(a) =>
        (match FoldArgs(p, e, k + 1, scope)
         case Value(rest) => Value([a] + rest)
         case Failed => Failed
         case Crash => Crash)
      case Failed => Failed
      case Crash => Crash
  }

  /** Folding never reports that it failed. */
  lemma {:induction false} FoldNeverFails(p: Program, e: Expr, scope: Scope, recursive: bool)
    requires Ranked(p)
    ensures Fold(p, e, scope, recursive) != Failed
    decreases e, 1
  {
    hide Eval;
    if recursive { OperandsNeverFail(p, e, scope); }
  }

  lemma {:induction false} OperandsNeverFail(p: Program, e: Expr, scope: Scope)
    requires Ranked(p)
    ensures FoldOperands(p, e, scope) != Failed
    decreases e, 0
  {
    hide Eval, Fold;
    match e {
      case Unary(_, a) => FoldNeverFails(p, a, scope, true);
      case Call(_, args) => ArgsNeverFail(p, e, 0, scope);
      case _ =>
    }
  }

  lemma {:induction false} ArgsNeverFail(p: Program, e: Expr, k: nat, scope: Scope)
    requires Ranked(p) && e.Call? && k <= |e.args|
    ensures FoldArgs(p, e, k, scope) != Failed
    decreases e, 0, |e.args| - k
  {
    hide Eval, Fold;
    if k < |e.args| {
      FoldNeverFails(p, e.args[k], scope, true);
      ArgsNeverFail(p, e, k + 1, scope);
    }
  }
}
