/** The constant evaluator: structural recursion over expressions, through calls of
    constexpr functions up to a bounded depth. */
module ConstEval {
  import opened ConstValues
  import opened Options

  /** A typechecked expression.  Folded is the node folding leaves behind, and
      Opaque any expression the evaluator never has a value for. */
  datatype Expr =
    | Lit(val: Val)
    | Folded(val: Val)
    | Ident(name: string)
    | Opaque
    | Unary(op: UnaryOp, arg: Expr)
    | Binary(bop: BinaryOp, ty: Ty, lhs: Expr, rhs: Expr)
    | Call(func: nat, args: seq<Expr>)

  /** A parameter; since is the place, among all declarations, of the one that gave
      its default argument. */
  datatype Param = Param(name: string, ty: Ty, byDefault: Option<Expr>, since: nat)

  /** What the evaluator finds in a function: nothing if it is not defined, else the
      first return statement, if any, and its expression, if any. */
  datatype Body = Undefined | NoReturn | ReturnVoid | Return(value: Expr)

  /** The names of a scope that have a constant value. */
  type Scope = map<string, Val>

  datatype Func = Func(params: seq<Param>, ret: Ty, body: Body, scope: Scope)

  /** The functions and the bound on nested calls. */
  datatype Program = Program(funcs: seq<Func>, maxDepth: nat)

  datatype Binding = Binding(name: string, val: Val)

  // ------------------------------------------------------------------ ranking

  /** One more than the last default argument the expression relies on, in the order
      of the declarations that gave them. */
  function Rank(p: Program, e: Expr): nat
    decreases e, 1
  {
    match e
    case Unary(_, a) => Rank(p, a)
    case Binary(_, _, l, r) => Max(Rank(p, l), Rank(p, r))
    case Call(f, args) => Max(RankDefaults(p, f, |args|), RankArgs(p, e, 0))
    case _ => 0
  }

  function RankArgs(p: Program, e: Expr, k: nat): nat
    requires e.Call? && k <= |e.args|
    decreases e, 0, |e.args| - k
  {
    if k == |e.args| then 0 else Max(Rank(p, e.args[k]), RankArgs(p, e, k + 1))
  }

  /** The default arguments of the parameters from k on. */
  function RankDefaults(p: Program, f: nat, k: nat): nat
    decreases if f < |p.funcs| then |p.funcs[f].params| - k else 0
  {
    if f >= |p.funcs| || k >= |p.funcs[f].params| then 0 else
      var param := p.funcs[f].params[k];
      Max(if param.byDefault.Some? then param.since + 1 else 0, RankDefaults(p, f, k + 1))
  }

  function Max(a: nat, b: nat): nat
  {
    if a < b then b else a
  }

  lemma {:induction false} RankOfArg(p: Program, e: Expr, j: nat, k: nat)
    requires e.Call? && j <= k < |e.args|
    ensures Rank(p, e.args[k]) <= RankArgs(p, e, j)
    decreases k - j
  {
    if j < k { RankOfArg(p, e, j + 1, k); }
  }

  lemma {:induction false} RankOfDefault(p: Program, f: nat, j: nat, k: nat)
    requires f < |p.funcs| && j <= k < |p.funcs[f].params| && p.funcs[f].params[k].byDefault.Some?
    ensures p.funcs[f].params[k].since < RankDefaults(p, f, j)
    decreases k - j
  {
    if j < k { RankOfDefault(p, f, j + 1, k); }
  }

  /** A default argument relies on earlier ones only, because a call that leaves an
      argument out needs its default argument to be there already.  Functions may be
      declared again and again. */
  predicate Ranked(p: Program)
  {
    forall f: nat, i: nat :: f < |p.funcs| && i < |p.funcs[f].params| && p.funcs[f].params[i].byDefault.Some? ==>
      Rank(p, p.funcs[f].params[i].byDefault.value) <= p.funcs[f].params[i].since
  }

  // --------------------------------------------------------------- evaluation

  function Lookup(binds: seq<Binding>, name: string): Option<Val>
  {
    if |binds| == 0 then None
    else if binds[0].name == name then Some(binds[0].val)
    else Lookup(binds[1..], name)
  }

  function IdentValue(name: string, scope: Scope, binds: seq<Binding>): Result<Val>
  {
    match Lookup(binds, name)
    case Some(v) => Value(v)
    case None => if name in scope then Value(scope[name]) else Failed
  }

  /** The calls still allowed below depth. */
  function Left(p: Program, depth: nat): nat
  {
    if depth < p.maxDepth then p.maxDepth - depth else 0
  }

  /** The value of an expression in a scope, under the bindings of the call it
      belongs to, so many calls deep.  It ends for every ranked program: a call
      goes deeper, a default argument to earlier ones, and everything else to
      a smaller expression. */
  function Eval(p: Program, e: Expr, scope: Scope, binds: seq<Binding>, depth: nat): Result<Val>
    requires Ranked(p)
    decreases Left(p, depth), Rank(p, e), e
  {
    match e
    case Lit(v) => Value(v)
    case Folded(v) => Value(v)
    case Ident(name) => IdentValue(name, scope, binds)
    case Opaque => Failed
    case Unary(op, a) =>
      (match Eval(p, a, scope, binds, depth)
       case Value(x) => ApplyUnary(op, x)
       case Failed => Failed
       case Crash => Crash)
    case Binary(op, ty, l, r) =>
      (match Eval(p, l, scope, binds, depth)
       case Value(x) =>
         (match Eval(p, r, scope, binds, depth)
          case Value(y) => ApplyBinary(op, ty, x, y)
          case Failed => Failed
          case Crash => Crash)
       case Failed => Failed
       case Crash => Crash)
    case Call(f, args) =>
      if depth >= p.maxDepth then Failed
      else if f >= |p.funcs| then Crash
      else if p.funcs[f].body.Undefined? then Failed
      else if |args| > |p.funcs[f].params| then Crash
      else
        match EvalArgs(p, e, 0, scope, binds, depth)
        case Value(vals) => EvalBody(p, f, vals, depth)
        case Failed => Failed
        case Crash => Crash
  }

  /** The argument for parameter k: the one passed, or the default one, which runs
      in the caller's scope, bindings and depth. */
  function ArgExpr(p: Program, e: Expr, k: nat): Option<Expr>
    requires e.Call? && e.func < |p.funcs| && k < |p.funcs[e.func].params|
  {
    if k < |e.args| then Some(e.args[k]) else p.funcs[e.func].params[k].byDefault
  }

  lemma ArgSmaller(p: Program, e: Expr, k: nat)
    requires Ranked(p) && e.Call? && e.func < |p.funcs| && k < |p.funcs[e.func].params| && ArgExpr(p, e, k).Some?
    ensures var a := ArgExpr(p, e, k).value;
            Rank(p, a) < Rank(p, e) || (Rank(p, a) <= Rank(p, e) && k < |e.args| && a == e.args[k])
  {
    if k < |e.args| { RankOfArg(p, e, 0, k); } else { RankOfDefault(p, e.func, |e.args|, k); }
  }

  /** The values of the parameters from k on. */
  function EvalArgs(p: Program, e: Expr, k: nat, scope: Scope, binds: seq<Binding>, depth: nat): Result<seq<Binding>>
    requires Ranked(p) && e.Call? && e.func < |p.funcs| && k <= |p.funcs[e.func].params|
    decreases Left(p, depth), Rank(p, e), e, |p.funcs[e.func].params| - k
  {
    var params := p.funcs[e.func].params;
    if k == |params| then Value([])
    else if ArgExpr(p, e, k).None? then Crash
    else
      ArgSmaller(p, e, k);
      match Eval(p, ArgExpr(p, e, k).value, scope, binds, depth)
      case Value(x) =>
        (match Convert(x, params[k].ty)
         case Value(y) =>
           (match EvalArgs(p, e, k + 1, scope, binds, depth)
            case Value(rest) => Value([Binding(params[k].name, y)] + rest)
            case Failed => Failed
            case Crash => Crash)
         case Failed => Failed
         case Crash => Crash)
      case Failed => Failed
      case Crash => Crash
  }

  /** The call itself: the returned expression, in the function's scope, under the
      bindings of its parameters, one call deeper. */
  function EvalBody(p: Program, f: nat, vals: seq<Binding>, depth: nat): Result<Val>
    requires Ranked(p) && f < |p.funcs| && depth < p.maxDepth
    decreases Left(p, depth + 1)
  {
    var func := p.funcs[f];
    match func.body
    case Undefined => Failed
    case NoReturn => Failed
    case ReturnVoid => Value(Empty)
    case Return(e) =>
      match Eval(p, e, func.scope, vals, depth + 1)
      case Value(x) => Convert(x, func.ret)
      case Failed => Failed
      case Crash => Crash
  }
}
