/** Folding keeps the meaning of an expression. */
module ConstFoldMeaning {
  import opened ConstValues
  import opened ConstEval
  import opened ConstFold
  import opened Options
  import Machine
  import Powers

  /** Arguments with the same values give the same bindings. */
  lemma {:induction false} SameArgs(p: Program, e: Expr, e': Expr, k: nat, scope: Scope, binds: seq<Binding>, depth: nat)
    requires Ranked(p) && e.Call? && e'.Call? && e.func == e'.func < |p.funcs| && |e.args| == |e'.args|
    requires k <= |p.funcs[e.func].params|
    requires forall j :: 0 <= j < |e.args| ==>
               Eval(p, e'.args[j], scope, binds, depth) == Eval(p, e.args[j], scope, binds, depth)
    ensures EvalArgs(p, e', k, scope, binds, depth) == EvalArgs(p, e, k, scope, binds, depth)
    decreases |p.funcs[e.func].params| - k
  {
    hide Eval, Convert;
    if k < |p.funcs[e.func].params| {
      SameArgs(p, e, e', k + 1, scope, binds, depth);
    }
  }

  lemma SameCall(p: Program, e: Expr, e': Expr, scope: Scope, binds: seq<Binding>, depth: nat)
    requires Ranked(p) && e.Call? && e'.Call? && e.func == e'.func && |e.args| == |e'.args|
    requires forall j :: 0 <= j < |e.args| ==>
               Eval(p, e'.args[j], scope, binds, depth) == Eval(p, e.args[j], scope, binds, depth)
    ensures Eval(p, e', scope, binds, depth) == Eval(p, e, scope, binds, depth)
  {
    hide EvalArgs, EvalBody;
    if e.func < |p.funcs| { SameArgs(p, e, e', 0, scope, binds, depth); }
  }

  /** When a call's arguments from k on can be evaluated, each passed one can. */
  lemma {:induction false} ArgHasValue(p: Program, e: Expr, k: nat, j: nat, scope: Scope, binds: seq<Binding>, depth: nat)
    requires Ranked(p) && e.Call? && e.func < |p.funcs| && |e.args| <= |p.funcs[e.func].params|
    requires k <= j < |e.args| && EvalArgs(p, e, k, scope, binds, depth).Value?
    ensures Eval(p, e.args[j], scope, binds, depth).Value?
    decreases j - k
  {
    hide Eval, Convert;
    if k < j { ArgHasValue(p, e, k + 1, j, scope, binds, depth); }
  }

  /** What has a value under some bindings and at some depth has no other one
      without them and outside every call, and does not stop there. */
  lemma PlainValue(p: Program, e: Expr, scope: Scope, binds: seq<Binding>, depth: nat)
    requires Ranked(p) && Unbound(binds, scope) && Eval(p, e, scope, binds, depth).Value?
    ensures Eval(p, e, scope, [], 0).Failed? || Eval(p, e, scope, [], 0) == Eval(p, e, scope, binds, depth)
  {
    hide Eval;
    Weaken(p, e, scope, binds, 0);
    Shallower(p, e, scope, binds, depth, 0);
  }

  /** Folding refines evaluation: an expression that has a value, under any bindings
      of names without a value in the scope and at any depth, can be folded, and
      the folded one has the same value there. */
  lemma {:induction false} FoldRefines(p: Program, e: Expr, scope: Scope, binds: seq<Binding>, depth: nat, recursive: bool)
    requires Ranked(p) && Unbound(binds, scope) && Eval(p, e, scope, binds, depth).Value?
    ensures Fold(p, e, scope, recursive).Value?
    ensures Eval(p, Fold(p, e, scope, recursive).value, scope, binds, depth) == Eval(p, e, scope, binds, depth)
    decreases e, 1
  {
    PlainValue(p, e, scope, binds, depth);
    if Eval(p, e, scope, [], 0).Failed? && recursive {
      OperandsRefine(p, e, scope, binds, depth);
    }
  }

  lemma {:induction false} OperandsRefine(p: Program, e: Expr, scope: Scope, binds: seq<Binding>, depth: nat)
    requires Ranked(p) && Unbound(binds, scope) && Eval(p, e, scope, binds, depth).Value?
    ensures FoldOperands(p, e, scope).Value?
    ensures Eval(p, FoldOperands(p, e, scope).value, scope, binds, depth) == Eval(p, e, scope, binds, depth)
    decreases e, 0
  {
    hide Fold, FoldArgs, EvalArgs, EvalBody, ApplyUnary, ApplyBinary, Ranked, Rank, Unbound;
    match e {
      case Unary(_, a) =>
        FoldRefines(p, a, scope, binds, depth, true);
      case Binary(_, _, l, r) =>
        FoldRefines(p, l, scope, binds, depth, true);
        FoldRefines(p, r, scope, binds, depth, true);
      case Call(f, args) =>
        forall j | 0 <= j < |args| ensures Eval(p, args[j], scope, binds, depth).Value? {
          ArgHasValue(p, e, 0, j, scope, binds, depth);
        }
        ArgsRefine(p, e, 0, scope, binds, depth);
        SameCall(p, e, FoldOperands(p, e, scope).value, scope, binds, depth);
      case _ =>
    }
  }

  lemma {:induction false} ArgsRefine(p: Program, e: Expr, k: nat, scope: Scope, binds: seq<Binding>, depth: nat)
    requires Ranked(p) && Unbound(binds, scope) && e.Call? && k <= |e.args|
    requires forall j :: 0 <= j < |e.args| ==> Eval(p, e.args[j], scope, binds, depth).Value?
    ensures FoldArgs(p, e, k, scope).Value? && |FoldArgs(p, e, k, scope).value| == |e.args| - k
    ensures forall j :: k <= j < |e.args| ==>
              Eval(p, FoldArgs(p, e, k, scope).value[j - k], scope, binds, depth) == Eval(p, e.args[j], scope, binds, depth)
    decreases e, 0, |e.args| - k
  {
    hide Fold, Eval;
    if k < |e.args| {
      FoldRefines(p, e.args[k], scope, binds, depth, true);
      ArgsRefine(p, e, k + 1, scope, binds, depth);
    }
  }

  /** Without bindings and outside every call nothing changes at all: what has no
      value keeps having none. */
  lemma {:induction false} FoldSame(p: Program, e: Expr, scope: Scope)
    requires Ranked(p) && Fold(p, e, scope, true).Value?
    ensures Eval(p, Fold(p, e, scope, true).value, scope, [], 0) == Eval(p, e, scope, [], 0)
    decreases e, 1
  {
    if Eval(p, e, scope, [], 0).Failed? {
      OperandsSame(p, e, scope);
    }
  }

  lemma {:induction false} OperandsSame(p: Program, e: Expr, scope: Scope)
    requires Ranked(p) && FoldOperands(p, e, scope).Value?
    ensures Eval(p, FoldOperands(p, e, scope).value, scope, [], 0) == Eval(p, e, scope, [], 0)
    decreases e, 0
  {
    hide Fold, FoldArgs, EvalArgs, EvalBody, ApplyUnary, ApplyBinary;
    match e {
      case Unary(_, a) => FoldSame(p, a, scope);
      case Binary(_, _, l, r) =>
        FoldSame(p, l, scope);
        FoldSame(p, r, scope);
      case Call(f, args) =>
        ArgsSame(p, e, 0, scope);
        SameCall(p, e, FoldOperands(p, e, scope).value, scope, [], 0);
      case _ =>
    }
  }

  lemma {:induction false} ArgsSame(p: Program, e: Expr, k: nat, scope: Scope)
    requires Ranked(p) && e.Call? && k <= |e.args| && FoldArgs(p, e, k, scope).Value?
    ensures |FoldArgs(p, e, k, scope).value| == |e.args| - k
    ensures forall j :: k <= j < |e.args| ==>
              Eval(p, FoldArgs(p, e, k, scope).value[j - k], scope, [], 0) == Eval(p, e.args[j], scope, [], 0)
    decreases e, 0, |e.args| - k
  {
    hide Fold, Eval;
    if k < |e.args| {
      FoldSame(p, e.args[k], scope);
      ArgsSame(p, e, k + 1, scope);
    }
  }

  /** Folding again changes nothing. */
  lemma {:induction false} FoldTwice(p: Program, e: Expr, scope: Scope)
    requires Ranked(p) && Fold(p, e, scope, true).Value?
    ensures Fold(p, Fold(p, e, scope, true).value, scope, true) == Fold(p, e, scope, true)
    decreases e, 1
  {
    FoldSame(p, e, scope);
    if Eval(p, e, scope, [], 0).Failed? {
      OperandsTwice(p, e, scope);
    }
  }

  lemma {:induction false} OperandsTwice(p: Program, e: Expr, scope: Scope)
    requires Ranked(p) && FoldOperands(p, e, scope).Value?
    ensures FoldOperands(p, FoldOperands(p, e, scope).value, scope) == FoldOperands(p, e, scope)
    decreases e, 0
  {
    hide Fold, Eval, FoldArgs;
    match e {
      case Unary(_, a) => FoldTwice(p, a, scope);
      case Binary(_, _, l, r) =>
        FoldTwice(p, l, scope);
        FoldTwice(p, r, scope);
      case Call(f, args) =>
        ArgsSame(p, e, 0, scope);
        ArgsTwice(p, e, FoldOperands(p, e, scope).value, 0, scope);
      case _ =>
    }
  }

  lemma {:induction false} ArgsTwice(p: Program, e: Expr, e': Expr, k: nat, scope: Scope)
    requires Ranked(p) && e.Call? && e'.Call? && |e'.args| == |e.args| && k <= |e.args|
    requires FoldArgs(p, e, k, scope) == Value(e'.args[k..])
    ensures FoldArgs(p, e', k, scope) == FoldArgs(p, e, k, scope)
    decreases e, 0, |e.args| - k
  {
    hide Fold, Eval;
    if k < |e.args| {
      var a, rest := Fold(p, e.args[k], scope, true), FoldArgs(p, e, k + 1, scope);
      assert e'.args[k..] == [e'.args[k]] + e'.args[k + 1..];
      assert ([a.value] + rest.value)[1..] == rest.value && ([a.value] + rest.value)[0] == a.value;
      FoldTwice(p, e.args[k], scope);
      ArgsTwice(p, e, e', k + 1, scope);
    }
  }

  // ------------------------------------------------ default arguments, as written

  /** The names whose values an expression can depend on; a default argument it
      relies on runs in the same place, and so do the names in it. */
  function Names(p: Program, e: Expr): set<string>
    requires Ranked(p)
    decreases Rank(p, e), e
  {
    match e
    case Ident(name) => {name}
    case Unary(_, a) => Names(p, a)
    case Binary(_, _, l, r) => Names(p, l) + Names(p, r)
    case Call(f, _) => if f < |p.funcs| then NamesOfArgs(p, e, 0) else {}
    case _ => {}
  }

  function NamesOfArgs(p: Program, e: Expr, k: nat): set<string>
    requires Ranked(p) && e.Call? && e.func < |p.funcs| && k <= |p.funcs[e.func].params|
    decreases Rank(p, e), e, |p.funcs[e.func].params| - k
  {
    if k == |p.funcs[e.func].params| then {}
    else if ArgExpr(p, e, k).None? then NamesOfArgs(p, e, k + 1)
    else
      ArgSmaller(p, e, k);
      Names(p, ArgExpr(p, e, k).value) + NamesOfArgs(p, e, k + 1)
  }

  /** Two places, each a scope and bindings, give a name the same value, or both
      none. */
  predicate Agree(name: string, scope: Scope, binds: seq<Binding>, scope': Scope, binds': seq<Binding>)
  {
    IdentValue(name, scope, binds) == IdentValue(name, scope', binds')
  }

  /** The value of a name under the caller's bindings is the one it has where the
      default argument was declared exactly when it is bound to that value, or it is
      unbound and both scopes give it the same value, or none. */
  lemma NameAgrees(name: string, scope: Scope, binds: seq<Binding>, decl: Scope)
    ensures Agree(name, scope, binds, decl, []) <==>
            match Lookup(binds, name)
            case Some(v) => name in decl && decl[name] == v
            case None => (name in scope <==> name in decl) && (name in scope ==> scope[name] == decl[name])
  {
  }

  /** An expression comes to the same in two places that agree on its names.  So a
      default argument means under its caller's bindings what it meant where it was
      declared, as long as its names do. */
  lemma {:induction false} DefaultAsDeclared(p: Program, e: Expr, scope: Scope, binds: seq<Binding>,
                                             scope': Scope, binds': seq<Binding>, depth: nat)
    requires Ranked(p) && forall name :: name in Names(p, e) ==> Agree(name, scope, binds, scope', binds')
    ensures Eval(p, e, scope, binds, depth) == Eval(p, e, scope', binds', depth)
    decreases Rank(p, e), e
  {
    hide ApplyUnary, ApplyBinary, EvalBody;
    match e {
      case Ident(name) => assert name in Names(p, e);
      case Unary(_, a) => DefaultAsDeclared(p, a, scope, binds, scope', binds', depth);
      case Binary(_, _, l, r) =>
        DefaultAsDeclared(p, l, scope, binds, scope', binds', depth);
        DefaultAsDeclared(p, r, scope, binds, scope', binds', depth);
      case Call(f, args) =>
        if f < |p.funcs| { ArgsAsDeclared(p, e, 0, scope, binds, scope', binds', depth); }
      case _ =>
    }
  }

  lemma {:induction false} ArgsAsDeclared(p: Program, e: Expr, k: nat, scope: Scope, binds: seq<Binding>,
                                          scope': Scope, binds': seq<Binding>, depth: nat)
    requires Ranked(p) && e.Call? && e.func < |p.funcs| && k <= |p.funcs[e.func].params|
    requires forall name :: name in NamesOfArgs(p, e, k) ==> Agree(name, scope, binds, scope', binds')
    ensures EvalArgs(p, e, k, scope, binds, depth) == EvalArgs(p, e, k, scope', binds', depth)
    decreases Rank(p, e), e, |p.funcs[e.func].params| - k
  {
    hide Convert, Agree;
    if k < |p.funcs[e.func].params| && ArgExpr(p, e, k).Some? {
      ArgSmaller(p, e, k);
      DefaultAsDeclared(p, ArgExpr(p, e, k).value, scope, binds, scope', binds', depth);
      ArgsAsDeclared(p, e, k + 1, scope, binds, scope', binds', depth);
    }
  }

  /** Where a name does not agree, the default argument does not either: f(x = n)
      with n == 1 in its scope, called without arguments where a parameter n is bound
      to v, yields v. */
  lemma DefaultSeesCaller(v: Val)
    requires v.Int? && v.bits == 32 && v.signed && v.v < 10
    ensures var one := Int(32, true, 1);
            && Ranked(OneDefault(one))
            && Eval(OneDefault(one), Call(0, []), map["n" := one], [Binding("n", v)], 0) == Value(v)
            && Eval(OneDefault(one), Call(0, []), map["n" := one], [], 0) == Value(one)
  {
    hide Eval, Convert;
    var one := Int(32, true, 1);
    OneRanked(one);
    SmallConverts(v);
    SmallConverts(one);
    OneCall(one, [Binding("n", v)], v);
    OneCall(one, [], one);
  }

  function OneDefault(one: Val): Program
  {
    var int32 := IntTy(32, true);
    Program([Func([Param("x", int32, Some(Ident("n")), 0)], int32, Return(Ident("x")), map["n" := one])], 8)
  }

  lemma OneRanked(one: Val)
    ensures Ranked(OneDefault(one))
  {
  }

  lemma SmallConverts(v: Val)
    requires v.Int? && v.bits == 32 && v.signed && v.v < 10
    ensures Convert(v, IntTy(32, true)) == Value(v)
  {
    Machine.TwoToThe64();
    Powers.DivModUnique(v.v, Powers.Pow(2, 32), 0, v.v);
  }

  lemma OneCall(one: Val, binds: seq<Binding>, v: Val)
    requires Ranked(OneDefault(one)) && IdentValue("n", map["n" := one], binds) == Value(v)
    requires Convert(v, IntTy(32, true)) == Value(v)
    ensures Eval(OneDefault(one), Call(0, []), map["n" := one], binds, 0) == Value(v)
  {
    hide Convert, IdentValue;
    var p, e, scope := OneDefault(one), Call(0, []), map["n" := one];
    assert Eval(p, Ident("n"), scope, binds, 0) == Value(v);
    assert EvalArgs(p, e, 1, scope, binds, 0) == Value([]);
    assert [Binding("x", v)] + [] == [Binding("x", v)];
    assert EvalArgs(p, e, 0, scope, binds, 0) == Value([Binding("x", v)]);
    XIsBound(scope, v);
    assert EvalBody(p, 0, [Binding("x", v)], 0) == Value(v);
  }

  lemma XIsBound(scope: Scope, v: Val)
    ensures IdentValue("x", scope, [Binding("x", v)]) == Value(v)
  {
  }
}
