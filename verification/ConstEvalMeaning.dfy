/** What evaluation computes, said of integers: each kind of expression by itself, and
    whole expressions whose every step stays in range. */
module ConstEvalMeaning {
  import opened Powers
  import opened ApIntDivision
  import opened SignedDivision
  import opened ApIntBits
  import opened ApIntBitwise
  import opened ConstValues
  import opened ConstEval
  import opened Options

  // --------------------------------------------------------------- conversions

  /** The integer a value is read as when it becomes one of m bits: its stored number,
      or where it widens to a signed type the signed reading of that. */
  function ReadFor(x: Val, m: nat, signed: bool): int
    requires x.Int?
  {
    if 0 < x.bits < m && signed then Signed(x.v, x.bits) else x.v
  }

  /** z and r are the same modulo 2^m. */
  predicate Congruent(z: int, r: int, m: nat)
  {
    PowPositive(2, m);
    (z - r) % Pow(2, m) == 0
  }

  /** y is x converted: to an integer type, the integer modulo 2^m in the target's
      width and kind. */
  predicate Converts(x: Val, ty: Ty, y: Val)
  {
    match ty
    case VoidTy => x.Empty? && y.Empty?
    case IntTy(m, signed) =>
      && x.Int? && y.Int? && y.bits == m && y.signed == signed
      && y.v < Pow(2, m) && Congruent(ReadFor(x, m, signed), y.v, m)
  }

  /** The residue is the one number of the width that is congruent. */
  lemma ResidueIs(z: int, m: nat, r: nat)
    ensures r == Residue(z, m) <==> r < Pow(2, m) && Congruent(z, r, m)
  {
    hide Pow;
    PowPositive(2, m);
    var p := Pow(2, m);
    DivModDef(z, p);
    DivModDef(z - r, p);
    if r < p && Congruent(z, r, m) { DivModUnique(z, p, (z - r) / p, r); }
    if r == Residue(z, m) { DivModUnique(z - r, p, z / p, 0); }
  }

  lemma ConvertMeans(x: Val, ty: Ty, y: Val)
    ensures Convert(x, ty) == Value(y) <==> Converts(x, ty, y)
    ensures Convert(x, ty).Crash? <==> x.Empty? != ty.VoidTy?
    ensures !Convert(x, ty).Failed?
  {
    hide Pow, Congruent, Residue, Signed;
    if ty.IntTy? && x.Int? {
      var r := Residue(ReadFor(x, ty.bits, ty.signed), ty.bits);
      assert Convert(x, ty) == Value(Int(ty.bits, ty.signed, r));
      if y.Int? { ResidueIs(ReadFor(x, ty.bits, ty.signed), ty.bits, y.v); }
    }
  }

  // ----------------------------------------------------------------- operators

  /** r is what a binary operator gives for two numbers of n bits: section 5 of ISO/IEC
      14882:2011, with overflow wrapping. */
  ghost predicate Gives(op: BinaryOp, n: nat, signed: bool, a: nat, b: nat, r: nat)
    requires 0 < n
  {
    && r < Pow(2, n)
    && match op
       case Add => Congruent(a + b, r, n)
       case Sub => Congruent(a - b, r, n)
       case Mul => Congruent(a * b, r, n)
       case Div =>
         if signed then exists q, m :: Truncates(Signed(a, n), Signed(b, n), q, m) && Congruent(q, r, n)
         else r * b <= a < (r + 1) * b
       case Mod =>
         if signed then exists q, m :: Truncates(Signed(a, n), Signed(b, n), q, m) && Congruent(m, r, n)
         else r < b && r <= a && (a - r) % b == 0
       case And => forall k: nat :: BitOf(r, k) <==> BitOf(a, k) && BitOf(b, k)
       case Xor => forall k: nat :: BitOf(r, k) <==> BitOf(a, k) != BitOf(b, k)
       case Or => forall k: nat :: BitOf(r, k) <==> BitOf(a, k) || BitOf(b, k)
       case Unsupported => false
  }

  /** The operators that have no result for a divisor of zero. */
  predicate Divides(op: BinaryOp)
  {
    op.Div? || op.Mod?
  }

  lemma ComputeGives(op: BinaryOp, n: nat, signed: bool, a: nat, b: nat)
    requires 0 < n && a < Pow(2, n) && b < Pow(2, n)
    ensures var v := Compute(op, IntTy(n, signed), a, b);
            if op.Unsupported? || (Divides(op) && b == 0) then v == Crash
            else v.Value? && v.value.Int? && v.value.bits == n && v.value.signed == signed
                 && Gives(op, n, signed, a, b, v.value.v)
  {
    hide Pow, Congruent, Residue, Signed, Gated, BitOf, TruncQuot, TruncRem, Truncates;
    match op {
      case Add => ResidueIs(a + b, n, Residue(a + b, n));
      case Sub => ResidueIs(a - b, n, Residue(a - b, n));
      case Mul => ResidueIs(a * b, n, Residue(a * b, n));
      case Div => if b != 0 { DivisionGives(n, signed, a, b); }
      case Mod => if b != 0 { DivisionGives(n, signed, a, b); }
      case And => GateGives(Both, a, b, n);
      case Xor => GateGives(OneOf, a, b, n);
      case Or => GateGives(Either, a, b, n);
      case Unsupported =>
    }
  }

  lemma DivisionGives(n: nat, signed: bool, a: nat, b: nat)
    requires 0 < n && a < Pow(2, n) && 0 < b < Pow(2, n)
    ensures Signed(b, n) != 0
    ensures var q, m := TruncQuot(Signed(a, n), Signed(b, n)), TruncRem(Signed(a, n), Signed(b, n));
            && Truncates(Signed(a, n), Signed(b, n), q, m)
            && Congruent(q, Residue(q, n), n) && Congruent(m, Residue(m, n), n)
    ensures Residue(a / b, n) * b <= a < (Residue(a / b, n) + 1) * b
    ensures Residue(a % b, n) < b && Residue(a % b, n) <= a && (a - Residue(a % b, n)) % b == 0
  {
    hide Pow, Congruent, Signed, TruncQuot, TruncRem, Truncates;
    NotZero(b, n);
    var q, m := TruncQuot(Signed(a, n), Signed(b, n)), TruncRem(Signed(a, n), Signed(b, n));
    TruncQuotRem(Signed(a, n), Signed(b, n));
    ResidueIs(q, n, Residue(q, n));
    ResidueIs(m, n, Residue(m, n));
    DivModDef(a, b);
    FloorBounds(a, b);
    DivModUnique(a / b, Pow(2, n), 0, a / b);
    DivModUnique(a % b, Pow(2, n), 0, a % b);
    DivModUnique(a - a % b, b, a / b, 0);
  }

  lemma GateGives(gate: Gate, a: nat, b: nat, n: nat)
    requires a < Pow(2, n) && b < Pow(2, n)
    ensures Residue(Gated(gate, a, b), n) == Gated(gate, a, b)
    ensures forall k: nat :: BitOf(Gated(gate, a, b), k) <==>
              match gate
              case Both => BitOf(a, k) && BitOf(b, k)
              case Either => BitOf(a, k) || BitOf(b, k)
              case OneOf => BitOf(a, k) != BitOf(b, k)
  {
    hide Pow, Gated, BitOf;
    GatedBound(gate, a, b, n);
    DivModUnique(Gated(gate, a, b), Pow(2, n), 0, Gated(gate, a, b));
    forall k: nat ensures BitOf(Gated(gate, a, b), k) <==>
                          match gate
                          case Both => BitOf(a, k) && BitOf(b, k)
                          case Either => BitOf(a, k) || BitOf(b, k)
                          case OneOf => BitOf(a, k) != BitOf(b, k) {
      GatedBit(gate, a, b, k);
    }
  }

  /** A binary expression of an integer type: the left operand is evaluated first, and
      the first one without a value decides; two values are converted to the type of
      the expression, and the operator applied to the left one and the right one. */
  lemma EvalBinary(p: Program, e: Expr, scope: Scope, binds: seq<Binding>, depth: nat)
    requires Ranked(p) && e.Binary?
    ensures var (x, y) := (Eval(p, e.lhs, scope, binds, depth), Eval(p, e.rhs, scope, binds, depth));
            var v := Eval(p, e, scope, binds, depth);
            if !x.Value? then v == x
            else if !y.Value? then v == y
            else if x.value.Empty? || y.value.Empty? || e.ty.VoidTy? || e.ty.bits == 0 then v == Crash
            else
              var n, signed := e.ty.bits, e.ty.signed;
              forall a: nat, b: nat ::
                Converts(x.value, e.ty, Int(n, signed, a)) && Converts(y.value, e.ty, Int(n, signed, b)) ==>
                  if e.bop.Unsupported? || (Divides(e.bop) && b == 0) then v == Crash
                  else v.Value? && v.value.Int? && v.value.bits == n && v.value.signed == signed
                       && Gives(e.bop, n, signed, a, b, v.value.v)
  {
    hide Pow, Convert, Converts, Compute, Gives;
    var (x, y) := (Eval(p, e.lhs, scope, binds, depth), Eval(p, e.rhs, scope, binds, depth));
    if x.Value? && y.Value? {
      ConvertMeans(x.value, e.ty, Empty);
      ConvertMeans(y.value, e.ty, Empty);
      if x.value.Int? && y.value.Int? && e.ty.IntTy? && 0 < e.ty.bits {
        var n, signed := e.ty.bits, e.ty.signed;
        forall a: nat, b: nat | Converts(x.value, e.ty, Int(n, signed, a)) && Converts(y.value, e.ty, Int(n, signed, b))
          ensures Eval(p, e, scope, binds, depth) == Compute(e.bop, e.ty, a, b) && a < Pow(2, n) && b < Pow(2, n) {
          ConvertMeans(x.value, e.ty, Int(n, signed, a));
          ConvertMeans(y.value, e.ty, Int(n, signed, b));
          Stored(x.value, e.ty, Int(n, signed, a));
          Stored(y.value, e.ty, Int(n, signed, b));
        }
        forall a: nat, b: nat | Converts(x.value, e.ty, Int(n, signed, a)) && Converts(y.value, e.ty, Int(n, signed, b)) {
          ComputeGives(e.bop, n, signed, a, b);
        }
      }
    }
  }

  lemma Stored(x: Val, ty: Ty, y: Val)
    requires Converts(x, ty, y) && y.Int?
    ensures y.v < Pow(2, y.bits)
  {
  }

  /** The unary operators keep the operand's type: the negative, the number itself and
      the complement, -1 - x. */
  lemma EvalUnary(p: Program, e: Expr, scope: Scope, binds: seq<Binding>, depth: nat)
    requires Ranked(p) && e.Unary?
    ensures var x, v := Eval(p, e.arg, scope, binds, depth), Eval(p, e, scope, binds, depth);
            if !x.Value? then v == x
            else if x.value.Empty? then v == Crash
            else
              && v.Value? && v.value.Int? && v.value.bits == x.value.bits && v.value.signed == x.value.signed
              && match e.op
                 case Minus => v.value.v < Pow(2, x.value.bits) && Congruent(0 - x.value.v, v.value.v, x.value.bits)
                 case Plus => v == x
                 case BitNot => v.value.v < Pow(2, x.value.bits) && Congruent(-1 - x.value.v, v.value.v, x.value.bits)
  {
    hide Pow, Residue, Congruent;
    var x := Eval(p, e.arg, scope, binds, depth);
    if x.Value? && x.value.Int? {
      var n: nat, u: int := x.value.bits, x.value.v;
      ResidueIs(0 - u, n, Residue(0 - u, n));
      ResidueIs(-1 - u, n, Residue(-1 - u, n));
    }
  }

  /** Values that are there already, and expressions that have none. */
  lemma EvalLeaf(p: Program, e: Expr, scope: Scope, binds: seq<Binding>, depth: nat)
    requires Ranked(p)
    ensures e.Lit? || e.Folded? ==> Eval(p, e, scope, binds, depth) == Value(e.val)
    ensures e.Opaque? ==> Eval(p, e, scope, binds, depth) == Failed
  {
  }

  lemma {:induction false} FirstBinding(binds: seq<Binding>, name: string, k: nat)
    requires k < |binds| && binds[k].name == name && forall j :: 0 <= j < k ==> binds[j].name != name
    ensures Lookup(binds, name) == Some(binds[k].val)
    decreases |binds|
  {
    if k > 0 { FirstBinding(binds[1..], name, k - 1); }
  }

  lemma {:induction false} NoBinding(binds: seq<Binding>, name: string)
    requires forall k :: 0 <= k < |binds| ==> binds[k].name != name
    ensures Lookup(binds, name) == None
    decreases |binds|
  {
    if |binds| > 0 { NoBinding(binds[1..], name); }
  }

  /** A name: the first binding of that name, and without one its value in the
      scope. */
  lemma EvalName(p: Program, name: string, scope: Scope, binds: seq<Binding>, depth: nat)
    requires Ranked(p)
    ensures forall k :: 0 <= k < |binds| && binds[k].name == name && (forall j :: 0 <= j < k ==> binds[j].name != name) ==>
              Eval(p, Ident(name), scope, binds, depth) == Value(binds[k].val)
    ensures (forall k :: 0 <= k < |binds| ==> binds[k].name != name) ==>
              Eval(p, Ident(name), scope, binds, depth) == if name in scope then Value(scope[name]) else Failed
  {
    hide Lookup, Ranked;
    forall k | 0 <= k < |binds| && binds[k].name == name && (forall j :: 0 <= j < k ==> binds[j].name != name)
      ensures Eval(p, Ident(name), scope, binds, depth) == Value(binds[k].val) {
      FirstBinding(binds, name, k);
    }
    if forall k :: 0 <= k < |binds| ==> binds[k].name != name { NoBinding(binds, name); }
  }

  // --------------------------------------------------------------------- calls

  /** What is evaluated for parameter k: the argument passed, or the default one. */
  function Passing(p: Program, e: Expr, k: nat): Option<Expr>
    requires e.Call? && e.func < |p.funcs| && k < |p.funcs[e.func].params|
  {
    if k < |e.args| then Some(e.args[k]) else p.funcs[e.func].params[k].byDefault
  }

  /** Parameter k is bound to its argument, evaluated in the caller's place and
      converted to the type of the parameter. */
  ghost predicate Bound(p: Program, e: Expr, k: nat, scope: Scope, binds: seq<Binding>, depth: nat, b: Binding)
    requires Ranked(p) && e.Call? && e.func < |p.funcs| && k < |p.funcs[e.func].params|
  {
    && b.name == p.funcs[e.func].params[k].name && Passing(p, e, k).Some?
    && var x := Eval(p, Passing(p, e, k).value, scope, binds, depth);
       x.Value? && Converts(x.value, p.funcs[e.func].params[k].ty, b.val)
  }

  /** The parameters from k on are bound so. */
  ghost predicate AllBound(p: Program, e: Expr, k: nat, scope: Scope, binds: seq<Binding>, depth: nat, vals: seq<Binding>)
    requires Ranked(p) && e.Call? && e.func < |p.funcs| && k <= |p.funcs[e.func].params|
  {
    && |vals| == |p.funcs[e.func].params| - k
    && forall i :: 0 <= i < |vals| ==> Bound(p, e, k + i, scope, binds, depth, vals[i])
  }

  lemma BoundFrom(p: Program, e: Expr, k: nat, scope: Scope, binds: seq<Binding>, depth: nat, vals: seq<Binding>)
    requires Ranked(p) && e.Call? && e.func < |p.funcs| && k < |p.funcs[e.func].params|
    ensures AllBound(p, e, k, scope, binds, depth, vals) <==>
            |vals| > 0 && Bound(p, e, k, scope, binds, depth, vals[0]) && AllBound(p, e, k + 1, scope, binds, depth, vals[1..])
  {
    hide Bound;
    if |vals| > 0 {
      var rest := vals[1..];
      if AllBound(p, e, k, scope, binds, depth, vals) {
        assert Bound(p, e, k + 0, scope, binds, depth, vals[0]);
        forall i | 0 <= i < |rest| ensures Bound(p, e, k + 1 + i, scope, binds, depth, rest[i]) {
          assert rest[i] == vals[1 + i];
        }
      }
      if Bound(p, e, k, scope, binds, depth, vals[0]) && AllBound(p, e, k + 1, scope, binds, depth, rest) {
        forall i | 0 <= i < |vals| ensures Bound(p, e, k + i, scope, binds, depth, vals[i]) {
          if i > 0 { assert vals[i] == rest[i - 1]; }
        }
      }
    }
  }

  lemma {:induction false} ArgsMean(p: Program, e: Expr, k: nat, scope: Scope, binds: seq<Binding>, depth: nat, vals: seq<Binding>)
    requires Ranked(p) && e.Call? && e.func < |p.funcs| && k <= |p.funcs[e.func].params|
    ensures EvalArgs(p, e, k, scope, binds, depth) == Value(vals) <==> AllBound(p, e, k, scope, binds, depth, vals)
    decreases |p.funcs[e.func].params| - k
  {
    hide Eval, Convert, Converts, AllBound;
    var params := p.funcs[e.func].params;
    if k == |params| {
      assert AllBound(p, e, k, scope, binds, depth, vals) <==> vals == [] by { NoneBound(p, e, scope, binds, depth, vals); }
    } else {
      BoundFrom(p, e, k, scope, binds, depth, vals);
      if |vals| > 0 {
        ArgsMean(p, e, k + 1, scope, binds, depth, vals[1..]);
        if Passing(p, e, k).Some? && Eval(p, Passing(p, e, k).value, scope, binds, depth).Value? {
          ConvertMeans(Eval(p, Passing(p, e, k).value, scope, binds, depth).value, params[k].ty, vals[0].val);
        }
        assert vals == [vals[0]] + vals[1..];
      }
    }
  }

  lemma NoneBound(p: Program, e: Expr, scope: Scope, binds: seq<Binding>, depth: nat, vals: seq<Binding>)
    requires Ranked(p) && e.Call? && e.func < |p.funcs|
    ensures AllBound(p, e, |p.funcs[e.func].params|, scope, binds, depth, vals) <==> vals == []
  {
  }

  /** The call returns v: nothing, or the returned expression, evaluated in the
      function's scope under exactly the bindings of its parameters, one call deeper,
      and converted to the type of the function. */
  ghost predicate Returns(p: Program, f: nat, vals: seq<Binding>, depth: nat, v: Val)
    requires Ranked(p) && f < |p.funcs|
  {
    match p.funcs[f].body
    case ReturnVoid => v == Empty
    case Return(e) =>
      var x := Eval(p, e, p.funcs[f].scope, vals, depth + 1);
      x.Value? && Converts(x.value, p.funcs[f].ret, v)
    case _ => false
  }

  /** A call has a value exactly when calls may still go deeper, the function is defined
      and takes so many arguments, every parameter can be bound, and it returns that
      value. */
  lemma EvalCall(p: Program, e: Expr, scope: Scope, binds: seq<Binding>, depth: nat, v: Val)
    requires Ranked(p) && e.Call?
    ensures Eval(p, e, scope, binds, depth) == Value(v) <==>
            && depth < p.maxDepth && e.func < |p.funcs| && !p.funcs[e.func].body.Undefined?
            && |e.args| <= |p.funcs[e.func].params|
            && exists vals :: AllBound(p, e, 0, scope, binds, depth, vals) && Returns(p, e.func, vals, depth, v)
  {
    hide AllBound, Returns, EvalArgs, EvalBody;
    if depth < p.maxDepth && e.func < |p.funcs| {
      var args := EvalArgs(p, e, 0, scope, binds, depth);
      if args.Value? {
        ArgsMean(p, e, 0, scope, binds, depth, args.value);
        BodyMeans(p, e.func, args.value, depth, v);
      }
      forall vals | AllBound(p, e, 0, scope, binds, depth, vals) ensures args == Value(vals) {
        ArgsMean(p, e, 0, scope, binds, depth, vals);
      }
    }
  }

  lemma BodyMeans(p: Program, f: nat, vals: seq<Binding>, depth: nat, v: Val)
    requires Ranked(p) && f < |p.funcs| && depth < p.maxDepth
    ensures EvalBody(p, f, vals, depth) == Value(v) <==> Returns(p, f, vals, depth, v)
    ensures EvalBody(p, f, vals, depth).Failed? <==> NothingReturned(p, f, vals, depth)
  {
    hide Eval, Convert, Converts;
    var func := p.funcs[f];
    if func.body.Return? {
      var x := Eval(p, func.body.value, func.scope, vals, depth + 1);
      if x.Value? { ConvertMeans(x.value, func.ret, v); }
    }
  }

  // ------------------------------------------------------- calls that have none

  ghost predicate NothingReturned(p: Program, f: nat, vals: seq<Binding>, depth: nat)
    requires Ranked(p) && f < |p.funcs|
  {
    match p.funcs[f].body
    case Undefined => true
    case NoReturn => true
    case ReturnVoid => false
    case Return(e) => Eval(p, e, p.funcs[f].scope, vals, depth + 1).Failed?
  }

  /** Parameter k has an argument that has a value its type takes. */
  ghost predicate CanBind(p: Program, e: Expr, k: nat, scope: Scope, binds: seq<Binding>, depth: nat)
    requires Ranked(p) && e.Call? && e.func < |p.funcs| && k < |p.funcs[e.func].params|
  {
    && Passing(p, e, k).Some?
    && var x := Eval(p, Passing(p, e, k).value, scope, binds, depth);
       x.Value? && x.value.Empty? == p.funcs[e.func].params[k].ty.VoidTy?
  }

  /** The first parameter from k on that cannot be bound has an argument that is no
      constant. */
  ghost predicate ArgFails(p: Program, e: Expr, k: nat, scope: Scope, binds: seq<Binding>, depth: nat)
    requires Ranked(p) && e.Call? && e.func < |p.funcs| && k <= |p.funcs[e.func].params|
  {
    exists i: nat | k <= i < |p.funcs[e.func].params| ::
      && Passing(p, e, i).Some? && Eval(p, Passing(p, e, i).value, scope, binds, depth).Failed?
      && forall j: nat :: k <= j < i ==> CanBind(p, e, j, scope, binds, depth)
  }

  lemma ArgFailsFrom(p: Program, e: Expr, k: nat, scope: Scope, binds: seq<Binding>, depth: nat)
    requires Ranked(p) && e.Call? && e.func < |p.funcs| && k < |p.funcs[e.func].params|
    ensures ArgFails(p, e, k, scope, binds, depth) <==>
            || (Passing(p, e, k).Some? && Eval(p, Passing(p, e, k).value, scope, binds, depth).Failed?)
            || (CanBind(p, e, k, scope, binds, depth) && ArgFails(p, e, k + 1, scope, binds, depth))
  {
    hide Eval;
    if CanBind(p, e, k, scope, binds, depth) && ArgFails(p, e, k + 1, scope, binds, depth) {
      var i: nat :| k + 1 <= i < |p.funcs[e.func].params|
        && Passing(p, e, i).Some? && Eval(p, Passing(p, e, i).value, scope, binds, depth).Failed?
        && forall j: nat :: k + 1 <= j < i ==> CanBind(p, e, j, scope, binds, depth);
      assert forall j: nat :: k <= j < i ==> CanBind(p, e, j, scope, binds, depth);
    }
  }

  lemma {:induction false} ArgsFail(p: Program, e: Expr, k: nat, scope: Scope, binds: seq<Binding>, depth: nat)
    requires Ranked(p) && e.Call? && e.func < |p.funcs| && k <= |p.funcs[e.func].params|
    ensures EvalArgs(p, e, k, scope, binds, depth).Failed? <==> ArgFails(p, e, k, scope, binds, depth)
    decreases |p.funcs[e.func].params| - k
  {
    hide Eval, Convert, ArgFails;
    var params := p.funcs[e.func].params;
    if k == |params| {
      assert !ArgFails(p, e, k, scope, binds, depth) by { NoArgFails(p, e, scope, binds, depth); }
    } else {
      ArgFailsFrom(p, e, k, scope, binds, depth);
      ArgsFail(p, e, k + 1, scope, binds, depth);
      if Passing(p, e, k).Some? && Eval(p, Passing(p, e, k).value, scope, binds, depth).Value? {
        ConvertMeans(Eval(p, Passing(p, e, k).value, scope, binds, depth).value, params[k].ty, Empty);
      }
    }
  }

  lemma NoArgFails(p: Program, e: Expr, scope: Scope, binds: seq<Binding>, depth: nat)
    requires Ranked(p) && e.Call? && e.func < |p.funcs|
    ensures !ArgFails(p, e, |p.funcs[e.func].params|, scope, binds, depth)
  {
  }

  /** A call is no constant exactly when the bound on nested calls is reached, or the
      function is not defined, or an argument fails, or the body does. */
  lemma CallFails(p: Program, e: Expr, scope: Scope, binds: seq<Binding>, depth: nat)
    requires Ranked(p) && e.Call?
    ensures Eval(p, e, scope, binds, depth).Failed? <==>
            || p.maxDepth <= depth
            || (e.func < |p.funcs|
                && (|| p.funcs[e.func].body.Undefined?
                    || (|e.args| <= |p.funcs[e.func].params|
                        && (|| ArgFails(p, e, 0, scope, binds, depth)
                            || exists vals :: AllBound(p, e, 0, scope, binds, depth, vals)
                                              && NothingReturned(p, e.func, vals, depth)))))
  {
    hide AllBound, NothingReturned, EvalArgs, EvalBody, ArgFails;
    if depth < p.maxDepth && e.func < |p.funcs| {
      ArgsFail(p, e, 0, scope, binds, depth);
      var args := EvalArgs(p, e, 0, scope, binds, depth);
      if args.Value? {
        ArgsMean(p, e, 0, scope, binds, depth, args.value);
        BodyMeans(p, e.func, args.value, depth, Empty);
      }
      forall vals | AllBound(p, e, 0, scope, binds, depth, vals) ensures args == Value(vals) {
        ArgsMean(p, e, 0, scope, binds, depth, vals);
      }
    }
  }
}
