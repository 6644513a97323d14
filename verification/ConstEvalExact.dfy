/** Evaluation over the integers themselves: where no step leaves the range of its type,
    the evaluator computes the mathematical value. */
module ConstEvalExact {
  import opened Powers
  import opened SignedDivision
  import opened ConstValues
  import opened ConstEval
  import opened Options

  /** An integer as a value of an integer type. */
  datatype Exact = Exact(bits: nat, signed: bool, z: int)

  predicate InRange(z: int, bits: nat, signed: bool)
  {
    0 < bits && if signed then 0 - Pow(2, bits - 1) <= z < Pow(2, bits - 1) else 0 <= z < Pow(2, bits)
  }

  /** The conversion to an integer type keeps the integer; a large unsigned one does not
      survive widening to a signed type, as written. */
  predicate Keeps(x: Exact, ty: Ty)
  {
    && ty.IntTy? && 0 < x.bits && InRange(x.z, ty.bits, ty.signed)
    && (x.bits < ty.bits && ty.signed && !x.signed ==> x.z < Pow(2, x.bits - 1))
  }

  function OfVal(v: Val): Option<Exact>
  {
    if v.Int? && 0 < v.bits && v.v < Pow(2, v.bits) then Some(Exact(v.bits, v.signed, Number(v))) else None
  }

  function ToVal(z: int, bits: nat, signed: bool): Val
  {
    Int(bits, signed, Residue(z, bits))
  }

  /** The operators on integers; division discards the fraction. */
  function OnIntegers(op: BinaryOp, x: int, y: int): Option<int>
  {
    match op
    case Add => Some(x + y)
    case Sub => Some(x - y)
    case Mul => Some(x * y)
    case Div => if y == 0 then None else Some(TruncQuot(x, y))
    case Mod => if y == 0 then None else Some(TruncRem(x, y))
    case _ => None
  }

  function IfInRange(z: int, bits: nat, signed: bool): Option<Exact>
  {
    if InRange(z, bits, signed) then Some(Exact(bits, signed, z)) else None
  }

  /** The integer an expression stands for, if every integer on the way is in the range
      of its type. */
  function Integer(p: Program, e: Expr, scope: Scope, binds: seq<Binding>, depth: nat): Option<Exact>
    requires Ranked(p)
    decreases Left(p, depth), Rank(p, e), e
  {
    match e
    case Lit(v) => OfVal(v)
    case Folded(v) => OfVal(v)
    case Ident(name) => (match IdentValue(name, scope, binds) case Value(v) => OfVal(v) case _ => None)
    case Opaque => None
    case Unary(op, a) =>
      (match Integer(p, a, scope, binds, depth)
       case Some(x) =>
         IfInRange(match op case Minus => 0 - x.z case Plus => x.z case BitNot => -1 - x.z, x.bits, x.signed)
       case None => None)
    case Binary(op, ty, l, r) =>
      (match (Integer(p, l, scope, binds, depth), Integer(p, r, scope, binds, depth))
       case (Some(x), Some(y)) =>
         if Keeps(x, ty) && Keeps(y, ty) && OnIntegers(op, x.z, y.z).Some? then
           IfInRange(OnIntegers(op, x.z, y.z).value, ty.bits, ty.signed)
         else None
       case _ => None)
    case Call(f, args) =>
      if depth >= p.maxDepth || f >= |p.funcs| || p.funcs[f].body.Undefined? || |args| > |p.funcs[f].params| then None
      else
        match Parameters(p, e, 0, scope, binds, depth)
        case Some(vals) => ReturnedInteger(p, f, vals, depth)
        case None => None
  }

  /** The parameters from k on, bound to the integers of their arguments. */
  function Parameters(p: Program, e: Expr, k: nat, scope: Scope, binds: seq<Binding>, depth: nat): Option<seq<Binding>>
    requires Ranked(p) && e.Call? && e.func < |p.funcs| && k <= |p.funcs[e.func].params|
    decreases Left(p, depth), Rank(p, e), e, |p.funcs[e.func].params| - k
  {
    if k == |p.funcs[e.func].params| then Some([])
    else
      var param := p.funcs[e.func].params[k];
      var arg := if k < |e.args| then Some(e.args[k]) else param.byDefault;
      if arg.None? then None
      else
        ArgSmaller(p, e, k);
        match (Integer(p, arg.value, scope, binds, depth), Parameters(p, e, k + 1, scope, binds, depth))
        case (Some(x), Some(rest)) =>
          if Keeps(x, param.ty) then Some([Binding(param.name, ToVal(x.z, param.ty.bits, param.ty.signed))] + rest)
          else None
        case _ => None
  }

  function ReturnedInteger(p: Program, f: nat, vals: seq<Binding>, depth: nat): Option<Exact>
    requires Ranked(p) && f < |p.funcs| && depth < p.maxDepth
    decreases Left(p, depth + 1)
  {
    var func := p.funcs[f];
    match func.body
    case Return(e) =>
      (match Integer(p, e, func.scope, vals, depth + 1)
       case Some(x) => if Keeps(x, func.ret) then Some(Exact(func.ret.bits, func.ret.signed, x.z)) else None
       case None => None)
    case _ => None
  }

  // ------------------------------------------------------------ single steps

  /** A stored number and the integer it stands for, in range, determine each
      other. */
  lemma StoredIs(z: int, bits: nat, signed: bool)
    requires InRange(z, bits, signed)
    ensures Residue(z, bits) < Pow(2, bits)
    ensures Number(ToVal(z, bits, signed)) == z
  {
    hide Pow;
    if signed { SignedResidue(z, bits); } else { DivModUnique(z, Pow(2, bits), 0, z); }
  }

  lemma OfValIs(v: Val)
    requires OfVal(v).Some?
    ensures var x := OfVal(v).value; InRange(x.z, x.bits, x.signed) && v == ToVal(x.z, x.bits, x.signed)
  {
    hide Pow;
    PowHalf(v.bits);
    ResidueSigned(v.v, v.bits);
    DivModUnique(v.v, Pow(2, v.bits), 0, v.v);
  }

  lemma KeptBy(x: Exact, ty: Ty)
    requires InRange(x.z, x.bits, x.signed) && Keeps(x, ty)
    ensures Convert(ToVal(x.z, x.bits, x.signed), ty) == Value(ToVal(x.z, ty.bits, ty.signed))
  {
    hide Pow, Residue, Signed;
    var v := Residue(x.z, x.bits);
    StoredIs(x.z, x.bits, x.signed);
    ConvertKeepsNumber(x.bits, x.signed, v, ty.bits, ty.signed);
    var y := Convert(ToVal(x.z, x.bits, x.signed), ty).value;
    NumberResidue(y);
    SmallNumber(x, ty);
  }

  /** The top bit is clear where that matters. */
  lemma SmallNumber(x: Exact, ty: Ty)
    requires InRange(x.z, x.bits, x.signed) && Keeps(x, ty)
    ensures ty.bits <= x.bits || x.signed == ty.signed || Residue(x.z, x.bits) < Pow(2, x.bits - 1)
  {
    hide Pow;
    PowHalf(x.bits);
    if 0 <= x.z { DivModUnique(x.z, Pow(2, x.bits), 0, x.z); }
  }

  lemma OperatorIs(op: BinaryOp, x: int, y: int, bits: nat, signed: bool)
    requires InRange(x, bits, signed) && InRange(y, bits, signed) && OnIntegers(op, x, y).Some?
    ensures Compute(op, IntTy(bits, signed), Residue(x, bits), Residue(y, bits))
            == Value(ToVal(OnIntegers(op, x, y).value, bits, signed))
  {
    hide Pow, Residue, Signed, TruncQuot, TruncRem;
    StoredIs(x, bits, signed);
    StoredIs(y, bits, signed);
    ResiduesCombine(x, y, bits);
    if y != 0 { NonzeroResidue(y, bits, signed); }
    if !signed && y != 0 { PlainDivision(x, y, bits); }
  }

  lemma NonzeroResidue(y: int, bits: nat, signed: bool)
    requires InRange(y, bits, signed) && y != 0
    ensures Residue(y, bits) != 0
  {
    hide Pow;
    PowHalf(bits);
    if y < 0 { DivModUnique(y, Pow(2, bits), -1, y + Pow(2, bits)); } else { DivModUnique(y, Pow(2, bits), 0, y); }
  }

  lemma PlainDivision(x: nat, y: nat, bits: nat)
    requires y != 0 && x < Pow(2, bits) && y < Pow(2, bits)
    ensures Residue(x, bits) == x && Residue(y, bits) == y && TruncQuot(x, y) == x / y && TruncRem(x, y) == x % y
  {
    hide Pow;
    DivModUnique(x, Pow(2, bits), 0, x);
    DivModUnique(y, Pow(2, bits), 0, y);
  }

  /** Reducing the operands first does not change a sum, a difference or a product. */
  lemma ResiduesCombine(x: int, y: int, bits: nat)
    ensures Residue(Residue(x, bits) + Residue(y, bits), bits) == Residue(x + y, bits)
    ensures Residue(Residue(x, bits) - Residue(y, bits), bits) == Residue(x - y, bits)
    ensures Residue(Residue(x, bits) * Residue(y, bits), bits) == Residue(x * y, bits)
  {
    hide Pow;
    PowPositive(2, bits);
    SumModulo(x, y, Pow(2, bits));
    DifferenceModulo(x, y, Pow(2, bits));
    ProductModulo(x, y, Pow(2, bits));
  }

  lemma Shifted(z: int, r: int, k: int, m: nat)
    requires 0 < m && z == r + k * m
    ensures r % m == z % m
  {
    ModShift(r, k, m);
  }

  lemma SumModulo(x: int, y: int, m: nat)
    requires 0 < m
    ensures (x % m + y % m) % m == (x + y) % m
  {
    DivModDef(x, m);
    DivModDef(y, m);
    Distribute(m, x / m, y / m);
    Shifted(x + y, x % m + y % m, x / m + y / m, m);
  }

  lemma DifferenceModulo(x: int, y: int, m: nat)
    requires 0 < m
    ensures (x % m - y % m) % m == (x - y) % m
  {
    var i, j := x / m, y / m;
    DivModDef(x, m);
    DivModDef(y, m);
    assert (i - j) * m == i * m - j * m by { Distribute(m, i - j, j); }
    Shifted(x - y, x % m - y % m, i - j, m);
  }

  lemma ProductModulo(x: int, y: int, m: nat)
    requires 0 < m
    ensures ((x % m) * (y % m)) % m == (x * y) % m
  {
    DivModDef(x, m);
    DivModDef(y, m);
    var k := ProductOfSums(x / m, y / m, m, x % m, y % m);
    Shifted(x * y, (x % m) * (y % m), k, m);
  }

  lemma ProductOfSums(i: int, j: int, m: int, a: int, b: int) returns (k: int)
    ensures (i * m + a) * (j * m + b) == a * b + k * m
  {
    k := i * j * m + i * b + a * j;
  }

  // -------------------------------------------------------- whole expressions

  /** Where no step leaves the range of its type the evaluator computes the integer:
      through operators, conversions, names, default arguments and calls. */
  lemma {:induction false} IntegerIsValue(p: Program, e: Expr, scope: Scope, binds: seq<Binding>, depth: nat)
    requires Ranked(p) && Integer(p, e, scope, binds, depth).Some?
    ensures var x := Integer(p, e, scope, binds, depth).value;
            && InRange(x.z, x.bits, x.signed)
            && Eval(p, e, scope, binds, depth) == Value(ToVal(x.z, x.bits, x.signed))
            && Number(ToVal(x.z, x.bits, x.signed)) == x.z
    decreases Left(p, depth), Rank(p, e), e
  {
    hide Convert, Compute, Keeps, OnIntegers, InRange, ToVal, OfVal, ApplyUnary, IfInRange;
    match e {
      case Lit(v) => OfValIs(v);
      case Folded(v) => OfValIs(v);
      case Ident(name) => OfValIs(IdentValue(name, scope, binds).value);
      case Unary(op, a) =>
        IntegerIsValue(p, a, scope, binds, depth);
        UnaryStep(op, Integer(p, a, scope, binds, depth).value);
      case Binary(op, ty, l, r) =>
        IntegerIsValue(p, l, scope, binds, depth);
        IntegerIsValue(p, r, scope, binds, depth);
        BinaryStep(op, ty, Integer(p, l, scope, binds, depth).value, Integer(p, r, scope, binds, depth).value);
      case Call(f, args) =>
        ParametersAreBound(p, e, 0, scope, binds, depth);
        ReturnedIsValue(p, f, Parameters(p, e, 0, scope, binds, depth).value, depth);
    }
    var x := Integer(p, e, scope, binds, depth).value;
    StoredIs(x.z, x.bits, x.signed);
  }

  lemma UnaryStep(op: UnaryOp, x: Exact)
    requires InRange(x.z, x.bits, x.signed)
    requires var z := match op case Minus => 0 - x.z case Plus => x.z case BitNot => -1 - x.z;
             IfInRange(z, x.bits, x.signed).Some?
    ensures var z := match op case Minus => 0 - x.z case Plus => x.z case BitNot => -1 - x.z;
            && IfInRange(z, x.bits, x.signed) == Some(Exact(x.bits, x.signed, z)) && InRange(z, x.bits, x.signed)
            && ApplyUnary(op, ToVal(x.z, x.bits, x.signed)) == Value(ToVal(z, x.bits, x.signed))
  {
    hide Pow;
    PowPositive(2, x.bits);
    var m: nat := Pow(2, x.bits);
    DivModDef(x.z, m);
    ModShift(0 - x.z, x.z / m, m);
    ModShift(-1 - x.z, x.z / m, m);
  }

  lemma BinaryStep(op: BinaryOp, ty: Ty, x: Exact, y: Exact)
    requires InRange(x.z, x.bits, x.signed) && InRange(y.z, y.bits, y.signed) && Keeps(x, ty) && Keeps(y, ty)
    requires OnIntegers(op, x.z, y.z).Some? && IfInRange(OnIntegers(op, x.z, y.z).value, ty.bits, ty.signed).Some?
    ensures var z := OnIntegers(op, x.z, y.z).value;
            && IfInRange(z, ty.bits, ty.signed) == Some(Exact(ty.bits, ty.signed, z)) && InRange(z, ty.bits, ty.signed)
            && ApplyBinary(op, ty, ToVal(x.z, x.bits, x.signed), ToVal(y.z, y.bits, y.signed))
               == Value(ToVal(z, ty.bits, ty.signed))
  {
    hide Pow, Convert, Compute, OnIntegers, Residue;
    KeptBy(x, ty);
    KeptBy(y, ty);
    OperatorIs(op, x.z, y.z, ty.bits, ty.signed);
  }

  lemma {:induction false} ParametersAreBound(p: Program, e: Expr, k: nat, scope: Scope, binds: seq<Binding>, depth: nat)
    requires Ranked(p) && e.Call? && e.func < |p.funcs| && k <= |p.funcs[e.func].params|
    requires Parameters(p, e, k, scope, binds, depth).Some?
    ensures EvalArgs(p, e, k, scope, binds, depth) == Value(Parameters(p, e, k, scope, binds, depth).value)
    decreases Left(p, depth), Rank(p, e), e, |p.funcs[e.func].params| - k
  {
    hide Convert, Keeps, InRange, ToVal, Integer;
    if k < |p.funcs[e.func].params| {
      ArgSmaller(p, e, k);
      var arg := ArgExpr(p, e, k).value;
      IntegerIsValue(p, arg, scope, binds, depth);
      KeptBy(Integer(p, arg, scope, binds, depth).value, p.funcs[e.func].params[k].ty);
      ParametersAreBound(p, e, k + 1, scope, binds, depth);
    }
  }

  lemma {:induction false} ReturnedIsValue(p: Program, f: nat, vals: seq<Binding>, depth: nat)
    requires Ranked(p) && f < |p.funcs| && depth < p.maxDepth && ReturnedInteger(p, f, vals, depth).Some?
    ensures var x := ReturnedInteger(p, f, vals, depth).value;
            && InRange(x.z, x.bits, x.signed)
            && EvalBody(p, f, vals, depth) == Value(ToVal(x.z, x.bits, x.signed))
    decreases Left(p, depth + 1)
  {
    hide Convert, ToVal, Integer, Pow;
    var func := p.funcs[f];
    IntegerIsValue(p, func.body.value, func.scope, vals, depth + 1);
    KeptBy(Integer(p, func.body.value, func.scope, vals, depth + 1).value, func.ret);
  }
}
