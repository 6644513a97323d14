/** The integer values of constant expressions and the arithmetic on them. */
module ConstValues {
  import opened Powers
  import opened SignedDivision
  import opened ApIntBitwise
  import Machine

  datatype Ty = VoidTy | IntTy(bits: nat, signed: bool)

  /** A value; a call of a void function yields the empty one. */
  datatype Val = Empty | Int(bits: nat, signed: bool, v: nat)

  /** An evaluation yields a value, fails because the expression is no constant, or
      stops the compiler. */
  datatype Result<T> = Value(value: T) | Failed | Crash

  datatype UnaryOp = Minus | Plus | BitNot

  /** Unsupported stands for the binary operators the evaluator stops at. */
  datatype BinaryOp = Add | Sub | Mul | Div | Mod | And | Xor | Or | Unsupported

  /** Width and kind become the target's.  A number that widens is extended as the
      target is signed, not as the source is. */
  function Convert(x: Val, ty: Ty): Result<Val>
  {
    match x
    case Empty => if ty.VoidTy? then Value(Empty) else Crash
    case Int(bits, signed, v) =>
      if ty.VoidTy? then Crash
      else if bits == 0 || (bits < ty.bits && !ty.signed) then Value(Int(ty.bits, ty.signed, Residue(v, ty.bits)))
      else if bits < ty.bits then Value(Int(ty.bits, ty.signed, Residue(Signed(v, bits), ty.bits)))
      else Value(Int(ty.bits, ty.signed, Residue(v, ty.bits)))
  }

  function ApplyUnary(op: UnaryOp, x: Val): Result<Val>
  {
    match x
    case Empty => Crash
    case Int(bits, signed, v) =>
      match op
      case Minus => Value(Int(bits, signed, Residue(0 - v, bits)))
      case Plus => Value(x)
      case BitNot => Value(Int(bits, signed, Residue(-1 - v, bits)))
  }

  /** Two numbers of the result's type: section 5 of ISO/IEC 14882:2011.  A zero
      divisor stops the compiler. */
  function Compute(op: BinaryOp, ty: Ty, x: nat, y: nat): Result<Val>
    requires ty.IntTy? && 0 < ty.bits
  {
    var n := ty.bits;
    var wrap := (r: int) => Value(Int(n, ty.signed, Residue(r, n)));
    match op
    case Add => wrap(x + y)
    case Sub => wrap(x - y)
    case Mul => wrap(x * y)
    case Div =>
      if y == 0 || (ty.signed && Signed(y, n) == 0) then Crash
      else if ty.signed then wrap(TruncQuot(Signed(x, n), Signed(y, n))) else wrap(x / y)
    case Mod =>
      if y == 0 || (ty.signed && Signed(y, n) == 0) then Crash
      else if ty.signed then wrap(TruncRem(Signed(x, n), Signed(y, n))) else wrap(x % y)
    case And => wrap(Gated(Both, x, y))
    case Xor => wrap(Gated(OneOf, x, y))
    case Or => wrap(Gated(Either, x, y))
    case Unsupported => Crash
  }

  /** Both operands are converted to the type of the expression. */
  function ApplyBinary(op: BinaryOp, ty: Ty, x: Val, y: Val): Result<Val>
  {
    match (Convert(x, ty), Convert(y, ty))
    case (Value(Int(_, _, a)), Value(Int(_, _, b))) =>
      if ty.VoidTy? || ty.bits == 0 then Crash else Compute(op, ty, a, b)
    case _ => Crash
  }

  // ------------------------------------------------ what a conversion preserves

  /** The integer a value of an integer type stands for. */
  function Number(x: Val): int
    requires x.Int? && 0 < x.bits
  {
    if x.signed then Signed(x.v, x.bits) else x.v
  }

  /** A conversion is right, section 4.7 of ISO/IEC 14882:2011, when it keeps the
      integer modulo 2^m, m the width of the target.  It is so exactly when the
      number does not widen, or widens to a type of its own signedness, or its top
      bit is clear. */
  lemma ConvertKeepsNumber(n: nat, s: bool, v: nat, m: nat, t: bool)
    requires 0 < n && 0 < m && v < Pow(2, n)
    ensures Convert(Int(n, s, v), IntTy(m, t)).Value?
    ensures var x, y := Int(n, s, v), Convert(Int(n, s, v), IntTy(m, t)).value;
            && y.Int? && y.bits == m && y.signed == t && y.v < Pow(2, m)
            && (Residue(Number(y), m) == Residue(Number(x), m) <==> m <= n || s == t || v < Pow(2, n - 1))
  {
    hide Pow;
    var y := Convert(Int(n, s, v), IntTy(m, t)).value;
    NumberResidue(y);
    if m <= n {
      NarrowSame(n, v, m);
    } else {
      WidenDiffers(n, v, m);
    }
  }

  /** A stored number is the residue of the integer it stands for. */
  lemma NumberResidue(y: Val)
    requires y.Int? && 0 < y.bits && y.v < Pow(2, y.bits)
    ensures Residue(Number(y), y.bits) == y.v
  {
    hide Pow;
    ResidueSigned(y.v, y.bits);
    DivModUnique(y.v, Pow(2, y.bits), 0, y.v);
  }

  /** Both readings of a number agree modulo a range no larger than its own. */
  lemma NarrowSame(n: nat, v: nat, m: nat)
    requires 0 < m <= n
    ensures Residue(Signed(v, n), m) == Residue(v, m)
  {
    hide Pow;
    PowSplit(2, m, n);
    PowPositive(2, m);
    ModShift(v, 0 - Pow(2, n - m), Pow(2, m));
  }

  /** They differ modulo a larger range when the top bit is set. */
  lemma WidenDiffers(n: nat, v: nat, m: nat)
    requires 0 < n < m && v < Pow(2, n)
    ensures Residue(Signed(v, n), m) == Residue(v, m) <==> v < Pow(2, n - 1)
  {
    hide Pow;
    PowStrict(2, n, m);
    PowHalf(n);
    DivModUnique(v, Pow(2, m), 0, v);
    if Pow(2, n - 1) <= v {
      DivModUnique(v - Pow(2, n), Pow(2, m), -1, v - Pow(2, n) + Pow(2, m));
    }
  }

  /** The other side: 2^32 - 1 of an unsigned type becomes -1 of a wider signed
      one. */
  lemma UnsignedWidensNegative()
    ensures Convert(Int(32, false, 0xFFFF_FFFF), IntTy(64, true)) == Value(Int(64, true, 0xFFFF_FFFF_FFFF_FFFF))
    ensures Number(Int(32, false, 0xFFFF_FFFF)) == 0xFFFF_FFFF && Number(Int(64, true, 0xFFFF_FFFF_FFFF_FFFF)) == -1
  {
    Machine.TwoToThe64();
    PowHalf(32);
    PowHalf(64);
    DivModUnique(-1, Pow(2, 64), -1, Pow(2, 64) - 1);
  }
}
