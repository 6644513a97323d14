/** The evaluator's arithmetic is that of the arbitrary-width integers. */
module ConstArithmetic {
  import opened Powers
  import Digits
  import opened Machine
  import opened WordShifts
  import opened ApInts
  import opened ApIntMultiply
  import opened ApIntDivision
  import opened SignedDivision
  import opened DivisionStep
  import opened BignumDivision
  import opened ApIntBitwise
  import opened ConstValues

  /** Two operands converted to the type of the expression, at most a word wide as
      every integer type is: what the integer operations compute, as written, is the
      value of the expression, and they stop where it has none, which is at a zero
      divisor and at an operator that is not supported. */
  method EvalIntBinop(op: BinaryOp, ty: Ty, a: ApInt, b: ApInt) returns (ok: bool, r: ApInt?)
    requires ty.IntTy? && 0 < ty.bits <= 64
    requires a.Valid() && b.Valid() && a.bits == b.bits == ty.bits
    ensures !ok <==> Compute(op, ty, a.Value(), b.Value()) == Crash
    ensures !ok <==> op.Unsupported? || ((op.Div? || op.Mod?) && b.Value() == 0)
    ensures ok ==>
            r != null && fresh(r) && r.Valid() && r.bits == ty.bits
            && Compute(op, ty, a.Value(), b.Value()) == Value(Int(ty.bits, ty.signed, r.Value()))
  {
    hide Digits.Val, Pow, Canonical, Signed, TruncQuot, TruncRem, DividesRight, SDivReady, SRemReady, Right, Gated;
    SignOf(a);
    SignOf(b);
    ghost var x, y := a.Value(), b.Value();
    if y != 0 { WordsDivide(ty.bits, x, y); }
    ok := true;
    match op {
      case Add =>
        r := a.Copy();
        r.Add(b);
      case Sub =>
        r := a.Copy();
        r.Sub(b);
      case Mul =>
        r := NipMul(a, b);
      case Div =>
        if ty.signed { ok, r := SDiv(AsWritten, a, b); } else { ok, r := UDiv(AsWritten, a, b); }
      case Mod =>
        if ty.signed { ok, r := SRem(AsWritten, a, b); } else { ok, r := URem(AsWritten, a, b); }
      case And => r := NipGate(Both, a, b);
      case Xor => r := NipGate(OneOf, a, b);
      case Or => r := NipGate(Either, a, b);
      case Unsupported =>
        ok, r := false, null;
    }
  }

  /** The sign extension of a word from one width to a larger one: the sign bit is
      flipped and subtracted again. */
  function SignExtWord(w: Word, oldBits: nat, newBits: nat): (r: Word)
    requires 0 < oldBits <= newBits <= 64
  {
    WordBits(oldBits - 1);
    TopBitFits(oldBits);
    MaskWord(U64(GateWord(OneOf, w, Pow(2, oldBits - 1)) - Pow(2, oldBits - 1)), newBits)
  }

  lemma TopBitFits(bits: nat)
    requires 0 < bits <= 64
    ensures Pow(2, bits - 1) < W
  {
    TwoToThe64();
    PowStrict(2, bits - 1, 64);
  }

  lemma SignExtIs(w: Word, oldBits: nat, newBits: nat)
    requires 0 < oldBits <= newBits <= 64 && w < Pow(2, oldBits)
    ensures SignExtWord(w, oldBits, newBits) == Residue(Signed(w, oldBits), newBits)
  {
    hide Pow, Gated, Signed, U64;
    FlippedSign(w, oldBits);
    WrapWord(U64(Signed(w, oldBits)), Signed(w, oldBits), newBits) by { IsModulo(Signed(w, oldBits)); }
  }

  lemma IsModulo(x: int)
    ensures U64(x) == x % W
  {
  }

  lemma FlippedSign(w: Word, bits: nat)
    requires 0 < bits <= 64 && w < Pow(2, bits)
    ensures 0 <= Pow(2, bits - 1) < W && GateWord(OneOf, w, Pow(2, bits - 1)) - Pow(2, bits - 1) == Signed(w, bits)
  {
    hide Pow, Gated;
    TopBitFits(bits);
    PowHalf(bits);
    FlipTop(w, bits - 1);
  }

  /** A conversion between integer types in place, as the widths of the types are: the
      word is extended as the target is signed, or truncated. */
  method ConvertInt(a: ApInt, ty: Ty, ghost signed: bool)
    requires a.Valid() && a.bits <= 64 && ty.IntTy? && 0 < ty.bits <= 64
    modifies a, a.words
    ensures a.Valid() && a.bits == ty.bits
    ensures Convert(Int(old(a.bits), signed, old(a.Value())), ty) == Value(Int(ty.bits, ty.signed, a.Value()))
  {
    hide Digits.Val, Pow, Gated, Signed, SignExtWord;
    CanonicalBound(a.words[..], a.bits);
    SingleWord(a);
    if ty.bits > a.bits && ty.signed {
      SignExtIs(a.words[0], a.bits, ty.bits);
      a.words[0] := SignExtWord(a.words[0], a.bits, ty.bits);
    } else {
      a.words[0] := MaskWord(a.words[0], ty.bits);
    }
    OneWordIs(a.words, a.words[0]);
    a.bits := ty.bits;
    SmallIsCanonical(a.words[..], a.bits);
  }

  /** A bitwise operation on a copy. */
  method NipGate(gate: Gate, a: ApInt, b: ApInt) returns (r: ApInt)
    requires a.Valid() && b.Valid() && a.bits == b.bits
    ensures fresh(r) && r.Valid() && r.bits == a.bits
    ensures r.Value() == Gated(gate, a.Value(), b.Value()) == Residue(Gated(gate, a.Value(), b.Value()), a.bits)
  {
    hide Digits.Val, Pow, Gated;
    CanonicalBound(a.words[..], a.bits);
    CanonicalBound(b.words[..], b.bits);
    GatedBound(gate, a.Value(), b.Value(), a.bits);
    DivModUnique(Gated(gate, a.Value(), b.Value()), Pow(2, a.bits), 0, Gated(gate, a.Value(), b.Value()));
    r := a.Copy();
    ApplyGate(gate, r, b);
  }

  /** The unary operators on an integer of at most a word: what negation, as
      written, and complement leave is the value of the expression. */
  method EvalIntUnaryop(op: UnaryOp, signed: bool, a: ApInt) returns (r: ApInt)
    requires a.Valid() && a.bits <= 64
    ensures fresh(r) && r.Valid() && r.bits == a.bits
    ensures ApplyUnary(op, Int(a.bits, signed, a.Value())) == Value(Int(a.bits, signed, r.Value()))
  {
    hide Digits.Val, Pow;
    CanonicalBound(a.words[..], a.bits);
    ghost var x: int, p := a.Value(), Pow(2, a.bits);
    r := a.Copy();
    match op {
      case Minus => r.Negate();
      case Plus =>
      case BitNot =>
        r.Not();
        DivModUnique(-1 - x, p, -1, p - 1 - x);
    }
  }

  /** One-word operands divide right as written. */
  lemma WordsDivide(bits: nat, x: nat, y: nat)
    requires 0 < bits <= 64 && x < Pow(2, bits) && 0 < y < Pow(2, bits)
    ensures Signed(y, bits) != 0
    ensures SDivReady(AsWritten, bits, x, y) && SRemReady(AsWritten, bits, x, y) && Right(AsWritten, x, y)
    ensures x / y < Pow(2, bits) && x % y < Pow(2, bits)
    ensures Residue(x / y, bits) == x / y && Residue(x % y, bits) == x % y
  {
    hide Pow, DividesRight;
    NotZero(y, bits);
    ReadyUpToTwoWords(AsWritten, bits, x, y);
    WordBits(bits);
    if y <= x { WordDivisor(AsWritten, x, y); }
    FloorBounds(x, y);
    DivModUnique(x / y, Pow(2, bits), 0, x / y);
    DivModUnique(x % y, Pow(2, bits), 0, x % y);
  }
}
