/** Signed division: negate the negative operands, divide, negate the result. */
module SignedDivision {
  import opened Powers
  import opened Digits
  import opened Machine
  import opened ApInts
  import opened DivisionStep
  import opened BignumDivision
  import opened WordShifts
  import opened ApIntDivision

  /** The integer a two's complement number of the given width stands for. */
  function Signed(x: nat, bits: nat): int
    requires 0 < bits
  {
    if x < Pow(2, bits - 1) then x else x - Pow(2, bits)
  }

  /** The least integer of the width. */
  function Least(bits: nat): int
    requires 0 < bits
  {
    0 - Pow(2, bits - 1)
  }

  /** The two's complement number of an integer, reduced to the width. */
  function Residue(v: int, bits: nat): (x: nat)
    ensures x < Pow(2, bits)
  {
    PowPositive(2, bits);
    v % Pow(2, bits)
  }

  function Abs(v: int): nat
  {
    if v < 0 then -v else v
  }

  /** The quotient with its fraction discarded. */
  function TruncQuot(a: int, b: int): int
    requires b != 0
  {
    if (a < 0) == (b < 0) then Abs(a) / Abs(b) else -(Abs(a) / Abs(b))
  }

  function TruncRem(a: int, b: int): int
    requires b != 0
  {
    if a < 0 then -(Abs(a) % Abs(b)) else Abs(a) % Abs(b)
  }

  /** What truncating division is: section 5.6 of ISO/IEC 14882:2011. */
  predicate Truncates(a: int, b: int, q: int, r: int)
  {
    q * b + r == a && Abs(r) < Abs(b) && (r < 0 ==> a < 0) && (r > 0 ==> a > 0)
  }

  lemma TruncQuotRem(a: int, b: int)
    requires b != 0
    ensures Truncates(a, b, TruncQuot(a, b), TruncRem(a, b))
  {
    var q, r := Abs(a) / Abs(b), Abs(a) % Abs(b);
    DivModDef(Abs(a), Abs(b));
    FloorBounds(Abs(a), Abs(b));
    SignsOut(q, Abs(b));
  }

  lemma SignsOut(q: int, b: int)
    ensures (-q) * b == -(q * b) && q * (-b) == -(q * b) && (-q) * (-b) == q * b
  {
  }

  /** There is only one such quotient and remainder. */
  lemma TruncatesUnique(a: int, b: int, q: int, r: int)
    requires b != 0 && Truncates(a, b, q, r)
    ensures q == TruncQuot(a, b) && r == TruncRem(a, b)
  {
    var s := if (a < 0) == (b < 0) then q else -q;
    SignsOut(q, b);
    SignsOut(s, b);
    DivModUnique(Abs(a), Abs(b), s, Abs(r));
  }

  lemma PowHalf(bits: nat)
    requires 0 < bits
    ensures 0 < Pow(2, bits - 1) && Pow(2, bits) == 2 * Pow(2, bits - 1)
  {
    PowPositive(2, bits - 1);
  }

  /** Reducing and reading back: an integer in range is itself. */
  lemma SignedResidue(v: int, bits: nat)
    requires 0 < bits && Least(bits) <= v < Pow(2, bits - 1)
    ensures Signed(Residue(v, bits), bits) == v
  {
    hide Pow;
    PowHalf(bits);
    if v < 0 {
      DivModUnique(v, Pow(2, bits), -1, v + Pow(2, bits));
    } else {
      DivModUnique(v, Pow(2, bits), 0, v);
    }
  }

  lemma ResidueSigned(x: nat, bits: nat)
    requires 0 < bits && x < Pow(2, bits)
    ensures Residue(Signed(x, bits), bits) == x
    ensures Least(bits) <= Signed(x, bits) < Pow(2, bits - 1)
  {
    hide Pow;
    PowHalf(bits);
    if x < Pow(2, bits - 1) {
      DivModUnique(x, Pow(2, bits), 0, x);
    } else {
      DivModUnique(x - Pow(2, bits), Pow(2, bits), -1, x);
    }
  }

  /** The numbers sdiv and srem return, read back as signed integers: the
      remainder always truncates, and so does the quotient but for the least
      integer divided by -1, which wraps to itself; and the division law holds
      modulo the range for every pair. */
  lemma SignedDivisionTruncates(x: nat, y: nat, bits: nat)
    requires 0 < bits && x < Pow(2, bits) && 0 < y < Pow(2, bits)
    ensures Signed(y, bits) != 0
    ensures var a, b := Signed(x, bits), Signed(y, bits);
            var q, r := Residue(TruncQuot(a, b), bits), Residue(TruncRem(a, b), bits);
            && (q * y + r) % Pow(2, bits) == x
            && Signed(r, bits) == TruncRem(a, b)
            && (Truncates(a, b, Signed(q, bits), Signed(r, bits)) <==> !(a == Least(bits) && b == -1))
            && (a == Least(bits) && b == -1 ==> Signed(q, bits) == Least(bits) && r == 0)
  {
    hide Pow, Residue, TruncQuot, TruncRem, Truncates;
    PowHalf(bits);
    ResidueSigned(x, bits);
    ResidueSigned(y, bits);
    NotZero(y, bits);
    var a, b := Signed(x, bits), Signed(y, bits);
    var q, r := TruncQuot(a, b), TruncRem(a, b);
    TruncQuotRem(a, b);
    LawOfResidues(x, y, bits);
    QuotientRange(a, b, Pow(2, bits - 1));
    SignedResidue(r, bits);
    if a == Least(bits) && b == -1 {
      LeastWraps(bits);
    } else {
      SignedResidue(q, bits);
    }
  }

  lemma NotZero(y: nat, bits: nat)
    requires 0 < bits && 0 < y < Pow(2, bits)
    ensures Signed(y, bits) != 0
  {
  }

  lemma LeastWraps(bits: nat)
    requires 0 < bits
    ensures TruncQuot(Least(bits), -1) == -Least(bits) && TruncRem(Least(bits), -1) == 0
    ensures !Truncates(Least(bits), -1, Least(bits), 0)
    ensures Signed(Residue(-Least(bits), bits), bits) == Least(bits) && Residue(0, bits) == 0
  {
    hide Pow;
    PowHalf(bits);
    var half := Pow(2, bits - 1);
    DivModUnique(half, 1, half, 0);
    DivModUnique(half, 2 * half, 0, half);
    DivModUnique(0, 2 * half, 0, 0);
  }

  lemma QuotientRange(a: int, b: int, half: nat)
    requires b != 0 && 0 - half <= a < half
    ensures !(a == 0 - half && b == -1) ==> 0 - half <= TruncQuot(a, b) < half
    ensures 0 - half <= TruncRem(a, b) < half
  {
    var x, y := Abs(a), Abs(b);
    FloorBounds(x, y);
    DivModDef(x, y);
    if a == 0 - half && b < -1 && half <= x / y {
      MulMono(x / y, 2, y);
    }
  }

  lemma LawOfResidues(x: nat, y: nat, bits: nat)
    requires 0 < bits && x < Pow(2, bits) && 0 < y < Pow(2, bits) && Signed(y, bits) != 0
    ensures 0 < Pow(2, bits)
    ensures var a, b := Signed(x, bits), Signed(y, bits);
            (Residue(TruncQuot(a, b), bits) * y + Residue(TruncRem(a, b), bits)) % Pow(2, bits) == x
  {
    hide Pow, TruncQuot, TruncRem;
    PowHalf(bits);
    ResidueSigned(x, bits);
    ResidueSigned(y, bits);
    var a, b := Signed(x, bits), Signed(y, bits);
    TruncQuotRem(a, b);
    DivisionLaw(x, y, TruncQuot(a, b), TruncRem(a, b), a, b, Pow(2, bits));
  }

  /** Reducing every part of a division equation keeps it modulo m. */
  lemma DivisionLaw(x: int, y: int, q: int, r: int, a: int, b: int, m: nat)
    requires 0 < m && q * b + r == a && x == a % m && y == b % m
    ensures ((q % m) * y + r % m) % m == x
  {
    DivModDef(a, m);
    DivModDef(b, m);
    DivModDef(q, m);
    DivModDef(r, m);
    var k := LawAlgebra(q, q / m, q % m, b, b / m, y, r / m, r % m, a / m, x, m);
    DivModUnique(x, m, 0, x);
    ModShift(x, k, m);
  }

  lemma LawAlgebra(q: int, qHigh: int, qLow: int, b: int, bHigh: int, y: int, rHigh: int, rLow: int, aHigh: int, x: int, m: int)
    returns (k: int)
    requires q == qHigh * m + qLow && b == bHigh * m + y && q * b + (rHigh * m + rLow) == aHigh * m + x
    ensures qLow * y + rLow == x + k * m
  {
    k := aHigh - rHigh - qHigh * b - qLow * bHigh;
    ExpandDivision(q, qLow, qHigh, b, m);
    ExpandDivision(b, y, bHigh, qLow, m);
    Distribute(m, aHigh - rHigh, -(qHigh * b) - qLow * bHigh);
    Distribute(m, -(qHigh * b), -(qLow * bHigh));
    Distribute(m, aHigh, -rHigh);
  }

  lemma ExpandDivision(q: int, low: int, high: int, b: int, m: int)
    requires q == high * m + low
    ensures q * b == (high * b) * m + low * b
  {
    Distribute(b, high * m, low);
  }

  // ------------------------------------------------------------- the methods

  /** The top bit. */
  method GetSignBit(a: ApInt) returns (neg: bool)
    requires a.Valid()
    ensures neg <==> Signed(a.Value(), a.bits) < 0
  {
    hide Val, Pow;
    var idx := NWords(a.bits) - 1;
    var n := a.bits - 1 - idx * WordBitCount;
    PowPositive(2, n);
    neg := (a.words[idx] / Pow(2, n)) % 2 == 1;
    TopBit(a.words[..], a.bits);
  }

  lemma TopBit(s: seq<Word>, bits: nat)
    requires Canonical(s, bits)
    ensures 0 < Pow(2, LastBits(bits) - 1)
    ensures (s[|s| - 1] / Pow(2, LastBits(bits) - 1)) % 2 == 1 <==> Signed(Val(s, W), bits) < 0
  {
    hide Val, Pow;
    var top: nat := s[|s| - 1];
    var k, half := |s| - 1, Pow(2, LastBits(bits) - 1);
    PowWords(bits);
    PowHalf(bits);
    PowHalf(LastBits(bits));
    CanonicalBound(s, bits);
    AllWords(s);
    ValTopBound(s, W);
    PowPositive(W, k);
    assert Pow(2, bits - 1) == Pow(W, k) * half by {
      Associate(Pow(W, k), 2, half);
      Associate(2, Pow(W, k), half);
    }
    if top < half {
      MulMono(Pow(W, k), top + 1, half);
      DivModUnique(top, half, 0, top);
    } else {
      MulMono(Pow(W, k), half, top);
      DivModUnique(top, half, 1, top - half);
    }
  }

  /** The negation of a negative number is its absolute value. */
  lemma NegationIsAbs(x: nat, bits: nat)
    requires 0 < bits && x < Pow(2, bits)
    ensures Signed(x, bits) < 0 ==> (0 - x) % Pow(2, bits) == Abs(Signed(x, bits))
    ensures Signed(x, bits) >= 0 ==> x == Abs(Signed(x, bits))
  {
    hide Pow;
    PowHalf(bits);
    if Signed(x, bits) < 0 {
      DivModUnique(0 - x, Pow(2, bits), -1, Pow(2, bits) - x);
    }
  }

  /** Every negation and the unsigned division come out right; up to 128 bits the
      negations always do. */
  ghost predicate SDivReady(form: Form, bits: nat, x: nat, y: nat)
    requires 0 < bits && Signed(y, bits) != 0
  {
    var a, b := Signed(x, bits), Signed(y, bits);
    && (a < 0 ==> NegateRight(bits, x))
    && (b < 0 ==> NegateRight(bits, y))
    && ((a < 0) != (b < 0) ==> NegateRight(bits, Abs(a) / Abs(b)))
    && Right(form, Abs(a), Abs(b))
  }

  ghost predicate SRemReady(form: Form, bits: nat, x: nat, y: nat)
    requires 0 < bits && Signed(y, bits) != 0
  {
    var a, b := Signed(x, bits), Signed(y, bits);
    && (a < 0 ==> NegateRight(bits, x) && NegateRight(bits, Abs(a) % Abs(b)))
    && (b < 0 ==> NegateRight(bits, y))
    && Right(form, Abs(a), Abs(b))
  }

  /** Up to two words the only condition left is the borrow of the division. */
  lemma ReadyUpToTwoWords(form: Form, bits: nat, x: nat, y: nat)
    requires 0 < bits <= 128 && y < Pow(2, bits) && Signed(y, bits) != 0
    ensures SDivReady(form, bits, x, y) <==> Right(form, Abs(Signed(x, bits)), Abs(Signed(y, bits)))
    ensures SRemReady(form, bits, x, y) <==> Right(form, Abs(Signed(x, bits)), Abs(Signed(y, bits)))
    ensures bits <= 64 || form.Reduced? ==> SDivReady(form, bits, x, y) && SRemReady(form, bits, x, y)
  {
    hide Pow, DividesRight;
    if bits <= 64 {
      SmallDivisor(form, bits, x, y);
    }
    if form.Reduced? {
      ReducedDivides(Abs(Signed(x, bits)), Abs(Signed(y, bits)));
    }
  }

  lemma ReducedDivides(x: nat, y: nat)
    requires 0 < y
    ensures Right(Reduced, x, y)
  {
  }

  lemma SmallDivisor(form: Form, bits: nat, x: nat, y: nat)
    requires 0 < bits <= 64 && y < Pow(2, bits) && Signed(y, bits) != 0
    ensures Right(form, Abs(Signed(x, bits)), Abs(Signed(y, bits)))
  {
    hide Pow, DividesRight;
    PowHalf(bits);
    WordBits(bits);
    var a, b := Abs(Signed(x, bits)), Abs(Signed(y, bits));
    if b <= a { WordDivisor(form, a, b); }
  }

  lemma ReadyResult(bits: nat, x: nat, y: nat)
    requires 0 < bits && 0 < y && y < Pow(2, bits) && x < Pow(2, bits)
    ensures Signed(y, bits) != 0
    ensures var a, b := Signed(x, bits), Signed(y, bits);
            && 0 < Abs(b) && Abs(a) / Abs(b) < Pow(2, bits) && Abs(a) % Abs(b) < Pow(2, bits)
            && Residue(TruncQuot(a, b), bits) ==
               (if (a < 0) == (b < 0) then Abs(a) / Abs(b) else (0 - Abs(a) / Abs(b)) % Pow(2, bits))
            && Residue(TruncRem(a, b), bits) ==
               if a < 0 then (0 - Abs(a) % Abs(b)) % Pow(2, bits) else Abs(a) % Abs(b)
  {
    hide Pow;
    PowHalf(bits);
    NotZero(y, bits);
    var a, b := Signed(x, bits), Signed(y, bits);
    FloorBounds(Abs(a), Abs(b));
    DivModUnique(Abs(a) / Abs(b), Pow(2, bits), 0, Abs(a) / Abs(b));
    DivModUnique(Abs(a) % Abs(b), Pow(2, bits), 0, Abs(a) % Abs(b));
  }

  /** A copy, negated. */
  method Negated(a: ApInt) returns (r: ApInt)
    requires a.Valid()
    ensures fresh(r) && fresh(r.words) && r.Valid() && r.bits == a.bits
    ensures NegateRight(a.bits, a.Value()) && Signed(a.Value(), a.bits) < 0 ==>
            r.Value() == Abs(Signed(a.Value(), a.bits))
  {
    hide Val, Pow, NegateRight;
    CanonicalBound(a.words[..], a.bits);
    NegationIsAbs(a.Value(), a.bits);
    r := a.Copy();
    r.Negate();
  }

  lemma SignOf(a: ApInt)
    requires a.Valid()
    ensures 0 < a.bits && a.Value() < Pow(2, a.bits)
    ensures Signed(a.Value(), a.bits) == 0 <==> a.Value() == 0
    ensures Signed(a.Value(), a.bits) >= 0 ==> a.Value() == Abs(Signed(a.Value(), a.bits))
  {
    hide Val, Pow;
    CanonicalBound(a.words[..], a.bits);
    PowHalf(a.bits);
  }

  /** Signed division; reports a zero divisor. */
  method SDiv(form: Form, a: ApInt, b: ApInt) returns (ok: bool, q: ApInt?)
    requires a.Valid() && b.Valid() && a.bits == b.bits
    ensures b.Value() == 0 ==> !ok
    ensures b.Value() != 0 && Signed(b.Value(), b.bits) != 0 && SDivReady(form, a.bits, a.Value(), b.Value()) ==>
            ok && q != null && fresh(q) && q.bits == a.bits && q.Valid()
            && q.Value() == Residue(TruncQuot(Signed(a.Value(), a.bits), Signed(b.Value(), b.bits)), a.bits)
  {
    hide Val, Pow, Canonical, NegateRight, DividesRight, Residue, TruncQuot, TruncRem, Signed, Quot, Remd;
    SignOf(a);
    SignOf(b);
    if b.Value() != 0 { ReadyResult(a.bits, a.Value(), b.Value()); }
    var aNeg := GetSignBit(a);
    var bNeg := GetSignBit(b);
    if aNeg && bNeg {
      var posA := Negated(a);
      var posB := Negated(b);
      ok, q := UDiv(form, posA, posB);
    } else if aNeg {
      var posA := Negated(a);
      ok, q := UDiv(form, posA, b);
      if ok { q.Negate(); }
    } else if bNeg {
      var posB := Negated(b);
      ok, q := UDiv(form, a, posB);
      if ok { q.Negate(); }
    } else {
      ok, q := UDiv(form, a, b);
    }
  }

  /** Signed remainder; reports a zero divisor. */
  method SRem(form: Form, a: ApInt, b: ApInt) returns (ok: bool, r: ApInt?)
    requires a.Valid() && b.Valid() && a.bits == b.bits
    ensures b.Value() == 0 ==> !ok
    ensures b.Value() != 0 && Signed(b.Value(), b.bits) != 0 && SRemReady(form, a.bits, a.Value(), b.Value()) ==>
            ok && r != null && fresh(r) && r.bits == a.bits && r.Valid()
            && r.Value() == Residue(TruncRem(Signed(a.Value(), a.bits), Signed(b.Value(), b.bits)), a.bits)
  {
    hide Val, Pow, Canonical, NegateRight, DividesRight, Residue, TruncQuot, TruncRem, Signed, Quot, Remd;
    SignOf(a);
    SignOf(b);
    if b.Value() != 0 { ReadyResult(a.bits, a.Value(), b.Value()); }
    var aNeg := GetSignBit(a);
    var bNeg := GetSignBit(b);
    if aNeg && bNeg {
      var posA := Negated(a);
      var posB := Negated(b);
      ok, r := URem(form, posA, posB);
      if ok { r.Negate(); }
    } else if aNeg {
      var posA := Negated(a);
      ok, r := URem(form, posA, b);
      if ok { r.Negate(); }
    } else if bNeg {
      var posB := Negated(b);
      ok, r := URem(form, a, posB);
    } else {
      ok, r := URem(form, a, b);
    }
  }
}
