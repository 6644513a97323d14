/** Comparing floats: by sign, then exponent, then significand. */
module FloatCompare {
  import opened Powers
  import opened Digits
  import opened ApInts
  import opened ApIntDivision
  import opened Floats
  import FloatRounding

  /** A float that may be compared: well formed if it is finite and not zero. */
  ghost predicate Comparable(a: IEEE)
    reads a, a.mant, a.mant.words
  {
    a.cat.Normal? ==> a.WellFormed()
  }

  /** The represented number, in the units of Size; an infinity is put just past
      the range. */
  ghost function Represents(a: IEEE): int
    requires Comparable(a) && !a.cat.NaN?
    reads a, a.mant, a.mant.words
  {
    var size: int := match a.cat
      case Zero => 0
      case Infinite => Huge(a.kind)
      case Normal => a.Size();
    if a.neg then 0 - size else size
  }

  lemma SizeRange(a: IEEE)
    requires a.WellFormed()
    ensures 0 < a.Size() < Huge(a.kind)
  {
    hide Val, Pow, ExpMax, NumBits;
    ExpRange(a.kind);
    var p, m, k := MantBits(a.kind), a.mant.Value(), a.exp - EffExpMin(a.kind);
    CanonicalBound(a.mant.words[..], a.mant.bits);
    PowPositive(2, k);
    MulStrict(Pow(2, k), 0, m);
    MulStrict(Pow(2, k), m, Pow(2, p));
    PowAdd(2, p, k);
    PowMono(2, p + k, p + (ExpMax(a.kind) - EffExpMin(a.kind)));
  }

  /** The larger exponent has the larger size, and under one exponent the larger
      significand has. */
  lemma SizeOrder(a: IEEE, b: IEEE)
    requires a.WellFormed() && b.WellFormed() && a.kind == b.kind
    ensures a.exp < b.exp ==> a.Size() < b.Size()
    ensures b.exp < a.exp ==> b.Size() < a.Size()
    ensures a.exp == b.exp ==> (a.Size() < b.Size() <==> a.mant.Value() < b.mant.Value())
    ensures a.exp == b.exp ==> (a.Size() == b.Size() <==> a.mant.Value() == b.mant.Value())
  {
    hide Val, Pow, ExpMax;
    if a.exp < b.exp {
      ExponentDecides(a, b);
    } else if b.exp < a.exp {
      ExponentDecides(b, a);
    } else {
      var u := Pow(2, a.exp - EffExpMin(a.kind));
      PowPositive(2, a.exp - EffExpMin(a.kind));
      FloatRounding.ScaleLess(a.mant.Value(), b.mant.Value(), u);
    }
  }

  lemma ExponentDecides(a: IEEE, b: IEEE)
    requires a.WellFormed() && b.WellFormed() && a.kind == b.kind && a.exp < b.exp
    ensures a.Size() < b.Size()
  {
    hide Val, Pow, ExpMax;
    var p, i, j := MantBits(a.kind), a.exp - EffExpMin(a.kind), b.exp - EffExpMin(b.kind);
    CanonicalBound(a.mant.words[..], a.mant.bits);
    PowPositive(2, i);
    PowPositive(2, j);
    MulStrict(Pow(2, i), a.mant.Value(), Pow(2, p));
    MulMono(Pow(2, j), Pow(2, p - 1), b.mant.Value());
    PowAdd(2, p, i);
    PowAdd(2, p - 1, j);
    PowMono(2, p + i, p - 1 + j);
  }

  lemma HugePositive(kind: Kind)
    ensures 0 < Huge(kind)
  {
    hide ExpMax;
    ExpRange(kind);
    PowPositive(2, MantBits(kind) + (ExpMax(kind) - EffExpMin(kind)));
  }

  lemma Ranges(a: IEEE, b: IEEE)
    requires a.kind == b.kind && Comparable(a) && Comparable(b) && !a.cat.NaN? && !b.cat.NaN?
    ensures 0 < Huge(a.kind)
    ensures a.cat.Normal? ==> 0 < a.Size() < Huge(a.kind)
    ensures b.cat.Normal? ==> 0 < b.Size() < Huge(a.kind)
  {
    hide Val, Pow, ExpMax;
    HugePositive(a.kind);
    if a.cat.Normal? { SizeRange(a); }
    if b.cat.Normal? { SizeRange(b); }
  }

  /** Equality holds exactly between equal numbers, and never for a NaN. */
  method IsEq(a: IEEE, b: IEEE) returns (r: bool)
    requires a.kind == b.kind && a.rounding == b.rounding && Comparable(a) && Comparable(b)
    ensures a.cat.NaN? || b.cat.NaN? ==> !r
    ensures !a.cat.NaN? && !b.cat.NaN? ==> (r <==> Represents(a) == Represents(b))
  {
    hide Val, Pow, ExpMax, Huge;
    if a.cat.NaN? || b.cat.NaN? { return false; }
    Ranges(a, b);
    if a.cat.Zero? && b.cat.Zero? { return true; }
    if a.neg != b.neg { return false; }
    if a.cat != b.cat { return false; }
    if a.cat.Normal? {
      SizeOrder(a, b);
      var cmp := UnsignedCmp(a.mant, b.mant);
      return a.exp == b.exp && cmp == 0;
    }
    r := true;
  }

  /** Two infinities of one sign: neither is above the other, but the code as
      written answers that they are. */
  ghost predicate BothInfinite(a: IEEE, b: IEEE, neg: bool)
    reads a, b
  {
    a.cat.Infinite? && b.cat.Infinite? && a.neg == neg && b.neg == neg
  }

  /** "Greater" holds exactly when the number is greater, but for two positive
      infinities. */
  method IsGt(a: IEEE, b: IEEE) returns (r: bool)
    requires a.kind == b.kind && a.rounding == b.rounding && Comparable(a) && Comparable(b)
    ensures a.cat.NaN? || b.cat.NaN? ==> !r
    ensures !a.cat.NaN? && !b.cat.NaN? ==>
            (r <==> Represents(a) > Represents(b) || BothInfinite(a, b, false))
  {
    hide Val, Pow, ExpMax, Huge;
    if a.cat.NaN? || b.cat.NaN? { return false; }
    Ranges(a, b);
    if a.cat.Zero? && b.cat.Zero? {
      return false;
    } else if a.cat.Zero? {
      return b.neg;
    } else if b.cat.Zero? {
      return !a.neg;
    }
    if a.neg != b.neg { return b.neg; }
    if a.cat.Infinite? {
      return !a.neg;
    } else if b.cat.Infinite? {
      return b.neg;
    }
    SizeOrder(a, b);
    if a.exp != b.exp { return if a.neg then a.exp < b.exp else a.exp > b.exp; }
    var cmp := UnsignedCmp(a.mant, b.mant);
    if cmp == 0 {
      return false;
    } else if cmp > 0 {
      return !a.neg;
    } else {
      return a.neg;
    }
  }

  /** "Less" holds exactly when the number is less, but for two negative
      infinities. */
  method IsLt(a: IEEE, b: IEEE) returns (r: bool)
    requires a.kind == b.kind && a.rounding == b.rounding && Comparable(a) && Comparable(b)
    ensures a.cat.NaN? || b.cat.NaN? ==> !r
    ensures !a.cat.NaN? && !b.cat.NaN? ==>
            (r <==> Represents(a) < Represents(b) || BothInfinite(a, b, true))
  {
    hide Val, Pow, ExpMax, Huge;
    if a.cat.NaN? || b.cat.NaN? { return false; }
    Ranges(a, b);
    if a.cat.Zero? && b.cat.Zero? {
      return false;
    } else if a.cat.Zero? {
      return !b.neg;
    } else if b.cat.Zero? {
      return a.neg;
    }
    if a.neg != b.neg { return a.neg; }
    if a.cat.Infinite? {
      return a.neg;
    } else if b.cat.Infinite? {
      return !b.neg;
    }
    SizeOrder(a, b);
    if a.exp != b.exp { return if !a.neg then a.exp < b.exp else a.exp > b.exp; }
    var cmp := UnsignedCmp(a.mant, b.mant);
    if cmp == 0 {
      return false;
    } else if cmp < 0 {
      return !a.neg;
    } else {
      return a.neg;
    }
  }

  method IsGtEq(a: IEEE, b: IEEE) returns (r: bool)
    requires a.kind == b.kind && a.rounding == b.rounding && Comparable(a) && Comparable(b)
    ensures a.cat.NaN? || b.cat.NaN? ==> !r
    ensures !a.cat.NaN? && !b.cat.NaN? ==>
            (r <==> Represents(a) >= Represents(b) && !BothInfinite(a, b, true))
  {
    if a.cat.NaN? || b.cat.NaN? { return false; }
    var less := IsLt(a, b);
    r := !less;
  }

  method IsLtEq(a: IEEE, b: IEEE) returns (r: bool)
    requires a.kind == b.kind && a.rounding == b.rounding && Comparable(a) && Comparable(b)
    ensures a.cat.NaN? || b.cat.NaN? ==> !r
    ensures !a.cat.NaN? && !b.cat.NaN? ==>
            (r <==> Represents(a) <= Represents(b) && !BothInfinite(a, b, false))
  {
    if a.cat.NaN? || b.cat.NaN? { return false; }
    var greater := IsGt(a, b);
    r := !greater;
  }
}
