/** The software IEEE 754 float: its formats, its state, and the steps the
    arithmetic operations share. */
module Floats {
  import opened Powers
  import opened Digits
  import opened ApInts
  import opened ApIntDivision
  import opened FloatRounding

  datatype Kind = Half | Single | Double

  datatype Category = Zero | Infinite | NaN | Normal

  function ExpBits(kind: Kind): nat
  {
    match kind
    case Half => 5
    case Single => 8
    case Double => 11
  }

  /** The precision, counting the implicit one. */
  function MantBits(kind: Kind): nat
  {
    match kind
    case Half => 11
    case Single => 24
    case Double => 53
  }

  function ExpMax(kind: Kind): int
  {
    Pow(2, ExpBits(kind) - 1) - 1
  }

  function ExpMin(kind: Kind): int
  {
    1 - ExpMax(kind)
  }

  lemma ExpRange(kind: Kind)
    ensures ExpMax(kind) == match kind case Half => 15 case Single => 127 case Double => 1023
    ensures ExpMin(kind) < 0 < ExpMax(kind)
  {
    assert Pow(2, 4) == 16;
    assert Pow(2, 7) == 128 by { PowAdd(2, 4, 3); assert Pow(2, 3) == 8; }
    assert Pow(2, 10) == 1024 by { PowAdd(2, 7, 3); assert Pow(2, 3) == 8; }
  }

  /** The exponent, the sign and the precision less its implicit bit fill 16, 32 and
      64 bits: the interchange formats of IEEE 754-2008, table 3.5. */
  lemma FormatWidth(kind: Kind)
    ensures ExpBits(kind) + MantBits(kind) == match kind case Half => 16 case Single => 32 case Double => 64
    ensures EffExpMin(kind) == match kind case Half => -24 case Single => -149 case Double => -1074
  {
    ExpRange(kind);
  }

  /** The exponent of the least subnormal once normalised. */
  function EffExpMin(kind: Kind): int
  {
    ExpMin(kind) - MantBits(kind) + 1
  }

  // --------------------------------------------------------- numbers of bits

  function NumBits(x: nat): (n: nat)
    ensures 0 < x ==> HasBits(x, n)
    ensures x == 0 <==> n == 0
  {
    if x == 0 then 0 else
      var n := 1 + NumBits(x / 2);
      assert HasBits(x, n) by { BitsOfHalf(x, n); }
      n
  }

  lemma BitsOfHalf(x: nat, n: nat)
    requires 0 < x && 0 < n && (if x / 2 == 0 then n == 1 else HasBits(x / 2, n - 1))
    ensures HasBits(x, n)
  {
    assert Pow(2, 0) == 1 && Pow(2, 1) == 2;
    if x / 2 != 0 {
      assert Pow(2, n) == 2 * Pow(2, n - 1) && Pow(2, n - 1) == 2 * Pow(2, n - 2);
    }
  }

  lemma BitsUnique(x: nat, m: nat, n: nat)
    requires HasBits(x, m) && HasBits(x, n)
    ensures m == n
  {
    if m < n {
      PowMono(2, m, n - 1);
    } else if n < m {
      PowMono(2, n, m - 1);
    }
  }

  lemma BitsScale(x: nat, n: nat, k: nat)
    requires HasBits(x, n)
    ensures HasBits(x * Pow(2, k), n + k)
  {
    PowAdd(2, n, k);
    PowAdd(2, n - 1, k);
    PowPositive(2, k);
    MulMono(Pow(2, k), Pow(2, n - 1), x);
    MulStrict(Pow(2, k), x, Pow(2, n));
  }

  lemma BitsBelow(x: nat, n: nat, k: nat)
    requires 0 < x < Pow(2, k) && HasBits(x, n)
    ensures n <= k
  {
    if k < n { PowMono(2, k, n - 1); }
  }

  /** A finite nonzero magnitude m * 2^e, in units of 2^least. */
  function Scaled(m: nat, e: int, least: int): nat
    requires least <= e
  {
    m * Pow(2, e - least)
  }

  /** Moving powers of two between significand and exponent. */
  lemma ScaledShift(m: nat, e: int, k: nat, least: int)
    requires least <= e - k
    ensures Scaled(m * Pow(2, k), e - k, least) == Scaled(m, e, least)
  {
    PowAdd(2, k, e - k - least);
    Associate(m, Pow(2, k), Pow(2, e - k - least));
  }

  /** The significand shifted up to p bits. */
  function NormalMant(m: nat, p: nat): nat
    requires NumBits(m) <= p
  {
    m * Pow(2, p - NumBits(m))
  }

  class IEEE {
    var mant: ApInt
    var exp: int
    var kind: Kind
    var rounding: Rounding
    var cat: Category
    var neg: bool

    /** The significand has the width of the format. */
    ghost predicate Shape()
      reads this, mant, mant.words
    {
      mant.Valid() && mant.bits == MantBits(kind)
    }

    /** A finite nonzero number: normal, or subnormal at the least exponent. */
    ghost predicate WellFormed()
      reads this, mant, mant.words
    {
      && Shape() && cat.Normal? && 0 < mant.Value()
      && ExpMin(kind) <= exp <= ExpMax(kind)
      && (mant.Value() < Pow(2, MantBits(kind) - 1) ==> exp == ExpMin(kind))
    }

    /** The magnitude in units of 2^EffExpMin, times 2^(1 - MantBits) as the
        significand counts its fraction bits. */
    ghost function Size(): nat
      reads this, mant, mant.words
      requires EffExpMin(kind) <= exp
    {
      Scaled(mant.Value(), exp, EffExpMin(kind))
    }

    constructor (mant: ApInt, exp: int, kind: Kind, rounding: Rounding, cat: Category, neg: bool)
      ensures this.mant == mant && this.exp == exp && this.kind == kind && this.rounding == rounding
      ensures this.cat == cat && this.neg == neg
    {
      this.mant := mant;
      this.exp := exp;
      this.kind := kind;
      this.rounding := rounding;
      this.cat := cat;
      this.neg := neg;
    }

    method Copy() returns (r: IEEE)
      requires mant.Valid()
      ensures fresh(r) && fresh(r.mant) && fresh(r.mant.words) && r.mant.Valid()
      ensures r.mant.bits == mant.bits && r.mant.Value() == mant.Value() && r.exp == exp
      ensures r.kind == kind && r.rounding == rounding && r.cat == cat && r.neg == neg
    {
      var m := mant.Copy();
      r := new IEEE(m, exp, kind, rounding, cat, neg);
    }

    /** Brings a subnormal to full precision under a lower exponent. */
    method Normalize()
      requires Shape() && 0 < mant.Value() && ExpMin(kind) <= exp
      modifies `exp, mant.words
      ensures Shape() && HasBits(mant.Value(), MantBits(kind))
      ensures exp == old(exp) - (MantBits(kind) - NumBits(old(mant.Value())))
      ensures EffExpMin(kind) <= exp <= old(exp)
      ensures NumBits(old(mant.Value())) <= MantBits(kind)
      ensures mant.Value() == NormalMant(old(mant.Value()), MantBits(kind))
      ensures Size() == old(Size())
    {
      hide Val, Pow, Canonical, HasBits, NumBits;
      ghost var m, p, e, least := mant.Value(), MantBits(kind), exp, EffExpMin(kind);
      var n := SigBits(mant);
      CanonicalBound(mant.words[..], mant.bits);
      BitsBelow(m, n, p);
      BitsUnique(m, n, NumBits(m));
      HasPositive(m, n);
      PowZero();
      if n == mant.bits {
        return;
      }
      var shift := mant.bits - n;
      BitsScale(m, n, shift);
      HasPositive(m * Pow(2, shift), p);
      DivModUnique(m * Pow(2, shift), Pow(2, p), 0, m * Pow(2, shift));
      mant.ShlImm(shift);
      exp := exp - shift;
      ScaledShift(m, e, shift, least);
    }

    /** Corrects the exponent after an operation: infinite above the range, and
        below it a subnormal or zero. */
    method PostOpCorrect()
      requires Shape()
      modifies `exp, `cat, mant.words
      ensures Shape()
      ensures old(exp) > ExpMax(kind) ==>
              cat == Infinite && exp == old(exp) && mant.Value() == old(mant.Value())
      ensures ExpMin(kind) <= old(exp) <= ExpMax(kind) ==>
              cat == old(cat) && exp == old(exp) && mant.Value() == old(mant.Value())
      ensures ExpMin(kind) - MantBits(kind) < old(exp) < ExpMin(kind) ==>
              cat == old(cat) && exp == ExpMin(kind)
              && 0 < Pow(2, ExpMin(kind) - old(exp))
              && mant.Value() == old(mant.Value()) / Pow(2, ExpMin(kind) - old(exp))
      ensures old(exp) <= ExpMin(kind) - MantBits(kind) ==>
              cat == Category.Zero && exp == old(exp) && mant.Value() == old(mant.Value())
    {
      hide Val, Pow, Canonical, HasBits, ExpMax;
      ExpRange(kind);
      if exp > ExpMax(kind) {
        cat := Infinite;
      } else if exp < ExpMin(kind) {
        var shift := ExpMin(kind) - exp;
        if shift >= mant.bits {
          cat := Category.Zero;
        } else {
          mant.LshrImm(shift);
          exp := ExpMin(kind);
        }
      }
    }
  }

  lemma HasPositive(x: nat, n: nat)
    requires HasBits(x, n)
    ensures 0 < n && 0 < x < Pow(2, n)
  {
    PowPositive(2, n - 1);
  }

  /** The first magnitude past the range, in the units of Size. */
  function Huge(kind: Kind): nat
  {
    ExpRange(kind);
    Pow(2, MantBits(kind) + (ExpMax(kind) - EffExpMin(kind)))
  }

  /** The exponent of the spacing of floats of magnitude n in those units: set by
      the precision, and by the least exponent for subnormals. */
  function QuantumExp(p: nat, n: nat): nat
    requires 0 < p
  {
    if NumBits(n) < p + (p - 1) then p - 1 else NumBits(n) - p
  }

  /** r is the magnitude n rounded to the format's spacing. */
  predicate RoundedSize(p: nat, mode: Rounding, neg: bool, n: nat, r: nat)
    requires 0 < p
  {
    var k := QuantumExp(p, n);
    PowPositive(2, k);
    r % Pow(2, k) == 0 && Rounds(mode, neg, n, Pow(2, k), r / Pow(2, k))
  }

  lemma RoundedSizeUnique(p: nat, mode: Rounding, neg: bool, n: nat, r: nat, r': nat)
    requires 0 < p && RoundedSize(p, mode, neg, n, r) && RoundedSize(p, mode, neg, n, r')
    ensures r == r'
  {
    hide QuantumExp, NumBits, Rounds, Pow;
    PowPositive(2, QuantumExp(p, n));
    var u := Pow(2, QuantumExp(p, n));
    RoundsUnique(mode, neg, n, u, r / u, r' / u);
    DivModDef(r, u);
    DivModDef(r', u);
  }
}
