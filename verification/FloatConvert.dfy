/** Integers to floats and back. */
module FloatConvert {
  import opened Powers
  import opened Digits
  import Machine
  import opened ApInts
  import opened ApIntDivision
  import opened ApIntBits
  import opened SignedDivision
  import opened FloatRounding
  import opened Floats
  import opened FloatAdd

  /** The top p bits of m, shifted into a significand of p bits. */
  function TopBits(m: nat, p: nat): nat
  {
    var n := NumBits(m);
    if n <= p then m * Pow(2, p - n) else
      PowPositive(2, n - p);
      m / Pow(2, n - p)
  }

  /** m with all but its top p bits cleared. */
  function KeepTop(m: nat, p: nat): nat
  {
    var n := NumBits(m);
    if n <= p then m else
      PowPositive(2, n - p);
      m - m % Pow(2, n - p)
  }

  /** The integer part of the magnitude m * 2^(e - p + 1). */
  function IntegerPart(m: nat, e: int, p: nat): nat
    requires 0 < p
  {
    if e < 0 then 0
    else if e >= p - 1 then m * Pow(2, e - p + 1)
    else
      PowPositive(2, p - 1 - e);
      m / Pow(2, p - 1 - e)
  }

  /** An integer turned into a float and back keeps its top p bits; a number of at
      most p bits comes back as it was. */
  lemma ThereAndBack(m: nat, p: nat)
    requires 0 < p && 0 < m
    ensures IntegerPart(TopBits(m, p), NumBits(m) - 1, p) == KeepTop(m, p)
    ensures NumBits(m) <= p ==> KeepTop(m, p) == m
    ensures p < NumBits(m) ==>
            && 0 < Pow(2, NumBits(m) - p)
            && KeepTop(m, p) % Pow(2, NumBits(m) - p) == 0 && m - KeepTop(m, p) < Pow(2, NumBits(m) - p)
  {
    hide NumBits, Pow;
    var n := NumBits(m);
    if n <= p {
      PowPositive(2, p - n);
      PowZero();
      if n < p { DivModUnique(m * Pow(2, p - n), Pow(2, p - n), m, 0); }
    } else {
      PowPositive(2, n - p);
      DivModDef(m, Pow(2, n - p));
      DivModUnique(KeepTop(m, p), Pow(2, n - p), m / Pow(2, n - p), 0);
    }
  }

  lemma TopBitsHas(m: nat, p: nat)
    requires 0 < p && 0 < m
    ensures HasBits(TopBits(m, p), p)
  {
    hide NumBits;
    var n := NumBits(m);
    if n <= p { BitsScale(m, n, p - n); } else { RoundedUp(m, n, p, n - p); }
  }

  /** Brings the magnitude of an integer, of n bits, to the precision.  A magnitude
      of exactly p bits is left in its own width, and unless that is p the next
      step's assertion fails: ok is false, as when a magnitude of no bits is
      shifted by the whole width. */
  method FitMantissa(m: ApInt, n: nat, p: nat) returns (ok: bool)
    requires m.Valid() && (m.Value() != 0 ==> HasBits(m.Value(), n)) && 0 < p <= 64
    modifies m, m.words
    ensures old(m.Value()) != 0 ==> (ok <==> n != p || old(m.bits) == p)
    ensures m.words == old(m.words) || fresh(m.words)
    ensures ok ==> m.Valid() && m.bits == p
    ensures ok && old(m.Value()) != 0 ==> m.Value() == TopBits(old(m.Value()), p)
  {
    hide Val, Pow, Canonical, HasBits, NumBits;
    ghost var x := m.Value();
    PositiveWidth(m);
    if x != 0 { FitFacts(m, n, p); }
    ok := true;
    if p > n {
      Ext(m, p);
      ok := p - n < m.bits;
      if ok { m.ShlImm(p - n); }
    } else if p < n {
      if n - p < m.bits {
        m.LshrImm(n - p);
        Ext(m, p);
      } else {
        ok := false;
      }
    } else {
      ok := m.bits == p;
    }
  }

  lemma FitFacts(m: ApInt, n: nat, p: nat)
    requires m.Valid() && HasBits(m.Value(), n) && 0 < p
    ensures 0 < n <= m.bits && NumBits(m.Value()) == n && m.Value() < Pow(2, n)
    ensures TopBits(m.Value(), p) < Pow(2, p) && 0 < Pow(2, p) && TopBits(m.Value(), p) % Pow(2, p) == TopBits(m.Value(), p)
    ensures n <= p ==> m.Value() < Pow(2, p)
    ensures n == p ==> TopBits(m.Value(), p) == m.Value()
  {
    hide Val, Pow, HasBits, NumBits;
    var x := m.Value();
    CanonicalBound(m.words[..], m.bits);
    HasPositive(x, n);
    BitsAre(x, n);
    BitsBelow(x, n, m.bits);
    TopBitsHas(x, p);
    HasPositive(TopBits(x, p), p);
    DivModUnique(TopBits(x, p), Pow(2, p), 0, TopBits(x, p));
    if n <= p { PowMono(2, n, p); }
    PowZero();
  }

  method IsZero(a: ApInt) returns (r: bool)
    requires a.Valid()
    ensures r <==> a.Value() == 0
  {
    hide Val, Pow;
    for i := 0 to a.words.Length
      invariant forall k :: 0 <= k < i ==> a.words[k] == 0
    {
      if a.words[i] != 0 {
        FirstNonzeroWord(a.words[..], i);
        return false;
      }
    }
    ValZeroes(a.words[..], Machine.W);
    r := true;
  }

  /** The float of a signed integer, truncated whatever the rounding mode. */
  method InitSint(val: ApInt, kind: Kind, rounding: Rounding) returns (ok: bool, r: IEEE?)
    requires val.Valid()
    ensures val.Value() == 0 ==> ok && r != null && fresh(r) && r.cat == Category.Zero && !r.neg && r.kind == kind
    ensures val.Value() != 0 && (Signed(val.Value(), val.bits) < 0 ==> NegateRight(val.bits, val.Value())) ==>
            var m, p := Abs(Signed(val.Value(), val.bits)), MantBits(kind);
            && (ok <==> NumBits(m) != p || val.bits == p)
            && (ok ==>
                  && r != null && fresh(r) && r.kind == kind && r.rounding == rounding
                  && (r.neg <==> Signed(val.Value(), val.bits) < 0)
                  && r.exp == NumBits(m) - 1 && r.Shape() && r.mant.Value() == TopBits(m, p)
                  && if r.exp <= ExpMax(kind) then r.WellFormed() else r.cat == Infinite)
  {
    hide Val, Pow, Canonical, HasBits, NumBits, TopBits, ExpMax, Signed, NegateRight;
    SignOf(val);
    ExpRange(kind);
    var zero := IsZero(val);
    if zero {
      var none := new ApInt.Zero(MantBits(kind));
      r := new IEEE(none, 0, kind, rounding, Category.Zero, false);
      return true, r;
    }
    var neg := GetSignBit(val);
    var mant := val.Copy();
    NegationIsAbs(val.Value(), val.bits);
    if neg { mant.Negate(); }
    ok, r := FloatOf(mant, neg, kind, rounding);
  }

  /** The float of a magnitude. */
  method FloatOf(mant: ApInt, neg: bool, kind: Kind, rounding: Rounding) returns (ok: bool, r: IEEE?)
    requires mant.Valid()
    modifies mant, mant.words
    ensures old(mant.Value()) != 0 ==>
            var m, p := old(mant.Value()), MantBits(kind);
            && (ok <==> NumBits(m) != p || old(mant.bits) == p)
            && (ok ==>
                  && r != null && fresh(r) && r.kind == kind && r.rounding == rounding && r.neg == neg
                  && r.exp == NumBits(m) - 1 && r.Shape() && r.mant.Value() == TopBits(m, p)
                  && if r.exp <= ExpMax(kind) then r.WellFormed() else r.cat == Infinite)
  {
    hide Val, Pow, Canonical, HasBits, NumBits, TopBits, ExpMax;
    ghost var x := mant.Value();
    ExpRange(kind);
    var n := SigBits(mant);
    r := null;
    if x != 0 {
      FitFacts(mant, n, MantBits(kind));
      TopBitsHas(x, MantBits(kind));
      AtLeastHalf(TopBits(x, MantBits(kind)), MantBits(kind));
      HasPositive(TopBits(x, MantBits(kind)), MantBits(kind));
    }
    ok := FitMantissa(mant, n, MantBits(kind));
    if ok {
      var exp: int := n;
      r := new IEEE(mant, exp - 1, kind, rounding, Category.Normal, neg);
      r.PostOpCorrect();
    }
  }

  /** The signed integer of a float, in ExpMax + 3 bits, without its fraction; ok
      is false for the infinities and for NaN. */
  method ToSint(a: IEEE) returns (ok: bool, r: ApInt?)
    requires a.cat.Normal? ==> a.WellFormed()
    ensures ok <==> a.cat.Zero? || a.cat.Normal?
    ensures ok ==> r != null && fresh(r) && r.Valid() && r.bits == SintWidth(a.kind)
    ensures a.cat.Zero? ==> r.Value() == 0
    ensures a.cat.Normal? ==>
            var n := IntegerPart(a.mant.Value(), a.exp, MantBits(a.kind));
            && n < Pow(2, r.bits - 1)
            && (a.neg && 0 <= a.exp ==>
                  (r.Value() == Residue(0 - n, r.bits) <==> NegateRight(r.bits, n)))
            && (!a.neg || a.exp < 0 ==> r.Value() == n)
  {
    hide Val, Pow, Canonical, ExpMax, NegateRight, NumBits, IntegerPart;
    ExpRange(a.kind);
    var width := SintWidth(a.kind);
    ok, r := false, null;
    if a.cat.NaN? { return; }
    if a.cat.Infinite? { return; }
    ok := true;
    if a.cat.Zero? {
      r := new ApInt.Zero(width);
      return;
    }
    IntegerFits(a);
    if a.exp < 0 {
      r := new ApInt.Zero(width);
      return;
    }
    r := a.mant.Copy();
    Ext(r, width);
    var decBit := MantBits(a.kind) - a.exp - 1;
    PowZero();
    if decBit < 0 {
      r.ShlImm(-decBit);
    } else if decBit > 0 {
      r.LshrImm(decBit);
    }
    if a.neg {
      r.Negate();
    }
  }

  /** Room for the largest exponent, a digit more and the sign. */
  function SintWidth(kind: Kind): (w: nat)
    ensures w == match kind case Half => 18 case Single => 130 case Double => 1026
  {
    ExpRange(kind);
    ExpMax(kind) + 3
  }

  lemma IntegerFits(a: IEEE)
    requires a.WellFormed()
    ensures var n, p, w := IntegerPart(a.mant.Value(), a.exp, MantBits(a.kind)), MantBits(a.kind), SintWidth(a.kind);
            && p < w && a.mant.bits == p && n < Pow(2, w - 1) && 0 < Pow(2, w)
            && (a.exp < 0 ==> n == 0)
            && (a.exp == p - 1 ==> n == a.mant.Value())
            && (p - 1 < a.exp ==> a.exp - p + 1 < w && n == (a.mant.Value() * Pow(2, a.exp - p + 1)) % Pow(2, w))
            && (0 <= a.exp < p - 1 ==> 0 < Pow(2, p - 1 - a.exp) && n == a.mant.Value() / Pow(2, p - 1 - a.exp))
  {
    hide Val, Pow, ExpMax;
    ExpRange(a.kind);
    var m, p, e, w := a.mant.Value(), MantBits(a.kind), a.exp, SintWidth(a.kind);
    CanonicalBound(a.mant.words[..], a.mant.bits);
    PowPositive(2, w);
    PowPositive(2, w - 1);
    PowMono(2, p, w - 1);
    PowZero();
    if e >= p - 1 {
      ShiftFits(m, p, e - p + 1, w - 1);
      ShiftFits(m, p, e - p + 1, w);
    } else if 0 <= e {
      PowPositive(2, p - 1 - e);
      QuotientAtMost(m, Pow(2, p - 1 - e));
    }
  }

  /** A signed integer to a float and back: its magnitude with all but the top p
      significant bits cleared, and its sign.  A number of fewer than p bits, or of p
      bits in a width of p, comes back as it was; beyond the range of the format there
      is no way back. */
  method SintRoundTrip(val: ApInt, kind: Kind, rounding: Rounding) returns (ok: bool, r: ApInt?)
    requires val.Valid() && (Signed(val.Value(), val.bits) < 0 ==> NegateRight(val.bits, val.Value()))
    ensures ok ==> r != null && r.Valid() && r.bits == SintWidth(kind)
    ensures val.Value() == 0 ==> ok && r.Value() == 0
    ensures val.Value() != 0 ==>
            var x, p := Signed(val.Value(), val.bits), MantBits(kind);
            var kept := KeepTop(Abs(x), p);
            && (ok <==> (NumBits(Abs(x)) != p || val.bits == p) && NumBits(Abs(x)) - 1 <= ExpMax(kind))
            && (ok && 0 < x ==> r.Value() == kept)
            && (ok && x < 0 ==> (r.Value() == Residue(0 - kept, r.bits) <==> NegateRight(r.bits, kept)))
            && (NumBits(Abs(x)) <= p ==> kept == Abs(x))
  {
    hide Val, Pow, Canonical, ExpMax, NegateRight, NumBits, IntegerPart, KeepTop, TopBits, Signed, Residue, SintWidth;
    SignOf(val);
    ExpRange(kind);
    ghost var x: int := Signed(val.Value(), val.bits);
    var f: IEEE?;
    ok, f := InitSint(val, kind, rounding);
    r := null;
    if x != 0 {
      ThereAndBack(Abs(x), MantBits(kind));
      HasSomeBits(Abs(x));
    }
    if ok { ok, r := ToSint(f); }
  }

  lemma HasSomeBits(m: nat)
    requires 0 < m
    ensures 0 < NumBits(m)
  {
  }
}
