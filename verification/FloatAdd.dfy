/** Adding floats of one sign: align, add, round, correct. */
module FloatAdd {
  import opened Powers
  import opened Digits
  import Machine
  import opened ApInts
  import opened ApIntDivision
  import opened ApIntBits
  import opened FloatRounding
  import opened Floats

  lemma ShiftFits(v: nat, bits: nat, shift: nat, wide: nat)
    requires v < Pow(2, bits) && bits + shift <= wide
    ensures v * Pow(2, shift) < Pow(2, wide) && (v * Pow(2, shift)) % Pow(2, wide) == v * Pow(2, shift)
    ensures 0 < Pow(2, shift) && v < Pow(2, wide)
  {
    hide Pow;
    PowPositive(2, shift);
    PowAdd(2, bits, shift);
    PowMono(2, bits + shift, wide);
    PowMono(2, bits, wide);
    MulStrict(Pow(2, shift), v, Pow(2, bits));
    DivModUnique(v * Pow(2, shift), Pow(2, wide), 0, v * Pow(2, shift));
  }

  lemma PositiveWidth(m: ApInt)
    requires m.Valid()
    ensures 0 < m.bits
  {
  }

  /** Widens a number and shifts it up by as much as it was widened, or less. */
  method WidenShift(m: ApInt, wide: nat, shift: nat)
    requires m.Valid() && m.bits + shift <= wide
    modifies m, m.words
    ensures m.Valid() && fresh(m.words) && m.bits == wide
    ensures m.Value() == old(m.Value()) * Pow(2, shift)
  {
    hide Val, Pow, Canonical;
    PositiveWidth(m);
    CanonicalBound(m.words[..], m.bits);
    ShiftFits(m.Value(), m.bits, shift, wide);
    Ext(m, wide);
    m.ShlImm(shift);
  }

  /** Brings two floats to the lower of their exponents, in significands wide
      enough for the shift and extra bits more. */
  method MatchExps(a: IEEE, b: IEEE, extra: nat)
    requires a != b && a.mant != b.mant && a.mant.words != b.mant.words
    requires a.mant.Valid() && b.mant.Valid() && a.mant.bits == b.mant.bits
    modifies a`exp, b`exp, a.mant, b.mant, a.mant.words, b.mant.words
    ensures a.mant.Valid() && b.mant.Valid() && a.mant.words != b.mant.words
    ensures a.mant.words == old(a.mant.words) || fresh(a.mant.words)
    ensures a.exp == b.exp == if old(a.exp) <= old(b.exp) then old(a.exp) else old(b.exp)
    ensures a.mant.bits == b.mant.bits == old(a.mant.bits) + Distance(old(a.exp), old(b.exp)) + extra
    ensures a.mant.Value() == old(a.mant.Value()) * Pow(2, old(a.exp) - a.exp)
    ensures b.mant.Value() == old(b.mant.Value()) * Pow(2, old(b.exp) - b.exp)
  {
    hide Val, Pow, Canonical;
    PowZero();
    if a.exp > b.exp {
      var shift := a.exp - b.exp;
      var wide := a.mant.bits + shift + extra;
      Ext(b.mant, wide);
      WidenShift(a.mant, wide, shift);
      a.exp := b.exp;
    } else if b.exp > a.exp {
      var shift := b.exp - a.exp;
      var wide := a.mant.bits + shift + extra;
      Ext(a.mant, wide);
      WidenShift(b.mant, wide, shift);
      b.exp := a.exp;
    } else if extra != 0 {
      var wide := a.mant.bits + extra;
      Ext(a.mant, wide);
      Ext(b.mant, wide);
    }
  }

  // --------------------------------------------------------------- rounding

  /** The rounding of x by shift bits goes wrong as written. */
  ghost predicate RoundsWrongly(mode: Rounding, neg: bool, x: nat, shift: nat)
    requires 0 < shift
  {
    StickyMisread(x, shift) && StickyMatters(mode, neg, BitOf(x, shift), BitOf(x, shift - 1))
  }

  /** x rounded by shift bits is q, or, as written, the neighbour of it. */
  ghost predicate RoundedBy(how: Counting, mode: Rounding, neg: bool, x: nat, shift: nat, q: nat)
    requires 0 < shift
  {
    && 0 < Pow(2, shift) && (q == x / Pow(2, shift) || q == x / Pow(2, shift) + 1)
    && (Rounds(mode, neg, x, Pow(2, shift), q) <==> how.Documented? || !RoundsWrongly(mode, neg, x, shift))
  }

  lemma BitsDecide(how: Counting, mode: Rounding, neg: bool, x: nat, shift: nat, n: nat, q: nat)
    requires 0 < shift && 0 < x && Counted(how, x, n)
    requires 0 < Pow(2, shift) && q == x / Pow(2, shift)
    ensures var inc := ShouldIncMant(mode, neg, BitOf(x, shift), BitOf(x, shift - 1), n < shift - 1);
            RoundedBy(how, mode, neg, x, shift, if inc then q + 1 else q)
  {
    hide StickyMisread, StickyMatters, ShouldIncMant, Rounds, Counted;
    PowPositive(2, shift - 1);
    StickyBit(how, x, n, shift);
    BitsRound(mode, neg, x, Pow(2, shift - 1), q, n < shift - 1);
  }

  /** The rounded significand of p bits and the exponent that goes with it: a
      carry out of p bits leaves half of it under the next exponent. */
  lemma RoundedUp(x: nat, l: nat, p: nat, shift: nat)
    requires HasBits(x, l) && 0 < p && l == p + shift && 0 < shift
    ensures 0 < Pow(2, shift) && HasBits(x / Pow(2, shift), p)
    ensures x + Pow(2, shift) < Pow(2, l + 1)
    ensures (x + Pow(2, shift)) / Pow(2, shift) == x / Pow(2, shift) + 1
    ensures HasBits(x + Pow(2, shift), l + 1) ==>
            x / Pow(2, shift) + 1 == Pow(2, p) && (x + Pow(2, shift)) / Pow(2, shift + 1) == Pow(2, p - 1)
    ensures HasBits(x + Pow(2, shift), l) ==> HasBits(x / Pow(2, shift) + 1, p)
    ensures HasBits(x + Pow(2, shift), l) || HasBits(x + Pow(2, shift), l + 1)
  {
    hide Pow;
    PowPositive(2, shift);
    var u, q := Pow(2, shift), x / Pow(2, shift);
    PowAdd(2, p, shift);
    PowAdd(2, p - 1, shift);
    Doubles(l);
    Doubles(p);
    Doubles(shift + 1);
    DivModDef(x, u);
    Distribute(u, q, 1);
    FactorLess(u, q, x, Pow(2, p));
    FactorLess(u, Pow(2, p - 1), x, q + 1);
    ModShift(x, 1, u);
    PowMono(2, shift, l - 1);
    if Pow(2, l) <= x + u {
      FactorLess(u, Pow(2, p) - 1, x, q + 1);
      FullCarry(x, u, Pow(2, p - 1), q);
    } else {
      FactorLess(u, q + 1, x + u, Pow(2, p));
    }
  }

  lemma Doubles(n: nat)
    ensures Pow(2, n + 1) == 2 * Pow(2, n)
    ensures 0 < n ==> Pow(2, n) == 2 * Pow(2, n - 1)
  {
  }

  lemma FullCarry(x: nat, u: nat, h: nat, q: nat)
    requires 0 < u && q + 1 == 2 * h && q * u <= x < 2 * h * u
    ensures (x + u) / (2 * u) == h
  {
    Distribute(u, q, 1);
    Associate(2, h, u);
    DivModUnique(x + u, 2 * u, h, x + u - 2 * h * u);
  }

  /** Adds one unit of the last kept bit and returns how many bits are to be
      dropped now. */
  method AddUnit(m: ApInt, shift: nat, p: nat) returns (shift': nat)
    requires m.Valid() && 0 < p && 0 < shift && HasBits(m.Value(), p + shift)
    modifies m, m.words
    ensures m.Valid() && fresh(m.words) && old(m.bits) < m.bits
    ensures 0 < Pow(2, shift) && m.Value() == old(m.Value()) + Pow(2, shift)
    ensures shift' == shift || shift' == shift + 1
    ensures HasBits(m.Value(), p + shift')
  {
    hide Val, Pow, Canonical, HasBits;
    CanonicalBound(m.words[..], m.bits);
    ghost var x, l := m.Value(), p + shift;
    RoundedUp(x, l, p, shift);
    HasPositive(x, l);
    BitsBelow(x, l, m.bits);
    Ext(m, m.bits + 1);
    PowMono(2, l + 1, m.bits);
    DivModUnique(x + Pow(2, shift), Pow(2, m.bits), 0, x + Pow(2, shift));
    m.IncBit(shift);
    var bits := SigBits(m);
    if HasBits(x + Pow(2, shift), l) {
      BitsUnique(x + Pow(2, shift), l, bits);
    } else {
      BitsUnique(x + Pow(2, shift), l + 1, bits);
    }
    shift' := bits - p;
  }

  /** Brings the significand of a sum or difference back to the precision,
      rounding it to q when it is longer; ends is false when the count of trailing
      zeroes never returns. */
  method NormalizeMant(how: Counting, a: IEEE) returns (ends: bool, ghost q: nat)
    requires a.mant.Valid() && 0 < a.mant.Value() && MantBits(a.kind) <= a.mant.bits
    modifies a`exp, a.mant, a.mant.words
    ensures var p, x, l := MantBits(a.kind), old(a.mant.Value()), NumBits(old(a.mant.Value()));
            && (p < l ==> (ends <==> CountEnds(how, x)))
            && (l <= p ==> ends)
            && (ends ==> a.mant.Valid() && HasBits(a.mant.Value(), p))
            && (ends && p < l ==>
                  && a.mant.bits == p
                  && RoundedBy(how, a.rounding, a.neg, x, l - p, q)
                  && (   (a.exp == old(a.exp) + (l - p) && a.mant.Value() == q)
                      || (a.exp == old(a.exp) + (l - p) + 1 && a.mant.Value() * 2 == q)))
            && (l <= p ==>
                  && a.mant.bits == old(a.mant.bits)
                  && a.exp == old(a.exp) - (p - l) && a.mant.Value() == x * Pow(2, p - l))
  {
    hide Val, Pow, Canonical, HasBits, NumBits, Counted, CountEnds, RoundedBy, ShouldIncMant, BitOf;
    ghost var x, p, l := a.mant.Value(), MantBits(a.kind), NumBits(a.mant.Value());
    CanonicalBound(a.mant.words[..], a.mant.bits);
    q := 0;
    var unnorm := SigBits(a.mant);
    var norm := MantBits(a.kind);
    BitsUnique(x, l, unnorm);
    BitsBelow(x, l, a.mant.bits);
    ends := true;
    PowZero();
    if unnorm > norm {
      var shift := unnorm - norm;
      ends, q := RoundMant(how, a, shift);
    } else if unnorm < norm {
      var shift := norm - unnorm;
      BitsScale(x, l, shift);
      HasPositive(x, l);
      ShiftFits(x, l, shift, a.mant.bits);
      a.mant.ShlImm(shift);
      a.exp := a.exp - shift;
    }
  }

  /** Reads the guard, round and sticky bits. */
  method ShouldInc(how: Counting, a: IEEE, shift: nat, ghost q: nat) returns (ends: bool, inc: bool)
    requires a.mant.Valid() && 0 < a.mant.Value() && 0 < shift < a.mant.bits
    requires 0 < Pow(2, shift) && q == a.mant.Value() / Pow(2, shift)
    ensures ends <==> CountEnds(how, a.mant.Value())
    ensures ends ==>
            RoundedBy(how, a.rounding, a.neg, a.mant.Value(), shift, if inc then q + 1 else q)
  {
    hide Val, Pow, Canonical, Counted, CountEnds, RoundedBy, ShouldIncMant, BitOf;
    var guard := GetBit(a.mant, shift);
    var round := GetBit(a.mant, shift - 1);
    var zeroes;
    ends, zeroes := CountTrailingZeroes(how, a.mant);
    inc := ends && ShouldIncMant(a.rounding, a.neg, guard, round, zeroes < shift - 1);
    if ends { BitsDecide(how, a.rounding, a.neg, a.mant.Value(), shift, zeroes, q); }
  }

  /** The rounding branch: drops shift bits. */
  method RoundMant(how: Counting, a: IEEE, shift: nat) returns (ends: bool, ghost q: nat)
    requires a.mant.Valid() && 0 < a.mant.Value() && 0 < shift
    requires HasBits(a.mant.Value(), MantBits(a.kind) + shift)
    modifies a`exp, a.mant, a.mant.words
    ensures ends <==> CountEnds(how, old(a.mant.Value()))
    ensures ends ==>
            && a.mant.Valid() && HasBits(a.mant.Value(), MantBits(a.kind)) && a.mant.bits == MantBits(a.kind)
            && RoundedBy(how, a.rounding, a.neg, old(a.mant.Value()), shift, q)
            && (   (a.exp == old(a.exp) + shift && a.mant.Value() == q)
                || (a.exp == old(a.exp) + shift + 1 && a.mant.Value() * 2 == q))
  {
    hide Val, Pow, Canonical, HasBits, Counted, CountEnds, RoundedBy, ShouldIncMant, BitOf;
    ghost var x, p := a.mant.Value(), MantBits(a.kind);
    CanonicalBound(a.mant.words[..], a.mant.bits);
    HasPositive(x, p + shift);
    BitsBelow(x, p + shift, a.mant.bits);
    RoundedUp(x, p + shift, p, shift);
    q := x / Pow(2, shift);
    var inc;
    ends, inc := ShouldInc(how, a, shift, q);
    if !ends { return; }
    var drop := shift;
    if inc {
      q := q + 1;
      drop := AddUnit(a.mant, shift, MantBits(a.kind));
      CanonicalBound(a.mant.words[..], a.mant.bits);
      HasPositive(a.mant.Value(), p + drop);
      BitsBelow(a.mant.Value(), p + drop, a.mant.bits);
    }
    a.mant.LshrImm(drop);
    Doubles(p);
    PowBits(p);
    HasPositive(a.mant.Value(), p);
    Ext(a.mant, MantBits(a.kind));
    a.exp := a.exp + drop;
  }

  lemma PowBits(p: nat)
    requires 0 < p
    ensures HasBits(Pow(2, p - 1), p)
  {
    PowStrict(2, p - 1, p);
  }

  // --------------------------------------------------------------- the sum

  function Min(x: int, y: int): int
  {
    if x <= y then x else y
  }

  /** The lower of the two exponents once both significands have p bits. */
  function LowExp(p: nat, ma: nat, ea: int, mb: nat, eb: int): int
  {
    Min(ea - (p - NumBits(ma)), eb - (p - NumBits(mb)))
  }

  /** The exact sum in units of that exponent. */
  function AlignedSum(p: nat, ma: nat, ea: int, mb: nat, eb: int): nat
    requires NumBits(ma) <= p && NumBits(mb) <= p
  {
    var low := LowExp(p, ma, ea, mb, eb);
    Scaled(ma, ea, low) + Scaled(mb, eb, low)
  }

  /** The two significands at one exponent, added without loss. */
  method AddAligned(a: IEEE, b: IEEE)
    requires a != b && a.mant != b.mant && a.mant.words != b.mant.words
    requires a.Shape() && b.Shape() && a.kind == b.kind
    requires 0 < a.mant.Value() && 0 < b.mant.Value() && ExpMin(a.kind) <= a.exp && ExpMin(b.kind) <= b.exp
    modifies a`exp, b`exp, a.mant, b.mant, a.mant.words, b.mant.words
    ensures a.mant.Valid() && MantBits(a.kind) < a.mant.bits
    ensures a.mant.words == old(a.mant.words) || fresh(a.mant.words)
    ensures var p := MantBits(a.kind);
            && NumBits(old(a.mant.Value())) <= p && NumBits(old(b.mant.Value())) <= p
            && a.exp == LowExp(p, old(a.mant.Value()), old(a.exp), old(b.mant.Value()), old(b.exp))
            && a.mant.Value() == AlignedSum(p, old(a.mant.Value()), old(a.exp), old(b.mant.Value()), old(b.exp))
            && p < NumBits(a.mant.Value())
  {
    hide Val, Pow, Canonical, HasBits, NumBits;
    ghost var ma, ea, mb, eb, p := a.mant.Value(), a.exp, b.mant.Value(), b.exp, MantBits(a.kind);
    a.Normalize();
    b.Normalize();
    ghost var na, nb, fa, fb := a.mant.Value(), b.mant.Value(), a.exp, b.exp;
    MatchExps(a, b, 1);
    SumFits(na, nb, p, fa - a.exp, fb - a.exp);
    Joined(ma, p - NumBits(ma), fa - a.exp);
    Joined(mb, p - NumBits(mb), fb - a.exp);
    a.mant.Add(b.mant);
  }

  lemma Joined(m: nat, i: nat, j: nat)
    ensures (m * Pow(2, i)) * Pow(2, j) == m * Pow(2, i + j)
  {
    PowAdd(2, i, j);
    Associate(m, Pow(2, i), Pow(2, j));
  }

  lemma SumFits(na: nat, nb: nat, p: nat, i: nat, j: nat)
    requires HasBits(na, p) && HasBits(nb, p) && (i == 0 || j == 0)
    ensures var s, bits := na * Pow(2, i) + nb * Pow(2, j), p + i + j + 1;
            0 < Pow(2, bits) && s < Pow(2, bits) && s % Pow(2, bits) == s && p < NumBits(s)
  {
    hide NumBits, Pow;
    var s, bits := na * Pow(2, i) + nb * Pow(2, j), p + i + j + 1;
    HasPositive(na, p);
    HasPositive(nb, p);
    ShiftFits(na, p, i, p + i + j);
    ShiftFits(nb, p, j, p + i + j);
    Doubles(p + i + j);
    Doubles(p);
    PowPositive(2, bits);
    DivModUnique(s, Pow(2, bits), 0, s);
    MulMono(na, 1, Pow(2, i));
    MulMono(nb, 1, Pow(2, j));
    AtLeastHalf(na, p);
    AtLeastHalf(nb, p);
    assert Pow(2, p) <= s;
    if NumBits(s) <= p {
      HasPositive(s, NumBits(s));
      PowMono(2, NumBits(s), p);
    }
  }

  // ------------------------------------------------- the sum and its rounding

  /** Scaling the aligned sum s up by 2^d gives the sum n in the units of Size;
      rounding s by shift bits rounds n to the format's spacing. */
  lemma SumRounded(how: Counting, p: nat, mode: Rounding, neg: bool, s: nat, d: nat, shift: nat, q: nat, n: nat, r: nat)
    requires 0 < p && 0 < shift && NumBits(s) == p + shift
    requires n == s * Pow(2, d) && r == q * Pow(2, shift + d)
    requires 0 < Pow(2, p - 1) && n % Pow(2, p - 1) == 0
    requires RoundedBy(how, mode, neg, s, shift, q)
    ensures RoundedSize(p, mode, neg, n, r) <==> how.Documented? || !RoundsWrongly(mode, neg, s, shift)
    ensures shift + d < p - 1 ==> r == n
  {
    hide Pow, NumBits, Rounds, RoundsWrongly, HasBits;
    PowPositive(2, d);
    PowPositive(2, shift + d);
    PowAdd(2, shift, d);
    BitsScale(s, p + shift, d);
    HasPositive(n, p + shift + d);
    BitsUnique(n, p + shift + d, NumBits(n));
    if shift + d >= p - 1 {
      DivModUnique(r, Pow(2, shift + d), q, 0);
      RoundsScale(mode, neg, s, Pow(2, shift), q, Pow(2, d));
    } else {
      ExactSum(how, mode, neg, s, d, shift, p - 1, q);
      DivModDef(n, Pow(2, p - 1));
      ExactRounds(mode, neg, n / Pow(2, p - 1), Pow(2, p - 1));
    }
  }

  /** A sum that fits the spacing is not rounded. */
  lemma ExactSum(how: Counting, mode: Rounding, neg: bool, s: nat, d: nat, shift: nat, k: nat, q: nat)
    requires 0 < shift && shift + d < k && 0 < Pow(2, k) && (s * Pow(2, d)) % Pow(2, k) == 0
    requires RoundedBy(how, mode, neg, s, shift, q)
    ensures q * Pow(2, shift + d) == s * Pow(2, d) && !RoundsWrongly(mode, neg, s, shift)
  {
    hide Pow, Rounds, StickyMatters;
    var n := s * Pow(2, d);
    PowPositive(2, d);
    PowAdd(2, shift, d);
    PowSplit(2, shift + d, k);
    DivModDef(n, Pow(2, k));
    var t := (n / Pow(2, k)) * Pow(2, k - shift - d);
    assert s == t * Pow(2, shift) by {
      MultipleOf(s, n / Pow(2, k), Pow(2, k - shift - d), Pow(2, shift), Pow(2, d));
    }
    DivModUnique(s, Pow(2, shift), t, 0);
    forall l: nat ensures !OnlyBit(s, shift, l) {
      PowPositive(2, l);
    }
    assert !StickyMisread(s, shift);
    ExactRounds(mode, neg, t, Pow(2, shift));
    RoundsUnique(mode, neg, s, Pow(2, shift), q, t);
    Associate(t, Pow(2, shift), Pow(2, d));
  }

  lemma MultipleOf(s: nat, x: nat, c: nat, u: nat, e: nat)
    requires 0 < e && s * e == x * ((u * e) * c)
    ensures s == (x * c) * u
  {
    assert x * ((u * e) * c) == ((x * c) * u) * e by {
      Associate(u, e, c);
      Associate(u, c, e);
      Associate(c, u, e);
      Associate(x, c, u * e);
      Associate(x * c, u, e);
    }
    if s < (x * c) * u { MulStrict(e, s, (x * c) * u); }
    if s > (x * c) * u { MulStrict(e, (x * c) * u, s); }
  }

  /** Significand and exponent after the rounding, against the rounded size. */
  lemma ResultSize(kind: Kind, m: nat, e: int, r: nat)
    requires HasBits(m, MantBits(kind)) && EffExpMin(kind) <= e && r == Scaled(m, e, EffExpMin(kind))
    ensures e > ExpMax(kind) <==> r >= Huge(kind)
  {
    hide Pow, HasBits, ExpMax;
    ExpRange(kind);
    var p, k := MantBits(kind), e - EffExpMin(kind);
    BitsScale(m, p, k);
    HasPositive(r, p + k);
    if e > ExpMax(kind) {
      PowMono(2, p + (ExpMax(kind) - EffExpMin(kind)), p + k - 1);
      AtLeastHalf(r, p + k);
    } else {
      PowMono(2, p + k, p + (ExpMax(kind) - EffExpMin(kind)));
    }
  }

  /** Making a subnormal of a size that fits its spacing loses nothing. */
  lemma SubnormalExact(m: nat, k: nat, z: nat)
    requires z <= k && 0 < Pow(2, k) && 0 < m && (m * Pow(2, z)) % Pow(2, k) == 0
    ensures 0 < Pow(2, k - z) && 0 < m / Pow(2, k - z)
    ensures (m / Pow(2, k - z)) * Pow(2, k) == m * Pow(2, z)
  {
    hide Pow;
    PowPositive(2, z);
    PowPositive(2, k - z);
    PowSplit(2, z, k);
    var x := (m * Pow(2, z)) / Pow(2, k);
    DivModDef(m * Pow(2, z), Pow(2, k));
    Associate(x, Pow(2, k - z), Pow(2, z));
    assert m == x * Pow(2, k - z) by { MultipleOf(m, x, 1, Pow(2, k - z), Pow(2, z)); }
    DivModUnique(m, Pow(2, k - z), x, 0);
  }

  lemma SizeMultiple(m: nat, e: int, least: int, k: nat)
    requires least + k <= e
    ensures 0 < Pow(2, k) && Scaled(m, e, least) % Pow(2, k) == 0
  {
    hide Pow;
    PowPositive(2, k);
    PowSplit(2, k, e - least);
    var c := Pow(2, e - least - k);
    assert Scaled(m, e, least) == (m * c) * Pow(2, k) by {
      Associate(m, c, Pow(2, k));
    }
    DivModUnique(Scaled(m, e, least), Pow(2, k), m * c, 0);
  }

  /** The sum of two sizes is the aligned sum, scaled. */
  lemma SumOfSizes(p: nat, least: int, ma: nat, ea: int, mb: nat, eb: int)
    requires NumBits(ma) <= p && NumBits(mb) <= p && least <= LowExp(p, ma, ea, mb, eb)
    ensures var low := LowExp(p, ma, ea, mb, eb);
            Scaled(AlignedSum(p, ma, ea, mb, eb), low, least) == Scaled(ma, ea, least) + Scaled(mb, eb, least)
  {
    hide Pow, NumBits;
    var low := LowExp(p, ma, ea, mb, eb);
    Joined(ma, ea - low, low - least);
    Joined(mb, eb - low, low - least);
    Distribute(Pow(2, low - least), Scaled(ma, ea, low), Scaled(mb, eb, low));
  }

  lemma SumMultiple(x: nat, y: nat, k: nat)
    requires 0 < k && x % k == 0 && y % k == 0
    ensures (x + y) % k == 0
  {
    DivModDef(x, k);
    DivModDef(y, k);
    Distribute(k, x / k, y / k);
    DivModUnique(x + y, k, x / k + y / k, 0);
  }

  /** The exponent correction on a rounded sum: past the range infinite, below it
      a subnormal of the same size. */
  method Correct(a: IEEE, ghost r: nat)
    requires a.Shape() && HasBits(a.mant.Value(), MantBits(a.kind)) && a.cat.Normal?
    requires EffExpMin(a.kind) <= a.exp && r == a.Size()
    requires 0 < Pow(2, MantBits(a.kind) - 1)
    requires a.exp < ExpMin(a.kind) ==> r % Pow(2, MantBits(a.kind) - 1) == 0
    modifies a`exp, a`cat, a.mant.words
    ensures if r < Huge(a.kind) then a.WellFormed() && a.Size() == r else a.Shape() && a.cat == Infinite
  {
    hide Val, Pow, Canonical, HasBits, ExpMax;
    ghost var m, e, p := a.mant.Value(), a.exp, MantBits(a.kind);
    ResultSize(a.kind, m, e, r);
    HasPositive(m, p);
    AtLeastHalf(m, p);
    ExpRange(a.kind);
    if e < ExpMin(a.kind) {
      SubnormalExact(m, p - 1, e - EffExpMin(a.kind));
    }
    a.PostOpCorrect();
  }

  lemma AtLeastHalf(m: nat, p: nat)
    requires HasBits(m, p)
    ensures 0 < p && Pow(2, p - 1) <= m
  {
  }

  lemma LowAboveLeast(p: nat, ma: nat, ea: int, mb: nat, eb: int, least: int)
    requires 0 < ma && 0 < mb && least + p - 1 <= ea && least + p - 1 <= eb
    ensures least <= LowExp(p, ma, ea, mb, eb)
  {
  }

  lemma HasPositiveBits(s: nat)
    requires 0 < NumBits(s)
    ensures 0 < s && HasBits(s, NumBits(s))
  {
  }

  /** A carry out of the significand moves into the exponent. */
  lemma RoundedScaled(m: nat, e: int, q: nat, e': int, least: int)
    requires least <= e' && ((e == e' && m == q) || (e == e' + 1 && m * 2 == q))
    ensures least <= e && q * Pow(2, e' - least) == Scaled(m, e, least)
  {
    hide Pow;
    Doubles(e' - least);
    Associate(m, 2, Pow(2, e' - least));
  }

  /** The rounding of a long sum and the final resize. */
  method NormalizeFit(how: Counting, a: IEEE) returns (ends: bool, ghost q: nat)
    requires a.mant.Valid() && MantBits(a.kind) < NumBits(a.mant.Value()) && MantBits(a.kind) <= a.mant.bits
    modifies a`exp, a.mant, a.mant.words
    ensures ends <==> CountEnds(how, old(a.mant.Value()))
    ensures ends ==>
            var p, x := MantBits(a.kind), old(a.mant.Value());
            var shift := NumBits(x) - p;
            && fresh(a.mant.words) && a.Shape() && HasBits(a.mant.Value(), p)
            && RoundedBy(how, a.rounding, a.neg, x, shift, q)
            && (   (a.exp == old(a.exp) + shift && a.mant.Value() == q)
                || (a.exp == old(a.exp) + shift + 1 && a.mant.Value() * 2 == q))
  {
    hide Val, Pow, Canonical, HasBits, NumBits, CountEnds, RoundedBy;
    HasPositiveBits(a.mant.Value());
    ends, q := NormalizeMant(how, a);
    if ends { Ext(a.mant, MantBits(a.kind)); }
  }

  /** The second half of the addition: rounds the aligned sum, of size n, and
      corrects the exponent.  r is the rounded size, whatever its exponent. */
  method RoundSum(how: Counting, a: IEEE, ghost n: nat) returns (ends: bool, ghost r: nat)
    requires a.mant.Valid() && MantBits(a.kind) < NumBits(a.mant.Value()) && a.cat.Normal?
    requires EffExpMin(a.kind) <= a.exp && n == a.Size() && MantBits(a.kind) <= a.mant.bits
    requires 0 < Pow(2, MantBits(a.kind) - 1) && n % Pow(2, MantBits(a.kind) - 1) == 0
    modifies a`exp, a`cat, a.mant, a.mant.words
    ensures ends <==> CountEnds(how, old(a.mant.Value()))
    ensures ends ==>
            (RoundedSize(MantBits(a.kind), a.rounding, a.neg, n, r) <==>
             how.Documented? || !RoundsWrongly(a.rounding, a.neg, old(a.mant.Value()),
                                               NumBits(old(a.mant.Value())) - MantBits(a.kind)))
    ensures ends ==>
            if r < Huge(a.kind) then a.WellFormed() && a.Size() == r else a.Shape() && a.cat == Infinite
  {
    hide Val, Pow, Canonical, HasBits, NumBits, CountEnds, RoundedBy, RoundedSize, RoundsWrongly, ExpMax, Huge;
    ghost var p, least, s, low := MantBits(a.kind), EffExpMin(a.kind), a.mant.Value(), a.exp;
    ghost var q;
    ends, q := NormalizeFit(how, a);
    r := 0;
    if !ends { return; }
    r := q * Pow(2, NumBits(s) - p + (low - least));
    SumRounded(how, p, a.rounding, a.neg, s, low - least, NumBits(s) - p, q, n, r);
    RoundedScaled(a.mant.Value(), a.exp, q, low + (NumBits(s) - p), least);
    Correct(a, r);
  }

  /** Adds the magnitude of the other float to this one.  The callers pass floats
      of one sign.  r is the sum rounded, whatever its exponent. */
  method AddBase(how: Counting, a: IEEE, ogB: IEEE) returns (ends: bool, ghost r: nat)
    requires a.WellFormed() && ogB.WellFormed() && a.kind == ogB.kind && a.rounding == ogB.rounding
    modifies a`exp, a`cat, a.mant, a.mant.words
    ensures var p := MantBits(a.kind);
            var ma, mb := old(a.mant.Value()), old(ogB.mant.Value());
            && NumBits(ma) <= p && NumBits(mb) <= p
            && var s := AlignedSum(p, ma, old(a.exp), mb, old(ogB.exp));
            && p < NumBits(s)
            && (ends <==> CountEnds(how, s))
            && (ends ==>
                  (RoundedSize(p, a.rounding, a.neg, old(a.Size()) + old(ogB.Size()), r) <==>
                   how.Documented? || !RoundsWrongly(a.rounding, a.neg, s, NumBits(s) - p)))
    ensures ends ==>
            if r < Huge(a.kind) then a.WellFormed() && a.Size() == r else a.Shape() && a.cat == Infinite
  {
    hide Val, Pow, Canonical, HasBits, NumBits, CountEnds, RoundedSize, RoundsWrongly, ExpMax, AlignedSum, LowExp, Scaled, Huge;
    ghost var p, least, n := MantBits(a.kind), EffExpMin(a.kind), a.Size() + ogB.Size();
    ghost var ma, ea, mb, eb := a.mant.Value(), a.exp, ogB.mant.Value(), ogB.exp;
    ExpRange(a.kind);
    SizeMultiple(ma, ea, least, p - 1);
    SizeMultiple(mb, eb, least, p - 1);
    SumMultiple(a.Size(), ogB.Size(), Pow(2, p - 1));
    var b := ogB.Copy();
    AddAligned(a, b);
    LowAboveLeast(p, ma, ea, mb, eb, least);
    SumOfSizes(p, least, ma, ea, mb, eb);
    ends, r := RoundSum(how, a, n);
  }

  // ------------------------------------------------- where it goes wrong

  lemma BitsAre(x: nat, n: nat)
    requires HasBits(x, n)
    ensures NumBits(x) == n
  {
    HasPositive(x, n);
    BitsUnique(x, n, NumBits(x));
  }

  lemma TieSum()
    ensures NumBits(1024) == 11 && NumBits(2098176) == 22
    ensures AlignedSum(11, 1024, 0, 1024, -11) == 2098176
  {
    hide NumBits;
    SmallPowers();
    BitsAre(1024, 11);
    BitsAre(2098176, 22);
    assert LowExp(11, 1024, 0, 1024, -11) == -11;
  }

  lemma TieBits()
    ensures OnlyBit(2098176, 11, 10) && !BitOf(2098176, 11) && BitOf(2098176, 10)
    ensures FirstNonzero(2098176, 0, 2098176)
  {
    hide Pow;
    SmallPowers();
    PowZeroth(Machine.W);
  }

  lemma PowZeroth(b: nat)
    ensures Pow(b, 0) == 1
  {
  }

  /** In half precision, 1 + 2^-11 is a tie and rounds to 1; as written it is
      rounded up. */
  lemma TieRoundedUp()
    ensures NumBits(1024) == 11 && NumBits(2098176) == 22
    ensures AlignedSum(11, 1024, 0, 1024, -11) == 2098176 && CountEnds(BitZeroSkipped, 2098176)
    ensures Rounds(TiesEven, false, 2098176, Pow(2, 11), 1024)
    ensures forall q: nat :: RoundedBy(BitZeroSkipped, TiesEven, false, 2098176, 11, q) ==> q == 1025
  {
    hide NumBits, Pow, OnlyBit, BitOf, FirstNonzero, AlignedSum;
    TieSum();
    TieBits();
    SmallPowers();
    assert StickyMisread(2098176, 11);
    assert RoundsWrongly(TiesEven, false, 2098176, 11);
  }

  lemma SmallPowers()
    ensures Pow(2, 0) == 1 && Pow(2, 10) == 1024 && Pow(2, 11) == 2048
    ensures Pow(2, 21) == 2097152 && Pow(2, 22) == 4194304
    ensures Pow(2, 52) == 0x10_0000_0000_0000 && Pow(2, 53) == 0x20_0000_0000_0000
  {
    assert Pow(2, 5) == 32;
    PowAdd(2, 5, 5);
    PowAdd(2, 10, 1);
    PowAdd(2, 11, 10);
    PowAdd(2, 21, 1);
    PowAdd(2, 22, 22);
    PowAdd(2, 44, 5);
    PowAdd(2, 49, 3);
    PowAdd(2, 52, 1);
    PowOne(2);
    assert Pow(2, 3) == 8;
  }

  /** In double precision the sum of 2^53 - 1 and 1 + 2^-52 is 2^105 + 1 units, and
      the count of its trailing zeroes never ends. */
  lemma AdditionNeverEnds()
    ensures var ma, mb, s := 0x1F_FFFF_FFFF_FFFF, 0x10_0000_0000_0001, 0x200_0000_0000_0000_0000_0000_0001;
            && NumBits(ma) == 53 && NumBits(mb) == 53
            && AlignedSum(53, ma, 52, mb, 0) == s && !CountEnds(BitZeroSkipped, s)
  {
    hide NumBits, Pow, FirstNonzero;
    SmallPowers();
    var ma, mb, s := 0x1F_FFFF_FFFF_FFFF, 0x10_0000_0000_0001, 0x200_0000_0000_0000_0000_0000_0001;
    PowZeroth(2);
    BitsAre(ma, 53);
    BitsAre(mb, 53);
    assert LowExp(53, ma, 52, mb, 0) == 0;
    FirstWordIsOne(s);
    forall i: nat, w: nat | FirstNonzero(s, i, w) ensures w == 1 {
      FirstIsUnique(s, 0, 1, i, w);
    }
  }

  lemma FirstWordIsOne(s: nat)
    requires s == 0x200_0000_0000_0000_0000_0000_0001
    ensures FirstNonzero(s, 0, 1)
  {
    hide Pow;
    PowZeroth(Machine.W);
  }
}
