/** Multiplying floats: the full product of the significands loses its low bits
    before it is rounded, so the result is a neighbour of the product but not
    always the prescribed one. */
module FloatMul {
  import opened Powers
  import opened Digits
  import opened Machine
  import opened ApInts
  import opened ApIntDivision
  import opened ApIntBits
  import opened ApIntMultiply
  import opened FloatRounding
  import opened Floats
  import opened FloatAdd

  /** q units of u are less than a unit away from x, and x itself if it is a
      multiple of u. */
  predicate Faithful(x: nat, u: nat, q: nat)
    requires 0 < u
  {
    Distance(q * u, x) < u && (x % u == 0 ==> q * u == x)
  }

  /** What the code does instead of rounding: nothing when the shortened product
      has the precision already; otherwise it tests the one bit it still has to
      drop, as written only if the bit above is set. */
  function Increments(how: Counting, mode: Rounding, neg: bool, extra: bool, guard: bool, round: bool): bool
  {
    extra && (if how.Documented? then round else guard) && ShouldIncMant(mode, neg, guard, round, false)
  }

  /** When that is the prescribed rounding. */
  predicate ProductRight(how: Counting, mode: Rounding, neg: bool, extra: bool, guard: bool, round: bool, sticky: bool)
  {
    var away := (mode.Up? && !neg) || (mode.Down? && neg);
    && (mode.TiesEven? ==> if extra then !(round && !guard && sticky) else !(round && (guard || sticky)))
    && (mode.TiesAway? ==> !round || (extra && (how.Documented? || guard)))
    && (away ==>
          && (!round ==> !sticky)
          && (round ==> extra && (how.Documented? || guard)))
  }

  /** The product x is cut to its top bits at position t and made q. */
  ghost predicate Multiplied(how: Counting, mode: Rounding, neg: bool, x: nat, t: nat, extra: bool, q: nat)
    requires 0 < t
  {
    && 0 < Pow(2, t) && 0 < Pow(2, t - 1) && Faithful(x, Pow(2, t), q)
    && (Rounds(mode, neg, x, Pow(2, t), q) <==>
        ProductRight(how, mode, neg, extra, BitOf(x, t), BitOf(x, t - 1), x % Pow(2, t - 1) != 0))
  }

  lemma IncrementRounds(mode: Rounding, neg: bool, x: nat, h: nat, q: nat, inc: bool)
    requires 0 < h && q == x / (2 * h)
    ensures Rounds(mode, neg, x, 2 * h, if inc then q + 1 else q)
       <==> inc == ShouldIncMant(mode, neg, q % 2 == 1, (x / h) % 2 == 1, x % h != 0)
  {
    hide Rounds;
    var sticky := x % h != 0;
    BitsRound(mode, neg, x, h, q, sticky);
    var right := ShouldIncMant(mode, neg, q % 2 == 1, (x / h) % 2 == 1, sticky);
    assert Rounds(mode, neg, x, 2 * h, if right then q + 1 else q);
    if Rounds(mode, neg, x, 2 * h, if inc then q + 1 else q) {
      RoundsUnique(mode, neg, x, 2 * h, if right then q + 1 else q, if inc then q + 1 else q);
    }
  }

  lemma NeighbourFaithful(x: nat, h: nat, q: nat, inc: bool)
    requires 0 < h && q == x / (2 * h) && (inc ==> (x / h) % 2 == 1)
    ensures Faithful(x, 2 * h, if inc then q + 1 else q)
  {
    DivModDef(x, 2 * h);
    Distribute(2 * h, q, 1);
    if inc {
      HalfBit(x, h, q);
    }
  }

  lemma HalfBit(x: nat, h: nat, q: nat)
    requires 0 < h && q == x / (2 * h) && (x / h) % 2 == 1
    ensures q * (2 * h) + h <= x && x % (2 * h) != 0
  {
    DivDiv(x, h, 2);
    DivModDef(x, h);
    DivModDef(x, 2 * h);
    Distribute(h, 2 * q, 1);
    Associate(q, 2, h);
  }

  lemma CutProduct(how: Counting, mode: Rounding, neg: bool, x: nat, t: nat, extra: bool, q: nat)
    requires 0 < t && 0 < Pow(2, t) && q == x / Pow(2, t)
    ensures var inc := Increments(how, mode, neg, extra, BitOf(x, t), BitOf(x, t - 1));
            Multiplied(how, mode, neg, x, t, extra, if inc then q + 1 else q)
  {
    hide Rounds, Faithful;
    PowPositive(2, t - 1);
    var inc := Increments(how, mode, neg, extra, BitOf(x, t), BitOf(x, t - 1));
    IncrementRounds(mode, neg, x, Pow(2, t - 1), q, inc);
    NeighbourFaithful(x, Pow(2, t - 1), q, inc);
  }

  /** The count of trailing zeroes of a one-word number above 1 always ends, and is
      zero when its lowest tested bit is set. */
  lemma CountIsZero(how: Counting, x: nat, n: nat)
    requires 1 < x < W
    ensures CountEnds(how, x)
    ensures Counted(how, x, n) ==> (n < 1 <==> if how.Documented? then x % 2 == 1 else (x / 2) % 2 == 1)
  {
    hide Pow, Lowest, FirstNonzero;
    OneWordFirst(x);
    PowOne(2);
    if Counted(how, x, n) {
      if how.Documented? {
        LowestBelow(x, n, 1);
      } else {
        var i: nat, w: nat :| FirstNonzero(x, i, w) && 64 * i <= n && Lowest(w / 2, n - 64 * i);
        FirstIsUnique(x, 0, x, i, w);
        LowestBelow(x / 2, n, 1);
      }
    }
  }

  lemma OneWordFirst(x: nat)
    requires 0 < x < W
    ensures FirstNonzero(x, 0, x)
  {
    PowZeroth(W);
  }

  lemma ProductBits(x: nat, y: nat, p: nat)
    requires HasBits(x, p) && HasBits(y, p) && 0 < p
    ensures HasBits(x * y, 2 * p - 1) || HasBits(x * y, 2 * p)
  {
    PowAdd(2, p - 1, p - 1);
    PowAdd(2, p, p);
    MulMono(Pow(2, p - 1), Pow(2, p - 1), x);
    MulMono(x, Pow(2, p - 1), y);
    MulMono(x, y, Pow(2, p));
    MulStrict(Pow(2, p), x, Pow(2, p));
  }

  /** Dropping k low bits. */
  lemma DropBits(x: nat, l: nat, k: nat)
    requires k < l && HasBits(x, l)
    ensures 0 < Pow(2, k) && HasBits(x / Pow(2, k), l - k)
  {
    hide Pow;
    PowPositive(2, k);
    PowAdd(2, l - k, k);
    PowAdd(2, l - k - 1, k);
    var q := x / Pow(2, k);
    DivModDef(x, Pow(2, k));
    FactorLess(Pow(2, k), q, x, Pow(2, l - k));
    FactorLess(Pow(2, k), Pow(2, l - k - 1), x, q + 1);
  }

  lemma BitsDropped(x: nat, k: nat, r: nat)
    ensures 0 < Pow(2, k) && 0 < Pow(2, r) && 0 < Pow(2, k + r)
    ensures BitOf(x / Pow(2, k), r) <==> BitOf(x, k + r)
    ensures (x / Pow(2, k)) / Pow(2, r) == x / Pow(2, k + r)
  {
    PowPositive(2, k);
    PowPositive(2, r);
    PowPositive(2, k + r);
    PowAdd(2, k, r);
    DivDiv(x, Pow(2, k), Pow(2, r));
  }

  lemma ProductRange(x: nat, p: nat)
    requires 1 < p && p + 1 < 64 && (HasBits(x, p) || HasBits(x, p + 1))
    ensures 1 < x < W
  {
    PowMono(2, 1, p - 1);
    PowOne(2);
    PowMono(2, p, p + 1);
    PowStrict(2, p + 1, 64);
    PowMono(2, p - 1, p);
    TwoToThe64();
  }

  lemma LowBits(x: nat)
    ensures BitOf(x, 0) <==> x % 2 == 1
    ensures BitOf(x, 1) <==> (x / 2) % 2 == 1
  {
    PowOne(2);
  }

  lemma WhichBits(x: nat, p: nat, bits: nat)
    requires HasBits(x, bits) && (HasBits(x, p) || HasBits(x, p + 1))
    ensures HasBits(x, p + 1) <==> bits == p + 1
    ensures bits == p || bits == p + 1
  {
    if HasBits(x, p) { BitsUnique(x, p, bits); }
    if HasBits(x, p + 1) { BitsUnique(x, p + 1, bits); }
  }

  /** Rounds the shortened product, of p or p + 1 bits, by adding to it, and
      returns how many bits are to be dropped. */
  method IncrementProduct(how: Counting, mode: Rounding, neg: bool, m: ApInt, p: nat) returns (drop: nat)
    requires m.Valid() && 1 < p && p + 1 < 64 && p + 1 <= m.bits
    requires HasBits(m.Value(), p) || HasBits(m.Value(), p + 1)
    modifies m, m.words
    ensures m.Valid() && p + 1 <= m.bits && HasBits(m.Value(), p + drop)
    ensures m.words == old(m.words) || fresh(m.words)
    ensures var x, extra := old(m.Value()), HasBits(old(m.Value()), p + 1);
            var inc := Increments(how, mode, neg, extra, (x / 2) % 2 == 1, x % 2 == 1);
            && m.Value() == x + (if inc then 2 else 0)
            && (if extra then drop == 1 || drop == 2 else drop == 0)
  {
    hide Val, Pow, Canonical, HasBits, Counted, CountEnds, ShouldIncMant, BitOf;
    ghost var x := m.Value();
    ProductRange(x, p);
    LowBits(x);
    var bits := SigBits(m);
    WhichBits(x, p, bits);
    drop := bits - p;
    var ends, zeroes := CountTrailingZeroes(how, m);
    CountIsZero(how, x, zeroes);
    if zeroes < drop {
      var round := GetBit(m, drop - 1);
      var guard := GetBit(m, drop);
      IncNeedsRound(mode, neg, guard, round);
      if ShouldIncMant(mode, neg, guard, round, zeroes + 1 < drop) {
        PowOne(2);
        drop := AddUnit(m, drop, p);
      }
    }
  }

  lemma IncNeedsRound(mode: Rounding, neg: bool, guard: bool, round: bool)
    ensures ShouldIncMant(mode, neg, guard, round, false) ==> round
  {
  }

  /** Drops the low bits again: v is the rounded product. */
  lemma DropProduct(x: nat, p: nat, extra: bool, inc: bool, m: nat, drop: nat, v: nat)
    requires 1 < p && HasBits(x, if extra then p + 1 else p) && HasBits(m, p + drop)
    requires m == x + (if inc then 2 else 0) && (inc ==> extra)
    requires if extra then drop == 1 || drop == 2 else drop == 0
    requires v == (if extra then x / 2 else x) + (if inc then 1 else 0)
    ensures 0 < Pow(2, drop) && HasBits(m / Pow(2, drop), p)
    ensures var e := if extra then 1 else 0;
            (drop == e && m / Pow(2, drop) == v) || (drop == e + 1 && m / Pow(2, drop) * 2 == v)
  {
    hide Pow, HasBits;
    PowZero();
    PowOne(2);
    Doubles(1);
    Doubles(p);
    PowBits(p);
    if extra {
      RoundedUp(x, p + 1, p, 1);
      if drop == 2 && !inc { BitsUnique(x, p + 1, p + 2); }
    }
  }

  /** The shortened product m of p-bit significands: its bits, and the bits of the
      full product they are. */
  lemma ProductFacts(x: nat, y: nat, p: nat, m: nat) returns (extra: bool)
    requires 1 < p && HasBits(x, p) && HasBits(y, p)
    requires 0 < Pow(2, p - 1) && m == (x * y) / Pow(2, p - 1)
    ensures extra <==> HasBits(x * y, 2 * p)
    ensures HasBits(m, if extra then p + 1 else p)
    ensures extra <==> HasBits(m, p + 1)
    ensures 0 < Pow(2, p) && m / 2 == (x * y) / Pow(2, p)
    ensures m % 2 == 1 <==> BitOf(x * y, p - 1)
    ensures (m / 2) % 2 == 1 <==> BitOf(x * y, p)
  {
    hide Pow, HasBits, BitOf;
    var z := x * y;
    extra := HasBits(z, 2 * p);
    ProductBits(x, y, p);
    DropBits(z, if extra then 2 * p else 2 * p - 1, p - 1);
    BitsDropped(z, p - 1, 0);
    BitsDropped(z, p - 1, 1);
    LowBits(m);
    PowOne(2);
    if !extra && HasBits(m, p + 1) { BitsUnique(m, p, p + 1); }
  }

  /** The significand m and exponent exp are those of the product x * y of p-bit
      significands whose exponents add up to e, cut to p bits as q. */
  ghost predicate ProductOf(how: Counting, mode: Rounding, neg: bool, x: nat, y: nat, p: nat, e: int, m: nat, exp: int, q: nat)
    requires 1 < p
  {
    var extra := HasBits(x * y, 2 * p);
    var carry := if extra then 1 else 0;
    && Multiplied(how, mode, neg, x * y, p - 1 + carry, extra, q)
    && HasBits(m, p)
    && ((exp == e + carry && m == q) || (exp == e + carry + 1 && m * 2 == q))
  }

  lemma ProductIs(how: Counting, mode: Rounding, neg: bool, x: nat, y: nat, p: nat, e: int, m: nat, m': nat, drop: nat)
    returns (q: nat)
    requires 1 < p && HasBits(x, p) && HasBits(y, p)
    requires 0 < Pow(2, p - 1) && m == (x * y) / Pow(2, p - 1) && HasBits(m', p + drop)
    requires var extra := HasBits(m, p + 1);
             var inc := Increments(how, mode, neg, extra, (m / 2) % 2 == 1, m % 2 == 1);
             && m' == m + (if inc then 2 else 0)
             && (if extra then drop == 1 || drop == 2 else drop == 0)
    ensures 0 < Pow(2, drop) && HasBits(m' / Pow(2, drop), p)
    ensures ProductOf(how, mode, neg, x, y, p, e, m' / Pow(2, drop), e + drop, q)
  {
    hide Pow, HasBits, Multiplied, Increments, BitOf;
    var extra := ProductFacts(x, y, p, m);
    var inc := Increments(how, mode, neg, extra, (m / 2) % 2 == 1, m % 2 == 1);
    IncrementsExtra(how, mode, neg, extra, (m / 2) % 2 == 1, m % 2 == 1);
    IncrementsExtra(how, mode, neg, extra, BitOf(x * y, p - 1), BitOf(x * y, p - 2));
    q := (if extra then m / 2 else m) + (if inc then 1 else 0);
    DropProduct(m, p, extra, inc, m', drop, q);
    if extra {
      CutProduct(how, mode, neg, x * y, p, true, m / 2);
    } else {
      CutProduct(how, mode, neg, x * y, p - 1, false, m);
    }
  }

  lemma IncrementsExtra(how: Counting, mode: Rounding, neg: bool, extra: bool, guard: bool, round: bool)
    ensures Increments(how, mode, neg, extra, guard, round) ==> extra
  {
  }

  /** The full product without its low bits: the operands count all bits but
      one as a fraction. */
  method ShortenedProduct(a: ApInt, b: ApInt) returns (r: ApInt)
    requires a.Valid() && b.Valid() && a.bits == b.bits <= 64
    ensures fresh(r) && fresh(r.words) && r.Valid() && r.bits == a.bits * 2
    ensures 0 < a.bits && 0 < Pow(2, a.bits - 1) && r.Value() == (a.Value() * b.Value()) / Pow(2, a.bits - 1)
  {
    hide Val, Pow, Canonical;
    PositiveWidth(a);
    r := new ApInt.Zero(a.bits * 2);
    UFullMul(a, b, r);
    r.LshrImm(a.bits - 1);
  }

  /** Multiplies by the other float, whose significand has full precision too.
      x is the exact product of the significands, and q what its top bits are
      rounded to; the sizes of the exponents are left to the correction. */
  method MulBase(how: Counting, a: IEEE, b: IEEE) returns (ghost q: nat)
    requires a.Shape() && b.Shape() && a.kind == b.kind && a.rounding == b.rounding
    requires HasBits(a.mant.Value(), MantBits(a.kind)) && HasBits(b.mant.Value(), MantBits(b.kind))
    requires a.cat.Normal? && b.cat.Normal?
    modifies a`neg, a`exp, a`mant
    ensures a.Shape() && HasBits(a.mant.Value(), MantBits(a.kind)) && fresh(a.mant) && fresh(a.mant.words)
    ensures a.neg <==> old(a.neg) != old(b.neg)
    ensures ProductOf(how, a.rounding, a.neg, old(a.mant.Value()), old(b.mant.Value()), MantBits(a.kind),
                      old(a.exp) + old(b.exp), a.mant.Value(), a.exp, q)
  {
    hide Val, Pow, Canonical, HasBits, Increments, ProductOf;
    ghost var p, x, y, e := MantBits(a.kind), a.mant.Value(), b.mant.Value(), a.exp + b.exp;
    a.neg := a.neg != b.neg;
    a.exp := a.exp + b.exp;
    var unnorm := ShortenedProduct(a.mant, b.mant);
    ghost var m := unnorm.Value();
    ghost var extra := ProductFacts(x, y, p, m);
    var drop := IncrementProduct(how, a.rounding, a.neg, unnorm, MantBits(a.kind));
    q := ProductIs(how, a.rounding, a.neg, x, y, p, e, m, unnorm.Value(), drop);
    WidthCovers(unnorm, p + drop);
    unnorm.LshrImm(drop);
    HasPositive(unnorm.Value(), p);
    a.mant := unnorm;
    Ext(a.mant, MantBits(a.kind));
    a.exp := a.exp + drop;
  }

  lemma WidthCovers(m: ApInt, n: nat)
    requires m.Valid() && HasBits(m.Value(), n)
    ensures n <= m.bits
  {
    hide Val, Pow;
    CanonicalBound(m.words[..], m.bits);
    HasPositive(m.Value(), n);
    BitsBelow(m.Value(), n, m.bits);
  }

  /** The result is less than one unit in its last place away from the exact
      product. */
  lemma ProductIsFaithful(how: Counting, mode: Rounding, neg: bool, x: nat, y: nat, p: nat, e: int, m: nat, exp: int, q: nat)
    requires 1 < p && HasBits(x, p) && HasBits(y, p) && ProductOf(how, mode, neg, x, y, p, e, m, exp, q)
    ensures e <= exp && HasBits(m, p)
    ensures Distance(m * Pow(2, exp - e + p - 1), x * y) < Pow(2, exp - e + p - 1)
  {
    hide Pow, HasBits, Rounds;
    var t := p - 1 + if HasBits(x * y, 2 * p) then 1 else 0;
    Doubles(t);
    Associate(m, 2, Pow(2, t));
  }

  /** And it is the product whenever that has no more than p significant bits. */
  lemma ProductIsExact(how: Counting, mode: Rounding, neg: bool, x: nat, y: nat, p: nat, e: int, m: nat, exp: int, q: nat,
                       z: nat, k: nat)
    requires 1 < p && HasBits(x, p) && HasBits(y, p) && ProductOf(how, mode, neg, x, y, p, e, m, exp, q)
    requires z < Pow(2, p) && x * y == z * Pow(2, k)
    ensures e <= exp && m * Pow(2, exp - e + p - 1) == x * y
  {
    hide Pow, HasBits, Rounds;
    var t := p - 1 + if HasBits(x * y, 2 * p) then 1 else 0;
    ProductBits(x, y, p);
    EnoughPlaces(x * y, z, k, p, t);
    Representable(x * y, z, k, t);
    Doubles(t);
    Associate(m, 2, Pow(2, t));
  }

  lemma EnoughPlaces(x: nat, z: nat, k: nat, p: nat, t: nat)
    requires HasBits(x, p + t) && z < Pow(2, p) && x == z * Pow(2, k)
    ensures t <= k
  {
    hide Pow;
    AtLeastHalf(x, p + t);
    PowAdd(2, p, k);
    PowPositive(2, k);
    MulStrict(Pow(2, k), z, Pow(2, p));
    if k < t { PowMono(2, p + k, p + t - 1); }
  }

  lemma Representable(x: nat, z: nat, k: nat, t: nat)
    requires t <= k && x == z * Pow(2, k)
    ensures 0 < Pow(2, t) && x % Pow(2, t) == 0
  {
    hide Pow;
    SizeMultiple(z, k, 0, t);
  }

  /** Not correctly rounded in general: in half precision the square of 1 + 2^-10
      is above 1 + 2^-9, and rounding up stops short of it. */
  lemma UpwardsFallsShort(how: Counting)
    ensures HasBits(1025, 11) && !HasBits(1025 * 1025, 22)
    ensures forall m: nat, e: int, q: nat ::
              ProductOf(how, Up, false, 1025, 1025, 11, 0, m, e, q) ==>
              m == 1026 && e == 0 && m * Pow(2, 10) < 1025 * 1025
              && !Rounds(Up, false, 1025 * 1025, Pow(2, 10), q)
  {
    SmallPowers();
    forall m: nat, e: int, q: nat | ProductOf(how, Up, false, 1025, 1025, 11, 0, m, e, q)
      ensures m == 1026 && e == 0 && m * Pow(2, 10) < 1025 * 1025
      ensures !Rounds(Up, false, 1025 * 1025, Pow(2, 10), q)
    {
      ShortSquare(how, q);
    }
  }

  lemma ShortSquare(how: Counting, q: nat)
    requires Multiplied(how, Up, false, 1025 * 1025, 10, false, q)
    ensures q == 1026 && !Rounds(Up, false, 1025 * 1025, Pow(2, 10), q)
  {
    hide Pow;
    SmallPowers();
    PowSplit(2, 1, 10);
    PowOne(2);
  }

  lemma TopBitSet(m: nat, p: nat)
    requires 0 < p && m < Pow(2, p)
    ensures BitOf(m, p - 1) <==> HasBits(m, p)
  {
    hide Pow;
    Doubles(p);
    PowPositive(2, p - 1);
    if m < Pow(2, p - 1) {
      DivModUnique(m, Pow(2, p - 1), 0, m);
    } else {
      DivModUnique(m, Pow(2, p - 1), 1, m - Pow(2, p - 1));
    }
  }

  /** The correction of a result m * 2^(e - p + 1), whatever its exponent. */
  ghost predicate Corrected(a: IEEE, m: nat, e: int)
    reads a, a.mant, a.mant.words
  {
    && a.Shape()
    && (e > ExpMax(a.kind) ==> a.cat == Infinite)
    && (ExpMin(a.kind) <= e <= ExpMax(a.kind) ==> a.cat.Normal? && a.WellFormed() && a.exp == e && a.mant.Value() == m)
    && (ExpMin(a.kind) - MantBits(a.kind) < e < ExpMin(a.kind) ==>
          && a.cat.Normal? && a.exp == ExpMin(a.kind)
          && 0 < Pow(2, ExpMin(a.kind) - e) && a.mant.Value() == m / Pow(2, ExpMin(a.kind) - e))
    && (e <= ExpMin(a.kind) - MantBits(a.kind) ==> a.cat == Category.Zero)
  }

  lemma FullMant(m: ApInt, p: nat)
    requires m.Valid() && m.bits == p && 0 < m.Value()
    ensures NumBits(m.Value()) <= p
    ensures HasBits(m.Value(), p) ==> NumBits(m.Value()) == p && NormalMant(m.Value(), p) == m.Value()
    ensures 0 < p && (BitOf(m.Value(), p - 1) <==> HasBits(m.Value(), p))
    ensures HasBits(m.Value(), p) <==> Pow(2, p - 1) <= m.Value()
  {
    hide Val, NumBits, BitOf;
    PowZero();
    PositiveWidth(m);
    CanonicalBound(m.words[..], m.bits);
    TopBitSet(m.Value(), p);
    BitsBelow(m.Value(), NumBits(m.Value()), p);
    if HasBits(m.Value(), p) { BitsUnique(m.Value(), p, NumBits(m.Value())); }
  }

  /** The same for significands that may still be subnormal. */
  ghost predicate ProductOfFloats(how: Counting, mode: Rounding, neg: bool, p: nat, ma: nat, ea: int, mb: nat, eb: int,
                                  m: nat, e: int, q: nat)
  {
    && 1 < p && NumBits(ma) <= p && NumBits(mb) <= p
    && ProductOf(how, mode, neg, NormalMant(ma, p), NormalMant(mb, p), p,
                 (ea - (p - NumBits(ma))) + (eb - (p - NumBits(mb))), m, e, q)
  }

  /** Multiplies a normalised float by one that may be subnormal. */
  method MulNormalized(how: Counting, a: IEEE, b: IEEE) returns (ghost q: nat)
    requires a.Shape() && HasBits(a.mant.Value(), MantBits(a.kind)) && a.cat.Normal? && b.cat.Normal?
    requires b.Shape() && a.kind == b.kind && a.rounding == b.rounding
    requires 0 < b.mant.Value() && ExpMin(b.kind) - MantBits(b.kind) < b.exp
    requires b.mant.Value() < Pow(2, MantBits(b.kind) - 1) ==> ExpMin(b.kind) <= b.exp
    modifies a`neg, a`exp, a`mant
    ensures a.neg <==> old(a.neg) != old(b.neg)
    ensures a.Shape() && HasBits(a.mant.Value(), MantBits(a.kind)) && fresh(a.mant) && fresh(a.mant.words)
    ensures ProductOfFloats(how, a.rounding, a.neg, MantBits(a.kind), old(a.mant.Value()), old(a.exp),
                            old(b.mant.Value()), old(b.exp), a.mant.Value(), a.exp, q)
  {
    hide Val, Pow, Canonical, HasBits, NumBits, NormalMant, ExpMax, ProductOf, BitOf;
    HasPositive(a.mant.Value(), MantBits(a.kind));
    FullMant(a.mant, MantBits(a.kind));
    FullMant(b.mant, MantBits(a.kind));
    var normal := GetBit(b.mant, b.mant.bits - 1);
    if normal {
      q := MulBase(how, a, b);
    } else {
      var bNorm := b.Copy();
      bNorm.Normalize();
      q := MulBase(how, a, bNorm);
    }
  }

  /** Multiplication of finite nonzero floats: subnormals are normalised, the
      significands multiplied, and the exponent corrected.  m and e are the
      significand and the exponent before the correction. */
  method MulNormal(how: Counting, a: IEEE, b: IEEE) returns (ghost q: nat, ghost m: nat, ghost e: int)
    requires a.WellFormed() && b.WellFormed() && a.kind == b.kind && a.rounding == b.rounding
    requires a == b || a.mant.words != b.mant.words
    modifies a`neg, a`exp, a`cat, a`mant, a.mant.words
    ensures a.neg <==> old(a.neg) != old(b.neg)
    ensures ProductOfFloats(how, a.rounding, a.neg, MantBits(a.kind), old(a.mant.Value()), old(a.exp),
                            old(b.mant.Value()), old(b.exp), m, e, q)
    ensures Corrected(a, m, e)
  {
    hide Val, Pow, Canonical, HasBits, NumBits, NormalMant, ExpMax, ProductOf;
    ghost var p := MantBits(a.kind);
    FullMant(a.mant, p);
    FullMant(b.mant, p);
    ghost var na := NormalMant(a.mant.Value(), p);
    a.Normalize();
    BitsAre(na, p);
    FullMant(a.mant, p);
    q := MulNormalized(how, a, b);
    m, e := a.mant.Value(), a.exp;
    HasPositive(m, p);
    AtLeastHalf(m, p);
    a.PostOpCorrect();
  }
}
