/** Rounding a significand to fewer bits. */
module FloatRounding {
  import opened Powers

  datatype Rounding = TiesEven | TiesAway | Up | Down | TowardZero

  /** Whether to round the magnitude up, from the last kept bit, the first
      discarded bit, and whether any later one is set. */
  function ShouldIncMant(mode: Rounding, neg: bool, guard: bool, round: bool, sticky: bool): bool
  {
    match mode
    case TiesEven => round && (guard || sticky)
    case TiesAway => round
    case Up => !neg && (round || sticky)
    case Down => neg && (round || sticky)
    case TowardZero => false
  }

  function Distance(x: int, y: int): nat
  {
    if x < y then y - x else x - y
  }

  /** The magnitude x is rounded to q units of u, as section 4.3 of IEEE 754-2008
      prescribes: to nearest with a tie going to the even or to the larger
      magnitude, or to the neighbour on the prescribed side. */
  predicate Rounds(mode: Rounding, neg: bool, x: nat, u: nat, q: nat)
  {
    match mode
    case TiesEven => 2 * Distance(x, q * u) <= u && (2 * Distance(x, q * u) == u ==> q % 2 == 0)
    case TiesAway => 2 * Distance(x, q * u) <= u && (2 * Distance(x, q * u) == u ==> x < q * u)
    case Up => if neg then q * u <= x < q * u + u else q * u - u < x <= q * u
    case Down => if neg then q * u - u < x <= q * u else q * u <= x < q * u + u
    case TowardZero => q * u <= x < q * u + u
  }

  /** The rounded magnitude is determined. */
  lemma RoundsUnique(mode: Rounding, neg: bool, x: nat, u: nat, q: nat, q': nat)
    requires 0 < u && Rounds(mode, neg, x, u, q) && Rounds(mode, neg, x, u, q')
    ensures q == q'
  {
    if q < q' {
      RoundsOrdered(mode, neg, x, u, q, q');
    } else if q' < q {
      RoundsOrdered(mode, neg, x, u, q', q);
    }
  }

  lemma RoundsOrdered(mode: Rounding, neg: bool, x: nat, u: nat, q: nat, q': nat)
    requires 0 < u && q < q' && Rounds(mode, neg, x, u, q)
    ensures !Rounds(mode, neg, x, u, q')
  {
    Distribute(u, q, 1);
    MulMono(u, q + 1, q');
    if q' > q + 1 {
      MulMono(u, q + 2, q');
      Distribute(u, q, 2);
    }
  }

  /** An exact multiple is rounded to itself. */
  lemma ExactRounds(mode: Rounding, neg: bool, q: nat, u: nat)
    requires 0 < u
    ensures Rounds(mode, neg, q * u, u, q)
  {
  }

  /** Rounding does not depend on the scale. */
  lemma RoundsScale(mode: Rounding, neg: bool, x: nat, u: nat, q: nat, k: nat)
    requires 0 < k && 0 < u
    ensures Rounds(mode, neg, x * k, u * k, q) <==> Rounds(mode, neg, x, u, q)
  {
    hide Distance;
    var y, y', u', x' := q * u, q * (u * k), u * k, x * k;
    Associate(q, u, k);
    ScaleDistance(x, y, k);
    var d, d' := Distance(x, y), Distance(x', y');
    ScaleLess(2 * d, u, k);
    Associate(2, d, k);
    assert (2 * d' < u' <==> 2 * d < u) && (2 * d' == u' <==> 2 * d == u);
    ScaleLess(y, x, k);
    ScaleLess(x, y + u, k);
    ScaleLess(y - u, x, k);
    Distribute(k, y, u);
    Distribute(k, y, 0 - u);
    assert (y' < x' <==> y < x) && (x' < y' <==> x < y);
    assert (x' < y' + u' <==> x < y + u) && (y' - u' < x' <==> y - u < x);
  }

  lemma ScaleDistance(x: int, y: int, k: nat)
    ensures Distance(x * k, y * k) == Distance(x, y) * k
  {
    if x < y {
      MulMono(k, x, y);
      Distribute(k, y, -x);
    } else {
      MulMono(k, y, x);
      Distribute(k, x, -y);
    }
  }

  lemma ScaleLess(a: int, b: int, k: nat)
    requires 0 < k
    ensures (a * k < b * k <==> a < b) && (a * k <= b * k <==> a <= b) && (a * k == b * k <==> a == b)
  {
    if a < b { MulStrict(k, a, b); }
    if b < a { MulStrict(k, b, a); }
  }

  /** The guard, round and sticky bits decide the rounding rightly, and with the
      sticky bit inverted they go wrong exactly where it matters: in a tie with an
      even last bit, or away from zero with the round bit clear. */
  lemma BitsRound(mode: Rounding, neg: bool, x: nat, h: nat, q: nat, sticky: bool)
    requires 0 < h && q == x / (2 * h)
    ensures var round := (x / h) % 2 == 1;
            var guard := q % 2 == 1;
            var inc := ShouldIncMant(mode, neg, guard, round, sticky);
            Rounds(mode, neg, x, 2 * h, if inc then q + 1 else q) <==>
            ((sticky <==> x % h != 0) || !StickyMatters(mode, neg, guard, round))
  {
    var r := HalvesOf(x, h, q);
    Distribute(2 * h, q, 1);
  }

  /** x is q units of 2 h and r more; the round bit says whether r is at least h. */
  lemma HalvesOf(x: nat, h: nat, q: nat) returns (r: nat)
    requires 0 < h && q == x / (2 * h)
    ensures x == q * (2 * h) + r && r < 2 * h
    ensures (x / h) % 2 == (if r < h then 0 else 1) && x % h == (if r < h then r else r - h)
  {
    DivModDef(x, 2 * h);
    r := x % (2 * h);
    Associate(q, 2, h);
    if r < h {
      DivModUnique(x, h, 2 * q, r);
    } else {
      Distribute(h, 2 * q, 1);
      DivModUnique(x, h, 2 * q + 1, r - h);
    }
  }

  /** Whether the rounding depends on the sticky bit. */
  predicate StickyMatters(mode: Rounding, neg: bool, guard: bool, round: bool)
  {
    match mode
    case TiesEven => round && !guard
    case TiesAway => false
    case Up => !neg && !round
    case Down => neg && !round
    case TowardZero => false
  }
}
