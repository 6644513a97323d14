/** A machine digit shifted within its base: with base == p * c, the bits that
    leave it and the bits that stay. */
module BitParts {
  import opened Powers

  /** Multiplying by p: what leaves is the high part a / c, and what stays leaves
      room for a carry below p. */
  lemma ShiftParts(a: nat, p: nat, c: nat, carry: nat, base: nat)
    requires 0 < p && 0 < c && p * c == base && a < base && carry < p
    ensures var hi := a / c;
            var lo := (a * p) % base;
            hi < p && lo + carry < base && lo + base * hi == a * p
  {
    var hi, r := a / c, a % c;
    DivModDef(a, c);
    FactorLess(c, hi, a, p);
    MulMono(p, r + 1, c);
    Distribute(p, hi * c, r);
    Distribute(p, r, 1);
    Associate(hi, c, p);
    MulMono(p, 0, r);
    DivModUnique(a * p, base, hi, r * p);
  }

  /** Dividing by p, under the bits c' that came from the digit above. */
  lemma UnshiftParts(a: nat, p: nat, q: nat, c: nat, base: nat)
    requires 0 < p && 0 < q && p * q == base && a < base && c < p
    ensures (a * q) % base == (a % p) * q
    ensures 0 <= a / p + c * q < base
    ensures (a / p + c * q) * p + a % p == a + base * c
  {
    var hi, low := a / p, a % p;
    DivModDef(a, p);
    FactorLess(p, hi, a, q);
    UnshiftLow(a, p, q, hi, low, base);
    UnshiftHigh(hi, p, q, c, base);
  }

  lemma UnshiftLow(a: nat, p: nat, q: nat, hi: nat, low: nat, base: nat)
    requires p * q == base && a == hi * p + low && low < p && 0 < q
    ensures 0 < base && (a * q) % base == low * q
  {
    Distribute(q, hi * p, low);
    Associate(hi, p, q);
    MulStrict(q, low, p);
    DivModUnique(a * q, base, hi, low * q);
  }

  lemma UnshiftHigh(hi: nat, p: nat, q: nat, c: nat, base: nat)
    requires p * q == base && hi < q && c < p
    ensures 0 <= hi + c * q < base && (hi + c * q) * p == hi * p + base * c
  {
    MulMono(q, c, p - 1);
    MulMono(q, 0, c);
    Distribute(q, p, -1);
    Distribute(p, hi, c * q);
    Associate(c, q, p);
  }
}
