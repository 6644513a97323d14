/** Powers of a natural base and the few facts of multiplication and division
    the other modules lean on. */
module Powers {

  function Pow(b: nat, k: nat): nat
  {
    if k == 0 then 1 else b * Pow(b, k - 1)
  }

  lemma MulMono(a: nat, x: int, y: int)
    requires x <= y
    ensures a * x <= a * y && x * a <= y * a
  {
  }

  lemma MulStrict(a: nat, x: int, y: int)
    requires x < y && 0 < a
    ensures a * x < a * y && x * a < y * a
  {
  }

  lemma Distribute(a: int, x: int, y: int)
    ensures a * (x + y) == a * x + a * y && (x + y) * a == x * a + y * a
  {
  }

  lemma Associate(a: int, x: int, y: int)
    ensures a * (x * y) == (a * x) * y
  {
  }

  lemma MulCancel(a: int, x: int, y: int)
    requires 0 < a && a * x < a * y
    ensures x < y
  {
    if y <= x { MulMono(a, y, x); }
  }

  lemma {:induction false} PowPositive(b: nat, k: nat)
    requires 0 < b
    ensures 0 < Pow(b, k)
  {
    if k > 0 {
      PowPositive(b, k - 1);
      MulStrict(b, 0, Pow(b, k - 1));
    }
  }

  lemma {:induction false} PowAdd(b: nat, i: nat, j: nat)
    ensures Pow(b, i + j) == Pow(b, i) * Pow(b, j)
  {
    if i > 0 {
      PowAdd(b, i - 1, j);
      Associate(b, Pow(b, i - 1), Pow(b, j));
    }
  }

  lemma PowOne(b: nat)
    ensures Pow(b, 1) == b
  {
    assert Pow(b, 0) == 1;
  }

  lemma PowNext(b: nat, k: nat)
    ensures Pow(b, k + 1) == b * Pow(b, k)
  {
  }

  lemma PowSplit(b: nat, i: nat, j: nat)
    requires i <= j
    ensures Pow(b, j) == Pow(b, i) * Pow(b, j - i)
  {
    PowAdd(b, i, j - i);
  }

  lemma {:induction false} PowMono(b: nat, i: nat, j: nat)
    requires 0 < b && i <= j
    ensures Pow(b, i) <= Pow(b, j)
  {
    if i < j {
      PowMono(b, i, j - 1);
      PowPositive(b, j - 1);
      MulMono(Pow(b, j - 1), 1, b);
    }
  }

  lemma PowStrict(b: nat, i: nat, j: nat)
    requires 1 < b && i < j
    ensures Pow(b, i) < Pow(b, j)
  {
    PowMono(b, i + 1, j);
    PowPositive(b, i);
    MulStrict(Pow(b, i), 1, b);
  }

  /** A power of a power: 2^(32 k) is (2^32)^k. */
  lemma {:induction false} PowPow(b: nat, i: nat, k: nat)
    ensures Pow(Pow(b, i), k) == Pow(b, i * k)
  {
    if k > 0 {
      PowPow(b, i, k - 1);
      assert i * k == i + i * (k - 1);
      PowAdd(b, i, i * (k - 1));
    }
  }

  /** A multiple of y below another one has the smaller factor. */
  lemma FactorLess(y: int, a: int, x: int, c: int)
    requires 0 < y && a * y <= x < c * y
    ensures a < c
  {
    if c <= a { MulMono(y, c, a); }
  }

  /** Quotient and remainder are determined by the division equation. */
  lemma DivModUnique(a: int, b: int, q: int, r: int)
    requires 0 < b && a == q * b + r && 0 <= r < b
    ensures a / b == q && a % b == r
  {
    var q', r' := a / b, a % b;
    assert a == q' * b + r' && 0 <= r' < b;
    assert (q - q') * b == r' - r;
    if q < q' {
      MulMono(b, q - q', -1);
    } else if q > q' {
      MulMono(b, 1, q - q');
    }
  }

  lemma DivModDef(a: int, b: int)
    requires 0 < b
    ensures a == (a / b) * b + a % b && 0 <= a % b < b
    ensures (a / b) * b <= a < (a / b + 1) * b
  {
    Distribute(b, a / b, 1);
  }

  /** Adding a multiple of the modulus does not change the residue. */
  lemma ModShift(a: int, k: int, b: int)
    requires 0 < b
    ensures (a + k * b) % b == a % b
    ensures (a + k * b) / b == a / b + k
  {
    DivModDef(a, b);
    assert a + k * b == (a / b + k) * b + a % b by { assert (a / b + k) * b == (a / b) * b + k * b; }
    DivModUnique(a + k * b, b, a / b + k, a % b);
  }

  lemma QuotientBound(x: nat, b: nat, p: nat)
    requires 0 < b && x < b * p
    ensures 0 <= x / b < p && x % b + b * (x / b) == x
  {
    DivModDef(x, b);
    FactorLess(b, x / b, x, p);
  }

  lemma DivMono(a: int, c: int, b: int)
    requires 0 < b && a <= c
    ensures a / b <= c / b
  {
    DivModDef(a, b);
    DivModDef(c, b);
    if c / b < a / b {
      MulMono(b, c / b + 1, a / b);
    }
  }

  /** Dividing by x and then by y is dividing by x * y. */
  lemma DivDiv(a: nat, x: nat, y: nat)
    requires 0 < x && 0 < y
    ensures 0 < x * y
    ensures (a / x) / y == a / (x * y)
  {
    MulStrict(x, 0, y);
    var q, r := a / x, a % x;
    var p, s := q / y, q % y;
    DivModDef(a, x);
    DivModDef(q, y);
    assert a == p * (x * y) + (s * x + r) by {
      assert a == q * x + r && q == p * y + s;
      assert (p * y + s) * x == p * (x * y) + s * x;
    }
    MulMono(x, s, y - 1);
    assert (y - 1) * x == x * y - x;
    DivModUnique(a, x * y, p, s * x + r);
  }
}
