/** Shifting digit arrays, and the number of leading zero bits of a digit: how
    a division is normalised and un-normalised. */
module Normalise {
  import opened Powers
  import opened Digits
  import opened Machine
  import opened BitParts

  lemma PowersOfTwo()
    ensures Pow(2, 0) == 1 && Pow(2, 1) == 2 && Pow(2, 2) == 4 && Pow(2, 4) == 16
    ensures Pow(2, 8) == 256 && Pow(2, 16) == 0x1_0000 && Pow(2, 32) == B && Pow(2, 64) == W
  {
    PowAdd(2, 1, 1);
    PowAdd(2, 2, 2);
    PowAdd(2, 4, 4);
    PowAdd(2, 8, 8);
    PowAdd(2, 16, 16);
    PowAdd(2, 32, 32);
  }

  /** Multiplying by 2^zeroes moves the top set bit of num to bit 31. */
  ghost predicate LeadingZeroes(num: nat, zeroes: nat)
  {
    zeroes < 32 && B / 2 <= num * Pow(2, zeroes) < B
  }

  /** The search has found n, the top bits of num, with k bits below it and
      span bits left to search. */
  ghost predicate Searching(num: nat, n: nat, zeroes: nat, k: nat, span: nat)
  {
    && zeroes + k + span == 32
    && 0 < n < Pow(2, span)
    && n * Pow(2, k) <= num < (n + 1) * Pow(2, k)
  }

  lemma SearchStep(num: nat, n: nat, zeroes: nat, k: nat, shift: nat, tmp: nat)
    requires Searching(num, n, zeroes, k, 2 * shift)
    requires 0 < Pow(2, shift) && tmp == n / Pow(2, shift)
    ensures if tmp != 0 then Searching(num, tmp, zeroes, k + shift, shift)
            else Searching(num, n, zeroes + shift, k, shift)
  {
    if tmp == 0 {
      DivModDef(n, Pow(2, shift));
    } else {
      PowPositive(2, k);
      PowAdd(2, shift, shift);
      PowAdd(2, k, shift);
      HalveSearch(num, n, tmp, Pow(2, shift), Pow(2, k));
    }
  }

  /** Binary search for the top set bit; the shift amounts are distinct powers
      of two, so collecting them is adding them. */
  method CountlZero32(num: Digit) returns (zeroes: nat)
    ensures num == 0 ==> zeroes == 32
    ensures num != 0 ==> LeadingZeroes(num, zeroes)
  {
    if num == 0 { return 32; }
    hide Pow;
    zeroes := 0;
    var n: nat := num;
    var shift := 16;
    ghost var k: nat, span: nat := 0, 32;
    PowersOfTwo();
    while shift > 0
      invariant shift == 0 || shift == 1 || shift == 2 || shift == 4 || shift == 8 || shift == 16
      invariant Searching(num, n, zeroes, k, span)
      invariant span == if shift == 0 then 1 else 2 * shift
      decreases shift
    {
      PowPositive(2, shift);
      var tmp := n / Pow(2, shift);
      SearchStep(num, n, zeroes, k, shift, tmp);
      if tmp != 0 {
        n := tmp;
        k := k + shift;
      } else {
        zeroes := zeroes + shift;
      }
      span := shift;
      shift := shift / 2;
    }
    TopBit(num, n, zeroes, k);
  }

  lemma HalveSearch(num: nat, n: nat, tmp: nat, p: nat, q: nat)
    requires 0 < p && 0 < q && tmp == n / p
    requires n < p * p && n * q <= num < (n + 1) * q
    ensures tmp < p && tmp * (q * p) <= num < (tmp + 1) * (q * p)
  {
    DivModDef(n, p);
    FactorLess(p, tmp, n, p);
    ScaleBounds(tmp * p, n, (tmp + 1) * p, q, num);
    Associate(tmp, p, q);
    Associate(tmp + 1, p, q);
  }

  lemma ScaleBounds(lo: nat, n: nat, hi: nat, q: nat, num: nat)
    requires lo <= n < hi && n * q <= num < (n + 1) * q
    ensures lo * q <= num < hi * q
  {
    MulMono(q, lo, n);
    MulMono(q, n + 1, hi);
  }

  lemma TopBit(num: nat, n: nat, zeroes: nat, k: nat)
    requires Searching(num, n, zeroes, k, 1)
    ensures LeadingZeroes(num, zeroes)
  {
    PowersOfTwo();
    assert n == 1;
    PowAdd(2, k, zeroes);
    PowPositive(2, zeroes);
    HalfBase();
    TopBitParts(num, Pow(2, k), Pow(2, zeroes));
  }

  lemma HalfBase()
    ensures Pow(2, 31) == B / 2
  {
    PowersOfTwo();
    PowAdd(2, 31, 1);
  }

  lemma TopBitParts(num: nat, p: nat, z: nat)
    requires 0 < z && p * z == B / 2 && p <= num < 2 * p
    ensures B / 2 <= num * z < B
  {
    MulMono(z, p, num);
    MulStrict(z, num, 2 * p);
  }

  // ------------------------------------------------------- shifting to the left

  /** One digit shifted left by s, with the bits that leave it. */
  lemma ShiftDigit(a: Digit, s: nat, carry: nat)
    requires 0 < s < 32 && carry < Pow(2, s)
    ensures 0 < Pow(2, 32 - s)
    ensures var hi := a / Pow(2, 32 - s);
            var lo := (a * Pow(2, s)) % B;
            hi < Pow(2, s) && lo + carry < B && lo + B * hi == a * Pow(2, s)
  {
    var p, c := Pow(2, s), Pow(2, 32 - s);
    PowersOfTwo();
    PowSplit(2, s, 32);
    PowPositive(2, s);
    PowPositive(2, 32 - s);
    ShiftParts(a, p, c, carry, B);
  }

  lemma PlaceShifted(acc: int, carry: int, low: int, p: int, lo: int, hi: int, a: int, z: int)
    requires acc + carry * p == low * z
    requires lo + B * hi == a * z
    ensures (acc + (lo + carry) * p) + hi * (B * p) == (low + a * p) * z
  {
    Distribute(z, low, a * p);
    assert (a * p) * z == (a * z) * p;
    assert (lo + B * hi) * p == lo * p + hi * (B * p);
    Distribute(p, lo, carry);
  }

  /** The digits done are those they were, shifted left by s, but for the carry. */
  ghost predicate Shifted(done: seq<nat>, was: seq<nat>, s: nat, carry: nat)
  {
    |done| == |was| && carry < Pow(2, s) && Val(done, B) + carry * Pow(B, |was|) == Val(was, B) * Pow(2, s)
  }

  lemma ShiftStep(done: seq<nat>, was: seq<nat>, s: nat, carry: nat, a: nat, lo: nat, hi: nat)
    requires Shifted(done, was, s, carry) && hi < Pow(2, s) && lo + B * hi == a * Pow(2, s)
    ensures Shifted(done + [lo + carry], was + [a], s, hi)
  {
    hide Val, Pow;
    var p := Pow(B, |was|);
    PowNext(B, |was|);
    ValAppend(done, lo + carry, B);
    ValAppend(was, a, B);
    PlaceShifted(Val(done, B), carry, Val(was, B), p, lo, hi, a, Pow(2, s));
  }

  /** The normalising loop. */
  method ShiftDigitsLeft(a: array<Digit>, len: nat, s: nat) returns (carry: Digit)
    requires len <= a.Length && 0 < s < 32
    modifies a
    ensures carry < Pow(2, s)
    ensures Val(a[..len], B) + carry * Pow(B, len) == old(Val(a[..len], B)) * Pow(2, s)
    ensures a[len..] == old(a[len..])
  {
    hide Val, Pow;
    carry := 0;
    ghost var was := a[..];
    PowPositive(2, s);
    ValZeroes(a[..0], B);
    for i := 0 to len
      invariant Shifted(a[..i], was[..i], s, carry)
      invariant a[i..] == was[i..]
    {
      assert a[i] == was[i];
      ShiftDigit(a[i], s, carry);
      var tmp := a[i] / Pow(2, 32 - s);
      ghost var done := a[..i];
      ShiftStep(done, was[..i], s, carry, was[i], (was[i] * Pow(2, s)) % B, tmp);
      a[i] := (a[i] * Pow(2, s)) % B + carry;
      assert a[..i + 1] == done + [a[i]] && was[..i + 1] == was[..i] + [was[i]];
      carry := tmp;
    }
  }

  // ------------------------------------------------------ shifting to the right

  /** One digit shifted right by s, under the bits that came from above. */
  lemma UnshiftDigit(a: Digit, s: nat, c: nat)
    requires 0 < s < 32 && c < Pow(2, s)
    ensures 0 < Pow(2, s)
    ensures var low := a % Pow(2, s);
            (a * Pow(2, 32 - s)) % B == low * Pow(2, 32 - s)
            && 0 <= a / Pow(2, s) + c * Pow(2, 32 - s) < B
            && 0 <= low < Pow(2, s)
            && (a / Pow(2, s) + c * Pow(2, 32 - s)) * Pow(2, s) + low == a + B * c
  {
    PowersOfTwo();
    PowSplit(2, s, 32);
    PowPositive(2, s);
    PowPositive(2, 32 - s);
    UnshiftParts(a, Pow(2, s), Pow(2, 32 - s), c, B);
  }

  lemma PlaceUnshifted(x: int, r: int, c: int, d: int, c': int, a: int, p: int)
    requires x == r * p + c && d * p + c' == a + B * c
    ensures a + B * x == (d + B * r) * p + c'
  {
    Distribute(p, d, B * r);
    assert (B * r) * p == B * (r * p);
  }

  /** rs holds us shifted right by s, and c the bits shifted out. */
  ghost predicate Unshifted(us: seq<nat>, rs: seq<nat>, s: nat, c: nat)
  {
    c < Pow(2, s) && Val(us, B) == Val(rs, B) * Pow(2, s) + c
  }

  lemma UnshiftStep(us: seq<nat>, rs: seq<nat>, s: nat, c: nat, a: Digit)
    requires 0 < s < 32 && Unshifted(us, rs, s, c)
    ensures 0 < Pow(2, s)
    ensures 0 <= a / Pow(2, s) + c * Pow(2, 32 - s) < B
    ensures (a * Pow(2, 32 - s)) % B == (a % Pow(2, s)) * Pow(2, 32 - s)
    ensures Unshifted([a] + us, [a / Pow(2, s) + c * Pow(2, 32 - s)] + rs, s, a % Pow(2, s))
  {
    hide Val, Pow;
    UnshiftDigit(a, s, c);
    UnshiftedCons(us, rs, s, c, a, a / Pow(2, s) + c * Pow(2, 32 - s), a % Pow(2, s));
  }

  lemma UnshiftedCons(us: seq<nat>, rs: seq<nat>, s: nat, c: nat, a: nat, d: nat, low: nat)
    requires Unshifted(us, rs, s, c) && d * Pow(2, s) + low == a + B * c && low < Pow(2, s)
    ensures Unshifted([a] + us, [d] + rs, s, low)
  {
    hide Val, Pow;
    PlaceUnshifted(Val(us, B), Val(rs, B), c, d, low, a, Pow(2, s));
    ValCons(a, us, B);
    ValCons(d, rs, B);
  }

  /** The un-normalising loop: the low n digits of u shifted right by s, from
      the top digit down. */
  method ShiftDigitsRight(u: array<Digit>, r: array<Digit>, n: nat, s: nat)
    requires n <= u.Length && n <= r.Length && 0 < s < 32 && u != r
    modifies r
    ensures 0 < Pow(2, s)
    ensures Val(r[..n], B) == Val(u[..n], B) / Pow(2, s)
    ensures r[n..] == old(r[n..])
  {
    var carry: Digit := 0;
    ghost var c: nat := 0;
    var i := n;
    PowPositive(2, s);
    assert u[n..n] == [] && r[n..n] == [];
    while i > 0
      invariant 0 <= i <= n
      invariant carry == c * Pow(2, 32 - s)
      invariant Unshifted(u[i..n], r[i..n], s, c)
      invariant r[n..] == old(r[n..])
    {
      i := i - 1;
      ghost var rest := r[i + 1..n];
      UnshiftStep(u[i + 1..n], rest, s, c, u[i]);
      r[i] := u[i] / Pow(2, s) + carry;
      carry := (u[i] * Pow(2, 32 - s)) % B;
      c := u[i] % Pow(2, s);
      assert r[i + 1..n] == rest;
      assert r[i..n] == [r[i]] + rest && u[i..n] == [u[i]] + u[i + 1..n];
    }
    assert u[0..n] == u[..n] && r[0..n] == r[..n];
    DivModUnique(Val(u[..n], B), Pow(2, s), Val(r[..n], B), c);
  }
}
