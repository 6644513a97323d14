/** Step D3 of Knuth's Algorithm D over 32-bit digits: the guess of a quotient
    digit, and how far it can be from the true one. */
module TrialQuotient {
  import opened Powers
  import opened Digits
  import opened Machine

  /** The test that a trial digit with remainder rp is too large.  Products and
      sums are taken in 64 bits. */
  predicate Overshoots(qp: nat, rp: nat, u0: Digit, v0: Digit)
  {
    qp == B || U64(qp * v0) > U64(B * rp + u0)
  }

  /** At most two corrections of a trial digit qp with remainder rp. */
  function Corrected(qp: nat, rp: nat, u0: Digit, v1: Digit, v0: Digit): nat
  {
    if Overshoots(qp, rp, u0, v0) then
      var qp1 := qp - 1;
      var rp1 := rp + v1;
      if rp1 < B && Overshoots(qp1, rp1, u0, v0) then qp1 - 1 else qp1
    else
      qp
  }

  /** The digit guessed from the top three digits of the window and the top
      two of the divisor. */
  function Trial(u2: Digit, u1: Digit, u0: Digit, v1: Digit, v0: Digit): nat
    requires 0 < v1
  {
    var dividend := u2 * B + u1;
    Corrected(dividend / v1, dividend % v1, u0, v1, v0)
  }

  /** With a normalised divisor and a three-digit window below (v + 1) * B, no
      64-bit operation of the test overflows, and the test compares qp * v with
      the window. */
  lemma OvershootsMeaning(qp: nat, rp: nat, u2: Digit, u1: Digit, u0: Digit, v1: Digit, v0: Digit)
    requires B / 2 <= v1 && rp < B && qp <= B + 1
    requires qp * v1 + rp == u2 * B + u1
    ensures qp * v0 < W && B * rp + u0 < W
    ensures Overshoots(qp, rp, u0, v0) <==>
            qp == B || qp * (v1 * B + v0) > (u2 * B + u1) * B + u0
  {
    hide U64;
    MulMono(v0, qp, B + 1);
    MulMono(B + 1, v0, B - 1);
    Distribute(qp, v1 * B, v0);
    Associate(qp, v1, B);
    Distribute(B, qp * v1, rp);
  }

  /** q is the floor of n / d, capped at B - 1. */
  ghost predicate IsCapped(q: int, n: int, d: int)
  {
    0 <= q < B && q * d <= n && (q < B - 1 ==> n < (q + 1) * d)
  }

  /** The first guess is at least the capped two-digit quotient and at most two
      above it. */
  lemma TrialAtMostTwoAbove(qp: nat, rp: nat, u2: Digit, u1: Digit, u0: Digit, v1: Digit, v0: Digit)
    requires B / 2 <= v1 && rp < v1
    requires qp * v1 + rp == u2 * B + u1
    ensures (qp - 2) * (v1 * B + v0) <= (u2 * B + u1) * B + u0 < (qp + 1) * (v1 * B + v0)
    requires qp <= B + 1
  {
    var d, n := v1 * B + v0, (u2 * B + u1) * B + u0;
    assert qp * d == (qp * v1) * B + qp * v0;
    assert (qp - 2) * d == qp * d - 2 * d;
    MulMono(v0, qp, B + 1);
    MulMono(B + 1, v0, B - 1);
    assert (B + 1) * (B - 1) == B * B - 1;
    assert (qp + 1) * d == qp * d + d;
    MulMono(qp, 0, v0);
  }

  /** The window bound keeps the first guess at B + 1 or less, and at B or more
      only when the leading digits agree. */
  lemma FirstGuessBound(qp: nat, rp: nat, u2: Digit, u1: Digit, u0: Digit, v1: Digit, v0: Digit)
    requires B / 2 <= v1 && rp < v1
    requires qp * v1 + rp == u2 * B + u1
    requires (u2 * B + u1) * B + u0 < (v1 * B + v0 + 1) * B
    ensures u2 <= v1 && qp <= B + 1
    ensures B <= qp ==> u2 == v1 && (qp - B) * v1 + rp == u1 && u1 <= v0
    ensures qp < B ==> u2 < v1
  {
    if B + 2 <= qp {
      MulMono(v1, B + 2, qp);
    }
    if u2 < v1 {
      MulCancel(v1, qp, B);
    }
    assert (qp - B) * v1 == qp * v1 - B * v1;
    if qp < B {
      MulMono(v1, qp, B - 1);
      assert (B - 1) * v1 == B * v1 - v1;
    }
  }

  lemma NoOvershootBeyondBase(qp: nat, rp: nat, u2: Digit, u1: Digit, u0: Digit, v1: Digit, v0: Digit)
    requires B <= rp && qp < B
    requires qp * v1 + rp == u2 * B + u1
    ensures qp * (v1 * B + v0) <= (u2 * B + u1) * B + u0
  {
    MulMono(v0, qp, B - 1);
    MulMono(B - 1, v0, B - 1);
    assert qp * (v1 * B + v0) == (qp * v1) * B + qp * v0;
  }

  /** A first guess below B: each correction answers one comparison of a
      multiple of the divisor with the window. */
  lemma CorrectedBelowBase(qp: nat, rp: nat, u2: Digit, u1: Digit, u0: Digit, v1: Digit, v0: Digit)
    requires B / 2 <= v1 && rp < v1 && qp <= B
    requires qp * v1 + rp == u2 * B + u1
    ensures IsCapped(Corrected(qp, rp, u0, v1, v0), (u2 * B + u1) * B + u0, v1 * B + v0)
  {
    var d, n := v1 * B + v0, (u2 * B + u1) * B + u0;
    TrialAtMostTwoAbove(qp, rp, u2, u1, u0, v1, v0);
    OvershootsMeaning(qp, rp, u2, u1, u0, v1, v0);
    if Overshoots(qp, rp, u0, v0) {
      var qp1, rp1 := qp - 1, rp + v1;
      assert qp1 * v1 + rp1 == u2 * B + u1 by { assert qp1 * v1 == qp * v1 - v1; }
      assert (qp1 - 1) * d == (qp - 2) * d;
      if rp1 < B {
        OvershootsMeaning(qp1, rp1, u2, u1, u0, v1, v0);
      } else {
        NoOvershootBeyondBase(qp1, rp1, u2, u1, u0, v1, v0);
      }
    }
  }

  /** A first guess of B + 1 loses exactly two: the test qp == B is false the
      first time and true the second. */
  lemma CorrectedFromTop(u2: Digit, u1: Digit, u0: Digit, v1: Digit, v0: Digit)
    requires B / 2 <= v1 && u2 == v1 && v1 <= u1 <= v0
    ensures Corrected(B + 1, u1 - v1, u0, v1, v0) == B - 1
    ensures (B - 1) * (v1 * B + v0) <= (u2 * B + u1) * B + u0
  {
    var qp, rp := B + 1, u1 - v1;
    assert qp * v0 == B * v0 + v0;
    assert qp * v1 + rp == u2 * B + u1;
    OvershootsMeaning(qp, rp, u2, u1, u0, v1, v0);
    assert Overshoots(qp, rp, u0, v0);
    assert Overshoots(B, u1, u0, v0);
  }

  lemma CorrectedIsCapped(qp: nat, rp: nat, u2: Digit, u1: Digit, u0: Digit, v1: Digit, v0: Digit)
    requires B / 2 <= v1 && rp < v1
    requires qp * v1 + rp == u2 * B + u1
    requires (u2 * B + u1) * B + u0 < (v1 * B + v0 + 1) * B
    ensures IsCapped(Corrected(qp, rp, u0, v1, v0), (u2 * B + u1) * B + u0, v1 * B + v0)
  {
    FirstGuessBound(qp, rp, u2, u1, u0, v1, v0);
    if qp <= B {
      CorrectedBelowBase(qp, rp, u2, u1, u0, v1, v0);
    } else {
      assert (qp - B) * v1 == v1 by { assert qp - B == 1; }
      CorrectedFromTop(u2, u1, u0, v1, v0);
    }
  }

  lemma FirstGuess(u2: Digit, u1: Digit, u0: Digit, v1: Digit, v0: Digit) returns (qp: nat, rp: nat)
    requires 0 < v1
    ensures rp < v1 && qp * v1 + rp == u2 * B + u1
    ensures Trial(u2, u1, u0, v1, v0) == Corrected(qp, rp, u0, v1, v0)
  {
    qp, rp := (u2 * B + u1) / v1, (u2 * B + u1) % v1;
    DivModDef(u2 * B + u1, v1);
  }

  /** After both corrections the trial digit is the floor of the three-digit
      window over the two-digit divisor, capped at B - 1.  Testing qp == B is
      enough even when the first guess is B + 1. */
  lemma TrialIsCapped(u2: Digit, u1: Digit, u0: Digit, v1: Digit, v0: Digit)
    requires B / 2 <= v1
    requires (u2 * B + u1) * B + u0 < (v1 * B + v0 + 1) * B
    ensures IsCapped(Trial(u2, u1, u0, v1, v0), (u2 * B + u1) * B + u0, v1 * B + v0)
  {
    var qp, rp := FirstGuess(u2, u1, u0, v1, v0);
    CorrectedIsCapped(qp, rp, u2, u1, u0, v1, v0);
  }

  /** The window w holds one digit more than the divisor v, v is normalised,
      and the quotient of the two is a single digit. */
  ghost predicate StepReady(w: seq<Digit>, v: seq<Digit>)
  {
    && 2 <= |v| && |w| == |v| + 1
    && B / 2 <= v[|v| - 1]
    && Val(w, B) < Val(v, B) * B
  }

  function TrialDigit(w: seq<Digit>, v: seq<Digit>): nat
    requires 2 <= |v| && |w| == |v| + 1 && 0 < v[|v| - 1]
  {
    var n := |v|;
    Trial(w[n], w[n - 1], w[n - 2], v[n - 1], v[n - 2])
  }

  /** The three top digits of a window and the two of a divisor, in units of
      the digits below them. */
  lemma TopDigits(s: seq<Digit>, k: nat) returns (low: nat)
    requires k <= |s|
    ensures Val(s, B) == Val(s[k..], B) * Pow(B, k) + low
    ensures low < Pow(B, k)
    ensures k + 2 == |s| ==> Val(s[k..], B) == s[k + 1] * B + s[k]
    ensures k + 3 == |s| ==> Val(s[k..], B) == (s[k + 2] * B + s[k + 1]) * B + s[k]
  {
    ValDivMod(s, k, B);
    low := Val(s, B) % Pow(B, k);
    DivModDef(Val(s, B), Pow(B, k));
    if k + 2 == |s| {
      assert s[k..] == [s[k], s[k + 1]];
      TwoDigits(s[k], s[k + 1]);
    } else if k + 3 == |s| {
      assert s[k..] == [s[k]] + [s[k + 1], s[k + 2]];
      TwoDigits(s[k + 1], s[k + 2]);
      ValConcat([s[k]], [s[k + 1], s[k + 2]], B);
      ValOne(s[k], B);
      assert Pow(B, 1) == B * Pow(B, 0) == B;
    }
  }

  lemma TwoDigits(x: Digit, y: Digit)
    ensures Val([x, y], B) == y * B + x
  {
    assert [x, y][1..] == [y];
    ValOne(y, B);
  }

  /** A capped two-digit quotient is the true digit or one more: p is the place
      value of the digits the guess ignored. */
  lemma CappedBound(q: nat, n: nat, d: nat, p: nat, nlow: nat, dlow: nat)
    requires 0 < p && nlow < p && dlow < p && B <= d
    requires IsCapped(q, n, d)
    ensures (q - 1) * (d * p + dlow) <= n * p + nlow
    ensures q < B - 1 ==> n * p + nlow < (q + 1) * (d * p + dlow)
  {
    if 0 < q {
      Distribute(q - 1, d * p, dlow);
      Associate(q - 1, d, p);
      Distribute(d, q, -1);
      MulMono(q - 1, dlow, p);
      Distribute(p, (q - 1) * d, q - 1);
      MulMono(p, (q - 1) * d + (q - 1), n);
    } else {
      MulMono(d * p + dlow, -1, 0);
    }
    if q < B - 1 {
      MulMono(p, n + 1, (q + 1) * d);
      Distribute(p, n, 1);
      Distribute(q + 1, d * p, dlow);
      Associate(q + 1, d, p);
      MulMono(dlow, 0, q + 1);
    }
  }

  /** q is a digit at most one above the floor of x / y, and not below it
      unless it is capped. */
  ghost predicate Near(q: nat, x: nat, y: nat)
  {
    && 0 < y && q < B && x < y * B
    && (q - 1) * y <= x
    && (q < B - 1 ==> x < (q + 1) * y)
  }

  ghost predicate NotAbove(q: nat, x: nat, y: nat) { q * y <= x }

  /** The trial digit fits in 32 bits and is the true quotient digit or one
      more; against a two-digit divisor it is the true digit. */
  lemma TrialBound(w: seq<Digit>, v: seq<Digit>)
    requires StepReady(w, v)
    ensures 0 < Val(v, B)
    ensures Val(w, B) / Val(v, B) <= TrialDigit(w, v) <= Val(w, B) / Val(v, B) + 1
    ensures TrialDigit(w, v) < B
    ensures NotAbove(TrialDigit(w, v), Val(w, B), Val(v, B)) <==>
            TrialDigit(w, v) == Val(w, B) / Val(v, B)
    ensures |v| == 2 ==> TrialDigit(w, v) == Val(w, B) / Val(v, B)
  {
    TrialNear(w, v);
    QuotientNear(TrialDigit(w, v), Val(w, B), Val(v, B));
  }

  lemma TrialNear(w: seq<Digit>, v: seq<Digit>)
    requires StepReady(w, v)
    ensures 0 < Val(v, B) && 0 <= Val(w, B)
    ensures Near(TrialDigit(w, v), Val(w, B), Val(v, B))
    ensures |v| == 2 ==> NotAbove(TrialDigit(w, v), Val(w, B), Val(v, B))
  {
    var p := Pow(B, |v| - 2);
    var wlow := TopDigits(w, |v| - 2);
    var vlow := TopDigits(v, |v| - 2);
    var wt, vt := Val(w[|v| - 2..], B), Val(v[|v| - 2..], B);
    TrialOfTops(w, v, p, wt, vt, wlow, vlow);
    NearFromTops(TrialDigit(w, v), p, wt, vt, wlow, vlow, Val(w, B), Val(v, B));
  }

  lemma NearFromTops(q: nat, p: nat, wt: nat, vt: nat, wlow: nat, vlow: nat, x: nat, y: nat)
    requires wlow < p && vlow < p && x == wt * p + wlow && y == vt * p + vlow
    requires B <= vt && IsCapped(q, wt, vt) && x < y * B
    ensures Near(q, x, y) && (p == 1 ==> NotAbove(q, x, y))
  {
    CappedBound(q, wt, vt, p, wlow, vlow);
    MulStrict(p, 0, vt);
  }

  lemma TrialOfTops(w: seq<Digit>, v: seq<Digit>, p: nat, wt: nat, vt: nat, wlow: nat, vlow: nat)
    requires StepReady(w, v)
    requires wt == (w[|v|] * B + w[|v| - 1]) * B + w[|v| - 2] && vt == v[|v| - 1] * B + v[|v| - 2]
    requires wlow < p && vlow < p && Val(w, B) == wt * p + wlow && Val(v, B) == vt * p + vlow
    ensures B <= vt && IsCapped(TrialDigit(w, v), wt, vt)
  {
    WindowTop(wt, vt, p, wlow, vlow);
    TrialIsCapped(w[|v|], w[|v| - 1], w[|v| - 2], v[|v| - 1], v[|v| - 2]);
  }

  lemma WindowTop(wt: nat, vt: nat, p: nat, wlow: nat, vlow: nat)
    requires 0 < p && vlow < p
    requires wt * p + wlow < (vt * p + vlow) * B
    ensures wt < (vt + 1) * B
  {
    Distribute(p, vt, 1);
    Associate(p, vt + 1, B);
    MulCancel(p, wt, (vt + 1) * B);
  }

  lemma QuotientNear(q: nat, x: nat, y: nat)
    requires 0 < y && Near(q, x, y)
    ensures x / y <= q <= x / y + 1 && q < B
    ensures NotAbove(q, x, y) <==> q == x / y
  {
    hide Near, NotAbove;
    DivModDef(x, y);
    NearFloor(q, x, y, x / y);
  }

  lemma NearFloor(q: nat, x: nat, y: nat, t: nat)
    requires Near(q, x, y) && t * y <= x < (t + 1) * y
    ensures t <= q <= t + 1 && q < B
    ensures NotAbove(q, x, y) <==> q == t
  {
    FactorLess(y, q - 1, x, t + 1);
    FactorLess(y, t, x, if q < B - 1 then q + 1 else B);
    if NotAbove(q, x, y) {
      FactorLess(y, q, x, t + 1);
    }
  }
}
