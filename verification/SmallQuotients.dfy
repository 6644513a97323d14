/** Quotients below seventeen as written: whatever the borrows lose, only the last
    turn has a digit other than 0, and that digit is the trial digit. */
module SmallQuotients {
  import opened Powers
  import opened Digits
  import opened Machine
  import opened TrialQuotient
  import opened DivisionStep
  import opened DivisionAsWritten
  import opened DivisionRun
  import opened KnuthDivision
  import opened BignumDivision

  /** A small multiple of the divisor gets the right trial digit. */
  lemma TrialOfMultiple(w: seq<Digit>, v: seq<Digit>, k: nat)
    requires StepReady(w, v) && Val(w, B) == k * Val(v, B) && k <= 16
    ensures TrialDigit(w, v) == k
  {
    hide Val, Pow;
    TrialBound(w, v);
    DivModUnique(Val(w, B), Val(v, B), k, 0);
    var p := Pow(B, |v| - 2);
    var wlow := TopDigits(w, |v| - 2);
    var vlow := TopDigits(v, |v| - 2);
    var wt, vt := Val(w[|v| - 2..], B), Val(v[|v| - 2..], B);
    TrialOfTops(w, v, p, wt, vt, wlow, vlow);
    MultipleCaps(TrialDigit(w, v), k, wt, vt, wlow, vlow, p);
  }

  lemma MultipleCaps(q: nat, k: nat, wt: nat, vt: nat, wlow: nat, vlow: nat, p: nat)
    requires wlow < p && vlow < p && wt * p + wlow == k * (vt * p + vlow) && k <= 16 <= vt && q * vt <= wt
    ensures q <= k
  {
    if k < q {
      MulMono(vt, k + 1, q);
      MulMono(p, (k + 1) * vt, wt);
      MulMono(k, vlow, p);
      MulMono(p, k, vt);
      assert k * (vt * p + vlow) == (k * vt) * p + k * vlow;
      assert ((k + 1) * vt) * p == (k * vt) * p + vt * p;
      if k == 0 { MulStrict(p, 0, vt); } else { MulStrict(k, vlow, p); }
    }
  }

  /** A window far below the divisor has trial digit 0. */
  lemma TrialOfSmall(w: seq<Digit>, v: seq<Digit>)
    requires 2 <= |v| && |w| == |v| + 1 && B / 2 <= v[|v| - 1] && B * Val(w, B) < 17 * Val(v, B)
    ensures StepReady(w, v) && TrialDigit(w, v) == 0
  {
    hide Val, Pow;
    assert StepReady(w, v);
    var p := Pow(B, |v| - 2);
    var wlow := TopDigits(w, |v| - 2);
    var vlow := TopDigits(v, |v| - 2);
    var wt, vt := Val(w[|v| - 2..], B), Val(v[|v| - 2..], B);
    TrialOfTops(w, v, p, wt, vt, wlow, vlow);
    SmallCaps(TrialDigit(w, v), wt, vt, wlow, vlow, p);
  }

  lemma SmallCaps(q: nat, wt: nat, vt: nat, wlow: nat, vlow: nat, p: nat)
    requires wlow < p && vlow < p && B * (wt * p + wlow) < 17 * (vt * p + vlow) && B <= vt && q * vt <= wt
    ensures q == 0
  {
    if 1 <= q {
      MulMono(vt, 1, q);
      MulMono(p, vt, wt);
      MulMono(p, B, vt);
    }
  }

  lemma {:induction false} NothingSubtracted(w: seq<Digit>, v: seq<Digit>, k: nat)
    requires k <= |w| && k <= |v|
    ensures MulSub(AsWritten, w, v, 0, k) == (w[..k], 0)
  {
    if k > 0 {
      hide SubDigit;
      NothingSubtracted(w, v, k - 1);
      NoProduct(w[k - 1], v[k - 1]);
      assert w[..k] == w[..k - 1] + [w[k - 1]];
    }
  }

  lemma NoProduct(u: Digit, v: Digit)
    ensures SubDigit(AsWritten, u, v, 0, 0) == (u, 0)
  {
    AsWrittenDigit(u, v, 0, 0);
  }

  /** The digit of a turn as written is the trial digit, and 0 changes nothing. */
  lemma DigitIsTrial(w: seq<Digit>, v: seq<Digit>)
    requires StepReady(w, v)
    ensures DivStep(AsWritten, w, v).1 == TrialDigit(w, v)
    ensures TrialDigit(w, v) == 0 ==> DivStep(AsWritten, w, v).0 == w
  {
    hide Val, MulSub, TrialDigit;
    TrialBound(w, v);
    NeverAddsBack(w, v);
    if TrialDigit(w, v) == 0 {
      NothingSubtracted(w, v, |v|);
      assert w == w[..|v|] + [w[|v|]];
    }
  }

  /** The run has the trial digit of its last window, and zeroes above. */
  lemma {:induction false} RunOfSmall(u: seq<Digit>, v: seq<Digit>, j: nat)
    requires 2 <= |v| && B / 2 <= v[|v| - 1] && j + |v| < |u| && Val(u, B) < 17 * Val(v, B)
    ensures StepReady(Window(u, v, 0), v) && Val(Window(u, v, 0), B) == Val(u, B)
    ensures Val(DivRun(AsWritten, u, v, j).1, B) == TrialDigit(Window(u, v, 0), v)
    decreases j
  {
    hide Val, Pow, TrialDigit, DivStep;
    WindowOfSmall(u, v, j);
    var w := Window(u, v, j);
    if j == 0 {
      DigitIsTrial(w, v);
      ValOne(TrialDigit(w, v), B);
    } else {
      TrialOfSmall(w, v);
      DigitIsTrial(w, v);
      assert After(AsWritten, u, v, j) == u;
      RunOfSmall(u, v, j - 1);
      ValAppend(DivRun(AsWritten, u, v, j - 1).1, 0, B);
    }
  }

  lemma WindowOfSmall(u: seq<Digit>, v: seq<Digit>, j: nat)
    requires 2 <= |v| && B / 2 <= v[|v| - 1] && j + |v| < |u| && Val(u, B) < 17 * Val(v, B)
    ensures 0 < j ==> B * Val(Window(u, v, j), B) < 17 * Val(v, B)
    ensures j == 0 ==> StepReady(Window(u, v, 0), v) && Val(Window(u, v, 0), B) == Val(u, B)
  {
    hide Val, Pow;
    var n, w := |v|, Window(u, v, j);
    ValSplit(u, j, B);
    ValSplit(u[j..], n + 1, B);
    assert u[j..][..n + 1] == w;
    var high := Val(u[j..][n + 1..], B);
    MulMono(Pow(B, n + 1), 0, high);
    if 0 < j {
      PlaceAbove(Val(w, B), Val(u[j..], B), j);
    } else {
      assert u[0..] == u && u[..0] == [];
      EmptyIsZero();
      AtMostDigits(v);
      NothingHigh(Val(w, B), high, Val(v, B), n);
    }
  }

  lemma PlaceAbove(w: nat, x: nat, j: nat)
    requires 0 < j && w <= x
    ensures B * w <= Pow(B, j) * x
  {
    hide Pow;
    PowPositive(B, j - 1);
    PowNext(B, j - 1);
    var p := Pow(B, j - 1);
    MulMono(B, 1, p);
    MulMono(w, B, Pow(B, j));
    MulMono(Pow(B, j), w, x);
  }

  lemma NothingHigh(w: nat, high: nat, y: nat, n: nat)
    requires w + Pow(B, n + 1) * high < 17 * y && y < Pow(B, n)
    ensures high == 0
  {
    hide Pow;
    PowNext(B, n);
    if 1 <= high { MulMono(Pow(B, n + 1), 1, high); }
  }

  lemma EmptyIsZero()
    ensures Val([], B) == 0 && Pow(B, 0) == 1
  {
  }

  lemma AtMostDigits(v: seq<Digit>)
    ensures Val(v, B) < Pow(B, |v|)
  {
    hide Val, Pow;
    DigitsBound(v);
  }

  /** The quotient of x by y, when it is below 17, comes out right or one too large;
      right if the division leaves no remainder. */
  lemma SmallQuotient(x: nat, y: nat)
    requires 0 < y <= x < 17 * y
    ensures x / y <= QuotientOf(AsWritten, x, y) <= x / y + 1
    ensures x % y == 0 ==> QuotientOf(AsWritten, x, y) == x / y
  {
    hide MinDigits, Val, Pow, Clz, NormalDividend, NormalDivisor, DivRun, TrialDigit;
    MinDigitsLonger(x, y);
    MinDigitsTop(y);
    var u: seq<Digit>, v: seq<Digit> := MinDigits(x, B), MinDigits(y, B);
    MinDigitsVal(x, B);
    MinDigitsVal(y, B);
    if 2 <= |v| {
      NormalReady(u, v);
      var z := Pow(2, Clz(v[|v| - 1]));
      PowPositive(2, Clz(v[|v| - 1]));
      MulStrict(z, x, 17 * y);
      var un, vn := NormalDividend(u, v), NormalDivisor(v);
      RunOfSmall(un, vn, |u| - |v|);
      TrialBound(Window(un, vn, 0), vn);
      ScaledQuotient(x, y, z);
      if x % y == 0 {
        DivModDef(x, y);
        FactorLess(y, x / y, x, 17);
        Associate(x / y, y, z);
        TrialOfMultiple(Window(un, vn, 0), vn, x / y);
      }
    }
  }

  lemma ScaledQuotient(x: nat, y: nat, z: nat)
    requires 0 < y && 0 < z
    ensures 0 < y * z && (x * z) / (y * z) == x / y
  {
    MulStrict(z, 0, y);
    DivModDef(x, y);
    MulStrict(z, x % y, y);
    MulMono(z, 0, x % y);
    Distribute(z, (x / y) * y, x % y);
    Associate(x / y, y, z);
    DivModUnique(x * z, y * z, x / y, (x % y) * z);
  }
}
