/** What step D4 does when the high half of the partial difference is kept in
    64 bits, as the code keeps it, and exactly when the step still divides. */
module DivisionAsWritten {
  import opened Powers
  import opened Digits
  import opened Machine
  import opened TrialQuotient
  import opened DivisionStep

  /** The partial difference at digit i is negative, so its high half carries a
      sign extension of 2^32 - 1 that the next borrow loses. */
  predicate Loses(u: seq<Digit>, v: seq<Digit>, qp: nat, i: nat)
    requires i < |u| && i < |v|
  {
    var borrow := MulSub(AsWritten, u, v, qp, i).1;
    S64(u[i] - borrow - U64(qp * v[i]) % B) < 0
  }

  /** What digit i loses, in units of its place. */
  ghost function LostUnits(u: seq<Digit>, v: seq<Digit>, qp: nat, i: nat): (r: nat)
    requires i < |u| && i < |v|
    ensures r <= B * B && (0 < r <==> Loses(u, v, qp, i))
  {
    if Loses(u, v, qp, i) then B * B else 0
  }

  /** The total of the borrows lost below digit k. */
  ghost function Lost(u: seq<Digit>, v: seq<Digit>, qp: nat, k: nat): nat
    requires k <= |u| && k <= |v|
  {
    if k == 0 then 0
    else Lost(u, v, qp, k - 1) + LostUnits(u, v, qp, k - 1) * Pow(B, k - 1)
  }

  /** No digit at i needs to borrow: it covers the low half of its own product
      and the high half of the product before it. */
  predicate Covers(u: seq<Digit>, v: seq<Digit>, qp: nat, i: nat)
    requires i < |u| && i < |v|
  {
    u[i] >= (qp * v[i]) % B + (if i == 0 then 0 else (qp * v[i - 1]) / B)
  }

  lemma AsWrittenDigit(u: Digit, v: Digit, qp: nat, borrow: int)
    requires qp < B && -B < borrow < B
    ensures var (d, borrow') := SubDigit(AsWritten, u, v, qp, borrow);
            var s := u - borrow - (qp * v) % B;
            -B < borrow' < B
            && S64(u - borrow - U64(qp * v) % B) == s
            && d - B * borrow' == u - borrow - qp * v + (if s < 0 then B * B else 0)
            && (0 <= s < B ==> borrow' == (qp * v) / B)
  {
    ProductBound(qp, v);
    var p := qp * v;
    var s := u - borrow - p % B;
    HighHalf(s);
  }

  /** The subtraction as written is the true one plus what the borrows lost. */
  lemma {:induction false} MulSubAsWritten(u: seq<Digit>, v: seq<Digit>, qp: nat, k: nat)
    requires k <= |u| && k <= |v| && qp < B
    ensures var (digits, borrow) := MulSub(AsWritten, u, v, qp, k);
            -B < borrow < B
            && Val(digits, B) - borrow * Pow(B, k)
            == Val(u[..k], B) - qp * Val(v[..k], B) + Lost(u, v, qp, k)
  {
    hide SubDigit, Lost, Pow, Val;
    if k == 0 {
      NothingSubtracted(u, v, qp);
    } else {
      MulSubAsWritten(u, v, qp, k - 1);
      var (digits, borrow) := MulSub(AsWritten, u, v, qp, k - 1);
      var (d, borrow') := SubDigit(AsWritten, u[k - 1], v[k - 1], qp, borrow);
      AsWrittenDigit(u[k - 1], v[k - 1], qp, borrow);
      AppendDigit(u, v, qp, k - 1, digits, borrow, d, borrow', Lost(u, v, qp, k - 1),
                  LostUnits(u, v, qp, k - 1));
      OneMoreLost(u, v, qp, k);
    }
  }

  lemma NothingSubtracted(u: seq<Digit>, v: seq<Digit>, qp: nat)
    ensures MulSub(AsWritten, u, v, qp, 0) == ([], 0)
    ensures Val(u[..0], B) == Val(v[..0], B) == Val([], B) == Lost(u, v, qp, 0) == 0
  {
  }

  lemma OneMoreLost(u: seq<Digit>, v: seq<Digit>, qp: nat, k: nat)
    requires 0 < k <= |u| && k <= |v|
    ensures Lost(u, v, qp, k) == Lost(u, v, qp, k - 1) + LostUnits(u, v, qp, k - 1) * Pow(B, k - 1)
  {
  }

  lemma LosesUnlessCovered(u: seq<Digit>, v: seq<Digit>, qp: nat, i: nat)
    requires i < |u| && i < |v| && qp < B
    requires MulSub(AsWritten, u, v, qp, i).1 == if i == 0 then 0 else (qp * v[i - 1]) / B
    ensures Loses(u, v, qp, i) <==> !Covers(u, v, qp, i)
    ensures Covers(u, v, qp, i) ==> MulSub(AsWritten, u, v, qp, i + 1).1 == (qp * v[i]) / B
  {
    var borrow := MulSub(AsWritten, u, v, qp, i).1;
    MulSubAsWritten(u, v, qp, i);
    if i > 0 { ProductBound(qp, v[i - 1]); }
    AsWrittenDigit(u[i], v[i], qp, borrow);
  }

  /** Nothing is lost exactly while every digit covers its products. */
  lemma {:induction false} NothingLost(u: seq<Digit>, v: seq<Digit>, qp: nat, k: nat)
    requires k <= |u| && k <= |v| && qp < B
    ensures Lost(u, v, qp, k) == 0 <==> forall i :: 0 <= i < k ==> Covers(u, v, qp, i)
    ensures Lost(u, v, qp, k) == 0 ==>
            MulSub(AsWritten, u, v, qp, k).1 == if k == 0 then 0 else (qp * v[k - 1]) / B
  {
    hide MulSub, Loses, LostUnits, Pow, Covers;
    if k == 0 {
      NothingSubtracted(u, v, qp);
    } else {
      NothingLost(u, v, qp, k - 1);
      PowPositive(B, k - 1);
      MulMono(Pow(B, k - 1), 0, LostUnits(u, v, qp, k - 1));
      if Lost(u, v, qp, k - 1) == 0 {
        LosesUnlessCovered(u, v, qp, k - 1);
        if Loses(u, v, qp, k - 1) {
          MulStrict(Pow(B, k - 1), 0, LostUnits(u, v, qp, k - 1));
        }
      }
    }
  }

  lemma {:induction false} LostBound(u: seq<Digit>, v: seq<Digit>, qp: nat, k: nat)
    requires k <= |u| && k <= |v|
    ensures Lost(u, v, qp, k) < 2 * B * Pow(B, k)
  {
    if k > 0 {
      LostBound(u, v, qp, k - 1);
      PowPositive(B, k - 1);
      GrowBound(Lost(u, v, qp, k - 1), LostUnits(u, v, qp, k - 1), Pow(B, k - 1));
    }
  }

  lemma GrowBound(x: int, e: int, p: int)
    requires 0 < p && e <= B * B && x < 2 * B * p
    ensures x + e * p < 2 * B * (B * p)
  {
    MulMono(p, e, B * B);
  }

  /** Every digit but the top two of the divisor's length covers its products. */
  predicate CoversLow(w: seq<Digit>, v: seq<Digit>, qp: nat)
    requires |v| <= |w|
  {
    forall i :: 0 <= i < |v| - 2 ==> Covers(w, v, qp, i)
  }

  /** Two numbers below p that differ by a multiple of p are equal. */
  lemma SameResidue(x: nat, y: nat, t: int, p: nat)
    requires x < p && y < p && x == y + t * p
    ensures x == y
  {
    TopVanishes(y, t, p, x);
  }

  /** The borrows lost at the two top digits do not reach the digits kept. */
  lemma LostAtTop(w: seq<Digit>, v: seq<Digit>, qp: nat) returns (t: nat)
    requires 2 <= |v| <= |w|
    ensures Lost(w, v, qp, |v|) == Lost(w, v, qp, |v| - 2) + t * Pow(B, |v|)
  {
    hide Loses;
    var n, p := |v|, Pow(B, |v| - 2);
    assert Pow(B, n - 1) == B * p && Pow(B, n) == B * (B * p);
    t := (if Loses(w, v, qp, n - 2) then 1 else 0) + (if Loses(w, v, qp, n - 1) then B else 0);
  }

  /** The two forms of the subtraction differ by what was lost, up to the place
      above the digits kept. */
  lemma FormsDiffer(w: seq<Digit>, v: seq<Digit>, qp: nat) returns (t: int)
    requires 2 <= |v| <= |w| && qp < B
    ensures Val(MulSub(AsWritten, w, v, qp, |v|).0, B)
         == Val(MulSub(Reduced, w, v, qp, |v|).0, B) + Lost(w, v, qp, |v| - 2) + t * Pow(B, |v|)
  {
    var (a, ca) := MulSub(AsWritten, w, v, qp, |v|);
    var (r, cr) := MulSub(Reduced, w, v, qp, |v|);
    MulSubAsWritten(w, v, qp, |v|);
    MulSubReduced(w, v, qp, |v|);
    var e := LostAtTop(w, v, qp);
    DifferByLost(Val(a, B), ca, Val(r, B), cr, Lost(w, v, qp, |v| - 2), e, Pow(B, |v|));
    t := ca - cr + e;
  }

  /** The digits the code keeps are those of the true difference exactly when
      no borrow is lost below the top two digits. */
  lemma SameDigits(w: seq<Digit>, v: seq<Digit>, qp: nat)
    requires 2 <= |v| <= |w| && qp < B
    ensures MulSub(AsWritten, w, v, qp, |v|).0 == MulSub(Reduced, w, v, qp, |v|).0
       <==> CoversLow(w, v, qp)
  {
    var a, r := MulSub(AsWritten, w, v, qp, |v|).0, MulSub(Reduced, w, v, qp, |v|).0;
    var t := FormsDiffer(w, v, qp);
    NothingLost(w, v, qp, |v| - 2);
    LostBelowTop(w, v, qp);
    if CoversLow(w, v, qp) {
      DigitsBound(a);
      DigitsBound(r);
      SameResidue(Val(a, B), Val(r, B), t, Pow(B, |v|));
      ValInjective(a, r, B);
    } else if a == r {
      TopVanishes(Lost(w, v, qp, |v| - 2), t, Pow(B, |v|), 0);
    }
  }

  lemma LostBelowTop(w: seq<Digit>, v: seq<Digit>, qp: nat)
    requires 2 <= |v| <= |w|
    ensures Lost(w, v, qp, |v| - 2) < Pow(B, |v|)
  {
    LostBound(w, v, qp, |v| - 2);
    PowPositive(B, |v| - 2);
    assert Pow(B, |v|) == B * (B * Pow(B, |v| - 2));
  }

  lemma DifferByLost(a: int, ca: int, r: int, cr: int, lost: int, t: int, p: int)
    requires a - ca * p == r - cr * p + (lost + t * p)
    ensures a == r + lost + (ca - cr + t) * p
  {
    Distribute(p, ca - cr, t);
    Distribute(p, ca, -cr);
  }

  /** As written the borrow never exceeds the top digit of the window, whatever
      the window holds: the add-back of step D6 is never taken. */
  lemma NeverAddsBack(w: seq<Digit>, v: seq<Digit>)
    requires 2 <= |v| && |w| == |v| + 1 && 0 < v[|v| - 1]
    ensures MulSub(AsWritten, w, v, TrialDigit(w, v), |v|).1 <= w[|v|]
  {
    var n, qp := |v|, TrialDigit(w, v);
    var first, rp := FirstGuess(w[n], w[n - 1], w[n - 2], v[n - 1], v[n - 2]);
    assert qp <= first;
    MulMono(v[n - 1], qp, first);
    var p := qp * v[n - 1];
    assert p <= w[n] * B + w[n - 1];
    MulMono(v[n - 1], 0, qp);
    DivMono(p, w[n] * B + w[n - 1], B);
    DivModUnique(w[n] * B + w[n - 1], B, w[n], w[n - 1]);
    HighHalfNeverAdds(p, S64(w[n - 1] - MulSub(AsWritten, w, v, qp, n - 1).1 - p % B));
  }

  lemma HighHalfNeverAdds(p: Word, s: int)
    ensures NextBorrow(AsWritten, p, s) <= p / B
  {
  }

  /** When the step as written is right: the trial digit needs no add-back, and
      no digit below the top two borrows. */
  predicate CleanStep(w: seq<Digit>, v: seq<Digit>)
    requires 2 <= |v| && |w| == |v| + 1 && 0 < v[|v| - 1]
  {
    TrialDigit(w, v) * Val(v, B) <= Val(w, B) && CoversLow(w, v, TrialDigit(w, v))
  }

  /** A turn of the main loop as written is exact if and only if it is clean. */
  lemma StepAsWritten(w: seq<Digit>, v: seq<Digit>)
    requires StepReady(w, v)
    ensures 0 < Val(v, B)
    ensures StepExact(AsWritten, w, v) <==> CleanStep(w, v)
  {
    var n, qp := |v|, TrialDigit(w, v);
    var (low, borrow) := MulSub(AsWritten, w, v, qp, n);
    TrialBound(w, v);
    NeverAddsBack(w, v);
    SettleUnborrowed(low, w[n], borrow, v, qp);
    assert CleanStep(w, v) <==> NotAbove(qp, Val(w, B), Val(v, B)) && CoversLow(w, v, qp);
    if qp == Val(w, B) / Val(v, B) {
      FloorIsQuotient(Val(w, B), Val(v, B));
      var (true_, c) := MulSub(Reduced, w, v, qp, n);
      NoAddBack(w, v, qp, true_, c);
      SameDigits(w, v, qp);
      if Val(low, B) == Val(true_, B) {
        ValInjective(low, true_, B);
      }
    }
  }

  /** Against a divisor of two digits, at most 64 bits, every step as written is
      clean. */
  lemma TwoDigitStepsAreClean(w: seq<Digit>, v: seq<Digit>)
    requires StepReady(w, v) && |v| == 2
    ensures CleanStep(w, v)
  {
    TrialBound(w, v);
    assert NotAbove(TrialDigit(w, v), Val(w, B), Val(v, B));
  }

  /** 2^95 + 1. */
  const ExampleDivisor: seq<Digit> := [1, 0, B / 2]
  /** 2^95 + 2^32. */
  const ExampleWindow: seq<Digit> := [0, 1, B / 2, 0]

  lemma ExampleValues()
    ensures TrialDigit(ExampleWindow, ExampleDivisor) == 1
    ensures Val(ExampleWindow, B) == Val(ExampleDivisor, B) + (B - 1)
    ensures StepReady(ExampleWindow, ExampleDivisor)
  {
    hide TrialDigit, Val;
    ExampleNumbers();
    ExampleTrial();
  }

  lemma ExampleNumbers()
    ensures Val(ExampleDivisor, B) == 1 + B * (B * (B / 2))
    ensures Val(ExampleWindow, B) == B + B * (B * (B / 2))
  {
    hide Val;
    var v, w := ExampleDivisor, ExampleWindow;
    TwoDigits(0, B / 2);
    TwoDigits(B / 2, 0);
    assert v == [1] + [0, B / 2] && w == [0] + ([1] + [B / 2, 0]);
    ValCons(1, [0, B / 2], B);
    ValCons(1, [B / 2, 0], B);
    ValCons(0, [1] + [B / 2, 0], B);
  }

  lemma ExampleTrial()
    ensures TrialDigit(ExampleWindow, ExampleDivisor) == 1
  {
    hide Trial;
    assert TrialDigit(ExampleWindow, ExampleDivisor) == Trial(0, B / 2, 1, B / 2, 0);
    TrialOfHalf();
  }

  lemma TrialOfHalf()
    ensures Trial(0, B / 2, 1, B / 2, 0) == 1
  {
    hide Overshoots;
    DivModUnique(B / 2, B / 2, 1, 0);
    assert !Overshoots(1, 0, 1, 0) by { OneFitsHere(); }
  }

  lemma OneFitsHere()
    ensures !Overshoots(1, 0, 1, 0)
  {
  }

  lemma ExampleAsWritten()
    ensures MulSub(AsWritten, ExampleWindow, ExampleDivisor, 1, 3).0 == [B - 1, 0, 1]
    ensures MulSub(AsWritten, ExampleWindow, ExampleDivisor, 1, 3).1 == 0
  {
    var v, w := ExampleDivisor, ExampleWindow;
    AsWrittenDigit(0, 1, 1, 0);
    assert SubDigit(AsWritten, 0, 1, 1, 0) == (B - 1, 1 - B);
    AsWrittenDigit(1, 0, 1, 1 - B);
    assert SubDigit(AsWritten, 1, 0, 1, 1 - B) == (0, -1);
    AsWrittenDigit(B / 2, B / 2, 1, -1);
    assert SubDigit(AsWritten, B / 2, B / 2, 1, -1) == (1, 0);
    assert MulSub(AsWritten, w, v, 1, 1).0 == [B - 1];
    assert MulSub(AsWritten, w, v, 1, 2).0 == [B - 1, 0];
  }

  lemma ExampleReduced()
    ensures MulSub(Reduced, ExampleWindow, ExampleDivisor, 1, 3).0 == [B - 1, 0, 0]
    ensures MulSub(Reduced, ExampleWindow, ExampleDivisor, 1, 3).1 == 0
  {
    var v, w := ExampleDivisor, ExampleWindow;
    ReducedDigit(0, 1, 1, 0);
    assert SubDigit(Reduced, 0, 1, 1, 0) == (B - 1, 1);
    ReducedDigit(1, 0, 1, 1);
    assert SubDigit(Reduced, 1, 0, 1, 1) == (0, 0);
    ReducedDigit(B / 2, B / 2, 1, 0);
    assert SubDigit(Reduced, B / 2, B / 2, 1, 0) == (0, 0);
    assert MulSub(Reduced, w, v, 1, 1).0 == [B - 1];
    assert MulSub(Reduced, w, v, 1, 2).0 == [B - 1, 0];
  }

  /** Dividing 2^95 + 2^32 by 2^95 + 1: the digit 1 is right, but the remainder
      comes out as 2^64 + 2^32 - 1 instead of 2^32 - 1. */
  lemma LostBorrowExample()
    ensures StepReady(ExampleWindow, ExampleDivisor)
    ensures Val(ExampleWindow, B) == Val(ExampleDivisor, B) + (B - 1)
    ensures DivStep(AsWritten, ExampleWindow, ExampleDivisor).1 == 1
    ensures DivStep(AsWritten, ExampleWindow, ExampleDivisor).0 == [B - 1, 0, 1, 0]
    ensures DivStep(Reduced, ExampleWindow, ExampleDivisor).1 == 1
    ensures DivStep(Reduced, ExampleWindow, ExampleDivisor).0 == [B - 1, 0, 0, 0]
  {
    ExampleValues();
    ExampleAsWritten();
    ExampleReduced();
  }
}
