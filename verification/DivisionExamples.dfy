/** Two divisions as written: one that a lost borrow spoils, and one that a later
    turn makes good again. */
module DivisionExamples {
  import opened Powers
  import opened Digits
  import opened Machine
  import opened TrialQuotient
  import opened DivisionStep
  import opened DivisionAsWritten
  import opened DivisionRun
  import opened KnuthDivision

  // ------------------------------------------------------------ a wrong division

  /** Dividing 2^95 + 2^32 by 2^95 + 1 comes out wrong: the divisor is normalised,
      there is one turn, and it is the one of LostBorrowExample. */
  lemma LostBorrowDivision()
    ensures NormalDividend([0, 1, B / 2], ExampleDivisor) == ExampleWindow
    ensures NormalDivisor(ExampleDivisor) == ExampleDivisor
    ensures !CleanDivision([0, 1, B / 2], ExampleDivisor)
    ensures !Divides(DivRun(AsWritten, ExampleWindow, ExampleDivisor, 0), ExampleWindow, ExampleDivisor)
  {
    hide DivRun, Val, NormalDividend, NormalDivisor, CleanStep;
    AlreadyNormal();
    ExampleReady();
    NotClean();
    SingleTurn(ExampleWindow, ExampleDivisor);
    assert ExampleWindow[..3 + 1] == ExampleWindow == Window(ExampleWindow, ExampleDivisor, 0);
  }

  lemma AlreadyNormal()
    ensures NormalDividend([0, 1, B / 2], ExampleDivisor) == ExampleWindow
    ensures NormalDivisor(ExampleDivisor) == ExampleDivisor
  {
    hide Val, ToDigits, Clz;
    TopBitSet();
    var u: seq<Digit> := [0, 1, B / 2];
    assert ExampleWindow == u + [0];
    ValAppend(u, 0, B);
    ToDigitsUnique(ExampleWindow, B);
    ToDigitsUnique(ExampleDivisor, B);
  }

  lemma TopBitSet()
    ensures Clz(B / 2) == 0 && Pow(2, 0) == 1
  {
    assert Pow(2, 0) == 1;
    ClzIsLeadingZeroes(B / 2, 0);
  }

  lemma ExampleReady()
    ensures RunReady(ExampleWindow, ExampleDivisor, 0)
  {
    hide Val;
    ExampleNumbers();
    assert ExampleWindow[1..4] == [1] + [B / 2, 0];
    ValCons(1, [B / 2, 0], B);
    TwoDigits(B / 2, 0);
  }

  lemma NotClean()
    ensures !CleanStep(ExampleWindow, ExampleDivisor)
  {
    hide TrialDigit;
    ExampleTrial();
    assert !Covers(ExampleWindow, ExampleDivisor, 1, 0);
  }

  // ----------------------------------------------------- a division made good

  const HealedDivisor: seq<Digit> := [1, 0, B - 1]
  const HealedDividend: seq<Digit> := [B - 1, 0, 2, B - 3, 1]
  /** After the first of two turns: its top digit is one too large. */
  const HealedMiddle: seq<Digit> := [B - 1, B - 1, 1, B - 1, 0]
  const HealedRest: seq<Digit> := [0, B - 1, 0, 1, 0]

  /** The first turn loses a borrow, the second has the largest digit, which takes the
      error out of the window: quotient and remainder come out right although the run
      is not clean. */
  lemma HealedRun()
    ensures RunReady(HealedDividend, HealedDivisor, 1)
    ensures !CleanRun(HealedDividend, HealedDivisor, 1)
    ensures DivRun(AsWritten, HealedDividend, HealedDivisor, 1) == (HealedRest, [B - 1, 1])
    ensures Divides((HealedRest, [B - 1, 1]), HealedDividend, HealedDivisor)
  {
    hide Val, DivStep, CleanStep, TrialDigit;
    FirstTurn();
    SecondTurn();
    HealedNumbers();
    var (u, v) := (HealedDividend, HealedDivisor);
    assert Window(u, v, 1) == [0, 2, B - 3, 1];
    assert After(AsWritten, u, v, 1) == HealedMiddle;
    assert Window(HealedMiddle, v, 0) == [B - 1, B - 1, 1, B - 1];
    assert After(AsWritten, HealedMiddle, v, 0) == HealedRest;
    assert DivRun(AsWritten, HealedMiddle, v, 0) == (HealedRest, [B - 1]);
    assert [B - 1] + [1] == [B - 1, 1];
  }

  /** One more digit of the subtraction as written. */
  lemma NextDigit(w: seq<Digit>, v: seq<Digit>, qp: nat, digits: seq<Digit>, borrow: int, next: seq<Digit>, borrow': int)
    requires |digits| < |w| && |digits| < |v| && MulSub(AsWritten, w, v, qp, |digits|) == (digits, borrow)
    requires |next| == |digits| + 1 && next[..|digits|] == digits
    requires SubDigit(AsWritten, w[|digits|], v[|digits|], qp, borrow) == (next[|digits|], borrow')
    ensures MulSub(AsWritten, w, v, qp, |next|) == (next, borrow')
  {
    assert next == digits + [next[|digits|]];
  }

  lemma NoDigits(w: seq<Digit>, v: seq<Digit>, qp: nat)
    ensures MulSub(AsWritten, w, v, qp, 0) == ([], 0)
  {
  }

  /** A borrow no larger than the top digit takes itself off it. */
  lemma Settled(w: seq<Digit>, v: seq<Digit>, qp: Digit, low: seq<Digit>, borrow: int)
    requires 2 <= |v| && |w| == |v| + 1 && 0 < v[|v| - 1] && TrialDigit(w, v) == qp
    requires MulSub(AsWritten, w, v, qp, |v|) == (low, borrow) && borrow <= w[|v|]
    ensures DivStep(AsWritten, w, v) == (low + [(w[|v|] - borrow % B) % B], qp)
  {
    hide MulSub, TrialDigit;
  }

  lemma FirstTurn()
    ensures DivStep(AsWritten, [0, 2, B - 3, 1], HealedDivisor) == ([B - 1, 1, B - 1, 0], 1)
    ensures !CleanStep([0, 2, B - 3, 1], HealedDivisor)
  {
    hide Trial, MulSub, DivStep;
    var w: seq<Digit>, v := [0, 2, B - 3, 1], HealedDivisor;
    FirstTrial();
    assert TrialDigit(w, v) == 1;
    AsWrittenDigit(0, 1, 1, 0);
    NoDigits(w, v, 1);
    NextDigit(w, v, 1, [], 0, [B - 1], 1 - B);
    AsWrittenDigit(2, 0, 1, 1 - B);
    NextDigit(w, v, 1, [B - 1], 1 - B, [B - 1, 1], -1);
    AsWrittenDigit(B - 3, B - 1, 1, -1);
    NextDigit(w, v, 1, [B - 1, 1], -1, [B - 1, 1, B - 1], 1 - B);
    Settled(w, v, 1, [B - 1, 1, B - 1], 1 - B);
    DivModUnique(1 - B, B, -1, 1);
    assert [B - 1, 1, B - 1] + [0] == [B - 1, 1, B - 1, 0];
    assert !Covers(w, v, 1, 0);
  }

  lemma FirstTrial()
    ensures Trial(1, B - 3, 2, B - 1, 0) == 1
  {
    DivModUnique(1 * B + (B - 3), B - 1, 1, B - 2);
  }

  lemma SecondTurn()
    ensures DivStep(AsWritten, [B - 1, B - 1, 1, B - 1], HealedDivisor) == ([0, B - 1, 0, 1], B - 1)
  {
    hide Trial, MulSub, DivStep;
    var w: seq<Digit>, v := [B - 1, B - 1, 1, B - 1], HealedDivisor;
    SecondTrial();
    assert TrialDigit(w, v) == B - 1;
    AsWrittenDigit(B - 1, 1, B - 1, 0);
    NoDigits(w, v, B - 1);
    NextDigit(w, v, B - 1, [], 0, [0], 0);
    AsWrittenDigit(B - 1, 0, B - 1, 0);
    NextDigit(w, v, B - 1, [0], 0, [0, B - 1], 0);
    AsWrittenDigit(1, B - 1, B - 1, 0);
    NextDigit(w, v, B - 1, [0, B - 1], 0, [0, B - 1, 0], B - 2);
    Settled(w, v, B - 1, [0, B - 1, 0], B - 2);
    assert [0, B - 1, 0] + [1] == [0, B - 1, 0, 1];
  }

  lemma SecondTrial()
    ensures Trial(B - 1, 1, B - 1, B - 1, 0) == B - 1
  {
    DivModUnique((B - 1) * B + 1, B - 1, B, 1);
  }

  lemma HealedNumbers()
    ensures RunReady(HealedDividend, HealedDivisor, 1)
    ensures Divides((HealedRest, [B - 1, 1]), HealedDividend, HealedDivisor)
  {
    hide Val;
    var u, v := HealedDividend, HealedDivisor;
    TwoDigits(0, B - 1);
    assert v == [1] + [0, B - 1];
    ValCons(1, [0, B - 1], B);
    TwoDigits(B - 3, 1);
    assert u[2..5] == [2] + [B - 3, 1] && u == [B - 1] + ([0] + u[2..5]);
    ValCons(2, [B - 3, 1], B);
    ValCons(0, u[2..5], B);
    ValCons(B - 1, [0] + u[2..5], B);
    assert HealedRest[..3] == [0] + [B - 1, 0];
    TwoDigits(B - 1, 0);
    ValCons(0, [B - 1, 0], B);
    TwoDigits(B - 1, 1);
  }
}
