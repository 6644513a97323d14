/** The main loop of Algorithm D: one quotient digit a turn, from the top. */
module DivisionRun {
  import opened Powers
  import opened Digits
  import opened Machine
  import opened TrialQuotient
  import opened DivisionStep
  import opened DivisionAsWritten

  /** The window that turn j works on. */
  function Window(u: seq<Digit>, v: seq<Digit>, j: nat): (w: seq<Digit>)
    requires j + |v| < |u|
    ensures |w| == |v| + 1
  {
    u[j..j + |v| + 1]
  }

  function PutWindow(u: seq<Digit>, v: seq<Digit>, j: nat, w: seq<Digit>): (u': seq<Digit>)
    requires j + |v| < |u| && |w| == |v| + 1
    ensures |u'| == |u|
  {
    u[..j] + w + u[j + |v| + 1..]
  }

  /** The dividend after turn j. */
  function After(form: Form, u: seq<Digit>, v: seq<Digit>, j: nat): (u': seq<Digit>)
    requires 2 <= |v| && 0 < v[|v| - 1] && j + |v| < |u|
    ensures |u'| == |u|
  {
    PutWindow(u, v, j, DivStep(form, Window(u, v, j), v).0)
  }

  /** Turns j down to 0: what is left of the dividend, and the quotient digits. */
  function DivRun(form: Form, u: seq<Digit>, v: seq<Digit>, j: nat): (r: (seq<Digit>, seq<Digit>))
    requires 2 <= |v| && 0 < v[|v| - 1] && j + |v| < |u|
    ensures |r.0| == |u| && |r.1| == j + 1
    decreases j
  {
    var d := DivStep(form, Window(u, v, j), v).1;
    var u' := After(form, u, v, j);
    if j == 0 then (u', [d]) else
      var (u'', digits) := DivRun(form, u', v, j - 1);
      (u'', digits + [d])
  }

  /** The divisor is normalised and the digits above j are a remainder. */
  ghost predicate RunReady(u: seq<Digit>, v: seq<Digit>, j: nat)
  {
    && 2 <= |v| && j + |v| < |u|
    && B / 2 <= v[|v| - 1]
    && Val(u[j + 1..j + |v| + 1], B) < Val(v, B)
  }

  /** Every turn as written is clean. */
  ghost predicate CleanRun(u: seq<Digit>, v: seq<Digit>, j: nat)
    requires 2 <= |v| && 0 < v[|v| - 1] && j + |v| < |u|
    decreases j
  {
    CleanStep(Window(u, v, j), v) && (j > 0 ==> CleanRun(After(AsWritten, u, v, j), v, j - 1))
  }

  lemma WindowReady(u: seq<Digit>, v: seq<Digit>, j: nat)
    requires RunReady(u, v, j)
    ensures StepReady(Window(u, v, j), v)
  {
    var w := Window(u, v, j);
    assert w[1..] == u[j + 1..j + |v| + 1];
    assert Val(w, B) == w[0] + B * Val(w[1..], B);
  }

  /** An exact turn takes its digit times the divisor, in its place, out of the
      live part of the dividend. */
  lemma TurnConserves(form: Form, u: seq<Digit>, v: seq<Digit>, j: nat)
    requires RunReady(u, v, j) && 0 < Val(v, B)
    requires StepExact(form, Window(u, v, j), v)
    ensures var u' := After(form, u, v, j);
            Val(u[..j + |v| + 1], B)
            == Val(u'[..j + |v|], B) + (DivStep(form, Window(u, v, j), v).1 * Pow(B, j)) * Val(v, B)
            && Val(u'[j..j + |v|], B) < Val(v, B)
  {
    hide Val, Pow, DivStep;
    var n, w := |v|, Window(u, v, j);
    var (w', d) := DivStep(form, w, v);
    WindowParts(u, v, j, w');
    ValConcat(u[..j], w, B);
    ValConcat(u[..j], w'[..n], B);
    FloorIsQuotient(Val(w, B), Val(v, B));
    PlaceTurn(Pow(B, j), Val(w, B), d, Val(v, B), Val(w'[..n], B));
  }

  /** The digits up to the window's end, before and after the turn. */
  lemma WindowParts(u: seq<Digit>, v: seq<Digit>, j: nat, w: seq<Digit>)
    requires j + |v| < |u| && |w| == |v| + 1
    ensures u[..j + |v| + 1] == u[..j] + Window(u, v, j)
    ensures PutWindow(u, v, j, w)[..j + |v|] == u[..j] + w[..|v|]
    ensures PutWindow(u, v, j, w)[j..j + |v|] == w[..|v|]
  {
  }

  lemma PlaceTurn(p: int, w: int, d: int, v: int, r: int)
    requires w == d * v + r
    ensures p * w == p * r + (d * p) * v
  {
    Distribute(p, d * v, r);
    Associate(p, d, v);
  }

  /** The run left the quotient and the remainder of x by v. */
  ghost predicate Divides(run: (seq<Digit>, seq<Digit>), x: seq<Digit>, v: seq<Digit>)
    requires |v| <= |run.0|
  {
    && Val(x, B) == Val(run.1, B) * Val(v, B) + Val(run.0[..|v|], B)
    && Val(run.0[..|v|], B) < Val(v, B)
  }

  lemma LastTurn(form: Form, u: seq<Digit>, v: seq<Digit>)
    requires RunReady(u, v, 0) && 0 < Val(v, B)
    requires StepExact(form, Window(u, v, 0), v)
    ensures Divides(DivRun(form, u, v, 0), u[..0 + |v| + 1], v)
  {
    var w := Window(u, v, 0);
    assert w == u[..|v| + 1];
    assert DivRun(form, u, v, 0).0[..|v|] == DivStep(form, w, v).0[..|v|];
    ValOne(DivStep(form, w, v).1, B);
    FloorIsQuotient(Val(w, B), Val(v, B));
  }

  lemma EarlierTurn(form: Form, u: seq<Digit>, v: seq<Digit>, j: nat)
    requires 0 < j && RunReady(u, v, j) && 0 < Val(v, B)
    requires StepExact(form, Window(u, v, j), v)
    requires Divides(DivRun(form, After(form, u, v, j), v, j - 1), After(form, u, v, j)[..j + |v|], v)
    ensures Divides(DivRun(form, u, v, j), u[..j + |v| + 1], v)
  {
    TurnConserves(form, u, v, j);
    var u', d := After(form, u, v, j), DivStep(form, Window(u, v, j), v).1;
    var (rest, digits) := DivRun(form, u', v, j - 1);
    assert DivRun(form, u, v, j) == (rest, digits + [d]);
    ValAppend(digits, d, B);
    AddTurn(Val(u[..j + |v| + 1], B), Val(u'[..j + |v|], B), Val(digits, B), d * Pow(B, j),
            Val(v, B), Val(rest[..|v|], B));
  }

  lemma StepIsExact(form: Form, w: seq<Digit>, v: seq<Digit>)
    requires StepReady(w, v) && (form.Reduced? || CleanStep(w, v))
    ensures 0 < Val(v, B) && StepExact(form, w, v)
  {
    StepReduced(w, v);
    StepAsWritten(w, v);
  }

  /** Exact turns all the way down divide the dividend. */
  lemma {:induction false} RunExact(form: Form, u: seq<Digit>, v: seq<Digit>, j: nat)
    requires RunReady(u, v, j)
    requires form.Reduced? || CleanRun(u, v, j)
    ensures Divides(DivRun(form, u, v, j), u[..j + |v| + 1], v)
    decreases j
  {
    hide Val, Pow, DivStep, StepExact, Divides;
    WindowReady(u, v, j);
    StepIsExact(form, Window(u, v, j), v);
    if j == 0 {
      LastTurn(form, u, v);
    } else {
      TurnConserves(form, u, v, j);
      var u' := After(form, u, v, j);
      assert u'[j - 1 + 1..j - 1 + |v| + 1] == u'[j..j + |v|];
      RunExact(form, u', v, j - 1);
      assert u'[..j - 1 + |v| + 1] == u'[..j + |v|];
      EarlierTurn(form, u, v, j);
    }
  }

  lemma AddTurn(x: int, x': int, q: int, d: int, v: int, r: int)
    requires x == x' + d * v && x' == q * v + r
    ensures x == (q + d) * v + r
  {
  }

  /** Against a divisor of two digits every run as written is clean. */
  lemma {:induction false} TwoDigitRunsAreClean(u: seq<Digit>, v: seq<Digit>, j: nat)
    requires RunReady(u, v, j) && |v| == 2
    ensures CleanRun(u, v, j)
    decreases j
  {
    WindowReady(u, v, j);
    TwoDigitStepsAreClean(Window(u, v, j), v);
    StepAsWritten(Window(u, v, j), v);
    if j > 0 {
      TurnConserves(AsWritten, u, v, j);
      var u' := After(AsWritten, u, v, j);
      assert u'[j - 1 + 1..j - 1 + |v| + 1] == u'[j..j + |v|];
      TwoDigitRunsAreClean(u', v, j - 1);
    }
  }

  /** Every turn of the run as written computes its quotient digit and
      remainder. */
  ghost predicate ExactRun(u: seq<Digit>, v: seq<Digit>, j: nat)
    requires 2 <= |v| && 0 < v[|v| - 1] && 0 < Val(v, B) && j + |v| < |u|
    decreases j
  {
    && StepExact(AsWritten, Window(u, v, j), v)
    && (j > 0 ==> ExactRun(After(AsWritten, u, v, j), v, j - 1))
  }

  /** The run as written follows Algorithm D turn by turn if and only if every
      turn is clean. */
  lemma {:induction false} ExactIffClean(u: seq<Digit>, v: seq<Digit>, j: nat)
    requires RunReady(u, v, j)
    ensures 0 < Val(v, B)
    ensures ExactRun(u, v, j) <==> CleanRun(u, v, j)
    decreases j
  {
    WindowReady(u, v, j);
    StepAsWritten(Window(u, v, j), v);
    if j > 0 && StepExact(AsWritten, Window(u, v, j), v) {
      TurnConserves(AsWritten, u, v, j);
      var u' := After(AsWritten, u, v, j);
      assert u'[j - 1 + 1..j - 1 + |v| + 1] == u'[j..j + |v|];
      ExactIffClean(u', v, j - 1);
    }
  }

  /** With as many digits in the dividend as in the divisor there is one turn,
      and the quotient and remainder as written are right if and only if it is
      clean. */
  lemma SingleTurn(u: seq<Digit>, v: seq<Digit>)
    requires RunReady(u, v, 0)
    ensures Divides(DivRun(AsWritten, u, v, 0), u[..|v| + 1], v) <==> CleanStep(Window(u, v, 0), v)
  {
    var w := Window(u, v, 0);
    WindowReady(u, v, 0);
    StepAsWritten(w, v);
    var (w', d) := DivStep(AsWritten, w, v);
    var (u', q) := DivRun(AsWritten, u, v, 0);
    assert w == u[..|v| + 1] && u'[..|v|] == w'[..|v|] && q == [d];
    ValOne(d, B);
    FloorIsQuotient(Val(w, B), Val(v, B));
    if Divides((u', q), w, v) {
      DivModUnique(Val(w, B), Val(v, B), d, Val(w'[..|v|], B));
    }
  }
}
