/** Steps D4 to D6 of Algorithm D on one window: multiply and subtract, test
    the borrow, add back.

    The subtraction comes in two forms.  `Reduced` keeps the borrow in 32 bits,
    as the algorithm asks; `AsWritten` keeps the high half of the 64-bit
    partial result, as the code does. */
module DivisionStep {
  import opened Powers
  import opened Digits
  import opened Machine
  import opened TrialQuotient

  datatype Form = Reduced | AsWritten

  /** The borrow into the next digit, from the product p of the trial digit and
      a divisor digit and the partial difference s. */
  function NextBorrow(form: Form, p: Word, s: int): int
  {
    match form
    case Reduced => (p / B - (s % W) / B) % B
    case AsWritten => S64(p / B - (s % W) / B)
  }

  /** One digit of the difference and the borrow out of it. */
  function SubDigit(form: Form, u: Digit, v: Digit, qp: nat, borrow: int): (Digit, int)
  {
    var p := U64(qp * v);
    var s := S64(u - borrow - p % B);
    (s % B, NextBorrow(form, p, s))
  }

  /** The low k digits of u - qp * v and the borrow out of them. */
  function MulSub(form: Form, u: seq<Digit>, v: seq<Digit>, qp: nat, k: nat): (r: (seq<Digit>, int))
    requires k <= |u| && k <= |v|
    ensures |r.0| == k
  {
    if k == 0 then ([], 0) else
      var (digits, borrow) := MulSub(form, u, v, qp, k - 1);
      var (d, borrow') := SubDigit(form, u[k - 1], v[k - 1], qp, borrow);
      (digits + [d], borrow')
  }

  /** One digit of the sum; comparing it with the smaller addend recognises the
      wrap. */
  function SumDigit(x: Digit, v: Digit, carry: bool): (r: (Digit, bool))
    ensures r.0 + B * Bit(r.1) == x + v + Bit(carry)
  {
    var limit := if x < v then x else v;
    var sum := (x + v + Bit(carry)) % B;
    (sum, sum < limit || (carry && sum == limit))
  }

  /** The low k digits of x + v + carry, and the carry out. */
  function AddBack(x: seq<Digit>, v: seq<Digit>, k: nat): (r: (seq<Digit>, bool))
    requires k <= |x| && k <= |v|
    ensures |r.0| == k
  {
    if k == 0 then ([], false) else
      var (digits, carry) := AddBack(x, v, k - 1);
      var (d, carry') := SumDigit(x[k - 1], v[k - 1], carry);
      (digits + [d], carry')
  }

  /** Steps D5 and D6: from the difference and its borrow, the window they
      leave and the quotient digit. */
  function Settle(low: seq<Digit>, top: Digit, borrow: int, v: seq<Digit>, qp: nat): (r: (seq<Digit>, Digit))
    requires |low| == |v|
    ensures |r.0| == |v| + 1
  {
    var top' := (top - borrow % B) % B;
    if top < borrow then
      var (back, carry) := AddBack(low, v, |v|);
      (back + [(top' + Bit(carry)) % B], (qp % B - 1) % B)
    else
      (low + [top'], qp % B)
  }

  /** Steps D4 to D6 with trial digit qp. */
  function StepWith(form: Form, w: seq<Digit>, v: seq<Digit>, qp: nat): (r: (seq<Digit>, Digit))
    requires |w| == |v| + 1
    ensures |r.0| == |w|
  {
    var (low, borrow) := MulSub(form, w, v, qp, |v|);
    Settle(low, w[|v|], borrow, v, qp)
  }

  /** One turn of the main loop. */
  function DivStep(form: Form, w: seq<Digit>, v: seq<Digit>): (r: (seq<Digit>, Digit))
    requires 2 <= |v| && |w| == |v| + 1 && 0 < v[|v| - 1]
    ensures |r.0| == |w|
  {
    StepWith(form, w, v, TrialDigit(w, v))
  }

  // ------------------------------------------------- the borrow kept in 32 bits

  /** The high half of a small difference taken as an unsigned 64-bit number. */
  lemma HighHalf(s: int)
    requires -W / 2 < s < W / 2
    ensures (s % W) / B == s / B + (if s < 0 then B else 0)
  {
    if s < 0 {
      assert s % W == s + B * B;
    }
  }

  /** One digit of the reduced subtraction neither wraps nor loses anything. */
  lemma ReducedDigit(u: Digit, v: Digit, qp: nat, borrow: nat)
    requires qp < B && borrow < B
    ensures var (d, borrow') := SubDigit(Reduced, u, v, qp, borrow);
            0 <= borrow' < B && d - B * borrow' == u - borrow - qp * v
  {
    ProductBound(qp, v);
    var p := qp * v;
    var s := u - borrow - p % B;
    HighHalf(s);
    var c := p / B - s / B;
    assert s % B - B * c == u - borrow - p;
    assert 0 <= c < B;
    ModShift(c, if s < 0 then -1 else 0, B);
    DivModUnique(c, B, 0, c);
  }

  /** Placing one more digit: the step in units of p = B^k. */
  lemma PlaceDigit(acc: int, c: int, ulow: int, vlow: int, lost: int, q: int,
                   d: int, c': int, u: int, v: int, extra: int, p: int)
    requires acc - c * p == ulow - q * vlow + lost
    requires d - B * c' == u - c - q * v + extra
    ensures (acc + d * p) - c' * (B * p) == (ulow + u * p) - q * (vlow + v * p) + lost + extra * p
  {
    var qv := q * v;
    assert (d - B * c') * p == (u - c - qv + extra) * p;
    assert (d - B * c') * p == d * p - c' * (B * p);
    assert (u - c - qv + extra) * p == u * p - c * p - qv * p + extra * p;
    Distribute(q, vlow, v * p);
    Associate(q, v, p);
  }

  /** With the borrow in 32 bits the digits and the borrow are u - qp * v. */
  lemma {:induction false} MulSubReduced(u: seq<Digit>, v: seq<Digit>, qp: nat, k: nat)
    requires k <= |u| && k <= |v| && qp < B
    ensures var (digits, borrow) := MulSub(Reduced, u, v, qp, k);
            0 <= borrow < B
            && Val(digits, B) - borrow * Pow(B, k) == Val(u[..k], B) - qp * Val(v[..k], B)
  {
    if k > 0 {
      MulSubReduced(u, v, qp, k - 1);
      var (digits, borrow) := MulSub(Reduced, u, v, qp, k - 1);
      var (d, borrow') := SubDigit(Reduced, u[k - 1], v[k - 1], qp, borrow);
      ReducedDigit(u[k - 1], v[k - 1], qp, borrow);
      AppendDigit(u, v, qp, k - 1, digits, borrow, d, borrow', 0, 0);
    }
  }

  lemma AppendDigit(u: seq<Digit>, v: seq<Digit>, qp: nat, k: nat, digits: seq<Digit>, borrow: int,
                    d: Digit, borrow': int, lost: int, extra: int)
    requires k < |u| && k < |v| && |digits| == k
    requires Val(digits, B) - borrow * Pow(B, k) == Val(u[..k], B) - qp * Val(v[..k], B) + lost
    requires d - B * borrow' == u[k] - borrow - qp * v[k] + extra
    ensures Val(digits + [d], B) - borrow' * Pow(B, k + 1)
         == Val(u[..k + 1], B) - qp * Val(v[..k + 1], B) + lost + extra * Pow(B, k)
  {
    ValPrefix(u, k, B);
    ValPrefix(v, k, B);
    ValAppend(digits, d, B);
    PlaceDigit(Val(digits, B), borrow, Val(u[..k], B), Val(v[..k], B), lost, qp,
               d, borrow', u[k], v[k], extra, Pow(B, k));
  }

  // -------------------------------------------------- the add-back of step D6

  lemma {:induction false} AddBackSum(x: seq<Digit>, v: seq<Digit>, k: nat)
    requires k <= |x| && k <= |v|
    ensures var (digits, carry) := AddBack(x, v, k);
            Val(digits, B) + Bit(carry) * Pow(B, k) == Val(x[..k], B) + Val(v[..k], B)
  {
    if k > 0 {
      AddBackSum(x, v, k - 1);
      var (digits, carry) := AddBack(x, v, k - 1);
      var (d, carry') := SumDigit(x[k - 1], v[k - 1], carry);
      ValPrefix(x, k - 1, B);
      ValPrefix(v, k - 1, B);
      ValAppend(digits, d, B);
      PlaceSum(d, Bit(carry'), x[k - 1], v[k - 1], Bit(carry), Pow(B, k - 1));
    }
  }

  lemma PlaceSum(d: int, c': int, x: int, v: int, c: int, p: int)
    requires d + B * c' == x + v + c
    ensures d * p + c' * (B * p) == x * p + v * p + c * p
  {
    assert (d + B * c') * p == d * p + c' * (B * p);
    assert (x + v + c) * p == x * p + v * p + c * p;
  }

  // --------------------------------------------------- one turn of the main loop

  /** The step did its work: the quotient digit and the remainder of the window,
      the latter in the digits that are read again. */
  ghost predicate StepExact(form: Form, w: seq<Digit>, v: seq<Digit>)
    requires 2 <= |v| && |w| == |v| + 1 && 0 < v[|v| - 1]
    requires 0 < Val(v, B)
  {
    var (w', q) := DivStep(form, w, v);
    q == Val(w, B) / Val(v, B) && Val(w'[..|v|], B) == Val(w, B) % Val(v, B)
  }

  /** What the reduced subtraction of the trial digit leaves in the window. */
  lemma WindowDifference(w: seq<Digit>, v: seq<Digit>, qp: nat)
    requires |w| == |v| + 1 && qp < B
    ensures var (low, borrow) := MulSub(Reduced, w, v, qp, |v|);
            0 <= borrow < B && Val(low, B) < Pow(B, |v|)
            && Val(low, B) + (w[|v|] - borrow) * Pow(B, |v|) == Val(w, B) - qp * Val(v, B)
  {
    var n := |v|;
    MulSubReduced(w, v, qp, n);
    var (low, borrow) := MulSub(Reduced, w, v, qp, n);
    ValPrefix(w, n, B);
    assert w[..n + 1] == w && v[..n] == v;
    DigitsBound(low);
    Regroup(Val(low, B), borrow, w[n], Pow(B, n), Val(w[..n], B), qp * Val(v, B), Val(w, B));
  }

  lemma Regroup(low: int, c: int, top: int, p: int, wlow: int, qv: int, x: int)
    requires low - c * p == wlow - qv && x == wlow + top * p
    ensures low + (top - c) * p == x - qv
  {
    Distribute(p, top, -c);
  }

  lemma DigitsBound(s: seq<Digit>)
    ensures Val(s, B) < Pow(B, |s|)
  {
    assert AllDigits(s, B);
    ValBound(s, B);
  }

  /** A value below p that is written as low + t * p has t == 0. */
  lemma TopVanishes(low: nat, t: int, p: nat, x: int)
    requires low < p && 0 <= x < p && low + t * p == x
    ensures t == 0 && low == x
  {
    if 1 <= t { MulMono(p, 1, t); }
    if t <= -1 { MulMono(p, t, -1); }
  }

  lemma TopSign(low: nat, t: int, p: nat)
    requires low < p
    ensures 0 <= t <==> 0 <= low + t * p
  {
    if 0 <= t { MulMono(p, 0, t); } else { MulMono(p, t, -1); }
  }

  /** t is the floor of x / y. */
  ghost predicate IsFloor(t: int, x: int, y: int) { 0 <= x - t * y < y }

  /** Without an add-back the difference is the remainder. */
  lemma NoAddBack(w: seq<Digit>, v: seq<Digit>, qp: nat, low: seq<Digit>, borrow: int)
    requires |w| == |v| + 1 && qp < B && IsFloor(qp, Val(w, B), Val(v, B))
    requires (low, borrow) == MulSub(Reduced, w, v, qp, |v|)
    ensures borrow == w[|v|] && Val(low, B) == Val(w, B) - qp * Val(v, B)
  {
    WindowDifference(w, v, qp);
    DigitsBound(v);
    TopVanishes(Val(low, B), w[|v|] - borrow, Pow(B, |v|), Val(w, B) - qp * Val(v, B));
  }

  /** The carry of the add-back cancels the borrow of the subtraction. */
  lemma CarryCancelsBorrow(low: nat, top: int, borrow: int, p: nat, back: nat, carry: nat, x: int, qy: int, y: nat)
    requires low < p && back < p && carry <= 1 && y <= p
    requires low + (top - borrow) * p == x - qy
    requires back + carry * p == low + y
    requires 0 <= x - qy + y < y
    ensures carry == 1 && borrow - 1 == top && back == x - qy + y
  {
    Distribute(p, top - borrow, carry);
    TopVanishes(back, top - borrow + carry, p, x - qy + y);
    TopSign(low, top - borrow, p);
  }

  /** A trial digit one too large leaves a borrow, and adding the divisor back
      leaves the remainder and clears the top digit. */
  lemma AddsBack(w: seq<Digit>, v: seq<Digit>, qp: nat, low: seq<Digit>, borrow: int)
    requires |w| == |v| + 1 && qp < B && IsFloor(qp - 1, Val(w, B), Val(v, B))
    requires (low, borrow) == MulSub(Reduced, w, v, qp, |v|)
    ensures |low| == |v| && borrow - 1 == w[|v|] && borrow < B
    ensures AddBack(low, v, |v|).1
    ensures Val(AddBack(low, v, |v|).0, B) == Val(w, B) - (qp - 1) * Val(v, B)
  {
    hide Val, Pow, AddBack, MulSub;
    var n, x, y := |v|, Val(w, B), Val(v, B);
    var (back, carry) := AddBack(low, v, n);
    WindowDifference(w, v, qp);
    AddBackSum(low, v, n);
    assert low[..n] == low && v[..n] == v;
    DigitsBound(back);
    DigitsBound(v);
    Distribute(y, qp, -1);
    CarryCancelsBorrow(Val(low, B), w[n], borrow, Pow(B, n), Val(back, B), Bit(carry), x, qp * y, y);
  }

  lemma BorrowedTop(top: Digit, borrow: int)
    requires borrow - 1 == top && borrow < B
    ensures (top - borrow % B) % B == B - 1
    ensures (B - 1 + Bit(true)) % B == 0
  {
    assert borrow % B == borrow;
    var t: int := top - borrow;
    assert t == -1;
  }

  lemma DecrementedDigit(qp: nat)
    requires 0 < qp < B
    ensures (qp % B - 1) % B == qp - 1
  {
  }

  lemma SettleAddsBack(low: seq<Digit>, top: Digit, borrow: int, v: seq<Digit>, qp: nat)
    requires |low| == |v| && 0 < qp < B
    requires borrow - 1 == top && borrow < B && AddBack(low, v, |v|).1
    ensures Settle(low, top, borrow, v, qp).0 == AddBack(low, v, |v|).0 + [0]
    ensures Settle(low, top, borrow, v, qp).1 == qp - 1
  {
    BorrowedTop(top, borrow);
    DecrementedDigit(qp);
  }

  lemma SettleUnborrowed(low: seq<Digit>, top: Digit, borrow: int, v: seq<Digit>, qp: nat)
    requires |low| == |v| && qp < B && borrow <= top
    ensures Settle(low, top, borrow, v, qp).0[..|v|] == low
    ensures Settle(low, top, borrow, v, qp).1 == qp
    ensures borrow == top ==> Settle(low, top, borrow, v, qp).0[|v|] == 0
  {
    assert qp % B == qp;
    if borrow == top {
      assert borrow % B == top;
    }
  }

  /** Steps D4 to D6 repair a trial digit that is one too large. */
  lemma StepWithReduced(w: seq<Digit>, v: seq<Digit>, qp: nat, t: nat)
    requires |w| == |v| + 1 && t <= qp <= t + 1 && qp < B
    requires IsFloor(t, Val(w, B), Val(v, B))
    ensures StepWith(Reduced, w, v, qp).1 == t
    ensures StepWith(Reduced, w, v, qp).0[|v|] == 0
    ensures Val(StepWith(Reduced, w, v, qp).0[..|v|], B) == Val(w, B) - t * Val(v, B)
  {
    hide Val, Pow, MulSub, AddBack;
    var (low, borrow) := MulSub(Reduced, w, v, qp, |v|);
    if qp == t {
      NoAddBack(w, v, qp, low, borrow);
      SettleUnborrowed(low, w[|v|], borrow, v, qp);
    } else {
      AddsBack(w, v, qp, low, borrow);
      SettleAddsBack(low, w[|v|], borrow, v, qp);
      var back := AddBack(low, v, |v|).0;
      assert (back + [0])[..|v|] == back;
    }
  }

  lemma FloorIsQuotient(x: nat, y: nat)
    requires 0 < y
    ensures IsFloor(x / y, x, y) && x % y == x - (x / y) * y
  {
    DivModDef(x, y);
  }

  /** With the borrow in 32 bits every step is exact, and the digit above the
      remainder is left zero. */
  lemma StepReduced(w: seq<Digit>, v: seq<Digit>)
    requires StepReady(w, v)
    ensures 0 < Val(v, B) && StepExact(Reduced, w, v)
    ensures DivStep(Reduced, w, v).0[|v|] == 0
  {
    TrialBound(w, v);
    FloorIsQuotient(Val(w, B), Val(v, B));
    StepWithReduced(w, v, TrialDigit(w, v), Val(w, B) / Val(v, B));
  }
}
