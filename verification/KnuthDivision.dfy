/** The division loop on arrays of 32-bit digits, updated in place. */
module KnuthDivision {
  import opened Powers
  import opened Digits
  import opened Machine
  import opened TrialQuotient
  import opened DivisionStep
  import opened DivisionRun
  import opened Normalise

  /** Step D4: the window of u at j loses qp times the divisor. */
  method SubtractProduct(form: Form, u: array<Digit>, v: array<Digit>, n: nat, j: nat, qp: nat)
    returns (borrow: int)
    requires n <= v.Length && j + n <= u.Length && u != v
    modifies u
    ensures (u[j..j + n], borrow) == MulSub(form, old(u[j..j + n]), v[..n], qp, n)
    ensures u[..j] == old(u[..j]) && u[j + n..] == old(u[j + n..])
  {
    hide SubDigit;
    ghost var w, d := u[j..j + n], v[..n];
    borrow := 0;
    assert u[j..j] == [];
    for i := 0 to n
      invariant (u[j..j + i], borrow) == MulSub(form, w, d, qp, i)
      invariant u[..j] == old(u[..j]) && u[j + i..] == old(u[j + i..])
    {
      assert u[j + i] == u[j + i..][0] == w[i] && v[i] == d[i];
      ghost var done := u[j..j + i];
      ghost var rest := u[j + i..];
      var (digit, next) := SubDigit(form, u[j + i], v[i], qp, borrow);
      u[j + i], borrow := digit, next;
      assert u[j..j + i] == done;
      assert u[j..j + i + 1] == done + [u[j + i]];
      assert u[j + i + 1..] == rest[1..] == old(u[j + i..])[1..];
    }
  }

  /** Step D6: the divisor is added back to the window of u at j. */
  method AddDivisor(u: array<Digit>, v: array<Digit>, n: nat, j: nat) returns (carry: bool)
    requires n <= v.Length && j + n <= u.Length && u != v
    modifies u
    ensures (u[j..j + n], carry) == AddBack(old(u[j..j + n]), v[..n], n)
    ensures u[..j] == old(u[..j]) && u[j + n..] == old(u[j + n..])
  {
    hide SumDigit;
    ghost var w, d := u[j..j + n], v[..n];
    carry := false;
    assert u[j..j] == [];
    for i := 0 to n
      invariant (u[j..j + i], carry) == AddBack(w, d, i)
      invariant u[..j] == old(u[..j]) && u[j + i..] == old(u[j + i..])
    {
      assert u[j + i] == u[j + i..][0] == w[i] && v[i] == d[i];
      ghost var done := u[j..j + i];
      ghost var rest := u[j + i..];
      var (digit, next) := SumDigit(u[j + i], v[i], carry);
      u[j + i], carry := digit, next;
      assert u[j..j + i] == done;
      assert u[j..j + i + 1] == done + [u[j + i]];
      assert u[j + i + 1..] == rest[1..] == old(u[j + i..])[1..];
    }
  }

  /** One turn of the main loop at j: a quotient digit. */
  method Turn(form: Form, u: array<Digit>, v: array<Digit>, n: nat, j: nat) returns (q: Digit)
    requires 2 <= n <= v.Length && j + n < u.Length && u != v && 0 < v[n - 1]
    modifies u
    ensures v[..n][n - 1] == v[n - 1]
    ensures u[..] == After(form, old(u[..]), v[..n], j)
    ensures q == DivStep(form, Window(old(u[..]), v[..n], j), v[..n]).1
  {
    hide Trial, MulSub, Settle;
    ghost var was, d := u[..], v[..n];
    ghost var w := Window(was, d, j);
    var qp := Trial(u[j + n], u[j + n - 1], u[j + n - 2], v[n - 1], v[n - 2]);
    assert qp == TrialDigit(w, d);
    MulSubIgnoresTop(form, w, d, qp, n);
    assert was[j..j + n] == w[..n];
    var borrow := SubtractProduct(form, u, v, n, j, qp);
    ghost var low := u[j..j + n];
    assert u[j + n] == u[j + n..][0] == w[n];
    q := Finish(u, v, n, j, qp, borrow);
    assert u[..] == u[..j] + u[j..j + n + 1] + u[j + n + 1..];
  }

  /** Steps D5 and D6 on the window of u at j, which holds the difference. */
  method Finish(u: array<Digit>, v: array<Digit>, n: nat, j: nat, qp: nat, borrow: int) returns (q: Digit)
    requires n <= v.Length && j + n < u.Length && u != v
    modifies u
    ensures u[j..j + n + 1] == Settle(old(u[j..j + n]), old(u[j + n]), borrow, v[..n], qp).0
    ensures q == Settle(old(u[j..j + n]), old(u[j + n]), borrow, v[..n], qp).1
    ensures u[..j] == old(u[..j]) && u[j + n + 1..] == old(u[j + n + 1..])
  {
    hide AddBack;
    ghost var low, top := u[j..j + n], u[j + n];
    var isNeg := u[j + n] < borrow;
    u[j + n] := (u[j + n] - borrow % B) % B;
    q := qp % B;
    assert u[j..j + n] == low;
    if isNeg {
      q := (q - 1) % B;
      ghost var rest := u[j + n..];
      var carry := AddDivisor(u, v, n, j);
      assert u[j + n] == u[j + n..][0] == rest[0];
      assert u[j + n + 1..] == rest[1..];
      ghost var back := u[j..j + n];
      u[j + n] := (u[j + n] + Bit(carry)) % B;
      assert u[j..j + n] == back;
    }
    assert u[j..j + n + 1] == u[j..j + n] + [u[j + n]];
  }

  /** The subtraction reads only as many digits as the divisor has. */
  lemma {:induction false} MulSubIgnoresTop(form: Form, w: seq<Digit>, v: seq<Digit>, qp: nat, k: nat)
    requires k <= |v| <= |w|
    ensures MulSub(form, w[..|v|], v, qp, k) == MulSub(form, w, v, qp, k)
  {
    if k > 0 {
      MulSubIgnoresTop(form, w, v, qp, k - 1);
    }
  }

  // ------------------------------------------------------------ normalisation

  /** The shift that normalises a divisor whose top digit is d. */
  function Clz(d: Digit): (z: nat)
    requires 0 < d
    decreases B - d
  {
    if B / 2 <= d then 0 else 1 + Clz(2 * d)
  }

  lemma {:induction false} ClzIsLeadingZeroes(d: Digit, z: nat)
    requires 0 < d
    ensures LeadingZeroes(d, Clz(d))
    ensures LeadingZeroes(d, z) ==> z == Clz(d)
    decreases B - d
  {
    if B / 2 <= d {
      assert Pow(2, 0) == 1;
      if LeadingZeroes(d, z) && 0 < z {
        PowMono(2, 1, z);
        MulMono(d, 2, Pow(2, z));
      }
    } else {
      ClzIsLeadingZeroes(2 * d, if z == 0 then 0 else z - 1);
      var c := Clz(2 * d);
      ShiftOneLess(d, c);
      BelowBase(d, c + 1);
      if LeadingZeroes(d, z) {
        assert 0 < z by { assert Pow(2, 0) == 1; }
        ShiftOneLess(d, z - 1);
      }
    }
  }

  lemma BelowBase(d: nat, z: nat)
    requires 0 < d && d * Pow(2, z) < B
    ensures z < 32
  {
    if 32 <= z {
      PowersOfTwo();
      PowMono(2, 32, z);
      MulMono(Pow(2, z), 1, d);
    }
  }

  lemma ShiftOneLess(d: nat, c: nat)
    ensures d * Pow(2, c + 1) == (2 * d) * Pow(2, c)
  {
    Associate(d, 2, Pow(2, c));
  }

  lemma DigitsOf(x: nat, len: nat) returns (s: seq<Digit>)
    ensures s == ToDigits(x, B, len)
  {
    s := ToDigits(x, B, len);
  }

  /** The dividend and the divisor, shifted so that the divisor's top bit is
      set; the dividend gets one more digit. */
  ghost function NormalDividend(u: seq<Digit>, v: seq<Digit>): (s: seq<Digit>)
    requires 0 < |v| && 0 < v[|v| - 1]
    ensures |s| == |u| + 1
  {
    ToDigits(Val(u, B) * Pow(2, Clz(v[|v| - 1])), B, |u| + 1)
  }

  ghost function NormalDivisor(v: seq<Digit>): (s: seq<Digit>)
    requires 0 < |v| && 0 < v[|v| - 1]
    ensures |s| == |v| && B / 2 <= s[|v| - 1]
  {
    NormalDivisorTop(v);
    ToDigits(Val(v, B) * Pow(2, Clz(v[|v| - 1])), B, |v|)
  }

  lemma NormalDivisorTop(v: seq<Digit>)
    requires 0 < |v| && 0 < v[|v| - 1]
    ensures Val(v, B) * Pow(2, Clz(v[|v| - 1])) < Pow(B, |v|)
    ensures B / 2 <= ToDigits(Val(v, B) * Pow(2, Clz(v[|v| - 1])), B, |v|)[|v| - 1]
  {
    hide Val, Clz, ToDigits;
    var n := |v|;
    NormalRange(v);
    PowPositive(B, n - 1);
    TopOfScaled(Val(v, B) * Pow(2, Clz(v[n - 1])), n, Pow(B, n - 1));
  }

  lemma NormalRange(v: seq<Digit>)
    requires 0 < |v| && 0 < v[|v| - 1]
    ensures (B / 2) * Pow(B, |v| - 1) <= Val(v, B) * Pow(2, Clz(v[|v| - 1])) < B * Pow(B, |v| - 1)
  {
    hide Val, Clz;
    var top, z := v[|v| - 1], Clz(v[|v| - 1]);
    ClzIsLeadingZeroes(top, 0);
    ValTopBound(v, B);
    PowPositive(B, |v| - 1);
    PowPositive(2, z);
    DividesBase(z, top);
    ScaledTop(Val(v, B), top, Pow(2, z), Pow(B, |v| - 1));
  }

  lemma TopOfScaled(x: nat, n: nat, p: nat)
    requires 0 < n && 0 < p == Pow(B, n - 1)
    requires (B / 2) * p <= x < B * p
    ensures B / 2 <= ToDigits(x, B, n)[n - 1]
  {
    var s := DigitsOf(x, n);
    ToDigitsVal(x, B, n);
    ValTopBound(s, B);
    var top: nat := s[n - 1];
    FactorLess(p, B / 2, x, top + 1);
  }

  lemma ScaledTop(x: nat, top: nat, k: nat, p: nat)
    requires 0 < p && 0 < k && top * p <= x < (top + 1) * p
    requires B / 2 <= top * k && (top + 1) * k <= B
    ensures (B / 2) * p <= x * k < B * p
  {
    MulMono(k, top * p, x);
    MulMono(p, B / 2, top * k);
    Associate(top, p, k);
    Associate(top, k, p);
    MulStrict(k, x, (top + 1) * p);
    Associate(top + 1, p, k);
    Associate(top + 1, k, p);
    MulMono(p, (top + 1) * k, B);
  }

  /** A multiple of 2^j below 2^32 leaves room for another 2^j. */
  lemma DividesBase(j: nat, top: nat)
    requires j < 32 && top * Pow(2, j) < B
    ensures (top + 1) * Pow(2, j) <= B
  {
    PowersOfTwo();
    PowSplit(2, j, 32);
    PowPositive(2, j);
    NextMultiple(Pow(2, j), top, Pow(2, 32 - j));
  }

  lemma NextMultiple(p: nat, x: nat, q: nat)
    requires 0 < p && x * p < p * q
    ensures (x + 1) * p <= p * q
  {
    FactorLess(p, x, x * p, q);
    MulMono(p, x + 1, q);
  }

  /** The division as written is clean: every turn over the normalised operands
      is. */
  ghost predicate CleanDivision(u: seq<Digit>, v: seq<Digit>)
    requires 2 <= |v| <= |u| && 0 < v[|v| - 1]
  {
    CleanRun(NormalDividend(u, v), NormalDivisor(v), |u| - |v|)
  }

  /** Shifting both operands does not change the quotient, and shifts the
      remainder. */
  lemma Unscale(x: nat, y: nat, k: nat, q: nat, r: nat)
    requires 0 < y && 0 < k
    requires x * k == q * (y * k) + r && r < y * k
    ensures q == x / y && r / k == x % y
  {
    Associate(q, y, k);
    Distribute(k, x, -(q * y));
    assert r == (x - q * y) * k;
    FactorLess(k, x - q * y, r, y);
    assert 0 <= x - q * y by {
      if x - q * y <= -1 { MulMono(k, x - q * y, -1); }
    }
    DivModUnique(x, y, q, x - q * y);
    DivModUnique(r, k, x - q * y, 0);
  }

  /** The normalised operands are ready for the main loop. */
  lemma NormalReady(u: seq<Digit>, v: seq<Digit>)
    requires 2 <= |v| <= |u| && 0 < v[|v| - 1]
    ensures RunReady(NormalDividend(u, v), NormalDivisor(v), |u| - |v|)
    ensures Val(NormalDividend(u, v), B) == Val(u, B) * Pow(2, Clz(v[|v| - 1]))
    ensures Val(NormalDivisor(v), B) == Val(v, B) * Pow(2, Clz(v[|v| - 1]))
  {
    hide Val, Clz, NormalDividend, NormalDivisor, Pow;
    NormalDivisorValue(v);
    ClzIsLeadingZeroes(v[|v| - 1], 0);
    DividendRange(u, Clz(v[|v| - 1]));
    NormalDividendValue(u, v);
    ReadyToRun(NormalDividend(u, v), NormalDivisor(v), |u| - |v|);
  }

  lemma ReadyToRun(u: seq<Digit>, v: seq<Digit>, j: nat)
    requires 2 <= |v| && j + |v| + 1 == |u| && B / 2 <= v[|v| - 1] && Val(u, B) < (B / 2) * Pow(B, |u| - 1)
    ensures RunReady(u, v, j)
  {
    hide Val, Pow;
    TopBelow(u, v, j, Val(u, B));
  }

  lemma NormalDivisorValue(v: seq<Digit>)
    requires 0 < |v| && 0 < v[|v| - 1]
    ensures Val(NormalDivisor(v), B) == Val(v, B) * Pow(2, Clz(v[|v| - 1]))
  {
    hide Val, Clz, ToDigits, Pow;
    NormalRange(v);
    PowNext(B, |v| - 1);
    var z := Clz(v[|v| - 1]);
    MulMono(Val(v, B), 0, Pow(2, z));
    ToDigitsVal(Val(v, B) * Pow(2, z), B, |v|);
  }

  lemma NormalDividendValue(u: seq<Digit>, v: seq<Digit>)
    requires 0 < |v| && 0 < v[|v| - 1]
    ensures Val(NormalDividend(u, v), B) == Val(u, B) * Pow(2, Clz(v[|v| - 1]))
  {
    hide Val, Clz, ToDigits, Pow;
    var z := Clz(v[|v| - 1]);
    ClzIsLeadingZeroes(v[|v| - 1], 0);
    DividendRange(u, z);
    MulMono(Val(u, B), 0, Pow(2, z));
    ToDigitsVal(Val(u, B) * Pow(2, z), B, |u| + 1);
  }

  lemma DividendRange(u: seq<Digit>, z: nat)
    requires z < 32
    ensures Val(u, B) * Pow(2, z) < Pow(B, |u| + 1)
    ensures Val(u, B) * Pow(2, z) < (B / 2) * Pow(B, |u|)
  {
    hide Val;
    DigitsBound(u);
    PowPositive(2, z);
    PowMono(2, z, 31);
    HalfBase();
    PowPositive(B, |u|);
    MulStrict(Pow(2, z), Val(u, B), Pow(B, |u|));
    MulMono(Pow(B, |u|), Pow(2, z), B / 2);
  }

  /** A dividend below half the base in its top digit is below the divisor
      there. */
  lemma TopBelow(u: seq<Digit>, v: seq<Digit>, j: nat, x: nat)
    requires 0 < |v| && j + |v| + 1 == |u| && Val(u, B) == x
    requires x < (B / 2) * Pow(B, |u| - 1) && B / 2 <= v[|v| - 1]
    ensures Val(u[j + 1..j + |v| + 1], B) < Val(v, B)
  {
    hide Val;
    var top: nat := u[|u| - 1];
    ValTopBound(u, B);
    PowPositive(B, |u| - 1);
    FactorLess(Pow(B, |u| - 1), top, x, B / 2);
    ValTopLess(u[j + 1..j + |v| + 1], v, B);
  }

  lemma CleanIsExact(form: Form, u: seq<Digit>, v: seq<Digit>)
    requires 2 <= |v| <= |u| && 0 < v[|v| - 1]
    requires form.Reduced? || CleanDivision(u, v)
    ensures var run := DivRun(form, NormalDividend(u, v), NormalDivisor(v), |u| - |v|);
            0 < Val(v, B) && 0 < Pow(2, Clz(v[|v| - 1]))
            && Val(run.1, B) == Val(u, B) / Val(v, B)
            && Val(run.0[..|v|], B) / Pow(2, Clz(v[|v| - 1])) == Val(u, B) % Val(v, B)
  {
    hide Val, Clz, DivRun, NormalDividend, NormalDivisor;
    var n, d := NormalDividend(u, v), NormalDivisor(v);
    NormalReady(u, v);
    RunExact(form, n, d, |u| - |v|);
    assert n[..|u| - |v| + |v| + 1] == n;
    ValPositive(v, B);
    PowPositive(2, Clz(v[|v| - 1]));
    var run := DivRun(form, n, d, |u| - |v|);
    Unscale(Val(u, B), Val(v, B), Pow(2, Clz(v[|v| - 1])), Val(run.1, B), Val(run.0[..|v|], B));
  }

  /** A division by a divisor of at most 64 bits is clean as written. */
  lemma TwoDigitDivisionIsClean(u: seq<Digit>, v: seq<Digit>)
    requires 2 == |v| <= |u| && 0 < v[|v| - 1]
    ensures CleanDivision(u, v)
  {
    NormalReady(u, v);
    TwoDigitRunsAreClean(NormalDividend(u, v), NormalDivisor(v), |u| - |v|);
  }

  /** The normalising shifts leave the normalised operands in place. */
  lemma NoShift()
    ensures Pow(2, 0) == 1
  {
  }

  method NormaliseOperands(u: array<Digit>, v: array<Digit>, m: nat, n: nat) returns (shift: nat)
    requires u != v && 2 <= n <= v.Length && m + n < u.Length && v[n - 1] != 0
    modifies u, v
    ensures old(v[..n])[n - 1] == old(v[n - 1])
    ensures shift == Clz(old(v[n - 1])) && shift < 32
    ensures u[..m + n + 1] == NormalDividend(old(u[..m + n]), old(v[..n]))
    ensures v[..n] == NormalDivisor(old(v[..n]))
    ensures u[m + n + 1..] == old(u[m + n + 1..]) && v[n..] == old(v[n..])
  {
    hide Val, Clz, ToDigits;
    ghost var x, y := u[..m + n], v[..n];
    ghost var high := u[m + n..];
    shift := CountlZero32(v[n - 1]);
    ClzIsLeadingZeroes(v[n - 1], shift);
    var vCarry: Digit, uCarry: Digit := 0, 0;
    if shift > 0 {
      uCarry := ShiftDigitsLeft(u, m + n, shift);
      vCarry := ShiftDigitsLeft(v, n, shift);
    } else {
      NoShift();
    }
    assert u[m + n..] == high;
    u[m + n] := uCarry;
    ghost var low := u[..m + n];
    assert u[..m + n + 1] == low + [uCarry];
    assert u[m + n + 1..] == high[1..];
    ValAppend(low, uCarry, B);
    ToDigitsUnique(u[..m + n + 1], B);
    NormalRange(y);
    NoCarry(Val(v[..n], B), vCarry, Pow(B, n), Val(y, B) * Pow(2, shift));
    ToDigitsUnique(v[..n], B);
  }

  lemma NoCarry(low: nat, carry: nat, p: nat, x: nat)
    requires low + carry * p == x < p
    ensures carry == 0 && low == x
  {
    if 1 <= carry { MulMono(p, 1, carry); }
  }

  /** The main loop, from turn m down to turn 0. */
  method MainLoop(form: Form, u: array<Digit>, v: array<Digit>, q: array<Digit>, m: nat, n: nat)
    requires u != v && u != q && v != q
    requires 2 <= n <= v.Length && m + n < u.Length && m < q.Length && v[n - 1] != 0
    modifies u, q
    ensures v[..n][n - 1] == v[n - 1]
    ensures u[..] == DivRun(form, old(u[..]), v[..n], m).0
    ensures q[..m + 1] == DivRun(form, old(u[..]), v[..n], m).1
    ensures q[m + 1..] == old(q[m + 1..])
  {
    hide After, DivStep, Val, Pow;
    ghost var d := v[..n];
    ghost var run := DivRun(form, u[..], d, m);
    var j: int := m;
    assert q[m + 1..m + 1] == [];
    while true
      invariant 0 <= j <= m && v[..n] == d
      invariant DivRun(form, u[..], d, j).0 == run.0
      invariant run.1 == DivRun(form, u[..], d, j).1 + q[j + 1..m + 1]
      invariant q[m + 1..] == old(q[m + 1..])
      decreases j
    {
      ghost var done := q[j + 1..m + 1];
      q[j] := Turn(form, u, v, n, j);
      assert q[j..m + 1] == [q[j]] + done;
      if j == 0 {
        assert q[0..m + 1] == q[..m + 1];
        break;
      }
      j := j - 1;
    }
  }

  /** What the main loop leaves of the normalised operands, and the quotient
      digits. */
  ghost function Divided(form: Form, u: seq<Digit>, v: seq<Digit>): (r: (seq<Digit>, seq<Digit>))
    ensures |v| <= |u| ==> |v| <= |r.0|
  {
    if 2 <= |v| <= |u| && 0 < v[|v| - 1] then DivRun(form, NormalDividend(u, v), NormalDivisor(v), |u| - |v|)
    else (u, [])
  }

  /** The remainder that is left, shifted back. */
  ghost function Rest(form: Form, u: seq<Digit>, v: seq<Digit>): (r: nat)
  {
    if 0 < |v| <= |u| && 0 < v[|v| - 1] then
      PowPositive(2, Clz(v[|v| - 1]));
      Halved(Val(Divided(form, u, v).0[..|v|], B), Pow(2, Clz(v[|v| - 1])))
    else 0
  }

  function Halved(x: nat, p: nat): (r: nat)
    requires 0 < p
    ensures r == x / p
  {
    x / p
  }

  /** u / v into q and, when asked for, u % v into r: m + n digits divided by n
      digits.  On every input the results are those of the turns on digit sequences;
      that is exact for every input when D4 keeps its borrow in 32 bits, and as
      written whenever the division is clean. */
  method KnuthDiv(form: Form, u: array<Digit>, v: array<Digit>, q: array<Digit>, r: array?<Digit>, m: nat, n: nat)
    requires u != v && u != q && v != q && (r != null ==> r != u && r != v && r != q && n <= r.Length)
    requires 2 <= n <= v.Length && m + n < u.Length && m < q.Length && v[n - 1] != 0
    modifies u, v, q, if r != null then {r} else {}
    ensures old(v[..n])[n - 1] == old(v[n - 1])
    ensures 0 < old(Val(v[..n], B))
    ensures q[..m + 1] == Divided(form, old(u[..m + n]), old(v[..n])).1
    ensures r != null ==> Val(r[..n], B) == Rest(form, old(u[..m + n]), old(v[..n]))
    ensures form.Reduced? || CleanDivision(old(u[..m + n]), old(v[..n])) ==>
            Val(q[..m + 1], B) == old(Val(u[..m + n], B)) / old(Val(v[..n], B))
    ensures r != null && (form.Reduced? || CleanDivision(old(u[..m + n]), old(v[..n]))) ==>
            Val(r[..n], B) == old(Val(u[..m + n], B)) % old(Val(v[..n], B))
    ensures q[m + 1..] == old(q[m + 1..])
    ensures r != null ==> r[n..] == old(r[n..])
  {
    hide Val, DivRun, NormalDividend, NormalDivisor, CleanDivision, Clz;
    ghost var x, y := u[..m + n], v[..n];
    ValPositive(y, B);
    var shift := NormaliseOperands(u, v, m, n);
    ghost var us := u[..];
    MainLoop(form, u, v, q, m, n);
    DivRunIgnoresTop(form, us, NormalDividend(x, y), NormalDivisor(y), m);
    if form.Reduced? || CleanDivision(x, y) {
      CleanIsExact(form, x, y);
    }
    if r != null {
      assert u[..n] == DivRun(form, NormalDividend(x, y), NormalDivisor(y), m).0[..n];
      if shift > 0 {
        ShiftDigitsRight(u, r, n, shift);
      } else {
        CopyDown(u, r, n);
        assert Pow(2, 0) == 1;
      }
    }
  }

  method CopyDown(u: array<Digit>, r: array<Digit>, n: nat)
    requires n <= u.Length && n <= r.Length && u != r
    modifies r
    ensures r[..n] == u[..n] && r[n..] == old(r[n..])
  {
    var i := n;
    while i > 0
      invariant 0 <= i <= n
      invariant forall k :: i <= k < n ==> r[k] == u[k]
      invariant r[n..] == old(r[n..])
    {
      i := i - 1;
      r[i] := u[i];
    }
  }

  /** The main loop reads no digit above its first window. */
  lemma AfterIgnoresTop(form: Form, u: seq<Digit>, low: seq<Digit>, v: seq<Digit>, j: nat)
    requires 2 <= |v| && 0 < v[|v| - 1] && j + |v| < |low| <= |u| && u[..|low|] == low
    requires Window(u, v, j) == Window(low, v, j)
    ensures After(form, u, v, j)[..|low|] == After(form, low, v, j)
  {
    hide DivStep;
    var x, y := After(form, u, v, j), After(form, low, v, j);
    forall k | 0 <= k < |low| ensures x[k] == y[k] {
      assert u[k] == u[..|low|][k] == low[k];
    }
  }

  lemma {:induction false} DivRunIgnoresTop(form: Form, u: seq<Digit>, low: seq<Digit>, v: seq<Digit>, j: nat)
    requires 2 <= |v| && 0 < v[|v| - 1] && j + |v| < |low| <= |u| && u[..|low|] == low
    ensures DivRun(form, u, v, j).0[..|low|] == DivRun(form, low, v, j).0
    ensures DivRun(form, u, v, j).1 == DivRun(form, low, v, j).1
    decreases j
  {
    hide DivStep;
    assert Window(u, v, j) == Window(low, v, j) by {
      assert u[..|low|][j..j + |v| + 1] == u[j..j + |v| + 1];
    }
    AfterIgnoresTop(form, u, low, v, j);
    if j > 0 {
      DivRunIgnoresTop(form, After(form, u, v, j), After(form, low, v, j), v, j - 1);
    }
  }
}
