/** Division of multiword numbers: the conversion between 64-bit words and
    32-bit digits, the one-digit divisor, and the choice between the two
    algorithms. */
module BignumDivision {
  import opened Powers
  import opened Digits
  import opened Machine
  import opened DivisionStep
  import opened DivisionRun
  import opened KnuthDivision

  // ----------------------------------------------------- words and digits

  /** The 32-bit digits of a sequence of words, low half first. */
  function U32(words: seq<Word>): (s: seq<Digit>)
    ensures |s| == 2 * |words|
  {
    if |words| == 0 then [] else [words[0] % B, words[0] / B] + U32(words[1..])
  }

  lemma {:induction false} U32Val(words: seq<Word>)
    ensures Val(U32(words), B) == Val(words, W)
  {
    if |words| > 0 {
      U32Val(words[1..]);
      var s := U32(words);
      assert s[1..] == [words[0] / B] + U32(words[1..]) && s[1..][1..] == U32(words[1..]);
    }
  }

  lemma {:induction false} U32Append(words: seq<Word>, w: Word)
    ensures U32(words + [w]) == U32(words) + [w % B, w / B]
  {
    if |words| == 0 {
      assert words + [w] == [w] && [w][1..] == [];
      assert U32([w]) == [w % B, w / B] + U32([]);
    } else {
      assert (words + [w])[1..] == words[1..] + [w];
      U32Append(words[1..], w);
    }
  }

  method ConvertToU32Digits(words: array<Word>, nWords: nat, digits: array<Digit>)
    requires nWords <= words.Length && 2 * nWords <= digits.Length
    modifies digits
    ensures digits[..2 * nWords] == U32(words[..nWords])
    ensures digits[2 * nWords..] == old(digits[2 * nWords..])
  {
    for i := 0 to nWords
      invariant digits[..2 * i] == U32(words[..i])
      invariant digits[2 * nWords..] == old(digits[2 * nWords..])
    {
      ghost var done := digits[..2 * i];
      digits[i * 2] := words[i] % B;
      digits[i * 2 + 1] := words[i] / B;
      assert words[..i + 1] == words[..i] + [words[i]];
      U32Append(words[..i], words[i]);
      assert digits[..2 * i] == done;
      assert digits[..2 * (i + 1)] == done + [words[i] % B, words[i] / B];
    }
  }

  method ConvertFromU32Digits(digits: array<Digit>, nWords: nat, words: array<Word>)
    requires nWords <= words.Length && 2 * nWords <= digits.Length
    modifies words
    ensures U32(words[..nWords]) == digits[..2 * nWords]
    ensures words[nWords..] == old(words[nWords..])
  {
    for i := 0 to nWords
      invariant U32(words[..i]) == digits[..2 * i]
      invariant words[nWords..] == old(words[nWords..])
    {
      ghost var done := words[..i];
      words[i] := digits[i * 2] + digits[i * 2 + 1] * B;
      assert words[i] % B == digits[i * 2] && words[i] / B == digits[i * 2 + 1];
      assert words[..i + 1] == done + [words[i]];
      U32Append(done, words[i]);
      assert digits[..2 * (i + 1)] == digits[..2 * i] + [digits[i * 2], digits[i * 2 + 1]];
    }
  }

  // --------------------------------------------------- a divisor of one digit

  lemma ShortStep(rem: nat, u: Digit, d: nat)
    requires 0 < d < B && rem < d
    ensures 0 <= (rem * B + u) / d < B
    ensures (rem * B + u) % d < d
    ensures rem * B + u == ((rem * B + u) / d) * d + (rem * B + u) % d
  {
    DivModDef(rem * B + u, d);
    QuotientBound(rem * B + u, d, B);
  }

  lemma ShortPlace(x: nat, q: nat, rem: nat, u: nat, d: nat, q0: nat, rem': nat)
    requires x == q * d + rem && rem * B + u == q0 * d + rem'
    ensures u + B * x == (q0 + B * q) * d + rem'
  {
    Distribute(d, q0, B * q);
    Associate(B, q, d);
    Distribute(B, q * d, rem);
  }

  /** The quotient digit and the remainder of one step, with the cases the
      code separates. */
  function ShortDigit(partial: nat, divisor: Digit): (Digit, Digit)
    requires 0 < divisor
  {
    if partial == 0 then (0, 0)
    else if partial < divisor then (0, partial % B)
    else if partial == divisor then (1, 0)
    else
      var q := (partial / divisor) % B;
      (q, (partial - q * divisor) % B)
  }

  lemma ShortDigitIs(rem: nat, u: Digit, d: Digit)
    requires 0 < d && rem < d
    ensures ShortDigit(rem * B + u, d).1 < d
    ensures rem * B + u == ShortDigit(rem * B + u, d).0 * d + ShortDigit(rem * B + u, d).1
  {
    hide ShortDigit;
    var partial := rem * B + u;
    ShortStep(rem, u, d);
    ShortDigitOf(partial, d, partial / d, partial % d);
  }

  lemma ShortDigitOf(partial: nat, d: Digit, q: Digit, r: Digit)
    requires 0 < d && partial == q * d + r && r < d
    ensures ShortDigit(partial, d) == (q, r)
  {
    DivModUnique(partial, d, q, r);
    if q >= 1 {
      MulMono(d, 1, q);
    }
    assert r % B == r && q % B == q;
    assert partial - q * d == r;
  }

  /** Digits m down to 0 of u over one digit. */
  method ShortDiv(u: array<Digit>, divisor: Digit, q: array<Digit>, m: nat) returns (rem: Digit)
    requires u != q && m < u.Length && m < q.Length && 0 < divisor
    modifies q
    ensures Val(q[..m + 1], B) == Val(u[..m + 1], B) / divisor
    ensures rem == Val(u[..m + 1], B) % divisor
    ensures q[m + 1..] == old(q[m + 1..])
  {
    hide ShortDigit;
    rem := 0;
    var i: int := m + 1;
    assert u[m + 1..m + 1] == [] && q[m + 1..m + 1] == [];
    while i > 0
      invariant 0 <= i <= m + 1
      invariant rem < divisor
      invariant Val(u[i..m + 1], B) == Val(q[i..m + 1], B) * divisor + rem
      invariant q[m + 1..] == old(q[m + 1..])
    {
      i := i - 1;
      ghost var done, x := q[i + 1..m + 1], u[i + 1..m + 1];
      var partial: nat := rem * B + u[i];
      var (digit, rem') := ShortDigit(partial, divisor);
      ShortDigitIs(rem, u[i], divisor);
      ShortPlace(Val(x, B), Val(done, B), rem, u[i], divisor, digit, rem');
      q[i] := digit;
      rem := rem';
      assert q[i + 1..m + 1] == done;
      assert q[i..m + 1] == [digit] + done && q[i..m + 1][1..] == done;
      assert u[i..m + 1][1..] == x;
    }
    assert u[0..m + 1] == u[..m + 1] && q[0..m + 1] == q[..m + 1];
    DivModUnique(Val(u[..m + 1], B), divisor, Val(q[..m + 1], B), rem);
  }

  // ---------------------------------------------------------- the two together

  /** Dividing x by y gives the quotient and the remainder: always when D4 keeps
      its borrow in 32 bits; as written for every divisor below 2^64, and for a
      longer one when the division of the digits is clean. */
  ghost predicate DividesRight(form: Form, x: nat, y: nat)
    requires 0 < y <= x
  {
    form.Reduced? || y < W || (MinDigitsLonger(x, y); CleanDivision(MinDigits(x, B), MinDigits(y, B)))
  }

  /** The quotient and the remainder that come out, right or not. */
  ghost function QuotientOf(form: Form, x: nat, y: nat): nat
    requires 0 < y <= x
  {
    MinDigitsLonger(x, y);
    MinDigitsTop(y);
    var u, v := MinDigits(x, B), MinDigits(y, B);
    if |v| < 2 then x / y else Val(Divided(form, u, v).1, B)
  }

  ghost function RemainderOf(form: Form, x: nat, y: nat): nat
    requires 0 < y <= x
  {
    MinDigitsLonger(x, y);
    MinDigitsTop(y);
    var u, v := MinDigits(x, B), MinDigits(y, B);
    if |v| < 2 then x % y else Rest(form, u, v)
  }

  lemma MinDigitsTop(y: nat)
    requires 0 < y
    ensures 0 < |MinDigits(y, B)| && 0 < MinDigits(y, B)[|MinDigits(y, B)| - 1]
  {
  }

  /** They are the quotient and the remainder when the division is right. */
  lemma RightQuotient(form: Form, x: nat, y: nat)
    requires 0 < y <= x && DividesRight(form, x, y)
    ensures QuotientOf(form, x, y) == x / y && RemainderOf(form, x, y) == x % y
  {
    hide MinDigits, CleanDivision, Val, Clz, NormalDividend, NormalDivisor, DivRun;
    MinDigitsLonger(x, y);
    MinDigitsTop(y);
    var u, v := MinDigits(x, B), MinDigits(y, B);
    MinDigitsVal(x, B);
    MinDigitsVal(y, B);
    if 2 <= |v| {
      MinDigitsUnique(u, B);
      RightMeansClean(form, u, v);
      CleanIsExact(form, u, v);
    }
  }

  lemma WordDivisor(form: Form, x: nat, y: nat)
    requires 0 < y <= x && y < W
    ensures DividesRight(form, x, y)
  {
    hide MinDigits, CleanDivision;
  }

  lemma MinDigitsLonger(x: nat, y: nat)
    requires 0 < y <= x
    ensures |MinDigits(y, B)| <= |MinDigits(x, B)|
    ensures W <= y ==> 2 <= |MinDigits(y, B)|
  {
    hide Val, MinDigits;
    MinDigitsVal(x, B);
    MinDigitsVal(y, B);
    var sx, sy := MinDigits(x, B), MinDigits(y, B);
    if |sx| < |sy| {
      LongerIsLarger(sx, sy, B);
    }
    if |sy| < 2 {
      ShortIsSmall(sy);
    }
  }

  lemma ShortIsSmall(s: seq<Digit>)
    requires |s| < 2
    ensures Val(s, B) < W
  {
    if |s| == 1 {
      ValOne(s[0], B);
      assert s == [s[0]];
    }
  }

  /** The number of digits below the leading zeroes. */
  method TrimmedLength(d: array<Digit>, n: nat) returns (len: nat)
    requires n <= d.Length
    ensures len <= n
    ensures d[..len] == MinDigits(Val(d[..n], B), B)
    ensures Val(d[..len], B) == Val(d[..n], B)
  {
    len := n;
    while len > 0 && d[len - 1] == 0
      invariant len <= n
      invariant forall i :: len <= i < n ==> d[i] == 0
    {
      len := len - 1;
    }
    ValTrim(d[..n], len, B);
    assert d[..n][..len] == d[..len];
    MinDigitsUnique(d[..len], B);
  }

  /** Division of digit arrays without leading zeroes, by either algorithm, into
      zeroed results. */
  method DivideDigits(form: Form, u: array<Digit>, v: array<Digit>, q: array<Digit>, r: array?<Digit>, m: nat, n: nat)
    requires u != v && u != q && v != q && (r != null ==> r != u && r != v && r != q && n <= r.Length)
    requires 1 <= n <= v.Length && m + n < u.Length && m < q.Length && v[n - 1] != 0
    requires m + n > 0 ==> u[m + n - 1] != 0
    requires Val(v[..n], B) <= Val(u[..m + n], B)
    requires forall i :: 0 <= i < q.Length ==> q[i] == 0
    requires r != null ==> forall i :: 0 <= i < r.Length ==> r[i] == 0
    modifies u, v, q, if r != null then {r} else {}
    ensures 0 < old(Val(v[..n], B)) <= old(Val(u[..m + n], B))
    ensures Val(q[..], B) == QuotientOf(form, old(Val(u[..m + n], B)), old(Val(v[..n], B)))
    ensures r != null ==> Val(r[..], B) == RemainderOf(form, old(Val(u[..m + n], B)), old(Val(v[..n], B)))
    ensures DividesRight(form, old(Val(u[..m + n], B)), old(Val(v[..n], B))) ==>
            Val(q[..], B) == old(Val(u[..m + n], B)) / old(Val(v[..n], B))
    ensures r != null && DividesRight(form, old(Val(u[..m + n], B)), old(Val(v[..n], B))) ==>
            Val(r[..], B) == old(Val(u[..m + n], B)) % old(Val(v[..n], B))
  {
    hide Val, DividesRight, CleanDivision, MinDigits, Divided, Rest, Clz;
    ghost var us, vs := u[..m + n], v[..n];
    ValPositive(vs, B);
    MinDigitsUnique(us, B);
    MinDigitsUnique(vs, B);
    ghost var qs, rs := q[m + 1..], if r != null then r[n..] else [];
    if n == 1 {
      var rem := ShortDiv(u, v[0], q, m);
      assert vs == [v[0]];
      ValOne(v[0], B);
      if r != null {
        r[0] := rem;
        assert r[..1] == [rem];
        ValOne(rem, B);
        assert r[n..] == rs;
      }
    } else {
      KnuthDiv(form, u, v, q, r, m, n);
      RightMeansClean(form, us, vs);
    }
    ValTrim(q[..], m + 1, B) by {
      forall i | m + 1 <= i < q.Length ensures q[i] == 0 { assert q[i] == q[m + 1..][i - m - 1] == qs[i - m - 1]; }
    }
    assert q[..][..m + 1] == q[..m + 1];
    if r != null {
      forall i | n <= i < r.Length ensures r[i] == 0 { assert r[i] == r[n..][i - n] == rs[i - n]; }
      ValTrim(r[..], n, B);
      assert r[..][..n] == r[..n];
    }
  }

  lemma RightMeansClean(form: Form, u: seq<Digit>, v: seq<Digit>)
    requires 2 <= |v| <= |u| && v[|v| - 1] != 0 && u[|u| - 1] != 0
    requires 0 < Val(v, B) <= Val(u, B)
    ensures DividesRight(form, Val(u, B), Val(v, B)) ==> form.Reduced? || CleanDivision(u, v)
  {
    hide Val, CleanDivision, MinDigits;
    MinDigitsUnique(u, B);
    MinDigitsUnique(v, B);
    if Val(v, B) < W {
      if |v| > 2 {
        ValTopBound(v, B);
        PowMono(B, 2, |v| - 1);
        assert Pow(B, 2) == B * B;
        MulMono(Pow(B, |v| - 1), 1, v[|v| - 1]);
      }
      TwoDigitDivisionIsClean(u, v);
    }
  }

  /** A fresh array of the digits of n words and room for the spill of the main
      loop, and how many of them there are below the leading zeroes. */
  method WordsToDigits(words: array<Word>, n: nat) returns (d: array<Digit>, len: nat)
    requires n <= words.Length
    ensures fresh(d) && len < d.Length == 2 * n + 1
    ensures d[..len] == MinDigits(Val(words[..n], W), B)
    ensures Val(d[..len], B) == Val(words[..n], W)
  {
    hide Val, MinDigits, U32;
    d := new Digit[2 * n + 1];
    ConvertToU32Digits(words, n, d);
    U32Val(words[..n]);
    len := TrimmedLength(d, 2 * n);
  }

  /** Quotient and remainder digits of a / b in fresh arrays. */
  method DivideWords(form: Form, a: array<Word>, aN: nat, b: array<Word>, bN: nat, wantRem: bool)
    returns (ok: bool, q: array<Digit>, r: array?<Digit>)
    requires bN <= aN <= a.Length && bN <= b.Length
    requires Val(b[..bN], W) <= Val(a[..aN], W)
    ensures fresh(q) && q.Length == 2 * aN
    ensures wantRem ==> r != null && fresh(r) && r.Length == 2 * bN
    ensures ok <==> Val(b[..bN], W) != 0
    ensures ok ==> Val(q[..], B) == QuotientOf(form, Val(a[..aN], W), Val(b[..bN], W))
    ensures ok && wantRem ==> Val(r[..], B) == RemainderOf(form, Val(a[..aN], W), Val(b[..bN], W))
    ensures ok && DividesRight(form, Val(a[..aN], W), Val(b[..bN], W)) ==>
            Val(q[..], B) == Val(a[..aN], W) / Val(b[..bN], W)
    ensures ok && wantRem && DividesRight(form, Val(a[..aN], W), Val(b[..bN], W)) ==>
            Val(r[..], B) == Val(a[..aN], W) % Val(b[..bN], W)
  {
    hide Val, MinDigits, DividesRight, QuotientOf, RemainderOf;
    q := new Digit[2 * aN](_ => 0);
    r := null;
    if wantRem {
      r := new Digit[2 * bN](_ => 0);
    }
    var u, total := WordsToDigits(a, aN);
    var v, n := WordsToDigits(b, bN);
    ok := n != 0;
    if ok {
      assert v[..n][n - 1] == v[n - 1];
      if total < n {
        LongerIsLarger(u[..total], v[..n], B);
      }
      assert u[..total][total - 1] == u[total - 1];
      DivideDigits(form, u, v, q, r, total - n, n);
    }
  }

  /** a / b into outQuot and a % b into outRem, where asked for; the operands may
      be the outputs.  Reports a division by zero. */
  method BignumDiv(form: Form, a: array<Word>, aN: nat, b: array<Word>, bN: nat,
                   outQuot: array?<Word>, outRem: array?<Word>) returns (ok: bool)
    requires bN <= aN <= a.Length && bN <= b.Length
    requires outQuot != null ==> aN <= outQuot.Length
    requires outRem != null ==> bN <= outRem.Length
    requires outQuot == null || outQuot != outRem
    requires Val(b[..bN], W) <= Val(a[..aN], W)
    modifies if outQuot != null then {outQuot} else {}, if outRem != null then {outRem} else {}
    ensures ok <==> old(Val(b[..bN], W)) != 0
    ensures !ok && outQuot != null ==> outQuot[..] == old(outQuot[..])
    ensures !ok && outRem != null ==> outRem[..] == old(outRem[..])
    ensures ok && outQuot != null ==> outQuot[aN..] == old(outQuot[aN..])
    ensures ok && outRem != null ==> outRem[bN..] == old(outRem[bN..])
    ensures ok && outQuot != null ==>
            Val(outQuot[..aN], W) == QuotientOf(form, old(Val(a[..aN], W)), old(Val(b[..bN], W)))
    ensures ok && outRem != null ==>
            Val(outRem[..bN], W) == RemainderOf(form, old(Val(a[..aN], W)), old(Val(b[..bN], W)))
    ensures ok && outQuot != null && DividesRight(form, old(Val(a[..aN], W)), old(Val(b[..bN], W))) ==>
            Val(outQuot[..aN], W) == old(Val(a[..aN], W)) / old(Val(b[..bN], W))
    ensures ok && outRem != null && DividesRight(form, old(Val(a[..aN], W)), old(Val(b[..bN], W))) ==>
            Val(outRem[..bN], W) == old(Val(a[..aN], W)) % old(Val(b[..bN], W))
  {
    hide Val, U32, DividesRight, QuotientOf, RemainderOf;
    var q, r;
    ok, q, r := DivideWords(form, a, aN, b, bN, outRem != null);
    if ok {
      assert q[..2 * aN] == q[..];
      if outQuot != null {
        ConvertFromU32Digits(q, aN, outQuot);
        U32Val(outQuot[..aN]);
      }
      if outRem != null {
        assert r[..2 * bN] == r[..];
        ConvertFromU32Digits(r, bN, outRem);
        U32Val(outRem[..bN]);
      }
    }
  }
}
