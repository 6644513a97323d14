/** The carry and borrow loops over arrays of 64-bit words, least significant
    first, and the numbers they compute. */
module WordLoops {
  import opened Powers
  import opened Digits
  import opened Machine

  // --------------------------------------------------------- addition, subtraction

  /** The word and the carry as the code computes them: the sum may have wrapped,
      or be about to wrap because of the carry that came in. */
  function AddWord(x: Word, y: Word, carry: bool): (r: (Word, bool))
    ensures r.0 + W * Bit(r.1) == x + y + Bit(carry)
  {
    var sum := (x + y) % W;
    ((sum + Bit(carry)) % W, sum < x || (carry && sum == W - 1))
  }

  function SubWord(x: Word, y: Word, borrow: bool): (r: (Word, bool))
    ensures r.0 - W * Bit(r.1) == x - y - Bit(borrow)
  {
    var difference := (x - y) % W;
    ((difference - Bit(borrow)) % W, difference > x || (borrow && difference == 0))
  }

  lemma PlaceAdd(d: int, c': int, x: int, y: int, c: int, p: int)
    requires d + W * c' == x + y + c
    ensures d * p + c' * (W * p) == x * p + y * p + c * p
  {
    assert (d + W * c') * p == d * p + c' * (W * p);
    assert (x + y + c) * p == x * p + y * p + c * p;
  }

  lemma PlaceSub(d: int, c': int, x: int, y: int, c: int, p: int)
    requires d - W * c' == x - y - c
    ensures d * p - c' * (W * p) == x * p - y * p - c * p
  {
    assert (d - W * c') * p == d * p - c' * (W * p);
    assert (x - y - c) * p == x * p - y * p - c * p;
  }

  /** a += b over the words of both; b may be a. */
  method AddWords(a: array<Word>, b: array<Word>) returns (carry: bool)
    requires a.Length == b.Length
    modifies a
    ensures Val(a[..], W) + Bit(carry) * Pow(W, a.Length) == old(Val(a[..], W)) + old(Val(b[..], W))
  {
    hide AddWord, Val, Pow;
    ghost var x, y := a[..], b[..];
    carry := false;
    EmptyValues(x, y, W);
    for i := 0 to a.Length
      invariant Val(a[..i], W) + Bit(carry) * Pow(W, i) == Val(x[..i], W) + Val(y[..i], W)
      invariant a[i..] == x[i..] && b[i..] == y[i..]
    {
      assert a[i] == x[i] && b[i] == y[i];
      ghost var done := a[..i];
      var (word, next) := AddWord(a[i], b[i], carry);
      AddStep(done, x, y, i, word, carry, next);
      a[i], carry := word, next;
      assert a[..i + 1] == done + [word];
    }
    assert a[..a.Length] == a[..] && x[..a.Length] == x && y[..a.Length] == y;
  }

  lemma EmptyValues(x: seq<nat>, y: seq<nat>, b: nat)
    ensures Val(x[..0], b) == 0 && Val(y[..0], b) == 0 && Val([], b) == 0
  {
  }

  lemma AddStep(done: seq<Word>, x: seq<Word>, y: seq<Word>, i: nat, word: Word, carry: bool, next: bool)
    requires i < |x| == |y| && |done| == i
    requires Val(done, W) + Bit(carry) * Pow(W, i) == Val(x[..i], W) + Val(y[..i], W)
    requires (word, next) == AddWord(x[i], y[i], carry)
    ensures Val(done + [word], W) + Bit(next) * Pow(W, i + 1) == Val(x[..i + 1], W) + Val(y[..i + 1], W)
  {
    ValAppend(done, word, W);
    ValPrefix(x, i, W);
    ValPrefix(y, i, W);
    PlaceAdd(word, Bit(next), x[i], y[i], Bit(carry), Pow(W, i));
  }

  /** a -= b over the words of both; b may be a. */
  method SubWords(a: array<Word>, b: array<Word>) returns (borrow: bool)
    requires a.Length == b.Length
    modifies a
    ensures Val(a[..], W) - Bit(borrow) * Pow(W, a.Length) == old(Val(a[..], W)) - old(Val(b[..], W))
  {
    hide SubWord, Val, Pow;
    ghost var x, y := a[..], b[..];
    borrow := false;
    EmptyValues(x, y, W);
    for i := 0 to a.Length
      invariant Val(a[..i], W) - Bit(borrow) * Pow(W, i) == Val(x[..i], W) - Val(y[..i], W)
      invariant a[i..] == x[i..] && b[i..] == y[i..]
    {
      assert a[i] == x[i] && b[i] == y[i];
      ghost var done := a[..i];
      var (word, next) := SubWord(a[i], b[i], borrow);
      SubStep(done, x, y, i, word, borrow, next);
      a[i], borrow := word, next;
      assert a[..i + 1] == done + [word];
    }
    assert a[..a.Length] == a[..] && x[..a.Length] == x && y[..a.Length] == y;
  }

  lemma SubStep(done: seq<Word>, x: seq<Word>, y: seq<Word>, i: nat, word: Word, borrow: bool, next: bool)
    requires i < |x| == |y| && |done| == i
    requires Val(done, W) - Bit(borrow) * Pow(W, i) == Val(x[..i], W) - Val(y[..i], W)
    requires (word, next) == SubWord(x[i], y[i], borrow)
    ensures Val(done + [word], W) - Bit(next) * Pow(W, i + 1) == Val(x[..i + 1], W) - Val(y[..i + 1], W)
  {
    ValAppend(done, word, W);
    ValPrefix(x, i, W);
    ValPrefix(y, i, W);
    PlaceSub(word, Bit(next), x[i], y[i], Bit(borrow), Pow(W, i));
  }

  // -------------------------------------------------------- adding one word

  /** The test that carries the one-word addition on: as it should be, on a wrap
      to zero; as written, on the greatest word after the increment. */
  datatype Carrying = WrapsToZero | ReachesMax

  function CarriesOn(how: Carrying, w: Word): bool
  {
    if how.WrapsToZero? then w == 0 else w == W - 1
  }

  /** The carry of the one-word addition above word 0. */
  function Propagate(how: Carrying, s: seq<Word>, carry: bool): (r: seq<Word>)
    ensures |r| == |s|
  {
    if |s| == 0 then [] else
      var w := (s[0] + Bit(carry)) % W;
      [w] + Propagate(how, s[1..], carry && CarriesOn(how, w))
  }

  /** The words after adding b to s. */
  function AddImmediate(how: Carrying, s: seq<Word>, b: Word): (r: seq<Word>)
    requires 0 < |s|
    ensures |r| == |s|
  {
    var w := (s[0] + b) % W;
    [w] + Propagate(how, s[1..], w < b)
  }

  /** When adding b to s comes out right as written: word 0 does not overflow, or
      word 1 takes the carry without reaching the greatest word, or there is no
      word 2 to get wrong. */
  predicate ImmediateRight(how: Carrying, s: seq<Word>, b: Word)
    requires 0 < |s|
  {
    how.WrapsToZero? || |s| <= 2 || s[0] + b < W || s[1] < W - 2
  }

  lemma {:induction false} NothingToPropagate(how: Carrying, s: seq<Word>)
    ensures Propagate(how, s, false) == s
  {
    if |s| > 0 {
      NothingToPropagate(how, s[1..]);
      assert s == [s[0]] + s[1..];
    }
  }

  lemma ValFirst(s: seq<Word>)
    requires 0 < |s|
    ensures Val(s, W) == s[0] + W * Val(s[1..], W)
    ensures 1 < |s| ==> Val(s, W) == s[0] + W * s[1] + W * W * Val(s[2..], W)
  {
    if 1 < |s| {
      assert s[1..][1..] == s[2..];
    }
  }

  /** When the carry behaves, the words hold the sum, or the sum less the range
      of the words. */
  ghost predicate SumUpToWrap(r: seq<Word>, s: seq<Word>, b: nat)
  {
    Val(r, W) == Val(s, W) + b || Val(r, W) + Pow(W, |s|) == Val(s, W) + b
  }

  /** The first word and the others, under a carry. */
  lemma PropagateFirst(s: seq<Word>)
    requires 0 < |s|
    ensures var r := Propagate(WrapsToZero, s, true);
            if s[0] < W - 1 then r[0] == s[0] + 1 && r[1..] == Propagate(WrapsToZero, s[1..], false)
            else r[0] == 0 && r[1..] == Propagate(WrapsToZero, s[1..], true)
  {
    NextWord(s[0]);
    var w := (s[0] + Bit(true)) % W;
    assert Propagate(WrapsToZero, s, true)[1..] == Propagate(WrapsToZero, s[1..], CarriesOn(WrapsToZero, w));
  }

  lemma NextWord(x: Word)
    ensures (x + Bit(true)) % W == if x < W - 1 then x + 1 else 0
  {
    if x < W - 1 { DivModUnique(x + 1, W, 0, x + 1); } else { DivModUnique(W, W, 1, 0); }
  }

  /** A carry that goes on at every wrap adds one. */
  lemma {:induction false} PropagateAddsOne(s: seq<Word>)
    ensures SumUpToWrap(Propagate(WrapsToZero, s, true), s, 1)
  {
    if |s| == 0 {
      assert Val(s, W) == 0 && Pow(W, 0) == 1;
    } else {
      hide Val, Pow, Propagate;
      PropagateFirst(s);
      ValFirst(s);
      ValFirst(Propagate(WrapsToZero, s, true));
      PowNext(W, |s| - 1);
      if s[0] < W - 1 {
        NothingToPropagate(WrapsToZero, s[1..]);
      } else {
        PropagateAddsOne(s[1..]);
      }
    }
  }

  lemma CarryGoesOn(s: seq<Word>, b: Word)
    requires 0 < |s| && W <= s[0] + b
    ensures SumUpToWrap(AddImmediate(WrapsToZero, s, b), s, b)
  {
    hide Val, Pow, Propagate;
    var w: nat := s[0] + b - W;
    PropagateAddsOne(s[1..]);
    PowNext(W, |s| - 1);
    ValFirst(s);
    ValCons(w, Propagate(WrapsToZero, s[1..], true), W);
    assert AddImmediate(WrapsToZero, s, b) == [w] + Propagate(WrapsToZero, s[1..], true);
  }

  lemma ImmediateSum(how: Carrying, s: seq<Word>, b: Word)
    requires 0 < |s| && ImmediateRight(how, s, b)
    ensures SumUpToWrap(AddImmediate(how, s, b), s, b)
  {
    hide Val, Pow, Propagate, AddImmediate, SumUpToWrap;
    if s[0] + b < W {
      NoCarry(how, s, b);
    } else if how.WrapsToZero? {
      CarryGoesOn(s, b);
    } else if |s| == 1 {
      OneWordSum(how, s, b);
    } else {
      CarryIntoWord1(s, b);
    }
  }

  lemma NoCarry(how: Carrying, s: seq<Word>, b: Word)
    requires 0 < |s| && s[0] + b < W
    ensures SumUpToWrap(AddImmediate(how, s, b), s, b)
  {
    hide Val, Pow, Propagate;
    var w: nat := s[0] + b;
    NothingToPropagate(how, s[1..]);
    ValFirst(s);
    ValCons(w, s[1..], W);
    assert AddImmediate(how, s, b) == [w] + s[1..];
  }

  lemma OneWordSum(how: Carrying, s: seq<Word>, b: Word)
    requires |s| == 1 && W <= s[0] + b
    ensures SumUpToWrap(AddImmediate(how, s, b), s, b)
  {
    hide Val;
    var w: nat := s[0] + b - W;
    assert AddImmediate(how, s, b) == [w] && s == [s[0]];
    ValOne(w, W);
    ValOne(s[0], W);
    PowOne(W);
  }

  lemma CarryIntoWord1(s: seq<Word>, b: Word)
    requires 1 < |s| && W <= s[0] + b && ImmediateRight(ReachesMax, s, b)
    ensures SumUpToWrap(AddImmediate(ReachesMax, s, b), s, b)
  {
    var r := AddImmediate(ReachesMax, s, b);
    assert r[0] == s[0] + b - W && r[0] < b;
    assert r[1..] == Propagate(ReachesMax, s[1..], true);
    assert s[1..][1..] == s[2..];
    ValFirst(s);
    ValFirst(r);
    if s[1] + 1 < W {
      if |s| > 2 { NothingToPropagate(ReachesMax, s[2..]); }
      assert r[2..] == s[2..];
    } else {
      assert r[2..] == [] && s[2..] == [];
      assert Pow(W, 2) == W * (W * Pow(W, 0));
    }
  }

  lemma PropagateStep(how: Carrying, done: seq<Word>, s: seq<Word>, carry: bool)
    requires 0 < |s|
    ensures var w := (s[0] + Bit(carry)) % W;
            done + Propagate(how, s, carry) == (done + [w]) + Propagate(how, s[1..], carry && CarriesOn(how, w))
  {
  }

  /** The loop that adds one word. */
  method AddImmediateWords(how: Carrying, a: array<Word>, b: Word)
    requires 0 < a.Length
    modifies a
    ensures a[..] == AddImmediate(how, old(a[..]), b)
  {
    hide Propagate;
    ghost var x := a[..];
    var sum: int := a[0];
    a[0] := (sum + b) % W;
    var carry := a[0] < b;
    ghost var result := [a[0]] + Propagate(how, x[1..], carry);
    for i := 1 to a.Length
      invariant a[..i] + Propagate(how, x[i..], carry) == result
      invariant a[i..] == x[i..]
    {
      assert a[i] == x[i] && x[i..][0] == x[i] && x[i..][1..] == x[i + 1..];
      ghost var done := a[..i];
      PropagateStep(how, done, x[i..], carry);
      var w: int := a[i];
      a[i] := (w + Bit(carry)) % W;
      carry := carry && CarriesOn(how, a[i]);
      assert a[..i + 1] == done + [a[i]];
    }
    assert a[..a.Length] == a[..];
    assert Propagate(how, x[a.Length..], carry) == [];
  }

  /** When the carry misbehaves the result is off by an odd multiple of 2^128:
      word 1 reaches the greatest word and the code carries where nothing
      wrapped, or word 1 wraps and the code drops the carry. */
  lemma ImmediateWrong(s: seq<Word>, b: Word) returns (d: int)
    requires 0 < |s| && !ImmediateRight(ReachesMax, s, b)
    ensures d % 2 == 1
    ensures Val(AddImmediate(ReachesMax, s, b), W) == Val(s, W) + b + (W * W) * d
  {
    var r := AddImmediate(ReachesMax, s, b);
    assert s[1..][1..] == s[2..] && r[1..] == Propagate(ReachesMax, s[1..], true);
    assert r[1..][1..] == r[2..];
    ValFirst(s);
    ValFirst(r);
    if s[1] == W - 2 {
      assert r[1] == W - 1 && r[2..] == Propagate(ReachesMax, s[2..], true);
      d := Val(r[2..], W) - Val(s[2..], W);
      LowBitDiffers(s[2..], r[2..]);
    } else {
      assert r[1] == 0;
      NothingToPropagate(ReachesMax, s[2..]);
      d := -1;
    }
  }

  lemma LowBitDiffers(s: seq<Word>, t: seq<Word>)
    requires 0 < |s| && 0 < |t| && t[0] == (s[0] + 1) % W
    ensures (Val(t, W) - Val(s, W)) % 2 == 1
  {
    hide Val;
    LowBit(s);
    LowBit(t);
  }

  lemma LowBit(s: seq<Word>)
    requires 0 < |s|
    ensures Val(s, W) % 2 == s[0] % 2
  {
    ValFirst(s);
    ModShift(s[0], (W / 2) * Val(s[1..], W), 2);
  }

  // ------------------------------------------------------- complement, one bit

  function Complement(s: seq<Word>): (r: seq<Word>)
    ensures |r| == |s|
  {
    if |s| == 0 then [] else Complement(s[..|s| - 1]) + [W - 1 - s[|s| - 1]]
  }

  lemma {:induction false} ComplementValue(s: seq<Word>)
    ensures Val(Complement(s), W) == Pow(W, |s|) - 1 - Val(s, W)
  {
    if |s| == 0 {
      assert Val(s, W) == 0 && Pow(W, 0) == 1;
    } else {
      hide Val, Pow;
      var k := |s| - 1;
      ComplementValue(s[..k]);
      assert s[..k + 1] == s;
      PowNext(W, k);
      ValPrefix(s, k, W);
      ValAppend(Complement(s[..k]), W - 1 - s[k], W);
      PlaceComplement(s[k], Pow(W, k));
    }
  }

  lemma PlaceComplement(x: int, p: int)
    ensures (W - 1 - x) * p == W * p - p - x * p
  {
  }

  method ComplementWords(a: array<Word>)
    modifies a
    ensures a[..] == Complement(old(a[..]))
  {
    ghost var x := a[..];
    for i := 0 to a.Length
      invariant a[..i] == Complement(x[..i])
      invariant a[i..] == x[i..]
    {
      ghost var done := a[..i];
      assert a[i] == x[i] && x[..i + 1][..i] == x[..i];
      a[i] := W - 1 - a[i];
      assert a[..i + 1] == done + [a[i]];
    }
    assert x[..a.Length] == x && a[..a.Length] == a[..];
  }

  /** Flipping bit j of w: the word, and whether the bit is now high. */
  function FlipBit(w: Word, j: nat): (r: (int, bool))
    requires j < 64
    ensures 0 < Pow(2, j)
    ensures r.0 == w + (if r.1 then Pow(2, j) else 0 - Pow(2, j))
    ensures r.1 <==> (w / Pow(2, j)) % 2 == 0
  {
    PowPositive(2, j);
    if (w / Pow(2, j)) % 2 == 0 then (w + Pow(2, j), true) else (w - Pow(2, j), false)
  }

  lemma FlipInRange(w: Word, j: nat)
    requires j < 64
    ensures 0 <= FlipBit(w, j).0 < W
  {
    PowPositive(2, j);
    PowAdd(2, j, 64 - j);
    TwoToThe64();
    FlipParts(w, Pow(2, j), Pow(2, 63 - j));
  }

  /** An even quotient is at most two below the even bound. */
  lemma FlipParts(w: nat, p: nat, c: nat)
    requires 0 < p && p * (2 * c) == W && w < W
    ensures (w / p) % 2 == 0 ==> w + p < W
    ensures (w / p) % 2 != 0 ==> p <= w
  {
    var h := w / p;
    DivModDef(w, p);
    FactorLess(p, h, w, 2 * c);
    if h % 2 == 0 {
      MulMono(p, h + 2, 2 * c);
      Distribute(p, h + 1, 1);
    } else {
      MulMono(p, 1, h);
    }
  }

  /** A flip of bit j of word i, in the number. */
  lemma FlipValue(s: seq<Word>, i: nat, j: nat)
    requires i < |s| && j < 64
    ensures 0 <= FlipBit(s[i], j).0 < W
    ensures var w: Word, high := FlipBit(s[i], j).0, FlipBit(s[i], j).1;
            Val(s[i := w], W) == Val(s, W) + (if high then Pow(2, 64 * i + j) else 0 - Pow(2, 64 * i + j))
    ensures Pow(2, 64 * i + (j + 1)) == 2 * Pow(2, 64 * i + j)
  {
    FlipInRange(s[i], j);
    var w: Word, high := FlipBit(s[i], j).0, FlipBit(s[i], j).1;
    var p, q := Pow(2, j), Pow(W, i);
    hide FlipBit, Val, Pow;
    ValUpdate(s, i, w, W);
    PlaceOfBit(i, j);
    SignedPlace(p, q, high);
  }

  lemma PlaceOfBit(i: nat, j: nat)
    ensures Pow(2, 64 * i + j) == Pow(2, j) * Pow(W, i)
    ensures Pow(2, 64 * i + (j + 1)) == 2 * Pow(2, 64 * i + j)
  {
    TwoToThe64();
    PowPow(2, 64, i);
    PowAdd(2, 64 * i, j);
    assert Pow(2, 64 * i + (j + 1)) == 2 * Pow(2, 64 * i + j);
  }

  lemma SignedPlace(p: int, q: int, high: bool)
    ensures (if high then p else 0 - p) * q == if high then p * q else 0 - p * q
  {
  }

  /** Adding 2^bit by flipping bits until one comes out high. */
  method IncBitWords(a: array<Word>, bit: nat) returns (found: bool)
    requires bit < 64 * a.Length
    modifies a
    ensures Val(a[..], W) + (if found then 0 else Pow(W, a.Length)) == old(Val(a[..], W)) + Pow(2, bit)
  {
    hide Val, FlipBit, Pow;
    var startWord := bit / 64;
    ghost var total := Val(a[..], W) + Pow(2, bit);
    var i := startWord;
    while i < a.Length
      invariant startWord <= i <= a.Length
      invariant Val(a[..], W) + Pow(2, if i == startWord then bit else 64 * i) == total
    {
      var startBit := if i == startWord then bit - startWord * 64 else 0;
      var j := startBit;
      while j < 64
        invariant startBit <= j <= 64
        invariant Val(a[..], W) + Pow(2, 64 * i + j) == total
      {
        ghost var s := a[..];
        FlipValue(s, i, j);
        var word: Word, high := FlipBit(a[i], j).0, FlipBit(a[i], j).1;
        a[i] := word;
        assert a[..] == s[i := word];
        if high {
          return true;
        }
        j := j + 1;
      }
      assert 64 * i + 64 == 64 * (i + 1);
      i := i + 1;
    }
    TwoToThe64();
    PowPow(2, 64, a.Length);
    return false;
  }
}
