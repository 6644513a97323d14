/** Unsigned division, remainder and comparison of arbitrary-width integers. */
module ApIntDivision {
  import opened Powers
  import opened Digits
  import opened Machine
  import opened ApInts
  import opened DivisionStep
  import opened BignumDivision

  // ------------------------------------------------------ significant bits

  /** n is the number of bits of x. */
  ghost predicate HasBits(x: nat, n: nat)
  {
    0 < n && Pow(2, n - 1) <= x < Pow(2, n)
  }

  /** One for zero, otherwise the number of bits of the word. */
  method SigBitsWord(word: Word) returns (n: nat)
    ensures word == 0 ==> n == 1
    ensures word != 0 ==> HasBits(word, n)
  {
    var w: nat := word;
    var r: nat := 0;
    assert Pow(2, 0) == 1;
    while w / 2 != 0
      invariant word == 0 ==> r == 0 && w == 0
      invariant word != 0 ==> 0 < w && w * Pow(2, r) <= word < (w + 1) * Pow(2, r)
      decreases w
    {
      HalfOf(word, w, r);
      w := w / 2;
      r := r + 1;
    }
    n := r + 1;
    if word != 0 {
      assert w == 1;
    }
  }

  lemma HalfOf(word: nat, w: nat, r: nat)
    requires 0 < w && w * Pow(2, r) <= word < (w + 1) * Pow(2, r)
    ensures (w / 2) * Pow(2, r + 1) <= word < (w / 2 + 1) * Pow(2, r + 1)
  {
    var p := Pow(2, r);
    assert Pow(2, r + 1) == 2 * p;
    MulMono(p, 2 * (w / 2), w);
    MulMono(p, w + 1, 2 * (w / 2) + 2);
  }

  /** The number of significant bits; zero has none in a multiword number and one
      in a single word. */
  method SigBits(a: ApInt) returns (n: nat)
    requires a.Valid()
    ensures a.Value() == 0 ==> n == if a.bits > WordBitCount then 0 else 1
    ensures a.Value() != 0 ==> HasBits(a.Value(), n)
  {
    hide Val, Pow, HasBits;
    if a.bits <= WordBitCount {
      OneWordIs(a.words, a.words[0]);
      n := SigBitsWord(a.words[0]);
      return;
    }
    var i: int := a.words.Length - 1;
    while i >= 0
      invariant -1 <= i < a.words.Length
      invariant forall k :: i < k < a.words.Length ==> a.words[k] == 0
      decreases i
    {
      if a.words[i] != 0 {
        var m := SigBitsWord(a.words[i]);
        ValTrim(a.words[..], i + 1, W);
        BitsOfTop(a.words[..][..i + 1], m);
        return m + i * 64;
      }
      i := i - 1;
    }
    ValZeroes(a.words[..], W);
    n := 0;
  }

  lemma BitsOfTop(s: seq<Word>, m: nat)
    requires 0 < |s| && HasBits(s[|s| - 1], m)
    ensures HasBits(Val(s, W), m + (|s| - 1) * 64) && 0 < Val(s, W)
  {
    var k, top := |s| - 1, s[|s| - 1];
    TwoToThe64();
    PowPow(2, 64, k);
    PowAdd(2, m, k * 64);
    PowAdd(2, m - 1, k * 64);
    assert AllDigits(s, W);
    ValTopBound(s, W);
    PowPositive(W, k);
    ScaleTop(Val(s, W), top, Pow(W, k), Pow(2, m - 1), Pow(2, m));
    PowPositive(2, m + k * 64 - 1);
  }

  lemma ScaleTop(x: nat, top: nat, p: nat, lo: nat, hi: nat)
    requires top * p <= x < (top + 1) * p && lo <= top < hi
    ensures lo * p <= x < hi * p
  {
    MulMono(p, lo, top);
    MulMono(p, top + 1, hi);
  }

  // ------------------------------------------------------------ comparison

  /** Compares numbers of one width, from the top word down. */
  method UnsignedCmp(a: ApInt, b: ApInt) returns (c: int)
    requires a.Valid() && b.Valid() && a.bits == b.bits
    ensures c == if a.Value() < b.Value() then -1 else if a.Value() == b.Value() then 0 else 1
  {
    hide Val, Pow;
    ghost var x, y := a.words[..], b.words[..];
    var i: int := a.words.Length;
    while i > 0
      invariant 0 <= i <= |x| == |y|
      invariant x[i..] == y[i..]
    {
      i := i - 1;
      if a.words[i] != b.words[i] {
        TopDifference(x, y, i);
        TopDifference(y, x, i);
        return if a.words[i] > b.words[i] then 1 else -1;
      }
      assert x[i..] == [x[i]] + x[i + 1..] && y[i..] == [y[i]] + y[i + 1..];
    }
    assert x[0..] == x && y[0..] == y;
    c := 0;
  }

  lemma TopDifference(x: seq<Word>, y: seq<Word>, i: nat)
    requires i < |x| == |y| && x[i + 1..] == y[i + 1..]
    ensures x[i] < y[i] ==> Val(x, W) < Val(y, W)
  {
    if x[i] < y[i] {
      ValTopLess(x[..i + 1], y[..i + 1], W);
      ValSplit(x, i + 1, W);
      ValSplit(y, i + 1, W);
    }
  }

  // -------------------------------------------------------------- division

  /** The words that hold a number's significant bits hold the number. */
  lemma NoWords(s: seq<Word>)
    ensures Val(s[..0], W) == 0
  {
  }

  lemma SignificantWords(s: seq<Word>, n: nat)
    requires Val(s, W) != 0 ==> HasBits(Val(s, W), n)
    requires Val(s, W) == 0 ==> n == 0
    requires NWords(n) <= |s|
    ensures Val(s[..NWords(n)], W) == Val(s, W)
  {
    hide Val, Pow;
    var k := NWords(n);
    ValSplit(s, k, W);
    if n == 0 {
      NoWords(s);
    } else {
      PowWords(n);
      HighZero(Val(s[..k], W), Pow(W, k), Val(s[k..], W), Pow(2, n));
    }
  }

  lemma HighZero(low: nat, p: nat, high: nat, bound: nat)
    requires low + p * high < bound <= p
    ensures high == 0
  {
    if 1 <= high { MulMono(p, 1, high); }
  }

  /** No more words than the width has. */
  lemma FewWords(s: seq<Word>, bits: nat, n: nat)
    requires Canonical(s, bits)
    requires Val(s, W) != 0 ==> HasBits(Val(s, W), n)
    requires Val(s, W) == 0 ==> n == 0
    ensures NWords(n) <= |s| && n <= bits
  {
    hide Val, Pow;
    CanonicalBound(s, bits);
    if n > bits {
      PowMono(2, bits, n - 1);
    }
  }

  lemma MoreBitsMoreWords(x: nat, m: nat, y: nat, n: nat)
    requires y <= x && (x != 0 ==> HasBits(x, m)) && (y != 0 ==> HasBits(y, n)) && (y == 0 ==> n == 0)
    ensures NWords(n) <= NWords(m)
  {
    if y != 0 && m < n {
      PowMono(2, m, n - 1);
    }
  }

  lemma SmallIsCanonical(s: seq<Word>, bits: nat)
    requires 0 < bits && |s| == NWords(bits) && Val(s, W) < Pow(2, bits)
    ensures Canonical(s, bits)
  {
    hide Val, Pow;
    PowWords(bits);
    assert AllDigits(s, W);
    ValTopBound(s, W);
    PowPositive(W, |s| - 1);
    FactorLess(Pow(W, |s| - 1), s[|s| - 1], Val(s, W), Pow(2, LastBits(bits)));
  }

  lemma OneBit(x: nat)
    requires HasBits(x, 1)
    ensures x == 1
  {
    assert Pow(2, 0) == 1 && Pow(2, 1) == 2 * Pow(2, 0);
  }

  /** Dividing the one is right whenever there is something to divide. */
  ghost predicate Right(form: Form, x: nat, y: nat)
    requires 0 < y
  {
    y <= x ==> DividesRight(form, x, y)
  }

  /** What comes out, right or not. */
  ghost function Quot(form: Form, x: nat, y: nat): nat
    requires 0 < y
  {
    if x < y then 0 else if x == y then 1 else QuotientOf(form, x, y)
  }

  ghost function Remd(form: Form, x: nat, y: nat): nat
    requires 0 < y
  {
    if x < y then x else if x == y then 0 else RemainderOf(form, x, y)
  }

  lemma QuotRight(form: Form, x: nat, y: nat)
    requires 0 < y && Right(form, x, y)
    ensures Quot(form, x, y) == x / y && Remd(form, x, y) == x % y
  {
    hide DividesRight, QuotientOf, RemainderOf;
    if x < y {
      DivModUnique(x, y, 0, x);
    } else if x == y {
      DivModUnique(x, y, 1, 0);
    } else {
      RightQuotient(form, x, y);
    }
  }

  lemma QuotOfWord(form: Form, x: nat, y: nat)
    requires 0 < y < W
    ensures Right(form, x, y) && Quot(form, x, y) == x / y && Remd(form, x, y) == x % y
  {
    hide DividesRight, QuotientOf, RemainderOf;
    if y <= x { WordDivisor(form, x, y); }
    QuotRight(form, x, y);
  }

  method OneWordResult(bits: nat, w: Word) returns (r: ApInt)
    requires 0 < bits && w < Pow(2, bits)
    ensures fresh(r) && fresh(r.words) && r.Sized() && r.Valid() && r.bits == bits && r.Value() == w
  {
    r := new ApInt.Zero(bits);
    r.words[0] := w;
    ValTrim(r.words[..], 1, W);
    ValOne(w, W);
    assert r.words[..][..1] == [w];
    SmallIsCanonical(r.words[..], bits);
  }

  lemma FloorBounds(x: nat, y: nat)
    requires 0 < y
    ensures 0 <= x / y <= x && 0 <= x % y < y && x % y <= x
    ensures x < y ==> x / y == 0 && x % y == x
  {
    DivModDef(x, y);
    QuotientAtMost(x, y);
    MulMono(y, 0, x / y);
    if x < y { DivModUnique(x, y, 0, x); }
  }

  /** The quotient of the words that matter, in a number of the full width. */
  method WordQuotient(form: Form, a: ApInt, aWords: nat, b: ApInt, bWords: nat) returns (q: ApInt)
    requires a.Valid() && b.Valid() && a.bits == b.bits
    requires bWords <= aWords <= a.words.Length
    requires Val(a.words[..aWords], W) == a.Value() && Val(b.words[..bWords], W) == b.Value()
    requires 0 < b.Value() <= a.Value()
    ensures fresh(q) && fresh(q.words) && q.bits == a.bits && q.Sized()
    ensures q.Value() == QuotientOf(form, a.Value(), b.Value())
    ensures DividesRight(form, a.Value(), b.Value()) ==> q.Valid() && q.Value() == a.Value() / b.Value()
  {
    hide Val, DividesRight, Pow, QuotientOf;
    q := new ApInt.Zero(a.bits);
    ghost var zeroes := q.words[aWords..];
    var ok := BignumDiv(form, a.words, aWords, b.words, bWords, q.words, null);
    HighWordsZero(q.words[..], aWords);
    if DividesRight(form, a.Value(), b.Value()) {
      FloorBounds(a.Value(), b.Value());
      CanonicalBound(a.words[..], a.bits);
      SmallIsCanonical(q.words[..], a.bits);
    }
  }

  lemma HighWordsZero(s: seq<Word>, k: nat)
    requires k <= |s| && forall i :: 0 <= i < |s[k..]| ==> s[k..][i] == 0
    ensures Val(s, W) == Val(s[..k], W)
  {
    ValSplit(s, k, W);
    ValZeroes(s[k..], W);
  }

  /** The remainder of the words that matter, in a number of the full width. */
  method WordRemainder(form: Form, a: ApInt, aWords: nat, b: ApInt, bWords: nat) returns (r: ApInt)
    requires a.Valid() && b.Valid() && a.bits == b.bits
    requires bWords <= aWords <= a.words.Length
    requires Val(a.words[..aWords], W) == a.Value() && Val(b.words[..bWords], W) == b.Value()
    requires 0 < b.Value() <= a.Value()
    ensures fresh(r) && fresh(r.words) && r.bits == a.bits && r.Sized()
    ensures r.Value() == RemainderOf(form, a.Value(), b.Value())
    ensures DividesRight(form, a.Value(), b.Value()) ==> r.Valid() && r.Value() == a.Value() % b.Value()
  {
    hide Val, DividesRight, Pow, RemainderOf;
    r := new ApInt.Zero(a.bits);
    ghost var zeroes := r.words[bWords..];
    var ok := BignumDiv(form, a.words, aWords, b.words, bWords, null, r.words);
    HighWordsZero(r.words[..], bWords);
    if DividesRight(form, a.Value(), b.Value()) {
      FloorBounds(a.Value(), b.Value());
      CanonicalBound(a.words[..], a.bits);
      SmallIsCanonical(r.words[..], a.bits);
    }
  }

  /** The significant bits of a multiword number, and the words they take. */
  method SigWords(a: ApInt) returns (bits: nat, n: nat)
    requires a.Valid() && a.bits > WordBitCount
    ensures n <= a.words.Length && Val(a.words[..n], W) == a.Value()
    ensures bits == 0 <==> a.Value() == 0
    ensures n == 0 <==> a.Value() == 0
    ensures a.Value() != 0 ==> HasBits(a.Value(), bits)
    ensures IsSigWords(a.Value(), n)
  {
    hide Val;
    bits := SigBits(a);
    FewWords(a.words[..], a.bits, bits);
    SignificantWords(a.words[..], bits);
    n := NWords(bits);
  }

  /** n words are just enough for x. */
  ghost predicate IsSigWords(x: nat, n: nat)
  {
    exists m: nat :: n == NWords(m) && (if x == 0 then m == 0 else HasBits(x, m))
  }

  lemma MoreNeedsMoreWords(x: nat, m: nat, y: nat, n: nat)
    requires y <= x && IsSigWords(x, m) && IsSigWords(y, n)
    ensures n <= m
  {
    var mb: nat :| m == NWords(mb) && (if x == 0 then mb == 0 else HasBits(x, mb));
    var nb: nat :| n == NWords(nb) && (if y == 0 then nb == 0 else HasBits(y, nb));
    if y > 0 {
      MoreBitsMoreWords(x, mb, y, nb);
    }
  }

  /** Unsigned division; reports a zero divisor. */
  method UDiv(form: Form, a: ApInt, b: ApInt) returns (ok: bool, q: ApInt?)
    requires a.Valid() && b.Valid() && a.bits == b.bits
    ensures ok <==> b.Value() != 0
    ensures ok ==> q != null && fresh(q) && fresh(q.words) && q.bits == a.bits && q.Sized()
    ensures ok ==> q.Value() == Quot(form, a.Value(), b.Value())
    ensures ok && Right(form, a.Value(), b.Value()) ==> q.Valid() && q.Value() == a.Value() / b.Value()
  {
    hide Val, DividesRight, Pow, Canonical, IsSigWords, QuotientOf, Remd;
    q := null;
    if 0 < b.Value() < W { QuotOfWord(form, a.Value(), b.Value()); }
    CanonicalBound(a.words[..], a.bits);
    if a.bits <= WordBitCount {
      SingleWord(a);
      SingleWord(b);
      ok := b.words[0] != 0;
      if ok {
        FloorBounds(a.Value(), b.Value());
        q := OneWordResult(a.bits, a.words[0] / b.words[0]);
      }
      return;
    }
    var aBits, aWords := SigWords(a);
    var bBits, bWords := SigWords(b);
    ok := bBits != 0;
    if !ok { return; }
    FloorBounds(a.Value(), b.Value());
    if aWords == 0 {
      q := new ApInt.Zero(a.bits);
    } else if bBits == 1 {
      OneBit(b.Value());
      q := a.Copy();
    } else {
      var cmp := UnsignedCmp(a, b);
      if aWords < bWords || cmp < 0 {
        if cmp >= 0 { MoreNeedsMoreWords(a.Value(), aWords, b.Value(), bWords); }
        q := new ApInt.Zero(a.bits);
      } else if cmp == 0 {
        DivModUnique(a.Value(), b.Value(), 1, 0);
        OneFits(a.bits);
        q := OneWordResult(a.bits, 1);
      } else if aWords == 1 {
        MoreNeedsMoreWords(a.Value(), aWords, b.Value(), bWords);
        FirstWord(a);
        FirstWord(b);
        q := OneWordResult(a.bits, a.words[0] / b.words[0]);
      } else {
        q := WordQuotient(form, a, aWords, b, bWords);
      }
    }
  }

  /** Unsigned remainder; reports a zero divisor. */
  method URem(form: Form, a: ApInt, b: ApInt) returns (ok: bool, r: ApInt?)
    requires a.Valid() && b.Valid() && a.bits == b.bits
    ensures ok <==> b.Value() != 0
    ensures ok ==> r != null && fresh(r) && fresh(r.words) && r.bits == a.bits && r.Sized()
    ensures ok ==> r.Value() == Remd(form, a.Value(), b.Value())
    ensures ok && Right(form, a.Value(), b.Value()) ==> r.Valid() && r.Value() == a.Value() % b.Value()
  {
    hide Val, DividesRight, Pow, Canonical, IsSigWords, RemainderOf, Quot;
    r := null;
    if 0 < b.Value() < W { QuotOfWord(form, a.Value(), b.Value()); }
    CanonicalBound(a.words[..], a.bits);
    if a.bits <= WordBitCount {
      SingleWord(a);
      SingleWord(b);
      ok := b.words[0] != 0;
      if ok {
        FloorBounds(a.Value(), b.Value());
        r := OneWordResult(a.bits, a.words[0] % b.words[0]);
      }
      return;
    }
    var aBits, aWords := SigWords(a);
    var bBits, bWords := SigWords(b);
    ok := bBits != 0;
    if !ok { return; }
    FloorBounds(a.Value(), b.Value());
    if aWords == 0 {
      r := new ApInt.Zero(a.bits);
    } else if bBits == 1 {
      OneBit(b.Value());
      r := new ApInt.Zero(a.bits);
    } else {
      var cmp := UnsignedCmp(a, b);
      if aWords < bWords || cmp < 0 {
        if cmp >= 0 { MoreNeedsMoreWords(a.Value(), aWords, b.Value(), bWords); }
        r := a.Copy();
      } else if cmp == 0 {
        DivModUnique(a.Value(), b.Value(), 1, 0);
        r := new ApInt.Zero(a.bits);
      } else if aWords == 1 {
        MoreNeedsMoreWords(a.Value(), aWords, b.Value(), bWords);
        FirstWord(a);
        FirstWord(b);
        r := OneWordResult(a.bits, a.words[0] % b.words[0]);
      } else {
        r := WordRemainder(form, a, aWords, b, bWords);
      }
    }
  }

  lemma SingleWord(a: ApInt)
    requires a.Valid() && a.bits <= WordBitCount
    ensures 0 < a.bits && a.words.Length == 1 && a.Value() == a.words[0]
  {
    OneWordIs(a.words, a.words[0]);
  }

  lemma OneFits(bits: nat)
    requires 0 < bits
    ensures 1 < Pow(2, bits)
  {
    PowStrict(2, 0, bits);
  }

  /** A number of one significant word is its word 0. */
  lemma FirstWord(a: ApInt)
    requires a.Valid()
    requires a.words.Length >= 1 && Val(a.words[..1], W) == a.Value()
    ensures a.Value() == a.words[0]
  {
    assert a.words[..1] == [a.words[0]];
    ValOne(a.words[0], W);
  }

  /** Quotient and remainder at once, into numbers that may be the operands.
      Only the words that matter are written: qWords of the quotient and rWords
      of the remainder.  Zero divided by zero is zero in a multiword number. */
  method UDivRem(form: Form, a: ApInt, b: ApInt, outQuot: ApInt, outRem: ApInt)
    returns (ok: bool, ghost qWords: nat, ghost rWords: nat)
    requires a.Valid() && b.Valid() && outQuot.Valid() && outRem.Valid()
    requires a.bits == b.bits == outQuot.bits == outRem.bits
    requires outQuot.words != outRem.words && outRem.words != a.words && outRem.words != b.words
    requires outQuot.words != b.words
    requires outQuot.words == a.words ==> b.Value() <= a.Value()
    modifies outQuot.words, outRem.words
    ensures ok <==> old(b.Value()) != 0 || (a.bits > WordBitCount && old(a.Value()) == 0)
    ensures ok ==> qWords <= outQuot.words.Length && rWords <= outRem.words.Length
    ensures ok ==> outQuot.words[qWords..] == old(outQuot.words[qWords..])
    ensures ok ==> outRem.words[rWords..] == old(outRem.words[rWords..])
    ensures ok && old(b.Value()) != 0 && Right(form, old(a.Value()), old(b.Value())) ==>
            Val(outQuot.words[..qWords], W) == old(a.Value()) / old(b.Value())
            && Val(outRem.words[..rWords], W) == old(a.Value()) % old(b.Value())
    ensures ok ==> old(Val(a.words[..qWords], W)) == old(a.Value())
    ensures ok && old(b.Value()) != 0 ==> 0 < rWords
  {
    hide Val, DividesRight, Pow, Canonical, IsSigWords, QuotientOf, RemainderOf, Quot, Remd;
    qWords, rWords := 0, 0;
    SameLengths(a, b, outQuot, outRem);
    CanonicalBound(a.words[..], a.bits);
    ghost var x, y, n := a.Value(), b.Value(), a.words.Length;
    ghost var was := a.words[..];
    assert was[..n] == was;
    if y != 0 { FloorBounds(x, y); }
    if a.bits <= WordBitCount {
      SingleWord(a);
      SingleWord(b);
      ok := b.words[0] != 0;
      if ok {
        var q, r := a.words[0] / b.words[0], a.words[0] % b.words[0];
        outQuot.words[0] := q;
        outRem.words[0] := r;
        qWords, rWords := 1, 1;
        FirstWords(outQuot.words, q);
        FirstWords(outRem.words, r);
      }
      return;
    }
    var aBits, aWords := SigWords(a);
    var bBits, bWords := SigWords(b);
    ok := true;
    var done := DegenerateDivRem(a, aWords, b, bBits, bWords, outQuot, outRem);
    if done {
      qWords, rWords := n, n;
      assert outQuot.words[n..] == [] && outRem.words[n..] == [];
      assert outQuot.words[..n] == outQuot.words[..] && outRem.words[..n] == outRem.words[..];
    } else {
      qWords, rWords := aWords, bWords;
      ok := BignumDiv(form, a.words, aWords, b.words, bWords, outQuot.words, outRem.words);
    }
  }

  /** The cases that need no division; writes whole numbers. */
  method DegenerateDivRem(a: ApInt, aWords: nat, b: ApInt, bBits: nat, bWords: nat, outQuot: ApInt, outRem: ApInt)
    returns (done: bool)
    requires a.Valid() && b.Valid() && outQuot.Valid() && outRem.Valid()
    requires a.bits == b.bits == outQuot.bits == outRem.bits
    requires outQuot.words != outRem.words && outRem.words != a.words && outRem.words != b.words
    requires outQuot.words != b.words
    requires outQuot.words == a.words ==> b.Value() <= a.Value()
    requires IsSigWords(a.Value(), aWords) && IsSigWords(b.Value(), bWords)
    requires aWords == 0 <==> a.Value() == 0
    requires b.Value() != 0 ==> HasBits(b.Value(), bBits)
    requires bBits == 0 <==> b.Value() == 0
    modifies outQuot.words, outRem.words
    ensures done && old(b.Value()) != 0 ==>
            outQuot.Value() == old(a.Value()) / old(b.Value()) && outRem.Value() == old(a.Value()) % old(b.Value())
    ensures !done ==> outQuot.words[..] == old(outQuot.words[..]) && outRem.words[..] == old(outRem.words[..])
    ensures !done ==> bWords <= aWords && old(b.Value()) < old(a.Value())
    ensures done && old(b.Value()) == 0 ==> old(a.Value()) == 0
  {
    hide Val, Pow, Canonical, IsSigWords;
    ghost var x, y := a.Value(), b.Value();
    if y != 0 { FloorBounds(x, y); }
    SameLengths(a, b, outQuot, outRem);
    OneFits(a.bits);
    done := true;
    if aWords == 0 {
      outQuot.AssignUimm(0);
      outRem.AssignUimm(0);
    } else if bBits == 1 {
      OneBit(y);
      outQuot.Assign(a);
      outRem.AssignUimm(0);
    } else {
      var cmp := UnsignedCmp(a, b);
      if aWords < bWords || cmp < 0 {
        if cmp >= 0 { MoreNeedsMoreWords(x, aWords, y, bWords); }
        outQuot.AssignUimm(0);
        outRem.Assign(a);
      } else if cmp == 0 {
        DivModUnique(x, y, 1, 0);
        outQuot.AssignUimm(1);
        outRem.AssignUimm(0);
      } else {
        done := false;
      }
    }
  }

  lemma SameLengths(a: ApInt, b: ApInt, c: ApInt, d: ApInt)
    requires a.Valid() && b.Valid() && c.Valid() && d.Valid()
    requires a.bits == b.bits == c.bits == d.bits
    ensures a.words.Length == b.words.Length == c.words.Length == d.words.Length
    ensures 0 < a.bits && 0 < a.words.Length
  {
  }

  lemma FirstWords(a: array<Word>, w: nat)
    requires 1 <= a.Length && a[0] == w
    ensures Val(a[..1], W) == w
  {
    assert a[..1] == [w];
    ValOne(w, W);
  }
}
