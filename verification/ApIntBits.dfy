/** Single bits of an integer, changes of width, and the trailing-zero count. */
module ApIntBits {
  import opened Powers
  import opened Digits
  import opened Machine
  import opened WordShifts
  import opened ApInts
  import opened ApIntDivision

  predicate BitOf(x: nat, n: nat)
  {
    PowPositive(2, n);
    (x / Pow(2, n)) % 2 == 1
  }

  // ------------------------------------------------------------- single bits

  method GetBit(a: ApInt, n: nat) returns (r: bool)
    requires a.Valid() && n < a.bits
    ensures r <==> BitOf(a.Value(), n)
  {
    hide Val, Pow;
    var idx := NWords(n + 1) - 1;
    var inWord := n - idx * WordBitCount;
    PowPositive(2, inWord);
    r := (a.words[idx] / Pow(2, inWord)) % 2 == 1;
    BitOfWord(a.words[..], idx, inWord);
  }

  /** Bit 64 k + r of a number is bit r of its word k. */
  lemma BitOfWord(s: seq<Word>, k: nat, r: nat)
    requires k < |s| && r < 64
    ensures 0 < Pow(2, r)
    ensures BitOf(Val(s, W), 64 * k + r) <==> (s[k] / Pow(2, r)) % 2 == 1
  {
    hide Val, Pow;
    WordBits(r);
    TwoToThe64();
    PowPow(2, 64, k);
    PowAdd(2, 64 * k, r);
    PowPositive(W, k);
    AllWords(s);
    ValDivMod(s, k, W);
    DivDiv(Val(s, W), Pow(W, k), Pow(2, r));
    assert s[k..] == [s[k]] + s[k + 1..];
    ValCons(s[k], s[k + 1..], W);
    var v := Val(s[k + 1..], W);
    EvenHigh(s[k], Pow(2, r), Pow(2, 63 - r), v) by { PowAdd(2, r, 63 - r); WordHalf(); }
  }

  lemma WordHalf()
    ensures Pow(2, 63) * 2 == W
  {
    TwoToThe64();
  }

  lemma EvenHigh(w: nat, p: nat, q: nat, v: nat)
    requires 0 < p && p * q * 2 == W
    ensures ((w + W * v) / p) % 2 == (w / p) % 2
  {
    assert W * v == (2 * (q * v)) * p by {
      Associate(p, q, 2 * v);
      assert p * (q * (2 * v)) == (2 * (q * v)) * p by { assert q * (2 * v) == 2 * (q * v); }
    }
    ModShift(w, 2 * (q * v), p);
    ModShift(w / p, q * v, 2);
  }

  // ------------------------------------------------------- changes of width

  /** Zero extension or truncation.  Between two multiword widths only extension
      is defined: the source masks with a shift past the word there. */
  method Ext(a: ApInt, newBits: nat)
    requires a.Valid() && 0 < newBits
    requires newBits < a.bits ==> newBits <= WordBitCount
    modifies a
    ensures a.Valid() && a.Sized() && fresh(a.words) && a.bits == newBits
    ensures 0 < Pow(2, newBits) && a.Value() == old(a.Value()) % Pow(2, newBits)
    ensures old(a.Value()) < Pow(2, newBits) ==> a.Value() == old(a.Value())
    ensures old(a.bits) <= newBits ==> a.Value() == old(a.Value())
  {
    hide Val, Pow, MaskWord;
    ghost var x := a.words[..];
    CanonicalBound(x, a.bits);
    PowPositive(2, newBits);
    if a.bits <= newBits { PowMono(2, a.bits, newBits); }
    if Val(x, W) < Pow(2, newBits) { DivModUnique(Val(x, W), Pow(2, newBits), 0, Val(x, W)); }
    var wide := new Word[NWords(newBits)](_ => 0);
    if newBits > WordBitCount {
      var n := a.words.Length;
      forall i | 0 <= i < n {
        wide[i] := a.words[i];
      }
      assert wide[..][..n] == x;
      ValTrim(wide[..], n, W);
      SmallIsCanonical(wide[..], newBits);
    } else {
      wide[0] := MaskWord(a.words[0], newBits);
      TruncatedWord(x, newBits);
      OneWordIs(wide, wide[0]);
      SmallIsCanonical(wide[..], newBits);
    }
    a.bits, a.words := newBits, wide;
  }

  lemma TruncatedWord(x: seq<Word>, bits: nat)
    requires 0 < |x| && 0 < bits <= 64
    ensures 0 < Pow(2, bits) && x[0] % Pow(2, bits) == Val(x, W) % Pow(2, bits)
  {
    hide Pow;
    WordBits(bits);
    assert x == [x[0]] + x[1..];
    ValCons(x[0], x[1..], W);
    var v := Val(x[1..], W);
    WrapMod(x[0], v, Pow(2, bits), Pow(2, 64 - bits), Val(x, W));
  }

  // -------------------------------------------------------- trailing zeroes

  /** Bit n is the lowest set bit of x. */
  predicate Lowest(x: nat, n: nat)
  {
    PowPositive(2, n);
    x % Pow(2, n) == 0 && BitOf(x, n)
  }

  /** As documented the count tests bit 0 first; as written it shifts before the
      first test, so that bit 0 of a word is never looked at. */
  datatype Counting = Documented | BitZeroSkipped

  /** The loop over one word.  When the shifted word reaches zero no later test
      can succeed and the loop never ends: ends is false. */
  method CountWord(how: Counting, word: Word, bits: nat) returns (ends: bool, n: nat)
    ensures word == 0 ==> ends && n == bits
    ensures word != 0 && how.Documented? ==> ends && Lowest(word, n)
    ensures word != 0 && how.BitZeroSkipped? ==> (ends <==> word != 1) && (ends ==> Lowest(word / 2, n))
  {
    if word == 0 { return true, bits; }
    var w: nat := if how.Documented? then word else word / 2;
    ghost var start := w;
    n := 0;
    if w == 0 { return false, 0; }
    PowZero();
    while w % 2 == 0
      invariant 0 < w && w * Pow(2, n) == start
      decreases w
    {
      assert Pow(2, n + 1) == 2 * Pow(2, n);
      w := w / 2;
      n := n + 1;
    }
    ends := true;
    PowPositive(2, n);
    DivModUnique(start, Pow(2, n), w, 0);
  }

  /** Word i is the first nonzero word of x, and w its value. */
  predicate FirstNonzero(x: nat, i: nat, w: nat)
  {
    PowPositive(W, i);
    0 < w < W && x % Pow(W, i) == 0 && (x / Pow(W, i)) % W == w
  }

  lemma FirstIsUnique(x: nat, i: nat, w: nat, i': nat, w': nat)
    requires FirstNonzero(x, i, w) && FirstNonzero(x, i', w')
    ensures i == i' && w == w'
  {
    if i < i' {
      FirstIsLeast(x, i, w, i');
    } else if i' < i {
      FirstIsLeast(x, i', w', i);
    }
  }

  lemma FirstIsLeast(x: nat, i: nat, w: nat, i': nat)
    requires FirstNonzero(x, i, w) && i < i'
    ensures 0 < Pow(W, i') && x % Pow(W, i') != 0
  {
    hide Pow;
    var p, k := Pow(W, i), Pow(W, i' - i - 1);
    PowPositive(W, i');
    if x % Pow(W, i') == 0 {
      var t := x / Pow(W, i');
      DivModDef(x, Pow(W, i'));
      PowAdd(W, i + 1, i' - i - 1);
      PowNext(W, i);
      Reorder(t, p, k);
      DivModUnique(x, p, (t * k) * W, 0);
      DivModUnique((t * k) * W, W, t * k, 0);
    }
  }

  lemma Reorder(t: int, p: int, k: int)
    ensures t * ((W * p) * k) == ((t * k) * W) * p
  {
    Associate(W, p, k);
    Associate(t * k, W, p);
    Associate(t, k, W * p);
  }

  /** What the count of a nonzero number is. */
  ghost predicate Counted(how: Counting, x: nat, n: nat)
  {
    if how.Documented? then Lowest(x, n)
    else exists i: nat, w: nat :: FirstNonzero(x, i, w) && 64 * i <= n && Lowest(w / 2, n - 64 * i)
  }

  /** When the count ends. */
  ghost predicate CountEnds(how: Counting, x: nat)
  {
    how.BitZeroSkipped? && 0 < x ==> exists i: nat, w: nat :: FirstNonzero(x, i, w) && w != 1
  }

  method CountTrailingZeroes(how: Counting, a: ApInt) returns (ends: bool, n: nat)
    requires a.Valid()
    ensures ends <==> CountEnds(how, a.Value())
    ensures ends && a.Value() == 0 ==> n == a.bits
    ensures ends && a.Value() != 0 ==> Counted(how, a.Value(), n)
  {
    hide Val, Pow, Lowest, FirstNonzero;
    n := 0;
    var i := 0;
    while i < a.words.Length
      invariant 0 <= i <= a.words.Length
      invariant n == if i < a.words.Length then 64 * i else a.bits
      invariant forall k :: 0 <= k < i ==> a.words[k] == 0
    {
      var bits := if i == a.words.Length - 1 then LastBits(a.bits) else WordBitCount;
      if a.words[i] != 0 {
        FirstNonzeroWord(a.words[..], i);
        var m;
        ends, m := CountWord(how, a.words[i], bits);
        n := n + m;
        CountOfWord(how, a.Value(), i, a.words[i], ends, m);
        return;
      }
      n := n + bits;
      i := i + 1;
    }
    ValZeroes(a.words[..], W);
    ends := true;
  }

  lemma FirstNonzeroWord(s: seq<Word>, i: nat)
    requires i < |s| && s[i] != 0 && forall k :: 0 <= k < i ==> s[k] == 0
    ensures 0 < Val(s, W) && FirstNonzero(Val(s, W), i, s[i])
  {
    hide Pow;
    AllWords(s);
    ValDivMod(s, i, W);
    ValZeroes(s[..i], W);
    assert s[i..] == [s[i]] + s[i + 1..];
    ValCons(s[i], s[i + 1..], W);
    DivModUnique(Val(s[i..], W), W, Val(s[i + 1..], W), s[i]);
    if Val(s, W) == 0 { DivModUnique(0, Pow(W, i), 0, 0); }
  }

  lemma CountOfWord(how: Counting, x: nat, i: nat, w: Word, ends: bool, m: nat)
    requires FirstNonzero(x, i, w) && 0 < x
    requires how.Documented? ==> ends && Lowest(w, m)
    requires how.BitZeroSkipped? ==> (ends <==> w != 1) && (ends ==> Lowest(w / 2, m))
    ensures ends <==> CountEnds(how, x)
    ensures ends ==> Counted(how, x, 64 * i + m)
  {
    hide FirstNonzero, Lowest;
    if how.Documented? {
      LowestOfWord(x, i, w, m);
    } else {
      if ends { assert (64 * i + m) - 64 * i == m; }
      forall i': nat, w': nat | FirstNonzero(x, i', w') ensures w' == w {
        FirstIsUnique(x, i, w, i', w');
      }
    }
  }

  lemma LowestDef(x: nat, n: nat, z: nat)
    requires x == Pow(2, n) * z && z % 2 == 1
    ensures Lowest(x, n)
  {
    PowPositive(2, n);
    DivModUnique(x, Pow(2, n), z, 0);
  }

  lemma LowestOdd(x: nat, n: nat) returns (z: nat)
    requires Lowest(x, n)
    ensures x == Pow(2, n) * z && z % 2 == 1
  {
    PowPositive(2, n);
    z := x / Pow(2, n);
    DivModDef(x, Pow(2, n));
  }

  lemma LowestOfWord(x: nat, i: nat, w: nat, m: nat)
    requires FirstNonzero(x, i, w) && Lowest(w, m)
    ensures Lowest(x, 64 * i + m) && m < 64
  {
    hide Pow;
    var z := LowestOdd(w, m);
    PowPositive(W, i);
    var y := x / Pow(W, i);
    DivModDef(x, Pow(W, i));
    DivModDef(y, W);
    TwoToThe64();
    PowPow(2, 64, i);
    PowAdd(2, 64 * i, m);
    if 64 <= m {
      PowMono(2, 64, m);
      MulMono(Pow(2, m), 1, z);
    }
    PowSplit(2, m + 1, 64);
    PowAdd(2, m, 1);
    PowOne(2);
    var c, v := Pow(2, 63 - m), y / W;
    WordsAbove(x, Pow(W, i), Pow(2, m), z, c, v);
    LowestDef(x, 64 * i + m, z + 2 * (c * v));
  }

  lemma WordsAbove(x: nat, p: nat, q: nat, z: nat, c: nat, v: nat)
    requires x == (v * ((q * 2) * c) + q * z) * p
    ensures x == (p * q) * (z + 2 * (c * v)) && (z + 2 * (c * v)) % 2 == z % 2
  {
    assert v * ((q * 2) * c) == q * (2 * (c * v)) by {
      Associate(q, 2, c);
      Associate(v, q, 2 * c);
      Associate(q, v, 2 * c);
      Associate(v, 2, c);
      Associate(2, v, c);
    }
    Distribute(q, 2 * (c * v), z);
    Associate(p, q, z + 2 * (c * v));
  }

  // ------------------------------------------------------------ sticky bits

  /** The lowest set bit is below position k when the low k bits are not zero. */
  lemma LowestBelow(x: nat, n: nat, k: nat)
    requires Lowest(x, n)
    ensures 0 < Pow(2, k) && (n < k <==> x % Pow(2, k) != 0)
  {
    hide Pow;
    var z := LowestOdd(x, n);
    PowPositive(2, k);
    PowPositive(2, n);
    if k <= n {
      PowSplit(2, k, n);
      Associate(Pow(2, k), Pow(2, n - k), z);
      DivModUnique(x, Pow(2, k), Pow(2, n - k) * z, 0);
    } else {
      PowSplit(2, n + 1, k);
      PowAdd(2, n, 1);
      PowOne(2);
      if x % Pow(2, k) == 0 {
        DivModDef(x, Pow(2, k));
        EvenFactor(Pow(2, n), Pow(2, k - n - 1), x / Pow(2, k), z);
      }
    }
  }

  lemma EvenFactor(p: nat, c: nat, t: nat, z: nat)
    requires 0 < p && p * z == t * ((p * 2) * c)
    ensures z % 2 == 0
  {
    assert t * ((p * 2) * c) == p * (2 * (c * t)) by {
      Associate(p, 2, c);
      Associate(t, p, 2 * c);
      Associate(p, t, 2 * c);
      Associate(t, 2, c);
      Associate(2, t, c);
    }
    if z < 2 * (c * t) { MulStrict(p, z, 2 * (c * t)); }
    if z > 2 * (c * t) { MulStrict(p, 2 * (c * t), z); }
  }

  /** The only set bit among the low k bits of x is bit l. */
  predicate OnlyBit(x: nat, k: nat, l: nat)
  {
    PowPositive(2, k);
    x % Pow(2, k) == Pow(2, l)
  }

  /** The discarded bits the count as written takes for the wrong side: half a
      unit off a word boundary reads as more than half, and less than half made
      of one bit on a word boundary reads as nothing. */
  ghost predicate StickyMisread(x: nat, shift: nat)
    requires 0 < shift
  {
    || (OnlyBit(x, shift, shift - 1) && (shift - 1) % 64 != 0)
    || exists l: nat :: l < shift - 1 && l % 64 == 0 && OnlyBit(x, shift, l)
  }

  lemma LowestDouble(y: nat, m: nat)
    requires Lowest(y, m)
    ensures Lowest(2 * y, m + 1)
  {
    var z := LowestOdd(y, m);
    Associate(2, Pow(2, m), z);
    LowestDef(2 * y, m + 1, z);
  }

  /** A single discarded bit is the lowest set bit. */
  lemma OnlyBitIsLowest(x: nat, k: nat, l: nat, n: nat)
    requires Lowest(x, n) && OnlyBit(x, k, l)
    ensures l == n && n < k
  {
    hide Pow;
    PowPositive(2, k);
    PowPositive(2, l);
    DivModDef(x, Pow(2, k));
    if k <= l { PowMono(2, k, l); }
    var t := x / Pow(2, k);
    OneBitMultiple(x, k, l, t);
    LowestDef(x, l, 1 + 2 * (Pow(2, k - l - 1) * t));
    LowestUnique(x, l, n);
    LowestBelow(x, n, k);
  }

  lemma OneBitMultiple(x: nat, k: nat, l: nat, t: nat)
    requires l < k && x == t * Pow(2, k) + Pow(2, l)
    ensures x == Pow(2, l) * (1 + 2 * (Pow(2, k - l - 1) * t))
  {
    hide Pow;
    var p, c := Pow(2, l), Pow(2, k - l - 1);
    PowSplit(2, l + 1, k);
    PowAdd(2, l, 1);
    PowOne(2);
    assert Pow(2, k) == (p * 2) * c;
    WordsAbove(x, 1, p, 1, c, t);
  }

  lemma LowestUnique(x: nat, m: nat, n: nat)
    requires Lowest(x, m) && Lowest(x, n)
    ensures m == n
  {
    LowestBelow(x, m, n);
    LowestBelow(x, n, n);
    LowestBelow(x, n, m);
    LowestBelow(x, m, m);
  }

  /** If the lowest set bit is the topmost of the low k + 1, it is the only one. */
  lemma LowestAtTop(x: nat, k: nat)
    requires Lowest(x, k)
    ensures OnlyBit(x, k + 1, k)
  {
    var z := LowestOdd(x, k);
    PowPositive(2, k);
    assert x == (z / 2) * Pow(2, k + 1) + Pow(2, k) by {
      Distribute(Pow(2, k), 2 * (z / 2), 1);
      Associate(Pow(2, k), 2, z / 2);
    }
    DivModUnique(x, Pow(2, k + 1), z / 2, Pow(2, k));
  }

  lemma WithoutLowest(x: nat, i: nat, w: nat)
    requires FirstNonzero(x, i, w) && w % 2 == 1 && 1 < w
    ensures Pow(W, i) == Pow(2, 64 * i) <= x && FirstNonzero(x - Pow(W, i), i, w - 1)
  {
    hide Pow;
    PowPositive(W, i);
    var p, y := Pow(W, i), x / Pow(W, i);
    TwoToThe64();
    PowPow(2, 64, i);
    DivModDef(x, p);
    DivModDef(y, W);
    MulMono(p, 1, y);
    Distribute(p, y, -1);
    DivModUnique(x - p, p, y - 1, 0);
    DivModUnique(y - 1, W, y / W, w - 1);
  }

  /** Taking one set bit away clears the low bits when it is the only one. */
  lemma OnlyBitRemoved(x: nat, k: nat, l: nat)
    requires l < k && Pow(2, l) <= x
    ensures 0 < Pow(2, k) && (OnlyBit(x, k, l) <==> (x - Pow(2, l)) % Pow(2, k) == 0)
  {
    hide Pow;
    PowPositive(2, k);
    PowPositive(2, l);
    PowStrict(2, l, k);
    DivModDef(x, Pow(2, k));
    DivModDef(x - Pow(2, l), Pow(2, k));
    if OnlyBit(x, k, l) {
      DivModUnique(x - Pow(2, l), Pow(2, k), x / Pow(2, k), 0);
    }
    if (x - Pow(2, l)) % Pow(2, k) == 0 {
      DivModUnique(x, Pow(2, k), (x - Pow(2, l)) / Pow(2, k), Pow(2, l));
    }
  }

  lemma EvenWordMisread(x: nat, n: nat, shift: nat)
    requires 0 < shift && Lowest(x, n + 1) && (n + 1) % 64 != 0
    ensures 0 < Pow(2, shift - 1)
    ensures (n < shift - 1 <==> x % Pow(2, shift - 1) != 0) <==> !StickyMisread(x, shift)
  {
    hide Pow, Lowest, OnlyBit;
    LowestBelow(x, n + 1, shift - 1);
    if n + 1 == shift - 1 { LowestAtTop(x, n + 1); }
    forall l: nat | OnlyBit(x, shift, l) ensures l == n + 1 {
      OnlyBitIsLowest(x, shift, l, n + 1);
    }
  }

  lemma OddWordMisread(x: nat, t: nat, n: nat, shift: nat)
    requires 0 < shift && Lowest(x, t) && t % 64 == 0
    requires Pow(2, t) <= x && Lowest(x - Pow(2, t), n + 1) && t < n + 1
    ensures 0 < Pow(2, shift - 1)
    ensures (n < shift - 1 <==> x % Pow(2, shift - 1) != 0) <==> !StickyMisread(x, shift)
  {
    hide Pow, Lowest, OnlyBit;
    LowestBelow(x, t, shift - 1);
    LowestBelow(x - Pow(2, t), n + 1, shift);
    if t < shift { OnlyBitRemoved(x, shift, t); }
    forall l: nat | OnlyBit(x, shift, l) ensures l == t {
      OnlyBitIsLowest(x, shift, l, t);
    }
  }

  /** The sticky bit the callers derive from the count says whether any bit below
      the half-unit bit is set: always when the count tests bit 0, and as written
      exactly when the discarded bits are not misread. */
  lemma StickyBit(how: Counting, x: nat, n: nat, shift: nat)
    requires 0 < shift && 0 < x && Counted(how, x, n)
    ensures 0 < Pow(2, shift - 1)
    ensures (n < shift - 1 <==> x % Pow(2, shift - 1) != 0)
       <==> how.Documented? || !StickyMisread(x, shift)
  {
    hide Pow, Lowest, FirstNonzero, StickyMisread;
    if how.Documented? {
      LowestBelow(x, n, shift - 1);
    } else {
      var i: nat, w: nat :| FirstNonzero(x, i, w) && 64 * i <= n && Lowest(w / 2, n - 64 * i);
      LowestDouble(w / 2, n - 64 * i);
      if w % 2 == 0 {
        LowestOfWord(x, i, w, n - 64 * i + 1);
        EvenWordMisread(x, n, shift);
      } else {
        OddWordSticky(x, i, w, n, shift);
      }
    }
  }

  lemma OddWordSticky(x: nat, i: nat, w: nat, n: nat, shift: nat)
    requires 0 < shift && FirstNonzero(x, i, w) && w % 2 == 1
    requires 64 * i <= n && Lowest(w / 2, n - 64 * i)
    ensures 0 < Pow(2, shift - 1)
    ensures (n < shift - 1 <==> x % Pow(2, shift - 1) != 0) <==> !StickyMisread(x, shift)
  {
    hide Pow, Lowest, FirstNonzero, StickyMisread;
    LowestDouble(w / 2, n - 64 * i);
    OddWord(w);
    LowestOfWord(x, i, w, 0);
    NonzeroHalf(w, n - 64 * i);
    WithoutLowest(x, i, w);
    LowestOfWord(x - Pow(W, i), i, w - 1, n - 64 * i + 1);
    OddWordMisread(x, 64 * i, n, shift);
  }

  lemma OddWord(w: nat)
    requires w % 2 == 1
    ensures Lowest(w, 0)
  {
    LowestDef(w, 0, w);
  }

  lemma NonzeroHalf(w: nat, m: nat)
    requires Lowest(w / 2, m)
    ensures 1 < w
  {
    var z := LowestOdd(w / 2, m);
    if w / 2 == 0 { PowPositive(2, m); MulStrict(Pow(2, m), 0, z); }
  }
}
