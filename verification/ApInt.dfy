/** The arbitrary-width integer: a width in bits and the 64-bit words that hold
    them, with the unused bits of the top word kept zero. */
module ApInts {
  import opened Powers
  import opened Digits
  import opened Machine
  import opened WordLoops
  import opened WordShifts

  const WordBitCount: nat := 64

  function NWords(bits: nat): nat
  {
    (bits + 63) / 64
  }

  /** How many bits of the top word are in use. */
  function LastBits(bits: nat): (n: nat)
    requires 0 < bits
    ensures 1 <= n <= 64 && bits == 64 * (NWords(bits) - 1) + n
  {
    (bits - 1) % 64 + 1
  }

  function MaskWord(w: Word, bits: nat): (r: Word)
    requires 1 <= bits <= 64
    ensures 0 < Pow(2, bits) && r == w % Pow(2, bits)
  {
    WordBits(bits);
    if bits == 64 then TwoToThe64(); w else
      DivModDef(w, Pow(2, bits));
      PowMono(2, bits, 64);
      w % Pow(2, bits)
  }

  /** A sequence of words is a canonical number of the given width. */
  ghost predicate Canonical(s: seq<Word>, bits: nat)
  {
    0 < bits && |s| == NWords(bits) && s[|s| - 1] < Pow(2, LastBits(bits))
  }

  lemma PowWords(bits: nat)
    requires 0 < bits
    ensures Pow(2, bits) == Pow(W, NWords(bits) - 1) * Pow(2, LastBits(bits))
    ensures 0 < Pow(2, bits) <= Pow(W, NWords(bits))
    ensures Pow(W, NWords(bits)) == Pow(2, bits) * Pow(2, 64 - LastBits(bits))
  {
    var k, b := NWords(bits) - 1, LastBits(bits);
    TwoToThe64();
    PowPow(2, 64, k);
    PowAdd(2, 64 * k, b);
    PowPow(2, 64, k + 1);
    PowSplit(2, bits, 64 * (k + 1));
    PowPositive(2, bits);
    PowPositive(2, 64 - b);
    MulMono(Pow(2, bits), 1, Pow(2, 64 - b));
  }

  /** Masking the top word reduces the number modulo its range. */
  lemma MaskValue(s: seq<Word>, bits: nat)
    requires 0 < bits && |s| == NWords(bits)
    ensures 0 < Pow(2, bits)
    ensures var k := |s| - 1;
            var r := s[k := MaskWord(s[k], LastBits(bits))];
            Canonical(r, bits) && Val(r, W) == Val(s, W) % Pow(2, bits)
  {
    hide MaskWord;
    var k, q := |s| - 1, Pow(2, LastBits(bits));
    var top := MaskWord(s[k], LastBits(bits));
    var r := s[k := top];
    PowWords(bits);
    AllWords(s[..k]);
    ValBound(s[..k], W);
    assert r == s[..k] + [top] && s == s[..k] + [s[k]];
    ValAppend(s[..k], top, W);
    ValAppend(s[..k], s[k], W);
    MaskAlgebra(Val(s[..k], W), Pow(W, k), s[k], q);
  }

  lemma MaskAlgebra(low: nat, p: nat, w: nat, q: nat)
    requires low < p && 0 < q
    ensures 0 < p * q && w % q < q
    ensures (low + w * p) % (p * q) == low + (w % q) * p
  {
    DivModDef(w, q);
    MulStrict(p, 0, q);
    var h, r := w / q, w % q;
    assert w * p == h * (p * q) + r * p by {
      Distribute(p, h * q, r);
      Associate(h, q, p);
    }
    MulMono(p, r, q - 1);
    Distribute(p, q, -1);
    DivModUnique(low + w * p, p * q, h, low + r * p);
  }

  lemma CanonicalBound(s: seq<Word>, bits: nat)
    requires Canonical(s, bits)
    ensures Val(s, W) < Pow(2, bits)
  {
    var k := |s| - 1;
    assert s[k := s[k]] == s;
    MaskIdentity(s[k], LastBits(bits));
    MaskValue(s, bits);
    DivModDef(Val(s, W), Pow(2, bits));
  }

  lemma MaskIdentity(w: Word, bits: nat)
    requires 1 <= bits <= 64 && w < Pow(2, bits)
    ensures MaskWord(w, bits) == w
  {
    DivModUnique(w, Pow(2, bits), 0, w);
  }

  class ApInt {
    var bits: nat
    var words: array<Word>

    ghost predicate Sized()
      reads this
    {
      0 < bits && words.Length == NWords(bits)
    }

    ghost predicate Valid()
      reads this, words
    {
      Canonical(words[..], bits)
    }

    /** The unsigned number. */
    ghost function Value(): nat
      reads this, words
    {
      Val(words[..], W)
    }

    constructor Zero(bits: nat)
      requires 0 < bits
      ensures fresh(words) && Valid() && this.bits == bits && Value() == 0
      ensures words.Length == NWords(bits) && forall i :: 0 <= i < words.Length ==> words[i] == 0
    {
      this.bits := bits;
      words := new Word[NWords(bits)](_ => 0);
      new;
      ValZeroes(words[..], W);
      PowPositive(2, LastBits(bits));
    }

    method Copy() returns (r: ApInt)
      requires Valid()
      ensures fresh(r) && fresh(r.words) && r.Sized() && r.Valid() && r.bits == bits && r.Value() == Value()
    {
      r := new ApInt.Zero(bits);
      forall i | 0 <= i < words.Length {
        r.words[i] := words[i];
      }
      assert r.words[..] == words[..];
    }

    /** The width of the receiver does not change. */
    method Assign(src: ApInt)
      requires Valid() && src.Valid() && bits == src.bits
      modifies words
      ensures Valid() && Value() == old(src.Value())
    {
      ghost var s := src.words[..];
      forall i | 0 <= i < words.Length {
        words[i] := src.words[i];
      }
      assert words[..] == s;
    }

    method AssignUimm(src: Word)
      requires Valid()
      modifies words
      ensures Valid() && 0 < Pow(2, bits) && Value() == src % Pow(2, bits)
      ensures src < Pow(2, bits) ==> Value() == src
    {
      hide MaskWord;
      if bits > WordBitCount {
        words[0] := src;
        for i := 1 to words.Length
          invariant words[0] == src && forall k :: 1 <= k < i ==> words[k] == 0
        {
          words[i] := 0;
        }
      } else {
        words[0] := src;
      }
      ValTrim(words[..], 1, W);
      ValOne(src, W);
      assert words[..][..1] == [src];
      MaskExtraBits();
      if src < Pow(2, bits) {
        DivModUnique(src, Pow(2, bits), 0, src);
      }
    }

    method MaskExtraBits()
      requires Sized()
      modifies words
      ensures Valid() && 0 < Pow(2, bits) && Value() == old(Value()) % Pow(2, bits)
    {
      hide MaskWord, Val;
      ghost var s := words[..];
      var last := NWords(bits) - 1;
      words[last] := MaskWord(words[last], LastBits(bits));
      assert words[..] == s[last := words[last]];
      MaskValue(s, bits);
    }

    method Add(b: ApInt)
      requires Valid() && b.Valid() && bits == b.bits
      modifies words
      ensures Valid() && 0 < Pow(2, bits)
      ensures Value() == (old(Value()) + old(b.Value())) % Pow(2, bits)
    {
      hide Val, AddWord;
      ghost var total := Value() + b.Value();
      PowWords(bits);
      if bits > WordBitCount {
        var carry := AddWords(words, b.words);
        WrapMod(Value(), Bit(carry), Pow(2, bits), Pow(2, 64 - LastBits(bits)), total);
      } else {
        var x: int, y: int := words[0], b.words[0];
        OneWordIs(words, x);
        OneWordIs(b.words, y);
        words[0] := U64(x + y);
        OneWordIs(words, U64(x + y));
        WrapWord(Value(), total, bits);
      }
      MaskExtraBits();
    }

    method Sub(b: ApInt)
      requires Valid() && b.Valid() && bits == b.bits
      modifies words
      ensures Valid() && 0 < Pow(2, bits)
      ensures Value() == (old(Value()) - old(b.Value())) % Pow(2, bits)
    {
      hide Val, SubWord;
      ghost var total := Value() - b.Value();
      PowWords(bits);
      if bits > WordBitCount {
        var borrow := SubWords(words, b.words);
        WrapMod(Value(), 0 - Bit(borrow), Pow(2, bits), Pow(2, 64 - LastBits(bits)), total);
      } else {
        var x: int, y: int := words[0], b.words[0];
        OneWordIs(words, x);
        OneWordIs(b.words, y);
        words[0] := U64(x - y);
        OneWordIs(words, U64(x - y));
        WrapWord(Value(), total, bits);
      }
      MaskExtraBits();
    }

    /** The sum comes out right exactly when the carry behaves. */
    method AddUimm(how: Carrying, b: Word)
      requires Sized()
      modifies words
      ensures Valid() && 0 < Pow(2, bits)
      ensures Value() == (old(Value()) + b) % Pow(2, bits) <==> ImmediateRight(how, old(words[..]), b)
    {
      hide Val, MaskWord, ImmediateRight;
      ghost var s := words[..];
      if bits > WordBitCount {
        AddImmediateWords(how, words, b);
      } else {
        var x: int := words[0];
        words[0] := U64(x + b);
        OneWordImmediate(how, words[..], s, b);
      }
      MaskExtraBits();
      ImmediateMod(how, s, b, bits);
    }

    method Not()
      requires Sized()
      modifies words
      ensures Valid()
      ensures old(Valid()) ==> Value() == Pow(2, bits) - 1 - old(Value())
    {
      hide Val, MaskWord;
      ghost var s := words[..];
      ComplementWords(words);
      MaskExtraBits();
      if Canonical(s, bits) {
        ComplementValue(s);
        PowWords(bits);
        CanonicalBound(s, bits);
        ComplementMod(Val(s, W), Pow(2, bits), Pow(2, 64 - LastBits(bits)));
      }
    }

    /** Two's complement negation, as written; right exactly when its carry behaves. */
    method Negate()
      requires Sized()
      modifies words
      ensures Valid() && 0 < Pow(2, bits)
      ensures old(Valid()) ==>
              (Value() == (0 - old(Value())) % Pow(2, bits) <==> NegateRight(bits, old(Value())))
    {
      hide Val, MaskWord, ImmediateRight, NegateRight, Pow;
      ghost var s, x := words[..], Value();
      Not();
      ghost var flipped := words[..];
      ghost var y := Value();
      AddUimm(ReachesMax, 1);
      if Canonical(s, bits) {
        CanonicalBound(s, bits);
        ComplementCarries(flipped, bits, x);
        NegativeResidue(x, y, Pow(2, bits));
      }
    }

    method ShlImm(count: nat)
      requires Valid() && count < bits
      modifies words
      ensures Valid() && 0 < Pow(2, bits)
      ensures Value() == (old(Value()) * Pow(2, count)) % Pow(2, bits)
    {
      hide Val, MaskWord, Pow;
      ghost var x := words[..];
      PowWords(bits);
      if count == 0 {
        assert Pow(2, 0) == 1 by { PowZero(); }
        CanonicalBound(x, bits);
        DivModUnique(Value(), Pow(2, bits), 0, Value());
        return;
      }
      var wordShift, bitShift := count / 64, count % 64;
      ghost var out;
      out := ShlValue(x, wordShift, bitShift);
      ShlWords(words, wordShift, bitShift);
      assert 64 * wordShift + bitShift == count;
      WrapMod(Value(), out, Pow(2, bits), Pow(2, 64 - LastBits(bits)), Val(x, W) * Pow(2, count));
      MaskExtraBits();
    }

    method LshrImm(count: nat)
      requires Valid() && count < bits
      modifies words
      ensures Valid() && 0 < Pow(2, count)
      ensures Value() == old(Value()) / Pow(2, count)
    {
      hide Val, MaskWord, Pow;
      ghost var x := words[..];
      PowPositive(2, count);
      if count == 0 {
        assert Pow(2, 0) == 1 by { PowZero(); }
        return;
      }
      var wordShift, bitShift := count / 64, count % 64;
      LshrWords(words, wordShift, bitShift);
      LshrValue(x, wordShift, bitShift);
      assert 64 * wordShift + bitShift == count;
      CanonicalBound(x, bits);
      QuotientAtMost(Val(x, W), Pow(2, count));
      PowPositive(2, bits);
      DivModUnique(Value(), Pow(2, bits), 0, Value());
      MaskExtraBits();
    }

    /** Adds 2^bit by flipping bits upwards. */
    method IncBit(bit: nat)
      requires Valid() && bit < bits
      modifies words
      ensures Valid() && 0 < Pow(2, bits)
      ensures Value() == (old(Value()) + Pow(2, bit)) % Pow(2, bits)
    {
      hide Val, MaskWord, Pow;
      ghost var total := Value() + Pow(2, bit);
      PowWords(bits);
      if bits > WordBitCount {
        var found := IncBitWords(words, bit);
        WrapMod(Value(), if found then 0 else 1, Pow(2, bits), Pow(2, 64 - LastBits(bits)), total);
      } else {
        var x: int := words[0];
        OneWordIs(words, x);
        words[0] := U64(x + Pow(2, bit));
        OneWordIs(words, U64(x + Pow(2, bit)));
        WrapWord(Value(), total, bits);
      }
      MaskExtraBits();
    }
  }

  lemma OneWordIs(a: array<Word>, x: nat)
    requires a.Length == 1 && a[0] == x
    ensures Val(a[..], W) == x
  {
    assert a[..] == [x];
    ValOne(x, W);
  }

  /** A result reduced to one word is the result modulo any smaller range. */
  lemma WrapWord(x: int, total: int, bits: nat)
    requires 0 < bits <= 64 && x == total % W
    ensures 0 < Pow(2, bits) && x % Pow(2, bits) == total % Pow(2, bits)
  {
    WordBits(bits);
    DivModDef(total, W);
    WrapMod(x, total / W, Pow(2, bits), Pow(2, 64 - bits), total);
  }

  /** A carry out of the words is a multiple of the range. */
  lemma WrapMod(x: int, t: int, m: nat, k: nat, total: int)
    requires 0 < m && x + t * (m * k) == total
    ensures x % m == total % m
  {
    Associate(t, k, m);
    assert t * (m * k) == (t * k) * m;
    ModShift(x, t * k, m);
  }

  lemma NegativeResidue(x: int, y: int, m: int)
    requires 0 < m && y == m - 1 - x
    ensures (y + 1) % m == (0 - x) % m
  {
    ModShift(0 - x, 1, m);
  }

  lemma PowZero()
    ensures Pow(2, 0) == 1
  {
  }

  lemma QuotientAtMost(x: nat, p: nat)
    requires 0 < p
    ensures 0 <= x / p <= x
  {
    DivModDef(x, p);
    MulMono(x / p, 1, p);
  }

  lemma OneWordImmediate(how: Carrying, r: seq<Word>, s: seq<Word>, b: Word)
    requires |r| == |s| == 1 && r[0] == (s[0] + b) % W
    ensures r == AddImmediate(how, s, b)
  {
  }

  lemma ComplementMod(x: nat, m: nat, k: nat)
    requires 0 < m && x < m && 0 < m * k
    ensures (m * k - 1 - x) % m == m - 1 - x
  {
    Distribute(m, k, -1);
    DivModUnique(m * k - 1 - x, m, k - 1, m - 1 - x);
  }

  /** A sum off by an odd multiple of 2^128 is off modulo any range that reaches
      bit 128. */
  lemma OddMultiple(x: int, y: int, d: int, m: nat, k: nat)
    requires m == (W * W) * (2 * k) && 0 < k
    requires x == y + (W * W) * d && d % 2 == 1
    ensures x % m != y % m
  {
    if x % m == y % m {
      DivModDef(x, m);
      DivModDef(y, m);
      Distribute(m, x / m, 0 - y / m);
      EvenMultiple(d, x / m - y / m, k);
    }
  }

  lemma EvenMultiple(d: int, t: int, k: int)
    requires (W * W) * d == t * ((W * W) * (2 * k))
    ensures d % 2 == 0
  {
    assert t * ((W * W) * (2 * k)) == (W * W) * (2 * (t * k)) by {
      Associate(t, W * W, 2 * k);
      Associate(W * W, t, 2 * k);
      Associate(t, 2, k);
    }
    assert d == 2 * (t * k);
  }

  lemma RangeReachesBit128(bits: nat)
    requires 128 < bits
    ensures 0 < Pow(2, bits - 129) && Pow(2, bits) == (W * W) * (2 * Pow(2, bits - 129))
  {
    TwoToThe64();
    PowAdd(2, 64, 64);
    PowAdd(2, 128, 1);
    PowSplit(2, 129, bits);
    PowPositive(2, bits - 129);
    assert Pow(2, 1) == 2;
  }

  /** Modulo the range of the words, adding one word is right exactly when the
      carry behaves. */
  lemma ImmediateMod(how: Carrying, s: seq<Word>, b: Word, bits: nat)
    requires 0 < bits && |s| == NWords(bits)
    ensures 0 < Pow(2, bits)
    ensures Val(AddImmediate(how, s, b), W) % Pow(2, bits) == (Val(s, W) + b) % Pow(2, bits)
       <==> ImmediateRight(how, s, b)
  {
    hide Val, AddImmediate, Pow, Propagate;
    PowWords(bits);
    var r := Val(AddImmediate(how, s, b), W);
    if ImmediateRight(how, s, b) {
      ImmediateSum(how, s, b);
      WrapMod(r, if r == Val(s, W) + b then 0 else 1, Pow(2, bits), Pow(2, 64 - LastBits(bits)), Val(s, W) + b);
    } else {
      var d := ImmediateWrong(s, b);
      RangeReachesBit128(bits);
      OddMultiple(r, Val(s, W) + b, d, Pow(2, bits), Pow(2, bits - 129));
    }
  }

  /** When negating x comes out right: the one added to the complement stops
      before word 2, or there is no word 2. */
  predicate NegateRight(bits: nat, x: nat)
  {
    bits <= 128 || x % W != 0 || 2 <= (x / W) % W
  }

  /** The words of a complement, and when adding one to them carries too far. */
  lemma ComplementCarries(flipped: seq<Word>, bits: nat, x: nat)
    requires Canonical(flipped, bits) && Val(flipped, W) == Pow(2, bits) - 1 - x
    ensures ImmediateRight(ReachesMax, flipped, 1) <==> NegateRight(bits, x)
  {
    if 128 < bits {
      ValFirst(flipped);
      RangeReachesBit128(bits);
      var k, v := 2 * Pow(2, bits - 129), Val(flipped[2..], W);
      assert x == (W - 1 - flipped[0]) + W * ((W - 1 - flipped[1]) + W * (k - 1 - v));
      DivModUnique(x, W, (W - 1 - flipped[1]) + W * (k - 1 - v), W - 1 - flipped[0]);
      DivModUnique(x / W, W, k - 1 - v, W - 1 - flipped[1]);
    }
  }
}
