/** Multiplication of arbitrary-width integers. */
module ApIntMultiply {
  import opened Powers
  import opened Digits
  import opened Machine
  import opened Multiply
  import opened ApInts
  import ApIntDivision

  /** The product modulo the range, in a new number. */
  method NipMul(a: ApInt, b: ApInt) returns (r: ApInt)
    requires a.Valid() && b.Valid() && a.bits == b.bits
    ensures fresh(r) && fresh(r.words) && r.Valid() && r.bits == a.bits && 0 < Pow(2, a.bits)
    ensures r.Value() == (a.Value() * b.Value()) % Pow(2, a.bits)
  {
    hide Val, Pow, MaskWord, Canonical;
    Sizes(a);
    Sizes(b);
    r := new ApInt.Zero(a.bits);
    ghost var total := a.Value() * b.Value();
    PowWords(a.bits);
    if a.bits <= WordBitCount {
      OneWordIs(a.words, a.words[0]);
      OneWordIs(b.words, b.words[0]);
      var x: int, y: int := a.words[0], b.words[0];
      r.words[0] := U64(x * y);
      OneWordIs(r.words, r.words[0]);
      WrapWord(r.Value(), total, a.bits);
    } else {
      var n := a.words.Length;
      WholeArray(a.words, b.words, n);
      var overflow := MultiplyTruncated(r.words, a.words, b.words, n);
      WholeArray(r.words, r.words, n);
      DivModDef(total, Pow(W, n));
      WrapMod(r.Value(), total / Pow(W, n), Pow(2, a.bits), Pow(2, 64 - LastBits(a.bits)), total);
    }
    r.MaskExtraBits();
  }

  lemma Sizes(a: ApInt)
    requires a.Valid()
    ensures a.Sized() && 0 < a.bits && 0 < a.words.Length
  {
  }

  lemma WholeArray(a: array<Word>, b: array<Word>, n: nat)
    requires a.Length == n && b.Length == n
    ensures a[..n] == a[..] && b[..n] == b[..]
  {
  }

  /** Multiplies by one word in place. */
  method MulUimm(a: ApInt, b: Word)
    requires a.Valid()
    modifies a.words
    ensures a.Valid() && 0 < Pow(2, a.bits) && a.Value() == (old(a.Value()) * b) % Pow(2, a.bits)
  {
    hide Val, Pow, MaskWord, Canonical;
    Sizes(a);
    ghost var total := a.Value() * b;
    PowWords(a.bits);
    if a.bits <= WordBitCount {
      OneWordIs(a.words, a.words[0]);
      var x: int := a.words[0];
      a.words[0] := U64(x * b);
      OneWordIs(a.words, a.words[0]);
      WrapWord(a.Value(), total, a.bits);
    } else {
      var n := a.words.Length;
      WholeArray(a.words, a.words, n);
      assert a.words[0..0 + n] == a.words[..];
      var o;
      ghost var lost;
      o, lost := MultiplyPart(a.words, 0, a.words, b, n, n, false);
      assert a.words[0..0 + n] == a.words[..];
      WrapMod(a.Value(), lost, Pow(2, a.bits), Pow(2, 64 - LastBits(a.bits)), total);
    }
    a.MaskExtraBits();
  }

  /** The exact product, in a number twice as wide.  For multiword operands the
      schoolbook loop writes twice as many words as they have, so the destination
      must have that many. */
  method UFullMul(a: ApInt, b: ApInt, out: ApInt)
    requires a.Valid() && b.Valid() && out.Valid() && a.bits == b.bits && out.bits == 2 * a.bits
    requires out.words != a.words && out.words != b.words
    requires a.bits > WordBitCount ==> NWords(out.bits) == 2 * NWords(a.bits)
    modifies out.words
    ensures out.Valid() && out.Value() == old(a.Value()) * old(b.Value())
  {
    hide Val, Pow, MaskWord, Canonical;
    Sizes(a);
    Sizes(b);
    Sizes(out);
    ghost var total := a.Value() * b.Value();
    CanonicalBound(a.words[..], a.bits);
    CanonicalBound(b.words[..], b.bits);
    ProductFits(a.Value(), b.Value(), a.bits);
    if out.bits <= WordBitCount {
      OneWordIs(a.words, a.words[0]);
      OneWordIs(b.words, b.words[0]);
      PowFitsWord(out.bits);
      var x: int, y: int := a.words[0], b.words[0];
      out.words[0] := U64(x * y);
      OneWordIs(out.words, out.words[0]);
    } else {
      FullWords(a.words, b.words, out.words);
    }
    ApIntDivision.SmallIsCanonical(out.words[..], out.bits);
  }

  method FullWords(a: array<Word>, b: array<Word>, out: array<Word>)
    requires 0 < a.Length == b.Length && out.Length == 2 * a.Length && out != a && out != b
    modifies out
    ensures Val(out[..], W) == Val(a[..], W) * Val(b[..], W)
  {
    hide Val, Pow;
    var n := a.Length;
    WholeArray(a, b, n);
    FullMultiply(out, a, b, n, n);
    WholeArray(out, out, n + n);
  }

  lemma ProductFits(x: nat, y: nat, n: nat)
    requires x < Pow(2, n) && y < Pow(2, n)
    ensures x * y < Pow(2, 2 * n)
  {
    PowAdd(2, n, n);
    MulMono(x, y, Pow(2, n));
    MulStrict(Pow(2, n), x, Pow(2, n));
  }

  lemma PowFitsWord(n: nat)
    requires n <= 64
    ensures Pow(2, n) <= W
  {
    TwoToThe64();
    PowMono(2, n, 64);
  }
}
