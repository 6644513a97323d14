/** Schoolbook multiplication over 64-bit words, each word product built from
    four products of 32-bit halves. */
module Multiply {
  import opened Powers
  import opened Digits
  import opened Machine

  /** low + d in 64 bits, and high with the carry. */
  function Accumulate(low: Word, high: int, d: Word): (r: (Word, int))
    ensures r.0 + W * r.1 == low + W * high + d
  {
    var sum: int := low;
    var wrapped := (sum + d) % W;
    (wrapped, if wrapped < low then high + 1 else high)
  }

  /** Adding a half-word product in the middle of a double word: its high half
      goes to high, its low half to the top of low. */
  function AccumulateMiddle(low: Word, high: int, mid: Word): (r: (Word, int))
    ensures r.0 + W * r.1 == low + W * high + mid * B
  {
    Accumulate(low, high + mid / B, (mid % B) * B)
  }

  /** The double word src * mul + carry, as its two words. */
  function MulWord(src: Word, mul: Word, carry: Word): (r: (Word, int))
  {
    if mul == 0 || src == 0 then (carry, 0) else
      HalfProducts(src, mul);
      var low := (src % B) * (mul % B);
      var high := (src / B) * (mul / B);
      var (low1, high1) := AccumulateMiddle(low, high, (src % B) * (mul / B));
      var (low2, high2) := AccumulateMiddle(low1, high1, (src / B) * (mul % B));
      Accumulate(low2, high2, carry)
  }

  lemma HalfProducts(x: Word, y: Word)
    ensures 0 <= (x % B) * (y % B) < W && 0 <= (x / B) * (y / B) < W
    ensures 0 <= (x % B) * (y / B) < W && 0 <= (x / B) * (y % B) < W
    ensures x * y == (x % B) * (y % B) + B * ((x % B) * (y / B)) + B * ((x / B) * (y % B)) + W * ((x / B) * (y / B))
  {
    var x0, x1, y0, y1 := x % B, x / B, y % B, y / B;
    ProductBound(x0, y0);
    ProductBound(x0, y1);
    ProductBound(x1, y0);
    ProductBound(x1, y1);
    ExpandHalves(x0, x1, y0, y1);
  }

  lemma ExpandHalves(x0: int, x1: int, y0: int, y1: int)
    ensures (x0 + B * x1) * (y0 + B * y1) == x0 * y0 + B * (x0 * y1) + B * (x1 * y0) + W * (x1 * y1)
  {
    Distribute(x0 + B * x1, y0, B * y1);
    Distribute(y0, x0, B * x1);
    Distribute(y1, x0, B * x1);
    Associate(B, x1, y0);
    Associate(B, x1, y1);
    assert (x0 + B * x1) * (B * y1) == B * ((x0 + B * x1) * y1);
  }

  /** The two words are the product, and the high one leaves room for another
      word to be added. */
  lemma MulWordIs(src: Word, mul: Word, carry: Word)
    ensures MulWord(src, mul, carry).0 + W * MulWord(src, mul, carry).1 == src * mul + carry
    ensures 0 <= MulWord(src, mul, carry).1 < W
  {
    if mul != 0 && src != 0 {
      HalfProducts(src, mul);
    }
    ProductRange(src, mul, carry, MulWord(src, mul, carry).0, MulWord(src, mul, carry).1);
  }

  lemma ProductRange(x: Word, y: Word, carry: Word, low: Word, high: int)
    requires low + W * high == x * y + carry
    ensures 0 <= high < W
    ensures high == W - 1 ==> low == 0
  {
    MulMono(y, x, W - 1);
    MulMono(W - 1, y, W - 1);
    MulMono(y, 0, x);
  }

  lemma PlaceProduct(acc: int, carry: int, base: int, low: int, m: int, p: int, d: int, c': int, old_: int, s: int)
    requires acc + carry * p == base + low * m
    requires d + W * c' == old_ + s * m + carry
    ensures (acc + d * p) + c' * (W * p) == (base + old_ * p) + (low + s * p) * m
  {
    assert (d + W * c') * p == d * p + c' * (W * p);
    assert (old_ + s * m + carry) * p == old_ * p + (s * m) * p + carry * p;
    Distribute(m, low, s * p);
    assert (s * p) * m == (s * m) * p;
  }

  /** One word of the row: the product, the carry and, when accumulating, what
      the destination held. */
  function PartWord(s: Word, mul: Word, carry: Word, add: bool, d: Word): (r: (Word, int))
    ensures r.0 + W * r.1 == (if add then d else 0) + s * mul + carry
  {
    MulWordIs(s, mul, carry);
    var (low, high) := MulWord(s, mul, carry);
    if add then Accumulate(low, high, d) else (low, high)
  }

  lemma PartWordRange(s: Word, mul: Word, carry: Word, add: bool, d: Word)
    ensures 0 <= PartWord(s, mul, carry, add, d).1 < W
  {
    MulWordIs(s, mul, carry);
    ProductRange(s, mul, carry, MulWord(s, mul, carry).0, MulWord(s, mul, carry).1);
  }

  /** What the row has computed after k words: base is what it accumulates on. */
  ghost predicate RowDone(dst: seq<Word>, was: seq<Word>, src: seq<Word>, mul: Word, carry: int, add: bool, k: nat)
    requires k <= |dst| && k <= |was| && k <= |src|
  {
    0 <= carry < W
    && Val(dst[..k], W) + carry * Pow(W, k)
       == (if add then Val(was[..k], W) else 0) + Val(src[..k], W) * mul
  }

  lemma RowStep(dst: seq<Word>, was: seq<Word>, src: seq<Word>, mul: Word, carry: Word, add: bool, k: nat,
                dst': seq<Word>, word: Word, next: int)
    requires k < |dst| && k < |was| && k < |src| && k < |dst'|
    requires RowDone(dst, was, src, mul, carry, add, k)
    requires dst'[..k + 1] == dst[..k] + [word]
    requires (word, next) == PartWord(src[k], mul, carry, add, was[k])
    ensures RowDone(dst', was, src, mul, next, add, k + 1)
  {
    hide Val, PartWord, Pow;
    PartWordRange(src[k], mul, carry, add, was[k]);
    ValAppend(dst[..k], word, W);
    ValPrefix(src, k, W);
    ValPrefix(was, k, W);
    PowNext(W, k);
    PlaceProduct(Val(dst[..k], W), carry, if add then Val(was[..k], W) else 0, Val(src[..k], W), mul, Pow(W, k),
                 word, next, if add then was[k] else 0, src[k]);
  }

  /** The row's exact value: what it accumulates on plus src * mul. */
  ghost function RowTotal(was: seq<Word>, src: seq<Word>, mul: Word, add: bool): nat
  {
    (if add then Val(was, W) else 0) + Val(src, W) * mul
  }

  /** One word of a stretch is set. */
  lemma SliceUpdate(a: seq<Word>, b: seq<Word>, off: nat, i: nat, w: Word, parts: nat)
    requires i < parts && off + parts <= |a| && b == a[off + i := w]
    ensures b[off..off + parts][..i + 1] == a[off..off + parts][..i] + [w]
    ensures b[off + i + 1..off + parts] == a[off + i..off + parts][1..]
    ensures b[..off] == a[..off] && b[off + parts..] == a[off + parts..]
  {
  }

  /** The row's loop over n words. */
  method RowLoop(dst: array<Word>, off: nat, src: array<Word>, mul: Word, srcParts: nat, dstParts: nat, add: bool, n: nat)
    returns (carry: Word)
    requires off + dstParts <= dst.Length && srcParts <= src.Length && n <= dstParts && n <= srcParts
    requires dst != src || off == 0
    modifies dst
    ensures RowDone(dst[off..off + dstParts], old(dst[off..off + dstParts]), old(src[..srcParts]), mul, carry, add, n)
    ensures dst[..off] == old(dst[..off]) && dst[off + dstParts..] == old(dst[off + dstParts..])
    ensures src[n..srcParts] == old(src[n..srcParts])
  {
    hide Val, Pow, RowDone, PartWord;
    ghost var was, x := dst[off..off + dstParts], src[..srcParts];
    carry := 0;
    RowStart(dst[off..off + dstParts], was, x, mul, add);
    for i := 0 to n
      invariant RowDone(dst[off..off + dstParts], was, x, mul, carry, add, i)
      invariant dst[..off] == old(dst[..off]) && dst[off + dstParts..] == old(dst[off + dstParts..])
      invariant dst[off + i..off + dstParts] == was[i..]
      invariant src[i..srcParts] == x[i..]
    {
      assert src[i] == src[i..srcParts][0] == x[i];
      assert dst[off + i] == dst[off + i..off + dstParts][0] == was[i];
      ghost var row := dst[off..off + dstParts];
      ghost var rest, srest := dst[off + i..off + dstParts], src[i..srcParts];
      PartWordRange(src[i], mul, carry, add, dst[off + i]);
      var word, next := PartWord(src[i], mul, carry, add, dst[off + i]).0, PartWord(src[i], mul, carry, add, dst[off + i]).1;
      ghost var before := dst[..];
      dst[off + i] := word;
      assert dst[..] == before[off + i := word];
      SliceUpdate(before, dst[..], off, i, word, dstParts);
      assert src[i + 1..srcParts] == srest[1..];
      RowStep(row, was, x, mul, carry, add, i, dst[off..off + dstParts], word, next);
      carry := next;
    }
  }

  /** One row of the schoolbook: src * mul, added to or stored in the words of dst
      from off on.  With a destination one word longer than the source nothing
      is lost; with a shorter one the row keeps the low words and reports
      whether anything was. */
  method MultiplyPart(dst: array<Word>, off: nat, src: array<Word>, mul: Word, srcParts: nat, dstParts: nat, add: bool)
    returns (overflow: bool, ghost lost: nat)
    requires off + dstParts <= dst.Length && srcParts <= src.Length && dstParts <= srcParts + 1
    requires dst != src || off == 0
    modifies dst
    ensures dst[..off] == old(dst[..off]) && dst[off + dstParts..] == old(dst[off + dstParts..])
    ensures overflow <==> 0 < lost
    ensures srcParts < dstParts ==> !overflow
    ensures Val(dst[off..off + dstParts], W) + lost * Pow(W, dstParts)
         == RowTotal(old(dst[off..off + (if srcParts < dstParts then srcParts else dstParts)]), old(src[..srcParts]), mul, add)
  {
    hide Val, Pow, RowDone, RowTotal;
    ghost var was, x := dst[off..off + dstParts], src[..srcParts];
    var n := if dstParts < srcParts then dstParts else srcParts;
    var carry := RowLoop(dst, off, src, mul, srcParts, dstParts, add, n);
    ghost var row := dst[off..off + dstParts];
    if srcParts < dstParts {
      dst[off + srcParts] := carry;
      assert dst[off..off + dstParts] == row[..srcParts] + [carry];
      StoreCarry(row, was, x, mul, carry, add);
      assert was[..srcParts] == old(dst[off..off + srcParts]);
      return false, 0;
    }
    lost := carry + mul * Val(x[n..], W);
    LostWords(row, was, x, mul, carry, add);
    if carry != 0 {
      MulMono(mul, 0, Val(x[n..], W));
      return true, lost;
    }
    overflow := false;
    if mul != 0 {
      overflow := AnyNonzero(src, dstParts, srcParts, mul);
    }
    assert x[n..] == src[n..srcParts];
  }

  /** Is any of these words nonzero? */
  method AnyNonzero(src: array<Word>, lo: nat, hi: nat, mul: Word) returns (found: bool)
    requires lo <= hi <= src.Length && mul != 0
    ensures found <==> 0 < mul * Val(src[lo..hi], W)
  {
    for i := lo to hi
      invariant forall k :: lo <= k < i ==> src[k] == 0
    {
      if src[i] != 0 {
        NonzeroWord(src[lo..hi], i - lo, mul);
        return true;
      }
    }
    ValZeroes(src[lo..hi], W);
    return false;
  }

  lemma RowStart(dst: seq<Word>, was: seq<Word>, src: seq<Word>, mul: Word, add: bool)
    ensures RowDone(dst, was, src, mul, 0, add, 0)
  {
  }

  lemma StoreCarry(row: seq<Word>, was: seq<Word>, src: seq<Word>, mul: Word, carry: Word, add: bool)
    requires |src| < |row| && |src| <= |was| && RowDone(row, was, src, mul, carry, add, |src|)
    ensures Val(row[..|src|] + [carry], W) == RowTotal(was[..|src|], src, mul, add)
  {
    ValAppend(row[..|src|], carry, W);
    assert src[..|src|] == src;
  }

  lemma LostWords(dst: seq<Word>, was: seq<Word>, src: seq<Word>, mul: Word, carry: Word, add: bool)
    requires |dst| == |was| <= |src| && RowDone(dst, was, src, mul, carry, add, |dst|)
    ensures Val(dst, W) + (carry + mul * Val(src[|dst|..], W)) * Pow(W, |dst|) == RowTotal(was, src, mul, add)
  {
    var n := |dst|;
    assert dst[..n] == dst && was[..n] == was;
    ValSplit(src, n, W);
    LostAlgebra(carry, mul, Val(src[n..], W), Pow(W, n), Val(src[..n], W));
  }

  lemma LostAlgebra(carry: int, mul: int, high: int, p: int, low: int)
    ensures (carry + mul * high) * p + low * mul == carry * p + (low + p * high) * mul
  {
    Distribute(p, carry, mul * high);
    Distribute(mul, low, p * high);
    assert (mul * high) * p == (p * high) * mul;
  }

  lemma NonzeroWord(s: seq<Word>, i: nat, mul: Word)
    requires i < |s| && s[i] != 0 && mul != 0
    ensures 0 < mul * Val(s, W)
  {
    ValSplit(s, i, W);
    FirstBelow(s[i..]);
    PowPositive(W, i);
    MulMono(Pow(W, i), 1, Val(s[i..], W));
    MulMono(mul, 1, Val(s, W));
  }

  lemma FirstBelow(s: seq<Word>)
    requires 0 < |s|
    ensures Val(s, W) >= s[0]
  {
  }

  /** dst = lhs * rhs in the width of the operands; nothing clears dst first.
      Reports whether the product does not fit. */
  method MultiplyTruncated(dst: array<Word>, lhs: array<Word>, rhs: array<Word>, parts: nat)
    returns (overflow: bool)
    requires parts <= dst.Length && parts <= lhs.Length && parts <= rhs.Length
    requires dst != lhs && dst != rhs && 0 < parts
    modifies dst
    ensures 0 < Pow(W, parts)
    ensures Val(dst[..parts], W) == (Val(lhs[..parts], W) * Val(rhs[..parts], W)) % Pow(W, parts)
    ensures overflow <==> Pow(W, parts) <= Val(lhs[..parts], W) * Val(rhs[..parts], W)
    ensures dst[parts..] == old(dst[parts..])
  {
    hide Val, Pow;
    overflow := false;
    ghost var over: nat := 0;
    ghost var x, y := lhs[..parts], rhs[..parts];
    for i := 0 to parts
      invariant 0 < i ==> Val(dst[..parts], W) + over * Pow(W, parts) == Val(x, W) * Val(y[..i], W)
      invariant overflow <==> 0 < over
      invariant i == 0 ==> over == 0
      invariant dst[parts..] == old(dst[parts..])
    {
      ghost var was := dst[..parts];
      var o;
      ghost var lost;
      o, lost := MultiplyPart(dst, i, lhs, rhs[i], parts, parts - i, i != 0);
      overflow := overflow || o;
      assert dst[..i] == was[..i] && dst[i..parts] == dst[..parts][i..];
      RowIntoProduct(dst[..parts], was, x, y, i, over, lost);
      assert dst[parts..] == dst[i + (parts - i)..];
      over := over + lost;
    }
    assert y[..parts] == y;
    AllWordsBelow(dst[..parts]);
    PowPositive(W, parts);
    FitsOrNot(Val(dst[..parts], W), over, Pow(W, parts), Val(x, W) * Val(y, W));
  }

  lemma AllWordsBelow(s: seq<Word>)
    ensures Val(s, W) < Pow(W, |s|)
  {
    assert AllDigits(s, W);
    ValBound(s, W);
  }

  lemma FitsOrNot(low: nat, over: nat, p: nat, total: nat)
    requires 0 < p && low < p && low + over * p == total
    ensures low == total % p && (0 < over <==> p <= total)
  {
    DivModUnique(total, p, over, low);
    if 0 < over { MulMono(p, 1, over); }
  }

  /** A row at place i adds x * y[i] * W^i to the product. */
  lemma RowIntoProduct(dst: seq<Word>, was: seq<Word>, x: seq<Word>, y: seq<Word>, i: nat, over: nat, lost: nat)
    requires i < |y| && i <= |dst| == |was| && dst[..i] == was[..i]
    requires Val(dst[i..], W) + lost * Pow(W, |dst| - i) == RowTotal(was[i..], x, y[i], i != 0)
    requires 0 < i ==> Val(was, W) + over * Pow(W, |dst|) == Val(x, W) * Val(y[..i], W)
    requires i == 0 ==> over == 0
    ensures Val(dst, W) + (over + lost) * Pow(W, |dst|) == Val(x, W) * Val(y[..i + 1], W)
  {
    ValSplit(dst, i, W);
    ValSplit(was, i, W);
    ValPrefix(y, i, W);
    PowSplit(W, i, |dst|);
    if i == 0 {
      assert Pow(W, 0) == 1 && y[..0] == [] && Val(y[..0], W) == 0;
      assert dst[0..] == dst && was[0..] == was && dst[..0] == [];
      ZeroRow(Val(x, W), y[0]);
    } else {
      RowAlgebra(Val(dst[..i], W), Pow(W, i), Val(dst[i..], W), Val(was[i..], W), lost, Pow(W, |dst| - i),
                 over, Val(x, W), y[i], Val(y[..i], W));
    }
  }

  lemma ZeroRow(x: nat, d: nat)
    ensures x * (0 + d * 1) == x * d
  {
  }

  lemma RowAlgebra(low: int, p: int, high: int, oldHigh: int, lost: int, q: int, over: int, x: int, d: int, y: int)
    requires high + lost * q == oldHigh + x * d
    requires low + p * oldHigh + over * (p * q) == x * y
    ensures low + p * high + (over + lost) * (p * q) == x * (y + d * p)
  {
    assert p * (high + lost * q) == p * high + lost * (p * q);
    assert p * (oldHigh + x * d) == p * oldHigh + x * (d * p);
    Distribute(p * q, over, lost);
    Distribute(x, y, d * p);
  }

  /** dst = lhs * rhs over the sum of their widths. */
  method FullMultiply(dst: array<Word>, lhs: array<Word>, rhs: array<Word>, lhsParts: nat, rhsParts: nat)
    requires 0 < lhsParts <= lhs.Length && 0 < rhsParts <= rhs.Length
    requires lhsParts + rhsParts <= dst.Length && dst != lhs && dst != rhs
    modifies dst
    ensures Val(dst[..lhsParts + rhsParts], W) == Val(lhs[..lhsParts], W) * Val(rhs[..rhsParts], W)
    ensures dst[lhsParts + rhsParts..] == old(dst[lhsParts + rhsParts..])
    decreases lhsParts - rhsParts
  {
    hide Val, Pow;
    if lhsParts > rhsParts {
      FullMultiply(dst, rhs, lhs, rhsParts, lhsParts);
      return;
    }
    ghost var x, y := rhs[..rhsParts], lhs[..lhsParts];
    ghost var total := lhsParts + rhsParts;
    for i := 0 to lhsParts
      invariant 0 < i ==> Val(dst[..rhsParts + i], W) == Val(x, W) * Val(y[..i], W)
      invariant dst[total..] == old(dst[total..])
    {
      ghost var was, above := dst[..rhsParts + i], dst[i + (rhsParts + 1)..];
      var o;
      ghost var lost;
      o, lost := MultiplyPart(dst, i, rhs, lhs[i], rhsParts, rhsParts + 1, i != 0);
      assert dst[i + (rhsParts + 1)..] == above;
      assert dst[total..] == above[total - (i + rhsParts + 1)..];
      assert dst[..i] == was[..i];
      assert dst[i..i + (rhsParts + 1)] == dst[..rhsParts + (i + 1)][i..];
      FullRow(dst[..rhsParts + (i + 1)], was, x, y, i);
    }
    assert y[..lhsParts] == y;
  }

  lemma FullRow(dst: seq<Word>, was: seq<Word>, x: seq<Word>, y: seq<Word>, i: nat)
    requires i < |y| && i <= |was| && |dst| == |was| + 1 && dst[..i] == was[..i]
    requires Val(dst[i..], W) == RowTotal(was[i..], x, y[i], i != 0)
    requires 0 < i ==> Val(was, W) == Val(x, W) * Val(y[..i], W)
    ensures Val(dst, W) == Val(x, W) * Val(y[..i + 1], W)
  {
    hide Val, Pow, RowTotal;
    if i == 0 {
      FirstRow(dst, was, x, y);
    } else {
      LaterRow(dst, was, x, y, i);
    }
  }

  lemma FirstRow(dst: seq<Word>, was: seq<Word>, x: seq<Word>, y: seq<Word>)
    requires 0 < |y| && Val(dst[0..], W) == RowTotal(was[0..], x, y[0], false)
    ensures Val(dst, W) == Val(x, W) * Val(y[..1], W)
  {
    hide Val;
    assert dst[0..] == dst && y[..1] == [y[0]];
    ValOne(y[0], W);
  }

  lemma LaterRow(dst: seq<Word>, was: seq<Word>, x: seq<Word>, y: seq<Word>, i: nat)
    requires i < |y| && i <= |was| && |dst| == |was| + 1 && dst[..i] == was[..i]
    requires Val(dst[i..], W) == RowTotal(was[i..], x, y[i], true)
    requires Val(was, W) == Val(x, W) * Val(y[..i], W)
    ensures Val(dst, W) == Val(x, W) * Val(y[..i + 1], W)
  {
    hide Val, Pow;
    ValSplit(dst, i, W);
    ValSplit(was, i, W);
    ValPrefix(y, i, W);
    RowAlgebra(Val(dst[..i], W), Pow(W, i), Val(dst[i..], W), Val(was[i..], W), 0, 0, 0, Val(x, W), y[i], Val(y[..i], W));
  }
}
