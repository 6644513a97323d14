/** Shifting word arrays in place, by whole words and by bits within them. */
module WordShifts {
  import opened Powers
  import opened Digits
  import opened Machine
  import opened BitParts

  lemma WordBits(s: nat)
    requires s <= 64
    ensures 0 < Pow(2, s) && 0 < Pow(2, 64 - s) && Pow(2, s) * Pow(2, 64 - s) == W
  {
    PowPositive(2, s);
    PowPositive(2, 64 - s);
    PowSplit(2, s, 64);
    TwoToThe64();
  }

  // ------------------------------------------------------------------ left

  /** Word k of x shifted left by bits: its own low part over the high part of
      the word below.  The two have no bit in common, so or-ing them is adding. */
  function ShlWord(x: seq<Word>, bits: nat, k: nat): (w: Word)
    requires bits < 64 && k < |x|
  {
    WordBits(bits);
    if k == 0 then (x[0] * Pow(2, bits)) % W else
      ShiftParts(x[k - 1], Pow(2, bits), Pow(2, 64 - bits), 0, W);
      ShiftParts(x[k], Pow(2, bits), Pow(2, 64 - bits), x[k - 1] / Pow(2, 64 - bits), W);
      (x[k] * Pow(2, bits)) % W + x[k - 1] / Pow(2, 64 - bits)
  }

  function ShlBits(x: seq<Word>, bits: nat, n: nat): (r: seq<Word>)
    requires bits < 64 && n <= |x|
    ensures |r| == n
  {
    if n == 0 then [] else ShlBits(x, bits, n - 1) + [ShlWord(x, bits, n - 1)]
  }

  lemma {:induction false} ShlBitsAt(x: seq<Word>, bits: nat, n: nat, k: nat)
    requires bits < 64 && k < n <= |x|
    ensures ShlBits(x, bits, n)[k] == ShlWord(x, bits, k)
  {
    if k < n - 1 {
      ShlBitsAt(x, bits, n - 1, k);
    }
  }

  /** The low n words of x * 2^bits, and what is shifted out of them. */
  lemma {:induction false} ShlBitsValue(x: seq<Word>, bits: nat, n: nat) returns (out: nat)
    requires bits < 64 && n <= |x|
    ensures n > 0 ==> 0 < Pow(2, 64 - bits) && out == x[n - 1] / Pow(2, 64 - bits)
    ensures n == 0 ==> out == 0
    ensures Val(ShlBits(x, bits, n), W) + out * Pow(W, n) == Val(x[..n], W) * Pow(2, bits)
  {
    hide ShlWord;
    out := 0;
    if n > 0 {
      hide Val, Pow;
      PowNext(W, n - 1);
      var below := ShlBitsValue(x, bits, n - 1);
      WordBits(bits);
      var p, c := Pow(2, bits), Pow(2, 64 - bits);
      if n > 1 {
        ShiftParts(x[n - 2], p, c, 0, W);
      }
      ShiftParts(x[n - 1], p, c, below, W);
      out := x[n - 1] / c;
      ShlWordIs(x, bits, n - 1, below);
      ValAppend(ShlBits(x, bits, n - 1), ShlWord(x, bits, n - 1), W);
      ValPrefix(x, n - 1, W);
      PlaceShl(Val(ShlBits(x, bits, n - 1), W), below, Val(x[..n - 1], W), Pow(W, n - 1),
               (x[n - 1] * p) % W, out, x[n - 1], p);
    }
  }

  lemma ShlWordIs(x: seq<Word>, bits: nat, k: nat, below: nat)
    requires bits < 64 && k < |x|
    requires 0 < Pow(2, 64 - bits)
    requires below == if k == 0 then 0 else x[k - 1] / Pow(2, 64 - bits)
    ensures ShlWord(x, bits, k) == (x[k] * Pow(2, bits)) % W + below
  {
  }

  lemma PlaceShl(acc: int, below: int, low: int, p: int, lo: int, hi: int, a: int, z: int)
    requires acc + below * p == low * z
    requires lo + W * hi == a * z
    ensures (acc + (lo + below) * p) + hi * (W * p) == (low + a * p) * z
  {
    Distribute(z, low, a * p);
    assert (a * p) * z == (a * z) * p;
    assert (lo + W * hi) * p == lo * p + hi * (W * p);
    Distribute(p, lo, below);
  }

  /** Zero words below, then the shifted words: x * 2^(64 * words + bits) within
      the length of x. */
  ghost function Shl(x: seq<Word>, words: nat, bits: nat): (r: seq<Word>)
    requires bits < 64 && words <= |x|
    ensures |r| == |x|
  {
    seq(words, _ => 0) + ShlBits(x, bits, |x| - words)
  }

  /** x * 2^(64 * words + bits), less what leaves the length of x. */
  lemma ShlValue(x: seq<Word>, words: nat, bits: nat) returns (out: nat)
    requires bits < 64 && words <= |x|
    ensures Val(Shl(x, words, bits), W) + out * Pow(W, |x|) == Val(x, W) * Pow(2, 64 * words + bits)
  {
    hide ShlBits, Val, Pow;
    var k := |x| - words;
    var zeroes: seq<Word> := seq(words, _ => 0);
    var spill := ShlBitsValue(x, bits, k);
    ValZeroes(zeroes, W);
    ValConcat(zeroes, ShlBits(x, bits, k), W);
    ValSplit(x, k, W);
    PowSplit(W, words, |x|);
    PowAdd(2, 64 * words, bits);
    TwoToThe64();
    PowPow(2, 64, words);
    out := spill + Val(x[k..], W) * Pow(2, bits);
    ShlAlgebra(Val(ShlBits(x, bits, k), W), spill, Val(x[..k], W), Val(x[k..], W), Pow(2, bits), Pow(W, words), Pow(W, k));
  }

  lemma ShlAlgebra(v: nat, spill: nat, low: nat, high: nat, p: nat, q: nat, k: nat)
    requires v + spill * k == low * p
    ensures q * v + (spill + high * p) * (q * k) == (low + k * high) * (q * p)
  {
    Distribute(q, v, spill * k);
    Associate(q, spill, k);
    Distribute(q * k, spill, high * p);
    Distribute(q * p, low, k * high);
    assert q * (spill * k) == spill * (q * k);
    assert q * (low * p) == low * (q * p);
    assert (high * p) * (q * k) == (k * high) * (q * p);
  }

  lemma ShlAt(x: seq<Word>, words: nat, bits: nat, i: nat)
    requires bits < 64 && words <= i < |x|
    ensures Shl(x, words, bits)[i] == ShlWord(x, bits, i - words)
  {
    ShlBitsAt(x, bits, |x| - words, i - words);
  }

  lemma ShlWholeWord(x: seq<Word>, k: nat)
    requires k < |x|
    ensures ShlWord(x, 0, k) == x[k]
  {
    TwoToThe64();
    assert Pow(2, 0) == 1;
  }

  /** Shifting left in place, from the top word down. */
  method ShlWords(a: array<Word>, wordShift: nat, bitShift: nat)
    requires wordShift <= a.Length && bitShift < 64
    modifies a
    ensures a[..] == Shl(old(a[..]), wordShift, bitShift)
  {
    hide ShlWord, Shl, Pow;
    ghost var x := a[..];
    var n := a.Length;
    if bitShift == 0 {
      forall k | wordShift <= k < n {
        a[k] := a[k - wordShift];
      }
      forall k | wordShift <= k < n ensures a[k] == ShlWord(x, bitShift, k - wordShift) {
        ShlWholeWord(x, k - wordShift);
      }
    } else {
      var i := n;
      while i > wordShift
        invariant wordShift <= i <= n
        invariant forall k :: i <= k < n ==> a[k] == ShlWord(x, bitShift, k - wordShift)
        invariant a[..i] == x[..i]
      {
        i := i - 1;
        WordBits(bitShift);
        ghost var below := a[..i];
        assert forall k :: 0 <= k <= i ==> a[k] == x[k];
        ShiftedWordFits(x, bitShift, i - wordShift);
        var w := (a[i - wordShift] * Pow(2, bitShift)) % W;
        if i > wordShift {
          w := w + a[i - wordShift - 1] / Pow(2, 64 - bitShift);
        }
        a[i] := w;
        assert a[..i] == below;
      }
    }
    forall k | 0 <= k < wordShift {
      a[k] := 0;
    }
    ShlCollect(a[..], x, wordShift, bitShift);
  }

  lemma ShiftedWordFits(x: seq<Word>, bits: nat, k: nat)
    requires bits < 64 && k < |x| && 0 < Pow(2, 64 - bits)
    ensures ShlWord(x, bits, k) ==
            (x[k] * Pow(2, bits)) % W + (if k == 0 then 0 else x[k - 1] / Pow(2, 64 - bits))
    ensures k > 0 ==> 0 <= (x[k] * Pow(2, bits)) % W + x[k - 1] / Pow(2, 64 - bits) < W
  {
    var below := if k == 0 then 0 else x[k - 1] / Pow(2, 64 - bits);
    ShlWordIs(x, bits, k, below);
  }

  lemma ShlCollect(s: seq<Word>, x: seq<Word>, words: nat, bits: nat)
    requires bits < 64 && words <= |x| == |s|
    requires forall k :: 0 <= k < words ==> s[k] == 0
    requires forall k :: words <= k < |s| ==> s[k] == ShlWord(x, bits, k - words)
    ensures s == Shl(x, words, bits)
  {
    hide ShlWord;
    forall k | 0 <= k < |s| ensures s[k] == Shl(x, words, bits)[k] {
      if words <= k {
        ShlAt(x, words, bits, k);
      }
    }
  }

  // ----------------------------------------------------------------- right

  /** The lowest word of y shifted right by bits, under the low bits of the word
      above it. */
  function LshrWord(y: seq<Word>, bits: nat): (w: Word)
    requires bits < 64 && 0 < |y|
  {
    WordBits(bits);
    if |y| == 1 then
      UnshiftParts(y[0], Pow(2, bits), Pow(2, 64 - bits), 0, W);
      y[0] / Pow(2, bits)
    else
      UnshiftParts(y[0], Pow(2, bits), Pow(2, 64 - bits), y[1] % Pow(2, bits), W);
      UnshiftParts(y[1], Pow(2, bits), Pow(2, 64 - bits), 0, W);
      y[0] / Pow(2, bits) + (y[1] * Pow(2, 64 - bits)) % W
  }

  function LshrBits(y: seq<Word>, bits: nat): (r: seq<Word>)
    requires bits < 64
    ensures |r| == |y|
  {
    if |y| == 0 then [] else [LshrWord(y, bits)] + LshrBits(y[1..], bits)
  }

  lemma {:induction false} LshrBitsValue(y: seq<Word>, bits: nat)
    requires bits < 64
    ensures 0 < Pow(2, bits)
    ensures Val(y, W) == Pow(2, bits) * Val(LshrBits(y, bits), W) + (if |y| == 0 then 0 else y[0] % Pow(2, bits))
  {
    WordBits(bits);
    if |y| > 0 {
      var p, q, t := Pow(2, bits), Pow(2, 64 - bits), y[1..];
      LshrBitsValue(t, bits);
      var c := if |y| == 1 then 0 else y[1] % p;
      UnshiftParts(y[0], p, q, c, W);
      if |y| > 1 {
        UnshiftParts(y[1], p, q, 0, W);
      }
      assert LshrWord(y, bits) == y[0] / p + c * q;
      ValCons(LshrWord(y, bits), LshrBits(t, bits), W);
      PlaceLshr(LshrWord(y, bits), Val(LshrBits(t, bits), W), Val(t, W), y[0], y[0] % p, c, p);
    }
  }

  lemma PlaceLshr(w: nat, r: nat, t: nat, a: nat, low: nat, c: nat, p: nat)
    requires w * p + low == a + W * c && t == p * r + c
    ensures a + W * t == p * (w + W * r) + low
  {
    Distribute(p, w, W * r);
    assert p * (W * r) == W * (p * r);
  }

  /** The words of x above the first few, shifted right, under zero words. */
  ghost function Lshr(x: seq<Word>, words: nat, bits: nat): (r: seq<Word>)
    requires bits < 64 && words <= |x|
    ensures |r| == |x|
  {
    LshrBits(x[words..], bits) + seq(words, _ => 0)
  }

  lemma LshrValue(x: seq<Word>, words: nat, bits: nat)
    requires bits < 64 && words <= |x|
    ensures 0 < Pow(2, 64 * words + bits)
    ensures Val(Lshr(x, words, bits), W) == Val(x, W) / Pow(2, 64 * words + bits)
  {
    hide LshrBits, Val, Pow;
    var y := x[words..];
    var zeroes: seq<Word> := seq(words, _ => 0);
    ValZeroes(zeroes, W);
    ValConcat(LshrBits(y, bits), zeroes, W);
    LshrBitsValue(y, bits);
    AllWords(x);
    ValDivMod(x, words, W);
    TwoToThe64();
    PowPow(2, 64, words);
    PowAdd(2, 64 * words, bits);
    PowPositive(2, 64 * words + bits);
    DivDiv(Val(x, W), Pow(W, words), Pow(2, bits));
    var p := Pow(2, bits);
    var low := if |y| == 0 then 0 else y[0] % p;
    DivModUnique(Val(y, W), p, Val(LshrBits(y, bits), W), low);
  }

  lemma AllWords(x: seq<Word>)
    ensures AllDigits(x, W)
  {
  }

  lemma {:induction false} LshrBitsAt(y: seq<Word>, bits: nat, k: nat)
    requires bits < 64 && k < |y|
    ensures LshrBits(y, bits)[k] == LshrWord(y[k..], bits)
  {
    if k == 0 {
      assert y[0..] == y;
    } else {
      LshrBitsAt(y[1..], bits, k - 1);
      assert y[1..][k - 1..] == y[k..];
    }
  }

  /** Shifting right in place, from word 0 up. */
  method LshrWords(a: array<Word>, wordShift: nat, bitShift: nat)
    requires wordShift <= a.Length && bitShift < 64
    modifies a
    ensures a[..] == Lshr(old(a[..]), wordShift, bitShift)
  {
    hide LshrWord, Lshr, Pow;
    ghost var x := a[..];
    var n := a.Length;
    if bitShift == 0 {
      forall k | 0 <= k < n - wordShift {
        a[k] := a[k + wordShift];
      }
      forall k | 0 <= k < n - wordShift ensures a[k] == LshrWord(x[k + wordShift..], bitShift) {
        LshrWholeWord(x[k + wordShift..]);
      }
    } else {
      var i := 0;
      while i < n - wordShift
        invariant 0 <= i <= n - wordShift
        invariant forall k :: 0 <= k < i ==> a[k] == LshrWord(x[k + wordShift..], bitShift)
        invariant forall k :: i <= k < n ==> a[k] == x[k]
      {
        WordBits(bitShift);
        LshrWordIs(x[i + wordShift..], bitShift);
        var w := a[i + wordShift] / Pow(2, bitShift);
        if i < n - wordShift - 1 {
          w := w + (a[i + wordShift + 1] * Pow(2, 64 - bitShift)) % W;
        }
        a[i] := w;
        i := i + 1;
      }
    }
    forall k | n - wordShift <= k < n {
      a[k] := 0;
    }
    LshrCollect(a[..], x, wordShift, bitShift);
  }

  lemma LshrWholeWord(y: seq<Word>)
    requires 0 < |y|
    ensures LshrWord(y, 0) == y[0]
  {
    TwoToThe64();
    assert Pow(2, 0) == 1;
    if |y| > 1 {
      assert (y[1] * W) % W == 0 by { DivModUnique(y[1] * W, W, y[1], 0); }
    }
  }

  lemma LshrWordIs(y: seq<Word>, bits: nat)
    requires bits < 64 && 0 < |y| && 0 < Pow(2, bits)
    ensures LshrWord(y, bits) == y[0] / Pow(2, bits) + (if |y| == 1 then 0 else (y[1] * Pow(2, 64 - bits)) % W)
    ensures 0 <= y[0] / Pow(2, bits) < W
  {
    WordBits(bits);
    UnshiftParts(y[0], Pow(2, bits), Pow(2, 64 - bits), 0, W);
  }

  lemma LshrCollect(s: seq<Word>, x: seq<Word>, words: nat, bits: nat)
    requires bits < 64 && words <= |x| == |s|
    requires forall k :: |s| - words <= k < |s| ==> s[k] == 0
    requires forall k :: 0 <= k < |s| - words ==> s[k] == LshrWord(x[k + words..], bits)
    ensures s == Lshr(x, words, bits)
  {
    hide LshrWord;
    forall k | 0 <= k < |s| ensures s[k] == Lshr(x, words, bits)[k] {
      if k < |s| - words {
        LshrBitsAt(x[words..], bits, k);
        assert x[words..][k..] == x[k + words..];
      }
    }
  }
}
