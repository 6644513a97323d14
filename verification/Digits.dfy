/** Little-endian positional numerals: the value of a sequence of digits in a
    base, and the facts that let a loop build or take apart a numeral one digit
    at a time. */
module Digits {
  import opened Powers

  predicate AllDigits(s: seq<nat>, b: nat)
  {
    forall i :: 0 <= i < |s| ==> s[i] < b
  }

  /** The number whose digits, least significant first, are s. */
  function Val(s: seq<nat>, b: nat): nat
  {
    if |s| == 0 then 0 else s[0] + b * Val(s[1..], b)
  }

  lemma {:induction false} ValConcat(s: seq<nat>, t: seq<nat>, b: nat)
    ensures Val(s + t, b) == Val(s, b) + Pow(b, |s|) * Val(t, b)
  {
    if |s| == 0 {
      assert s + t == t;
    } else {
      assert (s + t)[1..] == s[1..] + t;
      ValConcat(s[1..], t, b);
      Distribute(b, Val(s[1..], b), Pow(b, |s| - 1) * Val(t, b));
      Associate(b, Pow(b, |s| - 1), Val(t, b));
    }
  }

  lemma ValOne(d: nat, b: nat)
    ensures Val([d], b) == d
  {
    assert [d][1..] == [];
    assert Val([d][1..], b) == 0;
  }

  lemma ValCons(d: nat, t: seq<nat>, b: nat)
    ensures Val([d] + t, b) == d + b * Val(t, b)
  {
    assert ([d] + t)[1..] == t;
  }

  lemma ValAppend(s: seq<nat>, d: nat, b: nat)
    ensures Val(s + [d], b) == Val(s, b) + d * Pow(b, |s|)
  {
    ValConcat(s, [d], b);
    ValOne(d, b);
  }

  /** Splitting a numeral at position k. */
  lemma ValSplit(s: seq<nat>, k: nat, b: nat)
    requires k <= |s|
    ensures Val(s, b) == Val(s[..k], b) + Pow(b, k) * Val(s[k..], b)
  {
    assert s == s[..k] + s[k..];
    ValConcat(s[..k], s[k..], b);
  }

  /** One more digit of a prefix. */
  lemma ValPrefix(s: seq<nat>, k: nat, b: nat)
    requires k < |s|
    ensures Val(s[..k + 1], b) == Val(s[..k], b) + s[k] * Pow(b, k)
  {
    assert s[..k + 1] == s[..k] + [s[k]];
    ValAppend(s[..k], s[k], b);
  }

  /** Changing one digit changes the value by its place. */
  lemma ValUpdate(s: seq<nat>, i: nat, d: nat, b: nat)
    requires i < |s|
    ensures Val(s[i := d], b) == Val(s, b) + (d - s[i]) * Pow(b, i)
  {
    hide Val, Pow;
    var r := s[i := d];
    ValSplit(s, i + 1, b);
    ValSplit(r, i + 1, b);
    ValPrefix(s, i, b);
    ValPrefix(r, i, b);
    assert r[..i] == s[..i] && r[i + 1..] == s[i + 1..];
    var was: int := s[i];
    Distribute(Pow(b, i), d, 0 - was);
  }

  lemma {:induction false} ValBound(s: seq<nat>, b: nat)
    requires 0 < b && AllDigits(s, b)
    ensures Val(s, b) < Pow(b, |s|)
  {
    if |s| > 0 {
      var t := s[1..];
      assert AllDigits(t, b) by { forall i | 0 <= i < |t| ensures 0 <= t[i] < b { assert t[i] == s[i + 1]; } }
      ValBound(t, b);
      MulMono(b, Val(t, b), Pow(b, |t|) - 1);
      assert b * (Pow(b, |t|) - 1) == b * Pow(b, |t|) - b;
      MulMono(b, 0, Val(t, b));
    }
  }

  /** Leading zeroes carry no value. */
  lemma {:induction false} ValZeroes(s: seq<nat>, b: nat)
    requires forall i :: 0 <= i < |s| ==> s[i] == 0
    ensures Val(s, b) == 0
  {
    if |s| > 0 {
      ValZeroes(s[1..], b);
    }
  }

  lemma ValTrim(s: seq<nat>, k: nat, b: nat)
    requires k <= |s|
    requires forall i :: k <= i < |s| ==> s[i] == 0
    ensures Val(s, b) == Val(s[..k], b)
  {
    ValSplit(s, k, b);
    ValZeroes(s[k..], b);
  }

  /** Numerals of one length with one value are the same numeral. */
  lemma {:induction false} ValInjective(s: seq<nat>, t: seq<nat>, b: nat)
    requires 0 < b && AllDigits(s, b) && AllDigits(t, b)
    requires |s| == |t| && Val(s, b) == Val(t, b)
    ensures s == t
  {
    if |s| > 0 {
      var x, y := Val(s[1..], b), Val(t[1..], b);
      assert s[0] + b * x == t[0] + b * y;
      DivModUnique(Val(s, b), b, x, s[0]);
      DivModUnique(Val(s, b), b, y, t[0]);
      assert AllDigits(s[1..], b) && AllDigits(t[1..], b) by {
        forall i | 0 <= i < |s| - 1 ensures 0 <= s[1..][i] < b && 0 <= t[1..][i] < b {
          assert s[1..][i] == s[i + 1] && t[1..][i] == t[i + 1];
        }
      }
      ValInjective(s[1..], t[1..], b);
      assert s == [s[0]] + s[1..] && t == [t[0]] + t[1..];
    }
  }

  lemma AllPrefix(s: seq<nat>, k: nat, b: nat)
    requires k <= |s| && AllDigits(s, b)
    ensures AllDigits(s[..k], b) && AllDigits(s[k..], b)
  {
  }

  /** The digits below position k are the value modulo b^k, those above are
      the quotient. */
  lemma ValDivMod(s: seq<nat>, k: nat, b: nat)
    requires 0 < b && AllDigits(s, b) && k <= |s|
    ensures 0 < Pow(b, k)
    ensures Val(s, b) / Pow(b, k) == Val(s[k..], b)
    ensures Val(s, b) % Pow(b, k) == Val(s[..k], b)
  {
    PowPositive(b, k);
    ValSplit(s, k, b);
    AllPrefix(s, k, b);
    ValBound(s[..k], b);
    DivModPlace(Val(s, b), Pow(b, k), Val(s[k..], b), Val(s[..k], b));
  }

  lemma DivModPlace(x: nat, p: nat, hi: nat, lo: nat)
    requires lo < p && x == lo + p * hi
    ensures x / p == hi && x % p == lo
  {
    DivModUnique(x, p, hi, lo);
  }

  /** A nonzero top digit is worth its place. */
  lemma ValTopBound(s: seq<nat>, b: nat)
    requires 0 < b && AllDigits(s, b) && |s| > 0
    ensures s[|s| - 1] * Pow(b, |s| - 1) <= Val(s, b) < (s[|s| - 1] + 1) * Pow(b, |s| - 1)
  {
    var k := |s| - 1;
    assert s[..k + 1] == s;
    ValPrefix(s, k, b);
    AllPrefix(s, k, b);
    ValBound(s[..k], b);
    Distribute(Pow(b, k), s[k], 1);
  }

  /** Two numerals are compared by their most significant difference. */
  lemma ValTopLess(s: seq<nat>, t: seq<nat>, b: nat)
    requires 0 < b && AllDigits(s, b) && AllDigits(t, b)
    requires |s| == |t| > 0 && s[|s| - 1] < t[|t| - 1]
    ensures Val(s, b) < Val(t, b)
  {
    ValTopBound(s, b);
    ValTopBound(t, b);
    PowPositive(b, |s| - 1);
    MulMono(Pow(b, |s| - 1), s[|s| - 1] + 1, t[|t| - 1]);
  }

  /** The len low digits of x. */
  function ToDigits(x: nat, b: nat, len: nat): (s: seq<nat>)
    requires 0 < b
    ensures |s| == len && AllDigits(s, b)
    decreases len
  {
    if len == 0 then [] else [x % b] + ToDigits(x / b, b, len - 1)
  }

  lemma {:induction false} ToDigitsVal(x: nat, b: nat, len: nat)
    requires 0 < b && x < Pow(b, len)
    ensures Val(ToDigits(x, b, len), b) == x
    decreases len
  {
    if len > 0 {
      QuotientBound(x, b, Pow(b, len - 1));
      ToDigitsVal(x / b, b, len - 1);
      assert ToDigits(x, b, len) == [x % b] + ToDigits(x / b, b, len - 1);
      assert ToDigits(x, b, len)[1..] == ToDigits(x / b, b, len - 1);
    }
  }

  /** The digits of a number are the only ones of that length and value. */
  lemma ToDigitsUnique(s: seq<nat>, b: nat)
    requires 0 < b && AllDigits(s, b)
    ensures Val(s, b) < Pow(b, |s|) && s == ToDigits(Val(s, b), b, |s|)
  {
    ValBound(s, b);
    ToDigitsVal(Val(s, b), b, |s|);
    ValInjective(s, ToDigits(Val(s, b), b, |s|), b);
  }

  lemma ValPositive(s: seq<nat>, b: nat)
    requires 0 < b && AllDigits(s, b) && |s| > 0 && 0 < s[|s| - 1]
    ensures 0 < Val(s, b)
  {
    ValTopBound(s, b);
    PowPositive(b, |s| - 1);
    MulMono(Pow(b, |s| - 1), 1, s[|s| - 1]);
  }

  /** The digits of x without leading zeroes. */
  function MinDigits(x: nat, b: nat): (s: seq<nat>)
    requires 2 <= b
    ensures AllDigits(s, b) && (|s| > 0 ==> s[|s| - 1] != 0)
    ensures x == 0 <==> s == []
  {
    if x == 0 then [] else
      QuotientSmaller(x, b);
      [x % b] + MinDigits(x / b, b)
  }

  lemma QuotientSmaller(x: nat, b: nat)
    requires 0 < x && 2 <= b
    ensures 0 <= x / b < x && (x / b == 0 ==> x % b != 0)
    ensures x % b + b * (x / b) == x
  {
    DivModDef(x, b);
    if x <= x / b {
      MulMono(x / b, 2, b);
    }
  }

  /** A numeral without leading zeroes is the numeral of its value. */
  lemma {:induction false} MinDigitsUnique(s: seq<nat>, b: nat)
    requires 2 <= b && AllDigits(s, b) && (|s| > 0 ==> s[|s| - 1] != 0)
    ensures s == MinDigits(Val(s, b), b)
  {
    if |s| > 0 {
      hide Pow;
      ValPositive(s, b);
      var t := s[1..];
      DivModUnique(Val(s, b), b, Val(t, b), s[0]);
      assert AllDigits(t, b) by { forall i | 0 <= i < |t| ensures t[i] < b { assert t[i] == s[i + 1]; } }
      MinDigitsUnique(t, b);
      assert s == [s[0]] + t;
    }
  }

  lemma {:induction false} MinDigitsVal(x: nat, b: nat)
    requires 2 <= b
    ensures Val(MinDigits(x, b), b) == x
  {
    if x > 0 {
      QuotientSmaller(x, b);
      MinDigitsVal(x / b, b);
      ValCons(x % b, MinDigits(x / b, b), b);
    }
  }

  lemma LongerIsLarger(s: seq<nat>, t: seq<nat>, b: nat)
    requires 0 < b && AllDigits(s, b) && AllDigits(t, b)
    requires |s| < |t| && t[|t| - 1] != 0
    ensures Val(s, b) < Val(t, b)
  {
    ValBound(s, b);
    ValTopBound(t, b);
    PowMono(b, |s|, |t| - 1);
    MulMono(Pow(b, |t| - 1), 1, t[|t| - 1]);
  }
}
