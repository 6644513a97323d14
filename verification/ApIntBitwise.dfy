/** Bitwise and, or and exclusive or of the arbitrary-width integers. */
module ApIntBitwise {
  import opened Powers
  import opened Digits
  import opened Machine
  import opened WordShifts
  import opened ApInts
  import opened ApIntBits

  datatype Gate = Both | Either | OneOf

  /** The gate on two bits. */
  function OnBits(gate: Gate, a: nat, b: nat): (r: nat)
    ensures r < 2
  {
    match gate
    case Both => if a == 1 && b == 1 then 1 else 0
    case Either => if a == 1 || b == 1 then 1 else 0
    case OneOf => if (a == 1) != (b == 1) then 1 else 0
  }

  /** The gate on all bits of two numbers. */
  function Gated(gate: Gate, x: nat, y: nat): nat
  {
    if x == 0 && y == 0 then 0 else OnBits(gate, x % 2, y % 2) + 2 * Gated(gate, x / 2, y / 2)
  }

  lemma HalfPower(x: nat, n: nat)
    requires x < Pow(2, n + 1)
    ensures x / 2 < Pow(2, n)
  {
  }

  /** The result is no longer than the operands. */
  lemma {:induction false} GatedBound(gate: Gate, x: nat, y: nat, n: nat)
    requires x < Pow(2, n) && y < Pow(2, n)
    ensures Gated(gate, x, y) < Pow(2, n)
  {
    if n > 0 {
      HalfPower(x, n - 1);
      HalfPower(y, n - 1);
      GatedBound(gate, x / 2, y / 2, n - 1);
    }
  }

  /** Every bit of the result is the gate on the bits of the operands there. */
  lemma {:induction false} GatedBit(gate: Gate, x: nat, y: nat, k: nat)
    ensures BitOf(Gated(gate, x, y), k) <==>
            match gate
            case Both => BitOf(x, k) && BitOf(y, k)
            case Either => BitOf(x, k) || BitOf(y, k)
            case OneOf => BitOf(x, k) != BitOf(y, k)
  {
    hide Pow, BitOf;
    GatedHalves(gate, x, y);
    if k == 0 {
      LowBit(x);
      LowBit(y);
      LowBit(Gated(gate, x, y));
    } else {
      NextBit(x, k - 1);
      NextBit(y, k - 1);
      NextBit(Gated(gate, x, y), k - 1);
      GatedBit(gate, x / 2, y / 2, k - 1);
    }
  }

  lemma LowBit(x: nat)
    ensures BitOf(x, 0) <==> x % 2 == 1
  {
    assert Pow(2, 0) == 1;
  }

  lemma NextBit(x: nat, k: nat)
    ensures BitOf(x, k + 1) <==> BitOf(x / 2, k)
  {
    PowPositive(2, k);
    DivDiv(x, 2, Pow(2, k));
  }

  /** The low k bits and the bits above them are gated apart. */
  lemma {:induction false} GatedSplit(gate: Gate, x: nat, y: nat, u: nat, v: nat, k: nat, p: nat)
    requires p == Pow(2, k) && x < p && y < p
    ensures Gated(gate, x + p * u, y + p * v) == Gated(gate, x, y) + p * Gated(gate, u, v)
  {
    if k == 0 {
      assert p == 1 && Gated(gate, 0, 0) == 0;
    } else {
      hide Gated, Pow;
      var h := Pow(2, k - 1);
      PowNext(2, k - 1);
      HalfPower(x, k - 1);
      HalfPower(y, k - 1);
      GatedSplit(gate, x / 2, y / 2, u, v, k - 1, h);
      GatedDoubles(gate, x, y, u, v, h);
    }
  }

  lemma GatedDoubles(gate: Gate, x: nat, y: nat, u: nat, v: nat, p: nat)
    requires Gated(gate, x / 2 + p * u, y / 2 + p * v) == Gated(gate, x / 2, y / 2) + p * Gated(gate, u, v)
    ensures Gated(gate, x + (2 * p) * u, y + (2 * p) * v) == Gated(gate, x, y) + (2 * p) * Gated(gate, u, v)
  {
    hide Gated, OnBits;
    Halves(x, p, u);
    Halves(y, p, v);
    GatedHalves(gate, x, y);
    GatedHalves(gate, x + (2 * p) * u, y + (2 * p) * v);
    Associate(2, p, Gated(gate, u, v));
  }

  lemma GatedHalves(gate: Gate, x: nat, y: nat)
    ensures Gated(gate, x, y) == OnBits(gate, x % 2, y % 2) + 2 * Gated(gate, x / 2, y / 2)
  {
  }

  lemma Halves(x: nat, p: nat, u: nat)
    ensures (x + (2 * p) * u) / 2 == x / 2 + p * u && (x + (2 * p) * u) % 2 == x % 2
  {
    assert (2 * p) * u == (p * u) * 2;
    ModShift(x, p * u, 2);
  }

  lemma {:induction false} GatedZero(x: nat)
    ensures Gated(OneOf, x, 0) == x
  {
    if x > 0 { GatedZero(x / 2); }
  }

  /** Flipping the highest bit of a number that may have it. */
  lemma FlipTop(w: nat, k: nat)
    requires w < Pow(2, k + 1)
    ensures Gated(OneOf, w, Pow(2, k)) == if w < Pow(2, k) then w + Pow(2, k) else w - Pow(2, k)
  {
    hide Pow;
    var m := Pow(2, k);
    PowPositive(2, k);
    PowNext(2, k);
    if w < m {
      GatedSplit(OneOf, w, 0, 0, 1, k, m);
    } else {
      GatedSplit(OneOf, w - m, 0, 1, 1, k, m);
    }
    GatedZero(w % m);
    if w < m { DivModUnique(w, m, 0, w); } else { DivModUnique(w, m, 1, w - m); }
    SingleBits();
  }

  lemma SingleBits()
    ensures Gated(OneOf, 0, 1) == 1 && Gated(OneOf, 1, 1) == 0
  {
    assert Gated(OneOf, 0, 0) == 0;
  }

  // ------------------------------------------------------------------- words

  function GateWord(gate: Gate, x: Word, y: Word): (r: Word)
    ensures r == Gated(gate, x, y)
  {
    TwoToThe64();
    GatedBound(gate, x, y, 64);
    Gated(gate, x, y)
  }

  /** One more word of both operands. */
  lemma GatedPrefix(gate: Gate, x: seq<Word>, y: seq<Word>, k: nat)
    requires k < |x| == |y|
    ensures Gated(gate, Val(x[..k + 1], W), Val(y[..k + 1], W))
         == Gated(gate, Val(x[..k], W), Val(y[..k], W)) + GateWord(gate, x[k], y[k]) * Pow(W, k)
  {
    hide Val, Pow, Gated;
    TwoToThe64();
    PowPow(2, 64, k);
    ValPrefix(x, k, W);
    ValPrefix(y, k, W);
    AllWords(x[..k]);
    AllWords(y[..k]);
    ValBound(x[..k], W);
    ValBound(y[..k], W);
    GatedSplit(gate, Val(x[..k], W), Val(y[..k], W), x[k], y[k], 64 * k, Pow(W, k));
  }

  /** Combines b into a word by word; b may be a. */
  method GateWords(gate: Gate, a: array<Word>, b: array<Word>)
    requires a.Length == b.Length
    modifies a
    ensures Val(a[..], W) == Gated(gate, old(Val(a[..], W)), old(Val(b[..], W)))
    ensures 0 < a.Length ==> a[a.Length - 1] == GateWord(gate, old(a[a.Length - 1]), old(b[a.Length - 1]))
  {
    hide Val, Pow, Gated;
    ghost var x, y := a[..], b[..];
    NothingGated(gate, x, y);
    for i := 0 to a.Length
      invariant a[i..] == x[i..] && b[i..] == y[i..]
      invariant Val(a[..i], W) == Gated(gate, Val(x[..i], W), Val(y[..i], W))
      invariant 0 < i ==> a[i - 1] == GateWord(gate, x[i - 1], y[i - 1])
    {
      ghost var done := a[..i];
      assert a[i] == x[i] && b[i] == y[i];
      GatedPrefix(gate, x, y, i);
      a[i] := GateWord(gate, a[i], b[i]);
      assert a[..i + 1] == done + [a[i]];
      ValAppend(done, a[i], W);
    }
    assert a[..a.Length] == a[..] && x[..a.Length] == x && y[..a.Length] == y;
  }

  lemma NothingGated(gate: Gate, x: seq<Word>, y: seq<Word>)
    ensures Val(x[..0], W) == 0 && Val(y[..0], W) == 0 && Gated(gate, 0, 0) == 0
  {
  }

  /** The bitwise operations in place, on one word or several. */
  method ApplyGate(gate: Gate, a: ApInt, b: ApInt)
    requires a.Valid() && b.Valid() && a.bits == b.bits
    modifies a.words
    ensures a.Valid() && a.Value() == Gated(gate, old(a.Value()), old(b.Value()))
  {
    hide Val, Gated;
    ghost var last := a.words.Length - 1;
    GatedBound(gate, a.words[last], b.words[last], LastBits(a.bits));
    GateWords(gate, a.words, b.words);
  }
}
