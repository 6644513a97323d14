/** Printing a multiword number in decimal by repeated division by ten. */
module DecimalPrinter {
  import opened Powers
  import opened Digits
  import opened Machine
  import opened ApInts
  import opened DivisionStep
  import opened BignumDivision
  import opened ApIntDivision

  function DigitChar(d: nat): (c: char)
    requires d < 10
    ensures '0' <= c <= '9' && c as int - '0' as int == d
  {
    ('0' as int + d) as char
  }

  /** The number a string of decimal digits, most significant first, stands for. */
  function Parse(s: string): nat
    requires forall i :: 0 <= i < |s| ==> '0' <= s[i] <= '9'
  {
    if |s| == 0 then 0 else 10 * Parse(s[..|s| - 1]) + (s[|s| - 1] as int - '0' as int)
  }

  /** A decimal numeral: digits only, at least one, and no leading zero but in
      "0" itself. */
  predicate IsNumeral(s: string)
  {
    && 0 < |s|
    && (forall i :: 0 <= i < |s| ==> '0' <= s[i] <= '9')
    && (1 < |s| ==> s[0] != '0')
  }

  function Decimal(x: nat): (s: string)
  {
    if x < 10 then [DigitChar(x)] else Decimal(x / 10) + [DigitChar(x % 10)]
  }

  /** Decimal(x) is a numeral of value x. */
  lemma {:induction false} DecimalIsNumeral(x: nat)
    ensures IsNumeral(Decimal(x)) && Parse(Decimal(x)) == x
    ensures x > 0 ==> Decimal(x)[0] != '0'
  {
    if x >= 10 {
      DecimalIsNumeral(x / 10);
      var s := Decimal(x / 10);
      assert Decimal(x)[..|s|] == s;
    } else {
      assert Decimal(x)[..0] == [];
    }
  }

  /** There is one numeral for each number. */
  lemma {:induction false} NumeralUnique(s: string)
    requires IsNumeral(s)
    ensures s == Decimal(Parse(s))
    ensures s[0] != '0' ==> 0 < Parse(s)
  {
    var k := |s| - 1;
    var d := s[k] as int - '0' as int;
    if k == 0 {
      assert s[..0] == [] && s == [s[0]];
    } else {
      NumeralUnique(s[..k]);
      assert Parse(s) / 10 == Parse(s[..k]) && Parse(s) % 10 == d;
      assert s == s[..k] + [s[k]];
    }
  }

  // ------------------------------------------------- the size of the buffer

  /** The least k with 2^n <= 10^k, which is n * log10(2) rounded up. */
  function MaxDecDigits(n: nat): (k: nat)
    ensures Pow(2, n) <= Pow(10, k)
    ensures 0 < k ==> Pow(10, k - 1) < Pow(2, n)
  {
    if n == 0 then 0 else
      var k := MaxDecDigits(n - 1);
      if Pow(2, n) <= Pow(10, k) then k else k + 1
  }

  lemma {:induction false} DecimalLength(x: nat, k: nat)
    requires x < Pow(10, k) && 0 < k
    ensures |Decimal(x)| <= k
    decreases k
  {
    if x >= 10 {
      assert Pow(10, k) == 10 * Pow(10, k - 1);
      assert k > 1 by { assert Pow(10, 1) == 10 * Pow(10, 0); }
      DecimalLength(x / 10, k - 1);
    }
  }

  function Reverse(s: string): (r: string)
    ensures |r| == |s|
  {
    if |s| == 0 then [] else [s[|s| - 1]] + Reverse(s[..|s| - 1])
  }

  lemma ReverseAppend(s: string, c: char)
    ensures Reverse(s + [c]) == [c] + Reverse(s)
  {
    assert (s + [c])[..|s|] == s;
  }

  // ------------------------------------------------------------ the printer

  /** Writing only the words that matter still leaves a canonical number. */
  lemma PartialWrite(now: seq<Word>, was: seq<Word>, k: nat, bits: nat)
    requires Canonical(was, bits) && |now| == |was| && k <= |was|
    requires Val(was[..k], W) == Val(was, W) && now[k..] == was[k..]
    requires Val(now[..k], W) <= Val(was, W)
    ensures Canonical(now, bits) && Val(now, W) == Val(now[..k], W)
  {
    hide Val, Pow;
    CanonicalBound(was, bits);
    ValSplit(was, k, W);
    ValSplit(now, k, W);
    SmallIsCanonical(now, bits);
  }

  lemma StillCanonical(now: seq<Word>, was: seq<Word>, k: nat, bits: nat)
    requires Canonical(was, bits) && |now| == |was| && k <= |was|
    requires now[k..] == was[k..] && Val(now[..k], W) < Pow(2, bits)
    ensures Canonical(now, bits)
  {
    if k == |was| {
      assert now[..k] == now;
      SmallIsCanonical(now, bits);
    } else {
      var n := |was| - k - 1;
      assert now[k..][n] == was[k..][n];
    }
  }

  /** A remainder below one word sits in word 0. */
  lemma SmallRemainder(s: seq<Word>, k: nat, v: nat)
    requires 0 < k <= |s| && Val(s[..k], W) == v && v < W
    ensures s[0] == v
  {
    hide Pow;
    assert s[..k] == [s[0]] + s[1..k];
    ValCons(s[0], s[1..k], W);
    DivModUnique(v, W, Val(s[1..k], W), s[0]);
    DivModUnique(v, W, 0, v);
  }

  /** A divisor of one digit never loses a borrow. */
  lemma TenDivides(x: nat)
    requires 10 <= x
    ensures DividesRight(AsWritten, x, 10)
  {
    hide DividesRight;
    WordDivisor(AsWritten, x, 10);
  }

  /** One digit: x is divided by ten in place and the remainder returned. */
  method TakeDigit(x: ApInt, ten: ApInt, d: ApInt) returns (digit: nat)
    requires x.Valid() && ten.Valid() && d.Valid() && x.bits == ten.bits == d.bits && 64 < x.bits
    requires x.words != ten.words && d.words != x.words && d.words != ten.words
    requires ten.Value() == 10 && 10 <= x.Value()
    modifies x.words, d.words
    ensures x.Valid() && d.Valid() && ten.Value() == 10
    ensures digit < 10 && digit == old(x.Value()) % 10 && x.Value() == old(x.Value()) / 10
  {
    hide Val, Canonical, DividesRight;
    TenDivides(x.Value());
    ghost var was, dWas, v := x.words[..], d.words[..], x.Value();
    var ok; ghost var qn; ghost var rn;
    ok, qn, rn := UDivRem(AsWritten, x, ten, x, d);
    FloorBounds(v, 10);
    PartialWrite(x.words[..], was, qn, x.bits);
    SmallRemainder(d.words[..], rn, v % 10);
    CanonicalBound(was, x.bits);
    StillCanonical(d.words[..], dWas, rn, d.bits);
    digit := d.words[0];
  }

  /** Takes the digits of the number, all but the first, into the buffer from
      the least significant up. */
  method GatherDigits(tmp: ApInt, ten: ApInt, d: ApInt, digits: array<char>) returns (i: nat)
    requires tmp.Valid() && ten.Valid() && d.Valid() && tmp.bits == ten.bits == d.bits && 64 < tmp.bits
    requires tmp.words != ten.words && d.words != tmp.words && d.words != ten.words
    requires ten.Value() == 10 && |Decimal(tmp.Value())| <= digits.Length
    modifies tmp.words, d.words, digits
    ensures tmp.Valid() && ten.Valid() && ten.Value() == 10 && tmp.Value() < 10
    ensures i < digits.Length
    ensures Decimal(old(tmp.Value())) == Decimal(tmp.Value()) + Reverse(digits[..i])
  {
    hide Val, Canonical, Pow, Decimal, Reverse;
    i := 0;
    Unprinted(Decimal(tmp.Value()), digits[..0]);
    var more := UnsignedCmp(tmp, ten);
    while more >= 0
      invariant tmp.Valid() && ten.Valid() && d.Valid()
      invariant ten.Value() == 10
      invariant more >= 0 <==> 10 <= tmp.Value()
      invariant i + |Decimal(tmp.Value())| <= digits.Length
      invariant Decimal(old(tmp.Value())) == Decimal(tmp.Value()) + Reverse(digits[..i])
      decreases tmp.Value()
    {
      ghost var v := tmp.Value();
      DecimalStep(v);
      var digit := TakeDigit(tmp, ten, d);
      digits[i] := DigitChar(digit);
      ReverseStep(Decimal(v / 10), digits[..i], digits[i]);
      assert digits[..i + 1] == digits[..i] + [digits[i]];
      i := i + 1;
      more := UnsignedCmp(tmp, ten);
    }
    DecimalStep(tmp.Value());
  }

  lemma Unprinted(s: string, t: string)
    requires t == ""
    ensures s == s + Reverse(t)
  {
  }

  /** Writes the buffer from index i down to 0. */
  method WriteBackwards(digits: array<char>, last: nat) returns (out: string)
    requires last < digits.Length
    ensures out == Reverse(digits[..last + 1])
  {
    hide Reverse;
    var i: int := last;
    out := "";
    while i >= 0
      invariant -1 <= i <= last
      invariant Reverse(digits[..last + 1]) == out + Reverse(digits[..i + 1])
      decreases i
    {
      assert digits[..i + 1] == digits[..i] + [digits[i]];
      ReverseAppend(digits[..i], digits[i]);
      out := out + [digits[i]];
      i := i - 1;
    }
    Unprinted(out, digits[..0]);
  }

  /** Prints the number: its digits are gathered from the least significant into
      a buffer of MaxDecDigits characters, then written out backwards. */
  method PrintUint(x: ApInt) returns (out: string)
    requires x.Valid() && 64 < x.bits
    ensures out == Decimal(x.Value()) && |out| <= MaxDecDigits(x.bits)
  {
    hide Val, Canonical, Pow, Decimal, Reverse, DividesRight, Remd;
    var tmp := x.Copy();
    var ten := new ApInt.Zero(x.bits);
    TenFits(x.bits);
    ten.AssignUimm(10);
    var d := new ApInt.Zero(x.bits);
    CanonicalBound(x.words[..], x.bits);
    BufferBound(x.Value(), x.bits);
    var digits := new char[MaxDecDigits(x.bits)];
    var i := GatherDigits(tmp, ten, d, digits);
    ghost var v := tmp.Value();
    DecimalStep(v);
    FloorBounds(v, 10);
    var ok, rem := URem(AsWritten, tmp, ten);
    SmallWord(rem, v);
    digits[i] := DigitChar(rem.words[0]);
    assert digits[..i + 1] == digits[..i] + [digits[i]];
    ReverseAppend(digits[..i], digits[i]);
    out := WriteBackwards(digits, i);
  }

  lemma SmallWord(r: ApInt, v: nat)
    requires r.Valid() && r.Value() == v && v < W
    ensures 0 < r.words.Length && r.words[0] == v
  {
    assert r.words[..][..r.words.Length] == r.words[..];
    SmallRemainder(r.words[..], r.words.Length, v);
  }

  lemma TenFits(bits: nat)
    requires 64 < bits
    ensures 10 < W <= Pow(2, bits)
  {
    TwoToThe64();
    PowMono(2, 64, bits);
  }

  lemma BufferBound(x: nat, bits: nat)
    requires x < Pow(2, bits) && 0 < bits
    ensures 1 <= |Decimal(x)| <= MaxDecDigits(bits)
  {
    PowStrict(2, 0, bits);
    DecimalLength(x, MaxDecDigits(bits));
    DecimalIsNumeral(x);
  }

  lemma DecimalStep(v: nat)
    ensures v < 10 ==> Decimal(v) == [DigitChar(v)]
    ensures 10 <= v ==> Decimal(v) == Decimal(v / 10) + [DigitChar(v % 10)] && v / 10 < v
  {
  }

  lemma ReverseStep(a: string, s: string, c: char)
    ensures (a + [c]) + Reverse(s) == a + Reverse(s + [c])
  {
    ReverseAppend(s, c);
  }
}
