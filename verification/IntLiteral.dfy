/** Reading an integer literal: digits are accumulated in a number that is widened
    when a division back shows that the multiplication overflowed. */
module IntLiteral {
  import opened Powers
  import opened Digits
  import opened Machine
  import opened WordLoops
  import opened ApInts
  import opened DivisionStep
  import opened BignumDivision
  import opened ApIntDivision
  import opened ApIntMultiply
  import opened ApIntBits
  import opened SmallQuotients
  import DecimalPrinter

  // ---------------------------------------------------------------- digits

  predicate IsBase(base: nat)
  {
    base == 2 || base == 8 || base == 10 || base == 16
  }

  predicate IsValidDigit(c: char, base: nat)
    requires IsBase(base)
  {
    match base
    case 2 => '0' <= c <= '1'
    case 8 => '0' <= c <= '7'
    case 10 => '0' <= c <= '9'
    case _ => '0' <= c <= '9' || 'a' <= c <= 'f' || 'A' <= c <= 'F'
  }

  function DigitNum(c: char, base: nat): (d: nat)
    requires IsBase(base) && IsValidDigit(c, base)
    ensures d < base
  {
    if base != 16 || '0' <= c <= '9' then c as int - '0' as int
    else if 'a' <= c <= 'f' then c as int - 'a' as int + 10
    else c as int - 'A' as int + 10
  }

  /** The run of digits is str[start..end]. */
  predicate DigitRun(str: string, start: nat, end: nat, base: nat)
    requires IsBase(base)
  {
    && start <= end <= |str|
    && (forall i :: start <= i < end ==> IsValidDigit(str[i], base))
    && (end < |str| ==> !IsValidDigit(str[end], base))
  }

  /** The sum of digit * base^k over the digits from start to end. */
  function Numeral(str: string, start: nat, end: nat, base: nat): nat
    requires IsBase(base) && start <= end <= |str|
    requires forall i :: start <= i < end ==> IsValidDigit(str[i], base)
    decreases end
  {
    if start == end then 0 else Numeral(str, start, end - 1, base) * base + DigitNum(str[end - 1], base)
  }

  /** The character shows the digit d, in either case. */
  predicate Shows(c: char, d: nat)
  {
    d < 16 && (c == "0123456789abcdef"[d] || c == "0123456789ABCDEF"[d])
  }

  /** The characters spell the number in positional notation, the most significant
      digit first. */
  ghost predicate Spells(s: string, base: nat, num: int)
  {
    if s == "" then num == 0 else
      exists d: nat | d < base :: Shows(s[0], d) && Spells(s[1..], base, num - d * Pow(base, |s| - 1))
  }

  /** A character is a digit of the base exactly when it shows one below it, which is
      the one it counts for. */
  lemma DigitShown(c: char, base: nat)
    requires IsBase(base)
    ensures IsValidDigit(c, base) <==> exists d: nat :: d < base && Shows(c, d)
    ensures IsValidDigit(c, base) ==> forall d: nat :: Shows(c, d) <==> d == DigitNum(c, base)
  {
    hide Shows;
    forall d: nat ensures Shows(c, d) <==> d < 16 && c as int in {LowerCode(d), UpperCode(d)} { ShownCode(c, d); }
    if IsValidDigit(c, base) { assert Shows(c, DigitNum(c, base)); }
  }

  function LowerCode(d: nat): int
  {
    if d < 10 then '0' as int + d else 'a' as int + d - 10
  }

  function UpperCode(d: nat): int
  {
    if d < 10 then '0' as int + d else 'A' as int + d - 10
  }

  lemma ShownCode(c: char, d: nat)
    ensures Shows(c, d) <==> d < 16 && c as int in {LowerCode(d), UpperCode(d)}
  {
  }

  /** The numeral is the number spelled, and no other is. */
  lemma {:induction false} NumeralSpelled(str: string, start: nat, end: nat, base: nat, num: int)
    requires IsBase(base) && start <= end <= |str|
    requires forall i :: start <= i < end ==> IsValidDigit(str[i], base)
    ensures Spells(str[start..end], base, num) <==> num == Numeral(str, start, end, base)
    decreases end - start
  {
    hide Pow, IsValidDigit, Shows;
    if start < end {
      var s, place := str[start..end], Pow(base, end - start - 1);
      var d := DigitNum(str[start], base);
      assert s[0] == str[start] && s[1..] == str[start + 1..end];
      DigitShown(str[start], base);
      NumeralSpelled(str, start + 1, end, base, num - d * place);
      NumeralFirst(str, start, end, base);
    } else {
      assert str[start..end] == "";
    }
  }

  /** What the first digit counts for. */
  lemma {:induction false} NumeralFirst(str: string, start: nat, end: nat, base: nat)
    requires IsBase(base) && start < end <= |str|
    requires forall i :: start <= i < end ==> IsValidDigit(str[i], base)
    ensures Numeral(str, start, end, base) ==
            DigitNum(str[start], base) * Pow(base, end - start - 1) + Numeral(str, start + 1, end, base)
    decreases end
  {
    hide IsValidDigit, DigitNum, Pow;
    var d := DigitNum(str[start], base);
    if start + 1 < end {
      NumeralFirst(str, start, end - 1, base);
      PlaceStep(d, base, end - start - 2, Numeral(str, start + 1, end - 1, base));
    } else {
      assert Numeral(str, start, start, base) == 0 && Numeral(str, start + 1, end, base) == 0;
      assert Pow(base, 0) == 1 by { NoPlaces(base); }
    }
  }

  lemma NoPlaces(base: nat)
    ensures Pow(base, 0) == 1
  {
  }

  lemma PlaceStep(d: nat, base: nat, k: nat, rest: nat)
    ensures (d * Pow(base, k) + rest) * base == d * Pow(base, k + 1) + rest * base
  {
    Associate(d, Pow(base, k), base);
    Distribute(base, d * Pow(base, k), rest);
  }

  // ------------------------------------------------------- one digit, as written

  /** The accumulator: its width and value. */
  datatype Acc = Acc(width: nat, value: nat)

  predicate Fits(acc: Acc)
  {
    0 < acc.width && acc.width % 64 == 0 && acc.value < Pow(2, acc.width)
  }

  /** Taking one digit.  When the multiplication overflows the digit is taken again
      in a wider number.  When the addition does, it is taken again too, but from
      the value that has been multiplied already. */
  function TakeDigit(acc: Acc, base: nat, d: nat): Acc
  {
    var v := acc.value;
    if Pow(2, acc.width) <= v * base then Acc(acc.width + 64, v * base + d)
    else if Pow(2, acc.width) <= v * base + d then Acc(acc.width + 64, v * base * base + d)
    else Acc(acc.width, v * base + d)
  }

  /** Sixty-four more bits have room for two more digits. */
  lemma RoomForTwo(v: nat, n: nat, base: nat, d: nat)
    requires base <= 16 && d < base && v < Pow(2, n)
    ensures Pow(2, n + 64) == W * Pow(2, n) && 256 * Pow(2, n) <= Pow(2, n + 64)
    ensures v * base + d < Pow(2, n + 64)
    ensures v * base < Pow(2, n) ==> v * base * base + d < Pow(2, n + 64)
  {
    hide Pow;
    TwoToThe64();
    PowAdd(2, n, 64);
    MulMono(v, base, 16);
    if v * base < Pow(2, n) { MulMono(v * base, base, 16); }
  }

  /** Taking the digits from start to end. */
  function Taken(str: string, start: nat, end: nat, base: nat): Acc
    requires IsBase(base) && start <= end <= |str|
    requires forall i :: start <= i < end ==> IsValidDigit(str[i], base)
    decreases end
  {
    if start == end then Acc(64, 0) else
      TakeDigit(Taken(str, start, end - 1, base), base, DigitNum(str[end - 1], base))
  }

  // -------------------------------------------------- when the value is right

  /** A digit carries the numeral across a width of whole words, where its product
      with the base alone did not. */
  ghost predicate CrossesByDigit(p: int, d: int)
  {
    exists j: nat :: 1 <= j && p < Pow(2, 64 * j) <= p + d
  }

  ghost predicate EverCrosses(str: string, start: nat, end: nat, base: nat)
    requires IsBase(base) && start <= end <= |str|
    requires forall i :: start <= i < end ==> IsValidDigit(str[i], base)
    decreases end
  {
    start < end
    && (|| EverCrosses(str, start, end - 1, base)
        || CrossesByDigit(Numeral(str, start, end - 1, base) * base, DigitNum(str[end - 1], base)))
  }

  /** The width is the least number of words with room. */
  predicate Tight(acc: Acc)
  {
    Fits(acc) && (64 < acc.width ==> Pow(2, acc.width - 64) <= acc.value)
  }

  /** One step from a tight accumulator: exact unless the digit crosses. */
  lemma StepExactIff(acc: Acc, base: nat, d: nat)
    requires Tight(acc) && 1 < base <= 16 && d < base
    ensures Tight(TakeDigit(acc, base, d))
    ensures TakeDigit(acc, base, d).value >= acc.value * base + d
    ensures TakeDigit(acc, base, d).value == acc.value * base + d <==> !CrossesByDigit(acc.value * base, d)
  {
    hide Pow;
    var v, n := acc.value, acc.width;
    RoomForTwo(v, n, base, d);
    MulMono(v, 1, base);
    if v * base < Pow(2, n) <= v * base + d {
      assert 64 * (n / 64) == n;
      CrossingGrows(v, n, base, d);
    } else {
      forall j: nat | 1 <= j && v * base < Pow(2, 64 * j) ensures Pow(2, 64 * j) > v * base + d {
        NoOtherWidth(v, n, base, d, j);
      }
    }
  }

  lemma CrossingGrows(v: nat, n: nat, base: nat, d: nat)
    requires 1 < base <= 16 && d < base && 64 <= n && Pow(2, n) <= v * base + d
    ensures v * base * base + d > v * base + d
  {
    PowMono(2, 6, n);
    assert Pow(2, 6) == 64;
    MulMono(v * base, 2, base);
  }

  lemma NoOtherWidth(v: nat, n: nat, base: nat, d: nat, j: nat)
    requires Tight(Acc(n, v)) && 1 < base <= 16 && d < base
    requires 1 <= j && v * base < Pow(2, 64 * j)
    requires !(v * base < Pow(2, n) <= v * base + d)
    ensures Pow(2, 64 * j) > v * base + d
  {
    hide Pow;
    RoomForTwo(v, n, base, d);
    MulMono(v, 1, base);
    if 64 * j < n {
      PowMono(2, 64 * j, n - 64);
    } else if 64 * j > n {
      PowMono(2, n + 64, 64 * j);
    }
  }

  // --------------------------------------------------------- the whole run

  /** The digits' reading never falls below the numeral, and is the numeral unless a
      digit crossed on the way. */
  lemma {:induction false} TakenIsNumeral(str: string, start: nat, end: nat, base: nat)
    requires IsBase(base) && start <= end <= |str|
    requires forall i :: start <= i < end ==> IsValidDigit(str[i], base)
    ensures Tight(Taken(str, start, end, base))
    ensures Numeral(str, start, end, base) <= Taken(str, start, end, base).value
    ensures Taken(str, start, end, base).value == Numeral(str, start, end, base)
       <==> !EverCrosses(str, start, end, base)
    decreases end
  {
    if start < end {
      TakenIsNumeral(str, start, end - 1, base);
      hide Tight, CrossesByDigit, TakeDigit, IsValidDigit;
      var acc, num, d := Taken(str, start, end - 1, base), Numeral(str, start, end - 1, base), DigitNum(str[end - 1], base);
      StepExactIff(acc, base, d);
      MulMono(base, num, acc.value);
      if num < acc.value { MulStrict(base, num, acc.value); }
    } else {
      FirstWidth();
    }
  }

  lemma FirstWidth()
    ensures Tight(Acc(64, 0))
  {
    TwoToThe64();
  }

  /** A numeral below 2^64 is read exactly and stays in one word. */
  lemma {:induction false} OneWordIsExact(str: string, start: nat, end: nat, base: nat)
    requires IsBase(base) && start <= end <= |str|
    requires forall i :: start <= i < end ==> IsValidDigit(str[i], base)
    requires Numeral(str, start, end, base) < W
    ensures Taken(str, start, end, base) == Acc(64, Numeral(str, start, end, base))
    decreases end
  {
    if start < end {
      var num := Numeral(str, start, end - 1, base);
      MulMono(num, 1, base);
      OneWordIsExact(str, start, end - 1, base);
      TwoToThe64();
    }
  }

  /** In a base that is a power of two no digit ever crosses. */
  lemma {:induction false} PowersNeverCross(str: string, start: nat, end: nat, base: nat)
    requires IsBase(base) && base != 10 && start <= end <= |str|
    requires forall i :: start <= i < end ==> IsValidDigit(str[i], base)
    ensures !EverCrosses(str, start, end, base)
    decreases end
  {
    if start < end {
      PowersNeverCross(str, start, end - 1, base);
      var num, d := Numeral(str, start, end - 1, base), DigitNum(str[end - 1], base);
      forall j: nat | 1 <= j && num * base < Pow(2, 64 * j) ensures num * base + d < Pow(2, 64 * j) {
        BelowMultiple(num, base, d, 64 * j);
      }
    }
  }

  lemma BelowMultiple(num: nat, base: nat, d: nat, n: nat)
    requires (base == 2 || base == 8 || base == 16) && d < base && 64 <= n && num * base < Pow(2, n)
    ensures num * base + d < Pow(2, n)
  {
    hide Pow;
    var k: nat := if base == 2 then 1 else if base == 8 then 3 else 4;
    BasePower(base, k);
    PowSplit(2, k, n);
    FactorLess(base, num, num * base, Pow(2, n - k));
    Distribute(base, num, 1);
    MulMono(base, num + 1, Pow(2, n - k));
  }

  lemma BasePower(base: nat, k: nat)
    requires (base == 2 && k == 1) || (base == 8 && k == 3) || (base == 16 && k == 4)
    ensures Pow(2, k) == base
  {
    PowOne(2);
    assert Pow(2, 3) == 8;
    assert Pow(2, 4) == 16;
  }

  /** In base 10 one does: the last digit of 2^64 crosses, and the literal is read
      almost ten times too large. */
  lemma TwoToThe64IsMisread()
    ensures TakeDigit(Acc(64, 1844674407370955161), 10, 6) == Acc(128, 184467440737095516106)
    ensures 1844674407370955161 * 10 + 6 == W
    ensures CrossesByDigit(1844674407370955161 * 10, 6)
  {
    TwoToThe64();
    assert Pow(2, 64 * 1) == W;
  }

  // ------------------------------------------------------------ the reader

  /** Compares a number of any width with one word. */
  method CmpUimm(a: ApInt, b: Word) returns (c: int)
    requires a.Valid()
    ensures c == if a.Value() < b then -1 else if a.Value() == b then 0 else 1
  {
    hide Val, Pow, HasBits;
    var n := SigBits(a);
    if n > WordBitCount {
      MoreThanAWord(a, n);
      return 1;
    }
    LowWordIs(a, n);
    var w := a.words[0];
    c := if w < b then -1 else if w == b then 0 else 1;
  }

  lemma MoreThanAWord(a: ApInt, n: nat)
    requires a.Valid() && n > 64 && (a.Value() != 0 ==> HasBits(a.Value(), n))
    requires a.Value() == 0 ==> n <= 1
    ensures W <= a.Value()
  {
    hide Val;
    TwoToThe64();
    PowMono(2, 64, n - 1);
  }

  lemma LowWordIs(a: ApInt, n: nat)
    requires a.Valid() && n <= 64 && (a.Value() != 0 ==> HasBits(a.Value(), n))
    ensures 0 < a.words.Length && a.words[0] == a.Value()
  {
    hide Val;
    TwoToThe64();
    if a.Value() != 0 { PowMono(2, n, 64); }
    DecimalPrinter.SmallWord(a, a.Value());
  }

  /** Dividing the product back gives the base exactly when the product did not
      overflow; as written too, although the division is not exact in general. */
  lemma DivideBack(form: Form, v: nat, base: nat, m: nat)
    requires 0 < v < m && 1 < base <= 16
    ensures Quot(form, (v * base) % m, v) == base <==> v * base < m
    ensures Quot(form, (v * base) % m, v) <= 17
  {
    hide Quot;
    DivModDef(v * base, m);
    var x := (v * base) % m;
    MulMono(v, base, 16);
    QuotientAtMost(v * base, m);
    SmallQuot(form, x, v);
    if v * base < m {
      WholeQuotient(v, base, m);
    } else {
      WrappedQuotient(v, base, m);
    }
  }

  /** A product that does not wrap gives the base back without a remainder. */
  lemma WholeQuotient(v: nat, base: nat, m: nat)
    requires 0 < v && 1 < base && v * base < m
    ensures var x := (v * base) % m; v < x && x / v == base && x % v == 0
  {
    DivModUnique(v * base, m, 0, v * base);
    DivModUnique(v * base, v, base, 0);
    MulStrict(v, 1, base);
  }

  /** A product that wraps is at least twice short of the base. */
  lemma WrappedQuotient(v: nat, base: nat, m: nat)
    requires 0 < v < m <= v * base && 1 < base
    ensures var x := (v * base) % m; x / v <= base - 2 && x <= v * base
  {
    DivModDef(v * base, m);
    var k, x := (v * base) / m, (v * base) % m;
    FactorLess(m, 0, m, k + 1);
    MulMono(m, 1, k);
    Distribute(v, base, -1);
    DivModDef(x, v);
    FactorLess(v, x / v, x, base - 1);
  }

  lemma SmallQuot(form: Form, x: nat, y: nat)
    requires 0 < y && x <= 16 * y
    ensures Quot(form, x, y) <= x / y + 1 <= 17
    ensures y < x ==> x / y <= Quot(form, x, y) && (x % y == 0 ==> Quot(form, x, y) == x / y)
    ensures x <= y ==> Quot(form, x, y) <= 1
  {
    hide QuotientOf, DividesRight;
    DivModDef(x, y);
    FactorLess(y, x / y, x, 17);
    FactorLess(y, -1, x, x / y + 1);
    if y < x {
      if form.Reduced? {
        ReducedIsRight(x, y);
        RightQuotient(form, x, y);
      } else {
        SmallQuotient(x, y);
      }
    }
  }

  lemma ReducedIsRight(x: nat, y: nat)
    requires 0 < y <= x
    ensures DividesRight(Reduced, x, y)
  {
  }

  /** The three numbers the reader works with. */
  ghost predicate Working(accum: ApInt, prev: ApInt, divRes: ApInt)
    reads accum, prev, divRes, accum.words, prev.words, divRes.words
  {
    && accum.Valid() && prev.Valid() && divRes.Valid()
    && 64 <= accum.bits == prev.bits == divRes.bits && accum.bits % 64 == 0
    && accum != prev && accum != divRes && prev != divRes
    && accum.words != prev.words && accum.words != divRes.words && prev.words != divRes.words
  }

  /** Restores the number before the overflow and makes room. */
  method Overflow(accum: ApInt, prev: ApInt, divRes: ApInt)
    requires Working(accum, prev, divRes)
    modifies accum, prev, divRes, accum.words, prev.words, divRes.words
    ensures Working(accum, prev, divRes) && fresh(accum.words) && fresh(prev.words) && fresh(divRes.words)
    ensures accum.bits == old(accum.bits) + 64
    ensures accum.Value() == prev.Value() == old(prev.Value())
  {
    hide Val, Pow, Canonical;
    accum.Assign(prev);
    var newBits := accum.bits + 64;
    Ext(accum, newBits);
    Ext(prev, newBits);
    Ext(divRes, newBits);
  }

  /** Up to two words, or with the right test of the carry, adding a digit is
      exact. */
  predicate Exact(how: Carrying, n: nat)
  {
    how.WrapsToZero? || n <= 128
  }

  /** Adding d to p carries out of the lowest word. */
  predicate Carries(p: nat, d: nat)
  {
    W <= p % W + d
  }

  /** What a turn does with a number v of n bits: the product overflows, or the sum
      seems to, and the digit is to be taken again; or the digit is taken, exactly if
      addition is exact and otherwise without falling below the product. */
  ghost predicate Outcome(how: Carrying, acc: Acc, base: nat, d: nat, again: bool, acc': Acc)
  {
    var v, n, p := acc.value, acc.width, acc.value * base;
    if Pow(2, n) <= p then again && acc' == Acc(n + 64, v)
    else
      && (if again then acc' == Acc(n + 64, p) && Carries(p, d) else acc'.width == n && p <= acc'.value)
      && (Exact(how, n) ==> (again <==> Pow(2, n) <= p + d) && (!again ==> acc'.value == p + d))
  }

  /** Divides the truncated product back and compares with the base. */
  method ProductOverflowed(form: Form, accum: ApInt, prev: ApInt, divRes: ApInt, base: nat) returns (over: bool)
    requires Working(accum, prev, divRes) && 1 < base <= 16
    requires 0 < Pow(2, accum.bits) && accum.Value() == (prev.Value() * base) % Pow(2, accum.bits)
    modifies divRes.words
    ensures Working(accum, prev, divRes)
    ensures over <==> Pow(2, accum.bits) <= prev.Value() * base
  {
    hide Val, Pow, Canonical, HasBits, Quot;
    ghost var v, n := prev.Value(), accum.bits;
    CanonicalBound(prev.words[..], prev.bits);
    over := false;
    var zero := CmpUimm(prev, 0);
    if zero != 0 {
      divRes.Assign(accum);
      DivideBack(form, v, base, Pow(2, n));
      var ok, q := UDiv(form, divRes, prev);
      DigitFits(n);
      SmallIsCanonical(q.words[..], n);
      divRes.Assign(q);
      var same := CmpUimm(divRes, base);
      over := same != 0;
    }
  }

  /** One turn of the loop: takes the digit, or finds that it has to be taken
      again in a wider number. */
  method ReadDigit(form: Form, how: Carrying, accum: ApInt, prev: ApInt, divRes: ApInt, base: nat, d: nat)
    returns (again: bool)
    requires Working(accum, prev, divRes) && accum.Value() == prev.Value()
    requires IsBase(base) && d < base
    modifies accum, prev, divRes, accum.words, prev.words, divRes.words
    ensures Working(accum, prev, divRes) && accum.Value() == prev.Value()
    ensures fresh(accum.words) || accum.words == old(accum.words)
    ensures fresh(prev.words) || prev.words == old(prev.words)
    ensures fresh(divRes.words) || divRes.words == old(divRes.words)
    ensures Outcome(how, Acc(old(accum.bits), old(accum.Value())), base, d, again, Acc(accum.bits, accum.Value()))
  {
    hide Val, Pow, Canonical, ImmediateRight, HasBits, Quot, Carries;
    ghost var v, n := accum.Value(), accum.bits;
    CanonicalBound(accum.words[..], accum.bits);
    MulUimm(accum, base);
    var over := ProductOverflowed(form, accum, prev, divRes, base);
    if over {
      Overflow(accum, prev, divRes);
      return true;
    }
    ProductIs(v, base, Pow(2, n));
    prev.Assign(accum);
    again := AddDigit(how, accum, prev, divRes, v * base, d);
  }

  lemma ProductIs(v: nat, base: nat, m: nat)
    requires v * base < m
    ensures (v * base) % m == v * base
  {
    DivModUnique(v * base, m, 0, v * base);
  }

  /** The second half of the turn, after the multiplication. */
  method AddDigit(how: Carrying, accum: ApInt, prev: ApInt, divRes: ApInt, ghost p: nat, d: nat) returns (again: bool)
    requires Working(accum, prev, divRes) && accum.Value() == prev.Value() == p && d < 16
    modifies accum, prev, divRes, accum.words, prev.words, divRes.words
    ensures Working(accum, prev, divRes) && accum.Value() == prev.Value()
    ensures fresh(accum.words) || accum.words == old(accum.words)
    ensures fresh(prev.words) || prev.words == old(prev.words)
    ensures fresh(divRes.words) || divRes.words == old(divRes.words)
    ensures var n := old(accum.bits);
            && (if again then accum.bits == n + 64 && accum.Value() == p && Carries(p, d)
                else accum.bits == n && p <= accum.Value())
            && (Exact(how, n) ==> (again <==> Pow(2, n) <= p + d) && (!again ==> accum.Value() == p + d))
  {
    hide Val, Pow, Canonical, ImmediateRight, Carries;
    ghost var n := accum.bits;
    CanonicalBound(accum.words[..], accum.bits);
    DigitFits(n);
    Sizes(accum);
    AdditionRight(how, accum.words[..], n, d);
    accum.AddUimm(how, d);
    WrappedSum(p, d, Pow(2, n));
    var below := UnsignedCmp(accum, prev);
    if below < 0 {
      Overflow(accum, prev, divRes);
      return true;
    }
    prev.Assign(accum);
    again := false;
  }

  /** Where the sum can go wrong: only where a carry leaves the lowest word, and
      beyond two words. */
  lemma AdditionRight(how: Carrying, s: seq<Word>, n: nat, d: nat)
    requires 64 <= n && n % 64 == 0 && Canonical(s, n) && d < 16
    ensures Exact(how, n) || !Carries(Val(s, W), d) ==> ImmediateRight(how, s, d)
    ensures !Carries(Val(s, W), d) ==> Val(s, W) + d < Pow(2, n)
  {
    hide Val, Pow;
    var p := Val(s, W);
    CanonicalBound(s, n);
    WordLoops.ValFirst(s);
    DivModUnique(p, W, Val(s[1..], W), s[0]);
    if !Carries(p, d) {
      TwoToThe64();
      PowSplit(2, 64, n);
      FactorLess(W, p / W, p, Pow(2, n - 64));
      MulMono(W, p / W + 1, Pow(2, n - 64));
    }
  }

  lemma DigitFits(n: nat)
    requires 64 <= n
    ensures 17 < Pow(2, n)
  {
    PowMono(2, 5, n);
    assert Pow(2, 5) == 32;
  }

  /** A sum wraps exactly when it falls below a summand. */
  lemma WrappedSum(p: nat, d: nat, m: nat)
    requires p < m && d < m
    ensures (p + d) % m == if m <= p + d then p + d - m else p + d
    ensures (p + d) % m < p <==> m <= p + d
  {
    if m <= p + d { DivModUnique(p + d, m, 1, p + d - m); } else { DivModUnique(p + d, m, 0, p + d); }
  }

  predicate DigitAt(str: string, i: nat, base: nat)
    requires IsBase(base)
  {
    i < |str| && IsValidDigit(str[i], base)
  }

  /** Reads the run of digits from start on.  As long as two words are enough, and
      with the right test of the carry in any width, the number is the one taken digit
      by digit; as written a number that needs more is at least 2^64, as it should
      be. */
  method ReadCommon(form: Form, how: Carrying, str: string, start: nat, base: nat) returns (accum: ApInt, end: nat)
    requires IsBase(base) && start <= |str|
    ensures DigitRun(str, start, end, base)
    ensures fresh(accum) && fresh(accum.words) && accum.Valid()
    ensures Exact(how, Taken(str, start, end, base).width) ==>
            Acc(accum.bits, accum.Value()) == Taken(str, start, end, base)
    ensures !Exact(how, Taken(str, start, end, base).width) ==> W <= accum.Value()
  {
    hide Val, Pow, Canonical, IsValidDigit, TakeDigit, Taken, Exact, Outcome, Reading;
    accum := new ApInt.Zero(64);
    var prev := accum.Copy();
    var divRes := new ApInt.Zero(64);
    end := start;
    ghost var rank := 2;
    NothingTaken(how, str, start, base);
    while DigitAt(str, end, base)
      invariant start <= end <= |str| && forall k :: start <= k < end ==> IsValidDigit(str[k], base)
      invariant fresh(accum) && fresh(prev) && fresh(divRes)
      invariant fresh(accum.words) && fresh(prev.words) && fresh(divRes.words)
      invariant Working(accum, prev, divRes) && accum.Value() == prev.Value() && 0 <= rank
      invariant rank < 2 ==> DigitAt(str, end, base)
      invariant Reading(how, Acc(accum.bits, accum.Value()), str, start, end, base, rank)
      decreases |str| - end, rank
    {
      ghost var acc := Acc(accum.bits, accum.Value());
      CanonicalBound(accum.words[..], accum.bits);
      var d := DigitNum(str[end], base);
      var retry := ReadDigit(form, how, accum, prev, divRes, base, d);
      OneTurn(how, acc, str, start, end, base, rank, retry, Acc(accum.bits, accum.Value()));
      rank := if !retry then 2 else if Pow(2, acc.width) <= acc.value * base then 1 else 0;
      if !retry { end := end + 1; }
    }
    ReadToTheEnd(how, Acc(accum.bits, accum.Value()), str, start, end, base, rank);
  }

  /** The accumulator has room for the digit that is to be taken again, and taking
      it gives what the digit was to give. */
  ghost predicate Pending(acc: Acc, str: string, start: nat, end: nat, base: nat)
    requires IsBase(base) && start <= end <= |str|
    requires forall i :: start <= i < end ==> IsValidDigit(str[i], base)
  {
    && DigitAt(str, end, base)
    && acc.value * base + DigitNum(str[end], base) < Pow(2, acc.width)
    && TakeDigit(acc, base, DigitNum(str[end], base)) == Taken(str, start, end + 1, base)
  }

  /** The accumulator before a turn at digit end, which rank says has been tried
      already: from 1 on its product has room, and at 0 its sum does not carry. */
  ghost predicate Reading(how: Carrying, acc: Acc, str: string, start: nat, end: nat, base: nat, rank: int)
    requires IsBase(base) && start <= end <= |str|
    requires forall i :: start <= i < end ==> IsValidDigit(str[i], base)
  {
    && (rank < 2 ==> DigitAt(str, end, base) && acc.value * base < Pow(2, acc.width))
    && (rank < 1 ==> !Carries(acc.value * base, DigitNum(str[end], base)))
    && if Exact(how, acc.width) then
         if rank < 2 then Pending(acc, str, start, end, base) else acc == Taken(str, start, end, base)
       else
         W <= acc.value && 128 < Taken(str, start, if rank < 2 then end + 1 else end, base).width
  }

  lemma NothingTaken(how: Carrying, str: string, start: nat, base: nat)
    requires IsBase(base) && start <= |str|
    ensures Taken(str, start, start, base) == Acc(64, 0)
    ensures Reading(how, Acc(64, 0), str, start, start, base, 2)
  {
  }

  lemma ReadToTheEnd(how: Carrying, acc: Acc, str: string, start: nat, end: nat, base: nat, rank: int)
    requires IsBase(base) && start <= end <= |str| && !DigitAt(str, end, base)
    requires forall i :: start <= i < end ==> IsValidDigit(str[i], base)
    requires Reading(how, acc, str, start, end, base, rank)
    ensures Exact(how, Taken(str, start, end, base).width) ==> acc == Taken(str, start, end, base)
    ensures !Exact(how, Taken(str, start, end, base).width) ==> W <= acc.value
  {
    hide Taken, IsValidDigit;
  }

  /** Taking a digit again after its sum carried: the product with the base is so far
      below the next word that the sum carries no more. */
  lemma CalmAfter(p: nat, base: nat, d: nat)
    requires 1 < base <= 16 && d < base && Carries(p, d)
    ensures !Carries(p * base, d)
  {
    var r := p % W;
    var e := W - r;
    DivModDef(p, W);
    assert p * base == ((p / W + 1) * base - 1) * W + (W - e * base) by {
      assert p == (p / W + 1) * W - e;
      Distribute(base, (p / W + 1) * W, -e);
      Associate(p / W + 1, W, base);
      Associate(p / W + 1, base, W);
    }
    MulMono(base, 1, e);
    MulMono(base, e, 15);
    DivModUnique(p * base, W, (p / W + 1) * base - 1, W - e * base);
  }

  lemma WiderAfter(str: string, start: nat, end: nat, base: nat)
    requires IsBase(base) && start <= end <= |str| && DigitAt(str, end, base)
    requires forall i :: start <= i < end ==> IsValidDigit(str[i], base)
    ensures Taken(str, start, end, base).width <= Taken(str, start, end + 1, base).width
  {
    hide IsValidDigit;
  }

  /** What a turn leaves, however often the digit has been tried. */
  lemma OneTurn(how: Carrying, acc: Acc, str: string, start: nat, end: nat, base: nat, rank: int, again: bool, acc': Acc)
    requires IsBase(base) && start <= end <= |str| && DigitAt(str, end, base)
    requires forall i :: start <= i < end ==> IsValidDigit(str[i], base)
    requires acc.value < Pow(2, acc.width) && 64 <= acc.width && acc.width % 64 == 0
    requires 0 <= rank <= 2 && Reading(how, acc, str, start, end, base, rank)
    requires Outcome(how, acc, base, DigitNum(str[end], base), again, acc')
    ensures !again ==> Reading(how, acc', str, start, end + 1, base, 2)
    ensures again ==> var rank' := if Pow(2, acc.width) <= acc.value * base then 1 else 0;
                      rank' < rank && Reading(how, acc', str, start, end, base, rank')
  {
    hide Pow, IsValidDigit, Taken;
    var v, n, d := acc.value, acc.width, DigitNum(str[end], base);
    RoomForTwo(v, n, base, d);
    WiderAfter(str, start, end, base);
    MulMono(v, 1, base);
    if Exact(how, n) {
      ExactTurn(acc, str, start, end, base, rank < 2);
      if again && 128 <= n { BeyondTwoWords(v * base + d, n); }
    }
    if again && v * base < Pow(2, n) { CalmAfter(v * base, base, d); }
  }

  lemma BeyondTwoWords(x: nat, n: nat)
    requires 128 <= n && Pow(2, n) <= x
    ensures 17 * W <= x
  {
    hide Pow;
    TwoToThe64();
    PowMono(2, 128, n);
    PowAdd(2, 64, 64);
  }

  /** While addition is exact. */
  lemma ExactTurn(acc: Acc, str: string, start: nat, end: nat, base: nat, again: bool)
    requires IsBase(base) && start <= end <= |str| && DigitAt(str, end, base)
    requires forall i :: start <= i < end ==> IsValidDigit(str[i], base)
    requires acc.value < Pow(2, acc.width)
    requires if again then Pending(acc, str, start, end, base) else acc == Taken(str, start, end, base)
    ensures var v, n, d := acc.value, acc.width, DigitNum(str[end], base);
            if Pow(2, n) <= v * base then !again && Pending(Acc(n + 64, v), str, start, end, base)
            else if Pow(2, n) <= v * base + d then !again && Pending(Acc(n + 64, v * base), str, start, end, base)
            else Taken(str, start, end + 1, base) == Acc(n, v * base + d)
  {
    hide Pow, IsValidDigit;
    RoomForTwo(acc.value, acc.width, base, DigitNum(str[end], base));
  }
}
