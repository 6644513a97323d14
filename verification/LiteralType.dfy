/** The type of an integer literal, from its value, base and suffix. */
module LiteralType {
  import opened Powers
  import opened Digits
  import opened Machine
  import opened WordLoops
  import opened DivisionStep
  import opened ApInts
  import opened ApIntBits
  import opened IntLiteral
  import DecimalPrinter

  datatype IntType = Int | UInt | Long | ULong | LongLong | ULongLong

  function Size(t: IntType): nat
  {
    match t
    case Int | UInt => 4
    case _ => 8
  }

  function MaxOf(t: IntType): Word
  {
    match t
    case Int => 0x7FFF_FFFF
    case UInt => 0xFFFF_FFFF
    case Long | LongLong => 0x7FFF_FFFF_FFFF_FFFF
    case ULong | ULongLong => 0xFFFF_FFFF_FFFF_FFFF
  }

  /** The types a literal may have, in the order they are tried: table 6 of section
      2.14.2 of ISO/IEC 14882:2011. */
  function Candidates(decimal: bool, suffix: IntType): seq<IntType>
  {
    match suffix
    case Int => if decimal then [Int, Long, LongLong] else [Int, UInt, Long, ULong, LongLong, ULongLong]
    case UInt => [UInt, ULong, ULongLong]
    case Long => if decimal then [Long, LongLong] else [Long, ULong, LongLong, ULongLong]
    case ULong => [ULong, ULongLong]
    case LongLong => if decimal then [LongLong] else [LongLong, ULongLong]
    case ULongLong => [ULongLong]
  }

  /** t is the first candidate with room for v. */
  ghost predicate IsFirstFit(list: seq<IntType>, v: nat, t: IntType)
  {
    exists i: nat :: i < |list| && list[i] == t && v <= MaxOf(t) && forall k: nat :: k < i ==> MaxOf(list[k]) < v
  }

  ghost predicate NothingFits(list: seq<IntType>, v: nat)
  {
    forall k: nat :: k < |list| ==> MaxOf(list[k]) < v
  }

  /** The one literal the code types otherwise: a decimal one with suffix l, above
      the range of long but not of unsigned long, is taken for unsigned long. */
  predicate UnsignedForLong(decimal: bool, suffix: IntType, v: nat)
  {
    decimal && suffix == Long && MaxOf(Long) < v <= MaxOf(ULong)
  }

  /** What the selection promises. */
  ghost predicate Selected(decimal: bool, suffix: IntType, v: nat, t: IntType, tooBig: bool)
  {
    if UnsignedForLong(decimal, suffix, v) then t == ULong && !tooBig
    else (tooBig <==> NothingFits(Candidates(decimal, suffix), v))
         && (!tooBig ==> IsFirstFit(Candidates(decimal, suffix), v, t))
  }

  /** A number of any width against the maximum of a type. */
  method AtMost(val: ApInt, t: IntType) returns (r: bool)
    requires val.Valid()
    ensures r <==> val.Value() <= MaxOf(t)
  {
    var c := CmpUimm(val, MaxOf(t));
    r := c <= 0;
  }

  lemma FitAt(list: seq<IntType>, v: nat, i: nat)
    requires i < |list| && v <= MaxOf(list[i]) && forall k: nat :: k < i ==> MaxOf(list[k]) < v
    ensures IsFirstFit(list, v, list[i]) && !NothingFits(list, v)
  {
  }

  method SelectInt(val: ApInt, decimal: bool) returns (t: IntType, tooBig: bool)
    requires val.Valid()
    ensures Selected(decimal, Int, val.Value(), t, tooBig)
  {
    tooBig := false;
    ghost var list := Candidates(decimal, Int);
    var fits := AtMost(val, Int);
    if fits { FitAt(list, val.Value(), 0); return Int, false; }
    if decimal {
      fits := AtMost(val, Long);
      if fits { FitAt(list, val.Value(), 1); return Long, false; }
      fits := AtMost(val, LongLong);
      return LongLong, !fits;
    }
    fits := AtMost(val, UInt);
    if fits { FitAt(list, val.Value(), 1); return UInt, false; }
    fits := AtMost(val, Long);
    if fits { FitAt(list, val.Value(), 2); return Long, false; }
    fits := AtMost(val, ULong);
    if fits { FitAt(list, val.Value(), 3); return ULong, false; }
    fits := AtMost(val, LongLong);
    if fits { return LongLong, false; }
    fits := AtMost(val, ULongLong);
    t, tooBig := ULongLong, !fits;
  }

  method SelectUInt(val: ApInt, decimal: bool) returns (t: IntType, tooBig: bool)
    requires val.Valid()
    ensures Selected(decimal, UInt, val.Value(), t, tooBig)
  {
    ghost var list := Candidates(decimal, UInt);
    var fits := AtMost(val, UInt);
    if fits { FitAt(list, val.Value(), 0); return UInt, false; }
    fits := AtMost(val, ULong);
    if fits { FitAt(list, val.Value(), 1); return ULong, false; }
    fits := AtMost(val, ULongLong);
    t, tooBig := ULongLong, !fits;
  }

  method SelectLong(val: ApInt, decimal: bool) returns (t: IntType, tooBig: bool)
    requires val.Valid()
    ensures Selected(decimal, Long, val.Value(), t, tooBig)
  {
    ghost var list := Candidates(decimal, Long);
    var fits := AtMost(val, Long);
    if fits { FitAt(list, val.Value(), 0); return Long, false; }
    fits := AtMost(val, ULong);
    if fits {
      if !decimal { FitAt(list, val.Value(), 1); }
      return ULong, false;
    }
    fits := AtMost(val, LongLong);
    if decimal { return LongLong, !fits; }
    if fits { return LongLong, false; }
    fits := AtMost(val, ULongLong);
    t, tooBig := ULongLong, !fits;
  }

  method SelectULong(val: ApInt, decimal: bool) returns (t: IntType, tooBig: bool)
    requires val.Valid()
    ensures Selected(decimal, ULong, val.Value(), t, tooBig)
  {
    var fits := AtMost(val, ULong);
    if fits { FitAt(Candidates(decimal, ULong), val.Value(), 0); return ULong, false; }
    fits := AtMost(val, ULongLong);
    t, tooBig := ULongLong, !fits;
  }

  method SelectLongLong(val: ApInt, decimal: bool) returns (t: IntType, tooBig: bool)
    requires val.Valid()
    ensures Selected(decimal, LongLong, val.Value(), t, tooBig)
  {
    ghost var list := Candidates(decimal, LongLong);
    var fits := AtMost(val, LongLong);
    if fits { FitAt(list, val.Value(), 0); return LongLong, false; }
    if decimal { return LongLong, true; }
    fits := AtMost(val, ULongLong);
    if fits { FitAt(list, val.Value(), 1); return ULongLong, false; }
    t, tooBig := ULongLong, true;
  }

  method SelectULongLong(val: ApInt, decimal: bool) returns (t: IntType, tooBig: bool)
    requires val.Valid()
    ensures Selected(decimal, ULongLong, val.Value(), t, tooBig)
  {
    var fits := AtMost(val, ULongLong);
    if fits { FitAt(Candidates(decimal, ULongLong), val.Value(), 0); }
    t, tooBig := ULongLong, !fits;
  }

  method Select(val: ApInt, decimal: bool, suffix: IntType) returns (t: IntType, tooBig: bool)
    requires val.Valid()
    ensures Selected(decimal, suffix, val.Value(), t, tooBig)
  {
    match suffix
    case Int => t, tooBig := SelectInt(val, decimal);
    case UInt => t, tooBig := SelectUInt(val, decimal);
    case Long => t, tooBig := SelectLong(val, decimal);
    case ULong => t, tooBig := SelectULong(val, decimal);
    case LongLong => t, tooBig := SelectLongLong(val, decimal);
    case ULongLong => t, tooBig := SelectULongLong(val, decimal);
  }

  // ------------------------------------------------------- the whole literal

  /** The base of a literal and where its digits start. */
  function Prefix(str: string, start: nat): (r: (nat, nat))
    requires start < |str|
    ensures IsBase(r.0) && start <= r.1 <= |str|
  {
    if str[start] != '0' then (10, start)
    else if start + 1 < |str| && str[start + 1] == 'x' then (16, start + 2)
    else if start + 1 < |str| && str[start + 1] == 'b' then (2, start + 2)
    else (8, start + 1)
  }

  /** The base and the first digit by the characters: 0x and 0b in lower case are for
      hexadecimal and binary numbers, another leading 0 for octal ones, and every other
      digit for decimal ones. */
  ghost predicate Prefixed(str: string, start: nat, base: nat, from: nat)
    requires start <= |str|
  {
    var rest := str[start..];
    && (base == 16 <==> "0x" <= rest)
    && (base == 2 <==> "0b" <= rest)
    && (base == 8 <==> "0" <= rest && !("0x" <= rest) && !("0b" <= rest))
    && (base == 10 <==> !("0" <= rest))
    && from == start + if base == 10 then 0 else if base == 8 then 1 else 2
  }

  lemma PrefixIs(str: string, start: nat)
    requires start < |str|
    ensures var (base, from) := Prefix(str, start); Prefixed(str, start, base, from)
  {
    var rest := str[start..];
    assert "0" <= rest <==> str[start] == '0';
    assert "0x" <= rest <==> str[start] == '0' && start + 1 < |str| && str[start + 1] == 'x';
    assert "0b" <= rest <==> str[start] == '0' && start + 1 < |str| && str[start + 1] == 'b';
  }

  /** The characters from and up to end are the digits of the number, and the next one
      is no digit. */
  ghost predicate Denotes(str: string, from: nat, end: nat, base: nat, num: nat)
  {
    && IsBase(base) && DigitRun(str, from, end, base) && Spells(str[from..end], base, num)
    && (end < |str| ==> forall d: nat :: d < base ==> !Shows(str[end], d))
  }

  lemma DigitsOfRun(str: string, from: nat, end: nat, base: nat)
    requires IsBase(base) && DigitRun(str, from, end, base)
    ensures Denotes(str, from, end, base, Numeral(str, from, end, base))
  {
    hide IsValidDigit, Numeral, Spells, Shows;
    NumeralSpelled(str, from, end, base, Numeral(str, from, end, base));
    if end < |str| { DigitShown(str[end], base); }
  }

  /** Reads a literal, as written: below 2^64 the number its digits spell, and from
      there on a number that is no smaller than 2^64 either; up to two words that
      number is the digits' exactly when no digit crosses a width. */
  method ReadIntLit(str: string, start: nat) returns (value: ApInt, base: nat, end: nat, ghost from: nat, ghost num: nat)
    requires start < |str| && '0' <= str[start] <= '9'
    ensures Prefixed(str, start, base, from) && Denotes(str, from, end, base, num)
    ensures fresh(value) && fresh(value.words) && value.Valid()
    ensures num < W ==> value.bits == 64 && value.Value() == num
    ensures W <= num ==> W <= value.Value()
    ensures Taken(str, from, end, base).width <= 128 ==>
              num <= value.Value() && (value.Value() == num <==> !EverCrosses(str, from, end, base))
  {
    hide IsValidDigit, Taken, Numeral, EverCrosses, Val, Canonical, Spells, Shows, Prefixed;
    var p := Prefix(str, start);
    PrefixIs(str, start);
    base, from := p.0, p.1;
    value, end := ReadCommon(AsWritten, ReachesMax, str, p.1, base);
    num := Numeral(str, from, end, base);
    DigitsOfRun(str, from, end, base);
    TakenIsNumeral(str, p.1, end, base);
    if num < W { OneWordIsExact(str, p.1, end, base); }
  }

  /** Reading a literal and typing it, as written.  Without a diagnostic the value is that of
      the digits, in the width of the type, and within its range; and a literal is
      diagnosed exactly when no type it may have has room for it. */
  method IntegerLiteral(str: string, start: nat, suffix: IntType)
    returns (value: ApInt, t: IntType, tooBig: bool, base: nat, end: nat, ghost from: nat, ghost num: nat)
    requires start < |str| && '0' <= str[start] <= '9'
    ensures Prefixed(str, start, base, from) && Denotes(str, from, end, base, num)
    ensures fresh(value) && value.Valid() && value.bits == 8 * Size(t)
    ensures Selected(base == 10, suffix, num, t, tooBig)
    ensures !tooBig ==> value.Value() == num <= MaxOf(t)
  {
    hide EverCrosses, Val, Canonical, Pow, Selected, Prefixed, Denotes;
    value, base, end, from, num := ReadIntLit(str, start);
    ghost var v := value.Value();
    t, tooBig := Select(value, base == 10, suffix);
    SameSelection(base == 10, suffix, v, num, t, tooBig);
    ChosenHasRoom(base == 10, suffix, v, t, tooBig);
    RangeOf(t);
    Ext(value, Size(t) * 8);
  }

  /** What is printed is read back: the decimal numeral of a positive number has no
      prefix, and its digits are those of the number. */
  lemma PrintedReadsBack(x: nat)
    requires 0 < x
    ensures var s := DecimalPrinter.Decimal(x);
            |s| > 0 && '0' <= s[0] <= '9' && Prefixed(s, 0, 10, 0) && Denotes(s, 0, |s|, 10, x)
  {
    hide Spells, Shows, Prefixed;
    var s := DecimalPrinter.Decimal(x);
    DecimalPrinter.DecimalIsNumeral(x);
    PrefixIs(s, 0);
    DecimalNumeral(s, |s|);
    assert s[..|s|] == s;
    DigitsOfRun(s, 0, |s|, 10);
  }

  lemma {:induction false} DecimalNumeral(s: string, n: nat)
    requires n <= |s| && forall i :: 0 <= i < |s| ==> '0' <= s[i] <= '9'
    ensures Numeral(s, 0, n, 10) == DecimalPrinter.Parse(s[..n])
    decreases n
  {
    if n > 0 {
      DecimalNumeral(s, n - 1);
      assert s[..n][..n - 1] == s[..n - 1];
    }
  }

  /** The range of a type is that of its size, but for the sign bit of a signed
      one. */
  lemma RangeOf(t: IntType)
    ensures MaxOf(t) + 1 == Pow(2, 8 * Size(t) - if t in {UInt, ULong, ULongLong} then 0 else 1)
    ensures 8 * Size(t) == if t in {Int, UInt} then 32 else 64
    ensures MaxOf(t) < Pow(2, Size(t) * 8)
  {
    TwoToThe64();
    assert Pow(2, 32) == 2 * Pow(2, 31);
    assert Pow(2, 64) == 2 * Pow(2, 63);
  }

  lemma ChosenHasRoom(decimal: bool, suffix: IntType, v: nat, t: IntType, tooBig: bool)
    requires Selected(decimal, suffix, v, t, tooBig)
    ensures !tooBig ==> v <= MaxOf(t) < W
  {
  }

  /** A value read too large is selected as the literal it was read from: both are
      past every type. */
  lemma SameSelection(decimal: bool, suffix: IntType, v: nat, num: nat, t: IntType, tooBig: bool)
    requires Selected(decimal, suffix, v, t, tooBig) && (num < W ==> v == num) && (W <= num ==> W <= v)
    ensures Selected(decimal, suffix, num, t, tooBig)
    ensures !tooBig ==> v == num
  {
    ChosenHasRoom(decimal, suffix, v, t, tooBig);
    if W <= num {
      assert NothingFits(Candidates(decimal, suffix), v) && NothingFits(Candidates(decimal, suffix), num);
    }
  }
}
