# Verified arithmetic, expression and overload core

Dafny proofs about the core of a C++ compiler written in C: its arbitrary-width
integers, its software floating point, its integer literals, its expression
parser, its constant evaluator and folder, and its choice between overloads.

`dafny verify dfyconfig.toml` checks the whole project (Dafny 4.11).

## What is modelled

**Integers of any width** (`src/apint.c`). A number of n bits is a little-endian array of
64-bit words whose bits from n on are zero. `Powers`, `Digits` and `Machine` give positional
notation: `Val(s, base)` is the natural number a sequence of digits stands for, `W` is 2^64
and `B` is 2^32. `WordLoops` and `WordShifts` are the in-place loops, `ApInts` the class whose
methods run them, `Multiply` and `ApIntMultiply` the schoolbook product. Long division is
built up in steps: `TrialQuotient` (step D3 of Algorithm D, Knuth, TAOCP volume 2,
section 4.3.1), `DivisionStep` (steps D3 to D6 on one window), `DivisionAsWritten` (what the
same turn does with the borrow the program keeps), `DivisionRun` (a run of turns),
`Normalise`, `KnuthDivision` and `BignumDivision` (the array methods), `DivisionExamples` and
`SmallQuotients` (what lost borrows do to two divisions, and to all with a small quotient),
`ApIntDivision`, `SignedDivision` and `DecimalPrinter` (what rests on them). `ApIntBits` and
`ApIntBitwise` are single bits, widths and the bitwise operations.

**Floating point** (`src/apfloat.c`). `Floats` is the class of half, single and double
precision numbers, `FloatRounding` the five rounding modes, `FloatAdd`, `FloatMul`,
`FloatCompare` and `FloatConvert` the operations. A magnitude is an integer count of the
smallest unit of the format, so every statement is about exact integers.

**Literals** (`src/literal.c`, `src/lexer/tokenize.c`). `IntLiteral` reads a run of digits with
the overflow tests of the program, `LiteralType` picks the type.

**Expressions** (`src/parser/expr.c`, `src/parser/find_twin.c`, `src/sema/expr.c`). `ExprOps` holds
the tables, `ExprParser` the parser as functions over a token sequence, `ExprParserLoops` its
loops. `ExprGrammar` writes out the grammar of clause 5 of ISO/IEC 14882:2011 class by class,
`ExprReading` proves that the parser reads every phrase of it as its tree, `ExprGroups` says how two
operators side by side group, and `ExprPrinter` is a printer with the fewest parentheses, which
parsing undoes. `ExprRuns` is what every run on any tokens keeps, `ExprLine` the stacks read as a
line of tokens, `ExprYield` and `ExprBrackets` the conservation of tokens, `ExprAccepted` and
`ExprEquivalence` the proof that the parser and the grammar accept the same.

**Constants** (`src/sema/expr_eval.c`). `ConstValues` and `ConstArithmetic` are the arithmetic,
`ConstEval` the evaluator with its call depth bound, `ConstEvalMeaning` what each kind of expression
evaluates to, said of integers, `ConstEvalExact` an evaluation over the integers themselves that the
evaluator agrees with, `ConstFold` folding as a function, `ConstFoldMeaning` the proof that it keeps
the meaning, `ConstFoldPass` the pass and what it leaves.

**Overloads** (`src/sema/lookup.c`, `src/sort.c`). `Sorting` is the quicksort for a comparator that
need not be an order, `Overload` the comparator and the choice.

## Where the code departs from its intent

The code is modelled as written. Where a step falls short, a lemma says exactly when, another
shows an input, and the intended step is the other value of a two-valued parameter, so that one
body and one contract cover both.

- `src/apint.c:1230`: the borrow of step D4 is taken from a 64-bit difference and comes out 2^32
  too small after a digit borrow (`Form`: `AsWritten` or `Reduced`). A turn as written is exact if
  and only if the trial digit is the true one and no digit below the top two of the divisor borrows
  (`StepAsWritten`); divisors below 2^64 are always safe.
- `src/apint.c:664`: the carry is tested against the word maximum after the addition, which matters
  only beyond two words (`Carrying`: `ReachesMax` or `WrapsToZero`; `AddUimm`, `NegateRight`).
- `src/apint.c:2086-2088`: bit 0 of a word is never examined, and a lowest nonzero word that is
  exactly 1 makes the loop endless (`Counting`: `BitZeroSkipped` or `Documented`; `CountEnds`).
  `AddBase` gives the exact condition under which an addition is still correctly rounded.
- `src/apfloat.c:570`: the low half of a product is dropped before rounding, so multiplication is
  faithful but not correctly rounded (`ProductIsFaithful`, `UpwardsFallsShort`).
- `src/apfloat.c:1030-1033` and `src/apfloat.c:1078-1081`: the shortcut for infinities makes an infinity
  greater or less than itself (`IsGt`, `IsLt`).
- `src/sema/expr.c:293-297`: scope resolutions group to the right, where the standard's
  nested-name-specifier groups to the left; `Qualified` is the class as written.
- `src/literal.c:752-758`: only `0x` and `0b` in lower case are prefixes; `0X1F` is read as the octal
  number 0 (`Prefixed`).
- `src/sema/lookup.c:276-282`: only the first parameter without an argument is asked for its default,
  which is enough because defaults are trailing (`ViableIsCallable`).
- `src/literal.c:704-708`: a digit that alone crosses the width is read again on the already
  multiplied number. Only base 10 reaches this and only from 2^64 on, where the literal is
  rejected anyway (`StepExactIff`, `TwoToThe64IsMisread`). The reader is modelled with the
  division and the carry as written: the test by dividing back is right all the same
  (`DivideBack`), and so is what becomes of every literal (`IntegerLiteral`).
- `src/lexer/tokenize.c:223-224`: a decimal literal with suffix `l` above the maximum of `long` becomes
  `unsigned long`, which table 6 in section 2.14.2 of ISO/IEC 14882:2011 does not allow
  (`Selected`).
- `src/parser/expr.c:840-865`: a prefix operator pops pending operators of a higher level before
  its operand is there (`PrefixPopsSelection`, `SelectionTakesSum`), and a postfix operator is
  overtaken by `::` (`IncrementOfScope`). These are the only ways in which a tree comes to read
  otherwise than the input (`ParseFaithful`, `ParseConserves`).
- `src/parser/expr.c:917-957`: a closing bracket of the wrong kind is skipped silently, while the end
  of a call is found by counting brackets of one kind, so that tokens can be read twice
  (`StrayParenthesis`). A comma before the closing parenthesis of a call is dropped
  (`src/parser/expr.c:713-723`).
- `src/sema/expr_eval.c:684-703`: default arguments are evaluated in the scope and with the bindings
  of the caller (`NameAgrees`, `DefaultAsDeclared`, `DefaultSeesCaller`).
- `src/literal.c:894-900`: a conversion extends as the target type is signed, not as the source is
  (`ConvertKeepsNumber`, `UnsignedWidensNegative`).

## Model

| member | source | states |
|---|---|---|
| TrialQuotient.TrialBound | src/apint.c:1212-1223 | Step D3: with a normalised divisor and a window below divisor * 2^32, the digit left after the corrections is the true quotient digit or one more, is below 2^32, is right exactly when digit * divisor does not exceed the window, and is always right for a two-digit divisor |
| TrialQuotient.OvershootsMeaning | src/apint.c:1217-1218 | No 64-bit product or sum in the correction test overflows, and testing equality with 2^32 suffices: the test means the trial times the two top digits exceeds the three window digits, or the trial is no digit, even from 2^32 + 1 |
| TrialQuotient.CorrectedFromTop | src/apint.c:1212-1223 | When the window starts with the divisor's top digit the trial starts at 2^32 + 1, and still ends at 2^32 - 1, which does not overshoot |
| TrialQuotient.TrialIsCapped | src/apint.c:1212-1223 | The corrected trial is the quotient of the three leading window digits by the two leading divisor digits, capped at the largest digit |
| DivisionStep.MulSubReduced | src/apint.c:1225-1233 | Step D4 with its borrow kept in 32 bits: digits minus borrow * 2^(32k) are exactly the window minus digit * divisor, and the borrow is a digit |
| DivisionStep.AddBackSum | src/apint.c:1235-1246 | Step D6: digits and carry are the sum of the remainder and the divisor |
| DivisionStep.StepReduced | src/apint.c:1214-1246 | One turn D3 to D6 gives the true quotient digit and leaves the true remainder, below the divisor, with top digit zero |
| DivisionAsWritten.MulSubAsWritten | src/apint.c:1225-1233 | Step D4 as written: the result is the true difference plus what the lost borrows are worth, and the borrow may be negative |
| DivisionAsWritten.NothingLost | src/apint.c:1225-1233 | Nothing is lost if and only if every digit of the window covers the product digits subtracted from it |
| DivisionAsWritten.SameDigits | src/apint.c:1225-1233 | The digits as written are those of the true subtraction if and only if the digits below the top two of the divisor cover their products |
| DivisionAsWritten.NeverAddsBack | src/apint.c:1232-1246 | As written the final borrow never exceeds the top window digit, so step D6 is never taken |
| DivisionAsWritten.StepAsWritten | src/apint.c:1214-1246 | A turn as written is exact if and only if the trial digit is the true one and no digit below the top two of the divisor borrows |
| DivisionAsWritten.TwoDigitStepsAreClean | src/apint.c:1214-1246 | Against a divisor of two digits that condition always holds |
| DivisionAsWritten.LostBorrowExample | src/apint.c:1225-1233 | A window one turn of which as written leaves 2^64 + 2^32 - 1 where the remainder is 2^32 - 1 |
| DivisionRun.RunExact | src/apint.c:1212-1247 | A run of turns leaves quotient and remainder of the whole dividend, the remainder below the divisor: always with the borrow in 32 bits, and as written when every turn is clean |
| DivisionRun.ExactIffClean | src/apint.c:1212-1247 | Every turn of a run as written is exact if and only if every turn is clean |
| DivisionRun.SingleTurn | src/apint.c:1212-1247 | With as many digits in the dividend as in the divisor, quotient and remainder as written are right if and only if the one turn is clean |
| DivisionRun.TwoDigitRunsAreClean | src/apint.c:1212-1247 | Every run against two digits is clean, of any length |
| Normalise.CountlZero32 | src/apint.c:11-26 | The bisection counts the leading zeroes of a 32-bit number; 32 for zero |
| Normalise.ShiftDigitsLeft | src/apint.c:1195-1210 | In place, the digits and the carry out become the number times 2^s; the rest of the array is kept |
| Normalise.ShiftDigitsRight | src/apint.c:1249-1261 | The remainder array receives the number divided by 2^s, rounded down; the rest is kept |
| KnuthDivision.SubtractProduct | src/apint.c:1225-1233 | The loop changes one window and nothing else, to the difference described for step D4 in either form |
| KnuthDivision.AddDivisor | src/apint.c:1235-1246 | The loop changes one window and nothing else, to the sum described for step D6 |
| KnuthDivision.Turn | src/apint.c:1212-1247 | One turn in place is the turn on digit sequences whose exactness is proved |
| KnuthDivision.NormaliseOperands | src/apint.c:1195-1210 | Both operands become the digits of the originals times the same power of two, with no digit lost off the divisor |
| KnuthDivision.MainLoop | src/apint.c:1212-1247 | The loop in place is the run on digit sequences, quotient digits included |
| KnuthDivision.KnuthDiv | src/apint.c:1186-1262 | On every input the quotient digits and the remainder are those of the turns on digit sequences, un-normalised; these are the quotient and the remainder of the operands in the reduced form, and as written on every clean division |
| KnuthDivision.CleanIsExact | src/apint.c:1186-1262 | Normalising, running and un-normalising give the quotient and the remainder of the original operands |
| KnuthDivision.TwoDigitDivisionIsClean | src/apint.c:1186-1262 | Division as written by a divisor of two digits is clean whatever the dividend |
| DivisionExamples.LostBorrowDivision | src/apint.c:1225-1233 | A whole division as written that comes out wrong: 2^95 + 2^32 by 2^95 + 1 |
| DivisionExamples.HealedRun | src/apint.c:1212-1247 | A run with a turn that is not clean whose quotient and remainder come out right all the same, so that cleanness of every turn is sufficient for the run but not necessary |
| BignumDivision.ShortDiv | src/apint.c:1333-1354 | One-digit division: quotient digits in place and the remainder are exact |
| BignumDivision.WordDivisor | src/apint.c:1274-1379 | Any dividend over a divisor below 2^64 is divided exactly by the code as written |
| BignumDivision.RightQuotient | src/apint.c:1274-1379 | What comes out is the quotient and the remainder of the two values in the reduced form, for every divisor below 2^64, and for every clean division |
| SmallQuotients.SmallQuotient | src/apint.c:1186-1262 | As written, a quotient below 17 comes out right or one too large whatever borrows are lost, and right when there is no remainder |
| BignumDivision.WordsToDigits | src/apint.c:1264-1271 | The 32-bit digits stand for the same number, and the length leaves no leading zero |
| BignumDivision.DivideDigits | src/apint.c:1313-1358 | Either algorithm, chosen by the divisor's length, leaves the quotient and remainder of those turns on every input, the true ones under the condition, and zero above them |
| BignumDivision.DivideWords | src/apint.c:1274-1360 | Division of word arrays into fresh digit arrays, its results stated for every input; a zero divisor is reported |
| BignumDivision.BignumDiv | src/apint.c:1274-1379 | For a >= b: what comes out on every input as a function of the two values, quotient into the first words of one array and remainder into the first words of another; the true ones under the condition; the rest untouched, nothing written on a zero divisor, with the operands allowed to be the outputs |
| WordLoops.AddWords | src/apint.c:628-654 | The words and the carry out are the sum of both numbers, also when both are one array |
| WordLoops.SubWords | src/apint.c:674-699 | The words less the borrow out are the difference |
| WordLoops.PropagateAddsOne | src/apint.c:656-672 | Carrying on at every wrap to zero adds exactly one |
| WordLoops.ImmediateSum | src/apint.c:656-672 | Adding one word is exact whenever the carry test is the wrap test, or there are at most two words, or no carry leaves word 0, or word 1 is below 2^64 - 2 |
| WordLoops.ImmediateWrong | src/apint.c:656-672 | In every other case the result as written is off by an odd multiple of 2^128 |
| WordLoops.AddImmediateWords | src/apint.c:656-672 | The loop in place is the sum those two lemmas judge |
| WordLoops.ComplementWords | src/apint.c:1688-1698 | Every word is complemented |
| WordLoops.IncBitWords | src/apint.c:2117-2149 | Flipping bits upward until one comes out set adds 2^bit, less the range when none does |
| WordShifts.ShlWords | src/apint.c:907-934 | Overwriting from the top down reads only unshifted words |
| WordShifts.ShlValue | src/apint.c:907-934 | The shifted words are the number times 2^count less what leaves the array |
| WordShifts.LshrWords | src/apint.c:936-965 | Overwriting from word 0 up reads only unshifted words |
| WordShifts.LshrValue | src/apint.c:936-965 | The shifted words are the number divided by 2^count, rounded down |
| ApInts.MaskValue | src/apint.c:117-125 | Masking the top word reduces the number modulo 2^n and makes it canonical |
| ApInts.CanonicalBound | src/apint.c:107-125 | Canonical words of width n stand for a number below 2^n |
| ApInts.ImmediateMod | src/apint.c:656-672 | Modulo 2^n, adding a word is right if and only if the carry condition holds |
| ApInts.ComplementCarries | src/apint.c:1707-1711 | For the complement plus one the carry condition is a condition on the number negated: at most 128 bits, or low word nonzero, or second word at least 2 |
| ApInts.ApInt.Zero | src/apint.c:215-225 | A canonical zero of the width |
| ApInts.ApInt.Copy | src/apint.c:232-245 | An equal number that shares no words |
| ApInts.ApInt.Assign | src/apint.c:247-260 | The receiver takes the number, also from itself |
| ApInts.ApInt.AssignUimm | src/apint.c:262-272 | The receiver becomes the word modulo 2^n |
| ApInts.ApInt.MaskExtraBits | src/apint.c:617-626 | The number is reduced modulo 2^n and the bits above n are zero |
| ApInts.ApInt.Add | src/apint.c:628-654 | The sum modulo 2^n, canonical |
| ApInts.ApInt.Sub | src/apint.c:674-699 | The difference modulo 2^n, canonical |
| ApInts.ApInt.AddUimm | src/apint.c:656-672 | The sum with a word modulo 2^n, if and only if the carry condition holds |
| ApInts.ApInt.Not | src/apint.c:1688-1698 | 2^n - 1 - x |
| ApInts.ApInt.Negate | src/apint.c:1707-1711 | The negative modulo 2^n, if and only if the number has at most 128 bits, a nonzero low word, or a second word of at least 2 |
| ApInts.ApInt.ShlImm | src/apint.c:1031-1044 | x * 2^count modulo 2^n, in one word or several |
| ApInts.ApInt.LshrImm | src/apint.c:1060-1073 | x / 2^count rounded down |
| ApInts.ApInt.IncBit | src/apint.c:2117-2149 | x + 2^bit modulo 2^n |
| Multiply.MultiplyPart | src/apint.c:733-807 | One row from half-word products: the words written and what is lost above them are the row's product, added or stored, and overflow is reported exactly when something is lost |
| Multiply.MultiplyTruncated | src/apint.c:812-823 | The product modulo 2^(64 * parts) over whatever dst held; the flag says exactly that the true product does not fit |
| Multiply.FullMultiply | src/apint.c:828-842 | The exact product over the sum of the widths, nothing written beyond |
| ApIntMultiply.NipMul | src/apint.c:860-873 | The product modulo 2^n in a new number |
| ApIntMultiply.MulUimm | src/apint.c:888-898 | The product with a word modulo 2^n in place |
| ApIntMultiply.UFullMul | src/apint.c:844-858 | The exact product in a number of twice the width |
| ApIntDivision.SigBitsWord | src/apint.c:50-60 | The number of significant bits of a word; one for zero |
| ApIntDivision.SigBits | src/apint.c:552-565 | The number of significant bits of any number; for zero 1 in one word and 0 beyond |
| ApIntDivision.UnsignedCmp | src/apint.c:1826-1836 | -1, 0 or 1 as a < b, a = b or a > b |
| ApIntDivision.QuotRight | src/apint.c:1381-1532 | Where the condition holds what comes out is the quotient and the remainder; in particular for every divisor below 2^64 |
| ApIntDivision.UDiv | src/apint.c:1381-1419 | What comes out on every input, in a new number; it is a / b rounded down under the condition; a zero divisor is reported |
| ApIntDivision.URem | src/apint.c:1486-1532 | What comes out on every input, in a new number; it is a mod b under the condition; a zero divisor is reported |
| ApIntDivision.UDivRem | src/apint.c:1591-1642 | Quotient and remainder in the low words of the outputs, words above the reported counts untouched, with the quotient allowed to overwrite the dividend when that is no smaller |
| ApIntDivision.DegenerateDivRem | src/apint.c:1609-1633 | The early exits are whole and right; past them the dividend is strictly larger than the divisor |
| DecimalPrinter.DecimalIsNumeral | src/apint.c:462-492 | The numeral of x consists of digits, reads back as x and has no leading zero |
| DecimalPrinter.NumeralUnique | src/apint.c:462-492 | It is the only numeral of x without a leading zero |
| DecimalPrinter.MaxDecDigits | src/apint.c:63-66 | The least k with 2^n <= 10^k, that is n * log10(2) rounded up |
| DecimalPrinter.DecimalLength | src/apint.c:63-66 | A number below 10^k has at most k digits |
| DecimalPrinter.TakeDigit | src/apint.c:471-475 | Dividing by ten with dividend and quotient in one number leaves the quotient there and returns the last digit |
| DecimalPrinter.GatherDigits | src/apint.c:468-478 | The digits gathered backwards, before the number left over, spell the original, and never overrun the buffer |
| DecimalPrinter.WriteBackwards | src/apint.c:484-486 | The buffer from the last index down |
| DecimalPrinter.PrintUint | src/apint.c:462-492 | Exactly the base-10 numeral of the value, in at most ceil(n * log10 2) digits, for every width above 64 |
| SignedDivision.TruncQuotRem | src/apint.c:1421-1456 | The quotient and remainder specified satisfy q * b + r = a with the remainder smaller than b and of a's sign |
| SignedDivision.TruncatesUnique | src/apint.c:1534-1569 | No other pair does |
| SignedDivision.SignedResidue | src/apint.c:1421-1456 | An integer in the signed range survives being stored in n bits |
| SignedDivision.SignedDivisionTruncates | src/apint.c:1421-1569 | On stored values q * b + r = a modulo 2^n, the remainder is the truncating one, the quotient is too except that the minimum over -1 wraps to the minimum with remainder 0 |
| SignedDivision.GetSignBit | src/apint.c:457-460 | The top bit says that the two's complement value is negative |
| SignedDivision.ReadyUpToTwoWords | src/apint.c:1421-1456 | Up to 128 bits the negations need no condition; up to 64 bits, or with exact unsigned division, nothing does |
| SignedDivision.SDiv | src/apint.c:1421-1456 | The truncating quotient modulo 2^n; a zero divisor is reported |
| SignedDivision.SRem | src/apint.c:1534-1569 | The truncating remainder; a zero divisor is reported |
| ApIntBits.GetBit | src/apint.c:442-455 | Bit n of the value |
| ApIntBits.Ext | src/apint.c:404-440 | Zero extension keeps the value, narrowing reduces it modulo the new range, across both representations |
| ApIntBits.CountWord | src/apint.c:2081-2091 | The lowest set bit of a word; as written that of the word without bit 0, and no end for the word 1 |
| ApIntBits.CountTrailingZeroes | src/apint.c:2093-2115 | The lowest set bit; as written it ends if and only if the lowest nonzero word is not 1, and then counts as its word does |
| ApIntBits.StickyBit | src/apfloat.c:707-708 | Comparing the count with the shift tells whether a discarded bit below the round bit is set, if and only if the discarded part is not the single bit that the count as written misplaces |
| ApIntBitwise.GatedBit | src/apint.c:1994-2028 | Every bit of the result is the and, or, or exclusive or of the bits of the operands at its place |
| ApIntBitwise.ApplyGate | src/apint.c:1994-2028 | The word by word operation in place gives that number for every width, canonical |
| FloatRounding.RoundsUnique | src/apfloat.c:404-435 | The rounding of section 4.3 of IEEE 754-2008 determines the result in each mode and sign |
| FloatRounding.BitsRound | src/apfloat.c:404-435 | Deciding by guard, round and sticky bit rounds correctly if and only if the sticky bit is right or does not matter |
| FloatRounding.RoundsScale | src/apfloat.c:404-435 | Rounding commutes with a change of unit |
| Floats.FormatWidth | src/apfloat.c:76-104 | Exponent, sign and stored significand fill 16, 32 and 64 bits, and the least subnormals are 2^-24, 2^-149 and 2^-1074 |
| Floats.IEEE.Normalize | src/apfloat.c:133-144 | A subnormal gets a full significand and a lower exponent and keeps its value |
| Floats.IEEE.PostOpCorrect | src/apfloat.c:149-165 | Above the range it is infinite, in the range unchanged, below it a truncated subnormal or, p places below, zero |
| Floats.RoundedSizeUnique | src/apfloat.c:754-774 | The magnitude rounded to p significant bits or the subnormal spacing is determined |
| FloatAdd.MatchExps | src/apfloat.c:731-751 | Both significands get the lower exponent and keep their values |
| FloatAdd.BitsDecide | src/apfloat.c:697-727 | Rounding with the counted zeroes gives one of the two neighbours, the right one if and only if the sticky bit was not misread where it matters |
| FloatAdd.NormalizeMant | src/apfloat.c:697-727 | The result has exactly p bits and is the sum rounded, a carry into an extra bit included; a short sum is shifted exactly |
| FloatAdd.RoundMant | src/apfloat.c:702-721 | The rounding branch alone, with its end condition |
| FloatAdd.SumRounded | src/apfloat.c:754-774 | Rounding the aligned sum is rounding the exact sum of the magnitudes; a subnormal sum is exact |
| FloatAdd.ExactSum | src/apfloat.c:754-774 | A sum that is a multiple of the spacing is returned exactly, also as written |
| FloatAdd.AddBase | src/apfloat.c:754-774 | For well-formed operands of one kind and mode: it ends if and only if the count does; the result is the exact sum rounded as section 4.3 of IEEE 754-2008 prescribes in each of five modes, always with the documented count and as written if and only if the sticky bit is not misread; beyond the range it is infinite |
| FloatAdd.TieRoundedUp | src/apfloat.c:705-721 | 1 + 2^-11 in half precision as written gives 1 + 2^-10, where ties to even gives 1 |
| FloatAdd.AdditionNeverEnds | src/apfloat.c:707-708 | (2^53 - 1) + (1 + 2^-52) in double precision as written does not end |
| FloatMul.MulBase | src/apfloat.c:556-602 | The sign is the exclusive or of the signs and the significand, of exactly p bits, is the product cut twice as the code does |
| FloatMul.MulNormal | src/apfloat.c:604-625 | The same for operands that may be subnormal, then corrected into the range |
| FloatMul.CutProduct | src/apfloat.c:570-596 | The two cuts and the rounding decision together keep the result within one unit of the product and leave a representable product alone |
| FloatMul.ProductIsFaithful | src/apfloat.c:556-602 | The result differs from the exact product by less than one unit in the last place, in every mode, and has p significant bits |
| FloatMul.ProductIsExact | src/apfloat.c:556-602 | It is the product whenever the product has at most p significant bits |
| FloatMul.UpwardsFallsShort | src/apfloat.c:566-599 | (1 + 2^-10)^2 rounded upwards in half precision comes out below the exact product |
| FloatCompare.SizeOrder | src/apfloat.c:1036-1048 | Comparing exponents and then significands orders well-formed floats by magnitude, subnormals included |
| FloatCompare.IsEq | src/apfloat.c:991-1012 | True exactly for equal rationals, both zeroes and like infinities included, false for a NaN |
| FloatCompare.IsGt | src/apfloat.c:1014-1049 | True exactly for a > b, and for two positive infinities |
| FloatCompare.IsLt | src/apfloat.c:1062-1097 | True exactly for a < b, and for two negative infinities |
| FloatCompare.IsGtEq | src/apfloat.c:1051-1060 | True exactly for a >= b, except for two negative infinities |
| FloatCompare.IsLtEq | src/apfloat.c:1099-1108 | True exactly for a <= b, except for two positive infinities |
| FloatConvert.ThereAndBack | src/apfloat.c:1712-1741 | The integer part of the significand and exponent made from m is m with all but its top p significant bits cleared, and m itself when it has at most p; SintRoundTrip applies it to the two methods |
| FloatConvert.FitMantissa | src/apfloat.c:288-294 | The significand is resized to p bits, except that one of exactly p bits in another width is left and reported |
| FloatConvert.InitSint | src/apfloat.c:269-298 | Sign, exponent and truncated significand of any signed integer whose negation is right; the failing resize is exactly that of p significant bits in a width other than p |
| FloatConvert.ToSint | src/apfloat.c:1712-1741 | The integer part with the sign, if and only if the negation it needs is right; infinities and NaN are reported |
| FloatConvert.SintRoundTrip | src/apfloat.c:269-298 | The two conversions one after the other: the magnitude with all but its top p significant bits cleared, and its sign; a number of at most p bits comes back as it was, except that exactly p bits in a width other than p are refused, as is what exceeds the range of the format |
| ConstValues.ConvertKeepsNumber | src/literal.c:887-991 | A conversion between integer types, of any widths and kinds, gives the target's width and kind and keeps the integer modulo 2^m if and only if the number does not widen, or the kinds agree, or its top bit is clear |
| IntLiteral.DivideBack | src/literal.c:685-695 | Dividing the truncated product by the previous number, as written too, gives the base if and only if the product did not overflow |
| IntLiteral.ProductOverflowed | src/literal.c:689-697 | The test in place, on the division as written, reports exactly the overflow of the product |
| IntLiteral.StepExactIff | src/literal.c:681-711 | One digit is taken exactly if and only if it does not alone cross a width; the number is never too small |
| IntLiteral.TakenIsNumeral | src/literal.c:673-719 | The number read is never less than the sum of digit * base^k, and equal to it if and only if no digit crosses |
| IntLiteral.OneWordIsExact | src/literal.c:673-719 | A numeral below 2^64 is read exactly and in 64 bits |
| IntLiteral.PowersNeverCross | src/literal.c:704-708 | In bases 2, 8 and 16 no digit ever crosses |
| IntLiteral.TwoToThe64IsMisread | src/literal.c:704-708 | Reading 18446744073709551616 takes its last digit on top of an extra factor of ten |
| IntLiteral.ReadDigit | src/literal.c:657-712 | A turn in place, as written: it widens by a word when the product leaves the width; otherwise it widens or takes the digit, exactly while two words are enough, and never falls below the product |
| IntLiteral.CalmAfter | src/literal.c:704-708 | A sum that carried out of the lowest word does not carry when the digit is taken again on the product, so the loop ends |
| IntLiteral.ReadCommon | src/literal.c:673-719 | As written the loop ends, at the first character that is no digit; up to two words the number is the one the lemmas above judge, and beyond it is at least 2^64 |
| LiteralType.SelectInt | src/lexer/tokenize.c:149-183 | The first type in which the number fits, from the list without suffix; too big exactly when none fits |
| LiteralType.SelectUInt | src/lexer/tokenize.c:185-213 | The same for suffix u |
| LiteralType.SelectLong | src/lexer/tokenize.c:215-245 | The same for suffix l, except that a decimal number above the maximum of long becomes unsigned long |
| LiteralType.SelectULong | src/lexer/tokenize.c:247-271 | The same for suffix ul |
| LiteralType.SelectLongLong | src/lexer/tokenize.c:273-296 | The same for suffix ll |
| LiteralType.SelectULongLong | src/lexer/tokenize.c:298-319 | The same for suffix ull |
| LiteralType.Select | src/lexer/tokenize.c:321-349 | Table 6 in section 2.14.2 of ISO/IEC 14882:2011 for every suffix, but for that one row |
| LiteralType.ReadIntLit | src/literal.c:745-769 | As written: `0x`, `0b`, another leading `0` or any other digit makes the base 16, 2, 8 or 10 and the digits start after the prefix; the number is the one the characters spell by place value: below 2^64 it is exact, from there on it is no smaller than 2^64, and up to two words it is exact if and only if no digit crosses |
| LiteralType.IntegerLiteral | src/lexer/tokenize.c:384-417 | As written, for every literal: base and digits as the characters say; it is called too big exactly when the number spelled fits none of the candidate types; otherwise the number kept is the one spelled, in the width and range of the type chosen |
| LiteralType.PrintedReadsBack | src/literal.c:745-769 | The decimal numeral printed for a positive number is a literal in base 10 that spells that number |
| LiteralType.RangeOf | src/lexer/tokenize.c:149-183 | The maximum of a type is that of its size, 32 or 64 bits, less the sign bit of a signed type |
| IntLiteral.DigitShown | src/literal.c:587-655 | A character is a digit of a base exactly when it is one of the first so many of 0123456789abcdef in either case, and counts for its place there |
| IntLiteral.NumeralSpelled | src/literal.c:673-719 | The number taken for the digits is the one they spell by place value, and no other is |
| Sorting.Swap | src/sort.c:9-15 | Exchanges two elements and permutes the range |
| Sorting.Gather | src/sort.c:38-50 | Elements after which the pivot compares come first, and the range is permuted |
| Sorting.Partition | src/sort.c:34-53 | The pivot ends between the elements it compares after and the others |
| Sorting.TopGoesLeft | src/sort.c:34-56 | For any comparator, an element that comes before all others and that none comes before is the pivot's place or left of it after partitioning |
| Sorting.SortedSides | src/sort.c:52-57 | Splitting and sorting both sides sorts an order and brings such an element first |
| Sorting.QsortImpl | src/sort.c:20-57 | On a range: a permutation, sorted if the comparator is an order, and the top element first for any comparator |
| Sorting.Qsort | src/sort.c:59-67 | The same for the whole array |
| Overload.IsFuncViable | src/sema/lookup.c:266-319 | Where defaults are trailing: true exactly when every argument has a parameter or the ellipsis, every parameter has an argument or a default, and each argument converts to its parameter |
| Overload.ViableIsCallable | src/sema/lookup.c:266-283 | Asking only the first parameter without an argument for its default accepts every callable function, and exactly those if all later ones have defaults too |
| Overload.ViableFuncs | src/sema/lookup.c:321-335 | All viable functions and no others, in order |
| Overload.CompareViableFuncs | src/sema/lookup.c:342-377 | The loop answers before when the first has a better argument anywhere, whatever the others say, then after, then equal |
| Overload.BothBefore | src/sema/lookup.c:342-377 | Two functions that each compare before the other |
| Overload.GreaterIsDominance | src/sema/lookup.c:342-377 | Comparing after is being dominated: no better anywhere and worse somewhere, a strict partial order |
| Overload.BestViableFunc | src/sema/lookup.c:379-395 | Where defaults are trailing: nothing exactly when no function can be called; otherwise a callable function that no callable one dominates, and the one that dominates all others whenever there is one, for every order of the candidates; and the same of viability as written |
| ExprParser.TwinFrom | src/parser/find_twin.c:4-24 | The token found by depth counting lies ahead and is a closing bracket of the kind |
| ExprParser.TwinExact | src/parser/find_twin.c:4-24 | It is found exactly at the closing bracket before which as many brackets of the kind have closed as opened, never more, and the input has not ended |
| ExprParser.TwinMissing | src/parser/find_twin.c:4-24 | Where the input ends the search has found its bracket before or reports it missing |
| ExprParser.FindTwin | src/parser/find_twin.c:4-24 | The loop finds that token, and reports its absence |
| ExprParserLoops.PopOperators | src/parser/expr.c:848-862 | The popping loop pops exactly while the top is of a higher level, or equal and left-grouping |
| ExprParserLoops.ParseFuncCallArgs | src/parser/expr.c:699-725 | The loop collects the arguments that the parser function, proved to undo the printer, gives |
| ExprParserLoops.ParseExprImpl | src/parser/expr.c:898-980 | The two-stack loop computes, on every token sequence and failures included, the parser function that reads every phrase of the grammar as its tree |
| ExprGrammar.TablesAreGrammar | src/sema/expr.c:173-297 | A phrase, parentheses included, is derived from a class of the written-out grammar of clause 5 if and only if every operand stands where the popping rule leaves it and its level is no looser than the class: the precedence and associativity tables are that grammar |
| ExprReading.ReadPhrase | src/parser/expr.c:802-980 | Every phrase the grammar derives as an expression, with any redundant parentheses, followed by an end token, is parsed as its tree, without a diagnostic and up to that token; where a comma ends it, every phrase derived as an assignment expression |
| ExprReading.ReadArguments | src/parser/expr.c:699-725 | The argument phrases of a call are read one by one up to the parenthesis |
| ExprReading.Unambiguous | src/sema/expr.c:173-297 | Two phrases of the grammar with the same tokens have the same tree |
| ExprPrinter.PhraseDerived | src/sema/expr.c:173-302 | The phrase printed for a tree is derived by the grammar, and its tree is the one printed |
| ExprPrinter.FewestParentheses | src/sema/expr.c:173-302 | No expression of the grammar with the same tree is shorter than the printed one |
| ExprPrinter.ParsePrint | src/parser/expr.c:802-980 | For every tree of operands, prefix, postfix and binary operators, calls and subscripts, printed and followed by an end token, parsing gives the tree back, without a diagnostic and up to that token |
| ExprPrinter.PrintInjective | src/sema/expr.c:173-302 | No two trees print alike |
| ExprGroups.PairGroups | src/sema/expr.c:173-297 | For every two binary operators, `a op1 b op2 c` groups left if the first belongs to a tighter class of the grammar or both to one that is left-recursive, and right otherwise; in particular scope resolutions and assignments group to the right |
| ExprGroups.PrefixGroups | src/sema/expr.c:173-297 | For every prefix and binary operator, `op1 a op2 b` by the same rule |
| ExprGroups.PostfixGroups | src/sema/expr.c:173-297 | `a op1 b ++` is the increment of the whole exactly for scope resolution and member selection |
| ExprGroups.PrefixPostfixGroups | src/sema/expr.c:173-297 | `op1 a ++` is the prefix operator on the increment for the unary operators and throw, and the increment of the whole otherwise |
| ExprGroups.InPlace | src/parser/expr.c:138-697 | Where an operand is expected an operator is taken without a diagnostic exactly when the grammar has it as a prefix operator, elsewhere exactly when it has it as a postfix or binary one, and is taken as that |
| ExprGroups.TurnInPlace | src/parser/expr.c:138-957 | A turn without a new diagnostic has read an operand where one is expected, an operator the grammar has in that place, a bracket closed before the input ends, an index after an operand, or a token that is skipped |
| ExprRuns.StepBalanced | src/parser/expr.c:918-957 | On any tokens, a turn without a diagnostic keeps one tree on the output per pending binary operator, plus one after an operand |
| ExprRuns.RunBalanced | src/parser/expr.c:898-957 | So does a whole run |
| ExprRuns.CleanParse | src/parser/expr.c:958-975 | After a run without a diagnostic the parse ends with exactly one tree and no diagnostic if and only if the last thing read was an operand; in particular the mismatch crash needs a diagnostic or a missing operand |
| ExprRuns.PrefixPopsSelection | src/parser/expr.c:848-862 | `a . - b` crashes with a mismatch, because the prefix operator pops the selection |
| ExprRuns.SelectionTakesSum | src/parser/expr.c:848-862 | `a + b . - c` is parsed without a diagnostic as `(a . b) + (- c)` |
| ExprRuns.IncrementOfScope | src/parser/expr.c:848-862 | `a ++ :: b` becomes the increment of `a :: b` |
| ExprLine.ApplyKeeps | src/parser/expr.c:802-837 | After an operand, building a tree from the stacks keeps the line of tokens they stand for |
| ExprLine.PopKeeps | src/parser/expr.c:848-862 | So does the popping loop, which adds no diagnostic |
| ExprLine.PopMoves | src/parser/expr.c:848-862 | Where an operand is expected, popping without a diagnostic loses no token but leaves on top an operator other than the one read last |
| ExprYield.ArgsFaithful | src/parser/expr.c:699-725 | Without a diagnostic and over matched brackets the arguments end exactly at the parenthesis found by depth counting, no token is lost, and their yield is the tokens between if and only if every operator in them was pushed in order |
| ExprYield.ParseFaithful | src/parser/expr.c:898-980 | Every parse without a diagnostic over matched brackets: the tree has as many tokens as were read, its yield is the tokens read if and only if every turn, nested ones included, pushes its operator in order, and the brackets are matched by depth counting too |
| ExprBrackets.ParseMatched | src/parser/expr.c:898-957 | If the brackets pair up to a token that can end the expression, no turn of the parse, nested ones included, meets a closing bracket that closes nothing |
| ExprBrackets.ParseConserves | src/parser/expr.c:898-980 | For brackets that pair up and no diagnostic: no token is lost or read twice, and the tree reads as the input if and only if every operator was pushed in order |
| ExprAccepted.AcceptParse | src/parser/expr.c:898-980 | Whatever is parsed without a diagnostic, over matched brackets and with every operator pushed in order, is a phrase the grammar derives, and the tree built is the tree of that phrase |
| ExprEquivalence.AcceptsExactly | src/parser/expr.c:898-980 | For brackets that pair up, no token of no expression and no comma before a closing parenthesis: a parse gives tree e up to token j, without a diagnostic and in order, if and only if the tokens before j are a phrase of the grammar with tree e |
| ExprBrackets.StrayParenthesis | src/parser/expr.c:699-725 | `f(a[b)] + c)` is parsed without a diagnostic as `f(a[b] + c) + c` |
| ConstValues.UnsignedWidensNegative | src/literal.c:887-991 | The other side: the unsigned 32-bit 2^32 - 1 becomes -1 of a signed 64-bit type |
| ConstArithmetic.SignExtIs | src/apint.c:127-133 | Flipping the sign bit and subtracting it is sign extension |
| ConstArithmetic.ConvertInt | src/apint.c:404-440 | The change of width in place, extended as the target is signed, gives the converted value |
| ConstArithmetic.EvalIntBinop | src/sema/expr_eval.c:495-600 | Every binary operator, run on the integers above, gives the result of section 5 of ISO/IEC 14882:2011 modulo 2^n, truncating division and the bitwise operators included, and stops exactly on a zero divisor or an operator that is not supported |
| ConstArithmetic.EvalIntUnaryop | src/sema/expr_eval.c:289-374 | So do the unary minus, plus and complement |
| ConstEval.ArgSmaller | src/sema/expr_eval.c:656-711 | Why evaluation ends on every set of functions, redeclared ones included: an argument or default argument is smaller than its call in the rank by the declarations that gave the default arguments and then in size, at the same call depth |
| ConstEval.RankOfArg | src/sema/expr_eval.c:656-711 | An argument ranks no higher than its call |
| ConstEvalMeaning.ConvertMeans | src/literal.c:887-991 | A conversion succeeds between integers and between nothings; the result has the target's width and kind and is congruent modulo 2^m to the integer read, which a number that widens to a signed type is by its sign bit |
| ConstEvalMeaning.EvalBinary | src/sema/expr_eval.c:607-653 | Every binary expression: the left operand decides first; two values are converted to the expression's type and the result is, modulo 2^n, the left plus, minus or times the right, the truncating quotient or remainder of the left by the right, or has the gated bits; it stops exactly on a zero divisor, an operator not supported or a type without integers |
| ConstEvalMeaning.EvalUnary | src/sema/expr_eval.c:289-374 | The negative, the number itself and -1 - x modulo 2^n, in the operand's type |
| ConstEvalMeaning.EvalName | src/sema/expr_eval.c:93-114 | The first binding of the name, without one its value in the scope, and no constant otherwise |
| ConstEvalMeaning.EvalCall | src/sema/expr_eval.c:656-791 | A call has value v if and only if it is not too deep, the function is defined and takes so many arguments, every parameter k is bound to the converted value of argument k or default k in the caller's place, and the returned expression, in the function's scope under exactly those bindings one call deeper, converts to v |
| ConstEvalMeaning.CallFails | src/sema/expr_eval.c:656-791 | A call is no constant if and only if the depth bound is reached, or the function is undefined, or the first parameter that cannot be bound has an argument that is no constant, or the body returns none |
| ConstEvalExact.IntegerIsValue | src/sema/expr_eval.c:495-822 | Whole evaluations, through operators, conversions, names, defaults and calls: if computing with unbounded integers never leaves the range of a type, the evaluator yields that integer |
| ConstFold.GetFuncArgVals | src/sema/expr_eval.c:656-711 | The loop evaluates and converts arguments, then defaults, and fails with the first that fails |
| ConstFold.Weaken | src/sema/expr_eval.c:93-150 | What evaluates without bindings evaluates to the same under bindings of names without a value in scope |
| ConstFold.Shallower | src/sema/expr_eval.c:749-822 | What evaluates at a call depth evaluates to the same at any smaller one |
| ConstFold.FoldNeverFails | src/sema/expr_eval.c:848-886 | An expression that is no constant is not an error of the folding pass |
| ConstFoldPass.ConstFoldExpr | src/sema/expr_eval.c:848-886 | An expression with a value becomes that value; a recursive pass over any other stops exactly when evaluation stops at it or at an operand reached, and else replaces every outermost subexpression that has a value by it, keeps everything around them, and leaves no operand or argument with a value; a pass that is not recursive leaves it as it is |
| ConstFoldMeaning.FoldRefines | src/sema/expr_eval.c:848-886 | If an expression evaluates to v under bindings at a depth, the folded one does too, given that no bound name has a value in scope |
| ConstFoldMeaning.FoldSame | src/sema/expr_eval.c:848-886 | At the top level folding changes neither a value nor a failure |
| ConstFoldMeaning.FoldTwice | src/sema/expr_eval.c:872-886 | Folding a folded expression changes nothing |
| ConstFoldMeaning.NameAgrees | src/sema/expr_eval.c:93-114 | A name in a default argument has under the caller's bindings the value of its declaration exactly when it is bound to that value, or unbound and given the same value, or none, by both scopes |
| ConstFoldMeaning.DefaultAsDeclared | src/sema/expr_eval.c:684-703 | Any expression, so any default argument, comes to the same in the caller's place as where it was declared if both places agree on its names, those in default arguments it relies on included |
| ConstFoldMeaning.DefaultSeesCaller | src/sema/expr_eval.c:684-703 | Where they do not agree: a default argument n evaluates to the caller's parameter n where there is one, and to the constant n of the scope otherwise |

## Left out

- KnuthDiv: as written, that a division of several turns is exact is proved of those whose turns are all clean. The converse holds turn by turn (`ExactIffClean`) and for divisions of a single turn (`SingleTurn`) but not for a run, because a later turn can drop the digit that an earlier one got wrong (`HealedRun`); what comes out is stated on every input.
- BignumDiv: takes over that condition for divisors of 2^64 and more; smaller divisors need none, and quotients below 17 are judged by `SmallQuotient`.
- UDiv: above 64 bits what comes out is stated for every input, and that it is the quotient under the same condition on the two values.
- URem: likewise for the remainder.
- UDivRem: modelled for equal widths only, as its callers use it; where the quotient overwrites the dividend the divisor must not be the larger, as in the printer. Words above the significant ones keep their old contents, as in the code.
- SDiv: the condition on the negations and on the unsigned division is stated one way; it always holds up to 64 bits, and up to 128 bits when the unsigned division is exact.
- SRem: the same one-way condition as for SDiv.
- UFullMul: leaves out widths whose double takes fewer than twice the words, where the code writes past its result.
- Ext: zero extension only, and narrowing only to at most one word, because the mask shift between longer widths is undefined in C; sign extension is modelled up to one word, by `ConvertInt`.
- CountTrailingZeroes: the loop that does not end is a result flag, found by a condition on the word before the loop.
- AddBase: an exponent beyond the range gives infinity in every mode, as in the code; IEEE 754-2008 prescribes the largest finite number for some modes.
- MulBase: faithful, not correctly rounded; a product below the normal range is truncated by PostOpCorrect.
- InitSint: truncates whatever the rounding mode, as the code does; a negative number is covered when its negation is right, which is the condition of `Negate`.
- SintRoundTrip: takes over that condition on the integer it starts from.
- ToSint: the integer is truncated toward zero, as the code does.
- MaxDecDigits: the exact ceiling; the rounding of the host functions `ceil` and `log10` is not modelled.
- TakeDigit: the division by ten runs as written; its scratch remainder starts from zeroed instead of uninitialised words.
- IsFuncViable: free functions only; the implicit object argument and its qualifiers are left out, and convertibility and rank of a conversion are parameters. Without trailing defaults, which the language demands, it is as described by `ViableIsCallable`.
- ParseExprImpl: literals, identifiers and `this` are one kind of operand, tokens the loop ignores are one kind of token, and a search past the last token is an outcome of its own.
- ParsePrint: ternary operators are not parsed by the code; trees with a comma operator are printed in parentheses where a comma ends an expression.
- AcceptsExactly: skipped tokens and a comma before the closing parenthesis of a call are in no phrase; of input that has them only `ParseFaithful` and `ParseConserves` are claimed.
- ParseFaithful: over brackets that do not pair up the iff is not claimed; `StrayParenthesis` shows what can happen there. Grouping parentheses and closing brackets are not part of a yield.
- Eval: integers of at most 64 bits in the arithmetic it is proved against, as all integer types are; shifts, logical not, pointers, references, member selection, strings, structs, floats, overloaded operators and constructors are left out; the operators the evaluator stops at, such as comparisons, stop it here too. A call names its function directly.
- IntegerIsValue: one way, and without the bitwise operators; a step that leaves its range, or a bitwise one, is described by `EvalBinary`.
- Fold: expression trees are values, so overwriting a node that something else points to is not captured.
- Float division, subtraction, the special cases of addition and subtraction, change of precision and logarithms.
- Arithmetic right shift, `midint_sub_uimm`, `midint_clear_bits`, `is_smin`, `is_smax`, `is_all_ones`, signed comparison.
- Memory management: allocation, stack or heap buffers, the union of one word and a word array (one array of one word here).
- Counters, widths and exponents are unbounded; their 32- and 64-bit limits are not modelled. Words, digits and the carries and borrows of the loops have their widths.
- Diagnostics are counted, not worded. Lexing other than integer literals, declarations, templates, scopes, type checking, code generation, files and the command line.
