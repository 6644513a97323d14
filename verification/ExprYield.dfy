/** Parsing conserves tokens exactly as long as every operator is pushed in its
    turn: the tokens of the tree, from left to right, are those of the input. */
module ExprYield {
  import opened ExprOps
  import opened ExprParser
  import opened ExprRuns
  import opened ExprLine

  // ---------------------------------------------------------- the tokens read

  /** Whether an operand is expected after a token. */
  function After(t: Token, mode: bool): bool
  {
    match t
    case Operand(_) => false
    case Oper(op) => !ToExprOp(op, mode).0.Postfix?
    case LParen => true
    case LSquare => true
    case RParen => false
    case RSquare => false
    case _ => mode
  }

  function ModeAt(toks: seq<Token>, i: nat, j: nat, mode: bool): bool
    requires j <= |toks|
    decreases j - i
  {
    if i >= j then mode else ModeAt(toks, i + 1, j, After(toks[i], mode))
  }

  /** What is left of a token: of brackets only the one that opens a call or a
      subscript, and nothing of a comma right before a closing parenthesis or of a
      token that is no part of an expression. */
  function Keep(toks: seq<Token>, i: nat, mode: bool): seq<Token>
    requires i < |toks|
  {
    match toks[i]
    case Operand(_) => [toks[i]]
    case Oper(op) => if op == Comma && i + 1 < |toks| && toks[i + 1] == RParen then [] else [toks[i]]
    case LParen => if mode then [] else [LParen]
    case LSquare => [LSquare]
    case _ => []
  }

  /** The tokens from i to j, where mode says whether an operand is expected at i. */
  function Strip(toks: seq<Token>, i: nat, j: nat, mode: bool): seq<Token>
    requires j <= |toks|
    decreases j - i
  {
    if i >= j then [] else Keep(toks, i, mode) + Strip(toks, i + 1, j, After(toks[i], mode))
  }

  lemma {:induction false} StripSplit(toks: seq<Token>, i: nat, j: nat, k: nat, mode: bool)
    requires i <= j <= k <= |toks|
    ensures ModeAt(toks, i, k, mode) == ModeAt(toks, j, k, ModeAt(toks, i, j, mode))
    ensures Strip(toks, i, k, mode) == Strip(toks, i, j, mode) + Strip(toks, j, k, ModeAt(toks, i, j, mode))
    decreases j - i
  {
    hide Keep, After;
    if i < j {
      StripSplit(toks, i + 1, j, k, After(toks[i], mode));
    }
  }

  lemma StripOne(toks: seq<Token>, i: nat, mode: bool)
    requires i < |toks|
    ensures Strip(toks, i, i + 1, mode) == Keep(toks, i, mode) && ModeAt(toks, i, i + 1, mode) == After(toks[i], mode)
  {
    hide Keep, After;
  }

  /** A bracket, what is inside, and the closing bracket. */
  lemma StripBracket(toks: seq<Token>, i: nat, j: nat, mode: bool)
    requires i < j < |toks| && (toks[i] == LParen || toks[i] == LSquare) && (toks[j] == RParen || toks[j] == RSquare)
    ensures Strip(toks, i, j + 1, mode) == Keep(toks, i, mode) + Strip(toks, i + 1, j, true)
    ensures !ModeAt(toks, i, j + 1, mode)
  {
    hide Strip, ModeAt;
    StripSplit(toks, i, i + 1, j + 1, mode);
    StripOne(toks, i, mode);
    StripSplit(toks, i + 1, j, j + 1, true);
    StripOne(toks, j, ModeAt(toks, i + 1, j, true));
  }

  // --------------------------------------------------------------- turns in order

  /** An operator keeps to the order of the tokens when, as a prefix operator, it
      pops nothing, and otherwise leaves no suffix pending below it. */
  predicate Orderly(s: State, op: ExprOp)
  {
    if s.mode then PopWhile(s, Prec(op)) == s
    else var ops := PopWhile(s, Prec(op)).ops; |ops| > 0 ==> !IsSuffix(Last(ops))
  }

  /** Two qualities of a run: it meets no closing bracket that closes nothing in it,
      and every operator is pushed in order. */
  datatype Quality = Matched | InOrder

  predicate TurnIs(quality: Quality, toks: seq<Token>, s: State)
    requires s.i < |toks|
    decreases |toks| - s.i, 2
  {
    match toks[s.i]
    case Operand(_) => true
    case Oper(t) => quality.InOrder? ==> Orderly(s, ToExprOp(t, s.mode).0)
    case LParen =>
      if s.mode then ParseIs(quality, toks, s.i + 1, {EndRParen})
      else
        var twin := TwinFrom(toks, s.i + 1, 0, LParen, RParen);
        (twin.Found? ==> ArgsAre(quality, toks, s.i + 1, twin.at)) && (quality.InOrder? ==> Orderly(s, Call))
    case LSquare => ParseIs(quality, toks, s.i + 1, {EndRSquare}) && (quality.InOrder? ==> Orderly(s, Subscript))
    case Other(_) => true
    case _ => quality.InOrder?
  }

  predicate RunIs(quality: Quality, toks: seq<Token>, s: State, ends: set<EndType>)
    decreases |toks| - s.i, 3
  {
    s.i < |toks| && !Ends(toks[s.i], ends) ==>
      TurnIs(quality, toks, s) && (Step(toks, s).Done? ==> RunIs(quality, toks, Step(toks, s).value, ends))
  }

  /** Every turn of a parse has the quality, and of the parses nested in it. */
  predicate ParseIs(quality: Quality, toks: seq<Token>, i: nat, ends: set<EndType>)
    decreases |toks| - i, 4
  {
    RunIs(quality, toks, State(i, [], [], true, 0), ends)
  }

  predicate ArgsAre(quality: Quality, toks: seq<Token>, i: nat, rparen: nat)
    requires rparen < |toks|
    decreases |toks| - i, 5
  {
    i < rparen ==>
      var arg := Parse(toks, i, {EndComma, EndRParen});
      ParseIs(quality, toks, i, {EndComma, EndRParen}) && (arg.Done? ==> ArgsAre(quality, toks, arg.value.1 + 1, rparen))
  }

  // ---------------------------------------------------------------- matched brackets

  /** The search for a twin passes over the tokens from i to j. */
  ghost predicate Passes(toks: seq<Token>, i: nat, j: nat)
  {
    forall depth: nat, l: Token, r: Token :: IsBracketPair(l, r) ==> TwinFrom(toks, i, depth, l, r) == TwinFrom(toks, j, depth, l, r)
  }

  lemma PassesPlain(toks: seq<Token>, i: nat)
    requires i < |toks| && (toks[i].Operand? || toks[i].Oper? || toks[i].Other?)
    ensures Passes(toks, i, i + 1)
  {
  }

  /** Over a bracket, its inside, and the closing one. */
  lemma PassesBracket(toks: seq<Token>, i: nat, j: nat, l: Token, r: Token)
    requires i < j < |toks| && IsBracketPair(l, r) && toks[i] == l && toks[j] == r && Passes(toks, i + 1, j)
    ensures Passes(toks, i, j + 1) && TwinFrom(toks, i + 1, 0, l, r) == Found(j)
  {
    assert TwinFrom(toks, j, 0, l, r) == Found(j);
    forall depth: nat, l': Token, r': Token | IsBracketPair(l', r')
      ensures TwinFrom(toks, i, depth, l', r') == TwinFrom(toks, j + 1, depth, l', r')
    {
      var inside := if l' == l then depth + 1 else depth;
      assert TwinFrom(toks, i, depth, l', r') == TwinFrom(toks, i + 1, inside, l', r');
      assert TwinFrom(toks, i + 1, inside, l', r') == TwinFrom(toks, j, inside, l', r');
    }
  }

  lemma PassesTrans(toks: seq<Token>, i: nat, j: nat, k: nat)
    requires Passes(toks, i, j) && Passes(toks, j, k)
    ensures Passes(toks, i, k)
  {
    hide TwinFrom;
  }

  lemma PassesSelf(toks: seq<Token>, i: nat)
    ensures Passes(toks, i, i)
  {
  }

  /** An argument ends at the parenthesis looked for, or at a comma before it. */
  lemma TwinAfter(toks: seq<Token>, i: nat, j: nat, rparen: nat)
    requires TwinFrom(toks, i, 0, LParen, RParen) == Found(rparen) && Passes(toks, i, j)
    requires i <= j < |toks| && Ends(toks[j], {EndComma, EndRParen})
    ensures if toks[j] == RParen then j == rparen
            else toks[j] == Oper(Comma) && j < rparen && TwinFrom(toks, j + 1, 0, LParen, RParen) == Found(rparen)
  {
  }

  // ------------------------------------------------------- what every run keeps

  /** The last operator on the stack is the last token read. */
  predicate EndsWith(s: State, read: seq<Token>)
  {
    |s.ops| > 0 ==>
      && (s.mode ==> |read| > 0 && Last(read) == OpToken(Last(s.ops).op))
      && (!s.mode && IsSuffix(Last(s.ops)) ==>
            |Suffix(Last(s.ops))| <= |read| && read[|read| - |Suffix(Last(s.ops))|] == OpToken(Last(s.ops).op))
  }

  /** The state reached from token start without a diagnostic.  Its line is as long
      as what has been read; it is what has been read as long as all turns were in
      order, and its settled part has a wrong token as soon as one was not. */
  ghost predicate Reads(toks: seq<Token>, start: nat, s: State, inOrder: bool)
  {
    && start <= s.i <= |toks| && s.diags == 0 && Balanced(s) && Stacked(s.ops, s.mode)
    && ModeAt(toks, start, s.i, true) == s.mode && Passes(toks, start, s.i)
    && ReadsTo(Strip(toks, start, s.i, true), s, inOrder)
  }

  predicate ReadsTo(read: seq<Token>, s: State, inOrder: bool)
  {
    && Weight(s.out, s.ops) == |read| && EndsWith(s, read)
    && if inOrder then Settled(s) == read else !(Settled(s) <= read)
  }

  /** A wrong token stays. */
  lemma StaysWrong(settled: seq<Token>, read: seq<Token>, settled': seq<Token>, read': seq<Token>)
    requires !(settled <= read) && |settled| <= |read| && settled <= settled' && read <= read'
    ensures !(settled' <= read')
  {
  }

  lemma SettledShort(s: State)
    requires Balanced(s) && Stacked(s.ops, s.mode)
    ensures |Settled(s)| <= Weight(s.out, s.ops) && Settled(s) <= Line(s.out, s.ops, s.mode)
    ensures |Line(s.out, s.ops, s.mode)| == Weight(s.out, s.ops)
  {
    hide Body, Right, Stacked, Weight;
    LineWeight(s.out, s.ops, s.mode);
  }

  /** From one state to another over the tokens from s.i to t.i. */
  lemma ReadsNext(toks: seq<Token>, start: nat, s: State, t: State, inOrder: bool, inOrder': bool)
    requires Reads(toks, start, s, inOrder) && s.i <= t.i <= |toks| && Passes(toks, s.i, t.i)
    requires t.diags == 0 && Balanced(t) && Stacked(t.ops, t.mode) && ModeAt(toks, s.i, t.i, s.mode) == t.mode
    requires ReadsTo(Strip(toks, start, s.i, true) + Strip(toks, s.i, t.i, s.mode), t, inOrder')
    ensures Reads(toks, start, t, inOrder')
  {
    hide Passes, Balanced, Stacked, ReadsTo;
    PassesTrans(toks, start, s.i, t.i);
    StripSplit(toks, start, s.i, t.i, true);
  }

  /** A tree read where an operand is expected. */
  lemma TreeRead(read: seq<Token>, s: State, inOrder: bool, e: Expr, added: seq<Token>, i: nat)
    requires ReadsTo(read, s, inOrder) && s.mode && Balanced(s) && Stacked(s.ops, true) && |added| == |Yield(e)|
    ensures var t := State(i, s.out + [e], s.ops, false, 0);
            Balanced(t) && Stacked(t.ops, false) && ReadsTo(read + added, t, inOrder && added == Yield(e))
  {
    hide Yield, Weight, Stacked, Body, Right, Suffix, Settled;
    var t := State(i, s.out + [e], s.ops, false, 0);
    SettledShort(s);
    StackedAny(s.ops);
    WeightOut(s.out, e, s.ops);
    TreeSettled(s, t, e);
    Extends(read, Settled(s), inOrder, Yield(e), added);
  }

  lemma TreeSettled(s: State, t: State, e: Expr)
    requires s.mode && !t.mode && Stacked(s.ops, true) && t.out == s.out + [e] && t.ops == s.ops
    ensures Settled(t) == Settled(s) + Yield(e) && (|t.ops| > 0 ==> !IsSuffix(Last(t.ops)))
  {
    hide Yield, Body, Right, Stacked;
    if |s.ops| > 0 { TopSound(s.ops, true); }
    assert Drop(t.out) == s.out && Last(t.out) == e;
    BodyOperand(t.out, t.ops);
  }

  /** As many tokens more on both sides. */
  lemma Extends(read: seq<Token>, settled: seq<Token>, inOrder: bool, a: seq<Token>, b: seq<Token>)
    requires |a| == |b| && |settled| <= |read|
    requires if inOrder then settled == read else !(settled <= read)
    ensures if inOrder && a == b then settled + a == read + b else !(settled + a <= read + b)
  {
    if !inOrder { StaysWrong(settled, read, settled + a, read + b); }
    else if a != b { SameLengthApart(read, a, b); }
  }

  lemma SameLengthApart(read: seq<Token>, a: seq<Token>, b: seq<Token>)
    requires |a| == |b| && a != b
    ensures !(read + a <= read + b)
  {
    var k :| 0 <= k < |a| && a[k] != b[k];
    assert (read + a)[|read| + k] == a[k] && (read + b)[|read| + k] == b[k];
  }

  lemma StackedAny(ops: seq<Pending>)
    requires Stacked(ops, true)
    ensures Stacked(ops, false)
  {
  }

  lemma TakeTree(toks: seq<Token>, start: nat, s: State, inOrder: bool, e: Expr, j: nat)
    requires Reads(toks, start, s, inOrder) && s.mode && s.i <= j <= |toks|
    requires Passes(toks, s.i, j) && !ModeAt(toks, s.i, j, true) && |Strip(toks, s.i, j, true)| == |Yield(e)|
    ensures Reads(toks, start, State(j, s.out + [e], s.ops, false, 0), inOrder && Strip(toks, s.i, j, true) == Yield(e))
  {
    hide Passes, Yield, Strip, ModeAt, ReadsTo, Balanced, Stacked;
    var added := Strip(toks, s.i, j, true);
    TreeRead(Strip(toks, start, s.i, true), s, inOrder, e, added, j);
    ReadsNext(toks, start, s, State(j, s.out + [e], s.ops, false, 0), inOrder, inOrder && added == Yield(e));
  }

  // ------------------------------------------------------------- prefix operators

  /** Pushed on what is pending, after popping what is popped. */
  lemma PrefixRead(read: seq<Token>, s: State, inOrder: bool, op: Pending, i: nat)
    requires ReadsTo(read, s, inOrder) && s.mode && Balanced(s) && Stacked(s.ops, true)
    requires op.op.Prefix? && Sound(op) && PushOp(s, op).diags == s.diags
    ensures var p := PushOp(s, op);
            var t := State(i, p.out, p.ops, true, 0);
            Balanced(t) && Stacked(t.ops, true) && ReadsTo(read + [OpToken(op.op)], t, inOrder && Orderly(s, op.op))
  {
    hide Weight, Stacked, Balanced, PopWhile, Prec, Settled, Sound, OpToken;
    StackedAny(s.ops);
    PopMoves(s, Prec(op.op));
    var u := PopWhile(s, Prec(op.op));
    var t := State(i, u.out, u.ops + [op], true, 0);
    if u == s {
      PrefixPushed(read, s, t, op, inOrder);
    } else {
      SoundPrefix(op);
      Overtaken(read, s, u, op.op);
      PlainStacked(u.ops, true);
      PrefixPushed(read, u, t, op, false);
    }
  }

  lemma SoundPrefix(op: Pending)
    requires Sound(op) && op.op.Prefix?
    ensures CanPrefix(op.op.tok)
  {
  }

  lemma PrefixPushed(read: seq<Token>, u: State, t: State, op: Pending, inOrder: bool)
    requires u.mode && Balanced(u) && Stacked(u.ops, true) && Weight(u.out, u.ops) == |read|
    requires if inOrder then Settled(u) == read else !(Settled(u) <= read)
    requires op.op.Prefix? && Sound(op) && (|u.ops| > 0 ==> !Pops(Prec(Last(u.ops).op), Prec(op.op)))
    requires t == State(t.i, u.out, u.ops + [op], true, 0)
    ensures Balanced(t) && Stacked(t.ops, true) && ReadsTo(read + [OpToken(op.op)], t, inOrder)
  {
    hide Weight, Stacked, Prec, Settled, OpToken;
    SettledShort(u);
    PushSound(u.out, u.ops, op);
    OnePushed(u, t, op);
    Extends(read, Settled(u), inOrder, [OpToken(op.op)], [OpToken(op.op)]);
  }

  lemma PushSound(out: seq<Expr>, ops: seq<Pending>, op: Pending)
    requires Sound(op) && op.op.Prefix? && Stacked(ops, true) && (|ops| > 0 ==> !Pops(Prec(Last(ops).op), Prec(op.op)))
    ensures Stacked(ops + [op], true) && Weight(out, ops + [op]) == Weight(out, ops) + 1
  {
    hide Weight, Stacked, Suffix;
    WeightOp(out, ops, op);
    SoundSuffix(op);
    StackedAny(ops);
    if Prec(op.op) < 15 { NoSuffixLeft(ops, Prec(op.op)); }
    StackedPush(ops, op);
  }

  lemma StackedPush(ops: seq<Pending>, op: Pending)
    requires Sound(op)
    requires if Prec(op.op) == 15 then Stacked(ops, !IsBinary(op.op)) else Plain(ops)
    ensures Stacked(ops + [op], true) && Stacked(ops + [op], false)
  {
    assert Drop(ops + [op]) == ops;
  }

  lemma OnePushed(u: State, t: State, op: Pending)
    requires u.mode && t.mode && t.out == u.out && t.ops == u.ops + [op] && op.op.Prefix?
    ensures Settled(t) == Settled(u) + [OpToken(op.op)] && Binaries(t.ops) == Binaries(u.ops)
  {
    hide Body;
    assert Drop(t.ops) == u.ops;
    BodyOperator(t.out, t.ops);
  }

  /** A prefix operator that popped something: the operator that is now last is not
      the one read last. */
  lemma Overtaken(read: seq<Token>, s: State, u: State, op: ExprOp)
    requires s.mode && u.mode && EndsWith(s, read) && |s.ops| > 0 && |u.ops| > 0
    requires op.Prefix? && CanPrefix(op.tok) && Stacked(s.ops, true) && Stacked(u.ops, false) && Balanced(u)
    requires Pops(Prec(Last(s.ops).op), Prec(op)) && !Pops(Prec(Last(u.ops).op), Prec(op))
    requires Weight(u.out, u.ops) == |read|
    ensures Plain(u.ops) && !(Settled(u) <= read)
  {
    hide Weight, Body, Right, Suffix;
    NotHighest(Prec(Last(s.ops).op), Prec(op));
    NoSuffixLeft(u.ops, Prec(op));
    TopSound(s.ops, true);
    assert Sound(Last(u.ops));
    PlainStacked(u.ops, true);
    LineWeight(u.out, u.ops, true);
    PlainRight(u.ops);
    BodyOperator(u.out, u.ops);
    TokensDiffer(Last(s.ops).op, Last(u.ops).op, op);
    assert Last(Settled(u)) == OpToken(Last(u.ops).op);
  }

  lemma NotHighest(top: int, p: int)
    requires Pops(top, p) && top <= 15
    ensures p < 15
  {
  }

  /** No token is popped by a prefix operator in one role and not in the other. */
  lemma TokensDiffer(popped: ExprOp, left: ExprOp, op: ExprOp)
    requires (popped.Binary? && !IsUnaryTok(popped.tok)) || (popped.Prefix? && CanPrefix(popped.tok))
    requires (left.Binary? && !IsUnaryTok(left.tok)) || (left.Prefix? && CanPrefix(left.tok))
    requires op.Prefix? && CanPrefix(op.tok) && Pops(Prec(popped), Prec(op)) && !Pops(Prec(left), Prec(op))
    ensures OpToken(popped) != OpToken(left)
  {
    assert Prec(op) in {1, 13, 14, 15};
  }

  lemma TakePrefix(toks: seq<Token>, start: nat, s: State, inOrder: bool, op: Pending)
    requires Reads(toks, start, s, inOrder) && s.mode && s.i < |toks| && op.op.Prefix? && Sound(op)
    requires Passes(toks, s.i, s.i + 1) && Keep(toks, s.i, true) == [OpToken(op.op)] && After(toks[s.i], true)
    requires PushOp(s, op).diags == 0
    ensures var p := PushOp(s, op);
            Reads(toks, start, State(s.i + 1, p.out, p.ops, true, 0), inOrder && Orderly(s, op.op))
  {
    hide Passes, Strip, ModeAt, ReadsTo, Balanced, Stacked, PushOp, Orderly, Keep, After, Sound;
    StripOne(toks, s.i, true);
    PrefixRead(Strip(toks, start, s.i, true), s, inOrder, op, s.i + 1);
    var p := PushOp(s, op);
    ReadsNext(toks, start, s, State(s.i + 1, p.out, p.ops, true, 0), inOrder, inOrder && Orderly(s, op.op));
  }

  // ------------------------------------------- operators that follow an operand

  /** Popping for an operator below the highest precedence settles all of the line,
      and for one of the highest there is nothing to pop. */
  lemma PopSettles(read: seq<Token>, s: State, inOrder: bool, p: int)
    requires ReadsTo(read, s, inOrder) && !s.mode && Balanced(s) && Stacked(s.ops, false) && p <= 15
    ensures var u := PopWhile(s, p);
            && u.diags == s.diags && Balanced(u) && Stacked(u.ops, false) && Weight(u.out, u.ops) == |read|
            && |Settled(u)| <= |read| && (if inOrder then Settled(u) == read else !(Settled(u) <= read))
            && if p < 15 then Plain(u.ops) else u == s
  {
    hide Weight, Stacked, Line, Settled, Plain, Balanced, Prec;
    PopKeeps(s, p);
    var u := PopWhile(s, p);
    SettledShort(s);
    SettledShort(u);
    if p < 15 {
      NoSuffixLeft(u.ops, p);
      PlainSettled(u);
      if !inOrder { StaysWrong(Settled(s), read, Settled(u), read); }
    } else {
      NothingAbove(s, p);
    }
  }

  lemma PlainSettled(u: State)
    requires Plain(u.ops)
    ensures Settled(u) == Line(u.out, u.ops, u.mode)
  {
    hide Body;
    PlainRight(u.ops);
    if |u.ops| > 0 { assert Sound(Last(u.ops)); }
  }

  lemma NothingAbove(s: State, p: int)
    requires 15 <= p
    ensures PopWhile(s, p) == s
  {
  }

  /** In order. */
  lemma InfixPushed(u: State, t: State, op: Pending)
    requires !u.mode && t.out == u.out && t.ops == u.ops + [op] && (|u.ops| > 0 ==> !IsSuffix(Last(u.ops)))
    requires if IsSuffix(op) then !t.mode && Plain(u.ops) else op.op.Binary? && Sound(op) && t.mode
    ensures Settled(t) == Settled(u) + Suffix(op)
  {
    hide Body, Suffix;
    assert Drop(t.ops) == u.ops;
    BodyOperator(t.out, t.ops);
    if IsSuffix(op) {
      PlainRight(u.ops);
    } else {
      SoundSuffix(op);
    }
  }

  /** Out of order: the operator gets between a suffix and its operand. */
  lemma SuffixBuried(read: seq<Token>, s: State, t: State, op: Pending)
    requires !s.mode && Balanced(s) && Stacked(s.ops, false) && |s.ops| > 0 && IsSuffix(Last(s.ops)) && EndsWith(s, read)
    requires Weight(s.out, s.ops) == |read| && op.op == Binary(ScopeRes)
    requires t.mode && t.out == s.out && t.ops == s.ops + [op]
    ensures !(Settled(t) <= read) && |Settled(t)| <= |read|
  {
    hide Body, Weight, Suffix;
    LineWeight(s.out, s.ops, false);
    PlainRight(Drop(s.ops));
    BodyOperator(s.out, s.ops);
    assert Drop(t.ops) == s.ops;
    BodyOperator(t.out, t.ops);
    var k := |Body(s.out, s.ops, false)|;
    assert Right(s.ops) == Suffix(Last(s.ops)) + [];
    assert Settled(t)[k] == OpToken(op.op);
    assert read[k] == OpToken(Last(s.ops).op);
  }

  lemma StackedInfix(u: State, op: Pending, mode: bool, i: nat)
    requires Balanced(u) && !u.mode && Stacked(u.ops, false)
    requires if IsSuffix(op) then !mode else op.op.Binary? && Sound(op) && mode
    requires Prec(op.op) < 15 ==> Plain(u.ops)
    ensures Balanced(State(i, u.out, u.ops + [op], mode, 0)) && Stacked(u.ops + [op], mode)
    ensures Weight(u.out, u.ops + [op]) == Weight(u.out, u.ops) + |Suffix(op)|
  {
    hide Weight, Suffix;
    WeightOp(u.out, u.ops, op);
    assert Drop(u.ops + [op]) == u.ops;
    if !IsSuffix(op) { StackedPush(u.ops, op); }
  }

  lemma SuffixPrec(op: Pending)
    requires IsSuffix(op)
    ensures Prec(op.op) == 14
  {
  }

  lemma BuriedByScope(ops: seq<Pending>, op: Pending)
    requires |ops| > 0 && IsSuffix(Last(ops)) && (Prec(op.op) < 15 ==> Plain(ops))
    requires IsSuffix(op) || (op.op.Binary? && Sound(op))
    ensures Prec(op.op) == 15 && op.op == Binary(ScopeRes)
  {
    if Plain(ops) { PlainTop(ops); }
  }

  lemma InfixEnds(read: seq<Token>, t: State, ops: seq<Pending>, op: Pending, added: seq<Token>)
    requires t.ops == ops + [op] && |added| == |Suffix(op)| && added[0] == OpToken(op.op)
    requires if IsSuffix(op) then !t.mode else Sound(op) && t.mode
    ensures EndsWith(t, read + added)
  {
    if !IsSuffix(op) { SoundSuffix(op); }
    assert (read + added)[|read|] == added[0];
  }

  lemma InfixRead(read: seq<Token>, s: State, inOrder: bool, op: Pending, mode: bool, added: seq<Token>, i: nat)
    requires ReadsTo(read, s, inOrder) && !s.mode && Balanced(s) && Stacked(s.ops, false)
    requires if IsSuffix(op) then !mode else op.op.Binary? && Sound(op) && mode
    requires |added| == |Suffix(op)| && added[0] == OpToken(op.op)
    ensures var p := PushOp(s, op);
            var t := State(i, p.out, p.ops, mode, 0);
            p.diags == s.diags && Balanced(t) && Stacked(t.ops, mode)
            && ReadsTo(read + added, t, inOrder && Orderly(s, op.op) && added == Suffix(op))
  {
    hide Weight, Stacked, Balanced, PopWhile, Prec, Settled, Plain, Sound, Suffix;
    PopSettles(read, s, inOrder, Prec(op.op));
    var u := PopWhile(s, Prec(op.op));
    var t := State(i, u.out, u.ops + [op], mode, 0);
    StackedInfix(u, op, mode, i);
    InfixEnds(read, t, u.ops, op, added);
    if Orderly(s, op.op) {
      if IsSuffix(op) { SuffixPrec(op); }
      InfixPushed(u, t, op);
      Extends(read, Settled(u), inOrder, Suffix(op), added);
    } else {
      BuriedByScope(u.ops, op);
      SuffixBuried(read, s, t, op);
      StaysWrongWider(Settled(t), read, added);
    }
  }

  lemma StaysWrongWider(settled: seq<Token>, read: seq<Token>, added: seq<Token>)
    requires !(settled <= read) && |settled| <= |read|
    ensures !(settled <= read + added)
  {
  }

  lemma TakeInfix(toks: seq<Token>, start: nat, s: State, inOrder: bool, op: Pending, mode: bool, j: nat)
    requires Reads(toks, start, s, inOrder) && !s.mode && s.i <= j <= |toks|
    requires if IsSuffix(op) then !mode else op.op.Binary? && Sound(op) && mode
    requires Passes(toks, s.i, j) && ModeAt(toks, s.i, j, false) == mode
    requires var added := Strip(toks, s.i, j, false); |added| == |Suffix(op)| && added[0] == OpToken(op.op)
    ensures var p := PushOp(s, op);
            p.diags == 0 && Reads(toks, start, State(j, p.out, p.ops, mode, 0),
                                  inOrder && Orderly(s, op.op) && Strip(toks, s.i, j, false) == Suffix(op))
  {
    hide Passes, Strip, ModeAt, ReadsTo, Balanced, Stacked, PushOp, Orderly, Sound, Suffix, IsSuffix;
    var added := Strip(toks, s.i, j, false);
    InfixRead(Strip(toks, start, s.i, true), s, inOrder, op, mode, added, j);
    var p := PushOp(s, op);
    ReadsNext(toks, start, s, State(j, p.out, p.ops, mode, 0), inOrder, inOrder && Orderly(s, op.op) && added == Suffix(op));
  }

  // --------------------------------------------------------------- every turn

  /** A comma, or another operator, is not the last token before a parenthesis. */
  predicate GoesOn(toks: seq<Token>, s: State)
  {
    s.mode ==> s.i < |toks| && toks[s.i] != RParen
  }

  lemma ReadsDiags(toks: seq<Token>, start: nat, s: State, inOrder: bool)
    requires Reads(toks, start, s, inOrder)
    ensures s.diags == 0 && start <= s.i <= |toks|
  {
  }

  lemma TakeOper(toks: seq<Token>, start: nat, s: State, inOrder: bool, t: TokOp)
    requires Reads(toks, start, s, inOrder) && s.i < |toks| && toks[s.i] == Oper(t)
    requires Step(toks, s).value.diags == 0 && GoesOn(toks, Step(toks, s).value)
    ensures Reads(toks, start, Step(toks, s).value, inOrder && Orderly(s, ToExprOp(t, s.mode).0))
  {
    hide Reads, Passes, Orderly, Prec, PopWhile, PushOp, Strip, ModeAt, Stacked, Suffix;
    var op := Pending(ToExprOp(t, s.mode).0, []);
    PassesPlain(toks, s.i);
    StripOne(toks, s.i, s.mode);
    ReadsDiags(toks, start, s, inOrder);
    assert s.(diags := s.diags + 0) == s;
    if s.mode {
      TakePrefix(toks, start, s, inOrder, op);
    } else {
      NoArguments(op);
      TakeInfix(toks, start, s, inOrder, op, op.op.Binary?, s.i + 1);
    }
  }

  lemma NoArguments(op: Pending)
    requires op.args == []
    ensures Suffix(op) == [OpToken(op.op)]
  {
  }

  lemma TakeLeaf(toks: seq<Token>, start: nat, s: State, inOrder: bool, id: nat)
    requires Reads(toks, start, s, inOrder) && s.mode && s.i < |toks| && toks[s.i] == Operand(id)
    ensures Reads(toks, start, State(s.i + 1, s.out + [Leaf(id)], s.ops, false, s.diags), inOrder)
  {
    hide Reads, Passes, Strip, ModeAt;
    PassesPlain(toks, s.i);
    StripOne(toks, s.i, true);
    ReadsDiags(toks, start, s, inOrder);
    TakeTree(toks, start, s, inOrder, Leaf(id), s.i + 1);
  }

  lemma SkipToken(toks: seq<Token>, start: nat, s: State, inOrder: bool)
    requires Reads(toks, start, s, inOrder) && s.i < |toks| && toks[s.i].Other?
    ensures Reads(toks, start, s.(i := s.i + 1), inOrder)
  {
    hide Passes, Strip, ModeAt, Balanced, Stacked, Settled, Weight;
    PassesPlain(toks, s.i);
    StripOne(toks, s.i, s.mode);
    var read := Strip(toks, start, s.i, true);
    assert read + [] == read;
    SameSettled(s, s.(i := s.i + 1));
    ReadsNext(toks, start, s, s.(i := s.i + 1), inOrder, inOrder);
  }

  lemma SameSettled(s: State, t: State)
    requires t == s.(i := t.i)
    ensures Settled(t) == Settled(s) && (Balanced(s) ==> Balanced(t))
  {
  }

  /** A turn without a diagnostic. */
  lemma {:induction false} StepReads(toks: seq<Token>, start: nat, s: State, inOrder: bool)
    requires s.i < |toks| && Reads(toks, start, s, inOrder) && TurnIs(Matched, toks, s)
    requires Step(toks, s).Done? && Step(toks, s).value.diags == 0 && GoesOn(toks, Step(toks, s).value)
    ensures Reads(toks, start, Step(toks, s).value, inOrder && TurnIs(InOrder, toks, s))
    decreases |toks| - s.i, 2
  {
    hide Reads, Orderly, Prec, PushOp, TwinFrom, Parse, Arguments, ParseIs, ArgsAre, GoesOn, ToExprOp;
    ReadsDiags(toks, start, s, inOrder);
    match toks[s.i] {
      case Operand(id) => TakeLeaf(toks, start, s, inOrder, id);
      case Oper(t) => TakeOper(toks, start, s, inOrder, t);
      case LParen =>
        if s.mode { SubExprReads(toks, start, s, inOrder); } else { CallReads(toks, start, s, inOrder); }
      case LSquare => SubscriptReads(toks, start, s, inOrder);
      case Other(_) => SkipToken(toks, start, s, inOrder);
      case _ =>
    }
  }

  lemma {:induction false} SubExprReads(toks: seq<Token>, start: nat, s: State, inOrder: bool)
    requires s.i < |toks| && Reads(toks, start, s, inOrder) && s.mode && toks[s.i] == LParen
    requires ParseIs(Matched, toks, s.i + 1, {EndRParen})
    requires SubExpr(toks, s).Done? && SubExpr(toks, s).value.diags == 0
    ensures Reads(toks, start, SubExpr(toks, s).value, inOrder && ParseIs(InOrder, toks, s.i + 1, {EndRParen}))
    decreases |toks| - s.i, 1
  {
    hide Reads, Passes, TwinFrom, Parse, ParseIs, Strip, ModeAt, Yield;
    ParseFaithful(toks, s.i + 1, {EndRParen});
    ReadsDiags(toks, start, s, inOrder);
    var (e, j, _) := Parse(toks, s.i + 1, {EndRParen}).value;
    PassesBracket(toks, s.i, j, LParen, RParen);
    StripBracket(toks, s.i, j, true);
    TakeTree(toks, start, s, inOrder, e, j + 1);
  }

  lemma {:induction false} SubscriptReads(toks: seq<Token>, start: nat, s: State, inOrder: bool)
    requires s.i < |toks| && Reads(toks, start, s, inOrder) && toks[s.i] == LSquare
    requires ParseIs(Matched, toks, s.i + 1, {EndRSquare})
    requires SubscriptStep(toks, s).Done? && SubscriptStep(toks, s).value.diags == 0
    ensures Reads(toks, start, SubscriptStep(toks, s).value,
                  inOrder && Orderly(s, Subscript) && ParseIs(InOrder, toks, s.i + 1, {EndRSquare}))
    decreases |toks| - s.i, 1
  {
    hide Reads, Passes, TwinFrom, Parse, ParseIs, Strip, ModeAt, Yield, PushOp, Orderly;
    ParseFaithful(toks, s.i + 1, {EndRSquare});
    ReadsDiags(toks, start, s, inOrder);
    var (e, j, _) := Parse(toks, s.i + 1, {EndRSquare}).value;
    PassesBracket(toks, s.i, j, LSquare, RSquare);
    StripBracket(toks, s.i, j, false);
    SuffixOf(Subscript, e);
    SameTail([LSquare], Strip(toks, s.i + 1, j, true), Yield(e));
    assert s.(diags := s.diags + 0 + 0) == s;
    TakeInfix(toks, start, s, inOrder, Pending(Subscript, [e]), false, j + 1);
  }

  lemma SameTail(a: seq<Token>, b: seq<Token>, c: seq<Token>)
    ensures a + b == a + c <==> b == c
  {
    if a + b == a + c { assert (a + b)[|a|..] == b && (a + c)[|a|..] == c; }
  }

  lemma {:induction false} CallReads(toks: seq<Token>, start: nat, s: State, inOrder: bool)
    requires s.i < |toks| && Reads(toks, start, s, inOrder) && !s.mode && toks[s.i] == LParen
    requires TurnIs(Matched, toks, s)
    requires CallStep(toks, s).Done? && CallStep(toks, s).value.diags == 0
    ensures Reads(toks, start, CallStep(toks, s).value, inOrder && TurnIs(InOrder, toks, s))
    decreases |toks| - s.i, 1
  {
    hide Reads, Passes, TwinFrom, Arguments, ArgsAre, Strip, ModeAt, YieldAll, PushOp, Orderly;
    ReadsDiags(toks, start, s, inOrder);
    var rparen := TwinFrom(toks, s.i + 1, 0, LParen, RParen).at;
    ArgsFaithful(toks, s.i + 1, rparen);
    var (args, _) := Arguments(toks, s.i + 1, rparen).value;
    PassesBracket(toks, s.i, rparen, LParen, RParen);
    StripBracket(toks, s.i, rparen, false);
    SameTail([LParen], Strip(toks, s.i + 1, rparen, true), YieldAll(args));
    assert s.(diags := s.diags + 0) == s;
    TakeInfix(toks, start, s, inOrder, Pending(Call, args), false, rparen + 1);
  }

  /** The arguments of a call end exactly at the parenthesis that depth counting
      found, whatever the order of the turns in them. */
  lemma {:induction false} ArgsFaithful(toks: seq<Token>, i: nat, rparen: nat)
    requires TwinFrom(toks, i, 0, LParen, RParen) == Found(rparen) && rparen < |toks| && ArgsAre(Matched, toks, i, rparen)
    requires Arguments(toks, i, rparen).Done? && Arguments(toks, i, rparen).value.1 == 0
    ensures i <= rparen && toks[rparen] == RParen && Passes(toks, i, rparen)
    ensures |YieldAll(Arguments(toks, i, rparen).value.0)| == |Strip(toks, i, rparen, true)|
    ensures YieldAll(Arguments(toks, i, rparen).value.0) == Strip(toks, i, rparen, true) <==> ArgsAre(InOrder, toks, i, rparen)
    decreases |toks| - i, 5
  {
    hide Passes, TwinFrom, Parse, ParseIs, Strip, ModeAt, Yield;
    if i < rparen {
      var ends := {EndComma, EndRParen};
      ParseFaithful(toks, i, ends);
      var (e, j, _) := Parse(toks, i, ends).value;
      TwinAfter(toks, i, j, rparen);
      if j == rparen {
        YieldOne(e);
        assert [e] + [] == [e];
      } else {
        ArgsFaithful(toks, j + 1, rparen);
        PassesPlain(toks, j);
        PassesTrans(toks, i, j, j + 1);
        PassesTrans(toks, i, j + 1, rparen);
        AfterComma(toks, i, j, rparen, e, Arguments(toks, j + 1, rparen).value.0);
      }
    } else {
      PassesSelf(toks, i);
      NothingToStrip(toks, i);
    }
  }

  lemma NothingToStrip(toks: seq<Token>, i: nat)
    requires i <= |toks|
    ensures Strip(toks, i, i, true) == []
  {
  }

  /** An argument, a comma, and the arguments after it; a comma that no argument
      follows is not kept. */
  lemma AfterComma(toks: seq<Token>, i: nat, j: nat, rparen: nat, e: Expr, rest: seq<Expr>)
    requires i <= j < rparen < |toks| && toks[j] == Oper(Comma) && toks[rparen] == RParen && !ModeAt(toks, i, j, true)
    requires TwinFrom(toks, j + 1, 0, LParen, RParen) == Found(rparen)
    requires |Yield(e)| == |Strip(toks, i, j, true)| && |YieldAll(rest)| == |Strip(toks, j + 1, rparen, true)|
    requires rest == [] <==> j + 1 == rparen
    ensures |YieldAll([e] + rest)| == |Strip(toks, i, rparen, true)|
    ensures YieldAll([e] + rest) == Strip(toks, i, rparen, true) <==>
            Yield(e) == Strip(toks, i, j, true) && YieldAll(rest) == Strip(toks, j + 1, rparen, true)
  {
    hide Strip, ModeAt, Yield;
    StripSplit(toks, i, j, rparen, true);
    StripSplit(toks, j, j + 1, rparen, false);
    StripOne(toks, j, false);
    assert ([e] + rest)[1..] == rest;
    var comma := CommaIf(1 < |[e] + rest|);
    assert Keep(toks, j, false) == comma;
    SameParts(Yield(e), Strip(toks, i, j, true), comma, YieldAll(rest), Strip(toks, j + 1, rparen, true));
  }

  lemma SameParts(a: seq<Token>, a': seq<Token>, c: seq<Token>, b: seq<Token>, b': seq<Token>)
    requires |a| == |a'|
    ensures a + (c + b) == a' + (c + b') <==> a == a' && b == b'
  {
    var x, y := a + (c + b), a' + (c + b');
    if x == y {
      assert x[..|a|] == a && y[..|a|] == a';
      assert x[|a|..][|c|..] == b && y[|a|..][|c|..] == b';
    }
  }

  /** A run without a diagnostic that ends after an operand. */
  lemma {:induction false} RunReads(toks: seq<Token>, start: nat, s: State, ends: set<EndType>, inOrder: bool)
    requires Reads(toks, start, s, inOrder) && RunIs(Matched, toks, s, ends)
    requires Run(toks, s, ends).Done? && Run(toks, s, ends).value.diags == 0 && !Run(toks, s, ends).value.mode
    ensures Reads(toks, start, Run(toks, s, ends).value, inOrder && RunIs(InOrder, toks, s, ends))
    decreases |toks| - s.i, 3
  {
    hide Reads, TurnIs, Step, Ends;
    if !Ends(toks[s.i], ends) {
      var t := Step(toks, s).value;
      NextGoesOn(toks, t, ends);
      StepReads(toks, start, s, inOrder);
      RunReads(toks, start, t, ends, inOrder && TurnIs(InOrder, toks, s));
    }
  }

  lemma NextGoesOn(toks: seq<Token>, t: State, ends: set<EndType>)
    requires RunIs(Matched, toks, t, ends) && Run(toks, t, ends).Done? && !Run(toks, t, ends).value.mode
    ensures GoesOn(toks, t)
  {
    hide Step;
  }

  /** A parse without a diagnostic over matched brackets loses no token and finds its
      brackets matched by depth counting too; and its tree reads as the input, from
      left to right, if and only if every operator was pushed in order. */
  lemma {:induction false} ParseFaithful(toks: seq<Token>, i: nat, ends: set<EndType>)
    requires Parse(toks, i, ends).Done? && Parse(toks, i, ends).value.2 == 0 && ParseIs(Matched, toks, i, ends)
    ensures var (e, j, _) := Parse(toks, i, ends).value;
            && i <= j < |toks| && Ends(toks[j], ends) && Passes(toks, i, j) && !ModeAt(toks, i, j, true)
            && |Yield(e)| == |Strip(toks, i, j, true)|
            && (Yield(e) == Strip(toks, i, j, true) <==> ParseIs(InOrder, toks, i, ends))
    decreases |toks| - i, 4
  {
    hide Passes, Run, RunIs, PopWhile, Strip, ModeAt, Yield, Settled, Line, Stacked, Weight;
    var s0 := State(i, [], [], true, 0);
    StartReads(toks, i, ends);
    CleanParse(toks, i, ends);
    RunReads(toks, i, s0, ends, true);
    var s := Run(toks, s0, ends).value;
    SettledShort(s);
    PopKeeps(s, FlushAll);
    Flushed(s);
    OneTree(PopWhile(s, FlushAll));
    if !RunIs(InOrder, toks, s0, ends) {
      var read := Strip(toks, i, s.i, true);
      StaysWrong(Settled(s), read, Line(s.out, s.ops, false), read);
    }
  }

  lemma StartReads(toks: seq<Token>, i: nat, ends: set<EndType>)
    requires Run(toks, State(i, [], [], true, 0), ends).Done?
    ensures Reads(toks, i, State(i, [], [], true, 0), true)
  {
    PassesSelf(toks, i);
    NothingToStrip(toks, i);
  }

  lemma OneTree(t: State)
    requires |t.out| == 1 && t.ops == []
    ensures Line(t.out, t.ops, false) == Yield(t.out[0])
  {
    hide Yield;
    assert Body(Drop(t.out), [], true) == [] && Right([]) == [];
    BodyOperand(t.out, []);
  }
}
