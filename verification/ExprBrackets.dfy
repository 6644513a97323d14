/** What a caller can see of the input before parsing it: that its brackets pair
    up.  Then no token is read twice or lost. */
module ExprBrackets {
  import opened ExprOps
  import opened ExprParser
  import opened ExprRuns
  import opened ExprLine
  import opened ExprYield

  /** The brackets from i to j pair up and close those that are open. */
  predicate Paired(toks: seq<Token>, i: nat, j: nat, open: seq<Token>)
    requires j <= |toks|
    decreases j - i
  {
    if i >= j then open == [] else
      match toks[i]
      case LParen => Paired(toks, i + 1, j, open + [RParen])
      case LSquare => Paired(toks, i + 1, j, open + [RSquare])
      case RParen => |open| > 0 && Last(open) == RParen && Paired(toks, i + 1, j, Drop(open))
      case RSquare => |open| > 0 && Last(open) == RSquare && Paired(toks, i + 1, j, Drop(open))
      case End => false
      case _ => Paired(toks, i + 1, j, open)
  }

  /** Where the innermost of the open brackets closes, with more open inside it. */
  lemma {:induction false} ClosesAt(toks: seq<Token>, i: nat, j: nat, open: seq<Token>, inner: seq<Token>) returns (m: nat)
    requires j <= |toks| && |open| > 0 && Paired(toks, i, j, open + inner)
    ensures i <= m < j && Paired(toks, i, m, inner) && toks[m] == Last(open) && Paired(toks, m + 1, j, Drop(open))
    decreases j - i
  {
    var all := open + inner;
    match toks[i] {
      case LParen =>
        assert all + [RParen] == open + (inner + [RParen]);
        m := ClosesAt(toks, i + 1, j, open, inner + [RParen]);
      case LSquare =>
        assert all + [RSquare] == open + (inner + [RSquare]);
        m := ClosesAt(toks, i + 1, j, open, inner + [RSquare]);
      case RParen => m := ClosesOr(toks, i, j, open, inner);
      case RSquare => m := ClosesOr(toks, i, j, open, inner);
      case Operand(_) => m := ClosesAt(toks, i + 1, j, open, inner);
      case Oper(_) => m := ClosesAt(toks, i + 1, j, open, inner);
      case Other(_) => m := ClosesAt(toks, i + 1, j, open, inner);
    }
  }

  lemma {:induction false} ClosesOr(toks: seq<Token>, i: nat, j: nat, open: seq<Token>, inner: seq<Token>) returns (m: nat)
    requires i < j <= |toks| && |open| > 0 && Last(open + inner) == toks[i] && (toks[i] == RParen || toks[i] == RSquare)
    requires Paired(toks, i + 1, j, Drop(open + inner))
    ensures i <= m < j && Paired(toks, i, m, inner) && toks[m] == Last(open) && Paired(toks, m + 1, j, Drop(open))
    decreases j - i, 0
  {
    if inner == [] {
      assert open + inner == open;
      m := i;
    } else {
      assert Drop(open + inner) == open + Drop(inner);
      m := ClosesAt(toks, i + 1, j, open, Drop(inner));
    }
  }

  function Count(open: seq<Token>, r: Token): nat
  {
    if |open| == 0 then 0 else Count(Drop(open), r) + if Last(open) == r then 1 else 0
  }

  /** Depth counting passes over brackets that pair up. */
  lemma {:induction false} PairedDepth(toks: seq<Token>, i: nat, j: nat, open: seq<Token>, depth: nat, l: Token, r: Token)
    requires i <= j <= |toks| && Paired(toks, i, j, open) && IsBracketPair(l, r)
    ensures TwinFrom(toks, i, depth + Count(open, r), l, r) == TwinFrom(toks, j, depth, l, r)
    decreases j - i
  {
    if i < j {
      var open' := match toks[i]
                   case LParen => open + [RParen]
                   case LSquare => open + [RSquare]
                   case RParen => Drop(open)
                   case RSquare => Drop(open)
                   case _ => open;
      PairedDepth(toks, i + 1, j, open', depth, l, r);
      if toks[i] == LParen || toks[i] == LSquare { assert Drop(open') == open; }
    }
  }

  lemma PairedPasses(toks: seq<Token>, i: nat, j: nat)
    requires i <= j <= |toks| && Paired(toks, i, j, [])
    ensures Passes(toks, i, j)
  {
    forall depth: nat, l: Token, r: Token | IsBracketPair(l, r)
      ensures TwinFrom(toks, i, depth, l, r) == TwinFrom(toks, j, depth, l, r)
    {
      PairedDepth(toks, i, j, [], depth, l, r);
    }
  }

  /** A closing bracket cannot come first. */
  lemma ClosesNothing(toks: seq<Token>, i: nat, j: nat)
    requires i <= j < |toks| && Paired(toks, i, j, []) && (toks[i] == RParen || toks[i] == RSquare)
    ensures i == j
  {
  }

  lemma {:induction false} TurnMatched(toks: seq<Token>, s: State, m: nat)
    requires s.i < m < |toks| && Paired(toks, s.i, m, []) && Step(toks, s).Done?
    ensures TurnIs(Matched, toks, s) && Step(toks, s).value.i <= m && Paired(toks, Step(toks, s).value.i, m, [])
    decreases |toks| - s.i, 2
  {
    hide PushOp, TwinFrom, Parse, Arguments, ParseIs, ArgsAre, ToExprOp, Orderly;
    match toks[s.i] {
      case LParen => if s.mode { SubExprMatched(toks, s, m); } else { CallMatched(toks, s, m); }
      case LSquare => SubscriptMatched(toks, s, m);
      case _ =>
    }
  }

  /** The bracket at i and the one that closes it. */
  lemma Closing(toks: seq<Token>, i: nat, m: nat) returns (at: nat)
    requires i < m <= |toks| && Paired(toks, i, m, []) && (toks[i] == LParen || toks[i] == LSquare)
    ensures i < at < m && Paired(toks, i + 1, at, []) && Paired(toks, at + 1, m, [])
    ensures toks[at] == if toks[i] == LParen then RParen else RSquare
  {
    hide Paired;
    var r := if toks[i] == LParen then RParen else RSquare;
    Opened(toks, i, m, r);
    assert [r] + [] == [r] && Drop([r]) == [];
    at := ClosesAt(toks, i + 1, m, [r], []);
  }

  lemma Opened(toks: seq<Token>, i: nat, m: nat, r: Token)
    requires i < m <= |toks| && Paired(toks, i, m, []) && IsBracketPair(toks[i], r)
    ensures Paired(toks, i + 1, m, [r])
  {
    assert [] + [r] == [r];
  }

  lemma {:induction false} SubExprMatched(toks: seq<Token>, s: State, m: nat)
    requires s.i < m < |toks| && Paired(toks, s.i, m, []) && toks[s.i] == LParen && SubExpr(toks, s).Done?
    ensures ParseIs(Matched, toks, s.i + 1, {EndRParen})
    ensures SubExpr(toks, s).value.i <= m && Paired(toks, SubExpr(toks, s).value.i, m, [])
    decreases |toks| - s.i, 1
  {
    hide TwinFrom, Parse, ParseIs, Paired;
    var at := Closing(toks, s.i, m);
    ParseMatched(toks, s.i + 1, {EndRParen}, at);
    ClosesNothing(toks, Parse(toks, s.i + 1, {EndRParen}).value.1, at);
  }

  lemma {:induction false} CallMatched(toks: seq<Token>, s: State, m: nat)
    requires s.i < m < |toks| && Paired(toks, s.i, m, []) && toks[s.i] == LParen && !s.mode && CallStep(toks, s).Done?
    ensures TurnIs(Matched, toks, s)
    ensures CallStep(toks, s).value.i <= m && Paired(toks, CallStep(toks, s).value.i, m, [])
    decreases |toks| - s.i, 1
  {
    hide PushOp, TwinFrom, Arguments, ArgsAre, Paired;
    var at := Closing(toks, s.i, m);
    FoundAt(toks, s.i + 1, at, LParen, RParen);
    ArgsMatched(toks, s.i + 1, at);
  }

  lemma {:induction false} SubscriptMatched(toks: seq<Token>, s: State, m: nat)
    requires s.i < m < |toks| && Paired(toks, s.i, m, []) && toks[s.i] == LSquare && SubscriptStep(toks, s).Done?
    ensures ParseIs(Matched, toks, s.i + 1, {EndRSquare})
    ensures SubscriptStep(toks, s).value.i <= m && Paired(toks, SubscriptStep(toks, s).value.i, m, [])
    decreases |toks| - s.i, 1
  {
    hide PushOp, TwinFrom, Parse, ParseIs, Paired;
    var at := Closing(toks, s.i, m);
    FoundAt(toks, s.i + 1, at, LSquare, RSquare);
    ParseMatched(toks, s.i + 1, {EndRSquare}, at);
  }

  lemma FoundAt(toks: seq<Token>, i: nat, at: nat, l: Token, r: Token)
    requires i <= at < |toks| && Paired(toks, i, at, []) && IsBracketPair(l, r) && toks[at] == r
    ensures TwinFrom(toks, i, 0, l, r) == Found(at)
  {
    PairedPasses(toks, i, at);
  }

  lemma {:induction false} ArgsMatched(toks: seq<Token>, i: nat, rparen: nat)
    requires i <= rparen < |toks| && Paired(toks, i, rparen, []) && toks[rparen] == RParen
    requires Arguments(toks, i, rparen).Done?
    ensures ArgsAre(Matched, toks, i, rparen)
    decreases |toks| - i, 5
  {
    hide Parse, ParseIs;
    if i < rparen {
      ParseMatched(toks, i, {EndComma, EndRParen}, rparen);
      var j := Parse(toks, i, {EndComma, EndRParen}).value.1;
      if j < rparen { ArgsMatched(toks, j + 1, rparen); }
    }
  }

  lemma {:induction false} RunMatched(toks: seq<Token>, s: State, ends: set<EndType>, m: nat)
    requires s.i <= m < |toks| && Paired(toks, s.i, m, []) && Ends(toks[m], ends) && Run(toks, s, ends).Done?
    ensures RunIs(Matched, toks, s, ends)
    ensures Run(toks, s, ends).value.i <= m && Paired(toks, Run(toks, s, ends).value.i, m, [])
    decreases |toks| - s.i, 3
  {
    hide Step, TurnIs, Ends, Paired;
    if !Ends(toks[s.i], ends) {
      TurnMatched(toks, s, m);
      RunMatched(toks, Step(toks, s).value, ends, m);
    }
  }

  /** Up to a token that can end it, a parse over brackets that pair up meets none
      that closes nothing. */
  lemma {:induction false} ParseMatched(toks: seq<Token>, i: nat, ends: set<EndType>, m: nat)
    requires i <= m < |toks| && Paired(toks, i, m, []) && Ends(toks[m], ends) && Parse(toks, i, ends).Done?
    ensures ParseIs(Matched, toks, i, ends)
    ensures Parse(toks, i, ends).value.1 <= m && Paired(toks, Parse(toks, i, ends).value.1, m, [])
    decreases |toks| - i, 4
  {
    hide Run, RunIs, Ends, Paired, PopWhile;
    RunMatched(toks, State(i, [], [], true, 0), ends, m);
  }

  /** Parsing conserves tokens: when the brackets pair up to some token that ends the
      expression, and there is no diagnostic, no token is lost, and the tree reads as
      the input if and only if every operator was pushed in order. */
  lemma ParseConserves(toks: seq<Token>, i: nat, ends: set<EndType>, m: nat)
    requires i <= m < |toks| && Paired(toks, i, m, []) && Ends(toks[m], ends)
    requires Parse(toks, i, ends).Done? && Parse(toks, i, ends).value.2 == 0
    ensures var (e, j, _) := Parse(toks, i, ends).value;
            && i <= j <= m && |Yield(e)| == |Strip(toks, i, j, true)|
            && (Yield(e) == Strip(toks, i, j, true) <==> ParseIs(InOrder, toks, i, ends))
  {
    hide Parse, ParseIs, Strip, Yield, Paired, Ends;
    ParseMatched(toks, i, ends, m);
    ParseFaithful(toks, i, ends);
  }

  // ------------------------------------------------------- a stray parenthesis

  /** f(a[b)] + c); where the semicolon ends the expression. */
  function Stray(f: nat, a: nat, b: nat, c: nat): seq<Token>
  {
    [Operand(f), LParen, Operand(a), LSquare, Operand(b), RParen, RSquare, Oper(Add), Operand(c), RParen, Other(0)]
  }

  /** The parenthesis inside the square brackets is skipped there but taken for the
      end of the call, so that what follows it is read twice. */
  lemma StrayParenthesis(f: nat, a: nat, b: nat, c: nat)
    ensures var arg := Node(Binary(Add), [Node(Subscript, [Leaf(a), Leaf(b)]), Leaf(c)]);
            Parse(Stray(f, a, b, c), 0, {EndOther(0)})
            == Done((Node(Binary(Add), [Node(Call, [Leaf(f), arg]), Leaf(c)]), 10, 0))
  {
    hide *;
    var toks, ends := Stray(f, a, b, c), {EndOther(0)};
    var arg := Node(Binary(Add), [Node(Subscript, [Leaf(a), Leaf(b)]), Leaf(c)]);
    var call := Pending(Call, [arg]);
    StrayTokens(f, a, b, c);
    StrayEnds();
    TakeOperand(toks, State(0, [], [], true, 0), ends, f);
    assert [] + [Leaf(f)] == [Leaf(f)];
    StrayCall(f, a, b, c);
    SkipCloser(toks, State(6, [Leaf(f)], [call], false, 0), ends);
    TakeSum(toks, Leaf(f), call, c, ends);
    assert [Leaf(f)] + [arg] == [Leaf(f), arg];
    var end := State(9, [Node(Call, [Leaf(f), arg])] + [Leaf(c)], [Pending(Binary(Add), [])], false, 0);
    SkipCloser(toks, end, ends);
    LastState(toks, end.(i := 10), ends);
    ParseOf(toks, 0, ends, end.(i := 10));
    FinishSum(end.(i := 10), Node(Call, [Leaf(f), arg]), Leaf(c));
  }

  lemma StrayTokens(f: nat, a: nat, b: nat, c: nat)
    ensures var t := Stray(f, a, b, c);
            && |t| == 11 && t[0] == Operand(f) && t[1] == LParen && t[2] == Operand(a) && t[3] == LSquare
            && t[4] == Operand(b) && t[5] == RParen && t[6] == RSquare && t[7] == Oper(Add) && t[8] == Operand(c)
            && t[9] == RParen && t[10] == Other(0)
  {
  }

  lemma StrayEnds()
    ensures Ends(Other(0), {EndOther(0)}) && !Ends(RSquare, {EndOther(0)}) && !Ends(RParen, {EndOther(0)})
    ensures Ends(RSquare, {EndRSquare}) && !Ends(RParen, {EndRSquare}) && Ends(RParen, {EndComma, EndRParen})
    ensures !Ends(LParen, {EndOther(0)}) && !Ends(LSquare, {EndComma, EndRParen})
  {
  }

  lemma SkipCloser(toks: seq<Token>, s: State, ends: set<EndType>)
    requires s.i < |toks| && (toks[s.i] == RParen || toks[s.i] == RSquare) && !Ends(toks[s.i], ends)
    ensures Run(toks, s, ends) == Run(toks, s.(i := s.i + 1), ends)
  {
  }

  /** + c after something with a suffix. */
  lemma TakeSum(toks: seq<Token>, x: Expr, suffix: Pending, c: nat, ends: set<EndType>)
    requires |toks| > 8 && toks[7] == Oper(Add) && toks[8] == Operand(c) && (suffix.op == Call || suffix.op == Subscript)
    ensures Run(toks, State(7, [x], [suffix], false, 0), ends)
         == Run(toks, State(9, [Node(suffix.op, [x] + suffix.args)] + [Leaf(c)], [Pending(Binary(Add), [])], false, 0), ends)
  {
    hide *;
    var sum, applied := Pending(Binary(Add), []), [Node(suffix.op, [x] + suffix.args)];
    SuffixOverSum(suffix, x);
    PopsOne(State(7, [x], [suffix], false, 0), suffix, sum);
    TakeOperator(toks, State(7, [x], [suffix], false, 0), ends, Add, Binary(Add), State(7, applied, [sum], false, 0));
    TakeOperand(toks, State(8, applied, [sum], true, 0), ends, c);
  }

  lemma SuffixOverSum(suffix: Pending, x: Expr)
    requires suffix.op == Call || suffix.op == Subscript
    ensures Pops(Prec(suffix.op), Prec(Binary(Add))) && ToExprOp(Add, false) == (Binary(Add), false)
    ensures Apply(suffix, [x]) == ([Node(suffix.op, [x] + suffix.args)], 0)
  {
    assert [x][..0] == [] && [] + [Node(suffix.op, [x] + suffix.args)] == [Node(suffix.op, [x] + suffix.args)];
  }

  lemma FinishSum(s: State, x: Expr, y: Expr)
    requires s.out == [x] + [y] && s.ops == [Pending(Binary(Add), [])]
    ensures Finish(s) == Done((Node(Binary(Add), [x, y]), s.i, s.diags))
  {
    var sum := [Node(Binary(Add), [x, y])];
    var t := State(s.i, sum, [], s.mode, s.diags);
    assert s.ops[..0] == [] && s.out[..0] == [] && [] + sum == sum;
    assert PopWhile(s, FlushAll) == PopWhile(t, FlushAll) == t;
  }

  lemma FinishOne(s: State, x: Expr)
    requires s.out == [x] && s.ops == []
    ensures Finish(s) == Done((x, s.i, s.diags))
  {
  }

  /** The call, whose argument goes on beyond the parenthesis it ends at. */
  lemma StrayCall(f: nat, a: nat, b: nat, c: nat)
    ensures var toks, ends := Stray(f, a, b, c), {EndOther(0)};
            var arg := Node(Binary(Add), [Node(Subscript, [Leaf(a), Leaf(b)]), Leaf(c)]);
            Run(toks, State(1, [Leaf(f)], [], false, 0), ends)
            == Run(toks, State(6, [Leaf(f)], [Pending(Call, [arg])], false, 0), ends)
  {
    hide *;
    var toks, ends := Stray(f, a, b, c), {EndOther(0)};
    var arg := Node(Binary(Add), [Node(Subscript, [Leaf(a), Leaf(b)]), Leaf(c)]);
    StrayTokens(f, a, b, c);
    StrayEnds();
    StrayTwins(f, a, b, c);
    StrayArg(f, a, b, c);
    OneArg(toks, arg);
    PushesOn(State(1, [Leaf(f)], [], false, 0), Pending(Call, [arg]));
    assert [] + [Pending(Call, [arg])] == [Pending(Call, [arg])];
    CallTakes(toks, State(1, [Leaf(f)], [], false, 0), ends, [arg]);
  }

  lemma StrayTwins(f: nat, a: nat, b: nat, c: nat)
    ensures TwinFrom(Stray(f, a, b, c), 2, 0, LParen, RParen) == Found(5)
    ensures TwinFrom(Stray(f, a, b, c), 4, 0, LSquare, RSquare) == Found(6)
  {
    var toks := Stray(f, a, b, c);
    assert TwinFrom(toks, 5, 0, LParen, RParen) == Found(5);
    assert TwinFrom(toks, 4, 0, LParen, RParen) == Found(5);
    assert TwinFrom(toks, 6, 0, LSquare, RSquare) == Found(6);
    assert TwinFrom(toks, 5, 0, LSquare, RSquare) == Found(6);
  }

  lemma OneArg(toks: seq<Token>, arg: Expr)
    requires |toks| > 5 && Parse(toks, 2, {EndComma, EndRParen}) == Done((arg, 9, 0))
    ensures Arguments(toks, 2, 5) == Done(([arg], 0))
  {
    hide Parse;
    assert Arguments(toks, 10, 5) == Done(([], 0));
    assert [arg] + [] == [arg];
  }

  lemma CallTakes(toks: seq<Token>, s: State, ends: set<EndType>, args: seq<Expr>)
    requires s.i == 1 < |toks| && toks[1] == LParen && !s.mode && !Ends(LParen, ends) && |toks| > 5
    requires TwinFrom(toks, 2, 0, LParen, RParen) == Found(5) && Arguments(toks, 2, 5) == Done((args, 0))
    ensures var p := PushOp(s, Pending(Call, args));
            Run(toks, s, ends) == Run(toks, State(6, p.out, p.ops, false, p.diags), ends)
  {
    hide Arguments, TwinFrom, PushOp;
    assert s.(diags := s.diags + 0) == s;
    var p := PushOp(s, Pending(Call, args));
    assert CallStep(toks, s) == Done(State(6, p.out, p.ops, false, p.diags));
    assert Step(toks, s) == CallStep(toks, s);
  }

  lemma SubscriptTakes(toks: seq<Token>, s: State, ends: set<EndType>, e: Expr)
    requires s.i == 3 && |toks| > 6 && toks[3] == LSquare && !s.mode && !Ends(LSquare, ends)
    requires TwinFrom(toks, 4, 0, LSquare, RSquare) == Found(6) && Parse(toks, 4, {EndRSquare}) == Done((e, 6, 0))
    ensures var p := PushOp(s, Pending(Subscript, [e]));
            Run(toks, s, ends) == Run(toks, State(7, p.out, p.ops, false, p.diags), ends)
  {
    hide Parse, TwinFrom, PushOp;
    assert s.(diags := s.diags + 0 + 0) == s;
    var p := PushOp(s, Pending(Subscript, [e]));
    assert SubscriptStep(toks, s) == Done(State(7, p.out, p.ops, false, p.diags));
    assert Step(toks, s) == SubscriptStep(toks, s);
  }

  lemma StrayArg(f: nat, a: nat, b: nat, c: nat)
    ensures var arg := Node(Binary(Add), [Node(Subscript, [Leaf(a), Leaf(b)]), Leaf(c)]);
            Parse(Stray(f, a, b, c), 2, {EndComma, EndRParen}) == Done((arg, 9, 0))
  {
    hide *;
    var toks, ends := Stray(f, a, b, c), {EndComma, EndRParen};
    var subscript := Pending(Subscript, [Leaf(b)]);
    StrayTokens(f, a, b, c);
    StrayEnds();
    StrayTwins(f, a, b, c);
    StrayIndex(f, a, b, c);
    TakeOperand(toks, State(2, [], [], true, 0), ends, a);
    assert [] + [Leaf(a)] == [Leaf(a)];
    PushesOn(State(3, [Leaf(a)], [], false, 0), subscript);
    assert [] + [subscript] == [subscript];
    SubscriptTakes(toks, State(3, [Leaf(a)], [], false, 0), ends, Leaf(b));
    TakeSum(toks, Leaf(a), subscript, c, ends);
    assert [Leaf(a)] + [Leaf(b)] == [Leaf(a), Leaf(b)];
    var end := State(9, [Node(Subscript, [Leaf(a), Leaf(b)])] + [Leaf(c)], [Pending(Binary(Add), [])], false, 0);
    LastState(toks, end, ends);
    ParseOf(toks, 2, ends, end);
    FinishSum(end, Node(Subscript, [Leaf(a), Leaf(b)]), Leaf(c));
  }

  lemma StrayIndex(f: nat, a: nat, b: nat, c: nat)
    ensures Parse(Stray(f, a, b, c), 4, {EndRSquare}) == Done((Leaf(b), 6, 0))
  {
    hide *;
    var toks, ends := Stray(f, a, b, c), {EndRSquare};
    StrayTokens(f, a, b, c);
    StrayEnds();
    TakeOperand(toks, State(4, [], [], true, 0), ends, b);
    assert [] + [Leaf(b)] == [Leaf(b)];
    SkipCloser(toks, State(5, [Leaf(b)], [], false, 0), ends);
    LastState(toks, State(6, [Leaf(b)], [], false, 0), ends);
    ParseOf(toks, 4, ends, State(6, [Leaf(b)], [], false, 0));
    FinishOne(State(6, [Leaf(b)], [], false, 0), Leaf(b));
  }
}
