/** The other way round: what the parser takes without a diagnostic and in order is a
    phrase of the grammar. */
module ExprAccepted {
  import opened ExprOps
  import opened ExprParser
  import opened ExprGrammar
  import opened ExprReading
  import opened ExprRuns
  import opened ExprLine
  import opened ExprYield
  import opened ExprBrackets
  import opened Options

  // ------------------------------------------- phrases that are not complete yet

  /** What waits for an operand on its right: a prefix operator, or a phrase and a
      binary operator. */
  datatype Frame = Pre(tok: TokOp) | Beside(left: Syntax, tok: TokOp)

  function OpOf(f: Frame): ExprOp
  {
    match f case Pre(tok) => Prefix(tok) case Beside(_, tok) => Binary(tok)
  }

  function FrameText(f: Frame): seq<Token>
  {
    match f case Pre(tok) => [Oper(tok)] case Beside(x, tok) => Text(x) + [Oper(tok)]
  }

  function TextOf(fs: seq<Frame>): seq<Token>
  {
    if |fs| == 0 then [] else TextOf(Drop(fs)) + FrameText(Last(fs))
  }

  function OpsOf(fs: seq<Frame>): (r: seq<Pending>)
    ensures |r| == |fs|
  {
    if |fs| == 0 then [] else OpsOf(Drop(fs)) + [Pending(OpOf(Last(fs)), [])]
  }

  function OutOf(fs: seq<Frame>): seq<Expr>
  {
    if |fs| == 0 then [] else
      OutOf(Drop(fs)) + match Last(fs) case Pre(_) => [] case Beside(x, _) => [Tree(x)]
  }

  /** The frame with its operand. */
  function Filled(f: Frame, x: Syntax): Syntax
  {
    match f case Pre(tok) => Prefixed(tok, x) case Beside(l, tok) => Infix(l, tok, x)
  }

  /** The innermost frame does not pop for an operator of precedence p. */
  predicate Stays(fs: seq<Frame>, p: int)
  {
    |fs| > 0 ==> !Pops(Prec(OpOf(Last(fs))), p)
  }

  /** The frames group as the parser pops, and with comma they have no comma operator. */
  predicate Nested(fs: seq<Frame>, comma: bool)
  {
    |fs| > 0 ==>
      && Nested(Drop(fs), comma)
      && Stays(Drop(fs), Prec(OpOf(Last(fs)))) && (comma ==> Last(fs).tok != Comma)
      && match Last(fs)
         case Pre(tok) => CanPrefix(tok)
         case Beside(x, tok) => !IsUnaryTok(tok) && Grouped(x) && Pops(Strength(x), Prec(Binary(tok)))
  }

  /** The phrase x stands in the frames. */
  predicate Fits(fs: seq<Frame>, x: Syntax, comma: bool)
  {
    Nested(fs, comma) && Grouped(x) && Stays(fs, Strength(x)) && (comma ==> 1 <= Strength(x))
  }

  predicate Whole(st: State, fs: seq<Frame>, x: Syntax)
  {
    !st.mode && st.out == OutOf(fs) + [Tree(x)] && st.ops == OpsOf(fs)
  }

  lemma DropOps(fs: seq<Frame>)
    requires |fs| > 0
    ensures OpsOf(fs) == OpsOf(Drop(fs)) + [Pending(OpOf(Last(fs)), [])]
    ensures |OpsOf(fs)| > 0 && Last(OpsOf(fs)) == Pending(OpOf(Last(fs)), []) && Drop(OpsOf(fs)) == OpsOf(Drop(fs))
  {
  }

  lemma FrameApplied(out: seq<Expr>, f: Frame, x: Syntax)
    ensures var before := out + (match f case Pre(_) => [] case Beside(l, _) => [Tree(l)]) + [Tree(x)];
            Apply(Pending(OpOf(f), []), before) == (out + [Tree(Filled(f, x))], 0)
  {
    match f {
      case Pre(tok) =>
        var before := out + [] + [Tree(x)];
        assert before[..|before| - 1] == out && [Tree(x)] + [] == [Tree(x)];
      case Beside(l, tok) =>
        var before := out + [Tree(l)] + [Tree(x)];
        assert before[..|before| - 2] == out;
    }
  }

  lemma FilledText(fs: seq<Frame>, x: Syntax)
    requires |fs| > 0
    ensures TextOf(Drop(fs)) + Text(Filled(Last(fs), x)) == TextOf(fs) + Text(x)
  {
    if Last(fs).Beside? {
      var a, b, c, d := TextOf(Drop(fs)), Text(Last(fs).left), [Oper(Last(fs).tok)], Text(x);
      assert a + (b + c + d) == a + (b + c) + d;
    } else {
      var a, c, d := TextOf(Drop(fs)), [Oper(Last(fs).tok)], Text(x);
      assert a + (c + d) == a + c + d;
    }
  }

  lemma FilledFits(fs: seq<Frame>, x: Syntax, comma: bool)
    requires |fs| > 0 && Fits(fs, x, comma)
    ensures Fits(Drop(fs), Filled(Last(fs), x), comma) && Strength(Filled(Last(fs), x)) == Prec(OpOf(Last(fs)))
  {
    hide Pops;
    if comma { OnlyCommaIsLoosest(OpOf(Last(fs))); }
  }

  lemma OnlyCommaIsLoosest(op: ExprOp)
    ensures op.Binary? || op.Prefix? ==> (Prec(op) < 1 <==> op == Binary(Comma))
  {
  }

  /** Popping one frame fills it. */
  lemma PopFrame(st: State, fs: seq<Frame>, x: Syntax, p: int)
    requires Whole(st, fs, x) && |fs| > 0 && Pops(Prec(OpOf(Last(fs))), p)
    ensures var y := Filled(Last(fs), x);
            var u := State(st.i, OutOf(Drop(fs)) + [Tree(y)], OpsOf(Drop(fs)), false, st.diags);
            PopWhile(st, p) == PopWhile(u, p) && Whole(u, Drop(fs), y)
  {
    hide PopWhile, Prec, Pops, Apply, Tree, Filled, OpsOf;
    DropOps(fs);
    FrameApplied(OutOf(Drop(fs)), Last(fs), x);
    PopTop(st.i, st.out, OpsOf(Drop(fs)), Pending(OpOf(Last(fs)), []), st.diags, p);
  }

  /** Popping fills the frames that do not stay. */
  lemma {:induction false} PopFrames(st: State, fs: seq<Frame>, x: Syntax, p: int, comma: bool)
    returns (fs': seq<Frame>, x': Syntax)
    requires Whole(st, fs, x) && Fits(fs, x, comma) && Pops(Strength(x), p)
    ensures Fits(fs', x', comma) && Stays(fs', p) && Pops(Strength(x'), p)
    ensures TextOf(fs') + Text(x') == TextOf(fs) + Text(x)
    ensures PopWhile(st, p) == State(st.i, OutOf(fs') + [Tree(x')], OpsOf(fs'), false, st.diags)
    decreases |fs|
  {
    hide Prec, Pops, Apply, Tree, Filled, OpsOf, OutOf, TextOf, Nested, Grouped, Text;
    if |fs| > 0 { DropOps(fs); }
    if |fs| > 0 && Pops(Prec(OpOf(Last(fs))), p) {
      var y := Filled(Last(fs), x);
      var u := State(st.i, OutOf(Drop(fs)) + [Tree(y)], OpsOf(Drop(fs)), false, st.diags);
      PopFrame(st, fs, x, p);
      FilledFits(fs, x, comma);
      FilledText(fs, x);
      fs', x' := PopFrames(u, Drop(fs), y, p, comma);
    } else {
      fs', x' := fs, x;
    }
  }

  // ----------------------------------------------------------------- suffixes

  /** What follows an operand: a postfix operator, arguments or an index. */
  datatype Tail = PostOp(tok: TokOp) | ArgList(args: seq<Syntax>) | IndexBy(index: Syntax)

  function Tailed(x: Syntax, tail: Tail): Syntax
  {
    match tail
    case PostOp(tok) => Suffixed(x, tok)
    case ArgList(args) => Called(x, args)
    case IndexBy(i) => Indexed(x, i)
  }

  function ArgTrees(args: seq<Syntax>): seq<Expr>
  {
    if |args| == 0 then [] else [Tree(args[0])] + ArgTrees(args[1..])
  }

  function Commas(args: seq<Syntax>): seq<Token>
  {
    if |args| == 0 then []
    else if |args| == 1 then Text(args[0])
    else Text(args[0]) + [Oper(Comma)] + Commas(args[1..])
  }

  lemma {:induction false} ArgsFrom(s: Syntax, k: nat)
    requires s.Called? && k <= |s.args|
    ensures Trees(s, k) == ArgTrees(s.args[k..]) && ArgsText(s, k) == Commas(s.args[k..])
    decreases |s.args| - k
  {
    if k < |s.args| {
      ArgsFrom(s, k + 1);
      assert s.args[k..][1..] == s.args[k + 1..];
    }
  }

  function TailText(tail: Tail): seq<Token>
  {
    match tail
    case PostOp(tok) => [Oper(tok)]
    case ArgList(args) => [LParen] + Commas(args) + [RParen]
    case IndexBy(i) => [LSquare] + Text(i) + [RSquare]
  }

  function TailOp(tail: Tail): Pending
  {
    match tail
    case PostOp(tok) => Pending(Postfix(tok), [])
    case ArgList(args) => Pending(Call, ArgTrees(args))
    case IndexBy(i) => Pending(Subscript, [Tree(i)])
  }

  /** What can follow an operand. */
  predicate GoodTail(tail: Tail)
  {
    match tail
    case PostOp(tok) => CanPostfix(tok)
    case ArgList(args) => forall k :: 0 <= k < |args| ==> Grouped(args[k]) && 1 <= Strength(args[k])
    case IndexBy(i) => Grouped(i)
  }

  lemma TailedIs(x: Syntax, tail: Tail)
    ensures Tree(Tailed(x, tail)) == Node(TailOp(tail).op, [Tree(x)] + TailOp(tail).args)
    ensures Text(Tailed(x, tail)) == Text(x) + TailText(tail)
    ensures Strength(Tailed(x, tail)) == Prec(TailOp(tail).op) == 14
    ensures GoodTail(tail) ==> IsSuffix(TailOp(tail))
  {
    if tail.ArgList? {
      ArgsFrom(Tailed(x, tail), 0);
      assert tail.args[0..] == tail.args;
    }
    assert [Tree(x)] + [] == [Tree(x)];
  }

  lemma TailedGrouped(x: Syntax, tail: Tail)
    requires Grouped(x) && GoodTail(tail) && Pops(Strength(x), 14)
    ensures Grouped(Tailed(x, tail))
  {
    TailedIs(x, tail);
  }

  // ------------------------------------------------------ what the state shows

  /** The operand read last: an operand by itself, or one whose suffix is pending. */
  datatype Current = Alone(x: Syntax) | Trailing(x: Syntax, tail: Tail)

  function PhraseOf(cur: Current): Syntax
  {
    match cur case Alone(x) => x case Trailing(x, tail) => Tailed(x, tail)
  }

  ghost predicate Held(st: State, fs: seq<Frame>, cur: Current)
  {
    && !st.mode
    && match cur
       case Alone(x) => (x.Name? || x.Parens?) && st.out == OutOf(fs) + [Tree(x)] && st.ops == OpsOf(fs)
       case Trailing(x, tail) =>
         GoodTail(tail) && st.out == OutOf(fs) + [Tree(x)] && st.ops == OpsOf(fs) + [TailOp(tail)]
  }

  /** Frames, and after an operand that operand, that show the tokens read from
      start. */
  ghost predicate Shows(toks: seq<Token>, start: nat, st: State, fs: seq<Frame>, cur: Option<Current>, comma: bool)
  {
    && start <= st.i <= |toks| && st.diags == 0
    && match cur
       case None =>
         st.mode && st.out == OutOf(fs) && st.ops == OpsOf(fs) && Nested(fs, comma) && TextOf(fs) == toks[start..st.i]
       case Some(c) =>
         Held(st, fs, c) && Fits(fs, PhraseOf(c), comma) && TextOf(fs) + Text(PhraseOf(c)) == toks[start..st.i]
  }

  /** A pending suffix is applied before anything else is popped. */
  lemma SuffixPops(st: State, fs: seq<Frame>, cur: Current, p: int)
    requires Held(st, fs, cur) && Pops(Strength(PhraseOf(cur)), p)
    ensures PopWhile(st, p) == PopWhile(State(st.i, OutOf(fs) + [Tree(PhraseOf(cur))], OpsOf(fs), false, st.diags), p)
  {
    hide PopWhile, Prec, Pops, Tree, OpsOf, OutOf, TailOp, Tailed;
    match cur {
      case Alone(x) =>
      case Trailing(x, tail) =>
        TailedIs(x, tail);
        assert st.out[..|st.out| - 1] == OutOf(fs);
        PopTop(st.i, st.out, OpsOf(fs), TailOp(tail), st.diags, p);
        SuffixApplied(OutOf(fs), TailOp(tail), Tree(x));
    }
  }

  lemma SuffixApplied(out: seq<Expr>, op: Pending, x: Expr)
    requires !op.op.Binary?
    ensures Apply(op, out + [x]) == (out + [Node(op.op, [x] + op.args)], 0)
  {
    assert (out + [x])[..|out|] == out;
  }

  /** An operator in order pops the suffix. */
  lemma OrderPops(st: State, fs: seq<Frame>, cur: Current, op: ExprOp)
    requires Held(st, fs, cur) && Orderly(st, op)
    ensures Pops(Strength(PhraseOf(cur)), Prec(op))
  {
    hide Prec, OpsOf, OutOf, TailOp, Tailed, Tree;
    PrecAtMost(op);
    match cur {
      case Alone(x) =>
      case Trailing(x, tail) =>
        TailedIs(x, tail);
        assert Last(st.ops) == TailOp(tail);
        assert !Pops(14, Prec(op)) ==> PopWhile(st, Prec(op)) == st;
    }
  }

  lemma PrecAtMost(op: ExprOp)
    ensures 0 <= Prec(op) <= 15
  {
  }

  // -------------------------------------------------------------------- turns

  /** From one token to a later one. */
  lemma ReadOn(toks: seq<Token>, start: nat, i: nat, j: nat, shown: seq<Token>, more: seq<Token>)
    requires start <= i <= j <= |toks| && shown == toks[start..i] && more == toks[i..j]
    ensures shown + more == toks[start..j]
  {
  }

  /** An operand. */
  lemma ShowOperand(toks: seq<Token>, start: nat, st: State, fs: seq<Frame>, comma: bool, x: Syntax, j: nat)
    requires Shows(toks, start, st, fs, None, comma) && (x.Name? || x.Parens?) && Grouped(x)
    requires st.i <= j <= |toks| && Text(x) == toks[st.i..j]
    ensures Shows(toks, start, State(j, st.out + [Tree(x)], st.ops, false, 0), fs, Some(Alone(x)), comma)
  {
    hide Nested, Grouped, Text, Tree, OutOf, OpsOf, TextOf, Prec;
    ReadOn(toks, start, st.i, j, TextOf(fs), Text(x));
    if |fs| > 0 { PrecAtMost(OpOf(Last(fs))); }
  }

  lemma OrderlyPrefix(st: State, t: TokOp)
    requires st.mode && Orderly(st, Prefix(t))
    ensures PopWhile(st, Prec(Prefix(t))) == st
  {
  }

  /** A prefix operator that pops nothing. */
  lemma ShowPrefix(toks: seq<Token>, start: nat, st: State, fs: seq<Frame>, comma: bool, tok: TokOp)
    requires Shows(toks, start, st, fs, None, comma) && CanPrefix(tok) && tok != Comma && Orderly(st, Prefix(tok))
    requires st.i < |toks| && toks[st.i] == Oper(tok)
    ensures Shows(toks, start, State(st.i + 1, st.out, st.ops + [Pending(Prefix(tok), [])], true, 0),
                  fs + [Pre(tok)], None, comma)
  {
    hide Grouped, Text, Tree, Prec, Pops, CanPrefix, PopWhile, OpsOf, OutOf, TextOf, Orderly;
    OrderlyPrefix(st, tok);
    var f := Pre(tok);
    PushFrame(fs, f);
    ReadOn(toks, start, st.i, st.i + 1, TextOf(fs), [Oper(tok)]);
    if |fs| > 0 {
      DropOps(fs);
      NotPopped(st, Prec(Prefix(tok)));
    }
  }

  lemma PushFrame(fs: seq<Frame>, f: Frame)
    ensures Drop(fs + [f]) == fs && Last(fs + [f]) == f
    ensures OpsOf(fs + [f]) == OpsOf(fs) + [Pending(OpOf(f), [])] && TextOf(fs + [f]) == TextOf(fs) + FrameText(f)
    ensures OutOf(fs + [f]) == OutOf(fs) + match f case Pre(_) => [] case Beside(x, _) => [Tree(x)]
  {
    hide Tree, Text;
    assert Drop(fs + [f]) == fs;
  }

  lemma NotPopped(st: State, p: int)
    requires PopWhile(st, p) == st && |st.ops| > 0
    ensures !Pops(Prec(Last(st.ops).op), p)
  {
    var top := Last(st.ops);
    var (out, d) := Apply(top, st.out);
    assert |PopWhile(State(st.i, out, Drop(st.ops), st.mode, st.diags + d), p).ops| < |st.ops|;
  }

  /** After an operand: what an operator in order pops. */
  lemma ShowPopped(toks: seq<Token>, start: nat, st: State, fs: seq<Frame>, cur: Current, comma: bool, op: ExprOp)
    returns (fs': seq<Frame>, x: Syntax)
    requires Shows(toks, start, st, fs, Some(cur), comma) && Orderly(st, op)
    ensures Fits(fs', x, comma) && Stays(fs', Prec(op)) && Pops(Strength(x), Prec(op))
    ensures TextOf(fs') + Text(x) == toks[start..st.i]
    ensures PopWhile(st, Prec(op)) == State(st.i, OutOf(fs') + [Tree(x)], OpsOf(fs'), false, 0)
  {
    hide Nested, Grouped, Text, Tree, OutOf, OpsOf, TextOf, Prec, Pops, PopWhile, Fits, Held, Orderly;
    OrderPops(st, fs, cur, op);
    SuffixPops(st, fs, cur, Prec(op));
    var y := PhraseOf(cur);
    fs', x := PopFrames(State(st.i, OutOf(fs) + [Tree(y)], OpsOf(fs), false, st.diags), fs, y, Prec(op), comma);
  }

  /** A binary operator. */
  lemma ShowBinary(toks: seq<Token>, start: nat, st: State, fs: seq<Frame>, cur: Current, comma: bool, tok: TokOp)
    returns (fs': seq<Frame>)
    requires Shows(toks, start, st, fs, Some(cur), comma) && !IsUnaryTok(tok) && Orderly(st, Binary(tok))
    requires st.i < |toks| && toks[st.i] == Oper(tok) && (comma ==> tok != Comma)
    ensures var p := PopWhile(st, Prec(Binary(tok)));
            Shows(toks, start, State(st.i + 1, p.out, p.ops + [Pending(Binary(tok), [])], true, 0), fs', None, comma)
  {
    hide Grouped, Text, Tree, OutOf, OpsOf, TextOf, Prec, Pops, PopWhile, Orderly, IsUnaryTok;
    var left, x := ShowPopped(toks, start, st, fs, cur, comma, Binary(tok));
    var f := Beside(x, tok);
    fs' := left + [f];
    PushFrame(left, f);
    assert TextOf(left) + (Text(x) + [Oper(tok)]) == TextOf(left) + Text(x) + [Oper(tok)];
    ReadOn(toks, start, st.i, st.i + 1, TextOf(left) + Text(x), [Oper(tok)]);
  }

  /** A suffix. */
  lemma ShowTail(toks: seq<Token>, start: nat, st: State, fs: seq<Frame>, cur: Current, comma: bool, tail: Tail, j: nat)
    returns (fs': seq<Frame>, cur': Current)
    requires Shows(toks, start, st, fs, Some(cur), comma) && GoodTail(tail) && Orderly(st, TailOp(tail).op)
    requires st.i <= j <= |toks| && toks[st.i..j] == TailText(tail)
    ensures var p := PopWhile(st, Prec(TailOp(tail).op));
            Shows(toks, start, State(j, p.out, p.ops + [TailOp(tail)], false, 0), fs', Some(cur'), comma)
  {
    hide Nested, Grouped, Text, Tree, OutOf, OpsOf, TextOf, Prec, Pops, PopWhile, Orderly, GoodTail, TailOp, TailText, Tailed, Strength;
    var x;
    fs', x := ShowPopped(toks, start, st, fs, cur, comma, TailOp(tail).op);
    cur' := Trailing(x, tail);
    TailedIs(x, tail);
    TailedGrouped(x, tail);
    assert TextOf(fs') + (Text(x) + TailText(tail)) == TextOf(fs') + Text(x) + TailText(tail);
    ReadOn(toks, start, st.i, j, TextOf(fs') + Text(x), TailText(tail));
  }

  // ----------------------------------------------------------------- whole runs

  /** From i to j there are only tokens of expressions, and no comma right before a
      closing parenthesis. */
  predicate Clean(toks: seq<Token>, i: nat, j: nat)
    requires j <= |toks|
  {
    forall k :: i <= k < j ==>
      !toks[k].Other? && !(toks[k] == Oper(Comma) && k + 1 < |toks| && toks[k + 1] == RParen)
  }

  /** One turn. */
  lemma {:induction false} AcceptStep(toks: seq<Token>, start: nat, st: State, fs: seq<Frame>, cur: Option<Current>, comma: bool, limit: nat)
    returns (fs': seq<Frame>, cur': Option<Current>)
    requires st.i < |toks| && Shows(toks, start, st, fs, cur, comma) && (comma ==> toks[st.i] != Oper(Comma))
    requires TurnIs(Matched, toks, st) && TurnIs(InOrder, toks, st)
    requires Step(toks, st).Done? && Step(toks, st).value.diags == 0
    requires Step(toks, st).value.i <= limit <= |toks| && Clean(toks, st.i, limit)
    ensures Shows(toks, start, Step(toks, st).value, fs', cur', comma)
    decreases |toks| - st.i, 2
  {
    hide Nested, Fits, Held, Grouped, Text, Tree, OutOf, OpsOf, TextOf, Prec, Pops, PopWhile, Orderly, Parse, ParseIs, TwinFrom;
    assert cur.None? <==> st.mode by { CurrentIs(toks, start, st, fs, cur, comma); }
    match toks[st.i] {
      case Operand(id) =>
        LeafIs(toks, st.i, id);
        ShowOperand(toks, start, st, fs, comma, Name(id), st.i + 1);
        fs', cur' := fs, Some(Alone(Name(id)));
      case Oper(t) => fs', cur' := AcceptOper(toks, start, st, fs, cur, comma, t);
      case LParen =>
        if st.mode {
          var x := AcceptSubExpr(toks, start, st, limit);
          ShowOperand(toks, start, st, fs, comma, x, SubExpr(toks, st).value.i);
          fs', cur' := fs, Some(Alone(x));
        } else {
          var f, c := AcceptCall(toks, start, st, fs, cur.value, comma, limit);
          fs', cur' := f, Some(c);
        }
      case LSquare =>
        var f, c := AcceptSubscript(toks, start, st, fs, cur.value, comma, limit);
        fs', cur' := f, Some(c);
      case _ =>
    }
  }

  lemma CurrentIs(toks: seq<Token>, start: nat, st: State, fs: seq<Frame>, cur: Option<Current>, comma: bool)
    requires Shows(toks, start, st, fs, cur, comma)
    ensures (cur.None? <==> st.mode) && start <= st.i <= |toks| && st.diags == 0
  {
  }

  lemma LeafIs(toks: seq<Token>, i: nat, id: nat)
    requires i < |toks| && toks[i] == Operand(id)
    ensures Text(Name(id)) == toks[i..i + 1] && Tree(Name(id)) == Leaf(id) && Grouped(Name(id))
  {
  }

  lemma AcceptOper(toks: seq<Token>, start: nat, st: State, fs: seq<Frame>, cur: Option<Current>, comma: bool, t: TokOp)
    returns (fs': seq<Frame>, cur': Option<Current>)
    requires st.i < |toks| && toks[st.i] == Oper(t) && Shows(toks, start, st, fs, cur, comma) && (comma ==> t != Comma)
    requires (cur.None? <==> st.mode) && Orderly(st, ToExprOp(t, st.mode).0) && Step(toks, st).value.diags == 0
    ensures Shows(toks, start, Step(toks, st).value, fs', cur', comma)
  {
    hide Shows, Orderly, Prec, PopWhile, IsUnaryTok, CanPrefix, CanPostfix;
    CurrentIs(toks, start, st, fs, cur, comma);
    assert st.(diags := st.diags + 0) == st;
    InPlaceOnly(toks, st, t);
    if st.mode {
      assert PopWhile(st, Prec(Prefix(t))) == st by { OrderlyPrefix(st, t); }
      NoPrefixComma(t);
      ShowPrefix(toks, start, st, fs, comma, t);
      fs', cur' := fs + [Pre(t)], None;
    } else if CanPostfix(t) {
      assert toks[st.i..st.i + 1] == TailText(PostOp(t));
      var f, c := ShowTail(toks, start, st, fs, cur.value, comma, PostOp(t), st.i + 1);
      fs', cur' := f, Some(c);
      PoppedDiags(toks, start, st, fs, cur.value, comma, Postfix(t));
    } else {
      fs' := ShowBinary(toks, start, st, fs, cur.value, comma, t);
      cur' := None;
      PoppedDiags(toks, start, st, fs, cur.value, comma, Binary(t));
    }
  }

  lemma InPlaceOnly(toks: seq<Token>, st: State, t: TokOp)
    requires st.i < |toks| && toks[st.i] == Oper(t) && Step(toks, st).value.diags == 0
    ensures ToExprOp(t, st.mode) == (if st.mode then Prefix(t) else if CanPostfix(t) then Postfix(t) else Binary(t), false)
    ensures st.mode ==> CanPrefix(t)
    ensures !st.mode && !CanPostfix(t) ==> !IsUnaryTok(t)
  {
    hide PopWhile, Prec;
  }

  lemma NoPrefixComma(t: TokOp)
    requires CanPrefix(t)
    ensures t != Comma
  {
  }

  lemma PoppedDiags(toks: seq<Token>, start: nat, st: State, fs: seq<Frame>, cur: Current, comma: bool, op: ExprOp)
    requires Shows(toks, start, st, fs, Some(cur), comma) && Orderly(st, op)
    ensures PopWhile(st, Prec(op)).diags == 0
  {
    hide Shows, Orderly, Prec, PopWhile;
    var f, x := ShowPopped(toks, start, st, fs, cur, comma, op);
  }

  lemma CleanPart(toks: seq<Token>, i: nat, j: nat, i': nat, j': nat)
    requires j <= |toks| && Clean(toks, i, j) && i <= i' && j' <= j
    ensures Clean(toks, i', j')
  {
  }

  /** A phrase in parentheses. */
  lemma {:induction false} AcceptSubExpr(toks: seq<Token>, start: nat, st: State, limit: nat) returns (x: Syntax)
    requires st.i < |toks| && toks[st.i] == LParen && st.mode && st.diags == 0
    requires ParseIs(Matched, toks, st.i + 1, {EndRParen}) && ParseIs(InOrder, toks, st.i + 1, {EndRParen})
    requires SubExpr(toks, st).Done? && SubExpr(toks, st).value.diags == 0
    requires SubExpr(toks, st).value.i <= limit <= |toks| && Clean(toks, st.i, limit)
    ensures var s' := SubExpr(toks, st).value;
            && x.Parens? && Grouped(x) && st.i <= s'.i && Text(x) == toks[st.i..s'.i]
            && s' == State(s'.i, st.out + [Tree(x)], st.ops, false, 0)
    decreases |toks| - st.i, 1
  {
    hide Parse, ParseIs, TwinFrom, Grouped, Clean;
    var (e, j, d) := Parse(toks, st.i + 1, {EndRParen}).value;
    CleanPart(toks, st.i, limit, st.i + 1, limit);
    var s := AcceptParse(toks, st.i + 1, {EndRParen}, limit);
    x := Parens(s);
    ParensGrouped(s);
    InBrackets(toks, st.i, j, LParen, Text(s), RParen);
  }

  lemma ParensGrouped(s: Syntax)
    requires Is(s, Expression)
    ensures Grouped(Parens(s))
  {
    hide Is;
    TablesAreGrammar(s, Expression);
  }

  lemma InBrackets(toks: seq<Token>, i: nat, j: nat, l: Token, ts: seq<Token>, r: Token)
    requires i < j < |toks| && toks[i] == l && toks[j] == r && ts == toks[i + 1..j]
    ensures [l] + ts + [r] == toks[i..j + 1]
  {
  }

  /** The index of a subscript. */
  lemma {:induction false} AcceptIndex(toks: seq<Token>, i: nat, limit: nat) returns (s: Syntax, j: nat)
    requires i < |toks| && toks[i] == LSquare
    requires ParseIs(Matched, toks, i + 1, {EndRSquare}) && ParseIs(InOrder, toks, i + 1, {EndRSquare})
    requires Parse(toks, i + 1, {EndRSquare}).Done? && Parse(toks, i + 1, {EndRSquare}).value.2 == 0
    requires Parse(toks, i + 1, {EndRSquare}).value.1 < limit <= |toks| && Clean(toks, i, limit)
    ensures i < j < |toks| && TwinFrom(toks, i + 1, 0, LSquare, RSquare) == Found(j)
    ensures Parse(toks, i + 1, {EndRSquare}) == Parsed(Tree(s), j)
    ensures GoodTail(IndexBy(s)) && toks[i..j + 1] == TailText(IndexBy(s))
    decreases |toks| - i, 0
  {
    hide Parse, ParseIs, TwinFrom, Grouped, Clean, Passes, Is, Text, Tree;
    ParseFaithful(toks, i + 1, {EndRSquare});
    j := Parse(toks, i + 1, {EndRSquare}).value.1;
    PassesBracket(toks, i, j, LSquare, RSquare);
    CleanPart(toks, i, limit, i + 1, limit);
    s := AcceptParse(toks, i + 1, {EndRSquare}, limit);
    InBrackets(toks, i, j, LSquare, Text(s), RSquare);
    TablesAreGrammar(s, Expression);
  }

  /** Where the twin of an index is, once the turn is over without a diagnostic. */
  lemma SubscriptTurn(toks: seq<Token>, st: State, e: Expr, j: nat)
    requires st.i < |toks| && toks[st.i] == LSquare && !st.mode && st.diags == 0
    requires TwinFrom(toks, st.i + 1, 0, LSquare, RSquare) == Found(j) && Parse(toks, st.i + 1, {EndRSquare}) == Parsed(e, j)
    ensures var p := PopWhile(st, Prec(Subscript));
            SubscriptStep(toks, st) == Done(State(j + 1, p.out, p.ops + [Pending(Subscript, [e])], false, p.diags))
  {
    hide Parse, TwinFrom, PopWhile, Prec;
    assert st.(diags := st.diags + 0 + 0) == st;
  }

  /** A subscript. */
  lemma {:induction false} AcceptSubscript(toks: seq<Token>, start: nat, st: State, fs: seq<Frame>, cur: Current, comma: bool, limit: nat)
    returns (fs': seq<Frame>, cur': Current)
    requires st.i < |toks| && toks[st.i] == LSquare && Shows(toks, start, st, fs, Some(cur), comma)
    requires ParseIs(Matched, toks, st.i + 1, {EndRSquare}) && ParseIs(InOrder, toks, st.i + 1, {EndRSquare})
    requires Orderly(st, Subscript) && SubscriptStep(toks, st).Done? && SubscriptStep(toks, st).value.diags == 0
    requires SubscriptStep(toks, st).value.i <= limit <= |toks| && Clean(toks, st.i, limit)
    ensures Shows(toks, start, SubscriptStep(toks, st).value, fs', Some(cur'), comma)
    decreases |toks| - st.i, 1
  {
    hide Parse, ParseIs, TwinFrom, Clean, Shows, Orderly, PopWhile, Prec, Tree, GoodTail, TailText;
    CurrentIs(toks, start, st, fs, Some(cur), comma);
    PoppedDiags(toks, start, st, fs, cur, comma, Subscript);
    IndexEnds(toks, st, limit);
    var s, j := AcceptIndex(toks, st.i, limit);
    SubscriptTurn(toks, st, Tree(s), j);
    fs', cur' := ShowTail(toks, start, st, fs, cur, comma, IndexBy(s), j + 1);
  }

  lemma IndexEnds(toks: seq<Token>, st: State, limit: nat)
    requires st.i < |toks| && toks[st.i] == LSquare && !st.mode && st.diags == 0
    requires ParseIs(Matched, toks, st.i + 1, {EndRSquare})
    requires SubscriptStep(toks, st).Done? && SubscriptStep(toks, st).value.diags == 0
    requires SubscriptStep(toks, st).value.i <= limit <= |toks|
    ensures var idx := Parse(toks, st.i + 1, {EndRSquare}); idx.Done? && idx.value.2 == 0 && idx.value.1 < limit
  {
    hide Parse, ParseIs, TwinFrom, PushOp, Passes, Strip, Yield, ModeAt, SubscriptStep;
    IndexParsed(toks, st);
    ParseFaithful(toks, st.i + 1, {EndRSquare});
    PassesBracket(toks, st.i, Parse(toks, st.i + 1, {EndRSquare}).value.1, LSquare, RSquare);
  }

  lemma IndexParsed(toks: seq<Token>, st: State)
    requires st.i < |toks| && toks[st.i] == LSquare && !st.mode && st.diags == 0
    requires SubscriptStep(toks, st).Done? && SubscriptStep(toks, st).value.diags == 0
    ensures var idx, twin := Parse(toks, st.i + 1, {EndRSquare}), TwinFrom(toks, st.i + 1, 0, LSquare, RSquare);
            idx.Done? && idx.value.2 == 0 && (twin.Found? ==> SubscriptStep(toks, st).value.i == twin.at + 1)
  {
    hide Parse, TwinFrom, PushOp;
  }

  /** A call. */
  lemma {:induction false} AcceptCall(toks: seq<Token>, start: nat, st: State, fs: seq<Frame>, cur: Current, comma: bool, limit: nat)
    returns (fs': seq<Frame>, cur': Current)
    requires st.i < |toks| && toks[st.i] == LParen && Shows(toks, start, st, fs, Some(cur), comma) && !st.mode
    requires TurnIs(Matched, toks, st) && TurnIs(InOrder, toks, st)
    requires CallStep(toks, st).Done? && CallStep(toks, st).value.diags == 0
    requires CallStep(toks, st).value.i <= limit <= |toks| && Clean(toks, st.i, limit)
    ensures Shows(toks, start, CallStep(toks, st).value, fs', Some(cur'), comma)
    decreases |toks| - st.i, 1
  {
    hide Arguments, ArgsAre, TwinFrom, Grouped, Clean, Shows, Orderly, PopWhile, Prec, Passes, Commas, Strength;
    CurrentIs(toks, start, st, fs, Some(cur), comma);
    PoppedDiags(toks, start, st, fs, cur, comma, Call);
    var rparen := TwinFrom(toks, st.i + 1, 0, LParen, RParen).at;
    CleanPart(toks, st.i, limit, st.i + 1, rparen);
    assert st.(diags := st.diags + 0) == st;
    var args := AcceptArgs(toks, st.i + 1, rparen);
    InBrackets(toks, st.i, rparen, LParen, Commas(args), RParen);
    fs', cur' := ShowTail(toks, start, st, fs, cur, comma, ArgList(args), rparen + 1);
  }

  lemma {:induction false} AcceptArgs(toks: seq<Token>, i: nat, rparen: nat) returns (args: seq<Syntax>)
    requires rparen < |toks| && TwinFrom(toks, i, 0, LParen, RParen) == Found(rparen)
    requires ArgsAre(Matched, toks, i, rparen) && ArgsAre(InOrder, toks, i, rparen) && Clean(toks, i, rparen)
    requires Arguments(toks, i, rparen).Done? && Arguments(toks, i, rparen).value.1 == 0
    ensures forall k :: 0 <= k < |args| ==> Grouped(args[k]) && 1 <= Strength(args[k])
    ensures i <= rparen && toks[rparen] == RParen && Commas(args) == toks[i..rparen]
    ensures Arguments(toks, i, rparen).value.0 == ArgTrees(args)
    ensures args == [] <==> i == rparen
    decreases |toks| - i, 5
  {
    hide Passes, TwinFrom, Parse, ParseIs, Is, Grouped, Strength, Text, Tree, Clean, Strip, ModeAt, Yield;
    if i < rparen {
      var ends := {EndComma, EndRParen};
      ParseFaithful(toks, i, ends);
      var (e, j, _) := Parse(toks, i, ends).value;
      TwinAfter(toks, i, j, rparen);
      CleanPart(toks, i, rparen, i, j);
      var s := AcceptParse(toks, i, ends, j);
      TablesAreGrammar(s, Assignment);
      if j == rparen {
        args := [s];
        assert [Tree(s)] + [] == [Tree(s)];
      } else {
        NoTrailingComma(toks, i, j, rparen);
        CleanPart(toks, i, rparen, j + 1, rparen);
        var rest := AcceptArgs(toks, j + 1, rparen);
        args := [s] + rest;
        OneMoreArg(toks, i, j, rparen, s, rest);
      }
    } else {
      ArgsFaithful(toks, i, rparen);
      args := [];
    }
  }

  lemma OneMoreArg(toks: seq<Token>, i: nat, j: nat, rparen: nat, s: Syntax, rest: seq<Syntax>)
    requires i <= j < rparen < |toks| && toks[j] == Oper(Comma) && rest != []
    requires Text(s) == toks[i..j] && Commas(rest) == toks[j + 1..rparen]
    ensures Commas([s] + rest) == toks[i..rparen] && ArgTrees([s] + rest) == [Tree(s)] + ArgTrees(rest)
  {
    hide Text, Tree;
    assert ([s] + rest)[1..] == rest;
    assert toks[i..j] + [Oper(Comma)] + toks[j + 1..rparen] == toks[i..rparen];
  }

  lemma NoTrailingComma(toks: seq<Token>, i: nat, j: nat, rparen: nat)
    requires i <= j < rparen < |toks| && Clean(toks, i, rparen) && toks[j] == Oper(Comma) && toks[rparen] == RParen
    ensures j + 1 < rparen
  {
  }

  lemma {:induction false} AcceptRun(toks: seq<Token>, start: nat, st: State, fs: seq<Frame>, cur: Option<Current>, ends: set<EndType>, limit: nat)
    returns (fs': seq<Frame>, cur': Option<Current>)
    requires Shows(toks, start, st, fs, cur, EndComma in ends)
    requires RunIs(Matched, toks, st, ends) && RunIs(InOrder, toks, st, ends)
    requires Run(toks, st, ends).Done? && Run(toks, st, ends).value.diags == 0
    requires Run(toks, st, ends).value.i <= limit <= |toks| && Clean(toks, st.i, limit)
    ensures Shows(toks, start, Run(toks, st, ends).value, fs', cur', EndComma in ends)
    decreases |toks| - st.i, 3
  {
    hide Shows, TurnIs, Step, Clean;
    fs', cur' := fs, cur;
    if !Ends(toks[st.i], ends) {
      fs', cur' := AcceptStep(toks, start, st, fs, cur, EndComma in ends, limit);
      var t := Step(toks, st).value;
      CleanPart(toks, st.i, limit, t.i, limit);
      fs', cur' := AcceptRun(toks, start, t, fs', cur', ends, limit);
    }
  }

  /** What a parse takes without a diagnostic, over matched brackets and with every
      operator pushed in order, is a phrase of the grammar, and the result is its
      tree; a comma before a parenthesis and tokens of no expression aside. */
  lemma {:induction false} AcceptParse(toks: seq<Token>, i: nat, ends: set<EndType>, limit: nat) returns (s: Syntax)
    requires Parse(toks, i, ends).Done? && Parse(toks, i, ends).value.2 == 0
    requires ParseIs(Matched, toks, i, ends) && ParseIs(InOrder, toks, i, ends)
    requires Parse(toks, i, ends).value.1 <= limit <= |toks| && Clean(toks, i, limit)
    ensures var (e, j, _) := Parse(toks, i, ends).value;
            Is(s, if EndComma in ends then Assignment else Expression) && Text(s) == toks[i..j] && Tree(s) == e
    decreases |toks| - i, 4
  {
    hide Run, RunIs, PopWhile, Shows, Clean, Is, Text, Tree;
    var s0 := State(i, [], [], true, 0);
    ShowsNothing(toks, i, EndComma in ends);
    RunDiags(toks, i, ends);
    var fs, cur := AcceptRun(toks, i, s0, [], None, ends, limit);
    s := FlushedPhrase(toks, i, Run(toks, s0, ends).value, fs, cur, EndComma in ends);
    TablesAreGrammar(s, if EndComma in ends then Assignment else Expression);
  }

  lemma ShowsNothing(toks: seq<Token>, i: nat, comma: bool)
    requires i <= |toks|
    ensures Shows(toks, i, State(i, [], [], true, 0), [], None, comma)
  {
  }

  /** A parse without a diagnostic had none in its run, and that ended after an
      operand. */
  lemma RunDiags(toks: seq<Token>, i: nat, ends: set<EndType>)
    requires Parse(toks, i, ends).Done? && Parse(toks, i, ends).value.2 == 0
    ensures var run := Run(toks, State(i, [], [], true, 0), ends);
            run.Done? && run.value.diags == 0 && !run.value.mode && run.value.i == Parse(toks, i, ends).value.1
  {
    hide Run, PopWhile;
    CleanParse(toks, i, ends);
  }

  /** At the end everything is filled. */
  lemma FlushedPhrase(toks: seq<Token>, start: nat, st: State, fs: seq<Frame>, cur: Option<Current>, comma: bool) returns (s: Syntax)
    requires Shows(toks, start, st, fs, cur, comma) && !st.mode
    ensures Grouped(s) && (comma ==> 1 <= Strength(s)) && 0 <= Strength(s) && Text(s) == toks[start..st.i]
    ensures PopWhile(st, FlushAll).out == [Tree(s)]
  {
    hide Nested, Grouped, Text, Tree, OpsOf, Prec, PopWhile;
    var x := PhraseOf(cur.value);
    StrengthOf(x);
    SuffixPops(st, fs, cur.value, FlushAll);
    var fs';
    fs', s := PopFrames(State(st.i, OutOf(fs) + [Tree(x)], OpsOf(fs), false, st.diags), fs, x, FlushAll, comma);
    NoneStays(fs');
    StrengthOf(s);
    assert [] + Text(s) == Text(s) && [] + [Tree(s)] == [Tree(s)];
  }

  lemma NoneStays(fs: seq<Frame>)
    requires Stays(fs, FlushAll)
    ensures fs == []
  {
  }

  lemma StrengthOf(x: Syntax)
    ensures 0 <= Strength(x) <= 16
  {
  }
}
