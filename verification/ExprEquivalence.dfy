/** The parser and the grammar accept the same. */
module ExprEquivalence {
  import opened ExprOps
  import opened ExprParser
  import opened ExprGrammar
  import opened ExprReading
  import opened ExprLine
  import opened ExprYield
  import opened ExprBrackets
  import opened ExprAccepted

  // ------------------------------------------- the yield of a phrase's tree

  /** No closing parenthesis comes first. */
  lemma {:induction false} FirstToken(s: Syntax)
    ensures Text(s)[0] != RParen
  {
    match s {
      case Infix(l, _, _) => FirstToken(l);
      case Suffixed(x, _) => FirstToken(x);
      case Called(f, _) => FirstToken(f);
      case Indexed(a, _) => FirstToken(a);
      case _ =>
    }
  }

  /** The tokens of a phrase, but for its parentheses, are the yield of its tree. */
  lemma {:induction false} StripText(toks: seq<Token>, i: nat, s: Syntax)
    requires Grouped(s) && At(toks, i, Text(s))
    ensures Strip(toks, i, i + |Text(s)|, true) == Yield(Tree(s)) && !ModeAt(toks, i, i + |Text(s)|, true)
    decreases s, 2
  {
    hide Strip, ModeAt, At, Yield, Prec, Pops, ArgsText;
    match s {
      case Name(id) =>
        AtOne(toks, i, Operand(id));
        StripOne(toks, i, true);
        YieldLeaf(id);
      case Parens(x) =>
        AtParens(toks, i, LParen, Text(x), RParen);
        StripText(toks, i + 1, x);
        StripBracket(toks, i, i + 1 + |Text(x)|, true);
      case Infix(_, _, _) => StripInfix(toks, i, s);
      case Prefixed(_, _) => StripPrefixed(toks, i, s);
      case Suffixed(_, _) => StripSuffixed(toks, i, s);
      case _ => StripBracketed(toks, i, s);
    }
  }

  lemma {:induction false} StripPrefixed(toks: seq<Token>, i: nat, s: Syntax)
    requires s.Prefixed? && Grouped(s) && At(toks, i, Text(s))
    ensures Strip(toks, i, i + |Text(s)|, true) == Yield(Tree(s)) && !ModeAt(toks, i, i + |Text(s)|, true)
    decreases s, 0
  {
    hide Strip, ModeAt, At, Yield, Prec, Pops;
    var x := s.arg;
    AtBoth(toks, i, [Oper(s.tok)], Text(x));
    AtOne(toks, i, Oper(s.tok));
    StripText(toks, i + 1, x);
    StripSplit(toks, i, i + 1, i + |Text(s)|, true);
    StripOne(toks, i, true);
    PrefixKept(toks, i, s.tok);
    YieldNode(Pending(Prefix(s.tok), []), Tree(x));
    assert [Tree(x)] + [] == [Tree(x)];
  }

  lemma YieldLeaf(id: nat)
    ensures Yield(Leaf(id)) == [Operand(id)]
  {
  }

  lemma PrefixKept(toks: seq<Token>, i: nat, tok: TokOp)
    requires i < |toks| && toks[i] == Oper(tok) && CanPrefix(tok)
    ensures Keep(toks, i, true) == [Oper(tok)] && After(toks[i], true)
  {
  }

  lemma {:induction false} StripInfix(toks: seq<Token>, i: nat, s: Syntax)
    requires s.Infix? && Grouped(s) && At(toks, i, Text(s))
    ensures Strip(toks, i, i + |Text(s)|, true) == Yield(Tree(s)) && !ModeAt(toks, i, i + |Text(s)|, true)
    decreases s, 0
  {
    hide Strip, ModeAt, At, Yield, Tree, Prec, Pops;
    var a, b, k := Text(s.left), Text(s.right), i + |Text(s.left)|;
    AtThree(toks, i, a, Oper(s.tok), b);
    StripText(toks, i, s.left);
    StripText(toks, k + 1, s.right);
    StripSplit(toks, i, k, i + |Text(s)|, true);
    StripSplit(toks, k, k + 1, i + |Text(s)|, false);
    StripOne(toks, k, false);
    InfixNext(toks, k, s);
    InfixKept(toks, k, s.tok);
    InfixYield(s);
  }

  lemma InfixNext(toks: seq<Token>, k: nat, s: Syntax)
    requires s.Infix? && At(toks, k + 1, Text(s.right))
    ensures k + 1 < |toks| && toks[k + 1] != RParen
  {
    FirstToken(s.right);
    NextIs(toks, k + 1, Text(s.right));
  }

  lemma InfixYield(s: Syntax)
    requires s.Infix?
    ensures Yield(Tree(s)) == Yield(Tree(s.left)) + ([Oper(s.tok)] + Yield(Tree(s.right)))
  {
    hide Yield;
    YieldNode(Pending(Binary(s.tok), [Tree(s.right)]), Tree(s.left));
    YieldOne(Tree(s.right));
    assert [Tree(s.left)] + [Tree(s.right)] == [Tree(s.left), Tree(s.right)];
  }

  lemma NextIs(toks: seq<Token>, i: nat, ts: seq<Token>)
    requires At(toks, i, ts) && |ts| > 0
    ensures i < |toks| && toks[i] == ts[0]
  {
    assert toks[i] == toks[i..i + |ts|][0];
  }

  lemma InfixKept(toks: seq<Token>, k: nat, tok: TokOp)
    requires k + 1 < |toks| && toks[k] == Oper(tok) && !IsUnaryTok(tok) && toks[k + 1] != RParen
    ensures Keep(toks, k, false) == [Oper(tok)] && After(toks[k], false)
  {
  }

  lemma {:induction false} StripSuffixed(toks: seq<Token>, i: nat, s: Syntax)
    requires s.Suffixed? && Grouped(s) && At(toks, i, Text(s))
    ensures Strip(toks, i, i + |Text(s)|, true) == Yield(Tree(s)) && !ModeAt(toks, i, i + |Text(s)|, true)
    decreases s, 0
  {
    hide Strip, ModeAt, At, Yield, YieldAll, Prec, Pops;
    var x, k := s.arg, i + |Text(s.arg)|;
    AtBoth(toks, i, Text(x), [Oper(s.tok)]);
    AtOne(toks, k, Oper(s.tok));
    StripText(toks, i, x);
    StripSplit(toks, i, k, k + 1, true);
    StripOne(toks, k, false);
    PostfixKept(toks, k, s.tok);
    YieldNode(Pending(Postfix(s.tok), []), Tree(x));
    NothingYielded();
    assert [Tree(x)] + [] == [Tree(x)];
  }

  /** The arguments or the index of a phrase, and the operator they are brought by. */
  function Brought(s: Syntax): (r: Pending)
    requires s.Called? || s.Indexed?
    ensures Tree(s) == Node(r.op, [Tree(Pieces(s).0)] + r.args) && !r.op.Prefix? && OpToken(r.op) == Pieces(s).1
  {
    match s
    case Called(f, _) => Pending(Call, Trees(s, 0))
    case Indexed(a, i) =>
      assert [Tree(a)] + [Tree(i)] == [Tree(a), Tree(i)];
      Pending(Subscript, [Tree(i)])
  }

  lemma {:induction false} StripBracketed(toks: seq<Token>, i: nat, s: Syntax)
    requires (s.Called? || s.Indexed?) && Grouped(s) && At(toks, i, Text(s))
    ensures Strip(toks, i, i + |Text(s)|, true) == Yield(Tree(s)) && !ModeAt(toks, i, i + |Text(s)|, true)
    decreases s, 1, 0
  {
    hide Strip, ModeAt, At, Yield, YieldAll, Prec, Pops, Text, Tree, Pieces;
    var (first, open, ts, close) := Pieces(s);
    var k := i + |Text(first)|;
    AtBoth(toks, i, Text(first), [open] + ts + [close]);
    AtParens(toks, k, open, ts, close);
    FirstGrouped(s);
    StripText(toks, i, first);
    StripInside(toks, k + 1, s);
    YieldNode(Brought(s), Tree(first));
    BracketKept(toks, k, open);
    StripBracket(toks, k, k + 1 + |ts|, false);
    StripSplit(toks, i, k, i + |Text(s)|, true);
  }

  lemma FirstGrouped(s: Syntax)
    requires (s.Called? || s.Indexed?) && Grouped(s)
    ensures Grouped(Pieces(s).0)
  {
  }

  lemma BracketKept(toks: seq<Token>, k: nat, open: Token)
    requires k < |toks| && toks[k] == open && (open == LParen || open == LSquare)
    ensures Keep(toks, k, false) == [open]
  {
  }

  lemma {:induction false} StripInside(toks: seq<Token>, i: nat, s: Syntax)
    requires (s.Called? || s.Indexed?) && Grouped(s) && At(toks, i, Pieces(s).2)
    ensures Strip(toks, i, i + |Pieces(s).2|, true) == YieldAll(Brought(s).args)
    decreases s, 0, |if s.Called? then s.args else []| + 1
  {
    hide Strip, ModeAt, At, Yield, YieldAll, Prec, Pops, Text, ArgsText;
    if s.Called? {
      StripArgs(toks, i, s, 0, i + |ArgsText(s, 0)|);
    } else {
      StripText(toks, i, s.index);
      YieldOne(Tree(s.index));
    }
  }

  lemma NothingYielded()
    ensures YieldAll([]) == []
  {
  }

  lemma PostfixKept(toks: seq<Token>, k: nat, tok: TokOp)
    requires k < |toks| && toks[k] == Oper(tok) && CanPostfix(tok)
    ensures Keep(toks, k, false) == [Oper(tok)] && !After(toks[k], false)
  {
  }

  lemma {:induction false} StripArgs(toks: seq<Token>, i: nat, s: Syntax, k: nat, end: nat)
    requires s.Called? && Grouped(s) && k <= |s.args| && At(toks, i, ArgsText(s, k)) && end == i + |ArgsText(s, k)|
    ensures end <= |toks| && Strip(toks, i, end, true) == YieldAll(Trees(s, k))
    decreases s, 0, |s.args| - k
  {
    hide Strip, ModeAt, Yield, YieldAll, Prec, Pops, Text, Tree;
    if k == |s.args| {
      NothingToStrip(toks, i);
      NothingYielded();
    } else if k + 1 == |s.args| {
      StripText(toks, i, s.args[k]);
      YieldOne(Tree(s.args[k]));
      assert [Tree(s.args[k])] + [] == [Tree(s.args[k])];
    } else {
      var j := i + |Text(s.args[k])|;
      AtThree(toks, i, Text(s.args[k]), Oper(Comma), ArgsText(s, k + 1));
      StripText(toks, i, s.args[k]);
      StripArgs(toks, j + 1, s, k + 1, end);
      ArgNext(toks, j, s, k + 1);
      StripComma(toks, i, j, end);
      YieldNext(Tree(s.args[k]), Trees(s, k + 1));
    }
  }

  lemma ArgNext(toks: seq<Token>, j: nat, s: Syntax, k: nat)
    requires s.Called? && k < |s.args| && At(toks, j + 1, ArgsText(s, k))
    ensures j + 1 < |toks| && toks[j + 1] != RParen
  {
    hide Text;
    FirstToken(s.args[k]);
    ArgComesNext(s, k);
    NextIs(toks, j + 1, ArgsText(s, k));
  }

  lemma StripComma(toks: seq<Token>, i: nat, j: nat, end: nat)
    requires i <= j < end <= |toks| && j + 1 < |toks| && toks[j] == Oper(Comma) && toks[j + 1] != RParen
    requires !ModeAt(toks, i, j, true)
    ensures Strip(toks, i, end, true) == Strip(toks, i, j, true) + ([Oper(Comma)] + Strip(toks, j + 1, end, true))
  {
    hide Strip, ModeAt;
    StripSplit(toks, i, j, end, true);
    StripSplit(toks, j, j + 1, end, false);
    StripOne(toks, j, false);
    InfixKept(toks, j, Comma);
  }

  lemma YieldNext(e: Expr, rest: seq<Expr>)
    requires |rest| > 0
    ensures YieldAll([e] + rest) == Yield(e) + ([Oper(Comma)] + YieldAll(rest))
  {
    hide Yield;
    assert ([e] + rest)[1..] == rest;
  }

  lemma ArgComesNext(s: Syntax, k: nat)
    requires s.Called? && k < |s.args|
    ensures |ArgsText(s, k)| > 0 && ArgsText(s, k)[0] == Text(s.args[k])[0]
  {
    hide Text;
  }

  // --------------------------------------------------------------- both ways

  /** Over brackets that pair up, and but for tokens of no expression and a comma
      before a closing parenthesis: parsing ends at j with the tree e, without a
      diagnostic and with every operator pushed in order, if and only if the tokens up
      to j are a phrase of the grammar with that tree. */
  lemma AcceptsExactly(toks: seq<Token>, i: nat, ends: set<EndType>, e: Expr, j: nat)
    requires i <= j < |toks| && Ends(toks[j], ends) && Paired(toks, i, j, []) && Clean(toks, i, j)
    ensures Parse(toks, i, ends) == Parsed(e, j) && ParseIs(InOrder, toks, i, ends) <==>
            exists s :: Is(s, if EndComma in ends then Assignment else Expression) && Text(s) == toks[i..j] && Tree(s) == e
  {
    hide Parse, ParseIs, Is, Ends, Text, Tree, Grouped, Paired, Clean, Strip;
    var c := if EndComma in ends then Assignment else Expression;
    if Parse(toks, i, ends) == Parsed(e, j) && ParseIs(InOrder, toks, i, ends) {
      ParseMatched(toks, i, ends, j);
      var s := AcceptParse(toks, i, ends, j);
    }
    forall s | Is(s, c) && Text(s) == toks[i..j] && Tree(s) == e
      ensures Parse(toks, i, ends) == Parsed(e, j) && ParseIs(InOrder, toks, i, ends) {
      TablesAreGrammar(s, c);
      ReadPhrase(toks, i, s, ends);
      StripText(toks, i, s);
      ParseConserves(toks, i, ends, j);
    }
  }
}
