// Where the printed expression has spaces: around each operator that has an operand before it, and nowhere else.
module PrintedText {
  import opened Basics
  import opened GoExpressions

  predicate EndsOperand(t: Token) {
    t.Operand? || t.RParen?
  }

  // The tokens with a space on either side of those that stand behind an operand.
  function Spread(ts: seq<Token>, behindOperand: bool): seq<Piece> {
    if ts == [] then [] else Around(ts[0], behindOperand) + Spread(ts[1..], EndsOperand(ts[0]))
  }

  function Around(t: Token, behindOperand: bool): seq<Piece> {
    if t.Op? && behindOperand then [Space, Tok(t), Space] else [Tok(t)]
  }

  function Behind(ts: seq<Token>, behindOperand: bool): bool {
    if ts == [] then behindOperand else EndsOperand(ts[|ts| - 1])
  }

  lemma {:induction false} SpreadConcat(a: seq<Token>, b: seq<Token>, behind: bool)
    ensures Spread(a + b, behind) == Spread(a, behind) + Spread(b, Behind(a, behind))
    decreases |a|
  {
    if a == [] {
      assert a + b == b;
    } else {
      assert (a + b)[1..] == a[1..] + b && (a + b)[0] == a[0];
      SpreadConcat(a[1..], b, EndsOperand(a[0]));
      BehindRest(a, behind);
      Regroup(Around(a[0], behind), Spread(a[1..], EndsOperand(a[0])), Spread(b, Behind(a, behind)));
    }
  }

  lemma BehindRest(a: seq<Token>, behind: bool)
    requires a != []
    ensures Behind(a[1..], EndsOperand(a[0])) == Behind(a, behind)
  {
    if |a| > 1 {
      assert a[1..][|a| - 2] == a[|a| - 1];
    }
  }

  // Spaced like that, and ending in an operand.
  predicate Laid(ps: seq<Piece>, ts: seq<Token>) {
    ps == Spread(ts, false) && ts != [] && EndsOperand(ts[|ts| - 1])
  }

  lemma LaidEnclosed(ps: seq<Piece>, ts: seq<Token>)
    requires Laid(ps, ts)
    ensures Laid(Enclosed(ps, true), [LParen] + ts + [RParen])
  {
    SpreadConcat([LParen], ts, false);
    SpreadConcat([LParen] + ts, [RParen], false);
    SpreadOne(LParen, false);
    SpreadOne(RParen, true);
  }

  lemma SpreadOne(t: Token, behind: bool)
    ensures Spread([t], behind) == Around(t, behind)
  {
    assert [t][1..] == [];
  }

  lemma LaidPrefix(op: Operator, ps: seq<Piece>, ts: seq<Token>)
    requires Laid(ps, ts)
    ensures Laid([Tok(Op(op))] + ps, [Op(op)] + ts)
  {
    SpreadConcat([Op(op)], ts, false);
    SpreadOne(Op(op), false);
  }

  lemma LaidInfix(left: seq<Piece>, op: Operator, right: seq<Piece>, ls: seq<Token>, rs: seq<Token>)
    requires Laid(left, ls) && Laid(right, rs)
    ensures Laid(Infix(left, op, right), ls + [Op(op)] + rs)
  {
    SpreadConcat(ls, [Op(op)], false);
    SpreadConcat(ls + [Op(op)], rs, false);
    SpreadOne(Op(op), true);
  }

  predicate LaidOut(ps: seq<Piece>) {
    Laid(ps, Tokens(ps))
  }

  lemma EnclosedIsLaidOut(ps: seq<Piece>, parenthesize: bool)
    requires LaidOut(ps)
    ensures LaidOut(Enclosed(ps, parenthesize))
  {
    if parenthesize {
      TokensEnclosed(ps);
      LaidEnclosed(ps, Tokens(ps));
    }
  }

  lemma PrefixedIsLaidOut(op: Operator, ps: seq<Piece>)
    requires LaidOut(ps)
    ensures LaidOut([Tok(Op(op))] + ps)
  {
    TokensConcat([Tok(Op(op))], ps);
    assert [Tok(Op(op))][1..] == [] && Tokens([Tok(Op(op))]) == [Op(op)];
    LaidPrefix(op, ps, Tokens(ps));
  }

  lemma InfixIsLaidOut(left: seq<Piece>, op: Operator, right: seq<Piece>)
    requires LaidOut(left) && LaidOut(right)
    ensures LaidOut(Infix(left, op, right))
  {
    TokensInfix(left, op, right);
    LaidInfix(left, op, right, Tokens(left), Tokens(right));
  }

  lemma BinaryIsLaidOut(left: seq<Piece>, op: Operator, right: seq<Piece>, complement: bool, parenthesize: bool)
    requires LaidOut(left) && LaidOut(right)
    ensures LaidOut(Enclosed(Infix(left, op, if complement then [Tok(Op(Tilde))] + right else right), parenthesize))
  {
    PrefixedIsLaidOut(Tilde, right);
    var rightText := if complement then [Tok(Op(Tilde))] + right else right;
    InfixIsLaidOut(left, op, rightText);
    EnclosedIsLaidOut(Infix(left, op, rightText), parenthesize);
  }

  lemma {:induction false} PrintIsLaidOut(e: Expression, min: nat)
    ensures LaidOut(Print(e, min))
    decreases e
  {
    match e
    case Atom(text) => SpreadOne(Operand(text), false);
    case Parenthesized(inner) =>
      PrintIsLaidOut(inner, 0);
      EnclosedIsLaidOut(Print(inner, 0), true);
    case Unary(op, operand) =>
      PrintIsLaidOut(operand, UNARY_LEVEL);
      UnaryIsLaidOut(op, operand, min);
    case Binary(source, left, right) =>
      PrintIsLaidOut(left, Precedence(TypeScript, PrintedOperator(source)));
      PrintIsLaidOut(right, RightMin(source));
      BinaryPrinted(source, left, right, min);
  }

  function RightMin(source: Operator): nat {
    if source.AndNot? then UNARY_LEVEL else Precedence(TypeScript, source) + 1
  }

  lemma UnaryIsLaidOut(op: Operator, operand: Expression, min: nat)
    requires LaidOut(Print(operand, UNARY_LEVEL))
    ensures LaidOut(Print(Unary(op, operand), min))
  {
    PrefixedIsLaidOut(op, Print(operand, UNARY_LEVEL));
    EnclosedIsLaidOut([Tok(Op(op))] + Print(operand, UNARY_LEVEL), UNARY_LEVEL < min);
  }

  lemma BinaryPrinted(source: Operator, left: Expression, right: Expression, min: nat)
    requires LaidOut(Print(left, Precedence(TypeScript, PrintedOperator(source)))) && LaidOut(Print(right, RightMin(source)))
    ensures LaidOut(Print(Binary(source, left, right), min))
  {
    var op := PrintedOperator(source);
    var precedence := Precedence(TypeScript, op);
    PrintedAs(source, left, right, min);
    BinaryIsLaidOut(Print(left, precedence), op, Print(right, RightMin(source)), source.AndNot?, precedence < min);
  }

  lemma PrintedAs(source: Operator, left: Expression, right: Expression, min: nat)
    ensures var op, rightText := PrintedOperator(source), Print(right, RightMin(source));
      Print(Binary(source, left, right), min) ==
        Enclosed(Infix(Print(left, Precedence(TypeScript, op)), op, if source.AndNot? then [Tok(Op(Tilde))] + rightText else rightText),
          Precedence(TypeScript, op) < min)
  {
  }

  // The emitted text is its tokens with those spaces.
  lemma TextIsSpread(ts: seq<Token>)
    requires Translate(ts).Emitted?
    ensures Translate(ts).pieces == Spread(Tokens(Translate(ts).pieces), false)
  {
    PrintIsLaidOut(Parse(Go, ts).tree, 0);
  }
}
