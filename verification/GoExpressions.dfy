// Translating Go constant expressions: parsed by Go's precedences, printed by TypeScript's, read back as the same.
module GoExpressions {
  import opened Basics

  datatype Operator =
    | OrOr | AndAnd | Eq | Ne | Lt | Le | Gt | Ge
    | Plus | Minus | Or | Xor | Mul | Div | Rem | Shl | Shr | And | AndNot
    | Tilde  // TypeScript only: Go spells the unary complement "^"

  datatype Token = Operand(text: string) | Op(operator: Operator) | LParen | RParen

  datatype Dialect = Go | TypeScript

  // Binary precedence; 0 where the dialect has no such binary operator.
  function Precedence(d: Dialect, op: Operator): (p: nat)
    ensures p < UNARY_LEVEL
  {
    match d
    case Go => (
      match op
      case OrOr => 1
      case AndAnd => 2
      case Eq | Ne | Lt | Le | Gt | Ge => 3
      case Plus | Minus | Or | Xor => 4
      case Mul | Div | Rem | Shl | Shr | And | AndNot => 5
      case Tilde => 0)
    case TypeScript => (
      match op
      case OrOr => 4
      case AndAnd => 5
      case Or => 6
      case Xor => 7
      case And => 8
      case Eq | Ne => 9
      case Lt | Le | Gt | Ge => 10
      case Shl | Shr => 11
      case Plus | Minus => 12
      case Mul | Div | Rem => 13
      case AndNot | Tilde => 0)
  }

  const UNARY_LEVEL: nat := 14

  // The tree node's operator for an operator token in prefix position.
  function PrefixOperator(d: Dialect, op: Operator): Option<Operator> {
    if op.Plus? || op.Minus? then Some(op)
    else if op == (if d.Go? then Xor else Tilde) then Some(Tilde)
    else None
  }

  // How a dialect spells a tree node's prefix operator.
  function PrefixSpelling(d: Dialect, op: Operator): Operator {
    if op.Tilde? && d.Go? then Xor else op
  }

  datatype Expression =
    | Atom(text: string)
    | Unary(operator: Operator, operand: Expression)
    | Binary(operator: Operator, left: Expression, right: Expression)
    | Parenthesized(expression: Expression)

  datatype ParseError = ExpectedOperand | UnmatchedParenthesis | UnexpectedToken

  datatype Outcome =
    | Parsed(tree: Expression, rest: seq<Token>)
    | Failed(error: ParseError)

  // ---------------------------------------------------------------- the parser

  function ParseUnary(d: Dialect, ts: seq<Token>): (r: Outcome)
    ensures r.Parsed? ==> |r.rest| < |ts|
    decreases |ts|, 0
  {
    if ts == [] then Failed(ExpectedOperand)
    else match ts[0]
      case Operand(text) => Parsed(Atom(text), ts[1..])
      case RParen => Failed(ExpectedOperand)
      case LParen => (
        match ParseBinary(d, ts[1..], 1)
        case Failed(e) => Failed(e)
        case Parsed(inner, rest) =>
          if rest == [] || rest[0] != RParen then Failed(UnmatchedParenthesis)
          else Parsed(Parenthesized(inner), rest[1..]))
      case Op(op) =>
        match PrefixOperator(d, op)
        case None => Failed(ExpectedOperand)
        case Some(prefix) =>
          match ParseUnary(d, ts[1..])
          case Failed(e) => Failed(e)
          case Parsed(operand, rest) => Parsed(Unary(prefix, operand), rest)
  }

  function ParseBinary(d: Dialect, ts: seq<Token>, min: nat): (r: Outcome)
    requires min > 0
    ensures r.Parsed? ==> |r.rest| < |ts|
    decreases |ts|, 1
  {
    match ParseUnary(d, ts)
    case Failed(e) => Failed(e)
    case Parsed(left, rest) => Climb(d, left, rest, min)
  }

  // The loop of the parser: extends `left` while the next operator binds at least as tightly as `min`.
  function Climb(d: Dialect, left: Expression, ts: seq<Token>, min: nat): (r: Outcome)
    requires min > 0
    ensures r.Parsed? ==> |r.rest| <= |ts|
    decreases |ts|, 2
  {
    var precedence := HeadPrecedence(d, ts);
    if precedence < min then Parsed(left, ts)
    else match ParseBinary(d, ts[1..], precedence + 1)
      case Failed(e) => Failed(e)
      case Parsed(right, rest) => Climb(d, Binary(ts[0].operator, left, right), rest, min)
  }

  function HeadPrecedence(d: Dialect, ts: seq<Token>): (p: nat)
    ensures p > 0 ==> ts != [] && ts[0].Op?
  {
    if ts != [] && ts[0].Op? then Precedence(d, ts[0].operator) else 0
  }

  function Parse(d: Dialect, ts: seq<Token>): Outcome {
    match ParseBinary(d, ts, 1)
    case Failed(e) => Failed(e)
    case Parsed(tree, rest) => if rest == [] then Parsed(tree, rest) else Failed(UnexpectedToken)
  }

  // ---------------------------------------------------------------- the grammar

  function Level(d: Dialect, e: Expression): nat {
    if e.Binary? then Precedence(d, e.operator) else UNARY_LEVEL
  }

  // A tree that needs no further parentheses: each left operand binds at least as tightly
  // as its operator, each right operand and each prefix operand strictly tighter.
  predicate WellNested(d: Dialect, e: Expression) {
    match e
    case Atom(_) => true
    case Parenthesized(inner) => WellNested(d, inner)
    case Unary(op, operand) =>
      (op.Plus? || op.Minus? || op.Tilde?) && !operand.Binary? && WellNested(d, operand)
    case Binary(op, left, right) =>
      0 < Precedence(d, op)
      && WellNested(d, left) && Precedence(d, op) <= Level(d, left)
      && WellNested(d, right) && Precedence(d, op) < Level(d, right)
  }

  function Yield(d: Dialect, e: Expression): (ts: seq<Token>)
    ensures ts != []
  {
    match e
    case Atom(text) => [Operand(text)]
    case Parenthesized(inner) => [LParen] + Yield(d, inner) + [RParen]
    case Unary(op, operand) => [Op(PrefixSpelling(d, op))] + Yield(d, operand)
    case Binary(op, left, right) => Yield(d, left) + [Op(op)] + Yield(d, right)
  }

  // ---------------------------------------------------------------- soundness

  lemma {:induction false} ParseUnarySound(d: Dialect, ts: seq<Token>)
    ensures var r := ParseUnary(d, ts);
      r.Parsed? ==> ts == Yield(d, r.tree) + r.rest && WellNested(d, r.tree) && !r.tree.Binary?
    decreases |ts|, 0
  {
    if ParseUnary(d, ts).Parsed? {
      assert ts == [ts[0]] + ts[1..];
      match ts[0]
      case Operand(_) =>
      case LParen =>
        ParseBinarySound(d, ts[1..], 1);
        var inner := ParseBinary(d, ts[1..], 1);
        var body := Yield(d, inner.tree);
        assert inner.rest == [RParen] + inner.rest[1..];
        Regroup([LParen], body, [RParen] + inner.rest[1..]);
        Regroup([LParen] + body, [RParen], inner.rest[1..]);
      case Op(op) =>
        ParseUnarySound(d, ts[1..]);
        var operand := ParseUnary(d, ts[1..]);
        Regroup([Op(op)], Yield(d, operand.tree), operand.rest);
    }
  }

  lemma {:induction false} ParseBinarySound(d: Dialect, ts: seq<Token>, min: nat)
    requires 0 < min
    ensures var r := ParseBinary(d, ts, min);
      r.Parsed? && min <= UNARY_LEVEL ==>
        ts == Yield(d, r.tree) + r.rest && WellNested(d, r.tree)
        && min <= Level(d, r.tree) && HeadPrecedence(d, r.rest) < min
    decreases |ts|, 1
  {
    var u := ParseUnary(d, ts);
    if u.Parsed? && min <= UNARY_LEVEL {
      ParseUnarySound(d, ts);
      ClimbSound(d, u.tree, u.rest, min);
    }
  }

  lemma {:induction false} ClimbSound(d: Dialect, left: Expression, ts: seq<Token>, min: nat)
    requires 0 < min <= Level(d, left) && WellNested(d, left)
    requires HeadPrecedence(d, ts) <= Level(d, left)
    ensures var r := Climb(d, left, ts, min);
      r.Parsed? ==>
        Yield(d, left) + ts == Yield(d, r.tree) + r.rest && WellNested(d, r.tree)
        && min <= Level(d, r.tree) && HeadPrecedence(d, r.rest) < min
    decreases |ts|, 2
  {
    var precedence := HeadPrecedence(d, ts);
    if min <= precedence {
      var right := ParseBinary(d, ts[1..], precedence + 1);
      if right.Parsed? {
        ParseBinarySound(d, ts[1..], precedence + 1);
        var op := ts[0].operator;
        var joined := Binary(op, left, right.tree);
        Regroup(Yield(d, left), [Op(op)], ts[1..]);
        Regroup(Yield(d, left) + [Op(op)], Yield(d, right.tree), right.rest);
        assert ts == [Op(op)] + ts[1..];
        ClimbSound(d, joined, right.rest, min);
      }
    }
  }

  // ---------------------------------------------------------------- completeness

  lemma {:induction false} ParseUnaryComplete(d: Dialect, e: Expression, rest: seq<Token>)
    requires WellNested(d, e) && !e.Binary?
    ensures ParseUnary(d, Yield(d, e) + rest) == Parsed(e, rest)
    decreases e, 0
  {
    var ts := Yield(d, e) + rest;
    match e
    case Atom(_) =>
      assert ts[1..] == rest;
    case Parenthesized(inner) =>
      assert ts[1..] == Yield(d, inner) + ([RParen] + rest);
      ParseBinaryComplete(d, inner, [RParen] + rest, 1);
      assert ([RParen] + rest)[1..] == rest;
    case Unary(op, operand) =>
      assert ts[1..] == Yield(d, operand) + rest;
      ParseUnaryComplete(d, operand, rest);
  }

  // Parsing a tree's own yield reaches the loop with exactly that tree in hand.
  lemma {:induction false} ParseBinaryComplete(d: Dialect, e: Expression, rest: seq<Token>, min: nat)
    requires WellNested(d, e) && 0 < min <= Level(d, e)
    requires HeadPrecedence(d, rest) <= Level(d, e)
    ensures ParseBinary(d, Yield(d, e) + rest, min) == Climb(d, e, rest, min)
    decreases e, 1
  {
    if e.Binary? {
      var q := Precedence(d, e.operator);
      var tail := [Op(e.operator)] + (Yield(d, e.right) + rest);
      assert Yield(d, e) + rest == Yield(d, e.left) + tail;
      ParseBinaryComplete(d, e.left, tail, min);
      assert tail[1..] == Yield(d, e.right) + rest;
      ParseBinaryComplete(d, e.right, rest, q + 1);
    } else {
      ParseUnaryComplete(d, e, rest);
    }
  }

  // The parser accepts exactly the token lists that some well-nested tree yields, and
  // returns that tree: it consumes every token, and the tree is the only one there is.
  lemma {:induction false} ParseExact(d: Dialect, ts: seq<Token>, e: Expression)
    ensures Parse(d, ts) == Parsed(e, []) <==> WellNested(d, e) && Yield(d, e) == ts
  {
    ParseBinarySound(d, ts, 1);
    if Parse(d, ts) == Parsed(e, []) {
      assert Yield(d, e) + [] == Yield(d, e);
    }
    if WellNested(d, e) && Yield(d, e) == ts {
      assert ts + [] == ts;
      ParseBinaryComplete(d, e, [], 1);
    }
  }

  lemma {:induction false} WellNestedTreeUnique(d: Dialect, e: Expression, f: Expression)
    requires WellNested(d, e) && WellNested(d, f) && Yield(d, e) == Yield(d, f)
    ensures e == f
  {
    ParseExact(d, Yield(d, e), e);
    ParseExact(d, Yield(d, f), f);
  }

  // ---------------------------------------------------------------- the printer

  // What the printer emits: tokens, and the spaces it puts around binary operators.
  datatype Piece = Tok(token: Token) | Space

  function Print(e: Expression, min: nat): seq<Piece> {
    match e
    case Atom(text) => [Tok(Operand(text))]
    case Parenthesized(inner) => Enclosed(Print(inner, 0), true)
    case Unary(op, operand) => Enclosed([Tok(Op(op))] + Print(operand, UNARY_LEVEL), UNARY_LEVEL < min)
    case Binary(source, left, right) =>
      var op := PrintedOperator(source);
      var precedence := Precedence(TypeScript, op);
      var rightText := if source.AndNot? then [Tok(Op(Tilde))] + Print(right, UNARY_LEVEL) else Print(right, precedence + 1);
      Enclosed(Infix(Print(left, precedence), op, rightText), precedence < min)
  }

  function PrintedOperator(source: Operator): Operator {
    if source.AndNot? then And else source
  }

  function Enclosed(text: seq<Piece>, parenthesize: bool): seq<Piece> {
    if parenthesize then [Tok(LParen)] + text + [Tok(RParen)] else text
  }

  function Infix(left: seq<Piece>, op: Operator, right: seq<Piece>): seq<Piece> {
    left + [Space, Tok(Op(op)), Space] + right
  }

  function Tokens(ps: seq<Piece>): seq<Token> {
    if ps == [] then []
    else (if ps[0].Tok? then [ps[0].token] else []) + Tokens(ps[1..])
  }

  lemma {:induction false} TokensConcat(a: seq<Piece>, b: seq<Piece>)
    ensures Tokens(a + b) == Tokens(a) + Tokens(b)
  {
    if a == [] {
      assert a + b == b;
    } else {
      TokensConcat(a[1..], b);
      assert (a + b)[1..] == a[1..] + b;
      Regroup(if a[0].Tok? then [a[0].token] else [], Tokens(a[1..]), Tokens(b));
    }
  }

  lemma TokensEnclosed(text: seq<Piece>)
    ensures Tokens(Enclosed(text, true)) == [LParen] + Tokens(text) + [RParen]
  {
    TokensConcat([Tok(LParen)], text);
    TokensConcat([Tok(LParen)] + text, [Tok(RParen)]);
  }

  lemma TokensInfix(left: seq<Piece>, op: Operator, right: seq<Piece>)
    ensures Tokens(Infix(left, op, right)) == Tokens(left) + [Op(op)] + Tokens(right)
  {
    var middle := [Space, Tok(Op(op)), Space];
    assert middle[1..] == [Tok(Op(op)), Space];
    assert [Tok(Op(op)), Space][1..] == [Space];
    assert Tokens([Space]) == [];
    assert Tokens([Tok(Op(op)), Space]) == [Op(op)];
    TokensConcat(left, middle);
    TokensConcat(left + middle, right);
  }

  // The whole translation, from Go tokens to the emitted pieces.
  datatype Translation = Emitted(pieces: seq<Piece>) | Rejected(error: ParseError)

  function Translate(ts: seq<Token>): Translation {
    match Parse(Go, ts)
    case Failed(e) => Rejected(e)
    case Parsed(tree, _) => Emitted(Print(tree, 0))
  }

  // ---------------------------------------------------------------- meaning

  // The expression a tree stands for: no parentheses, and "a &^ b" as "a & ~b".
  function Meaning(e: Expression): Expression {
    match e
    case Atom(_) => e
    case Parenthesized(inner) => Meaning(inner)
    case Unary(op, operand) => Unary(op, Meaning(operand))
    case Binary(op, left, right) =>
      if op.AndNot? then Binary(And, Meaning(left), Unary(Tilde, Meaning(right)))
      else Binary(op, Meaning(left), Meaning(right))
  }

  // The tree the printer's output denotes, with the parentheses it inserts.
  ghost function PrintedTree(e: Expression, min: nat): Expression {
    match e
    case Atom(_) => e
    case Parenthesized(inner) => Parenthesized(PrintedTree(inner, 0))
    case Unary(op, operand) =>
      var tree := Unary(op, PrintedTree(operand, UNARY_LEVEL));
      if UNARY_LEVEL < min then Parenthesized(tree) else tree
    case Binary(source, left, right) =>
      var precedence := Precedence(TypeScript, PrintedOperator(source));
      var rightTree := if source.AndNot? then Unary(Tilde, PrintedTree(right, UNARY_LEVEL)) else PrintedTree(right, precedence + 1);
      var tree := Binary(PrintedOperator(source), PrintedTree(left, precedence), rightTree);
      if precedence < min then Parenthesized(tree) else tree
  }

  // What is printed for an expression is what its printed tree yields, and that tree is well
  // nested, tight enough for its place, and means the same.
  ghost predicate Denotes(e: Expression, min: nat) {
    var tree := PrintedTree(e, min);
    Tokens(Print(e, min)) == Yield(TypeScript, tree)
    && WellNested(TypeScript, tree) && min <= Level(TypeScript, tree) && Meaning(tree) == Meaning(e)
  }

  lemma {:induction false} PrintedTreeDenotes(e: Expression, min: nat)
    requires WellNested(Go, e) && min <= UNARY_LEVEL
    ensures Denotes(e, min)
    decreases e
  {
    match e
    case Atom(_) =>
    case Parenthesized(inner) =>
      PrintedTreeDenotes(inner, 0);
      TokensEnclosed(Print(inner, 0));
    case Unary(op, operand) =>
      PrintedTreeDenotes(operand, UNARY_LEVEL);
      TokensConcat([Tok(Op(op))], Print(operand, UNARY_LEVEL));
    case Binary(source, left, right) =>
      var precedence := Precedence(TypeScript, PrintedOperator(source));
      PrintedTreeDenotes(left, precedence);
      PrintedTreeDenotes(right, if source.AndNot? then UNARY_LEVEL else precedence + 1);
      PrintedBinaryDenotes(source, left, right, min);
  }

  lemma {:induction false} PrintedBinaryDenotes(source: Operator, left: Expression, right: Expression, min: nat)
    requires min <= UNARY_LEVEL && WellNested(Go, Binary(source, left, right))
    requires Denotes(left, Precedence(TypeScript, PrintedOperator(source)))
    requires Denotes(right, if source.AndNot? then UNARY_LEVEL else Precedence(TypeScript, PrintedOperator(source)) + 1)
    ensures Denotes(Binary(source, left, right), min)
  {
    var op := PrintedOperator(source);
    var precedence := Precedence(TypeScript, op);
    var rightText := if source.AndNot? then [Tok(Op(Tilde))] + Print(right, UNARY_LEVEL) else Print(right, precedence + 1);
    var rightTree := if source.AndNot? then Unary(Tilde, PrintedTree(right, UNARY_LEVEL)) else PrintedTree(right, precedence + 1);
    TokensConcat([Tok(Op(Tilde))], Print(right, UNARY_LEVEL));
    BinaryDenotes(op, Print(left, precedence), PrintedTree(left, precedence), rightText, rightTree);
    TokensEnclosed(Infix(Print(left, precedence), op, rightText));
    var e, tree := Binary(source, left, right), Binary(op, PrintedTree(left, precedence), rightTree);
    assert PrintedTree(e, min) == if precedence < min then Parenthesized(tree) else tree;
    assert Meaning(tree) == Meaning(e);
  }

  // Two operands that print what their trees yield, joined by an operator loose enough for both.
  lemma BinaryDenotes(op: Operator, leftText: seq<Piece>, leftTree: Expression, rightText: seq<Piece>, rightTree: Expression)
    requires 0 < Precedence(TypeScript, op)
    requires Tokens(leftText) == Yield(TypeScript, leftTree) && WellNested(TypeScript, leftTree)
    requires Tokens(rightText) == Yield(TypeScript, rightTree) && WellNested(TypeScript, rightTree)
    requires Precedence(TypeScript, op) <= Level(TypeScript, leftTree)
    requires Precedence(TypeScript, op) < Level(TypeScript, rightTree)
    ensures var tree := Binary(op, leftTree, rightTree);
      Tokens(Infix(leftText, op, rightText)) == Yield(TypeScript, tree)
      && WellNested(TypeScript, tree) && Level(TypeScript, tree) == Precedence(TypeScript, op)
  {
    TokensInfix(leftText, op, rightText);
  }

  // Reading the printed tokens back under TypeScript's precedences gives the parsed Go expression.
  lemma {:induction false} TranslationPreservesMeaning(ts: seq<Token>)
    ensures Translate(ts).Emitted? <==> Parse(Go, ts).Parsed?
    ensures Translate(ts).Emitted? ==>
      var back := Parse(TypeScript, Tokens(Translate(ts).pieces));
      back.Parsed? && Meaning(back.tree) == Meaning(Parse(Go, ts).tree)
  {
    var r := Parse(Go, ts);
    if r.Parsed? {
      ParseExact(Go, ts, r.tree);
      PrintedTreeDenotes(r.tree, 0);
      ParseExact(TypeScript, Tokens(Print(r.tree, 0)), PrintedTree(r.tree, 0));
    }
  }

  // A compositional evaluator: a value for each operand text and an operation for each operator.
  datatype Evaluator<!V> = Evaluator(atom: string -> V, unary: (Operator, V) -> V, binary: (Operator, V, V) -> V) {
    function Value(e: Expression): V {
      match e
      case Atom(text) => atom(text)
      case Parenthesized(inner) => Value(inner)
      case Unary(op, operand) => unary(op, Value(operand))
      case Binary(op, left, right) => binary(op, Value(left), Value(right))
    }
  }

  // Go's "&^" is what its specification says: and with the complement.
  ghost predicate Lawful<V(!new)>(ev: Evaluator<V>) {
    forall a: V, b: V :: ev.binary(AndNot, a, b) == ev.binary(And, a, ev.unary(Tilde, b))
  }

  lemma {:induction false} MeaningKeepsValue<V(!new)>(ev: Evaluator<V>, e: Expression)
    requires Lawful(ev)
    ensures ev.Value(Meaning(e)) == ev.Value(e)
  {
    match e
    case Atom(_) =>
    case Parenthesized(inner) => MeaningKeepsValue(ev, inner);
    case Unary(op, operand) => MeaningKeepsValue(ev, operand);
    case Binary(op, left, right) =>
      MeaningKeepsValue(ev, left);
      MeaningKeepsValue(ev, right);
      assert ev.binary(AndNot, ev.Value(left), ev.Value(right)) == ev.binary(And, ev.Value(left), ev.unary(Tilde, ev.Value(right)));
  }

  lemma {:induction false} TranslationPreservesValue<V(!new)>(ev: Evaluator<V>, ts: seq<Token>)
    requires Lawful(ev) && Translate(ts).Emitted?
    ensures var back := Parse(TypeScript, Tokens(Translate(ts).pieces));
      back.Parsed? && ev.Value(back.tree) == ev.Value(Parse(Go, ts).tree)
  {
    TranslationPreservesMeaning(ts);
    MeaningKeepsValue(ev, Parse(TypeScript, Tokens(Translate(ts).pieces)).tree);
    MeaningKeepsValue(ev, Parse(Go, ts).tree);
  }

  // ---------------------------------------------------------------- where the text itself fails

  // What a TypeScript scanner makes of the text: two equal signs with nothing between them
  // are one update operator.
  datatype Scanned = Plain(token: Token) | Update(operator: Operator)

  predicate IsSign(p: Piece) {
    p == Tok(Op(Plus)) || p == Tok(Op(Minus))
  }

  function Scan(ps: seq<Piece>): seq<Scanned> {
    if ps == [] then []
    else if ps[0].Space? then Scan(ps[1..])
    else if |ps| > 1 && IsSign(ps[0]) && ps[0] == ps[1] then [Update(ps[0].token.operator)] + Scan(ps[2..])
    else [Plain(ps[0].token)] + Scan(ps[1..])
  }

  predicate ReadsAs(ss: seq<Scanned>, ts: seq<Token>) {
    |ss| == |ts| && forall i :: 0 <= i < |ss| ==> ss[i] == Plain(ts[i])
  }

  // Two equal signs stand side by side somewhere in the output.
  predicate Fuses(ps: seq<Piece>) {
    exists i :: 0 <= i && i + 1 < |ps| && IsSign(ps[i]) && ps[i] == ps[i + 1]
  }

  // A sign is applied directly to the same sign, as in Go's "- -x".
  predicate DoubledSign(e: Expression) {
    match e
    case Atom(_) => false
    case Parenthesized(inner) => DoubledSign(inner)
    case Unary(op, operand) => DoubledSign(operand) || (!op.Tilde? && operand.Unary? && operand.operator == op)
    case Binary(_, left, right) => DoubledSign(left) || DoubledSign(right)
  }

  lemma {:induction false} ScanExact(ps: seq<Piece>)
    ensures ReadsAs(Scan(ps), Tokens(ps)) <==> !Fuses(ps)
    decreases |ps|
  {
    if ps == [] {
    } else if |ps| > 1 && IsSign(ps[0]) && ps[0] == ps[1] {
      assert Scan(ps)[0].Update?;
    } else {
      ScanExact(ps[1..]);
      FusesTail(ps);
      if ps[0].Tok? {
        ReadsAsTail(ps[0].token, Scan(ps[1..]), Tokens(ps[1..]));
      }
    }
  }

  lemma {:induction false} ReadsAsTail(t: Token, ss: seq<Scanned>, ts: seq<Token>)
    ensures ReadsAs([Plain(t)] + ss, [t] + ts) <==> ReadsAs(ss, ts)
  {
    var scanned, tokens := [Plain(t)] + ss, [t] + ts;
    assert scanned[1..] == ss && tokens[1..] == ts;
    if ReadsAs(scanned, tokens) {
      forall i | 0 <= i < |ss|
        ensures i < |ts| && ss[i] == Plain(ts[i])
      {
        assert ss[i] == scanned[i + 1] && ts[i] == tokens[i + 1];
      }
    }
  }

  lemma FusesTail(ps: seq<Piece>)
    requires ps != [] && !(|ps| > 1 && IsSign(ps[0]) && ps[0] == ps[1])
    ensures Fuses(ps) <==> Fuses(ps[1..])
  {
    if |ps| > 1 {
      assert ps == [ps[0]] + ps[1..];
      FusesConcat([ps[0]], ps[1..]);
    }
  }

  lemma FusesConcat(a: seq<Piece>, b: seq<Piece>)
    requires a != [] && b != []
    ensures Fuses(a + b) <==> Fuses(a) || Fuses(b) || (IsSign(a[|a| - 1]) && a[|a| - 1] == b[0])
  {
    var c := a + b;
    if Fuses(a) {
      var i :| 0 <= i && i + 1 < |a| && IsSign(a[i]) && a[i] == a[i + 1];
      assert c[i] == a[i] && c[i + 1] == a[i + 1];
    }
    if Fuses(b) {
      var i :| 0 <= i && i + 1 < |b| && IsSign(b[i]) && b[i] == b[i + 1];
      assert c[|a| + i] == b[i] && c[|a| + i + 1] == b[i + 1];
    }
    if IsSign(a[|a| - 1]) && a[|a| - 1] == b[0] {
      assert c[|a| - 1] == c[|a| - 1 + 1];
    }
    if Fuses(c) {
      var i :| 0 <= i && i + 1 < |c| && IsSign(c[i]) && c[i] == c[i + 1];
      if i + 1 < |a| {
        assert a[i] == a[i + 1];
      } else if i >= |a| {
        assert b[i - |a|] == b[i - |a| + 1];
      }
    }
  }

  // What a printed expression looks like from outside.
  predicate Shows(text: seq<Piece>, e: Expression, asOperand: bool) {
    (Fuses(text) <==> DoubledSign(e)) && text != [] && !IsSign(text[|text| - 1])
    && (asOperand ==> text[0] == FirstPiece(e))
  }

  predicate PrintsAs(e: Expression, min: nat) {
    Shows(Print(e, min), e, min == UNARY_LEVEL)
  }

  lemma {:induction false} PrintFuses(e: Expression, min: nat)
    requires WellNested(Go, e) && min <= UNARY_LEVEL
    ensures PrintsAs(e, min)
    decreases e
  {
    match e
    case Atom(_) =>
    case Parenthesized(inner) =>
      PrintFuses(inner, 0);
      EnclosedFuses(Print(inner, 0), true);
    case Unary(op, operand) =>
      PrintFuses(operand, UNARY_LEVEL);
      PrefixFuses(op, Print(operand, UNARY_LEVEL));
    case Binary(source, left, right) =>
      var precedence := Precedence(TypeScript, PrintedOperator(source));
      PrintFuses(left, precedence);
      PrintFuses(right, if source.AndNot? then UNARY_LEVEL else precedence + 1);
      var rightText := Print(right, if source.AndNot? then UNARY_LEVEL else precedence + 1);
      BinaryFuses(source, left, right, Print(left, precedence), rightText, precedence < min);
  }

  lemma {:induction false} BinaryFuses(source: Operator, left: Expression, right: Expression,
                                       leftText: seq<Piece>, rightText: seq<Piece>, parenthesize: bool)
    requires Shows(leftText, left, false) && Shows(rightText, right, false)
    ensures var text := if source.AndNot? then [Tok(Op(Tilde))] + rightText else rightText;
      Shows(Enclosed(Infix(leftText, PrintedOperator(source), text), parenthesize), Binary(source, left, right), parenthesize)
  {
    PrefixFuses(Tilde, rightText);
    var text := if source.AndNot? then [Tok(Op(Tilde))] + rightText else rightText;
    InfixPrinted(leftText, PrintedOperator(source), text, parenthesize);
  }

  lemma InfixPrinted(left: seq<Piece>, op: Operator, right: seq<Piece>, parenthesize: bool)
    requires left != [] && right != [] && !IsSign(right[|right| - 1])
    ensures var text := Enclosed(Infix(left, op, right), parenthesize);
      (Fuses(text) <==> Fuses(left) || Fuses(right)) && text != [] && !IsSign(text[|text| - 1])
      && (parenthesize ==> text[0] == Tok(LParen))
  {
    InfixFuses(left, op, right);
    EnclosedFuses(Infix(left, op, right), parenthesize);
  }

  // What an operand of a prefix operator starts with.
  function FirstPiece(e: Expression): Piece {
    match e
    case Atom(text) => Tok(Operand(text))
    case Unary(op, _) => Tok(Op(op))
    case _ => Tok(LParen)
  }

  lemma PrefixFuses(op: Operator, ps: seq<Piece>)
    requires ps != [] && !IsSign(ps[|ps| - 1])
    ensures var text := [Tok(Op(op))] + ps;
      (Fuses(text) <==> Fuses(ps) || (IsSign(Tok(Op(op))) && ps[0] == Tok(Op(op))))
      && !IsSign(text[|text| - 1])
  {
    FusesConcat([Tok(Op(op))], ps);
  }

  lemma InfixFuses(a: seq<Piece>, op: Operator, b: seq<Piece>)
    requires a != [] && b != [] && !IsSign(b[|b| - 1])
    ensures var text := Infix(a, op, b);
      (Fuses(text) <==> Fuses(a) || Fuses(b)) && text != [] && !IsSign(text[|text| - 1])
  {
    var middle := [Space, Tok(Op(op)), Space];
    FusesConcat(a, middle);
    FusesConcat(a + middle, b);
  }

  lemma EnclosedFuses(ps: seq<Piece>, parenthesize: bool)
    requires ps != [] && !IsSign(ps[|ps| - 1])
    ensures var text := Enclosed(ps, parenthesize);
      (Fuses(text) <==> Fuses(ps)) && text != [] && !IsSign(text[|text| - 1])
      && (parenthesize ==> text[0] == Tok(LParen))
  {
    FusesConcat([Tok(LParen)], ps);
    FusesConcat([Tok(LParen)] + ps, [Tok(RParen)]);
  }

  predicate IsSignToken(t: Token) {
    t == Op(Plus) || t == Op(Minus)
  }

  // An operator at the i-th token would be a prefix operator.
  predicate PrefixPosition(ts: seq<Token>, i: nat)
    requires i < |ts|
  {
    i == 0 || ts[i - 1].Op? || ts[i - 1].LParen?
  }

  // The i-th token is a prefix sign followed directly by the same sign; `prefix` says whether the tokens start in prefix position.
  predicate DoubledAt(ts: seq<Token>, i: nat, prefix: bool) {
    i + 1 < |ts| && IsSignToken(ts[i]) && ts[i] == ts[i + 1] && if i == 0 then prefix else PrefixPosition(ts, i)
  }

  // Some token is.
  ghost predicate DoubledTokens(ts: seq<Token>) {
    exists i: nat :: DoubledAt(ts, i, true)
  }

  // The same from left to right.
  predicate DoubledFrom(ts: seq<Token>, prefix: bool) {
    |ts| > 1
    && ((prefix && IsSignToken(ts[0]) && ts[0] == ts[1]) || DoubledFrom(ts[1..], ts[0].Op? || ts[0].LParen?))
  }

  lemma {:induction false} DoubledSomewhere(ts: seq<Token>, prefix: bool)
    ensures DoubledFrom(ts, prefix) <==> exists i: nat :: DoubledAt(ts, i, prefix)
    decreases |ts|
  {
    if |ts| > 1 {
      var next := ts[0].Op? || ts[0].LParen?;
      DoubledSomewhere(ts[1..], next);
      assert DoubledAt(ts, 0, prefix) <==> prefix && IsSignToken(ts[0]) && ts[0] == ts[1];
      if i: nat :| DoubledAt(ts[1..], i, next) {
        DoubledLater(ts, i, prefix);
      }
      if i: nat :| DoubledAt(ts, i, prefix) && i > 0 {
        DoubledLater(ts, i - 1, prefix);
      }
    }
  }

  lemma DoubledLater(ts: seq<Token>, i: nat, prefix: bool)
    requires |ts| > 1
    ensures DoubledAt(ts[1..], i, ts[0].Op? || ts[0].LParen?) <==> DoubledAt(ts, i + 1, prefix)
  {
  }

  // A tree applies a sign directly to the same sign exactly where its tokens show it.
  lemma {:induction false} DoubledInYield(e: Expression, rest: seq<Token>)
    requires WellNested(Go, e)
    ensures DoubledFrom(Yield(Go, e) + rest, true) <==> DoubledSign(e) || DoubledFrom(rest, false)
    decreases e
  {
    var ts := Yield(Go, e) + rest;
    match e
    case Atom(_) =>
      assert ts[1..] == rest;
    case Parenthesized(inner) =>
      assert ts[1..] == Yield(Go, inner) + ([RParen] + rest);
      DoubledInYield(inner, [RParen] + rest);
      assert ([RParen] + rest)[1..] == rest;
    case Unary(op, operand) =>
      assert ts[1..] == Yield(Go, operand) + rest;
      DoubledInYield(operand, rest);
    case Binary(op, left, right) =>
      var tail := [Op(op)] + (Yield(Go, right) + rest);
      assert ts == Yield(Go, left) + tail;
      DoubledInYield(left, tail);
      assert tail[1..] == Yield(Go, right) + rest;
      DoubledInYield(right, rest);
  }

  // The emitted text scans back to the emitted tokens exactly when no sign is doubled: neither
  // in the tree nor, what is the same, in the tokens given.
  lemma {:induction false} TextReadsBack(ts: seq<Token>)
    requires Translate(ts).Emitted?
    ensures var ps := Translate(ts).pieces;
      ReadsAs(Scan(ps), Tokens(ps)) <==> !DoubledTokens(ts)
    ensures DoubledTokens(ts) <==> DoubledSign(Parse(Go, ts).tree)
  {
    var tree := Parse(Go, ts).tree;
    ParseExact(Go, ts, tree);
    PrintFuses(tree, 0);
    ScanExact(Print(tree, 0));
    DoubledInYield(tree, []);
    assert Yield(Go, tree) + [] == ts;
    DoubledSomewhere(ts, true);
  }

  // Go's "- - x" is accepted and comes out as the text "--x".
  lemma {:induction false} DoubledSignFails(x: string)
    ensures var ts := [Op(Minus), Op(Minus), Operand(x)];
      Translate(ts).Emitted? && Scan(Translate(ts).pieces) == [Update(Minus), Plain(Operand(x))]
  {
    var ts := [Op(Minus), Op(Minus), Operand(x)];
    var tree := Unary(Minus, Unary(Minus, Atom(x)));
    var inner := Unary(Minus, Atom(x));
    assert Yield(Go, inner) == [Op(Minus), Operand(x)];
    assert Yield(Go, tree) == ts;
    assert WellNested(Go, inner);
    ParseExact(Go, ts, tree);
    var ps := Print(tree, 0);
    assert Print(inner, UNARY_LEVEL) == [Tok(Op(Minus)), Tok(Operand(x))];
    assert ps == [Tok(Op(Minus)), Tok(Op(Minus)), Tok(Operand(x))];
    assert ps[2..] == [Tok(Operand(x))] && ps[2..][1..] == [];
    assert Scan(ps[2..]) == [Plain(Operand(x))];
  }

  // ---------------------------------------------------------------- the program's own form

  function StripPrefix(prefix: string, text: string): string {
    if prefix <= text then text[|prefix|..] else text
  }

  // Operand texts lose the enum's name prefix as they are parsed.
  function Stripped(prefix: string, ts: seq<Token>): (r: seq<Token>)
    ensures |r| == |ts|
    ensures forall i :: 0 <= i < |ts| ==>
      r[i] == if ts[i].Operand? then Operand(StripPrefix(prefix, ts[i].text)) else ts[i]
  {
    seq(|ts|, i requires 0 <= i < |ts| => if ts[i].Operand? then Operand(StripPrefix(prefix, ts[i].text)) else ts[i])
  }

  // One round of the loop: an operator that binds tightly enough, and its right operand.
  lemma {:induction false} ClimbStep(d: Dialect, left: Expression, ts: seq<Token>, min: nat)
    requires 0 < min <= HeadPrecedence(d, ts)
    ensures var right := ParseBinary(d, ts[1..], Precedence(d, ts[0].operator) + 1);
      Climb(d, left, ts, min)
      == if right.Failed? then right else Climb(d, Binary(ts[0].operator, left, right.tree), right.rest, min)
  {
  }

  // The recursive-descent parser: one cursor over the tokens, advanced by both routines.
  class Parser {
    const tokens: seq<Token>
    const prefix: string
    var tokenIndex: nat

    constructor (tokens: seq<Token>, prefix: string)
      ensures this.tokens == tokens && this.prefix == prefix && tokenIndex == 0
    {
      this.tokens := tokens;
      this.prefix := prefix;
      tokenIndex := 0;
    }

    ghost function Remaining(): seq<Token>
      requires tokenIndex <= |tokens|
      reads this
    {
      Stripped(prefix, tokens)[tokenIndex..]
    }

    // The next token, if it is an operator that binds at least as tightly as `min`.
    method TightOperator(min: nat) returns (operator: Option<Operator>)
      requires tokenIndex <= |tokens| && 0 < min
      ensures operator.None? ==> HeadPrecedence(Go, Remaining()) < min
      ensures operator.Some? ==>
        tokenIndex < |tokens| && Remaining() != [] && Remaining()[0] == Op(operator.value)
        && min <= HeadPrecedence(Go, Remaining()) == Precedence(Go, operator.value)
        && Remaining()[1..] == Stripped(prefix, tokens)[tokenIndex + 1..]
    {
      if tokenIndex == |tokens| || !tokens[tokenIndex].Op? {
        return None;
      }
      var op := tokens[tokenIndex].operator;
      return if Precedence(Go, op) < min then None else Some(op);
    }

    method ParseUnaryAt() returns (r: Outcome)
      requires tokenIndex <= |tokens|
      modifies this
      ensures old(tokenIndex) <= tokenIndex <= |tokens|
      ensures r == ParseUnary(Go, old(Remaining()))
      ensures r.Parsed? ==> Remaining() == r.rest
      decreases |tokens| - tokenIndex, 0
    {
      ghost var ts := Remaining();
      if tokenIndex == |tokens| {
        return Failed(ExpectedOperand);
      }
      var token := tokens[tokenIndex];
      assert ts[0] == Stripped(prefix, tokens)[tokenIndex];
      match token
      case RParen => return Failed(ExpectedOperand);
      case Operand(text) =>
        tokenIndex := tokenIndex + 1;
        assert Remaining() == ts[1..];
        return Parsed(Atom(StripPrefix(prefix, text)), Stripped(prefix, tokens)[tokenIndex..]);
      case LParen =>
        tokenIndex := tokenIndex + 1;
        assert Remaining() == ts[1..];
        var inner := ParseBinaryAt(1);
        if inner.Failed? {
          return inner;
        }
        if tokenIndex == |tokens| || tokens[tokenIndex] != RParen {
          return Failed(UnmatchedParenthesis);
        }
        tokenIndex := tokenIndex + 1;
        return Parsed(Parenthesized(inner.tree), Stripped(prefix, tokens)[tokenIndex..]);
      case Op(op) =>
        var operator := PrefixOperator(Go, op);
        if operator.None? {
          return Failed(ExpectedOperand);
        }
        tokenIndex := tokenIndex + 1;
        assert Remaining() == ts[1..];
        var operand := ParseUnaryAt();
        if operand.Failed? {
          return operand;
        }
        return Parsed(Unary(operator.value, operand.tree), operand.rest);
    }

    method ParseBinaryAt(min: nat) returns (r: Outcome)
      requires tokenIndex <= |tokens| && 0 < min
      modifies this
      ensures old(tokenIndex) <= tokenIndex <= |tokens|
      ensures r == ParseBinary(Go, old(Remaining()), min)
      ensures r.Parsed? ==> Remaining() == r.rest
      decreases |tokens| - tokenIndex, 1
    {
      var first := ParseUnaryAt();
      if first.Failed? {
        return first;
      }
      r := ClimbAt(first.tree, min);
    }

    // The loop: extends the left operand while operators bind tightly enough.
    method ClimbAt(first: Expression, min: nat) returns (r: Outcome)
      requires tokenIndex <= |tokens| && 0 < min
      modifies this
      ensures old(tokenIndex) <= tokenIndex <= |tokens|
      ensures r == Climb(Go, first, old(Remaining()), min)
      ensures r.Parsed? ==> Remaining() == r.rest
      decreases |tokens| - tokenIndex, 2
    {
      ghost var start, all := tokenIndex, Climb(Go, first, Remaining(), min);
      var left := first;
      while true
        invariant start <= tokenIndex <= |tokens|
        invariant Climb(Go, left, Remaining(), min) == all
        decreases |tokens| - tokenIndex
      {
        var operator := TightOperator(min);
        if operator.None? {
          break;
        }
        ClimbStep(Go, left, Remaining(), min);
        tokenIndex := tokenIndex + 1;
        var right := ParseBinaryAt(Precedence(Go, operator.value) + 1);
        if right.Failed? {
          return right;
        }
        left := Binary(operator.value, left, right.tree);
      }
      return Parsed(left, Stripped(prefix, tokens)[tokenIndex..]);
    }
  }

  method TranslateGoNumericExpression(tokens: seq<Token>, prefix: string) returns (r: Translation)
    ensures r == Translate(Stripped(prefix, tokens))
  {
    var parser := new Parser(tokens, prefix);
    assert parser.Remaining() == Stripped(prefix, tokens);
    var parsed := parser.ParseBinaryAt(1);
    if parsed.Failed? {
      return Rejected(parsed.error);
    }
    if parser.tokenIndex != |tokens| {
      return Rejected(UnexpectedToken);
    }
    return Emitted(Print(parsed.tree, 0));
  }
}
