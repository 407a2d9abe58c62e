// Which operators bind tighter than which, by name: what the parser's numbers amount to in each language.
module OperatorClasses {
  import opened Basics
  import opened GoExpressions

  // The binary operators of each language, from the loosest class to the tightest.
  function Classes(d: Dialect): seq<seq<Operator>> {
    match d
    case Go => [
      [OrOr],
      [AndAnd],
      [Eq, Ne, Lt, Le, Gt, Ge],
      [Plus, Minus, Or, Xor],
      [Mul, Div, Rem, Shl, Shr, And, AndNot]]
    case TypeScript => [
      [OrOr],
      [AndAnd],
      [Or],
      [Xor],
      [And],
      [Eq, Ne],
      [Lt, Le, Gt, Ge],
      [Shl, Shr],
      [Plus, Minus],
      [Mul, Div, Rem]]
  }

  // What can stand next to a binary operator without parentheses whatever the operator is.
  predicate IsOperand(d: Dialect, e: Expression) {
    WellNested(d, e) && !e.Binary?
  }

  lemma LevelOfClass(d: Dialect, i: nat, op: Operator)
    requires i < |Classes(d)| && op in Classes(d)[i]
    ensures Precedence(d, op) == if d.Go? then i + 1 else i + 4
  {
    if d.Go? {
      GoLevel(i, op);
    } else {
      TypeScriptLevel(i, op);
    }
  }

  lemma GoLevel(i: nat, op: Operator)
    requires i < |Classes(Go)| && op in Classes(Go)[i]
    ensures Precedence(Go, op) == i + 1
  {
  }

  lemma TypeScriptLevel(i: nat, op: Operator)
    requires i < |Classes(TypeScript)| && op in Classes(TypeScript)[i]
    ensures Precedence(TypeScript, op) == i + 4
  {
  }

  lemma ClassOfLevel(d: Dialect, op: Operator)
    requires 0 < Precedence(d, op)
    ensures var i := Precedence(d, op) - if d.Go? then 1 else 4; 0 <= i < |Classes(d)| && op in Classes(d)[i]
  {
  }

  // Two operators in a row: an operator of a tighter class takes the operand between them from
  // either side; of two in one class, the left one does.
  lemma TighterTakesOperand(d: Dialect, i: nat, j: nat, first: Operator, second: Operator, x: Expression, y: Expression, z: Expression)
    requires i < |Classes(d)| && j < |Classes(d)| && first in Classes(d)[i] && second in Classes(d)[j]
    requires IsOperand(d, x) && IsOperand(d, y) && IsOperand(d, z)
    ensures Parse(d, Yield(d, x) + [Op(first)] + Yield(d, y) + [Op(second)] + Yield(d, z))
      == Parsed(if i < j then Binary(first, x, Binary(second, y, z)) else Binary(second, Binary(first, x, y), z), [])
  {
    LevelOfClass(d, i, first);
    LevelOfClass(d, j, second);
    if i < j {
      RightFirst(d, first, second, x, y, z);
    } else {
      LeftFirst(d, first, second, x, y, z);
    }
  }

  lemma RightFirst(d: Dialect, first: Operator, second: Operator, x: Expression, y: Expression, z: Expression)
    requires 0 < Precedence(d, first) < Precedence(d, second)
    requires IsOperand(d, x) && IsOperand(d, y) && IsOperand(d, z)
    ensures Parse(d, Yield(d, x) + [Op(first)] + Yield(d, y) + [Op(second)] + Yield(d, z))
      == Parsed(Binary(first, x, Binary(second, y, z)), [])
  {
    var right := Binary(second, y, z);
    var ts := Yield(d, x) + [Op(first)] + Yield(d, y) + [Op(second)] + Yield(d, z);
    RegroupTail(Yield(d, x) + [Op(first)], Yield(d, y), [Op(second)], Yield(d, z));
    assert Yield(d, right) == Yield(d, y) + [Op(second)] + Yield(d, z);
    assert ts == Yield(d, Binary(first, x, right));
    ParseExact(d, ts, Binary(first, x, right));
  }

  lemma RegroupTail<T>(a: seq<T>, b: seq<T>, c: seq<T>, e: seq<T>)
    ensures a + b + c + e == a + (b + c + e)
  {
  }

  lemma LeftFirst(d: Dialect, first: Operator, second: Operator, x: Expression, y: Expression, z: Expression)
    requires 0 < Precedence(d, second) <= Precedence(d, first)
    requires IsOperand(d, x) && IsOperand(d, y) && IsOperand(d, z)
    ensures Parse(d, Yield(d, x) + [Op(first)] + Yield(d, y) + [Op(second)] + Yield(d, z))
      == Parsed(Binary(second, Binary(first, x, y), z), [])
  {
    var left := Binary(first, x, y);
    var ts := Yield(d, x) + [Op(first)] + Yield(d, y) + [Op(second)] + Yield(d, z);
    assert Yield(d, left) == Yield(d, x) + [Op(first)] + Yield(d, y);
    assert ts == Yield(d, Binary(second, left, z));
    ParseExact(d, ts, Binary(second, left, z));
  }

  // The operators of the classes are all there are between two operands.
  lemma BinaryOperatorsExact(d: Dialect, op: Operator, x: Expression, y: Expression)
    requires IsOperand(d, x) && IsOperand(d, y)
    ensures Parse(d, Yield(d, x) + [Op(op)] + Yield(d, y)) == Parsed(Binary(op, x, y), [])
      <==> exists i :: 0 <= i < |Classes(d)| && op in Classes(d)[i]
  {
    var e := Binary(op, x, y);
    ParseExact(d, Yield(d, x) + [Op(op)] + Yield(d, y), e);
    if 0 < Precedence(d, op) {
      ClassOfLevel(d, op);
    }
    if i :| 0 <= i < |Classes(d)| && op in Classes(d)[i] {
      LevelOfClass(d, i, op);
    }
  }

  // Before an operand "+" and "-" are signs in both languages; the complement is "^" in Go and
  // "~" in TypeScript; nothing else stands there.
  lemma PrefixOperatorsExact(d: Dialect, op: Operator, node: Operator, x: Expression)
    requires IsOperand(d, x)
    ensures Parse(d, [Op(op)] + Yield(d, x)) == Parsed(Unary(node, x), [])
      <==> (op == node && op in {Plus, Minus}) || (node == Tilde && op == if d.Go? then Xor else Tilde)
  {
    ParseExact(d, [Op(op)] + Yield(d, x), Unary(node, x));
    assert ([Op(op)] + Yield(d, x))[0] == Op(op);
    if [Op(op)] + Yield(d, x) == Yield(d, Unary(node, x)) {
      assert Yield(d, Unary(node, x))[0] == Op(op);
    }
  }

  // Parentheses are kept as such.
  lemma ParenthesesAreKept(d: Dialect, e: Expression)
    requires WellNested(d, e)
    ensures Parse(d, [LParen] + Yield(d, e) + [RParen]) == Parsed(Parenthesized(e), [])
  {
    ParseExact(d, [LParen] + Yield(d, e) + [RParen], Parenthesized(e));
  }

  // What is refused, and why: no operand, a parenthesis left open, something behind the end.
  lemma RefusalsNamed(d: Dialect, x: string, y: string)
    ensures Parse(d, []) == Failed(ExpectedOperand)
    ensures Parse(d, [RParen]) == Failed(ExpectedOperand)
    ensures Parse(d, [Op(Mul), Operand(x)]) == Failed(ExpectedOperand)
    ensures Parse(d, [Operand(x), Op(Plus)]) == Failed(ExpectedOperand)
    ensures Parse(d, [LParen, Operand(x)]) == Failed(UnmatchedParenthesis)
    ensures Parse(d, [Operand(x), Operand(y)]) == Failed(UnexpectedToken)
  {
    OperandAlone(d, x, []);
    OperandAlone(d, x, [Operand(y)]);
    var open := [LParen, Operand(x)];
    assert open[1..] == [Operand(x)] + [];
    assert ParseUnary(d, open) == Failed(UnmatchedParenthesis);
    assert ParseBinary(d, open, 1) == Failed(UnmatchedParenthesis);
    assert [Operand(x), Operand(y)] == [Operand(x)] + [Operand(y)];
    assert ParseUnary(d, [RParen]) == Failed(ExpectedOperand);
    assert ParseUnary(d, []) == Failed(ExpectedOperand);
    assert ParseUnary(d, [Op(Mul), Operand(x)]) == Failed(ExpectedOperand);
    var started := [Operand(x), Op(Plus)];
    assert started[1..] == [Op(Plus)] && [Op(Plus)][1..] == [];
    assert ParseUnary(d, started) == Parsed(Atom(x), [Op(Plus)]);
    assert ParseBinary(d, [], Precedence(d, Plus) + 1) == Failed(ExpectedOperand);
    assert Climb(d, Atom(x), [Op(Plus)], 1) == Failed(ExpectedOperand);
  }

  lemma OperandAlone(d: Dialect, x: string, rest: seq<Token>)
    requires HeadPrecedence(d, rest) == 0
    ensures ParseBinary(d, [Operand(x)] + rest, 1) == Parsed(Atom(x), rest)
  {
    var ts := [Operand(x)] + rest;
    assert ts[1..] == rest;
    assert ParseUnary(d, ts) == Parsed(Atom(x), rest);
    assert Climb(d, Atom(x), rest, 1) == Parsed(Atom(x), rest);
  }

  // ---------------------------------------------------------------- no needless parentheses

  // The tree in TypeScript's operators, with no parentheses but its own.
  function Rewritten(e: Expression): Expression {
    match e
    case Atom(_) => e
    case Parenthesized(inner) => Parenthesized(Rewritten(inner))
    case Unary(op, operand) => Unary(op, Rewritten(operand))
    case Binary(op, left, right) =>
      if op == AndNot then Binary(And, Rewritten(left), Unary(Tilde, Rewritten(right)))
      else Binary(op, Rewritten(left), Rewritten(right))
  }

  // As many tokens as the other tree, which is the same if no more.
  predicate AtLeast(printed: Expression, own: Expression) {
    |Yield(TypeScript, own)| <= |Yield(TypeScript, printed)|
    && (|Yield(TypeScript, own)| == |Yield(TypeScript, printed)| ==> printed == own)
  }

  // The printed tree is that tree, or has more parentheses.
  lemma {:induction false} OnlyParenthesesAdded(e: Expression, min: nat)
    ensures AtLeast(PrintedTree(e, min), Rewritten(e))
    decreases e
  {
    match e
    case Atom(_) =>
    case Parenthesized(inner) => OnlyParenthesesAdded(inner, 0);
    case Unary(op, operand) => OnlyParenthesesAdded(operand, UNARY_LEVEL);
    case Binary(source, left, right) =>
      var precedence := Precedence(TypeScript, PrintedOperator(source));
      OnlyParenthesesAdded(left, precedence);
      if source == AndNot {
        OnlyParenthesesAdded(right, UNARY_LEVEL);
        MoreInEither(And, PrintedTree(left, precedence), Rewritten(left),
          Unary(Tilde, PrintedTree(right, UNARY_LEVEL)), Unary(Tilde, Rewritten(right)));
      } else {
        OnlyParenthesesAdded(right, precedence + 1);
        MoreInEither(source, PrintedTree(left, precedence), Rewritten(left), PrintedTree(right, precedence + 1), Rewritten(right));
      }
  }

  lemma MoreInEither(op: Operator, left: Expression, ownLeft: Expression, right: Expression, ownRight: Expression)
    requires AtLeast(left, ownLeft) && AtLeast(right, ownRight)
    ensures AtLeast(Binary(op, left, right), Binary(op, ownLeft, ownRight))
    ensures |Yield(TypeScript, Binary(op, ownLeft, ownRight))| < |Yield(TypeScript, Parenthesized(Binary(op, left, right)))|
  {
  }

  lemma {:induction false} NestedIsPrintedAsIs(e: Expression, min: nat)
    requires WellNested(TypeScript, Rewritten(e)) && min <= Level(TypeScript, Rewritten(e))
    ensures PrintedTree(e, min) == Rewritten(e)
    decreases e
  {
    match e
    case Atom(_) =>
    case Parenthesized(inner) => NestedIsPrintedAsIs(inner, 0);
    case Unary(op, operand) => NestedIsPrintedAsIs(operand, UNARY_LEVEL);
    case Binary(source, left, right) =>
      var precedence := Precedence(TypeScript, PrintedOperator(source));
      NestedIsPrintedAsIs(left, precedence);
      NestedIsPrintedAsIs(right, if source.AndNot? then UNARY_LEVEL else precedence + 1);
  }

  // The printer adds parentheses exactly when the expression copied without any would not read
  // back as itself.
  lemma {:induction false} ParenthesesOnlyWhereNeeded(ts: seq<Token>)
    requires Translate(ts).Emitted?
    ensures var own := Rewritten(Parse(Go, ts).tree);
      Tokens(Translate(ts).pieces) == Yield(TypeScript, own)
      <==> Parse(TypeScript, Yield(TypeScript, own)) == Parsed(own, [])
  {
    var tree := Parse(Go, ts).tree;
    var own := Rewritten(tree);
    ParseExact(Go, ts, tree);
    PrintedTreeDenotes(tree, 0);
    ParseExact(TypeScript, Yield(TypeScript, own), own);
    OnlyParenthesesAdded(tree, 0);
    if WellNested(TypeScript, own) {
      NestedIsPrintedAsIs(tree, 0);
    }
  }

  // An operand loses the enum's prefix and nothing else.
  lemma PrefixIsStripped(prefix: string, name: string, other: string)
    requires !(prefix <= other)
    ensures StripPrefix(prefix, prefix + name) == name && StripPrefix(prefix, other) == other
  {
  }
}
