// The expression tree of the formula evaluator (node.h, node.c): node kinds,
// operator codes and their characters, leaf comparison, the serialisation
// used to compare whole trees, and the parent search.
module Nodes {
  import opened Wrappers

  /** The six binary operators, in the order of their codes ADD (4) .. E_SYMBOL (9). */
  datatype Op = Add | Minus | Multiply | Divide | Power | ESymbol

  /** A tree node. Links to children become owned sub-values. */
  datatype Node =
    | Number(value: real)
    | Variable(name: char)
    | Operator(op: Op, left: Node, right: Node)
    | Conditional(condition: Node, whenTrue: Node, whenFalse: Node)

  // node kinds
  const OPERATOR := 0
  const NUMBER := 1
  const VARIABLE := 2
  const CONDITIONAL := 3

  // operator codes
  const ADD := 4
  const MINUS := 5
  const MULTIPLY := 6
  const DIVIDE := 7
  const POWER := 8
  const E_SYMBOL := 9
  const ERROR := 10

  /** The operator characters; the character of code k sits at index k - ADD. */
  const OperatorChars := "+-*/^E"

  predicate IsDigit(c: char) { '0' <= c <= '9' }

  predicate IsLower(c: char) { 'a' <= c <= 'z' }

  function Kind(n: Node): int
  {
    match n
    case Operator(_, _, _) => OPERATOR
    case Number(_) => NUMBER
    case Variable(_) => VARIABLE
    case Conditional(_, _, _) => CONDITIONAL
  }

  function Code(o: Op): (code: int)
    ensures ADD <= code <= E_SYMBOL
    ensures OperatorChars[code - ADD] == OpChar(o)
  {
    match o
    case Add => ADD
    case Minus => MINUS
    case Multiply => MULTIPLY
    case Divide => DIVIDE
    case Power => POWER
    case ESymbol => E_SYMBOL
  }

  /** The character a parsed operator was written with. */
  function OpChar(o: Op): char
  {
    match o
    case Add => '+'
    case Minus => '-'
    case Multiply => '*'
    case Divide => '/'
    case Power => '^'
    case ESymbol => 'E'
  }

  /** otoa: the character of an operator code, '#' for anything else. */
  function Otoa(code: int): (c: char)
    ensures ADD <= code <= E_SYMBOL ==> c == OperatorChars[code - ADD]
    ensures !(ADD <= code <= E_SYMBOL) ==> c == '#'
  {
    if code == ADD then '+'
    else if code == MINUS then '-'
    else if code == MULTIPLY then '*'
    else if code == DIVIDE then '/'
    else if code == POWER then '^'
    else if code == E_SYMBOL then 'E'
    else '#'
  }

  /** atoo: the code of an operator character, ERROR for anything else. */
  function Atoo(c: char): (code: int)
    ensures c in OperatorChars ==> ADD <= code <= E_SYMBOL && OperatorChars[code - ADD] == c
    ensures c !in OperatorChars ==> code == ERROR
  {
    match c
    case '+' => ADD
    case '-' => MINUS
    case '*' => MULTIPLY
    case '/' => DIVIDE
    case '^' => POWER
    case 'E' => E_SYMBOL
    case _ => ERROR
  }

  /** The operator that new_operator_node stores for an operator character. */
  function OpOfChar(c: char): (o: Op)
    requires c in OperatorChars
    ensures Code(o) == Atoo(c) && OpChar(o) == c
  {
    match c
    case '+' => Add
    case '-' => Minus
    case '*' => Multiply
    case '/' => Divide
    case '^' => Power
    case 'E' => ESymbol
  }

  /** otoa and atoo are inverse on the six operators. */
  lemma OperatorCodesRoundTrip(o: Op)
    ensures Otoa(Code(o)) == OpChar(o) && Atoo(OpChar(o)) == Code(o)
  {
  }

  /** Number of nodes; delete_tree releases exactly this many. */
  function Size(n: Node): (s: nat)
    ensures s >= 1
    ensures s == 1 <==> n.Number? || n.Variable?
  {
    match n
    case Number(_) => 1
    case Variable(_) => 1
    case Operator(_, l, r) => 1 + Size(l) + Size(r)
    case Conditional(c, t, f) => 1 + Size(c) + Size(t) + Size(f)
  }

  /** The children of a node, in the order the source visits them. */
  function Children(n: Node): seq<Node>
  {
    match n
    case Operator(_, l, r) => [l, r]
    case Conditional(c, t, f) => [c, t, f]
    case _ => []
  }

  /** Every variable is a lower-case letter and every E literal has the shape Num builds. */
  predicate WellFormed(n: Node)
  {
    match n
    case Number(_) => true
    case Variable(x) => IsLower(x)
    case Operator(o, l, r) =>
      WellFormed(l) && WellFormed(r) && (o == ESymbol ==> l.Number? && Exponent(r))
    case Conditional(c, t, f) => WellFormed(c) && WellFormed(t) && WellFormed(f)
  }

  /** The exponent of a scientific literal: a number or -1 times a number. */
  predicate Exponent(n: Node)
  {
    n.Number? || (n.Operator? && n.op == Multiply && n.left == Number(-1.0) && n.right.Number?)
  }

  /** cmp_nodes: two nodes are the same leaf. */
  predicate SameLeaf(a: Node, b: Node)
    ensures SameLeaf(a, b) <==> a == b && (a.Number? || a.Variable?)
  {
    match (a, b)
    case (Number(x), Number(y)) => x == y
    case (Variable(x), Variable(y)) => x == y
    case _ => false
  }

  // ---------------------------------------------------------------- serialisation

  /** A symbol of a serialised formula; a number is one symbol (its decimal rendering). */
  datatype Symbol = Char(c: char) | Num(value: real)

  /** get_formula: the infix rendering of a tree; a conditional renders as (c)?(t):(f). */
  function Formula(n: Node): seq<Symbol>
    decreases n, 0
  {
    match n
    case Number(v) => [Num(v)]
    case Variable(x) => [Char(x)]
    case Operator(o, l, r) => OperandText(o, l) + [Char(Otoa(Code(o)))] + OperandText(o, r)
    case Conditional(c, t, f) =>
      Paren(Formula(c)) + [Char('?')] + Paren(Formula(t)) + [Char(':')] + Paren(Formula(f))
  }

  function Paren(s: seq<Symbol>): seq<Symbol>
  {
    [Char('(')] + s + [Char(')')]
  }

  /** A child of operator o is parenthesised only when it is an operator with another code. */
  function OperandText(o: Op, child: Node): seq<Symbol>
    decreases child, 1
  {
    if child.Operator? && child.op != o then Paren(Formula(child))
    else Formula(child)
  }

  /** cmp_trees: two trees have the same serialisation. */
  predicate SameTree(a: Node, b: Node)
  {
    Formula(a) == Formula(b)
  }

  /** The leaves of a tree, left to right, as symbols. */
  function LeafSymbols(n: Node): seq<Symbol>
  {
    match n
    case Number(v) => [Num(v)]
    case Variable(x) => [Char(x)]
    case Operator(_, l, r) => LeafSymbols(l) + LeafSymbols(r)
    case Conditional(c, t, f) => LeafSymbols(c) + LeafSymbols(t) + LeafSymbols(f)
  }

  predicate IsLeafSymbol(s: Symbol)
  {
    s.Num? || IsLower(s.c)
  }

  /** The numbers and variable names of a serialisation, in order. */
  function KeepLeaves(s: seq<Symbol>): (r: seq<Symbol>)
    ensures |r| <= |s|
    ensures forall i :: 0 <= i < |r| ==> IsLeafSymbol(r[i])
  {
    if s == [] then []
    else (if IsLeafSymbol(s[0]) then [s[0]] else []) + KeepLeaves(s[1..])
  }

  lemma {:induction false} KeepLeavesAppend(a: seq<Symbol>, b: seq<Symbol>)
    ensures KeepLeaves(a + b) == KeepLeaves(a) + KeepLeaves(b)
    decreases |a|
  {
    if a == [] {
      assert a + b == b;
    } else {
      assert (a + b)[1..] == a[1..] + b;
      KeepLeavesAppend(a[1..], b);
    }
  }

  lemma KeepLeavesParen(s: seq<Symbol>)
    ensures KeepLeaves(Paren(s)) == KeepLeaves(s)
  {
    KeepLeavesAppend([Char('(')], s);
    assert KeepLeaves([Char('(')]) == [] by {
      assert [Char('(')][1..] == [];
    }
    KeepLeavesPunctuation([Char('(')] + s, ')');
  }

  /** The serialisation loses no operand: its numbers and variables are the tree's leaves, in order. */
  lemma {:induction false} FormulaKeepsLeaves(n: Node)
    requires WellFormed(n)
    ensures KeepLeaves(Formula(n)) == LeafSymbols(n)
    decreases n, 0
  {
    match n
    case Number(_) =>
    case Variable(_) =>
    case Operator(o, l, r) =>
      OperandKeepsLeaves(o, l);
      OperandKeepsLeaves(o, r);
      KeepLeavesAppend(OperandText(o, l), [Char(Otoa(Code(o)))]);
      KeepLeavesAppend(OperandText(o, l) + [Char(Otoa(Code(o)))], OperandText(o, r));
    case Conditional(c, t, f) =>
      FormulaKeepsLeaves(c);
      FormulaKeepsLeaves(t);
      FormulaKeepsLeaves(f);
      ConditionalKeepsLeaves(Formula(c), Formula(t), Formula(f));
  }

  lemma KeepLeavesPunctuation(s: seq<Symbol>, x: char)
    requires !IsLower(x)
    ensures KeepLeaves(s + [Char(x)]) == KeepLeaves(s)
  {
    KeepLeavesAppend(s, [Char(x)]);
    assert KeepLeaves([Char(x)]) == [] by {
      assert [Char(x)][1..] == [];
    }
  }

  lemma ConditionalKeepsLeaves(c: seq<Symbol>, t: seq<Symbol>, f: seq<Symbol>)
    ensures KeepLeaves(Paren(c) + [Char('?')] + Paren(t) + [Char(':')] + Paren(f))
         == KeepLeaves(c) + KeepLeaves(t) + KeepLeaves(f)
  {
    var pc, pt, pf := Paren(c), Paren(t), Paren(f);
    var s1 := pc + [Char('?')];
    var s2 := s1 + pt;
    var s3 := s2 + [Char(':')];
    KeepLeavesParen(c);
    KeepLeavesParen(t);
    KeepLeavesParen(f);
    KeepLeavesPunctuation(pc, '?');
    assert KeepLeaves(s1) == KeepLeaves(c);
    KeepLeavesAppend(s1, pt);
    assert KeepLeaves(s2) == KeepLeaves(c) + KeepLeaves(t);
    KeepLeavesPunctuation(s2, ':');
    KeepLeavesAppend(s3, pf);
  }

  lemma {:induction false} OperandKeepsLeaves(o: Op, child: Node)
    requires WellFormed(child)
    ensures KeepLeaves(OperandText(o, child)) == LeafSymbols(child)
    decreases child, 1
  {
    FormulaKeepsLeaves(child);
    if child.Operator? && child.op != o {
      KeepLeavesParen(Formula(child));
    }
  }

  /** Trees that cmp_trees calls equal have the same leaves in the same order. */
  lemma SameTreeSameLeaves(a: Node, b: Node)
    requires WellFormed(a) && WellFormed(b) && SameTree(a, b)
    ensures LeafSymbols(a) == LeafSymbols(b)
  {
    FormulaKeepsLeaves(a);
    FormulaKeepsLeaves(b);
  }

  /** Equal leaves are equal trees for cmp_trees as well. */
  lemma SameLeafIsSameTree(a: Node, b: Node)
    requires SameLeaf(a, b)
    ensures SameTree(a, b)
  {
  }

  /**
   * The serialisation does not parenthesise a child with the parent's own code, so
   * a-(b-c) and (a-b)-c, which differ, compare equal.
   */
  lemma SerialisationIgnoresGrouping(a: Node, b: Node, c: Node)
    ensures var x, y := Operator(Minus, a, Operator(Minus, b, c)), Operator(Minus, Operator(Minus, a, b), c);
      SameTree(x, y) && x != y
  {
    var x, y := Operator(Minus, a, Operator(Minus, b, c)), Operator(Minus, Operator(Minus, a, b), c);
    var m := [Char('-')];
    var ta, tb, tc := OperandText(Minus, a), OperandText(Minus, b), OperandText(Minus, c);
    assert Otoa(Code(Minus)) == '-';
    assert OperandText(Minus, Operator(Minus, b, c)) == tb + m + tc;
    assert OperandText(Minus, Operator(Minus, a, b)) == ta + m + tb;
    assert Formula(x) == ta + m + (tb + m + tc);
    assert Formula(y) == (ta + m + tb) + m + tc;
  }

  // ---------------------------------------------------------------- parent search

  /** A node address: the child indexes followed from the root. */
  type Path = seq<nat>

  /** The node at a path, if the path leads anywhere. */
  function Subtree(n: Node, p: Path): Option<Node>
    decreases |p|
  {
    if p == [] then Some(n)
    else if p[0] < |Children(n)| then Subtree(Children(n)[p[0]], p[1..])
    else None
  }

  function Under(i: nat, r: Option<Path>): Option<Path>
  {
    if r.Some? then Some([i] + r.value) else None
  }

  /**
   * get_parent: searches the children first, then compares the children with the target.
   * A node is identified by its address, so the target is a path.
   */
  function GetParent(n: Node, target: Path): (r: Option<Path>)
    ensures r.Some? <==> |target| > 0 && Subtree(n, target).Some?
    ensures r.Some? ==> r.value == target[..|target| - 1]
    decreases |target|
  {
    if n.Number? || n.Variable? then None
    else
      var kids := Children(n);
      var deeper := if |target| > 1 && target[0] < |kids| then Under(target[0], GetParent(kids[target[0]], target[1..])) else None;
      if deeper.Some? then deeper
      else if |target| == 1 && target[0] < |kids| then Some([])
      else None
  }
}
