// The parser of grammar.c: one method per production, each reading the shared
// Tokenizer object and leaving it where the production stopped. Every method is
// proved to build the tree and to stop at the cursor that the grammar function of
// the same name (module GrammarSpec, dialect Current) computes.
module Grammar {
  import opened Wrappers
  import opened Nodes
  import opened Tokenizer
  import G = GrammarSpec

  /** The method returned the tree of r and left the tokenizer at r's cursor. */
  ghost predicate Agrees(tok: Tokenizer, tree: Option<Node>, r: G.Parsed)
    reads tok
  {
    tok.Valid() && tree == r.tree && tok.State() == r.cur
  }

  /** Two grammar results with the same tree and the same end cursor. */
  ghost predicate SameResult(a: G.Parsed, b: G.Parsed)
  {
    a.tree == b.tree && a.cur == b.cur
  }

  /** CURRENT_TOKEN */
  function CurrentToken(tok: Tokenizer): (ch: char)
    reads tok
    ensures ch == tok.State().Current()
  {
    if tok.cursor < |tok.text| then tok.text[tok.cursor] else '\0'
  }

  /** T -> S { '?' S ':' S } */
  method T(tok: Tokenizer) returns (tree: Option<Node>)
    requires tok.Valid()
    modifies tok
    ensures Agrees(tok, tree, G.T(G.Current, old(tok.State())))
    decreases |tok.text| - tok.cursor, 20
  {
    var condition := S(tok);
    if condition.None? {
      return None;
    }
    var acc := condition.value;
    ghost var goal := G.TLoop(G.Current, acc, tok.State());
    while CurrentToken(tok) == '?'
      invariant tok.Valid() && tok.text == old(tok.text) && old(tok.cursor) <= tok.cursor
      invariant WellFormed(acc)
      invariant SameResult(G.TLoop(G.Current, acc, tok.State()), goal)
      decreases |tok.text| - tok.cursor
    {
      tok.Next();
      var whenTrue := S(tok);
      if whenTrue.None? {
        return None;
      }
      if CurrentToken(tok) != ':' {
        return None;
      }
      tok.Next();
      var whenFalse := S(tok);
      if whenFalse.None? {
        return None;
      }
      acc := Conditional(acc, whenTrue.value, whenFalse.value);
    }
    return Some(acc);
  }

  /** S -> P { ('+' | '-') P } */
  method S(tok: Tokenizer) returns (tree: Option<Node>)
    requires tok.Valid()
    modifies tok
    ensures Agrees(tok, tree, G.S(G.Current, old(tok.State())))
    decreases |tok.text| - tok.cursor, 18
  {
    var first := P(tok);
    if first.None? {
      return None;
    }
    var subtree := first.value;
    ghost var goal := G.SLoop(G.Current, subtree, tok.State());
    while CurrentToken(tok) == '+' || CurrentToken(tok) == '-'
      invariant tok.Valid() && tok.text == old(tok.text) && old(tok.cursor) <= tok.cursor
      invariant WellFormed(subtree)
      invariant SameResult(G.SLoop(G.Current, subtree, tok.State()), goal)
      decreases |tok.text| - tok.cursor
    {
      var op := OpOfChar(CurrentToken(tok));
      tok.Next();
      var right := P(tok);
      if right.None? {
        return None;
      }
      subtree := Operator(op, subtree, right.value);
    }
    return Some(subtree);
  }

  /** P -> O { Var } { ('*' | '/') O } */
  method P(tok: Tokenizer) returns (tree: Option<Node>)
    requires tok.Valid()
    modifies tok
    ensures Agrees(tok, tree, G.P(G.Current, old(tok.State())))
    decreases |tok.text| - tok.cursor, 16
  {
    var first := O(tok);
    if first.None? {
      return None;
    }
    var subtree := first.value;
    ghost var goal := G.Juxtaposed(G.Current, subtree, tok.State());
    while IsLower(CurrentToken(tok))
      invariant tok.Valid() && tok.text == old(tok.text) && old(tok.cursor) <= tok.cursor
      invariant WellFormed(subtree)
      invariant SameResult(G.Juxtaposed(G.Current, subtree, tok.State()), goal)
      decreases |tok.text| - tok.cursor
    {
      JuxtaposedStep(subtree, tok.State());
      var power := Var(tok);
      subtree := Operator(Multiply, subtree, power.value);
    }
    assert G.Juxtaposed(G.Current, subtree, tok.State()) == G.PLoop(G.Current, subtree, tok.State());
    while CurrentToken(tok) == '*' || CurrentToken(tok) == '/'
      invariant tok.Valid() && tok.text == old(tok.text) && old(tok.cursor) <= tok.cursor
      invariant WellFormed(subtree)
      invariant SameResult(G.PLoop(G.Current, subtree, tok.State()), goal)
      decreases |tok.text| - tok.cursor
    {
      PLoopStep(subtree, tok.State());
      var op := OpOfChar(CurrentToken(tok));
      tok.Next();
      var right := O(tok);
      if right.None? {
        return None;
      }
      subtree := Operator(op, subtree, right.value);
    }
    return Some(subtree);
  }

  /** One '*' or '/' more in the loop of P: it fails where O fails. */
  lemma PLoopStep(acc: Node, c: Cursor)
    requires c.Valid() && WellFormed(acc) && (c.Current() == '*' || c.Current() == '/')
    ensures var o := G.O(G.Current, G.Step(G.Current, c));
      var r := G.PLoop(G.Current, acc, c);
      (o.tree.None? ==> r.tree.None? && r.cur == o.cur)
      && (o.tree.Some? ==>
            var next := Operator(OpOfChar(c.Current()), acc, o.tree.value);
            WellFormed(next) && SameResult(r, G.PLoop(G.Current, next, o.cur)))
  {
  }

  /** One variable more in the juxtaposition loop of P. */
  lemma JuxtaposedStep(acc: Node, c: Cursor)
    requires c.Valid() && WellFormed(acc) && IsLower(c.Current())
    ensures var v := G.Var(G.Current, c);
      v.tree.Some? && WellFormed(Operator(Multiply, acc, v.tree.value))
      && SameResult(G.Juxtaposed(G.Current, acc, c),
                    G.Juxtaposed(G.Current, Operator(Multiply, acc, v.tree.value), v.cur))
  {
  }

  /** O -> K { '^' K } */
  method O(tok: Tokenizer) returns (tree: Option<Node>)
    requires tok.Valid()
    modifies tok
    ensures Agrees(tok, tree, G.O(G.Current, old(tok.State())))
    decreases |tok.text| - tok.cursor, 13
  {
    var first := K(tok);
    if first.None? {
      return None;
    }
    var subtree := first.value;
    ghost var goal := G.OLoop(G.Current, subtree, tok.State());
    while CurrentToken(tok) == '^'
      invariant tok.Valid() && tok.text == old(tok.text) && old(tok.cursor) <= tok.cursor
      invariant WellFormed(subtree)
      invariant SameResult(G.OLoop(G.Current, subtree, tok.State()), goal)
      decreases |tok.text| - tok.cursor
    {
      tok.Next();
      var right := K(tok);
      if right.None? {
        return None;
      }
      subtree := Operator(Power, subtree, right.value);
    }
    return Some(subtree);
  }

  /** K -> '-' K | '(' T ')' | Num | Var */
  method K(tok: Tokenizer) returns (tree: Option<Node>)
    requires tok.Valid()
    modifies tok
    ensures Agrees(tok, tree, G.K(G.Current, old(tok.State())))
    decreases |tok.text| - tok.cursor, 11
  {
    var ch := CurrentToken(tok);
    if ch == '-' {
      tok.Next();
      var operand := K(tok);
      if operand.None? {
        return None;
      }
      return Some(Operator(Multiply, Number(-1.0), operand.value));
    }
    if ch == '(' {
      tok.Next();
      var inner := T(tok);
      if inner.None? {
        return None;
      }
      if CurrentToken(tok) == ')' {
        tok.Next();
        return inner;
      }
      return None;
    }
    if IsDigit(ch) {
      tree := Num(tok);
      return;
    }
    if IsLower(ch) {
      tree := Var(tok);
      return;
    }
    return None;
  }

  /** Num -> N [ 'E' ['-'] Z ] */
  method Num(tok: Tokenizer) returns (tree: Option<Node>)
    requires tok.Valid()
    modifies tok
    ensures Agrees(tok, tree, G.Num(G.Current, old(tok.State())))
    decreases |tok.text| - tok.cursor, 10
  {
    var mantissa := N(tok);
    if mantissa.None? || CurrentToken(tok) != 'E' {
      return mantissa;
    }
    tok.Next();
    if CurrentToken(tok) == '-' {
      tok.Next();
      var exponent := Z(tok);
      if exponent.None? {
        return None;
      }
      return Some(Operator(ESymbol, mantissa.value, Operator(Multiply, Number(-1.0), exponent.value)));
    }
    var exponent := Z(tok);
    if exponent.None? {
      return None;
    }
    return Some(Operator(ESymbol, mantissa.value, exponent.value));
  }

  /** N -> Z [ ('.' | ',') digits ] */
  method N(tok: Tokenizer) returns (tree: Option<Node>)
    requires tok.Valid()
    modifies tok
    ensures Agrees(tok, tree, G.N(G.Current, old(tok.State())))
    decreases |tok.text| - tok.cursor, 9
  {
    var whole := Z(tok);
    if whole.None? || (CurrentToken(tok) != '.' && CurrentToken(tok) != ',') {
      return whole;
    }
    tok.Next();
    var nr := whole.value.value;
    var digits := 0;
    ghost var goal := G.Fraction(G.Current, tok.State(), nr, 0);
    while IsDigit(CurrentToken(tok))
      invariant tok.Valid() && tok.text == old(tok.text)
      invariant G.Fraction(G.Current, tok.State(), nr, digits) == goal
      decreases |tok.text| - tok.cursor
    {
      ghost var before := tok.State();
      var next := nr + G.DigitValue(CurrentToken(tok)) / G.Pow10(digits + 1);
      FractionStep(before, nr, digits, next);
      digits := digits + 1;
      nr := next;
      tok.Next();
    }
    return Some(Number(nr));
  }

  /** One digit more in the fraction loop of N. */
  lemma FractionStep(c: Cursor, nr: real, digits: nat, next: real)
    requires c.Valid() && IsDigit(c.Current())
    requires next == nr + G.DigitValue(c.Current()) / G.Pow10(digits + 1)
    ensures G.Fraction(G.Current, c, nr, digits) == G.Fraction(G.Current, Advance(c), next, digits + 1)
  {
  }

  /** Z -> digit { digit } */
  method Z(tok: Tokenizer) returns (tree: Option<Node>)
    requires tok.Valid()
    modifies tok
    ensures Agrees(tok, tree, G.Z(G.Current, old(tok.State())))
    decreases |tok.text| - tok.cursor, 5
  {
    var digits := 0;
    var number := 0.0;
    while IsDigit(CurrentToken(tok))
      invariant tok.Valid() && tok.text == old(tok.text)
      invariant digits == 0 ==> tok.State() == old(tok.State()) && number == 0.0
      invariant digits != 0 ==> IsDigit(old(tok.State()).Current())
      invariant G.DigitRun(G.Current, tok.State(), number) == G.DigitRun(G.Current, old(tok.State()), 0.0)
      decreases |tok.text| - tok.cursor
    {
      var next := number * 10.0 + G.DigitValue(CurrentToken(tok));
      DigitStep(tok.State(), number, next);
      digits := 1;
      number := next;
      tok.Next();
    }
    if digits == 0 {
      return None;
    }
    return Some(Number(number));
  }

  /** One digit more in the loop of Z. */
  lemma DigitStep(c: Cursor, number: real, next: real)
    requires c.Valid() && IsDigit(c.Current())
    requires next == number * 10.0 + G.DigitValue(c.Current())
    ensures G.DigitRun(G.Current, c, number) == G.DigitRun(G.Current, Advance(c), next)
  {
  }

  /** Var -> B [ Z ] */
  method Var(tok: Tokenizer) returns (tree: Option<Node>)
    requires tok.Valid()
    modifies tok
    ensures Agrees(tok, tree, G.Var(G.Current, old(tok.State())))
    decreases |tok.text| - tok.cursor, 7
  {
    var base := B(tok);
    if base.None? {
      return None;
    }
    if IsDigit(CurrentToken(tok)) {
      var exponent := Z(tok);
      return Some(Operator(Power, base.value, exponent.value));
    }
    return base;
  }

  /** B -> 'a' .. 'z' */
  method B(tok: Tokenizer) returns (tree: Option<Node>)
    requires tok.Valid()
    modifies tok
    ensures Agrees(tok, tree, G.B(G.Current, old(tok.State())))
    decreases |tok.text| - tok.cursor, 6
  {
    var ch := CurrentToken(tok);
    if !IsLower(ch) {
      return None;
    }
    tok.Next();
    return Some(Variable(ch));
  }

  /**
   * parse: runs T on a fresh tokenizer and reports what T left. The outcome is the
   * one the function GrammarSpec.Parse describes.
   */
  method Parse(s: string) returns (outcome: G.Outcome)
    ensures outcome == G.Parse(s).outcome
  {
    var tok := new Tokenizer(s);
    var root := T(tok);
    var position := tok.position;
    var c := CurrentToken(tok);
    if root.None? {
      if c == '\0' {
        return G.UnexpectedEnd;
      }
      return G.SyntaxError(position, c);
    }
    if c != '\0' {
      return G.ExpectingEnd(position, c);
    }
    return G.Tree(root.value);
  }
}
