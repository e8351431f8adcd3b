// What the older, single-file parser (formelparser.c) does differently from the
// current pipeline. Its productions are those of module GrammarSpec run with the
// dialect Legacy over the string.c cursor (module Strings); its evaluator and the
// rest of its reduce are the ones of formula.c.
module FormelParser {
  import opened Wrappers
  import opened Nodes
  import opened Tokenizer
  import Strings
  import G = GrammarSpec
  import Formula
  import Reduce

  // ---------------------------------------------------------------- characters

  /** isvariable */
  predicate IsVariable(c: char)
  {
    'a' <= c <= 'z'
  }

  /** isoperator: atoo knows the character. */
  predicate IsOperator(c: char)
  {
    Atoo(c) != ERROR
  }

  /** A character is a variable exactly when production B accepts it. */
  lemma IsVariableIsB(d: G.Dialect, c: Cursor)
    requires c.Valid()
    ensures IsVariable(c.Current()) <==> G.B(d, c).tree.Some?
  {
  }

  /**
   * The operators are the six characters + - * / ^ E, and each one is the character
   * of the operator code atoo gives it.
   */
  lemma IsOperatorChars(c: char)
    ensures IsOperator(c) <==> c in OperatorChars
    ensures IsOperator(c) ==> Otoa(Atoo(c)) == c && OpChar(OpOfChar(c)) == c
  {
  }

  // ---------------------------------------------------------------- count_numerics

  /** The number of decimal digits of n; none when n is not positive. */
  function Numerics(n: int): (k: nat)
    ensures k == 0 <==> n <= 0
    decreases n
  {
    if n <= 0 then 0 else 1 + Numerics(n / 10)
  }

  function Power10(k: nat): (p: nat)
    ensures p >= 1
  {
    if k == 0 then 1 else 10 * Power10(k - 1)
  }

  /** A positive n has k digits exactly when 10^(k-1) <= n < 10^k. */
  lemma {:induction false} NumericsBounds(n: int)
    requires n > 0
    ensures Power10(Numerics(n) - 1) <= n < Power10(Numerics(n))
    decreases n
  {
    var k := Numerics(n);
    if n < 10 {
      assert n / 10 == 0;
      assert k == 1;
    } else {
      var q := n / 10;
      NumericsBounds(q);
      var j := Numerics(q);
      assert k == j + 1;
      assert Power10(k) == 10 * Power10(j);
      assert Power10(k - 1) == Power10(j);
      if j >= 1 {
        assert Power10(j) == 10 * Power10(j - 1);
      }
      assert 10 * q <= n < 10 * q + 10;
    }
  }

  /** count_numerics: divides by 10 until nothing is left, counting the steps. */
  method CountNumerics(number: int) returns (count: nat)
    ensures count == Numerics(number)
  {
    var n := number;
    count := 0;
    while n > 0
      invariant count + Numerics(n) == Numerics(number)
      decreases n
    {
      n := n / 10;
      count := count + 1;
    }
  }

  // ---------------------------------------------------------------- create_parse_tree

  /**
   * create_parse_tree over a cursor on text whose counter is i. The cursor goes back
   * to the first character (the counter is left as it is) and T runs. Input left
   * over is a syntax error at the counter and the tree is released; a T that fails
   * at the end of the text is "syntax error at end of term". Unlike parse, there is
   * no "unexpected end" and no "expecting end".
   */
  function ParseTree(text: string, i: int): (r: G.Run)
    requires '\0' !in text
    ensures var t := G.T(G.Legacy, Cursor(text, 0, i));
      && (r.outcome.Tree? <==> t.tree.Some? && t.cur.AtEnd())
      && (r.outcome.Tree? ==> r.outcome.root == t.tree.value && WellFormed(r.outcome.root))
      && (r.outcome.EndOfTerm? <==> t.tree.None? && t.cur.AtEnd())
      && (r.outcome.SyntaxError? <==> !t.cur.AtEnd())
      && (r.outcome.SyntaxError? ==> r.outcome.position == t.cur.position && r.outcome.near == t.cur.Current())
      && !r.outcome.UnexpectedEnd? && !r.outcome.ExpectingEnd?
      && r.allocs == t.allocs
  {
    var t := G.T(G.Legacy, Cursor(text, 0, i));
    var c := t.cur;
    if c.Current() != '\0' then
      G.Run(G.SyntaxError(c.position, c.Current()), t.allocs, t.frees + G.TreeSize(t.tree))
    else if t.tree.None? then G.Run(G.EndOfTerm, t.allocs, t.frees)
    else G.Run(G.Tree(t.tree.value), t.allocs, t.frees)
  }

  /**
   * create_parse_tree on the String object: where its cursor stood before makes no
   * difference, and afterwards it stands where T stopped.
   */
  method CreateParseTree(tokens: Strings.String) returns (outcome: G.Outcome)
    requires tokens.Valid()
    modifies tokens
    ensures tokens.Valid() && tokens.str == old(tokens.str)
    ensures tokens.State() == G.T(G.Legacy, Cursor(old(tokens.str), 0, old(tokens.i))).cur
    ensures outcome == ParseTree(old(tokens.str), old(tokens.i)).outcome
  {
    tokens.current := 0;
    var t := G.T(G.Legacy, tokens.State());
    tokens.current := t.cur.at;
    tokens.i := t.cur.position;
    var c := tokens.State().Current();
    if c != '\0' {
      return G.SyntaxError(tokens.i, c);
    }
    if t.tree.None? {
      return G.EndOfTerm;
    }
    return G.Tree(t.tree.value);
  }

  /** A leading space is read like any other character once the cursor is rewound. */
  lemma ParseTreeRewinds(text: string, i: int)
    requires '\0' !in text && |text| > 0 && text[0] == ' '
    ensures ParseTree(text, i).outcome.SyntaxError?
    ensures ParseTree(text, i).outcome.position == i && ParseTree(text, i).outcome.near == ' '
  {
    var c := Cursor(text, 0, i);
    assert !IsDigit(c.Current()) && !IsLower(c.Current());
    assert G.K(G.Legacy, c).tree.None? && G.K(G.Legacy, c).cur == c;
    assert G.O(G.Legacy, c).cur == c && G.P(G.Legacy, c).cur == c;
    assert G.S(G.Legacy, c).cur == c && G.T(G.Legacy, c).cur == c;
  }

  // ---------------------------------------------------------------- the E_SYMBOL fold

  /** The node an E_SYMBOL step of reduce leaves and how many nodes it released. */
  datatype Folded = Folded(node: Node, released: nat)

  /**
   * E_SYMBOL in reduce: a mantissa and an exponent that are both numbers fold into
   * one number. formula.c releases the two children; the older copy releases
   * neither.
   */
  function ScientificFold(lib: Formula.Libm, l: Node, r: Node, d: G.Dialect): (f: Folded)
    ensures f.node == Reduce.ScientificRule(lib, l, r)
    ensures f.node.Number? ==> f.node.value == Formula.Calculate(lib, Operator(ESymbol, l, r))
    ensures d == G.Current ==> Size(Operator(ESymbol, l, r)) == Size(f.node) + f.released
  {
    if l.Number? && r.Number? then
      var folded := Number(l.value * lib.pow(10.0, r.value));
      assert Reduce.ScientificRule(lib, l, r) == folded;
      Folded(folded, if d == G.Current then 2 else 0)
    else Folded(Operator(ESymbol, l, r), 0)
  }

  /** The older fold loses the two number nodes of the literal it folds. */
  lemma LegacyFoldLeaks(lib: Formula.Libm, x: real, y: real)
    ensures var n := Operator(ESymbol, Number(x), Number(y));
      var f := ScientificFold(lib, Number(x), Number(y), G.Legacy);
      f.node.Number? && Size(n) == Size(f.node) + f.released + 2
  {
  }

  // ---------------------------------------------------------------- find_variables

  /**
   * strlen over a block of memory: the offset of the first '\0', or the size of the
   * block when it holds none and strlen would read past its end.
   */
  function StrLen(block: seq<char>): (n: nat)
    ensures n <= |block| && '\0' !in block[..n]
    ensures n < |block| ==> block[n] == '\0'
  {
    if block == [] || block[0] == '\0' then 0
    else
      var n := 1 + StrLen(block[1..]);
      assert block[..n] == [block[0]] + block[1..][..n - 1];
      n
  }

  /** The list of names after realloc to strlen + 2: the old terminator, then one uninitialised byte. */
  function Grown(vars: seq<char>, garbage: char): (block: seq<char>)
    requires '\0' !in vars
    ensures |block| == |vars| + 2 && StrLen(block) == |vars|
  {
    var block := vars + ['\0', garbage];
    assert block[..|vars|] == vars;
    StrLenIsFirstZero(block, |vars|);
    block
  }

  /** strlen stops at the first '\0'. */
  lemma StrLenIsFirstZero(block: seq<char>, k: nat)
    requires k < |block| && block[k] == '\0' && '\0' !in block[..k]
    ensures StrLen(block) == k
  {
    var n := StrLen(block);
  }

  /** The block after the stores of find_variables and the offset its second store writes to. */
  datatype Stored = Stored(block: seq<char>, end: nat)

  /**
   * The VARIABLE case of the older find_variables as written: the name overwrites
   * the terminator, and the second strlen, taken after that store, decides where the
   * new terminator goes.
   */
  function StoreAsWritten(vars: seq<char>, name: char, garbage: char): (r: Stored)
    requires '\0' !in vars
    ensures |r.block| == |vars| + 2
  {
    var block := Grown(vars, garbage)[|vars| := name];
    Stored(block, StrLen(block) + 1)
  }

  /**
   * The terminator lands outside the block whatever the uninitialised byte held, and
   * when that byte is not '\0' the list is not terminated inside the block either.
   */
  lemma StoreWritesPastBlock(vars: seq<char>, name: char, garbage: char)
    requires '\0' !in vars && IsVariable(name)
    ensures var r := StoreAsWritten(vars, name, garbage);
      r.end >= |r.block| && (garbage != '\0' ==> '\0' !in r.block)
  {
    var r := StoreAsWritten(vars, name, garbage);
    assert r.block == vars + [name, garbage];
    var n := StrLen(r.block);
    if garbage != '\0' {
      assert r.block == r.block[..n];
    }
  }

  /** Adding c to the names "ab" when the uninitialised byte is '\0' writes the terminator at offset 4 of the 4-byte block. */
  lemma StoreOverflowExample()
    ensures StoreAsWritten("ab", 'c', '\0').end == 4 && |StoreAsWritten("ab", 'c', '\0').block| == 4
  {
    var block := StoreAsWritten("ab", 'c', '\0').block;
    assert block == ['a', 'b', 'c', '\0'];
    assert StrLen(block[3..]) == 0;
    assert StrLen(block[2..]) == 1;
    assert StrLen(block[1..]) == 2;
  }

  /**
   * The VARIABLE case as intended: the length is taken once, the name goes where the
   * terminator was and the new terminator right after it, inside the block.
   */
  function StoreName(vars: seq<char>, name: char, garbage: char): (r: Stored)
    requires '\0' !in vars && IsVariable(name)
    ensures |r.block| == |vars| + 2 && r.end < |r.block|
    ensures CString(r.block) == vars + [name]
  {
    var len := StrLen(Grown(vars, garbage));
    var block := Grown(vars, garbage)[len := name][len + 1 := '\0'];
    assert block == (vars + [name]) + ['\0'];
    CStringEnds(vars + [name]);
    Stored(block, len + 1)
  }

  /** A C string followed by its terminator reads back as itself. */
  lemma {:induction false} CStringEnds(s: string)
    requires '\0' !in s
    ensures CString(s + ['\0']) == s
    decreases |s|
  {
    if s == [] {
      assert s + ['\0'] == ['\0'];
    } else {
      assert s[0] in s;
      assert (s + ['\0'])[1..] == s[1..] + ['\0'];
      CStringEnds(s[1..]);
    }
  }
}
