// The recursive-descent grammar of grammar.c as functions over a cursor.
//
//   T   -> S { '?' S ':' S }          conditionals, nesting to the left
//   S   -> P { ('+' | '-') P }
//   P   -> O { Var } { ('*' | '/') O }  a variable right after an operand multiplies
//   O   -> K { '^' K }
//   K   -> '-' K | '(' T ')' | Num | Var
//   Num -> N [ 'E' ['-'] Z ]
//   N   -> Z [ ('.' | ',') digits ]
//   Z   -> digit { digit }
//   Var -> B [ Z ]                      a variable followed by digits is a power
//   B   -> 'a' .. 'z'
//
// Every production returns the tree it built (None on a syntax error), the cursor
// it stopped at, and how many nodes it allocated and released. The older parser
// (formelparser.c) has the same productions over the string.c cursor and differs
// in the clean-up of T; the dialect selects between the two.
module GrammarSpec {
  import opened Wrappers
  import opened Nodes
  import opened Tokenizer
  import Strings

  datatype Dialect = Current | Legacy

  datatype Parsed = Parsed(tree: Option<Node>, cur: Cursor, allocs: nat, frees: nat)

  /** A digit run read by Z, or the fraction read by N: its value and where it stopped. */
  datatype Scan = Scan(value: real, cur: Cursor)

  /** SKIP_TOKEN of the chosen dialect. */
  function Step(d: Dialect, c: Cursor): (r: Cursor)
    requires c.Valid() && !c.AtEnd()
    ensures r.Valid() && r.text == c.text && c.at < r.at
  {
    if d == Current then Advance(c) else Strings.NextChar(c)
  }

  function TreeSize(t: Option<Node>): nat
  {
    if t.Some? then Size(t.value) else 0
  }

  /** r continues from c in the same text. */
  ghost predicate Follows(c: Cursor, r: Parsed)
  {
    r.cur.Valid() && r.cur.text == c.text && c.at <= r.cur.at
  }

  /**
   * Every node allocated is either released or part of the result; `owned` counts the
   * nodes the caller handed over (the tree built so far by a loop).
   */
  predicate Balanced(owned: nat, r: Parsed)
  {
    r.allocs + owned == r.frees + TreeSize(r.tree)
  }

  /** No node is released more often than it was allocated. */
  predicate NoOverRelease(owned: nat, r: Parsed)
  {
    r.allocs + owned >= r.frees + TreeSize(r.tree)
  }

  predicate Built(r: Parsed)
  {
    r.tree.Some? ==> WellFormed(r.tree.value)
  }

  /** Adds the allocations and releases done before a sub-result. */
  function Charge(r: Parsed, allocs: nat, frees: nat): Parsed
  {
    r.(allocs := r.allocs + allocs, frees := r.frees + frees)
  }

  /** t is acc with zero or more operators from ops stacked on its left spine. */
  predicate LeftSpine(t: Node, acc: Node, ops: set<Op>)
  {
    t == acc || (t.Operator? && t.op in ops && LeftSpine(t.left, acc, ops))
  }

  /** t is acc with zero or more conditionals stacked on its condition spine. */
  predicate ConditionSpine(t: Node, acc: Node)
  {
    t == acc || (t.Conditional? && ConditionSpine(t.condition, acc))
  }

  lemma LeftSpineShrinks(t: Option<Node>, o: Op, acc: Node, x: Node, ops: set<Op>)
    requires o in ops
    ensures t.Some? && LeftSpine(t.value, Operator(o, acc, x), ops) ==> LeftSpine(t.value, acc, ops)
  {
    if t.Some? && LeftSpine(t.value, Operator(o, acc, x), ops) {
      LeftSpineTrans(t.value, o, acc, x, ops);
    }
  }

  lemma LeftSpineTrans(t: Node, o: Op, acc: Node, x: Node, ops: set<Op>)
    requires o in ops && LeftSpine(t, Operator(o, acc, x), ops)
    ensures LeftSpine(t, acc, ops)
  {
  }

  lemma ConditionSpineShrinks(t: Option<Node>, acc: Node, x: Node, y: Node)
    ensures t.Some? && ConditionSpine(t.value, Conditional(acc, x, y)) ==> ConditionSpine(t.value, acc)
  {
    if t.Some? && ConditionSpine(t.value, Conditional(acc, x, y)) {
      ConditionSpineTrans(t.value, acc, x, y);
    }
  }

  lemma ConditionSpineTrans(t: Node, acc: Node, x: Node, y: Node)
    requires ConditionSpine(t, Conditional(acc, x, y))
    ensures ConditionSpine(t, acc)
  {
  }

  function DigitValue(ch: char): real
    requires IsDigit(ch)
  {
    (ch as int - '0' as int) as real
  }

  function Pow10(k: nat): (p: real)
    ensures p >= 1.0
  {
    if k == 0 then 1.0 else 10.0 * Pow10(k - 1)
  }

  // ------------------------------------------------------------------ T

  /** T -> S { '?' S ':' S } */
  function T(d: Dialect, c: Cursor): (r: Parsed)
    requires c.Valid()
    ensures Follows(c, r) && Built(r) && NoOverRelease(0, r)
    ensures d == Current ==> Balanced(0, r)
    ensures r.tree.Some? ==> c.at < r.cur.at
    decreases |c.text| - c.at, 20
  {
    var s := S(d, c);
    if s.tree.None? then s
    else Charge(TLoop(d, s.tree.value, s.cur), s.allocs, s.frees)
  }

  /** The while loop of T over '?'; acc is the condition built so far. */
  function TLoop(d: Dialect, acc: Node, c: Cursor): (r: Parsed)
    requires c.Valid() && WellFormed(acc)
    ensures Follows(c, r) && Built(r) && NoOverRelease(Size(acc), r)
    ensures d == Current ==> Balanced(Size(acc), r)
    ensures r.tree.Some? ==> ConditionSpine(r.tree.value, acc)
    decreases |c.text| - c.at, 19
  {
    if c.Current() != '?' then Parsed(Some(acc), c, 0, 0)
    else
      var t := S(d, Step(d, c));
      if t.tree.None? then
        Parsed(None, t.cur, t.allocs, t.frees + Size(acc))
      else if t.cur.Current() != ':' then
        if d == Current then Parsed(None, t.cur, t.allocs, t.frees + Size(t.tree.value) + Size(acc))
        else Parsed(None, t.cur, t.allocs, t.frees + Size(acc))
      else
        var f := S(d, Step(d, t.cur));
        if f.tree.None? then
          Parsed(None, f.cur, t.allocs + f.allocs, t.frees + f.frees + Size(acc) + Size(t.tree.value))
        else
          var rest := TLoop(d, Conditional(acc, t.tree.value, f.tree.value), f.cur);
          ConditionSpineShrinks(rest.tree, acc, t.tree.value, f.tree.value);
          Charge(rest, t.allocs + f.allocs + 1, t.frees + f.frees)
  }

  // ------------------------------------------------------------------ S

  /** S -> P { ('+' | '-') P } */
  function S(d: Dialect, c: Cursor): (r: Parsed)
    requires c.Valid()
    ensures Follows(c, r) && Built(r) && NoOverRelease(0, r)
    ensures d == Current ==> Balanced(0, r)
    ensures r.tree.Some? ==> c.at < r.cur.at
    decreases |c.text| - c.at, 18
  {
    var p := P(d, c);
    if p.tree.None? then p
    else Charge(SLoop(d, p.tree.value, p.cur), p.allocs, p.frees)
  }

  function SLoop(d: Dialect, acc: Node, c: Cursor): (r: Parsed)
    requires c.Valid() && WellFormed(acc)
    ensures Follows(c, r) && Built(r) && NoOverRelease(Size(acc), r)
    ensures d == Current ==> Balanced(Size(acc), r)
    ensures r.tree.Some? ==> LeftSpine(r.tree.value, acc, {Add, Minus})
    decreases |c.text| - c.at, 17
  {
    var ch := c.Current();
    if ch != '+' && ch != '-' then Parsed(Some(acc), c, 0, 0)
    else
      var p := P(d, Step(d, c));
      if p.tree.None? then Parsed(None, p.cur, p.allocs + 1, p.frees + 1 + Size(acc))
      else
        var rest := SLoop(d, Operator(OpOfChar(ch), acc, p.tree.value), p.cur);
        LeftSpineShrinks(rest.tree, OpOfChar(ch), acc, p.tree.value, {Add, Minus});
        Charge(rest, p.allocs + 1, p.frees)
  }

  // ------------------------------------------------------------------ P

  /** P -> O { Var } { ('*' | '/') O } */
  function P(d: Dialect, c: Cursor): (r: Parsed)
    requires c.Valid()
    ensures Follows(c, r) && Built(r) && NoOverRelease(0, r)
    ensures d == Current ==> Balanced(0, r)
    ensures r.tree.Some? ==> c.at < r.cur.at
    decreases |c.text| - c.at, 16
  {
    var o := O(d, c);
    if o.tree.None? then o
    else Charge(Juxtaposed(d, o.tree.value, o.cur), o.allocs, o.frees)
  }

  /**
   * The first while loop of P: each lower-case letter starts a Var that multiplies
   * the tree so far. Var cannot fail on a letter, so the clean-up after a failing
   * Var never runs and is not part of this function.
   */
  function Juxtaposed(d: Dialect, acc: Node, c: Cursor): (r: Parsed)
    requires c.Valid() && WellFormed(acc)
    ensures Follows(c, r) && Built(r) && NoOverRelease(Size(acc), r)
    ensures d == Current ==> Balanced(Size(acc), r)
    ensures r.tree.Some? ==> LeftSpine(r.tree.value, acc, {Multiply, Divide})
    decreases |c.text| - c.at, 15
  {
    if !IsLower(c.Current()) then PLoop(d, acc, c)
    else
      var v := Var(d, c);
      var rest := Juxtaposed(d, Operator(Multiply, acc, v.tree.value), v.cur);
      LeftSpineShrinks(rest.tree, Multiply, acc, v.tree.value, {Multiply, Divide});
      Charge(rest, v.allocs + 1, v.frees)
  }

  /** The second while loop of P, over '*' and '/'. */
  function PLoop(d: Dialect, acc: Node, c: Cursor): (r: Parsed)
    requires c.Valid() && WellFormed(acc)
    ensures Follows(c, r) && Built(r) && NoOverRelease(Size(acc), r)
    ensures d == Current ==> Balanced(Size(acc), r)
    ensures r.tree.Some? ==> LeftSpine(r.tree.value, acc, {Multiply, Divide})
    decreases |c.text| - c.at, 14
  {
    var ch := c.Current();
    if ch != '*' && ch != '/' then Parsed(Some(acc), c, 0, 0)
    else
      var o := O(d, Step(d, c));
      if o.tree.None? then Parsed(None, o.cur, o.allocs + 1, o.frees + 1 + Size(acc))
      else
        var rest := PLoop(d, Operator(OpOfChar(ch), acc, o.tree.value), o.cur);
        LeftSpineShrinks(rest.tree, OpOfChar(ch), acc, o.tree.value, {Multiply, Divide});
        Charge(rest, o.allocs + 1, o.frees)
  }

  // ------------------------------------------------------------------ O

  /** O -> K { '^' K } */
  function O(d: Dialect, c: Cursor): (r: Parsed)
    requires c.Valid()
    ensures Follows(c, r) && Built(r) && NoOverRelease(0, r)
    ensures d == Current ==> Balanced(0, r)
    ensures r.tree.Some? ==> c.at < r.cur.at
    decreases |c.text| - c.at, 13
  {
    var k := K(d, c);
    if k.tree.None? then k
    else Charge(OLoop(d, k.tree.value, k.cur), k.allocs, k.frees)
  }

  function OLoop(d: Dialect, acc: Node, c: Cursor): (r: Parsed)
    requires c.Valid() && WellFormed(acc)
    ensures Follows(c, r) && Built(r) && NoOverRelease(Size(acc), r)
    ensures d == Current ==> Balanced(Size(acc), r)
    ensures r.tree.Some? ==> LeftSpine(r.tree.value, acc, {Power})
    decreases |c.text| - c.at, 12
  {
    if c.Current() != '^' then Parsed(Some(acc), c, 0, 0)
    else
      var k := K(d, Step(d, c));
      if k.tree.None? then Parsed(None, k.cur, k.allocs + 1, k.frees + 1 + Size(acc))
      else
        var rest := OLoop(d, Operator(Power, acc, k.tree.value), k.cur);
        LeftSpineShrinks(rest.tree, Power, acc, k.tree.value, {Power});
        Charge(rest, k.allocs + 1, k.frees)
  }

  // ------------------------------------------------------------------ K

  /** K -> '-' K | '(' T ')' | Num | Var; a leading minus becomes a product with -1. */
  function K(d: Dialect, c: Cursor): (r: Parsed)
    requires c.Valid()
    ensures Follows(c, r) && Built(r) && NoOverRelease(0, r)
    ensures d == Current ==> Balanced(0, r)
    ensures r.tree.Some? ==> c.at < r.cur.at
    ensures r.tree.Some? ==> c.Current() in "-(" || IsDigit(c.Current()) || IsLower(c.Current())
    decreases |c.text| - c.at, 11
  {
    var ch := c.Current();
    if ch == '-' then
      var k := K(d, Step(d, c));
      if k.tree.None? then k
      else k.(tree := Some(Operator(Multiply, Number(-1.0), k.tree.value)), allocs := k.allocs + 2)
    else if ch == '(' then
      var t := T(d, Step(d, c));
      if t.tree.None? then t
      else if t.cur.Current() == ')' then t.(cur := Step(d, t.cur))
      else t.(tree := None, frees := t.frees + Size(t.tree.value))
    else if IsDigit(ch) then Num(d, c)
    else if IsLower(ch) then Var(d, c)
    else Parsed(None, c, 0, 0)
  }

  // ------------------------------------------------------------------ numbers

  /** Num -> N [ 'E' ['-'] Z ]; a negative exponent becomes -1 * Z. */
  function Num(d: Dialect, c: Cursor): (r: Parsed)
    requires c.Valid()
    ensures Follows(c, r) && Built(r) && Balanced(0, r)
    ensures r.tree.Some? ==> IsDigit(c.Current())
    ensures r.tree.Some? ==> c.at < r.cur.at
    decreases |c.text| - c.at, 10
  {
    var n := N(d, c);
    if n.tree.None? || n.cur.Current() != 'E' then n
    else ExponentPart(d, n, Step(d, n.cur))
  }

  /** The exponent of Num after its 'E', attached to the mantissa n has parsed. */
  function ExponentPart(d: Dialect, n: Parsed, c: Cursor): (r: Parsed)
    requires c.Valid() && n.tree.Some? && n.tree.value.Number? && Balanced(0, n)
    ensures Follows(c, r) && Built(r) && Balanced(0, r)
    decreases |c.text| - c.at, 9
  {
    if c.Current() == '-' then
      var z := Z(d, Step(d, c));
      if z.tree.None? then Parsed(None, z.cur, n.allocs + z.allocs, n.frees + z.frees + Size(n.tree.value))
      else
        var exponent := Negated(z.tree.value);
        Parsed(Some(Operator(ESymbol, n.tree.value, exponent)), z.cur, n.allocs + z.allocs + 3, n.frees + z.frees)
    else
      var z := Z(d, c);
      if z.tree.None? then Parsed(None, z.cur, n.allocs + z.allocs, n.frees + z.frees + Size(n.tree.value))
      else Parsed(Some(Operator(ESymbol, n.tree.value, z.tree.value)), z.cur, n.allocs + z.allocs + 1, n.frees + z.frees)
  }

  /** The exponent -1 * z of a literal written with E-. */
  function Negated(z: Node): (e: Node)
    requires z.Number?
    ensures Exponent(e) && WellFormed(e) && Size(e) == 3 && e.right == z
  {
    Operator(Multiply, Number(-1.0), z)
  }

  /** N -> Z [ ('.' | ',') digits ]: the digits after the separator are a fraction. */
  function N(d: Dialect, c: Cursor): (r: Parsed)
    requires c.Valid()
    ensures Follows(c, r) && Balanced(0, r)
    ensures r.tree.Some? <==> IsDigit(c.Current())
    ensures r.tree.Some? ==> r.tree.value.Number? && c.at < r.cur.at && !IsDigit(r.cur.Current())
    decreases |c.text| - c.at, 9
  {
    var z := Z(d, c);
    if z.tree.None? || (z.cur.Current() != '.' && z.cur.Current() != ',') then z
    else
      var f := Fraction(d, Step(d, z.cur), z.tree.value.value, 0);
      z.(tree := Some(Number(f.value)), cur := f.cur)
  }

  /** The fraction loop of N: the k-th digit after the separator adds digit / 10^k. */
  function Fraction(d: Dialect, c: Cursor, nr: real, digits: nat): (r: Scan)
    requires c.Valid()
    ensures r.cur.Valid() && r.cur.text == c.text && c.at <= r.cur.at && !IsDigit(r.cur.Current())
    decreases |c.text| - c.at, 8
  {
    if IsDigit(c.Current()) then
      Fraction(d, Step(d, c), nr + DigitValue(c.Current()) / Pow10(digits + 1), digits + 1)
    else Scan(nr, c)
  }

  /**
   * Var -> B [ Z ]: a letter directly followed by digits is that power of the variable.
   * Z cannot fail on a digit, so the clean-up after a failing Z never runs and is not
   * part of this function.
   */
  function Var(d: Dialect, c: Cursor): (r: Parsed)
    requires c.Valid()
    ensures Follows(c, r) && Built(r) && Balanced(0, r)
    ensures r.tree.Some? <==> IsLower(c.Current())
    ensures r.tree.Some? ==> c.at < r.cur.at
    decreases |c.text| - c.at, 7
  {
    var b := B(d, c);
    if b.tree.None? || !IsDigit(b.cur.Current()) then b
    else
      var z := Z(d, b.cur);
      Parsed(Some(Operator(Power, b.tree.value, z.tree.value)), z.cur, b.allocs + z.allocs + 1, b.frees + z.frees)
  }

  /** B -> 'a' .. 'z' */
  function B(d: Dialect, c: Cursor): (r: Parsed)
    requires c.Valid()
    ensures Follows(c, r) && Built(r) && Balanced(0, r)
    ensures r.tree.Some? <==> IsLower(c.Current())
    ensures r.tree.Some? ==> r.tree.value == Variable(c.Current()) && r.cur == Step(d, c)
    decreases |c.text| - c.at, 6
  {
    if IsLower(c.Current()) then Parsed(Some(Variable(c.Current())), Step(d, c), 1, 0)
    else Parsed(None, c, 0, 0)
  }

  /** Z -> digit { digit }: the decimal value of the digit run. */
  function Z(d: Dialect, c: Cursor): (r: Parsed)
    requires c.Valid()
    ensures Follows(c, r) && Balanced(0, r)
    ensures r.tree.Some? <==> IsDigit(c.Current())
    ensures r.tree.Some? ==> r.tree.value.Number? && c.at < r.cur.at && !IsDigit(r.cur.Current())
    ensures r.tree.None? ==> r.cur == c
    decreases |c.text| - c.at, 5
  {
    if !IsDigit(c.Current()) then Parsed(None, c, 0, 0)
    else
      var run := DigitRun(d, c, 0.0);
      Parsed(Some(Number(run.value)), run.cur, 1, 0)
  }

  /** The while loop of Z: number = number * 10 + digit. */
  function DigitRun(d: Dialect, c: Cursor, number: real): (r: Scan)
    requires c.Valid()
    ensures r.cur.Valid() && r.cur.text == c.text && c.at <= r.cur.at && !IsDigit(r.cur.Current())
    ensures IsDigit(c.Current()) ==> c.at < r.cur.at
    decreases |c.text| - c.at, 4
  {
    if IsDigit(c.Current()) then DigitRun(d, Step(d, c), number * 10.0 + DigitValue(c.Current()))
    else Scan(number, c)
  }

  // ------------------------------------------------------------------ parse

  /** What parse reports: the tree, or which of its error messages it prints. */
  datatype Outcome =
    | Tree(root: Node)
    | UnexpectedEnd                              // "unexpected end of string"
    | SyntaxError(position: int, near: char)     // "syntax error at position %d near '%c'"
    | ExpectingEnd(position: int, near: char)    // "expecting end at position %d near '%c'"
    | EndOfTerm                                  // "syntax error at end of term" (older parser)

  /** An outcome together with the nodes allocated and released on the way. */
  datatype Run = Run(outcome: Outcome, allocs: nat, frees: nat)

  /**
   * parse: T over the whole string. A failed T reports the end of the string or the
   * character it stopped at; a T that stops before the end has its tree released.
   */
  function Parse(s: string): (r: Run)
    ensures r.outcome.Tree? <==> var t := T(Current, Start(s)); t.tree.Some? && t.cur.AtEnd()
    ensures var t := T(Current, Start(s));
      && (r.outcome.UnexpectedEnd? <==> t.tree.None? && t.cur.AtEnd())
      && (r.outcome.SyntaxError? <==> t.tree.None? && !t.cur.AtEnd())
      && (r.outcome.ExpectingEnd? <==> t.tree.Some? && !t.cur.AtEnd())
      && (r.outcome.Tree? ==> Some(r.outcome.root) == t.tree)
      && (r.outcome.SyntaxError? || r.outcome.ExpectingEnd? ==>
            r.outcome.position == t.cur.position && r.outcome.near == t.cur.Current())
    ensures r.outcome.Tree? ==> WellFormed(r.outcome.root)
    ensures r.outcome.SyntaxError? || r.outcome.ExpectingEnd? ==> r.outcome.near != '\0'
    ensures !r.outcome.EndOfTerm?
    ensures r.allocs == r.frees + (if r.outcome.Tree? then Size(r.outcome.root) else 0)
  {
    var t := T(Current, Start(s));
    var c := t.cur;
    if t.tree.None? then
      Run(if c.Current() == '\0' then UnexpectedEnd else SyntaxError(c.position, c.Current()), t.allocs, t.frees)
    else if c.Current() != '\0' then
      Run(ExpectingEnd(c.position, c.Current()), t.allocs, t.frees + Size(t.tree.value))
    else Run(Tree(t.tree.value), t.allocs, t.frees)
  }

  // ------------------------------------------------------------------ number values

  /** The digit values the loop of Z visits from c. */
  function DigitsFrom(d: Dialect, c: Cursor): seq<real>
    requires c.Valid()
    decreases |c.text| - c.at
  {
    if IsDigit(c.Current()) then [DigitValue(c.Current())] + DigitsFrom(d, Step(d, c)) else []
  }

  /** The positional value of a digit sequence, most significant digit first. */
  function Decimal(ds: seq<real>): real
  {
    if ds == [] then 0.0 else ds[0] * Pow10(|ds| - 1) + Decimal(ds[1..])
  }

  /** Reading digits left to right: number = number * 10 + digit. */
  function Horner(number: real, ds: seq<real>): real
    decreases |ds|
  {
    if ds == [] then number else Horner(number * 10.0 + ds[0], ds[1..])
  }

  lemma {:induction false} DigitRunHorner(d: Dialect, c: Cursor, number: real)
    requires c.Valid()
    ensures DigitRun(d, c, number).value == Horner(number, DigitsFrom(d, c))
    decreases |c.text| - c.at
  {
    if IsDigit(c.Current()) {
      var ds := DigitsFrom(d, c);
      var digit := DigitValue(c.Current());
      var next := Step(d, c);
      DigitRunHorner(d, next, number * 10.0 + digit);
      assert ds[0] == digit && ds[1..] == DigitsFrom(d, next);
    }
  }

  lemma ShiftDigit(number: real, digit: real, p: real, big: real, rest: real, decimal: real, value: real)
    requires big == 10.0 * p && decimal == digit * p + rest && value == (number * 10.0 + digit) * p + rest
    ensures value == number * big + decimal
  {
  }

  /** Horner's rule computes the positional value. */
  lemma {:induction false} HornerIsDecimal(number: real, ds: seq<real>)
    ensures Horner(number, ds) == number * Pow10(|ds|) + Decimal(ds)
    decreases |ds|
  {
    if ds != [] {
      var rest := ds[1..];
      HornerIsDecimal(number * 10.0 + ds[0], rest);
      ShiftDigit(number, ds[0], Pow10(|rest|), Pow10(|ds|), Decimal(rest), Decimal(ds), Horner(number, ds));
    }
  }

  /** Z reads the decimal value of the digits it steps over. */
  lemma ZValue(d: Dialect, c: Cursor)
    requires c.Valid() && IsDigit(c.Current())
    ensures Z(d, c).tree == Some(Number(Decimal(DigitsFrom(d, c))))
  {
    DigitRunHorner(d, c, 0.0);
    HornerIsDecimal(0.0, DigitsFrom(d, c));
  }

  /** The fraction loop of N on a digit sequence. */
  function FractionDigits(nr: real, k: nat, ds: seq<real>): real
    decreases |ds|
  {
    if ds == [] then nr else FractionDigits(nr + ds[0] / Pow10(k + 1), k + 1, ds[1..])
  }

  lemma {:induction false} FractionOfDigits(d: Dialect, c: Cursor, nr: real, k: nat)
    requires c.Valid()
    ensures Fraction(d, c, nr, k).value == FractionDigits(nr, k, DigitsFrom(d, c))
    decreases |c.text| - c.at
  {
    if IsDigit(c.Current()) {
      var ds := DigitsFrom(d, c);
      var digit := DigitValue(c.Current());
      var next := Step(d, c);
      FractionOfDigits(d, next, nr + digit / Pow10(k + 1), k + 1);
      assert ds[0] == digit && ds[1..] == DigitsFrom(d, next);
    }
  }

  /**
   * The positional value of digits written after the separator, the first of them
   * in place k + 1: the digit in place i is worth digit / 10^i.
   */
  function DigitSum(k: nat, ds: seq<real>): real
    decreases |ds|
  {
    if ds == [] then 0.0 else ds[0] / Pow10(k + 1) + DigitSum(k + 1, ds[1..])
  }

  /** The fraction loop adds exactly the positional value of the digits it reads. */
  lemma {:induction false} FractionIsDigitSum(nr: real, k: nat, ds: seq<real>)
    ensures FractionDigits(nr, k, ds) == nr + DigitSum(k, ds)
    decreases |ds|
  {
    if ds != [] {
      var next := nr + ds[0] / Pow10(k + 1);
      FractionIsDigitSum(next, k + 1, ds[1..]);
      assert FractionDigits(nr, k, ds) == FractionDigits(next, k + 1, ds[1..]);
      assert DigitSum(k, ds) == ds[0] / Pow10(k + 1) + DigitSum(k + 1, ds[1..]);
    }
  }

  /**
   * N reads "digits [sep digits]" as integer part plus fraction: the i-th digit after
   * the separator is worth digit / 10^i.
   */
  lemma NValue(d: Dialect, c: Cursor)
    requires c.Valid() && IsDigit(c.Current())
    ensures var z := Z(d, c);
      var whole := Decimal(DigitsFrom(d, c));
      N(d, c).tree == Some(Number(
        if z.cur.Current() == '.' || z.cur.Current() == ',' then whole + DigitSum(0, DigitsFrom(d, Step(d, z.cur)))
        else whole))
  {
    ZValue(d, c);
    var z := Z(d, c);
    if z.cur.Current() == '.' || z.cur.Current() == ',' {
      var frac := DigitsFrom(d, Step(d, z.cur));
      FractionOfDigits(d, Step(d, z.cur), Decimal(DigitsFrom(d, c)), 0);
      FractionIsDigitSum(Decimal(DigitsFrom(d, c)), 0, frac);
    }
  }

  // ------------------------------------------------------------------ clean-up of T

  /** A single digit followed by a character that continues no production is a sum by itself. */
  lemma LoneDigit(d: Dialect, c: Cursor)
    requires c.Valid() && IsDigit(c.Current())
    requires var n := Step(d, c).Current(); !IsDigit(n) && !IsLower(n) && n !in ".,E^*/+-"
    ensures S(d, c) == Parsed(Some(Number(DigitValue(c.Current()))), Step(d, c), 1, 0)
  {
    var next := Step(d, c);
    var v := DigitValue(c.Current());
    assert DigitRun(d, next, 0.0 * 10.0 + v) == Scan(v, next);
    assert DigitRun(d, c, 0.0) == Scan(v, next);
    var r := Parsed(Some(Number(v)), next, 1, 0);
    assert Z(d, c) == r;
    assert N(d, c) == r;
    assert Num(d, c) == r;
    assert K(d, c) == r;
    var stay := Parsed(Some(Number(v)), next, 0, 0);
    assert OLoop(d, Number(v), next) == stay;
    assert O(d, c) == r;
    assert PLoop(d, Number(v), next) == stay;
    assert Juxtaposed(d, Number(v), next) == stay;
    assert P(d, c) == r;
    assert SLoop(d, Number(v), next) == stay;
  }

  const LeakText := "1?2"

  lemma LeakTextSteps()
    ensures Step(Legacy, Cursor(LeakText, 0, 1)) == Cursor(LeakText, 1, 2)
    ensures Step(Legacy, Cursor(LeakText, 1, 2)) == Cursor(LeakText, 2, 3)
    ensures Step(Legacy, Cursor(LeakText, 2, 3)) == Cursor(LeakText, 3, 4)
  {
    assert SkipSpaces(LeakText, 1) == 1;
    assert SkipSpaces(LeakText, 2) == 2;
    assert SkipSpaces(LeakText, 3) == 3;
  }

  lemma LeakTextCondition()
    ensures S(Legacy, Cursor(LeakText, 0, 1)) == Parsed(Some(Number(1.0)), Cursor(LeakText, 1, 2), 1, 0)
  {
    LeakTextSteps();
    LoneDigit(Legacy, Cursor(LeakText, 0, 1));
  }

  lemma LeakTextTrueBranch()
    ensures S(Legacy, Cursor(LeakText, 2, 3)) == Parsed(Some(Number(2.0)), Cursor(LeakText, 3, 4), 1, 0)
  {
    LeakTextSteps();
    LoneDigit(Legacy, Cursor(LeakText, 2, 3));
  }

  /**
   * The older T releases only the condition when ':' is missing after a parsed true
   * branch: on "1?2" the node of 2 is never released.
   */
  lemma LegacyTLeaksTrueBranch()
    ensures var r := T(Legacy, Start(LeakText)); r.tree.None? && r.allocs == r.frees + 1
  {
    assert CString(LeakText) == LeakText by {
      assert CString(LeakText[3..]) == [];
      assert CString(LeakText[2..]) == LeakText[2..];
      assert CString(LeakText[1..]) == LeakText[1..];
    }
    var c0 := Start(LeakText);
    assert c0 == Cursor(LeakText, 0, 1);
    LeakTextCondition();
    var s := S(Legacy, c0);
    assert s == Parsed(Some(Number(1.0)), Cursor(LeakText, 1, 2), 1, 0);
    LeakTextLoop(Cursor(LeakText, 1, 2), Number(1.0));
    var loop := TLoop(Legacy, Number(1.0), Cursor(LeakText, 1, 2));
    assert T(Legacy, c0) == Charge(loop, 1, 0);
  }

  lemma LegacyMissingColon(acc: Node, c: Cursor)
    requires c.Valid() && WellFormed(acc) && c.Current() == '?'
    requires var t := S(Legacy, Step(Legacy, c)); t.tree.Some? && t.cur.Current() != ':'
    ensures var t := S(Legacy, Step(Legacy, c));
      TLoop(Legacy, acc, c) == Parsed(None, t.cur, t.allocs, t.frees + Size(acc))
  {
  }

  lemma LeakTextLoop(c1: Cursor, one: Node)
    requires c1 == Cursor(LeakText, 1, 2) && one == Number(1.0)
    ensures TLoop(Legacy, one, c1) == Parsed(None, Cursor(LeakText, 3, 4), 1, 1)
  {
    LeakTextSteps();
    LeakTextTrueBranch();
    assert c1.Valid();
    assert c1.Current() == '?';
    assert WellFormed(one);
    var c2 := Cursor(LeakText, 2, 3);
    assert Step(Legacy, c1) == c2;
    var t := S(Legacy, c2);
    assert t.tree.Some?;
    assert t.cur.Current() == '\0';
    LegacyMissingColon(one, c1);
    assert t == Parsed(Some(Number(2.0)), Cursor(LeakText, 3, 4), 1, 0);
    assert Size(one) == 1;
  }

  /** The current T releases every node it does not return, on every input. */
  lemma CurrentTReleasesAll(s: string)
    ensures var r := T(Current, Start(s)); r.allocs == r.frees + TreeSize(r.tree)
  {
  }

  // ------------------------------------------------------------------ left folds

  /** One operator a loop reads together with the operand parsed after it. */
  datatype Term = Term(op: Op, operand: Node)

  /** The terms a loop reads from a cursor, where it stops, and whether it succeeds. */
  datatype Reading = Reading(terms: seq<Term>, cur: Cursor, ok: bool)

  /** The branches of the conditionals T reads after its condition. */
  datatype Branch = Branch(yes: Node, no: Node)

  datatype Branches = Branches(branches: seq<Branch>, cur: Cursor, ok: bool)

  predicate AllWellFormed(ts: seq<Term>)
  {
    forall i :: 0 <= i < |ts| ==> WellFormed(ts[i].operand)
  }

  /** acc combined with the terms from the left: the first term is applied first. */
  function FoldLeft(acc: Node, ts: seq<Term>): Node
    decreases |ts|
  {
    if ts == [] then acc else FoldLeft(Operator(ts[0].op, acc, ts[0].operand), ts[1..])
  }

  /** The last term read is the root: ((acc o1 x1) o2 x2) ... on xn. */
  lemma {:induction false} FoldLeftLast(acc: Node, ts: seq<Term>, t: Term)
    ensures FoldLeft(acc, ts + [t]) == Operator(t.op, FoldLeft(acc, ts), t.operand)
    decreases |ts|
  {
    if ts == [] {
      assert ([] + [t])[1..] == [];
    } else {
      assert (ts + [t])[1..] == ts[1..] + [t];
      FoldLeftLast(Operator(ts[0].op, acc, ts[0].operand), ts[1..], t);
    }
  }

  /** Folding well-formed operands onto a well-formed tree with operators other than E gives a well-formed tree. */
  lemma {:induction false} FoldLeftWellFormed(acc: Node, ts: seq<Term>)
    requires WellFormed(acc) && AllWellFormed(ts)
    requires forall i :: 0 <= i < |ts| ==> ts[i].op != ESymbol
    ensures WellFormed(FoldLeft(acc, ts))
    decreases |ts|
  {
    if ts != [] {
      FoldLeftWellFormed(Operator(ts[0].op, acc, ts[0].operand), ts[1..]);
    }
  }

  /** acc with the conditionals read stacked on its condition, the first innermost. */
  function FoldCond(acc: Node, bs: seq<Branch>): Node
    decreases |bs|
  {
    if bs == [] then acc else FoldCond(Conditional(acc, bs[0].yes, bs[0].no), bs[1..])
  }

  lemma {:induction false} FoldCondLast(acc: Node, bs: seq<Branch>, b: Branch)
    ensures FoldCond(acc, bs + [b]) == Conditional(FoldCond(acc, bs), b.yes, b.no)
    decreases |bs|
  {
    if bs == [] {
      assert ([] + [b])[1..] == [];
    } else {
      assert (bs + [b])[1..] == bs[1..] + [b];
      FoldCondLast(Conditional(acc, bs[0].yes, bs[0].no), bs[1..], b);
    }
  }

  /** The '+' and '-' the loop of S reads from c, each with the P parsed after it. */
  function SumTerms(d: Dialect, c: Cursor): (r: Reading)
    requires c.Valid()
    ensures AllWellFormed(r.terms)
    ensures forall i :: 0 <= i < |r.terms| ==> r.terms[i].op == Add || r.terms[i].op == Minus
    decreases |c.text| - c.at
  {
    var ch := c.Current();
    if ch != '+' && ch != '-' then Reading([], c, true)
    else
      var p := P(d, Step(d, c));
      if p.tree.None? then Reading([], p.cur, false)
      else
        var rest := SumTerms(d, p.cur);
        Reading([Term(OpOfChar(ch), p.tree.value)] + rest.terms, rest.cur, rest.ok)
  }

  /** The loop of S is the left fold of the terms it reads onto the first operand. */
  lemma {:induction false} SLoopFolds(d: Dialect, acc: Node, c: Cursor)
    requires c.Valid() && WellFormed(acc)
    ensures var s, r := SLoop(d, acc, c), SumTerms(d, c);
      s.tree.Some? == r.ok && s.cur == r.cur && (r.ok ==> s.tree.value == FoldLeft(acc, r.terms))
    decreases |c.text| - c.at
  {
    var ch := c.Current();
    if ch == '+' || ch == '-' {
      var p := P(d, Step(d, c));
      if p.tree.Some? {
        var t := Term(OpOfChar(ch), p.tree.value);
        SLoopFolds(d, Operator(t.op, acc, t.operand), p.cur);
        var rest := SumTerms(d, p.cur).terms;
        assert ([t] + rest)[1..] == rest;
      }
    }
  }

  /** The '*' and '/' the second loop of P reads from c, each with the O parsed after it. */
  function ProductTerms(d: Dialect, c: Cursor): (r: Reading)
    requires c.Valid()
    ensures AllWellFormed(r.terms)
    ensures forall i :: 0 <= i < |r.terms| ==> r.terms[i].op == Multiply || r.terms[i].op == Divide
    decreases |c.text| - c.at
  {
    var ch := c.Current();
    if ch != '*' && ch != '/' then Reading([], c, true)
    else
      var o := O(d, Step(d, c));
      if o.tree.None? then Reading([], o.cur, false)
      else
        var rest := ProductTerms(d, o.cur);
        Reading([Term(OpOfChar(ch), o.tree.value)] + rest.terms, rest.cur, rest.ok)
  }

  /** The second loop of P is the left fold of the terms it reads. */
  lemma {:induction false} PLoopFolds(d: Dialect, acc: Node, c: Cursor)
    requires c.Valid() && WellFormed(acc)
    ensures var s, r := PLoop(d, acc, c), ProductTerms(d, c);
      s.tree.Some? == r.ok && s.cur == r.cur && (r.ok ==> s.tree.value == FoldLeft(acc, r.terms))
    decreases |c.text| - c.at
  {
    var ch := c.Current();
    if ch == '*' || ch == '/' {
      var o := O(d, Step(d, c));
      if o.tree.Some? {
        var t := Term(OpOfChar(ch), o.tree.value);
        PLoopFolds(d, Operator(t.op, acc, t.operand), o.cur);
        var rest := ProductTerms(d, o.cur).terms;
        assert ([t] + rest)[1..] == rest;
      }
    }
  }

  /** The letters the first loop of P reads from c, each a Var that multiplies. */
  function LetterTerms(d: Dialect, c: Cursor): (r: Reading)
    requires c.Valid()
    ensures r.ok && r.cur.Valid() && r.cur.text == c.text && !IsLower(r.cur.Current())
    ensures AllWellFormed(r.terms)
    ensures forall i :: 0 <= i < |r.terms| ==> r.terms[i].op == Multiply
    decreases |c.text| - c.at
  {
    if !IsLower(c.Current()) then Reading([], c, true)
    else
      var v := Var(d, c);
      var rest := LetterTerms(d, v.cur);
      Reading([Term(Multiply, v.tree.value)] + rest.terms, rest.cur, true)
  }

  /** The first loop of P folds the letters it reads, then hands over to the second loop. */
  lemma {:induction false} JuxtaposedFolds(d: Dialect, acc: Node, c: Cursor)
    requires c.Valid() && WellFormed(acc)
    ensures var l := LetterTerms(d, c);
      WellFormed(FoldLeft(acc, l.terms))
      && var s, r := Juxtaposed(d, acc, c), PLoop(d, FoldLeft(acc, l.terms), l.cur);
      s.tree == r.tree && s.cur == r.cur
    decreases |c.text| - c.at
  {
    var l := LetterTerms(d, c);
    FoldLeftWellFormed(acc, l.terms);
    if IsLower(c.Current()) {
      var v := Var(d, c);
      var t := Term(Multiply, v.tree.value);
      JuxtaposedFolds(d, Operator(Multiply, acc, t.operand), v.cur);
      var rest := LetterTerms(d, v.cur).terms;
      assert ([t] + rest)[1..] == rest;
    }
  }

  /** The '^' the loop of O reads from c, each with the K parsed after it. */
  function PowerTerms(d: Dialect, c: Cursor): (r: Reading)
    requires c.Valid()
    ensures AllWellFormed(r.terms)
    ensures forall i :: 0 <= i < |r.terms| ==> r.terms[i].op == Power
    decreases |c.text| - c.at
  {
    if c.Current() != '^' then Reading([], c, true)
    else
      var k := K(d, Step(d, c));
      if k.tree.None? then Reading([], k.cur, false)
      else
        var rest := PowerTerms(d, k.cur);
        Reading([Term(Power, k.tree.value)] + rest.terms, rest.cur, rest.ok)
  }

  /** The loop of O is the left fold of the terms it reads: 2^3^2 is (2^3)^2. */
  lemma {:induction false} OLoopFolds(d: Dialect, acc: Node, c: Cursor)
    requires c.Valid() && WellFormed(acc)
    ensures var s, r := OLoop(d, acc, c), PowerTerms(d, c);
      s.tree.Some? == r.ok && s.cur == r.cur && (r.ok ==> s.tree.value == FoldLeft(acc, r.terms))
    decreases |c.text| - c.at
  {
    if c.Current() == '^' {
      var k := K(d, Step(d, c));
      if k.tree.Some? {
        var t := Term(Power, k.tree.value);
        OLoopFolds(d, Operator(Power, acc, t.operand), k.cur);
        var rest := PowerTerms(d, k.cur).terms;
        assert ([t] + rest)[1..] == rest;
      }
    }
  }

  /** The "? S : S" parts the loop of T reads from c. */
  function CondTerms(d: Dialect, c: Cursor): (r: Branches)
    requires c.Valid()
    decreases |c.text| - c.at
  {
    if c.Current() != '?' then Branches([], c, true)
    else
      var t := S(d, Step(d, c));
      if t.tree.None? then Branches([], t.cur, false)
      else if t.cur.Current() != ':' then Branches([], t.cur, false)
      else
        var f := S(d, Step(d, t.cur));
        if f.tree.None? then Branches([], f.cur, false)
        else
          var rest := CondTerms(d, f.cur);
          Branches([Branch(t.tree.value, f.tree.value)] + rest.branches, rest.cur, rest.ok)
  }

  /** The loop of T stacks the conditionals it reads onto the condition, the first innermost. */
  lemma {:induction false} TLoopFolds(d: Dialect, acc: Node, c: Cursor)
    requires c.Valid() && WellFormed(acc)
    ensures var s, r := TLoop(d, acc, c), CondTerms(d, c);
      s.tree.Some? == r.ok && s.cur == r.cur && (r.ok ==> s.tree.value == FoldCond(acc, r.branches))
    decreases |c.text| - c.at
  {
    if c.Current() == '?' {
      var t := S(d, Step(d, c));
      if t.tree.Some? && t.cur.Current() == ':' {
        var f := S(d, Step(d, t.cur));
        if f.tree.Some? {
          var b := Branch(t.tree.value, f.tree.value);
          TLoopFolds(d, Conditional(acc, b.yes, b.no), f.cur);
          var rest := CondTerms(d, f.cur).branches;
          assert ([b] + rest)[1..] == rest;
        }
      }
    }
  }

  // ------------------------------------------------------------------ left association on examples

  /** On a text without spaces the current dialect steps one character and one position. */
  lemma PlainStep(s: string, i: nat)
    requires '\0' !in s && ' ' !in s && i < |s|
    ensures Step(Current, Cursor(s, i, i + 1)) == Cursor(s, i + 1, if i + 1 == |s| then i + 1 else i + 2)
  {
    if i + 1 < |s| {
      assert s[i + 1] != ' ';
      assert SkipSpaces(s, i + 1) == i + 1;
    }
  }

  /** A single digit with no fraction or exponent after it is a K by itself. */
  lemma LoneDigitK(d: Dialect, c: Cursor)
    requires c.Valid() && IsDigit(c.Current())
    requires var n := Step(d, c).Current(); !IsDigit(n) && n !in ".,E"
    ensures K(d, c) == Parsed(Some(Number(DigitValue(c.Current()))), Step(d, c), 1, 0)
  {
    var next := Step(d, c);
    var v := DigitValue(c.Current());
    assert DigitRun(d, next, 0.0 * 10.0 + v) == Scan(v, next);
    assert DigitRun(d, c, 0.0) == Scan(v, next);
    var r := Parsed(Some(Number(v)), next, 1, 0);
    assert Z(d, c) == r;
    assert N(d, c) == r;
    assert Num(d, c) == r;
  }

  /** A single letter followed by neither digits nor '^' is an O by itself. */
  lemma LoneLetterO(d: Dialect, c: Cursor)
    requires c.Valid() && IsLower(c.Current())
    requires var n := Step(d, c).Current(); !IsDigit(n) && n != '^'
    ensures O(d, c) == Parsed(Some(Variable(c.Current())), Step(d, c), 1, 0)
  {
    var next := Step(d, c);
    var x := Variable(c.Current());
    var r := Parsed(Some(x), next, 1, 0);
    assert B(d, c) == r;
    assert Var(d, c) == r;
    assert K(d, c) == r;
    assert OLoop(d, x, next) == Parsed(Some(x), next, 0, 0);
  }

  /** A single letter that nothing multiplies is a P by itself. */
  lemma LoneLetterP(d: Dialect, c: Cursor)
    requires c.Valid() && IsLower(c.Current())
    requires var n := Step(d, c).Current(); !IsDigit(n) && !IsLower(n) && n !in "^*/"
    ensures P(d, c) == Parsed(Some(Variable(c.Current())), Step(d, c), 1, 0)
  {
    var next := Step(d, c);
    var x := Variable(c.Current());
    LoneLetterO(d, c);
    var stay := Parsed(Some(x), next, 0, 0);
    assert PLoop(d, x, next) == stay;
    assert Juxtaposed(d, x, next) == stay;
  }

  /** A single letter that nothing adds to is an S by itself. */
  lemma LoneLetterS(d: Dialect, c: Cursor)
    requires c.Valid() && IsLower(c.Current())
    requires var n := Step(d, c).Current(); !IsDigit(n) && !IsLower(n) && n !in "^*/+-"
    ensures S(d, c) == Parsed(Some(Variable(c.Current())), Step(d, c), 1, 0)
  {
    var next := Step(d, c);
    var x := Variable(c.Current());
    LoneLetterP(d, c);
    assert SLoop(d, x, next) == Parsed(Some(x), next, 0, 0);
  }

  /** Whatever S, P, O or T built, T, S, P and O hand it on unchanged at the end of the text. */
  lemma AtEndStays(d: Dialect, acc: Node, c: Cursor)
    requires c.Valid() && WellFormed(acc) && c.AtEnd()
    ensures TLoop(d, acc, c) == Parsed(Some(acc), c, 0, 0)
    ensures SLoop(d, acc, c) == Parsed(Some(acc), c, 0, 0)
    ensures Juxtaposed(d, acc, c) == Parsed(Some(acc), c, 0, 0)
    ensures PLoop(d, acc, c) == Parsed(Some(acc), c, 0, 0)
    ensures OLoop(d, acc, c) == Parsed(Some(acc), c, 0, 0)
  {
  }

  /** One pass of the loop of S: the operand P reads after the operator joins acc. */
  lemma SLoopOnce(d: Dialect, acc: Node, c: Cursor, x: Node, next: Cursor)
    requires c.Valid() && WellFormed(acc) && (c.Current() == '+' || c.Current() == '-')
    requires var p := P(d, Step(d, c)); p.tree == Some(x) && p.cur == next
    ensures var r, rest := SLoop(d, acc, c), SLoop(d, Operator(OpOfChar(c.Current()), acc, x), next);
      r.tree == rest.tree && r.cur == rest.cur
  {
  }

  /** One pass of the second loop of P. */
  lemma PLoopOnce(d: Dialect, acc: Node, c: Cursor, x: Node, next: Cursor)
    requires c.Valid() && WellFormed(acc) && (c.Current() == '*' || c.Current() == '/')
    requires var o := O(d, Step(d, c)); o.tree == Some(x) && o.cur == next
    ensures var r, rest := PLoop(d, acc, c), PLoop(d, Operator(OpOfChar(c.Current()), acc, x), next);
      r.tree == rest.tree && r.cur == rest.cur
  {
  }

  /** One pass of the loop of O. */
  lemma OLoopOnce(d: Dialect, acc: Node, c: Cursor, x: Node, next: Cursor)
    requires c.Valid() && WellFormed(acc) && c.Current() == '^'
    requires var k := K(d, Step(d, c)); k.tree == Some(x) && k.cur == next
    ensures var r, rest := OLoop(d, acc, c), OLoop(d, Operator(Power, acc, x), next);
      r.tree == rest.tree && r.cur == rest.cur
  {
  }

  /** One pass of the loop of T. */
  lemma TLoopOnce(d: Dialect, acc: Node, c: Cursor, yes: Node, colon: Cursor, no: Node, next: Cursor)
    requires c.Valid() && WellFormed(acc) && c.Current() == '?'
    requires var t := S(d, Step(d, c)); t.tree == Some(yes) && t.cur == colon
    requires colon.Valid() && colon.Current() == ':'
    requires var f := S(d, Step(d, colon)); f.tree == Some(no) && f.cur == next
    ensures var r, rest := TLoop(d, acc, c), TLoop(d, Conditional(acc, yes, no), next);
      r.tree == rest.tree && r.cur == rest.cur
  {
  }

  /** A T that reads the whole text is what parse returns. */
  lemma WholeT(s: string, x: Node)
    requires var t := T(Current, Start(s)); t.tree == Some(x) && t.cur.AtEnd()
    ensures Parse(s).outcome == Tree(x)
  {
  }

  /** An S that reads the whole text is what parse returns. */
  lemma WholeS(s: string, x: Node)
    requires var t := S(Current, Start(s)); t.tree == Some(x) && t.cur.AtEnd()
    ensures Parse(s).outcome == Tree(x)
  {
    AtEndStays(Current, x, S(Current, Start(s)).cur);
    WholeT(s, x);
  }

  /** A P that reads the whole text is what parse returns. */
  lemma WholeP(s: string, x: Node)
    requires var t := P(Current, Start(s)); t.tree == Some(x) && t.cur.AtEnd()
    ensures Parse(s).outcome == Tree(x)
  {
    AtEndStays(Current, x, P(Current, Start(s)).cur);
    WholeS(s, x);
  }

  /** An O that reads the whole text is what parse returns. */
  lemma WholeO(s: string, x: Node)
    requires var t := O(Current, Start(s)); t.tree == Some(x) && t.cur.AtEnd()
    ensures Parse(s).outcome == Tree(x)
  {
    AtEndStays(Current, x, O(Current, Start(s)).cur);
    WholeP(s, x);
  }

  /** On a text of letters and operators, the cursor at offset i. */
  function At(s: string, i: nat): Cursor
  {
    Cursor(s, i, if i == |s| then i else i + 1)
  }

  /** parse("a-b-c") is (a - b) - c. */
  lemma SubtractionNestsLeft(s: string)
    requires s == "a-b-c"
    ensures Parse(s).outcome
      == Tree(Operator(Minus, Operator(Minus, Variable('a'), Variable('b')), Variable('c')))
  {
    assert Start(s) == At(s, 0) by { assert CString(s) == s by { assert '\0' !in s; } }
    PlainStep(s, 0);
    PlainStep(s, 1);
    PlainStep(s, 2);
    PlainStep(s, 3);
    PlainStep(s, 4);
    var a, b, c := Variable('a'), Variable('b'), Variable('c');
    var ab := Operator(Minus, a, b);
    LoneLetterP(Current, At(s, 0));
    LoneLetterP(Current, At(s, 2));
    LoneLetterP(Current, At(s, 4));
    SLoopOnce(Current, a, At(s, 1), b, At(s, 3));
    SLoopOnce(Current, ab, At(s, 3), c, At(s, 5));
    AtEndStays(Current, Operator(Minus, ab, c), At(s, 5));
    WholeS(s, Operator(Minus, ab, c));
  }

  /** The second loop of P on "a/b/c" after the a. */
  lemma DivisionLoop(s: string)
    requires s == "a/b/c"
    ensures var r := PLoop(Current, Variable('a'), At(s, 1));
      r.tree == Some(Operator(Divide, Operator(Divide, Variable('a'), Variable('b')), Variable('c')))
      && r.cur == At(s, 5)
  {
    PlainStep(s, 1);
    PlainStep(s, 2);
    PlainStep(s, 3);
    PlainStep(s, 4);
    var a, b, c := Variable('a'), Variable('b'), Variable('c');
    var ab := Operator(Divide, a, b);
    LoneLetterO(Current, At(s, 2));
    LoneLetterO(Current, At(s, 4));
    PLoopOnce(Current, a, At(s, 1), b, At(s, 3));
    PLoopOnce(Current, ab, At(s, 3), c, At(s, 5));
    AtEndStays(Current, Operator(Divide, ab, c), At(s, 5));
  }

  /** parse("a/b/c") is (a / b) / c. */
  lemma DivisionNestsLeft(s: string)
    requires s == "a/b/c"
    ensures Parse(s).outcome
      == Tree(Operator(Divide, Operator(Divide, Variable('a'), Variable('b')), Variable('c')))
  {
    assert Start(s) == At(s, 0) by { assert CString(s) == s by { assert '\0' !in s; } }
    PlainStep(s, 0);
    var a := Variable('a');
    LoneLetterO(Current, At(s, 0));
    DivisionLoop(s);
    assert Juxtaposed(Current, a, At(s, 1)) == PLoop(Current, a, At(s, 1));
    WholeP(s, Operator(Divide, Operator(Divide, a, Variable('b')), Variable('c')));
  }

  /** parse("2^3^2") is (2 ^ 3) ^ 2. */
  lemma PowerNestsLeft(s: string)
    requires s == "2^3^2"
    ensures Parse(s).outcome
      == Tree(Operator(Power, Operator(Power, Number(2.0), Number(3.0)), Number(2.0)))
  {
    assert Start(s) == At(s, 0) by { assert CString(s) == s by { assert '\0' !in s; } }
    PlainStep(s, 0);
    PlainStep(s, 1);
    PlainStep(s, 2);
    PlainStep(s, 3);
    PlainStep(s, 4);
    var two, three := Number(2.0), Number(3.0);
    var ab := Operator(Power, two, three);
    LoneDigitK(Current, At(s, 0));
    LoneDigitK(Current, At(s, 2));
    LoneDigitK(Current, At(s, 4));
    OLoopOnce(Current, two, At(s, 1), three, At(s, 3));
    OLoopOnce(Current, ab, At(s, 3), two, At(s, 5));
    AtEndStays(Current, Operator(Power, ab, two), At(s, 5));
    WholeO(s, Operator(Power, ab, two));
  }

  /** The first pass of the loop of T on "x?a:b?c:d": x ? a : b. */
  lemma ConditionalFirst(s: string)
    requires s == "x?a:b?c:d"
    ensures var r, rest := TLoop(Current, Variable('x'), At(s, 1)),
      TLoop(Current, Conditional(Variable('x'), Variable('a'), Variable('b')), At(s, 5));
      r.tree == rest.tree && r.cur == rest.cur
  {
    PlainStep(s, 1);
    PlainStep(s, 2);
    PlainStep(s, 3);
    PlainStep(s, 4);
    LoneLetterS(Current, At(s, 2));
    LoneLetterS(Current, At(s, 4));
    TLoopOnce(Current, Variable('x'), At(s, 1), Variable('a'), At(s, 3), Variable('b'), At(s, 5));
  }

  /** The second pass of the loop of T on "x?a:b?c:d": (x ? a : b) ? c : d, and the end. */
  lemma ConditionalSecond(s: string, xab: Node)
    requires s == "x?a:b?c:d" && xab == Conditional(Variable('x'), Variable('a'), Variable('b'))
    ensures var r := TLoop(Current, xab, At(s, 5));
      r.tree == Some(Conditional(xab, Variable('c'), Variable('d'))) && r.cur == At(s, 9)
  {
    PlainStep(s, 5);
    PlainStep(s, 6);
    PlainStep(s, 7);
    PlainStep(s, 8);
    LoneLetterS(Current, At(s, 6));
    LoneLetterS(Current, At(s, 8));
    TLoopOnce(Current, xab, At(s, 5), Variable('c'), At(s, 7), Variable('d'), At(s, 9));
    AtEndStays(Current, Conditional(xab, Variable('c'), Variable('d')), At(s, 9));
  }

  /** parse("x?a:b?c:d") is (x ? a : b) ? c : d. */
  lemma ConditionalNestsLeft(s: string)
    requires s == "x?a:b?c:d"
    ensures Parse(s).outcome
      == Tree(Conditional(Conditional(Variable('x'), Variable('a'), Variable('b')), Variable('c'), Variable('d')))
  {
    assert Start(s) == At(s, 0) by { assert CString(s) == s by { assert '\0' !in s; } }
    PlainStep(s, 0);
    LoneLetterS(Current, At(s, 0));
    var xab := Conditional(Variable('x'), Variable('a'), Variable('b'));
    ConditionalFirst(s);
    ConditionalSecond(s, xab);
    WholeT(s, Conditional(xab, Variable('c'), Variable('d')));
  }
}
