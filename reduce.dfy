// The simplifier of formula.c (reduce): sort the tree, reduce the children, then
// rewrite the node by the first rule of its operator's table that matches. An
// addition that matches no rule has its like terms collected (a*4+a*7 -> a*11,
// 2*a+a -> 3*a). With the defects this model reports repaired, a reduced tree has
// the value of the tree it came from whenever that value is defined.
module Reduce {
  import opened Wrappers
  import opened Nodes
  import opened Canonical
  import opened Formula

  // ---------------------------------------------------------------- chain values

  /** The operators sort_tree and the like-term passes reorder: ADD and MULTIPLY. */
  predicate Commutes(o: Op)
  {
    o == Add || o == Multiply
  }

  function Unit(o: Op): real
  {
    if o == Add then 0.0 else 1.0
  }

  /** The sum (ADD) or product (MULTIPLY) of the values of s. */
  function Total(lib: Libm, env: char -> real, o: Op, s: seq<Node>): real
    requires Commutes(o)
    decreases |s|
  {
    if s == [] then Unit(o) else Apply(lib, o, Eval(lib, env, s[0]), Total(lib, env, o, s[1..]))
  }

  lemma {:induction false} TotalAppend(lib: Libm, env: char -> real, o: Op, a: seq<Node>, b: seq<Node>)
    requires Commutes(o)
    ensures Total(lib, env, o, a + b) == Apply(lib, o, Total(lib, env, o, a), Total(lib, env, o, b))
    decreases |a|
  {
    if a == [] {
      assert a + b == b;
    } else {
      assert (a + b)[0] == a[0] && (a + b)[1..] == a[1..] + b;
      TotalAppend(lib, env, o, a[1..], b);
      var e, x, y := Eval(lib, env, a[0]), Total(lib, env, o, a[1..]), Total(lib, env, o, b);
      assert Total(lib, env, o, a + b) == Apply(lib, o, e, Apply(lib, o, x, y));
      assert Total(lib, env, o, a) == Apply(lib, o, e, x);
      Associates(lib, o, e, x, y);
    }
  }

  lemma Associates(lib: Libm, o: Op, e: real, x: real, y: real)
    requires Commutes(o)
    ensures Apply(lib, o, e, Apply(lib, o, x, y)) == Apply(lib, o, Apply(lib, o, e, x), y)
  {
    if o == Multiply {
      assert e * (x * y) == (e * x) * y;
    }
  }

  /** Moving one operand to the front does not change a sum or a product. */
  lemma Rotate(lib: Libm, o: Op, a: real, e: real, b: real)
    requires Commutes(o)
    ensures Apply(lib, o, Apply(lib, o, a, Apply(lib, o, e, Unit(o))), b) == Apply(lib, o, e, Apply(lib, o, a, b))
  {
    if o == Multiply {
      assert (a * (e * 1.0)) * b == e * (a * b);
    }
  }

  /** The total of a chain's operands depends only on their multiset. */
  lemma {:induction false} TotalPermutation(lib: Libm, env: char -> real, o: Op, s: seq<Node>, t: seq<Node>)
    requires Commutes(o) && multiset(s) == multiset(t)
    ensures Total(lib, env, o, s) == Total(lib, env, o, t)
    decreases |s|
  {
    if s == [] {
      assert |t| == |multiset(t)| == 0;
    } else {
      var i := Pick(s, t);
      var rest := t[..i] + t[i + 1..];
      TotalPermutation(lib, env, o, s[1..], rest);
      TotalAppend(lib, env, o, t[..i] + [t[i]], t[i + 1..]);
      TotalAppend(lib, env, o, t[..i], [t[i]]);
      TotalAppend(lib, env, o, t[..i], t[i + 1..]);
      assert [t[i]][1..] == [];
      Rotate(lib, o, Total(lib, env, o, t[..i]), Eval(lib, env, t[i]), Total(lib, env, o, t[i + 1..]));
    }
  }

  /** ADD and MULTIPLY do not care about the order of their operands. */
  lemma ApplySwap(lib: Libm, o: Op, x: real, y: real)
    requires Commutes(o)
    ensures Apply(lib, o, x, y) == Apply(lib, o, y, x)
  {
  }

  /** A single operand totals to its own value. */
  lemma TotalSingle(lib: Libm, env: char -> real, o: Op, n: Node)
    requires Commutes(o)
    ensures Total(lib, env, o, [n]) == Eval(lib, env, n)
  {
    assert Total(lib, env, o, [n]) == Apply(lib, o, Eval(lib, env, n), Unit(o));
  }

  /** A chain of ADD or MULTIPLY nodes is worth the sum or product of its operands. */
  lemma {:induction false} ChainTotal(lib: Libm, env: char -> real, n: Node, o: Op)
    requires Commutes(o) && InChain(n, o)
    ensures Eval(lib, env, n) == Total(lib, env, o, Operands(n, o))
    decreases n
  {
    var x, y := Eval(lib, env, n.left), Eval(lib, env, n.right);
    assert Eval(lib, env, n) == Apply(lib, o, x, y);
    TotalSingle(lib, env, o, n.left);
    TotalSingle(lib, env, o, n.right);
    if InChain(n.left, o) && InChain(n.right, o) {
      ChainTotal(lib, env, n.left, o);
      ChainTotal(lib, env, n.right, o);
      TotalAppend(lib, env, o, Operands(n.left, o), Operands(n.right, o));
    } else if InChain(n.right, o) {
      ChainTotal(lib, env, n.right, o);
      TotalAppend(lib, env, o, Operands(n.right, o), [n.left]);
      ApplySwap(lib, o, x, y);
    } else if InChain(n.left, o) {
      ChainTotal(lib, env, n.left, o);
      TotalAppend(lib, env, o, Operands(n.left, o), [n.right]);
    } else {
      assert [n.left, n.right][1..] == [n.right];
      assert Total(lib, env, o, [n.left, n.right]) == Apply(lib, o, x, Total(lib, env, o, [n.right]));
    }
  }

  // ---------------------------------------------------------------- defined values

  /**
   * The operation of an operator node yields a real number: no quotient by zero and
   * no zero raised to a power that is not positive.
   */
  predicate Safe(o: Op, x: real, y: real)
  {
    (o == Divide ==> y != 0.0) && (o == Power && x == 0.0 ==> y > 0.0)
  }

  /** Every operation on the path calculate_parse_tree evaluates is Safe. */
  predicate Defined(lib: Libm, env: char -> real, n: Node)
  {
    match n
    case Operator(o, l, r) =>
      Defined(lib, env, l) && Defined(lib, env, r) && Safe(o, Eval(lib, env, l), Eval(lib, env, r))
    case Conditional(c, t, f) =>
      Defined(lib, env, c) && (if Eval(lib, env, c) != 0.0 then Defined(lib, env, t) else Defined(lib, env, f))
    case _ => true
  }

  predicate AllDefined(lib: Libm, env: char -> real, s: seq<Node>)
  {
    forall i :: 0 <= i < |s| ==> Defined(lib, env, s[i])
  }

  /** A chain of ADD or MULTIPLY nodes is defined iff each of its operands is. */
  lemma {:induction false} ChainDefined(lib: Libm, env: char -> real, n: Node, o: Op)
    requires Commutes(o) && InChain(n, o)
    ensures Defined(lib, env, n) <==> AllDefined(lib, env, Operands(n, o))
    decreases n
  {
    var l, r := n.left, n.right;
    AllDefinedOne(lib, env, l);
    AllDefinedOne(lib, env, r);
    if InChain(l, o) && InChain(r, o) {
      ChainDefined(lib, env, l, o);
      ChainDefined(lib, env, r, o);
      AllDefinedAppend(lib, env, Operands(l, o), Operands(r, o));
    } else if InChain(r, o) {
      ChainDefined(lib, env, r, o);
      AllDefinedAppend(lib, env, Operands(r, o), [l]);
    } else if InChain(l, o) {
      ChainDefined(lib, env, l, o);
      AllDefinedAppend(lib, env, Operands(l, o), [r]);
    } else {
      AllDefinedAppend(lib, env, [l], [r]);
    }
  }

  lemma AllDefinedOne(lib: Libm, env: char -> real, x: Node)
    ensures AllDefined(lib, env, [x]) <==> Defined(lib, env, x)
  {
    if AllDefined(lib, env, [x]) {
      assert [x][0] == x;
    }
  }

  lemma AllDefinedAppend(lib: Libm, env: char -> real, a: seq<Node>, b: seq<Node>)
    ensures AllDefined(lib, env, a + b) <==> AllDefined(lib, env, a) && AllDefined(lib, env, b)
  {
    if AllDefined(lib, env, a) && AllDefined(lib, env, b) {
      forall i | 0 <= i < |a + b|
        ensures Defined(lib, env, (a + b)[i])
      {
        if i < |a| {
          assert (a + b)[i] == a[i];
        } else {
          assert (a + b)[i] == b[i - |a|];
        }
      }
    }
    if AllDefined(lib, env, a + b) {
      forall i | 0 <= i < |a|
        ensures Defined(lib, env, a[i])
      {
        assert (a + b)[i] == a[i];
      }
      forall i | 0 <= i < |b|
        ensures Defined(lib, env, b[i])
      {
        assert (a + b)[|a| + i] == b[i];
      }
    }
  }

  lemma AllDefinedPermutation(lib: Libm, env: char -> real, s: seq<Node>, t: seq<Node>)
    requires multiset(s) == multiset(t) && AllDefined(lib, env, s)
    ensures AllDefined(lib, env, t)
  {
    forall i | 0 <= i < |t|
      ensures Defined(lib, env, t[i])
    {
      assert t[i] in multiset(s);
      var k :| 0 <= k < |s| && s[k] == t[i];
    }
  }

  /** Rearranging an ADD or MULTIPLY chain keeps its value and its definedness. */
  lemma RearrangedSound(lib: Libm, env: char -> real, m: Node)
    requires m.Operator? && Commutes(m.op)
    ensures Eval(lib, env, Rearranged(m)) == Eval(lib, env, m)
    ensures Defined(lib, env, m) ==> Defined(lib, env, Rearranged(m))
  {
    var o, r := m.op, Rearranged(m);
    var ops := Operands(m, o);
    ChainTotal(lib, env, m, o);
    ChainTotal(lib, env, r, o);
    TotalPermutation(lib, env, o, ops, Arrange(ops));
    if Defined(lib, env, m) {
      ChainDefined(lib, env, m, o);
      AllDefinedPermutation(lib, env, ops, Arrange(ops));
      ChainDefined(lib, env, r, o);
    }
  }

  /**
   * sort_tree with E_SYMBOL left in place keeps the value of the tree, and a tree
   * whose value is defined stays defined.
   */
  lemma {:induction false} SortedTreeSound(lib: Libm, env: char -> real, n: Node)
    ensures Eval(lib, env, SortedTree(n, Repaired)) == Eval(lib, env, n)
    ensures Defined(lib, env, n) ==> Defined(lib, env, SortedTree(n, Repaired))
    decreases n
  {
    match n
    case Conditional(c, t, f) =>
      SortedTreeSound(lib, env, c);
      SortedTreeSound(lib, env, t);
      SortedTreeSound(lib, env, f);
    case Operator(o, a, b) =>
      SortedTreeSound(lib, env, a);
      SortedTreeSound(lib, env, b);
      var m := Operator(o, SortedTree(a, Repaired), SortedTree(b, Repaired));
      if !Unsorted(o, Repaired) {
        RearrangedSound(lib, env, m);
      }
    case _ =>
  }

  // ---------------------------------------------------------------- rule tables

  /** cmp_trees as written compares serialisations; repaired, the trees themselves. */
  predicate Same(a: Node, b: Node, rev: Revision)
  {
    if rev == AsWritten then SameTree(a, b) else a == b
  }

  /** ADD: fold, 0+x, x+0, x+x, t+t, then like terms. */
  function AddRule(l: Node, r: Node, rev: Revision): Node
  {
    if l.Number? && r.Number? then Number(l.value + r.value)
    else if l == Number(0.0) then r
    else if r == Number(0.0) then l
    else if SameLeaf(l, r) then Operator(Multiply, Number(2.0), r)
    else if Same(l, r, rev) then Operator(Multiply, Number(2.0), r)
    else LikeTerms(Operator(Add, l, r), rev)
  }

  /** MINUS: fold, x-x, x-0, t-t. */
  function MinusRule(l: Node, r: Node, rev: Revision): Node
  {
    if l.Number? && r.Number? then Number(l.value - r.value)
    else if SameLeaf(l, r) then Number(0.0)
    else if r == Number(0.0) then l
    else if Same(l, r, rev) then Number(0.0)
    else Operator(Minus, l, r)
  }

  /** MULTIPLY: fold, a zero operand, 1*x, x*1, x*x. */
  function MultiplyRule(l: Node, r: Node): Node
  {
    if l.Number? && r.Number? then Number(l.value * r.value)
    else if l == Number(0.0) || r == Number(0.0) then Number(0.0)
    else if l == Number(1.0) then r
    else if r == Number(1.0) then l
    else if SameLeaf(l, r) then Operator(Power, l, Number(2.0))
    else Operator(Multiply, l, r)
  }

  /** DIVIDE: fold, 0/x, x/0 (1.0/0.0), x/x, x/1, t/t. */
  function DivideRule(lib: Libm, l: Node, r: Node, rev: Revision): Node
  {
    if l.Number? && r.Number? then Number(Quotient(lib, l.value, r.value))
    else if l == Number(0.0) then Number(0.0)
    else if r == Number(0.0) then Number(Quotient(lib, 1.0, 0.0))
    else if SameLeaf(l, r) then Number(1.0)
    else if r == Number(1.0) then l
    else if Same(l, r, rev) then Number(1.0)
    else Operator(Divide, l, r)
  }

  /** POWER: fold, 0^x, x^0, x^1, 1^x. */
  function PowerRule(lib: Libm, l: Node, r: Node): Node
  {
    if l.Number? && r.Number? then Number(lib.pow(l.value, r.value))
    else if l == Number(0.0) then Number(0.0)
    else if r == Number(0.0) then Number(1.0)
    else if r == Number(1.0) then l
    else if l == Number(1.0) then Number(1.0)
    else Operator(Power, l, r)
  }

  /** E_SYMBOL: folds two numbers into mantissa * 10^exponent, nothing else. */
  function ScientificRule(lib: Libm, l: Node, r: Node): Node
  {
    if l.Number? && r.Number? then Number(l.value * lib.pow(10.0, r.value))
    else Operator(ESymbol, l, r)
  }

  /** The rule table of operator o applied to the reduced children l and r. */
  function Rule(lib: Libm, o: Op, l: Node, r: Node, rev: Revision): Node
  {
    match o
    case Add => AddRule(l, r, rev)
    case Minus => MinusRule(l, r, rev)
    case Multiply => MultiplyRule(l, r)
    case Divide => DivideRule(lib, l, r, rev)
    case Power => PowerRule(lib, l, r)
    case ESymbol => ScientificRule(lib, l, r)
  }

  /**
   * reduce: sort the tree, reduce the children, then apply the rule table; a
   * conditional whose reduced condition is a number becomes the branch it selects.
   */
  function Reduce(lib: Libm, n: Node, rev: Revision): Node
    decreases Size(n)
  {
    var t := SortedTree(n, rev);
    match t
    case Operator(o, a, b) => Rule(lib, o, Reduce(lib, a, rev), Reduce(lib, b, rev), rev)
    case Conditional(c, x, y) =>
      var c', x', y' := Reduce(lib, c, rev), Reduce(lib, x, rev), Reduce(lib, y, rev);
      if c'.Number? then (if c'.value != 0.0 then x' else y') else Conditional(c', x', y')
    case _ => t
  }

  // ---------------------------------------------------------------- like terms

  // The operands of the ADD chain are kept as slots in the order get_operands lists
  // them; a slot becomes None when its operand is merged into another one.

  predicate IsProduct(n: Node)
  {
    n.Operator? && n.op == Multiply
  }

  /** Two variables taken for the same term: as written any two, repaired equal names only. */
  predicate Alike(x: Node, y: Node, rev: Revision)
  {
    rev == AsWritten || x == y
  }

  /**
   * The four cases of the merge pass: two products of a variable and a number (in
   * either order) become one product whose number is the sum of the two numbers.
   */
  function Combined(t: Node, u: Node, rev: Revision): (r: Option<Node>)
    requires IsProduct(t) && IsProduct(u)
    ensures r.Some? ==> IsProduct(r.value)
  {
    var a, b, c, d := t.left, t.right, u.left, u.right;
    if a.Operator? || b.Operator? || c.Operator? || d.Operator? then None
    else if a.Variable? && b.Number? && c.Variable? && d.Number? then
      if Alike(a, c, rev) then Some(Operator(Multiply, a, Number(b.value + d.value))) else None
    else if a.Variable? && b.Number? && c.Number? && d.Variable? then
      if Alike(a, d, rev) then Some(Operator(Multiply, a, Number(b.value + c.value))) else None
    else if a.Number? && b.Variable? && c.Variable? && d.Number? then
      if Alike(b, c, rev) then Some(Operator(Multiply, Number(a.value + d.value), b)) else None
    else if a.Number? && b.Variable? && c.Number? && d.Variable? then
      if Alike(b, d, rev) then Some(Operator(Multiply, Number(a.value + c.value), b)) else None
    else None
  }

  /** The two cases of the absorb pass: a product of v and a number takes v in, adding 1. */
  function Bumped(t: Node, v: Node): (r: Option<Node>)
    requires IsProduct(t) && v.Variable?
    ensures r.Some? ==> IsProduct(r.value)
  {
    var a, b := t.left, t.right;
    if a.Variable? && b.Number? && a == v then Some(Operator(Multiply, a, Number(b.value + 1.0)))
    else if a.Number? && b == v then Some(Operator(Multiply, Number(a.value + 1.0), b))
    else None
  }

  function Wrap(s: seq<Node>): (r: seq<Option<Node>>)
    ensures |r| == |s| && forall i :: 0 <= i < |s| ==> r[i] == Some(s[i])
  {
    if s == [] then [] else [Some(s[0])] + Wrap(s[1..])
  }

  /** Some operand is left. */
  predicate AnyLeft(s: seq<Option<Node>>)
  {
    exists k :: 0 <= k < |s| && s[k].Some?
  }

  /** The inner loop of the merge pass: the product at i meets every later product. */
  function MergeInto(s: seq<Option<Node>>, i: nat, j: nat, rev: Revision): (r: seq<Option<Node>>)
    requires i < j <= |s| && s[i].Some? && IsProduct(s[i].value)
    ensures |r| == |s| && r[i].Some? && IsProduct(r[i].value)
    decreases |s| - j
  {
    if j == |s| then s
    else if s[j].Some? && IsProduct(s[j].value) && Combined(s[i].value, s[j].value, rev).Some? then
      MergeInto(s[i := Combined(s[i].value, s[j].value, rev)][j := None], i, j + 1, rev)
    else MergeInto(s, i, j + 1, rev)
  }

  /** The outer loop of the merge pass, from slot i on. */
  function MergeFrom(s: seq<Option<Node>>, i: nat, rev: Revision): (r: seq<Option<Node>>)
    requires i <= |s|
    ensures |r| == |s| && (AnyLeft(s) ==> AnyLeft(r))
    decreases |s| - i
  {
    if i == |s| then s
    else if s[i].Some? && IsProduct(s[i].value) then MergeFrom(MergeInto(s, i, i + 1, rev), i + 1, rev)
    else MergeFrom(s, i + 1, rev)
  }

  /** The inner loop of the absorb pass: the product at i meets every variable. */
  function AbsorbInto(s: seq<Option<Node>>, i: nat, k: nat): (r: seq<Option<Node>>)
    requires i < |s| && k <= |s| && s[i].Some? && IsProduct(s[i].value)
    ensures |r| == |s| && r[i].Some? && IsProduct(r[i].value)
    decreases |s| - k
  {
    if k == |s| then s
    else if s[k].Some? && s[k].value.Variable? && Bumped(s[i].value, s[k].value).Some? then
      AbsorbInto(s[i := Bumped(s[i].value, s[k].value)][k := None], i, k + 1)
    else AbsorbInto(s, i, k + 1)
  }

  /** The outer loop of the absorb pass, from slot i on. */
  function AbsorbFrom(s: seq<Option<Node>>, i: nat): (r: seq<Option<Node>>)
    requires i <= |s|
    ensures |r| == |s| && (AnyLeft(s) ==> AnyLeft(r))
    decreases |s| - i
  {
    if i == |s| then s
    else if s[i].Some? && IsProduct(s[i].value) then AbsorbFrom(AbsorbInto(s, i, 0), i + 1)
    else AbsorbFrom(s, i + 1)
  }

  /** An operator node over two optional operands: a missing one leaves its sibling. */
  function Join(o: Op, l: Option<Node>, r: Option<Node>): Option<Node>
  {
    match (l, r)
    case (Some(x), Some(y)) => Some(Operator(o, x, y))
    case (Some(_), None) => l
    case (None, _) => r
  }

  /**
   * The chain at n with its operand positions filled from the slots; the parent of a
   * removed operand is replaced by the other child.
   */
  function Prune(n: Node, o: Op, s: seq<Option<Node>>): Option<Node>
    requires InChain(n, o) && |s| == |Operands(n, o)|
    decreases n
  {
    if InChain(n.left, o) && InChain(n.right, o) then
      var k := |Operands(n.left, o)|;
      Join(o, Prune(n.left, o, s[..k]), Prune(n.right, o, s[k..]))
    else if InChain(n.right, o) then
      var k := |Operands(n.right, o)|;
      Join(o, s[k], Prune(n.right, o, s[..k]))
    else if InChain(n.left, o) then
      var k := |Operands(n.left, o)|;
      Join(o, Prune(n.left, o, s[..k]), s[k])
    else Join(o, s[0], s[1])
  }

  lemma AnyLeftSplit(s: seq<Option<Node>>, k: nat)
    requires k <= |s|
    ensures AnyLeft(s) <==> AnyLeft(s[..k]) || AnyLeft(s[k..])
  {
    if AnyLeft(s) {
      var j :| 0 <= j < |s| && s[j].Some?;
      if j < k {
        assert s[..k][j] == s[j];
      } else {
        assert s[k..][j - k] == s[j];
      }
    }
    if AnyLeft(s[..k]) {
      var j :| 0 <= j < k && s[..k][j].Some?;
      assert s[j] == s[..k][j];
    }
    if AnyLeft(s[k..]) {
      var j :| 0 <= j < |s| - k && s[k..][j].Some?;
      assert s[k + j] == s[k..][j];
    }
  }

  /** Prune leaves a tree iff some slot still holds an operand. */
  lemma {:induction false} PruneSome(n: Node, o: Op, s: seq<Option<Node>>)
    requires InChain(n, o) && |s| == |Operands(n, o)|
    ensures Prune(n, o, s).Some? <==> AnyLeft(s)
    decreases n
  {
    if InChain(n.left, o) && InChain(n.right, o) {
      var k := |Operands(n.left, o)|;
      PruneSome(n.left, o, s[..k]);
      PruneSome(n.right, o, s[k..]);
      AnyLeftSplit(s, k);
    } else if InChain(n.right, o) {
      var k := |Operands(n.right, o)|;
      PruneSome(n.right, o, s[..k]);
      AnyLeftSplit(s, k);
      assert s[k..] == [s[k]];
    } else if InChain(n.left, o) {
      var k := |Operands(n.left, o)|;
      PruneSome(n.left, o, s[..k]);
      AnyLeftSplit(s, k);
      assert s[k..] == [s[k]];
    } else {
      AnyLeftSplit(s, 1);
      assert s[..1] == [s[0]] && s[1..] == [s[1]];
    }
  }

  /** The slots of an ADD chain after the merge pass and the absorb pass. */
  function Collected(m: Node, rev: Revision): (r: seq<Option<Node>>)
    requires InChain(m, Add)
    ensures |r| == |Operands(m, Add)| && AnyLeft(r)
  {
    var ops := Operands(m, Add);
    assert Wrap(ops)[0].Some?;
    AbsorbFrom(MergeFrom(Wrap(ops), 0, rev), 0)
  }

  /** The like-term section of ADD: the chain rebuilt from what the two passes leave. */
  function LikeTerms(m: Node, rev: Revision): Node
    requires InChain(m, Add)
  {
    var slots := Collected(m, rev);
    PruneSome(m, Add, slots);
    Prune(m, Add, slots).value
  }

  // ---------------------------------------------------------------- the passes in place

  /** The merge pass: each product in turn takes in every later product it matches. */
  method MergeLikeTerms(slots: array<Option<Node>>, rev: Revision)
    modifies slots
    ensures slots[..] == MergeFrom(old(slots[..]), 0, rev)
  {
    ghost var goal := MergeFrom(slots[..], 0, rev);
    var i := 0;
    while i < slots.Length
      invariant i <= slots.Length
      invariant MergeFrom(slots[..], i, rev) == goal
    {
      if slots[i].Some? && IsProduct(slots[i].value) {
        MergeProduct(slots, i, rev);
      }
      i := i + 1;
    }
  }

  /** The inner loop of the merge pass: the product at i takes in every later product it matches. */
  method MergeProduct(slots: array<Option<Node>>, i: nat, rev: Revision)
    requires i < slots.Length && slots[i].Some? && IsProduct(slots[i].value)
    modifies slots
    ensures slots[..] == MergeInto(old(slots[..]), i, i + 1, rev)
  {
    ghost var goal := MergeInto(slots[..], i, i + 1, rev);
    var j := i + 1;
    while j < slots.Length
      invariant i < j <= slots.Length
      invariant slots[i].Some? && IsProduct(slots[i].value)
      invariant MergeInto(slots[..], i, j, rev) == goal
    {
      var other := slots[j];
      if other.Some? && IsProduct(other.value) {
        var merged := Combined(slots[i].value, other.value, rev);
        if merged.Some? {
          ghost var before := slots[..];
          slots[i] := merged;
          slots[j] := None;
          assert slots[..] == before[i := merged][j := None];
        }
      }
      j := j + 1;
    }
  }



  /** The absorb pass: each product in turn takes in every variable it matches. */
  method AbsorbVariables(slots: array<Option<Node>>)
    modifies slots
    ensures slots[..] == AbsorbFrom(old(slots[..]), 0)
  {
    ghost var goal := AbsorbFrom(slots[..], 0);
    var i := 0;
    while i < slots.Length
      invariant i <= slots.Length
      invariant AbsorbFrom(slots[..], i) == goal
    {
      if slots[i].Some? && IsProduct(slots[i].value) {
        AbsorbProduct(slots, i);
      }
      i := i + 1;
    }
  }

  /** The inner loop of the absorb pass: the product at i takes in every variable it matches. */
  method AbsorbProduct(slots: array<Option<Node>>, i: nat)
    requires i < slots.Length && slots[i].Some? && IsProduct(slots[i].value)
    modifies slots
    ensures slots[..] == AbsorbInto(old(slots[..]), i, 0)
  {
    ghost var goal := AbsorbInto(slots[..], i, 0);
    var k := 0;
    while k < slots.Length
      invariant k <= slots.Length
      invariant slots[i].Some? && IsProduct(slots[i].value)
      invariant AbsorbInto(slots[..], i, k) == goal
    {
      var c := slots[k];
      if c.Some? && c.value.Variable? {
        var bumped := Bumped(slots[i].value, c.value);
        if bumped.Some? {
          ghost var before := slots[..];
          slots[i] := bumped;
          slots[k] := None;
          assert slots[..] == before[i := bumped][k := None];
        }
      }
      k := k + 1;
    }
  }


  /**
   * The like-term section of ADD: list the operands of the chain, run the two passes
   * over them and rebuild the chain from what is left.
   */
  method CollectLikeTerms(m: Node, rev: Revision) returns (r: Node)
    requires InChain(m, Add)
    ensures r == LikeTerms(m, rev)
  {
    var all := GetOperands(m, Add);
    var ops := all.elements;
    var slots := new Option<Node>[|ops|](i requires 0 <= i < |ops| => Some(ops[i]));
    assert slots[..] == Wrap(ops);
    MergeLikeTerms(slots, rev);
    AbsorbVariables(slots);
    assert slots[..] == Collected(m, rev);
    PruneSome(m, Add, slots[..]);
    r := Prune(m, Add, slots[..]).value;
  }

  // ---------------------------------------------------------------- values of the passes

  function Value(lib: Libm, env: char -> real, t: Option<Node>): real
  {
    if t.Some? then Eval(lib, env, t.value) else 0.0
  }

  /** The sum of the operands still held by the slots. */
  function SlotSum(lib: Libm, env: char -> real, s: seq<Option<Node>>): real
    decreases |s|
  {
    if s == [] then 0.0 else Value(lib, env, s[0]) + SlotSum(lib, env, s[1..])
  }

  lemma {:induction false} SlotSumAppend(lib: Libm, env: char -> real, a: seq<Option<Node>>, b: seq<Option<Node>>)
    ensures SlotSum(lib, env, a + b) == SlotSum(lib, env, a) + SlotSum(lib, env, b)
    decreases |a|
  {
    if a == [] {
      assert a + b == b;
    } else {
      assert (a + b)[0] == a[0] && (a + b)[1..] == a[1..] + b;
      SlotSumAppend(lib, env, a[1..], b);
    }
  }

  /** Replacing one slot changes the sum by the difference of the two values. */
  lemma {:induction false} SlotSumUpdate(lib: Libm, env: char -> real, s: seq<Option<Node>>, k: nat, v: Option<Node>)
    requires k < |s|
    ensures SlotSum(lib, env, s[k := v]) == SlotSum(lib, env, s) - Value(lib, env, s[k]) + Value(lib, env, v)
    decreases |s|
  {
    if k > 0 {
      assert s[k := v][1..] == s[1..][k - 1 := v];
      SlotSumUpdate(lib, env, s[1..], k - 1, v);
    }
  }

  /** The operands of an ADD chain wrapped in slots sum to the chain's total. */
  lemma {:induction false} WrapSum(lib: Libm, env: char -> real, s: seq<Node>)
    ensures SlotSum(lib, env, Wrap(s)) == Total(lib, env, Add, s)
    decreases |s|
  {
    if s != [] {
      assert Wrap(s)[1..] == Wrap(s[1..]);
      WrapSum(lib, env, s[1..]);
    }
  }

  /** With names compared, a merged product is worth the two products it replaces. */
  lemma CombinedSum(lib: Libm, env: char -> real, t: Node, u: Node)
    requires IsProduct(t) && IsProduct(u) && Combined(t, u, Repaired).Some?
    ensures Eval(lib, env, Combined(t, u, Repaired).value) == Eval(lib, env, t) + Eval(lib, env, u)
  {
    var a, b, c, d := t.left, t.right, u.left, u.right;
    var x, y, z, w := Eval(lib, env, a), Eval(lib, env, b), Eval(lib, env, c), Eval(lib, env, d);
    assert x * (y + w) == x * y + x * w;
    assert x * (y + z) == x * y + z * x;
    assert (x + w) * y == x * y + y * w;
    assert (x + z) * y == x * y + z * y;
  }

  /** An absorbing product is worth itself plus the variable it takes in. */
  lemma BumpedSum(lib: Libm, env: char -> real, t: Node, v: Node)
    requires IsProduct(t) && v.Variable? && Bumped(t, v).Some?
    ensures Eval(lib, env, Bumped(t, v).value) == Eval(lib, env, t) + Eval(lib, env, v)
  {
    var x, y := Eval(lib, env, t.left), Eval(lib, env, t.right);
    assert x * (y + 1.0) == x * y + x;
    assert (x + 1.0) * y == x * y + y;
  }

  lemma {:induction false} MergeIntoSum(lib: Libm, env: char -> real, s: seq<Option<Node>>, i: nat, j: nat)
    requires i < j <= |s| && s[i].Some? && IsProduct(s[i].value)
    ensures SlotSum(lib, env, MergeInto(s, i, j, Repaired)) == SlotSum(lib, env, s)
    decreases |s| - j
  {
    if j < |s| {
      if s[j].Some? && IsProduct(s[j].value) && Combined(s[i].value, s[j].value, Repaired).Some? {
        var merged := Combined(s[i].value, s[j].value, Repaired);
        CombinedSum(lib, env, s[i].value, s[j].value);
        SlotSumUpdate(lib, env, s, i, merged);
        SlotSumUpdate(lib, env, s[i := merged], j, None);
        MergeIntoSum(lib, env, s[i := merged][j := None], i, j + 1);
      } else {
        MergeIntoSum(lib, env, s, i, j + 1);
      }
    }
  }

  /** With names compared, the merge pass keeps the sum of the operands. */
  lemma {:induction false} MergeFromSum(lib: Libm, env: char -> real, s: seq<Option<Node>>, i: nat)
    requires i <= |s|
    ensures SlotSum(lib, env, MergeFrom(s, i, Repaired)) == SlotSum(lib, env, s)
    decreases |s| - i
  {
    if i < |s| {
      if s[i].Some? && IsProduct(s[i].value) {
        MergeIntoSum(lib, env, s, i, i + 1);
        MergeFromSum(lib, env, MergeInto(s, i, i + 1, Repaired), i + 1);
      } else {
        MergeFromSum(lib, env, s, i + 1);
      }
    }
  }

  lemma {:induction false} AbsorbIntoSum(lib: Libm, env: char -> real, s: seq<Option<Node>>, i: nat, k: nat)
    requires i < |s| && k <= |s| && s[i].Some? && IsProduct(s[i].value)
    ensures SlotSum(lib, env, AbsorbInto(s, i, k)) == SlotSum(lib, env, s)
    decreases |s| - k
  {
    if k < |s| {
      if s[k].Some? && s[k].value.Variable? && Bumped(s[i].value, s[k].value).Some? {
        var bumped := Bumped(s[i].value, s[k].value);
        BumpedSum(lib, env, s[i].value, s[k].value);
        SlotSumUpdate(lib, env, s, i, bumped);
        SlotSumUpdate(lib, env, s[i := bumped], k, None);
        AbsorbIntoSum(lib, env, s[i := bumped][k := None], i, k + 1);
      } else {
        AbsorbIntoSum(lib, env, s, i, k + 1);
      }
    }
  }

  /** The absorb pass keeps the sum of the operands. */
  lemma {:induction false} AbsorbFromSum(lib: Libm, env: char -> real, s: seq<Option<Node>>, i: nat)
    requires i <= |s|
    ensures SlotSum(lib, env, AbsorbFrom(s, i)) == SlotSum(lib, env, s)
    decreases |s| - i
  {
    if i < |s| {
      if s[i].Some? && IsProduct(s[i].value) {
        AbsorbIntoSum(lib, env, s, i, 0);
        AbsorbFromSum(lib, env, AbsorbInto(s, i, 0), i + 1);
      } else {
        AbsorbFromSum(lib, env, s, i + 1);
      }
    }
  }

  lemma JoinSum(lib: Libm, env: char -> real, l: Option<Node>, r: Option<Node>)
    ensures Value(lib, env, Join(Add, l, r)) == Value(lib, env, l) + Value(lib, env, r)
  {
  }

  /** The pruned chain is worth the sum of the slots that fill it. */
  lemma {:induction false} PruneSum(lib: Libm, env: char -> real, n: Node, s: seq<Option<Node>>)
    requires InChain(n, Add) && |s| == |Operands(n, Add)|
    ensures Value(lib, env, Prune(n, Add, s)) == SlotSum(lib, env, s)
    decreases n, 1
  {
    if InChain(n.left, Add) && InChain(n.right, Add) {
      PruneSumForks(lib, env, n, s);
    } else if InChain(n.right, Add) {
      PruneSumRight(lib, env, n, s);
    } else if InChain(n.left, Add) {
      PruneSumLeft(lib, env, n, s);
    } else {
      assert Prune(n, Add, s) == Join(Add, s[0], s[1]);
      JoinSum(lib, env, s[0], s[1]);
      SlotSumLast(lib, env, s, 1);
      assert s[..1] == [s[0]];
    }
  }

  lemma {:induction false} PruneSumForks(lib: Libm, env: char -> real, n: Node, s: seq<Option<Node>>)
    requires InChain(n, Add) && InChain(n.left, Add) && InChain(n.right, Add) && |s| == |Operands(n, Add)|
    ensures Value(lib, env, Prune(n, Add, s)) == SlotSum(lib, env, s)
    decreases n, 0
  {
    var k := |Operands(n.left, Add)|;
    PruneSum(lib, env, n.left, s[..k]);
    PruneSum(lib, env, n.right, s[k..]);
    assert Prune(n, Add, s) == Join(Add, Prune(n.left, Add, s[..k]), Prune(n.right, Add, s[k..]));
    JoinSum(lib, env, Prune(n.left, Add, s[..k]), Prune(n.right, Add, s[k..]));
    SlotSumAppend(lib, env, s[..k], s[k..]);
    SplitJoin(s, k);
  }

  lemma {:induction false} PruneSumRight(lib: Libm, env: char -> real, n: Node, s: seq<Option<Node>>)
    requires InChain(n, Add) && !InChain(n.left, Add) && InChain(n.right, Add) && |s| == |Operands(n, Add)|
    ensures Value(lib, env, Prune(n, Add, s)) == SlotSum(lib, env, s)
    decreases n, 0
  {
    var k := |Operands(n.right, Add)|;
    PruneSum(lib, env, n.right, s[..k]);
    assert Prune(n, Add, s) == Join(Add, s[k], Prune(n.right, Add, s[..k]));
    JoinSum(lib, env, s[k], Prune(n.right, Add, s[..k]));
    SlotSumLast(lib, env, s, k);
  }

  lemma {:induction false} PruneSumLeft(lib: Libm, env: char -> real, n: Node, s: seq<Option<Node>>)
    requires InChain(n, Add) && InChain(n.left, Add) && !InChain(n.right, Add) && |s| == |Operands(n, Add)|
    ensures Value(lib, env, Prune(n, Add, s)) == SlotSum(lib, env, s)
    decreases n, 0
  {
    var k := |Operands(n.left, Add)|;
    PruneSum(lib, env, n.left, s[..k]);
    assert Prune(n, Add, s) == Join(Add, Prune(n.left, Add, s[..k]), s[k]);
    JoinSum(lib, env, Prune(n.left, Add, s[..k]), s[k]);
    SlotSumLast(lib, env, s, k);
  }


  /** The sum of slots that end in one more slot. */
  lemma SlotSumLast(lib: Libm, env: char -> real, s: seq<Option<Node>>, k: nat)
    requires |s| == k + 1
    ensures SlotSum(lib, env, s) == SlotSum(lib, env, s[..k]) + Value(lib, env, s[k])
  {
    SlotSumAppend(lib, env, s[..k], [s[k]]);
    SplitLast(s, k);
    assert SlotSum(lib, env, [s[k]]) == Value(lib, env, s[k]) + SlotSum(lib, env, []);
  }

  /** With names compared, collecting like terms keeps the value of the sum. */
  lemma LikeTermsSound(lib: Libm, env: char -> real, m: Node)
    requires InChain(m, Add)
    ensures Eval(lib, env, LikeTerms(m, Repaired)) == Eval(lib, env, m)
  {
    var ops := Operands(m, Add);
    var merged := MergeFrom(Wrap(ops), 0, Repaired);
    var slots := AbsorbFrom(merged, 0);
    ChainTotal(lib, env, m, Add);
    WrapSum(lib, env, ops);
    MergeFromSum(lib, env, Wrap(ops), 0);
    AbsorbFromSum(lib, env, merged, 0);
    PruneSome(m, Add, slots);
    PruneSum(lib, env, m, slots);
  }

  // ---------------------------------------------------------------- soundness

  ghost predicate Squares(lib: Libm)
  {
    forall x :: lib.pow(x, 2.0) == x * x
  }

  /** The laws of libm's pow that the rules of POWER and MULTIPLY rely on. */
  ghost predicate Lawful(lib: Libm)
  {
    (forall x :: lib.pow(x, 0.0) == 1.0) && (forall x :: lib.pow(x, 1.0) == x)
    && Squares(lib) && (forall y :: lib.pow(1.0, y) == 1.0)
    && (forall y :: y > 0.0 ==> lib.pow(0.0, y) == 0.0)
  }

  /** ADD, repaired: every rule gives a tree worth the sum of the two operands. */
  lemma AddRuleSound(lib: Libm, env: char -> real, l: Node, r: Node)
    ensures Eval(lib, env, AddRule(l, r, Repaired)) == Eval(lib, env, l) + Eval(lib, env, r)
  {
    if !(l.Number? && r.Number?) && l != Number(0.0) && r != Number(0.0) && !SameLeaf(l, r) && l != r {
      LikeTermsSound(lib, env, Operator(Add, l, r));
    }
  }

  /** MINUS, repaired: every rule gives a tree worth the difference. */
  lemma MinusRuleSound(lib: Libm, env: char -> real, l: Node, r: Node)
    ensures Eval(lib, env, MinusRule(l, r, Repaired)) == Eval(lib, env, l) - Eval(lib, env, r)
  {
  }

  /** MULTIPLY: every rule gives a tree worth the product, given pow(x, 2) = x * x. */
  lemma MultiplyRuleSound(lib: Libm, env: char -> real, l: Node, r: Node)
    requires Squares(lib)
    ensures Eval(lib, env, MultiplyRule(l, r)) == Eval(lib, env, l) * Eval(lib, env, r)
  {
    if l.Variable? && l == r {
      var x := Eval(lib, env, l);
      assert MultiplyRule(l, r) == Operator(Power, l, Number(2.0));
      assert lib.pow(x, 2.0) == x * x;
    } else {
      MultiplyOtherSound(lib, env, l, r);
    }
  }

  /** MULTIPLY short of x*x: the rules that need no law of pow. */
  lemma MultiplyOtherSound(lib: Libm, env: char -> real, l: Node, r: Node)
    requires !(l.Variable? && l == r)
    ensures Eval(lib, env, MultiplyRule(l, r)) == Eval(lib, env, l) * Eval(lib, env, r)
  {
    if l.Number? && r.Number? {
      MultiplyFoldSound(lib, env, l, r);
    } else if l == Number(0.0) || r == Number(0.0) {
      MultiplyZeroSound(lib, env, l, r);
    } else if l == Number(1.0) || r == Number(1.0) {
      MultiplyOneSound(lib, env, l, r);
    } else {
      MultiplyKeptSound(lib, env, l, r);
    }
  }

  lemma MultiplyFoldSound(lib: Libm, env: char -> real, l: Node, r: Node)
    requires l.Number? && r.Number?
    ensures Eval(lib, env, MultiplyRule(l, r)) == Eval(lib, env, l) * Eval(lib, env, r)
  {
    assert MultiplyRule(l, r) == Number(l.value * r.value);
  }

  lemma MultiplyKeptSound(lib: Libm, env: char -> real, l: Node, r: Node)
    requires !(l.Number? && r.Number?) && !(l.Variable? && l == r)
    requires l != Number(0.0) && r != Number(0.0) && l != Number(1.0) && r != Number(1.0)
    ensures Eval(lib, env, MultiplyRule(l, r)) == Eval(lib, env, l) * Eval(lib, env, r)
  {
    var x, y := Eval(lib, env, l), Eval(lib, env, r);
    assert !SameLeaf(l, r);
    assert MultiplyRule(l, r) == Operator(Multiply, l, r);
    assert Eval(lib, env, Operator(Multiply, l, r)) == Apply(lib, Multiply, x, y);
  }

  lemma MultiplyZeroSound(lib: Libm, env: char -> real, l: Node, r: Node)
    requires !(l.Number? && r.Number?) && (l == Number(0.0) || r == Number(0.0))
    ensures Eval(lib, env, MultiplyRule(l, r)) == Eval(lib, env, l) * Eval(lib, env, r)
  {
    var x, y := Eval(lib, env, l), Eval(lib, env, r);
    assert MultiplyRule(l, r) == Number(0.0);
    assert x == 0.0 || y == 0.0;
  }

  lemma MultiplyOneSound(lib: Libm, env: char -> real, l: Node, r: Node)
    requires !(l.Number? && r.Number?) && l != Number(0.0) && r != Number(0.0)
    requires l == Number(1.0) || r == Number(1.0)
    ensures Eval(lib, env, MultiplyRule(l, r)) == Eval(lib, env, l) * Eval(lib, env, r)
  {
    var x, y := Eval(lib, env, l), Eval(lib, env, r);
    if l == Number(1.0) {
      assert MultiplyRule(l, r) == r && x == 1.0;
    } else {
      assert MultiplyRule(l, r) == l && y == 1.0;
    }
  }

  /** DIVIDE, repaired: every rule gives a tree worth the quotient by a nonzero divisor. */
  lemma DivideRuleSound(lib: Libm, env: char -> real, l: Node, r: Node)
    requires Eval(lib, env, r) != 0.0
    ensures Eval(lib, env, DivideRule(lib, l, r, Repaired)) == Eval(lib, env, l) / Eval(lib, env, r)
  {
    var x, y := Eval(lib, env, l), Eval(lib, env, r);
    assert l == Number(0.0) ==> x / y == 0.0;
    assert r == Number(1.0) ==> x / y == x;
    DivideSelf(y);
  }

  lemma DivideSelf(y: real)
    requires y != 0.0
    ensures y / y == 1.0
  {
  }

  /** POWER: every rule gives a tree worth pow of the operands, when that is defined. */
  lemma PowerRuleSound(lib: Libm, env: char -> real, l: Node, r: Node)
    requires Lawful(lib) && Safe(Power, Eval(lib, env, l), Eval(lib, env, r))
    ensures Eval(lib, env, PowerRule(lib, l, r)) == lib.pow(Eval(lib, env, l), Eval(lib, env, r))
  {
    var x, y := Eval(lib, env, l), Eval(lib, env, r);
    assert lib.pow(x, 0.0) == 1.0 && lib.pow(x, 1.0) == x && lib.pow(1.0, y) == 1.0;
    assert y > 0.0 ==> lib.pow(0.0, y) == 0.0;
  }

  /** Repaired, the table of every operator keeps the value the operator gives. */
  lemma RuleSound(lib: Libm, env: char -> real, o: Op, l: Node, r: Node)
    requires Lawful(lib) && Safe(o, Eval(lib, env, l), Eval(lib, env, r))
    ensures Eval(lib, env, Rule(lib, o, l, r, Repaired)) == Apply(lib, o, Eval(lib, env, l), Eval(lib, env, r))
  {
    var x, y := Eval(lib, env, l), Eval(lib, env, r);
    match o
    case Add =>
      assert Rule(lib, o, l, r, Repaired) == AddRule(l, r, Repaired);
      AddRuleSound(lib, env, l, r);
    case Minus =>
      assert Rule(lib, o, l, r, Repaired) == MinusRule(l, r, Repaired);
      MinusRuleSound(lib, env, l, r);
    case Multiply =>
      MultiplyTableSound(lib, env, l, r);
    case Divide =>
      assert Rule(lib, o, l, r, Repaired) == DivideRule(lib, l, r, Repaired);
      DivideRuleSound(lib, env, l, r);
      assert Apply(lib, o, x, y) == x / y;
    case Power =>
      assert Rule(lib, o, l, r, Repaired) == PowerRule(lib, l, r);
      PowerRuleSound(lib, env, l, r);
    case ESymbol =>
      assert Rule(lib, o, l, r, Repaired) == ScientificRule(lib, l, r);
      ScientificRuleSound(lib, env, l, r);
  }

  lemma MultiplyTableSound(lib: Libm, env: char -> real, l: Node, r: Node)
    requires Squares(lib)
    ensures Eval(lib, env, Rule(lib, Multiply, l, r, Repaired)) == Apply(lib, Multiply, Eval(lib, env, l), Eval(lib, env, r))
  {
    MultiplyRuleSound(lib, env, l, r);
  }

  /** E_SYMBOL: the folded literal is worth its mantissa times ten to its exponent. */
  lemma ScientificRuleSound(lib: Libm, env: char -> real, l: Node, r: Node)
    ensures Eval(lib, env, ScientificRule(lib, l, r)) == Eval(lib, env, l) * lib.pow(10.0, Eval(lib, env, r))
  {
  }

  /**
   * The simplifier with its defects repaired keeps the value of every tree whose
   * value is defined.
   */
  lemma {:induction false} ReduceSound(lib: Libm, env: char -> real, n: Node)
    requires Lawful(lib) && Defined(lib, env, n)
    ensures Eval(lib, env, Reduce(lib, n, Repaired)) == Eval(lib, env, n)
    decreases Size(n)
  {
    SortedTreeSound(lib, env, n);
    match SortedTree(n, Repaired)
    case Operator(o, a, b) =>
      ReduceSound(lib, env, a);
      ReduceSound(lib, env, b);
      RuleSound(lib, env, o, Reduce(lib, a, Repaired), Reduce(lib, b, Repaired));
    case Conditional(c, x, y) =>
      ReduceSound(lib, env, c);
      if Eval(lib, env, c) != 0.0 {
        ReduceSound(lib, env, x);
      } else {
        ReduceSound(lib, env, y);
      }
    case _ =>
  }

  // ---------------------------------------------------------------- as written

  /** A single operand is left as it is by the exchange sort. */
  lemma SortOne(x: Node)
    ensures ExchangeSort([x]) == [x]
  {
    assert Pass([x], 0, 1) == [x];
    assert Passes([x], 1) == [x];
  }

  /** Two operands whose keys are in order stay; out of order, they are exchanged. */
  lemma SortTwo(x: Node, y: Node)
    ensures ExchangeSort([x, y]) == if Key(y) < Key(x) then [y, x] else [x, y]
  {
    var s := [x, y];
    var p := if Key(y) < Key(x) then [y, x] else [x, y];
    assert (if Key(s[1]) < Key(s[0]) then Swap(s, 0, 1) else s) == p;
    assert Pass(s, 0, 1) == Pass(p, 0, 2) == p;
    assert Pass(p, 1, 2) == p;
    assert Passes(p, 2) == p;
    assert Passes(p, 1) == Passes(Pass(p, 1, 2), 2);
    assert Passes(s, 0) == Passes(Pass(s, 0, 1), 1);
  }

  /** The literal 5E2 as the parser builds it: E_SYMBOL(5, 2). */
  const FiveE2 := Operator(ESymbol, Number(5.0), Number(2.0))

  /** reduce leaves a number or a variable as it is. */
  lemma ReduceLeaf(lib: Libm, n: Node, rev: Revision)
    requires n.Number? || n.Variable?
    ensures Reduce(lib, n, rev) == n
  {
    assert SortedTree(n, rev) == n;
  }

  /** As written, sort_tree exchanges the mantissa and the exponent of 5E2. */
  lemma FiveE2Sorted()
    ensures SortedTree(FiveE2, AsWritten) == Operator(ESymbol, Number(2.0), Number(5.0))
    ensures SortedTree(FiveE2, Repaired) == FiveE2
  {
    FiveE2Swapped();
    FiveE2Kept();
  }

  lemma FiveE2Swapped()
    ensures SortedTree(FiveE2, AsWritten) == Operator(ESymbol, Number(2.0), Number(5.0))
  {
    SortedLeafPairArranged(ESymbol, Number(5.0), Number(2.0), AsWritten);
    FiveE2Arranged();
  }

  /** sort_tree on an operator over two leaves it does not leave alone: the pair arranged. */
  lemma SortedLeafPairArranged(o: Op, a: Node, b: Node, rev: Revision)
    requires (a.Number? || a.Variable?) && (b.Number? || b.Variable?) && !Unsorted(o, rev)
    ensures var s := Arrange([a, b]); SortedTree(Operator(o, a, b), rev) == Operator(o, s[0], s[1])
  {
    SortedLeafPair(o, a, b, rev);
    RearrangedPair(Operator(o, a, b));
  }

  /** sort_tree on an operator over two sorted operands that are not in its chain: the pair arranged. */
  lemma SortedPairArranged(o: Op, a: Node, b: Node, rev: Revision)
    requires SortedTree(a, rev) == a && SortedTree(b, rev) == b && !Unsorted(o, rev)
    requires !InChain(a, o) && !InChain(b, o)
    ensures var s := Arrange([a, b]); SortedTree(Operator(o, a, b), rev) == Operator(o, s[0], s[1])
  {
    assert SortedTree(Operator(o, a, b), rev) == Rearranged(Operator(o, a, b));
    RearrangedPair(Operator(o, a, b));
  }

  /** Repaired, sort_tree leaves the operands of E_SYMBOL in place. */
  lemma FiveE2Kept()
    ensures SortedTree(FiveE2, Repaired) == FiveE2
  {
    assert SortedTree(Number(5.0), Repaired) == Number(5.0);
    assert SortedTree(Number(2.0), Repaired) == Number(2.0);
  }

  /** sort_tree on an operator over two leaves it does not leave alone: the pair rearranged. */
  lemma SortedLeafPair(o: Op, a: Node, b: Node, rev: Revision)
    requires (a.Number? || a.Variable?) && (b.Number? || b.Variable?) && !Unsorted(o, rev)
    ensures SortedTree(Operator(o, a, b), rev) == Rearranged(Operator(o, a, b))
  {
    assert SortedTree(a, rev) == a && SortedTree(b, rev) == b;
  }

  /** Arranged by value, the exponent 2 comes before the mantissa 5. */
  lemma FiveE2Arranged()
    ensures Arrange([Number(5.0), Number(2.0)]) == [Number(2.0), Number(5.0)]
  {
    var ops := [Number(5.0), Number(2.0)];
    assert AllOfKind(ops, NUMBER);
    ArrangeOneKind(ops, NUMBER);
    FiveE2Exchanged();
  }

  lemma FiveE2Exchanged()
    ensures ExchangeSort([Number(5.0), Number(2.0)]) == [Number(2.0), Number(5.0)]
  {
    SortTwo(Number(5.0), Number(2.0));
  }

  /** The mantissa and exponent of 5E2 are both numbers. */
  lemma FiveE2Kinds()
    ensures var ops := [Number(5.0), Number(2.0)];
      Only(ops, NUMBER) == ops && Only(ops, VARIABLE) == [] && Only(ops, OPERATOR) == []
      && Only(ops, CONDITIONAL) == []
  {
    var ops := [Number(5.0), Number(2.0)];
    assert ops[1..] == [Number(2.0)];
    assert ops[1..][1..] == [];
  }

  /** Rearranged on an operator with two operands: the arranged pair, in the same node. */
  lemma RearrangedPair(m: Node)
    requires m.Operator? && !InChain(m.left, m.op) && !InChain(m.right, m.op)
    ensures Operands(m, m.op) == [m.left, m.right]
    ensures var s := Arrange([m.left, m.right]); Rearranged(m) == Operator(m.op, s[0], s[1])
  {
    assert Rearranged(m) == Refill(m, m.op, Arrange(Operands(m, m.op)));
  }

  /**
   * As written, sort_tree orders the mantissa and exponent of 5E2 like the operands
   * of a sum, so reduce computes 2E5 = 200000 where the literal is worth 500.
   */
  lemma ScientificLiteralSwapped(lib: Libm)
    requires lib.pow(10.0, 2.0) == 100.0 && lib.pow(10.0, 5.0) == 100000.0
    ensures Calculate(lib, FiveE2) == 500.0
    ensures Reduce(lib, FiveE2, AsWritten) == Number(200000.0)
    ensures Reduce(lib, FiveE2, Repaired) == Number(500.0)
  {
    FiveE2Reduced(lib, AsWritten);
    FiveE2Reduced(lib, Repaired);
  }

  /** reduce folds 5E2 with its two numbers in the order sort_tree left them. */
  lemma FiveE2Reduced(lib: Libm, rev: Revision)
    ensures Reduce(lib, FiveE2, rev) == if rev == AsWritten then ScientificRule(lib, Number(2.0), Number(5.0))
                                        else ScientificRule(lib, Number(5.0), Number(2.0))
  {
    FiveE2Sorted();
    var t := SortedTree(FiveE2, rev);
    var a, b := t.left, t.right;
    ReduceSortedOperator(lib, FiveE2, rev);
    ReduceLeaf(lib, a, rev);
    ReduceLeaf(lib, b, rev);
    ScientificRuleIs(lib, a, b, rev);
  }

  lemma ScientificRuleIs(lib: Libm, a: Node, b: Node, rev: Revision)
    ensures Rule(lib, ESymbol, a, b, rev) == ScientificRule(lib, a, b)
  {
  }

  /** a-(b-c) - ((a-b)-c): worth 2c, and both halves serialise as a-b-c. */
  const Grouping := Operator(Minus,
    Operator(Minus, Variable('a'), Operator(Minus, Variable('b'), Variable('c'))),
    Operator(Minus, Operator(Minus, Variable('a'), Variable('b')), Variable('c')))

  /** No chain of n is one sort_tree reorders. */
  predicate AllUnsorted(n: Node, rev: Revision)
  {
    match n
    case Operator(o, l, r) => Unsorted(o, rev) && AllUnsorted(l, rev) && AllUnsorted(r, rev)
    case Conditional(c, t, f) => AllUnsorted(c, rev) && AllUnsorted(t, rev) && AllUnsorted(f, rev)
    case _ => true
  }

  lemma {:induction false} SortedTreeUnsorted(n: Node, rev: Revision)
    requires AllUnsorted(n, rev)
    ensures SortedTree(n, rev) == n
    decreases n
  {
    match n
    case Operator(o, l, r) =>
      SortedTreeUnsorted(l, rev);
      SortedTreeUnsorted(r, rev);
    case Conditional(c, t, f) =>
      SortedTreeUnsorted(c, rev);
      SortedTreeUnsorted(t, rev);
      SortedTreeUnsorted(f, rev);
    case _ =>
  }

  /** A difference of two different variables is left alone. */
  lemma MinusOfVariables(lib: Libm, x: char, y: char, rev: Revision)
    requires x != y
    ensures Reduce(lib, Operator(Minus, Variable(x), Variable(y)), rev) == Operator(Minus, Variable(x), Variable(y))
  {
    var n := Operator(Minus, Variable(x), Variable(y));
    SortedTreeUnsorted(n, rev);
    assert Nodes.Formula(Variable(x)) != Nodes.Formula(Variable(y));
  }

  lemma GroupingValue(lib: Libm, env: char -> real)
    ensures Eval(lib, env, Grouping) == 2.0 * env('c')
    ensures Defined(lib, env, Grouping)
  {
    var a, b, c := env('a'), env('b'), env('c');
    var x, y := Grouping.left, Grouping.right;
    assert Eval(lib, env, x.right) == b - c && Defined(lib, env, x.right);
    assert Eval(lib, env, x) == a - (b - c) && Defined(lib, env, x);
    assert Eval(lib, env, y.left) == a - b && Defined(lib, env, y.left);
    assert Eval(lib, env, y) == (a - b) - c && Defined(lib, env, y);
  }

  /**
   * As written, cmp_trees takes a-(b-c) and (a-b)-c for the same tree, so reduce
   * rewrites their difference, worth 2c, to 0.
   */
  lemma GroupingConflated(lib: Libm, env: char -> real)
    requires env('c') == 1.0
    ensures Eval(lib, env, Grouping) == 2.0
    ensures Reduce(lib, Grouping, AsWritten) == Number(0.0)
    ensures Lawful(lib) ==> Eval(lib, env, Reduce(lib, Grouping, Repaired)) == 2.0
  {
    GroupingValue(lib, env);
    GroupingReduced(lib);
    if Lawful(lib) {
      ReduceSound(lib, env, Grouping);
    }
  }

  lemma GroupingReduced(lib: Libm)
    ensures Reduce(lib, Grouping, AsWritten) == Number(0.0)
  {
    var a, b, c := Variable('a'), Variable('b'), Variable('c');
    var x, y := Grouping.left, Grouping.right;
    SortedTreeUnsorted(Grouping, AsWritten);
    SortedTreeUnsorted(x, AsWritten);
    SortedTreeUnsorted(y, AsWritten);
    MinusOfVariables(lib, 'b', 'c', AsWritten);
    MinusOfVariables(lib, 'a', 'b', AsWritten);
    ReduceLeaf(lib, a, AsWritten);
    ReduceLeaf(lib, c, AsWritten);
    assert |Nodes.Formula(a)| == 1 && |Nodes.Formula(c)| == 1;
    assert |Nodes.Formula(x.right)| == 3 && |Nodes.Formula(y.left)| == 3;
    assert Reduce(lib, x, AsWritten) == MinusRule(a, x.right, AsWritten) == x;
    assert Reduce(lib, y, AsWritten) == MinusRule(y.left, c, AsWritten) == y;
    SerialisationIgnoresGrouping(a, b, c);
    assert Reduce(lib, Grouping, AsWritten) == MinusRule(x, y, AsWritten);
  }

  /** 2*a+3*b as the parser builds it. */
  const Unlike := Operator(Add, Operator(Multiply, Number(2.0), Variable('a')),
                                Operator(Multiply, Number(3.0), Variable('b')))

  /** sort_tree leaves a product of a number and a variable as it is. */
  lemma ScaledSorted(k: real, x: char, rev: Revision)
    ensures SortedTree(Operator(Multiply, Number(k), Variable(x)), rev) == Operator(Multiply, Number(k), Variable(x))
  {
    var n := Operator(Multiply, Number(k), Variable(x));
    SortedLeafPair(Multiply, Number(k), Variable(x), rev);
    ScaledArranged(k, x);
    RearrangedFixed(n);
  }

  /** The operands of k*x are already grouped: the number before the variable. */
  lemma ScaledArranged(k: real, x: char)
    ensures var n := Operator(Multiply, Number(k), Variable(x));
      Arrange(Operands(n, Multiply)) == Operands(n, Multiply)
  {
    var n := Operator(Multiply, Number(k), Variable(x));
    var ops := [Number(k), Variable(x)];
    assert Operands(n, Multiply) == ops;
    ScaledKinds(k, x);
    SortOne(Number(k));
    SortOne(Variable(x));
    assert ExchangeSort([]) == [];
    ArrangeIs(ops, [Number(k)], [Variable(x)], [], []);
    assert [Number(k)] + [Variable(x)] + [] + [] == ops;
  }

  /** The operands of k*x, one kind at a time. */
  lemma ScaledKinds(k: real, x: char)
    ensures var ops := [Number(k), Variable(x)];
      Only(ops, NUMBER) == [Number(k)] && Only(ops, VARIABLE) == [Variable(x)]
      && Only(ops, OPERATOR) == [] && Only(ops, CONDITIONAL) == []
  {
    var ops := [Number(k), Variable(x)];
    assert ops[1..] == [Variable(x)];
    assert ops[1..][1..] == [];
  }

  /** Operands all of one sortable kind are arranged by the exchange sort alone. */
  lemma ArrangeOneKind(ops: seq<Node>, kind: int)
    requires kind == NUMBER || kind == VARIABLE || kind == OPERATOR
    requires AllOfKind(ops, kind)
    ensures Arrange(ops) == ExchangeSort(ops)
  {
    var none := ExchangeSort([]);
    var sorted := ExchangeSort(ops);
    assert none == [];
    OnlyOfKind(ops, kind, NUMBER);
    OnlyOfKind(ops, kind, VARIABLE);
    OnlyOfKind(ops, kind, OPERATOR);
    OnlyOfKind(ops, kind, CONDITIONAL);
    if kind == NUMBER {
      ArrangeIs(ops, sorted, none, none, []);
      assert sorted + none + none + [] == sorted;
    } else if kind == VARIABLE {
      ArrangeIs(ops, none, sorted, none, []);
      assert none + sorted + none + [] == sorted;
    } else {
      ArrangeIs(ops, none, none, sorted, []);
      assert none + none + sorted + [] == sorted;
    }
  }

  /** A chain whose operands are already arranged is left as it is. */
  lemma RearrangedFixed(m: Node)
    requires m.Operator? && Arrange(Operands(m, m.op)) == Operands(m, m.op)
    ensures Rearranged(m) == m
  {
    RefillOwnOperands(m, m.op);
  }

  /** A product of a number other than 0 and 1 and a variable is left alone. */
  lemma ScaledVariable(lib: Libm, k: real, x: char, rev: Revision)
    requires k != 0.0 && k != 1.0
    ensures Reduce(lib, Operator(Multiply, Number(k), Variable(x)), rev) == Operator(Multiply, Number(k), Variable(x))
  {
    var n := Operator(Multiply, Number(k), Variable(x));
    ScaledSorted(k, x, rev);
    ReduceLeaf(lib, Number(k), rev);
    ReduceLeaf(lib, Variable(x), rev);
    MultiplyScaled(k, x);
    assert Reduce(lib, n, rev) == Rule(lib, Multiply, Number(k), Variable(x), rev);
  }

  lemma MultiplyScaled(k: real, x: char)
    requires k != 0.0 && k != 1.0
    ensures MultiplyRule(Number(k), Variable(x)) == Operator(Multiply, Number(k), Variable(x))
  {
    assert !SameLeaf(Number(k), Variable(x));
  }

  /**
   * As written, the merge pass never compares the names of the two variables, so
   * reduce turns 2*a+3*b into 5*a.
   */
  lemma UnlikeTermsMerged(lib: Libm, env: char -> real)
    requires env('a') == 1.0 && env('b') == 0.0
    ensures Eval(lib, env, Unlike) == 2.0
    ensures Reduce(lib, Unlike, AsWritten) == Operator(Multiply, Number(5.0), Variable('a'))
    ensures Eval(lib, env, Reduce(lib, Unlike, AsWritten)) == 5.0
    ensures Lawful(lib) ==> Eval(lib, env, Reduce(lib, Unlike, Repaired)) == 2.0
  {
    UnlikeReduced(lib);
    UnlikeValue(lib, env);
    if Lawful(lib) {
      ReduceSound(lib, env, Unlike);
    }
  }

  lemma UnlikeValue(lib: Libm, env: char -> real)
    requires env('a') == 1.0 && env('b') == 0.0
    ensures Eval(lib, env, Unlike) == 2.0 && Defined(lib, env, Unlike)
    ensures Eval(lib, env, Operator(Multiply, Number(5.0), Variable('a'))) == 5.0
  {
    var p, q := Unlike.left, Unlike.right;
    assert Eval(lib, env, p.right) == 1.0 && Eval(lib, env, q.right) == 0.0;
    assert Eval(lib, env, p) == 2.0 && Eval(lib, env, q) == 0.0;
    assert Defined(lib, env, p.left) && Defined(lib, env, p.right);
    assert Defined(lib, env, q.left) && Defined(lib, env, q.right);
    assert Defined(lib, env, p);
    assert Defined(lib, env, q);
  }

  lemma UnlikeReduced(lib: Libm)
    ensures Reduce(lib, Unlike, AsWritten) == Operator(Multiply, Number(5.0), Variable('a'))
  {
    var p, q := Unlike.left, Unlike.right;
    UnlikeSorted();
    ScaledVariable(lib, 2.0, 'a', AsWritten);
    ScaledVariable(lib, 3.0, 'b', AsWritten);
    ReduceSortedOperator(lib, Unlike, AsWritten);
    UnlikeAdded();
    UnlikeCollected();
  }

  /** Reduce at a tree that sorts to an operator: the rule on the reduced children of the sorted tree. */
  lemma ReduceSortedOperator(lib: Libm, n: Node, rev: Revision)
    requires SortedTree(n, rev).Operator?
    ensures var t := SortedTree(n, rev);
      Reduce(lib, n, rev) == Rule(lib, t.op, Reduce(lib, t.left, rev), Reduce(lib, t.right, rev), rev)
  {
  }

  /** As written, 2*a and 3*b are not the same tree, so ADD goes on to the like terms. */
  lemma UnlikeAdded()
    ensures AddRule(Unlike.left, Unlike.right, AsWritten) == LikeTerms(Unlike, AsWritten)
  {
    var p, q := Unlike.left, Unlike.right;
    assert !SameTree(p, q) by {
      assert Nodes.Formula(p)[0] == Num(2.0) && Nodes.Formula(q)[0] == Num(3.0);
    }
  }

  /** sort_tree leaves 2*a+3*b as it is. */
  lemma UnlikeSorted()
    ensures SortedTree(Unlike, AsWritten) == Unlike
  {
    var p, q := Unlike.left, Unlike.right;
    var ops := [p, q];
    ScaledSorted(2.0, 'a', AsWritten);
    ScaledSorted(3.0, 'b', AsWritten);
    assert SortedTree(Unlike, AsWritten) == Rearranged(Unlike);
    assert Operands(Unlike, Add) == ops;
    UnlikeKinds();
    SortTwo(p, q);
    assert Key(p) == Key(q);
    assert ExchangeSort([]) == [];
    ArrangeIs(ops, [], [], ops, []);
    assert [] + [] + ops + [] == ops;
    RearrangedFixed(Unlike);
  }

  /** The operands of 2*a+3*b, one kind at a time: both are operators. */
  lemma UnlikeKinds()
    ensures var ops := [Unlike.left, Unlike.right];
      Only(ops, OPERATOR) == ops && Only(ops, NUMBER) == [] && Only(ops, VARIABLE) == []
      && Only(ops, CONDITIONAL) == []
  {
    var ops := [Unlike.left, Unlike.right];
    assert ops[1..] == [Unlike.right];
    assert ops[1..][1..] == [];
  }

  /** As written, the two passes fold 2*a and 3*b into 5*a. */
  lemma UnlikeCollected()
    ensures LikeTerms(Unlike, AsWritten) == Operator(Multiply, Number(5.0), Variable('a'))
  {
    var p, q := Unlike.left, Unlike.right;
    var ops := [p, q];
    assert Operands(Unlike, Add) == ops;
    var five := Operator(Multiply, Number(5.0), Variable('a'));
    var s := Wrap(ops);
    assert s == [Some(p), Some(q)];
    assert Combined(p, q, AsWritten) == Some(five);
    var merged := [Some(five), None];
    assert MergeInto(s, 0, 1, AsWritten) == MergeInto(merged, 0, 2, AsWritten) == merged;
    assert MergeFrom(merged, 1, AsWritten) == MergeFrom(merged, 2, AsWritten) == merged;
    assert AbsorbInto(merged, 0, 0) == AbsorbInto(merged, 0, 1) == AbsorbInto(merged, 0, 2) == merged;
    assert AbsorbFrom(merged, 1) == AbsorbFrom(merged, 2) == merged;
    assert Collected(Unlike, AsWritten) == merged;
    assert Prune(Unlike, Add, merged) == Some(five);
  }

  // ---------------------------------------------------------------- removing an operand

  /**
   * The surgery both passes use to take an operand out of the ADD chain: the operand's
   * parent is overwritten by one of its children. As written it always takes its left
   * child, so when the operand is that left child the parent becomes the operand again
   * and the sibling is lost; repaired, the parent takes the sibling. Only the node the
   * parent holds afterwards is modelled: as written, the operand is then released
   * twice (once as the old left child, once as itself), which this value does not show.
   */
  function Detach(parent: Node, leftGoes: bool, rev: Revision): (r: Node)
    requires parent.Operator?
    ensures r == parent.left || r == parent.right
  {
    if rev == Repaired && leftGoes then parent.right else parent.left
  }

  /** Repaired, Detach is what Prune does when one slot of a pair is emptied. */
  lemma DetachJoins(o: Op, x: Node, y: Node, leftGoes: bool)
    ensures var kept := Join(o, if leftGoes then None else Some(x), if leftGoes then Some(y) else None);
      kept.Some? && kept.value == Detach(Operator(o, x, y), leftGoes, Repaired)
      && kept.value == (if leftGoes then y else x)
  {
  }

  /** As written, removing a left operand keeps that operand and drops its sibling. */
  lemma DetachKeepsLeft(o: Op, x: Node, y: Node)
    ensures Detach(Operator(o, x, y), true, AsWritten) == x
    ensures Detach(Operator(o, x, y), true, Repaired) == y
  {
  }

  /** 2*a+a as the parser builds it. */
  const Absorbed := Operator(Add, Operator(Multiply, Number(2.0), Variable('a')), Variable('a'))

  /** The chain of 2*a+a once sorted: the variable comes before the product. */
  const AbsorbedSorted := Operator(Add, Variable('a'), Operator(Multiply, Number(2.0), Variable('a')))

  lemma AbsorbedArranged()
    ensures SortedTree(Absorbed, AsWritten) == AbsorbedSorted
    ensures SortedTree(Absorbed, Repaired) == AbsorbedSorted
  {
    AbsorbedSortedAt(AsWritten);
    AbsorbedSortedAt(Repaired);
  }

  lemma AbsorbedSortedAt(rev: Revision)
    ensures SortedTree(Absorbed, rev) == AbsorbedSorted
  {
    var p, v := Absorbed.left, Variable('a');
    ScaledSorted(2.0, 'a', rev);
    assert SortedTree(v, rev) == v;
    SortedPairArranged(Add, p, v, rev);
    AbsorbedArrange();
  }

  /** Arranged, the variable comes first, then the product. */
  lemma AbsorbedArrange()
    ensures Arrange([Absorbed.left, Absorbed.right]) == [AbsorbedSorted.left, AbsorbedSorted.right]
  {
    var p, v := Absorbed.left, Variable('a');
    var ops := [p, v];
    var none := ExchangeSort([]);
    assert none == [];
    AbsorbedKinds();
    SortOne(p);
    SortOne(v);
    ArrangeIs(ops, none, [v], [p], []);
    assert none + [v] + [p] + [] == [v, p];
  }

  /** The operands of 2*a+a, one kind at a time. */
  lemma AbsorbedKinds()
    ensures var ops := [Absorbed.left, Absorbed.right];
      Only(ops, NUMBER) == [] && Only(ops, VARIABLE) == [Absorbed.right]
      && Only(ops, OPERATOR) == [Absorbed.left] && Only(ops, CONDITIONAL) == []
  {
    var ops := [Absorbed.left, Absorbed.right];
    assert ops[1..] == [Absorbed.right];
    assert ops[1..][1..] == [];
  }

  /** The absorb pass takes the variable into the product: 2*a becomes 3*a, the variable's slot empties. */
  lemma AbsorbedCollected(rev: Revision)
    ensures Collected(AbsorbedSorted, rev) == [None, Some(Operator(Multiply, Number(3.0), Variable('a')))]
  {
    var v, p := AbsorbedSorted.left, AbsorbedSorted.right;
    var three := Operator(Multiply, Number(3.0), Variable('a'));
    assert Operands(AbsorbedSorted, Add) == [v, p];
    var s := Wrap([v, p]);
    assert s == [Some(v), Some(p)];
    assert MergeInto(s, 1, 2, rev) == s;
    assert MergeFrom(s, 0, rev) == MergeFrom(s, 1, rev) == MergeFrom(s, 2, rev) == s;
    assert Bumped(p, v) == Some(three);
    var absorbed := [None, Some(three)];
    assert s[1 := Some(three)][0 := None] == absorbed;
    assert AbsorbInto(s, 1, 0) == AbsorbInto(absorbed, 1, 1) == AbsorbInto(absorbed, 1, 2) == absorbed;
    assert AbsorbFrom(s, 0) == AbsorbFrom(s, 1) == AbsorbFrom(absorbed, 2) == absorbed;
  }

  /**
   * 2*a+a: sort_tree puts the variable at the left of the sum and the absorb pass
   * turns 2*a into 3*a; taking the variable out, the code as written overwrites the
   * sum with its left child, the variable itself, so the sum holds a, worth 1 where
   * 2*a+a is worth 3, and 3*a is no longer reachable. The variable node is then
   * released twice. Repaired, the sum becomes 3*a, as Reduce gives.
   */
  lemma LeftOperandKept(lib: Libm, env: char -> real)
    requires env('a') == 1.0
    ensures Eval(lib, env, Absorbed) == 3.0
    ensures SortedTree(Absorbed, AsWritten) == AbsorbedSorted
    ensures var three := Operator(Multiply, Number(3.0), Variable('a'));
      Collected(AbsorbedSorted, AsWritten) == [None, Some(three)]
      && Detach(Operator(Add, Variable('a'), three), true, AsWritten) == Variable('a')
      && Eval(lib, env, Variable('a')) == 1.0
      && Detach(Operator(Add, Variable('a'), three), true, Repaired) == three
      && Eval(lib, env, three) == 3.0
    ensures Reduce(lib, Absorbed, Repaired) == Operator(Multiply, Number(3.0), Variable('a'))
  {
    AbsorbedArranged();
    AbsorbedCollected(AsWritten);
    AbsorbedCollected(Repaired);
    AbsorbedValue(lib, env);
    AbsorbedReduced(lib);
  }

  lemma AbsorbedReduced(lib: Libm)
    ensures Reduce(lib, Absorbed, Repaired) == Operator(Multiply, Number(3.0), Variable('a'))
  {
    var v, p := AbsorbedSorted.left, AbsorbedSorted.right;
    AbsorbedArranged();
    ScaledVariable(lib, 2.0, 'a', Repaired);
    ReduceLeaf(lib, v, Repaired);
    ReduceSortedOperator(lib, Absorbed, Repaired);
    AbsorbedAdded();
    AbsorbedPruned();
  }

  /** a and 2*a are neither numbers nor the same tree, so ADD goes on to the like terms. */
  lemma AbsorbedAdded()
    ensures AddRule(AbsorbedSorted.left, AbsorbedSorted.right, Repaired) == LikeTerms(AbsorbedSorted, Repaired)
  {
    assert !SameLeaf(AbsorbedSorted.left, AbsorbedSorted.right);
  }

  lemma AbsorbedPruned()
    ensures LikeTerms(AbsorbedSorted, Repaired) == Operator(Multiply, Number(3.0), Variable('a'))
  {
    AbsorbedCollected(Repaired);
    assert Prune(AbsorbedSorted, Add, [None, Some(Operator(Multiply, Number(3.0), Variable('a')))])
        == Some(Operator(Multiply, Number(3.0), Variable('a')));
  }

  lemma AbsorbedValue(lib: Libm, env: char -> real)
    requires env('a') == 1.0
    ensures Eval(lib, env, Absorbed) == 3.0
    ensures Eval(lib, env, Operator(Multiply, Number(3.0), Variable('a'))) == 3.0
  {
    assert Eval(lib, env, Absorbed.left) == 2.0;
  }
}
