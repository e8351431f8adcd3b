// Evaluation, variable discovery and substitution of formula.c. The libm calls and
// the long double quotient by zero are parameters (Libm): the model proves what the
// evaluator does with their results, not how they round.
module Formula {
  import opened Nodes

  /**
   * pow from libm, and the quotient of a long double by zero (an infinity or NaN),
   * which has no real value.
   */
  datatype Libm = Libm(pow: (real, real) -> real, byZero: real -> real)

  /** The long double quotient x / y. */
  function Quotient(lib: Libm, x: real, y: real): (q: real)
    ensures y != 0.0 ==> q * y == x
  {
    if y == 0.0 then lib.byZero(x) else x / y
  }

  /** The value calculate_parse_tree gives an operator node with operand values x and y. */
  function Apply(lib: Libm, o: Op, x: real, y: real): real
  {
    match o
    case Add => x + y
    case Minus => x - y
    case Multiply => x * y
    case Divide => Quotient(lib, x, y)
    case Power => lib.pow(x, y)
    case ESymbol => x * lib.pow(10.0, y)
  }

  /**
   * calculate_parse_tree: a variable counts as 0, and a conditional evaluates its
   * condition and then only the branch it selects (the true one iff nonzero).
   */
  function Calculate(lib: Libm, n: Node): (v: real)
    ensures v == Eval(lib, Unset, n)
  {
    match n
    case Number(v) => v
    case Variable(_) => 0.0
    case Operator(o, l, r) => Apply(lib, o, Calculate(lib, l), Calculate(lib, r))
    case Conditional(c, t, f) => if Calculate(lib, c) != 0.0 then Calculate(lib, t) else Calculate(lib, f)
  }

  /** The environment of calculate_parse_tree: no variable has a value, and each counts as 0. */
  function Unset(x: char): real
  {
    0.0
  }

  /** The value of a tree once every variable x has been given the value env(x). */
  function Eval(lib: Libm, env: char -> real, n: Node): real
  {
    match n
    case Number(v) => v
    case Variable(x) => env(x)
    case Operator(o, l, r) => Apply(lib, o, Eval(lib, env, l), Eval(lib, env, r))
    case Conditional(c, t, f) => if Eval(lib, env, c) != 0.0 then Eval(lib, env, t) else Eval(lib, env, f)
  }

  /** The names of the variable nodes, in the order find_variables visits them. */
  function Names(n: Node): seq<char>
  {
    match n
    case Number(_) => []
    case Variable(x) => [x]
    case Operator(_, l, r) => Names(l) + Names(r)
    case Conditional(c, t, f) => Names(c) + Names(t) + Names(f)
  }

  /** has_variables: some node is a variable. */
  function HasVariables(n: Node): (r: bool)
    ensures r <==> Names(n) != []
  {
    match n
    case Number(_) => false
    case Variable(_) => true
    case Operator(_, l, r) => HasVariables(l) || HasVariables(r)
    case Conditional(c, t, f) => HasVariables(c) || HasVariables(t) || HasVariables(f)
  }

  /** A tree without variables has the same value whatever the environment. */
  lemma {:induction false} CalculateClosed(lib: Libm, env: char -> real, n: Node)
    requires !HasVariables(n)
    ensures Calculate(lib, n) == Eval(lib, env, n)
  {
    match n
    case Number(_) =>
    case Variable(_) =>
    case Operator(_, l, r) =>
      CalculateClosed(lib, env, l);
      CalculateClosed(lib, env, r);
    case Conditional(c, t, f) =>
      CalculateClosed(lib, env, c);
      CalculateClosed(lib, env, t);
      CalculateClosed(lib, env, f);
  }

  // ---------------------------------------------------------------- find_variables

  predicate NoDuplicates(s: seq<char>)
  {
    forall i, j :: 0 <= i < j < |s| ==> s[i] != s[j]
  }

  /** The buffer find_variables leaves: acc, then each name of names not already there. */
  function Collect(acc: seq<char>, names: seq<char>): (r: seq<char>)
    ensures acc <= r
    decreases |names|
  {
    if names == [] then acc
    else Collect(if names[0] in acc then acc else acc + [names[0]], names[1..])
  }

  lemma {:induction false} CollectAppend(acc: seq<char>, a: seq<char>, b: seq<char>)
    ensures Collect(acc, a + b) == Collect(Collect(acc, a), b)
    decreases |a|
  {
    if a == [] {
      assert a + b == b;
    } else {
      assert (a + b)[0] == a[0] && (a + b)[1..] == a[1..] + b;
      CollectAppend(if a[0] in acc then acc else acc + [a[0]], a[1..], b);
    }
  }

  /** Each name appears once, and the names are those of acc and names. */
  lemma {:induction false} CollectNames(acc: seq<char>, names: seq<char>)
    requires NoDuplicates(acc)
    ensures NoDuplicates(Collect(acc, names))
    ensures forall x :: x in Collect(acc, names) <==> x in acc || x in names
    decreases |names|
  {
    if names != [] {
      var next := if names[0] in acc then acc else acc + [names[0]];
      if names[0] !in acc {
        AppendFresh(acc, names[0]);
      }
      assert Collect(acc, names) == Collect(next, names[1..]);
      CollectNames(next, names[1..]);
      assert names == [names[0]] + names[1..];
    }
  }

  /** A name not yet in a buffer without duplicates can be appended to it. */
  lemma AppendFresh(acc: seq<char>, x: char)
    requires NoDuplicates(acc) && x !in acc
    ensures NoDuplicates(acc + [x])
    ensures forall y :: y in acc + [x] <==> y in acc || y == x
  {
  }

  /** The position of the first x in s. */
  function FirstIndex(s: seq<char>, x: char): (i: nat)
    requires x in s
    ensures i < |s| && s[i] == x && x !in s[..i]
  {
    if s[0] == x then 0 else 1 + FirstIndex(s[1..], x)
  }

  /** The names Collect adds to acc are new and come from names. */
  lemma CollectAdds(acc: seq<char>, names: seq<char>, i: nat)
    requires NoDuplicates(acc) && |acc| <= i < |Collect(acc, names)|
    ensures Collect(acc, names)[i] !in acc && Collect(acc, names)[i] in names
  {
    var r := Collect(acc, names);
    CollectNames(acc, names);
    assert r[..|acc|] == acc;
  }

  /** The names find_variables adds come in the order of their first occurrence. */
  lemma {:induction false} CollectOrder(acc: seq<char>, names: seq<char>)
    requires NoDuplicates(acc)
    ensures forall i :: |acc| <= i < |Collect(acc, names)| ==> Collect(acc, names)[i] in names
    ensures var r := Collect(acc, names);
      forall i, j :: |acc| <= i < j < |r| ==> FirstIndex(names, r[i]) < FirstIndex(names, r[j])
    decreases |names|
  {
    var r := Collect(acc, names);
    if names != [] {
      var y := names[0];
      var next := if y in acc then acc else acc + [y];
      assert r == Collect(next, names[1..]);
      CollectNames(acc, [y]);
      assert NoDuplicates(next);
      CollectOrder(next, names[1..]);
      forall i, j | |acc| <= i < j < |r|
        ensures r[i] in names && r[j] in names
        ensures FirstIndex(names, r[i]) < FirstIndex(names, r[j])
      {
        CollectAdds(acc, names, i);
        CollectAdds(acc, names, j);
        if i == |acc| && y !in acc {
          assert r[i] == y;
          CollectAdds(next, names[1..], j);
          assert FirstIndex(names, r[i]) == 0;
        } else {
          CollectAdds(next, names[1..], i);
          CollectAdds(next, names[1..], j);
          assert r[i] != y && r[j] != y;
          assert FirstIndex(names, r[i]) == 1 + FirstIndex(names[1..], r[i]);
          assert FirstIndex(names, r[j]) == 1 + FirstIndex(names[1..], r[j]);
        }
      }
      forall i | |acc| <= i < |r|
        ensures r[i] in names
      {
        CollectAdds(acc, names, i);
      }
    }
  }

  /**
   * find_variables: walk the tree (condition, true, false; left, right) and append
   * each variable name the buffer does not hold yet.
   */
  method FindVariables(root: Node, vars: seq<char>) returns (r: seq<char>)
    ensures r == Collect(vars, Names(root))
    decreases root
  {
    match root {
      case Conditional(c, t, f) =>
        r := FindVariables(c, vars);
        r := FindVariables(t, r);
        r := FindVariables(f, r);
        CollectAppend(vars, Names(c), Names(t));
        CollectAppend(vars, Names(c) + Names(t), Names(f));
      case Operator(_, left, right) =>
        r := FindVariables(left, vars);
        r := FindVariables(right, r);
        CollectAppend(vars, Names(left), Names(right));
      case Variable(x) =>
        var i := 0;
        while i < |vars|
          invariant i <= |vars| && x !in vars[..i]
        {
          if vars[i] == x {
            return vars;
          }
          assert vars[..i + 1] == vars[..i] + [vars[i]];
          i := i + 1;
        }
        assert vars[..i] == vars;
        return vars + [x];
      case Number(_) =>
        return vars;
    }
  }

  // ---------------------------------------------------------------- replace

  /** replace: every variable node named b takes the content of the value node. */
  function Replace(b: char, n: Node, value: Node): (r: Node)
    ensures b !in Names(n) ==> r == n
    ensures forall x :: x in Names(r) <==> (x in Names(n) && x != b) || (b in Names(n) && x in Names(value))
  {
    match n
    case Number(_) => n
    case Variable(x) => if x == b then value else n
    case Operator(o, l, r) => Operator(o, Replace(b, l, value), Replace(b, r, value))
    case Conditional(c, t, f) => Conditional(Replace(b, c, value), Replace(b, t, value), Replace(b, f, value))
  }

  /** env with b given the value v. */
  function Assign(env: char -> real, b: char, v: real): char -> real
  {
    x => if x == b then v else env(x)
  }

  /** Replacing b by a tree evaluates as giving b the value of that tree. */
  lemma {:induction false} ReplaceEval(lib: Libm, env: char -> real, b: char, value: Node, n: Node)
    ensures Eval(lib, env, Replace(b, n, value)) == Eval(lib, Assign(env, b, Eval(lib, env, value)), n)
  {
    match n
    case Number(_) =>
    case Variable(x) =>
    case Operator(_, l, r) =>
      ReplaceEval(lib, env, b, value, l);
      ReplaceEval(lib, env, b, value, r);
    case Conditional(c, t, f) =>
      ReplaceEval(lib, env, b, value, c);
      ReplaceEval(lib, env, b, value, t);
      ReplaceEval(lib, env, b, value, f);
  }

  /** The names of s that are not in vs, in order. */
  function Keep(s: seq<char>, vs: seq<char>): (r: seq<char>)
    ensures forall x :: x in r <==> x in s && x !in vs
  {
    if s == [] then [] else (if s[0] in vs then [] else [s[0]]) + Keep(s[1..], vs)
  }

  lemma {:induction false} KeepAppend(a: seq<char>, b: seq<char>, vs: seq<char>)
    ensures Keep(a + b, vs) == Keep(a, vs) + Keep(b, vs)
    decreases |a|
  {
    if a == [] {
      assert a + b == b;
    } else {
      assert (a + b)[0] == a[0] && (a + b)[1..] == a[1..] + b;
      KeepAppend(a[1..], b, vs);
    }
  }

  lemma {:induction false} KeepAll(s: seq<char>)
    ensures Keep(s, []) == s
    decreases |s|
  {
    if s != [] {
      KeepAll(s[1..]);
      assert s == [s[0]] + s[1..];
    }
  }

  lemma {:induction false} KeepMore(s: seq<char>, vs: seq<char>, x: char)
    ensures Keep(Keep(s, vs), [x]) == Keep(s, vs + [x])
    decreases |s|
  {
    if s != [] {
      var head := if s[0] in vs then [] else [s[0]];
      KeepAppend(head, Keep(s[1..], vs), [x]);
      KeepMore(s[1..], vs, x);
    }
  }

  lemma {:induction false} KeepNone(s: seq<char>, vs: seq<char>)
    requires forall x :: x in s ==> x in vs
    ensures Keep(s, vs) == []
    decreases |s|
  {
    if s != [] {
      assert s[0] in s;
      KeepNone(s[1..], vs);
    }
  }

  /** s with each b replaced by the names w, in order. */
  function Splice(s: seq<char>, b: char, w: seq<char>): (r: seq<char>)
    ensures forall x :: x in r <==> (x in s && x != b) || (b in s && x in w)
  {
    if s == [] then [] else (if s[0] == b then w else [s[0]]) + Splice(s[1..], b, w)
  }

  lemma {:induction false} SpliceAppend(s: seq<char>, t: seq<char>, b: char, w: seq<char>)
    ensures Splice(s + t, b, w) == Splice(s, b, w) + Splice(t, b, w)
    decreases |s|
  {
    if s == [] {
      assert s + t == t;
    } else {
      assert (s + t)[0] == s[0] && (s + t)[1..] == s[1..] + t;
      SpliceAppend(s[1..], t, b, w);
    }
  }

  /** Splicing in no names is removing b. */
  lemma {:induction false} SpliceNothing(s: seq<char>, b: char)
    ensures Splice(s, b, []) == Keep(s, [b])
    decreases |s|
  {
    if s != [] {
      SpliceNothing(s[1..], b);
    }
  }

  /** Replacing b by a tree puts the names of that tree where b was and keeps every other variable, in order. */
  lemma {:induction false} ReplaceNames(b: char, value: Node, n: Node)
    ensures Names(Replace(b, n, value)) == Splice(Names(n), b, Names(value))
  {
    match n
    case Number(_) =>
    case Variable(x) =>
      assert Names(n)[1..] == [];
    case Operator(_, l, r) =>
      ReplaceNames(b, value, l);
      ReplaceNames(b, value, r);
      SpliceAppend(Names(l), Names(r), b, Names(value));
    case Conditional(c, t, f) =>
      ReplaceNames(b, value, c);
      ReplaceNames(b, value, t);
      ReplaceNames(b, value, f);
      SpliceAppend(Names(c), Names(t), b, Names(value));
      SpliceAppend(Names(c) + Names(t), Names(f), b, Names(value));
  }

  /** Replacing b by a number removes b and keeps every other variable, in order. */
  lemma ReplaceByNumber(b: char, v: real, n: Node)
    ensures Names(Replace(b, n, Number(v))) == Keep(Names(n), [b])
  {
    ReplaceNames(b, Number(v), n);
    SpliceNothing(Names(n), b);
  }

  /** r has the value of root under env, whatever the names replaced so far stand for. */
  ghost predicate Stands(lib: Libm, env: char -> real, r: Node, root: Node)
  {
    forall e: char -> real :: (forall x :: x in Names(r) ==> e(x) == env(x)) ==> Eval(lib, e, r) == Eval(lib, env, root)
  }

  lemma StandsAtStart(lib: Libm, env: char -> real, root: Node)
    ensures Stands(lib, env, root, root)
  {
    forall e: char -> real | forall x :: x in Names(root) ==> e(x) == env(x)
      ensures Eval(lib, e, root) == Eval(lib, env, root)
    {
      EvalAgrees(lib, e, env, root);
    }
  }

  lemma ReplaceStands(lib: Libm, env: char -> real, r: Node, root: Node, x: char)
    requires Stands(lib, env, r, root)
    ensures Stands(lib, env, Replace(x, r, Number(env(x))), root)
  {
    var next := Replace(x, r, Number(env(x)));
    ReplaceByNumber(x, env(x), r);
    forall e: char -> real | forall y :: y in Names(next) ==> e(y) == env(y)
      ensures Eval(lib, e, next) == Eval(lib, env, root)
    {
      ReplaceEval(lib, e, x, Number(env(x)), r);
      var e' := Assign(e, x, env(x));
      assert forall y :: y in Names(r) ==> e'(y) == env(y);
    }
  }

  /** The for loop of replace_variables: replace each listed variable by its value. */
  method ReplaceEach(lib: Libm, tree: Node, variables: seq<char>, env: char -> real, ghost root: Node) returns (r: Node)
    requires Stands(lib, env, tree, root)
    ensures Stands(lib, env, r, root)
    ensures Names(r) == Keep(Names(tree), variables)
  {
    r := tree;
    KeepAll(Names(tree));
    assert variables[..0] == [];
    var i := 0;
    while i < |variables|
      invariant i <= |variables|
      invariant Names(r) == Keep(Names(tree), variables[..i])
      invariant Stands(lib, env, r, root)
      decreases |variables| - i
    {
      var x := variables[i];
      ReplaceByNumber(x, env(x), r);
      ReplaceStands(lib, env, r, root, x);
      KeepMore(Names(tree), variables[..i], x);
      r := Replace(x, r, Number(env(x)));
      assert variables[..i + 1] == variables[..i] + [x];
      i := i + 1;
    }
    assert variables[..i] == variables;
  }

  /**
   * replace_variables with the values supplied by env instead of read from the
   * terminal: while the tree has variables, find them and replace each by its value.
   * The result has no variables, and its value is the value of the tree under env.
   */
  method ReplaceVariables(lib: Libm, root: Node, env: char -> real) returns (r: Node)
    ensures !HasVariables(r)
    ensures Calculate(lib, r) == Eval(lib, env, root)
  {
    r := root;
    StandsAtStart(lib, env, root);
    while HasVariables(r)
      invariant Stands(lib, env, r, root)
      decreases |Names(r)|
    {
      var variables := FindVariables(r, []);
      CollectNames([], Names(r));
      ghost var before := r;
      r := ReplaceEach(lib, r, variables, env, root);
      KeepNone(Names(before), variables);
    }
    CalculateClosed(lib, env, r);
  }

  /** Eval reads the environment only at the names that occur. */
  lemma {:induction false} EvalAgrees(lib: Libm, e: char -> real, env: char -> real, n: Node)
    requires forall x :: x in Names(n) ==> e(x) == env(x)
    ensures Eval(lib, e, n) == Eval(lib, env, n)
  {
    match n
    case Number(_) =>
    case Variable(x) =>
    case Operator(_, l, r) =>
      EvalAgrees(lib, e, env, l);
      EvalAgrees(lib, e, env, r);
    case Conditional(c, t, f) =>
      EvalAgrees(lib, e, env, c);
      EvalAgrees(lib, e, env, t);
      EvalAgrees(lib, e, env, f);
  }
}
