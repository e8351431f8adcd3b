// The canonicaliser of node.c. A chain is a maximal group of nodes carrying the
// same operator; its operands are the subtrees hanging off it. sort_tree collects
// the operands of each chain (add_subtrees), orders them (numbers by value, then
// variables by name, then operators by code, then conditionals as met) and threads
// them back into the unchanged chain (sort).
module Canonical {
  import opened Wrappers
  import opened Nodes
  import opened Lists

  /** n is a node of a chain of operator o. */
  predicate InChain(n: Node, o: Op)
  {
    n.Operator? && n.op == o
  }

  /** The number of chain nodes of operator o from n down. */
  function ChainNodes(n: Node, o: Op): nat
  {
    if InChain(n, o) then 1 + ChainNodes(n.left, o) + ChainNodes(n.right, o) else 0
  }

  /**
   * add_subtrees: the operands of the o-chain rooted at n, in the order they are
   * appended: both sub-chains left then right; a sub-chain before the operand beside
   * it; two plain operands left then right.
   */
  function Operands(n: Node, o: Op): (r: seq<Node>)
    ensures |r| == if InChain(n, o) then ChainNodes(n, o) + 1 else 0
    ensures forall i :: 0 <= i < |r| ==> !InChain(r[i], o)
  {
    if !InChain(n, o) then []
    else if InChain(n.left, o) && InChain(n.right, o) then Operands(n.left, o) + Operands(n.right, o)
    else if InChain(n.right, o) then Operands(n.right, o) + [n.left]
    else if InChain(n.left, o) then Operands(n.left, o) + [n.right]
    else [n.left, n.right]
  }

  /** The shape of the o-chain at n, operands left out. */
  datatype Shape = Slot | Fork(left: Shape, right: Shape)

  function ChainShape(n: Node, o: Op): Shape
  {
    if InChain(n, o) then Fork(ChainShape(n.left, o), ChainShape(n.right, o)) else Slot
  }

  /**
   * sort: the o-chain at n with its operand positions filled from s, in the order
   * add_subtrees visits them.
   */
  function Refill(n: Node, o: Op, s: seq<Node>): (r: Node)
    requires |s| == |Operands(n, o)|
    ensures InChain(n, o) ==> InChain(r, o)
  {
    if !InChain(n, o) then n
    else if InChain(n.left, o) && InChain(n.right, o) then
      var k := |Operands(n.left, o)|;
      Operator(o, Refill(n.left, o, s[..k]), Refill(n.right, o, s[k..]))
    else if InChain(n.right, o) then
      var k := |Operands(n.right, o)|;
      Operator(o, s[k], Refill(n.right, o, s[..k]))
    else if InChain(n.left, o) then
      var k := |Operands(n.left, o)|;
      Operator(o, Refill(n.left, o, s[..k]), s[k])
    else Operator(o, s[0], s[1])
  }

  predicate NoneInChain(s: seq<Node>, o: Op)
  {
    forall i :: 0 <= i < |s| ==> !InChain(s[i], o)
  }

  /** Refilling keeps the chain's shape. */
  lemma {:induction false} RefillShape(n: Node, o: Op, s: seq<Node>)
    requires |s| == |Operands(n, o)| && NoneInChain(s, o)
    ensures ChainShape(Refill(n, o, s), o) == ChainShape(n, o)
    decreases n
  {
    if !InChain(n, o) {
    } else if InChain(n.left, o) && InChain(n.right, o) {
      var k := |Operands(n.left, o)|;
      RefillShape(n.left, o, s[..k]);
      RefillShape(n.right, o, s[k..]);
    } else if InChain(n.right, o) {
      var k := |Operands(n.right, o)|;
      RefillShape(n.right, o, s[..k]);
    } else if InChain(n.left, o) {
      var k := |Operands(n.left, o)|;
      RefillShape(n.left, o, s[..k]);
    }
  }

  /** Refilling makes s the operand list of the chain. */
  lemma {:induction false} RefillOperands(n: Node, o: Op, s: seq<Node>)
    requires InChain(n, o) && |s| == |Operands(n, o)| && NoneInChain(s, o)
    ensures Operands(Refill(n, o, s), o) == s
    decreases n
  {
    if InChain(n.left, o) && InChain(n.right, o) {
      var k := |Operands(n.left, o)|;
      BothSubchains(n, o, s, k);
    } else if InChain(n.left, o) || InChain(n.right, o) {
      OneSubchain(n, o, s);
    } else {
      NoSubchain(n, o, s);
    }
  }

  lemma {:induction false} OneSubchain(n: Node, o: Op, s: seq<Node>)
    requires InChain(n, o) && InChain(n.left, o) != InChain(n.right, o)
    requires |s| == |Operands(n, o)| && NoneInChain(s, o)
    ensures Operands(Refill(n, o, s), o) == s
    decreases n, 0
  {
    var chain := if InChain(n.left, o) then n.left else n.right;
    var k := |Operands(chain, o)|;
    var inner := Refill(chain, o, s[..k]);
    assert NoneInChain(s[..k], o) && !InChain(s[k], o);
    RefillOperands(chain, o, s[..k]);
    assert Refill(n, o, s) == if InChain(n.left, o) then Operator(o, inner, s[k]) else Operator(o, s[k], inner);
    assert Operands(Refill(n, o, s), o) == Operands(inner, o) + [s[k]];
    SplitLast(s, k);
  }

  lemma NoSubchain(n: Node, o: Op, s: seq<Node>)
    requires InChain(n, o) && !InChain(n.left, o) && !InChain(n.right, o)
    requires |s| == |Operands(n, o)| && NoneInChain(s, o)
    ensures Operands(Refill(n, o, s), o) == s
  {
    assert !InChain(s[0], o) && !InChain(s[1], o);
    assert Refill(n, o, s) == Operator(o, s[0], s[1]);
    assert s == [s[0], s[1]];
  }

  lemma {:induction false} BothSubchains(n: Node, o: Op, s: seq<Node>, k: nat)
    requires InChain(n, o) && InChain(n.left, o) && InChain(n.right, o)
    requires |s| == |Operands(n, o)| && NoneInChain(s, o) && k == |Operands(n.left, o)|
    ensures Operands(Refill(n, o, s), o) == s
    decreases n, 0
  {
    assert NoneInChain(s[..k], o) && NoneInChain(s[k..], o);
    var l, r := Refill(n.left, o, s[..k]), Refill(n.right, o, s[k..]);
    assert Refill(n, o, s) == Operator(o, l, r);
    RefillOperands(n.left, o, s[..k]);
    RefillOperands(n.right, o, s[k..]);
    assert Operands(Operator(o, l, r), o) == s[..k] + s[k..];
    SplitJoin(s, k);
  }

  /** A prefix one element longer. */
  lemma PrefixStep<T>(s: seq<T>, i: nat)
    requires i < |s|
    ensures s[..i + 1] == s[..i] + [s[i]]
  {
  }

  /** A sequence is its prefix followed by its last element. */
  lemma SplitLast<T>(s: seq<T>, k: nat)
    requires |s| == k + 1
    ensures s[..k] + [s[k]] == s
  {
  }

  /** A sequence is its prefix followed by the rest. */
  lemma SplitJoin<T>(s: seq<T>, k: nat)
    requires k <= |s|
    ensures s[..k] + s[k..] == s
  {
  }

  /** Refilling a chain with its own operands gives the chain back. */
  lemma {:induction false} RefillOwnOperands(n: Node, o: Op)
    ensures Refill(n, o, Operands(n, o)) == n
    decreases n
  {
    if InChain(n, o) {
      var s := Operands(n, o);
      if InChain(n.left, o) && InChain(n.right, o) {
        var k := |Operands(n.left, o)|;
        assert s[..k] == Operands(n.left, o) && s[k..] == Operands(n.right, o);
        RefillOwnOperands(n.left, o);
        RefillOwnOperands(n.right, o);
      } else if InChain(n.right, o) {
        var k := |Operands(n.right, o)|;
        assert s[..k] == Operands(n.right, o);
        RefillOwnOperands(n.right, o);
      } else if InChain(n.left, o) {
        var k := |Operands(n.left, o)|;
        assert s[..k] == Operands(n.left, o);
        RefillOwnOperands(n.left, o);
      }
    }
  }

  // ---------------------------------------------------------------- sizes

  function SizeSum(s: seq<Node>): nat
  {
    if s == [] then 0 else Size(s[0]) + SizeSum(s[1..])
  }

  lemma {:induction false} SizeSumAppend(a: seq<Node>, b: seq<Node>)
    ensures SizeSum(a + b) == SizeSum(a) + SizeSum(b)
    decreases |a|
  {
    if a == [] {
      assert a + b == b;
    } else {
      assert (a + b)[1..] == a[1..] + b;
      SizeSumAppend(a[1..], b);
    }
  }

  /**
   * The first element of s found in a permutation t of s: what is left of t without
   * it is a permutation of the rest of s.
   */
  lemma Pick(s: seq<Node>, t: seq<Node>) returns (i: nat)
    requires s != [] && multiset(s) == multiset(t)
    ensures i < |t| && t[i] == s[0]
    ensures t == t[..i] + [t[i]] + t[i + 1..]
    ensures multiset(s[1..]) == multiset(t[..i] + t[i + 1..])
  {
    assert s[0] in multiset(t);
    i :| 0 <= i < |t| && t[i] == s[0];
    var rest := t[..i] + t[i + 1..];
    assert t == t[..i] + [t[i]] + t[i + 1..];
    assert s == [s[0]] + s[1..];
    assert multiset(t) == multiset(t[..i]) + multiset([t[i]]) + multiset(t[i + 1..]);
    assert multiset(rest) == multiset(t[..i]) + multiset(t[i + 1..]);
    assert multiset(s[1..]) == multiset(s) - multiset{s[0]};
    assert multiset(rest) == multiset(t) - multiset{t[i]};
  }

  /** SizeSum depends only on the multiset of the operands. */
  lemma {:induction false} SizeSumPermutation(s: seq<Node>, t: seq<Node>)
    requires multiset(s) == multiset(t)
    ensures SizeSum(s) == SizeSum(t)
    decreases |s|
  {
    if s != [] {
      var i := Pick(s, t);
      var rest := t[..i] + t[i + 1..];
      SizeSumPermutation(s[1..], rest);
      assert SizeSum(s) == Size(s[0]) + SizeSum(s[1..]);
      SizeSumAppend(t[..i] + [t[i]], t[i + 1..]);
      SizeSumAppend(t[..i], [t[i]]);
      SizeSumAppend(t[..i], t[i + 1..]);
      assert SizeSum([t[i]]) == Size(t[i]);
    }
  }

  /** A chain consists of its chain nodes and its operands. */
  lemma {:induction false} ChainSize(n: Node, o: Op)
    requires InChain(n, o)
    ensures Size(n) == ChainNodes(n, o) + SizeSum(Operands(n, o))
    decreases n
  {
    assert SizeSum([n.left]) == Size(n.left) && SizeSum([n.right]) == Size(n.right);
    if InChain(n.left, o) && InChain(n.right, o) {
      ChainSize(n.left, o);
      ChainSize(n.right, o);
      SizeSumAppend(Operands(n.left, o), Operands(n.right, o));
    } else if InChain(n.right, o) {
      ChainSize(n.right, o);
      SizeSumAppend(Operands(n.right, o), [n.left]);
    } else if InChain(n.left, o) {
      ChainSize(n.left, o);
      SizeSumAppend(Operands(n.left, o), [n.right]);
    } else {
      SizeSumAppend([n.left], [n.right]);
    }
  }

  lemma RefillSize(n: Node, o: Op, s: seq<Node>)
    requires InChain(n, o) && |s| == |Operands(n, o)| && NoneInChain(s, o)
    ensures Size(Refill(n, o, s)) == ChainNodes(n, o) + SizeSum(s)
  {
    RefillShape(n, o, s);
    RefillOperands(n, o, s);
    ChainSize(Refill(n, o, s), o);
    ChainShapeCounts(Refill(n, o, s), n, o);
  }

  /** Two chains of the same shape have the same number of chain nodes. */
  lemma {:induction false} ChainShapeCounts(a: Node, b: Node, o: Op)
    requires ChainShape(a, o) == ChainShape(b, o)
    ensures ChainNodes(a, o) == ChainNodes(b, o)
    decreases a
  {
    if InChain(a, o) {
      ChainShapeCounts(a.left, b.left, o);
      ChainShapeCounts(a.right, b.right, o);
    }
  }

  // ---------------------------------------------------------------- exchange sort

  /**
   * The field sort_numbers, sort_variables and sort_operators compare: the value of
   * a number, the name of a variable, the code of an operator.
   */
  function Key(n: Node): real
  {
    match n
    case Number(v) => v
    case Variable(x) => x as int as real
    case Operator(o, _, _) => Code(o) as real
    case Conditional(_, _, _) => 0.0
  }

  predicate Sorted(s: seq<Node>)
  {
    forall a, b :: 0 <= a < b < |s| ==> Key(s[a]) <= Key(s[b])
  }

  function Swap(s: seq<Node>, i: nat, j: nat): (r: seq<Node>)
    requires i < |s| && j < |s|
    ensures |r| == |s| && r[i] == s[j] && r[j] == s[i]
  {
    s[i := s[j]][j := s[i]]
  }

  lemma SwapPermutes(s: seq<Node>, i: nat, j: nat)
    requires i < |s| && j < |s|
    ensures multiset(Swap(s, i, j)) == multiset(s)
  {
    var u := s[i := s[j]];
    assert multiset(u) == multiset(s) - multiset{s[i]} + multiset{s[j]};
    assert multiset(u[j := s[i]]) == multiset(u) - multiset{u[j]} + multiset{s[i]};
  }

  /** The inner loop: position i against j, j + 1, ..., swapping when the later key is smaller. */
  function Pass(s: seq<Node>, i: nat, j: nat): (r: seq<Node>)
    requires i < j <= |s|
    ensures |r| == |s|
    decreases |s| - j
  {
    if j == |s| then s
    else Pass(if Key(s[j]) < Key(s[i]) then Swap(s, i, j) else s, i, j + 1)
  }

  /** The outer loop, from position i on. */
  function Passes(s: seq<Node>, i: nat): (r: seq<Node>)
    requires i <= |s|
    ensures |r| == |s|
    decreases |s| - i
  {
    if i == |s| then s else Passes(Pass(s, i, i + 1), i + 1)
  }

  /** sort_numbers / sort_variables / sort_operators on the elements of one list. */
  function ExchangeSort(s: seq<Node>): (r: seq<Node>)
    ensures |r| == |s|
  {
    Passes(s, 0)
  }

  /** One pass leaves the positions before i alone. */
  lemma {:induction false} PassKeepsPrefix(s: seq<Node>, i: nat, j: nat)
    requires i < j <= |s|
    ensures Pass(s, i, j)[..i] == s[..i]
    decreases |s| - j
  {
    if j < |s| {
      var t := if Key(s[j]) < Key(s[i]) then Swap(s, i, j) else s;
      assert t[..i] == s[..i];
      PassKeepsPrefix(t, i, j + 1);
      assert Pass(s, i, j) == Pass(t, i, j + 1);
    }
  }

  /** One pass only exchanges elements. */
  lemma {:induction false} PassPermutes(s: seq<Node>, i: nat, j: nat)
    requires i < j <= |s|
    ensures multiset(Pass(s, i, j)) == multiset(s)
    decreases |s| - j
  {
    if j < |s| {
      var t := if Key(s[j]) < Key(s[i]) then Swap(s, i, j) else s;
      SwapPermutes(s, i, j);
      PassPermutes(t, i, j + 1);
      assert Pass(s, i, j) == Pass(t, i, j + 1);
    }
  }

  /** One pass leaves at i a smallest key of the positions from i on. */
  lemma {:induction false} PassFindsLeast(s: seq<Node>, i: nat, j: nat)
    requires i < j <= |s|
    requires forall k :: i < k < j ==> Key(s[i]) <= Key(s[k])
    ensures forall k :: i < k < |s| ==> Key(Pass(s, i, j)[i]) <= Key(Pass(s, i, j)[k])
    decreases |s| - j
  {
    if j < |s| {
      if Key(s[j]) < Key(s[i]) {
        var t := Swap(s, i, j);
        forall k | i < k < j + 1
          ensures Key(t[i]) <= Key(t[k])
        {
          if k < j {
            assert t[k] == s[k];
          }
        }
        PassFindsLeast(t, i, j + 1);
        assert Pass(s, i, j) == Pass(t, i, j + 1);
      } else {
        PassFindsLeast(s, i, j + 1);
        assert Pass(s, i, j) == Pass(s, i, j + 1);
      }
    }
  }

  /** An element of r past i was in s past i, when r permutes s and keeps the prefix before i. */
  lemma FromSuffix(s: seq<Node>, r: seq<Node>, i: nat, b: nat) returns (k: nat)
    requires i <= b < |r| == |s| && r[..i] == s[..i] && multiset(r) == multiset(s)
    ensures i <= k < |s| && s[k] == r[b]
  {
    assert s == s[..i] + s[i..] && r == r[..i] + r[i..];
    assert multiset(r) == multiset(r[..i]) + multiset(r[i..]);
    assert multiset(s) == multiset(s[..i]) + multiset(s[i..]);
    assert multiset(r[i..]) == multiset(r) - multiset(r[..i]);
    assert multiset(s[i..]) == multiset(s) - multiset(s[..i]);
    assert r[b] in r[i..];
    assert r[b] in multiset(s[i..]);
    k :| i <= k < |s| && s[k] == r[b];
  }

  /**
   * After the pass at i the sorted prefix grows by one, and it still lies below
   * everything after it.
   */
  lemma PassExtends(s: seq<Node>, r: seq<Node>, i: nat)
    requires i < |s| == |r| && r[..i] == s[..i] && multiset(r) == multiset(s)
    requires Sorted(s[..i])
    requires forall a, b :: 0 <= a < i <= b < |s| ==> Key(s[a]) <= Key(s[b])
    requires forall k :: i < k < |r| ==> Key(r[i]) <= Key(r[k])
    ensures Sorted(r[..i + 1])
    ensures forall a, b :: 0 <= a < i + 1 <= b < |r| ==> Key(r[a]) <= Key(r[b])
  {
    forall a, b | 0 <= a < i + 1 <= b < |r|
      ensures Key(r[a]) <= Key(r[b])
    {
      if a < i {
        var k := FromSuffix(s, r, i, b);
        assert r[a] == s[..i][a];
      }
    }
    forall a, b | 0 <= a < b < i + 1
      ensures Key(r[a]) <= Key(r[b])
    {
      if b == i {
        var k := FromSuffix(s, r, i, i);
        assert r[a] == s[..i][a];
      } else {
        assert r[a] == s[..i][a] && r[b] == s[..i][b];
      }
    }
  }

  lemma {:induction false} PassesSort(s: seq<Node>, i: nat)
    requires i <= |s|
    requires Sorted(s[..i])
    requires forall a, b :: 0 <= a < i <= b < |s| ==> Key(s[a]) <= Key(s[b])
    ensures Sorted(Passes(s, i)) && multiset(Passes(s, i)) == multiset(s)
    decreases |s| - i
  {
    if i < |s| {
      var r := Pass(s, i, i + 1);
      PassKeepsPrefix(s, i, i + 1);
      PassPermutes(s, i, i + 1);
      PassFindsLeast(s, i, i + 1);
      PassExtends(s, r, i);
      PassesSort(r, i + 1);
      assert Passes(s, i) == Passes(r, i + 1);
    } else {
      assert s[..i] == s;
    }
  }

  /** The three sort functions sort their list and keep its elements. */
  lemma ExchangeSortSorts(s: seq<Node>)
    ensures Sorted(ExchangeSort(s)) && multiset(ExchangeSort(s)) == multiset(s)
  {
    PassesSort(s, 0);
  }

  // ---------------------------------------------------------------- grouping

  predicate AllOfKind(s: seq<Node>, kind: int)
  {
    forall i :: 0 <= i < |s| ==> Kind(s[i]) == kind
  }

  /** The operands of one kind, in list order: the list sort_tree fills for that kind. */
  function Only(s: seq<Node>, kind: int): (r: seq<Node>)
    ensures AllOfKind(r, kind)
    ensures |r| <= |s|
  {
    if s == [] then []
    else (if Kind(s[0]) == kind then [s[0]] else []) + Only(s[1..], kind)
  }

  lemma {:induction false} OnlyAppend(a: seq<Node>, b: seq<Node>, kind: int)
    ensures Only(a + b, kind) == Only(a, kind) + Only(b, kind)
    decreases |a|
  {
    if a == [] {
      assert a + b == b;
    } else {
      var head := if Kind(a[0]) == kind then [a[0]] else [];
      assert (a + b)[0] == a[0] && (a + b)[1..] == a[1..] + b;
      assert Only(a + b, kind) == head + Only(a[1..] + b, kind);
      OnlyAppend(a[1..], b, kind);
      assert Only(a, kind) == head + Only(a[1..], kind);
      assert head + (Only(a[1..], kind) + Only(b, kind)) == (head + Only(a[1..], kind)) + Only(b, kind);
    }
  }

  lemma {:induction false} OnlyOfKind(s: seq<Node>, kind: int, other: int)
    requires AllOfKind(s, kind)
    ensures Only(s, kind) == s
    ensures other != kind ==> Only(s, other) == []
    decreases |s|
  {
    if s != [] {
      assert AllOfKind(s[1..], kind);
      OnlyOfKind(s[1..], kind, other);
      assert s == [s[0]] + s[1..];
    }
  }

  /** Only, one element at a time, as a multiset. */
  lemma OnlyHead(s: seq<Node>, kind: int)
    requires s != []
    ensures multiset(Only(s, kind))
         == (if Kind(s[0]) == kind then multiset{s[0]} else multiset{}) + multiset(Only(s[1..], kind))
  {
  }

  /** Every operand falls into exactly one of the four kinds. */
  lemma {:induction false} OnlySplit(s: seq<Node>)
    ensures multiset(s) == multiset(Only(s, NUMBER)) + multiset(Only(s, VARIABLE))
                         + multiset(Only(s, OPERATOR)) + multiset(Only(s, CONDITIONAL))
    decreases |s|
  {
    if s != [] {
      var rest := s[1..];
      OnlySplit(rest);
      assert s == [s[0]] + rest;
      assert multiset(s) == multiset{s[0]} + multiset(rest);
      OnlyHead(s, NUMBER);
      OnlyHead(s, VARIABLE);
      OnlyHead(s, OPERATOR);
      OnlyHead(s, CONDITIONAL);
      OneKind(s[0]);
      Regroup(multiset{s[0]}, multiset(rest),
              multiset(Only(rest, NUMBER)), multiset(Only(rest, VARIABLE)),
              multiset(Only(rest, OPERATOR)), multiset(Only(rest, CONDITIONAL)),
              if Kind(s[0]) == NUMBER then multiset{s[0]} else multiset{},
              if Kind(s[0]) == VARIABLE then multiset{s[0]} else multiset{},
              if Kind(s[0]) == OPERATOR then multiset{s[0]} else multiset{},
              if Kind(s[0]) == CONDITIONAL then multiset{s[0]} else multiset{});
    }
  }

  /** A head split four ways joins the four parts of the rest. */
  lemma Regroup(h: multiset<Node>, m: multiset<Node>, a: multiset<Node>, b: multiset<Node>,
                c: multiset<Node>, d: multiset<Node>, ha: multiset<Node>, hb: multiset<Node>,
                hc: multiset<Node>, hd: multiset<Node>)
    requires m == a + b + c + d && ha + hb + hc + hd == h
    ensures h + m == (ha + a) + (hb + b) + (hc + c) + (hd + d)
  {
  }

  /** Of the four kinds, an operand has exactly one. */
  lemma OneKind(x: Node)
    ensures (if Kind(x) == NUMBER then multiset{x} else multiset{})
          + (if Kind(x) == VARIABLE then multiset{x} else multiset{})
          + (if Kind(x) == OPERATOR then multiset{x} else multiset{})
          + (if Kind(x) == CONDITIONAL then multiset{x} else multiset{}) == multiset{x}
  {
  }

  lemma KindOfPermutation(s: seq<Node>, t: seq<Node>, kind: int)
    requires multiset(s) == multiset(t) && AllOfKind(s, kind)
    ensures AllOfKind(t, kind)
  {
    forall i | 0 <= i < |t|
      ensures Kind(t[i]) == kind
    {
      assert t[i] in multiset(s);
    }
  }

  /**
   * The list sort_tree threads back into the chain: the numbers sorted by value, then
   * the variables by name, then the operators by code, then the conditionals as met.
   */
  function Arrange(ops: seq<Node>): (r: seq<Node>)
    ensures multiset(r) == multiset(ops) && |r| == |ops|
  {
    ExchangeSortSorts(Only(ops, NUMBER));
    ExchangeSortSorts(Only(ops, VARIABLE));
    ExchangeSortSorts(Only(ops, OPERATOR));
    OnlySplit(ops);
    ExchangeSort(Only(ops, NUMBER)) + ExchangeSort(Only(ops, VARIABLE))
      + ExchangeSort(Only(ops, OPERATOR)) + Only(ops, CONDITIONAL)
  }

  /** The place of a kind in the arranged list. */
  function Rank(n: Node): nat
  {
    match n
    case Number(_) => 0
    case Variable(_) => 1
    case Operator(_, _, _) => 2
    case Conditional(_, _, _) => 3
  }

  /** x may come before y in an arranged list. */
  predicate Before(x: Node, y: Node)
  {
    Rank(x) < Rank(y) || (Rank(x) == Rank(y) && (x.Conditional? || Key(x) <= Key(y)))
  }

  predicate Grouped(s: seq<Node>)
  {
    forall a, b :: 0 <= a < b < |s| ==> Before(s[a], s[b])
  }

  lemma GroupedAppend(x: seq<Node>, y: seq<Node>)
    requires Grouped(x) && Grouped(y)
    requires forall a, b :: 0 <= a < |x| && 0 <= b < |y| ==> Rank(x[a]) < Rank(y[b])
    ensures Grouped(x + y)
  {
    forall a, b | 0 <= a < b < |x + y|
      ensures Before((x + y)[a], (x + y)[b])
    {
      if b < |x| {
        assert (x + y)[a] == x[a] && (x + y)[b] == x[b];
      } else if a < |x| {
        assert (x + y)[a] == x[a] && (x + y)[b] == y[b - |x|];
      } else {
        assert (x + y)[a] == y[a - |x|] && (x + y)[b] == y[b - |x|];
      }
    }
  }

  /** A group of one kind sorted by its key, or a group of conditionals, is grouped. */
  lemma OneKindGrouped(s: seq<Node>, kind: int)
    requires AllOfKind(s, kind) && (kind == CONDITIONAL || Sorted(s))
    ensures Grouped(s)
  {
    forall a, b | 0 <= a < b < |s|
      ensures Before(s[a], s[b])
    {
      assert Kind(s[a]) == Kind(s[b]);
    }
  }

  lemma OnlyOfFour(a: seq<Node>, b: seq<Node>, c: seq<Node>, d: seq<Node>, kind: int)
    ensures Only(a + b + c + d, kind) == Only(a, kind) + Only(b, kind) + Only(c, kind) + Only(d, kind)
  {
    OnlyAppend(a + b + c, d, kind);
    OnlyAppend(a + b, c, kind);
    OnlyAppend(a, b, kind);
  }

  /** Four lists of the four kinds, concatenated, split back into the four. */
  lemma PickGroups(a: seq<Node>, b: seq<Node>, c: seq<Node>, d: seq<Node>)
    requires AllOfKind(a, NUMBER) && AllOfKind(b, VARIABLE) && AllOfKind(c, OPERATOR) && AllOfKind(d, CONDITIONAL)
    ensures Only(a + b + c + d, NUMBER) == a && Only(a + b + c + d, VARIABLE) == b
    ensures Only(a + b + c + d, OPERATOR) == c && Only(a + b + c + d, CONDITIONAL) == d
  {
    OnlyOfFour(a, b, c, d, NUMBER);
    OnlyOfFour(a, b, c, d, VARIABLE);
    OnlyOfFour(a, b, c, d, OPERATOR);
    OnlyOfFour(a, b, c, d, CONDITIONAL);
    OnlyOfKind(a, NUMBER, VARIABLE);
    OnlyOfKind(a, NUMBER, OPERATOR);
    OnlyOfKind(a, NUMBER, CONDITIONAL);
    OnlyOfKind(b, VARIABLE, NUMBER);
    OnlyOfKind(b, VARIABLE, OPERATOR);
    OnlyOfKind(b, VARIABLE, CONDITIONAL);
    OnlyOfKind(c, OPERATOR, NUMBER);
    OnlyOfKind(c, OPERATOR, VARIABLE);
    OnlyOfKind(c, OPERATOR, CONDITIONAL);
    OnlyOfKind(d, CONDITIONAL, NUMBER);
    OnlyOfKind(d, CONDITIONAL, VARIABLE);
    OnlyOfKind(d, CONDITIONAL, OPERATOR);
  }

  /** One sorted group per kind, in the order numbers, variables, operators, conditionals. */
  lemma ArrangeGroups(ops: seq<Node>)
    ensures Only(Arrange(ops), NUMBER) == ExchangeSort(Only(ops, NUMBER))
    ensures Only(Arrange(ops), VARIABLE) == ExchangeSort(Only(ops, VARIABLE))
    ensures Only(Arrange(ops), OPERATOR) == ExchangeSort(Only(ops, OPERATOR))
    ensures Only(Arrange(ops), CONDITIONAL) == Only(ops, CONDITIONAL)
  {
    var n, v, o, c := Only(ops, NUMBER), Only(ops, VARIABLE), Only(ops, OPERATOR), Only(ops, CONDITIONAL);
    var sn, sv, so := ExchangeSort(n), ExchangeSort(v), ExchangeSort(o);
    ExchangeSortSorts(n);
    ExchangeSortSorts(v);
    ExchangeSortSorts(o);
    KindOfPermutation(n, sn, NUMBER);
    KindOfPermutation(v, sv, VARIABLE);
    KindOfPermutation(o, so, OPERATOR);
    assert Arrange(ops) == sn + sv + so + c;
    PickGroups(sn, sv, so, c);
  }

  /** Every operand comes after those of lower rank and after the smaller keys of its own rank. */
  lemma ArrangeGrouped(ops: seq<Node>)
    ensures Grouped(Arrange(ops))
  {
    var n, v, o, c := Only(ops, NUMBER), Only(ops, VARIABLE), Only(ops, OPERATOR), Only(ops, CONDITIONAL);
    var sn, sv, so := ExchangeSort(n), ExchangeSort(v), ExchangeSort(o);
    SortedGroup(n, NUMBER);
    SortedGroup(v, VARIABLE);
    SortedGroup(o, OPERATOR);
    OneKindGrouped(c, CONDITIONAL);
    RanksOfKind(c, CONDITIONAL);
    GroupedAppendRanked(sn, sv, 1);
    GroupedAppendRanked(sn + sv, so, 2);
    GroupedAppendRanked(sn + sv + so, c, 3);
  }

  /** The rank every operand of one kind has. */
  function KindRank(kind: int): nat
  {
    if kind == NUMBER then 0 else if kind == VARIABLE then 1 else if kind == OPERATOR then 2 else 3
  }

  lemma RanksOfKind(s: seq<Node>, kind: int)
    requires AllOfKind(s, kind)
    ensures forall x :: x in s ==> Rank(x) == KindRank(kind)
  {
    forall x | x in s
      ensures Rank(x) == KindRank(kind)
    {
      var a :| 0 <= a < |s| && s[a] == x;
      assert Kind(s[a]) == kind;
    }
  }

  /** The exchange sort of a group of one sortable kind: grouped, and of that kind's rank. */
  lemma SortedGroup(s: seq<Node>, kind: int)
    requires AllOfKind(s, kind) && kind != CONDITIONAL
    ensures Grouped(ExchangeSort(s))
    ensures forall x :: x in ExchangeSort(s) ==> Rank(x) == KindRank(kind)
  {
    var r := ExchangeSort(s);
    ExchangeSortSorts(s);
    KindOfPermutation(s, r, kind);
    OneKindGrouped(r, kind);
    RanksOfKind(r, kind);
  }

  /** Two grouped lists, all of the first below rank k and all of the second from k on. */
  lemma GroupedAppendRanked(x: seq<Node>, y: seq<Node>, k: nat)
    requires Grouped(x) && Grouped(y)
    requires forall e :: e in x ==> Rank(e) < k
    requires forall e :: e in y ==> Rank(e) >= k
    ensures Grouped(x + y)
  {
    forall a, b | 0 <= a < |x| && 0 <= b < |y|
      ensures Rank(x[a]) < Rank(y[b])
    {
      assert x[a] in x && y[b] in y;
    }
    GroupedAppend(x, y);
  }

  // ---------------------------------------------------------------- sort_tree

  /** The code as written, or with the defects this model reports repaired. */
  datatype Revision = AsWritten | Repaired

  /**
   * The operators whose operands sort_tree leaves in place: MINUS, DIVIDE and POWER;
   * once repaired, E_SYMBOL as well, since its mantissa and exponent do not commute.
   */
  predicate Unsorted(o: Op, rev: Revision)
  {
    o == Minus || o == Divide || o == Power || (rev == Repaired && o == ESymbol)
  }

  /**
   * The body of sort_tree once the children are done: the operands of the chain at m,
   * arranged and threaded back into the same chain.
   */
  function Rearranged(m: Node): (r: Node)
    requires m.Operator?
    ensures InChain(r, m.op) && Size(r) == Size(m)
    ensures ChainShape(r, m.op) == ChainShape(m, m.op)
    ensures Operands(r, m.op) == Arrange(Operands(m, m.op))
  {
    var ops := Operands(m, m.op);
    var s := Arrange(ops);
    assert NoneInChain(s, m.op) by {
      forall i | 0 <= i < |s|
        ensures !InChain(s[i], m.op)
      {
        assert s[i] in multiset(ops);
      }
    }
    RefillSize(m, m.op, s);
    RefillShape(m, m.op, s);
    RefillOperands(m, m.op, s);
    ChainSize(m, m.op);
    SizeSumPermutation(ops, s);
    Refill(m, m.op, s)
  }

  /** sort_tree: children first, then the chain at the root unless its operator is left alone. */
  function SortedTree(n: Node, rev: Revision): (r: Node)
    ensures Size(r) == Size(n) && Rank(r) == Rank(n)
    ensures n.Operator? ==> r.op == n.op
    decreases n
  {
    match n
    case Conditional(c, t, f) => Conditional(SortedTree(c, rev), SortedTree(t, rev), SortedTree(f, rev))
    case Operator(o, a, b) =>
      var m := Operator(o, SortedTree(a, rev), SortedTree(b, rev));
      if Unsorted(o, rev) then m else Rearranged(m)
    case _ => n
  }

  /** Sorting keeps the shape of every chain in the tree. */
  lemma {:induction false} SortedTreeKeepsShape(n: Node, o: Op, rev: Revision)
    ensures ChainShape(SortedTree(n, rev), o) == ChainShape(n, o)
    decreases n
  {
    if InChain(n, o) {
      SortedTreeKeepsShape(n.left, o, rev);
      SortedTreeKeepsShape(n.right, o, rev);
    }
  }

  /**
   * At a sorted operator, the chain's operands are a permutation of those of the chain
   * built from the sorted children, grouped by kind and sorted by key within each kind.
   */
  lemma SortedTreeOperands(n: Node, rev: Revision)
    requires n.Operator? && !Unsorted(n.op, rev)
    ensures var m := Operator(n.op, SortedTree(n.left, rev), SortedTree(n.right, rev));
      var ops := Operands(SortedTree(n, rev), n.op);
      ops == Arrange(Operands(m, n.op)) && multiset(ops) == multiset(Operands(m, n.op)) && Grouped(ops)
  {
    var m := Operator(n.op, SortedTree(n.left, rev), SortedTree(n.right, rev));
    ArrangeGrouped(Operands(m, n.op));
  }

  // ---------------------------------------------------------------- the methods

  /** add_subtrees: append the operands of the o-chain at root to l. */
  method AddSubtrees(root: Node, l: List, o: Op)
    requires l.Valid()
    modifies l
    ensures l.Valid() && l.elements == old(l.elements) + Operands(root, o)
    ensures l.current == if InChain(root, o) then 0 else old(l.current)
    decreases root
  {
    if !InChain(root, o) {
      return;
    }
    if InChain(root.left, o) && InChain(root.right, o) {
      AddSubtrees(root.left, l, o);
      AddSubtrees(root.right, l, o);
      return;
    }
    if InChain(root.right, o) {
      AddSubtrees(root.right, l, o);
      l.AddNode(root.left);
      return;
    }
    if InChain(root.left, o) {
      AddSubtrees(root.left, l, o);
      l.AddNode(root.right);
      return;
    }
    l.AddNode(root.left);
    l.AddNode(root.right);
  }

  /** get_operands: a fresh list of the operands, or NULL when root is not an o node. */
  method GetOperands(root: Node, o: Op) returns (l: List?)
    ensures l == null <==> !InChain(root, o)
    ensures l != null ==> fresh(l) && l.Valid() && l.elements == Operands(root, o) && l.current == 0
  {
    l := new List();
    AddSubtrees(root, l, o);
    if l.count == 0 {
      return null;
    }
  }

  /**
   * sort_numbers, sort_variables and sort_operators: for each element, every later
   * element whose key is smaller is exchanged with it.
   */
  method SortGroup(l: List)
    requires l.Valid()
    modifies l
    ensures l.Valid() && l.elements == ExchangeSort(old(l.elements)) && l.current == old(l.current)
  {
    ghost var goal := ExchangeSort(l.elements);
    var i := 0;
    while i < |l.elements|
      invariant l.Valid() && l.current == old(l.current) && |l.elements| == |old(l.elements)|
      invariant i <= |l.elements| && Passes(l.elements, i) == goal
      decreases |l.elements| - i
    {
      var j := i + 1;
      while j < |l.elements|
        invariant l.Valid() && l.current == old(l.current) && |l.elements| == |old(l.elements)|
        invariant i < j <= |l.elements| && Passes(Pass(l.elements, i, j), i + 1) == goal
        decreases |l.elements| - j
      {
        if Key(l.elements[j]) < Key(l.elements[i]) {
          l.elements := Swap(l.elements, i, j);
        }
        j := j + 1;
      }
      i := i + 1;
    }
  }

  /** l is the list of the operands of one kind among s, its cursor on the first. */
  ghost predicate Holds(l: List, s: seq<Node>, kind: int)
    reads l
  {
    l.Valid() && l.elements == Only(s, kind) && l.current == 0
  }

  /** One test of the partition loop: node joins l when it is of l's kind. */
  method Offer(l: List, ghost s: seq<Node>, node: Node, kind: int)
    requires Holds(l, s, kind)
    modifies l
    ensures Holds(l, s + [node], kind)
  {
    OnlyAppend(s, [node], kind);
    if Kind(node) == kind {
      l.AddNode(node);
    }
  }

  predicate Distinct(a: List, b: List, c: List, d: List)
  {
    a != b && a != c && a != d && b != c && b != d && c != d
  }

  /** The four tests of one pass of the partition loop. */
  method OfferAll(numbers: List, variables: List, operators: List, conditional: List, ghost s: seq<Node>, node: Node)
    requires Distinct(numbers, variables, operators, conditional)
    requires Holds(numbers, s, NUMBER) && Holds(variables, s, VARIABLE)
    requires Holds(operators, s, OPERATOR) && Holds(conditional, s, CONDITIONAL)
    modifies numbers, variables, operators, conditional
    ensures Holds(numbers, s + [node], NUMBER) && Holds(variables, s + [node], VARIABLE)
    ensures Holds(operators, s + [node], OPERATOR) && Holds(conditional, s + [node], CONDITIONAL)
  {
    Offer(numbers, s, node, NUMBER);
    Offer(variables, s, node, VARIABLE);
    Offer(operators, s, node, OPERATOR);
    Offer(conditional, s, node, CONDITIONAL);
  }

  /** The loop of sort_tree that hands each operand to the list of its kind. */
  method Partition(operands: List) returns (numbers: List, variables: List, operators: List, conditional: List)
    requires operands.Valid() && operands.current == 0
    modifies operands
    ensures operands.Valid() && operands.elements == old(operands.elements)
    ensures fresh(numbers) && fresh(variables) && fresh(operators) && fresh(conditional)
    ensures Distinct(numbers, variables, operators, conditional)
    ensures Holds(numbers, operands.elements, NUMBER) && Holds(variables, operands.elements, VARIABLE)
    ensures Holds(operators, operands.elements, OPERATOR) && Holds(conditional, operands.elements, CONDITIONAL)
  {
    variables := new List();
    operators := new List();
    numbers := new List();
    conditional := new List();
    ghost var all := operands.elements;
    ghost var done: seq<Node> := [];
    while operands.current < |operands.elements|
      invariant operands.Valid() && operands.elements == all && done == all[..operands.current]
      invariant fresh(numbers) && fresh(variables) && fresh(operators) && fresh(conditional)
      invariant Distinct(numbers, variables, operators, conditional)
      invariant operands != numbers && operands != variables && operands != operators && operands != conditional
      invariant Holds(numbers, done, NUMBER) && Holds(variables, done, VARIABLE)
      invariant Holds(operators, done, OPERATOR) && Holds(conditional, done, CONDITIONAL)
      decreases |operands.elements| - operands.current
    {
      PrefixStep(all, operands.current);
      var node := TakeOperand(operands);
      OfferAll(numbers, variables, operators, conditional, done, node);
      done := done + [node];
    }
    assert done == all;
  }

  /** The loops of sort_tree that append a group, from its cursor on, to the sorted list. */
  method Drain(from: List, into: List)
    requires from != into && from.Valid() && into.Valid()
    modifies from, into
    ensures from.Valid() && from.elements == old(from.elements) && from.current == |from.elements|
    ensures into.Valid() && into.elements == old(into.elements) + old(from.elements[from.current..])
    ensures into.current == if old(from.current) < |from.elements| then 0 else old(into.current)
  {
    while from.current < |from.elements|
      invariant from.Valid() && into.Valid() && from.elements == old(from.elements)
      invariant old(from.current) <= from.current
      invariant into.elements == old(into.elements) + from.elements[old(from.current)..from.current]
      invariant into.current == if old(from.current) < from.current then 0 else old(into.current)
      decreases |from.elements| - from.current
    {
      assert from.elements[old(from.current)..from.current + 1]
          == from.elements[old(from.current)..from.current] + [from.elements[from.current]];
      into.AddNode(from.elements[from.current]);
      NextElement(from);
    }
  }

  lemma RefillBoth(root: Node, o: Op, e: seq<Node>, start: nat, mid: nat, end: nat)
    requires InChain(root, o) && InChain(root.left, o) && InChain(root.right, o)
    requires start <= mid <= end <= |e| && mid - start == |Operands(root.left, o)| && end - start == |Operands(root, o)|
    ensures Refill(root, o, e[start..end])
         == Operator(o, Refill(root.left, o, e[start..mid]), Refill(root.right, o, e[mid..end]))
  {
    var s := e[start..end];
    assert s[..mid - start] == e[start..mid];
    assert s[mid - start..] == e[mid..end];
    assert Refill(root, o, s) == Operator(o, Refill(root.left, o, s[..mid - start]), Refill(root.right, o, s[mid - start..]));
  }

  /** A prefix of a slice is the shorter slice. */
  lemma SliceHead(e: seq<Node>, i: nat, j: nat, k: nat)
    requires i <= j < k <= |e|
    ensures e[i..k][..j - i] == e[i..j] && e[i..k][j - i] == e[j]
  {
  }

  lemma RefillRightChain(root: Node, o: Op, e: seq<Node>, start: nat, end: nat)
    requires InChain(root, o) && !InChain(root.left, o) && InChain(root.right, o)
    requires start < end <= |e| && end - start == |Operands(root, o)|
    ensures Refill(root, o, e[start..end]) == Operator(o, e[end - 1], Refill(root.right, o, e[start..end - 1]))
  {
    var s := e[start..end];
    var k := |Operands(root.right, o)|;
    assert |Operands(root, o)| == k + 1;
    SliceHead(e, start, end - 1, end);
    assert Refill(root, o, s) == Operator(o, s[k], Refill(root.right, o, s[..k]));
  }

  lemma RefillLeftChain(root: Node, o: Op, e: seq<Node>, start: nat, end: nat)
    requires InChain(root, o) && InChain(root.left, o) && !InChain(root.right, o)
    requires start < end <= |e| && end - start == |Operands(root, o)|
    ensures Refill(root, o, e[start..end]) == Operator(o, Refill(root.left, o, e[start..end - 1]), e[end - 1])
  {
    var s := e[start..end];
    var k := |Operands(root.left, o)|;
    assert |Operands(root, o)| == k + 1;
    SliceHead(e, start, end - 1, end);
    assert Refill(root, o, s) == Operator(o, Refill(root.left, o, s[..k]), s[k]);
  }

  lemma RefillPair(root: Node, o: Op, e: seq<Node>, start: nat, end: nat)
    requires InChain(root, o) && !InChain(root.left, o) && !InChain(root.right, o)
    requires end == start + 2 <= |e|
    ensures Refill(root, o, e[start..end]) == Operator(o, e[start], e[start + 1])
  {
  }

  /** How many operands the o-chain at root has, by the shape of its top. */
  lemma OperandCount(root: Node, o: Op)
    requires InChain(root, o)
    ensures var left, right := |Operands(root.left, o)|, |Operands(root.right, o)|;
      |Operands(root, o)| == if InChain(root.left, o) && InChain(root.right, o) then left + right
        else if InChain(root.right, o) then right + 1
        else if InChain(root.left, o) then left + 1
        else 2
  {
  }

  /** The node under the cursor of l, which then moves one element on. */
  method TakeOperand(l: List) returns (n: Node)
    requires l.Valid() && l.current < |l.elements|
    modifies l
    ensures l.Valid() && l.elements == old(l.elements)
    ensures l.current == old(l.current) + 1 && n == l.elements[old(l.current)]
  {
    n := l.elements[l.current];
    NextElement(l);
  }

  /**
   * sort: walk the o-chain at root in the order add_subtrees did and fill its operand
   * positions from the list, starting at the list's cursor.
   */
  method Sort(root: Node, l: List, o: Op) returns (r: Node)
    requires l.Valid() && l.current + |Operands(root, o)| <= |l.elements|
    modifies l
    ensures l.Valid() && l.elements == old(l.elements)
    ensures l.current == old(l.current) + |Operands(root, o)|
    ensures r == Refill(root, o, l.elements[old(l.current)..l.current])
    decreases root, 1
  {
    if !InChain(root, o) {
      return root;
    }
    if InChain(root.left, o) && InChain(root.right, o) {
      r := SortForks(root, l, o);
    } else if InChain(root.right, o) {
      r := SortRightFork(root, l, o);
    } else if InChain(root.left, o) {
      r := SortLeftFork(root, l, o);
    } else {
      ghost var start := l.current;
      OperandCount(root, o);
      var left := TakeOperand(l);
      var right := TakeOperand(l);
      RefillPair(root, o, l.elements, start, l.current);
      r := Operator(o, left, right);
    }
  }

  /** The case of sort where both children continue the chain: left sub-chain, then right. */
  method SortForks(root: Node, l: List, o: Op) returns (r: Node)
    requires InChain(root, o) && InChain(root.left, o) && InChain(root.right, o)
    requires l.Valid() && l.current + |Operands(root, o)| <= |l.elements|
    modifies l
    ensures l.Valid() && l.elements == old(l.elements)
    ensures l.current == old(l.current) + |Operands(root, o)|
    ensures r == Refill(root, o, l.elements[old(l.current)..l.current])
    decreases root, 0
  {
    ghost var start := l.current;
    OperandCount(root, o);
    var left := Sort(root.left, l, o);
    ghost var mid := l.current;
    var right := Sort(root.right, l, o);
    RefillBoth(root, o, l.elements, start, mid, l.current);
    r := Operator(o, left, right);
  }

  /** The case of sort where only the right child continues the chain: that sub-chain, then the left operand. */
  method SortRightFork(root: Node, l: List, o: Op) returns (r: Node)
    requires InChain(root, o) && !InChain(root.left, o) && InChain(root.right, o)
    requires l.Valid() && l.current + |Operands(root, o)| <= |l.elements|
    modifies l
    ensures l.Valid() && l.elements == old(l.elements)
    ensures l.current == old(l.current) + |Operands(root, o)|
    ensures r == Refill(root, o, l.elements[old(l.current)..l.current])
    decreases root, 0
  {
    ghost var start := l.current;
    assert |Operands(root, o)| == |Operands(root.right, o)| + 1;
    var right := Sort(root.right, l, o);
    var left := TakeOperand(l);
    RefillRightChain(root, o, l.elements, start, l.current);
    r := Operator(o, left, right);
  }

  /** The case of sort where only the left child continues the chain: that sub-chain, then the right operand. */
  method SortLeftFork(root: Node, l: List, o: Op) returns (r: Node)
    requires InChain(root, o) && InChain(root.left, o) && !InChain(root.right, o)
    requires l.Valid() && l.current + |Operands(root, o)| <= |l.elements|
    modifies l
    ensures l.Valid() && l.elements == old(l.elements)
    ensures l.current == old(l.current) + |Operands(root, o)|
    ensures r == Refill(root, o, l.elements[old(l.current)..l.current])
    decreases root, 0
  {
    ghost var start := l.current;
    assert |Operands(root, o)| == |Operands(root.left, o)| + 1;
    var left := Sort(root.left, l, o);
    var right := TakeOperand(l);
    RefillLeftChain(root, o, l.elements, start, l.current);
    r := Operator(o, left, right);
  }

  /** The four groups laid out one after another, as Arrange orders them. */
  lemma ArrangeIs(ops: seq<Node>, gn: seq<Node>, gv: seq<Node>, go: seq<Node>, gc: seq<Node>)
    requires gn == ExchangeSort(Only(ops, NUMBER)) && gv == ExchangeSort(Only(ops, VARIABLE))
    requires go == ExchangeSort(Only(ops, OPERATOR)) && gc == Only(ops, CONDITIONAL)
    ensures Arrange(ops) == gn + gv + go + gc
  {
  }

  /** The drain loops of sort_tree: every group in turn is moved to the end of sorted. */
  method DrainAll(numbers: List, variables: List, operators: List, conditional: List, sorted: List)
    requires Distinct(numbers, variables, operators, conditional)
    requires sorted != numbers && sorted != variables && sorted != operators && sorted != conditional
    requires numbers.Valid() && variables.Valid() && operators.Valid() && conditional.Valid() && sorted.Valid()
    requires numbers.current == 0 && variables.current == 0 && operators.current == 0 && conditional.current == 0
    modifies numbers, variables, operators, conditional, sorted
    ensures numbers.Valid() && variables.Valid() && operators.Valid() && conditional.Valid() && sorted.Valid()
    ensures numbers.elements == old(numbers.elements) && variables.elements == old(variables.elements)
    ensures operators.elements == old(operators.elements) && conditional.elements == old(conditional.elements)
    ensures sorted.elements == old(sorted.elements) + old(numbers.elements) + old(variables.elements)
      + old(operators.elements) + old(conditional.elements)
  {
    ghost var s0, gn, gv, go, gc := sorted.elements, numbers.elements, variables.elements, operators.elements, conditional.elements;
    assert gn[0..] == gn && gv[0..] == gv && go[0..] == go && gc[0..] == gc;
    Drain(numbers, sorted);
    assert sorted.elements == s0 + gn;
    Drain(variables, sorted);
    assert sorted.elements == s0 + gn + gv;
    Drain(operators, sorted);
    assert sorted.elements == s0 + gn + gv + go;
    Drain(conditional, sorted);
  }

  /**
   * The middle of sort_tree: partition the operands by kind, sort each group and
   * concatenate the groups into a fresh list. The group lists are released with
   * delete_list_without_nodes.
   */
  method ArrangeList(operands: List) returns (sorted: List)
    requires operands.Valid()
    modifies operands
    ensures operands.Valid() && operands.elements == old(operands.elements)
    ensures fresh(sorted) && sorted.Valid() && sorted.elements == Arrange(operands.elements)
  {
    sorted := new List();
    var numbers, variables, operators, conditional := SortedGroups(operands);
    ghost var gn, gv, go, gc := numbers.elements, variables.elements, operators.elements, conditional.elements;
    DrainAll(numbers, variables, operators, conditional, sorted);
    var released := DeleteWithoutNodes(variables);
    released := DeleteWithoutNodes(operators);
    released := DeleteWithoutNodes(numbers);
    released := DeleteWithoutNodes(conditional);
    assert sorted.elements == [] + gn + gv + go + gc;
    assert [] + gn == gn;
    ArrangeIs(operands.elements, gn, gv, go, gc);
  }

  /** The first half of the middle of sort_tree: the operands partitioned by kind, three groups sorted. */
  method SortedGroups(operands: List) returns (numbers: List, variables: List, operators: List, conditional: List)
    requires operands.Valid()
    modifies operands
    ensures operands.Valid() && operands.elements == old(operands.elements)
    ensures fresh(numbers) && fresh(variables) && fresh(operators) && fresh(conditional)
    ensures Distinct(numbers, variables, operators, conditional)
    ensures numbers.Valid() && variables.Valid() && operators.Valid() && conditional.Valid()
    ensures numbers.current == 0 && variables.current == 0 && operators.current == 0 && conditional.current == 0
    ensures numbers.elements == ExchangeSort(Only(operands.elements, NUMBER))
    ensures variables.elements == ExchangeSort(Only(operands.elements, VARIABLE))
    ensures operators.elements == ExchangeSort(Only(operands.elements, OPERATOR))
    ensures conditional.elements == Only(operands.elements, CONDITIONAL)
  {
    Rewind(operands);
    numbers, variables, operators, conditional := Partition(operands);
    SortGroup(numbers);
    SortGroup(variables);
    SortGroup(operators);
  }

  /** The body of sort_tree for an operator that is sorted: collect, arrange, thread back. */
  method SortChain(m: Node) returns (r: Node)
    requires m.Operator?
    ensures r == Rearranged(m)
  {
    var operands := GetOperands(m, m.op);
    var sorted := ArrangeList(operands);
    Rewind(sorted);
    r := Sort(m, sorted, m.op);
    assert sorted.elements[0..sorted.current] == sorted.elements;
    var released := DeleteWithoutNodes(operands);
    released := DeleteWithoutNodes(sorted);
  }

  /** sort_tree on a tree of values: the sorted tree is returned instead of written over the nodes. */
  method SortTree(root: Node, rev: Revision) returns (r: Node)
    ensures r == SortedTree(root, rev)
    decreases root
  {
    match root {
      case Conditional(c, t, f) =>
        var condition := SortTree(c, rev);
        var whenTrue := SortTree(t, rev);
        var whenFalse := SortTree(f, rev);
        return Conditional(condition, whenTrue, whenFalse);
      case Operator(o, a, b) =>
        var left := SortTree(a, rev);
        var right := SortTree(b, rev);
        var m := Operator(o, left, right);
        if Unsorted(o, rev) {
          return m;
        }
        r := SortChain(m);
      case _ =>
        return root;
    }
  }
}
