// The singly linked operand list of list.c. The chain first -> ... -> last is the
// sequence `elements`; the cursor `current` is an index into it, and the index
// |elements| stands for the NULL cursor.
module Lists {
  import opened Wrappers
  import opened Nodes

  class List {
    var elements: seq<Node>
    var current: nat
    var count: nat

    ghost predicate Valid()
      reads this
    {
      count == |elements| && current <= |elements|
    }

    /** The node under the cursor, None when the cursor is NULL. */
    function Current(): (r: Option<Node>)
      reads this
      requires Valid()
      ensures r.Some? <==> current < |elements|
      ensures r.Some? ==> r.value in elements
    {
      if current < |elements| then Some(elements[current]) else None
    }

    function First(): (r: Option<Node>)
      reads this
      ensures r == None <==> elements == []
      ensures r.Some? ==> r.value == elements[0]
    {
      if elements == [] then None else Some(elements[0])
    }

    function Last(): (r: Option<Node>)
      reads this
      ensures r == None <==> elements == []
      ensures r.Some? ==> r.value == elements[|elements| - 1]
    {
      if elements == [] then None else Some(elements[|elements| - 1])
    }

    /** new_list: an empty list whose first, last and current are NULL. */
    constructor ()
      ensures Valid()
      ensures elements == [] && count == 0 && Current() == None
    {
      elements := [];
      current := 0;
      count := 0;
    }

    /** add_node: append at the end and move the cursor back to the first element. */
    method AddNode(n: Node)
      requires Valid()
      modifies this
      ensures Valid()
      ensures elements == old(elements) + [n] && count == old(count) + 1
      ensures current == 0 && Current() == Some(First().value)
      ensures Last() == Some(n)
    {
      elements := elements + [n];
      current := 0;
      count := count + 1;
    }
  }

  /** rewind_list: the cursor goes back to the first element; nothing happens on a NULL list. */
  method Rewind(l: List?)
    requires l != null ==> l.Valid()
    modifies l
    ensures l != null ==> l.Valid() && l.elements == old(l.elements) && l.count == old(l.count)
    ensures l != null ==> l.current == 0 && l.Current() == l.First()
  {
    if l == null {
      return;
    }
    l.current := 0;
  }

  /** next_element: the cursor moves one element on; a NULL list or a NULL cursor stays put. */
  method NextElement(l: List?)
    requires l != null ==> l.Valid()
    modifies l
    ensures l != null ==> l.Valid() && l.elements == old(l.elements) && l.count == old(l.count)
    ensures l != null ==> l.current == if old(l.current) < |l.elements| then old(l.current) + 1 else old(l.current)
  {
    if l == null || l.current == |l.elements| {
      return;
    }
    l.current := l.current + 1;
  }

  /**
   * delete_list_without_nodes: walks the chain from first and releases every element,
   * none of the nodes. Returns the number of elements released.
   */
  method DeleteWithoutNodes(l: List?) returns (released: nat)
    requires l != null ==> l.Valid()
    ensures released == if l == null then 0 else l.count
  {
    if l == null {
      return 0;
    }
    var cursor := 0;
    released := 0;
    while cursor < |l.elements|
      invariant cursor <= |l.elements| && released == cursor
    {
      cursor := cursor + 1;
      released := released + 1;
    }
  }

  /**
   * delete_list: walks the chain from first, releasing each element together with the
   * node it holds (delete_node, not delete_tree). Returns the released nodes in that order.
   */
  method Delete(l: List?) returns (released: seq<Node>)
    requires l != null ==> l.Valid()
    ensures released == if l == null then [] else l.elements
    ensures l != null ==> |released| == l.count
  {
    if l == null {
      return [];
    }
    var cursor := 0;
    released := [];
    while cursor < |l.elements|
      invariant cursor <= |l.elements| && released == l.elements[..cursor]
    {
      released := released + [l.elements[cursor]];
      cursor := cursor + 1;
    }
  }
}
