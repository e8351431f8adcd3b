// The character cursor of the older parser (string.c), kept beside tokenizer.c.
// It differs from next_token in one respect: its end test compares the address,
// not the character, with '\0', so it never fires and the counter `i` also grows
// when the cursor steps onto the terminator.
module Strings {
  import opened Wrappers
  import opened Tokenizer

  /** next_char: step over the current character and the spaces after it; count one more. */
  function NextChar(c: Cursor): (r: Cursor)
    requires c.Valid() && !c.AtEnd()
    ensures r.Valid() && r.text == c.text && c.at < r.at && r.position == c.position + 1
    ensures forall k :: c.at < k < r.at ==> c.text[k] == ' '
    ensures r.Current() != ' '
  {
    c.(at := SkipSpaces(c.text, c.at + 1), position := c.position + 1)
  }

  /**
   * next_char and next_token land on the same character; the counters differ only
   * when next_token stops on the terminator right after the last character.
   */
  lemma NextCharAgreesWithAdvance(c: Cursor)
    requires c.Valid() && !c.AtEnd()
    ensures NextChar(c).at == Advance(c).at
    ensures NextChar(c).position == Advance(c).position + (if c.at + 1 == |c.text| then 1 else 0)
    ensures !NextChar(c).AtEnd() ==> NextChar(c) == Advance(c)
  {
  }

  class String {
    var str: string
    var current: nat
    var i: int

    ghost predicate Valid()
      reads this
    {
      State().Valid()
    }

    function State(): Cursor
      reads this
    {
      Cursor(str, current, i)
    }

    /** new_string for a non-NULL argument: a private copy, cursor at its start, i = 1. */
    constructor (s: string)
      ensures Valid() && State() == Start(s)
    {
      str := CString(s);
      current := 0;
      i := 1;
    }

    /** next_char */
    method Next()
      requires Valid() && !State().AtEnd()
      modifies this
      ensures Valid() && State() == NextChar(old(State()))
    {
      current := current + 1;
      while current < |str| && str[current] == ' '
        invariant str == old(str) && i == old(i)
        invariant old(current) < current <= |str|
        invariant SkipSpaces(str, old(current) + 1) == SkipSpaces(str, current)
        decreases |str| - current
      {
        current := current + 1;
      }
      i := i + 1;
    }

    /** rewind_string: back to the first character and to position 1. */
    method Rewind()
      requires Valid()
      modifies this
      ensures Valid() && State() == Start(old(str)) && str == old(str)
    {
      current := 0;
      i := 1;
    }
  }

  /** new_string: NULL for a NULL argument. */
  method NewString(s: Option<string>) returns (t: String?)
    ensures t == null <==> s.None?
    ensures t != null ==> fresh(t) && t.Valid() && t.State() == Start(s.value)
  {
    if s.None? {
      return null;
    }
    t := new String(s.value);
  }
}
