// The character cursor of tokenizer.c. A cursor is a copy of the input string, an
// offset into it (the offset |text| is the terminating '\0') and the 1-based token
// position used in error messages.
module Tokenizer {
  import opened Wrappers

  /** The C string a char * denotes: everything before the first '\0'. */
  function CString(s: string): (r: string)
    ensures '\0' !in r
    ensures r <= s
    ensures |r| < |s| ==> s[|r|] == '\0'
  {
    if s == [] || s[0] == '\0' then [] else [s[0]] + CString(s[1..])
  }

  datatype Cursor = Cursor(text: string, at: nat, position: int)
  {
    ghost predicate Valid()
    {
      at <= |text| && '\0' !in text
    }

    /** CURRENT_TOKEN: the character under the cursor, '\0' at the end. */
    function Current(): char
    {
      if at < |text| then text[at] else '\0'
    }

    predicate AtEnd()
    {
      at >= |text|
    }
  }

  /** The cursor create_tokenizer makes: at the first character, position 1. */
  function Start(s: string): (c: Cursor)
    ensures c.Valid() && c.at == 0 && c.position == 1 && c.text == CString(s)
  {
    Cursor(CString(s), 0, 1)
  }

  /** The first offset at or after i that does not hold a space. */
  function SkipSpaces(text: string, i: nat): (j: nat)
    requires i <= |text|
    ensures i <= j <= |text|
    ensures forall k :: i <= k < j ==> text[k] == ' '
    ensures j < |text| ==> text[j] != ' '
    decreases |text| - i
  {
    if i < |text| && text[i] == ' ' then SkipSpaces(text, i + 1) else i
  }

  /**
   * next_token: step over the current character; unless that reaches the end, also
   * step over the spaces that follow and count one more token.
   */
  function Advance(c: Cursor): (r: Cursor)
    requires c.Valid() && !c.AtEnd()
    ensures r.Valid() && r.text == c.text && c.at < r.at
    ensures forall k :: c.at < k < r.at ==> c.text[k] == ' '
    ensures r.Current() != ' '
    ensures r.position == if r.AtEnd() && r.at == c.at + 1 then c.position else c.position + 1
  {
    if c.at + 1 == |c.text| then c.(at := c.at + 1)
    else c.(at := SkipSpaces(c.text, c.at + 1), position := c.position + 1)
  }

  /** The number of non-space characters in s. */
  function Tokens(s: string): (n: nat)
    ensures n <= |s|
  {
    if s == [] then 0 else Tokens(s[..|s| - 1]) + (if s[|s| - 1] == ' ' then 0 else 1)
  }

  lemma {:induction false} TokensOfSpaces(s: string, i: nat, j: nat)
    requires i <= j <= |s|
    requires forall k :: i <= k < j ==> s[k] == ' '
    ensures Tokens(s[..j]) == Tokens(s[..i])
    decreases j - i
  {
    if i < j {
      TokensOfSpaces(s, i, j - 1);
      assert s[..j][..j - 1] == s[..j - 1];
    }
  }

  /**
   * Stepping over a token keeps `position` equal to 1 + the number of tokens before
   * the cursor, as long as the cursor does not reach the end.
   */
  lemma PositionCountsTokens(c: Cursor)
    requires c.Valid() && !c.AtEnd() && c.Current() != ' '
    requires c.position == 1 + Tokens(c.text[..c.at])
    ensures var r := Advance(c); !r.AtEnd() ==> r.position == 1 + Tokens(r.text[..r.at])
  {
    var r := Advance(c);
    if !r.AtEnd() {
      assert c.text[..c.at + 1][..c.at] == c.text[..c.at];
      TokensOfSpaces(c.text, c.at + 1, r.at);
    }
  }

  class Tokenizer {
    var text: string
    var cursor: nat
    var position: int

    ghost predicate Valid()
      reads this
    {
      State().Valid()
    }

    function State(): Cursor
      reads this
    {
      Cursor(text, cursor, position)
    }

    constructor (s: string)
      ensures Valid() && State() == Start(s)
    {
      text := CString(s);
      cursor := 0;
      position := 1;
    }

    /** next_token */
    method Next()
      requires Valid() && !State().AtEnd()
      modifies this
      ensures Valid() && State() == Advance(old(State()))
    {
      cursor := cursor + 1;
      if cursor == |text| {
        return;
      }
      while cursor < |text| && text[cursor] == ' '
        invariant text == old(text) && position == old(position)
        invariant old(cursor) < cursor <= |text|
        invariant SkipSpaces(text, old(cursor) + 1) == SkipSpaces(text, cursor)
        decreases |text| - cursor
      {
        cursor := cursor + 1;
      }
      position := position + 1;
    }
  }

  /** create_tokenizer: NULL for a NULL string, otherwise a cursor on a private copy. */
  method CreateTokenizer(s: Option<string>) returns (t: Tokenizer?)
    ensures t == null <==> s.None?
    ensures t != null ==> fresh(t) && t.Valid() && t.State() == Start(s.value)
  {
    if s.None? {
      return null;
    }
    t := new Tokenizer(s.value);
  }
}
