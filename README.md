# fp — a formula evaluator, modelled in Dafny

fp reads a formula such as `2a^2 + 3E-1 * (x ? 1 : 0)` and turns it into a number. Several stages do this:

- **The tokenizer** (`tokenizer.c`) walks a private copy of the input. It skips spaces and counts token positions.
- **The parser** (`grammar.c`) is recursive descent with ten productions, T, S, P, O, K, Num, N, Z, Var and B. It builds an expression tree:
  - a unary minus becomes a product with -1;
  - a letter right after an operand multiplies it;
  - a letter followed by digits is a power;
  - `E` builds a scientific literal.
- **The tree library** (`node.c`) has several parts:
  - the operator codes and their characters;
  - leaf and tree comparison, where trees are compared through a serialisation;
  - the parent search;
  - the canonicaliser `sort_tree`. It flattens every chain of one commutative operator into an operand list (`list.c`), sorts the list by kind and key, and threads it back into the same chain.
- **The simplifier** `reduce` (`formula.c`) rewrites the tree bottom-up with a first-match rule table per operator, including a like-term pass for sums.
- **The evaluator** `calculate_parse_tree` computes the final number. Variables are found with `find_variables` and `has_variables`, and substituted with `replace`.

The older single-file program `formelparser.c` (with its cursor `string.c`) copies most of this. The model covers these differences: the clean-up of T when `:` is missing, the rewind in create_parse_tree, count_numerics, the E_SYMBOL fold that releases nothing, and the way find_variables appends a name. The other functions of formelparser.c are modelled through their formula.c and node.c counterparts; differences there are not modelled.

The model has these modules:

| module | file | what it holds |
|---|---|---|
| `Tokenizer` | tokenizer.dfy | The cursor as a value (`Cursor`, `Advance`) and the `Tokenizer` class whose `Next` method is proved to move the cursor the way `Advance` does. |
| `Strings` | strings.dfy | The older cursor `String` with its own step `NextChar`. |
| `Lists` | lists.dfy | The operand list as a class whose `elements` sequence is the chain of elements and whose `current` index is the cursor. |
| `Nodes` | nodes.dfy | The tree datatype, the operator codes, `cmp_nodes`, the serialisation and `cmp_trees`, and `get_parent`. |
| `GrammarSpec` | grammar_spec.dfy | The ten productions as functions over a cursor. They count the nodes allocated and released. A `Dialect` selects the current or the older parser. |
| `Grammar` | grammar.dfy | The productions as methods over the shared `Tokenizer` object. Each method is proved to agree with its `GrammarSpec` function. |
| `Canonical` | canonical.dfy | `add_subtrees`, `get_operands`, the three exchange sorts, `sort` and `sort_tree`. Each is a method over `List` objects, proved against functions (`Operands`, `ExchangeSort`, `Arrange`, `Refill`, `SortedTree`) whose properties are lemmas. |
| `Formula` | formula.dfy | The evaluator, variable discovery and substitution. |
| `Reduce` | reduce.dfy | The rule tables, the like-term passes, soundness lemmas, and the lemmas behind the findings below. |
| `FormelParser` | legacy.dfy | What `formelparser.c` does differently. |

## Model

| member | source | states |
|---|---|---|
| Tokenizer.CString | tokenizer.c:61 | The private copy is the text up to the first terminator: a prefix of the argument with no `'\0'` inside. |
| Tokenizer.Start | tokenizer.c:68-69 | A fresh cursor stands at index 0 of the copy with position 1, so leading spaces are not skipped. |
| Tokenizer.SkipSpaces | tokenizer.c:39-40 | The first offset at or after i that is not a space; every offset passed holds a space. |
| Tokenizer.Advance | tokenizer.c:29-43 | next_token moves the cursor strictly forward and passes only spaces. The cursor never rests on a space. Position stays the same when one step lands on the terminator, and otherwise grows by exactly 1, however many spaces were skipped. |
| Tokenizer.PositionCountsTokens | tokenizer.c:39-42 | Away from the end, position stays 1 + the number of non-space characters before the cursor. |
| Tokenizer.Tokenizer.constructor | tokenizer.c:61-69 | The new object is in the Start state of its argument. |
| Tokenizer.Tokenizer.Next | tokenizer.c:29-43 | The space-skipping loop leaves the object in exactly the state Advance gives. |
| Tokenizer.CreateTokenizer | tokenizer.c:47-72 | NULL exactly for a NULL string; otherwise a fresh tokenizer in the Start state. |
| Strings.NextChar | string.c:3-17 | next_char passes only spaces, never rests on a space, and always adds 1 to i, also when it steps onto the terminator. |
| Strings.NextCharAgreesWithAdvance | string.c:8-16 | next_char and next_token reach the same character. Their counters differ by one exactly when the step lands on the terminator right after the last character. |
| Strings.String.constructor | string.c:31-38 | A private copy, the cursor at its start, i = 1. |
| Strings.String.Next | string.c:3-17 | The loop leaves the object in the state NextChar gives. |
| Strings.String.Rewind | string.c:43-47 | Back to the first character and i = 1, with the text unchanged. |
| Strings.NewString | string.c:19-41 | NULL exactly for a NULL argument; otherwise a fresh String in the Start state. |
| Lists.List.constructor | list.c:3-18 | An empty list: no elements, count 0, current NULL. |
| Lists.List.AddNode | list.c:35-59 | The node is appended at the tail and becomes last. Count grows by 1 and current is reset to first. |
| Lists.Rewind | list.c:124-130 | current becomes first; nothing happens on a NULL list; the elements stay. |
| Lists.NextElement | list.c:132-138 | current moves one element on; nothing happens on a NULL list or a NULL current. |
| Lists.DeleteWithoutNodes | list.c:61-77 | Releases count elements and no node; 0 on a NULL list. |
| Lists.Delete | list.c:79-96 | Releases every element's node, in list order, one per element. |
| Nodes.Code | node.h:15-20 | The operator codes lie in ADD..E_SYMBOL, and the character at code - ADD in `+-*/^E` is the operator's own. |
| Nodes.Otoa | node.c:138-162 | The character of each code ADD..E_SYMBOL, and '#' for any other code. |
| Nodes.Atoo | node.c:164-188 | The code of each of `+ - * / ^ E`, and ERROR for any other character. |
| Nodes.OpOfChar | node.c:43-53 | new_operator_node stores the code atoo gives the character. |
| Nodes.OperatorCodesRoundTrip | node.c:138-188 | otoa and atoo are inverse on the six operators. |
| Nodes.Size | node.c:102-126 | delete_tree releases at least one node, and exactly one for a leaf. |
| Nodes.SameLeaf | node.c:525-544 | cmp_nodes holds exactly for two equal numbers or two equal variables, never for an operator or a conditional. |
| Nodes.FormulaKeepsLeaves | node.c:372-523 | The numbers and letters of get_formula's output are the tree's leaves in order. |
| Nodes.SameTreeSameLeaves | node.c:591-605 | Trees that cmp_trees calls equal have the same leaves in the same order. |
| Nodes.SameLeafIsSameTree | node.c:591-605 | Leaves that cmp_nodes calls equal are equal for cmp_trees as well. |
| Nodes.SerialisationIgnoresGrouping | node.c:425-473 | A child is parenthesised only when its operator differs from its parent's, so a-(b-c) and (a-b)-c serialise alike although they differ. |
| Nodes.GetParent | node.c:546-589 | A parent exists exactly when the target is a node below the root. The parent is then the target's address minus its last step. |
| GrammarSpec.Step | tokenizer.h:25 | SKIP_TOKEN moves forward in the same text, with next_token or next_char depending on the dialect. |
| GrammarSpec.T | grammar.c:95-141 | T consumes input when it succeeds, builds a well-formed tree, and never releases more nodes than it allocated. In grammar.c every allocated node is released or returned. |
| GrammarSpec.TLoop | grammar.c:108-140 | Conditionals nest on the condition: the result is the condition so far with conditionals stacked on its condition spine (TLoopFolds gives the exact tree). No node is released twice, and in grammar.c every node is returned or released, including the condition handed in. |
| GrammarSpec.S | grammar.c:147-176 | As T, for sums. |
| GrammarSpec.SLoop | grammar.c:158-173 | `+` and `-` build a left-leaning chain: the result is the tree so far with ADD and MINUS nodes stacked on its left spine (SLoopFolds gives the exact tree). In grammar.c every node, including the tree handed in, is returned or released. |
| GrammarSpec.P | grammar.c:182-221 | As T, for products. |
| GrammarSpec.Juxtaposed | grammar.c:191-202 | Each letter after the first operand multiplies the tree so far, leaning left (JuxtaposedFolds gives the exact tree). |
| GrammarSpec.PLoop | grammar.c:204-218 | `*` and `/` build a left-leaning chain of MULTIPLY and DIVIDE nodes (PLoopFolds gives the exact tree); in grammar.c every node is returned or released. |
| GrammarSpec.O | grammar.c:227-253 | As T, for powers. |
| GrammarSpec.OLoop | grammar.c:236-250 | `^` builds a chain of POWER nodes down its left spine (OLoopFolds gives the exact tree). |
| GrammarSpec.K | grammar.c:263-318 | K succeeds only on `-`, `(`, a digit or a letter, and then consumes input. In grammar.c every node is returned or released, also when `)` is missing. |
| GrammarSpec.Num | grammar.c:324-367 | Num succeeds only on a digit and releases what it does not return. |
| GrammarSpec.ExponentPart | grammar.c:333-364 | The part after `E` moves forward in the same text, and in both parsers every node, the mantissa included, is returned or released, also when the exponent is missing. |
| GrammarSpec.Negated | grammar.c:348-349 | The exponent of `E-` is the three-node product -1 * Z. |
| GrammarSpec.N | grammar.c:373-403 | N succeeds exactly on a digit. It yields a number and stops on a non-digit. |
| GrammarSpec.Fraction | grammar.c:391-397 | The fraction loop stops on a non-digit in the same text. |
| GrammarSpec.Z | grammar.c:409-433 | Z fails exactly when the current character is not a digit, and then does not move. Otherwise it consumes the whole digit run. |
| GrammarSpec.DigitRun | grammar.c:419-425 | The digit loop stops on the first non-digit. |
| GrammarSpec.Var | grammar.c:439-462 | Var succeeds exactly on a lower-case letter and then consumes input; every node is returned or released. |
| GrammarSpec.B | grammar.c:468-481 | B succeeds exactly on a lower-case letter, and yields that variable one step further. |
| GrammarSpec.Parse | grammar.c:43-75 | parse yields T's tree exactly when T succeeds and the cursor finishes on the terminator; the tree is well formed. It reports "unexpected end of string" exactly when T fails on the terminator, "syntax error" exactly when T fails elsewhere, and "expecting end" exactly when T succeeds before the end; both of the latter carry the position and character where T stopped, never the terminator. Every node allocated is either returned or released. |
| GrammarSpec.DigitRunHorner | grammar.c:419-425 | The loop of Z computes Horner's rule over the digits it passes. |
| GrammarSpec.HornerIsDecimal | grammar.c:422 | Horner's rule gives the positional decimal value. |
| GrammarSpec.ZValue | grammar.c:409-433 | Z yields the decimal value of the maximal digit run. |
| GrammarSpec.FractionOfDigits | grammar.c:391-397 | The fraction loop adds the digits it passes, each divided by its power of ten. |
| GrammarSpec.FractionIsDigitSum | grammar.c:394 | The fraction loop adds exactly the positional value of the fractional digits. |
| GrammarSpec.NValue | grammar.c:373-403 | N reads `digits [. or , digits]` as the decimal value of the integer digits plus digit_i / 10^i for the i-th digit after the separator (none may follow it). |
| GrammarSpec.LoneDigit | grammar.c:147-433 | A digit followed by a character that continues no production is a whole sum: one node, one step. |
| GrammarSpec.FoldLeftLast | grammar.c:158-173 | A left fold puts the last operator read at the root, over the fold of the terms before it. |
| GrammarSpec.FoldCondLast | grammar.c:108-140 | Stacking conditionals puts the last one read at the root, with the earlier ones in its condition. |
| GrammarSpec.SumTerms | grammar.c:158-173 | The terms the loop of S reads are ADD or MINUS, each with the well-formed P parsed after its operator. |
| GrammarSpec.SLoopFolds | grammar.c:158-173 | The loop of S succeeds exactly when every P after a `+` or `-` parses. It stops where the reading stops, and its tree is the left fold of the terms onto the first operand. |
| GrammarSpec.LetterTerms | grammar.c:191-202 | The first loop of P reads letters as MULTIPLY terms, each a well-formed Var, and stops at the first non-letter; it never fails. |
| GrammarSpec.JuxtaposedFolds | grammar.c:191-202 | The first loop of P left-folds the letters it reads onto the operand, then the second loop goes on from that product. |
| GrammarSpec.ProductTerms | grammar.c:204-218 | The terms the second loop of P reads are MULTIPLY or DIVIDE, each with the well-formed O parsed after its operator. |
| GrammarSpec.PLoopFolds | grammar.c:204-218 | The second loop of P succeeds exactly when every O after a `*` or `/` parses, and its tree is the left fold of the terms. |
| GrammarSpec.PowerTerms | grammar.c:236-250 | The terms the loop of O reads are POWER, each with the well-formed K parsed after `^`. |
| GrammarSpec.OLoopFolds | grammar.c:236-250 | The loop of O succeeds exactly when every K after a `^` parses, and its tree is the left fold of the terms. |
| GrammarSpec.TLoopFolds | grammar.c:108-140 | The loop of T succeeds exactly when every `? S : S` it meets is complete. Its tree stacks the conditionals read onto the condition, the first innermost. |
| GrammarSpec.SubtractionNestsLeft | grammar.c:147-176 | parse("a-b-c") is (a-b)-c. |
| GrammarSpec.DivisionNestsLeft | grammar.c:182-221 | parse("a/b/c") is (a/b)/c. |
| GrammarSpec.PowerNestsLeft | grammar.c:227-253 | parse("2^3^2") is (2^3)^2. |
| GrammarSpec.ConditionalNestsLeft | grammar.c:95-141 | parse("x?a:b?c:d") is (x?a:b)?c:d. |
| GrammarSpec.LegacyTLeaksTrueBranch | formelparser.c:117-121 | The older T, on "1?2", fails having released one node fewer than it allocated. |
| GrammarSpec.LegacyMissingColon | formelparser.c:117-121 | When `:` is missing after a parsed true branch, the older T releases only the condition. |
| GrammarSpec.CurrentTReleasesAll | grammar.c:113-135 | grammar.c's T releases every node it does not return, on every input. |
| Grammar.CurrentToken | tokenizer.h:24 | CURRENT_TOKEN is the character under the cursor, '\0' at the end. |
| Grammar.T | grammar.c:95-141 | The method returns the tree of GrammarSpec.T and leaves the tokenizer where it stops. |
| Grammar.S | grammar.c:147-176 | As T, for GrammarSpec.S. |
| Grammar.P | grammar.c:182-221 | As T, for GrammarSpec.P; both loops. |
| Grammar.PLoopStep | grammar.c:204-218 | One `*` or `/` more: the loop fails where O fails, and otherwise goes on from the product. |
| Grammar.JuxtaposedStep | grammar.c:191-202 | One letter more: Var cannot fail there, and the loop goes on from the product. |
| Grammar.O | grammar.c:227-253 | As T, for GrammarSpec.O. |
| Grammar.K | grammar.c:263-318 | As T, for GrammarSpec.K. |
| Grammar.Num | grammar.c:324-367 | As T, for GrammarSpec.Num. |
| Grammar.N | grammar.c:373-403 | As T, for GrammarSpec.N, with the fraction accumulated in a loop. |
| Grammar.FractionStep | grammar.c:391-397 | One fractional digit more in the loop of N. |
| Grammar.Z | grammar.c:409-433 | As T, for GrammarSpec.Z, with the number accumulated in a loop. |
| Grammar.DigitStep | grammar.c:419-425 | One digit more in the loop of Z. |
| Grammar.Var | grammar.c:439-462 | As T, for GrammarSpec.Var. |
| Grammar.B | grammar.c:468-481 | As T, for GrammarSpec.B. |
| Grammar.Parse | grammar.c:43-75 | The outcome is the one GrammarSpec.Parse describes. |
| Canonical.Operands | node.c:923-951 | The operands of a chain number its chain nodes + 1 (none when the root is not in the chain), and none of them continues the chain. |
| Canonical.Refill | node.c:688-741 | Refilling a chain's operand positions keeps it a chain of the same operator. |
| Canonical.RefillShape | node.c:688-741 | sort keeps the shape of the chain. |
| Canonical.RefillOperands | node.c:688-741 | sort fills the operand positions in the same order add_subtrees lists them, so the new chain's operands are exactly the list. |
| Canonical.RefillOwnOperands | node.c:923-951 | Refilling a chain with its own operand list gives the chain back. |
| Canonical.ChainSize | node.c:923-951 | A chain consists of its chain nodes and its operands: no node is lost. |
| Canonical.ChainShapeCounts | node.c:688-741 | Chains of the same shape have the same number of chain nodes. |
| Canonical.SizeSumPermutation | node.c:688-741 | The total size of the operands does not depend on their order. |
| Canonical.Swap | node.c:618-622 | An exchange swaps the two positions. |
| Canonical.SwapPermutes | node.c:618-622 | An exchange keeps the multiset. |
| Canonical.Pass | node.c:615-625 | The inner loop keeps the length. |
| Canonical.Passes | node.c:614-628 | The outer loop keeps the length. |
| Canonical.ExchangeSort | node.c:607-681 | sort_numbers, sort_variables and sort_operators keep the length of the list. |
| Canonical.PassKeepsPrefix | node.c:615-625 | One pass leaves the positions before the current element alone. |
| Canonical.PassPermutes | node.c:615-625 | One pass only exchanges elements. |
| Canonical.PassFindsLeast | node.c:615-625 | After one pass the current element holds a least key of the rest. |
| Canonical.PassExtends | node.c:614-628 | Each pass extends the sorted prefix, which lies below everything after it. |
| Canonical.PassesSort | node.c:614-628 | From a sorted prefix below the rest, the outer loop sorts and permutes. |
| Canonical.ExchangeSortSorts | node.c:607-681 | The three sorts order their list by value, name or code respectively, and keep its elements (a permutation). |
| Canonical.Only | node.c:780-795 | The list of one kind holds only nodes of that kind. |
| Canonical.OnlyAppend | node.c:780-795 | Partitioning distributes over concatenation. |
| Canonical.OnlySplit | node.c:780-795 | Every operand goes to exactly one of the four lists. |
| Canonical.Arrange | node.c:797-820 | The sorted list is a permutation of the operands. |
| Canonical.ArrangeGroups | node.c:797-820 | Its numbers, variables and operators are their groups exchange-sorted, and its conditionals are in encountered order. |
| Canonical.ArrangeGrouped | node.c:797-820 | Numbers come before variables, then operators, then conditionals, and within a kind the keys ascend. |
| Canonical.Rearranged | node.c:766-830 | After sort_tree's body, the chain has the same operator, shape and size, and its operands are the arranged list. |
| Canonical.SortedTree | node.c:743-833 | sort_tree keeps the size, the kind and the operator of the root. |
| Canonical.SortedTreeKeepsShape | node.c:743-833 | sort_tree keeps the shape of every chain. |
| Canonical.SortedTreeOperands | node.c:757-830 | At a sorted operator, the operands are the arranged, permuted and grouped operands of the chain over the sorted children. |
| Canonical.AddSubtrees | node.c:923-951 | add_subtrees appends exactly the chain's operands. It resets the cursor when it appends anything. |
| Canonical.GetOperands | node.c:953-971 | get_operands is NULL exactly when the root is not an operator of that code; otherwise it is a fresh list of the operands. |
| Canonical.SortGroup | node.c:607-681 | The nested loops leave the list's elements equal to ExchangeSort of the old ones. |
| Canonical.Offer | node.c:782-792 | One test of the partition: the list keeps all operands of its kind seen so far. |
| Canonical.OfferAll | node.c:781-795 | One pass of the partition loop keeps all four lists exact. |
| Canonical.Partition | node.c:779-795 | The four fresh lists hold the operands of each kind, in list order. |
| Canonical.Drain | node.c:802-805 | A drain loop appends the rest of a group to the sorted list. |
| Canonical.DrainAll | node.c:802-820 | The sorted list becomes the four groups one after another. |
| Canonical.TakeOperand | node.c:728-729 | Takes the node under the cursor and moves on. |
| Canonical.Sort | node.c:688-741 | sort consumes exactly as many elements as the chain has operands, and its result is the chain refilled with them. |
| Canonical.SortForks | node.c:696-700 | Both children continue the chain: left sub-chain, then right. |
| Canonical.SortRightFork | node.c:702-713 | The right sub-chain, then the left operand. |
| Canonical.SortLeftFork | node.c:715-726 | The left sub-chain, then the right operand. |
| Canonical.ArrangeIs | node.c:797-820 | The arranged list is the four groups concatenated. |
| Canonical.SortedGroups | node.c:766-800 | The three sortable groups are exchange-sorted, the conditionals kept as met, and every cursor is at its start. |
| Canonical.ArrangeList | node.c:766-830 | The sorted list sort_tree builds is Arrange of the operands. |
| Canonical.SortChain | node.c:766-830 | The chain threaded back is Rearranged of the node. |
| Canonical.SortTree | node.c:743-833 | The method computes SortedTree: children first, then the chain unless it is MINUS, DIVIDE or POWER. |
| Formula.Quotient | formula.c:62-64 | A quotient by a nonzero divisor times the divisor is the dividend. |
| Formula.Calculate | formula.c:36-85 | calculate_parse_tree gives the value Eval gives when every variable stands for 0. |
| Formula.HasVariables | formula.c:137-176 | has_variables holds exactly when some variable node exists. |
| Formula.CalculateClosed | formula.c:36-85 | A tree without variables has the same value in every environment. |
| Formula.EvalAgrees | formula.c:36-85 | The value depends only on the variables that occur. |
| Formula.Collect | formula.c:113-128 | The buffer only grows. |
| Formula.CollectNames | formula.c:93-131 | find_variables lists every variable exactly once, and nothing else. |
| Formula.CollectOrder | formula.c:93-131 | The names come in the order of their first occurrence. |
| Formula.FindVariables | formula.c:93-131 | The traversal (condition, true, false; left, right) yields Collect of the tree's names. |
| Formula.Replace | formula.c:183-206 | A tree without the variable b is unchanged. A variable occurs in the result exactly when it occurs in the tree and is not b, or b occurs and the variable occurs in the value tree. |
| Formula.ReplaceEval | formula.c:183-206 | Replacing b by any value tree evaluates as giving b the value of that tree. |
| Formula.ReplaceNames | formula.c:183-206 | Replacing b by a value tree puts that tree's variables where b was and keeps every other variable, in order. |
| Formula.ReplaceByNumber | formula.c:183-206 | Replacing b by a number removes b and keeps every other variable, in order. |
| Formula.ReplaceEach | formula.c:666-687 | The for loop removes the listed variables and keeps the tree's value in the environment. |
| Formula.ReplaceVariables | formula.c:650-692 | The result has no variables, and its value is the value of the input under the environment. |
| Reduce.TotalPermutation | node.c:797-820 | The sum or product of a chain's operands does not depend on their order. |
| Reduce.ChainTotal | formula.c:49-60 | An ADD or MULTIPLY chain is worth the sum or product of its operands. |
| Reduce.ChainDefined | formula.c:49-60 | A chain has a value exactly when each of its operands does. |
| Reduce.RearrangedSound | node.c:766-830 | Rearranging an ADD or MULTIPLY chain keeps its value and definedness. |
| Reduce.SortedTreeSound | node.c:743-833 | sort_tree (with E_SYMBOL left alone) keeps the value of every tree. |
| Reduce.Combined | formula.c:326-344 | The four merge cases turn two products into one product. |
| Reduce.Bumped | formula.c:384-389 | The two absorb cases keep a product a product. |
| Reduce.MergeInto | formula.c:309-361 | The inner merge loop keeps the slots and the product at i. |
| Reduce.MergeFrom | formula.c:301-366 | The merge pass never empties every slot. |
| Reduce.AbsorbInto | formula.c:380-404 | The inner absorb loop keeps the product at i. |
| Reduce.AbsorbFrom | formula.c:371-408 | The absorb pass never empties every slot. |
| Reduce.PruneSome | formula.c:350-357 | Removing operands leaves a tree exactly when some operand is left. |
| Reduce.Collected | formula.c:276-408 | After both passes some operand of the sum remains. |
| Reduce.MergeLikeTerms | formula.c:298-366 | The nested loops of the merge pass compute MergeFrom. |
| Reduce.MergeProduct | formula.c:306-362 | The inner loop computes MergeInto. |
| Reduce.AbsorbVariables | formula.c:368-408 | The nested loops of the absorb pass compute AbsorbFrom. |
| Reduce.AbsorbProduct | formula.c:374-405 | The inner loop computes AbsorbInto. |
| Reduce.CollectLikeTerms | formula.c:276-408 | Listing, both passes and the rebuild compute LikeTerms. |
| Reduce.CombinedSum | formula.c:326-344 | With names compared, a merged product is worth the two it replaces. |
| Reduce.BumpedSum | formula.c:384-389 | A product that absorbs a variable is worth itself plus that variable. |
| Reduce.MergeFromSum | formula.c:301-366 | With names compared, the merge pass keeps the sum. |
| Reduce.AbsorbFromSum | formula.c:371-408 | The absorb pass keeps the sum. |
| Reduce.PruneSum | formula.c:350-357 | The rebuilt chain is worth the sum of the remaining operands. |
| Reduce.LikeTermsSound | formula.c:276-408 | With names compared, collecting like terms keeps the value of the sum. |
| Reduce.AddRuleSound | formula.c:239-414 | Repaired, every ADD rule (AddRule) keeps the sum. |
| Reduce.MinusRuleSound | formula.c:416-454 | Repaired, every MINUS rule (MinusRule) keeps the difference. |
| Reduce.MultiplyRuleSound | formula.c:456-501 | Every MULTIPLY rule (MultiplyRule) keeps the product, given pow(x, 2) = x * x. |
| Reduce.DivideRuleSound | formula.c:503-557 | Repaired, every DIVIDE rule (DivideRule) keeps the quotient by a nonzero divisor. |
| Reduce.PowerRuleSound | formula.c:559-605 | Every POWER rule (PowerRule) keeps pow of the operands where it is defined. |
| Reduce.ScientificRuleSound | formula.c:607-616 | The E_SYMBOL fold (ScientificRule) is mantissa * 10^exponent. |
| Reduce.MultiplyTableSound | formula.c:456-501 | With pow(x, 2) = x * x, the MULTIPLY table keeps the product, with no further condition. |
| Reduce.RuleSound | formula.c:238-617 | Repaired, every operator's table (Rule) keeps the value the operator gives. |
| Reduce.ReduceSound | formula.c:211-644 | Repaired, reduce (Reduce) keeps the value of every tree whose value is defined. This includes the collapse of conditionals. |
| Reduce.ReduceSortedOperator | formula.c:225-237 | reduce sorts the tree, reduces the children of the sorted tree, and applies the rule table of its operator to them. |
| Reduce.ReduceLeaf | formula.c:227-228 | reduce leaves a number or a variable unchanged. |
| Reduce.SortedTreeUnsorted | node.c:761-764 | A tree all of whose chains are left alone is unchanged by sort_tree. |
| Reduce.MinusOfVariables | formula.c:416-454 | a-b is left as it is. |
| Reduce.ScaledVariable | formula.c:456-501 | k*x with k not 0 or 1 is left as it is. |
| Reduce.FiveE2Sorted | node.c:761-764 | As written, sort_tree swaps the mantissa and exponent of 5E2; repaired it keeps them. |
| Reduce.ScientificLiteralSwapped | node.c:761-764 | As written, reduce turns 5E2 (worth 500) into 200000; repaired it gives 500. |
| Reduce.GroupingConflated | formula.c:440-446 | As written, reduce turns a-(b-c) - ((a-b)-c), worth 2c, into 0; repaired it keeps the value. |
| Reduce.UnlikeTermsMerged | formula.c:326-344 | As written, reduce turns 2*a+3*b into 5*a; repaired it keeps the value. |
| Reduce.Detach | formula.c:352-355 | Removing an operand overwrites its parent with one of the parent's children. |
| Reduce.DetachJoins | formula.c:350-357 | Repaired, Detach keeps the sibling, as the rebuild does. |
| Reduce.DetachKeepsLeft | formula.c:397-400 | As written, removing a left operand keeps it and drops its sibling. |
| Reduce.LeftOperandKept | formula.c:380-404 | As written, after the absorb pass 2*a+a (worth 3a) is overwritten by its left child, so the sum holds a and 3*a is lost; repaired it becomes 3*a. |
| FormelParser.IsVariableIsB | formelparser.c:80-83 | isvariable holds exactly where production B succeeds. |
| FormelParser.IsOperatorChars | formelparser.c:91-94 | isoperator holds exactly for `+ - * / ^ E`. Each of these is the character of the code atoo gives it. |
| FormelParser.Numerics | formelparser.c:515-523 | The digit count is 0 exactly for n <= 0. |
| FormelParser.NumericsBounds | formelparser.c:515-523 | A positive n with k digits lies in [10^(k-1), 10^k). |
| FormelParser.CountNumerics | formelparser.c:515-523 | The loop returns the number of decimal digits. |
| FormelParser.ParseTree | formelparser.c:485-508 | The cursor is rewound and T runs. Leftover input is a positioned syntax error and the tree is released. A failure at the end is "syntax error at end of term". |
| FormelParser.CreateParseTree | formelparser.c:485-508 | The method rewinds the cursor, leaves it where T stopped, and reports ParseTree's outcome. |
| FormelParser.ParseTreeRewinds | formelparser.c:489 | The rewind neither skips spaces nor resets the counter: a leading space is a syntax error reported at the old counter. |
| FormelParser.ScientificFold | formelparser.c:1146-1151 | The fold is the E_SYMBOL rule of reduce and a folded number is the literal's calculated value. In formula.c the nodes released and the node kept add up to the literal's size. |
| FormelParser.LegacyFoldLeaks | formelparser.c:1146-1151 | The older fold loses the two number nodes of the literal. |
| FormelParser.StrLen | formelparser.c:613-615 | strlen stops at the first `'\0'`, or reaches the end of the block when it holds none. |
| FormelParser.Grown | formelparser.c:607-611 | After realloc to strlen + 2 the block keeps the names and their terminator, with one byte more. |
| FormelParser.StoreAsWritten | formelparser.c:603-616 | The name is stored over the terminator, inside the block of strlen + 2 bytes. |
| FormelParser.StoreWritesPastBlock | formelparser.c:613-615 | As written, the terminator is written at an offset outside the block whatever its last byte held, and the names are left unterminated inside the block when that byte is not `'\0'`. |
| FormelParser.StoreOverflowExample | formelparser.c:613-615 | As written, adding c to "ab" writes the terminator at offset 4 of a 4-byte block. |
| FormelParser.StoreName | formelparser.c:603-616 | Repaired, the block holds the names followed by the new name as a terminated string, and both stores stay inside it. |

## Left out

- main.c, print_usage and main: command-line handling, file reading and output formatting are not modelled.
- The output and cache helpers print_node, print_tree, print_formula, update and print_list only print or cache strings, so they are not modelled.
- ldtostr is not modelled. In the serialisation a number is one symbol carrying its value, which stands for an injective rendering.
- Floating point: values are `real`. pow and the long double quotient by zero are the parameter `Formula.Libm`. The model states what the code does with their results, not how they round.
- Memory: malloc, calloc, free and the exit on allocation failure are not modelled. A node is a datatype value, and new_node, the new_* constructors, set_childs and the memcpy overwrites become the construction of a value. delete_node and delete_tree appear as counts of released nodes (Size).
- get_formula's static buffer and depth counter are not modelled. The serialisation is an ordinary recursive function.
- replace's shallow copy is not modelled: every replaced variable simply receives the value tree, so the sharing and double release it causes in C do not exist in the model.
- replace_variables reads values from the terminal. Formula.ReplaceVariables takes them from an environment function, so the retry after an unparsable answer (formula.c:675-679) is not modelled.
- The like-term passes are modelled at the level of values. The nodes the C code frees while the lists still reference them, and the use of get_parent on freed nodes, are not modelled. Removing an operand empties its slot in an array, and the chain is rebuilt from the slots that remain.
- free_tokenizer and delete_string only free memory and are not modelled.
- Tokenizer.Tokenizer.Next, Strings.String.Next: require a cursor that is not on the terminator. Stepping past '\0' reads outside the buffer in C, and no caller does it. The NULL-cursor test (tokenizer.c:31-32, string.c:5-6) never fires, because the cursor is never NULL.
- Canonical.Sort: requires enough elements in the list; the ERROR exit (node.c:705-708, 719-722, 733-736) is not modelled, because sort_tree always passes a list of exactly the chain's operands.
- sort_tree's ERROR exit when get_operands is NULL (node.c:774-777) cannot happen at an operator node, and is not modelled.
- Canonical.SortGroup: sort_numbers and sort_variables exchange values and names between nodes, while sort_operators exchanges whole node contents. The model exchanges the list elements, which gives the same tree.
- reduce's test for NULL children (formula.c:235-236) cannot fire on a well-formed tree and is not modelled.
- Reduce.ReduceSound, Reduce.AddRuleSound, Reduce.MinusRuleSound, Reduce.DivideRuleSound, Reduce.RuleSound: are stated for the repaired revision only. The code as written is unsound, as the findings show.
- Reduce.PowerRuleSound, Reduce.MultiplyRuleSound: assume the laws of pow the rules rely on (pow(x,0)=1, pow(x,1)=x, pow(x,2)=x*x, pow(1,y)=1, pow(0,y)=0 for y>0).
- Reduce.DivideRuleSound: holds only for a nonzero divisor. x/0 gives 1.0/0.0, which has no real value.
- The older parser's productions are the functions of GrammarSpec with the dialect Legacy. The older replace_variables passes a NULL tree on after a failed parse (formelparser.c:736-742), which is not modelled.
- GrammarSpec.TLoop, GrammarSpec.SLoop, GrammarSpec.Juxtaposed, GrammarSpec.PLoop, GrammarSpec.OLoop: their own contracts state only that the operators sit on the spine of the result. The exact left-nested tree is stated by the lemmas TLoopFolds, SLoopFolds, JuxtaposedFolds, PLoopFolds and OLoopFolds.
- Formula.ReplaceVariables: the answers are numbers from an environment. An answer that is itself a formula with variables is not modelled (Formula.ReplaceEval and Formula.ReplaceNames cover replace with any tree); in C, an answer naming the variable being replaced keeps the while loop of replace_variables running for ever.
- Reduce.Reduce, Reduce.LikeTerms: with the revision AsWritten, the like-term pass still takes operands out by rebuilding the chain (Prune), which is the repaired removal. The as-written overwrite of formula.c:395-401 is modelled only on its own by Reduce.Detach. The double release of the variable node that follows it (undefined behaviour) is not modelled.
- The older find_variables is modelled only for the store of a new name (FormelParser.StoreAsWritten, FormelParser.StoreName); its traversal and duplicate test are those of Formula.FindVariables.
- FormelParser.CountNumerics: `int` is modelled as an unbounded integer; the loop has no overflow to model.

## Findings

| source | as written | input that shows it | evidently intended | confidence | as-written member | corrected member |
|---|---|---|---|---|---|---|
| node.c:761-764 | sort_tree does not exclude E_SYMBOL, so it sorts a literal's mantissa and exponent by value | `5E2` reduces to 2·10^5 = 200000 | E_SYMBOL is left unsorted like MINUS, DIVIDE and POWER, so 5E2 gives 500 | not executed | Reduce.ScientificLiteralSwapped | Reduce.SortedTreeSound |
| formula.c:440-446 | t-t=0 uses cmp_trees, whose serialisation (node.c:425-473) drops parentheses around a child with the parent's operator; the same test drives t+t=2*t (formula.c:269-274) and t/t=1 (formula.c:543-549) | `a-(b-c)-((a-b)-c)`, worth 2c, reduces to 0 | the rule fires only for equal trees | not executed | Reduce.GroupingConflated | Reduce.ReduceSound |
| formula.c:326-344 | the merge pass adds the numbers of two products without comparing their variables | `2*a+3*b` reduces to 5*a | only products of the same variable merge | not executed | Reduce.UnlikeTermsMerged | Reduce.LikeTermsSound |
| formula.c:395-401 | removing an absorbed variable overwrites its parent with the parent's left child, which is the variable itself when it is on the left; that node is then released twice and the sibling is leaked | `2*a+a`, sorted to a+2*a: the sum is overwritten by a, and the node of a is freed twice | the parent takes the sibling, giving 3*a | not executed | Reduce.LeftOperandKept | Reduce.DetachJoins |
| formelparser.c:117-121 | a missing `:` releases only the condition, not the parsed true branch | `1?2` leaks the node of 2 | release both, as grammar.c:119-124 does | not executed | GrammarSpec.LegacyTLeaksTrueBranch | GrammarSpec.CurrentTReleasesAll |
| formelparser.c:1146-1151 | the E_SYMBOL fold overwrites the node without releasing its two children | `5E2` leaks two number nodes | release both children, as formula.c:612-613 does | not executed | FormelParser.LegacyFoldLeaks | FormelParser.ScientificFold |
| formelparser.c:613-615 | the terminator is stored at strlen + 1, with strlen taken after the name has overwritten the old terminator | adding c to `ab`: the block has 4 bytes and the terminator goes to offset 4 | take the length once, store the name at it and `'\0'` after it | not executed | FormelParser.StoreWritesPastBlock | FormelParser.StoreName |
