# Call comparison in RefactoringMiner, modelled in Dafny

RefactoringMiner matches code elements between a "before" and an "after"
version of a Java program. `AbstractCall` is its call-comparison layer. It
reduces a call site to three things:

- an optional receiver expression;
- the argument texts, in order;
- a coverage tag, which records the role the call plays in its statement.

The concrete call kinds (method invocations, object creations) add the
name that is called. They compare that name through `identicalName` and
`normalizedNameDistance`, so the model's `Call` carries it as `name`.

It then decides how a before call relates to an after call. The answers
are: identical, renamed, only the arguments changed, and so on. Some
checks also use context:

- two sets of known identifiers;
- the textual replacements found between the two versions;
- a map from parameter names to the argument texts bound to them.

The model has five modules:

- `Wrappers` holds `Option`. It stands for a Java reference that may be
  null: an absent receiver expression, or `Map.get` on a missing key.
- `Calls` holds the data model: `Call`, `StatementCoverageType`,
  `Replacement` and `ReplacementType`. It also holds the pure predicates
  (`identicalExpression`, `equalArguments` and the five composite
  classifications), and one specification predicate for each comparison
  that the Java code does with a loop.
- `CallComparisons` holds the Java loops as methods, with the early
  `return false`, the inner `break` and the running counter. Each method is
  proved to decide exactly its specification predicate.
- `ArgumentSets` holds `argumentIntersection`. It builds a linked set from
  the receiver's arguments and shrinks it with `retainAll`. The set is
  fresh and unaliased, so the shrinking is modelled on a sequence value.
- `CallProperties` holds lemmas that relate the predicates to one another.

Each Java instance method is modelled with two parameters. The receiver
(`this`) is `a` and the parameter `call` is `b`. A Java `Set<Replacement>`
becomes a `seq<Replacement>`, so the order in which replacements are
applied is fixed and explicit. Calls are immutable values, because no
method of the class changes a field.

Some operations are supplied from outside this class. Each one becomes a
function-typed parameter:

- `identicalName(call)` becomes `identicalName: (Call, Call) -> bool`. The
  concrete call kinds supply it.
- The test `normalizedNameDistance(call) <= distance` becomes
  `withinDistance: (Call, Call) -> bool`.
- `ReplacementUtil.performReplacement(text, before, after)` becomes
  `perform: (string, string, string) -> string`. It is not assumed to be
  plain substring replacement.

Nothing is proved about these parameters beyond what is stated.
`NameEqualityLaws` states what is expected of `identicalName`: it is
reflexive and symmetric. `SameName` compares the two calls' names. It
obeys these laws, and with it the rename verdicts are reported for calls
that differ only in their names.

## Model

| member | source | states |
|---|---|---|
| `Calls.IdenticalExpression` | src/gr/uom/java/xmi/decomposition/AbstractCall.java:44-48 | true exactly when the two optional expressions are equal: both present with equal text, or both absent |
| `Calls.AfterTypeReplacements` | src/gr/uom/java/xmi/decomposition/AbstractCall.java:54-59 | the expression after the replacement pass; if no replacement has type TYPE, the expression comes back unchanged |
| `CallComparisons.IdenticalExpressionAfterTypeReplacements` | src/gr/uom/java/xmi/decomposition/AbstractCall.java:50-65 | the loop rewrites the receiver's expression by each TYPE replacement in order; the result is true exactly when both expressions are present and the rewritten text equals the other call's expression; always false when either expression is absent |
| `Calls.IdenticalExpressionWithReplacements` | src/gr/uom/java/xmi/decomposition/AbstractCall.java:39-42 | the plain check implies it; it never pairs a present expression with an absent one |
| `Calls.EqualArguments` | src/gr/uom/java/xmi/decomposition/AbstractCall.java:67-69 | `List.equals`: same length and equal text at every position |
| `CallComparisons.IdenticalArguments` | src/gr/uom/java/xmi/decomposition/AbstractCall.java:71-83 | false on a length mismatch; otherwise true exactly when every position i has `a1[i] == a2[i]`, or `a2[i]` in set1, or `a1[i]` in set2 |
| `CallComparisons.IdenticalOrReplacedArguments` | src/gr/uom/java/xmi/decomposition/AbstractCall.java:85-104 | false on a length mismatch; otherwise true exactly when every position is literally equal or some replacement has `before == a1[i]` and `after == a2[i]` |
| `Calls.ReplacedCountBound` | src/gr/uom/java/xmi/decomposition/AbstractCall.java:107-121 | the counter `replacedArguments` never exceeds the number of positions, and reaches it exactly when every position is replaced |
| `CallComparisons.AllArgumentsReplaced` | src/gr/uom/java/xmi/decomposition/AbstractCall.java:106-124 | the loop adds at most one per position, because of the `break`; the result is true exactly when the lengths are equal, the list is non-empty, and every position has a replacement whose `before` is `a1[i]` or `map.get(a1[i])` and whose `after` is `a2[i]` or `map.get(a2[i])`; false on a length mismatch or an empty receiver list |
| `Calls.RenamedWithIdenticalExpressionAndArguments` | src/gr/uom/java/xmi/decomposition/AbstractCall.java:126-131 | when it holds, both expressions are present, the names differ, and the argument lists also count as identical-or-replaced under the same replacements |
| `Calls.RenamedWithIdenticalArgumentsAndNoExpression` | src/gr/uom/java/xmi/decomposition/AbstractCall.java:133-138 | when it holds, the expressions are identical (both absent), the names differ, the names are within the distance threshold, and the arguments are identical for every pair of identifier sets |
| `Calls.RenamedWithIdenticalExpressionAndDifferentNumberOfArguments` | src/gr/uom/java/xmi/decomposition/AbstractCall.java:140-146 | equivalent to: both expressions present, identical under the replacements, names within the threshold, and argument counts that differ; the `!identicalArguments` conjunct is implied |
| `Calls.OnlyArgumentsChanged` | src/gr/uom/java/xmi/decomposition/AbstractCall.java:148-153 | equivalent to: identical expression under the replacements, identical name, and argument counts that differ; the `!identicalArguments` conjunct is implied |
| `Calls.Identical` | src/gr/uom/java/xmi/decomposition/AbstractCall.java:155-160 | when it holds, the names are identical, the argument counts are equal, and the two expressions are either both present or both absent |
| `ArgumentSets.DedupContents` | src/gr/uom/java/xmi/decomposition/AbstractCall.java:163 | the linked set holds exactly the elements of the list, with no duplicates |
| `ArgumentSets.RetainContents` | src/gr/uom/java/xmi/decomposition/AbstractCall.java:164 | `retainAll` leaves exactly the elements that occur in the kept list, and keeps them duplicate-free |
| `ArgumentSets.NewLinkedSet` | src/gr/uom/java/xmi/decomposition/AbstractCall.java:163 | the insertion loop of `new LinkedHashSet(list)` produces the deduplicated list |
| `ArgumentSets.RetainAll` | src/gr/uom/java/xmi/decomposition/AbstractCall.java:164 | removing each element not in the kept list leaves exactly the retained sub-list, in order |
| `ArgumentSets.DedupOrdered` | src/gr/uom/java/xmi/decomposition/AbstractCall.java:163 | the linked set follows the order of first occurrences in the list |
| `ArgumentSets.RetainOrdered` | src/gr/uom/java/xmi/decomposition/AbstractCall.java:164 | `retainAll` keeps the order of the elements that remain |
| `ArgumentSets.ArgumentIntersection` | src/gr/uom/java/xmi/decomposition/AbstractCall.java:162-166 | the result holds exactly the texts that occur in both argument lists, each once, in the order of their first occurrences in the receiver's list |
| `ArgumentSets.IntersectionSymmetricAsSet` | src/gr/uom/java/xmi/decomposition/AbstractCall.java:162-166 | as a set, the intersection does not depend on which call is the receiver |
| `CallProperties.IdenticalExpressionIsEquivalence` | src/gr/uom/java/xmi/decomposition/AbstractCall.java:44-48 | identicalExpression is reflexive and symmetric; present never equals absent; two absent expressions are equal |
| `CallProperties.AfterTypeReplacementsAppend` | src/gr/uom/java/xmi/decomposition/AbstractCall.java:55-59 | the replacement pass is sequential: running it over `rs1 + rs2` equals running it over `rs1` and then over `rs2` |
| `CallProperties.OnlyTypeReplacementsMatter` | src/gr/uom/java/xmi/decomposition/AbstractCall.java:55-59 | non-TYPE replacements are skipped: the result equals running the pass over the TYPE replacements alone, in their order |
| `CallProperties.TypeReplacementCheckWithoutTypeReplacements` | src/gr/uom/java/xmi/decomposition/AbstractCall.java:50-65 | with no TYPE replacement, the check after type replacements is exactly string equality of two present expressions |
| `CallProperties.IdenticalExpressionWithoutTypeReplacements` | src/gr/uom/java/xmi/decomposition/AbstractCall.java:39-42 | with no TYPE replacement, `identicalExpression(call, replacements)` equals `identicalExpression(call)` |
| `CallProperties.EqualArgumentsAreIdentical` | src/gr/uom/java/xmi/decomposition/AbstractCall.java:67-83 | equalArguments implies identicalArguments for any two sets; with two empty sets the two coincide |
| `CallProperties.LengthMismatchFailsPositionwise` | src/gr/uom/java/xmi/decomposition/AbstractCall.java:67-124 | if the argument counts differ, every position-wise comparison is false |
| `CallProperties.ReplacedArgumentsWithoutReplacements` | src/gr/uom/java/xmi/decomposition/AbstractCall.java:85-104 | with no replacements, identicalOrReplacedArguments equals equalArguments; equal lists always pass it |
| `CallProperties.NoArgumentsAreNotAllReplaced` | src/gr/uom/java/xmi/decomposition/AbstractCall.java:123 | allArgumentsReplaced is false for a receiver with no arguments |
| `CallProperties.AllReplacedWithoutMap` | src/gr/uom/java/xmi/decomposition/AbstractCall.java:106-124 | with an empty parameter map, allArgumentsReplaced holds exactly when the list is non-empty and every position is turned into the other by a replacement |
| `CallProperties.IdenticalExcludesOnlyArgumentsChanged` | src/gr/uom/java/xmi/decomposition/AbstractCall.java:148-160 | identical and onlyArgumentsChanged never both hold for the same sets and replacements |
| `CallProperties.IdenticalExcludesRenamed` | src/gr/uom/java/xmi/decomposition/AbstractCall.java:126-131 | identical and renamedWithIdenticalExpressionAndArguments never both hold |
| `CallProperties.RenamedWithAndWithoutExpressionExclusive` | src/gr/uom/java/xmi/decomposition/AbstractCall.java:126-138 | the two "renamed with identical arguments" verdicts, with and without a receiver expression, exclude each other |
| `CallProperties.IdenticalIsReflexive` | src/gr/uom/java/xmi/decomposition/AbstractCall.java:155-160 | if identicalName is reflexive, every call is identical to itself, and never "only arguments changed" against itself |
| `CallProperties.RenamesAreReported` | src/gr/uom/java/xmi/decomposition/AbstractCall.java:126-138 | name comparison obeys the laws of identicalName, and with it `getSize()` to `getLength()` without a receiver, and `obj.foo(x)` to `obj.bar(x)`, are both reported as renames and not as identical |

## Left out

- The `locationInfo` field, `getLocationInfo` and the `LocationInfoProvider` interface are left out. They carry source positions that this class never reads.
- The `typeArguments` field is left out. Nothing in the class reads it.
- The getters `getExpression`, `getArguments` and `getCoverage` are left out. They are plain field access, so the model reads the fields directly.
- The concrete call kinds that implement `identicalName` and `normalizedNameDistance` are not part of this model. Both operations are parameters.
- The double-valued distance and its threshold are left out. Only the Boolean outcome of `normalizedNameDistance(call) <= distance` is modelled, so NaN and rounding are not represented.
- `ReplacementUtil.performReplacement` is not part of this model. It is an uninterpreted parameter, so no accidental match between one replacement's `after` and another's `before` is ruled out or exhibited.
- The `Replacement` class is not part of this model. It is a plain record, and its categories other than TYPE are kept apart only by name.
- `RetainAll` does not model the update in place of the `LinkedHashSet`. It works on a sequence value, which is sound here because the set is created inside `argumentIntersection` and nothing else refers to it.
- Hash-set iteration order is not modelled. The replacement collection is a sequence whose order the caller fixes.
- The model does not cover null arguments, null replacement texts, a null map, or a map that holds null values. In Java, `equalArguments` treats two nulls at the same position as equal. `identicalArguments` and `identicalOrReplacedArguments` throw when the receiver's argument at a position is null. A null map makes `allArgumentsReplaced` throw as soon as it is consulted.
- The model has no 32-bit bound on the `replacedArguments` counter. It is proved never to exceed the list size, so it cannot overflow.
- Building calls from the Java AST happens elsewhere in RefactoringMiner and is not part of this model.
