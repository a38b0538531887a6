/** The call record of the call-comparison layer (AbstractCall) and the
    predicates that relate a "before" call `a` (the receiver, `this`) to an
    "after" call `b` (the parameter `call`).

    The predicates whose Java code loops (type replacements, identical and
    replaced arguments, all-arguments-replaced) are given here as
    specification predicates; module CallComparisons holds the loops
    themselves, proved to compute exactly these predicates. The composite
    classifications are pure Boolean expressions and use the predicates. */
module Calls {
  import opened Wrappers

  /** The syntactic role a call plays in its enclosing statement. */
  datatype StatementCoverageType =
    | NoCoverage
    | OnlyCall
    | ReturnCall
    | ThrowCall
    | CastCall
    | VariableDeclarationInitializerCall

  /** A call site: the name the concrete call kinds compare in
      identicalName and normalizedNameDistance (the invoked method, or the
      instantiated type), its receiver expression (None when the call has
      no receiver), its argument texts in source order, and its coverage.
      No operation of this layer changes a call. */
  datatype Call = Call(name: string, expression: Option<string>, arguments: seq<string>, coverage: StatementCoverageType)

  /** Only the TYPE category is consulted; the other categories are kept
      apart by name. */
  datatype ReplacementType = Type | Other(name: string)

  /** A textual replacement detected between the two versions. */
  datatype Replacement = Replacement(before: string, after: string, replacementType: ReplacementType)

  /** The string rewriting performReplacement(text, before, after), which
      lives outside this layer and is left uninterpreted. */
  type Rewriter = (string, string, string) -> string

  /** A relation between two calls supplied by the concrete call kinds,
      which read the calls' names: identicalName, or the outcome of
      `normalizedNameDistance(call) <= distance`. */
  type NameRelation = (Call, Call) -> bool

  /** Map.get: a missing key yields null. */
  function Get(m: map<string, string>, key: string): Option<string>
  {
    if key in m then Some(m[key]) else None
  }

  /** The laws every implementation of identicalName is expected to obey:
      it is reflexive and symmetric. */
  ghost predicate NameEqualityLaws(identicalName: NameRelation)
  {
    (forall c :: identicalName(c, c)) &&
    (forall c, d :: identicalName(c, d) ==> identicalName(d, c))
  }

  // ---------------------------------------------------------------------
  // Receiver expressions

  /** identicalExpression(call): both expressions present and equal, or
      both absent. */
  function IdenticalExpression(a: Call, b: Call): (r: bool)
    ensures r <==> a.expression == b.expression
  {
    (a.expression.Some? && b.expression.Some? && a.expression.value == b.expression.value) ||
    (a.expression.None? && b.expression.None?)
  }

  /** The text obtained from `e` by applying, in sequence order, every
      TYPE replacement of `rs` with `perform`; other replacements are
      skipped. */
  function AfterTypeReplacements(e: string, rs: seq<Replacement>, perform: Rewriter): (r: string)
    ensures (forall k :: 0 <= k < |rs| ==> !rs[k].replacementType.Type?) ==> r == e
    decreases |rs|
  {
    if rs == [] then e
    else
      var previous := AfterTypeReplacements(e, rs[..|rs| - 1], perform);
      var last := rs[|rs| - 1];
      if last.replacementType.Type? then perform(previous, last.before, last.after) else previous
  }

  /** What identicalExpressionAfterTypeReplacements(call, replacements)
      decides: both expressions present and the receiver's expression,
      rewritten by the TYPE replacements, equal to the other's. */
  predicate ExpressionMatchesAfterTypeReplacements(a: Call, b: Call, rs: seq<Replacement>, perform: Rewriter)
  {
    a.expression.Some? && b.expression.Some? &&
    AfterTypeReplacements(a.expression.value, rs, perform) == b.expression.value
  }

  /** identicalExpression(call, replacements): the plain check, or else the
      check after TYPE replacements. */
  function IdenticalExpressionWithReplacements(a: Call, b: Call, rs: seq<Replacement>, perform: Rewriter): (r: bool)
    ensures IdenticalExpression(a, b) ==> r
    ensures r ==> (a.expression.None? <==> b.expression.None?)
  {
    IdenticalExpression(a, b) || ExpressionMatchesAfterTypeReplacements(a, b, rs, perform)
  }

  // ---------------------------------------------------------------------
  // Argument lists

  /** equalArguments(call): List.equals on the argument lists. */
  function EqualArguments(a: Call, b: Call): (r: bool)
    ensures r <==> |a.arguments| == |b.arguments| &&
                   forall i :: 0 <= i < |a.arguments| ==> a.arguments[i] == b.arguments[i]
  {
    a.arguments == b.arguments
  }

  /** One position accepted by identicalArguments: equal texts, the after
      text in set1, or the before text in set2. */
  predicate Accepted(argument1: string, argument2: string, set1: set<string>, set2: set<string>)
  {
    argument1 == argument2 || argument2 in set1 || argument1 in set2
  }

  /** What identicalArguments(call, set1, set2) decides. */
  predicate ArgumentsIdentical(a: Call, b: Call, set1: set<string>, set2: set<string>)
  {
    |a.arguments| == |b.arguments| &&
    forall i :: 0 <= i < |a.arguments| ==> Accepted(a.arguments[i], b.arguments[i], set1, set2)
  }

  /** Some replacement of `rs` turns `argument1` into `argument2`. */
  predicate Replaces(rs: seq<Replacement>, argument1: string, argument2: string)
  {
    exists k :: 0 <= k < |rs| && rs[k].before == argument1 && rs[k].after == argument2
  }

  /** What identicalOrReplacedArguments(call, replacements) decides. */
  predicate ArgumentsIdenticalOrReplaced(a: Call, b: Call, rs: seq<Replacement>)
  {
    |a.arguments| == |b.arguments| &&
    forall i :: 0 <= i < |a.arguments| ==>
      a.arguments[i] == b.arguments[i] || Replaces(rs, a.arguments[i], b.arguments[i])
  }

  /** Replacement `r` fits the pair of arguments, each side taken either
      as it stands or resolved through the parameter-to-argument map. */
  predicate Fits(r: Replacement, m: map<string, string>, argument1: string, argument2: string)
  {
    (r.before == argument1 || Some(r.before) == Get(m, argument1)) &&
    (r.after == argument2 || Some(r.after) == Get(m, argument2))
  }

  /** A position counted as replaced by allArgumentsReplaced. */
  predicate ReplacedThroughMap(rs: seq<Replacement>, m: map<string, string>, argument1: string, argument2: string)
  {
    exists k :: 0 <= k < |rs| && Fits(rs[k], m, argument1, argument2)
  }

  /** The value of the counter replacedArguments after the positions of
      `arguments1` and `arguments2` have been scanned: one per replaced
      position. */
  function ReplacedCount(arguments1: seq<string>, arguments2: seq<string>, rs: seq<Replacement>, m: map<string, string>): nat
    requires |arguments1| == |arguments2|
    decreases |arguments1|
  {
    if arguments1 == [] then 0
    else
      var last := |arguments1| - 1;
      ReplacedCount(arguments1[..last], arguments2[..last], rs, m) +
      if ReplacedThroughMap(rs, m, arguments1[last], arguments2[last]) then 1 else 0
  }

  /** The counter never exceeds the number of positions, and reaches it
      exactly when every position is replaced. */
  lemma {:induction false} ReplacedCountBound(arguments1: seq<string>, arguments2: seq<string>, rs: seq<Replacement>, m: map<string, string>)
    requires |arguments1| == |arguments2|
    ensures ReplacedCount(arguments1, arguments2, rs, m) <= |arguments1|
    ensures ReplacedCount(arguments1, arguments2, rs, m) == |arguments1| <==>
            forall i :: 0 <= i < |arguments1| ==> ReplacedThroughMap(rs, m, arguments1[i], arguments2[i])
    decreases |arguments1|
  {
    if arguments1 != [] {
      var last := |arguments1| - 1;
      ReplacedCountBound(arguments1[..last], arguments2[..last], rs, m);
      assert forall i :: 0 <= i < last ==> arguments1[..last][i] == arguments1[i] && arguments2[..last][i] == arguments2[i];
    }
  }

  /** What allArgumentsReplaced(call, replacements, parameterToArgumentMap)
      decides: equal lengths, at least one argument, every position replaced. */
  predicate ArgumentsAllReplaced(a: Call, b: Call, rs: seq<Replacement>, m: map<string, string>)
  {
    |a.arguments| == |b.arguments| && |a.arguments| > 0 &&
    forall i :: 0 <= i < |a.arguments| ==> ReplacedThroughMap(rs, m, a.arguments[i], b.arguments[i])
  }

  // ---------------------------------------------------------------------
  // Composite classifications

  /** renamedWithIdenticalExpressionAndArguments(call, replacements). */
  function RenamedWithIdenticalExpressionAndArguments(
    a: Call, b: Call, rs: seq<Replacement>, perform: Rewriter, identicalName: NameRelation): (r: bool)
    ensures r ==> a.expression.Some? && b.expression.Some? && !identicalName(a, b)
    ensures r ==> ArgumentsIdenticalOrReplaced(a, b, rs)
  {
    a.expression.Some? && b.expression.Some? &&
    IdenticalExpressionWithReplacements(a, b, rs, perform) &&
    !identicalName(a, b) &&
    EqualArguments(a, b)
  }

  /** renamedWithIdenticalArgumentsAndNoExpression(call, distance);
      `withinDistance` is the outcome of `normalizedNameDistance(call) <= distance`. */
  function RenamedWithIdenticalArgumentsAndNoExpression(
    a: Call, b: Call, identicalName: NameRelation, withinDistance: NameRelation): (r: bool)
    ensures r ==> IdenticalExpression(a, b) && !identicalName(a, b) && withinDistance(a, b)
    ensures r ==> forall set1, set2 :: ArgumentsIdentical(a, b, set1, set2)
  {
    a.expression.None? && b.expression.None? &&
    !identicalName(a, b) &&
    withinDistance(a, b) &&
    EqualArguments(a, b)
  }

  /** renamedWithIdenticalExpressionAndDifferentNumberOfArguments(call, set1, set2, replacements, distance). */
  function RenamedWithIdenticalExpressionAndDifferentNumberOfArguments(
    a: Call, b: Call, set1: set<string>, set2: set<string>, rs: seq<Replacement>, perform: Rewriter,
    withinDistance: NameRelation): (r: bool)
    ensures r <==> a.expression.Some? && b.expression.Some? &&
                   IdenticalExpressionWithReplacements(a, b, rs, perform) &&
                   withinDistance(a, b) && |a.arguments| != |b.arguments|
  {
    a.expression.Some? && b.expression.Some? &&
    IdenticalExpressionWithReplacements(a, b, rs, perform) &&
    withinDistance(a, b) &&
    !ArgumentsIdentical(a, b, set1, set2) &&
    |a.arguments| != |b.arguments|
  }

  /** onlyArgumentsChanged(call, set1, set2, replacements). */
  function OnlyArgumentsChanged(
    a: Call, b: Call, set1: set<string>, set2: set<string>, rs: seq<Replacement>, perform: Rewriter,
    identicalName: NameRelation): (r: bool)
    ensures r <==> IdenticalExpressionWithReplacements(a, b, rs, perform) &&
                   identicalName(a, b) && |a.arguments| != |b.arguments|
  {
    IdenticalExpressionWithReplacements(a, b, rs, perform) &&
    identicalName(a, b) &&
    !ArgumentsIdentical(a, b, set1, set2) &&
    |a.arguments| != |b.arguments|
  }

  /** identical(call, set1, set2, replacements). */
  function Identical(
    a: Call, b: Call, set1: set<string>, set2: set<string>, rs: seq<Replacement>, perform: Rewriter,
    identicalName: NameRelation): (r: bool)
    ensures r ==> |a.arguments| == |b.arguments| && identicalName(a, b)
    ensures r ==> (a.expression.None? <==> b.expression.None?)
  {
    IdenticalExpressionWithReplacements(a, b, rs, perform) &&
    identicalName(a, b) &&
    ArgumentsIdentical(a, b, set1, set2)
  }
}
