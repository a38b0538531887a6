/** The comparisons of AbstractCall that work by a loop: each method
    follows the Java loop (early returns, the inner `break`, the running
    counter) and is proved to decide exactly the specification predicate
    of module Calls that the composite classifications use. */
module CallComparisons {
  import opened Wrappers
  import opened Calls

  /** identicalExpressionAfterTypeReplacements(call, replacements): rewrites
      the receiver's expression step by step and compares the outcome with
      the other call's expression; false when either expression is absent. */
  method IdenticalExpressionAfterTypeReplacements(a: Call, b: Call, rs: seq<Replacement>, perform: Rewriter)
    returns (r: bool)
    ensures r == ExpressionMatchesAfterTypeReplacements(a, b, rs, perform)
    ensures a.expression.None? || b.expression.None? ==> !r
  {
    if a.expression.Some? && b.expression.Some? {
      var expression1 := a.expression.value;
      var expression2 := b.expression.value;
      var expression1AfterReplacements := expression1;
      for i := 0 to |rs|
        invariant expression1AfterReplacements == AfterTypeReplacements(expression1, rs[..i], perform)
      {
        assert rs[..i + 1][..i] == rs[..i];
        var replacement := rs[i];
        if replacement.replacementType.Type? {
          expression1AfterReplacements := perform(expression1AfterReplacements, replacement.before, replacement.after);
        }
      }
      assert rs[..|rs|] == rs;
      if expression1AfterReplacements == expression2 {
        return true;
      }
    }
    return false;
  }

  /** identicalArguments(call, set1, set2): false on a length mismatch,
      otherwise true exactly when every position is accepted. */
  method IdenticalArguments(a: Call, b: Call, set1: set<string>, set2: set<string>) returns (r: bool)
    ensures r == ArgumentsIdentical(a, b, set1, set2)
    ensures |a.arguments| != |b.arguments| ==> !r
  {
    var arguments1 := a.arguments;
    var arguments2 := b.arguments;
    if |arguments1| != |arguments2| {
      return false;
    }
    for i := 0 to |arguments1|
      invariant forall j :: 0 <= j < i ==> Accepted(arguments1[j], arguments2[j], set1, set2)
    {
      var argument1 := arguments1[i];
      var argument2 := arguments2[i];
      if argument1 != argument2 && argument2 !in set1 && argument1 !in set2 {
        return false;
      }
    }
    return true;
  }

  /** identicalOrReplacedArguments(call, replacements): false on a length
      mismatch, otherwise true exactly when every position is equal or
      turned into the other by some replacement. */
  method IdenticalOrReplacedArguments(a: Call, b: Call, rs: seq<Replacement>) returns (r: bool)
    ensures r == ArgumentsIdenticalOrReplaced(a, b, rs)
    ensures |a.arguments| != |b.arguments| ==> !r
  {
    var arguments1 := a.arguments;
    var arguments2 := b.arguments;
    if |arguments1| != |arguments2| {
      return false;
    }
    for i := 0 to |arguments1|
      invariant forall j :: 0 <= j < i ==>
        arguments1[j] == arguments2[j] || Replaces(rs, arguments1[j], arguments2[j])
    {
      var argument1 := arguments1[i];
      var argument2 := arguments2[i];
      var argumentReplacement := false;
      for k := 0 to |rs|
        invariant !argumentReplacement
        invariant forall l :: 0 <= l < k ==> !(rs[l].before == argument1 && rs[l].after == argument2)
      {
        var replacement := rs[k];
        if replacement.before == argument1 && replacement.after == argument2 {
          argumentReplacement := true;
          break;
        }
      }
      assert argumentReplacement <==> Replaces(rs, argument1, argument2);
      if argument1 != argument2 && !argumentReplacement {
        return false;
      }
    }
    return true;
  }

  /** allArgumentsReplaced(call, replacements, parameterToArgumentMap):
      counts the replaced positions (at most one per position, because of
      the `break`) and answers whether there is at least one and all are. */
  method AllArgumentsReplaced(a: Call, b: Call, rs: seq<Replacement>, m: map<string, string>) returns (r: bool)
    ensures r == ArgumentsAllReplaced(a, b, rs, m)
    ensures |a.arguments| != |b.arguments| || a.arguments == [] ==> !r
  {
    var replacedArguments: nat := 0;
    var arguments1 := a.arguments;
    var arguments2 := b.arguments;
    if |arguments1| == |arguments2| {
      for i := 0 to |arguments1|
        invariant replacedArguments == ReplacedCount(arguments1[..i], arguments2[..i], rs, m)
      {
        var argument1 := arguments1[i];
        var argument2 := arguments2[i];
        ghost var before := replacedArguments;
        for k := 0 to |rs|
          invariant replacedArguments == before
          invariant forall l :: 0 <= l < k ==> !Fits(rs[l], m, argument1, argument2)
        {
          var replacement := rs[k];
          if (replacement.before == argument1 || Some(replacement.before) == Get(m, argument1)) &&
             (replacement.after == argument2 || Some(replacement.after) == Get(m, argument2)) {
            replacedArguments := replacedArguments + 1;
            break;
          }
        }
        assert replacedArguments == before + if ReplacedThroughMap(rs, m, argument1, argument2) then 1 else 0;
        assert arguments1[..i + 1][..i] == arguments1[..i];
        assert arguments2[..i + 1][..i] == arguments2[..i];
      }
      assert arguments1[..|arguments1|] == arguments1;
      assert arguments2[..|arguments2|] == arguments2;
      ReplacedCountBound(arguments1, arguments2, rs, m);
    }
    return replacedArguments > 0 && replacedArguments == |arguments1|;
  }
}
