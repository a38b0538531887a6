/** Properties that relate the predicates of AbstractCall to each other:
    equivalence of expression equality, the effect of the TYPE replacement
    pass, the ordering between the argument-list comparisons, and which
    composite classifications exclude each other. */
module CallProperties {
  import opened Wrappers
  import opened Calls

  // ---------------------------------------------------------------------
  // Receiver expressions

  /** identicalExpression is reflexive and symmetric; a present expression
      never equals an absent one and two absent ones are equal. */
  lemma IdenticalExpressionIsEquivalence(a: Call, b: Call)
    ensures IdenticalExpression(a, a)
    ensures IdenticalExpression(a, b) == IdenticalExpression(b, a)
    ensures a.expression.Some? && b.expression.None? ==> !IdenticalExpression(a, b)
    ensures a.expression.None? && b.expression.None? ==> IdenticalExpression(a, b)
  {
  }

  /** Applying a sequence of replacements then another is applying their
      concatenation: the replacements act one after the other, in order. */
  lemma {:induction false} AfterTypeReplacementsAppend(e: string, rs1: seq<Replacement>, rs2: seq<Replacement>, perform: Rewriter)
    ensures AfterTypeReplacements(e, rs1 + rs2, perform) ==
            AfterTypeReplacements(AfterTypeReplacements(e, rs1, perform), rs2, perform)
    decreases |rs2|
  {
    if rs2 == [] {
      assert rs1 + rs2 == rs1;
    } else {
      var n := |rs2| - 1;
      assert (rs1 + rs2)[..|rs1 + rs2| - 1] == rs1 + rs2[..n];
      AfterTypeReplacementsAppend(e, rs1, rs2[..n], perform);
    }
  }

  /** The TYPE replacements of `rs`, in order. */
  function TypeReplacementsOf(rs: seq<Replacement>): (t: seq<Replacement>)
    ensures forall k :: 0 <= k < |t| ==> t[k].replacementType.Type?
    decreases |rs|
  {
    if rs == [] then []
    else
      var previous := TypeReplacementsOf(rs[..|rs| - 1]);
      var last := rs[|rs| - 1];
      if last.replacementType.Type? then previous + [last] else previous
  }

  /** Replacements of any other type are skipped: only the TYPE ones, in
      their order, decide the rewritten expression. */
  lemma {:induction false} OnlyTypeReplacementsMatter(e: string, rs: seq<Replacement>, perform: Rewriter)
    ensures AfterTypeReplacements(e, rs, perform) == AfterTypeReplacements(e, TypeReplacementsOf(rs), perform)
    decreases |rs|
  {
    if rs != [] {
      var n := |rs| - 1;
      var previous := TypeReplacementsOf(rs[..n]);
      OnlyTypeReplacementsMatter(e, rs[..n], perform);
      if rs[n].replacementType.Type? {
        assert (previous + [rs[n]])[..|previous|] == previous;
      }
    }
  }

  /** identicalExpressionAfterTypeReplacements is false when either
      expression is absent, and when no replacement has type TYPE it is
      plain equality of the two expressions. */
  lemma TypeReplacementCheckWithoutTypeReplacements(a: Call, b: Call, rs: seq<Replacement>, perform: Rewriter)
    requires forall k :: 0 <= k < |rs| ==> !rs[k].replacementType.Type?
    ensures ExpressionMatchesAfterTypeReplacements(a, b, rs, perform) <==>
            a.expression.Some? && b.expression.Some? && a.expression == b.expression
  {
  }

  /** Consequently identicalExpression(call, replacements) coincides with
      identicalExpression(call) when no replacement has type TYPE. */
  lemma IdenticalExpressionWithoutTypeReplacements(a: Call, b: Call, rs: seq<Replacement>, perform: Rewriter)
    requires forall k :: 0 <= k < |rs| ==> !rs[k].replacementType.Type?
    ensures IdenticalExpressionWithReplacements(a, b, rs, perform) == IdenticalExpression(a, b)
  {
  }

  // ---------------------------------------------------------------------
  // Argument lists

  /** Equal argument lists are identical whatever the two known-identifier
      sets; with both sets empty the two notions coincide. */
  lemma EqualArgumentsAreIdentical(a: Call, b: Call, set1: set<string>, set2: set<string>)
    ensures EqualArguments(a, b) ==> ArgumentsIdentical(a, b, set1, set2)
    ensures ArgumentsIdentical(a, b, {}, {}) == EqualArguments(a, b)
  {
  }

  /** Argument lists of different lengths are never identical, nor
      identical-or-replaced, nor all replaced. */
  lemma LengthMismatchFailsPositionwise(a: Call, b: Call, set1: set<string>, set2: set<string>,
                                        rs: seq<Replacement>, m: map<string, string>)
    requires |a.arguments| != |b.arguments|
    ensures !EqualArguments(a, b)
    ensures !ArgumentsIdentical(a, b, set1, set2)
    ensures !ArgumentsIdenticalOrReplaced(a, b, rs)
    ensures !ArgumentsAllReplaced(a, b, rs, m)
  {
  }

  /** With no replacements, identicalOrReplacedArguments is equalArguments;
      in general equal lists are always identical-or-replaced. */
  lemma ReplacedArgumentsWithoutReplacements(a: Call, b: Call, rs: seq<Replacement>)
    ensures ArgumentsIdenticalOrReplaced(a, b, []) == EqualArguments(a, b)
    ensures EqualArguments(a, b) ==> ArgumentsIdenticalOrReplaced(a, b, rs)
  {
  }

  /** allArgumentsReplaced never holds for a receiver without arguments,
      even when the other call has none either. */
  lemma NoArgumentsAreNotAllReplaced(a: Call, b: Call, rs: seq<Replacement>, m: map<string, string>)
    requires a.arguments == []
    ensures !ArgumentsAllReplaced(a, b, rs, m)
  {
  }

  /** Without a parameter-to-argument map, allArgumentsReplaced holds
      exactly when the lists are non-empty and every position is turned
      into the other by a replacement. */
  lemma AllReplacedWithoutMap(a: Call, b: Call, rs: seq<Replacement>)
    ensures ArgumentsAllReplaced(a, b, rs, map[]) <==>
            |a.arguments| == |b.arguments| && |a.arguments| > 0 &&
            forall i :: 0 <= i < |a.arguments| ==> Replaces(rs, a.arguments[i], b.arguments[i])
  {
  }

  // ---------------------------------------------------------------------
  // Composite classifications

  /** identical and onlyArgumentsChanged cannot both hold with the same
      sets and replacements. */
  lemma IdenticalExcludesOnlyArgumentsChanged(
    a: Call, b: Call, set1: set<string>, set2: set<string>, rs: seq<Replacement>, perform: Rewriter,
    identicalName: NameRelation)
    ensures !(Identical(a, b, set1, set2, rs, perform, identicalName) &&
              OnlyArgumentsChanged(a, b, set1, set2, rs, perform, identicalName))
  {
  }

  /** identical and renamedWithIdenticalExpressionAndArguments cannot both
      hold: one needs identicalName, the other its negation. */
  lemma IdenticalExcludesRenamed(
    a: Call, b: Call, set1: set<string>, set2: set<string>, rs: seq<Replacement>, perform: Rewriter,
    identicalName: NameRelation)
    ensures !(Identical(a, b, set1, set2, rs, perform, identicalName) &&
              RenamedWithIdenticalExpressionAndArguments(a, b, rs, perform, identicalName))
  {
  }

  /** A rename with a receiver expression and one without are never both
      reported for the same pair of calls. */
  lemma RenamedWithAndWithoutExpressionExclusive(
    a: Call, b: Call, rs: seq<Replacement>, perform: Rewriter,
    identicalName: NameRelation, withinDistance: NameRelation)
    ensures !(RenamedWithIdenticalExpressionAndArguments(a, b, rs, perform, identicalName) &&
              RenamedWithIdenticalArgumentsAndNoExpression(a, b, identicalName, withinDistance))
  {
  }

  /** When identicalName obeys its laws, every call is identical to
      itself, whatever the sets and replacements. */
  lemma IdenticalIsReflexive(
    a: Call, set1: set<string>, set2: set<string>, rs: seq<Replacement>, perform: Rewriter,
    identicalName: NameRelation)
    requires NameEqualityLaws(identicalName)
    ensures Identical(a, a, set1, set2, rs, perform, identicalName)
    ensures !OnlyArgumentsChanged(a, a, set1, set2, rs, perform, identicalName)
  {
  }

  /** An identicalName that compares the names of the two calls, as the
      concrete call kinds do. */
  function SameName(a: Call, b: Call): bool
  {
    a.name == b.name
  }

  /** Comparing names obeys the laws expected of identicalName, and with
      it the two rename verdicts are reported for calls that differ only
      in their names: `getSize()` becomes `getLength()` without a receiver,
      and `obj.foo(x)` becomes `obj.bar(x)`, while neither pair is
      identical. */
  lemma RenamesAreReported(perform: Rewriter, set1: set<string>, set2: set<string>)
    ensures NameEqualityLaws(SameName)
    ensures var getSize := Call("getSize", None, [], OnlyCall);
            var getLength := Call("getLength", None, [], OnlyCall);
            RenamedWithIdenticalArgumentsAndNoExpression(getSize, getLength, SameName, (c: Call, d: Call) => true) &&
            !Identical(getSize, getLength, set1, set2, [], perform, SameName)
    ensures var foo := Call("foo", Some("obj"), ["x"], OnlyCall);
            var bar := Call("bar", Some("obj"), ["x"], OnlyCall);
            RenamedWithIdenticalExpressionAndArguments(foo, bar, [], perform, SameName) &&
            !Identical(foo, bar, set1, set2, [], perform, SameName)
  {
    assert "getSize" != "getLength" by {
      assert "getSize"[3] != "getLength"[3];
    }
    assert "foo" != "bar" by {
      assert "foo"[0] != "bar"[0];
    }
  }
}
