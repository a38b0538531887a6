/** argumentIntersection(call): a LinkedHashSet built from the receiver's
    arguments (duplicates dropped, first occurrences kept in order) and
    then shrunk by retainAll with the other call's arguments. */
module ArgumentSets {
  import opened Calls

  /** No text occurs twice. */
  predicate Distinct(s: seq<string>)
  {
    forall i, j :: 0 <= i < j < |s| ==> s[i] != s[j]
  }

  /** The position of the first occurrence of `x` in `s`. */
  function FirstIndex(s: seq<string>, x: string): (i: nat)
    requires x in s
    ensures i < |s| && s[i] == x
    ensures forall j :: 0 <= j < i ==> s[j] != x
  {
    if s[0] == x then 0
    else
      var j := FirstIndex(s[1..], x);
      assert forall k :: 1 <= k < j + 1 ==> s[k] == s[1..][k - 1];
      1 + j
  }

  /** Every element of `r` occurs in `s`, and the elements of `r` follow
      the order of their first occurrences in `s`. */
  predicate Ordered(r: seq<string>, s: seq<string>)
  {
    (forall i :: 0 <= i < |r| ==> r[i] in s) &&
    forall i, j :: 0 <= i < j < |r| ==> FirstIndex(s, r[i]) < FirstIndex(s, r[j])
  }

  /** The contents of `new LinkedHashSet<String>(s)`, in iteration order:
      the elements of `s` added one by one, a repeated one ignored. */
  function Dedup(s: seq<string>): seq<string>
    decreases |s|
  {
    if s == [] then []
    else
      var previous := Dedup(s[..|s| - 1]);
      var last := s[|s| - 1];
      if last in previous then previous else previous + [last]
  }

  /** The elements of `s` that occur in `keep`, in the order of `s`: what
      retainAll leaves. */
  function Retain(s: seq<string>, keep: seq<string>): seq<string>
    decreases |s|
  {
    if s == [] then []
    else
      var previous := Retain(s[..|s| - 1], keep);
      var last := s[|s| - 1];
      previous + if last in keep then [last] else []
  }

  /** The linked set holds exactly the elements of its source, once each. */
  lemma {:induction false} DedupContents(s: seq<string>)
    ensures forall x :: x in Dedup(s) <==> x in s
    ensures Distinct(Dedup(s))
    decreases |s|
  {
    if s != [] {
      var n := |s| - 1;
      DedupContents(s[..n]);
      assert s == s[..n] + [s[n]];
    }
  }

  /** retainAll leaves exactly the elements also in `keep`, and never
      introduces a duplicate. */
  lemma {:induction false} RetainContents(s: seq<string>, keep: seq<string>)
    ensures forall x :: x in Retain(s, keep) <==> x in s && x in keep
    ensures Distinct(s) ==> Distinct(Retain(s, keep))
    decreases |s|
  {
    if s != [] {
      var n := |s| - 1;
      RetainContents(s[..n], keep);
      assert s == s[..n] + [s[n]];
      if Distinct(s) {
        assert Distinct(s[..n]);
        assert s[n] !in s[..n];
      }
    }
  }

  /** The result of argumentIntersection on two argument lists. */
  function Intersection(arguments1: seq<string>, arguments2: seq<string>): seq<string>
  {
    Retain(Dedup(arguments1), arguments2)
  }

  /** A first occurrence inside a prefix is the first occurrence in the
      whole sequence. */
  lemma FirstIndexOfPrefix(s: seq<string>, n: nat, x: string)
    requires n <= |s| && x in s[..n]
    ensures x in s && FirstIndex(s, x) == FirstIndex(s[..n], x)
  {
    var i := FirstIndex(s[..n], x);
    assert s[i] == x;
  }

  /** Order with respect to a prefix is order with respect to the whole
      sequence. */
  lemma OrderedInLonger(r: seq<string>, s: seq<string>, n: nat)
    requires n <= |s| && Ordered(r, s[..n])
    ensures Ordered(r, s)
  {
    forall i | 0 <= i < |r|
      ensures r[i] in s && FirstIndex(s, r[i]) == FirstIndex(s[..n], r[i])
    {
      FirstIndexOfPrefix(s, n, r[i]);
    }
  }

  /** A prefix of an ordered sequence is ordered. */
  lemma OrderedPrefix(r: seq<string>, n: nat, s: seq<string>)
    requires n <= |r| && Ordered(r, s)
    ensures Ordered(r[..n], s)
  {
    assert forall i :: 0 <= i < n ==> r[..n][i] == r[i];
  }

  /** Appending an element whose first occurrence follows those of all
      elements already present keeps the order. */
  lemma OrderedAppend(r: seq<string>, x: string, s: seq<string>)
    requires Ordered(r, s) && x in s
    requires forall i :: 0 <= i < |r| ==> FirstIndex(s, r[i]) < FirstIndex(s, x)
    ensures Ordered(r + [x], s)
  {
    var t := r + [x];
    assert forall i :: 0 <= i < |r| ==> t[i] == r[i];
    assert t[|r|] == x;
  }

  /** The linked set keeps the first-occurrence order of its source. */
  lemma {:induction false} DedupOrdered(s: seq<string>)
    ensures Ordered(Dedup(s), s)
    decreases |s|
  {
    if s != [] {
      var n := |s| - 1;
      var prefix := s[..n];
      var previous := Dedup(prefix);
      DedupOrdered(prefix);
      DedupContents(prefix);
      OrderedInLonger(previous, s, n);
      if s[n] !in previous {
        assert forall j :: 0 <= j < n ==> s[j] == prefix[j];
        assert FirstIndex(s, s[n]) == n;
        forall i | 0 <= i < |previous|
          ensures FirstIndex(s, previous[i]) < FirstIndex(s, s[n])
        {
          FirstIndexOfPrefix(s, n, previous[i]);
        }
        OrderedAppend(previous, s[n], s);
      }
    }
  }

  /** Shrinking keeps the order of what remains. */
  lemma {:induction false} RetainOrdered(d: seq<string>, keep: seq<string>, s: seq<string>)
    requires Ordered(d, s)
    ensures Ordered(Retain(d, keep), s)
    decreases |d|
  {
    if d != [] {
      var n := |d| - 1;
      var prefix := d[..n];
      OrderedPrefix(d, n, s);
      RetainOrdered(prefix, keep, s);
      RetainContents(prefix, keep);
      var previous := Retain(prefix, keep);
      if d[n] in keep {
        forall i | 0 <= i < |previous|
          ensures FirstIndex(s, previous[i]) < FirstIndex(s, d[n])
        {
          assert previous[i] in prefix;
          var p :| 0 <= p < n && prefix[p] == previous[i];
          assert d[p] == previous[i];
        }
        OrderedAppend(previous, d[n], s);
      }
    }
  }

  /** `new LinkedHashSet<String>(s)`: adds the elements of `s` one by one,
      ignoring one already present. */
  method NewLinkedSet(s: seq<string>) returns (linked: seq<string>)
    ensures linked == Dedup(s)
  {
    linked := [];
    for i := 0 to |s|
      invariant linked == Dedup(s[..i])
    {
      assert s[..i + 1][..i] == s[..i];
      if s[i] !in linked {
        linked := linked + [s[i]];
      }
    }
    assert s[..|s|] == s;
  }

  /** Retaining over one more element of `s` either keeps it or not. */
  lemma RetainExtend(s: seq<string>, keep: seq<string>, v: nat)
    requires v < |s|
    ensures Retain(s[..v + 1], keep) == Retain(s[..v], keep) + if s[v] in keep then [s[v]] else []
  {
    assert s[..v + 1][..v] == s[..v];
  }

  /** `linked.retainAll(keep)`: walks the linked set and removes every
      element that does not occur in `keep`. The set is fresh and
      unaliased, so its in-place shrinking is modelled on a value. */
  method RetainAll(linked: seq<string>, keep: seq<string>) returns (retained: seq<string>)
    ensures retained == Retain(linked, keep)
  {
    retained := linked;
    ghost var visited := 0;
    var i := 0;
    while i < |retained|
      invariant visited <= |linked| && i <= |retained|
      invariant retained[..i] == Retain(linked[..visited], keep)
      invariant retained[i..] == linked[visited..]
      decreases |retained| - i
    {
      RetainExtend(linked, keep, visited);
      assert retained[i] == linked[visited];
      assert retained[i + 1..] == linked[visited + 1..];
      if retained[i] !in keep {
        ghost var previous := retained;
        retained := retained[..i] + retained[i + 1..];
        assert retained[..i] == previous[..i];
        assert retained[i..] == previous[i + 1..];
      } else {
        assert retained[..i + 1] == retained[..i] + [retained[i]];
        i := i + 1;
      }
      visited := visited + 1;
    }
    assert linked[..|linked|] == linked;
    assert retained[..i] == retained;
  }

  /** argumentIntersection(call): exactly the texts occurring in both
      argument lists, each once, in the order of their first occurrences
      in the receiver's list. */
  method ArgumentIntersection(a: Call, b: Call) returns (result: seq<string>)
    ensures result == Intersection(a.arguments, b.arguments)
    ensures forall x :: x in result <==> x in a.arguments && x in b.arguments
    ensures Distinct(result)
    ensures Ordered(result, a.arguments)
  {
    var argumentIntersection := NewLinkedSet(a.arguments);
    DedupContents(a.arguments);
    RetainContents(argumentIntersection, b.arguments);
    DedupOrdered(a.arguments);
    RetainOrdered(argumentIntersection, b.arguments, a.arguments);
    argumentIntersection := RetainAll(argumentIntersection, b.arguments);
    return argumentIntersection;
  }

  /** As sets, the intersection does not depend on which call is the
      receiver; only its order does. */
  lemma IntersectionSymmetricAsSet(arguments1: seq<string>, arguments2: seq<string>)
    ensures (set x | x in Intersection(arguments1, arguments2)) == (set x | x in Intersection(arguments2, arguments1))
  {
    DedupContents(arguments1);
    DedupContents(arguments2);
    RetainContents(Dedup(arguments1), arguments2);
    RetainContents(Dedup(arguments2), arguments1);
  }
}
