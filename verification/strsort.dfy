/**
 * Python's `sorted` on a list of strings. Equal strings are identical, so
 * stability plays no part and `sorted(xs, reverse=True)` is the reverse of
 * `sorted(xs)`.
 */
module StrSort {

  import opened PyStr

  /** Each element is at most its successor. */
  predicate Ordered(s: seq<string>) {
    forall i :: 0 < i < |s| ==> LessEq(s[i - 1], s[i])
  }

  function Insert(x: string, s: seq<string>): (r: seq<string>)
    requires Ordered(s)
    ensures Ordered(r)
    ensures multiset(r) == multiset(s) + multiset{x}
    ensures |r| > 0 && (r[0] == x || (|s| > 0 && r[0] == s[0]))
  {
    if |s| == 0 then [x]
    else if LessEq(x, s[0]) then [x] + s
    else
      LessTotal(x, s[0]);
      var t := Insert(x, s[1..]);
      assert s == [s[0]] + s[1..];
      [s[0]] + t
  }

  /** `sorted(s)`: an ordered permutation of `s`. */
  function Sort(s: seq<string>): (r: seq<string>)
    ensures Ordered(r)
    ensures multiset(r) == multiset(s)
    ensures |r| == |s|
  {
    if |s| == 0 then []
    else
      assert s == [s[0]] + s[1..];
      Insert(s[0], Sort(s[1..]))
  }

  /** A strictly increasing list is already sorted. */
  lemma {:induction false} SortStrictlySorted(s: seq<string>)
    requires StrictlySorted(s)
    ensures Sort(s) == s
    decreases |s|
  {
    if |s| > 0 {
      assert StrictlySorted(s[1..]);
      SortStrictlySorted(s[1..]);
      if |s| > 1 {
        assert Less(s[0], s[1]);
      }
    }
  }

  /** The first element of an ordered list is at most every element. */
  lemma {:induction false} OrderedFirst(s: seq<string>, i: nat)
    requires Ordered(s) && i < |s|
    ensures LessEq(s[0], s[i])
    decreases i
  {
    if i > 0 {
      OrderedFirst(s, i - 1);
      LessEqTransitive(s[0], s[i - 1], s[i]);
    }
  }

  lemma OrderedTail(s: seq<string>)
    requires Ordered(s) && |s| > 0
    ensures Ordered(s[1..])
  {
    assert forall x :: 0 <= x < |s| - 1 ==> s[1..][x] == s[x + 1];
  }

  /** Two ordered arrangements of the same strings start alike. */
  lemma OrderedSameHead(a: seq<string>, b: seq<string>)
    requires Ordered(a) && Ordered(b) && multiset(a) == multiset(b) && |a| > 0
    ensures |b| > 0 && a[0] == b[0]
  {
    assert a[0] in multiset(b);
    var i :| 0 <= i < |b| && b[i] == a[0];
    assert b[0] in multiset(a);
    var j :| 0 <= j < |a| && a[j] == b[0];
    OrderedFirst(b, i);
    OrderedFirst(a, j);
    if a[0] != b[0] {
      LessAsymmetric(a[0], b[0]);
    }
  }

  lemma MultisetTail(a: seq<string>, b: seq<string>)
    requires |a| > 0 && |b| > 0 && a[0] == b[0] && multiset(a) == multiset(b)
    ensures multiset(a[1..]) == multiset(b[1..])
  {
    assert a == [a[0]] + a[1..] && b == [b[0]] + b[1..];
    assert multiset(a) == multiset{a[0]} + multiset(a[1..]);
    assert multiset(b) == multiset{b[0]} + multiset(b[1..]);
    assert multiset(a[1..]) == multiset(a) - multiset{a[0]};
    assert multiset(b[1..]) == multiset(b) - multiset{b[0]};
  }

  /** Two ordered lists holding the same strings are the same list, so
      `sorted` has only one possible answer. */
  lemma {:induction false} OrderedUnique(a: seq<string>, b: seq<string>)
    requires Ordered(a) && Ordered(b) && multiset(a) == multiset(b)
    ensures a == b
    decreases |a|
  {
    if |a| == 0 {
      assert |b| == |multiset(b)| == 0;
    } else {
      OrderedSameHead(a, b);
      MultisetTail(a, b);
      OrderedTail(a);
      OrderedTail(b);
      OrderedUnique(a[1..], b[1..]);
      assert a == [a[0]] + a[1..] && b == [b[0]] + b[1..];
    }
  }

  /** Sorting any arrangement of a strictly increasing list restores it. */
  lemma SortPermutationOfSorted(s: seq<string>, t: seq<string>)
    requires StrictlySorted(t) && multiset(s) == multiset(t)
    ensures Sort(s) == t
  {
    OrderedUnique(Sort(s), t);
  }
}
