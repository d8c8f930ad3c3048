/**
 * Lists of Edge and Hindrance names, kept in the order Ruby's
 * `Array#sort!` gives Strings.
 */
module NameLists {
  import opened Text

  /** Non-decreasing in String order. */
  predicate SortedNames(s: seq<string>) {
    forall i, j :: 0 <= i < j < |s| ==> LexLeq(s[i], s[j])
  }

  /** A lower bound on `s` and on `x` bounds any rearrangement of `s` with `x`. */
  lemma NameLowerBound(bound: string, x: string, s: seq<string>, r: seq<string>)
    requires multiset(r) == multiset(s) + multiset{x}
    requires LexLeq(bound, x)
    requires forall i :: 0 <= i < |s| ==> LexLeq(bound, s[i])
    ensures forall j :: 0 <= j < |r| ==> LexLeq(bound, r[j])
  {
    forall j | 0 <= j < |r|
      ensures LexLeq(bound, r[j])
    {
      assert r[j] in multiset(r);
      if r[j] != x {
        assert r[j] in multiset(s);
      }
    }
  }

  /** Insert a name into a sorted list, before the first name it does not follow. */
  function InsertName(x: string, s: seq<string>): (r: seq<string>)
    requires SortedNames(s)
    ensures SortedNames(r)
    ensures multiset(r) == multiset(s) + multiset{x}
  {
    if |s| == 0 then [x]
    else if LexLeq(x, s[0]) then
      assert forall j :: 0 < j < |s| ==> LexLeq(x, s[j]) by {
        forall j | 0 < j < |s|
          ensures LexLeq(x, s[j])
        {
          LexLeqTransitive(x, s[0], s[j]);
        }
      }
      [x] + s
    else
      var rest := InsertName(x, s[1..]);
      assert s == [s[0]] + s[1..];
      LexLeqTotal(x, s[0]);
      NameLowerBound(s[0], x, s[1..], rest);
      [s[0]] + rest
  }

  /** `sort!` on a list of Strings. */
  function SortNames(s: seq<string>): (r: seq<string>)
    ensures SortedNames(r)
    ensures multiset(r) == multiset(s)
  {
    if |s| == 0 then []
    else
      assert s == s[..|s| - 1] + [s[|s| - 1]];
      InsertName(s[|s| - 1], SortNames(s[..|s| - 1]))
  }

  /**
   * Two sorted lists holding the same names are equal, so any sorting
   * algorithm, Ruby's included, arranges a list of names as `SortNames` does.
   */
  lemma {:induction false} SortedUnique(a: seq<string>, b: seq<string>)
    requires SortedNames(a) && SortedNames(b)
    requires multiset(a) == multiset(b)
    ensures a == b
    decreases |a|
  {
    if |a| > 0 {
      assert a[0] in multiset(b);
      HeadIsLeast(b, a[0]);
      assert b[0] in multiset(a);
      HeadIsLeast(a, b[0]);
      LexLeqAntisymmetric(a[0], b[0]);
      TailMultiset(a);
      TailMultiset(b);
      SortedUnique(a[1..], b[1..]);
      assert a == [a[0]] + a[1..];
      assert b == [b[0]] + b[1..];
    } else {
      assert |b| == |multiset(b)|;
    }
  }

  /** The head of a sorted list precedes every name in it. */
  lemma HeadIsLeast(s: seq<string>, x: string)
    requires SortedNames(s) && x in multiset(s)
    ensures |s| > 0 && LexLeq(s[0], x)
  {
    var j :| 0 <= j < |s| && s[j] == x;
    if j == 0 {
      LexLeqReflexive(x);
    }
  }

  /** Dropping the head removes one copy of it. */
  lemma TailMultiset(s: seq<string>)
    requires |s| > 0
    ensures multiset(s[1..]) == multiset(s) - multiset{s[0]}
  {
    assert s == [s[0]] + s[1..];
  }

  /** Re-sorting a sorted list after appending a name inserts the name in place. */
  lemma AppendThenSort(s: seq<string>, x: string)
    requires SortedNames(s)
    ensures SortNames(s + [x]) == InsertName(x, s)
  {
    SortedUnique(SortNames(s + [x]), InsertName(x, s));
  }

  /** `reject! { |e| e == x }`: every copy of `x` removed, the rest kept in order. */
  function RemoveAll(s: seq<string>, x: string): (r: seq<string>)
    ensures multiset(r) == multiset(s)[x := 0]
    ensures x !in r
    ensures x !in s ==> r == s
  {
    if |s| == 0 then []
    else
      assert s == [s[0]] + s[1..];
      var rest := RemoveAll(s[1..], x);
      assert x !in multiset(rest);
      if s[0] == x then rest else [s[0]] + rest
  }

  /** Removing names from a sorted list leaves it sorted. */
  lemma {:induction false} RemoveAllSorted(s: seq<string>, x: string)
    requires SortedNames(s)
    ensures SortedNames(RemoveAll(s, x))
  {
    if |s| > 0 {
      RemoveAllSorted(s[1..], x);
      var rest := RemoveAll(s[1..], x);
      forall j | 0 <= j < |rest|
        ensures LexLeq(s[0], rest[j])
      {
        assert rest[j] in multiset(rest);
        assert rest[j] in multiset(s[1..]);
      }
    }
  }

  /** Removal works element by element: a single name goes exactly when it is `x`. */
  lemma RemoveAllSingle(y: string, x: string)
    ensures RemoveAll([y], x) == if y == x then [] else [y]
  {
    assert [y][1..] == [];
  }

  /** Removal distributes over concatenation, so the names kept stay in their order. */
  lemma {:induction false} RemoveAllAppend(s1: seq<string>, s2: seq<string>, x: string)
    ensures RemoveAll(s1 + s2, x) == RemoveAll(s1, x) + RemoveAll(s2, x)
    decreases |s1|
  {
    if |s1| == 0 {
      assert s1 + s2 == s2;
    } else {
      assert (s1 + s2)[0] == s1[0];
      assert (s1 + s2)[1..] == s1[1..] + s2;
      RemoveAllAppend(s1[1..], s2, x);
    }
  }

  /** A sorted rearrangement of `s` is what sorting `s` gives. */
  lemma SortedIsSortNames(names: seq<string>, s: seq<string>)
    requires SortedNames(names) && multiset(names) == multiset(s)
    ensures names == SortNames(s)
  {
    SortedUnique(names, SortNames(s));
  }
}
