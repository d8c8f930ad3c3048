/**
 * `compare_dice` and `sort_dice`: ratings compare by their position in
 * `AllowedDiceOrder`, and any other value compares as position -1, so it
 * sorts before every rating.
 */
module DiceOrder {
  import opened Wrappers
  import opened Values
  import opened Dice

  /**
   * `order.index(v)`, with nil written as -1: the first position of a
   * rating whose Symbol is `v`.
   */
  function Position(order: seq<Die>, v: Value): (r: int)
    ensures -1 <= r < |order|
    ensures r >= 0 ==> v == Sym(order[r].Symbol())
    ensures r >= 0 ==> forall j :: 0 <= j < r ==> v != Sym(order[j].Symbol())
    ensures r == -1 ==> forall j :: 0 <= j < |order| ==> v != Sym(order[j].Symbol())
  {
    if |order| == 0 then -1
    else if v == Sym(order[0].Symbol()) then 0
    else
      var p := Position(order[1..], v);
      if p < 0 then -1 else p + 1
  }

  /** The index `compare_dice` uses for a value: a rating's rank, -1 for anything else. */
  function Index(v: Value): (r: int)
    ensures -1 <= r < |AllowedDiceOrder|
  {
    match ValidTraitScore(v)
    case None => -1
    case Some(d) => d.Rank()
  }

  /** The index is what the source computes: `AllowedDiceOrder.index(v)`, with nil as -1. */
  lemma IndexIsArrayIndex(v: Value)
    ensures Index(v) == Position(AllowedDiceOrder, v)
  {
    var p := Position(AllowedDiceOrder, v);
    InAllowedDiceOrder();
    match ValidTraitScore(v)
    case None =>
    case Some(d) =>
      RankLocates(d);
      assert v == Sym(AllowedDiceOrder[d.Rank()].Symbol());
      assert p >= 0;
      SymbolInjective(AllowedDiceOrder[p], d);
      assert AllowedDiceOrder[p] == d;
      AllowedDiceOrderIncreasing();
  }

  /** The index is -1 exactly for non-ratings, and locates a rating in the order list. */
  lemma IndexLocatesRating(v: Value)
    ensures Index(v) == -1 <==> ValidTraitScore(v).None?
    ensures Index(v) >= 0 ==> AllowedDiceOrder[Index(v)] == ValidTraitScore(v).value
  {
    if ValidTraitScore(v).Some? {
      RankLocates(ValidTraitScore(v).value);
    }
  }

  /** Ruby's Integer `<=>`. */
  function Spaceship(a: int, b: int): int {
    if a < b then -1 else if a == b then 0 else 1
  }

  /** `compare_dice`: a three-way comparison of two values as ratings. */
  function CompareDice(a: Value, b: Value): (r: int)
    ensures r == -1 || r == 0 || r == 1
  {
    Spaceship(Index(a), Index(b))
  }

  /**
   * Ratings compare by their number of sides, a value that is no rating
   * compares equal to every other such value and below every rating.
   */
  lemma CompareDiceOrdersRatings(a: Value, b: Value)
    ensures ValidTraitScore(a).Some? && ValidTraitScore(b).Some? ==>
      && (CompareDice(a, b) < 0 <==> ValidTraitScore(a).value.Sides() < ValidTraitScore(b).value.Sides())
      && (CompareDice(a, b) == 0 <==> a == b)
    ensures ValidTraitScore(a).None? && ValidTraitScore(b).None? ==> CompareDice(a, b) == 0
    ensures ValidTraitScore(a).None? && ValidTraitScore(b).Some? ==> CompareDice(a, b) == -1
    ensures ValidTraitScore(a).Some? && ValidTraitScore(b).None? ==> CompareDice(a, b) == 1
  {
    IndexLocatesRating(a);
    IndexLocatesRating(b);
    AllowedDiceOrderIncreasing();
  }

  /** The comparison is a total preorder, so it is a valid sort comparator. */
  lemma CompareDicePreorder(a: Value, b: Value, c: Value)
    ensures CompareDice(a, a) == 0
    ensures CompareDice(a, b) == -CompareDice(b, a)
    ensures CompareDice(a, b) <= 0 || CompareDice(b, a) <= 0
    ensures CompareDice(a, b) <= 0 && CompareDice(b, c) <= 0 ==> CompareDice(a, c) <= 0
    ensures CompareDice(a, b) == 0 && CompareDice(b, c) == 0 ==> CompareDice(a, c) == 0
  {
  }

  /** Non-decreasing under `compare_dice`. */
  predicate DiceSorted(s: seq<Value>) {
    forall i, j :: 0 <= i < j < |s| ==> CompareDice(s[i], s[j]) <= 0
  }

  /** Non-decreasing under an integer key. */
  predicate SortedByKey<T>(key: T -> int, s: seq<T>) {
    forall i, j :: 0 <= i < j < |s| ==> key(s[i]) <= key(s[j])
  }

  /** A lower bound on the keys of `s` and on `x` bounds the keys of any rearrangement of `s` with `x`. */
  lemma KeyLowerBound<T>(key: T -> int, bound: int, x: T, s: seq<T>, r: seq<T>)
    requires multiset(r) == multiset(s) + multiset{x}
    requires bound <= key(x)
    requires forall i :: 0 <= i < |s| ==> bound <= key(s[i])
    ensures forall j :: 0 <= j < |r| ==> bound <= key(r[j])
  {
    forall j | 0 <= j < |r|
      ensures bound <= key(r[j])
    {
      assert r[j] in multiset(r);
      if r[j] != x {
        assert r[j] in multiset(s);
      }
    }
  }

  /** Insert one element into a key-sorted sequence, before the first element whose key is not smaller. */
  function InsertByKey<T>(key: T -> int, x: T, s: seq<T>): (r: seq<T>)
    requires SortedByKey(key, s)
    ensures SortedByKey(key, r)
    ensures multiset(r) == multiset(s) + multiset{x}
  {
    if |s| == 0 then [x]
    else if key(x) <= key(s[0]) then [x] + s
    else
      var rest := InsertByKey(key, x, s[1..]);
      assert s == [s[0]] + s[1..];
      KeyLowerBound(key, key(s[0]), x, s[1..], rest);
      [s[0]] + rest
  }

  /** Insertion sort by an integer key. */
  function SortByKey<T>(key: T -> int, s: seq<T>): (r: seq<T>)
    ensures SortedByKey(key, r)
    ensures multiset(r) == multiset(s)
  {
    if |s| == 0 then []
    else
      assert s == s[..|s| - 1] + [s[|s| - 1]];
      InsertByKey(key, s[|s| - 1], SortByKey(key, s[..|s| - 1]))
  }

  /**
   * `sort_dice`: the values arranged non-decreasingly under `compare_dice`.
   * Values that compare equal may be arranged differently by Ruby's
   * unstable sort; this is one of the arrangements it may produce.
   */
  function SortDice(s: seq<Value>): (r: seq<Value>)
    ensures DiceSorted(r)
    ensures multiset(r) == multiset(s)
  {
    SortByKey(Index, s)
  }

  /** In a sorted sequence every value that is not a rating precedes every rating. */
  lemma UnknownsFirst(s: seq<Value>)
    ensures forall i, j :: (0 <= i < |SortDice(s)| && 0 <= j < |SortDice(s)|
      && ValidTraitScore(SortDice(s)[i]).Some? && ValidTraitScore(SortDice(s)[j]).None?) ==> j < i
  {
  }

  /** The indices of the ratings the example below sorts. */
  lemma ExampleIndices()
    ensures Index(Sym("d6")) == 1 && Index(Sym("d10")) == 3 && Index(Sym("d8")) == 2
  {
    IndexLocatesRating(Sym("d6"));
    IndexLocatesRating(Sym("d10"));
    IndexLocatesRating(Sym("d8"));
  }

  lemma SortTwo<T>(key: T -> int, a: T, b: T)
    requires key(a) < key(b)
    ensures SortByKey(key, [a, b]) == [a, b]
  {
    assert [a, b][..1] == [a] && [a][..0] == [];
    assert SortByKey(key, [a]) == [a];
    assert [a][1..] == [];
  }

  lemma InsertThird<T>(key: T -> int, a: T, b: T, c: T)
    requires key(a) < key(c) < key(b)
    ensures InsertByKey(key, c, [a, b]) == [a, c, b]
  {
    assert [a, b][1..] == [b];
    assert InsertByKey(key, c, [b]) == [c, b];
  }

  /** Sorting three elements whose keys are distinct. */
  lemma SortThree<T>(key: T -> int, a: T, b: T, c: T)
    requires key(a) < key(c) < key(b)
    ensures SortByKey(key, [a, b, c]) == [a, c, b]
  {
    assert [a, b, c][..2] == [a, b];
    SortTwo(key, a, b);
    InsertThird(key, a, b, c);
  }

  /** The example of the source's comment: `[:d6, :d10, :d8]` sorts to `[:d6, :d8, :d10]`. */
  lemma SortDiceExample()
    ensures SortDice([Sym("d6"), Sym("d10"), Sym("d8")]) == [Sym("d6"), Sym("d8"), Sym("d10")]
  {
    ExampleIndices();
    SortThree(Index, Sym("d6"), Sym("d10"), Sym("d8"));
  }
}
