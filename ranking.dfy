/** sortAscDistanceAndDescFreq of SymSpell.java: suggestions ordered by ascending edit
    distance, then by descending word frequency, as its doc comment states; and the
    comparator as the code writes it, which is not that order. */
module Ranking {
  import opened JavaInt
  import opened SuggestItem

  /** x may come before y: smaller distance, or equal distance and at least the count. */
  predicate RankLe(x: SuggestItem, y: SuggestItem)
  {
    x.distance < y.distance || (x.distance == y.distance && x.count >= y.count)
  }

  predicate Sorted(s: seq<SuggestItem>)
  {
    forall i, j :: 0 <= i < j < |s| ==> RankLe(s[i], s[j])
  }

  /** The two keys give a total preorder, so sorting by it is well defined. */
  lemma RankLeTotalPreorder(x: SuggestItem, y: SuggestItem, z: SuggestItem)
    ensures RankLe(x, x)
    ensures RankLe(x, y) || RankLe(y, x)
    ensures RankLe(x, y) && RankLe(y, z) ==> RankLe(x, z)
  {
  }

  /** A head ranking before every element of a sorted tail gives a sorted list. */
  lemma ConsSorted(h: SuggestItem, t: seq<SuggestItem>)
    requires Sorted(t)
    requires forall e :: e in multiset(t) ==> RankLe(h, e)
    ensures Sorted([h] + t)
  {
    forall i, j | 0 <= i < j < |[h] + t|
      ensures RankLe(([h] + t)[i], ([h] + t)[j])
    {
      if i == 0 {
        assert ([h] + t)[j] == t[j - 1];
        assert t[j - 1] in multiset(t);
      } else {
        assert ([h] + t)[i] == t[i - 1] && ([h] + t)[j] == t[j - 1];
      }
    }
  }

  /** The head of a sorted list ranks before every element. */
  lemma SortedHead(s: seq<SuggestItem>)
    requires Sorted(s) && s != []
    ensures forall e :: e in multiset(s[1..]) ==> RankLe(s[0], e)
  {
    forall e | e in multiset(s[1..])
      ensures RankLe(s[0], e)
    {
      var j :| 0 <= j < |s[1..]| && s[1..][j] == e;
      assert s[j + 1] == e;
    }
  }

  /** The items of s at distance d with count c, in the order of s: the items a stable sort
      must keep in their relative order. */
  function Ties(s: seq<SuggestItem>, d: int, c: int): seq<SuggestItem>
  {
    if s == [] then []
    else (if s[0].distance == d && s[0].count == c then [s[0]] else []) + Ties(s[1..], d, c)
  }

  /** Appending an item appends it to its own tie class only. */
  lemma {:induction false} TiesSnoc(s: seq<SuggestItem>, x: SuggestItem)
    ensures forall d, c :: Ties(s + [x], d, c) == Ties(s, d, c) + Ties([x], d, c)
  {
    if s == [] {
      assert s + [x] == [x];
    } else {
      TiesSnoc(s[1..], x);
      assert (s + [x])[1..] == s[1..] + [x];
    }
  }

  /** An item that ties with no item of s has no tie class in common with s. */
  lemma {:induction false} TiesNone(s: seq<SuggestItem>, x: SuggestItem)
    requires forall i :: 0 <= i < |s| ==> !(s[i].distance == x.distance && s[i].count == x.count)
    ensures Ties(s, x.distance, x.count) == []
  {
    if s != [] {
      assert forall i :: 0 <= i < |s[1..]| ==> s[1..][i] == s[i + 1];
      TiesNone(s[1..], x);
    }
  }

  /** x placed after every element that does not rank strictly after it, so that it follows
      the items it ties with. */
  function InsertSorted(s: seq<SuggestItem>, x: SuggestItem): (r: seq<SuggestItem>)
    requires Sorted(s)
    ensures Sorted(r) && multiset(r) == multiset(s) + multiset{x}
    ensures |r| == |s| + 1
  {
    if s == [] then [x]
    else if !RankLe(s[0], x) then
      InsertFront(s, x);
      [x] + s
    else
      assert Sorted(s[1..]);
      var t := InsertSorted(s[1..], x);
      InsertBehind(s, x, t);
      [s[0]] + t
  }

  /** An element ranking strictly before the head of a sorted list can go in front of it. */
  lemma InsertFront(s: seq<SuggestItem>, x: SuggestItem)
    requires Sorted(s) && s != [] && !RankLe(s[0], x)
    ensures Sorted([x] + s)
  {
    assert forall e :: e in multiset(s) ==> RankLe(x, e) by {
      SortedHead(s);
      assert s == [s[0]] + s[1..];
    }
    ConsSorted(x, s);
  }

  /** The head stays in front of the tail with an element that ranks after it inserted. */
  lemma InsertBehind(s: seq<SuggestItem>, x: SuggestItem, t: seq<SuggestItem>)
    requires Sorted(s) && s != [] && RankLe(s[0], x)
    requires Sorted(t) && multiset(t) == multiset(s[1..]) + multiset{x}
    ensures Sorted([s[0]] + t) && multiset([s[0]] + t) == multiset(s) + multiset{x}
  {
    assert forall e :: e in multiset(t) ==> RankLe(s[0], e) by {
      SortedHead(s);
    }
    ConsSorted(s[0], t);
    assert s == [s[0]] + s[1..];
  }

  /** An item put in front of a list strictly ranking after it starts its tie class. */
  lemma TiesFront(s: seq<SuggestItem>, x: SuggestItem)
    requires Sorted(s) && s != [] && !RankLe(s[0], x)
    ensures forall d, c :: Ties([x] + s, d, c) == Ties(s, d, c) + Ties([x], d, c)
  {
    forall i | 0 <= i < |s|
      ensures !(s[i].distance == x.distance && s[i].count == x.count)
    {
      if i > 0 {
        assert RankLe(s[0], s[i]);
      }
    }
    TiesNone(s, x);
    assert ([x] + s)[1..] == s;
  }

  /** Ties of a list with a head: the head's class, then the tail's. */
  lemma TiesCons(h: SuggestItem, t: seq<SuggestItem>)
    ensures forall d, c :: Ties([h] + t, d, c) == Ties([h], d, c) + Ties(t, d, c)
  {
    assert ([h] + t)[1..] == t;
  }

  /** Insertion is stable: x goes to the end of its tie class, every other class is kept. */
  lemma {:induction false} InsertSortedStable(s: seq<SuggestItem>, x: SuggestItem)
    requires Sorted(s)
    ensures forall d, c :: Ties(InsertSorted(s, x), d, c) == Ties(s, d, c) + Ties([x], d, c)
  {
    if s == [] {
    } else if !RankLe(s[0], x) {
      TiesFront(s, x);
    } else {
      var t := InsertSorted(s[1..], x);
      InsertSortedStable(s[1..], x);
      TiesCons(s[0], t);
      TiesCons(s[0], s[1..]);
      assert s == [s[0]] + s[1..];
    }
  }

  /** sortAscDistanceAndDescFreq with the order its doc comment gives, under the stable
      Collections.sort: the result is a permutation of the input, sorted, and items that tie
      on both keys keep their order. */
  function SortAscDistanceAndDescFreq(s: seq<SuggestItem>): (r: seq<SuggestItem>)
    ensures Sorted(r) && multiset(r) == multiset(s)
    ensures |r| == |s|
    ensures forall d, c :: Ties(r, d, c) == Ties(s, d, c)
  {
    if s == [] then []
    else
      var p := s[..|s| - 1];
      assert s == p + [s[|s| - 1]];
      TiesSnoc(p, s[|s| - 1]);
      InsertSortedStable(SortAscDistanceAndDescFreq(p), s[|s| - 1]);
      InsertSorted(SortAscDistanceAndDescFreq(p), s[|s| - 1])
  }

  /** The position of the first item of s that ranks before every item of s. */
  function FirstBest(s: seq<SuggestItem>): (i: nat)
    requires s != []
    ensures i < |s|
    ensures forall j :: 0 <= j < |s| ==> RankLe(s[i], s[j])
    ensures forall j :: 0 <= j < i ==> !RankLe(s[j], s[i])
  {
    if |s| == 1 then 0
    else
      var b := FirstBest(s[..|s| - 1]);
      assert forall j :: 0 <= j < |s| - 1 ==> s[..|s| - 1][j] == s[j];
      if RankLe(s[b], s[|s| - 1]) then b else |s| - 1
  }

  /** The head of the sorted list is the first best item of the input: of several items
      tied for best, the one collected first. */
  lemma {:induction false} SortedHeadIsFirstBest(s: seq<SuggestItem>)
    requires s != []
    ensures SortAscDistanceAndDescFreq(s)[0] == s[FirstBest(s)]
  {
    if |s| > 1 {
      var p := s[..|s| - 1];
      SortedHeadIsFirstBest(p);
      assert p[FirstBest(p)] == s[FirstBest(p)];
    }
  }

  /** On a tie the earlier item is kept in front, by the comparator as written too. */
  lemma TieKeepsOrder()
    ensures var p, q := SuggestItem("bc", 1, 1), SuggestItem("ab", 1, 1);
      SortAscDistanceAndDescFreq([p, q]) == [p, q] && JavaSortPair(p, q) == [p, q]
  {
    var p, q := SuggestItem("bc", 1, 1), SuggestItem("ab", 1, 1);
    assert [p, q][..1] == [p];
    Wrap32Unique(2, 2);
    Wrap32Unique(1, 1);
    Wrap32Unique(0, 0);
    assert JavaCompare(q, p) == 1;
  }

  /** The head of the sorted list ranks before every item of the input. */
  lemma SortedHeadIsBest(s: seq<SuggestItem>, x: SuggestItem)
    requires x in s
    ensures var r := SortAscDistanceAndDescFreq(s);
      |r| > 0 && r[0] in s && RankLe(r[0], x)
  {
    var r := SortAscDistanceAndDescFreq(s);
    assert x in multiset(s);
    var j :| 0 <= j < |r| && r[j] == x;
    assert r[0] in multiset(r);
    if j > 0 {
      assert RankLe(r[0], r[j]);
    }
  }

  /** Distance dominates frequency: a closer rare word ranks before a farther frequent one. */
  lemma DistanceBeforeCount()
    ensures var x, y := SuggestItem("x", 2, 100), SuggestItem("y", 1, 1);
      SortAscDistanceAndDescFreq([x, y]) == [y, x]
  {
    var x, y := SuggestItem("x", 2, 100), SuggestItem("y", 1, 1);
    var r := SortAscDistanceAndDescFreq([x, y]);
    assert r == [r[0], r[1]];
    assert multiset{r[0], r[1]} == multiset{x, y};
    assert RankLe(r[0], r[1]) && !RankLe(x, y);
  }

  /** The comparator as written:
      ((2 * x.distance - y.distance) > 0 ? 1 : 0) - ((x.count - y.count) > 0 ? 1 : 0), in int arithmetic. */
  function JavaCompare(x: SuggestItem, y: SuggestItem): int
  {
    (if Wrap32(Wrap32(2 * x.distance) - y.distance) > 0 then 1 else 0)
      - (if Wrap32(x.count - y.count) > 0 then 1 else 0)
  }

  /** Collections.sort on a two-element list: TimSort compares the second element with the
      first and swaps them only when the comparator calls it smaller. */
  function JavaSortPair(p: SuggestItem, q: SuggestItem): seq<SuggestItem>
  {
    if JavaCompare(q, p) < 0 then [q, p] else [p, q]
  }

  /** A Comparator must return 0 when it compares an item with itself; this one returns 1
      whenever the distance is positive. */
  lemma {:induction false} JavaCompareNotReflexive(x: SuggestItem)
    requires 0 < x.distance <= MAX_VALUE
    ensures JavaCompare(x, x) == 1
  {
    var d := x.distance;
    if 2 * d <= MAX_VALUE {
      Wrap32Unique(2 * d, 2 * d);
      Wrap32Unique(2 * d - d, d);
    } else {
      // 2 * d overflows to 2 * d - 2^32, and subtracting d again lands back on d
      Wrap32Unique(2 * d, 2 * d - MODULUS);
      Wrap32Unique(2 * d - MODULUS - d, d);
    }
    Wrap32Unique(0, 0);
  }

  /** With equal counts, an item at distance 1 does not compare below one at distance 2, so
      the sort keeps the distance-2 item first and lookup returns it; the documented order
      puts the distance-1 item first. */
  lemma JavaSortMisranks()
    ensures var p, q := SuggestItem("abcde", 2, 5), SuggestItem("bc", 1, 5);
      JavaSortPair(p, q)[0] == p && SortAscDistanceAndDescFreq([p, q])[0] == q
  {
    var p, q := SuggestItem("abcde", 2, 5), SuggestItem("bc", 1, 5);
    Wrap32Unique(2, 2);
    Wrap32Unique(0, 0);
    assert JavaCompare(q, p) == 0;
    assert [p, q][..1] == [p];
  }
}
