/**
 * The std::sort calls of the heuristics and of branch and bound.  std::sort
 * promises a permutation of its input in which no element goes strictly
 * before an earlier one under the comparator; Sort is one such permutation,
 * built by insertion.
 */
module Sorting {
  import opened Items
  import opened Comparators

  /** No later element goes strictly before an earlier one. */
  predicate SortedBy(s: seq<Item>, ord: Order) {
    forall i, j {:trigger Less(ord, s[j], s[i])} | 0 <= i < j < |s| :: !Less(ord, s[j], s[i])
  }

  /** Places x just before the first element it goes strictly before. */
  function Insert(x: Item, s: seq<Item>, ord: Order): seq<Item>
    decreases |s|
  {
    if |s| == 0 then [x]
    else if Less(ord, x, s[0]) then [x] + s
    else [s[0]] + Insert(x, s[1..], ord)
  }

  /** A sorted permutation of the items. */
  function Sort(s: seq<Item>, ord: Order): (r: seq<Item>)
    requires ValidItems(s)
    ensures multiset(r) == multiset(s)
    ensures SortedBy(r, ord)
    decreases |s|
  {
    if |s| == 0 then []
    else
      var n := |s| - 1;
      assert s == s[..n] + [s[n]];
      assert s[n] in s;
      assert ValidItems(s[..n]) by { forall y | y in s[..n] ensures y in s { } }
      var front := Sort(s[..n], ord);
      assert ValidItems(front) by { SubMultisetValid(front, s[..n]); }
      InsertMultiset(s[n], front, ord);
      InsertSorted(s[n], front, ord);
      Insert(s[n], front, ord)
  }

  lemma {:induction false} InsertMultiset(x: Item, s: seq<Item>, ord: Order)
    ensures multiset(Insert(x, s, ord)) == multiset(s) + multiset{x}
    decreases |s|
  {
    if |s| > 0 {
      assert s == [s[0]] + s[1..];
      if !Less(ord, x, s[0]) {
        InsertMultiset(x, s[1..], ord);
      }
    }
  }

  /** Inserting into a sorted sequence keeps it sorted. */
  lemma {:induction false} InsertSorted(x: Item, s: seq<Item>, ord: Order)
    requires ValidItem(x) && ValidItems(s) && SortedBy(s, ord)
    ensures SortedBy(Insert(x, s, ord), ord)
    decreases |s|
  {
    if |s| == 0 {
    } else if Less(ord, x, s[0]) {
      InsertBeforeHead(x, s, ord);
    } else {
      var rest := s[1..];
      assert ValidItems(rest) by { forall y | y in rest ensures y in s { } }
      assert SortedBy(rest, ord) by {
        forall i, j | 0 <= i < j < |rest| ensures !Less(ord, rest[j], rest[i]) {
          assert rest[j] == s[j + 1] && rest[i] == s[i + 1];
        }
      }
      InsertSorted(x, rest, ord);
      InsertMultiset(x, rest, ord);
      InsertAfterHead(x, s, Insert(x, rest, ord), ord);
    }
  }

  /** x goes strictly before the head of a sorted s, so x + s is sorted. */
  lemma InsertBeforeHead(x: Item, s: seq<Item>, ord: Order)
    requires ValidItem(x) && ValidItems(s) && SortedBy(s, ord)
    requires |s| > 0 && Less(ord, x, s[0])
    ensures SortedBy([x] + s, ord)
  {
    var r := [x] + s;
    forall i, j | 0 <= i < j < |r| ensures !Less(ord, r[j], r[i]) {
      if i == 0 {
        NotBeforeInserted(x, s, j - 1, ord);
      } else {
        assert r[j] == s[j - 1] && r[i] == s[i - 1];
      }
    }
  }

  lemma NotBeforeInserted(x: Item, s: seq<Item>, k: int, ord: Order)
    requires ValidItem(x) && ValidItems(s) && SortedBy(s, ord)
    requires 0 <= k < |s| && Less(ord, x, s[0])
    ensures !Less(ord, s[k], x)
  {
    var e := s[k];
    assert e in s && s[0] in s;
    if Less(ord, e, x) {
      LessTransitive(ord, e, x, s[0]);
      assert false;
    }
  }

  /**
   * The head of a sorted s does not go after x; if t is a sorted arrangement
   * of the rest of s with x, the head followed by t is sorted.
   */
  lemma InsertAfterHead(x: Item, s: seq<Item>, t: seq<Item>, ord: Order)
    requires |s| > 0 && SortedBy(s, ord) && !Less(ord, x, s[0])
    requires SortedBy(t, ord) && multiset(t) == multiset(s[1..]) + multiset{x}
    ensures SortedBy([s[0]] + t, ord)
  {
    var r := [s[0]] + t;
    forall i, j | 0 <= i < j < |r| ensures !Less(ord, r[j], r[i]) {
      if i == 0 {
        HeadNotAfter(x, s, t[j - 1], ord);
      } else {
        assert r[j] == t[j - 1] && r[i] == t[i - 1];
      }
    }
  }

  lemma HeadNotAfter(x: Item, s: seq<Item>, e: Item, ord: Order)
    requires |s| > 0 && SortedBy(s, ord) && !Less(ord, x, s[0])
    requires e in multiset(s[1..]) + multiset{x}
    ensures !Less(ord, e, s[0])
  {
    if e != x {
      assert e in s[1..];
      var k :| 0 <= k < |s[1..]| && s[1..][k] == e;
      assert s[k + 1] == e;
    }
  }

  /** An element that goes strictly before nothing in s is inserted at the end. */
  lemma {:induction false} InsertAtEnd(x: Item, s: seq<Item>, ord: Order)
    requires forall j | 0 <= j < |s| :: !Less(ord, x, s[j])
    ensures Insert(x, s, ord) == s + [x]
    decreases |s|
  {
    if |s| > 0 {
      assert !Less(ord, x, s[0]);
      InsertAtEnd(x, s[1..], ord);
      assert [s[0]] + (s[1..] + [x]) == s + [x];
    }
  }

  /** Sorting a sequence that is already sorted leaves it as it is. */
  lemma {:induction false} SortSorted(s: seq<Item>, ord: Order)
    requires ValidItems(s) && SortedBy(s, ord)
    ensures Sort(s, ord) == s
    decreases |s|
  {
    if |s| > 0 {
      var n := |s| - 1;
      SliceValid(s, 0, n);
      SortedFront(s, ord);
      SortSorted(s[..n], ord);
      LastGoesLast(s, ord);
      assert s[..n] + [s[n]] == s;
    }
  }

  lemma SortedFront(s: seq<Item>, ord: Order)
    requires |s| > 0 && SortedBy(s, ord)
    ensures SortedBy(s[..|s| - 1], ord)
  {
    var front := s[..|s| - 1];
    forall i, j | 0 <= i < j < |front| ensures !Less(ord, front[j], front[i]) {
      assert !Less(ord, s[j], s[i]);
    }
  }

  lemma LastGoesLast(s: seq<Item>, ord: Order)
    requires |s| > 0 && SortedBy(s, ord)
    ensures Insert(s[|s| - 1], s[..|s| - 1], ord) == s[..|s| - 1] + [s[|s| - 1]]
  {
    var n := |s| - 1;
    forall j | 0 <= j < n ensures !Less(ord, s[n], s[..n][j]) {
      assert !Less(ord, s[n], s[j]);
    }
    InsertAtEnd(s[n], s[..n], ord);
  }
}
