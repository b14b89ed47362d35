/** Sorting of key lists, as far as picking a median needs it. */
module KeySort {

  ghost predicate Ascending(s: seq<nat>) {
    forall i, j :: 0 <= i < j < |s| ==> s[i] <= s[j]
  }

  ghost predicate NoDup(s: seq<nat>) {
    forall i, j :: 0 <= i < j < |s| ==> s[i] != s[j]
  }

  function InsertSorted(s: seq<nat>, x: nat): (r: seq<nat>)
    ensures multiset(r) == multiset(s) + multiset{x}
  {
    if s == [] || x <= s[0] then [x] + s
    else
      assert s == [s[0]] + s[1..];
      [s[0]] + InsertSorted(s[1..], x)
  }

  function Sort(s: seq<nat>): (r: seq<nat>)
    ensures multiset(r) == multiset(s) && |r| == |s|
  {
    if s == [] then []
    else
      assert s == s[..|s| - 1] + [s[|s| - 1]];
      var r := InsertSorted(Sort(s[..|s| - 1]), s[|s| - 1]);
      assert |r| == |multiset(r)| == |multiset(s)| == |s|;
      r
  }

  lemma {:induction false} InsertSortedAscending(s: seq<nat>, x: nat)
    requires Ascending(s)
    ensures Ascending(InsertSorted(s, x))
  {
    if s != [] && s[0] < x {
      InsertSortedAscending(s[1..], x);
      var r := InsertSorted(s[1..], x);
      forall i | 0 <= i < |r| ensures s[0] <= r[i] {
        assert r[i] in multiset(r);
        assert r[i] in s[1..] || r[i] == x;
      }
    }
  }

  lemma {:induction false} SortAscending(s: seq<nat>)
    ensures Ascending(Sort(s))
  {
    if s != [] {
      SortAscending(s[..|s| - 1]);
      InsertSortedAscending(Sort(s[..|s| - 1]), s[|s| - 1]);
    }
  }

  lemma SameElements(s: seq<nat>, r: seq<nat>, x: nat)
    requires multiset(s) == multiset(r)
    ensures x in s <==> x in r
  {
    assert x in s <==> x in multiset(s);
    assert x in r <==> x in multiset(r);
  }

  lemma {:induction false} NoDupIsMultiset(s: seq<nat>)
    ensures NoDup(s) <==> forall x :: x in s ==> multiset(s)[x] == 1
  {
    if s != [] {
      var t, y := s[..|s| - 1], s[|s| - 1];
      assert s == t + [y];
      NoDupIsMultiset(t);
      if NoDup(s) {
        assert forall i :: 0 <= i < |t| ==> t[i] == s[i];
        assert y !in t;
        assert multiset(t)[y] == 0;
        assert forall x :: x in s ==> multiset(s)[x] == 1;
      } else if forall x :: x in s ==> multiset(s)[x] == 1 {
        assert multiset(s)[y] == 1;
        assert multiset(t)[y] == 0;
        assert y !in multiset(t) && y !in t;
        forall x | x in t ensures multiset(t)[x] == 1 {
          assert x in s;
        }
      }
    }
  }

  lemma SortNoDup(s: seq<nat>)
    requires NoDup(s)
    ensures NoDup(Sort(s))
  {
    NoDupIsMultiset(s);
    NoDupIsMultiset(Sort(s));
    forall x | x in Sort(s) ensures multiset(Sort(s))[x] == 1 {
      SameElements(s, Sort(s), x);
    }
  }

  /** The upper median of a list of distinct keys: whichever side of it `k` falls on,
      some other key of the list falls on the opposite side. */
  lemma MedianSeparates(others: seq<nat>, k: nat) returns (c: nat)
    requires others != [] && NoDup(others + [k])
    ensures var all := Sort(others + [k]);
            var median := all[|all| / 2];
            && c in others
            && (k < median ==> median <= c)
            && (median <= k ==> c < median)
  {
    var list := others + [k];
    var all := Sort(list);
    var median := all[|all| / 2];
    SortAscending(list);
    SortNoDup(list);
    c := if k < median then median else all[0];
    SameElements(list, all, c);
    assert all[0] < median;
  }

  function Elements(s: seq<nat>): set<nat> {
    set x | x in s
  }

  lemma {:induction false} ElementsCount(s: seq<nat>)
    requires NoDup(s)
    ensures |Elements(s)| == |s|
  {
    if s != [] {
      var t, y := s[..|s| - 1], s[|s| - 1];
      ElementsCount(t);
      assert s == t + [y];
      assert Elements(s) == Elements(t) + {y};
      assert y !in t;
    }
  }

  /** Half of the keys, rounded down, lie below the upper median. */
  lemma MedianHalves(s: seq<nat>)
    requires s != [] && NoDup(s)
    ensures var median := Sort(s)[|s| / 2]; median in s && |set x | x in s && x < median| == |s| / 2
  {
    var all := Sort(s);
    SortAscending(s);
    SortNoDup(s);
    forall x ensures x in s <==> x in all {
      SameElements(s, all, x);
    }
    SameRank(s, all, |s| / 2);
  }

  lemma SameRank(s: seq<nat>, all: seq<nat>, h: nat)
    requires Ascending(all) && NoDup(all) && h < |all| && forall x :: x in s <==> x in all
    ensures all[h] in s && |set x | x in s && x < all[h]| == h
  {
    hide Ascending, NoDup;
    RankOf(all, h);
    assert (set x | x in s && x < all[h]) == (set x | x in all && x < all[h]);
  }

  lemma RankOf(all: seq<nat>, h: nat)
    requires Ascending(all) && NoDup(all) && h < |all|
    ensures |set x | x in all && x < all[h]| == h
  {
    ElementsCount(all[..h]);
    PrefixBelow(all, h);
    assert (set x | x in all && x < all[h]) == Elements(all[..h]);
  }

  lemma PrefixBelow(all: seq<nat>, h: nat)
    requires Ascending(all) && NoDup(all) && h < |all|
    ensures forall x :: x in all && x < all[h] <==> x in all[..h]
  {
    forall x | x in all && x < all[h] ensures x in all[..h] {
      var i :| 0 <= i < |all| && all[i] == x;
      assert all[..h][i] == x;
    }
  }
}
