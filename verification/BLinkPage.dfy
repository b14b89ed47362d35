/** What the B-link tree does inside one page: routing and insertion in an internal page, search,
    store and delete in a leaf page. */
module BLinkPage {

  type Key = nat
  type Value = nat
  type Addr = nat

  type Store = map<Key, Value>

  const NULL_VALUE: Value := 0

  /** The pairs with keys from `lo` up to but not including `hi`. */
  function Part(m: Store, lo: Key, hi: Key): Store {
    map k | k in m && lo <= k < hi :: m[k]
  }

  // ----- internal pages -----

  /** A separator and the page that holds the keys from it up to the next separator. */
  datatype Sep = Sep(key: Key, ptr: Addr)

  ghost predicate Sorted(seps: seq<Sep>) {
    forall i, j :: 0 <= i < j < |seps| ==> seps[i].key < seps[j].key
  }

  /** The first index at or after `i` whose separator is above `k`, or the length. */
  function Above(seps: seq<Sep>, k: Key, i: nat): (n: nat)
    requires i <= |seps|
    ensures i <= n <= |seps| && (n < |seps| ==> k < seps[n].key)
    ensures forall x :: i <= x < n ==> seps[x].key <= k
    decreases |seps| - i
  {
    if i == |seps| || k < seps[i].key then i else Above(seps, k, i + 1)
  }

  /** The child that a page sends `k` to. */
  function Route(leftmost: Addr, seps: seq<Sep>, k: Key): Addr {
    var n := Above(seps, k, 0);
    if n == 0 then leftmost else seps[n - 1].ptr
  }

  /** The first index whose separator is not below `k`, or the length. */
  function NotBelow(seps: seq<Sep>, k: Key): (n: nat)
    ensures n <= |seps| && (n < |seps| ==> k <= seps[n].key)
    ensures forall x :: 0 <= x < n ==> seps[x].key < k
  {
    if seps == [] || k <= seps[0].key then 0 else 1 + NotBelow(seps[1..], k)
  }

  /** Adds a separator in order, or redirects it if it is there already. */
  function InsertSep(seps: seq<Sep>, k: Key, ptr: Addr): seq<Sep> {
    var n := NotBelow(seps, k);
    if n < |seps| && seps[n].key == k then seps[n := Sep(k, ptr)]
    else seps[..n] + [Sep(k, ptr)] + seps[n..]
  }

  lemma NotBelowIs(seps: seq<Sep>, k: Key, n: nat)
    requires Sorted(seps) && n <= |seps|
    requires 0 < n ==> seps[n - 1].key < k
    requires n < |seps| ==> k <= seps[n].key
    ensures NotBelow(seps, k) == n
  {
  }

  lemma InsertSepSorted(seps: seq<Sep>, k: Key, ptr: Addr)
    requires Sorted(seps)
    ensures Sorted(InsertSep(seps, k, ptr))
  {
    var n := NotBelow(seps, k);
    if n < |seps| && seps[n].key != k {
      forall x | n <= x < |seps| ensures k < seps[x].key {
        assert seps[n].key <= seps[x].key;
      }
    }
  }

  /** The new separator is there, and the ones with other keys are the old ones. */
  lemma InsertSepMembers(seps: seq<Sep>, k: Key, ptr: Addr)
    requires Sorted(seps)
    ensures Sep(k, ptr) in InsertSep(seps, k, ptr)
    ensures forall s :: s in InsertSep(seps, k, ptr) ==> s in seps || s == Sep(k, ptr)
    ensures forall s :: s in seps && s.key != k ==> s in InsertSep(seps, k, ptr)
  {
    hide Sorted;
    var n, r := NotBelow(seps, k), InsertSep(seps, k, ptr);
    assert r[n] == Sep(k, ptr);
    if n < |seps| && seps[n].key == k {
      forall s | s in seps && s.key != k ensures s in r {
        var i :| 0 <= i < |seps| && seps[i] == s;
        assert r[i] == s;
      }
    } else {
      assert seps == seps[..n] + seps[n..];
    }
  }

  lemma InsertSepLength(seps: seq<Sep>, k: Key, ptr: Addr)
    ensures 1 <= |InsertSep(seps, k, ptr)| <= |seps| + 1
  {
  }

  /** The scan of an internal page for the child to descend to. */
  method InternalPageSearch(leftmost: Addr, records: array<Sep>, cnt: nat, k: Key) returns (next: Addr)
    requires 1 <= cnt <= records.Length
    ensures next == Route(leftmost, records[..cnt], k)
  {
    if k < records[0].key {
      return leftmost;
    }
    ghost var seps := records[..cnt];
    assert Above(seps, k, 0) == Above(seps, k, 1);
    for i := 1 to cnt
      invariant Above(seps, k, 0) == Above(seps, k, i)
    {
      if k < records[i].key {
        return records[i - 1].ptr;
      }
    }
    next := records[cnt - 1].ptr;
  }

  /** Scans down for the place of `k`; `found` says that its separator is there already. */
  method FindPlace(records: array<Sep>, cnt: nat, k: Key) returns (place: nat, found: bool)
    requires cnt <= records.Length && Sorted(records[..cnt])
    ensures place == NotBelow(records[..cnt], k)
    ensures found <==> place < cnt && records[place].key == k
  {
    ghost var seps := records[..cnt];
    var i: int := cnt - 1;
    while 0 <= i
      invariant -1 <= i < cnt
      invariant i + 1 < cnt ==> k < seps[i + 1].key
    {
      if records[i].key == k {
        assert 0 < i ==> seps[i - 1].key < seps[i].key;
        NotBelowIs(seps, k, i);
        return i, true;
      }
      if records[i].key < k {
        NotBelowIs(seps, k, i + 1);
        return i + 1, false;
      }
      i := i - 1;
    }
    NotBelowIs(seps, k, 0);
    place, found := 0, false;
  }

  /** Moves the records from `place` on up by one. */
  method ShiftUp(records: array<Sep>, cnt: nat, place: nat)
    requires place <= cnt < records.Length
    modifies records
    ensures records[..place] == old(records[..place])
    ensures records[place + 1..cnt + 1] == old(records[place..cnt])
  {
    var j := cnt;
    while place < j
      invariant place <= j <= cnt
      invariant forall x :: 0 <= x < j ==> records[x] == old(records[x])
      invariant forall x :: j < x <= cnt ==> records[x] == old(records[x - 1])
    {
      records[j] := records[j - 1];
      j := j - 1;
    }
  }

  /** Inserts a separator into the sorted records of a page with room, shifting the larger ones up. */
  method InternalPageStore(records: array<Sep>, cnt: nat, k: Key, ptr: Addr) returns (cnt': nat)
    requires cnt < records.Length && Sorted(records[..cnt])
    modifies records
    ensures cnt <= cnt' <= cnt + 1 && records[..cnt'] == InsertSep(old(records[..cnt]), k, ptr)
  {
    hide Sorted, NotBelow;
    ghost var seps := records[..cnt];
    var place, found := FindPlace(records, cnt, k);
    if found {
      records[place] := records[place].(ptr := ptr);
      return cnt;
    }
    assert seps[..place] == records[..place] && seps[place..] == records[place..cnt];
    ShiftUp(records, cnt, place);
    records[place] := Sep(k, ptr);
    cnt' := cnt + 1;
    assert records[..cnt'] == records[..place] + [records[place]] + records[place + 1..cnt'];
  }

  /** Splits a full page: the upper half of the records moves to the sibling, and the record in the
      middle goes up, its child becoming the sibling's leftmost one. */
  method InternalPageSplit(records: array<Sep>, sibling: array<Sep>)
    returns (splitKey: Key, leftmost: Addr, cnt: nat, siblingCnt: nat)
    requires 3 <= records.Length == sibling.Length && records != sibling
    modifies sibling
    ensures var seps, h := records[..], records.Length / 2;
            && splitKey == seps[h].key && leftmost == seps[h].ptr
            && cnt <= records.Length && siblingCnt <= sibling.Length
            && records[..cnt] == seps[..h] && sibling[..siblingCnt] == seps[h + 1..]
  {
    var m := records.Length / 2;
    splitKey, leftmost := records[m].key, records[m].ptr;
    for i := m + 1 to records.Length
      invariant forall x :: m < x < i ==> sibling[x - m - 1] == records[x]
    {
      sibling[i - m - 1] := records[i];
    }
    cnt, siblingCnt := m, records.Length - m - 1;
  }

  // ----- leaf pages -----

  /** A record; a null value means that the slot is free. */
  datatype Slot = Slot(key: Key, value: Value)

  ghost predicate DistinctSlots(slots: seq<Slot>) {
    forall i, j :: 0 <= i < |slots| && 0 <= j < |slots| && i != j && slots[i].value != NULL_VALUE && slots[j].value != NULL_VALUE ==>
      slots[i].key != slots[j].key
  }

  function Used(slots: seq<Slot>): (n: nat)
    ensures n <= |slots|
  {
    if slots == [] then 0 else Used(slots[..|slots| - 1]) + (if slots[|slots| - 1].value != NULL_VALUE then 1 else 0)
  }

  ghost function SlotKeys(slots: seq<Slot>): set<Key> {
    set i | 0 <= i < |slots| && slots[i].value != NULL_VALUE :: slots[i].key
  }

  ghost function SlotOf(slots: seq<Slot>, k: Key): (i: nat)
    requires k in SlotKeys(slots)
    ensures i < |slots| && slots[i].key == k && slots[i].value != NULL_VALUE
  {
    var i :| 0 <= i < |slots| && slots[i].value != NULL_VALUE && slots[i].key == k;
    i
  }

  /** The map that the used slots stand for. */
  ghost function SlotMap(slots: seq<Slot>): (m: map<Key, Value>)
    ensures m.Keys == SlotKeys(slots)
  {
    map k | k in SlotKeys(slots) :: slots[SlotOf(slots, k)].value
  }

  lemma SlotMapAt(slots: seq<Slot>, i: nat)
    requires DistinctSlots(slots) && i < |slots| && slots[i].value != NULL_VALUE
    ensures slots[i].key in SlotMap(slots) && SlotMap(slots)[slots[i].key] == slots[i].value
  {
    assert slots[i].key in SlotKeys(slots);
    assert SlotOf(slots, slots[i].key) == i;
  }

  lemma StoreKeys(slots: seq<Slot>, i: nat, k: Key, v: Value)
    requires i < |slots| && v != NULL_VALUE
    requires slots[i].value != NULL_VALUE ==> slots[i].key == k
    ensures SlotKeys(slots[i := Slot(k, v)]) == SlotKeys(slots) + {k}
  {
    var t := slots[i := Slot(k, v)];
    forall q ensures q in SlotKeys(t) <==> q in SlotKeys(slots) + {k} {
      if q in SlotKeys(slots) && q != k {
        var x := SlotOf(slots, q);
        assert t[x] == slots[x];
      }
      assert t[i].key == k;
    }
  }

  /** Writing a pair into the slot of its key, or into a free slot when the key is absent. */
  lemma SlotMapStore(slots: seq<Slot>, i: nat, k: Key, v: Value)
    requires DistinctSlots(slots) && i < |slots| && v != NULL_VALUE
    requires if slots[i].value != NULL_VALUE then slots[i].key == k else k !in SlotKeys(slots)
    ensures var t := slots[i := Slot(k, v)]; DistinctSlots(t) && SlotMap(t) == SlotMap(slots)[k := v]
  {
    var t, m := slots[i := Slot(k, v)], SlotMap(slots);
    StoreDistinct(slots, i, k, v);
    StoreKeys(slots, i, k, v);
    hide DistinctSlots, SlotKeys, SlotMap;
    forall q | q in SlotKeys(t) ensures SlotMap(t)[q] == m[k := v][q] {
      SlotMapAt(t, SlotOf(t, q));
      if q == k {
        SlotMapAt(t, i);
      } else {
        SlotMapAt(slots, SlotOf(t, q));
      }
    }
  }

  lemma StoreDistinct(slots: seq<Slot>, i: nat, k: Key, v: Value)
    requires DistinctSlots(slots) && i < |slots|
    requires if slots[i].value != NULL_VALUE then slots[i].key == k else k !in SlotKeys(slots)
    ensures DistinctSlots(slots[i := Slot(k, v)])
  {
    forall x | 0 <= x < |slots| && x != i && slots[x].value != NULL_VALUE ensures slots[x].key != k {
      assert slots[x].key in SlotKeys(slots);
    }
  }

  lemma DeleteKeys(slots: seq<Slot>, i: nat)
    requires DistinctSlots(slots) && i < |slots| && slots[i].value != NULL_VALUE
    ensures SlotKeys(slots[i := slots[i].(value := NULL_VALUE)]) == SlotKeys(slots) - {slots[i].key}
  {
    var t := slots[i := slots[i].(value := NULL_VALUE)];
    forall q ensures q in SlotKeys(t) <==> q in SlotKeys(slots) - {slots[i].key} {
      if q in SlotKeys(slots) {
        var x := SlotOf(slots, q);
        assert x != i ==> t[x] == slots[x];
      }
    }
  }

  lemma SlotMapDelete(slots: seq<Slot>, i: nat)
    requires DistinctSlots(slots) && i < |slots| && slots[i].value != NULL_VALUE
    ensures var t := slots[i := slots[i].(value := NULL_VALUE)];
            DistinctSlots(t) && SlotMap(t) == SlotMap(slots) - {slots[i].key}
  {
    var k, m := slots[i].key, SlotMap(slots);
    var t := slots[i := slots[i].(value := NULL_VALUE)];
    DeleteKeys(slots, i);
    assert DistinctSlots(t);
    hide DistinctSlots, SlotKeys, SlotMap;
    forall q | q in SlotKeys(t) ensures SlotMap(t)[q] == m[q] {
      SlotMapAt(t, SlotOf(t, q));
      SlotMapAt(slots, SlotOf(t, q));
    }
  }

  method LeafPageSearch(records: array<Slot>, k: Key) returns (val: Value)
    requires DistinctSlots(records[..])
    ensures val == if k in SlotMap(records[..]) then SlotMap(records[..])[k] else NULL_VALUE
  {
    ghost var slots := records[..];
    for i := 0 to records.Length
      invariant forall x :: 0 <= x < i ==> slots[x].key != k || slots[x].value == NULL_VALUE
    {
      if records[i].key == k && records[i].value != NULL_VALUE {
        SlotMapAt(slots, i);
        return records[i].value;
      }
    }
    assert k !in SlotKeys(slots);
    val := NULL_VALUE;
  }

  lemma UsedPrefix(slots: seq<Slot>, i: nat)
    requires i < |slots|
    ensures Used(slots[..i + 1]) == Used(slots[..i]) + (if slots[i].value != NULL_VALUE then 1 else 0)
  {
    assert slots[..i + 1][..i] == slots[..i];
  }

  /** Updates the slot of `k`, or takes the first free one. The count returned is the number of
      records when the key is new; for an update it stops at the slot it found. */
  method LeafPageStore(records: array<Slot>, k: Key, v: Value) returns (cnt: nat, updated: bool)
    requires DistinctSlots(records[..]) && v != NULL_VALUE && Used(records[..]) < records.Length
    modifies records
    ensures DistinctSlots(records[..]) && SlotMap(records[..]) == old(SlotMap(records[..]))[k := v]
    ensures updated <==> k in old(SlotMap(records[..]))
    ensures if updated then cnt <= old(Used(records[..])) else cnt == old(Used(records[..])) + 1
    ensures updated ==> exists i :: 0 <= i < records.Length && old(records[..])[i].key == k &&
                                     old(records[..])[i].value != NULL_VALUE && cnt == Used(old(records[..])[..i + 1])
  {
    ghost var slots := records[..];
    cnt := 0;
    var empty: int := -1;
    for i := 0 to records.Length
      invariant cnt == Used(slots[..i]) && records[..] == slots && -1 <= empty < i
      invariant forall x :: 0 <= x < i ==> slots[x].key != k || slots[x].value == NULL_VALUE
      invariant empty == -1 ==> Used(slots[..i]) == i
      invariant empty != -1 ==> slots[empty].value == NULL_VALUE
    {
      UsedPrefix(slots, i);
      if records[i].value != NULL_VALUE {
        cnt := cnt + 1;
        if records[i].key == k {
          SlotMapAt(slots, i);
          SlotMapStore(slots, i, k, v);
          UsedMono(slots, i + 1);
          records[i] := Slot(k, v);
          return cnt, true;
        }
      } else if empty == -1 {
        empty := i;
      }
    }
    assert slots[..records.Length] == slots;
    assert k !in SlotKeys(slots);
    SlotMapStore(slots, empty, k, v);
    records[empty] := Slot(k, v);
    cnt, updated := cnt + 1, false;
  }

  lemma {:induction false} UsedMono(slots: seq<Slot>, i: nat)
    requires i <= |slots|
    ensures Used(slots[..i]) <= Used(slots)
    decreases |slots| - i
  {
    if i == |slots| {
      assert slots[..i] == slots;
    } else {
      UsedPrefix(slots, i);
      UsedMono(slots, i + 1);
    }
  }

  method LeafPageDelete(records: array<Slot>, k: Key) returns (found: bool)
    requires DistinctSlots(records[..])
    modifies records
    ensures DistinctSlots(records[..]) && SlotMap(records[..]) == old(SlotMap(records[..])) - {k}
    ensures found <==> k in old(SlotMap(records[..]))
  {
    ghost var slots := records[..];
    for i := 0 to records.Length
      invariant records[..] == slots
      invariant forall x :: 0 <= x < i ==> slots[x].key != k || slots[x].value == NULL_VALUE
    {
      if records[i].key == k && records[i].value != NULL_VALUE {
        SlotMapAt(slots, i);
        SlotMapDelete(slots, i);
        records[i] := records[i].(value := NULL_VALUE);
        return true;
      }
    }
    assert k !in SlotKeys(slots);
    assert SlotMap(slots) - {k} == SlotMap(slots);
    found := false;
  }

  // ----- splitting a leaf page -----

  /** Full and in key order, as the page is once its records are sorted. */
  ghost predicate FullAscending(slots: seq<Slot>) {
    && (forall i :: 0 <= i < |slots| ==> slots[i].value != NULL_VALUE)
    && forall i, j :: 0 <= i < j < |slots| ==> slots[i].key < slots[j].key
  }

  /** `t` holds the slots from `lo` to `hi` of `slots`, shifted down by `d`, and is free elsewhere. */
  ghost predicate Shifted(slots: seq<Slot>, t: seq<Slot>, lo: nat, hi: nat, d: nat) {
    && lo <= hi <= |slots| && d <= lo && hi - d <= |t|
    && (forall i :: lo <= i < hi ==> t[i - d] == slots[i])
    && forall i :: 0 <= i < |t| && !(lo <= i + d < hi) ==> t[i].value == NULL_VALUE
  }

  lemma ShiftedKeys(slots: seq<Slot>, t: seq<Slot>, lo: nat, hi: nat, d: nat)
    requires FullAscending(slots) && Shifted(slots, t, lo, hi, d)
    ensures forall k :: k in SlotKeys(t) <==> exists i :: lo <= i < hi && slots[i].key == k
    ensures DistinctSlots(t)
  {
    forall k | exists i :: lo <= i < hi && slots[i].key == k ensures k in SlotKeys(t) {
      var i :| lo <= i < hi && slots[i].key == k;
      assert t[i - d].key == k && t[i - d].value != NULL_VALUE;
    }
    forall k | k in SlotKeys(t) ensures exists i :: lo <= i < hi && slots[i].key == k {
      var i := SlotOf(t, k);
      assert slots[i + d].key == k;
    }
    forall i, j | 0 <= i < j < |t| && t[i].value != NULL_VALUE && t[j].value != NULL_VALUE ensures t[i].key != t[j].key {
      assert t[i + d - d] == slots[i + d] && t[j + d - d] == slots[j + d];
    }
  }

  lemma ShiftedRange(slots: seq<Slot>, t: seq<Slot>, lo: nat, hi: nat, d: nat, from: Key, to: Key)
    requires FullAscending(slots) && Shifted(slots, t, lo, hi, d)
    requires forall i :: 0 <= i < |slots| ==> (from <= slots[i].key < to <==> lo <= i < hi)
    ensures forall k :: k in SlotKeys(t) <==> k in SlotKeys(slots) && from <= k < to
    ensures DistinctSlots(t) && DistinctSlots(slots)
  {
    ShiftedKeys(slots, t, lo, hi, d);
    forall k ensures k in SlotKeys(t) <==> k in SlotKeys(slots) && from <= k < to {
      if k in SlotKeys(slots) && from <= k < to {
        assert slots[SlotOf(slots, k)].key == k;
      }
    }
  }

  /** The slots from `lo` to `hi` hold the pairs of that key range. */
  lemma ShiftedMap(slots: seq<Slot>, t: seq<Slot>, lo: nat, hi: nat, d: nat, from: Key, to: Key)
    requires FullAscending(slots) && Shifted(slots, t, lo, hi, d)
    requires forall i :: 0 <= i < |slots| ==> (from <= slots[i].key < to <==> lo <= i < hi)
    ensures DistinctSlots(t) && SlotMap(t) == Part(SlotMap(slots), from, to)
  {
    hide DistinctSlots, SlotKeys, SlotMap;
    ShiftedRange(slots, t, lo, hi, d, from, to);
    assert SlotMap(t).Keys == Part(SlotMap(slots), from, to).Keys;
    forall k | k in SlotMap(t) ensures SlotMap(t)[k] == SlotMap(slots)[k] {
      ShiftedKeys(slots, t, lo, hi, d);
      var i :| lo <= i < hi && slots[i].key == k;
      SlotMapAt(slots, i);
      SlotMapAt(t, i - d);
    }
  }

  lemma {:induction false} UsedIsCount(slots: seq<Slot>)
    requires DistinctSlots(slots)
    ensures Used(slots) == |SlotKeys(slots)|
  {
    if slots != [] {
      var n := |slots| - 1;
      UsedIsCount(slots[..n]);
      KeysGrow(slots, n);
    }
  }

  lemma KeysGrow(slots: seq<Slot>, n: nat)
    requires DistinctSlots(slots) && n + 1 == |slots|
    ensures DistinctSlots(slots[..n])
    ensures var x := slots[n];
            if x.value == NULL_VALUE then SlotKeys(slots) == SlotKeys(slots[..n])
            else SlotKeys(slots) == SlotKeys(slots[..n]) + {x.key} && x.key !in SlotKeys(slots[..n])
  {
    var t := slots[..n];
    forall q ensures q in SlotKeys(slots) <==> q in SlotKeys(t) || (slots[n].value != NULL_VALUE && q == slots[n].key) {
      if q in SlotKeys(slots) {
        var i := SlotOf(slots, q);
        assert i < n ==> t[i] == slots[i];
      }
      if q in SlotKeys(t) {
        var i := SlotOf(t, q);
        assert slots[i] == t[i];
      }
    }
  }

  /** With the records in key order the upper half moves to the sibling. */
  method MoveUpperHalf(records: array<Slot>, sibling: array<Slot>, lo: Key, hi: Key) returns (splitKey: Key)
    requires 2 <= records.Length == sibling.Length && records != sibling
    requires FullAscending(records[..]) && forall i :: 0 <= i < records.Length ==> lo <= records[i].key < hi
    requires forall i :: 0 <= i < sibling.Length ==> sibling[i].value == NULL_VALUE
    modifies records, sibling
    ensures splitKey in old(SlotMap(records[..])) && lo < splitKey < hi
    ensures DistinctSlots(records[..]) && SlotMap(records[..]) == Part(old(SlotMap(records[..])), lo, splitKey)
    ensures DistinctSlots(sibling[..]) && SlotMap(sibling[..]) == Part(old(SlotMap(records[..])), splitKey, hi)
    ensures |SlotMap(records[..])| == |old(SlotMap(records[..]))| / 2
  {
    ghost var slots := records[..];
    var m := records.Length / 2;
    splitKey := records[m].key;
    SplitBounds(slots, m, lo, hi);
    for i := m to records.Length
      invariant records[..m] == slots[..m] && records[i..] == slots[i..]
      invariant forall x :: m <= x < i ==> records[x].value == NULL_VALUE && sibling[x - m] == slots[x]
      invariant forall x :: i - m <= x < sibling.Length ==> sibling[x].value == NULL_VALUE
    {
      sibling[i - m] := records[i];
      records[i] := Slot(0, NULL_VALUE);
    }
    assert Shifted(slots, records[..], 0, m, 0);
    assert Shifted(slots, sibling[..], m, |slots|, m);
    ShiftedMap(slots, records[..], 0, m, 0, lo, splitKey);
    ShiftedMap(slots, sibling[..], m, |slots|, m, splitKey, hi);
    HalfCount(slots, records[..], m);
  }

  /** Splits a full page: sorts its records by key and moves the upper half to the sibling. */
  method LeafPageSplit(records: array<Slot>, sibling: array<Slot>, lo: Key, hi: Key) returns (splitKey: Key)
    requires 2 <= records.Length == sibling.Length && records != sibling
    requires DistinctSlots(records[..]) && AllUsed(records[..]) && forall i :: 0 <= i < records.Length ==> lo <= records[i].key < hi
    requires forall i :: 0 <= i < sibling.Length ==> sibling[i].value == NULL_VALUE
    modifies records, sibling
    ensures splitKey in old(SlotMap(records[..])) && lo < splitKey < hi
    ensures DistinctSlots(records[..]) && SlotMap(records[..]) == Part(old(SlotMap(records[..])), lo, splitKey)
    ensures DistinctSlots(sibling[..]) && SlotMap(sibling[..]) == Part(old(SlotMap(records[..])), splitKey, hi)
    ensures |SlotMap(records[..])| == |old(SlotMap(records[..]))| / 2
  {
    hide DistinctSlots, SlotMap, FullAscending;
    ghost var before := records[..];
    SortRecords(records);
    SameRange(before, records[..], lo, hi);
    splitKey := MoveUpperHalf(records, sibling, lo, hi);
  }

  // ----- sorting a leaf page -----

  ghost predicate AllUsed(slots: seq<Slot>) {
    forall i :: 0 <= i < |slots| ==> slots[i].value != NULL_VALUE
  }

  /** Keys of the same slots in another order lie in the same range. */
  lemma SameRange(x: seq<Slot>, y: seq<Slot>, lo: Key, hi: Key)
    requires AllUsed(x) && SlotMap(x) == SlotMap(y) && FullAscending(y) && forall i :: 0 <= i < |x| ==> lo <= x[i].key < hi
    ensures forall i :: 0 <= i < |y| ==> lo <= y[i].key < hi
  {
    forall i | 0 <= i < |y| ensures lo <= y[i].key < hi {
      assert y[i].key in SlotMap(y);
      assert y[i].key in SlotKeys(x);
      assert x[SlotOf(x, y[i].key)].key == y[i].key;
    }
  }

  /** Exchanging two slots changes neither the map nor that keys are distinct. */
  lemma Exchanged(x: seq<Slot>, y: seq<Slot>, i: nat, j: nat)
    requires i < |x| && j < |x| && y == x[i := x[j]][j := x[i]] && DistinctSlots(x) && AllUsed(x)
    ensures DistinctSlots(y) && AllUsed(y) && SlotMap(y) == SlotMap(x)
  {
    var from := seq<nat>(|x|, n => if n == i then j else if n == j then i else n);
    assert forall n :: 0 <= n < |x| ==> from[n] < |x| && y[n] == x[from[n]] && x[n] == y[from[n]];
    Rearranged(x, y, from);
  }

  lemma Rearranged(x: seq<Slot>, y: seq<Slot>, from: seq<nat>)
    requires |x| == |y| == |from| && DistinctSlots(x) && AllUsed(x)
    requires forall n :: 0 <= n < |x| ==> from[n] < |x| && y[n] == x[from[n]] && x[n] == y[from[n]]
    ensures DistinctSlots(y) && AllUsed(y) && SlotMap(y) == SlotMap(x)
  {
    forall m, n | 0 <= m < n < |y| ensures y[m].key != y[n].key {
      assert y[m] == x[from[m]] && y[n] == x[from[n]];
      assert x[m] == y[from[m]] && x[n] == y[from[n]] && x[m].key != x[n].key;
    }
    forall k ensures k in SlotKeys(x) <==> k in SlotKeys(y) {
      if k in SlotKeys(x) {
        assert y[from[SlotOf(x, k)]].key == k;
      }
      if k in SlotKeys(y) {
        assert x[from[SlotOf(y, k)]].key == k;
      }
    }
    forall k | k in SlotKeys(y) ensures SlotMap(y)[k] == SlotMap(x)[k] {
      var n := SlotOf(y, k);
      SlotMapAt(y, n);
      SlotMapAt(x, from[n]);
    }
  }

  /** The first `i` records are in order and below all others. */
  ghost predicate InPlace(slots: seq<Slot>, i: nat) {
    forall a, b :: 0 <= a < b < |slots| && a < i ==> slots[a].key < slots[b].key
  }

  lemma PlaceNext(x: seq<Slot>, y: seq<Slot>, i: nat, m: nat)
    requires i <= m < |x| && y == x[i := x[m]][m := x[i]] && DistinctSlots(x) && AllUsed(x) && InPlace(x, i)
    requires forall n :: i <= n < |x| ==> x[m].key <= x[n].key
    ensures InPlace(y, i + 1)
  {
    forall a, b | 0 <= a < b < |y| && a < i + 1 ensures y[a].key < y[b].key {
      var c := if b == i then m else if b == m then i else b;
      assert y[b] == x[c];
      if a == i {
        assert c != m && x[c].key != x[m].key;
      }
    }
  }

  method SortRecords(records: array<Slot>)
    requires DistinctSlots(records[..]) && AllUsed(records[..])
    modifies records
    ensures FullAscending(records[..]) && SlotMap(records[..]) == old(SlotMap(records[..]))
  {
    hide DistinctSlots, SlotMap;
    for i := 0 to records.Length
      invariant DistinctSlots(records[..]) && AllUsed(records[..]) && InPlace(records[..], i)
      invariant SlotMap(records[..]) == old(SlotMap(records[..]))
    {
      var m := i;
      for j := i + 1 to records.Length
        invariant i <= m < records.Length && forall n :: i <= n < j ==> records[m].key <= records[n].key
      {
        if records[j].key < records[m].key {
          m := j;
        }
      }
      ghost var x := records[..];
      records[i], records[m] := records[m], records[i];
      assert records[..] == x[i := x[m]][m := x[i]];
      Exchanged(x, records[..], i, m);
      PlaceNext(x, records[..], i, m);
    }
  }

  lemma SplitBounds(slots: seq<Slot>, m: nat, lo: Key, hi: Key)
    requires FullAscending(slots) && 0 < m < |slots| && forall i :: 0 <= i < |slots| ==> lo <= slots[i].key < hi
    ensures lo < slots[m].key < hi && slots[m].key in SlotKeys(slots)
    ensures forall i :: 0 <= i < |slots| ==> (lo <= slots[i].key < slots[m].key <==> 0 <= i < m)
    ensures forall i :: 0 <= i < |slots| ==> (slots[m].key <= slots[i].key < hi <==> m <= i < |slots|)
  {
    assert slots[0].key < slots[m].key;
  }

  lemma {:induction false} UsedFull(slots: seq<Slot>, m: nat)
    requires m <= |slots|
    requires forall i :: 0 <= i < |slots| ==> (slots[i].value != NULL_VALUE <==> i < m)
    ensures Used(slots) == m
  {
    if slots != [] {
      UsedFull(slots[..|slots| - 1], if m == |slots| then m - 1 else m);
    }
  }

  lemma HalfCount(slots: seq<Slot>, t: seq<Slot>, m: nat)
    requires FullAscending(slots) && DistinctSlots(t) && Shifted(slots, t, 0, m, 0) && m == |slots| / 2
    ensures |SlotMap(t)| == |SlotMap(slots)| / 2
  {
    assert DistinctSlots(slots);
    UsedIsCount(slots);
    UsedIsCount(t);
    UsedFull(slots, |slots|);
    forall i | 0 <= i < |t| ensures t[i].value != NULL_VALUE <==> i < m {
      if i < m {
        assert t[i - 0] == slots[i] && slots[i].value != NULL_VALUE;
      }
    }
    UsedFull(t, m);
    assert |SlotMap(t).Keys| == |SlotMap(t)| && |SlotMap(slots).Keys| == |SlotMap(slots)|;
  }
}
