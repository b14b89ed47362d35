/** The lock-free leaf search, and why it is safe beside one running hop insertion:
    whatever mixture of old and new slots the reader fetched, it either finds a key that was
    merely being moved, or sees a bitmap that disagrees with the keys and reads again. */
module HopscotchSearch {
  import opened HopscotchLeaf
  import opened HopscotchInsert

  datatype SearchResult = Found(value: Value) | NotFound | Retry

  /** The bitmap recomputed from the keys that were read. */
  function Seen(g: Geometry, m: Leaf, h: nat): set<nat>
    requires g.Valid() && |m| == g.span && h < g.span
  {
    set o | 0 <= o < g.neighbor && Owns(g, m, h, g.At(h, o))
  }

  /** The lowest offset at or after `i` whose slot holds `k`, or -1. */
  function FindKey(g: Geometry, m: Leaf, h: nat, k: Key, i: nat): (o: int)
    requires g.Valid() && |m| == g.span && h < g.span && i <= g.neighbor
    ensures o == -1 || (i <= o < g.neighbor && m[g.At(h, o)].key == k)
    ensures forall p :: i <= p < (if o == -1 then g.neighbor else o) ==> m[g.At(h, p)].key != k
    decreases g.neighbor - i
  {
    if i == g.neighbor then -1
    else if m[g.At(h, i)].key == k then i
    else FindKey(g, m, h, k, i + 1)
  }

  function Search(g: Geometry, m: Leaf, k: Key): SearchResult
    requires g.Valid() && |m| == g.span
  {
    var h := g.Home(k);
    var o := FindKey(g, m, h, k, 0);
    if o != -1 then Found(m[g.At(h, o)].value)
    else if Seen(g, m, h) == m[h].hop then NotFound
    else Retry
  }

  /** One scan of the neighbourhood, gathering the bitmap and stopping at the key. */
  method LeafSearch(g: Geometry, records: array<Entry>, k: Key) returns (res: SearchResult)
    requires g.Valid() && records.Length == g.span && k != NULL_KEY
    ensures res == Search(g, records[..], k)
  {
    var h := g.Home(k);
    var bitmap: set<nat> := {};
    ghost var m := records[..];
    for i := 0 to g.neighbor
      invariant bitmap == set o | 0 <= o < i && Owns(g, m, h, g.At(h, o))
      invariant FindKey(g, m, h, k, 0) == FindKey(g, m, h, k, i)
    {
      var e := records[g.At(h, i)];
      if e.key != NULL_KEY && g.Home(e.key) == h {
        bitmap := bitmap + {i};
        if e.key == k {
          return Found(e.value);
        }
      }
    }
    res := if bitmap == records[h].hop then NotFound else Retry;
  }

  // ----- how an insertion moves keys between slots -----

  ghost predicate SameKey(r0: Leaf, s: nat, r1: Leaf, t: nat)
    requires s < |r0| && t < |r1|
  {
    r0[s].key == r1[t].key && r0[s].value == r1[t].value
  }

  /** The keys of home `h` are where they were. */
  ghost predicate HomeKept(g: Geometry, r0: Leaf, r1: Leaf, h: nat) {
    && g.Valid() && |r0| == g.span && |r1| == g.span
    && forall s :: 0 <= s < g.span ==>
         && (Owns(g, r0, h, s) <==> Owns(g, r1, h, s))
         && (Owns(g, r0, h, s) ==> SameKey(r0, s, r1, s))
  }

  /** Exactly one key of home `h` went from slot `a` to slot `d`. */
  ghost predicate HomeShifted(g: Geometry, r0: Leaf, r1: Leaf, h: nat, a: nat, d: nat) {
    && g.Valid() && |r0| == g.span && |r1| == g.span && a < g.span && d < g.span
    && Owns(g, r0, h, a) && !Owns(g, r1, h, a) && !Owns(g, r0, h, d) && Owns(g, r1, h, d)
    && SameKey(r0, a, r1, d)
    && forall s :: 0 <= s < g.span && s != a && s != d ==>
         && (Owns(g, r0, h, s) <==> Owns(g, r1, h, s))
         && (Owns(g, r0, h, s) ==> SameKey(r0, s, r1, s))
  }

  /** The keys of home `h` are where they were and slot `d` now holds `k` besides. */
  ghost predicate HomeGained(g: Geometry, r0: Leaf, r1: Leaf, h: nat, k: Key, d: nat) {
    && g.Valid() && |r0| == g.span && |r1| == g.span && d < g.span
    && !Owns(g, r0, h, d) && r1[d].key == k
    && forall s :: 0 <= s < g.span && s != d ==>
         && (Owns(g, r0, h, s) <==> Owns(g, r1, h, s))
         && (Owns(g, r0, h, s) ==> SameKey(r0, s, r1, s))
  }

  ghost predicate KeptOrShifted(g: Geometry, r0: Leaf, r1: Leaf, h: nat) {
    HomeKept(g, r0, r1, h) || exists a, d :: HomeShifted(g, r0, r1, h, a, d)
  }

  /** At most one key of every home moved, and only the home of `k` gained a key. */
  ghost predicate OneMovePerHome(g: Geometry, r0: Leaf, r1: Leaf, k: Key) {
    && g.Valid()
    && (forall h :: 0 <= h < g.span && h != g.Home(k) ==> KeptOrShifted(g, r0, r1, h))
    && (exists d :: HomeGained(g, r0, r1, g.Home(k), k, d))
  }

  /** What holds between the original leaf and the leaf in mid-insertion with its hole at `j`. */
  ghost predicate Tracks(g: Geometry, r0: Leaf, r: Leaf, b: nat, j: nat) {
    && g.Valid() && |r0| == g.span && |r| == g.span && b < g.span && b <= j < b + g.span
    && (forall i :: b <= i < j ==> SameKey(r0, g.Slot(i), r, g.Slot(i)))
    && (forall h :: 0 <= h < g.span ==> KeptOrShifted(g, r0, r, h))
    && HomeKept(g, r0, r, b)
    && (forall i :: b <= i < j && b < LHome(g, r, i) ==> HomeKept(g, r0, r, g.Slot(LHome(g, r, i))))
  }

  /** A move leaves the keys of every other home alone. */
  lemma MoveOtherHome(g: Geometry, r: Leaf, r': Leaf, sg: nat, sh: nat, sj: nat, h: nat)
    requires Moved(g, r, r', sg, sh, sj) && h != sg
    ensures HomeKept(g, r, r', h)
  {
    forall s | 0 <= s < g.span
      ensures Owns(g, r, h, s) <==> Owns(g, r', h, s)
      ensures Owns(g, r, h, s) ==> SameKey(r, s, r', s)
    {
      assert r'[s].key == if s == sj then r[sh].key else if s == sh then NULL_KEY else r[s].key;
    }
  }

  lemma MoveOwnHome(g: Geometry, r: Leaf, r': Leaf, sg: nat, sh: nat, sj: nat)
    requires Moved(g, r, r', sg, sh, sj)
    ensures HomeShifted(g, r, r', sg, sh, sj)
  {
    forall s | 0 <= s < g.span && s != sh && s != sj
      ensures Owns(g, r, sg, s) <==> Owns(g, r', sg, s)
      ensures Owns(g, r, sg, s) ==> SameKey(r, s, r', s)
    {
      assert r'[s].key == r[s].key;
    }
  }

  lemma KeptThenKept(g: Geometry, r0: Leaf, r: Leaf, r': Leaf, h: nat)
    requires HomeKept(g, r0, r, h) && HomeKept(g, r, r', h)
    ensures HomeKept(g, r0, r', h)
  {
    forall s | 0 <= s < g.span
      ensures Owns(g, r0, h, s) <==> Owns(g, r', h, s)
      ensures Owns(g, r0, h, s) ==> SameKey(r0, s, r', s)
    {
      assert Owns(g, r0, h, s) <==> Owns(g, r, h, s);
    }
  }

  lemma ShiftedThenKept(g: Geometry, r0: Leaf, r: Leaf, r': Leaf, h: nat, a: nat, d: nat)
    requires HomeShifted(g, r0, r, h, a, d) && HomeKept(g, r, r', h)
    ensures HomeShifted(g, r0, r', h, a, d)
  {
    forall s | 0 <= s < g.span && s != a && s != d
      ensures Owns(g, r0, h, s) <==> Owns(g, r', h, s)
      ensures Owns(g, r0, h, s) ==> SameKey(r0, s, r', s)
    {
      assert Owns(g, r0, h, s) <==> Owns(g, r, h, s);
    }
    assert Owns(g, r, h, a) <==> Owns(g, r', h, a);
    assert Owns(g, r, h, d) <==> Owns(g, r', h, d);
  }

  lemma KeptThenShifted(g: Geometry, r0: Leaf, r: Leaf, r': Leaf, h: nat, a: nat, d: nat)
    requires HomeKept(g, r0, r, h) && HomeShifted(g, r, r', h, a, d)
    ensures HomeShifted(g, r0, r', h, a, d)
  {
    forall s | 0 <= s < g.span && s != a && s != d
      ensures Owns(g, r0, h, s) <==> Owns(g, r', h, s)
      ensures Owns(g, r0, h, s) ==> SameKey(r0, s, r', s)
    {
      assert Owns(g, r0, h, s) <==> Owns(g, r, h, s);
    }
    assert Owns(g, r0, h, a) <==> Owns(g, r, h, a);
    assert Owns(g, r0, h, d) <==> Owns(g, r, h, d);
  }

  lemma OtherHomeStays(g: Geometry, r0: Leaf, r: Leaf, r': Leaf, h: nat)
    requires KeptOrShifted(g, r0, r, h) && HomeKept(g, r, r', h)
    ensures KeptOrShifted(g, r0, r', h)
  {
    if HomeKept(g, r0, r, h) {
      KeptThenKept(g, r0, r, r', h);
    } else {
      var a, d :| HomeShifted(g, r0, r, h, a, d);
      ShiftedThenKept(g, r0, r, r', h, a, d);
    }
  }

  /** Choosing the lowest candidate is what keeps a second key of the same home in place. */
  lemma LowerKeysHaveOtherHomes(g: Geometry, r: Leaf, b: nat, j: nat, i: nat)
    requires HoleAt(g, r, b, j) && b + g.neighbor <= j
    requires var (h, home) := NextHop(g, r, j, g.neighbor - 1); h != -1 && b <= i < h
    requires b < LHome(g, r, i)
    ensures g.Slot(LHome(g, r, i)) != g.Slot(NextHop(g, r, j, g.neighbor - 1).1)
  {
    var (h, home) := NextHop(g, r, j, g.neighbor - 1);
    NextHopLegal(g, r, b, j);
    if LHome(g, r, i) == home {
      NextHopLowest(g, r, b, j, i);
    }
  }

  lemma TracksStepHomes(g: Geometry, r0: Leaf, r: Leaf, r': Leaf, b: nat, j: nat, sg: nat, sh: nat, h: nat)
    requires Tracks(g, r0, r, b, j) && sg < g.span && sh < g.span && h < g.span
    requires Moved(g, r, r', sg, sh, g.Slot(j)) && HomeKept(g, r0, r, sg)
    ensures KeptOrShifted(g, r0, r', h)
  {
    if h == sg {
      MoveOwnHome(g, r, r', sg, sh, g.Slot(j));
      KeptThenShifted(g, r0, r, r', h, sh, g.Slot(j));
    } else {
      MoveOtherHome(g, r, r', sg, sh, g.Slot(j), h);
      OtherHomeStays(g, r0, r, r', h);
    }
  }

  /** The keys still below the hole keep their slots, and so do the homes they came from. */
  lemma TracksStepLow(g: Geometry, r0: Leaf, r: Leaf, r': Leaf, b: nat, j: nat, sg: nat, h: nat, i: nat)
    requires Tracks(g, r0, r, b, j) && sg < g.span && b <= i < h < j
    requires Moved(g, r, r', sg, g.Slot(h), g.Slot(j))
    requires b < LHome(g, r, i) ==> g.Slot(LHome(g, r, i)) != sg
    ensures SameKey(r0, g.Slot(i), r', g.Slot(i))
    ensures b < LHome(g, r', i) ==> HomeKept(g, r0, r', g.Slot(LHome(g, r', i)))
  {
    assert SameKey(r0, g.Slot(i), r, g.Slot(i));
    assert r'[g.Slot(i)].key == r[g.Slot(i)].key;
    var l := LHome(g, r, i);
    if b < l {
      MoveOtherHome(g, r, r', sg, g.Slot(h), g.Slot(j), g.Slot(l));
      KeptThenKept(g, r0, r, r', g.Slot(l));
    }
  }

  lemma TracksMoved(g: Geometry, r0: Leaf, r: Leaf, r': Leaf, b: nat, j: nat, sg: nat, h: nat)
    requires Tracks(g, r0, r, b, j) && sg < g.span && b <= h < j && sg != b
    requires Moved(g, r, r', sg, g.Slot(h), g.Slot(j)) && HomeKept(g, r0, r, sg)
    requires forall i :: b <= i < h && b < LHome(g, r, i) ==> g.Slot(LHome(g, r, i)) != sg
    ensures Tracks(g, r0, r', b, h)
  {
    forall q | 0 <= q < g.span ensures KeptOrShifted(g, r0, r', q) {
      TracksStepHomes(g, r0, r, r', b, j, sg, g.Slot(h), q);
    }
    MoveOtherHome(g, r, r', sg, g.Slot(h), g.Slot(j), b);
    KeptThenKept(g, r0, r, r', b);
    forall i | b <= i < h
      ensures SameKey(r0, g.Slot(i), r', g.Slot(i))
      ensures b < LHome(g, r', i) ==> HomeKept(g, r0, r', g.Slot(LHome(g, r', i)))
    {
      TracksStepLow(g, r0, r, r', b, j, sg, h, i);
    }
  }

  /** One hop keeps the relation to the original leaf. */
  lemma TracksStep(g: Geometry, r0: Leaf, r: Leaf, r': Leaf, b: nat, j: nat)
    requires HoleAt(g, r, b, j) && b + g.neighbor <= j && Tracks(g, r0, r, b, j)
    requires NextHop(g, r, j, g.neighbor - 1).0 != -1
    requires var (h, home) := NextHop(g, r, j, g.neighbor - 1);
             r' == MoveKey(g, r, g.Slot(home), g.Slot(h), g.Slot(j))
    ensures Tracks(g, r0, r', b, NextHop(g, r, j, g.neighbor - 1).0)
  {
    var (h, home) := NextHop(g, r, j, g.neighbor - 1);
    NextHopLegal(g, r, b, j);
    MoveKeyMoved(g, r, g.Slot(home), g.Slot(h), g.Slot(j));
    forall i | b <= i < h && b < LHome(g, r, i) ensures g.Slot(LHome(g, r, i)) != g.Slot(home) {
      LowerKeysHaveOtherHomes(g, r, b, j, i);
    }
    TracksMoved(g, r0, r, r', b, j, g.Slot(home), h);
  }

  /** Placing `k` gives its home one more key and touches no other home. */
  lemma TracksPlaced(g: Geometry, r0: Leaf, r: Leaf, r': Leaf, b: nat, j: nat, k: Key, v: Value)
    requires Tracks(g, r0, r, b, j) && b == g.Home(k) && HopscotchLeaf.Placed(g, r, r', g.Slot(j), k, v)
    ensures OneMovePerHome(g, r0, r', k)
  {
    var sj := g.Slot(j);
    forall h | 0 <= h < g.span && h != b ensures KeptOrShifted(g, r0, r', h) {
      assert HomeKept(g, r, r', h);
      OtherHomeStays(g, r0, r, r', h);
    }
    forall s | 0 <= s < g.span && s != sj
      ensures Owns(g, r0, b, s) <==> Owns(g, r', b, s)
      ensures Owns(g, r0, b, s) ==> SameKey(r0, s, r', s)
    {
      assert Owns(g, r0, b, s) <==> Owns(g, r, b, s);
      assert r'[s].key == r[s].key;
    }
    assert !Owns(g, r, b, sj);
    assert HomeGained(g, r0, r', b, k, sj);
  }

  lemma {:induction false} RunMovesOnePerHome(g: Geometry, r0: Leaf, r: Leaf, b: nat, j: nat, k: Key, v: Value)
    requires HoleAt(g, r, b, j) && Tracks(g, r0, r, b, j) && b == g.Home(k) && k != NULL_KEY
    ensures var res := HopRun(g, r, b, j, k, v); res.Placed? ==> OneMovePerHome(g, r0, res.records, k)
    decreases j
  {
    if j < b + g.neighbor {
      assert g.Off(b, g.Slot(j)) == j - b;
      TracksPlaced(g, r0, r, Place(g, r, b, g.Slot(j), k, v), b, j, k, v);
    } else {
      var h, r' := HopRunStep(g, r, b, j, k, v);
      if h != -1 {
        HopKeepsHole(g, r, b, j, r');
        TracksStep(g, r0, r, r', b, j);
        RunMovesOnePerHome(g, r0, r', b, h, k, v);
      }
    }
  }

  lemma TracksStart(g: Geometry, r: Leaf, b: nat, j: nat)
    requires g.Valid() && |r| == g.span && b < g.span && b <= j < b + g.span
    ensures Tracks(g, r, r, b, j)
  {
    assert forall h :: 0 <= h < g.span ==> HomeKept(g, r, r, h);
  }

  lemma RunFromStart(g: Geometry, r: Leaf, b: nat, j: nat, k: Key, v: Value)
    requires HoleAt(g, r, b, j) && b == g.Home(k) && k != NULL_KEY
    ensures var res := HopRun(g, r, b, j, k, v); res.Placed? ==> OneMovePerHome(g, r, res.records, k)
  {
    TracksStart(g, r, b, j);
    RunMovesOnePerHome(g, r, r, b, j, k, v);
  }

  /** A successful insertion moves at most one key of any home, and none of the home of `k`. */
  lemma InsertMovesOnePerHome(g: Geometry, r: Leaf, k: Key, v: Value, entryNum: nat)
    requires Inv(g, r) && k != NULL_KEY && entryNum <= g.span
    ensures var res := HopInsert(g, r, k, v, entryNum); res.Placed? ==> OneMovePerHome(g, r, res.records, k)
  {
    hide HopInsert, HopRun, FirstEmpty, Hole, InNeighborhood, BitmapsExact, DistinctKeys, OneMovePerHome, Geometry.Home;
    var e := HopInsertIs(g, r, k, v, entryNum);
    if e != -1 {
      RunFromStart(g, r, g.Home(k), e, k, v);
    }
  }

  // ----- reads that mix old and new slots -----

  /** Every slot was read either before or after the insertion reached it. */
  ghost predicate Mix(r0: Leaf, r1: Leaf, m: Leaf) {
    |m| == |r0| == |r1| && forall s :: 0 <= s < |m| ==> m[s] == r0[s] || m[s] == r1[s]
  }

  /** A leaf that nobody is changing is searched exactly and never re-read. */
  lemma SearchExact(g: Geometry, r: Leaf, q: Key)
    requires Inv(g, r) && q != NULL_KEY
    ensures Search(g, r, q) == if q in Contents(r) then Found(Contents(r)[q]) else NotFound
  {
    var h := g.Home(q);
    var o := FindKey(g, r, h, q, 0);
    if q in Contents(r) {
      var s :| 0 <= s < g.span && r[s].key == q;
      assert g.At(h, g.Off(h, s)) == s;
    }
    forall p ensures p in Seen(g, r, h) <==> p in r[h].hop {
      if 0 <= p < g.neighbor {
        assert g.Off(h, g.At(h, p)) in r[h].hop <==> Owns(g, r, h, g.At(h, p));
      }
    }
    assert Seen(g, r, h) == r[h].hop;
  }

  lemma FoundIsThere(g: Geometry, r0: Leaf, r1: Leaf, m: Leaf, q: Key, o: nat)
    requires Inv(g, r0) && Inv(g, r1) && Mix(r0, r1, m) && q != NULL_KEY && o < g.neighbor
    requires m[g.At(g.Home(q), o)].key == q
    ensures var x := m[g.At(g.Home(q), o)].value;
            (q in Contents(r0) && Contents(r0)[q] == x) || (q in Contents(r1) && Contents(r1)[q] == x)
  {
  }

  lemma KeptKeyIsFound(g: Geometry, r0: Leaf, r1: Leaf, m: Leaf, q: Key, s: nat)
    requires Inv(g, r0) && g.Valid() && |r1| == g.span && Mix(r0, r1, m) && q != NULL_KEY
    requires s < g.span && r0[s].key == q && r1[s].key == q
    ensures Search(g, m, q).Found?
  {
    var h := g.Home(q);
    assert g.Off(h, s) < g.neighbor && g.At(h, g.Off(h, s)) == s;
    assert m[s].key == q;
  }

  /** A key that moved from `a` to `d` is seen in one of the two, or the bitmap gives it away. */
  lemma ShiftedKeyIsNotMissed(g: Geometry, r0: Leaf, r1: Leaf, m: Leaf, q: Key, a: nat, d: nat)
    requires Inv(g, r0) && Inv(g, r1) && Mix(r0, r1, m) && q != NULL_KEY
    requires HomeShifted(g, r0, r1, g.Home(q), a, d) && r0[a].key == q
    ensures Search(g, m, q) != NotFound
  {
    var h := g.Home(q);
    var oa, od := g.Off(h, a), g.Off(h, d);
    assert oa < g.neighbor && od < g.neighbor;
    assert g.At(h, oa) == a && g.At(h, od) == d;
    if m[a].key != q && m[d].key != q {
      assert m[a] == r1[a] && m[d] == r0[d];
      assert !Owns(g, m, h, a) && !Owns(g, m, h, d);
      assert oa !in Seen(g, m, h) && od !in Seen(g, m, h);
      assert oa in r0[h].hop && od in r1[h].hop;
    }
  }

  /** No reader reports absent a key that the insertion only moves, whatever mixture it reads. */
  lemma PresentKeyIsNotMissed(g: Geometry, r0: Leaf, r1: Leaf, m: Leaf, k: Key, q: Key)
    requires Inv(g, r0) && Inv(g, r1) && OneMovePerHome(g, r0, r1, k) && Mix(r0, r1, m)
    requires q in Contents(r0)
    ensures Search(g, m, q) != NotFound
  {
    var h := g.Home(q);
    var s :| 0 <= s < g.span && r0[s].key == q;
    assert Owns(g, r0, h, s);
    if h == g.Home(k) {
      var d :| HomeGained(g, r0, r1, h, k, d);
      assert SameKey(r0, s, r1, s);
      KeptKeyIsFound(g, r0, r1, m, q, s);
    } else {
      assert KeptOrShifted(g, r0, r1, h);
      if HomeKept(g, r0, r1, h) {
        assert SameKey(r0, s, r1, s);
        KeptKeyIsFound(g, r0, r1, m, q, s);
      } else {
        var a, d :| HomeShifted(g, r0, r1, h, a, d);
        if s == a {
          ShiftedKeyIsNotMissed(g, r0, r1, m, q, a, d);
        } else {
          assert SameKey(r0, s, r1, s);
          KeptKeyIsFound(g, r0, r1, m, q, s);
        }
      }
    }
  }

  /** A search beside one insertion of `k` answers as if it ran before it or after it,
      or asks to read again: the leaf's map at the time decides every definite answer. */
  lemma TornSearchIsLinearizable(g: Geometry, r0: Leaf, k: Key, v: Value, entryNum: nat, m: Leaf, q: Key)
    requires Inv(g, r0) && k != NULL_KEY && k !in Contents(r0) && entryNum <= g.span && q != NULL_KEY
    requires var res := HopInsert(g, r0, k, v, entryNum); res.Placed? && Mix(r0, res.records, m)
    ensures match Search(g, m, q)
            case Retry => true
            case NotFound => q !in Contents(r0)
            case Found(x) => q in Contents(r0)[k := v] && Contents(r0)[k := v][q] == x
  {
    var r1 := HopInsert(g, r0, k, v, entryNum).records;
    HopInsertCorrect(g, r0, k, v, entryNum);
    InsertMovesOnePerHome(g, r0, k, v, entryNum);
    if q in Contents(r0) {
      PresentKeyIsNotMissed(g, r0, r1, m, k, q);
    }
    var o := FindKey(g, m, g.Home(q), q, 0);
    if o != -1 {
      FoundIsThere(g, r0, r1, m, q, o);
    }
  }
}
