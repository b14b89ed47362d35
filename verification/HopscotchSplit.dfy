/** Splitting a hopscotch leaf. The split key is chosen among the keys whose slots, were they
    empty, would let the pending key in; the insertion that follows the split cannot fail. */
module HopscotchSplit {
  import opened HopscotchLeaf
  import opened HopscotchInsert
  import opened KeySort

  // ----- hopping decided from the keys -----

  /** The lowest slot whose key's home still reaches `j`, trying `offset` downwards, or -1. */
  function KeyHop(g: Geometry, r: Leaf, j: nat, offset: int): (h: int)
    requires g.Valid() && |r| == g.span && g.neighbor <= j < 2 * g.span && 0 <= offset < g.neighbor
    ensures h == -1 || (j - offset <= h < j && j < LHome(g, r, h) + g.neighbor)
    ensures forall i :: j - offset <= i < (if h == -1 then j else h) ==> LHome(g, r, i) + g.neighbor <= j
    decreases offset
  {
    if offset == 0 then -1
    else if j < LHome(g, r, j - offset) + g.neighbor then j - offset
    else KeyHop(g, r, j, offset - 1)
  }

  /** Hopping from an empty slot at `p` would bring the hole into the neighbourhood of `b`. */
  predicate Reaches(g: Geometry, r: Leaf, b: nat, p: nat)
    requires g.Valid() && |r| == g.span && b < g.span && b <= p < b + g.span
    decreases p
  {
    p < b + g.neighbor || (KeyHop(g, r, p, g.neighbor - 1) != -1 && Reaches(g, r, b, KeyHop(g, r, p, g.neighbor - 1)))
  }

  lemma ReachesUnfolds(g: Geometry, r: Leaf, b: nat, p: nat)
    requires g.Valid() && |r| == g.span && b < g.span && b <= p < b + g.span
    ensures p < b + g.neighbor ==> Reaches(g, r, b, p)
    ensures b + g.neighbor <= p ==>
              var h := KeyHop(g, r, p, g.neighbor - 1);
              Reaches(g, r, b, p) <==> h != -1 && Reaches(g, r, b, h)
  {
    hide KeyHop, LHome;
  }

  /** The slots that reach the neighbourhood are closed downwards. */
  lemma {:induction false} ReachesDown(g: Geometry, r: Leaf, b: nat, p: nat, q: nat)
    requires g.Valid() && |r| == g.span && b < g.span && b <= q <= p < b + g.span
    requires Reaches(g, r, b, p)
    ensures Reaches(g, r, b, q)
    decreases p
  {
    if b + g.neighbor <= q && q != p {
      var h := KeyHop(g, r, p, g.neighbor - 1);
      if q <= h {
        ReachesDown(g, r, b, h, q);
      } else {
        var h' := KeyHop(g, r, q, g.neighbor - 1);
        assert q < LHome(g, r, h) + g.neighbor;
        assert h' != -1 && h' <= h;
        ReachesDown(g, r, b, h, h');
      }
    }
  }

  ghost predicate SameKeysBelow(g: Geometry, r: Leaf, q: Leaf, b: nat, p: nat) {
    && g.Valid() && |r| == g.span && |q| == g.span && b < g.span && b <= p < b + g.span
    && forall i :: b <= i < p ==> r[g.Slot(i)].key == q[g.Slot(i)].key
  }

  lemma {:induction false} KeyHopAgrees(g: Geometry, r: Leaf, q: Leaf, b: nat, j: nat, offset: nat)
    requires SameKeysBelow(g, r, q, b, j) && b + g.neighbor <= j && offset < g.neighbor
    ensures KeyHop(g, r, j, offset) == KeyHop(g, q, j, offset)
    decreases offset
  {
    if offset != 0 {
      assert r[g.Slot(j - offset)].key == q[g.Slot(j - offset)].key;
      KeyHopAgrees(g, r, q, b, j, offset - 1);
    }
  }

  lemma SameKeysLower(g: Geometry, r: Leaf, q: Leaf, b: nat, p: nat, h: nat)
    requires SameKeysBelow(g, r, q, b, p) && b <= h <= p
    ensures SameKeysBelow(g, r, q, b, h)
  {
  }

  lemma {:induction false} ReachesAgrees(g: Geometry, r: Leaf, q: Leaf, b: nat, p: nat)
    requires g.Valid() && |r| == g.span && |q| == g.span && b < g.span && b <= p < b + g.span
    requires SameKeysBelow(g, r, q, b, p)
    ensures Reaches(g, r, b, p) <==> Reaches(g, q, b, p)
    decreases p
  {
    hide KeyHop, Reaches, SameKeysBelow, LHome;
    ReachesUnfolds(g, r, b, p);
    ReachesUnfolds(g, q, b, p);
    if b + g.neighbor <= p {
      KeyHopAgrees(g, r, q, b, p, g.neighbor - 1);
      var h := KeyHop(g, r, p, g.neighbor - 1);
      if h != -1 {
        SameKeysLower(g, r, q, b, p, h);
        ReachesAgrees(g, r, q, b, h);
      }
    }
  }

  /** Bitmaps and keys choose the same hop. */
  lemma NextHopIsKeyHop(g: Geometry, r: Leaf, b: nat, j: nat)
    requires HoleAt(g, r, b, j) && b + g.neighbor <= j
    ensures NextHop(g, r, j, g.neighbor - 1).0 == KeyHop(g, r, j, g.neighbor - 1)
  {
    var h, h' := NextHop(g, r, j, g.neighbor - 1).0, KeyHop(g, r, j, g.neighbor - 1);
    if h' != -1 && (h == -1 || h' < h) {
      NextHopLowest(g, r, b, j, h');
    } else if h != -1 {
      NextHopLegal(g, r, b, j);
    }
  }

  lemma MoveKeepsKeysBelow(g: Geometry, r: Leaf, r': Leaf, b: nat, j: nat, h: nat, sg: nat)
    requires g.Valid() && |r| == g.span && b < g.span && b <= h < j < b + g.span && sg < g.span
    requires r' == MoveKey(g, r, sg, g.Slot(h), g.Slot(j))
    ensures SameKeysBelow(g, r, r', b, h)
  {
  }

  /** A run from a hole succeeds exactly when the keys below it let the hole through. */
  lemma {:induction false} RunSucceedsIffReaches(g: Geometry, r: Leaf, b: nat, j: nat, k: Key, v: Value)
    requires g.Valid() && |r| == g.span && b < g.span && b <= j < b + g.span && HoleAt(g, r, b, j)
    ensures HopRun(g, r, b, j, k, v).Placed? <==> Reaches(g, r, b, j)
    decreases j
  {
    if b + g.neighbor <= j {
      hide *;
      ReachesUnfolds(g, r, b, j);
      NextHopIsKeyHop(g, r, b, j);
      var h, r' := HopRunStep(g, r, b, j, k, v);
      if h != -1 {
        HopKeepsHole(g, r, b, j, r');
        RunSucceedsIffReaches(g, r', b, h, k, v);
        MoveKeepsKeysBelow(g, r, r', b, j, h, g.Slot(NextHop(g, r, j, g.neighbor - 1).1));
        ReachesAgrees(g, r, r', b, h);
      }
    }
  }

  /** When an attempt over the whole leaf fails, and only then: no empty slot, or a blocked one. */
  lemma StuckIff(g: Geometry, r: Leaf, k: Key, v: Value)
    requires g.Valid() && |r| == g.span && Inv(g, r)
    ensures var e := FirstEmpty(g, r, g.Home(k), g.Home(k) + g.span);
            HopInsert(g, r, k, v, g.span) == Stuck <==> (e == -1 || !Reaches(g, r, g.Home(k), e))
  {
    hide HopInsert, HopRun, FirstEmpty, Hole, Reaches, InNeighborhood, BitmapsExact, DistinctKeys, Geometry.Home;
    var e := HopInsertIs(g, r, k, v, g.span);
    if e != -1 {
      RunSucceedsIffReaches(g, r, g.Home(k), e, k, v);
    }
  }

  /** The hole at `j` may be filled with the key at `h`, whatever the rule that picks `h`. */
  predicate MayHop(g: Geometry, r: Leaf, b: nat, j: nat, h: nat)
    requires g.Valid() && |r| == g.span && b < g.span && j < b + g.span
  {
    b <= h < j && j < h + g.neighbor && j < LHome(g, r, h) + g.neighbor
  }

  /** A way for the hole: hop by hop from `path[0]` down into the neighbourhood of `b`. */
  ghost predicate WayIn(g: Geometry, r: Leaf, b: nat, path: seq<nat>)
    requires g.Valid() && |r| == g.span && b < g.span
  {
    && path != [] && path[|path| - 1] < b + g.neighbor
    && (forall i :: 0 <= i < |path| ==> b <= path[i] < b + g.span)
    && forall i :: 0 <= i < |path| - 1 ==> MayHop(g, r, b, path[i], path[i + 1])
  }

  ghost predicate WayFrom(g: Geometry, r: Leaf, b: nat, p: int, path: seq<nat>)
    requires g.Valid() && |r| == g.span && b < g.span
  {
    WayIn(g, r, b, path) && path[0] == p
  }

  /** The greedy choice is the best one: if there is any way into the neighbourhood, greedy hopping
      finds one. */
  lemma {:induction false} AnyWayReaches(g: Geometry, r: Leaf, b: nat, path: seq<nat>)
    requires g.Valid() && |r| == g.span && b < g.span && WayIn(g, r, b, path)
    ensures b <= path[0] < b + g.span && Reaches(g, r, b, path[0])
    decreases |path|
  {
    hide KeyHop, Reaches, LHome;
    var p := path[0];
    ReachesUnfolds(g, r, b, p);
    if b + g.neighbor <= p {
      var rest := path[1..];
      forall i | 0 <= i < |rest| - 1 ensures MayHop(g, r, b, rest[i], rest[i + 1]) {
        assert MayHop(g, r, b, path[i + 1], path[i + 1 + 1]);
      }
      AnyWayReaches(g, r, b, rest);
      assert MayHop(g, r, b, path[0], path[0 + 1]);
      var h := KeyHop(g, r, p, g.neighbor - 1);
      ReachesDown(g, r, b, path[1], h);
    }
  }

  lemma {:induction false} ReachesHasWay(g: Geometry, r: Leaf, b: nat, p: nat) returns (path: seq<nat>)
    requires g.Valid() && |r| == g.span && b < g.span && b <= p < b + g.span && Reaches(g, r, b, p)
    ensures WayIn(g, r, b, path) && path[0] == p
    decreases p
  {
    hide KeyHop, Reaches, LHome;
    ReachesUnfolds(g, r, b, p);
    path := [p];
    if b + g.neighbor <= p {
      var h := KeyHop(g, r, p, g.neighbor - 1);
      var rest := ReachesHasWay(g, r, b, h);
      path := [p] + rest;
      forall i | 0 <= i < |path| - 1 ensures MayHop(g, r, b, path[i], path[i + 1]) {
        assert i > 0 ==> MayHop(g, r, b, rest[i - 1], rest[i - 1 + 1]);
      }
    }
  }

  /** So an attempt over the whole leaf fails only if no sequence of hops at all could bring the first
      empty slot to the neighbourhood of `k`. */
  lemma StuckIffNoWay(g: Geometry, r: Leaf, k: Key, v: Value)
    requires g.Valid() && |r| == g.span && Inv(g, r)
    ensures var b := g.Home(k);
            var e := FirstEmpty(g, r, b, b + g.span);
            HopInsert(g, r, k, v, g.span) == Stuck <==> forall path :: !WayFrom(g, r, b, e, path)
  {
    hide HopInsert, FirstEmpty, Reaches, InNeighborhood, BitmapsExact, DistinctKeys, WayIn, Geometry.Home;
    var b := g.Home(k);
    var e := FirstEmpty(g, r, b, b + g.span);
    StuckIff(g, r, k, v);
    if HopInsert(g, r, k, v, g.span) == Stuck {
      forall path ensures !WayFrom(g, r, b, e, path) {
        if WayFrom(g, r, b, e, path) {
          AnyWayReaches(g, r, b, path);
        }
      }
    } else {
      var path := ReachesHasWay(g, r, b, e);
      assert WayFrom(g, r, b, e, path);
    }
  }

  // ----- the split key -----

  /** The keys, from logical index `p` up to the first empty slot, whose slots reach `b`. */
  function CriticalKeys(g: Geometry, r: Leaf, b: nat, p: nat): seq<Key>
    requires g.Valid() && |r| == g.span && b < g.span && b <= p <= b + g.span
    decreases b + g.span - p
  {
    if p == b + g.span || r[g.Slot(p)].key == NULL_KEY then []
    else if Reaches(g, r, b, p) then [r[g.Slot(p)].key] + CriticalKeys(g, r, b, p + 1)
    else CriticalKeys(g, r, b, p + 1)
  }

  lemma CriticalStep(g: Geometry, r: Leaf, b: nat, p: nat)
    requires g.Valid() && |r| == g.span && b < g.span && b <= p <= b + g.span
    ensures p == b + g.span ==> CriticalKeys(g, r, b, p) == []
    ensures p < b + g.span ==>
              CriticalKeys(g, r, b, p) ==
              if r[g.Slot(p)].key == NULL_KEY then []
              else (if Reaches(g, r, b, p) then [r[g.Slot(p)].key] else []) + CriticalKeys(g, r, b, p + 1)
  {
    hide Reaches;
  }

  function SplitKey(g: Geometry, r: Leaf, k: Key): Key
    requires g.Valid() && |r| == g.span
  {
    var all := Sort(CriticalKeys(g, r, g.Home(k), g.Home(k)) + [k]);
    all[|all| / 2]
  }

  /** Every critical key sits in a slot that reaches `b`, with no empty slot before it. */
  lemma {:induction false} CriticalSlot(g: Geometry, r: Leaf, b: nat, p: nat, c: Key) returns (q: nat)
    requires g.Valid() && |r| == g.span && b < g.span && b <= p <= b + g.span
    requires c in CriticalKeys(g, r, b, p)
    ensures p <= q < b + g.span && r[g.Slot(q)].key == c && c != NULL_KEY && Reaches(g, r, b, q)
    ensures forall i :: p <= i < q ==> r[g.Slot(i)].key != NULL_KEY
    decreases b + g.span - p
  {
    hide Reaches, CriticalKeys;
    CriticalStep(g, r, b, p);
    if Reaches(g, r, b, p) && c == r[g.Slot(p)].key {
      q := p;
    } else {
      q := CriticalSlot(g, r, b, p + 1, c);
    }
  }

  lemma {:induction false} CriticalKeysNoDup(g: Geometry, r: Leaf, b: nat, p: nat)
    requires g.Valid() && |r| == g.span && DistinctKeys(r) && b < g.span && b <= p <= b + g.span
    ensures NoDup(CriticalKeys(g, r, b, p))
    decreases b + g.span - p
  {
    if p != b + g.span && r[g.Slot(p)].key != NULL_KEY {
      CriticalKeysNoDup(g, r, b, p + 1);
      var c, rest := r[g.Slot(p)].key, CriticalKeys(g, r, b, p + 1);
      if Reaches(g, r, b, p) && c in rest {
        var q := CriticalSlot(g, r, b, p + 1, c);
        assert false;
      }
    }
  }

  // ----- moving the upper keys to the sibling -----

  /** Half of the critical keys and the pending key, rounded down, lie below the split key. */
  lemma SplitKeyHalves(g: Geometry, r: Leaf, k: Key)
    requires Inv(g, r) && k !in Contents(r)
    ensures var all, at := CriticalKeys(g, r, g.Home(k), g.Home(k)) + [k], SplitKey(g, r, k);
            at in all && |set x | x in all && x < at| == |all| / 2
  {
    hide InNeighborhood, BitmapsExact, CriticalKeys, Sort, Contents, NoDup;
    CriticalWithKeyNoDup(g, r, k);
    var all := CriticalKeys(g, r, g.Home(k), g.Home(k)) + [k];
    MedianHalves(all);
    assert SplitKey(g, r, k) == Sort(all)[|all| / 2];
    assert (set x | x in all && x < SplitKey(g, r, k)) == (set x | x in all && x < Sort(all)[|all| / 2]);
  }

  /** Whether a key belongs to the lower or the upper part of a split at `at`. */
  predicate InPart(upper: bool, at: Key, k: Key) {
    if upper then at <= k else k < at
  }

  ghost function PartMap(m: map<Key, Value>, upper: bool, at: Key): map<Key, Value> {
    map q | q in m && InPart(upper, at, q) :: m[q]
  }

  /** One side of a split: the keys keep their slots, and every bitmap keeps the bits of the keys that stay. */
  function Part(g: Geometry, r: Leaf, upper: bool, at: Key): (p: Leaf)
    requires g.Valid() && |r| == g.span
    ensures |p| == g.span
  {
    seq(g.span, s requires 0 <= s < g.span => PartEntry(g, r, upper, at, s))
  }

  function PartEntry(g: Geometry, r: Leaf, upper: bool, at: Key, s: nat): Entry
    requires g.Valid() && |r| == g.span && s < g.span
  {
    var kept := r[s].key != NULL_KEY && InPart(upper, at, r[s].key);
    Entry(if kept then r[s].key else NULL_KEY,
          if kept || (!upper && r[s].key == NULL_KEY) then r[s].value else NULL_VALUE,
          set o | o in r[s].hop && o < g.span && InPart(upper, at, r[g.At(s, o)].key))
  }

  lemma PartInv(g: Geometry, r: Leaf, upper: bool, at: Key)
    requires Inv(g, r) && at != NULL_KEY
    ensures Inv(g, Part(g, r, upper, at))
  {
    var p := Part(g, r, upper, at);
    forall h, s | 0 <= h < g.span && 0 <= s < g.span
      ensures g.Off(h, s) in p[h].hop <==> Owns(g, p, h, s)
    {
      PartBit(g, r, upper, at, h, s);
    }
    PartKeys(g, r, upper, at);
    hide DistinctKeys, InNeighborhood;
  }

  lemma PartBit(g: Geometry, r: Leaf, upper: bool, at: Key, h: nat, s: nat)
    requires g.Valid() && |r| == g.span && BitmapsExact(g, r) && h < g.span && s < g.span
    ensures var p := Part(g, r, upper, at); g.Off(h, s) in p[h].hop <==> Owns(g, p, h, s)
  {
    assert g.Off(h, s) in r[h].hop <==> Owns(g, r, h, s);
    assert g.At(h, g.Off(h, s)) == s;
  }

  lemma PartKeys(g: Geometry, r: Leaf, upper: bool, at: Key)
    requires Inv(g, r)
    ensures DistinctKeys(Part(g, r, upper, at)) && InNeighborhood(g, Part(g, r, upper, at))
  {
    hide BitmapsExact;
  }

  lemma PartKey(g: Geometry, r: Leaf, upper: bool, at: Key, s: nat)
    requires g.Valid() && |r| == g.span && s < g.span
    ensures var e := Part(g, r, upper, at)[s];
            if r[s].key != NULL_KEY && InPart(upper, at, r[s].key) then e.key == r[s].key && e.value == r[s].value
            else e.key == NULL_KEY
  {
  }

  lemma PartContents(g: Geometry, r: Leaf, upper: bool, at: Key)
    requires g.Valid() && |r| == g.span && DistinctKeys(r) && DistinctKeys(Part(g, r, upper, at))
    ensures Contents(Part(g, r, upper, at)) == PartMap(Contents(r), upper, at)
  {
    hide Part, DistinctKeys, Contents;
    var p := Part(g, r, upper, at);
    var m := PartMap(Contents(r), upper, at);
    forall s | 0 <= s < |p| && p[s].key != NULL_KEY ensures p[s].key in m && m[p[s].key] == p[s].value {
      PartKey(g, r, upper, at, s);
    }
    forall k | k in m ensures k != NULL_KEY && exists s :: 0 <= s < |p| && p[s].key == k {
      var s :| 0 <= s < |r| && r[s].key == k;
      PartKey(g, r, upper, at, s);
      assert p[s].key == k;
    }
    SameContents(p, m);
  }

  /** Up to its own first empty slot, a part holds the very keys of the leaf. */
  lemma PartKeysBelow(g: Geometry, r: Leaf, upper: bool, at: Key, b: nat, j: nat)
    requires g.Valid() && |r| == g.span && Hole(g, Part(g, r, upper, at), b, j)
    ensures SameKeysBelow(g, r, Part(g, r, upper, at), b, j)
  {
    var p := Part(g, r, upper, at);
    forall i | b <= i < j ensures r[g.Slot(i)].key == p[g.Slot(i)].key {
      assert p[g.Slot(i)].key != NULL_KEY;
    }
  }

  lemma PartHole(g: Geometry, r: Leaf, upper: bool, at: Key, b: nat, q: nat) returns (e: int)
    requires Inv(g, r) && at != NULL_KEY && b < g.span && b <= q < b + g.span
    requires !InPart(upper, at, r[g.Slot(q)].key)
    ensures e == FirstEmpty(g, Part(g, r, upper, at), b, b + g.span) && b <= e <= q
    ensures HoleAt(g, Part(g, r, upper, at), b, e)
  {
    PartInv(g, r, upper, at);
    PartKey(g, r, upper, at, g.Slot(q));
    e := FirstEmpty(g, Part(g, r, upper, at), b, b + g.span);
    FirstEmptyIsHole(g, Part(g, r, upper, at), b, g.span);
  }

  /** If a critical key of the leaf went to the other side, this side takes `k` in. */
  lemma VacatedSlotLetsKeyIn(g: Geometry, r: Leaf, upper: bool, at: Key, k: Key, v: Value, q: nat)
    requires g.Valid() && |r| == g.span && Inv(g, r) && at != NULL_KEY && g.Home(k) <= q < g.Home(k) + g.span
    requires Reaches(g, r, g.Home(k), q) && !InPart(upper, at, r[g.Slot(q)].key)
    ensures HopInsert(g, Part(g, r, upper, at), k, v, g.span).Placed?
  {
    hide *;
    var b, p := g.Home(k), Part(g, r, upper, at);
    var e := PartHole(g, r, upper, at, b, q);
    PartKeysBelow(g, r, upper, at, b, e);
    ReachesDown(g, r, b, q, e);
    ReachesAgrees(g, r, p, b, e);
    RunSucceedsIffReaches(g, p, b, e, k, v);
    HopInsertRuns(g, p, k, v);
  }

  lemma HopInsertRuns(g: Geometry, r: Leaf, k: Key, v: Value)
    requires g.Valid() && |r| == g.span
    ensures var b := g.Home(k);
            var e := FirstEmpty(g, r, b, b + g.span);
            e != -1 ==> HopInsert(g, r, k, v, g.span) == HopRun(g, r, b, e, k, v)
  {
    hide HopRun, FirstEmpty, Geometry.Home;
  }

  /** A leaf that will not take `k` holds at least one critical key, the one in `k`'s home slot. */
  lemma HomeKeyIsCritical(g: Geometry, r: Leaf, k: Key, v: Value)
    requires g.Valid() && |r| == g.span && Inv(g, r) && HopInsert(g, r, k, v, g.span) == Stuck
    ensures CriticalKeys(g, r, g.Home(k), g.Home(k)) != []
  {
    StuckIff(g, r, k, v);
    var b := g.Home(k);
    var e := FirstEmpty(g, r, b, b + g.span);
    ReachesUnfolds(g, r, b, b);
    assert e != b;
    assert r[g.Slot(b)].key != NULL_KEY;
  }

  lemma CriticalWithKeyNoDup(g: Geometry, r: Leaf, k: Key)
    requires Inv(g, r) && k !in Contents(r)
    ensures NoDup(CriticalKeys(g, r, g.Home(k), g.Home(k)) + [k])
  {
    var critical := CriticalKeys(g, r, g.Home(k), g.Home(k));
    CriticalKeysNoDup(g, r, g.Home(k), g.Home(k));
    if k in critical {
      var q := CriticalSlot(g, r, g.Home(k), g.Home(k), k);
      assert false;
    }
  }

  /** After a split of a full or blocked leaf at the computed key, both sides are sound, they share
      out the keys by the split key, and the side that `k` belongs to takes `k` in. */
  lemma SplitThenInsertSucceeds(g: Geometry, r: Leaf, k: Key, v: Value)
    requires g.Valid() && |r| == g.span && Inv(g, r) && k != NULL_KEY && k !in Contents(r)
    requires HopInsert(g, r, k, v, g.span) == Stuck
    ensures var at := SplitKey(g, r, k);
            && at != NULL_KEY
            && HopInsert(g, Part(g, r, at <= k, at), k, v, g.span).Placed?
            && exists c :: c in Contents(r) && !InPart(at <= k, at, c)
  {
    hide InNeighborhood, BitmapsExact, DistinctKeys, HopInsert, SplitKey, Part, Contents, Reaches, CriticalKeys, Sort, InPart;
    var b := g.Home(k);
    var critical := CriticalKeys(g, r, b, b);
    HomeKeyIsCritical(g, r, k, v);
    CriticalWithKeyNoDup(g, r, k);
    var c := MedianSeparates(critical, k);
    SplitKeyIsMedian(g, r, k);
    var at := SplitKey(g, r, k);
    var q := CriticalSlot(g, r, b, b, c);
    PartOtherSide(at, k, c);
    assert c in Contents(r) && !InPart(at <= k, at, c);
    VacatedSlotLetsKeyIn(g, r, at <= k, at, k, v, q);
  }

  lemma SplitKeyIsMedian(g: Geometry, r: Leaf, k: Key)
    requires g.Valid() && |r| == g.span && k != NULL_KEY
    ensures var all := Sort(CriticalKeys(g, r, g.Home(k), g.Home(k)) + [k]);
            SplitKey(g, r, k) == all[|all| / 2] && SplitKey(g, r, k) != NULL_KEY
  {
    var critical := CriticalKeys(g, r, g.Home(k), g.Home(k));
    var all := Sort(critical + [k]);
    var at := all[|all| / 2];
    SameElements(critical + [k], all, at);
    if at != k {
      var q := CriticalSlot(g, r, g.Home(k), g.Home(k), at);
    }
  }

  lemma PartOtherSide(at: Key, k: Key, c: Key)
    requires if k < at then at <= c else c < at
    ensures !InPart(at <= k, at, c)
  {
  }

  // ----- the split as it runs -----

  /** The hash of the key at `h`, corrected by one turn, is the key's logical home. */
  lemma HashCornerCase(g: Geometry, r: Leaf, h: nat)
    requires g.Valid() && |r| == g.span && InNeighborhood(g, r) && h < 2 * g.span && r[g.Slot(h)].key != NULL_KEY
    ensures var x := g.Home(r[g.Slot(h)].key);
            LHome(g, r, h) == if h - x < 0 then x - g.span else if g.neighbor <= h - x then x + g.span else x
  {
  }

  method ProbeKeyHop(g: Geometry, records: array<Entry>, j: nat) returns (h: int)
    requires g.Valid() && records.Length == g.span && InNeighborhood(g, records[..])
    requires g.neighbor <= j < 2 * g.span
    requires forall i :: j - g.neighbor < i < j ==> records[g.Slot(i)].key != NULL_KEY
    ensures h == KeyHop(g, records[..], j, g.neighbor - 1)
  {
    hide InNeighborhood, LHome;
    var offset := g.neighbor - 1;
    while 0 < offset
      invariant 0 <= offset < g.neighbor
      invariant KeyHop(g, records[..], j, g.neighbor - 1) == KeyHop(g, records[..], j, offset)
    {
      h := j - offset;
      var home: int := g.Home(records[g.Slot(h)].key);
      HashCornerCase(g, records[..], h);
      if h - home < 0 {
        home := home - g.span;
      } else if g.neighbor <= h - home {
        home := home + g.span;
      }
      if j < home + g.neighbor {
        return;
      }
      offset := offset - 1;
    }
    h := -1;
  }

  /** Follows the hops that an empty slot at `p` would trigger, without moving anything. */
  method TryReach(g: Geometry, records: array<Entry>, b: nat, p: nat) returns (reached: bool)
    requires g.Valid() && records.Length == g.span && InNeighborhood(g, records[..])
    requires b < g.span && b <= p < b + g.span
    requires forall i :: b <= i < p ==> records[g.Slot(i)].key != NULL_KEY
    ensures reached == Reaches(g, records[..], b, p)
  {
    hide InNeighborhood, KeyHop, Reaches;
    var j := p;
    ghost var r := records[..];
    ReachesUnfolds(g, r, b, j);
    while b + g.neighbor <= j
      invariant b <= j <= p
      invariant Reaches(g, r, b, p) <==> Reaches(g, r, b, j)
      decreases j
    {
      ReachesUnfolds(g, r, b, j);
      var h := ProbeKeyHop(g, records, j);
      if h == -1 {
        return false;
      }
      j := h;
    }
    ReachesUnfolds(g, r, b, j);
    reached := true;
  }

  method GetSplitKey(g: Geometry, records: array<Entry>, k: Key) returns (at: Key)
    requires g.Valid() && records.Length == g.span && InNeighborhood(g, records[..])
    ensures at == SplitKey(g, records[..], k)
  {
    hide InNeighborhood, Reaches, CriticalKeys, Sort, Geometry.Home;
    var b := g.Home(k);
    ghost var r := records[..];
    var critical: seq<Key> := [];
    var p := b;
    while p < b + g.span && records[g.Slot(p)].key != NULL_KEY
      invariant b <= p <= b + g.span
      invariant critical + CriticalKeys(g, r, b, p) == CriticalKeys(g, r, b, b)
      invariant forall i :: b <= i < p ==> records[g.Slot(i)].key != NULL_KEY
    {
      var reached := TryReach(g, records, b, p);
      CriticalStep(g, r, b, p);
      if reached {
        critical := critical + [records[g.Slot(p)].key];
      }
      p := p + 1;
    }
    CriticalStep(g, r, b, p);
    assert critical == CriticalKeys(g, r, b, b);
    var all := Sort(critical + [k]);
    at := all[|all| / 2];
  }

  /** The two sides after the slots below `i` have been looked at. */
  function LowSoFar(g: Geometry, r: Leaf, at: Key, i: nat, s: nat): Entry
    requires g.Valid() && |r| == g.span && s < g.span
  {
    var gone := s < i && r[s].key != NULL_KEY && at <= r[s].key;
    Entry(if gone then NULL_KEY else r[s].key,
          if gone then NULL_VALUE else r[s].value,
          set o | o in r[s].hop && o < g.span && !(g.At(s, o) < i && at <= r[g.At(s, o)].key))
  }

  function HighSoFar(g: Geometry, r: Leaf, at: Key, i: nat, s: nat): Entry
    requires g.Valid() && |r| == g.span && s < g.span
  {
    var here := s < i && r[s].key != NULL_KEY && at <= r[s].key;
    Entry(if here then r[s].key else NULL_KEY,
          if here then r[s].value else NULL_VALUE,
          set o | o in r[s].hop && o < g.span && g.At(s, o) < i && at <= r[g.At(s, o)].key)
  }

  ghost predicate SplitSoFar(g: Geometry, r: Leaf, low: Leaf, high: Leaf, at: Key, i: nat) {
    && g.Valid() && |r| == g.span && |low| == g.span && |high| == g.span
    && (forall s :: 0 <= s < g.span ==> low[s] == LowSoFar(g, r, at, i, s))
    && (forall s :: 0 <= s < g.span ==> high[s] == HighSoFar(g, r, at, i, s))
  }

  lemma SplitStart(g: Geometry, r: Leaf, high: Leaf, at: Key)
    requires Inv(g, r) && |high| == g.span
    requires forall s :: 0 <= s < g.span ==> high[s] == Entry(NULL_KEY, NULL_VALUE, {})
    ensures SplitSoFar(g, r, r, high, at, 0)
  {
    forall s | 0 <= s < g.span ensures r[s].hop == LowSoFar(g, r, at, 0, s).hop {
      assert forall o :: o in r[s].hop ==> o < g.neighbor;
    }
  }

  /** A slot whose key stays, or that is empty, changes nothing. */
  lemma SplitSkip(g: Geometry, r: Leaf, low: Leaf, high: Leaf, at: Key, i: nat)
    requires Inv(g, r) && i < g.span && SplitSoFar(g, r, low, high, at, i) && at != NULL_KEY
    requires r[i].key == NULL_KEY || r[i].key < at
    ensures SplitSoFar(g, r, low, high, at, i + 1)
  {
    hide InNeighborhood, BitmapsExact, DistinctKeys, LowSoFar, HighSoFar;
    forall s | 0 <= s < g.span
      ensures LowSoFar(g, r, at, i, s) == LowSoFar(g, r, at, i + 1, s)
      ensures HighSoFar(g, r, at, i, s) == HighSoFar(g, r, at, i + 1, s)
    {
      SkipSlot(g, r, at, i, s);
    }
  }

  lemma SkipSlot(g: Geometry, r: Leaf, at: Key, i: nat, s: nat)
    requires g.Valid() && |r| == g.span && i < g.span && s < g.span && at != NULL_KEY
    requires r[i].key == NULL_KEY || r[i].key < at
    ensures LowSoFar(g, r, at, i, s) == LowSoFar(g, r, at, i + 1, s)
    ensures HighSoFar(g, r, at, i, s) == HighSoFar(g, r, at, i + 1, s)
  {
    assert forall o :: o in r[s].hop && o < g.span && g.At(s, o) == i ==> r[g.At(s, o)].key < at;
  }

  /** A key that leaves takes its bit along. */
  lemma SplitMove(g: Geometry, r: Leaf, low: Leaf, high: Leaf, at: Key, i: nat, low': Leaf, high': Leaf)
    requires Inv(g, r) && i < g.span && SplitSoFar(g, r, low, high, at, i)
    requires r[i].key != NULL_KEY && at <= r[i].key
    requires var h := g.Home(r[i].key);
             var o := g.Off(h, i);
             var l1 := low[i := low[i].(key := NULL_KEY, value := NULL_VALUE)];
             var h1 := high[i := high[i].(key := r[i].key, value := r[i].value)];
             && low' == l1[h := l1[h].(hop := l1[h].hop - {o})]
             && high' == h1[h := h1[h].(hop := h1[h].hop + {o})]
    ensures SplitSoFar(g, r, low', high', at, i + 1)
    ensures g.Off(g.Home(r[i].key), i) in low[g.Home(r[i].key)].hop
    ensures g.Off(g.Home(r[i].key), i) !in high[g.Home(r[i].key)].hop
  {
    var h := g.Home(r[i].key);
    var o := g.Off(h, i);
    assert o in r[h].hop && g.At(h, o) == i;
    forall s | 0 <= s < g.span
      ensures low'[s] == LowSoFar(g, r, at, i + 1, s) && high'[s] == HighSoFar(g, r, at, i + 1, s)
    {
      SplitMoveBits(g, r, at, i, s);
    }
  }

  /** The only bit that slot `i` decides is the one in the home of its key. */
  lemma SplitMoveBits(g: Geometry, r: Leaf, at: Key, i: nat, s: nat)
    requires Inv(g, r) && i < g.span && s < g.span && r[i].key != NULL_KEY && at <= r[i].key
    ensures var h := g.Home(r[i].key);
            var o := g.Off(h, i);
            && LowSoFar(g, r, at, i + 1, s).hop == LowSoFar(g, r, at, i, s).hop - (if s == h then {o} else {})
            && HighSoFar(g, r, at, i + 1, s).hop == HighSoFar(g, r, at, i, s).hop + (if s == h then {o} else {})
  {
    var h := g.Home(r[i].key);
    var o := g.Off(h, i);
    assert o in r[h].hop && g.At(h, o) == i;
    forall x | x in r[s].hop && x < g.span && g.At(s, x) == i ensures s == h && x == o {
      assert g.Off(s, i) in r[s].hop <==> Owns(g, r, s, i);
    }
  }

  lemma SplitEnd(g: Geometry, r: Leaf, low: Leaf, high: Leaf, at: Key)
    requires Inv(g, r) && SplitSoFar(g, r, low, high, at, g.span) && at != NULL_KEY
    ensures low == Part(g, r, false, at) && high == Part(g, r, true, at)
  {
    forall s | 0 <= s < g.span
      ensures low[s] == PartEntry(g, r, false, at, s) && high[s] == PartEntry(g, r, true, at, s)
    {
    }
  }

  /** Moves every key from `at` up into the same slot of the sibling, with its hop bit. */
  method MoveUpper(g: Geometry, records: array<Entry>, sibling: array<Entry>, at: Key)
    requires g.Valid() && records.Length == g.span && sibling.Length == g.span && records != sibling
    requires Inv(g, records[..]) && at != NULL_KEY
    requires forall s :: 0 <= s < g.span ==> sibling[s] == Entry(NULL_KEY, NULL_VALUE, {})
    modifies records, sibling
    ensures records[..] == Part(g, old(records[..]), false, at)
    ensures sibling[..] == Part(g, old(records[..]), true, at)
  {
    hide Inv, Part, SplitSoFar;
    ghost var r := records[..];
    SplitStart(g, r, sibling[..], at);
    for i := 0 to g.span
      invariant SplitSoFar(g, r, records[..], sibling[..], at, i)
    {
      MoveOne(g, records, sibling, at, i, r);
    }
    SplitEnd(g, r, records[..], sibling[..], at);
  }

  method MoveOne(g: Geometry, records: array<Entry>, sibling: array<Entry>, at: Key, i: nat, ghost r: Leaf)
    requires g.Valid() && records.Length == g.span && sibling.Length == g.span && records != sibling
    requires i < g.span && at != NULL_KEY && |r| == g.span && Inv(g, r)
    requires SplitSoFar(g, r, records[..], sibling[..], at, i)
    modifies records, sibling
    ensures SplitSoFar(g, r, records[..], sibling[..], at, i + 1)
  {
    ghost var low, high := records[..], sibling[..];
    SlotUntouched(g, r, low, high, at, i);
    hide Inv, SplitSoFar;
    var e := records[i];
    if e.key != NULL_KEY && at <= e.key {
      var h := g.Home(e.key);
      var offset := if h <= i then i - h else i + g.span - h;
      ghost var l1 := low[i := low[i].(key := NULL_KEY, value := NULL_VALUE)];
      ghost var h1 := high[i := high[i].(key := e.key, value := e.value)];
      SplitMove(g, r, low, high, at, i, l1[h := l1[h].(hop := l1[h].hop - {offset})],
                h1[h := h1[h].(hop := h1[h].hop + {offset})]);
      sibling[i] := sibling[i].(key := e.key, value := e.value);
      records[i] := records[i].(key := NULL_KEY, value := NULL_VALUE);
      SetHopBit(g, sibling, h, offset);
      UnsetHopBit(g, records, h, offset);
    } else {
      SplitSkip(g, r, low, high, at, i);
    }
  }

  lemma SlotUntouched(g: Geometry, r: Leaf, low: Leaf, high: Leaf, at: Key, i: nat)
    requires i < g.span && SplitSoFar(g, r, low, high, at, i)
    ensures low[i].key == r[i].key && low[i].value == r[i].value
  {
  }

  /** The slots that an attempt lists end with the one that takes `k`. */
  lemma {:induction false} LastHoppedTakesKey(g: Geometry, r: Leaf, b: nat, j: nat, k: Key, v: Value)
    requires g.Valid() && |r| == g.span && b < g.span && b <= j < b + g.span
    ensures var res := HopRun(g, r, b, j, k, v);
            res.Placed? ==>
              && res.hopped != []
              && var last := res.hopped[|res.hopped| - 1]; last < g.span && res.records[last].key == k
    decreases j
  {
    hide HopRun, NextHop, MoveKey;
    if b + g.neighbor <= j {
      var h, r' := HopRunStep(g, r, b, j, k, v);
      if h != -1 {
        LastHoppedTakesKey(g, r', b, h, k, v);
      }
    } else {
      HopRunPlaces(g, r, b, j, k, v);
    }
  }

  lemma HopRunPlaces(g: Geometry, r: Leaf, b: nat, j: nat, k: Key, v: Value)
    requires g.Valid() && |r| == g.span && b < g.span && b <= j < b + g.neighbor
    ensures var res := HopRun(g, r, b, j, k, v);
            res.Placed? && res.hopped == [g.Slot(j)] && res.records[g.Slot(j)].key == k
  {
  }

  /** The local insertion; its caller guarantees that it finds room. Returns the slot of the key. */
  method InsertLocally(g: Geometry, records: array<Entry>, k: Key, v: Value) returns (slot: nat)
    requires g.Valid() && records.Length == g.span && Inv(g, records[..]) && k != NULL_KEY
    requires HopInsert(g, records[..], k, v, g.span).Placed?
    modifies records
    ensures records[..] == HopInsert(g, old(records[..]), k, v, g.span).records
    ensures slot < g.span && records[slot].key == k
    ensures k !in old(Contents(records[..])) ==>
              Inv(g, records[..]) && Contents(records[..]) == old(Contents(records[..]))[k := v]
  {
    hide InNeighborhood, BitmapsExact, DistinctKeys, HopInsert, HopRun, FirstEmpty, Contents, Geometry.Home;
    if k !in Contents(records[..]) {
      HopInsertCorrect(g, records[..], k, v, g.span);
    }
    var e := HopInsertIs(g, records[..], k, v, g.span);
    LastHoppedTakesKey(g, records[..], g.Home(k), e, k, v);
    var ok, hopped := InsertInPlace(g, records, k, v, g.span);
    slot := hopped[|hopped| - 1];
  }

  /** The first slot of the largest key among the first `n` slots. */
  function MaxScan(r: Leaf, n: nat): (idx: nat)
    requires 0 < n <= |r|
    ensures idx < n && forall s :: 0 <= s < n ==> r[s].key <= r[idx].key
  {
    if n == 1 then 0
    else
      var i := MaxScan(r, n - 1);
      if r[i].key < r[n - 1].key then n - 1 else i
  }

  /** The slot of the largest key, or slot 0 of an empty leaf. */
  method MaxKeyIdx(g: Geometry, records: array<Entry>) returns (idx: nat)
    requires g.Valid() && records.Length == g.span
    ensures idx == MaxScan(records[..], g.span)
  {
    var maxKey := NULL_KEY;
    idx := 0;
    for i := 0 to g.span
      invariant 0 < i ==> idx == MaxScan(records[..], i) && maxKey == records[idx].key
      invariant i == 0 ==> idx == 0 && maxKey == NULL_KEY
    {
      if maxKey < records[i].key {
        maxKey, idx := records[i].key, i;
      }
    }
  }

  // ----- the two leaves after a split -----

  /** A side once the pending key is in. */
  function Filled(g: Geometry, p: Leaf, k: Key, v: Value): (q: Leaf)
    requires g.Valid() && |p| == g.span
    ensures |q| == g.span
  {
    var res := HopInsert(g, p, k, v, g.span);
    if res.Placed? then res.records else p
  }

  function SplitLow(g: Geometry, r: Leaf, k: Key, v: Value): (p: Leaf)
    requires g.Valid() && |r| == g.span
    ensures |p| == g.span
  {
    var at := SplitKey(g, r, k);
    var p := Part(g, r, false, at);
    if k < at then Filled(g, p, k, v) else p
  }

  function SplitHigh(g: Geometry, r: Leaf, k: Key, v: Value): (p: Leaf)
    requires g.Valid() && |r| == g.span
    ensures |p| == g.span
  {
    var at := SplitKey(g, r, k);
    var p := Part(g, r, true, at);
    if k < at then p else Filled(g, p, k, v)
  }

  /** What a split leaves behind: two sound leaves whose keys lie on the two sides of `separator`
      and together are the old keys and the new one. */
  ghost predicate SplitResult(g: Geometry, was: Leaf, low: Leaf, high: Leaf, k: Key, v: Value, separator: Key) {
    && Inv(g, was) && Inv(g, low) && Inv(g, high)
    && (forall q :: q in Contents(low) ==> q < separator)
    && (forall q :: q in Contents(high) ==> separator <= q)
    && Contents(low) + Contents(high) == Contents(was)[k := v]
    && Contents(low) != map[] && Contents(high) != map[]
  }

  lemma PartMapJoin(m: map<Key, Value>, at: Key, k: Key, v: Value)
    requires k !in m
    ensures var low := if k < at then PartMap(m, false, at)[k := v] else PartMap(m, false, at);
            var high := if k < at then PartMap(m, true, at) else PartMap(m, true, at)[k := v];
            low + high == m[k := v]
  {
  }

  lemma MaxIsInContents(r: Leaf, maxIdx: nat)
    requires DistinctKeys(r) && maxIdx < |r| && forall s :: 0 <= s < |r| ==> r[s].key <= r[maxIdx].key
    ensures forall q :: q in Contents(r) ==> q <= r[maxIdx].key
    ensures Contents(r) != map[] ==> r[maxIdx].key in Contents(r)
  {
    if Contents(r) != map[] {
      var q :| q in Contents(r);
      assert r[maxIdx].key != NULL_KEY;
    }
  }

  /** Largest key plus one on the left still separates the two halves. */
  lemma SeparatorSeparates(g: Geometry, r: Leaf, low: Leaf, high: Leaf, k: Key, v: Value, at: Key, maxIdx: nat)
    requires Inv(g, r) && Inv(g, low) && Inv(g, high) && k !in Contents(r) && maxIdx < g.span
    requires forall s :: 0 <= s < g.span ==> low[s].key <= low[maxIdx].key
    requires var m := Contents(r);
             && Contents(low) == (if k < at then PartMap(m, false, at)[k := v] else PartMap(m, false, at))
             && Contents(high) == (if k < at then PartMap(m, true, at) else PartMap(m, true, at)[k := v])
             && PartMap(m, k < at, at) != map[]
    ensures SplitResult(g, r, low, high, k, v, low[maxIdx].key + 1)
  {
    hide InNeighborhood, BitmapsExact, DistinctKeys, Contents;
    PartMapJoin(Contents(r), at, k, v);
    MaxIsInContents(low, maxIdx);
    assert k in if k < at then Contents(low) else Contents(high);
  }

  lemma FilledIs(g: Geometry, p: Leaf, k: Key, v: Value)
    requires Inv(g, p) && k != NULL_KEY && k !in Contents(p) && HopInsert(g, p, k, v, g.span).Placed?
    ensures Inv(g, Filled(g, p, k, v)) && Contents(Filled(g, p, k, v)) == Contents(p)[k := v]
  {
    hide InNeighborhood, BitmapsExact, DistinctKeys, Contents, HopInsert;
    HopInsertCorrect(g, p, k, v, g.span);
  }

  /** The split of a full or blocked leaf: two sound leaves, not empty, that share the old keys and
      the new one by the separator re-derived from the largest key on the left. */
  lemma SplitIs(g: Geometry, r: Leaf, k: Key, v: Value)
    requires g.Valid() && |r| == g.span && Inv(g, r) && k != NULL_KEY && k !in Contents(r)
    requires HopInsert(g, r, k, v, g.span) == Stuck
    ensures var low, high := SplitLow(g, r, k, v), SplitHigh(g, r, k, v);
            SplitResult(g, r, low, high, k, v, low[MaxScan(low, g.span)].key + 1)
  {
    hide InNeighborhood, BitmapsExact, DistinctKeys, Contents, HopInsert, SplitKey, Part, SplitResult, Filled;
    SplitThenInsertSucceeds(g, r, k, v);
    var at := SplitKey(g, r, k);
    PartInv(g, r, false, at);
    PartInv(g, r, true, at);
    PartContents(g, r, false, at);
    PartContents(g, r, true, at);
    var c :| c in Contents(r) && !InPart(at <= k, at, c);
    assert c in PartMap(Contents(r), k < at, at);
    FilledIs(g, Part(g, r, at <= k, at), k, v);
    var low, high := SplitLow(g, r, k, v), SplitHigh(g, r, k, v);
    SeparatorSeparates(g, r, low, high, k, v, at, MaxScan(low, g.span));
  }

  /** Splits the leaf at the computed key, inserts the pending pair on its side, and returns the
      separator re-derived from the largest key on the left, with the slots of both largest keys. */
  method SplitAndInsert(g: Geometry, records: array<Entry>, sibling: array<Entry>, k: Key, v: Value)
      returns (separator: Key, maxIdx: nat, siblingMaxIdx: nat)
    requires g.Valid() && records.Length == g.span && sibling.Length == g.span && records != sibling
    requires Inv(g, records[..]) && k != NULL_KEY && k !in Contents(records[..])
    requires HopInsert(g, records[..], k, v, g.span) == Stuck
    requires forall s :: 0 <= s < g.span ==> sibling[s] == Entry(NULL_KEY, NULL_VALUE, {})
    modifies records, sibling
    ensures records[..] == SplitLow(g, old(records[..]), k, v) && sibling[..] == SplitHigh(g, old(records[..]), k, v)
    ensures SplitResult(g, old(records[..]), records[..], sibling[..], k, v, separator)
    ensures maxIdx == MaxScan(records[..], g.span) && siblingMaxIdx == MaxScan(sibling[..], g.span)
    ensures separator == records[maxIdx].key + 1
  {
    hide InNeighborhood, BitmapsExact, DistinctKeys, Contents, HopInsert, SplitResult, SplitKey, Part, MaxScan, Geometry.Home;
    ghost var r := records[..];
    SplitIs(g, r, k, v);
    SplitThenInsertSucceeds(g, r, k, v);
    var at := GetSplitKey(g, records, k);
    PartInv(g, r, at <= k, at);
    MoveUpper(g, records, sibling, at);
    if k < at {
      var slot := InsertLocally(g, records, k, v);
    } else {
      var slot := InsertLocally(g, sibling, k, v);
    }
    maxIdx := MaxKeyIdx(g, records);
    siblingMaxIdx := MaxKeyIdx(g, sibling);
    separator := records[maxIdx].key + 1;
  }
}
