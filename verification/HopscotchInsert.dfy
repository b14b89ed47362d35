/** Hop insertion into a hopscotch leaf: the greedy displacement of keys from the first
    empty slot back towards the home of the new key. */
module HopscotchInsert {
  import opened HopscotchLeaf
  import opened Arith

  /** What one insertion attempt does: the new leaf and the slots it wrote, or nothing. */
  datatype HopResult = Stuck | Placed(records: Leaf, hopped: seq<nat>)

  /** The first empty logical index at or after `i` and before `end`, or -1. */
  function FirstEmpty(g: Geometry, r: Leaf, i: nat, end: nat): (e: int)
    requires g.Valid() && |r| == g.span && i <= end <= 2 * g.span
    ensures e == -1 || (i <= e < end && r[g.Slot(e)].key == NULL_KEY)
    ensures forall p :: i <= p < (if e == -1 then end else e) ==> r[g.Slot(p)].key != NULL_KEY
    decreases end - i
  {
    if i == end then -1
    else if r[g.Slot(i)].key == NULL_KEY then i
    else FirstEmpty(g, r, i + 1, end)
  }

  /** The home from which the key at `h` may hop to `j`, trying offsets `z` downwards, or -1. */
  function HopHome(g: Geometry, r: Leaf, j: nat, h: nat, z: int): (home: int)
    requires g.Valid() && |r| == g.span && g.neighbor <= j < 2 * g.span
    requires j - g.neighbor < h < j && -1 <= z < g.neighbor
    ensures home == -1 ||
            (0 < home && 0 <= h - home <= z && j < home + g.neighbor && h - home in r[g.Slot(home)].hop)
    ensures home == -1 ==>
              forall y :: j - g.neighbor < y <= h && h - y <= z ==> h - y !in r[g.Slot(y)].hop
    decreases z + 1
  {
    if z < 0 then -1
    else if j < h - z + g.neighbor && z in r[g.Slot(h - z)].hop then h - z
    else HopHome(g, r, j, h, z - 1)
  }

  /** Some bit lets the key at `h` hop to `j`. */
  predicate CanHop(g: Geometry, r: Leaf, j: nat, h: nat)
    requires g.Valid() && |r| == g.span && g.neighbor <= j < 2 * g.span && j - g.neighbor < h < j
  {
    HopHome(g, r, j, h, g.neighbor - 1) != -1
  }

  /** The farthest slot, and its key's home, that may hop to `j`, trying `offset` downwards. */
  function NextHop(g: Geometry, r: Leaf, j: nat, offset: int): (hop: (int, int))
    requires g.Valid() && |r| == g.span && g.neighbor <= j < 2 * g.span
    requires 0 <= offset < g.neighbor
    ensures hop == (-1, -1) ||
            (j - offset <= hop.0 < j && hop.1 == HopHome(g, r, j, hop.0, g.neighbor - 1) && hop.1 != -1)
    ensures forall h :: j - offset <= h < (if hop.0 == -1 then j else hop.0) ==> !CanHop(g, r, j, h)
    decreases offset
  {
    if offset == 0 then (-1, -1)
    else
      var home := HopHome(g, r, j, j - offset, g.neighbor - 1);
      if home != -1 then (j - offset, home) else NextHop(g, r, j, offset - 1)
  }

  /** Hops the hole at `j` back until it lies in the neighbourhood of `b`, then places `k` there. */
  function HopRun(g: Geometry, r: Leaf, b: nat, j: nat, k: Key, v: Value): (res: HopResult)
    requires g.Valid() && |r| == g.span && b < g.span && b <= j < b + g.span
    ensures res.Placed? ==> |res.records| == g.span
    decreases j
  {
    if j < b + g.neighbor then
      Placed(Place(g, r, b, g.Slot(j), k, v), [g.Slot(j)])
    else
      var (h, home) := NextHop(g, r, j, g.neighbor - 1);
      if h == -1 then Stuck
      else
        match HopRun(g, MoveKey(g, r, g.Slot(home), g.Slot(h), g.Slot(j)), b, h, k, v)
        case Stuck => Stuck
        case Placed(r', hopped) => Placed(r', [g.Slot(j)] + hopped)
  }

  /** The whole attempt over the `entryNum` slots that were read. */
  function HopInsert(g: Geometry, r: Leaf, k: Key, v: Value, entryNum: nat): (res: HopResult)
    requires g.Valid() && |r| == g.span && entryNum <= g.span
    ensures res.Placed? ==> |res.records| == g.span
  {
    var b := g.Home(k);
    var e := FirstEmpty(g, r, b, b + entryNum);
    if e == -1 then Stuck else HopRun(g, r, b, e, k, v)
  }

  // ----- logical indices -----

  /** The logical home of the key at logical index `i`. */
  function LHome(g: Geometry, r: Leaf, i: nat): int
    requires g.Valid() && |r| == g.span && i < 2 * g.span
  {
    i - g.Off(g.Home(r[g.Slot(i)].key), g.Slot(i))
  }

  /** The home computed for `h - z` by wrapping and then correcting is `h - z` itself. */
  lemma CornerCase(g: Geometry, h: nat, z: nat)
    requires g.Valid() && h < 2 * g.span && z < g.neighbor && z < h + g.span
    ensures var w := g.Slot(h - z);
            h - z == if h - w < 0 then w - g.span else if h - w >= g.neighbor then w + g.span else w
  {
  }

  lemma SlotIsModulo(g: Geometry, i: int)
    requires g.Valid() && 0 <= i + g.span && i < 2 * g.span
    ensures g.Slot(i) == (i + g.span) % g.span
  {
    DivModIs(i + g.span, g.span, if i < 0 then 0 else if i < g.span then 1 else 2, g.Slot(i));
  }

  /** The bit test of the hop loop decides exactly whether the key at `h` may move to `j`. */
  lemma HopHomeExact(g: Geometry, r: Leaf, j: nat, h: nat)
    requires Inv(g, r) && g.neighbor <= j < 2 * g.span && j - g.neighbor < h < j
    requires r[g.Slot(h)].key != NULL_KEY
    ensures HopHome(g, r, j, h, g.neighbor - 1) ==
            if j < LHome(g, r, h) + g.neighbor then LHome(g, r, h) else -1
  {
    var x := HopHome(g, r, j, h, g.neighbor - 1);
    var l := LHome(g, r, h);
    var sh := g.Slot(h);
    assert Owns(g, r, g.Home(r[sh].key), sh);
    assert h - l < g.neighbor;
    if x != -1 {
      assert g.Off(g.Slot(x), sh) == h - x;
      assert Owns(g, r, g.Slot(x), sh);
    }
    if j < l + g.neighbor {
      assert g.Slot(l) == g.Home(r[sh].key);
      assert h - l in r[g.Slot(l)].hop;
    }
  }

  // ----- what every hop keeps -----

  /** From `b` on, the first empty logical index is `j`. */
  ghost predicate Hole(g: Geometry, r: Leaf, b: nat, j: nat) {
    && g.Valid() && |r| == g.span && b < g.span && b <= j < b + g.span
    && r[g.Slot(j)].key == NULL_KEY
    && (forall p :: b <= p < j ==> r[g.Slot(p)].key != NULL_KEY)
  }

  ghost predicate HoleAt(g: Geometry, r: Leaf, b: nat, j: nat) {
    Inv(g, r) && Hole(g, r, b, j)
  }

  /** No key between the chosen slot and the reach of `j` may move to `j`. */
  lemma NextHopLowest(g: Geometry, r: Leaf, b: nat, j: nat, i: nat)
    requires HoleAt(g, r, b, j) && b + g.neighbor <= j && j - g.neighbor < i < j
    requires var h := NextHop(g, r, j, g.neighbor - 1).0; h == -1 || i < h
    ensures LHome(g, r, i) + g.neighbor <= j
  {
    HopHomeExact(g, r, j, i);
    assert !CanHop(g, r, j, i);
  }

  /** The chosen slot holds a key whose home still reaches `j`. */
  lemma NextHopLegal(g: Geometry, r: Leaf, b: nat, j: nat)
    requires HoleAt(g, r, b, j) && b + g.neighbor <= j
    requires NextHop(g, r, j, g.neighbor - 1).0 != -1
    ensures var (h, home) := NextHop(g, r, j, g.neighbor - 1);
            && b < home <= h < j && home == LHome(g, r, h) && j < home + g.neighbor
            && g.Off(g.Slot(home), g.Slot(h)) == h - home
            && g.Off(g.Slot(home), g.Slot(j)) == j - home
            && LegalMove(g, r, g.Slot(home), g.Slot(h), g.Slot(j))
  {
    hide NextHop, HopHome;
    var (h, home) := NextHop(g, r, j, g.neighbor - 1);
    HopHomeExact(g, r, j, h);
    LegalHop(g, r, b, j, h, home);
  }

  lemma LegalHop(g: Geometry, r: Leaf, b: nat, j: nat, h: nat, home: int)
    requires HoleAt(g, r, b, j) && b + g.neighbor <= j && j - g.neighbor < h < j
    requires home == LHome(g, r, h) && j < home + g.neighbor
    ensures b < home <= h
    ensures g.Off(g.Slot(home), g.Slot(h)) == h - home
    ensures g.Off(g.Slot(home), g.Slot(j)) == j - home
    ensures LegalMove(g, r, g.Slot(home), g.Slot(h), g.Slot(j))
  {
    hide BitmapsExact, DistinctKeys, Geometry.Home;
    assert r[g.Slot(h)].key != NULL_KEY;
    assert g.Slot(home) == g.Home(r[g.Slot(h)].key) && b < home;
  }

  lemma MovedHole(g: Geometry, r: Leaf, r': Leaf, b: nat, j: nat, h: nat, sg: nat)
    requires Hole(g, r, b, j) && b <= h < j && sg < g.span
    requires Moved(g, r, r', sg, g.Slot(h), g.Slot(j))
    ensures Hole(g, r', b, h)
  {
    forall p | b <= p < h ensures r'[g.Slot(p)].key != NULL_KEY {
      assert r'[g.Slot(p)].key == r[g.Slot(p)].key;
    }
  }

  lemma HopKeepsHole(g: Geometry, r: Leaf, b: nat, j: nat, r': Leaf)
    requires HoleAt(g, r, b, j) && b + g.neighbor <= j
    requires NextHop(g, r, j, g.neighbor - 1).0 != -1
    requires var (h, home) := NextHop(g, r, j, g.neighbor - 1);
             r' == MoveKey(g, r, g.Slot(home), g.Slot(h), g.Slot(j))
    ensures HoleAt(g, r', b, NextHop(g, r, j, g.neighbor - 1).0) && Contents(r') == Contents(r)
  {
    var (h, home) := NextHop(g, r, j, g.neighbor - 1);
    NextHopLegal(g, r, b, j);
    MoveKeyMoved(g, r, g.Slot(home), g.Slot(h), g.Slot(j));
    MovedHole(g, r, r', b, j, h, g.Slot(home));
    MoveKeyInv(g, r, g.Slot(home), g.Slot(h), g.Slot(j));
  }

  /** One unfolding of a run that has to hop: what follows the first hop, and its outcome. */
  lemma HopRunStep(g: Geometry, r: Leaf, b: nat, j: nat, k: Key, v: Value) returns (h: int, r': Leaf)
    requires g.Valid() && |r| == g.span && b < g.span && b + g.neighbor <= j < b + g.span
    ensures h == NextHop(g, r, j, g.neighbor - 1).0 && h < j
    ensures h == -1 ==> HopRun(g, r, b, j, k, v) == Stuck
    ensures h != -1 ==>
              && b <= h
              && r' == MoveKey(g, r, g.Slot(NextHop(g, r, j, g.neighbor - 1).1), g.Slot(h), g.Slot(j))
              && HopRun(g, r, b, j, k, v) ==
                 match HopRun(g, r', b, h, k, v)
                 case Stuck => Stuck
                 case Placed(q, hopped) => Placed(q, [g.Slot(j)] + hopped)
  {
    hide NextHop, MoveKey;
    var hop := NextHop(g, r, j, g.neighbor - 1);
    h := hop.0;
    r' := if h == -1 then r else MoveKey(g, r, g.Slot(hop.1), g.Slot(h), g.Slot(j));
  }

  lemma HopRunBase(g: Geometry, r: Leaf, b: nat, j: nat, k: Key, v: Value)
    requires HoleAt(g, r, b, j) && b == g.Home(k) && k != NULL_KEY && k !in Contents(r) && j < b + g.neighbor
    ensures var res := HopRun(g, r, b, j, k, v);
            res.Placed? && Inv(g, res.records) && Contents(res.records) == Contents(r)[k := v]
  {
    assert g.Off(b, g.Slot(j)) == j - b;
    PlaceInv(g, r, g.Slot(j), k, v);
  }

  /** A successful run keeps the bitmaps exact and adds exactly `k -> v`. */
  lemma {:induction false} HopRunCorrect(g: Geometry, r: Leaf, b: nat, j: nat, k: Key, v: Value)
    requires HoleAt(g, r, b, j) && b == g.Home(k) && k != NULL_KEY && k !in Contents(r)
    ensures var res := HopRun(g, r, b, j, k, v);
            res.Placed? ==> Inv(g, res.records) && Contents(res.records) == Contents(r)[k := v]
    decreases j
  {
    if j < b + g.neighbor {
      HopRunBase(g, r, b, j, k, v);
    } else {
      var h, r' := HopRunStep(g, r, b, j, k, v);
      if h != -1 {
        HopKeepsHole(g, r, b, j, r');
        HopRunCorrect(g, r', b, h, k, v);
      }
    }
  }

  lemma FirstEmptyIsHole(g: Geometry, r: Leaf, b: nat, entryNum: nat)
    requires Inv(g, r) && b < g.span && entryNum <= g.span
    requires FirstEmpty(g, r, b, b + entryNum) != -1
    ensures HoleAt(g, r, b, FirstEmpty(g, r, b, b + entryNum))
  {
  }

  /** The attempt finds no empty slot, or runs from the first one. */
  lemma HopInsertIs(g: Geometry, r: Leaf, k: Key, v: Value, entryNum: nat) returns (e: int)
    requires Inv(g, r) && entryNum <= g.span
    ensures e == FirstEmpty(g, r, g.Home(k), g.Home(k) + entryNum)
    ensures e == -1 ==> HopInsert(g, r, k, v, entryNum) == Stuck
    ensures e != -1 ==> HoleAt(g, r, g.Home(k), e) && HopInsert(g, r, k, v, entryNum) == HopRun(g, r, g.Home(k), e, k, v)
  {
    hide HopRun, FirstEmpty, InNeighborhood, BitmapsExact, DistinctKeys, Geometry.Home;
    e := FirstEmpty(g, r, g.Home(k), g.Home(k) + entryNum);
    if e != -1 {
      FirstEmptyIsHole(g, r, g.Home(k), entryNum);
    }
  }

  lemma HopInsertCorrect(g: Geometry, r: Leaf, k: Key, v: Value, entryNum: nat)
    requires Inv(g, r) && k != NULL_KEY && k !in Contents(r) && entryNum <= g.span
    ensures var res := HopInsert(g, r, k, v, entryNum);
            res.Placed? ==> Inv(g, res.records) && Contents(res.records) == Contents(r)[k := v]
  {
    hide HopInsert, HopRun, FirstEmpty, Hole, InNeighborhood, BitmapsExact, DistinctKeys, Contents, Geometry.Home;
    var e := HopInsertIs(g, r, k, v, entryNum);
    if e != -1 {
      HopRunCorrect(g, r, g.Home(k), e, k, v);
    }
  }

  // ----- which slots an insertion writes -----

  /** The run wrote only slots between `b` and `j`; the slots whose pair changed are listed once
      each, from `j` back towards `b`; no slot between `b` and `j` is left empty. */
  ghost predicate Footprint(g: Geometry, r: Leaf, r1: Leaf, b: nat, j: nat, hopped: seq<nat>) {
    && g.Valid() && |r| == g.span && |r1| == g.span && b < g.span && b <= j < b + g.span
    && (forall s :: 0 <= s < g.span && j - b < g.Off(b, s) ==> r1[s] == r[s])
    && (forall s :: 0 <= s < g.span && s !in hopped ==> r1[s].key == r[s].key && r1[s].value == r[s].value)
    && (forall s :: 0 <= s < g.span && g.Off(b, s) <= j - b ==> r1[s].key != NULL_KEY)
    && (forall x :: 0 <= x < |hopped| ==> hopped[x] < g.span && g.Off(b, hopped[x]) <= j - b)
    && (forall x, y :: 0 <= x < y < |hopped| ==> g.Off(b, hopped[y]) < g.Off(b, hopped[x]))
  }

  lemma FootprintBase(g: Geometry, r: Leaf, b: nat, j: nat, k: Key, v: Value)
    requires Hole(g, r, b, j) && k != NULL_KEY && j < b + g.neighbor
    ensures Footprint(g, r, Place(g, r, b, g.Slot(j), k, v), b, j, [g.Slot(j)])
  {
    var r1 := Place(g, r, b, g.Slot(j), k, v);
    forall s | 0 <= s < g.span && g.Off(b, s) <= j - b ensures r1[s].key != NULL_KEY {
      assert s == g.Slot(b + g.Off(b, s));
    }
  }

  lemma OffSlot(g: Geometry, b: nat, i: nat)
    requires g.Valid() && b < g.span && b <= i < b + g.span
    ensures g.Off(b, g.Slot(i)) == i - b
  {
  }

  lemma FootprintOrder(g: Geometry, b: nat, j: nat, h: nat, hopped: seq<nat>)
    requires g.Valid() && b < g.span && b <= h < j < b + g.span
    requires forall x :: 0 <= x < |hopped| ==> hopped[x] < g.span && g.Off(b, hopped[x]) <= h - b
    requires forall x, y :: 0 <= x < y < |hopped| ==> g.Off(b, hopped[y]) < g.Off(b, hopped[x])
    ensures var all := [g.Slot(j)] + hopped;
            && (forall x :: 0 <= x < |all| ==> all[x] < g.span && g.Off(b, all[x]) <= j - b)
            && (forall x, y :: 0 <= x < y < |all| ==> g.Off(b, all[y]) < g.Off(b, all[x]))
  {
    OffSlot(g, b, j);
    var all := [g.Slot(j)] + hopped;
    assert forall x :: 1 <= x < |all| ==> all[x] == hopped[x - 1];
  }

  lemma FootprintPairs(g: Geometry, r: Leaf, r': Leaf, r1: Leaf, b: nat, j: nat, sg: nat, h: nat, hopped: seq<nat>, s: nat)
    requires g.Valid() && b < g.span && b <= h < j < b + g.span && sg < g.span && g.Off(b, sg) <= j - b
    requires Hole(g, r, b, j) && Moved(g, r, r', sg, g.Slot(h), g.Slot(j))
    requires Footprint(g, r', r1, b, h, hopped) && g.Slot(h) in hopped && s < g.span
    ensures j - b < g.Off(b, s) ==> r1[s] == r[s]
    ensures s !in hopped && s != g.Slot(j) ==> r1[s].key == r[s].key && r1[s].value == r[s].value
    ensures g.Off(b, s) <= j - b ==> r1[s].key != NULL_KEY
  {
    OffSlot(g, b, j);
    OffSlot(g, b, h);
    assert s == g.Slot(b + g.Off(b, s));
    if h - b < g.Off(b, s) {
      assert r1[s] == r'[s];
    }
  }

  lemma FootprintStep(g: Geometry, r: Leaf, r': Leaf, r1: Leaf, b: nat, j: nat, sg: nat, h: nat, hopped: seq<nat>)
    requires g.Valid() && b < g.span && b <= h < j < b + g.span && sg < g.span && g.Off(b, sg) <= j - b
    requires Hole(g, r, b, j) && Moved(g, r, r', sg, g.Slot(h), g.Slot(j))
    requires Footprint(g, r', r1, b, h, hopped) && g.Slot(h) in hopped
    ensures Footprint(g, r, r1, b, j, [g.Slot(j)] + hopped)
  {
    FootprintOrder(g, b, j, h, hopped);
    var all := [g.Slot(j)] + hopped;
    forall s | 0 <= s < g.span
      ensures j - b < g.Off(b, s) ==> r1[s] == r[s]
      ensures s !in all ==> r1[s].key == r[s].key && r1[s].value == r[s].value
      ensures g.Off(b, s) <= j - b ==> r1[s].key != NULL_KEY
    {
      FootprintPairs(g, r, r', r1, b, j, sg, h, hopped, s);
    }
  }

  lemma {:induction false} RunFootprint(g: Geometry, r: Leaf, b: nat, j: nat, k: Key, v: Value)
    requires HoleAt(g, r, b, j) && b == g.Home(k) && k != NULL_KEY
    ensures var res := HopRun(g, r, b, j, k, v);
            res.Placed? ==> Footprint(g, r, res.records, b, j, res.hopped) && g.Slot(j) in res.hopped
    decreases j
  {
    if j < b + g.neighbor {
      FootprintBase(g, r, b, j, k, v);
    } else {
      var h, r' := HopRunStep(g, r, b, j, k, v);
      if h != -1 {
        NextHopLegal(g, r, b, j);
        HopKeepsHole(g, r, b, j, r');
        RunFootprint(g, r', b, h, k, v);
        var res := HopRun(g, r', b, h, k, v);
        if res.Placed? {
          var home := NextHop(g, r, j, g.neighbor - 1).1;
          MoveKeyMoved(g, r, g.Slot(home), g.Slot(h), g.Slot(j));
          OffSlot(g, b, home);
          FootprintStep(g, r, r', res.records, b, j, g.Slot(home), h, res.hopped);
          assert ([g.Slot(j)] + res.hopped)[0] == g.Slot(j);
        }
      }
    }
  }

  lemma HopInsertFootprint(g: Geometry, r: Leaf, k: Key, v: Value, entryNum: nat)
    requires Inv(g, r) && k != NULL_KEY && entryNum <= g.span
    ensures var res := HopInsert(g, r, k, v, entryNum);
            var e := FirstEmpty(g, r, g.Home(k), g.Home(k) + entryNum);
            res.Placed? ==> e != -1 && Footprint(g, r, res.records, g.Home(k), e, res.hopped)
  {
    hide HopInsert, HopRun, FirstEmpty, Hole, InNeighborhood, BitmapsExact, DistinctKeys, Footprint, Geometry.Home;
    var e := HopInsertIs(g, r, k, v, entryNum);
    if e != -1 {
      RunFootprint(g, r, g.Home(k), e, k, v);
    }
  }

  // ----- the insertion as it runs on the records array -----

  /** Finds the home that lets the key at `h` hop to `j` by probing the bitmaps. */
  method ProbeHome(g: Geometry, records: array<Entry>, j: nat, h: nat) returns (home: int)
    requires g.Valid() && records.Length == g.span && g.neighbor <= j < 2 * g.span && j - g.neighbor < h < j
    ensures home == HopHome(g, records[..], j, h, g.neighbor - 1)
  {
    hide HopHome;
    home := -1;
    var z := g.neighbor - 1;
    ghost var r := records[..];
    while 0 <= z
      invariant -1 <= z < g.neighbor && home == -1
      invariant HopHome(g, r, j, h, g.neighbor - 1) == HopHome(g, r, j, h, z)
    {
      HopHomeStep(g, r, j, h, z);
      var candidate: int := g.Slot(h - z);
      if h - candidate < 0 {
        candidate := candidate - g.span;
      } else if g.neighbor <= h - candidate {
        candidate := candidate + g.span;
      }
      CornerCase(g, h, z);
      if j < candidate + g.neighbor && z in records[g.Slot(candidate)].hop {
        return candidate;
      }
      z := z - 1;
    }
    HopHomeStep(g, r, j, h, z);
  }

  lemma HopHomeStep(g: Geometry, r: Leaf, j: nat, h: nat, z: int)
    requires g.Valid() && |r| == g.span && g.neighbor <= j < 2 * g.span
    requires j - g.neighbor < h < j && -1 <= z < g.neighbor
    ensures HopHome(g, r, j, h, z) ==
            if z < 0 then -1
            else if j < h - z + g.neighbor && z in r[g.Slot(h - z)].hop then h - z
            else HopHome(g, r, j, h, z - 1)
  {
  }

  /** Tries offsets from the farthest inwards for a key that may hop to `j`. */
  method ProbeHop(g: Geometry, records: array<Entry>, j: nat) returns (h: int, home: int)
    requires g.Valid() && records.Length == g.span && g.neighbor <= j < 2 * g.span
    ensures (h, home) == NextHop(g, records[..], j, g.neighbor - 1)
  {
    var offset := g.neighbor - 1;
    while 0 < offset
      invariant 0 <= offset < g.neighbor
      invariant NextHop(g, records[..], j, g.neighbor - 1) == NextHop(g, records[..], j, offset)
    {
      home := ProbeHome(g, records, j, j - offset);
      if home != -1 {
        return j - offset, home;
      }
      offset := offset - 1;
    }
    return -1, -1;
  }

  method FindEmpty(g: Geometry, records: array<Entry>, b: nat, entryNum: nat) returns (e: int)
    requires g.Valid() && records.Length == g.span && b < g.span && entryNum <= g.span
    ensures e == FirstEmpty(g, records[..], b, b + entryNum)
  {
    for i := b to b + entryNum
      invariant FirstEmpty(g, records[..], b, b + entryNum) == FirstEmpty(g, records[..], i, b + entryNum)
    {
      if records[g.Slot(i)].key == NULL_KEY {
        return i;
      }
    }
    return -1;
  }

  /** `raw` is `r` except that its slot `s` may still hold an old pair. */
  ghost predicate StaleAt(r: Leaf, raw: Leaf, s: nat) {
    s < |r| == |raw| && raw == r[s := r[s].(key := raw[s].key, value := raw[s].value)]
  }

  lemma StaleStep(g: Geometry, r: Leaf, raw: Leaf, sg: nat, sh: nat, sj: nat)
    requires g.Valid() && |r| == g.span && StaleAt(r, raw, sj)
    requires sg < g.span && sh < g.span && sj < g.span && sh != sj
    ensures StaleAt(MoveKey(g, r, sg, sh, sj), CopyKey(g, raw, sg, sh, sj), sh)
  {
  }

  lemma StalePlace(g: Geometry, r: Leaf, raw: Leaf, sg: nat, sj: nat, k: Key, v: Value)
    requires g.Valid() && |r| == g.span && sg < g.span && StaleAt(r, raw, sj)
    ensures Place(g, r, sg, sj, k, v) == Place(g, raw, sg, sj, k, v)
  {
  }

  /** The hop decisions look at bitmaps only. */
  lemma {:induction false} HopHomeBits(g: Geometry, r: Leaf, q: Leaf, j: nat, h: nat, z: int)
    requires g.Valid() && |r| == g.span == |q| && g.neighbor <= j < 2 * g.span
    requires j - g.neighbor < h < j && -1 <= z < g.neighbor
    requires forall s :: 0 <= s < g.span ==> r[s].hop == q[s].hop
    ensures HopHome(g, r, j, h, z) == HopHome(g, q, j, h, z)
    decreases z + 1
  {
    if 0 <= z {
      HopHomeBits(g, r, q, j, h, z - 1);
    }
  }

  lemma {:induction false} NextHopBits(g: Geometry, r: Leaf, q: Leaf, j: nat, offset: nat)
    requires g.Valid() && |r| == g.span == |q| && g.neighbor <= j < 2 * g.span && offset < g.neighbor
    requires forall s :: 0 <= s < g.span ==> r[s].hop == q[s].hop
    ensures NextHop(g, r, j, offset) == NextHop(g, q, j, offset)
    decreases offset
  {
    hide HopHome;
    if offset != 0 {
      HopHomeBits(g, r, q, j, j - offset, g.neighbor - 1);
      NextHopBits(g, r, q, j, offset - 1);
    }
  }

  /** Copies a key into the hole; the bit it clears was set and the bit it sets was clear. */
  method CopyInPlace(g: Geometry, records: array<Entry>, sg: nat, sh: nat, sj: nat)
    requires g.Valid() && records.Length == g.span && sg < g.span && sh < g.span && sj < g.span && sh != sj
    requires g.Off(sg, sh) in records[sg].hop && g.Off(sg, sj) !in records[sg].hop
    modifies records
    ensures records[..] == CopyKey(g, old(records[..]), sg, sh, sj)
  {
    records[sj] := records[sj].(key := records[sh].key, value := records[sh].value);
    UnsetHopBit(g, records, sg, g.Off(sg, sh));
    SetHopBit(g, records, sg, g.Off(sg, sj));
  }

  method SetHopBit(g: Geometry, records: array<Entry>, s: nat, offset: nat)
    requires records.Length == g.span && s < g.span && offset !in records[s].hop
    modifies records
    ensures records[..] == old(records[..])[s := old(records[s]).(hop := old(records[s]).hop + {offset})]
  {
    records[s] := records[s].(hop := records[s].hop + {offset});
  }

  method UnsetHopBit(g: Geometry, records: array<Entry>, s: nat, offset: nat)
    requires records.Length == g.span && s < g.span && offset in records[s].hop
    modifies records
    ensures records[..] == old(records[..])[s := old(records[s]).(hop := old(records[s]).hop - {offset})]
  {
    records[s] := records[s].(hop := records[s].hop - {offset});
  }

  /** One hop: finds the key to move into the hole at `j`, if any, and moves it. */
  method HopOnce(g: Geometry, records: array<Entry>, j: nat) returns (h: int)
    requires g.Valid() && records.Length == g.span && g.neighbor <= j < 2 * g.span
    requires var (x, home) := NextHop(g, records[..], j, g.neighbor - 1);
             x != -1 ==>
               && g.Slot(x) != g.Slot(j)
               && g.Off(g.Slot(home), g.Slot(x)) in records[g.Slot(home)].hop
               && g.Off(g.Slot(home), g.Slot(j)) !in records[g.Slot(home)].hop
    modifies records
    ensures var (x, home) := NextHop(g, old(records[..]), j, g.neighbor - 1);
            && h == x
            && records[..] == if x == -1 then old(records[..])
                              else CopyKey(g, old(records[..]), g.Slot(home), g.Slot(x), g.Slot(j))
  {
    var home;
    h, home := ProbeHop(g, records, j);
    if h != -1 {
      CopyInPlace(g, records, g.Slot(home), g.Slot(h), g.Slot(j));
    }
  }

  method PlaceInPlace(g: Geometry, records: array<Entry>, sg: nat, sj: nat, k: Key, v: Value)
    requires g.Valid() && records.Length == g.span && sg < g.span && sj < g.span
    requires g.Off(sg, sj) !in records[sg].hop
    modifies records
    ensures records[..] == Place(g, old(records[..]), sg, sj, k, v)
  {
    records[sj] := records[sj].(key := k, value := v);
    SetHopBit(g, records, sg, g.Off(sg, sj));
  }

  function Prepend(hopped: seq<nat>, res: HopResult): HopResult {
    match res
    case Stuck => Stuck
    case Placed(r, more) => Placed(r, hopped + more)
  }

  /** The next hop copies between slots whose bits are as the bit updates expect. */
  lemma HopBits(g: Geometry, r: Leaf, raw: Leaf, b: nat, j: nat)
    requires HoleAt(g, r, b, j) && b + g.neighbor <= j && StaleAt(r, raw, g.Slot(j))
    requires NextHop(g, r, j, g.neighbor - 1).0 != -1
    ensures var (h, home) := NextHop(g, r, j, g.neighbor - 1);
            && b < home <= h < j && g.Slot(h) != g.Slot(j)
            && g.Off(g.Slot(home), g.Slot(h)) in raw[g.Slot(home)].hop
            && g.Off(g.Slot(home), g.Slot(j)) !in raw[g.Slot(home)].hop
  {
    var (h, home) := NextHop(g, r, j, g.neighbor - 1);
    NextHopLegal(g, r, b, j);
    assert raw[g.Slot(home)].hop == r[g.Slot(home)].hop;
    assert g.Off(g.Slot(home), g.Slot(j)) in r[g.Slot(home)].hop <==> Owns(g, r, g.Slot(home), g.Slot(j));
  }

  lemma PrependStep(g: Geometry, r: Leaf, b: nat, j: nat, k: Key, v: Value, hopped: seq<nat>)
      returns (h: int, r': Leaf)
    requires g.Valid() && |r| == g.span && b < g.span && b + g.neighbor <= j < b + g.span
    ensures h == NextHop(g, r, j, g.neighbor - 1).0
    ensures h == -1 ==> HopRun(g, r, b, j, k, v) == Stuck
    ensures h != -1 ==>
              && b <= h < j
              && r' == MoveKey(g, r, g.Slot(NextHop(g, r, j, g.neighbor - 1).1), g.Slot(h), g.Slot(j))
              && Prepend(hopped, HopRun(g, r, b, j, k, v)) ==
                 Prepend(hopped + [g.Slot(j)], HopRun(g, r', b, h, k, v))
  {
    h, r' := HopRunStep(g, r, b, j, k, v);
    if h != -1 {
      var res := HopRun(g, r', b, h, k, v);
      if res.Placed? {
        assert hopped + ([g.Slot(j)] + res.hopped) == hopped + [g.Slot(j)] + res.hopped;
      }
    }
  }

  /** What the hop loop keeps: `r` is the leaf with its hole at `j` emptied. */
  ghost predicate HopLoop(g: Geometry, before: Leaf, r: Leaf, raw: Leaf, b: nat, j: nat,
                          k: Key, v: Value, entryNum: nat, hopped: seq<nat>) {
    && HoleAt(g, r, b, j) && StaleAt(r, raw, g.Slot(j)) && |before| == g.span && entryNum <= g.span
    && Prepend(hopped, HopRun(g, r, b, j, k, v)) == HopInsert(g, before, k, v, entryNum)
  }

  lemma HopLoopParts(g: Geometry, r: Leaf, raw: Leaf, b: nat, j: nat)
    requires HoleAt(g, r, b, j) && StaleAt(r, raw, g.Slot(j))
    ensures g.Valid() && |r| == g.span == |raw| && b <= j < b + g.span && b < g.span
    ensures forall s :: 0 <= s < g.span ==> r[s].hop == raw[s].hop
  {
  }

  lemma HopLoopStep(g: Geometry, before: Leaf, r: Leaf, raw: Leaf, b: nat, j: nat,
                    k: Key, v: Value, entryNum: nat, hopped: seq<nat>) returns (r': Leaf)
    requires HopLoop(g, before, r, raw, b, j, k, v, entryNum, hopped) && b + g.neighbor <= j
    ensures var (h, home) := NextHop(g, raw, j, g.neighbor - 1);
            if h == -1 then HopInsert(g, before, k, v, entryNum) == Stuck
            else
              && b < home <= h < j && g.Slot(h) != g.Slot(j)
              && g.Off(g.Slot(home), g.Slot(h)) in raw[g.Slot(home)].hop
              && g.Off(g.Slot(home), g.Slot(j)) !in raw[g.Slot(home)].hop
              && HopLoop(g, before, r', CopyKey(g, raw, g.Slot(home), g.Slot(h), g.Slot(j)), b, h,
                         k, v, entryNum, hopped + [g.Slot(j)])
  {
    hide Hole, HopRun, NextHop, HopInsert, MoveKey, CopyKey, StaleAt, InNeighborhood, BitmapsExact, DistinctKeys, Geometry.Home;
    HopLoopParts(g, r, raw, b, j);
    NextHopBits(g, r, raw, j, g.neighbor - 1);
    var home := NextHop(g, r, j, g.neighbor - 1).1;
    var h, next := PrependStep(g, r, b, j, k, v, hopped);
    r' := next;
    if h != -1 {
      HopBits(g, r, raw, b, j);
      HopKeepsHole(g, r, b, j, r');
      StaleStep(g, r, raw, g.Slot(home), g.Slot(h), g.Slot(j));
    }
  }

  lemma HopLoopStart(g: Geometry, before: Leaf, k: Key, v: Value, entryNum: nat)
    requires Inv(g, before) && entryNum <= g.span
    ensures var b := g.Home(k);
            var e := FirstEmpty(g, before, b, b + entryNum);
            if e == -1 then HopInsert(g, before, k, v, entryNum) == Stuck
            else HopLoop(g, before, before, before, b, e, k, v, entryNum, [])
  {
    hide HopInsert, HopRun, FirstEmpty, Hole, InNeighborhood, BitmapsExact, DistinctKeys, Geometry.Home;
    var e := HopInsertIs(g, before, k, v, entryNum);
    if e != -1 {
      var res := HopRun(g, before, g.Home(k), e, k, v);
      if res.Placed? {
        assert [] + res.hopped == res.hopped;
      }
    }
  }

  lemma HopLoopEnd(g: Geometry, before: Leaf, r: Leaf, raw: Leaf, b: nat, j: nat,
                   k: Key, v: Value, entryNum: nat, hopped: seq<nat>)
    requires HopLoop(g, before, r, raw, b, j, k, v, entryNum, hopped) && j < b + g.neighbor
    ensures g.Off(b, g.Slot(j)) == j - b && j - b !in raw[b].hop
    ensures HopInsert(g, before, k, v, entryNum) == Placed(Place(g, raw, b, g.Slot(j), k, v), hopped + [g.Slot(j)])
  {
    OffSlot(g, b, j);
    assert g.Off(b, g.Slot(j)) in r[b].hop <==> Owns(g, r, b, g.Slot(j));
    StalePlace(g, r, raw, b, g.Slot(j), k, v);
  }

  /** Insertion into the records array. A failed attempt may leave keys half moved: the caller
      hands in a copy of the leaf and drops it then. */
  method InsertInPlace(g: Geometry, records: array<Entry>, k: Key, v: Value, entryNum: nat)
      returns (ok: bool, hopped: seq<nat>)
    requires g.Valid() && records.Length == g.span && Inv(g, records[..]) && k != NULL_KEY && entryNum <= g.span
    modifies records
    ensures match HopInsert(g, old(records[..]), k, v, entryNum)
            case Stuck => !ok
            case Placed(r, path) => ok && records[..] == r && hopped == path
  {
    hide *;
    ghost var before := records[..];
    HopLoopStart(g, before, k, v, entryNum);
    hopped := [];
    var b := g.Home(k);
    var e := FindEmpty(g, records, b, entryNum);
    if e == -1 {
      return false, [];
    }
    var j := e;
    ghost var r := before;
    while b + g.neighbor <= j
      invariant b <= j < b + g.span
      invariant HopLoop(g, before, r, records[..], b, j, k, v, entryNum, hopped)
      decreases j
    {
      ghost var r' := HopLoopStep(g, before, r, records[..], b, j, k, v, entryNum, hopped);
      var h := HopOnce(g, records, j);
      if h == -1 {
        return false, [];
      }
      hopped := hopped + [g.Slot(j)];
      j, r := h, r';
    }
    HopLoopEnd(g, before, r, records[..], b, j, k, v, entryNum, hopped);
    hopped := hopped + [g.Slot(j)];
    PlaceInPlace(g, records, b, g.Slot(j), k, v);
    ok := true;
  }

  /** The insertion as its caller sees it: all or nothing, on a leaf that does not hold `k`. */
  method Insert(g: Geometry, records: array<Entry>, k: Key, v: Value, entryNum: nat)
      returns (ok: bool, hopped: seq<nat>, copy: array<Entry>)
    requires records.Length == g.span && Inv(g, records[..]) && k != NULL_KEY && entryNum <= g.span
    requires k !in Contents(records[..])
    ensures fresh(copy) && copy.Length == g.span
    ensures ok <==> HopInsert(g, records[..], k, v, entryNum).Placed?
    ensures ok ==> Placed(copy[..], hopped) == HopInsert(g, records[..], k, v, entryNum)
    ensures ok ==> Inv(g, copy[..]) && Contents(copy[..]) == Contents(records[..])[k := v]
    ensures ok ==>
              var e := FirstEmpty(g, records[..], g.Home(k), g.Home(k) + entryNum);
              e != -1 && Footprint(g, records[..], copy[..], g.Home(k), e, hopped)
  {
    ghost var before := records[..];
    HopInsertCorrect(g, before, k, v, entryNum);
    HopInsertFootprint(g, before, k, v, entryNum);
    copy := new Entry[records.Length](i requires 0 <= i < records.Length reads records => records[i]);
    assert copy[..] == before;
    ok, hopped := InsertInPlace(g, copy, k, v, entryNum);
  }
}
