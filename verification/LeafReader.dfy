/** A lock-free reader beside one hop insertion, from bytes to answer. While the insertion is being
    written back the reader fetches the neighbourhood of a key, as one segment or, round the end, as
    two; each cache line it gets is from some state of the memory. If its version checks accept, the
    search over the entries that it parses answers as before or after the insertion, or re-reads. */
module LeafReader {
  import opened HopscotchLeaf
  import opened HopscotchInsert
  import opened HopscotchSearch
  import opened Wire
  import TornRead
  import LeafLayout
  import opened LeafSegment
  import opened LeafWrite

  // ----- fetching and decoding -----

  function Slices(mems: seq<seq<Byte>>, from: nat, to: nat): (rs: seq<seq<Byte>>)
    requires from <= to && forall i :: 0 <= i < |mems| ==> to <= |mems[i]|
    ensures |rs| == |mems|
  {
    seq<seq<Byte>>(|mems|, i requires 0 <= i < |mems| => mems[i][from..to])
  }

  /** What the reader gets of the `cnt` entries from `start` on: every line from one of the states of
      the memory. */
  ghost predicate Fetched(l: Layout, mems: seq<seq<Byte>>, start: nat, cnt: nat, raw: seq<Byte>, pick: nat -> nat) {
    && l.Valid()
    && var from, to := Raw(LeafLayout.Position(l, start)), Raw(LeafLayout.Position(l, start + cnt));
       && from <= to && |raw| == to - from
       && (forall i :: 0 <= i < |mems| ==> to <= |mems[i]|)
       && TornRead.MixAmong(LeafLayout.Position(l, start), Slices(mems, from, to), raw, pick)
  }

  ghost predicate Measured(l: Layout, start: nat, cnt: nat, raw: seq<Byte>) {
    l.Valid() && |raw| == Raw(LeafLayout.Position(l, start + cnt)) - Raw(LeafLayout.Position(l, start))
  }

  /** The version check of a fetched part. */
  ghost predicate Accepted(l: Layout, start: nat, cnt: nat, raw: seq<Byte>)
    requires Measured(l, start, cnt, raw)
  {
    LeafLayout.ScatterLength(l, start, cnt);
    Consistent(LeafLayout.Position(l, start), LeafLayout.ShapeOf(l, start, cnt), raw)
  }

  /** The entries that the reader decodes. */
  ghost function Decoded(l: Layout, start: nat, cnt: nat, raw: seq<Byte>): (es: seq<seq<Byte>>)
    requires Measured(l, start, cnt, raw)
    ensures |es| == cnt
  {
    LeafLayout.ScatterLength(l, start, cnt);
    var d := Data(LeafLayout.Position(l, start), Total(LeafLayout.ShapeOf(l, start, cnt)), raw);
    GatherLength(l, d, start, cnt);
    LeafLayout.Gather(l, d, start, cnt)
  }

  /** A part of the raw leaf is the raw form of that part. */
  lemma SliceIsSegment(l: Layout, meta: seq<Byte>, es: seq<seq<Byte>>, start: nat, cnt: nat)
    requires LeafLayout.Sized(l, meta, es) && start + cnt <= |es|
    ensures LeafLayout.Sized(l, meta, es[start..start + cnt])
    ensures var from, to := Raw(LeafLayout.Position(l, start)), Raw(LeafLayout.Position(l, start + cnt));
            && from <= to <= |Segment(l, meta, es, 0)|
            && Segment(l, meta, es, 0)[from..to] == Segment(l, meta, es[start..start + cnt], start)
  {
    hide Segment, LeafLayout.Position, LeafLayout.OffsetInfo, Raw;
    var x, y, z := es[..start], es[start..start + cnt], es[start + cnt..];
    assert es == x + y + z;
    PositionZero(l);
    SegmentPlace(l, meta, x, 0);
    SegmentPlace(l, meta, y, start);
    SegmentConcat(l, meta, x, y, 0);
    SegmentConcat(l, meta, x + y, z, 0);
  }

  function Cuts(states: seq<seq<seq<Byte>>>, start: nat, cnt: nat): (cs: seq<seq<seq<Byte>>>)
    requires forall i :: 0 <= i < |states| ==> start + cnt <= |states[i]|
    ensures |cs| == |states|
  {
    seq<seq<seq<Byte>>>(|states|, i requires 0 <= i < |states| => states[i][start..start + cnt])
  }

  lemma FetchedSegments(l: Layout, meta: seq<Byte>, states: seq<seq<seq<Byte>>>, start: nat, cnt: nat, raw: seq<Byte>, pick: nat -> nat)
    requires forall i :: 0 <= i < |states| ==> LeafLayout.Sized(l, meta, states[i]) && start + cnt <= |states[i]|
    requires Fetched(l, Segments(l, meta, states, 0), start, cnt, raw, pick)
    ensures forall i :: 0 <= i < |states| ==> LeafLayout.Sized(l, meta, Cuts(states, start, cnt)[i])
    ensures TornRead.MixAmong(LeafLayout.Position(l, start), Segments(l, meta, Cuts(states, start, cnt), start), raw, pick)
  {
    hide Segment, LeafLayout.Position, Raw, TornRead.MixAmong;
    var from, to := Raw(LeafLayout.Position(l, start)), Raw(LeafLayout.Position(l, start + cnt));
    forall i | 0 <= i < |states|
      ensures LeafLayout.Sized(l, meta, Cuts(states, start, cnt)[i])
      ensures Slices(Segments(l, meta, states, 0), from, to)[i] == Segment(l, meta, Cuts(states, start, cnt)[i], start)
    {
      SliceIsSegment(l, meta, states[i], start, cnt);
    }
    assert Slices(Segments(l, meta, states, 0), from, to) == Segments(l, meta, Cuts(states, start, cnt), start);
  }

  /** Each decoded entry is wholly as it was or as it is. */
  lemma DecodedIsNotTorn(l: Layout, meta: seq<Byte>, states: seq<seq<seq<Byte>>>, before: seq<seq<Byte>>, after: seq<seq<Byte>>, start: nat, cnt: nat, raw: seq<Byte>, pick: nat -> nat, x: nat)
    requires LeafLayout.Sized(l, meta, before) && LeafLayout.Sized(l, meta, after) && |before| == |after|
    requires l.entry <= LINE && x < cnt && start + cnt <= |before|
    requires forall i :: 0 <= i < |states| ==> LeafLayout.Sized(l, meta, states[i])
    requires EntryOldOrNew(states, before[start + x], after[start + x], |before|, start + x)
    requires Fetched(l, Segments(l, meta, states, 0), start, cnt, raw, pick)
    requires Measured(l, start, cnt, raw) && Accepted(l, start, cnt, raw)
    requires TornRead.Distinguishable(before[start + x], after[start + x], 0, l.entry)
    ensures Decoded(l, start, cnt, raw)[x] == before[start + x] || Decoded(l, start, cnt, raw)[x] == after[start + x]
  {
    hide Segment, Segments, LeafLayout.Position, LeafLayout.ShapeOf, Raw, TornRead.Distinguishable, TornRead.MixAmong, Total, Data, LeafLayout.Gather, Consistent, Fetched;
    FetchedSegments(l, meta, states, start, cnt, raw, pick);
    LeafLayout.ScatterLength(l, start, cnt);
    var cuts, b, a := Cuts(states, start, cnt), before[start..start + cnt], after[start..start + cnt];
    assert b[x] == before[start + x] && a[x] == after[start + x];
    forall i | 0 <= i < |cuts| ensures |cuts[i]| == cnt && (cuts[i][x] == b[x] || cuts[i][x] == a[x]) {
      assert cuts[i][x] == states[i][start + x];
    }
    SegmentIsNotTornAmong(l, meta, cuts, b, a, start, raw, pick, x);
  }

  // ----- parsing -----

  /** `unpair` reads back what `pair` lays out, for keys and values below `limit`. */
  ghost predicate Unpacks(pair: (Key, Value) -> seq<Byte>, unpair: seq<Byte> -> (Key, Value), limit: nat) {
    forall k: Key, v: Value :: k < limit && v < limit ==> unpair(pair(k, v)) == (k, v)
  }

  ghost predicate Storable(r: Leaf, limit: nat) {
    forall s :: 0 <= s < |r| ==> r[s].key < limit && r[s].value < limit
  }

  /** The entry that the reader sees in its bytes. */
  function Parse(n: nat, bytes: seq<Byte>, unpair: seq<Byte> -> (Key, Value)): Entry
    requires 3 <= |bytes|
  {
    var (k, v) := unpair(bytes[3..]);
    Entry(k, v, HopOf(bytes[1], n))
  }

  lemma ParseBytes(n: nat, w: Byte, e: Entry, pair: (Key, Value) -> seq<Byte>, unpair: seq<Byte> -> (Key, Value), limit: nat)
    requires n <= 8 && Unpacks(pair, unpair, limit) && e.key < limit && e.value < limit && forall o :: o in e.hop ==> o < n
    ensures 3 <= |Bytes(n, w, e, pair)| && Parse(n, Bytes(n, w, e, pair), unpair) == e
  {
    var bytes := Bytes(n, w, e, pair);
    assert bytes[3..] == pair(e.key, e.value);
    BitmapExact(e.hop, n);
    assert (set o | o in e.hop && o < n) == e.hop;
  }

  lemma {:induction false} RunStorable(g: Geometry, r: Leaf, b: nat, j: nat, k: Key, v: Value, limit: nat)
    requires g.Valid() && |r| == g.span && b < g.span && b <= j < b + g.span
    requires Storable(r, limit) && k < limit && v < limit
    ensures HopRun(g, r, b, j, k, v).Placed? ==> Storable(HopRun(g, r, b, j, k, v).records, limit)
    decreases j
  {
    if b + g.neighbor <= j {
      hide HopRun, NextHop, MoveKey, Storable;
      var h, r' := HopRunStep(g, r, b, j, k, v);
      if h != -1 {
        MoveStorable(g, r, g.Slot(NextHop(g, r, j, g.neighbor - 1).1), g.Slot(h), g.Slot(j), limit);
        RunStorable(g, r', b, h, k, v, limit);
      }
    } else {
      PlaceStorable(g, r, b, g.Slot(j), k, v, limit);
    }
  }

  lemma MoveStorable(g: Geometry, r: Leaf, sg: nat, sh: nat, sj: nat, limit: nat)
    requires g.Valid() && |r| == g.span && sg < g.span && sh < g.span && sj < g.span && Storable(r, limit)
    ensures Storable(MoveKey(g, r, sg, sh, sj), limit)
  {
    assert r[sh].key < limit && r[sh].value < limit;
  }

  lemma PlaceStorable(g: Geometry, r: Leaf, sg: nat, sj: nat, k: Key, v: Value, limit: nat)
    requires g.Valid() && |r| == g.span && sg < g.span && sj < g.span && Storable(r, limit) && k < limit && v < limit
    ensures Storable(Place(g, r, sg, sj, k, v), limit)
  {
  }

  lemma InsertStorable(g: Geometry, r: Leaf, k: Key, v: Value, entryNum: nat, limit: nat)
    requires Inv(g, r) && entryNum <= g.span && Storable(r, limit) && k < limit && v < limit
    ensures HopInsert(g, r, k, v, entryNum).Placed? ==> Storable(HopInsert(g, r, k, v, entryNum).records, limit)
  {
    hide HopInsert, HopRun, FirstEmpty, InNeighborhood, BitmapsExact, DistinctKeys, Storable, Geometry.Home;
    var e := HopInsertIs(g, r, k, v, entryNum);
    if e != -1 {
      RunStorable(g, r, g.Home(k), e, k, v, limit);
    }
  }

  // ----- the neighbourhood -----

  /** The slots of a neighbourhood up to the end of the array, and from its beginning. */
  function RightSize(g: Geometry, h: nat): nat
    requires h < g.span
  {
    if g.neighbor <= g.span - h then g.neighbor else g.span - h
  }

  function LeftSize(g: Geometry, h: nat): nat
    requires h < g.span
  {
    g.neighbor - RightSize(g, h)
  }

  /** The search looks at the neighbourhood only. */
  lemma SearchLocal(g: Geometry, m: Leaf, m': Leaf, q: Key)
    requires g.Valid() && |m| == |m'| == g.span
    requires forall o :: 0 <= o < g.neighbor ==> m[g.At(g.Home(q), o)] == m'[g.At(g.Home(q), o)]
    ensures Search(g, m, q) == Search(g, m', q)
  {
    hide Geometry.Home;
    var h := g.Home(q);
    FindLocal(g, m, m', h, q, 0);
    assert Seen(g, m, h) == Seen(g, m', h);
    assert g.At(h, 0) == h;
  }

  lemma {:induction false} FindLocal(g: Geometry, m: Leaf, m': Leaf, h: nat, q: Key, i: nat)
    requires g.Valid() && |m| == |m'| == g.span && h < g.span && i <= g.neighbor
    requires forall o :: 0 <= o < g.neighbor ==> m[g.At(h, o)] == m'[g.At(h, o)]
    ensures FindKey(g, m, h, q, i) == FindKey(g, m', h, q, i)
    decreases g.neighbor - i
  {
    if i < g.neighbor {
      FindLocal(g, m, m', h, q, i + 1);
    }
  }

  /** `m` holds, in the slots from `start` on, what the reader parsed. */
  ghost predicate ParsedInto(l: Layout, m: Leaf, start: nat, es: seq<seq<Byte>>, unpair: seq<Byte> -> (Key, Value)) {
    start + |es| <= |m| && forall x: nat :: x < |es| ==> 3 <= |es[x]| && m[start + x] == Parse(l.n, es[x], unpair)
  }

  // ----- one insertion and its reader -----

  /** The insertion of `k -> v` into leaf `r`, whose slots have the versions `versions`. */
  datatype Scene = Scene(l: Layout, g: Geometry, pair: (Key, Value) -> seq<Byte>, meta: seq<Byte>,
                         r: Leaf, versions: seq<Byte>, k: Key, v: Value, entryNum: nat)
  {
    ghost predicate Ok() {
      && Fits(l, g, pair) && |meta| == l.meta && Inv(g, r) && |versions| == g.span
      && k != NULL_KEY && entryNum <= g.span && HopInsert(g, r, k, v, entryNum).Placed?
    }

    function Result(): HopResult
      requires g.Valid() && |r| == g.span && entryNum <= g.span
    {
      HopInsert(g, r, k, v, entryNum)
    }

    ghost function Before(): (es: seq<seq<Byte>>)
      requires Ok()
      ensures |es| == g.span && LeafLayout.Sized(l, meta, es)
    {
      ImagesSized(l, g, pair, meta, versions, r);
      Images(l.n, versions, r, pair)
    }

    ghost function After(): (es: seq<seq<Byte>>)
      requires Ok()
      ensures |es| == g.span && LeafLayout.Sized(l, meta, es)
    {
      ImagesSized(l, g, pair, meta, Bumped(versions, Result().hopped), Result().records);
      Images(l.n, Bumped(versions, Result().hopped), Result().records, pair)
    }

    /** The logical index of the empty slot that the insertion found. */
    ghost function Hole(): (e: nat)
      requires Ok()
      ensures g.Home(k) <= e < g.Home(k) + g.span && AgreeOutside(g.span, Before(), After(), g.Home(k), e)
    {
      InsertionAgreesOutside(l, g, pair, r, k, v, entryNum, versions);
      FirstEmpty(g, r, g.Home(k), g.Home(k) + entryNum)
    }

    /** The states of the memory while the changed slots are written back. */
    ghost function Mems(): seq<seq<Byte>>
      requires Ok()
    {
      Memory(l, meta, Before(), After(), g.Home(k), Hole())
    }
  }

  lemma ImagesSized(l: Layout, g: Geometry, pair: (Key, Value) -> seq<Byte>, meta: seq<Byte>, versions: seq<Byte>, r: Leaf)
    requires Fits(l, g, pair) && |meta| == l.meta && |versions| == |r|
    ensures LeafLayout.Sized(l, meta, Images(l.n, versions, r, pair))
  {
    forall i | 0 <= i < |r| ensures |Images(l.n, versions, r, pair)[i]| == l.entry {
      BytesSize(l, g, pair, versions[i], r[i]);
    }
  }

  /** The leaf that has the slots in `picked` from `r1` and the others from `r0`. */
  function SlotMix(r0: Leaf, r1: Leaf, picked: set<nat>): (m: Leaf)
    requires |r0| == |r1|
    ensures |m| == |r0| && Mix(r0, r1, m)
  {
    seq<Entry>(|r0|, s requires 0 <= s < |r0| => if s in picked then r1[s] else r0[s])
  }

  /** Entry `x` of what was decoded is, version apart, slot `start + x` of the mixture. */
  ghost predicate Shows(sc: Scene, picked: set<nat>, start: nat, got: seq<seq<Byte>>)
    requires sc.Ok() && start + |got| <= sc.g.span
  {
    forall x: nat :: x < |got| ==> got[x] == if start + x in picked then sc.After()[start + x] else sc.Before()[start + x]
  }

  lemma PickSlots(got: seq<seq<Byte>>, before: seq<seq<Byte>>, after: seq<seq<Byte>>, start: nat) returns (picked: set<nat>)
    requires start + |got| <= |before| == |after|
    requires forall x: nat :: x < |got| ==> got[x] == before[start + x] || got[x] == after[start + x]
    ensures forall x: nat :: x < |got| ==> got[x] == if start + x in picked then after[start + x] else before[start + x]
    ensures forall s :: s in picked ==> start <= s < start + |got|
  {
    picked := set s | start <= s < start + |got| && got[s - start] != before[s];
    forall x: nat | x < |got| ensures got[x] == if start + x in picked then after[start + x] else before[start + x] {
      assert got[(start + x) - start] == got[x];
    }
  }

  /** A part fetched beside the insertion, whose version check accepts, shows in every slot the entry
      before or after the insertion. */
  lemma AcceptedReadIsSlotMix(sc: Scene, start: nat, cnt: nat, raw: seq<Byte>, pick: nat -> nat) returns (picked: set<nat>)
    requires sc.Ok() && start + cnt <= sc.g.span
    requires Fetched(sc.l, sc.Mems(), start, cnt, raw, pick) && Measured(sc.l, start, cnt, raw) && Accepted(sc.l, start, cnt, raw)
    ensures Shows(sc, picked, start, Decoded(sc.l, start, cnt, raw))
    ensures forall s :: s in picked ==> start <= s < start + cnt
  {
    hide Fetched, Measured, Accepted, Decoded, Stages, Memory, Images, Bumped, HopInsert, InNeighborhood, BitmapsExact, DistinctKeys, TornRead.Distinguishable, FirstEmpty, Segments, Geometry.Home;
    var before, after, e := sc.Before(), sc.After(), sc.Hole();
    WriteBackExact(sc.l, sc.meta, before, after, sc.g.Home(sc.k), e);
    var states, got := Stages(before, after, e), Decoded(sc.l, start, cnt, raw);
    forall x: nat | x < cnt ensures got[x] == before[start + x] || got[x] == after[start + x] {
      forall i | 0 <= i < |states|
        ensures |states[i]| == |before| && (states[i][start + x] == before[start + x] || states[i][start + x] == after[start + x])
      {
        StagesOldOrNew(before, after, e, i, start + x);
      }
      InsertionDistinguishable(sc.l, sc.g, sc.pair, sc.r, sc.k, sc.v, sc.entryNum, sc.versions, start + x);
      DecodedIsNotTorn(sc.l, sc.meta, states, before, after, start, cnt, raw, pick, x);
    }
    picked := PickSlots(got, before, after, start);
  }

  /** What is shown of a slot is parsed into the entry of the mixture. */
  lemma ShownIsParsed(sc: Scene, picked: set<nat>, start: nat, got: seq<seq<Byte>>, x: nat, unpair: seq<Byte> -> (Key, Value), limit: nat)
    requires sc.Ok() && start + |got| <= sc.g.span && x < |got| && Shows(sc, picked, start, got)
    requires Unpacks(sc.pair, unpair, limit) && Storable(sc.r, limit) && sc.k < limit && sc.v < limit && sc.k !in Contents(sc.r)
    ensures 3 <= |got[x]| && Parse(sc.l.n, got[x], unpair) == SlotMix(sc.r, sc.Result().records, picked)[start + x]
  {
    hide HopInsert, DistinctKeys, InNeighborhood, Bytes, Parse, Unpacks, Storable, Contents;
    var s, res := start + x, sc.Result();
    HopInsertCorrect(sc.g, sc.r, sc.k, sc.v, sc.entryNum);
    InsertStorable(sc.g, sc.r, sc.k, sc.v, sc.entryNum, limit);
    var e, w := if s in picked then res.records[s] else sc.r[s], if s in picked then Bumped(sc.versions, res.hopped)[s] else sc.versions[s];
    assert got[x] == Bytes(sc.l.n, w, e, sc.pair);
    HopBounded(sc.g, if s in picked then res.records else sc.r, s);
    StorableAt(if s in picked then res.records else sc.r, s, limit);
    ParseBytes(sc.l.n, w, e, sc.pair, unpair, limit);
  }

  lemma HopBounded(g: Geometry, r: Leaf, s: nat)
    requires Inv(g, r) && s < g.span
    ensures forall o :: o in r[s].hop ==> o < g.neighbor
  {
  }

  lemma StorableAt(r: Leaf, s: nat, limit: nat)
    requires Storable(r, limit) && s < |r|
    ensures r[s].key < limit && r[s].value < limit
  {
  }

  /** What the reader has fetched for a neighbourhood that begins at slot `h`: a segment from `h` on
      and, if the neighbourhood goes round the end, a segment from slot 0 on. Each passed its check. */
  ghost predicate FetchedAround(sc: Scene, h: nat, rawR: seq<Byte>, pickR: nat -> nat, rawL: seq<Byte>, pickL: nat -> nat)
    requires sc.Ok() && h < sc.g.span
  {
    var right, left := RightSize(sc.g, h), LeftSize(sc.g, h);
    && Fetched(sc.l, sc.Mems(), h, right, rawR, pickR) && Measured(sc.l, h, right, rawR) && Accepted(sc.l, h, right, rawR)
    && Fetched(sc.l, sc.Mems(), 0, left, rawL, pickL) && Measured(sc.l, 0, left, rawL) && Accepted(sc.l, 0, left, rawL)
  }

  /** The records of the reader's leaf buffer after both parts are parsed into it; what the other slots
      hold does not matter. */
  ghost predicate ParsedAround(sc: Scene, h: nat, rawR: seq<Byte>, rawL: seq<Byte>, m: Leaf, unpair: seq<Byte> -> (Key, Value))
    requires sc.Ok() && h < sc.g.span
    requires Measured(sc.l, h, RightSize(sc.g, h), rawR) && Measured(sc.l, 0, LeftSize(sc.g, h), rawL)
  {
    && |m| == sc.g.span
    && ParsedInto(sc.l, m, h, Decoded(sc.l, h, RightSize(sc.g, h), rawR), unpair)
    && ParsedInto(sc.l, m, 0, Decoded(sc.l, 0, LeftSize(sc.g, h), rawL), unpair)
  }

  /** The neighbourhood in the reader's buffer is that of a slot-wise mixture of the two leaves. */
  lemma BufferIsSlotMix(sc: Scene, h: nat, rawR: seq<Byte>, pickR: nat -> nat, rawL: seq<Byte>, pickL: nat -> nat,
                        m: Leaf, unpair: seq<Byte> -> (Key, Value), limit: nat) returns (picked: set<nat>)
    requires sc.Ok() && h < sc.g.span && sc.k !in Contents(sc.r)
    requires Unpacks(sc.pair, unpair, limit) && Storable(sc.r, limit) && sc.k < limit && sc.v < limit
    requires FetchedAround(sc, h, rawR, pickR, rawL, pickL) && ParsedAround(sc, h, rawR, rawL, m, unpair)
    ensures forall o :: 0 <= o < sc.g.neighbor ==> m[sc.g.At(h, o)] == SlotMix(sc.r, sc.Result().records, picked)[sc.g.At(h, o)]
  {
    hide Fetched, Measured, Accepted, Decoded, Shows, Scene.Mems, Scene.Before, Scene.After, HopInsert, InNeighborhood, BitmapsExact, DistinctKeys, Contents, Parse, Unpacks, Storable;
    var right, left := RightSize(sc.g, h), LeftSize(sc.g, h);
    var gotR, gotL := Decoded(sc.l, h, right, rawR), Decoded(sc.l, 0, left, rawL);
    var a := AcceptedReadIsSlotMix(sc, h, right, rawR, pickR);
    var b := AcceptedReadIsSlotMix(sc, 0, left, rawL, pickL);
    picked := a + b;
    var mix := SlotMix(sc.r, sc.Result().records, picked);
    forall o | 0 <= o < sc.g.neighbor ensures m[sc.g.At(h, o)] == mix[sc.g.At(h, o)] {
      var s := sc.g.At(h, o);
      if o < right {
        ShownIsParsed(sc, a, h, gotR, o, unpair, limit);
        assert s == h + o && (s in picked <==> s in a);
      } else {
        ShownIsParsed(sc, b, 0, gotL, o - right, unpair, limit);
        assert s == o - right && (s in picked <==> s in b);
      }
    }
  }

  /** From bytes to answer. The keys and values fit their fields, the neighbourhood of `q` was fetched
      line by line from any states of the memory during the write-back, and the version checks passed:
      then a search that does not re-read reports absent only a key that was absent before, and finds
      only what the leaf holds once the insertion is done. */
  lemma ReaderIsLinearizable(sc: Scene, q: Key, rawR: seq<Byte>, pickR: nat -> nat, rawL: seq<Byte>, pickL: nat -> nat,
                             m: Leaf, unpair: seq<Byte> -> (Key, Value), limit: nat)
    requires sc.Ok() && sc.k !in Contents(sc.r) && q != NULL_KEY
    requires Unpacks(sc.pair, unpair, limit) && Storable(sc.r, limit) && sc.k < limit && sc.v < limit
    requires FetchedAround(sc, sc.g.Home(q), rawR, pickR, rawL, pickL) && ParsedAround(sc, sc.g.Home(q), rawR, rawL, m, unpair)
    ensures match Search(sc.g, m, q)
            case Retry => true
            case NotFound => q !in Contents(sc.r)
            case Found(x) => q in Contents(sc.r)[sc.k := sc.v] && Contents(sc.r)[sc.k := sc.v][q] == x
  {
    hide FetchedAround, HopInsert, InNeighborhood, BitmapsExact, DistinctKeys, Contents, Search, Unpacks, Storable, SlotMix, Geometry.Home;
    var picked := BufferIsSlotMix(sc, sc.g.Home(q), rawR, pickR, rawL, pickL, m, unpair, limit);
    var mix := SlotMix(sc.r, sc.Result().records, picked);
    SearchLocal(sc.g, m, mix, q);
    TornSearchIsLinearizable(sc.g, sc.r, sc.k, sc.v, sc.entryNum, mix, q);
  }

  /** On a leaf that nobody writes to, what is fetched passes the check and decodes to the entries. */
  lemma QuietReadIsAccepted(l: Layout, meta: seq<Byte>, es: seq<seq<Byte>>, start: nat, cnt: nat)
    requires LeafLayout.Sized(l, meta, es) && start + cnt <= |es|
    ensures LeafLayout.Sized(l, meta, es[start..start + cnt])
    ensures var raw := Segment(l, meta, es[start..start + cnt], start);
            && Fetched(l, [Segment(l, meta, es, 0)], start, cnt, raw, _ => 0)
            && Measured(l, start, cnt, raw) && Accepted(l, start, cnt, raw)
            && Decoded(l, start, cnt, raw) == es[start..start + cnt]
  {
    hide Segment, LeafLayout.Position, LeafLayout.ShapeOf, Raw, Data, Consistent, LeafLayout.Gather, Total;
    SliceIsSegment(l, meta, es, start, cnt);
    TwoLayerRoundTrip(l, meta, es[start..start + cnt], start);
    LeafLayout.ScatterLength(l, start, cnt);
  }

  /** The bytes of the entries from `start` on as they lie in the memory of a leaf at rest. */
  function AtRest(l: Layout, g: Geometry, pair: (Key, Value) -> seq<Byte>, meta: seq<Byte>, versions: seq<Byte>, r: Leaf, start: nat, cnt: nat): seq<Byte>
    requires Fits(l, g, pair) && |meta| == l.meta && |versions| == |r| && start + cnt <= |r|
  {
    ImagesSized(l, g, pair, meta, versions, r);
    Segment(l, meta, Images(l.n, versions, r, pair)[start..start + cnt], start)
  }

  /** From bytes to answer on a leaf that nobody writes to: the reader accepts, does not re-read, and
      answers what the leaf holds. */
  lemma QuietReaderIsExact(l: Layout, g: Geometry, pair: (Key, Value) -> seq<Byte>, meta: seq<Byte>, versions: seq<Byte>, r: Leaf, q: Key,
                           m: Leaf, unpair: seq<Byte> -> (Key, Value), limit: nat)
    requires Fits(l, g, pair) && |meta| == l.meta && |versions| == |r| == |m| && Inv(g, r) && q != NULL_KEY
    requires Unpacks(pair, unpair, limit) && Storable(r, limit)
    ensures var h := g.Home(q);
            var right, left := RightSize(g, h), LeftSize(g, h);
            var rawR, rawL := AtRest(l, g, pair, meta, versions, r, h, right), AtRest(l, g, pair, meta, versions, r, 0, left);
            && Measured(l, h, right, rawR) && Accepted(l, h, right, rawR) && Measured(l, 0, left, rawL) && Accepted(l, 0, left, rawL)
            && (ParsedInto(l, m, h, Decoded(l, h, right, rawR), unpair) && ParsedInto(l, m, 0, Decoded(l, 0, left, rawL), unpair) ==>
                 Search(g, m, q) == if q in Contents(r) then Found(Contents(r)[q]) else NotFound)
  {
    hide Measured, Accepted, Decoded, InNeighborhood, BitmapsExact, DistinctKeys, Contents, Search, Unpacks, Storable, ParsedInto, Images, Geometry.Home, Segment, Fetched;
    var h := g.Home(q);
    var es := Images(l.n, versions, r, pair);
    var right, left := RightSize(g, h), LeftSize(g, h);
    ImagesSized(l, g, pair, meta, versions, r);
    QuietReadIsAccepted(l, meta, es, h, right);
    QuietReadIsAccepted(l, meta, es, 0, left);
    if ParsedInto(l, m, h, es[h..h + right], unpair) && ParsedInto(l, m, 0, es[0..0 + left], unpair) {
      RestIsFound(l, g, pair, versions, r, q, m, unpair, limit);
    }
  }

  lemma RestIsFound(l: Layout, g: Geometry, pair: (Key, Value) -> seq<Byte>, versions: seq<Byte>, r: Leaf, q: Key,
                    m: Leaf, unpair: seq<Byte> -> (Key, Value), limit: nat)
    requires Fits(l, g, pair) && |versions| == |r| == |m| && Inv(g, r) && q != NULL_KEY
    requires Unpacks(pair, unpair, limit) && Storable(r, limit)
    requires ParsedInto(l, m, g.Home(q), Images(l.n, versions, r, pair)[g.Home(q)..g.Home(q) + RightSize(g, g.Home(q))], unpair)
    requires ParsedInto(l, m, 0, Images(l.n, versions, r, pair)[0..0 + LeftSize(g, g.Home(q))], unpair)
    ensures Search(g, m, q) == if q in Contents(r) then Found(Contents(r)[q]) else NotFound
  {
    hide InNeighborhood, BitmapsExact, DistinctKeys, Contents, Search, Unpacks, Storable, ParsedInto, Images, Geometry.Home;
    var h := g.Home(q);
    var right, left := RightSize(g, h), LeftSize(g, h);
    forall o | 0 <= o < g.neighbor ensures m[g.At(h, o)] == r[g.At(h, o)] {
      if o < right {
        RestIsParsed(l, g, pair, versions, r, h, right, o, m, unpair, limit);
      } else {
        RestIsParsed(l, g, pair, versions, r, 0, left, o - right, m, unpair, limit);
      }
    }
    SearchLocal(g, m, r, q);
    SearchExact(g, r, q);
  }

  lemma RestIsParsed(l: Layout, g: Geometry, pair: (Key, Value) -> seq<Byte>, versions: seq<Byte>, r: Leaf, start: nat, cnt: nat, x: nat,
                     m: Leaf, unpair: seq<Byte> -> (Key, Value), limit: nat)
    requires Fits(l, g, pair) && |versions| == |r| && Inv(g, r) && Unpacks(pair, unpair, limit) && Storable(r, limit)
    requires start + cnt <= |r| && x < cnt
    requires ParsedInto(l, m, start, Images(l.n, versions, r, pair)[start..start + cnt], unpair)
    ensures start + x < |m| && m[start + x] == r[start + x]
  {
    hide Parse, Bytes, Unpacks, Storable, DistinctKeys, InNeighborhood, BitmapsExact;
    HopBounded(g, r, start + x);
    StorableAt(r, start + x, limit);
    assert Images(l.n, versions, r, pair)[start..start + cnt][x] == Bytes(l.n, versions[start + x], r[start + x], pair);
    ParseBytes(l.n, versions[start + x], r[start + x], pair, unpair, limit);
  }
}
