/** Whole runs of insertions on one leaf, each reading only the part that the lock word asks for. */
module LeafRuns {
  import opened HopscotchLeaf
  import opened HopscotchInsert
  import opened HopscotchSplit
  import opened LeafLock

  // ----- a partial read is enough -----

  ghost predicate AgreeFrom(g: Geometry, r: Leaf, q: Leaf, b: nat, n: nat) {
    && g.Valid() && |r| == g.span && |q| == g.span && b < g.span && n <= g.span
    && forall s :: 0 <= s < g.span && g.Off(b, s) < n ==> r[s] == q[s]
  }

  lemma AgreeAt(g: Geometry, r: Leaf, q: Leaf, b: nat, n: nat, i: nat)
    requires AgreeFrom(g, r, q, b, n) && b <= i < b + n
    ensures r[g.Slot(i)] == q[g.Slot(i)]
  {
    OffSlot(g, b, i);
  }

  lemma {:induction false} FirstEmptyLocal(g: Geometry, r: Leaf, q: Leaf, b: nat, n: nat, i: nat)
    requires AgreeFrom(g, r, q, b, n) && b <= i <= b + n
    ensures FirstEmpty(g, r, i, b + n) == FirstEmpty(g, q, i, b + n)
    decreases b + n - i
  {
    if i < b + n {
      AgreeAt(g, r, q, b, n, i);
      FirstEmptyLocal(g, r, q, b, n, i + 1);
    }
  }

  lemma {:induction false} HopHomeLocal(g: Geometry, r: Leaf, q: Leaf, b: nat, n: nat, j: nat, h: nat, z: int)
    requires AgreeFrom(g, r, q, b, n) && b + g.neighbor <= j < b + n && j - g.neighbor < h < j && -1 <= z < g.neighbor
    ensures HopHome(g, r, j, h, z) == HopHome(g, q, j, h, z)
    decreases z + 1
  {
    if 0 <= z {
      HopHomeLocal(g, r, q, b, n, j, h, z - 1);
      if j < h - z + g.neighbor {
        AgreeAt(g, r, q, b, n, h - z);
      }
    }
  }

  lemma {:induction false} NextHopLocal(g: Geometry, r: Leaf, q: Leaf, b: nat, n: nat, j: nat, offset: nat)
    requires AgreeFrom(g, r, q, b, n) && b + g.neighbor <= j < b + n && offset < g.neighbor
    ensures NextHop(g, r, j, offset) == NextHop(g, q, j, offset)
    decreases offset
  {
    hide HopHome;
    if offset != 0 {
      HopHomeLocal(g, r, q, b, n, j, j - offset, g.neighbor - 1);
      NextHopLocal(g, r, q, b, n, j, offset - 1);
    }
  }

  lemma MoveLocal(g: Geometry, r: Leaf, q: Leaf, b: nat, n: nat, sg: nat, h: nat, j: nat)
    requires AgreeFrom(g, r, q, b, n) && b <= h < b + n && b <= j < b + n && sg < g.span
    ensures AgreeFrom(g, MoveKey(g, r, sg, g.Slot(h), g.Slot(j)), MoveKey(g, q, sg, g.Slot(h), g.Slot(j)), b, n)
  {
    AgreeAt(g, r, q, b, n, h);
    AgreeAt(g, r, q, b, n, j);
  }

  lemma PlaceLocal(g: Geometry, r: Leaf, q: Leaf, b: nat, n: nat, j: nat, k: Key, v: Value)
    requires AgreeFrom(g, r, q, b, n) && b <= j < b + n
    ensures AgreeFrom(g, Place(g, r, b, g.Slot(j), k, v), Place(g, q, b, g.Slot(j), k, v), b, n)
  {
    AgreeAt(g, r, q, b, n, j);
    AgreeAt(g, r, q, b, n, b);
  }

  /** Same outcome and same slots written; what was not read does not matter. */
  ghost predicate SameOutcome(g: Geometry, x: HopResult, y: HopResult, b: nat, n: nat) {
    match x
    case Stuck => y == Stuck
    case Placed(r, hopped) => y.Placed? && y.hopped == hopped && AgreeFrom(g, r, y.records, b, n)
  }

  lemma {:induction false} HopRunLocal(g: Geometry, r: Leaf, q: Leaf, b: nat, n: nat, j: nat, k: Key, v: Value)
    requires g.Valid() && |r| == g.span == |q| && n <= g.span && b < g.span
    requires AgreeFrom(g, r, q, b, n) && b <= j < b + n
    ensures SameOutcome(g, HopRun(g, r, b, j, k, v), HopRun(g, q, b, j, k, v), b, n)
    decreases j
  {
    hide AgreeFrom, NextHop, MoveKey;
    if j < b + g.neighbor {
      PlaceLocal(g, r, q, b, n, j, k, v);
    } else {
      NextHopLocal(g, r, q, b, n, j, g.neighbor - 1);
      var h, r' := HopRunStep(g, r, b, j, k, v);
      var h', q' := HopRunStep(g, q, b, j, k, v);
      if h != -1 {
        MoveLocal(g, r, q, b, n, g.Slot(NextHop(g, r, j, g.neighbor - 1).1), h, j);
        HopRunLocal(g, r', q', b, n, h, k, v);
      }
    }
  }

  /** An attempt on a leaf of which only `n` slots were read, the rest being left blank, does what
      it would do on the whole leaf. */
  lemma PartialReadSameOutcome(g: Geometry, r: Leaf, q: Leaf, k: Key, v: Value, n: nat)
    requires g.Valid() && |r| == g.span == |q| && n <= g.span && AgreeFrom(g, r, q, g.Home(k), n)
    ensures SameOutcome(g, HopInsert(g, r, k, v, n), HopInsert(g, q, k, v, n), g.Home(k), n)
  {
    hide AgreeFrom, HopRun, FirstEmpty;
    var b := g.Home(k);
    FirstEmptyLocal(g, r, q, b, n, b);
    var e := FirstEmpty(g, r, b, b + n);
    if e != -1 {
      HopRunLocal(g, r, q, b, n, e, k, v);
    }
  }

  lemma {:induction false} FirstEmptyInPrefix(g: Geometry, r: Leaf, i: nat, end: nat, end': nat)
    requires g.Valid() && |r| == g.span && i <= end <= end' <= 2 * g.span
    requires FirstEmpty(g, r, i, end) != -1
    ensures FirstEmpty(g, r, i, end') == FirstEmpty(g, r, i, end)
    decreases end - i
  {
    if r[g.Slot(i)].key != NULL_KEY {
      FirstEmptyInPrefix(g, r, i + 1, end, end');
    }
  }

  /** A range that holds an empty slot decides the attempt as the whole leaf would. */
  lemma PrefixDecides(g: Geometry, r: Leaf, k: Key, v: Value, n: nat, s: nat)
    requires g.Valid() && |r| == g.span && n <= g.span && g.Home(k) <= s < g.Home(k) + n
    requires r[g.Slot(s)].key == NULL_KEY
    ensures HopInsert(g, r, k, v, n) == HopInsert(g, r, k, v, g.span)
  {
    hide HopRun;
    var b := g.Home(k);
    var e := FirstEmpty(g, r, b, b + n);
    FirstEmptyInPrefix(g, r, b, b + n, b + g.span);
  }

  // ----- runs -----

  /** A leaf with its lock word. Everything from `separator` on belongs further right; it is not
      stored in the leaf. */
  datatype LeafState = LeafState(records: Leaf, full: set<nat>, maxIdx: nat, separator: Key)

  /** The leaf is sound, a clear vacancy bit means room, and the lock word knows where the largest
      key is, which is the last key of the leaf's range. */
  ghost predicate LeafInv(g: Geometry, bits: nat, st: LeafState) {
    && Inv(g, st.records)
    && VacancySound(g.span, bits, st.records, st.full)
    && PointsAtMax(st.records, st.maxIdx)
    && st.records[st.maxIdx].key + 1 == st.separator
    && st.records[st.maxIdx].key != NULL_KEY
  }

  /** How many slots an insertion of `k` reads. */
  function ReadSize(g: Geometry, bits: nat, st: LeafState, k: Key): nat
    requires g.Valid() && 0 < bits <= g.span
  {
    var n := ReadNum(g.span, bits, st.full, g.Home(k), 0);
    if n == 0 then 0 else ReadRange(g.neighbor, g.Home(k), n)
  }

  /** `k` is new and belongs to this leaf. */
  ghost predicate MayInsert(g: Geometry, st: LeafState, k: Key) {
    && Inv(g, st.records) && k != NULL_KEY && k !in Contents(st.records)
    && k < st.separator
  }

  ghost predicate InsertStep(g: Geometry, bits: nat, st: LeafState, k: Key, v: Value, st': LeafState) {
    && MayInsert(g, st, k) && 0 < bits <= g.span && ReadSize(g, bits, st, k) <= g.span
    && var n := ReadSize(g, bits, st, k);
       var res := HopInsert(g, st.records, k, v, n);
       var e := FirstEmpty(g, st.records, g.Home(k), g.Home(k) + n);
       && res.Placed? && e != -1
       && (forall x :: 0 <= x < |res.hopped| ==> res.hopped[x] < |res.records|)
       && st' == LeafState(res.records, Updated(g.span, bits, st.full, g.Home(k), g.Slot(e), []),
                           NewMaxIdx(res.records, st.maxIdx, res.hopped), st.separator)
  }

  /** An update of a key that is there changes one value. */
  ghost predicate UpdateStep(g: Geometry, st: LeafState, k: Key, v: Value, st': LeafState) {
    exists s: nat :: s < |st.records| && st.records[s].key == k != NULL_KEY
                     && st' == st.(records := st.records[s := st.records[s].(value := v)])
  }

  /** The empty ones among the first `n` slots. */
  function Empties(r: Leaf, n: nat): (e: seq<nat>)
    requires n <= |r|
    ensures forall s: nat :: s in e <==> s < n && r[s].key == NULL_KEY
  {
    if n == 0 then []
    else if r[n - 1].key == NULL_KEY then Empties(r, n - 1) + [n - 1]
    else Empties(r, n - 1)
  }

  /** The lock word's bitmap, recomputed over the whole leaf. */
  function Recomputed(g: Geometry, bits: nat, full: set<nat>, r: Leaf): set<nat>
    requires g.Valid() && 0 < bits <= g.span == |r|
  {
    Updated(g.span, bits, full, 0, g.span - 1, Empties(r, g.span))
  }

  /** The left half keeps the leaf's place; its range now ends after its largest key. */
  function SplitLeft(g: Geometry, bits: nat, st: LeafState, k: Key, v: Value): LeafState
    requires g.Valid() && 0 < bits <= g.span == |st.records|
  {
    var low := SplitLow(g, st.records, k, v);
    var idx := MaxScan(low, g.span);
    LeafState(low, Recomputed(g, bits, st.full, low), idx, low[idx].key + 1)
  }

  /** The right half is a new leaf that takes over the leaf's sibling and with it the end of its range. */
  function SplitRight(g: Geometry, bits: nat, st: LeafState, k: Key, v: Value): LeafState
    requires g.Valid() && 0 < bits <= g.span == |st.records|
  {
    var high := SplitHigh(g, st.records, k, v);
    LeafState(high, Recomputed(g, bits, {}, high), MaxScan(high, g.span), st.separator)
  }

  /** The insertion of `k` found no way in on the part that was read. */
  ghost predicate MustSplit(g: Geometry, bits: nat, st: LeafState, k: Key, v: Value) {
    && MayInsert(g, st, k) && 0 < bits <= g.span && ReadSize(g, bits, st, k) <= g.span
    && HopInsert(g, st.records, k, v, ReadSize(g, bits, st, k)) == Stuck
  }

  /** What may happen to a leaf; after a split the run goes on with either half. */
  datatype LeafOp =
    | Insertion(k: Key, v: Value)
    | Overwrite(k: Key, v: Value)
    | SplitStayLeft(k: Key, v: Value)
    | SplitGoRight(k: Key, v: Value)

  ghost predicate Step(g: Geometry, bits: nat, st: LeafState, op: LeafOp, st': LeafState) {
    match op
    case Insertion(k, v) => InsertStep(g, bits, st, k, v, st')
    case Overwrite(k, v) => UpdateStep(g, st, k, v, st')
    case SplitStayLeft(k, v) => MustSplit(g, bits, st, k, v) && st' == SplitLeft(g, bits, st, k, v)
    case SplitGoRight(k, v) => MustSplit(g, bits, st, k, v) && st' == SplitRight(g, bits, st, k, v)
  }

  /** Whatever the lock word asks to read settles the insertion: it succeeds on that part alone
      exactly when it would succeed on the whole leaf, so a failure always calls for a split. */
  lemma ReadSizeDecides(g: Geometry, bits: nat, st: LeafState, k: Key, v: Value)
    requires LeafInv(g, bits, st)
    ensures 0 < ReadSize(g, bits, st, k) <= g.span
    ensures HopInsert(g, st.records, k, v, ReadSize(g, bits, st, k)) == HopInsert(g, st.records, k, v, g.span)
  {
    hide InNeighborhood, BitmapsExact, DistinctKeys, ReadRange, ReadNum, HopInsert, EmptySlotIn;
    var b := g.Home(k);
    var n := ReadNum(g.span, bits, st.full, b, 0);
    ReadNumFindsRoom(g.span, bits, st.records, st.full, b, 0);
    ReadRangeTakesMetadata(g.neighbor, b, n);
    var m := ReadSize(g, bits, st, k);
    if n != g.span {
      var s :| b <= s < b + n && st.records[s].key == NULL_KEY;
      assert g.Slot(s) == s;
      PrefixDecides(g, st.records, k, v, m, s);
    }
  }

  /** What an insertion step did, in the terms that the two hints depend on. */
  lemma InsertStepFacts(g: Geometry, bits: nat, st: LeafState, k: Key, v: Value, st': LeafState)
      returns (e: nat, hopped: seq<nat>)
    requires InsertStep(g, bits, st, k, v, st')
    ensures Inv(g, st'.records) && Contents(st'.records) == Contents(st.records)[k := v]
    ensures Hole(g, st.records, g.Home(k), e) && Footprint(g, st.records, st'.records, g.Home(k), e, hopped)
    ensures st'.full == Updated(g.span, bits, st.full, g.Home(k), g.Slot(e), [])
    ensures forall x :: 0 <= x < |hopped| ==> hopped[x] < |st'.records|
    ensures st'.maxIdx == NewMaxIdx(st'.records, st.maxIdx, hopped) && st'.separator == st.separator
  {
    hide InNeighborhood, BitmapsExact, DistinctKeys, HopInsert, Updated, Footprint, Hole, ReadSize, NewMaxIdx, FirstEmpty, Contents;
    var b, n := g.Home(k), ReadSize(g, bits, st, k);
    e := FirstEmpty(g, st.records, b, b + n);
    hopped := HopInsert(g, st.records, k, v, n).hopped;
    HopInsertCorrect(g, st.records, k, v, n);
    HopInsertFootprint(g, st.records, k, v, n);
    FirstEmptyIsHole(g, st.records, b, n);
  }

  lemma InsertKeepsHints(g: Geometry, bits: nat, st: LeafState, k: Key, v: Value, st': LeafState)
    requires LeafInv(g, bits, st) && InsertStep(g, bits, st, k, v, st')
    ensures LeafInv(g, bits, st')
    ensures Contents(st'.records) == Contents(st.records)[k := v]
  {
    hide InNeighborhood, BitmapsExact, DistinctKeys, HopInsert, VacancySound, Updated, Hole, Footprint, ReadSize, NewMaxIdx, FirstEmpty, PointsAtMax, Contents;
    var e, hopped := InsertStepFacts(g, bits, st, k, v, st');
    VacancyAfterInsert(g, bits, st.records, st'.records, st.full, g.Home(k), e, hopped);
    MaxStaysBelow(g, st.records, st'.records, k, v, g.Home(k), e, hopped, st.maxIdx);
  }

  /** A smaller key leaves the largest key what it was, wherever it sits now. */
  lemma MaxStaysBelow(g: Geometry, r: Leaf, r1: Leaf, k: Key, v: Value, b: nat, e: nat, hopped: seq<nat>, idx: nat)
    requires DistinctKeys(r) && DistinctKeys(r1) && k != NULL_KEY && k !in Contents(r) && Contents(r1) == Contents(r)[k := v]
    requires Footprint(g, r, r1, b, e, hopped) && PointsAtMax(r, idx) && k <= r[idx].key
    requires forall x :: 0 <= x < |hopped| ==> hopped[x] < |r1|
    ensures var idx' := NewMaxIdx(r1, idx, hopped);
            PointsAtMax(r1, idx') && r1[idx'].key == r[idx].key
  {
    hide DistinctKeys, Footprint, Contents, NewMaxIdx;
    assert r[idx].key in Contents(r);
    MaxIdxAfterInsert(g, r, r1, k, v, b, e, hopped, idx);
    KeysAfterInsert(r, r1, k, v, idx);
    var t :| 0 <= t < |r1| && r1[t].key == r[idx].key;
  }

  lemma UpdateKeepsHints(g: Geometry, bits: nat, st: LeafState, k: Key, v: Value, st': LeafState)
    requires LeafInv(g, bits, st) && UpdateStep(g, st, k, v, st')
    ensures LeafInv(g, bits, st')
  {
    var s: nat :| s < |st.records| && st.records[s].key == k != NULL_KEY
                  && st' == st.(records := st.records[s := st.records[s].(value := v)]);
    var r, r' := st.records, st'.records;
    assert forall t :: 0 <= t < |r| ==> r'[t].key == r[t].key && r'[t].hop == r[t].hop;
    UpdateKeepsInv(g, r, r');
    forall bucket | 0 <= bucket < bits && bucket !in st.full ensures exists t: nat :: EmptySlotIn(g.span, bits, r', bucket, t) {
      var t: nat :| EmptySlotIn(g.span, bits, r, bucket, t);
      assert EmptySlotIn(g.span, bits, r', bucket, t);
    }
  }

  lemma UpdateKeepsInv(g: Geometry, r: Leaf, r': Leaf)
    requires Inv(g, r) && |r'| == |r| && forall t :: 0 <= t < |r| ==> r'[t].key == r[t].key && r'[t].hop == r[t].hop
    ensures Inv(g, r')
  {
    forall h, s | 0 <= h < g.span && 0 <= s < g.span ensures g.Off(h, s) in r'[h].hop <==> Owns(g, r', h, s) {
      assert g.Off(h, s) in r[h].hop <==> Owns(g, r, h, s);
    }
  }

  /** The empty slots from `l` round to `r`. */
  method SegmentEmpties(g: Geometry, records: array<Entry>, l: nat, r: nat) returns (empties: seq<nat>)
    requires g.Valid() && records.Length == g.span && l < g.span && r < g.span
    ensures forall s: nat :: s in empties <==> s < g.span && g.Off(l, s) <= g.Off(l, r) && records[s].key == NULL_KEY
  {
    empties := [];
    var last := r + 1;
    if r < l {
      for i := 0 to r + 1
        invariant forall s: nat :: s in empties <==> s < i && records[s].key == NULL_KEY
      {
        if records[i].key == NULL_KEY {
          empties := empties + [i];
        }
      }
      last := g.span;
    }
    for i := l to last
      invariant forall s: nat :: s in empties <==> (l <= s < i || (r < l && s <= r)) && records[s].key == NULL_KEY
    {
      if records[i].key == NULL_KEY {
        empties := empties + [i];
      }
    }
  }

  /** What a segment write does to the lock word. */
  method UpdateLock(g: Geometry, lock: Valock, ghost r: Leaf, written: array<Entry>, b: nat, e: nat, hopped: seq<nat>)
    requires lock.span == g.span == written.Length && 0 < lock.bits <= g.span
    requires Footprint(g, r, written[..], b, e, hopped)
    modifies lock
    ensures lock.full == Updated(g.span, lock.bits, old(lock.full), b, g.Slot(e), [])
    ensures (forall x :: 0 <= x < |hopped| ==> hopped[x] < written.Length) && lock.maxKeyIdx == NewMaxIdx(written[..], old(lock.maxKeyIdx), hopped)
  {
    HoppedInRange(g, r, written[..], b, e, hopped);
    hide Footprint, Updated, NewMaxIdx;
    lock.UpdateMaxKeyIdx(written, hopped);
    var empties := SegmentEmpties(g, written, b, g.Slot(e));
    NoneListed(empties);
    NoBuckets(g.span, lock.bits, b);
    lock.UpdateVacancy(b, g.Slot(e), empties);
  }

  lemma NoneListed(slots: seq<nat>)
    requires forall s: nat :: s !in slots
    ensures slots == []
  {
    if slots != [] {
      HasFirst(slots);
      assert false;
    }
  }

  lemma HasFirst(slots: seq<nat>)
    requires slots != []
    ensures exists s: nat :: s in slots
  {
    assert slots[0] in slots;
  }

  lemma LeafInvBits(g: Geometry, bits: nat, st: LeafState)
    requires LeafInv(g, bits, st)
    ensures g.Valid() && |st.records| == g.span && 0 < bits <= g.span
  {
  }

  /** The insertion as it runs: the lock word says how much to read, and on success takes in the new
      position of the largest key and the buckets that were filled. */
  method InsertLeaf(g: Geometry, lock: Valock, records: array<Entry>, k: Key, v: Value, ghost st: LeafState)
      returns (ok: bool, written: array<Entry>)
    requires records.Length == g.span == lock.span
    requires st.records == records[..] && st.full == lock.full && st.maxIdx == lock.maxKeyIdx
    requires LeafInv(g, lock.bits, st) && MayInsert(g, st, k)
    modifies lock
    ensures !ok ==> MustSplit(g, lock.bits, st, k, v) && lock.full == st.full && lock.maxKeyIdx == st.maxIdx
    ensures ok ==> InsertStep(g, lock.bits, st, k, v, LeafState(written[..], lock.full, lock.maxKeyIdx, st.separator))
  {
    hide InNeighborhood, BitmapsExact, DistinctKeys, HopInsert, Contents, LeafInv, ReadNum, ReadRange, Updated, NewMaxIdx, Footprint, FirstEmpty, Geometry.Home;
    var l := g.Home(k);
    LeafInvBits(g, lock.bits, st);
    ReadSizeDecides(g, lock.bits, st, k, v);
    var n := lock.ReadEntryNum(l);
    n := ReadRange(g.neighbor, l, n);
    var hopped;
    ok, hopped, written := Insert(g, records, k, v, n);
    if ok {
      var e := FirstEmpty(g, records[..], l, l + n);
      UpdateLock(g, lock, records[..], written, l, e, hopped);
    }
  }

  lemma HoppedInRange(g: Geometry, r: Leaf, r1: Leaf, b: nat, e: nat, hopped: seq<nat>)
    requires Footprint(g, r, r1, b, e, hopped)
    ensures forall x :: 0 <= x < |hopped| ==> hopped[x] < |r1|
    ensures forall s :: 0 <= s < g.span && g.Off(b, s) <= g.Off(b, g.Slot(e)) ==> r1[s].key != NULL_KEY
  {
    OffSlot(g, b, e);
  }

  // ----- splits -----

  lemma RecomputedSound(g: Geometry, bits: nat, full: set<nat>, r: Leaf)
    requires g.Valid() && 0 < bits <= g.span == |r|
    ensures VacancySound(g.span, bits, r, Recomputed(g, bits, full, r))
  {
    hide Updated, EmptySlotIn;
    forall bucket | 0 <= bucket < bits && bucket !in Recomputed(g, bits, full, r)
      ensures exists s: nat :: EmptySlotIn(g.span, bits, r, bucket, s)
    {
      VacancyAfterSplit(g.span, bits, r, full, Empties(r, g.span), bucket);
    }
  }

  /** The largest key of the whole leaf goes to the right half, where it is the largest again. */
  lemma LargestGoesRight(m: map<Key, Value>, low: map<Key, Value>, high: map<Key, Value>, k: Key, v: Value, separator: Key, largest: Key, x: Key)
    requires low + high == m[k := v] && (forall q :: q in low ==> q < separator) && (forall q :: q in high ==> separator <= q)
    requires largest in m && k < largest && (forall q :: q in m ==> q <= largest)
    requires x in high && forall q :: q in high ==> q <= x
    ensures x == largest
  {
    assert x in m[k := v] && largest in low + high;
  }

  lemma InContents(r: Leaf, s: nat)
    requires DistinctKeys(r) && s < |r| && r[s].key != NULL_KEY
    ensures r[s].key in Contents(r)
  {
  }

  lemma SplitKeepsInv(g: Geometry, bits: nat, st: LeafState, k: Key, v: Value)
    requires LeafInv(g, bits, st) && MustSplit(g, bits, st, k, v)
    ensures LeafInv(g, bits, SplitLeft(g, bits, st, k, v)) && LeafInv(g, bits, SplitRight(g, bits, st, k, v))
    ensures SplitResult(g, st.records, SplitLow(g, st.records, k, v), SplitHigh(g, st.records, k, v), k, v, SplitLeft(g, bits, st, k, v).separator)
  {
    hide InNeighborhood, BitmapsExact, DistinctKeys, HopInsert, ReadSize, SplitLow, SplitHigh, Contents, VacancySound, Recomputed;
    var low, high := SplitLow(g, st.records, k, v), SplitHigh(g, st.records, k, v);
    ReadSizeDecides(g, bits, st, k, v);
    SplitIs(g, st.records, k, v);
    RecomputedSound(g, bits, st.full, low);
    RecomputedSound(g, bits, {}, high);
    InContents(st.records, st.maxIdx);
    MaxIsInContents(low, MaxScan(low, g.span));
    MaxIsInContents(high, MaxScan(high, g.span));
    MaxIsInContents(st.records, st.maxIdx);
    LargestGoesRight(Contents(st.records), Contents(low), Contents(high), k, v, low[MaxScan(low, g.span)].key + 1,
                     st.records[st.maxIdx].key, high[MaxScan(high, g.span)].key);
  }

  /** The split as it runs, on both leaves and both lock words. */
  method SplitLeaf(g: Geometry, lock: Valock, records: array<Entry>, siblingLock: Valock, sibling: array<Entry>, k: Key, v: Value, ghost st: LeafState)
      returns (separator: Key)
    requires records.Length == g.span == sibling.Length && records != sibling && lock != siblingLock
    requires lock.span == g.span == siblingLock.span && lock.bits == siblingLock.bits && siblingLock.full == {}
    requires st.records == records[..] && st.full == lock.full && LeafInv(g, lock.bits, st) && MustSplit(g, lock.bits, st, k, v)
    requires forall s :: 0 <= s < g.span ==> sibling[s] == Entry(NULL_KEY, NULL_VALUE, {})
    modifies records, sibling, lock, siblingLock
    ensures LeafState(records[..], lock.full, lock.maxKeyIdx, separator) == SplitLeft(g, lock.bits, st, k, v)
    ensures LeafState(sibling[..], siblingLock.full, siblingLock.maxKeyIdx, st.separator) == SplitRight(g, lock.bits, st, k, v)
  {
    hide InNeighborhood, BitmapsExact, DistinctKeys, HopInsert, ReadSize, SplitLow, SplitHigh, Contents, VacancySound, Updated, SplitResult;
    ReadSizeDecides(g, lock.bits, st, k, v);
    var idx, siblingIdx;
    separator, idx, siblingIdx := SplitAndInsert(g, records, sibling, k, v);
    lock.maxKeyIdx, siblingLock.maxKeyIdx := idx, siblingIdx;
    RecomputeVacancy(g, lock, records);
    RecomputeVacancy(g, siblingLock, sibling);
  }

  method RecomputeVacancy(g: Geometry, lock: Valock, records: array<Entry>)
    requires g.Valid() && records.Length == g.span == lock.span && 0 < lock.bits <= g.span
    modifies lock`full
    ensures lock.full == Recomputed(g, lock.bits, old(lock.full), records[..])
  {
    var empties: seq<nat> := [];
    for i := 0 to g.span
      invariant empties == Empties(records[..], i)
    {
      if records[i].key == NULL_KEY {
        empties := empties + [i];
      }
    }
    WholeCircle(g.span, lock.bits, empties);
    lock.UpdateVacancy(0, g.span - 1, empties);
  }

  lemma WholeCircle(span: nat, bits: nat, empties: seq<nat>)
    requires 0 < bits <= span && forall s :: s in empties ==> s < span
    ensures BucketsOf(span, bits, empties) <= Circle(bits, Bucket(span, bits, 0), Bucket(span, bits, span - 1))
  {
    hide Bucket;
    EndBuckets(span, bits);
    forall x | 0 <= x < |empties| ensures Bucket(span, bits, empties[x]) < bits {
      assert empties[x] in empties;
      BucketInRange(span, bits, empties[x]);
    }
  }

  // ----- the first leaf -----

  const KEY_MAX: Key := 0xFFFF_FFFF_FFFF_FFFF
  const GHOST_KEY: Key := KEY_MAX - 1

  function EmptyLeaf(g: Geometry): (r: Leaf)
    ensures |r| == g.span
  {
    seq(g.span, _ => Entry(NULL_KEY, NULL_VALUE, {}))
  }

  lemma EmptyLeafIs(g: Geometry)
    requires g.Valid()
    ensures Inv(g, EmptyLeaf(g)) && Contents(EmptyLeaf(g)) == map[]
  {
    assert Contents(EmptyLeaf(g)).Keys == {};
  }

  /** In an empty leaf the key goes to its hash slot. */
  lemma FirstKeyGoesHome(g: Geometry, k: Key, v: Value)
    requires g.Valid()
    ensures HopInsert(g, EmptyLeaf(g), k, v, g.span) == Placed(Place(g, EmptyLeaf(g), g.Home(k), g.Home(k), k, v), [g.Home(k)])
  {
    var b := g.Home(k);
    assert FirstEmpty(g, EmptyLeaf(g), b, b + g.span) == b;
    assert g.Slot(b) == b;
  }

  /** The root leaf of a new tree holds the ghost key, and its range ends at the largest key of all. */
  function RootLeaf(g: Geometry, bits: nat): LeafState
    requires g.Valid() && 0 < bits <= g.span
  {
    var idx := g.Home(GHOST_KEY);
    LeafState(Place(g, EmptyLeaf(g), idx, idx, GHOST_KEY, NULL_VALUE), Updated(g.span, bits, {}, idx, idx, []), idx, KEY_MAX)
  }

  /** The creation of the root leaf and of its lock word. */
  method InitRoot(g: Geometry, bits: nat, records: array<Entry>) returns (lock: Valock)
    requires g.Valid() && 0 < bits <= g.span == records.Length
    requires forall s :: 0 <= s < g.span ==> records[s] == Entry(NULL_KEY, NULL_VALUE, {})
    modifies records
    ensures fresh(lock) && lock.span == g.span && lock.bits == bits
    ensures LeafState(records[..], lock.full, lock.maxKeyIdx, KEY_MAX) == RootLeaf(g, bits)
  {
    assert records[..] == EmptyLeaf(g);
    EmptyLeafIs(g);
    FirstKeyGoesHome(g, GHOST_KEY, NULL_VALUE);
    OnlyHome(g, GHOST_KEY, NULL_VALUE);
    hide Inv, HopInsert, Updated, Place, Geometry.Home, Contents;
    var idx := InsertLocally(g, records, GHOST_KEY, NULL_VALUE);
    lock := new Valock(g.span, bits, idx);
    NoBuckets(g.span, bits, idx);
    lock.UpdateVacancy(idx, idx, []);
  }

  lemma OnlyHome(g: Geometry, k: Key, v: Value)
    requires g.Valid() && k != NULL_KEY
    ensures var r := Place(g, EmptyLeaf(g), g.Home(k), g.Home(k), k, v);
            |r| == g.span && forall s :: 0 <= s < g.span ==> r[s].key == if s == g.Home(k) then k else NULL_KEY
  {
  }

  lemma NoBuckets(span: nat, bits: nat, idx: nat)
    requires 0 < bits <= span && idx < span
    ensures BucketsOf(span, bits, []) == {}
  {
  }

  lemma RootLeafInv(g: Geometry, bits: nat)
    requires g.Valid() && 0 < bits <= g.span
    ensures LeafInv(g, bits, RootLeaf(g, bits))
  {
    EmptyLeafIs(g);
    FirstKeyGoesHome(g, GHOST_KEY, NULL_VALUE);
    HopInsertCorrect(g, EmptyLeaf(g), GHOST_KEY, NULL_VALUE, g.span);
    OnlyHome(g, GHOST_KEY, NULL_VALUE);
    RootVacancy(g, bits, RootLeaf(g, bits).records, g.Home(GHOST_KEY));
  }

  /** Only the bucket of the one key is marked; every other bucket is empty. */
  lemma RootVacancy(g: Geometry, bits: nat, r: Leaf, idx: nat)
    requires g.Valid() && 0 < bits <= g.span == |r| && idx < g.span
    requires forall s :: 0 <= s < g.span && s != idx ==> r[s].key == NULL_KEY
    ensures VacancySound(g.span, bits, r, Updated(g.span, bits, {}, idx, idx, []))
  {
    hide Bucket, BucketRange;
    var full := Updated(g.span, bits, {}, idx, idx, []);
    forall bucket | 0 <= bucket < bits && bucket !in full ensures exists s: nat :: EmptySlotIn(g.span, bits, r, bucket, s) {
      var s := BucketRange(g.span, bits, bucket).0;
      BucketsInvert(g.span, bits, bucket, 0);
      BucketsInvert(g.span, bits, bucket, s);
      assert Bucket(g.span, bits, idx) in full;
      assert EmptySlotIn(g.span, bits, r, bucket, s);
    }
  }

  // ----- every step, every run -----

  /** Every step keeps the leaf sound and both hints of its lock word true. */
  lemma StepKeepsInv(g: Geometry, bits: nat, st: LeafState, op: LeafOp, st': LeafState)
    requires LeafInv(g, bits, st) && Step(g, bits, st, op, st')
    ensures LeafInv(g, bits, st')
  {
    hide LeafInv, InsertStep, UpdateStep, MustSplit, SplitLeft, SplitRight;
    match op {
      case Insertion(k, v) => InsertKeepsHints(g, bits, st, k, v, st');
      case Overwrite(k, v) => UpdateKeepsHints(g, bits, st, k, v, st');
      case SplitStayLeft(k, v) => SplitKeepsInv(g, bits, st, k, v);
      case SplitGoRight(k, v) => SplitKeepsInv(g, bits, st, k, v);
    }
  }

  ghost predicate Run(g: Geometry, bits: nat, run: seq<LeafState>, ops: seq<LeafOp>) {
    && g.Valid() && 0 < bits <= g.span
    && |run| == |ops| + 1 && run[0] == RootLeaf(g, bits)
    && forall x :: 0 <= x < |ops| ==> Step(g, bits, run[x], ops[x], run[x + 1])
  }

  /** From the root leaf, through any inserts, updates and splits, down to either half of each: the
      leaf is sound, a clear vacancy bit means room, and the largest key is where the lock word says
      and one below the end of the leaf's range. */
  lemma {:induction false} RunKeepsInv(g: Geometry, bits: nat, run: seq<LeafState>, ops: seq<LeafOp>, i: nat)
    requires Run(g, bits, run, ops) && i < |run|
    ensures LeafInv(g, bits, run[i])
  {
    hide LeafInv, Step, RootLeaf;
    if i == 0 {
      RootLeafInv(g, bits);
    } else {
      RunKeepsInv(g, bits, run, ops, i - 1);
      assert Step(g, bits, run[i - 1], ops[i - 1], run[i - 1 + 1]);
      StepKeepsInv(g, bits, run[i - 1], ops[i - 1], run[i]);
    }
  }

  /** A writer's test, from the slots it has read and, only if none of them holds a key as large, from
      the slot that the lock word names. */
  predicate TurnsRight(st: LeafState, read: set<nat>, k: Key)
    requires st.maxIdx < |st.records|
  {
    !(exists s :: s in read && s < |st.records| && st.records[s].key >= k) && k >= st.records[st.maxIdx].key + 1
  }

  /** In every state of a run the writer turns right exactly if the key lies beyond the leaf's range. */
  lemma WriterTurnsExactly(g: Geometry, bits: nat, run: seq<LeafState>, ops: seq<LeafOp>, i: nat, read: set<nat>, k: Key)
    requires Run(g, bits, run, ops) && i < |run|
    ensures run[i].maxIdx < |run[i].records|
    ensures TurnsRight(run[i], read, k) <==> run[i].separator <= k
  {
    RunKeepsInv(g, bits, run, ops, i);
  }

  // ----- what the leaf holds -----

  /** The pairs of `m` with keys from `lo` up to but not including `hi`. */
  function Between(m: map<Key, Value>, lo: Key, hi: Key): map<Key, Value> {
    map x | x in m && lo <= x < hi :: m[x]
  }

  /** What a step makes of the pairs of a leaf; `middle` is where it splits. */
  function Next(m: map<Key, Value>, op: LeafOp, middle: Key): map<Key, Value> {
    match op
    case Insertion(k, v) => m[k := v]
    case Overwrite(k, v) => m[k := v]
    case SplitStayLeft(k, v) => Between(m[k := v], 0, middle)
    case SplitGoRight(k, v) => Between(m[k := v], middle, KEY_MAX)
  }

  /** Where a split step divides the leaf. */
  ghost function Middle(g: Geometry, bits: nat, st: LeafState, op: LeafOp): Key {
    if g.Valid() && 0 < bits <= g.span == |st.records| && (op.SplitStayLeft? || op.SplitGoRight?)
    then SplitLeft(g, bits, st, op.k, op.v).separator else 0
  }

  /** The map of a leaf whose keys are distinct. */
  ghost function Held(r: Leaf): map<Key, Value> {
    if DistinctKeys(r) then Contents(r) else map[]
  }

  lemma HeldIs(g: Geometry, r: Leaf)
    requires Inv(g, r)
    ensures Held(r) == Contents(r)
  {
    hide InNeighborhood, BitmapsExact, Contents;
  }

  lemma OverwriteHeld(g: Geometry, st: LeafState, k: Key, v: Value, st': LeafState)
    requires UpdateStep(g, st, k, v, st')
    requires DistinctKeys(st.records)
    ensures Held(st'.records) == Held(st.records)[k := v] && st'.separator == st.separator
  {
    var s: nat :| s < |st.records| && st.records[s].key == k != NULL_KEY
                  && st' == st.(records := st.records[s := st.records[s].(value := v)]);
    OneValueChanged(st.records, s, v);
  }

  lemma OneValueChanged(r: Leaf, s: nat, v: Value)
    requires DistinctKeys(r) && s < |r| && r[s].key != NULL_KEY
    ensures var r' := r[s := r[s].(value := v)]; DistinctKeys(r') && Contents(r') == Contents(r)[r[s].key := v]
  {
    hide Contents;
    var r', m := r[s := r[s].(value := v)], Contents(r)[r[s].key := v];
    assert forall t :: 0 <= t < |r| ==> r'[t].key == r[t].key;
    forall t | 0 <= t < |r'| && r'[t].key != NULL_KEY ensures r'[t].key in m && m[r'[t].key] == r'[t].value {
    }
    forall x | x in m ensures x != NULL_KEY && exists t :: 0 <= t < |r'| && r'[t].key == x {
      var t :| 0 <= t < |r| && r[t].key == x;
      assert r'[t].key == x;
    }
    SameContents(r', m);
  }

  lemma SplitContents(m: map<Key, Value>, low: map<Key, Value>, high: map<Key, Value>, separator: Key, max: Key)
    requires low + high == m && (forall q :: q in low ==> q < separator) && (forall q :: q in high ==> separator <= q < max)
    ensures low == Between(m, 0, separator) && high == Between(m, separator, max)
  {
    assert forall q :: q in m <==> q in low || q in high;
  }

  /** An insertion and an update put one pair in; a split divides the pairs, the new one included, at the
      end of the left half's range. */
  lemma StepContents(g: Geometry, bits: nat, st: LeafState, op: LeafOp, st': LeafState)
    requires LeafInv(g, bits, st) && Step(g, bits, st, op, st') && st.separator <= KEY_MAX
    ensures Held(st'.records) == Next(Held(st.records), op, Middle(g, bits, st, op))
    ensures st'.separator == if op.SplitStayLeft? then Middle(g, bits, st, op) else st.separator
    ensures st'.separator <= KEY_MAX
  {
    hide InsertStep, UpdateStep, MustSplit, LeafInv, Held, SplitLeft, SplitRight;
    LeafInvBits(g, bits, st);
    match op {
      case Insertion(k, v) => InsertHeld(g, bits, st, k, v, st');
      case Overwrite(k, v) =>
        LeafInvDistinct(g, bits, st);
        OverwriteHeld(g, st, k, v, st');
      case SplitStayLeft(k, v) => DividedHeld(g, bits, st, k, v);
      case SplitGoRight(k, v) => DividedHeld(g, bits, st, k, v);
    }
  }

  lemma LeafInvDistinct(g: Geometry, bits: nat, st: LeafState)
    requires LeafInv(g, bits, st)
    ensures DistinctKeys(st.records)
  {
  }

  lemma InsertHeld(g: Geometry, bits: nat, st: LeafState, k: Key, v: Value, st': LeafState)
    requires LeafInv(g, bits, st) && InsertStep(g, bits, st, k, v, st')
    ensures Held(st'.records) == Held(st.records)[k := v] && st'.separator == st.separator
  {
    hide InNeighborhood, BitmapsExact, DistinctKeys, HopInsert, Contents, VacancySound, InsertStep, Held;
    var e, hopped := InsertStepFacts(g, bits, st, k, v, st');
    HeldIs(g, st.records);
    HeldIs(g, st'.records);
  }

  lemma DividedHeld(g: Geometry, bits: nat, st: LeafState, k: Key, v: Value)
    requires LeafInv(g, bits, st) && MustSplit(g, bits, st, k, v) && st.separator <= KEY_MAX
    ensures g.Valid() && 0 < bits <= g.span == |st.records|
    ensures var m, l, r := Held(st.records)[k := v], SplitLeft(g, bits, st, k, v), SplitRight(g, bits, st, k, v);
            && Held(l.records) == Between(m, 0, l.separator) && Held(r.records) == Between(m, l.separator, KEY_MAX)
            && l.separator <= KEY_MAX && r.separator == st.separator
  {
    hide InNeighborhood, BitmapsExact, DistinctKeys, HopInsert, ReadSize, SplitLow, SplitHigh, Contents, VacancySound, Recomputed, Held;
    SplitKeepsInv(g, bits, st, k, v);
    HeldIs(g, st.records);
    HeldIs(g, SplitLow(g, st.records, k, v));
    HeldIs(g, SplitHigh(g, st.records, k, v));
    var low, high := Held(SplitLow(g, st.records, k, v)), Held(SplitHigh(g, st.records, k, v));
    var m := Held(st.records)[k := v];
    BelowSeparator(g, st.records, st.maxIdx, KEY_MAX);
    assert forall q :: q in high ==> q in low + high;
    SplitContents(m, low, high, SplitLeft(g, bits, st, k, v).separator, KEY_MAX);
    var x :| x in high;
  }

  lemma BelowSeparator(g: Geometry, r: Leaf, idx: nat, max: Key)
    requires Inv(g, r) && PointsAtMax(r, idx) && r[idx].key < max
    ensures forall q :: q in Held(r) ==> q < max
  {
    hide InNeighborhood, BitmapsExact;
  }

  /** What a run leaves in the leaf that it follows, from the ghost key on. */
  ghost function Expected(g: Geometry, bits: nat, run: seq<LeafState>, ops: seq<LeafOp>, i: nat): map<Key, Value>
    requires i < |run| == |ops| + 1
  {
    if i == 0 then map[GHOST_KEY := NULL_VALUE]
    else Next(Expected(g, bits, run, ops, i - 1), ops[i - 1], Middle(g, bits, run[i - 1], ops[i - 1]))
  }

  /** In every state of every run the leaf holds exactly the pairs that were put into it and that no split
      has moved to its neighbour. */
  lemma {:induction false} RunContents(g: Geometry, bits: nat, run: seq<LeafState>, ops: seq<LeafOp>, i: nat)
    requires Run(g, bits, run, ops) && i < |run|
    ensures Held(run[i].records) == Expected(g, bits, run, ops, i) && run[i].separator <= KEY_MAX
  {
    hide LeafInv, Step, RootLeaf, Held, Next, Middle;
    if i == 0 {
      RootContents(g, bits);
    } else {
      RunContents(g, bits, run, ops, i - 1);
      RunKeepsInv(g, bits, run, ops, i - 1);
      assert Step(g, bits, run[i - 1], ops[i - 1], run[i - 1 + 1]);
      StepContents(g, bits, run[i - 1], ops[i - 1], run[i]);
    }
  }

  lemma RootContents(g: Geometry, bits: nat)
    requires g.Valid() && 0 < bits <= g.span
    ensures Held(RootLeaf(g, bits).records) == map[GHOST_KEY := NULL_VALUE] && RootLeaf(g, bits).separator == KEY_MAX
  {
    hide InNeighborhood, BitmapsExact, DistinctKeys, HopInsert, Contents, Held;
    EmptyLeafIs(g);
    FirstKeyGoesHome(g, GHOST_KEY, NULL_VALUE);
    HopInsertCorrect(g, EmptyLeaf(g), GHOST_KEY, NULL_VALUE, g.span);
    HeldIs(g, RootLeaf(g, bits).records);
  }
}
