/** The vacancy-aware leaf lock word: a bitmap of buckets known to be full, and the slot of the
    leaf's largest key. Both are hints that let an insertion read less than the whole leaf. */
module LeafLock {
  import opened HopscotchLeaf
  import opened HopscotchInsert
  import opened Arith

  // ----- buckets -----

  /** The bucket of a slot, with `bits` buckets over `span` slots. */
  function Bucket(span: nat, bits: nat, s: nat): nat
    requires 0 < bits <= span
  {
    (s * bits / span) % bits
  }

  /** The first slot of a bucket: the quotient rounded up. */
  function First(span: nat, bits: nat, bucket: nat): nat
    requires 0 < bits <= span
  {
    bucket * span / bits + (if span * bucket % bits != 0 then 1 else 0)
  }

  /** The slots of a bucket, both ends included. */
  function BucketRange(span: nat, bits: nat, bucket: nat): (nat, int)
    requires 0 < bits <= span
  {
    var l, r := First(span, bits, bucket), First(span, bits, bucket + 1) - 1;
    (l, if span <= r then span - 1 else r)
  }

  /** A slot lies before the first slot of a bucket exactly when its quotient is smaller. */
  lemma FirstIsCeiling(span: nat, bits: nat, bucket: nat, s: nat)
    requires 0 < bits <= span
    ensures s < First(span, bits, bucket) <==> s * bits < bucket * span
  {
    var x := bucket * span;
    var a, m := x / bits, x % bits;
    assert x == a * bits + m;
    assert span * bucket == x;
    if s <= a {
      MulMono(s, a, bits);
      if s < a {
        MulMono(s + 1, a, bits);
        assert (s + 1) * bits == s * bits + bits;
      }
    } else {
      MulMono(a + 1, s, bits);
      assert (a + 1) * bits == a * bits + bits;
    }
  }

  lemma LastBucketEndsAtSpan(span: nat, bits: nat)
    requires 0 < bits <= span
    ensures First(span, bits, bits) == span
  {
    FirstIsCeiling(span, bits, bits, span);
    FirstIsCeiling(span, bits, bits, span - 1);
    assert (span - 1) * bits == span * bits - bits;
  }

  lemma SmallModulo(x: nat, d: nat)
    requires x < d
    ensures x % d == x
  {
  }

  lemma QuotientInRange(span: nat, bits: nat, s: nat)
    requires 0 < bits <= span && s < span
    ensures s * bits / span < bits
  {
    DivBelow(s * bits, span, bits);
    assert s * bits < bits * span by {
      MulMono(s + 1, span, bits);
      assert (s + 1) * bits == s * bits + bits;
      assert span * bits == bits * span;
    }
  }

  lemma BucketInRange(span: nat, bits: nat, s: nat)
    requires 0 < bits <= span && s < span
    ensures Bucket(span, bits, s) == s * bits / span < bits
  {
    QuotientInRange(span, bits, s);
    SmallModulo(s * bits / span, bits);
  }

  /** The first slot after a bucket lies strictly beyond the bucket's own first slot. */
  lemma BucketNotEmpty(span: nat, bits: nat, bucket: nat)
    requires 0 < bits <= span
    ensures First(span, bits, bucket) < First(span, bits, bucket + 1)
  {
    var l := First(span, bits, bucket);
    FirstIsCeiling(span, bits, bucket + 1, l);
    hide First;
    assert (bucket + 1) * span == bucket * span + span;
    if 0 < l {
      FirstIsCeiling(span, bits, bucket, l - 1);
      assert (l - 1) * bits == l * bits - bits;
    }
  }

  lemma BucketOfSlot(span: nat, bits: nat, bucket: nat, s: nat)
    requires 0 < bits <= span && s < span
    ensures Bucket(span, bits, s) == bucket <==> First(span, bits, bucket) <= s < First(span, bits, bucket + 1)
  {
    hide First;
    BucketInRange(span, bits, s);
    hide Bucket;
    FirstIsCeiling(span, bits, bucket, s);
    FirstIsCeiling(span, bits, bucket + 1, s);
    DivBelow(s * bits, span, bucket);
    DivBelow(s * bits, span, bucket + 1);
  }

  /** Slot-to-bucket and bucket-to-slots are inverse to each other, and no bucket is empty. */
  lemma BucketsInvert(span: nat, bits: nat, bucket: nat, s: nat)
    requires 0 < bits <= span && bucket < bits && s < span
    ensures var (l, r) := BucketRange(span, bits, bucket);
            && l <= r < span
            && (Bucket(span, bits, s) == bucket <==> l <= s <= r)
  {
    hide First, Bucket;
    BucketNotEmpty(span, bits, bucket);
    BucketOfSlot(span, bits, bucket, s);
    LastBucketEndsAtSpan(span, bits);
    FirstMono(span, bits, bucket + 1, bits);
  }

  lemma FirstMono(span: nat, bits: nat, a: nat, b: nat)
    requires 0 < bits <= span && a <= b
    ensures First(span, bits, a) <= First(span, bits, b)
  {
    hide First;
    var f := First(span, bits, b);
    FirstIsCeiling(span, bits, b, f);
    FirstIsCeiling(span, bits, a, f);
    MulMono(a, b, span);
  }

  // ----- the vacancy bitmap -----

  function Interval(lo: nat, hi: nat): (s: set<nat>)
    ensures forall i :: i in s <==> lo <= i < hi
  {
    if hi <= lo then {} else Interval(lo, hi - 1) + {hi - 1}
  }

  /** The buckets from `l` round to `r`. */
  function Circle(bits: nat, l: nat, r: nat): set<nat>
    requires l < bits && r < bits
  {
    if l <= r then Interval(l, r + 1) else Interval(0, r + 1) + Interval(l, bits)
  }

  function BucketsOf(span: nat, bits: nat, slots: seq<nat>): set<nat>
    requires 0 < bits <= span
  {
    set x | 0 <= x < |slots| :: Bucket(span, bits, slots[x])
  }

  /** The bitmap after the slots from `l` round to `r` were written, `empties` being those still empty. */
  function Updated(span: nat, bits: nat, full: set<nat>, l: nat, r: nat, empties: seq<nat>): set<nat>
    requires 0 < bits <= span && l < span && r < span
  {
    full + Circle(bits, Bucket(span, bits, l), Bucket(span, bits, r)) - BucketsOf(span, bits, empties)
  }

  /** How much to read from `start`: up to the end of the next bucket known to have room, or everything. */
  function ReadNum(span: nat, bits: nat, full: set<nat>, start: nat, i: nat): nat
    requires 0 < bits <= span && start < span && i <= bits
    decreases bits - i
  {
    if i == bits then span
    else
      var bucket := (Bucket(span, bits, start) + i) % bits;
      var (l, r) := BucketRange(span, bits, bucket);
      if bucket in full || l < start then ReadNum(span, bits, full, start, i + 1)
      else
        var n := (r + span - start + 1) % span;
        if n != 0 then n else span
  }

  class Valock {
    const span: nat
    const bits: nat
    var full: set<nat>
    var maxKeyIdx: nat

    constructor (span: nat, bits: nat, maxKeyIdx: nat)
      requires 0 < bits <= span
      ensures this.span == span && this.bits == bits && full == {} && this.maxKeyIdx == maxKeyIdx
    {
      this.span, this.bits, this.full, this.maxKeyIdx := span, bits, {}, maxKeyIdx;
    }

    /** Every empty slot reported must lie in a bucket of the written segment. */
    method UpdateVacancy(l: nat, r: nat, empties: seq<nat>)
      requires 0 < bits <= span && l < span && r < span
      requires BucketsOf(span, bits, empties) <= Circle(bits, Bucket(span, bits, l), Bucket(span, bits, r))
      modifies `full
      ensures full == Updated(span, bits, old(full), l, r, empties)
    {
      hide Bucket;
      BucketInRange(span, bits, l);
      BucketInRange(span, bits, r);
      var lBit, rBit := Bucket(span, bits, l), Bucket(span, bits, r);
      if lBit <= rBit {
        for i := lBit to rBit + 1
          invariant full == old(full) + Interval(lBit, i)
        {
          full := full + {i};
        }
      } else {
        for i := 0 to rBit + 1
          invariant full == old(full) + Interval(0, i)
        {
          full := full + {i};
        }
        ghost var low := full;
        for i := lBit to bits
          invariant full == low + Interval(lBit, i)
        {
          full := full + {i};
        }
      }
      assert full == old(full) + Circle(bits, lBit, rBit);
      ghost var set_ := full;
      for i := 0 to |empties|
        invariant full == set_ - BucketsOf(span, bits, empties[..i])
      {
        assert BucketsOf(span, bits, empties[..i + 1]) == BucketsOf(span, bits, empties[..i]) + {Bucket(span, bits, empties[i])} by {
          assert empties[..i + 1] == empties[..i] + [empties[i]];
        }
        full := full - {Bucket(span, bits, empties[i])};
      }
      assert empties[..|empties|] == empties;
    }

    method ReadEntryNum(start: nat) returns (n: nat)
      requires 0 < bits <= span && start < span
      ensures n == ReadNum(span, bits, full, start, 0)
    {
      var i := 0;
      while i < bits
        invariant i <= bits && ReadNum(span, bits, full, start, 0) == ReadNum(span, bits, full, start, i)
      {
        var bucket := (Bucket(span, bits, start) + i) % bits;
        if bucket !in full {
          var (l, r) := BucketRange(span, bits, bucket);
          if start <= l {
            n := (r + span - start + 1) % span;
            return if n != 0 then n else span;
          }
        }
        i := i + 1;
      }
      n := span;
    }

    /** If the largest key may have moved, looks for it among the slots that were written. */
    method UpdateMaxKeyIdx(records: array<Entry>, hopped: seq<nat>)
      requires forall x :: 0 <= x < |hopped| ==> hopped[x] < records.Length
      modifies `maxKeyIdx
      ensures maxKeyIdx == NewMaxIdx(records[..], old(maxKeyIdx), hopped)
    {
      if maxKeyIdx in hopped {
        var newMax := NULL_KEY;
        ghost var start := maxKeyIdx;
        for i := 0 to |hopped|
          invariant (newMax, maxKeyIdx) == MaxAmong(records[..], start, hopped[..i])
        {
          assert hopped[..i + 1][..i] == hopped[..i];
          if newMax < records[hopped[i]].key {
            newMax, maxKeyIdx := records[hopped[i]].key, hopped[i];
          }
        }
        assert hopped[..|hopped|] == hopped;
      }
    }
  }

  /** The largest key among the listed slots and the first of them that holds it. */
  function MaxAmong(r: Leaf, start: nat, slots: seq<nat>): (m: (Key, nat))
    requires forall x :: 0 <= x < |slots| ==> slots[x] < |r|
  {
    if slots == [] then (NULL_KEY, start)
    else
      var rest, last := MaxAmong(r, start, slots[..|slots| - 1]), slots[|slots| - 1];
      if rest.0 < r[last].key then (r[last].key, last) else rest
  }

  function NewMaxIdx(r: Leaf, idx: nat, hopped: seq<nat>): nat
    requires forall x :: 0 <= x < |hopped| ==> hopped[x] < |r|
  {
    if idx in hopped then MaxAmong(r, idx, hopped).1 else idx
  }

  // ----- what the two hints promise -----

  ghost predicate EmptySlotIn(span: nat, bits: nat, r: Leaf, bucket: nat, s: nat)
    requires 0 < bits <= span
  {
    s < span == |r| && Bucket(span, bits, s) == bucket && r[s].key == NULL_KEY
  }

  /** A clear bit means that its bucket holds an empty slot. */
  ghost predicate VacancySound(span: nat, bits: nat, r: Leaf, full: set<nat>) {
    && 0 < bits <= span == |r|
    && forall bucket :: 0 <= bucket < bits && bucket !in full ==> exists s: nat :: EmptySlotIn(span, bits, r, bucket, s)
  }

  ghost predicate PointsAtMax(r: Leaf, idx: nat) {
    idx < |r| && forall s :: 0 <= s < |r| ==> r[s].key <= r[idx].key
  }

  /** Reading up to the end of a bucket with a clear bit brings in an empty slot. */
  lemma RoomInBucket(span: nat, bits: nat, r: Leaf, full: set<nat>, start: nat, bucket: nat)
    requires VacancySound(span, bits, r, full) && start < span && bucket < bits && bucket !in full
    requires start <= BucketRange(span, bits, bucket).0
    ensures var h := BucketRange(span, bits, bucket).1;
            && start <= h < span
            && (h + span - start + 1) % span == (if h - start + 1 == span then 0 else h - start + 1)
            && exists s :: start <= s < h + 1 && r[s].key == NULL_KEY
  {
    hide Bucket, BucketRange;
    var h := BucketRange(span, bits, bucket).1;
    var s: nat :| EmptySlotIn(span, bits, r, bucket, s);
    BucketsInvert(span, bits, bucket, s);
    RoundNum(span, start, h);
    assert start <= s < h + 1 && r[s].key == NULL_KEY;
  }

  /** The partial read never wraps and always brings in an empty slot, unless it reads everything. */
  lemma {:induction false} ReadNumFindsRoom(span: nat, bits: nat, r: Leaf, full: set<nat>, start: nat, i: nat)
    requires 0 < bits <= span == |r| && VacancySound(span, bits, r, full) && start < span && i <= bits
    ensures var n := ReadNum(span, bits, full, start, i);
            n == span ||
            (0 < n && start + n <= span && exists s :: start <= s < start + n && r[s].key == NULL_KEY)
    decreases bits - i
  {
    hide Bucket, BucketRange, VacancySound;
    if i < bits {
      var bucket := (Bucket(span, bits, start) + i) % bits;
      if bucket in full || BucketRange(span, bits, bucket).0 < start {
        ReadNumFindsRoom(span, bits, r, full, start, i + 1);
      } else {
        RoomInBucket(span, bits, r, full, start, bucket);
      }
    }
  }

  lemma RoundNum(span: nat, start: nat, h: int)
    requires start <= h < span
    ensures (h + span - start + 1) % span == if h - start + 1 == span then 0 else h - start + 1
  {
    DivModIs(h + span - start + 1, span, if h - start + 1 == span then 2 else 1, if h - start + 1 == span then 0 else h - start + 1);
  }

  /** A bucket known to have room that begins at or after `start`. */
  predicate Usable(span: nat, bits: nat, full: set<nat>, start: nat, bucket: nat)
    requires 0 < bits <= span
  {
    bucket < bits && bucket !in full && start <= BucketRange(span, bits, bucket).0
  }

  /** Reading `n` slots from `start` ends with the last slot of `bucket`. */
  predicate EndsWith(span: nat, bits: nat, start: nat, n: nat, bucket: nat)
    requires 0 < bits <= span
  {
    start + n == BucketRange(span, bits, bucket).1 + 1
  }

  /** The read ends with the first usable bucket, and is the whole leaf only if there is none or it is
      that long. */
  ghost predicate ReadsNext(span: nat, bits: nat, full: set<nat>, start: nat, n: nat)
    requires 0 < bits <= span
  {
    if exists c: nat :: Usable(span, bits, full, start, c) then
      exists c: nat :: Usable(span, bits, full, start, c) && EndsWith(span, bits, start, n, c)
                       && forall d: nat :: Usable(span, bits, full, start, d) ==> c <= d
    else n == span
  }

  lemma ReadNumIsNext(span: nat, bits: nat, full: set<nat>, start: nat)
    requires 0 < bits <= span && start < span
    ensures ReadsNext(span, bits, full, start, ReadNum(span, bits, full, start, 0))
  {
    hide Bucket, First, ReadNum;
    var b := Bucket(span, bits, start);
    BucketInRange(span, bits, start);
    BucketOfSlot(span, bits, b, start);
    forall d: nat | Usable(span, bits, full, start, d) ensures b <= d {
      if d < b {
        BucketNotEmpty(span, bits, d);
        FirstMono(span, bits, d + 1, b);
      }
    }
    ReadNumFrom(span, bits, full, start, 0);
  }

  lemma {:induction false} ReadNumFrom(span: nat, bits: nat, full: set<nat>, start: nat, i: nat)
    requires 0 < bits <= span && start < span && i <= bits
    requires forall d: nat :: Usable(span, bits, full, start, d) ==> Bucket(span, bits, start) + i <= d
    ensures ReadsNext(span, bits, full, start, ReadNum(span, bits, full, start, i))
    decreases bits - i
  {
    hide Bucket, First, ReadsNext;
    var b := Bucket(span, bits, start);
    BucketInRange(span, bits, start);
    if i == bits {
      NoneIsNext(span, bits, full, start);
    } else {
      var c := (b + i) % bits;
      DivModIs(b + i, bits, if b + i < bits then 0 else 1, if b + i < bits then b + i else b + i - bits);
      assert Usable(span, bits, full, start, c) ==> c == b + i;
      if Usable(span, bits, full, start, c) {
        FirstIsNext(span, bits, full, start, c, ReadNum(span, bits, full, start, i));
      } else {
        ReadNumFrom(span, bits, full, start, i + 1);
      }
    }
  }

  lemma NoneIsNext(span: nat, bits: nat, full: set<nat>, start: nat)
    requires 0 < bits <= span && forall d: nat :: Usable(span, bits, full, start, d) ==> bits <= d
    ensures ReadsNext(span, bits, full, start, span)
  {
    hide BucketRange;
  }

  lemma FirstIsNext(span: nat, bits: nat, full: set<nat>, start: nat, c: nat, n: nat)
    requires 0 < bits <= span && start < span && Usable(span, bits, full, start, c)
    requires forall d: nat :: Usable(span, bits, full, start, d) ==> c <= d
    requires var m := (BucketRange(span, bits, c).1 + span - start + 1) % span; n == if m != 0 then m else span
    ensures ReadsNext(span, bits, full, start, n)
  {
    hide BucketRange;
    BucketsInvert(span, bits, c, start);
    RoundNum(span, start, BucketRange(span, bits, c).1);
    assert EndsWith(span, bits, start, n, c);
  }

  /** The read of an insertion, widened so that it takes in one copy of the leaf's metadata. */
  function ReadRange(neighbor: nat, start: nat, n: nat): nat
    requires 0 < neighbor && 0 < n
  {
    var end := start + n;
    if n < neighbor && start % neighbor != 0 && start / neighbor == (end - 1) / neighbor then
      (end - 1 + neighbor) / neighbor * neighbor + 1 - start
    else n
  }

  lemma ReadRangeTakesMetadata(neighbor: nat, start: nat, n: nat)
    requires 0 < neighbor && 0 < n
    ensures var m := ReadRange(neighbor, start, n);
            && n <= m && (n < m ==> m <= neighbor)
            && (exists i :: start <= i < start + m && i % neighbor == 0)
            && (n < m ==> forall i :: start <= i < start + m - 1 ==> i % neighbor != 0)
  {
    var end, q := start + n, start / neighbor;
    assert start == q * neighbor + start % neighbor;
    if start % neighbor == 0 {
      assert start <= start < start + ReadRange(neighbor, start, n);
    } else {
      var x := (q + 1) * neighbor;
      assert x == q * neighbor + neighbor;
      DivModIs(x, neighbor, q + 1, 0);
      assert x % neighbor == 0 && start < x;
      if start / neighbor == (end - 1) / neighbor {
        assert end - 1 == q * neighbor + (end - 1) % neighbor;
        forall i | start <= i < x ensures i % neighbor != 0 {
          DivModIs(i, neighbor, q, i - q * neighbor);
        }
        if n < neighbor {
          DivModIs(end - 1 + neighbor, neighbor, q + 1, (end - 1) % neighbor);
        }
      } else {
        DivBelow(end - 1, neighbor, q + 1);
        DivMono(start, end - 1, neighbor);
      }
    }
  }

  lemma OnlyTheHoleIsEmpty(g: Geometry, r: Leaf, b: nat, e: nat, s: nat)
    requires Hole(g, r, b, e) && s < g.span && r[s].key == NULL_KEY && g.Off(b, s) <= e - b
    ensures s == g.Slot(e)
  {
    assert s == g.Slot(b + g.Off(b, s));
  }

  /** A bucket that is still clear after an insertion kept the empty slot it had. */
  lemma VacancyAfterInsert(g: Geometry, bits: nat, r: Leaf, r1: Leaf, full: set<nat>, b: nat, e: nat, hopped: seq<nat>)
    requires VacancySound(g.span, bits, r, full) && Hole(g, r, b, e) && Footprint(g, r, r1, b, e, hopped)
    ensures VacancySound(g.span, bits, r1, Updated(g.span, bits, full, b, g.Slot(e), []))
  {
    hide Bucket;
    var full1 := Updated(g.span, bits, full, b, g.Slot(e), []);
    forall bucket | 0 <= bucket < bits && bucket !in full1 ensures exists s: nat :: EmptySlotIn(g.span, bits, r1, bucket, s) {
      assert bucket !in full;
      var s: nat :| EmptySlotIn(g.span, bits, r, bucket, s);
      if g.Off(b, s) <= e - b {
        OnlyTheHoleIsEmpty(g, r, b, e, s);
      }
      assert Bucket(g.span, bits, g.Slot(e)) in full1;
      assert EmptySlotIn(g.span, bits, r1, bucket, s);
    }
  }

  /** Recomputed over the whole leaf, the bitmap is exact. */
  lemma VacancyAfterSplit(span: nat, bits: nat, r: Leaf, full: set<nat>, empties: seq<nat>, bucket: nat)
    requires 0 < bits <= span == |r| && bucket < bits
    requires forall s: nat :: s in empties <==> s < span && r[s].key == NULL_KEY
    ensures bucket !in Updated(span, bits, full, 0, span - 1, empties) <==>
            exists s: nat :: EmptySlotIn(span, bits, r, bucket, s)
  {
    hide Bucket;
    EndBuckets(span, bits);
    assert Circle(bits, Bucket(span, bits, 0), Bucket(span, bits, span - 1)) == Interval(0, bits);
    if exists s: nat :: EmptySlotIn(span, bits, r, bucket, s) {
      var s: nat :| EmptySlotIn(span, bits, r, bucket, s);
      assert s in empties;
      var x :| 0 <= x < |empties| && empties[x] == s;
      assert bucket in BucketsOf(span, bits, empties);
    }
    if bucket in BucketsOf(span, bits, empties) {
      var x :| 0 <= x < |empties| && Bucket(span, bits, empties[x]) == bucket;
      assert empties[x] in empties;
      assert EmptySlotIn(span, bits, r, bucket, empties[x]);
    }
  }

  /** The slots from `l` round to `r`. */
  predicate InSegment(l: nat, r: nat, s: nat) {
    if l <= r then l <= s <= r else s <= r || l <= s
  }

  ghost predicate Touched(span: nat, bits: nat, l: nat, r: nat, bucket: nat)
    requires 0 < bits <= span
  {
    exists s :: 0 <= s < span && InSegment(l, r, s) && Bucket(span, bits, s) == bucket
  }

  /** A segment that goes round the end and comes back into the bucket where it began. */
  predicate ComesBack(span: nat, bits: nat, l: nat, r: nat)
    requires 0 < bits <= span
  {
    r < l && Bucket(span, bits, l) == Bucket(span, bits, r)
  }

  /** Exactly what the update does to the bit of each bucket: cleared if an empty slot was reported in it;
      else kept if the segment has no slot in it; else set, except that of a segment that comes back
      into its first bucket only that bucket is set. */
  lemma UpdatedExact(span: nat, bits: nat, full: set<nat>, l: nat, r: nat, empties: seq<nat>, bucket: nat)
    requires 0 < bits <= span && l < span && r < span && bucket < bits
    ensures var full1 := Updated(span, bits, full, l, r, empties);
            if bucket in BucketsOf(span, bits, empties) then bucket !in full1
            else if Touched(span, bits, l, r, bucket) && (ComesBack(span, bits, l, r) ==> bucket == Bucket(span, bits, l)) then bucket in full1
            else bucket in full1 <==> bucket in full
  {
    hide Bucket, First;
    BucketInRange(span, bits, l);
    BucketInRange(span, bits, r);
    if bucket in Circle(bits, Bucket(span, bits, l), Bucket(span, bits, r)) {
      var s := CircleSlot(span, bits, l, r, bucket);
    }
    if Touched(span, bits, l, r, bucket) {
      var s :| 0 <= s < span && InSegment(l, r, s) && Bucket(span, bits, s) == bucket;
      BucketMono(span, bits, l, s);
      BucketMono(span, bits, s, r);
      BucketMono(span, bits, s, l);
      BucketMono(span, bits, r, s);
      BucketMono(span, bits, r, l);
    }
  }

  lemma BucketMono(span: nat, bits: nat, s: nat, t: nat)
    requires 0 < bits <= span && s < span && t < span
    ensures s <= t ==> Bucket(span, bits, s) <= Bucket(span, bits, t) < bits
  {
    BucketInRange(span, bits, s);
    BucketInRange(span, bits, t);
    if s <= t {
      MulMono(s, t, bits);
      DivMono(s * bits, t * bits, span);
    }
  }

  /** A slot of the segment in a bucket between those of its ends. */
  lemma CircleSlot(span: nat, bits: nat, l: nat, r: nat, bucket: nat) returns (s: nat)
    requires 0 < bits <= span && l < span && r < span && bucket < bits
    requires Bucket(span, bits, l) < bits && Bucket(span, bits, r) < bits
    requires bucket in Circle(bits, Bucket(span, bits, l), Bucket(span, bits, r))
    ensures s < span && InSegment(l, r, s) && Bucket(span, bits, s) == bucket
  {
    hide Bucket, First;
    if bucket == Bucket(span, bits, l) {
      s := l;
    } else if bucket == Bucket(span, bits, r) {
      s := r;
    } else {
      s := First(span, bits, bucket);
      BucketNotEmpty(span, bits, bucket);
      FirstMono(span, bits, bucket + 1, bits);
      LastBucketEndsAtSpan(span, bits);
      BucketOfSlot(span, bits, bucket, s);
      BucketMono(span, bits, s, l);
      BucketMono(span, bits, r, s);
      BucketMono(span, bits, l, r);
      BucketMono(span, bits, r, l);
    }
  }

  lemma EndBuckets(span: nat, bits: nat)
    requires 0 < bits <= span
    ensures Bucket(span, bits, 0) == 0 && Bucket(span, bits, span - 1) == bits - 1
  {
    BucketInRange(span, bits, 0);
    BucketInRange(span, bits, span - 1);
    DivBelow((span - 1) * bits, span, bits - 1);
    assert (span - 1) * bits == span * bits - bits;
    assert (bits - 1) * span == bits * span - span;
  }

  lemma {:induction false} MaxAmongIsMax(r: Leaf, start: nat, slots: seq<nat>)
    requires forall x :: 0 <= x < |slots| ==> slots[x] < |r|
    ensures var (m, idx) := MaxAmong(r, start, slots);
            && (forall x :: 0 <= x < |slots| ==> r[slots[x]].key <= m)
            && (m != NULL_KEY ==> idx in slots && r[idx].key == m)
  {
    if slots != [] {
      MaxAmongIsMax(r, start, slots[..|slots| - 1]);
    }
  }

  /** The keys of a leaf after `k` went in are `k` and the keys that were there. */
  lemma KeysAfterInsert(r: Leaf, r1: Leaf, k: Key, v: Value, idx: nat)
    requires DistinctKeys(r) && DistinctKeys(r1) && Contents(r1) == Contents(r)[k := v] && k != NULL_KEY
    requires PointsAtMax(r, idx)
    ensures forall s :: 0 <= s < |r1| ==> r1[s].key <= r[idx].key || r1[s].key == k
    ensures exists t :: 0 <= t < |r1| && r1[t].key == k
    ensures r[idx].key != NULL_KEY ==> exists t :: 0 <= t < |r1| && r1[t].key == r[idx].key
  {
    forall s | 0 <= s < |r1| ensures r1[s].key <= r[idx].key || r1[s].key == k {
      if r1[s].key != NULL_KEY && r1[s].key != k {
        assert r1[s].key in Contents(r1) && r1[s].key in Contents(r);
      }
    }
    assert k in Contents(r1);
    if r[idx].key != NULL_KEY {
      assert r[idx].key in Contents(r) && r[idx].key in Contents(r1);
    }
  }

  /** A key that is new, or that was moved, sits in a slot that the insertion wrote. */
  lemma WrittenSlot(g: Geometry, r: Leaf, r1: Leaf, b: nat, e: nat, hopped: seq<nat>, x: Key, t: nat, idx: nat)
    requires Footprint(g, r, r1, b, e, hopped) && DistinctKeys(r) && x != NULL_KEY
    requires t < g.span && r1[t].key == x && idx < g.span
    requires (forall s :: 0 <= s < g.span ==> r[s].key != x) || (r[idx].key == x && idx in hopped)
    ensures t in hopped
  {
  }

  lemma MovedMaxIsFound(g: Geometry, r: Leaf, r1: Leaf, k: Key, v: Value, b: nat, e: nat, hopped: seq<nat>, idx: nat)
    requires DistinctKeys(r) && DistinctKeys(r1) && k != NULL_KEY && k !in Contents(r) && Contents(r1) == Contents(r)[k := v]
    requires Footprint(g, r, r1, b, e, hopped) && PointsAtMax(r, idx)
    ensures k <= MaxAmong(r1, idx, hopped).0
    ensures idx in hopped ==> r[idx].key <= MaxAmong(r1, idx, hopped).0
  {
    KeysAfterInsert(r, r1, k, v, idx);
    MaxAmongIsMax(r1, idx, hopped);
    var t :| 0 <= t < |r1| && r1[t].key == k;
    WrittenSlot(g, r, r1, b, e, hopped, k, t, idx);
    if idx in hopped && r[idx].key != NULL_KEY {
      var u :| 0 <= u < |r1| && r1[u].key == r[idx].key;
      WrittenSlot(g, r, r1, b, e, hopped, r[idx].key, u, idx);
    }
  }

  /** After an insertion of `k` the index still points at the largest key exactly when `k` is not
      the new largest key or the insertion wrote over the old position. */
  lemma MaxIdxAfterInsert(g: Geometry, r: Leaf, r1: Leaf, k: Key, v: Value, b: nat, e: nat, hopped: seq<nat>, idx: nat)
    requires DistinctKeys(r) && DistinctKeys(r1) && k != NULL_KEY && k !in Contents(r) && Contents(r1) == Contents(r)[k := v]
    requires Footprint(g, r, r1, b, e, hopped) && PointsAtMax(r, idx)
    ensures PointsAtMax(r1, NewMaxIdx(r1, idx, hopped)) <==> (k < r[idx].key || idx in hopped)
  {
    hide DistinctKeys, MaxAmong, Contents;
    KeysAfterInsert(r, r1, k, v, idx);
    MaxAmongIsMax(r1, idx, hopped);
    MovedMaxIsFound(g, r, r1, k, v, b, e, hopped, idx);
    if idx !in hopped {
      assert r1[idx].key == r[idx].key;
      if r[idx].key != NULL_KEY {
        assert r[idx].key in Contents(r);
      }
    }
  }
}
