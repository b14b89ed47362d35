/** Reading and writing a segment of a leaf. */
module LeafSegment {
  import opened Wire
  import opened TornRead
  import opened LeafLayout
  import opened Arith

  /** The raw bytes of the entries `es` that stand from index `start` on. */
  function Segment(l: Layout, meta: seq<Byte>, es: seq<Entry>, start: nat): (r: seq<Byte>)
    requires Sized(l, meta, es)
  {
    ScatterShape(l, meta, es, start);
    Enc(Position(l, start), ShapeOf(l, start, |es|), Scatter(l, meta, es, start))
  }

  /** The encoded length is the computed raw length, and the segment lies at the computed raw offset:
      everything before it is exactly that long. */
  lemma SegmentPlace(l: Layout, meta: seq<Byte>, es: seq<Entry>, start: nat)
    requires Sized(l, meta, es)
    ensures var (offset, length, _) := OffsetInfo(l, start, |es|);
            offset == Raw(Position(l, start)) && length == |Segment(l, meta, es, start)| == Raw(Position(l, start + |es|)) - offset
  {
    hide Position, OffsetInfo, Raw;
    OffsetInfoIs(l, start, |es|);
    ScatterLength(l, start, |es|);
    ScatterShape(l, meta, es, start);
  }

  lemma SegmentConcat(l: Layout, meta: seq<Byte>, x: seq<Entry>, y: seq<Entry>, start: nat)
    requires Sized(l, meta, x) && Sized(l, meta, y)
    ensures Sized(l, meta, x + y)
    ensures Segment(l, meta, x + y, start) == Segment(l, meta, x, start) + Segment(l, meta, y, start + |x|)
  {
    hide Enc, Scatter, ShapeOf, Position;
    ScatterShape(l, meta, x, start);
    ScatterShape(l, meta, y, start + |x|);
    ScatterConcat(l, meta, x, y, start);
    ShapeConcat(l, start, |x|, |y|);
    ScatterLength(l, start, |x|);
    EncConcat(Position(l, start), ShapeOf(l, start, |x|), ShapeOf(l, start + |x|, |y|),
              Scatter(l, meta, x, start), Scatter(l, meta, y, start + |x|));
  }

  // ----- writing -----

  /** The leaf in memory after raw bytes `seg` are written at `offset`. */
  function Overwrite(raw: seq<Byte>, offset: nat, seg: seq<Byte>): seq<Byte>
    requires offset + |seg| <= |raw|
  {
    raw[..offset] + seg + raw[offset + |seg|..]
  }

  lemma PositionZero(l: Layout)
    requires l.Valid()
    ensures Position(l, 0) == 0 && Raw(Position(l, 0)) == 0
  {
    DivModIs(0, l.n, 0, 0);
  }

  /** Writing the encoded segment at its raw offset over the encoded leaf gives, byte for byte, the
      encoding of the leaf with those entries replaced. */
  lemma OverlayExact(l: Layout, meta: seq<Byte>, x: seq<Entry>, was: seq<Entry>, y: seq<Entry>, w: seq<Entry>)
    requires Sized(l, meta, x) && Sized(l, meta, was) && Sized(l, meta, y) && Sized(l, meta, w) && |w| == |was|
    ensures Sized(l, meta, x + was + y) && Sized(l, meta, x + w + y)
    ensures var raw, seg := Segment(l, meta, x + was + y, 0), Segment(l, meta, w, |x|);
            var offset := Raw(Position(l, |x|));
            && offset + |seg| <= |raw|
            && Overwrite(raw, offset, seg) == Segment(l, meta, x + w + y, 0)
  {
    hide Segment, OffsetInfo, Raw, Position;
    PositionZero(l);
    SegmentPlace(l, meta, x, 0);
    SegmentPlace(l, meta, was, |x|);
    SegmentPlace(l, meta, w, |x|);
    SegmentConcat(l, meta, x, was, 0);
    SegmentConcat(l, meta, x + was, y, 0);
    SegmentConcat(l, meta, x, w, 0);
    SegmentConcat(l, meta, x + w, y, 0);
  }

  // ----- reading back -----

  /** Decoding the versions and then the metadata undoes encoding the metadata and then the versions,
      for every start and count. */
  lemma TwoLayerRoundTrip(l: Layout, meta: seq<Byte>, es: seq<Entry>, start: nat)
    requires Sized(l, meta, es)
    ensures var a, shape, r := Position(l, start), ShapeOf(l, start, |es|), Segment(l, meta, es, start);
            && |r| == Raw(a + Total(shape)) - Raw(a)
            && Consistent(a, shape, r)
            && Gather(l, Data(a, Total(shape), r), start, |es|) == es
  {
    hide Enc, Scatter, ShapeOf, Position, Raw, Data, Consistent;
    ScatterShape(l, meta, es, start);
    EncRoundTrip(Position(l, start), ShapeOf(l, start, |es|), Scatter(l, meta, es, start));
    GatherScatter(l, meta, es, start);
  }

  // ----- what a reader sees of a write -----

  /** Where entry `x` of a segment lies in its image. */
  function EntryAt(l: Layout, start: nat, x: nat): nat
    requires l.n > 0
  {
    Total(ShapeOf(l, start, x)) + if (start + x) % l.n == 0 then l.meta else 0
  }

  lemma EntryIsObject(l: Layout, start: nat, cnt: nat, x: nat)
    requires l.Valid() && x < cnt
    ensures var s := EntryAt(l, start, x); IsObject(ShapeOf(l, start, cnt), s, s + l.entry)
  {
    var s := EntryAt(l, start, x);
    var left, right := ShapeOf(l, start, x), ShapeOf(l, start + x, cnt - x);
    var rest := ShapeOf(l, start + x + 1, cnt - x - 1);
    ShapeConcat(l, start, x, cnt - x);
    FrontTotal(l, start + x, cnt - x);
    TotalConcat(left, right);
    hide Total, StartIn;
    forall j | s <= j < s + l.entry ensures StartIn(left + right, j) == s {
      StartInConcat(left, right, j);
      if (start + x) % l.n == 0 {
        FrontStart(l, rest, j - Total(left));
      } else {
        SingleStart(l, rest, j - Total(left));
      }
    }
  }

  lemma {:induction false} GatherAt(l: Layout, d: seq<Byte>, start: nat, cnt: nat, x: nat)
    requires l.Valid() && |d| == Total(ShapeOf(l, start, cnt)) && x < cnt
    ensures |Gather(l, d, start, cnt)| == cnt && EntryAt(l, start, x) + l.entry <= |d|
    ensures Gather(l, d, start, cnt)[x] == d[EntryAt(l, start, x)..EntryAt(l, start, x) + l.entry]
    decreases cnt
  {
    hide EntryAt, ShapeOf, Total, Gather;
    GatherLength(l, d, start, cnt);
    EntryAtStep(l, start, x);
    var skip, e := GatherStep(l, d, start, cnt);
    if x > 0 {
      GatherAt(l, e, start + 1, cnt - 1, x - 1);
      var at := EntryAt(l, start + 1, x - 1);
      assert e[at..at + l.entry] == d[skip + l.entry + at..skip + l.entry + at + l.entry];
    }
  }

  lemma EntryAtStep(l: Layout, start: nat, x: nat)
    requires l.n > 0
    ensures var skip := if start % l.n == 0 then l.meta else 0;
            EntryAt(l, start, x) == if x == 0 then skip else skip + l.entry + EntryAt(l, start + 1, x - 1)
  {
    if x > 0 {
      FrontTotal(l, start, x);
    }
  }

  lemma {:induction false} GatherLength(l: Layout, d: seq<Byte>, start: nat, cnt: nat)
    requires l.Valid() && |d| == Total(ShapeOf(l, start, cnt))
    ensures |Gather(l, d, start, cnt)| == cnt
    decreases cnt
  {
    if cnt > 0 {
      var skip := if start % l.n == 0 then l.meta else 0;
      FrontTotal(l, start, cnt);
      GatherLength(l, d[skip + l.entry..], start + 1, cnt - 1);
    }
  }

  /** One entry on its own line pair or not: an accepted read of a segment, whose cache lines come
      from before or after a write, shows each entry wholly as it was or as it is, as long as every
      entry is at most 64 bytes and the write made it distinguishable. */
  lemma SegmentIsNotTorn(l: Layout, meta: seq<Byte>, before: seq<Entry>, after: seq<Entry>, start: nat, r: seq<Byte>, pick: nat -> bool, x: nat)
    requires Sized(l, meta, before) && Sized(l, meta, after) && |before| == |after| && l.entry <= LINE && x < |before|
    requires Mix(Position(l, start), Segment(l, meta, before, start), Segment(l, meta, after, start), r, pick)
    requires |r| == Raw(Position(l, start) + Total(ShapeOf(l, start, |before|))) - Raw(Position(l, start))
    requires Consistent(Position(l, start), ShapeOf(l, start, |before|), r)
    requires Distinguishable(before[x], after[x], 0, l.entry)
    ensures var shape := ShapeOf(l, start, |before|);
            var got := Gather(l, Data(Position(l, start), Total(shape), r), start, |before|);
            |got| == |before| && (got[x] == before[x] || got[x] == after[x])
  {
    hide Enc, Scatter, ShapeOf, Position, Raw, Data, Consistent, Mix, IsObject, EntryAt, Gather;
    var a, shape := Position(l, start), ShapeOf(l, start, |before|);
    var d, e := Scatter(l, meta, before, start), Scatter(l, meta, after, start);
    ScatterShape(l, meta, before, start);
    ScatterShape(l, meta, after, start);
    EntryIsObject(l, start, |before|, x);
    var s := EntryAt(l, start, x);
    EntryBytes(l, meta, before, start, x);
    EntryBytes(l, meta, after, start, x);
    ShiftDistinguishable(d, e, s, before[x], after[x]);
    EntryIsNotTorn(a, shape, d, e, r, pick, s, s + l.entry);
    GatherAt(l, Data(a, Total(shape), r), start, |before|, x);
  }

  /** Entry `x` of the scattered image. */
  lemma EntryBytes(l: Layout, meta: seq<Byte>, es: seq<Entry>, start: nat, x: nat)
    requires Sized(l, meta, es) && x < |es|
    ensures var s := EntryAt(l, start, x);
            s + l.entry <= |Scatter(l, meta, es, start)| && Scatter(l, meta, es, start)[s..s + l.entry] == es[x]
  {
    hide Scatter, ShapeOf, EntryAt, Gather;
    GatherScatter(l, meta, es, start);
    GatherAt(l, Scatter(l, meta, es, start), start, |es|, x);
  }

  lemma ShiftDistinguishable(d: seq<Byte>, e: seq<Byte>, s: nat, x: Entry, y: Entry)
    requires |d| == |e| && 0 < |x| == |y| && s + |x| <= |d| && d[s..s + |x|] == x && e[s..s + |x|] == y
    requires Distinguishable(x, y, 0, |x|)
    ensures Distinguishable(d, e, s, s + |x|)
  {
    assert x[0] == d[s] && y[0] == e[s];
    if x[0] == y[0] {
      var k: nat :| 0 <= k < |x| && DifferOnlyAt(x, y, 0, |x|, k);
      forall j | s <= j < s + |x| && j != s + k ensures d[j] == e[j] {
        assert x[j - s] == d[j] && y[j - s] == e[j];
      }
      assert DifferOnlyAt(d, e, s, s + |x|, s + k);
    }
  }

  /** What each of several states of a segment holds in bytes. */
  function Scatters(l: Layout, meta: seq<Byte>, states: seq<seq<Entry>>, start: nat): (ds: seq<seq<Byte>>)
    requires l.n > 0
    ensures |ds| == |states|
  {
    seq<seq<Byte>>(|states|, i requires 0 <= i < |states| => Scatter(l, meta, states[i], start))
  }

  function Segments(l: Layout, meta: seq<Byte>, states: seq<seq<Entry>>, start: nat): (rs: seq<seq<Byte>>)
    requires forall i :: 0 <= i < |states| ==> Sized(l, meta, states[i])
    ensures |rs| == |states|
  {
    seq<seq<Byte>>(|states|, i requires 0 <= i < |states| => Segment(l, meta, states[i], start))
  }

  /** Entry `x` is in every state as it was or as it is. */
  ghost predicate EntryOldOrNew(states: seq<seq<Entry>>, before: Entry, after: Entry, cnt: nat, x: nat) {
    x < cnt && forall i :: 0 <= i < |states| ==> |states[i]| == cnt && (states[i][x] == before || states[i][x] == after)
  }

  /** An accepted read of a segment, each of whose cache lines is from one of several states of it,
      shows entry `x` wholly as it was or as it is. */
  lemma SegmentIsNotTornAmong(l: Layout, meta: seq<Byte>, states: seq<seq<Entry>>, before: seq<Entry>, after: seq<Entry>, start: nat, r: seq<Byte>, pick: nat -> nat, x: nat)
    requires Sized(l, meta, before) && Sized(l, meta, after) && |before| == |after| && l.entry <= LINE
    requires forall i :: 0 <= i < |states| ==> Sized(l, meta, states[i])
    requires x < |before| && EntryOldOrNew(states, before[x], after[x], |before|, x)
    requires MixAmong(Position(l, start), Segments(l, meta, states, start), r, pick)
    requires |r| == Raw(Position(l, start) + Total(ShapeOf(l, start, |before|))) - Raw(Position(l, start))
    requires Consistent(Position(l, start), ShapeOf(l, start, |before|), r)
    requires Distinguishable(before[x], after[x], 0, l.entry)
    ensures var shape := ShapeOf(l, start, |before|);
            var got := Gather(l, Data(Position(l, start), Total(shape), r), start, |before|);
            |got| == |before| && (got[x] == before[x] || got[x] == after[x])
  {
    hide Enc, Scatter, ShapeOf, Position, Raw, Data, Consistent, MixAmong, IsObject, EntryAt, Gather, Distinguishable, Total;
    var a, shape := Position(l, start), ShapeOf(l, start, |before|);
    var d, e, images := Scatter(l, meta, before, start), Scatter(l, meta, after, start), Scatters(l, meta, states, start);
    var s := EntryAt(l, start, x);
    ScatterShape(l, meta, before, start);
    ScatterShape(l, meta, after, start);
    EntryBytes(l, meta, before, start, x);
    EntryBytes(l, meta, after, start, x);
    forall i | 0 <= i < |states|
      ensures |images[i]| == Total(shape) && Segments(l, meta, states, start)[i] == Enc(a, shape, images[i])
      ensures |images[i]| == |d| && (images[i][s..s + l.entry] == d[s..s + l.entry] || images[i][s..s + l.entry] == e[s..s + l.entry])
    {
      ScatterShape(l, meta, states[i], start);
      EntryBytes(l, meta, states[i], start, x);
    }
    MixReads(a, shape, images, Segments(l, meta, states, start), r, pick);
    EntryIsObject(l, start, |before|, x);
    ShiftDistinguishable(d, e, s, before[x], after[x]);
    EntryIsNotTornAmong(a, shape, images, d, e, r, pick, s, s + l.entry);
    GatherAt(l, Data(a, Total(shape), r), start, |before|, x);
  }
}
