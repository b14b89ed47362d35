/** One hop insertion written back to the leaf as raw bytes, and a lock-free reader beside it. This
    ties the hopscotch leaf to its wire form: what the reader decodes from any mixture of old and
    new cache lines, if it is accepted, is a slot-wise mixture of the leaf before and after. */
module LeafWrite {
  import opened HopscotchLeaf
  import opened HopscotchInsert
  import HopscotchSearch
  import opened Wire
  import opened TornRead
  import LeafLayout
  import opened LeafSegment

  type Layout = LeafLayout.Layout

  // ----- entries as bytes -----

  function Pow2(n: nat): nat {
    if n == 0 then 1 else 2 * Pow2(n - 1)
  }

  /** The hop bitmap of `n` bits: offset `o` is bit `n - o - 1`. */
  function Bitmap(hop: set<nat>, n: nat): (b: nat)
    ensures b < Pow2(n)
  {
    if n == 0 then 0 else 2 * Bitmap(hop, n - 1) + if n - 1 in hop then 1 else 0
  }

  /** With at most eight slots to a neighbourhood the bitmap is one byte; its second byte stays 0. */
  function BitmapByte(hop: set<nat>, n: nat): Byte
    requires n <= 8
  {
    assert Pow2(8) == 256;
    Pow2Mono(n, 8);
    Bitmap(hop, n)
  }

  lemma {:induction false} Pow2Mono(a: nat, b: nat)
    requires a <= b
    ensures 1 <= Pow2(a) <= Pow2(b)
  {
    if a < b {
      Pow2Mono(a, b - 1);
    } else if 0 < a {
      Pow2Mono(a - 1, a - 1);
    }
  }

  /** The offsets whose bits are on in a word of `n` bits. */
  function HopOf(word: nat, n: nat): set<nat> {
    if n == 0 then {} else HopOf(word / 2, n - 1) + if word % 2 == 1 then {n - 1} else {}
  }

  /** The word tells every offset. */
  lemma {:induction false} BitmapExact(hop: set<nat>, n: nat)
    ensures HopOf(Bitmap(hop, n), n) == set o | o in hop && o < n
  {
    if n > 0 {
      BitmapExact(hop, n - 1);
    }
  }

  /** Version, bitmap and pair. `pair` lays a key and a value out in bytes. */
  function Bytes(n: nat, version: Byte, e: Entry, pair: (Key, Value) -> seq<Byte>): seq<Byte>
    requires n <= 8
  {
    [version, BitmapByte(e.hop, n), 0] + pair(e.key, e.value)
  }

  /** A bump of the four bits of the entry version. */
  function Bump(v: Byte): (w: Byte)
    ensures w != v && NodeVersion(w) == NodeVersion(v) && EntryVersion(w) == (EntryVersion(v) + 1) % 16
  {
    if v + 16 < 256 then v + 16 else v + 16 - 256
  }

  /** Bumps the versions of the hopped slots that lie in the segment from `from` on. */
  method BumpHopped(versions: array<Byte>, from: nat, hopped: seq<nat>)
    requires forall x, y :: 0 <= x < y < |hopped| ==> hopped[x] != hopped[y]
    modifies versions
    ensures forall i :: 0 <= i < versions.Length ==> versions[i] == if from + i in hopped then Bump(old(versions[i])) else old(versions[i])
  {
    for x := 0 to |hopped|
      invariant forall i :: 0 <= i < versions.Length ==>
        versions[i] == if from + i in hopped[..x] then Bump(old(versions[i])) else old(versions[i])
    {
      assert hopped[..x + 1] == hopped[..x] + [hopped[x]];
      assert hopped[x] !in hopped[..x];
      if from <= hopped[x] < from + versions.Length {
        versions[hopped[x] - from] := Bump(versions[hopped[x] - from]);
      }
    }
    assert hopped[..|hopped|] == hopped;
  }

  // ----- a leaf as bytes -----

  ghost predicate Fits(l: Layout, g: Geometry, pair: (Key, Value) -> seq<Byte>) {
    && l.Valid() && g.Valid()
    && l.n == g.neighbor <= 8
    && 3 <= l.entry <= LINE
    && forall k, v :: |pair(k, v)| == l.entry - 3
  }

  function Images(n: nat, versions: seq<Byte>, r: Leaf, pair: (Key, Value) -> seq<Byte>): (es: seq<seq<Byte>>)
    requires n <= 8 && |versions| == |r|
    ensures |es| == |r|
  {
    seq<seq<Byte>>(|r|, i requires 0 <= i < |r| => Bytes(n, versions[i], r[i], pair))
  }

  function Bumped(versions: seq<Byte>, hopped: seq<nat>): (w: seq<Byte>)
    ensures |w| == |versions|
  {
    seq<Byte>(|versions|, i requires 0 <= i < |versions| => if i in hopped then Bump(versions[i]) else versions[i])
  }

  /** Of an entry that was not hopped only the bitmap byte can change. */
  lemma EntryDistinguishable(n: nat, v: Byte, w: Byte, e: Entry, f: Entry, pair: (Key, Value) -> seq<Byte>)
    requires n <= 8 && |pair(e.key, e.value)| == |pair(f.key, f.value)|
    requires w == Bump(v) || (w == v && e.key == f.key && e.value == f.value)
    ensures var x, y := Bytes(n, v, e, pair), Bytes(n, w, f, pair); Distinguishable(x, y, 0, |x|)
  {
    var x, y := Bytes(n, v, e, pair), Bytes(n, w, f, pair);
    if w == v {
      assert DifferOnlyAt(x, y, 0, |x|, 1);
    }
  }

  /** The write of one insertion makes every entry distinguishable. */
  lemma InsertionDistinguishable(l: Layout, g: Geometry, pair: (Key, Value) -> seq<Byte>, r: Leaf, k: Key, v: Value, entryNum: nat, versions: seq<Byte>, s: nat)
    requires Fits(l, g, pair) && Inv(g, r) && k != NULL_KEY && entryNum <= g.span && |versions| == g.span && s < g.span
    requires HopInsert(g, r, k, v, entryNum).Placed?
    ensures var res := HopInsert(g, r, k, v, entryNum);
            Distinguishable(Images(l.n, versions, r, pair)[s], Images(l.n, Bumped(versions, res.hopped), res.records, pair)[s], 0, l.entry)
  {
    hide InNeighborhood, BitmapsExact, DistinctKeys, Distinguishable, Bytes, HopInsert;
    var res := HopInsert(g, r, k, v, entryNum);
    HopInsertFootprint(g, r, k, v, entryNum);
    EntryDistinguishable(l.n, versions[s], Bumped(versions, res.hopped)[s], r[s], res.records[s], pair);
    BytesSize(l, g, pair, versions[s], r[s]);
  }

  lemma BytesSize(l: Layout, g: Geometry, pair: (Key, Value) -> seq<Byte>, v: Byte, e: Entry)
    requires Fits(l, g, pair)
    ensures |Bytes(l.n, v, e, pair)| == l.entry
  {
  }

  // ----- writing back -----

  /** The raw leaf after the entries `w` are written at their place, from index `start` on. */
  function Patch(l: Layout, meta: seq<Byte>, raw: seq<Byte>, w: seq<seq<Byte>>, start: nat): seq<Byte>
    requires LeafLayout.Sized(l, meta, w)
  {
    var offset, seg := Raw(LeafLayout.Position(l, start)), Segment(l, meta, w, start);
    if offset + |seg| <= |raw| then Overwrite(raw, offset, seg) else raw
  }

  lemma PatchExact(l: Layout, meta: seq<Byte>, es: seq<seq<Byte>>, w: seq<seq<Byte>>, start: nat)
    requires LeafLayout.Sized(l, meta, es) && LeafLayout.Sized(l, meta, w) && start + |w| <= |es|
    ensures var all := es[..start] + w + es[start + |w|..];
            LeafLayout.Sized(l, meta, all) && Patch(l, meta, Segment(l, meta, es, 0), w, start) == Segment(l, meta, all, 0)
  {
    hide Segment, LeafLayout.Position, Raw;
    var x, was, y := es[..start], es[start..start + |w|], es[start + |w|..];
    assert es == x + was + y;
    OverlayExact(l, meta, x, was, y, w);
  }

  /** The part that an insertion changes: the slots from `b` on, round to the logical index `e`. */
  ghost predicate AgreeOutside(span: nat, before: seq<seq<Byte>>, after: seq<seq<Byte>>, b: nat, e: nat) {
    && |before| == |after| == span && b <= e < b + span && b < span
    && forall s :: 0 <= s < span && !(b <= s <= e || s + span <= e) ==> before[s] == after[s]
  }

  /** The states of the memory of a leaf while an insertion is written back: one write, or two when
      the changed slots go round the end. */
  function Memory(l: Layout, meta: seq<Byte>, before: seq<seq<Byte>>, after: seq<seq<Byte>>, b: nat, e: nat): (mems: seq<seq<Byte>>)
    requires LeafLayout.Sized(l, meta, before) && LeafLayout.Sized(l, meta, after)
    requires b < |after| && b <= e < b + |after|
  {
    var span, raw := |after|, Segment(l, meta, before, 0);
    if e < span then [raw, Patch(l, meta, raw, after[b..e + 1], b)]
    else
      var mid := Patch(l, meta, raw, after[..e - span + 1], 0);
      [raw, mid, Patch(l, meta, mid, after[b..], b)]
  }

  /** What the entries are in those states. */
  function Stages(before: seq<seq<Byte>>, after: seq<seq<Byte>>, e: nat): (states: seq<seq<seq<Byte>>>)
    requires |before| == |after| && e < 2 * |after|
  {
    var span := |after|;
    if e < span then [before, after] else [before, after[..e - span + 1] + before[e - span + 1..], after]
  }

  /** Writing the changed segments back, one after the other, takes the raw leaf through the raw forms
      of these states, byte for byte; in the end it is the raw form of the new leaf. */
  lemma WriteBackExact(l: Layout, meta: seq<Byte>, before: seq<seq<Byte>>, after: seq<seq<Byte>>, b: nat, e: nat)
    requires LeafLayout.Sized(l, meta, before) && LeafLayout.Sized(l, meta, after) && AgreeOutside(|after|, before, after, b, e)
    ensures forall i :: 0 <= i < |Stages(before, after, e)| ==> LeafLayout.Sized(l, meta, Stages(before, after, e)[i])
    ensures Memory(l, meta, before, after, b, e) == Segments(l, meta, Stages(before, after, e), 0)
  {
    hide Segment, Patch;
    var span := |after|;
    if e < span {
      PatchExact(l, meta, before, after[b..e + 1], b);
      assert before[..b] + after[b..e + 1] + before[e + 1..] == after;
    } else {
      var cut := e - span + 1;
      PatchExact(l, meta, before, after[..cut], 0);
      var mid := after[..cut] + before[cut..];
      assert before[..0] + after[..cut] + before[cut..] == mid;
      PatchExact(l, meta, mid, after[b..], b);
      assert mid[..b] + after[b..] + mid[span..] == after;
    }
  }

  /** Every entry is, in every state, as it was or as it is. */
  lemma StagesOldOrNew(before: seq<seq<Byte>>, after: seq<seq<Byte>>, e: nat, i: nat, s: nat)
    requires |before| == |after| && e < 2 * |after| && i < |Stages(before, after, e)| && s < |after|
    ensures var st := Stages(before, after, e)[i]; |st| == |after| && (st[s] == before[s] || st[s] == after[s])
  {
  }

  /** The slots that an insertion does not write keep their bytes. */
  lemma InsertionAgreesOutside(l: Layout, g: Geometry, pair: (Key, Value) -> seq<Byte>, r: Leaf, k: Key, v: Value, entryNum: nat, versions: seq<Byte>)
    requires Fits(l, g, pair) && Inv(g, r) && k != NULL_KEY && entryNum <= g.span && |versions| == g.span
    requires HopInsert(g, r, k, v, entryNum).Placed?
    ensures var res := HopInsert(g, r, k, v, entryNum);
            var e := FirstEmpty(g, r, g.Home(k), g.Home(k) + entryNum);
            && g.Home(k) <= e < g.Home(k) + g.span
            && AgreeOutside(g.span, Images(l.n, versions, r, pair), Images(l.n, Bumped(versions, res.hopped), res.records, pair), g.Home(k), e)
  {
    hide InNeighborhood, BitmapsExact, DistinctKeys, HopInsert, Bytes, FirstEmpty, Geometry.Home;
    var res := HopInsert(g, r, k, v, entryNum);
    var b, e := g.Home(k), FirstEmpty(g, r, g.Home(k), g.Home(k) + entryNum);
    HopInsertFootprint(g, r, k, v, entryNum);
    forall s | 0 <= s < g.span && !(b <= s <= e || s + g.span <= e) ensures res.records[s] == r[s] && s !in res.hopped {
      assert e - b < g.Off(b, s);
    }
  }
}
