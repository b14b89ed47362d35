/** A reader that takes no lock may see some cache lines from before a write and some from after it.
    The version bytes are there to tell. */
module TornRead {
  import opened Wire

  function NodeVersion(v: Byte): nat { v % 16 }

  function EntryVersion(v: Byte): nat { v / 16 }

  /** The byte at raw position `p` of a part that begins at image position `a`. */
  function At(a: nat, r: seq<Byte>, p: nat): Byte
    requires Raw(a) <= p < Raw(a) + |r|
  {
    r[p - Raw(a)]
  }

  /** `r` is taken line by line from `before` or, where `pick` says so, from `after`. */
  ghost predicate Mix(a: nat, before: seq<Byte>, after: seq<Byte>, r: seq<Byte>, pick: nat -> bool) {
    && |r| == |before| == |after|
    && forall p :: Raw(a) <= p < Raw(a) + |r| ==> At(a, r, p) == if pick(p / LINE) then At(a, after, p) else At(a, before, p)
  }

  /** The bytes from `s` to `e` are one object. */
  ghost predicate IsObject(shape: Shape, s: nat, e: nat) {
    s < e <= Total(shape) && forall j :: s <= j < e ==> StartIn(shape, j) == s
  }

  /** The line that holds image byte `a + j`. */
  function LineOf(a: nat, j: nat): nat {
    RawOf(a + j) / LINE
  }

  ghost predicate Reads(a: nat, shape: Shape, before: seq<Byte>, after: seq<Byte>, r: seq<Byte>, pick: nat -> bool) {
    && Total(shape) == |before| == |after|
    && |r| == Raw(a + Total(shape)) - Raw(a)
    && Mix(a, Enc(a, shape, before), Enc(a, shape, after), r, pick)
  }

  lemma MixData(a: nat, shape: Shape, before: seq<Byte>, after: seq<Byte>, r: seq<Byte>, pick: nat -> bool, j: nat)
    requires Reads(a, shape, before, after, r, pick) && j < |before|
    ensures Data(a, |before|, r)[j] == if pick(LineOf(a, j)) then after[j] else before[j]
  {
    hide Raw, RawOf, IsVersion, DataAt, Data, Enc;
    var n, p := |before|, RawOf(a + j);
    DataIndex(a, n, r, j);
    RawOfInside(a, a + n, a + j);
    EncAt(a, shape, before, p);
    EncAt(a, shape, after, p);
    assert At(a, r, p) == r[p - Raw(a)];
  }

  lemma MixVersion(a: nat, shape: Shape, before: seq<Byte>, after: seq<Byte>, r: seq<Byte>, pick: nat -> bool, p: nat)
    requires Reads(a, shape, before, after, r, pick) && Raw(a) <= p < Raw(a + |before|) && IsVersion(p)
    ensures a <= BlockStart(p) < a + |before|
    ensures var s := StartIn(shape, BlockStart(p) - a); r[p - Raw(a)] == if pick(p / LINE) then after[s] else before[s]
  {
    hide Raw, IsVersion, BlockStart, Enc;
    RawInside(a, a + |before|, p);
    EncAt(a, shape, before, p);
    EncAt(a, shape, after, p);
    assert At(a, r, p) == r[p - Raw(a)];
  }

  // ----- entries -----

  /** What a segment write does to one object: its version changes, or at most one byte does. A
      hopped entry has its version bumped; of any other entry only the hop bitmap can change, which
      is one byte as long as a neighbourhood has at most eight slots. */
  ghost predicate Distinguishable(before: seq<Byte>, after: seq<Byte>, s: nat, e: nat)
    requires s < e <= |before| == |after|
  {
    before[s] != after[s] || exists x: nat :: s <= x < e && DifferOnlyAt(before, after, s, e, x)
  }

  ghost predicate DifferOnlyAt(before: seq<Byte>, after: seq<Byte>, s: nat, e: nat, x: nat)
    requires s < e <= |before| == |after|
  {
    forall y :: s <= y < e && y != x ==> before[y] == after[y]
  }

  /** An object of at most 64 bytes lies on one line or on two adjacent ones, and in the latter case
      the second line begins inside the object. */
  lemma TwoLines(a: nat, s: nat, j: nat)
    requires s <= j < s + LINE
    ensures LineOf(a, j) == LineOf(a, s) || LineOf(a, j) == LineOf(a, s) + 1
    ensures LineOf(a, j) == LineOf(a, s) + 1 ==>
      var p := LINE * LineOf(a, j); IsVersion(p) && a + s < BlockStart(p) <= a + j
  {
  }

  /** What a read shows of the object from `s` to `e`: each of its bytes, and the version byte of a
      line that begins inside it, is from `after` or from `before` as `choice` says of the line. */
  ghost predicate ShowsObject(a: nat, shape: Shape, before: seq<Byte>, after: seq<Byte>, r: seq<Byte>, choice: nat -> bool, s: nat, e: nat) {
    && Total(shape) == |before| == |after|
    && |r| == Raw(a + Total(shape)) - Raw(a)
    && IsObject(shape, s, e)
    && (forall j: nat :: s <= j < e ==> Data(a, |before|, r)[j] == if choice(LineOf(a, j)) then after[j] else before[j])
    && forall p :: Raw(a) <= p < Raw(a + |before|) && IsVersion(p) && a + s <= BlockStart(p) < a + e ==>
         At(a, r, p) == if choice(p / LINE) then after[s] else before[s]
  }

  /** If the two lines of an object come from different images, its version is the same in both. */
  lemma LinesAgree(a: nat, shape: Shape, before: seq<Byte>, after: seq<Byte>, r: seq<Byte>, choice: nat -> bool, s: nat, e: nat, j: nat)
    requires ShowsObject(a, shape, before, after, r, choice, s, e) && Consistent(a, shape, r)
    requires e - s <= LINE && s <= j < e
    ensures choice(LineOf(a, j)) != choice(LineOf(a, s)) ==> before[s] == after[s]
  {
    hide Raw, RawOf, IsVersion, BlockStart, Data, LineOf;
    TwoLines(a, s, j);
    if LineOf(a, j) != LineOf(a, s) {
      var p, n := LINE * LineOf(a, j), |before|;
      VersionInside(a, a + n, p);
      assert LineOk(a, shape, r, p);
      assert p / LINE == LineOf(a, j);
      assert At(a, r, p) == r[p - Raw(a)];
      assert StartIn(shape, BlockStart(p) - a) == s;
    }
  }

  /** The core of the argument: an object of at most 64 bytes that is shown line by line, and whose
      lines agree on its version, is shown whole. */
  lemma ObjectIsNotTorn(a: nat, shape: Shape, before: seq<Byte>, after: seq<Byte>, r: seq<Byte>, choice: nat -> bool, s: nat, e: nat)
    requires ShowsObject(a, shape, before, after, r, choice, s, e) && Consistent(a, shape, r)
    requires e - s <= LINE && Distinguishable(before, after, s, e)
    ensures var d := Data(a, |before|, r); d[s..e] == before[s..e] || d[s..e] == after[s..e]
  {
    hide Raw, RawOf, Data, LineOf, Consistent, DifferOnlyAt;
    var d := Data(a, |before|, r);
    forall j: nat | s <= j < e ensures choice(LineOf(a, j)) != choice(LineOf(a, s)) ==> before[s] == after[s] {
      LinesAgree(a, shape, before, after, r, choice, s, e, j);
    }
    var k: nat := s;
    if before[s] == after[s] {
      k :| s <= k < e && DifferOnlyAt(before, after, s, e, k);
    }
    WholeIs(before, after, d, s, e, k, choice(LineOf(a, k)), (j: nat) => choice(LineOf(a, j)));
  }

  /** An accepted read shows every entry wholly as it was or wholly as it is. */
  lemma EntryIsNotTorn(a: nat, shape: Shape, before: seq<Byte>, after: seq<Byte>, r: seq<Byte>, pick: nat -> bool, s: nat, e: nat)
    requires Reads(a, shape, before, after, r, pick) && Consistent(a, shape, r)
    requires IsObject(shape, s, e) && e - s <= LINE && Distinguishable(before, after, s, e)
    ensures var d := Data(a, |before|, r); d[s..e] == before[s..e] || d[s..e] == after[s..e]
  {
    hide Raw, RawOf, Data, LineOf, Enc, Consistent, Distinguishable, BlockStart, IsVersion;
    forall j: nat | s <= j < e ensures Data(a, |before|, r)[j] == if pick(LineOf(a, j)) then after[j] else before[j] {
      MixData(a, shape, before, after, r, pick, j);
    }
    forall p | Raw(a) <= p < Raw(a + |before|) && IsVersion(p) && a + s <= BlockStart(p) < a + e
      ensures At(a, r, p) == if pick(p / LINE) then after[s] else before[s]
    {
      MixVersion(a, shape, before, after, r, pick, p);
    }
    ObjectIsNotTorn(a, shape, before, after, r, pick, s, e);
  }

  // ----- more than two images -----

  /** `r` is taken line by line from the encodings of `images`, line `p / 64` from image
      `pick(p / 64)`. */
  ghost predicate ReadsAmong(a: nat, shape: Shape, images: seq<seq<Byte>>, r: seq<Byte>, pick: nat -> nat) {
    && (forall i :: 0 <= i < |images| ==> |images[i]| == Total(shape))
    && |r| == Raw(a + Total(shape)) - Raw(a)
    && forall p :: Raw(a) <= p < Raw(a + Total(shape)) ==>
         pick(p / LINE) < |images| && At(a, r, p) == RawByte(a, shape, images[pick(p / LINE)], p)
  }

  /** The same, given the raw bytes of the images. */
  ghost predicate MixAmong(a: nat, raws: seq<seq<Byte>>, r: seq<Byte>, pick: nat -> nat) {
    && (forall i :: 0 <= i < |raws| ==> |raws[i]| == |r|)
    && forall p :: Raw(a) <= p < Raw(a) + |r| ==>
         pick(p / LINE) < |raws| && At(a, r, p) == At(a, raws[pick(p / LINE)], p)
  }

  lemma MixReads(a: nat, shape: Shape, images: seq<seq<Byte>>, raws: seq<seq<Byte>>, r: seq<Byte>, pick: nat -> nat)
    requires MixAmong(a, raws, r, pick) && |raws| == |images| && |r| == Raw(a + Total(shape)) - Raw(a)
    requires forall i :: 0 <= i < |images| ==> |images[i]| == Total(shape) && raws[i] == Enc(a, shape, images[i])
    ensures ReadsAmong(a, shape, images, r, pick)
  {
    hide Raw, Enc, RawByte;
    forall p | Raw(a) <= p < Raw(a + Total(shape))
      ensures pick(p / LINE) < |images| && At(a, r, p) == RawByte(a, shape, images[pick(p / LINE)], p)
    {
      assert At(a, r, p) == At(a, raws[pick(p / LINE)], p);
      EncAt(a, shape, images[pick(p / LINE)], p);
    }
  }

  lemma AmongData(a: nat, shape: Shape, images: seq<seq<Byte>>, r: seq<Byte>, pick: nat -> nat, j: nat)
    requires ReadsAmong(a, shape, images, r, pick) && j < Total(shape)
    ensures pick(LineOf(a, j)) < |images| && Data(a, Total(shape), r)[j] == images[pick(LineOf(a, j))][j]
  {
    hide Raw, RawOf, IsVersion, DataAt, Data;
    var n, p := Total(shape), RawOf(a + j);
    DataIndex(a, n, r, j);
    RawOfInside(a, a + n, a + j);
    assert At(a, r, p) == r[p - Raw(a)];
  }

  lemma AmongVersion(a: nat, shape: Shape, images: seq<seq<Byte>>, r: seq<Byte>, pick: nat -> nat, p: nat)
    requires ReadsAmong(a, shape, images, r, pick) && Raw(a) <= p < Raw(a + Total(shape)) && IsVersion(p)
    ensures a <= BlockStart(p) < a + Total(shape) && pick(p / LINE) < |images|
    ensures At(a, r, p) == images[pick(p / LINE)][StartIn(shape, BlockStart(p) - a)]
  {
    hide Raw, IsVersion, BlockStart, At;
    RawInside(a, a + Total(shape), p);
  }

  /** In every image the object is as it was or as it is. */
  ghost predicate OldOrNew(images: seq<seq<Byte>>, before: seq<Byte>, after: seq<Byte>, s: nat, e: nat) {
    && s < e <= |before| == |after|
    && forall i :: 0 <= i < |images| ==> |images[i]| == |before| && (images[i][s..e] == before[s..e] || images[i][s..e] == after[s..e])
  }

  /** The same for lines from any number of images, as long as each image has the object whole: a
      write that takes several steps, none of which cuts through an object. */
  lemma EntryIsNotTornAmong(a: nat, shape: Shape, images: seq<seq<Byte>>, before: seq<Byte>, after: seq<Byte>, r: seq<Byte>, pick: nat -> nat, s: nat, e: nat)
    requires ReadsAmong(a, shape, images, r, pick) && Consistent(a, shape, r) && |before| == Total(shape)
    requires IsObject(shape, s, e) && e - s <= LINE && OldOrNew(images, before, after, s, e) && Distinguishable(before, after, s, e)
    ensures var d := Data(a, |before|, r); d[s..e] == before[s..e] || d[s..e] == after[s..e]
  {
    hide Raw, RawOf, Data, LineOf, Consistent, Distinguishable, BlockStart, IsVersion, RawByte;
    var choice := (line: nat) => pick(line) < |images| && images[pick(line)][s..e] == after[s..e];
    forall j: nat | s <= j < e ensures Data(a, |before|, r)[j] == if choice(LineOf(a, j)) then after[j] else before[j] {
      AmongData(a, shape, images, r, pick, j);
      SameAt(images[pick(LineOf(a, j))], before, after, s, e, j);
    }
    forall p | Raw(a) <= p < Raw(a + |before|) && IsVersion(p) && a + s <= BlockStart(p) < a + e
      ensures At(a, r, p) == if choice(p / LINE) then after[s] else before[s]
    {
      AmongVersion(a, shape, images, r, pick, p);
      SameAt(images[pick(p / LINE)], before, after, s, e, s);
    }
    ObjectIsNotTorn(a, shape, before, after, r, choice, s, e);
  }

  lemma SameAt(d: seq<Byte>, before: seq<Byte>, after: seq<Byte>, s: nat, e: nat, j: nat)
    requires s <= j < e <= |d| == |before| == |after|
    requires d[s..e] == before[s..e] || d[s..e] == after[s..e]
    ensures d[j] == if d[s..e] == after[s..e] then after[j] else before[j]
  {
    assert d[j] == d[s..e][j - s] && before[j] == before[s..e][j - s] && after[j] == after[s..e][j - s];
  }

  lemma WholeIs(before: seq<Byte>, after: seq<Byte>, d: seq<Byte>, s: nat, e: nat, k: nat, fromAfter: bool, choice: nat -> bool)
    requires s <= k < e <= |before| == |after| == |d| && fromAfter == choice(k)
    requires forall j: nat :: s <= j < e ==> d[j] == if choice(j) then after[j] else before[j]
    requires DifferOnlyAt(before, after, s, e, k) || forall j: nat :: s <= j < e ==> choice(j) == choice(k)
    ensures d[s..e] == if fromAfter then after[s..e] else before[s..e]
  {
    var want := if fromAfter then after else before;
    forall j: nat | s <= j < e ensures d[j] == want[j] {
    }
  }

  // ----- nodes -----

  /** All objects carry the node version `v`. */
  ghost predicate AllNode(shape: Shape, d: seq<Byte>, v: nat)
    requires Total(shape) == |d|
  {
    forall j :: 0 <= j < |d| ==> NodeVersion(d[StartIn(shape, j)]) == v
  }

  /** The version byte of a line, or the first object's, tells which image the line is from. */
  lemma LineNodeVersion(a: nat, shape: Shape, before: seq<Byte>, after: seq<Byte>, r: seq<Byte>, pick: nat -> bool, p: nat, u: nat, v: nat, w: nat)
    requires Reads(a, shape, before, after, r, pick) && Consistent(a, shape, r) && 0 < |before|
    requires AllNode(shape, before, u) && AllNode(shape, after, v) && AllNode(shape, Data(a, |before|, r), w)
    requires Raw(a) <= p < Raw(a + |before|)
    ensures w == if pick(p / LINE) then v else u
  {
    hide RawOf, BlockStart, Data, Enc;
    var n, top := |before|, p / LINE * LINE;
    if IsVersion(top) && Raw(a) <= top {
      assert top / LINE == p / LINE && top <= p;
      hide Raw, IsVersion;
      MixVersion(a, shape, before, after, r, pick, top);
      assert LineOk(a, shape, r, top);
    } else {
      FirstLine(a, p);
      hide Raw, IsVersion;
      MixData(a, shape, before, after, r, pick, 0);
      assert StartIn(shape, 0) == 0;
    }
  }

  lemma FirstLine(a: nat, p: nat)
    requires Raw(a) <= p && !(IsVersion(p / LINE * LINE) && Raw(a) <= p / LINE * LINE)
    ensures LineOf(a, 0) == p / LINE
  {
  }

  /** A read of two node images with different node versions, accepted by the joint check, is all
      of one image. */
  lemma NodeIsNotTorn(a: nat, shape: Shape, before: seq<Byte>, after: seq<Byte>, r: seq<Byte>, pick: nat -> bool, u: nat, v: nat, w: nat)
    requires Reads(a, shape, before, after, r, pick) && Consistent(a, shape, r) && 0 < |before|
    requires AllNode(shape, before, u) && AllNode(shape, after, v) && u != v
    requires AllNode(shape, Data(a, |before|, r), w)
    ensures r == Enc(a, shape, before) || r == Enc(a, shape, after)
    ensures Data(a, |before|, r) == before || Data(a, |before|, r) == after
  {
    EncRoundTrip(a, shape, before);
    EncRoundTrip(a, shape, after);
    hide Raw, Enc, Data, Consistent, AllNode;
    var n := |before|;
    var want := if w == v then Enc(a, shape, after) else Enc(a, shape, before);
    forall q | 0 <= q < |r| ensures r[q] == want[q] {
      var p := Raw(a) + q;
      LineNodeVersion(a, shape, before, after, r, pick, p, u, v, w);
      assert At(a, r, p) == r[q];
    }
    assert r == want;
  }
}
