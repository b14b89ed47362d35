/** Whole leaves and segments on the wire: where the version of a byte is found, what a segment
    write does to the leaf in memory, and what a reader of a segment can see of it. */
module LeafImage {
  import opened Wire
  import opened TornRead
  import opened LeafLayout
  import opened Arith

  // ----- the version that belongs to a byte -----

  function RoundDown(x: nat, m: nat): (r: nat)
    requires m > 0
  {
    x / m * m
  }

  lemma RoundDownStep(x: nat, m: nat)
    requires m > 0
    ensures RoundDown(x + m, m) == RoundDown(x, m) + m && (x + m) % m == x % m
    ensures x < m ==> RoundDown(x, m) == 0 && x % m == x
  {
    var q := x / m;
    DivModIs(x + m, m, q + 1, x % m);
    assert (q + 1) * m == q * m + m;
    if x < m {
      DivModIs(x, m, 0, x);
    }
  }

  /** The object start as the source computes it: entries first, then whole groups of `g` bytes. */
  function ObjectStart(l: Layout, g: nat, firstMetadata: nat, j: nat): nat
    requires l.Valid() && g > 0
  {
    if j < firstMetadata then RoundDown(j, l.entry)
    else
      var off := (j - firstMetadata) % g;
      firstMetadata + RoundDown(j - firstMetadata, g) + if off < l.meta then 0 else l.meta + RoundDown(off - l.meta, l.entry)
  }

  lemma GroupPositive(l: Layout)
    requires l.Valid()
    ensures l.Group() == l.meta + l.entry + (l.n - 1) * l.entry && l.Group() >= l.meta + l.entry > 0
  {
    MulFar(l.n, l.entry);
  }

  /** Inside the leading entries: one entry further. */
  lemma HeadShift(l: Layout, g: nat, mo: nat, j: nat)
    requires l.Valid() && g > 0 && l.entry <= mo
    ensures j < l.entry ==> ObjectStart(l, g, mo, j) == 0
    ensures l.entry <= j ==> ObjectStart(l, g, mo, j) == l.entry + ObjectStart(l, g, mo - l.entry, j - l.entry)
  {
    hide RoundDown;
    if j < l.entry {
      RoundDownStep(j, l.entry);
    } else {
      RoundDownStep(j - l.entry, l.entry);
    }
  }

  /** At the beginning of a group: its metadata, its first entry, its other entries, the rest. */
  lemma GroupShift(l: Layout, g: nat, rest: nat, j: nat)
    requires l.Valid() && g == l.meta + l.entry + rest
    ensures j < l.meta ==> ObjectStart(l, g, 0, j) == 0
    ensures l.meta <= j < l.meta + l.entry ==> ObjectStart(l, g, 0, j) == l.meta
    ensures l.meta + l.entry <= j ==> ObjectStart(l, g, 0, j) == l.meta + l.entry + ObjectStart(l, g, rest, j - l.meta - l.entry)
  {
    hide RoundDown;
    if j < g {
      RoundDownStep(j, g);
      if l.meta <= j < l.meta + l.entry {
        RoundDownStep(j - l.meta, l.entry);
      } else if l.meta <= j {
        RoundDownStep(j - l.meta - l.entry, l.entry);
      }
    } else {
      RoundDownStep(j - g, g);
    }
  }

  /** The source's arithmetic finds the object that a byte belongs to. */
  lemma {:induction false} ObjectStartIs(l: Layout, start: nat, cnt: nat, j: nat)
    requires l.Valid() && j < Total(ShapeOf(l, start, cnt))
    ensures l.Group() > 0
    ensures ObjectStart(l, l.Group(), FirstMetadata(l, start, cnt), j) == StartIn(ShapeOf(l, start, cnt), j)
    decreases cnt
  {
    hide ObjectStart, FirstMetadata, Total, StartIn, Layout.Group;
    GroupPositive(l);
    NotEmpty(l, start, cnt);
    if start % l.n != 0 {
      StartInHead(l, start, cnt, j);
      if l.entry <= j {
        ObjectStartIs(l, start + 1, cnt - 1, j - l.entry);
      }
    } else {
      StartInGroup(l, start, cnt, j);
      if l.meta + l.entry <= j {
        ObjectStartIs(l, start + 1, cnt - 1, j - l.meta - l.entry);
      }
    }
  }

  lemma NotEmpty(l: Layout, start: nat, cnt: nat)
    requires l.Valid() && Total(ShapeOf(l, start, cnt)) > 0
    ensures cnt > 0
  {
  }

  lemma StartInHead(l: Layout, start: nat, cnt: nat, j: nat)
    requires l.Valid() && cnt > 0 && start % l.n != 0 && j < Total(ShapeOf(l, start, cnt)) && l.Group() > 0
    ensures l.entry <= j ==> j - l.entry < Total(ShapeOf(l, start + 1, cnt - 1))
    ensures StartIn(ShapeOf(l, start, cnt), j) ==
            if j < l.entry then 0 else l.entry + StartIn(ShapeOf(l, start + 1, cnt - 1), j - l.entry)
    ensures ObjectStart(l, l.Group(), FirstMetadata(l, start, cnt), j) ==
            if j < l.entry then 0 else l.entry + ObjectStart(l, l.Group(), FirstMetadata(l, start + 1, cnt - 1), j - l.entry)
  {
    hide ObjectStart, FirstMetadata, Total, StartIn;
    SingleStart(l, ShapeOf(l, start + 1, cnt - 1), j);
    FirstMetadataStep(l, start, cnt);
    HeadShift(l, l.Group(), FirstMetadata(l, start, cnt), j);
  }

  lemma FirstMetadataStep(l: Layout, start: nat, cnt: nat)
    requires l.Valid() && cnt > 0 && start % l.n != 0
    ensures FirstMetadata(l, start, cnt) == FirstMetadata(l, start + 1, cnt - 1) + l.entry
  {
    hide FirstMetadata, Head;
    FirstMetadataIs(l, start, cnt);
    FirstMetadataIs(l, start + 1, cnt - 1);
    HeadStep(l, start, cnt);
    var h := Head(l, start + 1, cnt - 1);
    assert (h + 1) * l.entry == h * l.entry + l.entry;
  }

  lemma StartInGroup(l: Layout, start: nat, cnt: nat, j: nat)
    requires l.Valid() && cnt > 0 && start % l.n == 0 && j < Total(ShapeOf(l, start, cnt)) && l.Group() > 0
    ensures l.meta + l.entry <= j ==> j - l.meta - l.entry < Total(ShapeOf(l, start + 1, cnt - 1))
    ensures StartIn(ShapeOf(l, start, cnt), j) ==
            if j < l.meta then 0 else if j < l.meta + l.entry then l.meta
            else l.meta + l.entry + StartIn(ShapeOf(l, start + 1, cnt - 1), j - l.meta - l.entry)
    ensures ObjectStart(l, l.Group(), FirstMetadata(l, start, cnt), j) ==
            if j < l.meta then 0 else if j < l.meta + l.entry then l.meta
            else l.meta + l.entry + ObjectStart(l, l.Group(), FirstMetadata(l, start + 1, cnt - 1), j - l.meta - l.entry)
  {
    hide ObjectStart, FirstMetadata, Head, CeilDiv;
    GroupPositive(l);
    FrontTotal(l, start, cnt);
    FrontStart(l, ShapeOf(l, start + 1, cnt - 1), j);
    FirstMetadataIs(l, start, cnt);
    FirstMetadataIs(l, start + 1, cnt - 1);
    HeadStep(l, start, cnt);
    GroupShift(l, l.Group(), (l.n - 1) * l.entry, j);
    if l.meta + l.entry <= j {
      ReplicaCount(l, start + 1, cnt - 1);
      GroupRest(l, l.Group(), cnt, Head(l, start + 1, cnt - 1), j - l.meta - l.entry);
    }
  }

  /** The entries after the first of a group: all of them up to the next replica, or up to the end. */
  lemma GroupRest(l: Layout, g: nat, cnt: nat, h: nat, k: nat)
    requires l.Valid() && g > 0 && cnt > 0 && h == if l.n < cnt then l.n - 1 else cnt - 1
    requires k < l.entry * (cnt - 1) + l.meta * CeilDiv(cnt - 1 - h, l.n)
    ensures ObjectStart(l, g, (l.n - 1) * l.entry, k) == ObjectStart(l, g, h * l.entry, k)
  {
    if cnt <= l.n {
      CeilDivStep(0, l.n);
      assert k < l.entry * (cnt - 1) <= (l.n - 1) * l.entry by {
        MulFar(l.n - cnt, l.entry);
        assert (l.n - 1) * l.entry == (cnt - 1) * l.entry + (l.n - cnt) * l.entry;
      }
    }
  }
}
