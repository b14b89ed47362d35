/** The scattered leaf: a replica of the metadata before every `n` entries. A segment of entries can
    be encoded, written and read on its own, at offsets that are computed from entry indices. */
module LeafLayout {
  import opened Wire
  import opened TornRead
  import opened Arith

  /** Slots per group (the neighbourhood size), bytes of metadata, bytes of an entry. */
  datatype Layout = Layout(n: nat, meta: nat, entry: nat) {
    ghost predicate Valid() {
      1 <= n && 1 <= meta && 1 <= entry
    }

    function Group(): nat {
      meta + n * entry
    }
  }

  type Entry = seq<Byte>

  ghost predicate Sized(l: Layout, meta: seq<Byte>, es: seq<Entry>) {
    l.Valid() && |meta| == l.meta && forall i :: 0 <= i < |es| ==> |es[i]| == l.entry
  }

  /** The objects of `cnt` entries from entry `start` on. */
  function ShapeOf(l: Layout, start: nat, cnt: nat): Shape
    requires l.n > 0
    decreases cnt
  {
    if cnt == 0 then []
    else (if start % l.n == 0 then [l.meta, l.entry] else [l.entry]) + ShapeOf(l, start + 1, cnt - 1)
  }

  function Scatter(l: Layout, meta: seq<Byte>, es: seq<Entry>, start: nat): seq<Byte>
    requires l.n > 0
  {
    if es == [] then []
    else (if start % l.n == 0 then meta else []) + es[0] + Scatter(l, meta, es[1..], start + 1)
  }

  /** The inverse: drops the metadata and cuts the rest into entries. */
  function Gather(l: Layout, d: seq<Byte>, start: nat, cnt: nat): seq<Entry>
    requires l.n > 0 && |d| == Total(ShapeOf(l, start, cnt))
    decreases cnt
  {
    if cnt == 0 then []
    else
      var skip := if start % l.n == 0 then l.meta else 0;
      FrontTotal(l, start, cnt);
      [d[skip..skip + l.entry]] + Gather(l, d[skip + l.entry..], start + 1, cnt - 1)
  }

  lemma FrontTotal(l: Layout, start: nat, cnt: nat)
    requires l.n > 0 && cnt > 0
    ensures Total(ShapeOf(l, start, cnt)) ==
            (if start % l.n == 0 then l.meta else 0) + l.entry + Total(ShapeOf(l, start + 1, cnt - 1))
  {
    var front := if start % l.n == 0 then [l.meta, l.entry] else [l.entry];
    TotalConcat(front, ShapeOf(l, start + 1, cnt - 1));
    if start % l.n == 0 {
      assert front[1..] == [l.entry];
      assert Total([l.entry]) == l.entry;
    }
  }

  lemma {:induction false} ScatterShape(l: Layout, meta: seq<Byte>, es: seq<Entry>, start: nat)
    requires Sized(l, meta, es)
    ensures Total(ShapeOf(l, start, |es|)) == |Scatter(l, meta, es, start)|
  {
    if es != [] {
      ScatterShape(l, meta, es[1..], start + 1);
      FrontTotal(l, start, |es|);
    }
  }

  lemma GatherStep(l: Layout, d: seq<Byte>, start: nat, cnt: nat) returns (skip: nat, e: seq<Byte>)
    requires l.Valid() && |d| == Total(ShapeOf(l, start, cnt)) && 0 < cnt
    ensures skip == if start % l.n == 0 then l.meta else 0
    ensures skip + l.entry <= |d| && e == d[skip + l.entry..] && |e| == Total(ShapeOf(l, start + 1, cnt - 1))
    ensures Gather(l, d, start, cnt) == [d[skip..skip + l.entry]] + Gather(l, e, start + 1, cnt - 1)
  {
    skip := if start % l.n == 0 then l.meta else 0;
    FrontTotal(l, start, cnt);
    e := d[skip + l.entry..];
  }

  lemma ScatterFront(l: Layout, meta: seq<Byte>, es: seq<Entry>, start: nat)
    requires Sized(l, meta, es) && es != []
    ensures var d, skip := Scatter(l, meta, es, start), if start % l.n == 0 then l.meta else 0;
            && skip + l.entry <= |d|
            && d[skip..skip + l.entry] == es[0]
            && d[skip + l.entry..] == Scatter(l, meta, es[1..], start + 1)
  {
    var front := if start % l.n == 0 then meta else [];
    ThreeParts(front, es[0], Scatter(l, meta, es[1..], start + 1));
  }

  lemma ThreeParts(x: seq<Byte>, y: seq<Byte>, z: seq<Byte>)
    ensures (x + y + z)[|x|..|x| + |y|] == y && (x + y + z)[|x| + |y|..] == z
  {
  }

  lemma {:induction false} GatherScatter(l: Layout, meta: seq<Byte>, es: seq<Entry>, start: nat)
    requires Sized(l, meta, es)
    ensures |Scatter(l, meta, es, start)| == Total(ShapeOf(l, start, |es|))
    ensures Gather(l, Scatter(l, meta, es, start), start, |es|) == es
  {
    ScatterShape(l, meta, es, start);
    if es != [] {
      hide Scatter, Gather, ShapeOf, Total;
      var skip, e := GatherStep(l, Scatter(l, meta, es, start), start, |es|);
      ScatterFront(l, meta, es, start);
      GatherScatter(l, meta, es[1..], start + 1);
      assert es == [es[0]] + es[1..];
    }
  }

  lemma {:induction false} ShapeConcat(l: Layout, start: nat, c: nat, e: nat)
    requires l.n > 0
    ensures ShapeOf(l, start, c + e) == ShapeOf(l, start, c) + ShapeOf(l, start + c, e)
    decreases c
  {
    if c > 0 {
      ShapeConcat(l, start + 1, c - 1, e);
    }
  }

  lemma {:induction false} ScatterConcat(l: Layout, meta: seq<Byte>, x: seq<Entry>, y: seq<Entry>, start: nat)
    requires l.n > 0
    ensures Scatter(l, meta, x + y, start) == Scatter(l, meta, x, start) + Scatter(l, meta, y, start + |x|)
  {
    if x == [] {
      assert x + y == y;
    } else {
      assert (x + y)[1..] == x[1..] + y;
      ScatterConcat(l, meta, x[1..], y, start + 1);
    }
  }

  lemma SingleStart(l: Layout, rest: Shape, j: nat)
    requires l.Valid() && j < Total([l.entry] + rest)
    ensures Total([l.entry] + rest) == l.entry + Total(rest)
    ensures StartIn([l.entry] + rest, j) == if j < l.entry then 0 else l.entry + StartIn(rest, j - l.entry)
  {
    assert ([l.entry] + rest)[1..] == rest;
  }

  lemma FrontStart(l: Layout, rest: Shape, j: nat)
    requires l.Valid() && j < l.meta + l.entry + Total(rest)
    ensures Total([l.meta, l.entry] + rest) == l.meta + l.entry + Total(rest)
    ensures StartIn([l.meta, l.entry] + rest, j) ==
            if j < l.meta then 0 else if j < l.meta + l.entry then l.meta else l.meta + l.entry + StartIn(rest, j - l.meta - l.entry)
  {
    var shape := [l.meta, l.entry] + rest;
    assert shape[1..] == [l.entry] + rest;
    assert shape[1..][1..] == rest;
  }

  // ----- offsets -----

  /** The image position at which a segment from entry `i` on begins, with its metadata replica if
      `i` opens a group. */
  function Position(l: Layout, i: nat): nat
    requires l.n > 0
  {
    i / l.n * l.Group() + if i % l.n != 0 then l.meta + i % l.n * l.entry else 0
  }

  lemma PositionStep(l: Layout, i: nat)
    requires l.n > 0
    ensures Position(l, i + 1) == Position(l, i) + l.entry + if i % l.n == 0 then l.meta else 0
  {
    var q, r := i / l.n, i % l.n;
    assert i == q * l.n + r;
    if r + 1 < l.n {
      DivModIs(i + 1, l.n, q, r + 1);
      PlaceStep(l.Group(), l.entry, q, r);
    } else {
      NextMultiple(q, l.n);
      DivModIs(i + 1, l.n, q + 1, 0);
      NextMultiple(q, l.Group());
      NextMultiple(r, l.entry);
    }
  }

  lemma PlaceStep(g: nat, e: nat, q: nat, r: nat)
    ensures q * g + (r + 1) * e == q * g + r * e + e
  {
  }

  /** The length of a scattered segment is the difference of its positions. */
  lemma {:induction false} ScatterLength(l: Layout, start: nat, cnt: nat)
    requires l.n > 0
    ensures Position(l, start + cnt) == Position(l, start) + Total(ShapeOf(l, start, cnt))
    decreases cnt
  {
    if cnt > 0 {
      hide Position;
      FrontTotal(l, start, cnt);
      ScatterLength(l, start + 1, cnt - 1);
      PositionStep(l, start);
    }
  }

  /** Rounding up. */
  function CeilDiv(x: nat, m: nat): nat
    requires m > 0
  {
    x / m + if x % m != 0 then 1 else 0
  }

  lemma CeilDivScaled(x: nat, m: nat, e: nat)
    requires m > 0 && e > 0
    ensures m * e > 0 && CeilDiv(x * e, m * e) == CeilDiv(x, m)
  {
    var q, r := x / m, x % m;
    ScaledParts(x, m, e, q, r);
    var xe, me, re := x * e, m * e, r * e;
    DivModIs(xe, me, q, re);
    assert CeilDiv(xe, me) == q + if re != 0 then 1 else 0;
  }

  lemma ScaledParts(x: nat, m: nat, e: nat, q: nat, r: nat)
    requires x == q * m + r && r < m && e > 0
    ensures x * e == q * (m * e) + r * e
    ensures r * e < m * e && (r * e == 0 <==> r == 0)
  {
    assert x * e == (q * m) * e + r * e;
    assert (q * m) * e == q * (m * e);
    MulFar(m - r, e);
    assert (m - r) * e == m * e - r * e;
    MulFar(r, e);
  }

  lemma CeilDivStep(x: nat, m: nat)
    requires m > 0
    ensures CeilDiv(x + m, m) == CeilDiv(x, m) + 1
    ensures CeilDiv(0, m) == 0
    ensures 0 < x <= m ==> CeilDiv(x, m) == 1
  {
    DivModIs(x + m, m, x / m + 1, x % m);
    if x < m {
      DivModIs(x, m, 0, x);
    } else if x == m {
      DivModIs(x, m, 1, 0);
    }
    DivModIs(0, m, 0, 0);
  }

  /** Entries of the segment before the first metadata replica in it. */
  function Head(l: Layout, start: nat, cnt: nat): (h: nat)
    requires l.n > 0
    ensures h <= cnt
  {
    var h := (l.n - start % l.n) % l.n;
    if h < cnt then h else cnt
  }

  lemma HeadStep(l: Layout, start: nat, cnt: nat)
    requires l.n > 0 && cnt > 0
    ensures start % l.n == 0 ==> Head(l, start, cnt) == 0 && Head(l, start + 1, cnt - 1) == if l.n < cnt then l.n - 1 else cnt - 1
    ensures start % l.n != 0 ==> Head(l, start, cnt) == Head(l, start + 1, cnt - 1) + 1
  {
    Leading(l.n, start);
    Leading(l.n, start + 1);
    NextRemainder(l.n, start);
  }

  lemma Leading(n: nat, start: nat)
    requires n > 0
    ensures (n - start % n) % n == if start % n == 0 then 0 else n - start % n
  {
    var r := start % n;
    if r == 0 {
      DivModIs(n, n, 1, 0);
    } else {
      DivModIs(n - r, n, 0, n - r);
    }
  }

  lemma NextRemainder(n: nat, start: nat)
    requires n > 0
    ensures (start + 1) % n == if start % n + 1 == n then 0 else start % n + 1
  {
    var q, r := start / n, start % n;
    assert start == q * n + r;
    if r + 1 == n {
      NextMultiple(q, n);
      DivModIs(start + 1, n, q + 1, 0);
    } else {
      DivModIs(start + 1, n, q, r + 1);
    }
  }

  /** The bytes before the first metadata replica, and the length with all replicas. */
  function FirstMetadata(l: Layout, start: nat, cnt: nat): nat
    requires l.n > 0
  {
    var before := (l.n - start % l.n) % l.n * l.entry;
    if before < l.entry * cnt then before else l.entry * cnt
  }

  function NewLen(l: Layout, start: nat, cnt: nat): nat
    requires l.Valid() && FirstMetadata(l, start, cnt) <= l.entry * cnt && l.n * l.entry > 0
  {
    l.entry * cnt + l.meta * CeilDiv(l.entry * cnt - FirstMetadata(l, start, cnt), l.n * l.entry)
  }

  lemma FirstMetadataIs(l: Layout, start: nat, cnt: nat)
    requires l.Valid()
    ensures FirstMetadata(l, start, cnt) == Head(l, start, cnt) * l.entry <= l.entry * cnt
    ensures l.n * l.entry > 0
  {
    var h := (l.n - start % l.n) % l.n;
    if h < cnt {
      assert h * l.entry < cnt * l.entry;
    } else {
      assert h * l.entry >= cnt * l.entry;
    }
  }

  /** The number of metadata replicas in the segment. */
  lemma {:induction false} ReplicaCount(l: Layout, start: nat, cnt: nat)
    requires l.Valid()
    ensures Total(ShapeOf(l, start, cnt)) == l.entry * cnt + l.meta * CeilDiv(cnt - Head(l, start, cnt), l.n)
    decreases cnt
  {
    if cnt == 0 {
      CeilDivStep(0, l.n);
    } else {
      hide Head, CeilDiv, Total, ShapeOf;
      FrontTotal(l, start, cnt);
      HeadStep(l, start, cnt);
      ReplicaCount(l, start + 1, cnt - 1);
      var rest := cnt - 1 - Head(l, start + 1, cnt - 1);
      if start % l.n == 0 {
        CeilDivStep(if l.n < cnt then rest else cnt, l.n);
        CeilDivStep(0, l.n);
      }
      OneMore(l.entry, cnt - 1);
      OneMore(l.meta, CeilDiv(rest, l.n));
    }
  }

  lemma OneMore(size: nat, x: nat)
    ensures size * (x + 1) == size * x + size
  {
  }

  /** The computed length of a scattered segment is the distance of its image positions. */
  lemma NewLenIs(l: Layout, start: nat, cnt: nat)
    requires l.Valid()
    ensures FirstMetadata(l, start, cnt) <= l.entry * cnt && l.n * l.entry > 0
    ensures NewLen(l, start, cnt) == Position(l, start + cnt) - Position(l, start) == Total(ShapeOf(l, start, cnt))
  {
    var h := Head(l, start, cnt);
    hide Head, CeilDiv, Position, FirstMetadata, ShapeOf, Total;
    FirstMetadataIs(l, start, cnt);
    ReplicaCount(l, start, cnt);
    ScatterLength(l, start, cnt);
    var left := cnt - h;
    Distribute(l.entry, cnt, h);
    CeilDivScaled(left, l.n, l.entry);
  }

  lemma Distribute(e: nat, c: nat, h: nat)
    requires h <= c
    ensures e * c - h * e == (c - h) * e
  {
  }

  // ----- raw offsets -----

  function RawDistance(x: int): int {
    if x <= 0 then x else x + CeilDiv(x, BLOCK)
  }

  /** The raw offset, raw length and first line start of a segment. */
  function OffsetInfo(l: Layout, start: nat, cnt: nat): (int, int, int)
    requires l.n > 0
  {
    var from, to: int := Position(l, start), Position(l, start + cnt);
    var dist := from - LINE;
    if dist < 0 then
      (from, RawDistance(to - LINE) - RawDistance(dist), if LINE - from < to - from then LINE - from else to - from)
    else
      var lines := CeilDiv(dist, BLOCK);
      var first := LINE + lines * BLOCK - from;
      (from + lines, RawDistance(to - LINE) - RawDistance(dist), if first < to - from then first else to - from)
  }

  lemma OffsetInfoIs(l: Layout, start: nat, cnt: nat)
    requires l.Valid()
    ensures var from, to := Position(l, start), Position(l, start + cnt);
            from <= to && OffsetInfo(l, start, cnt) == (Raw(from), Raw(to) - Raw(from), FirstOffset(from, to - from))
  {
    hide Position, ShapeOf, Total, Raw, RawDistance, FirstOffset, CeilDiv;
    ScatterLength(l, start, cnt);
    var from, to := Position(l, start), Position(l, start + cnt);
    RawDistanceIs(from);
    RawDistanceIs(to);
    OffsetsOf(from, to - from);
  }

  /** The source's two cases for the raw offset and the first line start. */
  lemma OffsetsOf(a: nat, n: nat)
    ensures a < LINE ==> Raw(a) == a && FirstOffset(a, n) == if LINE - a < n then LINE - a else n
    ensures LINE <= a ==>
              var lines := CeilDiv(a - LINE, BLOCK);
              var first := LINE + lines * BLOCK - a;
              Raw(a) == a + lines && FirstOffset(a, n) == if first < n then first else n
  {
  }

  lemma RawDistanceIs(x: nat)
    ensures Raw(x) - LINE == RawDistance(x - LINE)
  {
  }
}
