/** The loops that scatter metadata between entries, take it out again, and compare node versions. */
module LeafCodec {
  import opened Wire
  import opened TornRead
  import opened LeafLayout
  import opened Arith

  /** Entries one after the other, as in the leaf without replicas. */
  function Join(es: seq<Entry>): seq<Byte> {
    if es == [] then [] else es[0] + Join(es[1..])
  }

  lemma {:induction false} JoinConcat(x: seq<Entry>, y: seq<Entry>)
    ensures Join(x + y) == Join(x) + Join(y)
  {
    if x == [] {
      assert x + y == y;
    } else {
      assert (x + y)[1..] == x[1..] + y;
      JoinConcat(x[1..], y);
    }
  }

  lemma {:induction false} JoinLength(l: Layout, meta: seq<Byte>, es: seq<Entry>)
    requires Sized(l, meta, es)
    ensures |Join(es)| == |es| * l.entry
  {
    if es != [] {
      JoinLength(l, meta, es[1..]);
      assert |es| * l.entry == (|es| - 1) * l.entry + l.entry;
    }
  }

  lemma JoinSlice(l: Layout, meta: seq<Byte>, es: seq<Entry>, x: nat, y: nat)
    requires Sized(l, meta, es) && x <= y <= |es|
    ensures x * l.entry <= y * l.entry <= |Join(es)|
    ensures Join(es)[x * l.entry..y * l.entry] == Join(es[x..y])
  {
    hide Join;
    var a, b, c := es[..x], es[x..y], es[y..];
    assert es == a + b + c;
    JoinConcat(a, b);
    JoinConcat(a + b, c);
    JoinLength(l, meta, a);
    JoinLength(l, meta, b);
    SplitMultiple(x, y, l.entry);
    SliceOfConcat(Join(a), Join(b), Join(c));
  }

  lemma SplitMultiple(x: nat, y: nat, e: nat)
    requires x <= y
    ensures y * e == x * e + (y - x) * e
  {
  }

  lemma SliceOfConcat(a: seq<Byte>, b: seq<Byte>, c: seq<Byte>)
    ensures (a + b + c)[|a|..|a| + |b|] == b
  {
  }

  /** Entry `i` opens a group. */
  predicate Opens(l: Layout, i: nat)
    requires l.n > 0
  {
    i % l.n == 0
  }

  /** Entries in front of the next replica are copied as they are. */
  lemma {:induction false} ScatterPlain(l: Layout, meta: seq<Byte>, es: seq<Entry>, start: nat)
    requires l.n > 0 && forall i :: start <= i < start + |es| ==> !Opens(l, i)
    ensures Scatter(l, meta, es, start) == Join(es)
  {
    if es != [] {
      assert !Opens(l, start);
      ScatterPlain(l, meta, es[1..], start + 1);
    }
  }

  /** A group that is cut off at most at its end: one replica and its entries. */
  lemma ScatterGroup(l: Layout, meta: seq<Byte>, es: seq<Entry>, start: nat)
    requires l.n > 0 && Opens(l, start) && 0 < |es| <= l.n
    ensures Scatter(l, meta, es, start) == meta + Join(es)
  {
    var rest := es[1..];
    forall i | start + 1 <= i < start + 1 + |rest| ensures !Opens(l, i) {
      DivModIs(i, l.n, start / l.n, i - start);
    }
    ScatterPlain(l, meta, rest, start + 1);
    assert meta + es[0] + Join(rest) == meta + (es[0] + Join(rest));
  }

  lemma HeadPlain(l: Layout, start: nat, cnt: nat, i: nat)
    requires l.n > 0
    ensures start <= i < start + Head(l, start, cnt) ==> !Opens(l, i)
    ensures Head(l, start, cnt) < cnt ==> Opens(l, start + Head(l, start, cnt))
  {
    var r, q := start % l.n, start / l.n;
    assert start == q * l.n + r;
    if r == 0 {
      DivModIs(l.n, l.n, 1, 0);
    } else {
      DivModIs(l.n - r, l.n, 0, l.n - r);
      if start <= i < start + l.n - r {
        DivModIs(i, l.n, q, r + i - start);
      }
      assert (q + 1) * l.n == q * l.n + l.n;
      DivModIs(start + (l.n - r), l.n, q + 1, 0);
    }
  }

  ghost function Least(x: nat, y: nat): nat {
    if x < y then x else y
  }

  /** One round of either loop: the entries from `x` to the end of its group. */
  lemma GroupRound(l: Layout, meta: seq<Byte>, es: seq<Entry>, start: nat, x: nat)
    requires Sized(l, meta, es) && x < |es| && Opens(l, start + x)
    ensures var y := Least(x + l.n, |es|);
            && x * l.entry <= y * l.entry <= |Join(es)|
            && Scatter(l, meta, es[..y], start) == Scatter(l, meta, es[..x], start) + meta + Join(es)[x * l.entry..y * l.entry]
            && Join(es[..y]) == Join(es[..x]) + Join(es)[x * l.entry..y * l.entry]
    ensures Opens(l, start + x + l.n)
  {
    hide Join, Scatter, Opens;
    var y := Least(x + l.n, |es|);
    JoinSlice(l, meta, es, x, y);
    assert es[..y] == es[..x] + es[x..y];
    ScatterConcat(l, meta, es[..x], es[x..y], start);
    JoinConcat(es[..x], es[x..y]);
    ScatterGroup(l, meta, es[x..y], start + x);
    OpensNext(l, start + x);
  }

  lemma OpensNext(l: Layout, i: nat)
    requires l.n > 0 && Opens(l, i)
    ensures Opens(l, i + l.n)
  {
    var q := i / l.n;
    assert (q + 1) * l.n == q * l.n + l.n;
    DivModIs(i + l.n, l.n, q + 1, 0);
  }

  lemma RoundArith(l: Layout, cnt: nat, x: nat, y: nat)
    requires l.Valid() && x < cnt && y == Least(x + l.n, cnt)
    ensures y * l.entry - x * l.entry == if l.n * l.entry < cnt * l.entry - x * l.entry then l.n * l.entry else cnt * l.entry - x * l.entry
    ensures (x + l.n) * l.entry == x * l.entry + l.n * l.entry
  {
    var e := l.entry;
    assert (x + l.n) * e == x * e + l.n * e;
    assert cnt * e - x * e == (cnt - x) * e;
    if x + l.n < cnt {
      MulFar(cnt - x - l.n, e);
      assert (cnt - x) * e == l.n * e + (cnt - x - l.n) * e;
    } else {
      assert l.n * e == (cnt - x) * e + (x + l.n - cnt) * e;
    }
  }

  lemma EncodeStart(l: Layout, meta: seq<Byte>, es: seq<Entry>, start: nat)
    requires Sized(l, meta, es)
    ensures var h := Head(l, start, |es|);
            && FirstMetadata(l, start, |es|) == h * l.entry <= |Join(es)| == l.entry * |es|
            && Scatter(l, meta, es[..h], start) == Join(es)[..h * l.entry] == Join(es[..h])
            && (h < |es| ==> Opens(l, start + h))
  {
    var h := Head(l, start, |es|);
    FirstMetadataIs(l, start, |es|);
    HeadPlain(l, start, |es|, start);
    hide Head, Join, Scatter;
    JoinSlice(l, meta, es, 0, h);
    JoinLength(l, meta, es);
    forall i | start <= i < start + h ensures !Opens(l, i) {
      HeadPlain(l, start, |es|, i);
    }
    ScatterPlain(l, meta, es[..h], start);
    assert es[0..h] == es[..h];
  }

  lemma PastEnd(l: Layout, cnt: nat, x: nat)
    requires l.Valid()
    ensures x * l.entry < cnt * l.entry <==> x < cnt
  {
    MulFar(cnt - x, l.entry);
    assert (cnt - x) * l.entry == cnt * l.entry - x * l.entry;
    if cnt <= x {
      assert (cnt - x) * l.entry <= 0;
    }
  }

  /** How many bytes `x` entries take. */
  function Bytes(l: Layout, x: nat): nat {
    x * l.entry
  }

  lemma EncodeFront(l: Layout, meta: seq<Byte>, es: seq<Entry>, start: nat)
    requires Sized(l, meta, es)
    ensures var h := Head(l, start, |es|);
            && h <= |es| && FirstMetadata(l, start, |es|) == Bytes(l, h) <= |Join(es)| == Bytes(l, |es|)
            && Scatter(l, meta, es[..h], start) == Join(es)[..Bytes(l, h)] == Join(es[..h])
            && (h < |es| ==> Opens(l, start + h))
            && (Bytes(l, h) < Bytes(l, |es|) <==> h < |es|)
  {
    hide Head, Join, Scatter, FirstMetadata, Opens;
    EncodeStart(l, meta, es, start);
    PastEnd(l, |es|, Head(l, start, |es|));
  }

  /** One round of the encoding loop. */
  lemma EncodeRound(l: Layout, meta: seq<Byte>, es: seq<Entry>, start: nat, x: nat)
    requires Sized(l, meta, es) && x < |es| && Opens(l, start + x)
    ensures var i, len, y := Bytes(l, x), RoundLength(l, |es|, x), Least(x + l.n, |es|);
            && i + len <= |Join(es)| == Bytes(l, |es|)
            && Scatter(l, meta, es[..y], start) == Scatter(l, meta, es[..x], start) + meta + Join(es)[i..i + len]
            && Join(es[..y]) == Join(es[..x]) + Join(es)[i..i + len]
            && Bytes(l, x + l.n) == i + Bytes(l, l.n) && Opens(l, start + x + l.n)
            && (Bytes(l, x + l.n) < Bytes(l, |es|) <==> x + l.n < |es|)
  {
    hide Join, Scatter, Opens, Head;
    GroupRound(l, meta, es, start, x);
    RoundArith(l, |es|, x, Least(x + l.n, |es|));
    PastEnd(l, |es|, x + l.n);
    JoinLength(l, meta, es);
  }

  /** The bytes of a round: a group, or what is left. */
  function RoundLength(l: Layout, cnt: nat, x: nat): nat {
    var group, left := Bytes(l, l.n), Bytes(l, cnt) - Bytes(l, x);
    if group < left || left < 0 then group else left
  }

  /** Puts a metadata replica before every group of entries. */
  method EncodeMetadata(l: Layout, meta: seq<Byte>, input: seq<Byte>, start: nat, ghost es: seq<Entry>, cnt: nat) returns (out: seq<Byte>)
    requires Sized(l, meta, es) && input == Join(es) && cnt == |es|
    ensures out == Scatter(l, meta, es, start)
  {
    hide Head, FirstMetadata, Join, Scatter, Opens, Bytes;
    EncodeFront(l, meta, es, start);
    var first := FirstMetadata(l, start, cnt);
    var group := Bytes(l, l.n);
    out := input[..first];
    var i := first;
    ghost var x := Head(l, start, cnt);
    while i < |input|
      invariant i == Bytes(l, x) && |input| == Bytes(l, cnt)
      invariant x < cnt ==> Opens(l, start + x)
      invariant out == Scatter(l, meta, es[..Least(x, cnt)], start)
      invariant i < |input| <==> x < cnt
      decreases if x < cnt then cnt - x else 0
    {
      EncodeRound(l, meta, es, start, x);
      var len := if group < |input| - i then group else |input| - i;
      out := out + meta + input[i..i + len];
      i, x := i + group, x + l.n;
    }
    assert es[..Least(x, cnt)] == es;
  }

  // ----- taking the metadata out -----

  /** Where the entries from `x` on stand in the scattered image. */
  lemma ScatterSuffix(l: Layout, meta: seq<Byte>, es: seq<Entry>, start: nat, x: nat)
    requires Sized(l, meta, es) && x < |es| && Opens(l, start + x)
    ensures var y := Least(x + l.n, |es|);
            var d, done := Scatter(l, meta, es, start), |Scatter(l, meta, es[..x], start)|;
            && x * l.entry <= y * l.entry <= |Join(es)|
            && var len := y * l.entry - x * l.entry;
               && done + l.meta + len <= |d|
               && d[done..done + l.meta] == meta
               && d[done + l.meta..done + l.meta + len] == Join(es)[x * l.entry..y * l.entry]
               && |Scatter(l, meta, es[..y], start)| == done + l.meta + len
  {
    hide Join, Scatter;
    var y := Least(x + l.n, |es|);
    GroupRound(l, meta, es, start, x);
    assert es == es[..y] + es[y..];
    ScatterConcat(l, meta, es[..y], es[y..], start);
  }

  /** One round of the decoding loop. */
  lemma DecodeRound(l: Layout, meta: seq<Byte>, es: seq<Entry>, start: nat, x: nat)
    requires Sized(l, meta, es) && x < |es| && Opens(l, start + x)
    ensures var len, y := RoundLength(l, |es|, x), Least(x + l.n, |es|);
            var d, done := Scatter(l, meta, es, start), |Scatter(l, meta, es[..x], start)|;
            && done + l.meta + len <= |d|
            && d[done..done + l.meta] == meta
            && Join(es[..y]) == Join(es[..x]) + d[done + l.meta..done + l.meta + len]
            && |Scatter(l, meta, es[..y], start)| == done + l.meta + len
  {
    hide Join, Scatter, Opens, Head;
    ScatterSuffix(l, meta, es, start, x);
    GroupRound(l, meta, es, start, x);
    RoundArith(l, |es|, x, Least(x + l.n, |es|));
  }

  /** Takes the replicas out again. `found` says that there was one, and then `got` is it. */
  method DecodeMetadata(l: Layout, ghost meta: seq<Byte>, input: seq<Byte>, start: nat, ghost es: seq<Entry>, cnt: nat)
    returns (out: seq<Byte>, found: bool, got: seq<Byte>)
    requires Sized(l, meta, es) && input == Scatter(l, meta, es, start) && cnt == |es|
    ensures out == Join(es)
    ensures found <==> Head(l, start, cnt) < cnt
    ensures found ==> got == meta
  {
    hide Head, FirstMetadata, Join, Scatter, Opens, Bytes;
    EncodeFront(l, meta, es, start);
    FrontCopied(l, meta, es, start);
    var first, len := FirstMetadata(l, start, cnt), Bytes(l, cnt);
    var group := Bytes(l, l.n);
    ghost var x := Head(l, start, cnt);
    out := input[..first];
    if first >= len {
      assert es[..x] == es;
      return out, false, [];
    }
    DecodeRound(l, meta, es, start, x);
    got := input[first..first + l.meta];
    var i, j := first, first;
    while j < len
      invariant j == Bytes(l, x) && (x < cnt ==> i == |Scatter(l, meta, es[..x], start)| && Opens(l, start + x))
      invariant out == Join(es[..Least(x, cnt)])
      invariant j < len <==> x < cnt
      decreases if x < cnt then cnt - x else 0
    {
      DecodeRound(l, meta, es, start, x);
      EncodeRound(l, meta, es, start, x);
      i := i + l.meta;
      var part := if group < len - j then group else len - j;
      out := out + input[i..i + part];
      i, j, x := i + group, j + group, x + l.n;
    }
    assert es[..Least(x, cnt)] == es;
    found := true;
  }

  lemma FrontCopied(l: Layout, meta: seq<Byte>, es: seq<Entry>, start: nat)
    requires Sized(l, meta, es)
    ensures var h, d := Head(l, start, |es|), Scatter(l, meta, es, start);
            Bytes(l, h) <= |d| && d[..Bytes(l, h)] == Join(es[..h]) && |Scatter(l, meta, es[..h], start)| == Bytes(l, h)
  {
    hide Join, Scatter, Head, FirstMetadata;
    var h := Head(l, start, |es|);
    EncodeStart(l, meta, es, start);
    assert es == es[..h] + es[h..];
    ScatterConcat(l, meta, es[..h], es[h..], start);
  }

  // ----- the joint check -----

  /** Compares the node versions of all objects. */
  method SameNodeVersions(shape: Shape, d: seq<Byte>) returns (ok: bool)
    requires Positive(shape) && Total(shape) == |d|
    ensures ok <==> forall j :: 0 <= j < |d| ==> NodeVersion(d[StartIn(shape, j)]) == NodeVersion(d[0])
  {
    hide StartIn, Total, NodeVersion;
    TotalFront(shape);
    var pos := 0;
    for i := 0 to |shape|
      invariant pos == Total(shape[..i]) <= |d|
      invariant forall j :: 0 <= j < pos ==> NodeVersion(d[StartIn(shape, j)]) == NodeVersion(d[0])
    {
      ObjectAt(shape, i);
      if NodeVersion(d[pos]) != NodeVersion(d[0]) {
        assert StartIn(shape, pos) == pos;
        return false;
      }
      pos := pos + shape[i];
    }
    assert shape[..|shape|] == shape;
    ok := true;
  }

  lemma TotalFront(shape: Shape)
    ensures Total(shape[..0]) == 0
  {
  }

  lemma ObjectAt(shape: Shape, i: nat)
    requires Positive(shape) && i < |shape|
    ensures var pos := Total(shape[..i]);
            && Total(shape[..i + 1]) == pos + shape[i] <= Total(shape)
            && forall j :: pos <= j < pos + shape[i] ==> StartIn(shape, j) == pos
  {
    var x, y := shape[..i], shape[i..];
    assert shape == x + y && shape[..i + 1] == x + [shape[i]];
    TotalConcat(x, y);
    TotalConcat(x, [shape[i]]);
    assert Total([shape[i]]) == shape[i];
    forall j | Total(x) <= j < Total(x) + shape[i] ensures StartIn(shape, j) == Total(x) {
      StartInConcat(x, y, j);
    }
  }

  // ----- the node version of a whole write -----

  /** The version byte with another node version. */
  function WithNode(b: Byte, v: nat): (w: Byte)
    requires v < 16
    ensures NodeVersion(w) == v && EntryVersion(w) == EntryVersion(b)
  {
    b - b % 16 + v
  }

  function NodeBumped(v: nat): (w: nat)
    requires v < 16
    ensures w < 16 && w != v
  {
    if v == 15 then 0 else v + 1
  }

  /** Gives all objects the next node version, counted in four bits, and changes nothing else: a
      write of the whole leaf always differs from what was there in its node version. */
  method BumpNodeVersions(shape: Shape, d: array<Byte>)
    requires Positive(shape) && Total(shape) == d.Length && 0 < d.Length
    modifies d
    ensures AllNode(shape, d[..], NodeBumped(NodeVersion(old(d[0]))))
    ensures forall j :: 0 <= j < d.Length ==>
      d[j] == if StartIn(shape, j) == j then WithNode(old(d[j]), NodeBumped(NodeVersion(old(d[0])))) else old(d[j])
  {
    hide StartIn, Total, NodeBumped, WithNode;
    var v := NodeBumped(NodeVersion(d[0]));
    TotalFront(shape);
    var pos := 0;
    for i := 0 to |shape|
      invariant pos == Total(shape[..i]) <= d.Length
      invariant forall j :: 0 <= j < pos ==> d[j] == if StartIn(shape, j) == j then WithNode(old(d[j]), v) else old(d[j])
      invariant forall j :: pos <= j < d.Length ==> d[j] == old(d[j])
    {
      ObjectAt(shape, i);
      d[pos] := WithNode(d[pos], v);
      pos := pos + shape[i];
    }
    assert shape[..|shape|] == shape;
    forall j | 0 <= j < d.Length ensures NodeVersion(d[..][StartIn(shape, j)]) == v {
      StartIsStart(shape, j);
    }
  }

  lemma {:induction false} StartIsStart(shape: Shape, j: nat)
    requires Positive(shape) && j < Total(shape)
    ensures StartIn(shape, StartIn(shape, j)) == StartIn(shape, j)
  {
    if j >= shape[0] {
      StartIsStart(shape[1..], j - shape[0]);
    }
  }
}
