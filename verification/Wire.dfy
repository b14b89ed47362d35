/** Cache-line versions. A leaf image is a row of objects (metadata replicas and entries), each of
    which begins with its version byte. On the wire the first 64 bytes are as they are; after that
    every cache line is one version byte followed by 63 bytes of the image, and that byte repeats
    the version of the object that the line begins in. */
module Wire {

  type Byte = b: int | 0 <= b < 256

  const LINE: nat := 64
  const BLOCK: nat := 63

  // ----- where objects begin -----

  /** The sizes of consecutive objects. */
  type Shape = seq<nat>

  predicate Positive(shape: Shape) {
    forall i :: 0 <= i < |shape| ==> 0 < shape[i]
  }

  function Total(shape: Shape): nat {
    if shape == [] then 0 else shape[0] + Total(shape[1..])
  }

  /** The beginning of the object that byte `j` belongs to. */
  function StartIn(shape: Shape, j: nat): (s: nat)
    requires j < Total(shape)
    ensures s <= j
  {
    if j < shape[0] then 0 else shape[0] + StartIn(shape[1..], j - shape[0])
  }

  lemma {:induction false} TotalConcat(x: Shape, y: Shape)
    ensures Total(x + y) == Total(x) + Total(y)
  {
    if x == [] {
      assert x + y == y;
    } else {
      assert (x + y)[1..] == x[1..] + y;
      TotalConcat(x[1..], y);
    }
  }

  /** Objects begin at the same places whatever stands before or after them. */
  lemma {:induction false} StartInConcat(x: Shape, y: Shape, j: nat)
    requires j < Total(x) + Total(y)
    ensures Total(x + y) == Total(x) + Total(y)
    ensures StartIn(x + y, j) == if j < Total(x) then StartIn(x, j) else Total(x) + StartIn(y, j - Total(x))
  {
    TotalConcat(x, y);
    if x == [] {
      assert x + y == y;
    } else {
      assert (x + y)[1..] == x[1..] + y;
      if j >= x[0] {
        StartInConcat(x[1..], y, j - x[0]);
      }
    }
  }

  // ----- where bytes go -----

  /** The raw offset of the image position `x`, seen as a boundary. */
  function Raw(x: nat): nat {
    if x <= LINE then x else x + (x - LINE + BLOCK - 1) / BLOCK
  }

  predicate IsVersion(p: nat) {
    LINE <= p && p % LINE == 0
  }

  /** The image position at which cache line `p / 64` begins. */
  function BlockStart(p: nat): nat {
    BLOCK * (p / LINE) + 1
  }

  /** The image position of a raw byte that is not a version byte. */
  function DataAt(p: nat): nat {
    p - p / LINE
  }

  /** The raw position of an image byte. */
  function RawOf(j: nat): nat {
    if j < LINE then j else j + (j - LINE) / BLOCK + 1
  }

  lemma RawInside(a: nat, b: nat, p: nat)
    requires a <= b && Raw(a) <= p < Raw(b)
    ensures IsVersion(p) ==> a <= BlockStart(p) < b
    ensures !IsVersion(p) ==> a <= DataAt(p) < b && RawOf(DataAt(p)) == p
  {
  }

  lemma RawOfInside(a: nat, b: nat, j: nat)
    requires a <= j < b
    ensures Raw(a) <= RawOf(j) < Raw(b) && !IsVersion(RawOf(j)) && DataAt(RawOf(j)) == j
  {
  }

  lemma RawMono(a: nat, b: nat)
    requires a <= b
    ensures Raw(a) <= Raw(b)
  {
  }

  lemma VersionInside(a: nat, b: nat, p: nat)
    requires IsVersion(p) && a <= BlockStart(p) < b
    ensures Raw(a) <= p < Raw(b)
  {
  }

  // ----- encoding -----

  /** The raw byte at `p` for the part of an image that begins at position `a`. */
  function RawByte(a: nat, shape: Shape, d: seq<Byte>, p: nat): Byte
    requires Total(shape) == |d| && Raw(a) <= p < Raw(a + |d|)
  {
    RawInside(a, a + |d|, p);
    if IsVersion(p) then d[StartIn(shape, BlockStart(p) - a)] else d[DataAt(p) - a]
  }

  function Enc(a: nat, shape: Shape, d: seq<Byte>): (r: seq<Byte>)
    requires Total(shape) == |d|
    ensures |r| == Raw(a + |d|) - Raw(a)
  {
    RawMono(a, a + |d|);
    seq<Byte>(Raw(a + |d|) - Raw(a), q requires 0 <= q < Raw(a + |d|) - Raw(a) => RawByte(a, shape, d, Raw(a) + q))
  }

  lemma RawByteLeft(a: nat, x: Shape, y: Shape, d: seq<Byte>, e: seq<Byte>, p: nat)
    requires Total(x) == |d| && Total(y) == |e| && Total(x + y) == |d + e|
    requires Raw(a) <= p < Raw(a + |d|) <= Raw(a + |d + e|)
    ensures RawByte(a, x + y, d + e, p) == RawByte(a, x, d, p)
  {
    hide Raw, IsVersion, BlockStart, DataAt;
    RawInside(a, a + |d|, p);
    if IsVersion(p) {
      StartInConcat(x, y, BlockStart(p) - a);
    }
  }

  lemma RawByteRight(a: nat, x: Shape, y: Shape, d: seq<Byte>, e: seq<Byte>, p: nat)
    requires Total(x) == |d| && Total(y) == |e| && Total(x + y) == |d + e|
    requires Raw(a) <= Raw(a + |d|) <= p < Raw(a + |d + e|)
    ensures RawByte(a, x + y, d + e, p) == RawByte(a + |d|, y, e, p)
  {
    hide Raw, IsVersion, BlockStart, DataAt;
    RawInside(a + |d|, a + |d + e|, p);
    if IsVersion(p) {
      StartInConcat(x, y, BlockStart(p) - a);
    }
  }

  /** Encoding a part of an image on its own gives the same bytes as that part of the whole. */
  lemma EncConcat(a: nat, x: Shape, y: Shape, d: seq<Byte>, e: seq<Byte>)
    requires Total(x) == |d| && Total(y) == |e|
    ensures Total(x + y) == |d + e|
    ensures Enc(a, x + y, d + e) == Enc(a, x, d) + Enc(a + |d|, y, e)
  {
    hide Raw, RawByte;
    TotalConcat(x, y);
    var b := a + |d|;
    RawMono(a, b);
    RawMono(b, b + |e|);
    var whole, l, r := Enc(a, x + y, d + e), Enc(a, x, d), Enc(b, y, e);
    forall q | 0 <= q < |whole| ensures whole[q] == (l + r)[q] {
      var p := Raw(a) + q;
      if p < Raw(b) {
        RawByteLeft(a, x, y, d, e, p);
      } else {
        RawByteRight(a, x, y, d, e, p);
      }
    }
  }

  // ----- decoding -----

  /** The image bytes of a raw part: the version bytes are left out. */
  function Data(a: nat, n: nat, r: seq<Byte>): (d: seq<Byte>)
    requires |r| == Raw(a + n) - Raw(a)
    ensures |d| == n
  {
    seq<Byte>(n, j requires 0 <= j < n => RawOfInside(a, a + n, a + j); r[RawOf(a + j) - Raw(a)])
  }

  /** Every version byte repeats the version of the object that its line begins in. */
  ghost predicate Consistent(a: nat, shape: Shape, r: seq<Byte>)
    requires |r| == Raw(a + Total(shape)) - Raw(a)
  {
    forall p :: Raw(a) <= p < Raw(a + Total(shape)) && IsVersion(p) ==> LineOk(a, shape, r, p)
  }

  ghost predicate LineOk(a: nat, shape: Shape, r: seq<Byte>, p: nat)
    requires |r| == Raw(a + Total(shape)) - Raw(a)
    requires Raw(a) <= p < Raw(a + Total(shape)) && IsVersion(p)
  {
    RawInside(a, a + Total(shape), p);
    r[p - Raw(a)] == Data(a, Total(shape), r)[StartIn(shape, BlockStart(p) - a)]
  }

  lemma EncAt(a: nat, shape: Shape, d: seq<Byte>, p: nat)
    requires Total(shape) == |d| && Raw(a) <= p < Raw(a + |d|)
    ensures Enc(a, shape, d)[p - Raw(a)] == RawByte(a, shape, d, p)
  {
    hide Raw, RawByte;
    var q := p - Raw(a);
    assert Enc(a, shape, d)[q] == RawByte(a, shape, d, Raw(a) + q);
  }

  lemma DataIndex(a: nat, n: nat, r: seq<Byte>, j: nat)
    requires |r| == Raw(a + n) - Raw(a) && j < n
    ensures Raw(a) <= RawOf(a + j) < Raw(a + n)
    ensures Data(a, n, r)[j] == r[RawOf(a + j) - Raw(a)]
  {
    RawOfInside(a, a + n, a + j);
  }

  /** Decoding undoes encoding, and accepts. */
  lemma EncRoundTrip(a: nat, shape: Shape, d: seq<Byte>)
    requires Total(shape) == |d|
    ensures Data(a, |d|, Enc(a, shape, d)) == d && Consistent(a, shape, Enc(a, shape, d))
  {
    hide Raw, RawOf, IsVersion, DataAt, BlockStart, Data;
    var r := Enc(a, shape, d);
    forall j | 0 <= j < |d| ensures Data(a, |d|, r)[j] == d[j] {
      RawOfInside(a, a + |d|, a + j);
      DataIndex(a, |d|, r, j);
      EncAt(a, shape, d, RawOf(a + j));
    }
    assert Data(a, |d|, r) == d;
    forall p | Raw(a) <= p < Raw(a + |d|) && IsVersion(p) ensures LineOk(a, shape, r, p) {
      RawInside(a, a + |d|, p);
      EncAt(a, shape, d, p);
    }
  }

  // ----- the loops -----

  /** The first line start at or after image position `a`, as the offset computation has it. */
  function FirstOffset(a: nat, n: nat): (f: nat)
    ensures f <= n
  {
    var lines := if a < LINE then 0 else (a - LINE) / BLOCK + (if (a - LINE) % BLOCK != 0 then 1 else 0);
    var first := LINE + lines * BLOCK - a;
    if first < n then first else n
  }

  /** Line starts: the positions that a version byte comes before. */
  predicate IsBlockStart(j: nat) {
    LINE <= j && (j - LINE) % BLOCK == 0
  }

  lemma FirstOffsetIs(a: nat, n: nat)
    ensures var f := FirstOffset(a, n); (f < n ==> IsBlockStart(a + f)) && Raw(a + f) == Raw(a) + f
  {
    var lines := if a < LINE then 0 else (a - LINE) / BLOCK + (if (a - LINE) % BLOCK != 0 then 1 else 0);
    var f := FirstOffset(a, n);
    assert a + f <= LINE + lines * BLOCK;
    RawOnLine(a, lines);
    RawOnLine(a + f, lines);
  }

  /** Between two line starts the raw offset is ahead by the number of lines before. */
  lemma RawOnLine(x: nat, lines: nat)
    requires x <= LINE + lines * BLOCK && (lines == 0 || LINE + (lines - 1) * BLOCK < x)
    ensures Raw(x) == x + lines
  {
  }

  lemma FirstOffsetPlain(a: nat, n: nat, p: nat)
    requires Raw(a) <= p < Raw(a) + FirstOffset(a, n)
    ensures !IsVersion(p) && DataAt(p) == a + (p - Raw(a))
  {
    var lines := if a < LINE then 0 else (a - LINE) / BLOCK + (if (a - LINE) % BLOCK != 0 then 1 else 0);
    assert Raw(a) == a + lines;
    assert p < LINE * (lines + 1);
    assert lines == 0 || LINE * lines < p;
    assert p / LINE == lines;
  }

  /** One round of the loop covers one version byte and up to 63 bytes of the image. */
  lemma BlockIs(j: nat, e: nat)
    requires IsBlockStart(j) && j < e <= j + BLOCK
    ensures Raw(e) == Raw(j) + 1 + (e - j)
    ensures IsVersion(Raw(j)) && BlockStart(Raw(j)) == j
    ensures forall p :: Raw(j) < p < Raw(e) ==> !IsVersion(p) && DataAt(p) == j + (p - Raw(j) - 1)
  {
  }

  method EncodeVersions(a: nat, shape: Shape, d: seq<Byte>) returns (out: seq<Byte>)
    requires Total(shape) == |d|
    ensures out == Enc(a, shape, d)
  {
    hide Raw, IsVersion, DataAt, BlockStart, FirstOffset, IsBlockStart, Enc, RawByte, StartIn, Total;
    ghost var want := Enc(a, shape, d);
    var first := FirstOffset(a, |d|);
    out := d[..first];
    FirstOffsetIs(a, |d|);
    PrefixPlain(a, shape, d, first);
    var i := first;
    ghost var m := first;
    while i < |d|
      invariant first <= i && m == (if i < |d| then i else |d|) && (i < |d| ==> IsBlockStart(a + i))
      invariant Raw(a) <= Raw(a + m) <= Raw(a + |d|) && out == want[..Raw(a + m) - Raw(a)]
    {
      var len := if BLOCK < |d| - i then BLOCK else |d| - i;
      StepPlain(a, shape, d, i, len);
      out := out + [d[StartIn(shape, i)]] + d[i..i + len];
      NextBlock(a + i);
      i := i + BLOCK;
      m := m + len;
    }
  }

  lemma NextBlock(j: nat)
    requires IsBlockStart(j)
    ensures IsBlockStart(j + BLOCK)
  {
  }

  lemma PrefixPlain(a: nat, shape: Shape, d: seq<Byte>, f: nat)
    requires Total(shape) == |d| && f == FirstOffset(a, |d|)
    ensures Raw(a) <= Raw(a + f) <= Raw(a + |d|)
    ensures d[..f] == Enc(a, shape, d)[..Raw(a + f) - Raw(a)]
  {
    hide Raw, IsVersion, DataAt, BlockStart, FirstOffset, IsBlockStart;
    FirstOffsetIs(a, |d|);
    RawMono(a, a + f);
    RawMono(a + f, a + |d|);
    forall q | 0 <= q < f ensures d[q] == Enc(a, shape, d)[q] {
      FirstOffsetPlain(a, |d|, Raw(a) + q);
      EncAt(a, shape, d, Raw(a) + q);
    }
  }

  lemma StepPlain(a: nat, shape: Shape, d: seq<Byte>, i: nat, len: nat)
    requires Total(shape) == |d| && i < |d| && IsBlockStart(a + i)
    requires len == if BLOCK < |d| - i then BLOCK else |d| - i
    ensures Raw(a) <= Raw(a + i) <= Raw(a + i + len) <= Raw(a + |d|)
    ensures Enc(a, shape, d)[..Raw(a + i + len) - Raw(a)] ==
            Enc(a, shape, d)[..Raw(a + i) - Raw(a)] + [d[StartIn(shape, i)]] + d[i..i + len]
  {
    hide Raw, IsVersion, DataAt, BlockStart, IsBlockStart, Enc, RawByte;
    BlockIs(a + i, a + i + len);
    RawMono(a, a + i);
    RawMono(a + i, a + i + len);
    RawMono(a + i + len, a + |d|);
    var r := Enc(a, shape, d);
    var u := Raw(a + i) - Raw(a);
    BlockBytes(a, shape, d, i, len);
    assert r[..u + 1 + len] == r[..u] + [r[u]] + r[u + 1..u + 1 + len];
  }

  lemma BlockBytes(a: nat, shape: Shape, d: seq<Byte>, i: nat, len: nat)
    requires Total(shape) == |d| && i < i + len <= |d| && IsBlockStart(a + i) && len <= BLOCK
    ensures Raw(a) <= Raw(a + i) && Raw(a + i) + 1 + len <= Raw(a + |d|)
    ensures var r, u := Enc(a, shape, d), Raw(a + i) - Raw(a);
            r[u] == d[StartIn(shape, i)] && r[u + 1..u + 1 + len] == d[i..i + len]
  {
    hide Raw, IsVersion, DataAt, BlockStart, IsBlockStart, Enc;
    BlockIs(a + i, a + i + len);
    RawMono(a, a + i);
    RawMono(a + i + len, a + |d|);
    EncAt(a, shape, d, Raw(a + i));
    var r, u := Enc(a, shape, d), Raw(a + i) - Raw(a);
    var got, want := r[u + 1..u + 1 + len], d[i..i + len];
    forall x | 0 <= x < len ensures got[x] == want[x] {
      EncAt(a, shape, d, Raw(a + i) + 1 + x);
    }
  }

  lemma DataPrefix(a: nat, n: nat, r: seq<Byte>)
    requires |r| == Raw(a + n) - Raw(a)
    ensures FirstOffset(a, n) <= |r| && r[..FirstOffset(a, n)] == Data(a, n, r)[..FirstOffset(a, n)]
  {
    hide Raw, IsVersion, DataAt, FirstOffset, IsBlockStart, Data, RawOf;
    var f := FirstOffset(a, n);
    FirstOffsetIs(a, n);
    RawMono(a + f, a + n);
    forall q | 0 <= q < f ensures r[q] == Data(a, n, r)[q] {
      FirstOffsetPlain(a, n, Raw(a) + q);
      RawInside(a, a + n, Raw(a) + q);
      DataIndex(a, n, r, q);
    }
  }

  lemma DataBlock(a: nat, n: nat, r: seq<Byte>, j: nat, len: nat)
    requires |r| == Raw(a + n) - Raw(a) && j < j + len <= n && len <= BLOCK && IsBlockStart(a + j)
    ensures Raw(a) <= Raw(a + j) && Raw(a + j) + 1 + len <= Raw(a + n)
    ensures var u := Raw(a + j) - Raw(a); r[u + 1..u + 1 + len] == Data(a, n, r)[j..j + len]
  {
    hide Raw, IsVersion, DataAt, BlockStart, IsBlockStart, Data, RawOf;
    BlockIs(a + j, a + j + len);
    RawMono(a, a + j);
    RawMono(a + j + len, a + n);
    var u := Raw(a + j) - Raw(a);
    var got, want := r[u + 1..u + 1 + len], Data(a, n, r)[j..j + len];
    forall x | 0 <= x < len ensures got[x] == want[x] {
      RawInside(a, a + n, Raw(a + j) + 1 + x);
      DataIndex(a, n, r, j + x);
    }
  }

  /** Reads a raw part: copies its data and compares each line's version byte. */
  method DecodeVersions(a: nat, shape: Shape, r: seq<Byte>) returns (ok: bool, out: seq<Byte>)
    requires |r| == Raw(a + Total(shape)) - Raw(a)
    ensures ok <==> Consistent(a, shape, r)
    ensures ok ==> out == Data(a, Total(shape), r)
  {
    hide Raw, IsVersion, DataAt, BlockStart, FirstOffset, IsBlockStart, Data, RawOf, LineOk, StartIn, Total;
    var n := Total(shape);
    ghost var d := Data(a, n, r);
    var first := FirstOffset(a, n);
    DataPrefix(a, n, r);
    FirstOffsetIs(a, n);
    RawMono(a + first, a + n);
    out := r[..first];
    var i, j := first, first;
    forall p | Raw(a) <= p < Raw(a + first) ensures !IsVersion(p) {
      FirstOffsetPlain(a, n, p);
    }
    ghost var m := first;
    while j < n
      invariant first <= j && m == (if j < n then j else n)
      invariant j < n ==> IsBlockStart(a + j) && i == Raw(a + j) - Raw(a)
      invariant out == d[..m] && Raw(a + m) <= Raw(a + n)
      invariant forall p :: Raw(a) <= p < Raw(a + m) && IsVersion(p) ==> LineOk(a, shape, r, p)
    {
      var len := if BLOCK < n - j then BLOCK else n - j;
      DataBlock(a, n, r, j, len);
      LineChecked(a, shape, r, j, len);
      var version := r[i];
      Extend(d, j, len);
      out := out + r[i + 1..i + 1 + len];
      assert out == d[..j + len];
      if out[StartIn(shape, j)] != version {
        assert !LineOk(a, shape, r, Raw(a + j));
        return false, out;
      }
      NextBlock(a + j);
      BlockIs(a + j, a + j + len);
      i, j := i + 1 + BLOCK, j + BLOCK;
      m := m + len;
    }
    ok := true;
  }

  lemma Extend(d: seq<Byte>, j: nat, len: nat)
    requires j + len <= |d|
    ensures d[..j] + d[j..j + len] == d[..j + len]
  {
  }

  /** A round of the loop checks the one version byte of its line. */
  lemma LineChecked(a: nat, shape: Shape, r: seq<Byte>, j: nat, len: nat)
    requires |r| == Raw(a + Total(shape)) - Raw(a) && j < j + len <= Total(shape) && len <= BLOCK && IsBlockStart(a + j)
    ensures Raw(a) <= Raw(a + j) < Raw(a + j + len) <= Raw(a + Total(shape)) && IsVersion(Raw(a + j))
    ensures LineOk(a, shape, r, Raw(a + j)) <==> r[Raw(a + j) - Raw(a)] == Data(a, Total(shape), r)[StartIn(shape, j)]
    ensures forall p :: Raw(a + j) < p < Raw(a + j + len) ==> !IsVersion(p)
  {
    hide Raw, IsVersion, DataAt, BlockStart, IsBlockStart, Data, RawOf;
    BlockIs(a + j, a + j + len);
    RawMono(a, a + j);
    RawMono(a + j + len, a + Total(shape));
  }
}
