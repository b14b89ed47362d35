/** The path-compressed radix tree: lookup, and an insertion that splits a leaf or a node header
    through a chain of nodes with bounded prefixes. A header split takes two writes, the parent entry
    and then the header of the old node; the tree means the same between them. */
module Radix {
  import opened Arith

  type Byte = b: int | 0 <= b < 256
  type Value = nat

  /** A key of fixed length, with the zero byte that stands for depth 0 in front of it. */
  type Path = seq<Byte>

  /** The length of keys and the bound on the bytes in a header, any numbers. */
  const KEY_LEN: nat
  const PARTIAL_MAX: nat

  datatype Option<T> = None | Some(value: T)

  /** A node compares the bytes of `partial` from depth `depth` on and branches on the byte after
      them. */
  datatype Tree =
    | Empty
    | Leaf(key: Path, value: Value)
    | Node(depth: nat, partial: seq<Byte>, kids: map<Byte, Tree>)

  predicate IsKey(k: Path) {
    |k| == KEY_LEN + 1
  }

  predicate Fits(depth: nat, partial: seq<Byte>) {
    depth + |partial| <= KEY_LEN
  }

  predicate Matches(depth: nat, partial: seq<Byte>, k: Path)
    requires IsKey(k) && Fits(depth, partial)
  {
    k[depth..depth + |partial|] == partial
  }

  /** Every node's branching byte lies inside the key. */
  predicate Bounded(t: Tree) {
    t.Node? ==> Fits(t.depth, t.partial) && forall b :: b in t.kids ==> Bounded(t.kids[b])
  }

  function Lookup(t: Tree, k: Path): Option<Value>
    requires IsKey(k) && Bounded(t)
  {
    match t
    case Empty => None
    case Leaf(key, value) => if key == k then Some(value) else None
    case Node(depth, partial, kids) =>
      if Matches(depth, partial, k) && k[depth + |partial|] in kids then Lookup(kids[k[depth + |partial|]], k) else None
  }

  /** The descent as a loop. */
  method Search(t: Tree, k: Path) returns (r: Option<Value>)
    requires IsKey(k) && Bounded(t)
    ensures r == Lookup(t, k)
  {
    var p := t;
    while p.Node?
      invariant Bounded(p) && Lookup(p, k) == Lookup(t, k)
      decreases p
    {
      for i := 0 to |p.partial|
        invariant forall x :: 0 <= x < i ==> k[p.depth + x] == p.partial[x]
      {
        if k[p.depth + i] != p.partial[i] {
          assert k[p.depth..p.depth + |p.partial|][i] == k[p.depth + i];
          return None;
        }
      }
      assert k[p.depth..p.depth + |p.partial|] == p.partial;
      var b := k[p.depth + |p.partial|];
      if b !in p.kids {
        return None;
      }
      p := p.kids[b];
    }
    r := if p.Leaf? && p.key == k then Some(p.value) else None;
  }

  // ----- well-formedness -----

  /** The pair is stored somewhere in the tree. */
  ghost predicate Has(t: Tree, k: Path, v: Value) {
    match t
    case Empty => false
    case Leaf(key, value) => key == k && value == v
    case Node(_, _, kids) => exists b :: b in kids && Has(kids[b], k, v)
  }

  /** The bytes that lead to the children of a node which is reached by the bytes `pre`. The header
      may be out of date: then it repeats some of the bytes at the end of `pre`. */
  function Full(pre: seq<Byte>, depth: nat, partial: seq<Byte>): seq<Byte>
    requires depth <= |pre|
  {
    pre[..depth] + partial
  }

  /** All keys below begin with `pre`. */
  ghost predicate Formed(t: Tree, pre: seq<Byte>) {
    match t
    case Empty => true
    case Leaf(key, _) => IsKey(key) && pre <= key
    case Node(depth, partial, kids) =>
      && depth <= |pre|
      && |partial| <= PARTIAL_MAX
      && Fits(depth, partial)
      && pre <= Full(pre, depth, partial)
      && forall b :: b in kids ==> Formed(kids[b], Full(pre, depth, partial) + [b])
  }

  lemma {:induction false} FormedBounded(t: Tree, pre: seq<Byte>)
    requires Formed(t, pre)
    ensures Bounded(t)
  {
    if t.Node? {
      forall b | b in t.kids ensures Bounded(t.kids[b]) {
        FormedBounded(t.kids[b], Full(pre, t.depth, t.partial) + [b]);
      }
    }
  }

  lemma {:induction false} HasPrefix(t: Tree, pre: seq<Byte>, k: Path, v: Value)
    requires Formed(t, pre) && Has(t, k, v)
    ensures IsKey(k) && pre <= k
  {
    if t.Node? {
      var b :| b in t.kids && Has(t.kids[b], k, v);
      HasPrefix(t.kids[b], Full(pre, t.depth, t.partial) + [b], k, v);
    }
  }

  /** Lookup finds exactly what is stored. */
  lemma {:induction false} LookupExact(t: Tree, pre: seq<Byte>, k: Path, v: Value)
    requires Formed(t, pre) && IsKey(k)
    ensures Bounded(t)
    ensures Lookup(t, k) == Some(v) <==> Has(t, k, v)
  {
    FormedBounded(t, pre);
    if t.Node? {
      var q := Full(pre, t.depth, t.partial);
      var at := t.depth + |t.partial|;
      forall b | b in t.kids ensures Lookup(t.kids[b], k) == Some(v) <==> Has(t.kids[b], k, v) {
        LookupExact(t.kids[b], q + [b], k, v);
      }
      if Has(t, k, v) {
        var b :| b in t.kids && Has(t.kids[b], k, v);
        HasPrefix(t.kids[b], q + [b], k, v);
        assert k[at] == (q + [b])[at] == b;
        assert k[t.depth..at] == (q + [b])[t.depth..at] == t.partial;
      }
    }
  }

  // ----- insertion -----

  /** How far two keys agree from depth `d` on. */
  function CommonFrom(x: Path, y: Path, d: nat): (n: nat)
    requires IsKey(x) && IsKey(y) && d <= KEY_LEN + 1
    ensures d + n <= KEY_LEN + 1 && x[d..d + n] == y[d..d + n]
    ensures d + n <= KEY_LEN ==> x[d + n] != y[d + n]
    decreases KEY_LEN + 1 - d
  {
    if d == KEY_LEN + 1 || x[d] != y[d] then 0
    else
      var n := CommonFrom(x, y, d + 1);
      SliceFirst(x, d, d + 1 + n);
      SliceFirst(y, d, d + 1 + n);
      1 + n
  }

  lemma SliceFirst(x: seq<Byte>, d: nat, e: nat)
    requires d < e <= |x|
    ensures x[d..e] == [x[d]] + x[d + 1..e]
  {
    var l, r := x[d..e], [x[d]] + x[d + 1..e];
    forall i | 0 <= i < |l| ensures l[i] == r[i] {
    }
  }

  /** Nodes for `len` bytes of `k` from depth `d` on, as many as the prefix bound needs, the last of
      which branches to the old subtree and to the new leaf. */
  function Chain(k: Path, v: Value, d: nat, len: nat, diff: Byte, was: Tree): Tree
    requires IsKey(k) && d + len <= KEY_LEN
    decreases len
  {
    if PARTIAL_MAX < len then
      Node(d, k[d..d + PARTIAL_MAX],
           map[k[d + PARTIAL_MAX] := Chain(k, v, d + PARTIAL_MAX + 1, len - PARTIAL_MAX - 1, diff, was)])
    else
      Node(d, k[d..d + len], map[diff := was][k[d + len] := Leaf(k, v)])
  }

  /** The first byte of a header that differs from the key, or its length. */
  function Mismatch(k: Path, d: nat, partial: seq<Byte>, i: nat): (n: nat)
    requires IsKey(k) && Fits(d, partial) && i <= |partial|
    ensures i <= n <= |partial| && (n < |partial| ==> k[d + n] != partial[n])
    ensures forall x :: i <= x < n ==> k[d + x] == partial[x]
    decreases |partial| - i
  {
    if i == |partial| || k[d + i] != partial[i] then i else Mismatch(k, d, partial, i + 1)
  }

  /** Drops the bytes of the header up to and including byte `i`. */
  function SplitHeader(t: Tree, i: nat): Tree
    requires t.Node? && i < |t.partial|
  {
    Node(t.depth + i + 1, t.partial[i + 1..], t.kids)
  }

  /** The insertion into a subtree that is reached by the first `d` bytes of `k`. With `late` the
      header of a split node is still the old one: the state between the two writes. */
  function Insert(t: Tree, k: Path, v: Value, d: nat, late: bool): Tree
    requires IsKey(k) && d <= |k| && Formed(t, k[..d])
    decreases t
  {
    match t
    case Empty => Leaf(k, v)
    case Leaf(key, _) =>
      if key == k then Leaf(k, v)
      else
        var len := CommonFrom(key, k, d);
        AgreeEverywhere(key, k, d, len);
        Chain(k, v, d, len, key[d + len], t)
    case Node(depth, partial, kids) =>
      var i := Mismatch(k, depth, partial, 0);
      HeaderPlace(t, k, d, i);
      if i < |partial| then
        Chain(k, v, d, depth + i - d, partial[i], if late then t else SplitHeader(t, i))
      else
        var at := depth + |partial|;
        Node(depth, partial, kids[k[at] := if k[at] in kids then Insert(kids[k[at]], k, v, at + 1, late) else Leaf(k, v)])
  }

  lemma AgreeEverywhere(x: Path, y: Path, d: nat, n: nat)
    requires IsKey(x) && IsKey(y) && d <= d + n <= KEY_LEN + 1 && x[..d] == y[..d] && x[d..d + n] == y[d..d + n]
    ensures d + n == KEY_LEN + 1 ==> x == y
  {
    assert x[..d + n] == x[..d] + x[d..d + n] && y[..d + n] == y[..d] + y[d..d + n];
    assert x[..KEY_LEN + 1] == x && y[..KEY_LEN + 1] == y;
  }

  /** A header differs from the key only beyond the depth reached; if it does not differ, the node's
      children are reached by the bytes of the key. */
  lemma HeaderPlace(t: Tree, k: Path, d: nat, i: nat)
    requires IsKey(k) && d <= |k| && t.Node? && Formed(t, k[..d]) && i == Mismatch(k, t.depth, t.partial, 0)
    ensures d <= t.depth + i
    ensures k[..t.depth + i] == k[..t.depth] + t.partial[..i]
    ensures i == |t.partial| ==> Full(k[..d], t.depth, t.partial) == k[..t.depth + i]
    ensures i == |t.partial| && k[t.depth + i] in t.kids ==> Formed(t.kids[k[t.depth + i]], k[..t.depth + i + 1])
  {
    hide Mismatch;
    HeaderReach(t, k, d, i);
    if i == |t.partial| {
      HeaderMatched(t, k, d);
    }
  }

  lemma HeaderMatched(t: Tree, k: Path, d: nat)
    requires IsKey(k) && d <= |k| && t.Node? && Formed(t, k[..d])
    requires var at := t.depth + |t.partial|; at < |k| && k[..at] == k[..t.depth] + t.partial
    ensures var at := t.depth + |t.partial|;
            && Full(k[..d], t.depth, t.partial) == k[..at]
            && (k[at] in t.kids ==> Formed(t.kids[k[at]], k[..at + 1]))
  {
    var at := t.depth + |t.partial|;
    assert k[..d][..t.depth] == k[..t.depth];
    assert k[..at] + [k[at]] == k[..at + 1];
  }

  lemma HeaderReach(t: Tree, k: Path, d: nat, i: nat)
    requires IsKey(k) && t.Node? && t.depth <= d <= |k| && Fits(t.depth, t.partial) && i == Mismatch(k, t.depth, t.partial, 0)
    requires k[..d] <= Full(k[..d], t.depth, t.partial)
    ensures d <= t.depth + i
    ensures k[..t.depth + i] == k[..t.depth] + t.partial[..i]
  {
    hide Mismatch;
    var q := Full(k[..d], t.depth, t.partial);
    forall x | t.depth <= x < d ensures k[x] == t.partial[x - t.depth] {
      assert k[..d][x] == q[x];
    }
  }

  /** The three ways in which an insertion treats a node. */
  lemma InsertNodeIs(t: Tree, k: Path, v: Value, d: nat, late: bool) returns (i: nat, at: nat)
    requires IsKey(k) && d <= |k| && Formed(t, k[..d]) && t.Node?
    ensures Fits(t.depth, t.partial) && i == Mismatch(k, t.depth, t.partial, 0) && at == t.depth + |t.partial|
    ensures d <= t.depth + i
    ensures i < |t.partial| ==>
              Insert(t, k, v, d, late) == Chain(k, v, d, t.depth + i - d, t.partial[i], if late then t else SplitHeader(t, i))
    ensures i == |t.partial| && k[at] in t.kids ==>
              && Formed(t.kids[k[at]], k[..at + 1])
              && Insert(t, k, v, d, late) == Node(t.depth, t.partial, t.kids[k[at] := Insert(t.kids[k[at]], k, v, at + 1, late)])
    ensures i == |t.partial| && k[at] !in t.kids ==>
              Insert(t, k, v, d, late) == Node(t.depth, t.partial, t.kids[k[at] := Leaf(k, v)])
  {
    hide Formed, Chain, SplitHeader, Mismatch;
    Parts(t, k[..d]);
    i, at := Mismatch(k, t.depth, t.partial, 0), t.depth + |t.partial|;
    HeaderPlace(t, k, d, i);
  }

  lemma InsertLeafIs(t: Tree, k: Path, v: Value, d: nat, late: bool) returns (len: nat)
    requires IsKey(k) && d <= |k| && Formed(t, k[..d]) && !t.Node?
    ensures t.Empty? || t.key == k ==> Insert(t, k, v, d, late) == Leaf(k, v)
    ensures t.Leaf? && t.key != k ==>
              && IsKey(t.key) && d + len <= KEY_LEN && len == CommonFrom(t.key, k, d)
              && Insert(t, k, v, d, late) == Chain(k, v, d, len, t.key[d + len], t)
  {
    hide Chain, CommonFrom;
    len := 0;
    if t.Leaf? && t.key != k {
      len := CommonFrom(t.key, k, d);
      AgreeEverywhere(t.key, k, d, len);
    }
  }

  // ----- the chain -----

  /** The chain holds the new pair and what the old subtree holds. */
  lemma {:induction false} ChainHas(k: Path, v: Value, d: nat, len: nat, diff: Byte, was: Tree, k': Path, v': Value)
    requires IsKey(k) && d + len <= KEY_LEN && diff != k[d + len]
    ensures Has(Chain(k, v, d, len, diff, was), k', v') <==> (k' == k && v' == v) || Has(was, k', v')
    decreases len
  {
    var t := Chain(k, v, d, len, diff, was);
    if PARTIAL_MAX < len {
      ChainHas(k, v, d + PARTIAL_MAX + 1, len - PARTIAL_MAX - 1, diff, was, k', v');
      assert t.kids.Keys == {k[d + PARTIAL_MAX]};
    } else {
      assert t.kids[diff] == was && t.kids[k[d + len]] == Leaf(k, v);
    }
  }

  /** The chain is well formed wherever the old subtree was reached by the bytes that it agrees on
      and then the byte in which it differs. */
  lemma {:induction false} ChainFormed(k: Path, v: Value, d: nat, len: nat, diff: Byte, was: Tree)
    requires IsKey(k) && d + len <= KEY_LEN && diff != k[d + len]
    requires Formed(was, k[..d + len] + [diff])
    ensures Formed(Chain(k, v, d, len, diff, was), k[..d])
    decreases len
  {
    hide Formed;
    if PARTIAL_MAX < len {
      var e := d + PARTIAL_MAX;
      ChainFormed(k, v, e + 1, len - PARTIAL_MAX - 1, diff, was);
      LinkFormed(k, d, e, Chain(k, v, e + 1, len - PARTIAL_MAX - 1, diff, was));
    } else {
      LastFormed(k, v, d, len, diff, was);
    }
  }

  lemma LinkFormed(k: Path, d: nat, e: nat, rest: Tree)
    requires IsKey(k) && d <= e <= KEY_LEN && e - d <= PARTIAL_MAX && Formed(rest, k[..e + 1])
    ensures Formed(Node(d, k[d..e], map[k[e] := rest]), k[..d])
  {
    assert Full(k[..d], d, k[d..e]) == k[..e];
    assert k[..e] + [k[e]] == k[..e + 1];
  }

  lemma LastFormed(k: Path, v: Value, d: nat, len: nat, diff: Byte, was: Tree)
    requires IsKey(k) && d + len <= KEY_LEN && len <= PARTIAL_MAX && diff != k[d + len]
    requires Formed(was, k[..d + len] + [diff])
    ensures Formed(Node(d, k[d..d + len], map[diff := was][k[d + len] := Leaf(k, v)]), k[..d])
  {
    var e := d + len;
    assert Full(k[..d], d, k[d..e]) == k[..e];
    assert k[..e] + [k[e]] == k[..e + 1];
  }

  /** A node keeps its meaning when it is reached one level further down, with its header as it was
      or with the header cut. */
  lemma CutHeaderFormed(t: Tree, k: Path, d: nat, i: nat, late: bool)
    requires IsKey(k) && d <= |k| && t.Node? && Formed(t, k[..d]) && i == Mismatch(k, t.depth, t.partial, 0) < |t.partial|
    ensures Formed(if late then t else SplitHeader(t, i), k[..t.depth + i] + [t.partial[i]])
  {
    hide Formed, Mismatch;
    Parts(t, k[..d]);
    HeaderPlace(t, k, d, i);
    CutFull(t, k, d, i);
    Rerouted(t, if late then t else SplitHeader(t, i), k[..d], k[..t.depth + i] + [t.partial[i]]);
  }

  /** A node with the same children, reached so that the same bytes lead to them. */
  lemma Rerouted(t: Tree, u: Tree, pre: seq<Byte>, pre': seq<Byte>)
    requires t.Node? && u.Node? && u.kids == t.kids && Formed(t, pre)
    requires u.depth <= |pre'| && |u.partial| <= |t.partial| && Fits(u.depth, u.partial)
    requires t.depth <= |pre| && Full(pre', u.depth, u.partial) == Full(pre, t.depth, t.partial)
    requires pre' <= Full(pre', u.depth, u.partial)
    ensures Formed(u, pre')
  {
  }

  /** The bytes that lead to the children stay the same. */
  lemma CutFull(t: Tree, k: Path, d: nat, i: nat)
    requires IsKey(k) && d <= |k| && t.Node? && t.depth <= d && Fits(t.depth, t.partial) && i < |t.partial|
    requires k[..t.depth + i] == k[..t.depth] + t.partial[..i]
    ensures var pre, q := k[..t.depth + i] + [t.partial[i]], Full(k[..d], t.depth, t.partial);
            && pre <= q
            && Full(pre, t.depth, t.partial) == q
            && Full(pre, t.depth + i + 1, t.partial[i + 1..]) == q
  {
    var pre, q := k[..t.depth + i] + [t.partial[i]], Full(k[..d], t.depth, t.partial);
    assert pre[..t.depth] == k[..t.depth] == k[..d][..t.depth];
    assert t.partial == t.partial[..i] + [t.partial[i]] + t.partial[i + 1..];
    assert q == pre + t.partial[i + 1..];
  }

  lemma LeafSplitFormed(t: Tree, k: Path, v: Value, d: nat)
    requires IsKey(k) && d <= |k| && t.Leaf? && t.key != k && Formed(t, k[..d])
    ensures d + CommonFrom(t.key, k, d) <= KEY_LEN
    ensures var len := CommonFrom(t.key, k, d); Formed(Chain(k, v, d, len, t.key[d + len], t), k[..d])
  {
    var len := CommonFrom(t.key, k, d);
    AgreeEverywhere(t.key, k, d, len);
    hide CommonFrom, Chain;
    assert k[..d + len] == k[..d] + k[d..d + len];
    assert t.key[..d + len] == t.key[..d] + t.key[d..d + len];
    assert k[..d + len] + [t.key[d + len]] == t.key[..d + len + 1];
    ChainFormed(k, v, d, len, t.key[d + len], t);
  }

  lemma BranchFormed(t: Tree, k: Path, d: nat, child: Tree)
    requires IsKey(k) && d <= |k| && t.Node? && Formed(t, k[..d]) && Mismatch(k, t.depth, t.partial, 0) == |t.partial|
    requires Formed(child, k[..t.depth + |t.partial| + 1])
    ensures Formed(Node(t.depth, t.partial, t.kids[k[t.depth + |t.partial|] := child]), k[..d])
  {
    var at := t.depth + |t.partial|;
    HeaderPlace(t, k, d, |t.partial|);
    assert k[..at] + [k[at]] == k[..at + 1];
  }

  lemma LeafFormed(k: Path, v: Value, d: nat)
    requires IsKey(k) && d <= |k|
    ensures Formed(Leaf(k, v), k[..d])
  {
  }

  lemma {:induction false} InsertFormed(t: Tree, k: Path, v: Value, d: nat, late: bool)
    requires IsKey(k) && d <= |k| && Formed(t, k[..d])
    ensures Formed(Insert(t, k, v, d, late), k[..d])
  {
    hide Formed, Chain, SplitHeader, Insert, Mismatch, CommonFrom;
    LeafFormed(k, v, d);
    if !t.Node? {
      var len := InsertLeafIs(t, k, v, d, late);
      if t.Leaf? && t.key != k {
        LeafSplitFormed(t, k, v, d);
      }
    } else {
      var i, at := InsertNodeIs(t, k, v, d, late);
      if i < |t.partial| {
        CutHeaderFormed(t, k, d, i, late);
        ChainFormed(k, v, d, t.depth + i - d, t.partial[i], if late then t else SplitHeader(t, i));
      } else if k[at] in t.kids {
        InsertFormed(t.kids[k[at]], k, v, at + 1, late);
        BranchFormed(t, k, d, Insert(t.kids[k[at]], k, v, at + 1, late));
      } else {
        LeafFormed(k, v, at + 1);
        BranchFormed(t, k, d, Leaf(k, v));
      }
    }
  }

  lemma Parts(t: Tree, pre: seq<Byte>)
    requires Formed(t, pre)
    ensures t.Node? ==> Fits(t.depth, t.partial) && t.depth <= |pre|
    ensures t.Leaf? ==> IsKey(t.key) && pre <= t.key
  {
  }

  /** After the insertion the tree holds the new pair, and every other key as before. */
  lemma {:induction false} InsertHas(t: Tree, k: Path, v: Value, d: nat, late: bool, k': Path, v': Value)
    requires IsKey(k) && d <= |k| && Formed(t, k[..d])
    ensures Has(Insert(t, k, v, d, late), k', v') <==> if k' == k then v' == v else Has(t, k', v')
  {
    hide Formed, Chain, SplitHeader, Insert, Has, Mismatch, CommonFrom;
    LeafHas(k, v, k', v');
    if !t.Node? {
      var len := InsertLeafIs(t, k, v, d, late);
      if t.Empty? {
        EmptyHas(k', v');
      } else {
        LeafHas(t.key, t.value, k', v');
        if t.key != k {
          ChainHas(k, v, d, len, t.key[d + len], t, k', v');
        }
      }
    } else {
      var i, at := InsertNodeIs(t, k, v, d, late);
      if i < |t.partial| {
        ChainHas(k, v, d, t.depth + i - d, t.partial[i], if late then t else SplitHeader(t, i), k', v');
        SplitHeaderHas(t, i, k', v');
        MismatchedAbsent(t, k, d, i, v');
      } else if k[at] in t.kids {
        InsertHas(t.kids[k[at]], k, v, at + 1, late, k', v');
        BranchHas(t, k, d, Insert(t.kids[k[at]], k, v, at + 1, late), v, k', v');
      } else {
        BranchHas(t, k, d, Leaf(k, v), v, k', v');
      }
    }
  }

  lemma LeafHas(k: Path, v: Value, k': Path, v': Value)
    ensures Has(Leaf(k, v), k', v') <==> k' == k && v' == v
  {
  }

  lemma EmptyHas(k: Path, v: Value)
    ensures !Has(Empty, k, v)
  {
  }

  lemma SplitHeaderHas(t: Tree, i: nat, k: Path, v: Value)
    requires t.Node? && i < |t.partial|
    ensures Has(SplitHeader(t, i), k, v) == Has(t, k, v)
  {
  }

  /** A node whose header differs from the key does not hold it. */
  lemma MismatchedAbsent(t: Tree, k: Path, d: nat, i: nat, v: Value)
    requires IsKey(k) && d <= |k| && t.Node? && Formed(t, k[..d]) && i == Mismatch(k, t.depth, t.partial, 0) < |t.partial|
    ensures !Has(t, k, v)
  {
    var q := Full(k[..d], t.depth, t.partial);
    forall b | b in t.kids ensures !Has(t.kids[b], k, v) {
      assert (q + [b])[t.depth + i] == t.partial[i];
      if Has(t.kids[b], k, v) {
        HasPrefix(t.kids[b], q + [b], k, v);
        assert false;
      }
    }
  }

  /** Replacing the child that the key leads to. */
  lemma BranchHas(t: Tree, k: Path, d: nat, child: Tree, v: Value, k': Path, v': Value)
    requires IsKey(k) && d <= |k| && t.Node? && Formed(t, k[..d]) && Mismatch(k, t.depth, t.partial, 0) == |t.partial|
    requires var b := k[t.depth + |t.partial|];
             Has(child, k', v') <==> if k' == k then v' == v else b in t.kids && Has(t.kids[b], k', v')
    ensures var b := k[t.depth + |t.partial|];
            Has(Node(t.depth, t.partial, t.kids[b := child]), k', v') <==> if k' == k then v' == v else Has(t, k', v')
  {
    var b := k[t.depth + |t.partial|];
    var u := Node(t.depth, t.partial, t.kids[b := child]);
    assert u.kids[b] == child;
    forall c | c in t.kids && c != b ensures u.kids[c] == t.kids[c] && !(k' == k && Has(t.kids[c], k', v')) {
      var q := Full(k[..d], t.depth, t.partial) + [c];
      assert q[t.depth + |t.partial|] == c;
      if k' == k && Has(t.kids[c], k', v') {
        HasPrefix(t.kids[c], q, k', v');
        assert false;
      }
    }
  }

  /** For every key: the insertion makes `k` map to `v` and leaves every other lookup as it was, once
      it is complete and also between its two writes. */
  lemma InsertPreservesLookups(t: Tree, k: Path, v: Value, d: nat, late: bool, k': Path)
    requires IsKey(k) && IsKey(k') && d <= |k| && Formed(t, k[..d])
    ensures Bounded(t) && Bounded(Insert(t, k, v, d, late))
    ensures Lookup(Insert(t, k, v, d, late), k') == if k' == k then Some(v) else Lookup(t, k')
    ensures Formed(Insert(t, k, v, d, late), k[..d])
  {
    var u := Insert(t, k, v, d, late);
    InsertFormed(t, k, v, d, late);
    FormedBounded(t, k[..d]);
    FormedBounded(u, k[..d]);
    forall w: Value ensures Lookup(u, k') == Some(w) <==> if k' == k then w == v else Lookup(t, k') == Some(w) {
      LookupExact(u, k[..d], k', w);
      LookupExact(t, k[..d], k', w);
      InsertHas(t, k, v, d, late, k', w);
    }
    SameOption(Lookup(u, k'), if k' == k then Some(v) else Lookup(t, k'));
  }

  lemma SameOption(x: Option<Value>, y: Option<Value>)
    requires forall w: Value :: x == Some(w) <==> y == Some(w)
    ensures x == y
  {
    if x.Some? {
      assert x == Some(x.value);
    } else if y.Some? {
      assert y == Some(y.value);
    }
  }

  /** Below the root every key starts with the byte of depth 0. */
  const ROOT: seq<Byte> := [0]

  ghost predicate Rooted(pairs: seq<(Path, Value)>) {
    forall i :: 0 <= i < |pairs| ==> IsKey(pairs[i].0) && pairs[i].0[..1] == ROOT
  }

  function InsertAll(pairs: seq<(Path, Value)>): (t: Tree)
    requires Rooted(pairs)
    ensures Formed(t, ROOT)
  {
    if pairs == [] then Empty
    else
      var n := |pairs| - 1;
      var k, v := pairs[n].0, pairs[n].1;
      var u := InsertAll(pairs[..n]);
      InsertFormed(u, k, v, 1, false);
      Insert(u, k, v, 1, false)
  }

  function MapOf(pairs: seq<(Path, Value)>): map<Path, Value> {
    if pairs == [] then map[] else MapOf(pairs[..|pairs| - 1])[pairs[|pairs| - 1].0 := pairs[|pairs| - 1].1]
  }

  /** After any sequence of insertions the tree stores the map that they build. */
  lemma {:induction false} InsertAllIsMap(pairs: seq<(Path, Value)>, k: Path)
    requires IsKey(k) && Rooted(pairs)
    ensures Bounded(InsertAll(pairs))
    ensures Lookup(InsertAll(pairs), k) == if k in MapOf(pairs) then Some(MapOf(pairs)[k]) else None
  {
    FormedBounded(InsertAll(pairs), ROOT);
    if pairs != [] {
      var n := |pairs| - 1;
      InsertAllIsMap(pairs[..n], k);
      InsertPreservesLookups(InsertAll(pairs[..n]), pairs[n].0, pairs[n].1, 1, false, k);
    }
  }

  // ----- building the chain -----

  /** A node of the chain with its single branch. */
  datatype Link = Link(depth: nat, partial: seq<Byte>, branch: Byte)

  function Linked(links: seq<Link>, last: Tree): Tree {
    if links == [] then last
    else Node(links[0].depth, links[0].partial, map[links[0].branch := Linked(links[1..], last)])
  }

  lemma {:induction false} LinkedConcat(links: seq<Link>, l: Link, last: Tree)
    ensures Linked(links + [l], last) == Linked(links, Node(l.depth, l.partial, map[l.branch := last]))
  {
    if links != [] {
      assert (links + [l])[1..] == links[1..] + [l];
      LinkedConcat(links[1..], l, last);
    }
  }

  /** The number of nodes is computed first, then they are filled one by one. */
  method WriteChain(k: Path, v: Value, depth: nat, len: nat, diff: Byte, was: Tree) returns (t: Tree)
    requires IsKey(k) && depth + len <= KEY_LEN
    ensures t == Chain(k, v, depth, len, diff, was)
  {
    hide Chain, Linked;
    var step := PARTIAL_MAX + 1;
    var num := len / step + 1;
    var links: seq<Link> := [];
    var d, left := depth, len;
    LinkedNone(Chain(k, v, depth, len, diff, was));
    for i := 0 to num - 1
      invariant 0 <= left && d + left == depth + len && left == len - i * step
      invariant Chain(k, v, depth, len, diff, was) == Linked(links, Chain(k, v, d, left, diff, was))
    {
      NextMultiple(i, step);
      DivBelow(len, step, i + 1);
      ChainStep(k, v, d, left, diff, was);
      var link := Link(d, k[d..d + PARTIAL_MAX], k[d + PARTIAL_MAX]);
      LinkedConcat(links, link, Chain(k, v, d + step, left - step, diff, was));
      links := links + [link];
      d, left := d + step, left - step;
    }
    assert left == len % step;
    ChainStep(k, v, d, left, diff, was);
    t := Linked(links, Node(d, k[d..d + left], map[diff := was][k[d + left] := Leaf(k, v)]));
  }

  /** The nodes that the bytes of `k` lead through. */
  function Passed(t: Tree, k: Path): nat
    requires IsKey(k)
  {
    if t.Node? && t.depth + |t.partial| < |k| && k[t.depth + |t.partial|] in t.kids
    then 1 + Passed(t.kids[k[t.depth + |t.partial|]], k) else 0
  }

  /** Every node of a chain takes as many bytes as it can: so many nodes for `len` bytes, each of which
      takes a bounded prefix and the byte that it branches on. */
  lemma {:induction false} ChainIsShort(k: Path, v: Value, d: nat, len: nat, diff: Byte, was: Tree)
    requires IsKey(k) && d + len <= KEY_LEN
    ensures Passed(Chain(k, v, d, len, diff, was), k) == len / (PARTIAL_MAX + 1) + 1
    decreases len
  {
    hide Chain;
    ChainStep(k, v, d, len, diff, was);
    var step := PARTIAL_MAX + 1;
    if PARTIAL_MAX < len {
      ChainIsShort(k, v, d + step, len - step, diff, was);
      LessOne(len, step);
    } else {
      DivModIs(len, step, 0, len);
    }
  }

  lemma LessOne(x: nat, m: nat)
    requires 0 < m <= x
    ensures x / m == (x - m) / m + 1
  {
    var q := (x - m) / m;
    NextMultiple(q, m);
    DivModIs(x, m, q + 1, (x - m) % m);
  }

  lemma LinkedNone(t: Tree)
    ensures Linked([], t) == t
  {
  }

  lemma ChainStep(k: Path, v: Value, d: nat, len: nat, diff: Byte, was: Tree)
    requires IsKey(k) && d + len <= KEY_LEN
    ensures Chain(k, v, d, len, diff, was) ==
            if PARTIAL_MAX < len then
              Node(d, k[d..d + PARTIAL_MAX],
                   map[k[d + PARTIAL_MAX] := Chain(k, v, d + PARTIAL_MAX + 1, len - PARTIAL_MAX - 1, diff, was)])
            else Node(d, k[d..d + len], map[diff := was][k[d + len] := Leaf(k, v)])
  {
  }
}
