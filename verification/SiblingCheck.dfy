/** CHIME's leaves carry no fence keys. A reader that comes from a cached parent, however old,
    compares only the leaf's sibling pointer with the one that the parent implies. The ranges
    `lo`/`hi` of a leaf below are what the algorithm implies, not fields of the stored leaf. */
module SiblingCheck {
  import opened BLinkPage

  const KEY_MIN: Key := 1
  const KEY_MAX: Key := 0xFFFF_FFFF_FFFF_FFFF
  const NULL_KEY: Key := 0
  const NULL_ADDR: Addr := 0
  const WIDEST: Addr := 0xFFFF_FFFF_FFFF_FFFF

  /** How many records a node holds; any number from 3 on will do. */
  type Span = n: nat | 3 <= n witness 3
  const INTERNAL_SPAN: Span

  datatype Leaf = Leaf(lo: Key, hi: Key, sibling: Addr, data: Store) {
    predicate Covers(k: Key) {
      lo <= k < hi
    }
  }

  /** An internal node of level 1; `sibLeftmost` repeats the leftmost pointer of its right neighbour. */
  datatype Node = Node(lo: Key, hi: Key, leftmost: Addr, recs: seq<Sep>, sibLeftmost: Addr) {
    predicate Covers(k: Key) {
      lo <= k < hi
    }
  }

  /** The root leaf is tagged in its sibling pointer. */
  function Plain(a: Addr): Addr {
    if a == WIDEST then NULL_ADDR else a
  }

  type Leaves = map<Addr, Leaf>

  /** `pending` are the separators of new leaves that are not yet in any node; `snaps` are all node
      images that were ever read, and may sit in a cache. */
  datatype State = State(leaves: Leaves, nodes: map<Addr, Node>, pending: map<Key, Addr>, snaps: set<Node>)

  // ----- routing over a node image -----

  datatype Target = Target(leaf: Addr, sibling: Addr)

  function CacheRoute(n: Node, k: Key): Target {
    var i := Above(n.recs, k, 0);
    Target(if i == 0 then n.leftmost else n.recs[i - 1].ptr, if i < |n.recs| then n.recs[i].ptr else n.sibLeftmost)
  }

  /** The range of keys that the image sends the same way as `k`. */
  function RouteLow(n: Node, k: Key): Key {
    var i := Above(n.recs, k, 0);
    if i == 0 then n.lo else n.recs[i - 1].key
  }

  function RouteHigh(n: Node, k: Key): Key {
    var i := Above(n.recs, k, 0);
    if i < |n.recs| then n.recs[i].key else n.hi
  }

  /** The records of a node, with null keys after the last one. */
  ghost predicate Padded(recs: seq<Sep>, records: seq<Sep>) {
    && 1 <= |recs| <= |records|
    && records[..|recs|] == recs
    && (forall i :: 0 <= i < |recs| ==> recs[i].key != NULL_KEY)
    && forall i :: |recs| <= i < |records| ==> records[i].key == NULL_KEY
  }

  method SearchFromCache(ghost n: Node, leftmost: Addr, sibLeftmost: Addr, records: array<Sep>, k: Key) returns (r: Target)
    requires n.leftmost == leftmost && n.sibLeftmost == sibLeftmost && Padded(n.recs, records[..])
    ensures r == CacheRoute(n, k)
  {
    ghost var recs := n.recs;
    assert forall i :: 0 <= i < |recs| ==> records[..][i] == recs[i];
    if k < records[0].key {
      return Target(leftmost, records[0].ptr);
    }
    assert Above(recs, k, 0) == Above(recs, k, 1);
    for i := 1 to records.Length
      invariant i <= |recs| && Above(recs, k, 0) == Above(recs, k, i)
    {
      if k < records[i].key || records[i].key == NULL_KEY {
        return Target(records[i - 1].ptr, if records[i].key == NULL_KEY then sibLeftmost else records[i].ptr);
      }
    }
    r := Target(records[records.Length - 1].ptr, sibLeftmost);
  }

  // ----- well-formedness -----

  ghost predicate StartsAt(leaves: Leaves, a: Addr, k: Key) {
    a in leaves && leaves[a].lo == k
  }

  /** `a` is what follows a range that ends at `hi`. */
  ghost predicate Follows(leaves: Leaves, a: Addr, hi: Key) {
    if hi == KEY_MAX then a == NULL_ADDR else StartsAt(leaves, a, hi)
  }

  /** Every leaf holds the key just below its upper bound: a split leaves the largest key on the
      left, and the very last leaf holds a ghost key that is put there when the tree is created. */
  ghost predicate LeafOk(leaves: Leaves, l: Leaf) {
    && KEY_MIN <= l.lo < l.hi <= KEY_MAX
    && Follows(leaves, Plain(l.sibling), l.hi)
    && (forall k :: k in l.data ==> l.Covers(k))
    && l.hi - 1 in l.data
  }

  ghost predicate RecOk(leaves: Leaves, n: Node, s: Sep) {
    n.lo < s.key < n.hi && StartsAt(leaves, s.ptr, s.key)
  }

  ghost predicate NodeOk(leaves: Leaves, n: Node) {
    && n.lo < n.hi <= KEY_MAX
    && StartsAt(leaves, n.leftmost, n.lo)
    && Follows(leaves, n.sibLeftmost, n.hi)
    && 1 <= |n.recs| <= INTERNAL_SPAN
    && Sorted(n.recs)
    && forall s :: s in n.recs ==> RecOk(leaves, n, s)
  }

  ghost predicate Apart(p: Leaf, q: Leaf) {
    p.hi <= q.lo || q.hi <= p.lo
  }

  ghost predicate LeavesOk(leaves: Leaves) {
    && NULL_ADDR !in leaves && WIDEST !in leaves
    && (forall a :: a in leaves ==> LeafOk(leaves, leaves[a]))
    && forall a, b :: a in leaves && b in leaves && a != b ==> Apart(leaves[a], leaves[b])
  }

  ghost predicate Marked(n: Node, k: Key) {
    n.lo == k || exists s :: s in n.recs && s.key == k
  }

  ghost predicate PendingOk(leaves: Leaves, nodes: map<Addr, Node>, k: Key, a: Addr) {
    && KEY_MIN < k
    && StartsAt(leaves, a, k)
    && forall b :: b in nodes ==> !Marked(nodes[b], k)
  }

  ghost predicate Inv(s: State) {
    && LeavesOk(s.leaves)
    && (forall b :: b in s.nodes ==> NodeOk(s.leaves, s.nodes[b]))
    && (forall n :: n in s.snaps ==> NodeOk(s.leaves, n))
    && forall k :: k in s.pending ==> PendingOk(s.leaves, s.nodes, k, s.pending[k])
  }

  // ----- the check -----

  /** The image sends `k` to a leaf that begins where the image says. */
  lemma RouteStarts(leaves: Leaves, n: Node, k: Key)
    requires NodeOk(leaves, n) && n.Covers(k)
    ensures var r := CacheRoute(n, k);
            && StartsAt(leaves, r.leaf, RouteLow(n, k))
            && Follows(leaves, r.sibling, RouteHigh(n, k))
            && n.lo <= RouteLow(n, k) <= k < RouteHigh(n, k) <= n.hi
  {
    var i := Above(n.recs, k, 0);
    assert i > 0 ==> RecOk(leaves, n, n.recs[i - 1]) by {
      assert i > 0 ==> n.recs[i - 1] in n.recs;
    }
    assert i < |n.recs| ==> RecOk(leaves, n, n.recs[i]) by {
      assert i < |n.recs| ==> n.recs[i] in n.recs;
    }
  }

  lemma StartUnique(leaves: Leaves, a: Addr, b: Addr, k: Key)
    requires LeavesOk(leaves) && StartsAt(leaves, a, k) && StartsAt(leaves, b, k)
    ensures a == b
  {
    assert LeafOk(leaves, leaves[a]) && LeafOk(leaves, leaves[b]);
  }

  /** For a node image of any age: the sibling pointers agree exactly when the leaf still has the
      range that the image gives it. So whenever the check passes, the leaf covers the key. */
  lemma SiblingCheckExact(s: State, n: Node, k: Key)
    requires Inv(s) && n in s.snaps && n.Covers(k)
    ensures var r := CacheRoute(n, k);
            && r.leaf in s.leaves
            && var l := s.leaves[r.leaf];
               && (Plain(l.sibling) == r.sibling <==> l.lo == RouteLow(n, k) && l.hi == RouteHigh(n, k))
               && (Plain(l.sibling) == r.sibling ==> l.Covers(k))
  {
    var r := CacheRoute(n, k);
    RouteStarts(s.leaves, n, k);
    var l := s.leaves[r.leaf];
    hide RouteLow, RouteHigh, CacheRoute, NodeOk;
    assert LeafOk(s.leaves, l);
    if l.hi == RouteHigh(n, k) && l.hi != KEY_MAX {
      StartUnique(s.leaves, Plain(l.sibling), r.sibling, l.hi);
    }
  }

  /** A leaf never reaches beyond the range that an image gives it. */
  lemma RouteHighBounds(s: State, n: Node, k: Key)
    requires Inv(s) && n in s.snaps && n.Covers(k)
    ensures var r := CacheRoute(n, k); r.leaf in s.leaves && s.leaves[r.leaf].hi <= RouteHigh(n, k)
  {
    var r := CacheRoute(n, k);
    RouteStarts(s.leaves, n, k);
    hide RouteLow, RouteHigh, CacheRoute, NodeOk;
    assert LeafOk(s.leaves, s.leaves[r.leaf]);
    if RouteHigh(n, k) != KEY_MAX {
      assert r.sibling != r.leaf ==> Apart(s.leaves[r.leaf], s.leaves[r.sibling]);
    }
  }

  // ----- search and insertion over the leaf chain -----

  ghost predicate Holds(leaves: Leaves, k: Key, v: Value) {
    exists a :: a in leaves && k in leaves[a].data && leaves[a].data[k] == v
  }

  ghost predicate Absent(leaves: Leaves, k: Key) {
    forall a :: a in leaves ==> k !in leaves[a].data
  }

  /** No leaf that starts before `a` holds `k`. */
  ghost predicate NotPassed(leaves: Leaves, a: Addr, k: Key) {
    a in leaves && forall b :: b in leaves && k in leaves[b].data ==> leaves[a].lo <= leaves[b].lo
  }

  lemma StepRight(leaves: Leaves, a: Addr, k: Key, end: Key, stop: Addr)
    requires LeavesOk(leaves) && NotPassed(leaves, a, k) && k !in leaves[a].data
    requires leaves[a].hi <= end <= KEY_MAX && Follows(leaves, stop, end) && Plain(leaves[a].sibling) != stop
    ensures var b := Plain(leaves[a].sibling);
            NotPassed(leaves, b, k) && leaves[a].lo < leaves[b].lo && leaves[b].hi <= end
  {
    var b := Plain(leaves[a].sibling);
    assert LeafOk(leaves, leaves[a]);
    if leaves[a].hi == end && end != KEY_MAX {
      StartUnique(leaves, b, stop, end);
      assert false;
    }
    assert LeafOk(leaves, leaves[b]);
    forall c | c in leaves && k in leaves[c].data ensures leaves[b].lo <= leaves[c].lo {
      assert LeafOk(leaves, leaves[c]);
      assert Apart(leaves[a], leaves[c]);
    }
    if end != KEY_MAX {
      assert LeafOk(leaves, leaves[stop]);
      assert b != stop ==> Apart(leaves[b], leaves[stop]);
    }
  }

  /** The search of a leaf chain: from the leaf that a node image gives, to the right until the
      sibling pointer is the one that the image implies. It ends, never follows a null pointer, and
      finds the key exactly if some leaf of the tree holds it. */
  method SearchChain(s: State, n: Node, k: Key) returns (v: Value)
    requires Inv(s) && n in s.snaps && n.Covers(k)
    ensures Holds(s.leaves, k, v) || (Absent(s.leaves, k) && v == NULL_VALUE)
  {
    ghost var end := RouteHigh(n, k);
    var r := CacheRoute(n, k);
    RouteStarts(s.leaves, n, k);
    RouteHighBounds(s, n, k);
    StartNotPassed(s.leaves, r.leaf, k);
    hide RouteLow, RouteHigh, CacheRoute, NodeOk, LeafOk;
    var a := r.leaf;
    while true
      invariant NotPassed(s.leaves, a, k) && s.leaves[a].hi <= end
      decreases KEY_MAX - s.leaves[a].lo
    {
      var l := s.leaves[a];
      if k in l.data {
        return l.data[k];
      }
      if Plain(l.sibling) == r.sibling {
        EndReached(s.leaves, a, k, end, r.sibling);
        return NULL_VALUE;
      }
      StepRight(s.leaves, a, k, end, r.sibling);
      LeafBelowMax(s.leaves, Plain(l.sibling));
      a := Plain(l.sibling);
    }
  }

  lemma LeafBelowMax(leaves: Leaves, a: Addr)
    requires LeavesOk(leaves) && a in leaves
    ensures leaves[a].lo < KEY_MAX
  {
    assert LeafOk(leaves, leaves[a]);
  }

  lemma StartNotPassed(leaves: Leaves, a: Addr, k: Key)
    requires LeavesOk(leaves) && a in leaves && leaves[a].lo <= k
    ensures NotPassed(leaves, a, k)
  {
    forall b | b in leaves && k in leaves[b].data ensures leaves[a].lo <= leaves[b].lo {
      assert LeafOk(leaves, leaves[b]) && LeafOk(leaves, leaves[a]);
      assert a != b ==> Apart(leaves[a], leaves[b]);
    }
  }

  lemma EndReached(leaves: Leaves, a: Addr, k: Key, end: Key, stop: Addr)
    requires LeavesOk(leaves) && NotPassed(leaves, a, k) && k !in leaves[a].data && k < end <= KEY_MAX
    requires Follows(leaves, stop, end) && Plain(leaves[a].sibling) == stop
    ensures Absent(leaves, k)
  {
    assert LeafOk(leaves, leaves[a]);
    assert leaves[a].hi == end;
    forall b | b in leaves ensures k !in leaves[b].data {
      assert LeafOk(leaves, leaves[b]);
      assert a != b ==> Apart(leaves[a], leaves[b]);
    }
  }

  /** A writer's decision to turn right, from the largest key that the leaf holds. */
  predicate TurnsRight(l: Leaf, sibling: Addr, maxKey: Key, k: Key) {
    sibling != Plain(l.sibling) && k >= maxKey + 1
  }

  /** A leaf is reached through a node image, or by a turn to the right, which passes the null
      pointer on. Either way the writer turns right exactly if the leaf does not cover the key, and
      then there is a sibling to turn to. */
  lemma TurnRightExact(s: State, a: Addr, sibling: Addr, maxKey: Key, k: Key, n: Node)
    requires Inv(s) && a in s.leaves && s.leaves[a].lo <= k < KEY_MAX
    requires maxKey in s.leaves[a].data && forall x :: x in s.leaves[a].data ==> x <= maxKey
    requires sibling == NULL_ADDR || (n in s.snaps && n.Covers(k) && CacheRoute(n, k) == Target(a, sibling))
    ensures var l := s.leaves[a];
            && (TurnsRight(l, sibling, maxKey, k) <==> !l.Covers(k))
            && (TurnsRight(l, sibling, maxKey, k) ==>
                 Plain(l.sibling) in s.leaves && s.leaves[Plain(l.sibling)].lo <= k)
  {
    var l := s.leaves[a];
    assert LeafOk(s.leaves, l);
    assert maxKey == l.hi - 1;
    if sibling != NULL_ADDR {
      SiblingCheckExact(s, n, k);
    }
  }

  // ----- steps -----

  /** An insertion into a full node: the node is halved first, the record in the middle moves up,
      and the new record goes to its side. */
  function NodeLeft(n: Node, sep: Key, child: Addr): Node
    requires |n.recs| == INTERNAL_SPAN
  {
    var h := |n.recs| / 2;
    var recs := n.recs[..h];
    Node(n.lo, n.recs[h].key, n.leftmost, if sep < n.recs[h].key then InsertSep(recs, sep, child) else recs, n.recs[h].ptr)
  }

  function NodeRight(n: Node, sep: Key, child: Addr): Node
    requires |n.recs| == INTERNAL_SPAN
  {
    var h := |n.recs| / 2;
    var recs := n.recs[h + 1..];
    Node(n.recs[h].key, n.hi, n.recs[h].ptr, if sep < n.recs[h].key then recs else InsertSep(recs, sep, child), n.sibLeftmost)
  }

  datatype Action =
    | PutKey(leaf: Addr, k: Key, v: Value)
      // The leaf takes `k` and splits; `bound` is the largest key on the left plus one.
    | SplitLeaf(leaf: Addr, k: Key, v: Value, bound: Key, sib: Addr)
    | InsertRecord(node: Addr, sep: Key)
    | SplitNode(node: Addr, sep: Key, sib: Addr)
    | GrowRoot(leaf: Addr, sep: Key, root: Addr)
    | ReadNode(node: Addr)

  predicate Enabled(s: State, act: Action) {
    match act
    case PutKey(a, k, _) => a in s.leaves && s.leaves[a].Covers(k)
    case SplitLeaf(a, k, v, bound, sib) =>
      && a in s.leaves && s.leaves[a].Covers(k)
      && sib !in s.leaves && sib != NULL_ADDR && sib != WIDEST
      && var data := s.leaves[a].data[k := v];
         0 < bound && bound - 1 in data && exists x :: x in data && bound <= x
    case InsertRecord(b, sep) =>
      b in s.nodes && sep in s.pending && s.nodes[b].Covers(sep) && |s.nodes[b].recs| < INTERNAL_SPAN
    case SplitNode(b, sep, sib) =>
      && b in s.nodes && sep in s.pending && s.nodes[b].Covers(sep) && |s.nodes[b].recs| == INTERNAL_SPAN
      && sib !in s.nodes
    case GrowRoot(a, sep, root) =>
      s.nodes == map[] && sep in s.pending && a in s.leaves && s.leaves[a].lo == KEY_MIN
    case ReadNode(b) => b in s.nodes
  }

  function LeafLeft(l: Leaf, data: Store, bound: Key, sib: Addr): Leaf {
    Leaf(l.lo, bound, sib, Part(data, l.lo, bound))
  }

  function LeafRight(l: Leaf, data: Store, bound: Key): Leaf {
    Leaf(bound, l.hi, Plain(l.sibling), Part(data, bound, l.hi))
  }

  function Do(s: State, act: Action): State
    requires Enabled(s, act)
  {
    match act
    case PutKey(a, k, v) =>
      s.(leaves := WithKey(s.leaves, a, k, v))
    case SplitLeaf(a, k, v, bound, sib) =>
      s.(leaves := WithSplit(s.leaves, a, s.leaves[a].data[k := v], bound, sib),
         pending := s.pending[bound := sib])
    case InsertRecord(b, sep) =>
      var n := s.nodes[b];
      s.(nodes := s.nodes[b := n.(recs := InsertSep(n.recs, sep, s.pending[sep]))], pending := s.pending - {sep})
    case SplitNode(b, sep, sib) =>
      var n, child := s.nodes[b], s.pending[sep];
      s.(nodes := s.nodes[b := NodeLeft(n, sep, child)][sib := NodeRight(n, sep, child)], pending := s.pending - {sep})
    case GrowRoot(a, sep, root) =>
      s.(nodes := map[root := Node(KEY_MIN, KEY_MAX, a, [Sep(sep, s.pending[sep])], NULL_ADDR)], pending := s.pending - {sep})
    case ReadNode(b) => s.(snaps := s.snaps + {s.nodes[b]})
  }

  // ----- leaves -----

  /** Leaves stay and keep their lowest key. */
  ghost predicate Grows(p: Leaves, q: Leaves) {
    forall a :: a in p ==> a in q && q[a].lo == p[a].lo
  }

  lemma GrownNodeOk(p: Leaves, q: Leaves, n: Node)
    requires Grows(p, q) && NodeOk(p, n)
    ensures NodeOk(q, n)
  {
    forall s | s in n.recs ensures RecOk(q, n, s) {
      assert RecOk(p, n, s);
    }
  }

  lemma GrownLeafOk(p: Leaves, q: Leaves, l: Leaf)
    requires Grows(p, q) && LeafOk(p, l)
    ensures LeafOk(q, l)
  {
  }

  function WithKey(leaves: Leaves, a: Addr, k: Key, v: Value): Leaves
    requires a in leaves
  {
    leaves[a := leaves[a].(data := leaves[a].data[k := v])]
  }

  lemma PutLeafOk(leaves: Leaves, l: Leaf, k: Key, v: Value)
    requires LeafOk(leaves, l) && l.Covers(k)
    ensures LeafOk(leaves, l.(data := l.data[k := v]))
  {
  }

  lemma PutLeavesOk(leaves: Leaves, a: Addr, k: Key, v: Value)
    requires LeavesOk(leaves) && a in leaves && leaves[a].Covers(k)
    ensures LeavesOk(WithKey(leaves, a, k, v)) && Grows(leaves, WithKey(leaves, a, k, v))
  {
    hide LeafOk;
    var q := WithKey(leaves, a, k, v);
    PutLeafOk(leaves, leaves[a], k, v);
    forall b | b in q ensures LeafOk(q, q[b]) {
      GrownLeafOk(leaves, q, q[b]);
    }
    forall b, c | b in q && c in q && b != c ensures Apart(q[b], q[c]) {
      assert Apart(leaves[b], leaves[c]);
    }
  }

  ghost predicate SplitOk(l: Leaf, data: Store, bound: Key) {
    KEY_MIN <= l.lo < bound < l.hi && bound - 1 in data && l.hi - 1 in data
  }

  /** The re-derived separator lies strictly inside the leaf, and both halves hold the key just
      below their bound. */
  lemma BoundInside(leaves: Leaves, l: Leaf, k: Key, v: Value, bound: Key)
    requires LeafOk(leaves, l) && l.Covers(k)
    requires var data := l.data[k := v]; 0 < bound && bound - 1 in data && exists x :: x in data && bound <= x
    ensures SplitOk(l, l.data[k := v], bound)
  {
    var x :| x in l.data[k := v] && bound <= x;
    assert l.Covers(x) && l.Covers(bound - 1);
  }

  function WithSplit(leaves: Leaves, a: Addr, data: Store, bound: Key, sib: Addr): Leaves
    requires a in leaves
  {
    leaves[a := LeafLeft(leaves[a], data, bound, sib)][sib := LeafRight(leaves[a], data, bound)]
  }

  lemma SplitPartsOk(leaves: Leaves, l: Leaf, q: Leaves, data: Store, bound: Key, sib: Addr)
    requires LeafOk(leaves, l) && SplitOk(l, data, bound) && Grows(leaves, q) && StartsAt(q, sib, bound) && sib != WIDEST
    ensures LeafOk(q, LeafLeft(l, data, bound, sib)) && LeafOk(q, LeafRight(l, data, bound))
  {
  }

  lemma SplitApart(leaves: Leaves, a: Addr, data: Store, bound: Key, sib: Addr)
    requires LeavesOk(leaves) && a in leaves && SplitOk(leaves[a], data, bound) && sib !in leaves
    ensures var q := WithSplit(leaves, a, data, bound, sib);
            forall b, c :: b in q && c in q && b != c ==> Apart(q[b], q[c])
  {
    hide LeafOk, Part;
    var q := WithSplit(leaves, a, data, bound, sib);
    forall b, c | b in q && c in q && b != c ensures Apart(q[b], q[c]) {
      assert b in leaves && b != a ==> Apart(leaves[b], leaves[a]);
      assert c in leaves && c != a ==> Apart(leaves[c], leaves[a]);
    }
  }

  lemma SplitLeafOk(leaves: Leaves, a: Addr, data: Store, bound: Key, sib: Addr)
    requires LeavesOk(leaves) && a in leaves && SplitOk(leaves[a], data, bound)
    requires sib !in leaves && sib != NULL_ADDR && sib != WIDEST
    ensures var q := WithSplit(leaves, a, data, bound, sib); LeavesOk(q) && Grows(leaves, q)
  {
    hide LeafOk, Apart, Part;
    var q := WithSplit(leaves, a, data, bound, sib);
    assert Grows(leaves, q) && LeafOk(leaves, leaves[a]);
    SplitPartsOk(leaves, leaves[a], q, data, bound, sib);
    SplitApart(leaves, a, data, bound, sib);
    forall b | b in q ensures LeafOk(q, q[b]) {
      if b != a && b != sib {
        GrownLeafOk(leaves, q, q[b]);
      }
    }
  }

  // ----- nodes -----

  lemma InsertRecordOk(leaves: Leaves, n: Node, sep: Key, child: Addr)
    requires NodeOk(leaves, n) && |n.recs| < INTERNAL_SPAN && n.lo < sep < n.hi && StartsAt(leaves, child, sep)
    ensures NodeOk(leaves, n.(recs := InsertSep(n.recs, sep, child)))
  {
    hide InsertSep, StartsAt, Follows;
    var q := n.(recs := InsertSep(n.recs, sep, child));
    InsertSepSorted(n.recs, sep, child);
    InsertSepMembers(n.recs, sep, child);
    InsertSepLength(n.recs, sep, child);
    hide Sorted;
    forall s | s in q.recs ensures RecOk(leaves, q, s) {
      assert s in n.recs ==> RecOk(leaves, n, s);
    }
  }

  /** A node without the new record, cut in the middle. The left half's `sibLeftmost` is the right
      half's `leftmost`. */
  lemma HalvesOk(leaves: Leaves, n: Node)
    requires NodeOk(leaves, n) && |n.recs| == INTERNAL_SPAN
    ensures var h := |n.recs| / 2;
            && NodeOk(leaves, Node(n.lo, n.recs[h].key, n.leftmost, n.recs[..h], n.recs[h].ptr))
            && NodeOk(leaves, Node(n.recs[h].key, n.hi, n.recs[h].ptr, n.recs[h + 1..], n.sibLeftmost))
  {
    hide StartsAt;
    var h := |n.recs| / 2;
    var l := Node(n.lo, n.recs[h].key, n.leftmost, n.recs[..h], n.recs[h].ptr);
    var r := Node(n.recs[h].key, n.hi, n.recs[h].ptr, n.recs[h + 1..], n.sibLeftmost);
    assert RecOk(leaves, n, n.recs[h]);
    forall s | s in l.recs ensures RecOk(leaves, l, s) {
      var i :| 0 <= i < h && n.recs[i] == s;
      assert RecOk(leaves, n, n.recs[i]);
    }
    forall s | s in r.recs ensures RecOk(leaves, r, s) {
      var i :| h < i < |n.recs| && n.recs[i] == s;
      assert RecOk(leaves, n, n.recs[i]);
    }
  }

  lemma SplitNodeOk(leaves: Leaves, n: Node, sep: Key, child: Addr)
    requires NodeOk(leaves, n) && |n.recs| == INTERNAL_SPAN && n.Covers(sep) && !Marked(n, sep) && StartsAt(leaves, child, sep)
    ensures NodeOk(leaves, NodeLeft(n, sep, child)) && NodeOk(leaves, NodeRight(n, sep, child))
    ensures var l, r := NodeLeft(n, sep, child), NodeRight(n, sep, child);
            && l.sibLeftmost == r.leftmost && r.sibLeftmost == n.sibLeftmost
            && l.lo == n.lo && l.hi == r.lo && r.hi == n.hi && n.lo < l.hi < n.hi
  {
    assert RecOk(leaves, n, n.recs[|n.recs| / 2]);
    hide NodeOk, RecOk, StartsAt;
    HalvesOk(leaves, n);
    var h := |n.recs| / 2;
    assert n.recs[h].key != sep;
    if sep < n.recs[h].key {
      InsertRecordOk(leaves, Node(n.lo, n.recs[h].key, n.leftmost, n.recs[..h], n.recs[h].ptr), sep, child);
    } else {
      InsertRecordOk(leaves, Node(n.recs[h].key, n.hi, n.recs[h].ptr, n.recs[h + 1..], n.sibLeftmost), sep, child);
    }
  }

  lemma MarkedInsert(n: Node, sep: Key, child: Addr, k: Key)
    requires Sorted(n.recs) && !Marked(n, k) && k != sep
    ensures !Marked(n.(recs := InsertSep(n.recs, sep, child)), k)
  {
    InsertSepMembers(n.recs, sep, child);
  }

  lemma MarkedSplit(leaves: Leaves, n: Node, sep: Key, child: Addr, k: Key)
    requires NodeOk(leaves, n) && |n.recs| == INTERNAL_SPAN && !Marked(n, k) && k != sep
    ensures !Marked(NodeLeft(n, sep, child), k) && !Marked(NodeRight(n, sep, child), k)
  {
    hide RecOk, InsertSep;
    var h := |n.recs| / 2;
    assert n.recs[h] in n.recs;
    InsertSepMembers(n.recs[..h], sep, child);
    InsertSepMembers(n.recs[h + 1..], sep, child);
  }

  // ----- every step, every run -----

  /** A step that changes leaves only. */
  lemma AssembleLeaves(s: State, s': State)
    requires Inv(s) && LeavesOk(s'.leaves) && Grows(s.leaves, s'.leaves) && s'.nodes == s.nodes && s'.snaps == s.snaps
    requires forall k :: k in s'.pending ==> PendingOk(s'.leaves, s'.nodes, k, s'.pending[k])
    ensures Inv(s')
  {
    hide LeavesOk, NodeOk, PendingOk, Grows;
    forall b | b in s.nodes ensures NodeOk(s'.leaves, s.nodes[b]) {
      GrownNodeOk(s.leaves, s'.leaves, s.nodes[b]);
    }
    forall n | n in s.snaps ensures NodeOk(s'.leaves, n) {
      GrownNodeOk(s.leaves, s'.leaves, n);
    }
  }

  lemma PendingGrows(p: Leaves, q: Leaves, nodes: map<Addr, Node>, k: Key, a: Addr)
    requires Grows(p, q) && PendingOk(p, nodes, k, a)
    ensures PendingOk(q, nodes, k, a)
  {
  }

  /** No node marks a key that lies strictly inside a leaf. */
  lemma InsideUnmarked(leaves: Leaves, n: Node, a: Addr, k: Key)
    requires LeavesOk(leaves) && NodeOk(leaves, n) && a in leaves && leaves[a].lo < k < leaves[a].hi
    ensures !Marked(n, k)
  {
    NoStartInside(leaves, a, k);
    assert forall s :: s in n.recs ==> RecOk(leaves, n, s);
  }

  lemma NoStartInside(leaves: Leaves, a: Addr, k: Key)
    requires LeavesOk(leaves) && a in leaves && leaves[a].lo < k < leaves[a].hi
    ensures forall b :: !StartsAt(leaves, b, k)
  {
    forall b ensures !StartsAt(leaves, b, k) {
      if b in leaves && b != a {
        assert LeafOk(leaves, leaves[b]) && Apart(leaves[a], leaves[b]);
      }
    }
  }

  lemma LeafOf(leaves: Leaves, a: Addr)
    requires LeavesOk(leaves) && a in leaves
    ensures LeafOk(leaves, leaves[a])
  {
  }

  lemma NewPending(leaves: Leaves, data: Store, a: Addr, bound: Key, sib: Addr)
    requires a in leaves
    ensures StartsAt(WithSplit(leaves, a, data, bound, sib), sib, bound)
  {
  }

  lemma SplitLeafKeepsInv(s: State, a: Addr, k: Key, v: Value, bound: Key, sib: Addr)
    requires Inv(s) && Enabled(s, SplitLeaf(a, k, v, bound, sib))
    ensures Inv(Do(s, SplitLeaf(a, k, v, bound, sib)))
  {
    hide NodeOk, LeavesOk, LeafLeft, LeafRight, Marked;
    var s' := Do(s, SplitLeaf(a, k, v, bound, sib));
    LeafOf(s.leaves, a);
    BoundInside(s.leaves, s.leaves[a], k, v, bound);
    NewPending(s.leaves, s.leaves[a].data[k := v], a, bound, sib);
    hide LeafOk, WithSplit, StartsAt, Grows;
    SplitLeafOk(s.leaves, a, s.leaves[a].data[k := v], bound, sib);
    forall x | x in s'.pending ensures PendingOk(s'.leaves, s'.nodes, x, s'.pending[x]) {
      if x == bound {
        forall b | b in s.nodes ensures !Marked(s.nodes[b], x) {
          InsideUnmarked(s.leaves, s.nodes[b], a, bound);
        }
      } else {
        PendingGrows(s.leaves, s'.leaves, s.nodes, x, s.pending[x]);
      }
    }
    AssembleLeaves(s, s');
  }

  /** A step that takes `sep` out of the pending ones and changes nodes only. */
  lemma AssembleNodes(s: State, s': State, sep: Key)
    requires Inv(s) && sep in s.pending && s'.leaves == s.leaves && s'.snaps == s.snaps && s'.pending == s.pending - {sep}
    requires forall b :: b in s'.nodes ==>
      (b in s.nodes && s'.nodes[b] == s.nodes[b]) ||
      (NodeOk(s.leaves, s'.nodes[b]) && forall k :: k in s'.pending ==> !Marked(s'.nodes[b], k))
    ensures Inv(s')
  {
    hide LeavesOk, NodeOk, Marked;
    forall k | k in s'.pending ensures PendingOk(s'.leaves, s'.nodes, k, s'.pending[k]) {
      assert PendingOk(s.leaves, s.nodes, k, s.pending[k]);
    }
  }

  /** The new record lies strictly inside the node and is not there yet. */
  lemma PendingInside(s: State, b: Addr, sep: Key)
    requires Inv(s) && b in s.nodes && sep in s.pending && s.nodes[b].Covers(sep)
    ensures NodeOk(s.leaves, s.nodes[b]) && s.nodes[b].lo < sep < s.nodes[b].hi && !Marked(s.nodes[b], sep)
    ensures StartsAt(s.leaves, s.pending[sep], sep)
  {
    hide LeavesOk;
    assert PendingOk(s.leaves, s.nodes, sep, s.pending[sep]);
  }

  lemma NodeSorted(leaves: Leaves, n: Node)
    requires NodeOk(leaves, n)
    ensures Sorted(n.recs)
  {
  }

  lemma StillPending(s: State, b: Addr, k: Key)
    requires Inv(s) && b in s.nodes && k in s.pending
    ensures !Marked(s.nodes[b], k)
  {
    hide LeavesOk, NodeOk, Marked;
    assert PendingOk(s.leaves, s.nodes, k, s.pending[k]);
  }

  lemma InsertRecordKeepsInv(s: State, b: Addr, sep: Key)
    requires Inv(s) && Enabled(s, InsertRecord(b, sep))
    ensures Inv(Do(s, InsertRecord(b, sep)))
  {
    hide Inv, NodeOk, StartsAt, Marked, InsertSep;
    var n, child, s' := s.nodes[b], s.pending[sep], Do(s, InsertRecord(b, sep));
    PendingInside(s, b, sep);
    InsertRecordOk(s.leaves, n, sep, child);
    NodeSorted(s.leaves, n);
    forall k | k in s'.pending ensures !Marked(s'.nodes[b], k) {
      StillPending(s, b, k);
      MarkedInsert(n, sep, child, k);
    }
    AssembleNodes(s, s', sep);
  }

  lemma SplitNodeKeepsInv(s: State, b: Addr, sep: Key, sib: Addr)
    requires Inv(s) && Enabled(s, SplitNode(b, sep, sib))
    ensures Inv(Do(s, SplitNode(b, sep, sib)))
  {
    hide Inv, NodeOk, StartsAt, Marked, InsertSep, NodeLeft, NodeRight;
    var n, child, s' := s.nodes[b], s.pending[sep], Do(s, SplitNode(b, sep, sib));
    PendingInside(s, b, sep);
    SplitNodeOk(s.leaves, n, sep, child);
    forall k | k in s'.pending ensures !Marked(s'.nodes[b], k) && !Marked(s'.nodes[sib], k) {
      StillPending(s, b, k);
      MarkedSplit(s.leaves, n, sep, child, k);
    }
    AssembleNodes(s, s', sep);
  }

  lemma GrowRootKeepsInv(s: State, a: Addr, sep: Key, root: Addr)
    requires Inv(s) && Enabled(s, GrowRoot(a, sep, root))
    ensures Inv(Do(s, GrowRoot(a, sep, root)))
  {
    hide LeavesOk, NodeOk, Marked;
    var s' := Do(s, GrowRoot(a, sep, root));
    assert PendingOk(s.leaves, s.nodes, sep, s.pending[sep]);
    LeafOf(s.leaves, s.pending[sep]);
    RootNodeOk(s.leaves, a, sep, s.pending[sep]);
    forall k | k in s'.pending ensures !Marked(s'.nodes[root], k) {
      assert PendingOk(s.leaves, s.nodes, k, s.pending[k]);
      RootMarks(a, sep, s.pending[sep], k);
    }
    AssembleNodes(s, s', sep);
  }

  lemma RootNodeOk(leaves: Leaves, a: Addr, sep: Key, child: Addr)
    requires StartsAt(leaves, a, KEY_MIN) && StartsAt(leaves, child, sep) && KEY_MIN < sep < KEY_MAX
    ensures NodeOk(leaves, Node(KEY_MIN, KEY_MAX, a, [Sep(sep, child)], NULL_ADDR))
  {
    var n := Node(KEY_MIN, KEY_MAX, a, [Sep(sep, child)], NULL_ADDR);
    assert RecOk(leaves, n, Sep(sep, child));
  }

  lemma RootMarks(a: Addr, sep: Key, child: Addr, k: Key)
    requires KEY_MIN < k && k != sep
    ensures !Marked(Node(KEY_MIN, KEY_MAX, a, [Sep(sep, child)], NULL_ADDR), k)
  {
  }

  lemma StepKeepsInv(s: State, act: Action)
    requires Inv(s) && Enabled(s, act)
    ensures Inv(Do(s, act))
  {
    hide LeavesOk, NodeOk, PendingOk, Grows;
    match act
    case PutKey(a, k, v) =>
      PutLeavesOk(s.leaves, a, k, v);
      var s' := Do(s, act);
      forall x | x in s'.pending ensures PendingOk(s'.leaves, s'.nodes, x, s'.pending[x]) {
        PendingGrows(s.leaves, s'.leaves, s.nodes, x, s.pending[x]);
      }
      AssembleLeaves(s, s');
    case SplitLeaf(a, k, v, bound, sib) => SplitLeafKeepsInv(s, a, k, v, bound, sib);
    case InsertRecord(b, sep) => InsertRecordKeepsInv(s, b, sep);
    case SplitNode(b, sep, sib) => SplitNodeKeepsInv(s, b, sep, sib);
    case GrowRoot(a, sep, root) => GrowRootKeepsInv(s, a, sep, root);
    case ReadNode(b) =>
  }

  /** A single leaf, tagged as the root, that holds the ghost key. */
  ghost predicate Init(s: State) {
    && s.nodes == map[] && s.pending == map[] && s.snaps == {}
    && exists a :: a in s.leaves && a != NULL_ADDR && a != WIDEST && s.leaves == map[a := Leaf(KEY_MIN, KEY_MAX, WIDEST, map[KEY_MAX - 1 := NULL_VALUE])]
  }

  ghost predicate Run(states: seq<State>, acts: seq<Action>) {
    && |states| == |acts| + 1
    && Init(states[0])
    && forall i :: 0 <= i < |acts| ==> Enabled(states[i], acts[i]) && states[i + 1] == Do(states[i], acts[i])
  }

  lemma {:induction false} RunInv(states: seq<State>, acts: seq<Action>, i: nat)
    requires Run(states, acts) && i < |states|
    ensures Inv(states[i])
  {
    if i > 0 {
      RunInv(states, acts, i - 1);
      StepKeepsInv(states[i - 1], acts[i - 1]);
      assert states[i - 1 + 1] == Do(states[i - 1], acts[i - 1]);
    }
  }

  lemma {:induction false} SnapsGrow(states: seq<State>, acts: seq<Action>, i: nat, j: nat)
    requires Run(states, acts) && i <= j < |states|
    ensures states[i].snaps <= states[j].snaps
  {
    if i < j {
      SnapsGrow(states, acts, i, j - 1);
      assert states[j - 1 + 1] == Do(states[j - 1], acts[j - 1]);
    }
  }

  /** A node image read at any earlier moment of a run, used at any later one: if the leaf's sibling
      pointer is the one that the image implies, the leaf covers the key. */
  lemma OldImageIsSafe(states: seq<State>, acts: seq<Action>, i: nat, j: nat, n: Node, k: Key)
    requires Run(states, acts) && i <= j < |states| && n in states[i].snaps && n.Covers(k)
    ensures var r := CacheRoute(n, k);
            && r.leaf in states[j].leaves
            && var l := states[j].leaves[r.leaf];
               (Plain(l.sibling) == r.sibling ==> l.Covers(k) && l.hi == RouteHigh(n, k))
  {
    RunInv(states, acts, j);
    SnapsGrow(states, acts, i, j);
    SiblingCheckExact(states[j], n, k);
  }

  // ----- a search that walks while others split -----

  lemma {:induction false} LeavesGrow(states: seq<State>, acts: seq<Action>, i: nat, j: nat)
    requires Run(states, acts) && i <= j < |states|
    ensures Grows(states[i].leaves, states[j].leaves)
  {
    hide Inv, Do, Enabled, Init;
    if i < j {
      LeavesGrow(states, acts, i, j - 1);
      RunInv(states, acts, j - 1);
      var h := j - 1;
      assert Enabled(states[h], acts[h]) && states[h + 1] == Do(states[h], acts[h]);
      StepGrows(states[h], acts[h]);
    }
  }

  lemma StepGrows(s: State, act: Action)
    requires Inv(s) && Enabled(s, act)
    ensures Grows(s.leaves, Do(s, act).leaves)
  {
    hide NodeOk, PendingOk, LeavesOk, LeafOk;
    match act
    case PutKey(a, k, v) => PutLeavesOk(s.leaves, a, k, v);
    case SplitLeaf(a, k, v, bound, sib) =>
    case InsertRecord(_, _) =>
    case SplitNode(_, _, _) =>
    case GrowRoot(_, _, _) =>
    case ReadNode(_) =>
  }

  /** The walk of a search for `k` from the node image `n`: leaf `visited[j]` is read in state
      `times[j]`, one leaf per read, with any steps of other threads in between. It goes on to the
      right as long as the key is not there and the sibling pointer is not the implied one. */
  ghost predicate Walk(states: seq<State>, n: Node, k: Key, times: seq<nat>, visited: seq<Addr>) {
    && |times| == |visited| > 0
    && (forall j :: 0 <= j < |times| ==> times[j] < |states|)
    && (forall i, j :: 0 <= i < j < |times| ==> times[i] <= times[j])
    && n in states[times[0]].snaps && n.Covers(k)
    && visited[0] == CacheRoute(n, k).leaf
    && forall j :: 0 <= j < |times| - 1 ==> GoesRight(states[times[j]], n, k, visited[j], visited[j + 1])
  }

  ghost predicate GoesRight(s: State, n: Node, k: Key, a: Addr, b: Addr) {
    && a in s.leaves && k !in s.leaves[a].data
    && Plain(s.leaves[a].sibling) != CacheRoute(n, k).sibling && b == Plain(s.leaves[a].sibling)
  }

  /** The key was in no leaf at some read of the walk. */
  ghost predicate AbsentDuring(states: seq<State>, k: Key, times: seq<nat>, upTo: nat) {
    exists j :: 0 <= j < upTo && j < |times| && times[j] < |states| && Absent(states[times[j]].leaves, k)
  }

  /** A leaf that covers the key and lacks it is proof that no leaf has it. */
  lemma CoveringLeafDecides(leaves: Leaves, a: Addr, k: Key)
    requires LeavesOk(leaves) && a in leaves && leaves[a].Covers(k) && k !in leaves[a].data
    ensures Absent(leaves, k)
  {
    forall b | b in leaves ensures k !in leaves[b].data {
      assert LeafOk(leaves, leaves[b]);
      assert a != b ==> Apart(leaves[a], leaves[b]);
    }
  }

  lemma LeafEnd(leaves: Leaves, a: Addr)
    requires LeavesOk(leaves) && a in leaves
    ensures var l := leaves[a]; l.lo < l.hi <= KEY_MAX && Follows(leaves, Plain(l.sibling), l.hi)
  {
    assert LeafOk(leaves, leaves[a]);
  }

  /** The walk never follows a null pointer, and until the key has been absent at some read it has not
      gone past the key. */
  lemma {:induction false} WalkStays(states: seq<State>, acts: seq<Action>, n: Node, k: Key, times: seq<nat>, visited: seq<Addr>, j: nat)
    requires Run(states, acts) && Walk(states, n, k, times, visited) && j < |times|
    ensures visited[j] in states[times[j]].leaves
    ensures states[times[j]].leaves[visited[j]].hi <= RouteHigh(n, k)
    ensures AbsentDuring(states, k, times, j) || states[times[j]].leaves[visited[j]].lo <= k
  {
    var s := states[times[j]];
    RunInv(states, acts, times[j]);
    SnapsGrow(states, acts, times[0], times[j]);
    RouteStarts(s.leaves, n, k);
    if j == 0 {
      RouteHighBounds(s, n, k);
    } else {
      WalkStays(states, acts, n, k, times, visited, j - 1);
      var i := j - 1;
      var before := states[times[i]];
      RunInv(states, acts, times[i]);
      LeavesGrow(states, acts, times[i], times[j]);
      SnapsGrow(states, acts, times[0], times[i]);
      RouteStarts(before.leaves, n, k);
      assert GoesRight(before, n, k, visited[i], visited[i + 1]);
      hide Run, Walk, NodeOk, LeafOk, RouteHigh, CacheRoute, RouteLow;
      WalkOnce(before.leaves, s.leaves, visited[i], visited[j], k, RouteHigh(n, k), CacheRoute(n, k).sibling);
      if before.leaves[visited[i]].lo <= k && k < before.leaves[visited[i]].hi {
        CoveringLeafDecides(before.leaves, visited[i], k);
        assert AbsentDuring(states, k, times, j);
      }
    }
  }

  /** One step to the right, with the leaf read in a later state. */
  lemma WalkOnce(p: Leaves, q: Leaves, a: Addr, b: Addr, k: Key, end: Key, stop: Addr)
    requires LeavesOk(p) && LeavesOk(q) && Grows(p, q) && a in p && p[a].hi <= end <= KEY_MAX
    requires Follows(p, stop, end) && Follows(q, stop, end) && b == Plain(p[a].sibling) && b != stop
    ensures b in q && q[b].lo == p[a].hi && q[b].hi <= end
  {
    hide LeafOk;
    LeafEnd(p, a);
    if p[a].hi == end && end != KEY_MAX {
      StartUnique(p, b, stop, end);
    }
    LeafEnd(q, b);
    if end != KEY_MAX {
      LeafEnd(q, stop);
      LeavesApart(q, b, stop);
    }
  }

  lemma LeavesApart(leaves: Leaves, a: Addr, b: Addr)
    requires LeavesOk(leaves) && a in leaves && b in leaves && a != b
    ensures Apart(leaves[a], leaves[b])
  {
  }

  /** Over every run: what a walk finds is there at that read; and if it ends without the key, the key
      was in no leaf at some moment of the walk. */
  lemma WalkIsLinearizable(states: seq<State>, acts: seq<Action>, n: Node, k: Key, times: seq<nat>, visited: seq<Addr>)
    requires Run(states, acts) && Walk(states, n, k, times, visited)
    ensures var last := |times| - 1;
            && visited[last] in states[times[last]].leaves
            && var l := states[times[last]].leaves[visited[last]];
               && (k in l.data ==> Holds(states[times[last]].leaves, k, l.data[k]))
               && (k !in l.data && Plain(l.sibling) == CacheRoute(n, k).sibling ==> AbsentDuring(states, k, times, |times|))
  {
    var last := |times| - 1;
    var s := states[times[last]];
    RunInv(states, acts, times[last]);
    WalkStays(states, acts, n, k, times, visited, last);
    SnapsGrow(states, acts, times[0], times[last]);
    RouteStarts(s.leaves, n, k);
    var l := s.leaves[visited[last]];
    if k !in l.data && Plain(l.sibling) == CacheRoute(n, k).sibling && !AbsentDuring(states, k, times, last) {
      LeafEnd(s.leaves, visited[last]);
      assert l.hi == RouteHigh(n, k);
      CoveringLeafDecides(s.leaves, visited[last], k);
    }
  }
}
