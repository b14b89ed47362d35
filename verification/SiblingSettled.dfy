/** What the pending records of CHIME's lowest internal level amount to. No leaf is ever lost: a node
    has a record for it, or its record is pending. So once nothing is pending, an image that was just
    read sends every key straight to its leaf, and the sibling check passes. */
module SiblingSettled {
  import opened BLinkPage
  import opened SiblingCheck

  /** The node marks the start of every leaf in its range, but for those whose record is pending. */
  ghost predicate Complete(leaves: Leaves, pending: map<Key, Addr>, n: Node) {
    forall a :: a in leaves && n.Covers(leaves[a].lo) ==> Marked(n, leaves[a].lo) || leaves[a].lo in pending
  }

  ghost predicate NodesApart(p: Node, q: Node) {
    p.hi <= q.lo || q.hi <= p.lo
  }

  ghost predicate Covered(nodes: map<Addr, Node>, k: Key) {
    exists b :: b in nodes && nodes[b].Covers(k)
  }

  ghost predicate InLeaf(leaves: Leaves, k: Key) {
    exists a :: a in leaves && leaves[a].Covers(k)
  }

  /** The leaves, and once there are any the nodes, divide the keys among them; before there is one, every leaf but the first is pending. */
  ghost predicate Tidy(s: State) {
    && (forall k: nat :: KEY_MIN <= k < KEY_MAX ==> InLeaf(s.leaves, k))
    && (forall b :: b in s.nodes ==> Complete(s.leaves, s.pending, s.nodes[b]))
    && (forall b, c :: b in s.nodes && c in s.nodes && b != c ==> NodesApart(s.nodes[b], s.nodes[c]))
    && (s.nodes != map[] ==> forall k: nat :: KEY_MIN <= k < KEY_MAX ==> Covered(s.nodes, k))
    && (s.nodes == map[] ==> forall a :: a in s.leaves ==> s.leaves[a].lo == KEY_MIN || s.leaves[a].lo in s.pending)
  }

  // ----- nodes -----

  /** The records of a node after one more went in, and after it was split. */
  lemma MarksInserted(n: Node, sep: Key, child: Addr, k: Key)
    requires Sorted(n.recs)
    ensures Marked(n, k) || k == sep ==> Marked(n.(recs := InsertSep(n.recs, sep, child)), k)
  {
    InsertSepMembers(n.recs, sep, child);
    if Marked(n, k) && n.lo != k && k != sep {
      var s :| s in n.recs && s.key == k;
    }
  }

  lemma MarksDivided(leaves: Leaves, n: Node, sep: Key, child: Addr, k: Key)
    requires NodeOk(leaves, n) && |n.recs| == INTERNAL_SPAN && n.Covers(sep)
    ensures Marked(n, k) || k == sep ==> Marked(NodeLeft(n, sep, child), k) || Marked(NodeRight(n, sep, child), k)
  {
    hide Sorted, NodeOk, NodeLeft, NodeRight;
    HalvesSorted(leaves, n);
    HalfMarks(n, sep, child, k);
    if Marked(n, k) && n.lo != k {
      var s :| s in n.recs && s.key == k;
      InHalf(n.recs, |n.recs| / 2, s);
    }
  }

  lemma HalfMarks(n: Node, sep: Key, child: Addr, k: Key)
    requires |n.recs| == INTERNAL_SPAN && Sorted(n.recs[..|n.recs| / 2]) && Sorted(n.recs[|n.recs| / 2 + 1..])
    ensures var h, l, r := |n.recs| / 2, NodeLeft(n, sep, child), NodeRight(n, sep, child);
            && (n.lo == k || Keyed(n.recs[..h], k) ==> Marked(l, k))
            && (n.recs[h].key == k || Keyed(n.recs[h + 1..], k) ==> Marked(r, k))
            && (k == sep ==> Marked(l, k) || Marked(r, k))
  {
    hide Sorted, InsertSep;
    var h := |n.recs| / 2;
    if sep < n.recs[h].key {
      KeyedAfter(n.recs[..h], sep, child, k);
    } else {
      KeyedAfter(n.recs[h + 1..], sep, child, k);
    }
  }

  ghost predicate Keyed(recs: seq<Sep>, k: Key) {
    exists s :: s in recs && s.key == k
  }

  lemma KeyedAfter(recs: seq<Sep>, sep: Key, child: Addr, k: Key)
    requires Sorted(recs)
    ensures Keyed(recs, k) || k == sep ==> Keyed(InsertSep(recs, sep, child), k)
  {
    hide Sorted, InsertSep;
    InsertSepMembers(recs, sep, child);
    if Keyed(recs, k) && k != sep {
      var s :| s in recs && s.key == k;
    }
  }

  lemma HalvesSorted(leaves: Leaves, n: Node)
    requires NodeOk(leaves, n) && |n.recs| == INTERNAL_SPAN
    ensures Sorted(n.recs[..|n.recs| / 2]) && Sorted(n.recs[|n.recs| / 2 + 1..])
  {
  }

  lemma InHalf(recs: seq<Sep>, h: nat, s: Sep)
    requires h < |recs| && s in recs
    ensures s in recs[..h] || s == recs[h] || s in recs[h + 1..]
  {
    assert recs == recs[..h] + [recs[h]] + recs[h + 1..];
  }

  /** A record lies where its node is; so a half marks only what it covers. */
  lemma MarkInside(leaves: Leaves, n: Node, k: Key)
    requires NodeOk(leaves, n) && Marked(n, k)
    ensures n.Covers(k)
  {
    if n.lo != k {
      var s :| s in n.recs && s.key == k;
      assert RecOk(leaves, n, s);
    }
  }

  // ----- steps -----

  lemma CompleteAfter(leaves: Leaves, pending: map<Key, Addr>, n: Node, n': Node, sep: Key)
    requires Complete(leaves, pending, n) && n'.lo == n.lo && n'.hi == n.hi
    requires forall k :: Marked(n, k) || k == sep ==> Marked(n', k)
    ensures Complete(leaves, pending - {sep}, n')
  {
    hide Marked;
  }

  /** Another node does not need the record that left the pending ones. */
  lemma CompleteBeside(leaves: Leaves, pending: map<Key, Addr>, n: Node, m: Node, sep: Key)
    requires Complete(leaves, pending, m) && NodesApart(n, m) && n.Covers(sep)
    ensures Complete(leaves, pending - {sep}, m)
  {
    hide Marked;
  }

  /** A leaf that appears has its record pending. */
  lemma CompleteGrown(p: Leaves, q: Leaves, pending: map<Key, Addr>, pending': map<Key, Addr>, n: Node)
    requires Complete(p, pending, n) && pending.Keys <= pending'.Keys
    requires forall a :: a in q ==> (a in p && q[a].lo == p[a].lo) || q[a].lo in pending'
    ensures Complete(q, pending', n)
  {
    hide Marked;
  }

  lemma InitTidy(s: State)
    requires Init(s)
    ensures Tidy(s)
  {
  }

  lemma LeavesTidy(s: State, s': State)
    requires Tidy(s) && s'.nodes == s.nodes && s.pending.Keys <= s'.pending.Keys
    requires forall a :: a in s'.leaves ==> (a in s.leaves && s'.leaves[a].lo == s.leaves[a].lo) || s'.leaves[a].lo in s'.pending
    requires forall k: nat :: InLeaf(s.leaves, k) ==> InLeaf(s'.leaves, k)
    ensures Tidy(s')
  {
    hide Complete, NodesApart, Covered, InLeaf;
    forall b | b in s'.nodes ensures Complete(s'.leaves, s'.pending, s'.nodes[b]) {
      CompleteGrown(s.leaves, s'.leaves, s.pending, s'.pending, s.nodes[b]);
    }
  }

  lemma StillInLeaf(p: Leaves, q: Leaves)
    requires forall a :: a in p ==> a in q && q[a].lo == p[a].lo && q[a].hi == p[a].hi
    ensures forall k: nat :: InLeaf(p, k) ==> InLeaf(q, k)
  {
    forall k: nat | InLeaf(p, k) ensures InLeaf(q, k) {
      var c :| c in p && p[c].Covers(k);
      assert c in q && q[c].Covers(k);
    }
  }

  lemma DividedInLeaf(p: Leaves, q: Leaves, a: Addr, sib: Addr)
    requires a in p && a in q && sib in q && forall c :: c in p && c != a ==> c in q && q[c] == p[c]
    requires q[a].lo == p[a].lo && q[a].hi == q[sib].lo && q[sib].hi == p[a].hi
    ensures forall k: nat :: InLeaf(p, k) ==> InLeaf(q, k)
  {
    forall k: nat | InLeaf(p, k) ensures InLeaf(q, k) {
      var c :| c in p && p[c].Covers(k);
      var d := if c != a then c else if k < q[a].hi then a else sib;
      assert d in q && q[d].Covers(k);
    }
  }

  lemma InsertRecordTidy(s: State, b: Addr, sep: Key)
    requires Inv(s) && Tidy(s) && Enabled(s, InsertRecord(b, sep))
    ensures Tidy(Do(s, InsertRecord(b, sep)))
  {
    hide LeavesOk, NodeOk, PendingOk, Marked, InsertSep;
    var n, s' := s.nodes[b], Do(s, InsertRecord(b, sep));
    NodeSorted(s.leaves, n);
    forall k ensures Marked(n, k) || k == sep ==> Marked(s'.nodes[b], k) {
      MarksInserted(n, sep, s.pending[sep], k);
    }
    hide Complete, Covered;
    CompleteAfter(s.leaves, s.pending, n, s'.nodes[b], sep);
    forall c | c in s.nodes && c != b ensures Complete(s.leaves, s'.pending, s'.nodes[c]) {
      CompleteBeside(s.leaves, s.pending, n, s.nodes[c], sep);
    }
    StillCovered(s.nodes, s'.nodes);
  }

  lemma StillCovered(p: map<Addr, Node>, q: map<Addr, Node>)
    requires forall b :: b in p ==> b in q && q[b].lo == p[b].lo && q[b].hi == p[b].hi
    ensures forall k :: Covered(p, k) ==> Covered(q, k)
  {
    forall k | Covered(p, k) ensures Covered(q, k) {
      var c :| c in p && p[c].Covers(k);
      assert c in q && q[c].Covers(k);
    }
  }

  /** Both halves of a node that was complete. */
  lemma HalvesComplete(leaves: Leaves, pending: map<Key, Addr>, n: Node, sep: Key, child: Addr)
    requires NodeOk(leaves, n) && |n.recs| == INTERNAL_SPAN && n.Covers(sep) && !Marked(n, sep) && StartsAt(leaves, child, sep)
    requires Complete(leaves, pending, n)
    ensures Complete(leaves, pending - {sep}, NodeLeft(n, sep, child)) && Complete(leaves, pending - {sep}, NodeRight(n, sep, child))
  {
    hide StartsAt, NodeLeft, NodeRight;
    var l, r := NodeLeft(n, sep, child), NodeRight(n, sep, child);
    SplitNodeOk(leaves, n, sep, child);
    hide NodeOk, Marked;
    forall a | a in leaves && n.Covers(leaves[a].lo) && leaves[a].lo !in pending - {sep}
      ensures if leaves[a].lo < r.lo then Marked(l, leaves[a].lo) else Marked(r, leaves[a].lo)
    {
      var k := leaves[a].lo;
      MarksDivided(leaves, n, sep, child, k);
      if Marked(l, k) {
        MarkInside(leaves, l, k);
      } else {
        MarkInside(leaves, r, k);
      }
    }
  }

  lemma SplitNodeTidy(s: State, b: Addr, sep: Key, sib: Addr)
    requires Inv(s) && Tidy(s) && Enabled(s, SplitNode(b, sep, sib))
    ensures Tidy(Do(s, SplitNode(b, sep, sib)))
  {
    hide Inv, NodeOk, StartsAt, Marked, NodeLeft, NodeRight;
    var n, child, s' := s.nodes[b], s.pending[sep], Do(s, SplitNode(b, sep, sib));
    PendingInside(s, b, sep);
    SplitNodeOk(s.leaves, n, sep, child);
    HalvesComplete(s.leaves, s.pending, n, sep, child);
    hide Complete;
    forall c | c in s.nodes && c != b ensures Complete(s.leaves, s'.pending, s.nodes[c]) {
      CompleteBeside(s.leaves, s.pending, n, s.nodes[c], sep);
    }
    DividedApart(s.nodes, s'.nodes, b, sib);
  }

  /** One node gives way to two that divide its range. */
  lemma DividedApart(p: map<Addr, Node>, q: map<Addr, Node>, b: Addr, sib: Addr)
    requires b in p && sib !in p && q.Keys == p.Keys + {sib} && forall c :: c in p && c != b ==> q[c] == p[c]
    requires q[b].lo == p[b].lo && q[b].hi == q[sib].lo && q[sib].hi == p[b].hi && q[b].lo <= q[b].hi <= q[sib].hi
    requires forall c, d :: c in p && d in p && c != d ==> NodesApart(p[c], p[d])
    requires forall k: nat :: KEY_MIN <= k < KEY_MAX ==> Covered(p, k)
    ensures forall c, d :: c in q && d in q && c != d ==> NodesApart(q[c], q[d])
    ensures forall k: nat :: KEY_MIN <= k < KEY_MAX ==> Covered(q, k)
  {
    forall c, d | c in q && d in q && c != d ensures NodesApart(q[c], q[d]) {
      assert c in p && c != b ==> NodesApart(p[c], p[b]);
      assert d in p && d != b ==> NodesApart(p[d], p[b]);
    }
    forall k: nat | KEY_MIN <= k < KEY_MAX ensures Covered(q, k) {
      assert Covered(p, k);
      var c :| c in p && p[c].Covers(k);
      var d := if c != b then c else if k < q[b].hi then b else sib;
      assert d in q && q[d].Covers(k);
    }
  }

  lemma GrowRootTidy(s: State, a: Addr, sep: Key, root: Addr)
    requires Tidy(s) && Enabled(s, GrowRoot(a, sep, root))
    ensures Tidy(Do(s, GrowRoot(a, sep, root)))
  {
    var s' := Do(s, GrowRoot(a, sep, root));
    var n := s'.nodes[root];
    assert n.recs[0] == Sep(sep, s.pending[sep]);
    assert Marked(n, KEY_MIN) && Marked(n, sep);
    hide Marked;
    assert forall k: nat :: KEY_MIN <= k < KEY_MAX ==> root in s'.nodes && s'.nodes[root].Covers(k);
  }

  lemma StepTidy(s: State, act: Action)
    requires Inv(s) && Tidy(s) && Enabled(s, act)
    ensures Tidy(Do(s, act))
  {
    hide Inv, Tidy, Part, InsertSep;
    match act
    case PutKey(a, k, v) =>
      StillInLeaf(s.leaves, Do(s, act).leaves);
      LeavesTidy(s, Do(s, act));
    case SplitLeaf(a, k, v, bound, sib) =>
      DividedInLeaf(s.leaves, Do(s, act).leaves, a, sib);
      LeavesTidy(s, Do(s, act));
    case InsertRecord(b, sep) => InsertRecordTidy(s, b, sep);
    case SplitNode(b, sep, sib) => SplitNodeTidy(s, b, sep, sib);
    case GrowRoot(a, sep, root) => GrowRootTidy(s, a, sep, root);
    case ReadNode(_) => LeavesTidy(s, Do(s, act));
  }

  /** Over all runs: no leaf is lost, and once there is a node the nodes cover every key. */
  lemma {:induction false} RunTidy(states: seq<State>, acts: seq<Action>, i: nat)
    requires Run(states, acts) && i < |states|
    ensures Tidy(states[i])
  {
    if i == 0 {
      InitTidy(states[0]);
    } else {
      var h := i - 1;
      RunTidy(states, acts, h);
      RunInv(states, acts, h);
      assert Enabled(states[h], acts[h]) && states[h + 1] == Do(states[h], acts[h]);
      hide Run, Inv, Tidy, Enabled, Do;
      StepTidy(states[h], acts[h]);
    }
  }

  // ----- what can always be done -----

  /** Every key has a leaf that can take it. */
  lemma KeyHasLeaf(s: State, k: Key, v: Value) returns (a: Addr)
    requires Tidy(s) && KEY_MIN <= k < KEY_MAX
    ensures Enabled(s, PutKey(a, k, v))
  {
    assert InLeaf(s.leaves, k);
    a :| a in s.leaves && s.leaves[a].Covers(k);
  }

  /** A pending record can always be put in place: in a node with room, in a full one by a split, or in the
      first node of all. */
  lemma PendingCanBePlaced(s: State, sep: Key, unused: Addr) returns (act: Action)
    requires Inv(s) && Tidy(s) && sep in s.pending && unused !in s.nodes
    ensures Enabled(s, act) && sep !in Do(s, act).pending && Do(s, act).pending == s.pending - {sep}
  {
    hide Inv, Complete, NodesApart, InsertSep, NodeLeft, NodeRight;
    PendingBelowMax(s, sep);
    if s.nodes == map[] {
      assert InLeaf(s.leaves, KEY_MIN);
      var a :| a in s.leaves && s.leaves[a].Covers(KEY_MIN);
      FirstStart(s, a);
      act := GrowRoot(a, sep, unused);
    } else {
      assert Covered(s.nodes, sep);
      var b :| b in s.nodes && s.nodes[b].Covers(sep);
      NodeSize(s, b);
      act := if |s.nodes[b].recs| < INTERNAL_SPAN then InsertRecord(b, sep) else SplitNode(b, sep, unused);
    }
  }

  lemma PendingBelowMax(s: State, sep: Key)
    requires Inv(s) && sep in s.pending
    ensures KEY_MIN < sep < KEY_MAX
  {
    hide NodeOk;
    assert PendingOk(s.leaves, s.nodes, sep, s.pending[sep]);
    LeafOf(s.leaves, s.pending[sep]);
  }

  lemma FirstStart(s: State, a: Addr)
    requires Inv(s) && a in s.leaves && s.leaves[a].Covers(KEY_MIN)
    ensures s.leaves[a].lo == KEY_MIN
  {
    hide NodeOk, PendingOk;
    LeafOf(s.leaves, a);
  }

  lemma NodeSize(s: State, b: Addr)
    requires Inv(s) && b in s.nodes
    ensures |s.nodes[b].recs| <= INTERNAL_SPAN
  {
    hide LeavesOk, PendingOk;
    assert NodeOk(s.leaves, s.nodes[b]);
  }

  // ----- nothing pending -----

  /** No record lies strictly between the two that a key is routed by. */
  lemma NoRecordBetween(n: Node, k: Key, x: Key)
    requires Sorted(n.recs) && RouteLow(n, k) < x < RouteHigh(n, k) && n.lo < x
    ensures !Marked(n, x)
  {
    var i := Above(n.recs, k, 0);
    forall j | 0 <= j < |n.recs| ensures n.recs[j].key != x {
      assert j < i ==> n.recs[j].key <= n.recs[i - 1].key;
      assert i <= j ==> n.recs[i].key <= n.recs[j].key;
    }
  }

  /** When no record is pending, a node that was just read sends every key it covers to the leaf that
      covers it, and the sibling check passes: no search walks and no cached image is dropped. */
  lemma SettledCheckPasses(s: State, b: Addr, k: Key)
    requires Inv(s) && Tidy(s) && s.pending == map[] && b in s.nodes && s.nodes[b].Covers(k)
    ensures var r := CacheRoute(s.nodes[b], k);
            && r.leaf in s.leaves && s.leaves[r.leaf].Covers(k)
            && Plain(s.leaves[r.leaf].sibling) == r.sibling
  {
    hide LeavesOk, NodeOk, CacheRoute, RouteLow, RouteHigh, Complete, NodesApart, Covered, Leaf.Covers;
    var n := s.nodes[b];
    var u := Do(s, ReadNode(b));
    StepKeepsInv(s, ReadNode(b));
    RouteStarts(s.leaves, n, k);
    RouteHighBounds(u, n, k);
    SiblingCheckExact(u, n, k);
    EndIsImplied(s.leaves, n, k);
  }

  lemma EndIsImplied(leaves: Leaves, n: Node, k: Key)
    requires LeavesOk(leaves) && NodeOk(leaves, n) && Complete(leaves, map[], n) && n.Covers(k)
    requires StartsAt(leaves, CacheRoute(n, k).leaf, RouteLow(n, k)) && leaves[CacheRoute(n, k).leaf].hi <= RouteHigh(n, k)
    requires n.lo <= RouteLow(n, k) && RouteHigh(n, k) <= n.hi
    ensures leaves[CacheRoute(n, k).leaf].hi == RouteHigh(n, k)
  {
    NodeSorted(leaves, n);
    hide LeavesOk, LeafOk, NodeOk, CacheRoute, RouteLow, RouteHigh, Marked;
    var l := leaves[CacheRoute(n, k).leaf];
    LeafEnd(leaves, CacheRoute(n, k).leaf);
    if l.hi < RouteHigh(n, k) {
      NoRecordBetween(n, k, l.hi);
      NodeBelowMax(leaves, n);
    }
  }

  lemma NodeBelowMax(leaves: Leaves, n: Node)
    requires NodeOk(leaves, n)
    ensures n.hi <= KEY_MAX
  {
  }
}
