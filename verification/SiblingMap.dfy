/** What the leaves of CHIME's tree hold. Insertions put one pair in, splits and the work on internal
    nodes change nothing, so over every run the leaves stand for the map that the insertions make, and
    searches answer from that map. */
module SiblingMap {
  import opened BLinkPage
  import opened SiblingCheck

  /** A split divides the pairs: none is lost, none is on both sides. */
  lemma HalvesKeepPairs(l: Leaf, data: Store, bound: Key, sib: Addr)
    requires SplitOk(l, data, bound) && forall k :: k in data ==> l.Covers(k)
    ensures LeafLeft(l, data, bound, sib).data + LeafRight(l, data, bound).data == data
    ensures LeafLeft(l, data, bound, sib).data.Keys !! LeafRight(l, data, bound).data.Keys
    ensures forall k :: k in LeafLeft(l, data, bound, sib).data ==> k < bound
    ensures forall k :: k in LeafRight(l, data, bound).data ==> bound <= k
  {
    var p, q := LeafLeft(l, data, bound, sib).data, LeafRight(l, data, bound).data;
    forall k | k in data ensures k in p + q && (p + q)[k] == data[k] {
    }
  }

  // ----- one step -----

  predicate Inserts(act: Action) {
    act.PutKey? || act.SplitLeaf?
  }

  /** A key that a leaf covers is in no other leaf. */
  lemma OnlyHere(leaves: Leaves, a: Addr, b: Addr, k: Key)
    requires LeavesOk(leaves) && a in leaves && b in leaves && leaves[a].Covers(k) && k in leaves[b].data
    ensures a == b
  {
    hide LeavesOk;
    LeafOf(leaves, b);
    if a != b {
      LeavesApart(leaves, a, b);
    }
  }

  lemma PutHolds(leaves: Leaves, a: Addr, k: Key, v: Value, x: Key, w: Value)
    requires LeavesOk(leaves) && a in leaves && leaves[a].Covers(k)
    ensures Holds(WithKey(leaves, a, k, v), x, w) <==> if x == k then w == v else Holds(leaves, x, w)
  {
    hide LeavesOk;
    var q := WithKey(leaves, a, k, v);
    assert a in q && q[a].data[k] == v;
    forall b | b in leaves && x in leaves[b].data && x == k ensures a == b {
      OnlyHere(leaves, a, b, k);
    }
    if x != k && Holds(leaves, x, w) {
      var b :| b in leaves && x in leaves[b].data && leaves[b].data[x] == w;
      assert b in q && x in q[b].data && q[b].data[x] == w;
    }
  }

  lemma SplitHolds(leaves: Leaves, a: Addr, k: Key, v: Value, bound: Key, sib: Addr, x: Key, w: Value)
    requires LeavesOk(leaves) && a in leaves && sib !in leaves && leaves[a].Covers(k)
    requires SplitOk(leaves[a], leaves[a].data[k := v], bound)
    ensures Holds(WithSplit(leaves, a, leaves[a].data[k := v], bound, sib), x, w) <==>
              Holds(WithKey(leaves, a, k, v), x, w)
  {
    hide LeavesOk, LeafOk, LeafLeft, LeafRight;
    var data := leaves[a].data[k := v];
    LeafOf(leaves, a);
    LeafCovers(leaves, leaves[a]);
    HalvesKeepPairs(leaves[a], data, bound, sib);
    DividedHolds(WithKey(leaves, a, k, v), WithSplit(leaves, a, data, bound, sib), a, sib, x, w);
  }

  lemma LeafCovers(leaves: Leaves, l: Leaf)
    requires LeafOk(leaves, l)
    ensures forall k :: k in l.data ==> l.Covers(k)
  {
  }

  /** Dividing the pairs of one leaf between it and a new one. */
  lemma DividedHolds(p: Leaves, q: Leaves, a: Addr, sib: Addr, x: Key, w: Value)
    requires a in p && sib !in p && q.Keys == p.Keys + {sib}
    requires forall b :: b in p && b != a ==> q[b].data == p[b].data
    requires q[a].data + q[sib].data == p[a].data && q[a].data.Keys !! q[sib].data.Keys
    ensures Holds(q, x, w) <==> Holds(p, x, w)
  {
    var l, r := q[a].data, q[sib].data;
    assert x in l || x in r ==> (l + r)[x] == if x in l then l[x] else r[x];
    if Holds(p, x, w) {
      var b :| b in p && x in p[b].data && p[b].data[x] == w;
      var c := if b != a || x in l then b else sib;
      assert c in q && x in q[c].data && q[c].data[x] == w;
    }
    if Holds(q, x, w) {
      var b :| b in q && x in q[b].data && q[b].data[x] == w;
      var c := if b == sib then a else b;
      assert c in p && x in p[c].data && p[c].data[x] == w;
    }
  }

  /** An insertion, with or without a split, puts exactly its pair into the leaves; no other step changes
      what they hold. */
  lemma StepHolds(s: State, act: Action, x: Key, w: Value)
    requires Inv(s) && Enabled(s, act)
    ensures Holds(Do(s, act).leaves, x, w) <==> if Inserts(act) && x == act.k then w == act.v else Holds(s.leaves, x, w)
  {
    match act
    case PutKey(a, k, v) => PutHolds(s.leaves, a, k, v, x, w);
    case SplitLeaf(a, k, v, bound, sib) =>
      LeafOf(s.leaves, a);
      BoundInside(s.leaves, s.leaves[a], k, v, bound);
      PutHolds(s.leaves, a, k, v, x, w);
      SplitHolds(s.leaves, a, k, v, bound, sib, x, w);
    case InsertRecord(_, _) =>
    case SplitNode(_, _, _) =>
    case GrowRoot(_, _, _) =>
    case ReadNode(_) =>
  }

  // ----- runs -----

  /** The map that the first `n` steps make, from the ghost key on. */
  function Stored(acts: seq<Action>, n: nat): Store
    requires n <= |acts|
  {
    if n == 0 then map[KEY_MAX - 1 := NULL_VALUE]
    else if Inserts(acts[n - 1]) then Stored(acts, n - 1)[acts[n - 1].k := acts[n - 1].v]
    else Stored(acts, n - 1)
  }

  /** Over all runs: the leaves hold exactly the pairs of that map. */
  lemma {:induction false} RunHolds(states: seq<State>, acts: seq<Action>, n: nat, x: Key, w: Value)
    requires Run(states, acts) && n < |states|
    ensures n <= |acts|
    ensures Holds(states[n].leaves, x, w) <==> x in Stored(acts, n) && Stored(acts, n)[x] == w
  {
    if n == 0 {
      var a :| a in states[0].leaves && states[0].leaves == map[a := Leaf(KEY_MIN, KEY_MAX, WIDEST, map[KEY_MAX - 1 := NULL_VALUE])];
    } else {
      var h := n - 1;
      RunHolds(states, acts, h, x, w);
      RunInv(states, acts, h);
      assert Enabled(states[h], acts[h]) && states[h + 1] == Do(states[h], acts[h]);
      hide Run, Inv, Enabled, Do, Holds;
      StepHolds(states[h], acts[h], x, w);
    }
  }

  lemma RunAbsent(states: seq<State>, acts: seq<Action>, n: nat, x: Key)
    requires Run(states, acts) && n < |states|
    ensures n <= |acts|
    ensures Absent(states[n].leaves, x) <==> x !in Stored(acts, n)
  {
    RunHolds(states, acts, n, x, if x in Stored(acts, n) then Stored(acts, n)[x] else NULL_VALUE);
    hide Run, Stored;
    if x !in Stored(acts, n) {
      forall a | a in states[n].leaves ensures x !in states[n].leaves[a].data {
        if x in states[n].leaves[a].data {
          AnyHolds(states, acts, n, a, x);
        }
      }
    }
  }

  lemma AnyHolds(states: seq<State>, acts: seq<Action>, n: nat, a: Addr, x: Key)
    requires Run(states, acts) && n < |states| && a in states[n].leaves && x in states[n].leaves[a].data
    ensures n <= |acts| && x in Stored(acts, n)
  {
    assert Holds(states[n].leaves, x, states[n].leaves[a].data[x]);
    RunHolds(states, acts, n, x, states[n].leaves[a].data[x]);
  }

  /** A search in any state of a run, over any node image read by then, answers from that map. */
  method SearchInRun(ghost states: seq<State>, ghost acts: seq<Action>, s: State, n: Node, k: Key) returns (v: Value)
    requires Run(states, acts) && s == states[|acts|] && n in s.snaps && n.Covers(k)
    ensures v == if k in Stored(acts, |acts|) then Stored(acts, |acts|)[k] else NULL_VALUE
  {
    RunInv(states, acts, |acts|);
    v := SearchChain(s, n, k);
    RunHolds(states, acts, |acts|, k, v);
    RunAbsent(states, acts, |acts|, k);
  }

  /** A search that walks while others insert and split answers from the map of some read of the walk. */
  lemma WalkAnswersFromMap(states: seq<State>, acts: seq<Action>, n: Node, k: Key, times: seq<nat>, visited: seq<Addr>)
    requires Run(states, acts) && Walk(states, n, k, times, visited)
    ensures forall j :: 0 <= j < |times| ==> times[j] <= |acts|
    ensures var last := |times| - 1;
            && visited[last] in states[times[last]].leaves
            && var l := states[times[last]].leaves[visited[last]];
               && (k in l.data ==> k in Stored(acts, times[last]) && Stored(acts, times[last])[k] == l.data[k])
               && (k !in l.data && Plain(l.sibling) == CacheRoute(n, k).sibling ==>
                    exists j :: 0 <= j < |times| && k !in Stored(acts, times[j]))
  {
    WalkIsLinearizable(states, acts, n, k, times, visited);
    var last := |times| - 1;
    var l := states[times[last]].leaves[visited[last]];
    if k in l.data {
      RunHolds(states, acts, times[last], k, l.data[k]);
    } else if Plain(l.sibling) == CacheRoute(n, k).sibling {
      var j :| 0 <= j < |times| && times[j] < |states| && Absent(states[times[j]].leaves, k);
      RunAbsent(states, acts, times[j], k);
    }
  }
}
