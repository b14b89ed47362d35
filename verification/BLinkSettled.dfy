/** What the pending parent insertions of the B-link tree amount to. No new page is ever lost: it
    has a parent, or some thread still owes its separator. So once no thread owes anything the tree
    is an ordinary B+-tree, in which a descent never has to move right; and a thread that waits for
    the root to grow always waits for some other thread that can grow it. */
module BLinkSettled {
  import opened BLinkPage
  import opened BLinkTree
  import opened BLinkRuns

  ghost predicate Child(p: Page, a: Addr) {
    p.body.Inner? && (p.body.leftmost == a || exists s :: s in p.body.seps && s.ptr == a)
  }

  ghost predicate Hung(t: Tree, a: Addr) {
    exists b :: b in t.linked && b in t.pages && Child(t.pages[b], a)
  }

  ghost predicate Owed(s: State, a: Addr) {
    exists j :: 0 <= j < |s.ops| && s.ops[j].Owing() && s.ops[j].OwedChild() == a
  }

  /** Every page but the root has a parent or is owed one. */
  ghost predicate NoneLost(s: State) {
    forall a :: a in s.t.linked && a != s.t.root ==> Hung(s.t, a) || Owed(s, a)
  }

  ghost predicate Raised(s: State, a: Addr) {
    exists j :: 0 <= j < |s.ops| && s.ops[j].Raise? && s.ops[j].page == a
  }

  /** A root that has been split is about to be put under a new one. */
  ghost predicate RootRises(s: State) {
    s.t.root in s.t.pages && (s.t.pages[s.t.root].hi < KEY_MAX ==> Raised(s, s.t.root))
  }

  // ----- parents are never forgotten -----

  ghost predicate KeepsChildren(t: Tree, u: Tree) {
    forall a :: Hung(t, a) ==> Hung(u, a)
  }

  /** The children of a page survive its change, and a new separator's child joins them. */
  lemma ChangedChildren(t: Tree, p: Page, c: Change, a: Addr)
    requires LinksOk(t, p) && ChangeOk(t, p, c) && Fits(p, c)
    ensures Child(p, a) || (c.AddSep? && c.child == a) ==> Child(Changed(p, c), a)
  {
    if c.AddSep? {
      hide InsertSep, Sorted, SepOk;
      InsertSepMembers(p.body.seps, c.sep, c.child);
      assert Keyed(p.body.seps, c.sep) || forall s :: s in p.body.seps ==> s.key != c.sep;
    }
  }

  lemma HalvesChildren(q: Page, sep: Key, sib: Addr, a: Addr)
    requires Divides(q, sep) && Child(q, a)
    ensures Child(LeftHalf(q, sep, sib), a) || Child(RightHalf(q, sep), a)
  {
    var seps, h := q.body.seps, |q.body.seps| / 2;
    if q.body.leftmost != a {
      var s :| s in seps && s.ptr == a;
      var i :| 0 <= i < |seps| && seps[i] == s;
      if i < h {
        assert seps[..h][i] == s;
      } else if h < i {
        assert seps[h + 1..][i - h - 1] == s;
      }
    }
  }

  lemma RewriteChildren(t: Tree, m: Store, a: Addr, c: Change)
    requires TreeOk(t, m) && a in t.linked && ChangeOk(t, t.pages[a], c) && Fits(t.pages[a], c)
    ensures var u := Rewrite(t, a, Changed(t.pages[a], c));
            KeepsChildren(t, u) && (c.AddSep? ==> Hung(u, c.child))
  {
    hide Disjoint, RootOk, Child, ChangeOk, Fits, Changed, FenceOk, DataOk, SizeOk, LinksOk;
    var q := Changed(t.pages[a], c);
    var u := Rewrite(t, a, q);
    assert PageOk(t, t.pages[a], m);
    forall x ensures Hung(t, x) || (c.AddSep? && c.child == x) ==> Hung(u, x) {
      ChangedChildren(t, t.pages[a], c, x);
      assert a in u.linked && u.pages[a] == q;
      if Hung(t, x) {
        var b :| b in t.linked && b in t.pages && Child(t.pages[b], x);
        assert b != a ==> Child(u.pages[b], x);
      }
    }
  }

  lemma CutChildren(t: Tree, m: Store, op: Op)
    requires TreeOk(t, m) && op.Splitting? && SplittingOk(t, op)
    ensures KeepsChildren(t, AfterLeft(t, op)) && (op.change.AddSep? ==> Hung(AfterLeft(t, op), op.change.child))
  {
    hide Disjoint, RootOk, Child, ChangeOk, Fits, Changed, FenceOk, DataOk, SizeOk, LinksOk, Divides, LeftHalf, RightHalf;
    var p, c := t.pages[op.at], op.change;
    var q := Changed(p, c);
    var u := AfterLeft(t, op);
    assert PageOk(t, p, m);
    assert op.at in u.linked && u.pages[op.at] == LeftHalf(q, op.sep, op.sib);
    assert op.sib in u.linked && u.pages[op.sib] == RightHalf(q, op.sep);
    forall x ensures Hung(t, x) || (c.AddSep? && c.child == x) ==> Hung(u, x) {
      ChangedChildren(t, p, c, x);
      if Child(q, x) {
        HalvesChildren(q, op.sep, op.sib, x);
      } else if Hung(t, x) {
        var b :| b in t.linked && b in t.pages && Child(t.pages[b], x);
        assert b != op.at && b != op.sib;
        assert Child(u.pages[b], x);
      }
    }
  }

  lemma AddedPageChildren(t: Tree, u: Tree)
    requires forall b :: b in t.linked && b in t.pages ==> b in u.linked && b in u.pages && u.pages[b] == t.pages[b]
    ensures KeepsChildren(t, u)
  {
    hide Child;
    forall x | Hung(t, x) ensures Hung(u, x) {
      var b :| b in t.linked && b in t.pages && Child(t.pages[b], x);
      assert Child(u.pages[b], x);
    }
  }

  lemma GrowChildren(t: Tree, r: Addr, sep: Key, child: Addr)
    requires Formed(t) && t.root in t.pages && r !in t.pages
    ensures KeepsChildren(t, Grow(t, r, sep, child))
    ensures Hung(Grow(t, r, sep, child), t.root) && Hung(Grow(t, r, sep, child), child)
  {
    var u := Grow(t, r, sep, child);
    AddedPageChildren(t, u);
    assert r in u.linked;
    assert Sep(sep, child) in u.pages[r].body.seps;
    assert Child(u.pages[r], t.root) && Child(u.pages[r], child);
  }

  // ----- steps -----

  /** The step of thread `i` keeps what is owed, unless it is its own debt and now has a parent. */
  lemma AssembleNoneLost(s: State, s': State, i: nat)
    requires NoneLost(s) && i < |s.ops| && s'.ops == s.ops[i := s'.Op(i)] && |s'.ops| == |s.ops|
    requires KeepsChildren(s.t, s'.t)
    requires s.ops[i].Owing() ==> var c := s.ops[i].OwedChild();
      Hung(s'.t, c) || (s'.Op(i).Owing() && s'.Op(i).OwedChild() == c)
    requires forall a :: a in s'.t.linked && a !in s.t.linked && a != s'.t.root ==> s'.Op(i).Owing() && s'.Op(i).OwedChild() == a
    requires s'.t.root == s.t.root || Hung(s'.t, s.t.root)
    ensures NoneLost(s')
  {
    hide Hung;
    forall a | a in s'.t.linked && a != s'.t.root ensures Hung(s'.t, a) || Owed(s', a) {
      if a !in s.t.linked {
        assert s'.ops[i].Owing() && s'.ops[i].OwedChild() == a;
      } else if a != s.t.root && !Hung(s.t, a) {
        var j :| 0 <= j < |s.ops| && s.ops[j].Owing() && s.ops[j].OwedChild() == a;
        assert j != i ==> s'.ops[j] == s.ops[j];
        assert j == i ==> Hung(s'.t, a) || (s'.ops[i].Owing() && s'.ops[i].OwedChild() == a);
      }
    }
  }

  lemma SameTreeChildren(t: Tree)
    ensures KeepsChildren(t, t)
  {
  }

  lemma StepLosesNone(s: State, i: nat, act: Action)
    requires Inv(s) && NoneLost(s) && Enabled(s, i, act)
    ensures NoneLost(Do(s, i, act))
  {
    hide TreeOk, OpOk, Legal, Replay, Owes, Route, Hung, KeepsChildren, NoneLost, Changed, Fits, Divides, LeftHalf, RightHalf, MustMove;
    var s' := Do(s, i, act);
    var op, m := s.ops[i], Replay(s.hist);
    assert OpOk(s.t, op);
    TreeFormed(s.t, m);
    match act
    case Begin(_, _) => SameTreeChildren(s.t); AssembleNoneLost(s, s', i);
    case BeginCached(_, _, _) => SameTreeChildren(s.t); AssembleNoneLost(s, s', i);
    case Move => SameTreeChildren(s.t); AssembleNoneLost(s, s', i);
    case Answer => SameTreeChildren(s.t); AssembleNoneLost(s, s', i);
    case Rejoin => SameTreeChildren(s.t); AssembleNoneLost(s, s', i);
    case Write =>
      ReadyChangeOk(s, i);
      ReadyOwes(s, i);
      RewriteChildren(s.t, m, op.at, ChangeOf(op));
      AssembleNoneLost(s, s', i);
    case WriteSibling(_, sib) =>
      AddedPageChildren(s.t, s'.t);
      AssembleNoneLost(s, s', i);
    case WriteLeft =>
      SplittingParts(s.t, op);
      CutChildren(s.t, m, op);
      AssembleNoneLost(s, s', i);
    case GrowRoot(r) =>
      GrowChildren(s.t, r, op.sep, op.child);
      AssembleNoneLost(s, s', i);
  }

  /** A thread that splits the root has passed no page above it. */
  lemma RootSplitterRaises(t: Tree, m: Store, op: Op)
    requires TreeOk(t, m) && OpOk(t, op) && op.Splitting? && op.at == t.root
    ensures AfterSplit(op).Raise?
  {
    hide Disjoint, PagesOk, ChangeOk, Changed, Divides, RightHalf;
    assert op.level + 1 in op.path ==> At(t, op.path[op.level + 1], t.pages[op.at].lo);
  }

  lemma StepKeepsRootRising(s: State, i: nat, act: Action)
    requires Inv(s) && RootRises(s) && Enabled(s, i, act)
    ensures RootRises(Do(s, i, act))
  {
    hide TreeOk, OpOk, Legal, Replay, Owes, Route, MustMove, Changed, Fits, Divides, RightHalf;
    var s' := Do(s, i, act);
    var op, m := s.ops[i], Replay(s.hist);
    assert OpOk(s.t, op);
    TreeFormed(s.t, m);
    if act.WriteLeft? && op.at == s.t.root {
      RootSplitterRaises(s.t, m, op);
      assert s'.ops[i].Raise? && s'.ops[i].page == s.t.root;
    } else if act.GrowRoot? {
      assert s'.t.pages[s'.t.root].hi == KEY_MAX;
    } else {
      if act.Write? {
        ChangedShape(s.t.pages[op.at], ChangeOf(op));
      }
      assert s'.t.root == s.t.root && s'.t.pages[s'.t.root].hi == s.t.pages[s.t.root].hi;
      if s.t.pages[s.t.root].hi < KEY_MAX {
        var j :| 0 <= j < |s.ops| && s.ops[j].Raise? && s.ops[j].page == s.t.root;
        assert s'.ops[j] == s.ops[j];
      }
    }
  }

  // ----- theorems -----

  lemma {:induction false} RunLosesNone(run: seq<State>, n: nat)
    requires Run(run) && n < |run|
    ensures Inv(run[n]) && NoneLost(run[n]) && RootRises(run[n])
  {
    RunInv(run, n);
    if n > 0 {
      hide Inv, NoneLost, RootRises, Enabled, Do;
      RunLosesNone(run, n - 1);
      assert Next(run[n - 1], run[n - 1 + 1]);
      var i, act :| Enabled(run[n - 1], i, act) && run[n] == Do(run[n - 1], i, act);
      StepLosesNone(run[n - 1], i, act);
      StepKeepsRootRising(run[n - 1], i, act);
    }
  }

  ghost predicate Settled(s: State) {
    forall j :: 0 <= j < |s.ops| ==> !s.ops[j].Owing()
  }

  /** A page with child `x` covers the lowest key of `x`, as its own lowest key or as a separator. */
  lemma ChildStarts(t: Tree, p: Page, x: Addr)
    requires LinksOk(t, p) && FenceOk(t, p) && Child(p, x)
    ensures x in t.linked && x in t.pages && p.level == t.pages[x].level + 1 && p.Covers(t.pages[x].lo)
    ensures p.lo == t.pages[x].lo || Keyed(p.body.seps, t.pages[x].lo)
  {
    if p.body.leftmost != x {
      var s :| s in p.body.seps && s.ptr == x;
      assert SepOk(t, p, s);
    }
  }

  /** No separator of the page lies above the start of the chosen child and at or below the key. */
  lemma RouteIsLast(t: Tree, p: Page, k: Key, x: Key)
    requires LinksOk(t, p) && p.body.Inner? && p.Covers(k) && Keyed(p.body.seps, x) && x <= k
    ensures var c := Route(p.body.leftmost, p.body.seps, k); c in t.pages && x <= t.pages[c].lo
  {
    var seps, n := p.body.seps, Above(p.body.seps, k, 0);
    var s :| s in seps && s.key == x;
    var i :| 0 <= i < |seps| && seps[i] == s;
    assert i < n;
    assert seps[i].key <= seps[n - 1].key;
    assert SepOk(t, p, seps[n - 1]);
  }

  /** When no parent insertion is pending, the child that a page sends a key to covers that key,
      and the root covers every key: a descent never moves right. */
  lemma SettledDescentIsStraight(s: State, a: Addr, k: Key)
    requires Inv(s) && NoneLost(s) && RootRises(s) && Settled(s)
    requires a in s.t.linked && s.t.pages[a].body.Inner? && s.t.pages[a].Covers(k)
    ensures var c := Route(s.t.pages[a].body.leftmost, s.t.pages[a].body.seps, k);
            c in s.t.linked && s.t.pages[c].Covers(k)
    ensures s.t.pages[s.t.root].lo == KEY_MIN && s.t.pages[s.t.root].hi == KEY_MAX
  {
    hide Disjoint, LinksOk, SizeOk, DataOk, Child, Keyed, Legal, Replay, OpOk, Compatible, Hung;
    var t, p, m := s.t, s.t.pages[a], Replay(s.hist);
    RootCovers(s);
    assert PageOk(t, p, m);
    RouteOk(t, p, k);
    var c := Route(p.body.leftmost, p.body.seps, k);
    assert PageOk(t, t.pages[c], m);
    if t.pages[c].hi <= k {
      RightOk(t, t.pages[c], k);
      var x := t.pages[c].sibling;
      assert x != t.root && !Owed(s, x);
      var b := ParentOf(t, m, x);
      CoverUnique(t, m, a, b, t.pages[x].lo);
      RouteIsLast(t, p, k, t.pages[x].lo);
      assert false;
    }
  }

  lemma ParentOf(t: Tree, m: Store, x: Addr) returns (b: Addr)
    requires TreeOk(t, m) && Hung(t, x)
    ensures b in t.linked && x in t.linked && t.pages[b].Covers(t.pages[x].lo) && t.pages[b].level == t.pages[x].level + 1
    ensures t.pages[b].body.Inner? && (t.pages[b].lo == t.pages[x].lo || Keyed(t.pages[b].body.seps, t.pages[x].lo))
  {
    hide Disjoint, LinksOk, FenceOk, SizeOk, DataOk, RootOk, Keyed;
    b :| b in t.linked && b in t.pages && Child(t.pages[b], x);
    assert PageOk(t, t.pages[b], m);
    ChildStarts(t, t.pages[b], x);
  }

  lemma CoverUnique(t: Tree, m: Store, a: Addr, b: Addr, k: Key)
    requires TreeOk(t, m) && a in t.linked && b in t.linked && t.pages[a].level == t.pages[b].level
    requires t.pages[a].Covers(k) && t.pages[b].Covers(k)
    ensures a == b
  {
    hide PagesOk, RootOk;
    assert a != b ==> Apart(t.pages[a], t.pages[b]);
  }

  lemma RootCovers(s: State)
    requires Inv(s) && RootRises(s) && Settled(s)
    ensures s.t.pages[s.t.root].lo == KEY_MIN && s.t.pages[s.t.root].hi == KEY_MAX
  {
    hide Disjoint, LinksOk, SizeOk, DataOk, Legal, Replay, OpOk, Compatible;
    assert PageOk(s.t, s.t.pages[s.t.root], Replay(s.hist));
  }

  /** A thread that can neither grow the root nor find the level it needs below the root is not
      alone: another thread has split the root and can put the new root in place. */
  lemma WaitingIsNotStuck(s: State, i: nat, r: Addr) returns (j: nat)
    requires Inv(s) && RootRises(s) && i < |s.ops| && s.ops[i].Raise?
    requires r !in s.t.pages && r != NULL_ADDR
    ensures j < |s.ops| && (Enabled(s, j, GrowRoot(r)) || (j == i && Enabled(s, i, Rejoin)))
  {
    hide Disjoint, LinksOk, SizeOk, DataOk, Legal, Replay, Compatible, Owes, PathOk;
    var op, t := s.ops[i], s.t;
    assert OpOk(t, op);
    j := i;
    if t.root != op.page && t.pages[t.root].level < op.level {
      assert PageOk(t, t.pages[op.page], Replay(s.hist)) && PageOk(t, t.pages[t.root], Replay(s.hist));
      RootApart(t, op.page);
      j :| 0 <= j < |s.ops| && s.ops[j].Raise? && s.ops[j].page == t.root;
    }
  }

  lemma RootApart(t: Tree, a: Addr)
    requires Formed(t) && RootOk(t) && Disjoint(t) && a in t.linked && a != t.root
    ensures Apart(t.pages[a], t.pages[t.root])
  {
  }
}
