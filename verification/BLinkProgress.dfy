/** That operations of the B-link tree get on: no operation is ever stuck, a split divides its page in
    the middle, and a thread that came down from the root has recorded the way back. */
module BLinkProgress {
  import opened BLinkPage
  import opened BLinkTree
  import opened BLinkRuns
  import opened BLinkSettled
  import opened BLinkOps

  // ----- splits -----

  /** The halves have half of the pairs or separators each, keep all of them in order, and the middle
      separator goes up with its child in the sibling. */
  lemma HalvesAreEven(q: Page, sep: Key, sib: Addr)
    requires Divides(q, sep) && q.lo <= sep <= q.hi
    requires q.body.Leaf? ==> forall k :: k in q.body.data ==> q.Covers(k)
    ensures var l, r, n := LeftHalf(q, sep, sib), RightHalf(q, sep), q.Size();
            && l.Size() == n / 2
            && r.Size() == n - n / 2 - (if q.body.Leaf? then 0 else 1)
            && match q.body
               case Leaf(data) => l.body.Leaf? && r.body.Leaf? && l.body.data + r.body.data == data
               case Inner(leftmost, seps) =>
                 && l.body.Inner? && r.body.Inner? && l.body.leftmost == leftmost
                 && l.body.seps + [Sep(sep, r.body.leftmost)] + r.body.seps == seps
  {
    match q.body
    case Leaf(data) =>
      PartsAdd(data, q.lo, sep, q.hi);
      var l, r := Part(data, q.lo, sep), Part(data, sep, q.hi);
      forall k | k in data ensures k in l + r && (l + r)[k] == data[k] {
      }
    case Inner(_, seps) =>
      var h := |seps| / 2;
      assert seps == seps[..h] + [seps[h]] + seps[h + 1..];
  }

  lemma {:induction false} LargestKey(data: Store) returns (x: Key)
    requires data != map[]
    ensures x in data && forall k :: k in data ==> k <= x
  {
    var y :| y in data;
    var rest := data - {y};
    x := y;
    if rest != map[] {
      assert |rest| < |data| by { SmallerWithout(data, y); }
      var z := LargestKey(rest);
      x := if z < y then y else z;
      forall k | k in data ensures k <= x {
        assert k != y ==> k in rest;
      }
    }
  }

  lemma SmallerWithout(data: Store, x: Key)
    requires x in data
    ensures |data - {x}| == |data| - 1
  {
    assert (data - {x}).Keys == data.Keys - {x};
    assert |(data - {x}).Keys| == |data - {x}| && |data.Keys| == |data|;
  }

  /** Whatever number below the size: there is a key with so many keys below it. */
  lemma {:induction false} RankedKey(data: Store, lo: Key, n: nat) returns (x: Key)
    requires n < |data| && forall k :: k in data ==> lo <= k
    ensures x in data && |Part(data, lo, x)| == n
    decreases |data|
  {
    var top := LargestKey(data);
    SmallerWithout(data, top);
    var rest := data - {top};
    if n == |rest| {
      x := top;
      assert Part(data, lo, top) == rest;
    } else {
      x := RankedKey(rest, lo, n);
      assert Part(rest, lo, x) == Part(data, lo, x);
    }
  }

  /** Every full page can be divided. */
  lemma FullPageDivides(q: Page) returns (sep: Key)
    requires q.Size() == q.Card()
    requires q.body.Leaf? ==> forall k :: k in q.body.data ==> q.lo <= k
    ensures Divides(q, sep)
  {
    match q.body
    case Leaf(data) => sep := RankedKey(data, q.lo, |data| / 2);
    case Inner(_, seps) => sep := seps[|seps| / 2].key;
  }

  lemma {:induction false} LargestAddr(s: set<Addr>) returns (x: Addr)
    ensures forall a :: a in s ==> a <= x
  {
    x := 0;
    if s != {} {
      var y :| y in s;
      var z := LargestAddr(s - {y});
      x := if z < y then y else z;
      forall a | a in s ensures a <= x {
        assert a != y ==> a in s - {y};
      }
    }
  }

  lemma FreshPage(t: Tree) returns (r: Addr)
    ensures r !in t.pages && r != NULL_ADDR
  {
    var x := LargestAddr(t.pages.Keys);
    r := x + 1;
  }

  // ----- no operation is stuck -----

  /** The operation is where it has to write. */
  predicate Arrived(s: State, op: Op) {
    Writes(op) && op.at in s.t.pages && !MustMove(s.t.pages[op.at], op)
  }

  lemma ArrivedFits(s: State, i: nat)
    requires i < |s.ops| && Arrived(s, s.ops[i])
    requires Inv(s)
    ensures var op := s.ops[i]; op.at in s.t.linked && Fits(s.t.pages[op.at], ChangeOf(op))
  {
    hide Legal, Replay, Compatible, Disjoint, RootOk, PathOk, FenceOk, SizeOk, DataOk;
    var op := s.ops[i];
    assert OpOk(s.t, op);
    assert PageOk(s.t, s.t.pages[op.at], Replay(s.hist));
    LinkLevel(s.t, s.t.pages[op.at]);
  }

  lemma ChangedFits(t: Tree, m: Store, a: Addr, c: Change)
    requires TreeOk(t, m) && a in t.linked && ChangeOk(t, t.pages[a], c) && Fits(t.pages[a], c)
    ensures var q := Changed(t.pages[a], c);
            && q.Size() <= q.Card() == t.pages[a].Card()
            && (q.body.Leaf? ==> forall k :: k in q.body.data ==> q.lo <= k)
  {
    hide Disjoint, RootOk, Changed, ChangeOk;
    assert PageOk(t, t.pages[a], m);
    ChangedOk(t, t.pages[a], c, m);
    ChangedShape(t.pages[a], c);
  }

  /** A thread that has arrived at an unlocked page can write it, with a split if the page is full. */
  lemma ReadyGoesOn(s: State, i: nat) returns (act: Action)
    requires i < |s.ops| && Arrived(s, s.ops[i]) && !s.Locked(s.ops[i].at)
    requires Inv(s)
    ensures Enabled(s, i, act)
  {
    hide Inv, MustMove, Changed, Fits, Divides;
    var op := s.ops[i];
    ArrivedFits(s, i);
    ReadyChangedFits(s, i);
    var q := Changed(s.t.pages[op.at], ChangeOf(op));
    if q.Size() < q.Card() {
      act := Write;
    } else {
      var sep := FullPageDivides(q);
      var sib := FreshPage(s.t);
      act := WriteSibling(sep, sib);
    }
  }

  lemma ReadyChangedFits(s: State, i: nat)
    requires i < |s.ops| && Ready(s, s.ops[i])
    requires Inv(s)
    ensures var op := s.ops[i];
            var q := Changed(s.t.pages[op.at], ChangeOf(op));
            && q.Size() <= q.Card() == s.t.pages[op.at].Card()
            && (q.body.Leaf? ==> forall k :: k in q.body.data ==> q.lo <= k)
  {
    hide TreeOk, OpOk, Legal, Replay, Compatible, MustMove, Changed, ChangeOk, Fits;
    ReadyChangeOk(s, i);
    ReadyOwes(s, i);
    ChangedFits(s.t, Replay(s.hist), s.ops[i].at, ChangeOf(s.ops[i]));
  }

  /** Thread `j` can take the step `act`, and that is the step of thread `i` or the one it waits for: the
      write that frees the page where it has to write, or the new root. */
  ghost predicate GoesOn(s: State, i: nat, j: nat, act: Action) {
    && Enabled(s, j, act)
    && (j == i
        || (act.WriteLeft? && Arrived(s, s.Op(i)) && s.Op(j).Splitting? && s.Op(j).at == s.Op(i).at)
        || (act.GrowRoot? && s.Op(i).Raise?))
  }

  /** No operation is ever stuck: it can take its next step itself, or it waits for the lock of a page
      whose holder can take the step that frees it, or it waits for a new root that another thread can
      put in place. */
  lemma NotStuck(s: State, i: nat) returns (j: nat, act: Action)
    requires i < |s.ops| && !s.ops[i].Idle?
    requires RootRises(s)
    requires Inv(s)
    ensures GoesOn(s, i, j, act)
  {
    hide Inv, RootRises, MustMove, Changed, Fits, Divides;
    var op := s.ops[i];
    j := i;
    if op.Raise? {
      var r := FreshPage(s.t);
      j := WaitingIsNotStuck(s, i, r);
      act := if Enabled(s, j, GrowRoot(r)) then GrowRoot(r) else Rejoin;
    } else if op.Splitting? {
      SplitterGoesOn(s, i);
      act := WriteLeft;
    } else {
      WalkerAt(s, i);
      if MustMove(s.t.pages[op.at], op) {
        act := Move;
      } else if op.Down? && op.kind.Find? {
        act := Answer;
      } else if s.Locked(op.at) {
        j :| 0 <= j < |s.ops| && s.ops[j].Splitting? && s.ops[j].at == op.at;
        SplitterGoesOn(s, j);
        act := WriteLeft;
      } else {
        act := ReadyGoesOn(s, i);
      }
    }
  }

  lemma SplitterGoesOn(s: State, i: nat)
    requires i < |s.ops| && s.ops[i].Splitting?
    requires Inv(s)
    ensures Enabled(s, i, WriteLeft)
  {
    hide TreeOk, Legal, Replay, Compatible, PathOk, Changed, ChangeOk, Divides, Fits;
    assert OpOk(s.t, s.ops[i]);
  }

  lemma WalkerAt(s: State, i: nat)
    requires i < |s.ops| && (s.ops[i].Down? || s.ops[i].Carry?)
    requires Inv(s)
    ensures s.ops[i].at in s.t.pages
  {
    hide TreeOk, Legal, Replay, Compatible, PathOk, Owes;
    assert OpOk(s.t, s.ops[i]);
  }

  // ----- a walk ends -----

  /** From page `a` to page `b` is one level down, or to the right on the same level. */
  ghost predicate Closer(t: Tree, a: Addr, b: Addr) {
    && a in t.linked && a in t.pages && b in t.linked && b in t.pages
    && (t.pages[b].level + 1 == t.pages[a].level
        || (t.pages[b].level == t.pages[a].level && t.pages[a].lo < t.pages[b].lo))
  }

  /** Every move of a walk leads one level down or to the right, never past the key. Levels and lowest
      keys of pages do not change, so the walk ends whatever the other threads do meanwhile. */
  lemma MoveGetsCloser(s: State, i: nat)
    requires Enabled(s, i, Move)
    requires Inv(s)
    ensures var op, op' := s.ops[i], Do(s, i, Move).Op(i);
            && (op'.Down? || op'.Carry?) && Goal(op') == Goal(op)
            && Closer(s.t, op.at, op'.at) && s.t.pages[op'.at].lo <= Goal(op)
  {
    hide Legal, Replay, Compatible, PathOk, Fresh, Disjoint, SizeOk, DataOk, RootOk;
    assert OpOk(s.t, s.ops[i]);
    CloserPage(s.t, Replay(s.hist), s.ops[i]);
  }

  lemma CloserPage(t: Tree, m: Store, op: Op)
    requires TreeOk(t, m) && (op.Down? || op.Carry?) && At(t, op.at, Goal(op)) && Goal(op) < KEY_MAX
    requires op.Carry? ==> 1 <= op.level <= t.pages[op.at].level
    requires MustMove(t.pages[op.at], op)
    ensures var b := Moved(t.pages[op.at], op).at; Closer(t, op.at, b) && t.pages[b].lo <= Goal(op)
  {
    hide Disjoint, SizeOk, DataOk, RootOk, LinksOk, FenceOk;
    var p := t.pages[op.at];
    assert PageOk(t, p, m);
    LinkLevel(t, p);
    if p.hi <= Goal(op) {
      RightOk(t, p, Goal(op));
    } else {
      RouteOk(t, p, Goal(op));
    }
  }

  /** Other threads leave the order of pages as it is. */
  lemma CloserStays(t: Tree, u: Tree, a: Addr, b: Addr)
    requires Grows(t, u) && Closer(t, a, b)
    ensures Closer(u, a, b)
  {
  }

  // ----- the way back -----

  /** On every level above `at` up to `top`, the page that was passed is recorded. */
  ghost predicate Recorded(t: Tree, path: Path, at: Addr, top: nat) {
    at in t.linked && at in t.pages && forall l :: t.pages[at].level < l <= top ==> l in path
  }

  /** A thread on its way to a leaf, or splitting it, has recorded its way down from level `top`. */
  ghost predicate KnowsWayBack(t: Tree, op: Op, top: nat) {
    op.Down? || op.Splitting? ==> Recorded(t, op.path, op.at, top)
  }

  lemma StepGrows(s: State, i: nat, act: Action)
    requires Enabled(s, i, act)
    requires Inv(s)
    ensures Grows(s.t, Do(s, i, act).t)
  {
    hide OpOk, Legal, Replay, Compatible, TreeOk, Changed, ChangeOk, MustMove, Divides, LeftHalf, RightHalf, Fits;
    var op, m := s.ops[i], Replay(s.hist);
    match act
    case Write =>
      ReadyOwes(s, i);
      ReadyChangeOk(s, i);
      RewriteOk(s.t, op.at, ChangeOf(op), m);
    case WriteLeft =>
      assert OpOk(s.t, op);
      SplittingParts(s.t, op);
      CutOk(s.t, op.at, op.change, op.sep, op.sib, m);
    case _ => TreeFormed(s.t, m);
  }

  lemma MoveRecords(t: Tree, m: Store, op: Op, top: nat)
    requires TreeOk(t, m) && OpOk(t, op) && op.Down? && MustMove(t.pages[op.at], op)
    requires Recorded(t, op.path, op.at, top)
    ensures var op' := Moved(t.pages[op.at], op); op'.Down? && Recorded(t, op'.path, op'.at, top)
  {
    hide Disjoint, SizeOk, DataOk, RootOk, LinksOk, FenceOk, PathOk;
    var p := t.pages[op.at];
    assert PageOk(t, p, m);
    if p.hi <= Goal(op) {
      RightOk(t, p, Goal(op));
    } else {
      LinkLevel(t, p);
      RouteOk(t, p, Goal(op));
    }
  }

  lemma StillRecorded(t: Tree, u: Tree, op: Op, top: nat)
    requires Grows(t, u) && KnowsWayBack(t, op, top)
    ensures KnowsWayBack(u, op, top)
  {
  }

  lemma StepRecords(s: State, i: nat, act: Action, j: nat, top: nat)
    requires Enabled(s, i, act) && j < |s.ops| && KnowsWayBack(s.t, s.ops[j], top)
    requires i == j ==> TaskOf(s.ops[i]).Todo?
    requires Inv(s)
    ensures |Do(s, i, act).ops| == |s.ops| && (TaskOf(Do(s, i, act).ops[j]).Todo? ==> KnowsWayBack(Do(s, i, act).t, Do(s, i, act).ops[j], top))
  {
    StepGrows(s, i, act);
    hide Legal, Replay, Compatible, TreeOk, Changed, ChangeOk, MustMove, Divides, LeftHalf, RightHalf, Fits, Recorded, Grows;
    StillRecorded(s.t, Do(s, i, act).t, s.ops[j], top);
    if i == j && act.Move? {
      assert OpOk(s.t, s.ops[i]);
      MoveRecords(s.t, Replay(s.hist), s.ops[i], top);
    }
  }

  lemma TaskBefore(s: State, s': State, before: Task, act: Action, after: Task)
    requires Advances(s, s', before, act, after) && Begun(act).Done? && after.Todo?
    ensures before == after
  {
  }

  lemma BeginRecords(s: State, i: nat, act: Action)
    requires Enabled(s, i, act) && act.Begin?
    requires Inv(s)
    ensures s.t.root in s.t.pages && KnowsWayBack(Do(s, i, act).t, Do(s, i, act).ops[i], s.t.pages[s.t.root].level)
  {
    hide Legal, Replay, Compatible, OpOk, Disjoint, PagesOk;
  }

  lemma SplitterLevel(s: State, i: nat, top: nat)
    requires i < |s.ops| && KnowsWayBack(s.t, s.ops[i], top)
    requires Inv(s)
    ensures var op := s.ops[i];
            op.Splitting? && op.level < top ==> AfterSplit(op).Carry? && AfterSplit(op).at == op.path[op.level + 1]
  {
    hide TreeOk, Legal, Replay, Compatible, PathOk, ChangeOk, Changed, Divides, Fits;
    assert OpOk(s.t, s.ops[i]);
  }

  /** Over all runs: a thread that began at the root, and still has its request to do, has recorded a page
      on every level between its own and that of the root at which it began. So if it splits a page below
      that level, it goes on to the page that it came through and does not search for it. */
  lemma {:induction false} RootDescentIsRecorded(states: seq<State>, steps: seq<Step>, i: nat, a: nat, n: nat)
    requires Trace(states, steps) && a < n <= |steps| && steps[a].thread == i && steps[a].act.Begin?
    requires NoneBegun(steps, i, a, n)
    requires i < |states[n].ops| && TaskOf(states[n].ops[i]).Todo?
    ensures states[a].t.root in states[a].t.pages
    ensures var top, op := states[a].t.pages[states[a].t.root].level, states[n].ops[i];
            && KnowsWayBack(states[n].t, op, top)
            && (op.Splitting? && op.level < top ==>
                 AfterSplit(op).Carry? && AfterSplit(op).at == op.path[op.level + 1])
    decreases n
  {
    hide Trace, Inv, Do, Enabled, KnowsWayBack, TaskOf, AfterSplit, Advances;
    var h := n - 1;
    TraceNext(states, steps, h, n);
    TraceInv(states, steps, n);
    if a < h {
      TraceStep(states, steps, h, i);
      if steps[h].thread == i {
        TaskBefore(states[h], states[n], TaskOf(states[h].ops[i]), steps[h].act, TaskOf(states[n].ops[i]));
      }
      RootDescentIsRecorded(states, steps, i, a, h);
      StepRecords(states[h], steps[h].thread, steps[h].act, i, states[a].t.pages[states[a].t.root].level);
    } else {
      BeginRecords(states[a], i, steps[a].act);
    }
    SplitterLevel(states[n], i, states[a].t.pages[states[a].t.root].level);
  }

  lemma TraceNext(states: seq<State>, steps: seq<Step>, h: nat, n: nat)
    requires Trace(states, steps) && h < |steps| && n == h + 1
    ensures Enabled(states[h], steps[h].thread, steps[h].act) && states[n] == Do(states[h], steps[h].thread, steps[h].act)
    ensures Inv(states[h]) && |states| == |steps| + 1 && |states[n].ops| == |states[h].ops|
  {
    TraceInv(states, steps, h);
    StepAdvances(states[h], steps[h].thread, steps[h].act);
    hide Inv, Do;
  }

  lemma TraceInv(states: seq<State>, steps: seq<Step>, n: nat)
    requires Trace(states, steps) && n <= |steps|
    ensures Inv(states[n])
  {
    TraceIsRun(states, steps);
    RunInv(states, n);
  }
}
