/** The B-link tree under any number of threads. A split takes three visible steps: the sibling is
    written, the left page is written, and the separator goes into the parent level or a new root.
    Between them every other thread may search, store, delete and split. */
module BLinkRuns {
  import opened BLinkPage
  import opened BLinkTree

  datatype Kind = Find | Put(v: Value) | Del

  /** The pages through which an operation came down, by level. */
  type Path = map<nat, Addr>

  datatype Op =
    | Idle
      // On the way to the leaf for `k`; about to read page `at`.
    | Down(k: Key, kind: Kind, at: Addr, path: Path)
      // On the way to the page on `level` that takes the separator of `child`.
    | Carry(sep: Key, child: Addr, level: nat, at: Addr, path: Path)
      // Holds the lock of the full page `at`; has written the sibling but not the left page.
    | Splitting(at: Addr, level: nat, change: Change, sep: Key, sib: Addr, path: Path)
      // Has split `page` without having passed a page above it.
    | Raise(page: Addr, sep: Key, child: Addr, level: nat)
  {
    ghost predicate Owing() {
      Carry? || Raise? || (Splitting? && change.AddSep?)
    }

    ghost function OwedSep(): Key requires Owing() {
      if Splitting? then change.sep else sep
    }

    ghost function OwedChild(): Addr requires Owing() {
      if Splitting? then change.child else child
    }
  }

  /** The points at which operations take effect. */
  datatype Event = Got(k: Key, v: Value) | Did(c: Change)

  function Replay(hist: seq<Event>): Store {
    if hist == [] then map[]
    else
      After(Replay(hist[..|hist| - 1]), hist[|hist| - 1])
  }

  function After(m: Store, e: Event): Store {
    match e
    case Got(_, _) => m
    case Did(c) => Effect(m, c)
  }

  /** Every lookup in the history returned what the stores and deletes before it left. */
  ghost predicate Legal(hist: seq<Event>) {
    hist == [] ||
    var before := hist[..|hist| - 1];
    Legal(before) && Truthful(Replay(before), hist[|hist| - 1])
  }

  predicate Truthful(m: Store, e: Event) {
    e.Got? ==> e.v == Lookup(m, e.k)
  }

  datatype State = State(t: Tree, hist: seq<Event>, ops: seq<Op>) {
    function Op(i: nat): Op {
      if i < |ops| then ops[i] else Idle
    }

    predicate Locked(a: Addr) {
      exists i :: 0 <= i < |ops| && ops[i].Splitting? && ops[i].at == a
    }
  }

  // ----- steps -----

  datatype Action =
    | Begin(k: Key, kind: Kind)
    | BeginCached(k: Key, kind: Kind, leaf: Addr)
    | Move
    | Answer
    | Write
    | WriteSibling(sep: Key, sib: Addr)
    | WriteLeft
    | GrowRoot(r: Addr)
    | Rejoin

  predicate CanBegin(op: Op, k: Key, kind: Kind) {
    op.Idle? && k < KEY_MAX && (kind.Put? ==> kind.v != NULL_VALUE)
  }

  /** The key that a walking operation follows. */
  function Goal(op: Op): Key
    requires op.Down? || op.Carry?
  {
    if op.Down? then op.k else op.sep
  }

  /** The page being read is not yet the one that the operation works on. */
  predicate MustMove(p: Page, op: Op)
    requires op.Down? || op.Carry?
  {
    p.hi <= Goal(op) || (if op.Down? then p.body.Inner? else op.level < p.level)
  }

  function Goto(op: Op, at: Addr, path: Path): Op
    requires op.Down? || op.Carry?
  {
    if op.Down? then Down(op.k, op.kind, at, path) else Carry(op.sep, op.child, op.level, at, path)
  }

  function Moved(p: Page, op: Op): Op
    requires op.Down? || op.Carry?
  {
    if p.hi <= Goal(op) || p.body.Leaf? then Goto(op, p.sibling, op.path)
    else Goto(op, Route(p.body.leftmost, p.body.seps, Goal(op)), op.path[p.level := op.at])
  }

  predicate Writes(op: Op) {
    op.Carry? || (op.Down? && !op.kind.Find?)
  }

  function ChangeOf(op: Op): Change
    requires Writes(op)
  {
    if op.Carry? then AddSep(op.sep, op.child)
    else if op.kind.Put? then PutKey(op.k, op.kind.v)
    else DropKey(op.k)
  }

  /** The operation can take the lock of the page it must change. */
  predicate Ready(s: State, op: Op) {
    && Writes(op)
    && op.at in s.t.pages
    && !MustMove(s.t.pages[op.at], op)
    && !s.Locked(op.at)
    && Fits(s.t.pages[op.at], ChangeOf(op))
  }

  ghost predicate Enabled(s: State, i: nat, act: Action) {
    i < |s.ops| &&
    var op, t := s.ops[i], s.t;
    match act
    case Begin(k, kind) => CanBegin(op, k, kind)
    case BeginCached(k, kind, leaf) =>
      CanBegin(op, k, kind) && leaf in t.linked && leaf in t.pages && t.pages[leaf].body.Leaf?
    case Move => (op.Down? || op.Carry?) && op.at in t.pages && MustMove(t.pages[op.at], op)
    case Answer =>
      op.Down? && op.kind.Find? && op.at in t.pages && !MustMove(t.pages[op.at], op)
    case Write =>
      Ready(s, op) && Changed(t.pages[op.at], ChangeOf(op)).Size() < t.pages[op.at].Card()
    case WriteSibling(sep, sib) =>
      Ready(s, op) && sib !in t.pages && sib != NULL_ADDR &&
      var q := Changed(t.pages[op.at], ChangeOf(op));
      q.Size() == q.Card() && Divides(q, sep)
    case WriteLeft => op.Splitting? && op.at in t.pages && Fits(t.pages[op.at], op.change)
    case GrowRoot(r) =>
      op.Raise? && t.root == op.page && t.root in t.pages && r !in t.pages && r != NULL_ADDR
    case Rejoin =>
      op.Raise? && t.root != op.page && t.root in t.pages && op.level <= t.pages[t.root].level
  }

  function Logged(hist: seq<Event>, c: Change): seq<Event> {
    if c.AddSep? then hist else hist + [Did(c)]
  }

  /** What comes after the left page is written: insert the separator one level up, along the path
      that was recorded on the way down. */
  function AfterSplit(op: Op): Op
    requires op.Splitting?
  {
    if op.level + 1 in op.path then Carry(op.sep, op.sib, op.level + 1, op.path[op.level + 1], op.path)
    else Raise(op.at, op.sep, op.sib, op.level + 1)
  }

  function Do(s: State, i: nat, act: Action): State
    requires Enabled(s, i, act)
  {
    var op, t := s.ops[i], s.t;
    match act
    case Begin(k, kind) => s.(ops := s.ops[i := Down(k, kind, t.root, map[])])
    case BeginCached(k, kind, leaf) =>
      s.(ops := s.ops[i := Down(k, kind, if t.pages[leaf].Covers(k) then leaf else t.root, map[])])
    case Move => s.(ops := s.ops[i := Moved(t.pages[op.at], op)])
    case Answer =>
      s.(ops := s.ops[i := Idle], hist := s.hist + [Got(op.k, Lookup(t.pages[op.at].body.data, op.k))])
    case Write =>
      var c := ChangeOf(op);
      State(Rewrite(t, op.at, Changed(t.pages[op.at], c)), Logged(s.hist, c), s.ops[i := Idle])
    case WriteSibling(sep, sib) =>
      var c := ChangeOf(op);
      s.(t := Rewrite(t, sib, RightHalf(Changed(t.pages[op.at], c), sep)),
         ops := s.ops[i := Splitting(op.at, t.pages[op.at].level, c, sep, sib, op.path)])
    case WriteLeft =>
      var q := Changed(t.pages[op.at], op.change);
      State(Cut(t, op.at, LeftHalf(q, op.sep, op.sib), op.sib), Logged(s.hist, op.change), s.ops[i := AfterSplit(op)])
    case GrowRoot(r) =>
      s.(t := Grow(t, r, op.sep, op.child), ops := s.ops[i := Idle])
    case Rejoin =>
      s.(ops := s.ops[i := Carry(op.sep, op.child, op.level, t.root, map[])])
  }

  // ----- the invariant -----

  ghost predicate At(t: Tree, a: Addr, k: Key) {
    a in t.linked && a in t.pages && t.pages[a].lo <= k
  }

  /** The recorded pages above `at` do not start to the right of it, nor of each other. */
  ghost predicate PathOk(t: Tree, path: Path, at: Addr) {
    && at in t.pages
    && (forall l :: l in path && t.pages[at].level < l ==>
         At(t, path[l], t.pages[at].lo) && t.pages[path[l]].level == l)
    && forall l, h :: l in path && h in path && t.pages[at].level < l < h && path[l] in t.pages && path[h] in t.pages ==>
         t.pages[path[h]].lo <= t.pages[path[l]].lo
  }

  ghost predicate SplittingOk(t: Tree, op: Op)
    requires op.Splitting?
  {
    && Formed(t) && op.at in t.linked
    && t.pages[op.at].level == op.level
    && !op.change.DropKey?
    && ChangeOk(t, t.pages[op.at], op.change)
    && Fits(t.pages[op.at], op.change)
    && op.sib in t.pages && op.sib !in t.linked && op.sib != NULL_ADDR
    && var q := Changed(t.pages[op.at], op.change);
       q.Size() == q.Card() && Divides(q, op.sep) && t.pages[op.sib] == RightHalf(q, op.sep)
  }

  ghost predicate OpOk(t: Tree, op: Op) {
    match op
    case Idle => true
    case Down(k, kind, at, path) =>
      CanBegin(Idle, k, kind) && At(t, at, k) && PathOk(t, path, at)
    case Carry(sep, child, level, at, path) =>
      Owes(t, sep, child, level) && At(t, at, sep) && level <= t.pages[at].level && PathOk(t, path, at)
    case Splitting(at, level, change, sep, sib, path) =>
      SplittingOk(t, op) && PathOk(t, path, at) &&
      (change.AddSep? ==> Owes(t, change.sep, change.child, level))
    case Raise(page, sep, child, level) =>
      Owes(t, sep, child, level) && page in t.linked && t.pages[page].level == level - 1
  }

  /** Two operations neither hold the same lock, nor fill the same sibling, nor owe the same child. */
  ghost predicate Compatible(o: Op, p: Op) {
    && (o.Splitting? && p.Splitting? ==> o.at != p.at && o.sib != p.sib)
    && (o.Owing() && p.Owing() ==> o.OwedChild() != p.OwedChild())
  }

  ghost predicate Inv(s: State) {
    && TreeOk(s.t, Replay(s.hist))
    && Legal(s.hist)
    && (forall i :: 0 <= i < |s.ops| ==> OpOk(s.t, s.ops[i]))
    && forall i, j :: 0 <= i < |s.ops| && 0 <= j < |s.ops| && i != j ==> Compatible(s.ops[i], s.ops[j])
  }

  // ----- operations that do not touch the tree -----

  lemma MoveOk(t: Tree, m: Store, op: Op)
    requires TreeOk(t, m) && OpOk(t, op) && (op.Down? || op.Carry?) && MustMove(t.pages[op.at], op)
    ensures OpOk(t, Moved(t.pages[op.at], op))
  {
    hide Disjoint, SizeOk, DataOk, RootOk, LinksOk, FenceOk, Fresh;
    var p := t.pages[op.at];
    assert PageOk(t, p, m);
    if p.hi <= Goal(op) {
      RightOk(t, p, Goal(op));
    } else {
      LinkLevel(t, p);
      RouteOk(t, p, Goal(op));
    }
  }

  // ----- what a step of one thread leaves the others -----

  /** The lock of a page keeps it as it is, and an unlinked sibling is nobody else's. */
  ghost predicate Undisturbed(t: Tree, u: Tree, op: Op) {
    op.Splitting? && op.at in t.pages && op.sib in t.pages ==>
      && op.at in u.pages && u.pages[op.at] == t.pages[op.at]
      && op.sib in u.pages && u.pages[op.sib] == t.pages[op.sib]
      && (op.sib !in t.linked ==> op.sib !in u.linked)
  }

  ghost predicate StillFresh(u: Tree, op: Op) {
    Formed(u) && (op.Owing() ==> Fresh(u, op.OwedSep(), op.level))
  }

  lemma OpKept(t: Tree, u: Tree, op: Op)
    requires Formed(t) && Formed(u) && OpOk(t, op) && Grows(t, u) && Undisturbed(t, u, op) && StillFresh(u, op)
    ensures OpOk(u, op)
  {
    hide Fresh, Changed, Divides, RightHalf, Keyed;
  }

  lemma OwingOwes(t: Tree, op: Op)
    requires OpOk(t, op) && op.Owing()
    ensures Owes(t, op.OwedSep(), op.OwedChild(), op.level)
  {
  }

  /** If one thread's step keeps the tree in order, leaves the others undisturbed and ends in a
      proper operation, the whole state is in order. */
  lemma Assemble(s: State, s': State, i: nat)
    requires Inv(s) && i < |s.ops| == |s'.ops| && s'.ops == s.ops[i := s'.ops[i]]
    requires TreeOk(s'.t, Replay(s'.hist)) && Legal(s'.hist) && Grows(s.t, s'.t)
    requires OpOk(s'.t, s'.ops[i])
    requires forall j :: 0 <= j < |s.ops| && j != i ==>
      Undisturbed(s.t, s'.t, s.ops[j]) && StillFresh(s'.t, s.ops[j]) && Compatible(s'.ops[i], s.ops[j])
    ensures Inv(s')
  {
    hide RootOk, Disjoint, PagesOk, Legal, Replay, OpOk, Undisturbed, StillFresh, Grows;
    forall j | 0 <= j < |s.ops| ensures OpOk(s'.t, s'.ops[j]) {
      if j != i {
        OpKept(s.t, s'.t, s.ops[j]);
      }
    }
  }

  /** A step that changes neither the tree nor the history. */
  lemma AssembleWalk(s: State, s': State, i: nat)
    requires Inv(s) && i < |s.ops| && s' == s.(ops := s.ops[i := s'.Op(i)])
    requires OpOk(s.t, s'.Op(i))
    requires !s'.Op(i).Splitting?
    requires s'.Op(i).Owing() ==> s.ops[i].Owing() && s'.Op(i).OwedChild() == s.ops[i].OwedChild()
    ensures Inv(s')
  {
    hide RootOk, Disjoint, PagesOk, Legal, Replay, OpOk;
    forall j | 0 <= j < |s.ops| ensures OpOk(s'.t, s'.ops[j]) {
    }
    forall j | 0 <= j < |s.ops| && j != i ensures Compatible(s'.ops[i], s.ops[j]) {
      assert Compatible(s.ops[i], s.ops[j]);
    }
  }

  // ----- writing a page -----

  /** The change that an operation brings to its page is one that the page can take: a separator
      lies strictly inside the page and is not there yet. */
  lemma ReadyChangeOk(s: State, i: nat)
    requires Inv(s) && i < |s.ops| && Ready(s, s.ops[i])
    ensures var op := s.ops[i]; ChangeOk(s.t, s.t.pages[op.at], ChangeOf(op))
  {
    hide Legal, Replay, Compatible, Disjoint, RootOk, PathOk, Keyed;
    var op := s.ops[i];
    assert OpOk(s.t, op);
    if op.Carry? {
      assert Unmarked(s.t.pages[op.at], op.sep);
    }
  }

  /** A changed page still does not mark a separator that another thread owes. */
  lemma OwedStaysUnmarked(t: Tree, m: Store, a: Addr, c: Change, sep: Key, child: Addr, level: nat)
    requires TreeOk(t, m) && a in t.linked && ChangeOk(t, t.pages[a], c) && Fits(t.pages[a], c)
    requires c.AddSep? ==> Owes(t, c.sep, c.child, t.pages[a].level) && c.child != child
    requires Owes(t, sep, child, level) && level <= t.pages[a].level
    ensures Unmarked(Changed(t.pages[a], c), sep) && t.pages[a].body.Inner?
  {
    hide Disjoint, FenceOk, DataOk, SizeOk, RootOk, Keyed;
    var p := t.pages[a];
    assert PageOk(t, p, m);
    LinkLevel(t, p);
    OwedSepsDiffer(t, m, sep, child, level, c.sep, c.child, p.level);
    assert Unmarked(p, sep);
    ChangedUnmarked(p, c, sep);
  }

  /** An owed separator stays fresh when one page is rewritten by another thread. */
  lemma WriteKeepsFresh(t: Tree, m: Store, a: Addr, c: Change, op: Op)
    requires TreeOk(t, m) && a in t.linked && ChangeOk(t, t.pages[a], c) && Fits(t.pages[a], c)
    requires c.AddSep? ==> Owes(t, c.sep, c.child, t.pages[a].level)
    requires OpOk(t, op) && (c.AddSep? && op.Owing() ==> op.OwedChild() != c.child)
    ensures StillFresh(Rewrite(t, a, Changed(t.pages[a], c)), op)
  {
    hide Disjoint, FenceOk, DataOk, SizeOk, RootOk, LinksOk, OpOk, Changed, Unmarked, ChangeOk;
    if op.Owing() {
      OwingOwes(t, op);
      ChangedShape(t.pages[a], c);
      if op.level <= t.pages[a].level {
        OwedStaysUnmarked(t, m, a, c, op.OwedSep(), op.OwedChild(), op.level);
      }
    }
  }

  lemma ReadyOwes(s: State, i: nat)
    requires Inv(s) && i < |s.ops| && Ready(s, s.ops[i])
    ensures var op := s.ops[i]; ChangeOf(op).AddSep? ==> Owes(s.t, op.sep, op.child, s.t.pages[op.at].level)
    ensures s.ops[i].at in s.t.linked
  {
    hide TreeOk, Legal, Replay, Compatible;
    assert OpOk(s.t, s.ops[i]);
  }

  lemma RewriteUndisturbed(t: Tree, a: Addr, q: Page, op: Op)
    requires OpOk(t, op) && a in t.linked && (op.Splitting? ==> op.at != a)
    ensures Undisturbed(t, Rewrite(t, a, q), op)
  {
  }

  lemma LogExtends(hist: seq<Event>, e: Event)
    ensures Replay(hist + [e]) == After(Replay(hist), e)
    ensures Legal(hist) && Truthful(Replay(hist), e) ==> Legal(hist + [e])
  {
    assert (hist + [e])[..|hist|] == hist;
  }

  lemma LoggedOk(hist: seq<Event>, c: Change)
    requires Legal(hist)
    ensures Legal(Logged(hist, c)) && Replay(Logged(hist, c)) == Effect(Replay(hist), c)
  {
    LogExtends(hist, Did(c));
  }

  lemma UnlockedApart(s: State, a: Addr, j: nat)
    requires j < |s.ops| && !s.Locked(a)
    ensures s.ops[j].Splitting? ==> s.ops[j].at != a
  {
  }

  lemma WriteKeepsInv(s: State, i: nat)
    requires Inv(s) && Enabled(s, i, Write)
    ensures Inv(Do(s, i, Write))
  {
    hide TreeOk, OpOk, Legal, Replay, ChangeOk, Changed, Fits, Effect, Grows, MustMove, Undisturbed, StillFresh, Owes;
    var op := s.ops[i];
    var c, t, s' := ChangeOf(op), s.t, Do(s, i, Write);
    ReadyChangeOk(s, i);
    ReadyOwes(s, i);
    RewriteOk(t, op.at, c, Replay(s.hist));
    LoggedOk(s.hist, c);
    forall j | 0 <= j < |s.ops| && j != i
      ensures Undisturbed(t, s'.t, s.ops[j]) && StillFresh(s'.t, s.ops[j]) && Compatible(Idle, s.ops[j])
    {
      assert Compatible(op, s.ops[j]) && OpOk(t, s.ops[j]);
      UnlockedApart(s, op.at, j);
      RewriteUndisturbed(t, op.at, Changed(t.pages[op.at], c), s.ops[j]);
      WriteKeepsFresh(t, Replay(s.hist), op.at, c, s.ops[j]);
    }
    IdleOk(s'.t);
    Assemble(s, s', i);
  }

  lemma IdleOk(t: Tree)
    ensures OpOk(t, Idle)
  {
  }

  // ----- splitting -----

  lemma UnlinkedKeepsFresh(t: Tree, a: Addr, p: Page, op: Op)
    requires Formed(t) && OpOk(t, op) && a !in t.linked
    ensures StillFresh(Rewrite(t, a, p), op)
  {
    if op.Owing() {
      OwingOwes(t, op);
    }
  }

  lemma ChangeKept(t: Tree, u: Tree, p: Page, c: Change)
    requires Grows(t, u) && ChangeOk(t, p, c)
    ensures ChangeOk(u, p, c)
  {
  }

  lemma PathKept(t: Tree, u: Tree, path: Path, at: Addr)
    requires Grows(t, u) && PathOk(t, path, at) && at in t.linked
    ensures PathOk(u, path, at)
  {
  }

  lemma DropLeavesRoom(t: Tree, m: Store, a: Addr, c: Change)
    requires TreeOk(t, m) && a in t.linked && Fits(t.pages[a], c) && c.DropKey?
    ensures Changed(t.pages[a], c).Size() < t.pages[a].Card()
  {
    hide RootOk, Disjoint, FenceOk, LinksOk, DataOk;
    assert PageOk(t, t.pages[a], m);
    var d := t.pages[a].body.data;
    assert (d - {c.k}).Keys <= d.Keys;
    SubsetSize((d - {c.k}).Keys, d.Keys);
    assert |(d - {c.k}).Keys| == |d - {c.k}| && |d.Keys| == |d|;
  }

  lemma {:induction false} SubsetSize(a: set<Key>, b: set<Key>)
    requires a <= b
    ensures |a| <= |b|
  {
    if a != {} {
      var x :| x in a;
      SubsetSize(a - {x}, b - {x});
    }
  }

  lemma NewSplittingOk(t: Tree, m: Store, op: Op)
    requires TreeOk(t, m) && op.Splitting? && op.at in t.linked && Fits(t.pages[op.at], op.change)
    requires op.level == t.pages[op.at].level && ChangeOk(t, t.pages[op.at], op.change)
    requires PathOk(t, op.path, op.at) && op.sib !in t.pages && op.sib != NULL_ADDR
    requires var q := Changed(t.pages[op.at], op.change); q.Size() == q.Card() && Divides(q, op.sep)
    requires op.change.AddSep? ==> Owes(t, op.change.sep, op.change.child, op.level)
    ensures OpOk(Rewrite(t, op.sib, RightHalf(Changed(t.pages[op.at], op.change), op.sep)), op)
  {
    hide RootOk, Disjoint, PagesOk, Changed, Divides, RightHalf, ChangeOk, Fits, Grows, PathOk, Unmarked;
    var q := Changed(t.pages[op.at], op.change);
    var u := Rewrite(t, op.sib, RightHalf(q, op.sep));
    UnlinkedOk(t, op.sib, RightHalf(q, op.sep), m);
    ChangeKept(t, u, t.pages[op.at], op.change);
    ChangedShape(t.pages[op.at], op.change);
    PathKept(t, u, op.path, op.at);
    if op.change.DropKey? {
      DropLeavesRoom(t, m, op.at, op.change);
    }
  }

  lemma WriteSiblingKeepsInv(s: State, i: nat, sep: Key, sib: Addr)
    requires Inv(s) && Enabled(s, i, WriteSibling(sep, sib))
    ensures Inv(Do(s, i, WriteSibling(sep, sib)))
  {
    hide RootOk, Disjoint, PagesOk, OpOk, Legal, Replay, ChangeOk, Changed, Fits, Effect, Grows, MustMove, Undisturbed, StillFresh, Owes, Divides, RightHalf, PathOk;
    var op, t := s.ops[i], s.t;
    var s' := Do(s, i, WriteSibling(sep, sib));
    ReadyChangeOk(s, i);
    ReadyOwes(s, i);
    WalkerPath(t, op);
    UnlinkedOk(t, sib, s'.t.pages[sib], Replay(s.hist));
    NewSplittingOk(t, Replay(s.hist), s'.ops[i]);
    forall j | 0 <= j < |s.ops| && j != i
      ensures Undisturbed(t, s'.t, s.ops[j]) && StillFresh(s'.t, s.ops[j]) && Compatible(s'.ops[i], s.ops[j])
    {
      assert Compatible(op, s.ops[j]) && OpOk(t, s.ops[j]);
      UnlockedApart(s, op.at, j);
      if s.ops[j].Splitting? {
        SplittingPages(t, s.ops[j]);
      }
      NewPageUndisturbed(t, sib, s'.t.pages[sib], s.ops[j]);
      UnlinkedKeepsFresh(t, sib, s'.t.pages[sib], s.ops[j]);
    }
    Assemble(s, s', i);
  }

  lemma WalkerPath(t: Tree, op: Op)
    requires OpOk(t, op) && (op.Down? || op.Carry?)
    ensures PathOk(t, op.path, op.at) && op.at in t.linked
  {
  }

  lemma SplittingPages(t: Tree, op: Op)
    requires OpOk(t, op) && op.Splitting?
    ensures op.at in t.linked && op.sib in t.pages && op.sib !in t.linked
  {
  }

  lemma NewPageUndisturbed(t: Tree, a: Addr, p: Page, op: Op)
    requires Formed(t) && a !in t.pages
    ensures Undisturbed(t, Rewrite(t, a, p), op)
  {
  }

  ghost function AfterLeft(t: Tree, op: Op): Tree
    requires op.Splitting? && SplittingOk(t, op)
  {
    Cut(t, op.at, LeftHalf(Changed(t.pages[op.at], op.change), op.sep, op.sib), op.sib)
  }

  lemma CutUndisturbed(t: Tree, a: Addr, left: Page, sib: Addr, op: Op)
    requires OpOk(t, op) && a in t.linked && sib in t.pages && sib !in t.linked
    requires op.Splitting? ==> op.at != a && op.sib != sib
    ensures Undisturbed(t, Cut(t, a, left, sib), op)
  {
  }

  /** The boundary that a split adds is a separator that the changed page held, so it is not one
      that another thread still owes. */
  lemma CutKeepsFresh(t: Tree, m: Store, op: Op, other: Op)
    requires TreeOk(t, m) && OpOk(t, op) && op.Splitting? && OpOk(t, other)
    requires op.change.AddSep? && other.Owing() ==> other.OwedChild() != op.change.child
    ensures StillFresh(AfterLeft(t, op), other)
  {
    hide Disjoint, PagesOk, RootOk, Changed, Unmarked, ChangeOk, Fits, PathOk;
    if other.Owing() {
      var p := t.pages[op.at];
      OwingOwes(t, other);
      ChangedShape(p, op.change);
      hide OpOk;
      if other.level <= p.level {
        OwedStaysUnmarked(t, m, op.at, op.change, other.OwedSep(), other.OwedChild(), other.level);
        HalvesUnmarked(Changed(p, op.change), op.sep, op.sib, other.OwedSep());
      }
    }
  }

  /** The new separator lies strictly inside the page that was split: the source's two assertions
      on the split key. */
  lemma SplitKeyInside(t: Tree, m: Store, op: Op)
    requires TreeOk(t, m) && op.Splitting? && SplittingOk(t, op)
    ensures t.pages[op.at].lo < op.sep < t.pages[op.at].hi <= KEY_MAX
    ensures t.pages[op.sib].lo == op.sep && t.pages[op.sib].level == op.level
  {
    hide Disjoint, RootOk, LinksOk, DataOk, SizeOk, ChangeOk, Fits, Changed;
    var p := t.pages[op.at];
    assert PageOk(t, p, m);
    ChangedOk(t, p, op.change, m);
    ChangedShape(p, op.change);
    DividesInside(t, Changed(p, op.change), op.sep, Effect(m, op.change));
  }

  /** A thread that has linked a sibling owes its separator to the level above. */
  lemma SplitterOwes(t: Tree, m: Store, op: Op)
    requires TreeOk(t, m) && op.Splitting? && SplittingOk(t, op)
    ensures Owes(AfterLeft(t, op), op.sep, op.sib, op.level + 1)
  {
    hide Disjoint, RootOk, PagesOk, ChangeOk, Fits, Changed, Divides, RightHalf, Unmarked;
    SplitKeyInside(t, m, op);
    InsideIsUnmarked(t, m, op.at, op.sep);
    ChangedShape(t.pages[op.at], op.change);
  }

  lemma ClimbOk(t: Tree, u: Tree, op: Op)
    requires OpOk(t, op) && op.Splitting? && Grows(t, u) && Formed(u)
    requires t.pages[op.at].lo < op.sep && Owes(u, op.sep, op.sib, op.level + 1)
    ensures OpOk(u, AfterSplit(op))
  {
    hide Fresh, ChangeOk, Fits, Changed, Divides, RightHalf;
    if op.level + 1 in op.path {
      var up := op.path[op.level + 1];
      assert At(t, up, t.pages[op.at].lo) && t.pages[up].level == op.level + 1;
      assert PathOk(t, op.path, up);
      PathKept(t, u, op.path, up);
    }
  }

  lemma WriteLeftKeepsInv(s: State, i: nat)
    requires Inv(s) && Enabled(s, i, WriteLeft)
    ensures Inv(Do(s, i, WriteLeft))
  {
    hide TreeOk, OpOk, Legal, Replay, ChangeOk, Changed, Fits, Effect, Grows, Undisturbed, StillFresh, Owes, Divides, LeftHalf, RightHalf;
    var op, t, m := s.ops[i], s.t, Replay(s.hist);
    var s' := Do(s, i, WriteLeft);
    assert OpOk(t, op);
    SplittingParts(t, op);
    CutOk(t, op.at, op.change, op.sep, op.sib, m);
    SplitKeyInside(t, m, op);
    SplitterOwes(t, m, op);
    TreeFormed(s'.t, Effect(m, op.change));
    ClimbOk(t, s'.t, op);
    LoggedOk(s.hist, op.change);
    forall j | 0 <= j < |s.ops| && j != i
      ensures Undisturbed(t, s'.t, s.ops[j]) && StillFresh(s'.t, s.ops[j]) && Compatible(s'.ops[i], s.ops[j])
    {
      assert Compatible(op, s.ops[j]) && OpOk(t, s.ops[j]);
      CutUndisturbed(t, op.at, s'.t.pages[op.at], op.sib, s.ops[j]);
      CutKeepsFresh(t, m, op, s.ops[j]);
      if s.ops[j].Owing() {
        OwedLinked(t, s.ops[j]);
      }
    }
    Assemble(s, s', i);
  }

  lemma SplittingParts(t: Tree, op: Op)
    requires OpOk(t, op) && op.Splitting?
    ensures SplittingOk(t, op)
  {
  }

  lemma TreeFormed(t: Tree, m: Store)
    requires TreeOk(t, m)
    ensures Formed(t) && RootOk(t) && t.root in t.pages && t.pages[t.root].lo == KEY_MIN
  {
  }

  lemma OwedLinked(t: Tree, op: Op)
    requires OpOk(t, op) && op.Owing()
    ensures op.OwedChild() in t.linked
  {
  }

  // ----- the root -----

  lemma GrowKeepsFresh(t: Tree, m: Store, op: Op, r: Addr, other: Op)
    requires TreeOk(t, m) && OpOk(t, op) && op.Raise? && t.root == op.page && r !in t.pages && r != NULL_ADDR
    requires OpOk(t, other) && (other.Owing() ==> other.OwedChild() != op.child)
    ensures StillFresh(Grow(t, r, op.sep, op.child), other)
  {
    hide Disjoint, PagesOk, ChangeOk, Fits, PathOk, SplittingOk;
    if other.Owing() {
      OwingOwes(t, other);
      if other.level <= op.level {
        OwedSepsDiffer(t, m, other.OwedSep(), other.OwedChild(), other.level, op.sep, op.child, op.level);
      }
      var u := Grow(t, r, op.sep, op.child);
      assert u.pages[r].body.seps == [Sep(op.sep, op.child)];
    }
  }

  lemma GrowUndisturbed(t: Tree, r: Addr, sep: Key, child: Addr, op: Op)
    requires t.root in t.pages && r !in t.pages
    ensures Undisturbed(t, Grow(t, r, sep, child), op)
  {
  }

  lemma GrowRootKeepsInv(s: State, i: nat, r: Addr)
    requires Inv(s) && Enabled(s, i, GrowRoot(r))
    ensures Inv(Do(s, i, GrowRoot(r)))
  {
    hide Legal, Replay, Disjoint, PagesOk, PathOk, Fresh, Grows, Undisturbed, StillFresh, SplittingOk, NewRoot;
    var op, t, m := s.ops[i], s.t, Replay(s.hist);
    var s' := Do(s, i, GrowRoot(r));
    assert OpOk(t, op);
    GrowOk(t, r, op.sep, op.child, m);
    forall j | 0 <= j < |s.ops| && j != i
      ensures Undisturbed(t, s'.t, s.ops[j]) && StillFresh(s'.t, s.ops[j]) && Compatible(Idle, s.ops[j])
    {
      hide OpOk;
      assert Compatible(op, s.ops[j]) && OpOk(t, s.ops[j]);
      GrowUndisturbed(t, r, op.sep, op.child, s.ops[j]);
      GrowKeepsFresh(t, m, op, r, s.ops[j]);
    }
    Assemble(s, s', i);
  }

  // ----- every step, every run -----

  lemma BeginOk(t: Tree, m: Store, k: Key, kind: Kind, at: Addr)
    requires TreeOk(t, m) && CanBegin(Idle, k, kind)
    requires at == t.root || (at in t.linked && at in t.pages && t.pages[at].Covers(k))
    ensures OpOk(t, Down(k, kind, at, map[]))
  {
    hide Disjoint, PagesOk;
  }

  lemma RejoinOk(t: Tree, m: Store, op: Op)
    requires TreeOk(t, m) && OpOk(t, op) && op.Raise? && op.level <= t.pages[t.root].level
    ensures OpOk(t, Carry(op.sep, op.child, op.level, t.root, map[]))
  {
    hide Disjoint, PagesOk, Fresh;
  }

  /** A lookup answers what the stored map holds at that moment. */
  lemma AnswerIsCurrent(s: State, i: nat)
    requires Inv(s) && Enabled(s, i, Answer)
    ensures var op := s.ops[i]; Lookup(s.t.pages[op.at].body.data, op.k) == Lookup(Replay(s.hist), op.k)
  {
    hide Legal, Replay, Disjoint, FenceOk, LinksOk, SizeOk, RootOk, PathOk, Compatible;
    var op := s.ops[i];
    assert OpOk(s.t, op);
    assert PageOk(s.t, s.t.pages[op.at], Replay(s.hist));
    LeafAnswers(s.t.pages[op.at], Replay(s.hist), op.k);
  }

  lemma AnswerKeepsInv(s: State, i: nat)
    requires Inv(s) && Enabled(s, i, Answer)
    ensures Inv(Do(s, i, Answer))
  {
    hide Legal, Replay, TreeOk, OpOk, Logged, Truthful, Lookup;
    var op := s.ops[i];
    var s' := Do(s, i, Answer);
    var e := Got(op.k, Lookup(s.t.pages[op.at].body.data, op.k));
    AnswerIsCurrent(s, i);
    AnswerLogged(s.hist, e);
    IdleOk(s.t);
  }

  lemma AnswerLogged(hist: seq<Event>, e: Event)
    requires Legal(hist) && e.Got? && e.v == Lookup(Replay(hist), e.k)
    ensures Legal(hist + [e]) && Replay(hist + [e]) == Replay(hist)
  {
    LogExtends(hist, e);
  }

  lemma StepKeepsInv(s: State, i: nat, act: Action)
    requires Inv(s) && Enabled(s, i, act)
    ensures Inv(Do(s, i, act))
  {
    hide TreeOk, OpOk, Legal, Replay, Owes, Ready, Route;
    assert OpOk(s.t, s.ops[i]);
    TreeFormed(s.t, Replay(s.hist));
    var m := Replay(s.hist);
    match act
    case Begin(k, kind) =>
      BeginOk(s.t, m, k, kind, s.t.root);
      AssembleWalk(s, Do(s, i, act), i);
    case BeginCached(k, kind, leaf) =>
      BeginOk(s.t, m, k, kind, if s.t.pages[leaf].Covers(k) then leaf else s.t.root);
      AssembleWalk(s, Do(s, i, act), i);
    case Move =>
      MoveOk(s.t, m, s.ops[i]);
      AssembleWalk(s, Do(s, i, act), i);
    case Answer => AnswerKeepsInv(s, i);
    case Write => WriteKeepsInv(s, i);
    case WriteSibling(sep, sib) => WriteSiblingKeepsInv(s, i, sep, sib);
    case WriteLeft => WriteLeftKeepsInv(s, i);
    case GrowRoot(r) => GrowRootKeepsInv(s, i, r);
    case Rejoin =>
      RejoinOk(s.t, m, s.ops[i]);
      AssembleWalk(s, Do(s, i, act), i);
  }

  /** One empty leaf, which is the root, and no operation under way. */
  predicate Init(s: State) {
    && s.t.root != NULL_ADDR
    && s.t.linked == {s.t.root}
    && s.t.pages == map[s.t.root := Page(0, KEY_MIN, KEY_MAX, NULL_ADDR, Leaf(map[]))]
    && s.hist == []
    && forall i :: 0 <= i < |s.ops| ==> s.ops[i] == Idle
  }

  lemma InitInv(s: State)
    requires Init(s)
    ensures Inv(s)
  {
    var p := s.t.pages[s.t.root];
    assert Part(map[], KEY_MIN, KEY_MAX) == map[];
    assert PageOk(s.t, p, map[]);
  }

  ghost predicate Next(s: State, s': State) {
    exists i, act :: Enabled(s, i, act) && s' == Do(s, i, act)
  }

  ghost predicate Run(run: seq<State>) {
    && run != []
    && Init(run[0])
    && forall n :: 0 <= n < |run| - 1 ==> Next(run[n], run[n + 1])
  }

  /** In every state that any interleaving reaches, the tree is well formed for the map that the
      completed operations leave, every lookup so far returned what that order of operations says,
      and so a search from the root returns the map's value for every key. */
  lemma {:induction false} RunInv(run: seq<State>, n: nat)
    requires Run(run) && n < |run|
    ensures Inv(run[n])
  {
    if n == 0 {
      InitInv(run[0]);
    } else {
      RunInv(run, n - 1);
      assert Next(run[n - 1], run[n - 1 + 1]);
      var i, act :| Enabled(run[n - 1], i, act) && run[n] == Do(run[n - 1], i, act);
      StepKeepsInv(run[n - 1], i, act);
    }
  }

  /** The search from the root of any reachable state. */
  method SearchInRun(ghost run: seq<State>, t: Tree, ghost hist: seq<Event>, k: Key) returns (v: Value)
    requires Run(run) && k < KEY_MAX
    requires t == run[|run| - 1].t && hist == run[|run| - 1].hist
    ensures v == Lookup(Replay(hist), k) && Legal(hist)
  {
    RunInv(run, |run| - 1);
    v := Search(t, Replay(hist), k);
  }
}
