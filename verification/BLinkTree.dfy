/** The B-link tree as a value: its pages, what makes it well formed with respect to the map it
    stores, and that a search from its root finds what the map holds. Pages keep their level and
    their lowest key for ever; a split makes a new right neighbour. */
module BLinkTree {
  import opened BLinkPage

  const KEY_MIN: Key := 0
  const KEY_MAX: Key := 0xFFFF_FFFF_FFFF_FFFF
  const NULL_ADDR: Addr := 0

  /** How many records a leaf and an internal page hold; any numbers from 4 on will do. */
  type Card = n: nat | 4 <= n witness 4
  const LEAF_CARD: Card
  const INNER_CARD: Card

  datatype Body = Leaf(data: Store) | Inner(leftmost: Addr, seps: seq<Sep>)

  /** A page serves the keys from `lo` up to but not including `hi`. */
  datatype Page = Page(level: nat, lo: Key, hi: Key, sibling: Addr, body: Body) {
    predicate Covers(k: Key) {
      lo <= k < hi
    }

    function Size(): nat {
      match body
      case Leaf(data) => |data|
      case Inner(_, seps) => |seps|
    }

    function Card(): nat {
      if body.Leaf? then LEAF_CARD else INNER_CARD
    }
  }

  /** `linked` are the pages that other pages or the root pointer can lead to. A page that was
      written but not yet linked is in `pages` only. */
  datatype Tree = Tree(pages: map<Addr, Page>, linked: set<Addr>, root: Addr)

  function Lookup(m: Store, k: Key): Value {
    if k in m then m[k] else NULL_VALUE
  }

  // ----- well-formedness -----

  /** `a` is a linked page on this level whose lowest key is `lo`. */
  ghost predicate Starts(t: Tree, a: Addr, level: nat, lo: Key) {
    a in t.linked && a in t.pages && t.pages[a].level == level && t.pages[a].lo == lo
  }

  ghost predicate FenceOk(t: Tree, p: Page) {
    && p.lo < p.hi <= KEY_MAX
    && (if p.hi == KEY_MAX then p.sibling == NULL_ADDR else Starts(t, p.sibling, p.level, p.hi))
  }

  ghost predicate SepOk(t: Tree, p: Page, s: Sep) {
    p.level > 0 && p.lo < s.key < p.hi && Starts(t, s.ptr, p.level - 1, s.key)
  }

  ghost predicate LinksOk(t: Tree, p: Page) {
    match p.body
    case Leaf(_) => p.level == 0
    case Inner(leftmost, seps) =>
      && p.level > 0
      && Starts(t, leftmost, p.level - 1, p.lo)
      && Sorted(seps)
      && forall s :: s in seps ==> SepOk(t, p, s)
  }

  /** Never full: a page that fills up is split in the same write. */
  ghost predicate SizeOk(p: Page) {
    p.Size() < p.Card() && (p.body.Inner? ==> 1 <= p.Size())
  }

  ghost predicate DataOk(p: Page, m: Store) {
    p.body.Leaf? ==> p.body.data == Part(m, p.lo, p.hi)
  }

  ghost predicate PageOk(t: Tree, p: Page, m: Store) {
    FenceOk(t, p) && LinksOk(t, p) && SizeOk(p) && DataOk(p, m)
  }

  ghost predicate Apart(p: Page, q: Page) {
    p.level == q.level ==> p.hi <= q.lo || q.hi <= p.lo
  }

  ghost predicate Disjoint(t: Tree)
    requires t.linked <= t.pages.Keys
  {
    forall a, b :: a in t.linked && b in t.linked && a != b ==> Apart(t.pages[a], t.pages[b])
  }

  ghost predicate RootOk(t: Tree)
    requires t.linked <= t.pages.Keys
  {
    && t.root in t.linked
    && t.pages[t.root].lo == KEY_MIN
    && forall a :: a in t.linked ==> t.pages[a].level <= t.pages[t.root].level
  }

  ghost predicate PagesOk(t: Tree, m: Store)
    requires t.linked <= t.pages.Keys
  {
    forall a :: a in t.linked ==> PageOk(t, t.pages[a], m)
  }

  ghost predicate Formed(t: Tree) {
    t.linked <= t.pages.Keys && NULL_ADDR !in t.linked
  }

  ghost predicate TreeOk(t: Tree, m: Store) {
    Formed(t) && RootOk(t) && Disjoint(t) && PagesOk(t, m)
  }

  // ----- routing -----

  /** A page sends a key it covers to a child one level down whose lowest key is not above it. */
  lemma RouteOk(t: Tree, p: Page, k: Key)
    requires LinksOk(t, p) && p.body.Inner? && p.Covers(k)
    ensures var c := Route(p.body.leftmost, p.body.seps, k);
            c in t.linked && c in t.pages && t.pages[c].level == p.level - 1 && p.lo <= t.pages[c].lo <= k
  {
    var n := Above(p.body.seps, k, 0);
    if n > 0 {
      assert p.body.seps[n - 1] in p.body.seps;
      assert SepOk(t, p, p.body.seps[n - 1]);
    }
  }

  lemma RightOk(t: Tree, p: Page, k: Key)
    requires FenceOk(t, p) && p.hi <= k < KEY_MAX
    ensures Starts(t, p.sibling, p.level, p.hi) && p.lo < p.hi
  {
  }

  /** The search from the root: moving right while the key is not below the highest key, descending
      otherwise. It terminates in every well-formed tree, also while parents miss new pages, and
      returns what the map holds; the key is never below a page's lowest key and a move to the right
      never meets the null pointer. */
  method Search(t: Tree, ghost m: Store, k: Key) returns (v: Value)
    requires TreeOk(t, m) && k < KEY_MAX
    ensures v == Lookup(m, k)
  {
    hide Disjoint, SizeOk, FenceOk, LinksOk, DataOk;
    var a := t.root;
    while true
      invariant a in t.linked && t.pages[a].lo <= k
      decreases t.pages[a].level, k - t.pages[a].lo
    {
      var p := t.pages[a];
      assert PageOk(t, p, m);
      if p.hi <= k {
        RightOk(t, p, k);
        assert p.sibling != NULL_ADDR;
        a := p.sibling;
      } else if p.body.Inner? {
        RouteOk(t, p, k);
        LinkLevel(t, p);
        a := Route(p.body.leftmost, p.body.seps, k);
      } else {
        LeafAnswers(p, m, k);
        return Lookup(p.body.data, k);
      }
    }
  }

  lemma LinkLevel(t: Tree, p: Page)
    requires LinksOk(t, p)
    ensures p.body.Inner? <==> p.level > 0
  {
  }

  lemma LeafAnswers(p: Page, m: Store, k: Key)
    requires DataOk(p, m) && p.body.Leaf? && p.Covers(k)
    ensures Lookup(p.body.data, k) == Lookup(m, k)
  {
  }

  // ----- one page changes -----

  /** What an operation does to the page it holds the lock of. */
  datatype Change = PutKey(k: Key, v: Value) | DropKey(k: Key) | AddSep(sep: Key, child: Addr)

  /** What the change does to the stored map. */
  function Effect(m: Store, c: Change): Store {
    match c
    case PutKey(k, v) => m[k := v]
    case DropKey(k) => m - {k}
    case AddSep(_, _) => m
  }

  ghost predicate Keyed(seps: seq<Sep>, k: Key) {
    exists s :: s in seps && s.key == k
  }

  ghost predicate ChangeOk(t: Tree, p: Page, c: Change) {
    match c
    case PutKey(k, _) => p.body.Leaf? && p.Covers(k)
    case DropKey(k) => p.body.Leaf? && p.Covers(k)
    case AddSep(sep, child) => p.body.Inner? && SepOk(t, p, Sep(sep, child)) && !Keyed(p.body.seps, sep)
  }

  predicate Fits(p: Page, c: Change) {
    c.AddSep? <==> p.body.Inner?
  }

  function Changed(p: Page, c: Change): Page
    requires Fits(p, c)
  {
    match c
    case PutKey(k, v) => p.(body := Leaf(p.body.data[k := v]))
    case DropKey(k) => p.(body := Leaf(p.body.data - {k}))
    case AddSep(sep, child) => p.(body := Inner(p.body.leftmost, InsertSep(p.body.seps, sep, child)))
  }

  lemma PartEffect(m: Store, c: Change, lo: Key, hi: Key)
    ensures var n := Part(m, lo, hi);
            match c
            case PutKey(k, v) => Part(m[k := v], lo, hi) == if lo <= k < hi then n[k := v] else n
            case DropKey(k) => Part(m - {k}, lo, hi) == if lo <= k < hi then n - {k} else n
            case AddSep(_, _) => true
  {
  }

  /** A changed page is as before except that it may have become full. */
  lemma ChangedOk(t: Tree, p: Page, c: Change, m: Store)
    requires PageOk(t, p, m) && ChangeOk(t, p, c)
    ensures Fits(p, c)
    ensures var q := Changed(p, c);
            FenceOk(t, q) && LinksOk(t, q) && DataOk(q, Effect(m, c)) && q.Size() <= q.Card() && (q.body.Inner? ==> 1 <= q.Size())
  {
    var q := Changed(p, c);
    match c
    case PutKey(k, v) => PartEffect(m, c, p.lo, p.hi);
    case DropKey(k) => PartEffect(m, c, p.lo, p.hi);
    case AddSep(sep, child) =>
      hide Sorted, InsertSep;
      InsertSepSorted(p.body.seps, sep, child);
      InsertSepMembers(p.body.seps, sep, child);
      InsertSepLength(p.body.seps, sep, child);
      forall s | s in q.body.seps ensures SepOk(t, q, s) {
        assert s in p.body.seps ==> SepOk(t, p, s);
      }
  }

  /** The change of one leaf leaves the pages beside it in agreement with the map. */
  lemma BesideOk(p: Page, q: Page, c: Change, m: Store)
    requires DataOk(q, m) && Apart(p, q)
    requires q.body.Leaf? ==> q.level == 0
    requires p.body.Leaf? ==> p.level == 0
    requires c.PutKey? || c.DropKey? ==> p.body.Leaf? && p.Covers(c.k)
    ensures DataOk(q, Effect(m, c))
  {
    PartEffect(m, c, q.lo, q.hi);
  }

  /** Linked pages stay linked and keep level and lowest key. */
  ghost predicate Grows(t: Tree, u: Tree) {
    forall a :: a in t.linked && a in t.pages ==>
      a in u.linked && a in u.pages && u.pages[a].level == t.pages[a].level && u.pages[a].lo == t.pages[a].lo
  }

  lemma GrownPageOk(t: Tree, u: Tree, p: Page)
    requires Grows(t, u) && FenceOk(t, p) && LinksOk(t, p)
    ensures FenceOk(u, p) && LinksOk(u, p)
  {
    if p.body.Inner? {
      forall s | s in p.body.seps ensures SepOk(u, p, s) {
        assert SepOk(t, p, s);
      }
    }
  }

  function Rewrite(t: Tree, a: Addr, q: Page): Tree {
    t.(pages := t.pages[a := q])
  }

  lemma RewriteGrows(t: Tree, a: Addr, q: Page)
    requires a in t.pages && (a in t.linked ==> q.level == t.pages[a].level && q.lo == t.pages[a].lo)
    ensures Grows(t, Rewrite(t, a, q))
  {
  }

  /** All pages except `a` are still in order once `a` has changed. */
  lemma BesidesOk(t: Tree, u: Tree, a: Addr, c: Change, m: Store)
    requires TreeOk(t, m) && a in t.linked && ChangeOk(t, t.pages[a], c) && Grows(t, u)
    ensures forall b :: b in t.linked && b != a ==> PageOk(u, t.pages[b], Effect(m, c))
  {
    hide RootOk, SizeOk, FenceOk, LinksOk, DataOk, Starts, Apart, Grows, Effect, Keyed, SepOk;
    forall b | b in t.linked && b != a ensures PageOk(u, t.pages[b], Effect(m, c)) {
      assert PageOk(t, t.pages[b], m) && PageOk(t, t.pages[a], m);
      GrownPageOk(t, u, t.pages[b]);
      LinkLevel(t, t.pages[a]);
      LinkLevel(t, t.pages[b]);
      BesideOk(t.pages[a], t.pages[b], c, m);
    }
  }

  /** A change that leaves the page below its capacity, written in place. */
  lemma RewriteOk(t: Tree, a: Addr, c: Change, m: Store)
    requires TreeOk(t, m) && a in t.linked && ChangeOk(t, t.pages[a], c)
    requires Fits(t.pages[a], c) && Changed(t.pages[a], c).Size() < t.pages[a].Card()
    ensures TreeOk(Rewrite(t, a, Changed(t.pages[a], c)), Effect(m, c))
    ensures Grows(t, Rewrite(t, a, Changed(t.pages[a], c)))
  {
    hide Disjoint, FenceOk, LinksOk, DataOk, Effect, ChangeOk, Grows, Changed, Fits;
    var p := t.pages[a];
    var q := Changed(p, c);
    var u := Rewrite(t, a, q);
    assert PageOk(t, p, m);
    ChangedOk(t, p, c, m);
    ChangedShape(p, c);
    RewriteGrows(t, a, q);
    BesidesOk(t, u, a, c, m);
    GrownPageOk(t, u, q);
    ReshapedDisjoint(t, a, q);
  }

  lemma ChangedShape(p: Page, c: Change)
    requires Fits(p, c)
    ensures var q := Changed(p, c); q == p.(body := q.body) && q.body.Leaf? == p.body.Leaf?
  {
  }

  lemma ReshapedDisjoint(t: Tree, a: Addr, q: Page)
    requires Formed(t) && Disjoint(t) && a in t.linked
    requires q.level == t.pages[a].level && t.pages[a].lo <= q.lo && q.hi <= t.pages[a].hi
    ensures Disjoint(Rewrite(t, a, q))
  {
  }

  // ----- a full page splits -----

  /** `sep` is where a full page divides: the key, or separator, in the middle. */
  ghost predicate Divides(q: Page, sep: Key) {
    match q.body
    case Leaf(data) => sep in data && |Part(data, q.lo, sep)| == |data| / 2
    case Inner(_, seps) => 3 <= |seps| && seps[|seps| / 2].key == sep
  }

  /** The left half, written over the page: it ends at `sep` and leads to its new sibling. */
  function LeftHalf(q: Page, sep: Key, sib: Addr): Page {
    match q.body
    case Leaf(data) => Page(q.level, q.lo, sep, sib, Leaf(Part(data, q.lo, sep)))
    case Inner(leftmost, seps) => Page(q.level, q.lo, sep, sib, Inner(leftmost, seps[..|seps| / 2]))
  }

  /** The right half, written to a new page: the middle separator's child becomes its leftmost one. */
  function RightHalf(q: Page, sep: Key): Page {
    match q.body
    case Leaf(data) => Page(q.level, sep, q.hi, q.sibling, Leaf(Part(data, sep, q.hi)))
    case Inner(_, seps) =>
      if seps == [] then q
      else Page(q.level, sep, q.hi, q.sibling, Inner(seps[|seps| / 2].ptr, seps[|seps| / 2 + 1..]))
  }

  lemma PartsAdd(m: Store, lo: Key, sep: Key, hi: Key)
    requires lo <= sep <= hi && forall k :: k in m ==> lo <= k < hi
    ensures |Part(m, lo, sep)| + |Part(m, sep, hi)| == |m|
  {
    var l, r := Part(m, lo, sep), Part(m, sep, hi);
    assert m.Keys == l.Keys + r.Keys;
    assert |l.Keys| == |l| && |r.Keys| == |r| && |m.Keys| == |m|;
  }

  /** The separator lies strictly inside the page's range. */
  lemma DividesInside(t: Tree, q: Page, sep: Key, m: Store)
    requires LinksOk(t, q) && DataOk(q, m) && q.Size() == q.Card() && Divides(q, sep)
    ensures q.lo < sep < q.hi
  {
    match q.body
    case Leaf(data) =>
      assert Part(data, q.lo, sep) != map[];
      var k :| k in Part(data, q.lo, sep);
    case Inner(_, seps) => assert SepOk(t, q, seps[|seps| / 2]);
  }

  lemma LeafHalvesOk(q: Page, sep: Key, sib: Addr, m: Store)
    requires q.body.Leaf? && DataOk(q, m) && q.lo < sep < q.hi && q.Size() == q.Card() && Divides(q, sep)
    ensures var l, r := LeftHalf(q, sep, sib), RightHalf(q, sep);
            SizeOk(l) && SizeOk(r) && DataOk(l, m) && DataOk(r, m)
  {
    PartsAdd(q.body.data, q.lo, sep, q.hi);
    assert Part(Part(m, q.lo, q.hi), q.lo, sep) == Part(m, q.lo, sep);
    assert Part(Part(m, q.lo, q.hi), sep, q.hi) == Part(m, sep, q.hi);
  }

  lemma InnerHalvesOk(t: Tree, q: Page, sep: Key, sib: Addr)
    requires q.body.Inner? && LinksOk(t, q) && q.Size() == q.Card() && Divides(q, sep)
    ensures var l, r := LeftHalf(q, sep, sib), RightHalf(q, sep);
            LinksOk(t, l) && LinksOk(t, r) && SizeOk(l) && SizeOk(r)
  {
    hide Starts;
    var l, r, seps := LeftHalf(q, sep, sib), RightHalf(q, sep), q.body.seps;
    var h := |seps| / 2;
    assert SepOk(t, q, seps[h]);
    forall s | s in l.body.seps ensures SepOk(t, l, s) {
      var i :| 0 <= i < h && seps[i] == s;
      assert SepOk(t, q, seps[i]);
    }
    forall s | s in r.body.seps ensures SepOk(t, r, s) {
      var i :| h < i < |seps| && seps[i] == s;
      assert SepOk(t, q, seps[i]);
    }
  }

  /** Both halves of a full page, once the sibling is linked. */
  lemma HalvesOk(t: Tree, q: Page, sep: Key, sib: Addr, m: Store)
    requires FenceOk(t, q) && LinksOk(t, q) && DataOk(q, m) && q.Size() == q.Card() && Divides(q, sep)
    requires Starts(t, sib, q.level, sep)
    ensures PageOk(t, LeftHalf(q, sep, sib), m) && PageOk(t, RightHalf(q, sep), m)
  {
    DividesInside(t, q, sep, m);
    if q.body.Leaf? {
      LeafHalvesOk(q, sep, sib, m);
    } else {
      InnerHalvesOk(t, q, sep, sib);
    }
  }

  /** The tree once the left half is written: the sibling, already in memory, becomes reachable. */
  function Cut(t: Tree, a: Addr, left: Page, sib: Addr): Tree {
    t.(pages := t.pages[a := left], linked := t.linked + {sib})
  }

  lemma CutDisjoint(t: Tree, a: Addr, left: Page, sib: Addr)
    requires Formed(t) && Disjoint(t) && a in t.linked && sib in t.pages && sib !in t.linked
    requires var p, right := t.pages[a], t.pages[sib];
             left.level == right.level == p.level && left.lo == p.lo && left.hi == right.lo && right.hi == p.hi && left.lo <= left.hi <= right.hi
    ensures Disjoint(Cut(t, a, left, sib))
  {
    var u := Cut(t, a, left, sib);
    forall x, y | x in u.linked && y in u.linked && x != y ensures Apart(u.pages[x], u.pages[y]) {
      assert x in t.linked && x != a ==> Apart(t.pages[x], t.pages[a]);
      assert y in t.linked && y != a ==> Apart(t.pages[y], t.pages[a]);
    }
  }

  lemma CutOk(t: Tree, a: Addr, c: Change, sep: Key, sib: Addr, m: Store)
    requires TreeOk(t, m) && a in t.linked && ChangeOk(t, t.pages[a], c) && Fits(t.pages[a], c)
    requires sib in t.pages && sib !in t.linked && sib != NULL_ADDR
    requires var q := Changed(t.pages[a], c);
             q.Size() == q.Card() && Divides(q, sep) && t.pages[sib] == RightHalf(q, sep)
    ensures var u := Cut(t, a, LeftHalf(Changed(t.pages[a], c), sep, sib), sib);
            TreeOk(u, Effect(m, c)) && Grows(t, u)
  {
    hide Disjoint, FenceOk, LinksOk, DataOk, SizeOk, Effect, ChangeOk, Changed, Fits;
    var p := t.pages[a];
    var q := Changed(p, c);
    assert PageOk(t, p, m);
    ChangedOk(t, p, c, m);
    ChangedShape(p, c);
    DividesInside(t, q, sep, Effect(m, c));
    var left := LeftHalf(q, sep, sib);
    var u := Cut(t, a, left, sib);
    assert p.lo < sep < p.hi;
    CutDisjoint(t, a, left, sib);
    assert Grows(t, u);
    GrownPageOk(t, u, q);
    HalvesOk(u, q, sep, sib, Effect(m, c));
    BesidesOk(t, u, a, c, m);
  }

  // ----- the root grows -----

  function NewRoot(t: Tree, sep: Key, child: Addr): Page
    requires t.root in t.pages
  {
    Page(t.pages[t.root].level + 1, KEY_MIN, KEY_MAX, NULL_ADDR, Inner(t.root, [Sep(sep, child)]))
  }

  function Grow(t: Tree, r: Addr, sep: Key, child: Addr): Tree
    requires t.root in t.pages
  {
    Tree(t.pages[r := NewRoot(t, sep, child)], t.linked + {r}, r)
  }

  lemma GrowOk(t: Tree, r: Addr, sep: Key, child: Addr, m: Store)
    requires TreeOk(t, m) && r !in t.linked && r != NULL_ADDR
    requires Starts(t, child, t.pages[t.root].level, sep) && KEY_MIN < sep < KEY_MAX
    ensures TreeOk(Grow(t, r, sep, child), m) && Grows(t, Grow(t, r, sep, child))
  {
    hide FenceOk, LinksOk, DataOk, SizeOk, PageOk, Disjoint, Grows;
    var u := Grow(t, r, sep, child);
    NewRootOk(t, r, sep, child, m);
    KeptPagesOk(t, u, m);
    GrownDisjoint(t, r, sep, child);
  }

  lemma NewRootOk(t: Tree, r: Addr, sep: Key, child: Addr, m: Store)
    requires Formed(t) && RootOk(t) && r !in t.linked
    requires Starts(t, child, t.pages[t.root].level, sep) && KEY_MIN < sep < KEY_MAX
    ensures Grows(t, Grow(t, r, sep, child)) && PageOk(Grow(t, r, sep, child), NewRoot(t, sep, child), m)
  {
    var u, q := Grow(t, r, sep, child), NewRoot(t, sep, child);
    assert SepOk(u, q, Sep(sep, child));
  }

  lemma GrownDisjoint(t: Tree, r: Addr, sep: Key, child: Addr)
    requires Formed(t) && RootOk(t) && Disjoint(t) && r !in t.linked
    ensures Disjoint(Grow(t, r, sep, child))
  {
    var u := Grow(t, r, sep, child);
    forall x, y | x in u.linked && y in u.linked && x != y ensures Apart(u.pages[x], u.pages[y]) {
      assert x != r && y != r ==> Apart(t.pages[x], t.pages[y]);
    }
  }

  lemma KeptPagesOk(t: Tree, u: Tree, m: Store)
    requires Formed(t) && PagesOk(t, m) && Grows(t, u)
    ensures forall b :: b in t.linked ==> PageOk(u, t.pages[b], m)
  {
    hide FenceOk, LinksOk, DataOk, SizeOk, Grows;
    forall b | b in t.linked ensures PageOk(u, t.pages[b], m) {
      assert PageOk(t, t.pages[b], m);
      GrownPageOk(t, u, t.pages[b]);
    }
  }

  /** Writing a page that nothing leads to yet. */
  lemma UnlinkedOk(t: Tree, a: Addr, p: Page, m: Store)
    requires TreeOk(t, m) && a !in t.linked
    ensures TreeOk(Rewrite(t, a, p), m) && Grows(t, Rewrite(t, a, p))
  {
    hide FenceOk, LinksOk, DataOk, SizeOk, PageOk, Apart;
    var u := Rewrite(t, a, p);
    assert Grows(t, u);
    KeptPagesOk(t, u, m);
  }

  // ----- separators that are not yet in the parent level -----

  ghost predicate Unmarked(p: Page, sep: Key) {
    p.lo != sep && (p.body.Inner? ==> !Keyed(p.body.seps, sep))
  }

  /** No page on this level or above begins at `sep` or has it as a separator. */
  ghost predicate Fresh(t: Tree, sep: Key, level: nat)
    requires Formed(t)
  {
    forall a :: a in t.linked && level <= t.pages[a].level ==> Unmarked(t.pages[a], sep)
  }

  /** Below every page there is, on each lower level, a page with the same lowest key. */
  lemma {:induction false} LowestDescends(t: Tree, m: Store, a: Addr, level: nat) returns (b: Addr)
    requires TreeOk(t, m) && a in t.linked && level <= t.pages[a].level
    ensures Starts(t, b, level, t.pages[a].lo)
    decreases t.pages[a].level
  {
    hide Disjoint, SizeOk, DataOk, FenceOk, RootOk;
    b := a;
    if level < t.pages[a].level {
      assert PageOk(t, t.pages[a], m);
      b := LowestDescends(t, m, t.pages[a].body.leftmost, level);
    }
  }

  /** Two pages of one level cannot start at the same key. */
  lemma LowestUnique(t: Tree, m: Store, a: Addr, b: Addr)
    requires TreeOk(t, m) && a in t.linked && b in t.linked && t.pages[a].level == t.pages[b].level
    requires t.pages[a].Covers(t.pages[b].lo)
    ensures a == b
  {
    hide SizeOk, DataOk, LinksOk, RootOk;
    assert PageOk(t, t.pages[a], m) && PageOk(t, t.pages[b], m);
    assert a != b ==> Apart(t.pages[a], t.pages[b]);
  }

  /** A key strictly inside a page is no boundary on any level above. */
  lemma InsideIsUnmarked(t: Tree, m: Store, a: Addr, sep: Key)
    requires TreeOk(t, m) && a in t.linked && t.pages[a].lo < sep < t.pages[a].hi
    ensures Fresh(t, sep, t.pages[a].level + 1)
  {
    hide Disjoint, SizeOk, DataOk, FenceOk, RootOk;
    var level := t.pages[a].level;
    forall x | x in t.linked && level + 1 <= t.pages[x].level ensures Unmarked(t.pages[x], sep) {
      var p := t.pages[x];
      assert PageOk(t, p, m);
      if p.lo == sep {
        var b := LowestDescends(t, m, x, level);
        LowestUnique(t, m, a, b);
        assert false;
      }
      if Keyed(p.body.seps, sep) {
        var s :| s in p.body.seps && s.key == sep;
        assert SepOk(t, p, s);
        var b := LowestDescends(t, m, s.ptr, level);
        LowestUnique(t, m, a, b);
        assert false;
      }
    }
  }

  /** What a thread that split a page still has to do: put a separator for the new page `child`
      into the level above it. */
  ghost predicate Owes(t: Tree, sep: Key, child: Addr, level: nat) {
    && Formed(t)
    && 1 <= level
    && KEY_MIN < sep < KEY_MAX
    && Starts(t, child, level - 1, sep)
    && Fresh(t, sep, level)
  }

  lemma OwedSepsDiffer(t: Tree, m: Store, sep: Key, child: Addr, level: nat, sep': Key, child': Addr, level': nat)
    requires TreeOk(t, m) && Owes(t, sep, child, level) && Owes(t, sep', child', level')
    requires child != child' && level <= level'
    ensures sep != sep'
  {
    hide SizeOk, DataOk, LinksOk, RootOk;
    assert PageOk(t, t.pages[child], m) && PageOk(t, t.pages[child'], m);
    assert Apart(t.pages[child], t.pages[child']);
    assert level < level' ==> Unmarked(t.pages[child'], sep);
  }

  lemma ChangedUnmarked(p: Page, c: Change, sep: Key)
    requires Fits(p, c) && Unmarked(p, sep) && (c.AddSep? ==> c.sep != sep && Sorted(p.body.seps))
    ensures Unmarked(Changed(p, c), sep)
  {
    if c.AddSep? {
      InsertSepMembers(p.body.seps, c.sep, c.child);
    }
  }

  lemma HalvesUnmarked(q: Page, mid: Key, sib: Addr, sep: Key)
    requires Divides(q, mid) && Unmarked(q, sep) && q.body.Inner?
    ensures Unmarked(LeftHalf(q, mid, sib), sep) && Unmarked(RightHalf(q, mid), sep)
  {
    var seps := q.body.seps;
    assert seps[|seps| / 2] in seps;
  }
}
