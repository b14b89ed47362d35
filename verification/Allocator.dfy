/** Remote memory allocation: every directory of a memory node hands out chunks in order, and every
    thread cuts blocks from its current chunk or reuses blocks that it freed. An arena is the memory
    of one directory of one node; positions are relative to its start, which is a multiple of the
    chunk size. */
module Allocator {
  import opened Arith

  type Positive = n: nat | 0 < n witness 1

  /** The size of a chunk, any positive number. */
  const CHUNK: Positive

  datatype Arena = Arena(node: nat, dir: nat)

  datatype Block = Block(arena: Arena, pos: nat, size: nat)

  // ----- the chunk allocator of a directory -----

  class GlobalAllocator {
    const bitmap: array<bool>
    var tail: nat

    ghost predicate Valid()
      reads this, bitmap
    {
      && 1 <= tail <= bitmap.Length
      && forall i :: 0 <= i < bitmap.Length ==> (bitmap[i] <==> i < tail)
    }

    constructor (chunks: nat)
      requires 1 <= chunks
      ensures Valid() && fresh(bitmap) && tail == 1 && bitmap.Length == chunks
    {
      bitmap := new bool[chunks](i => i == 0);
      tail := 1;
    }

    /** The next chunk; chunk 0 stands for the null pointer and is never handed out. */
    method AllocChunk() returns (pos: nat)
      requires Valid() && tail < bitmap.Length
      modifies this, bitmap
      ensures Valid() && tail == old(tail) + 1 && pos == old(tail) * CHUNK && CHUNK <= pos
    {
      bitmap[tail] := true;
      pos := tail * CHUNK;
      assert CHUNK <= tail * CHUNK;
      tail := tail + 1;
    }
  }

  // ----- the allocator of a thread -----

  /** `has` is false until the first chunk is set. */
  datatype Local = Local(has: bool, head: nat, cur: nat, free: seq<Block>)

  /** The least multiple of `unit` that is not below `x`. */
  function RoundUp(x: nat, unit: nat): nat
    requires unit > 0
  {
    (x + unit - 1) / unit * unit
  }

  function FirstFit(free: seq<Block>, size: nat, i: nat): (n: nat)
    requires i <= |free|
    ensures i <= n <= |free| && (n < |free| ==> size <= free[n].size)
    ensures forall j :: i <= j < n ==> free[j].size < size
    decreases |free| - i
  {
    if i == |free| || size <= free[i].size then i else FirstFit(free, size, i + 1)
  }

  datatype Outcome = NeedChunk | Cut(pos: nat) | Reused(index: nat)

  predicate Exhausted(l: Local, size: nat, unit: nat)
    requires unit > 0
  {
    !l.has || RoundUp(l.cur, unit) + size > l.head + CHUNK
  }

  function Malloc(l: Local, size: nat, unit: nat): (Local, Outcome)
    requires unit > 0
  {
    var cur := RoundUp(l.cur, unit);
    if !Exhausted(l, size, unit) then (l.(cur := cur + size), Cut(cur))
    else
      var n := FirstFit(l.free, size, 0);
      if n < |l.free| then (l.(cur := cur, free := l.free[..n] + l.free[n + 1..]), Reused(n))
      else (l.(cur := cur), NeedChunk)
  }

  function SetChunk(l: Local, pos: nat): Local {
    Local(true, pos, pos, l.free)
  }

  /** The same, as the fields that a thread updates. */
  class LocalAllocator {
    const arena: Arena
    var has: bool
    var head: nat
    var cur: nat
    var free: seq<Block>

    function View(): Local
      reads this
    {
      Local(has, head, cur, free)
    }

    constructor (a: Arena)
      ensures View() == Local(false, 0, 0, []) && arena == a
    {
      arena, has, head, cur, free := a, false, 0, 0, [];
    }

    method Allocate(size: nat, unit: nat) returns (res: Block, needChunk: bool)
      requires unit > 0
      modifies this
      ensures View() == Malloc(old(View()), size, unit).0
      ensures needChunk <==> Malloc(old(View()), size, unit).1.NeedChunk?
      ensures match Malloc(old(View()), size, unit).1
              case NeedChunk => true
              case Cut(pos) => res == Block(arena, pos, size)
              case Reused(n) => res == Block(old(free)[n].arena, old(free)[n].pos, size)
    {
      cur := RoundUp(cur, unit);
      res := Block(arena, cur, size);
      if !has || cur + size > head + CHUNK {
        needChunk := true;
      } else {
        needChunk := false;
        cur := cur + size;
      }
      if needChunk {
        var i := 0;
        while i < |free| && needChunk
          invariant 0 <= i <= |free| && needChunk && free == old(free)
          invariant FirstFit(free, size, 0) == FirstFit(free, size, i)
          decreases |free| - i
        {
          if size <= free[i].size {
            res := Block(free[i].arena, free[i].pos, size);
            free := free[..i] + free[i + 1..];
            return res, false;
          }
          i := i + 1;
        }
      }
    }

    method SetChunck(pos: nat)
      modifies this
      ensures View() == SetChunk(old(View()), pos)
    {
      has, head, cur := true, pos, pos;
    }

    method Free(b: Block)
      modifies this
      ensures View() == old(View()).(free := old(free) + [b])
    {
      free := free + [b];
    }
  }

  // ----- all threads together -----

  datatype Key = Key(thread: nat, arena: Arena)

  datatype Loc = Loc(arena: Arena, pos: nat)

  /** To whom a byte belongs: to nobody while its chunk is not granted, to the rest of a thread's
      chunk, to a free list, or to a live block. */
  datatype Owner = Nobody | Rest(key: Key) | Pool(key: Key, block: Block) | InUse(block: Block)

  /** `tails` counts the chunks granted by each directory, chunk 0 included. `owner` is bookkeeping
      of the proof. */
  datatype State = State(tails: map<Arena, nat>, locals: map<Key, Local>, live: set<Block>, owner: Loc -> Owner) {
    function Tail(a: Arena): nat {
      if a in tails then tails[a] else 1
    }

    function At(k: Key): Local {
      if k in locals then locals[k] else Local(false, 0, 0, [])
    }
  }

  predicate In(x: Loc, b: Block) {
    x.arena == b.arena && b.pos <= x.pos < b.pos + b.size
  }

  predicate Overlap(b: Block, c: Block) {
    b.arena == c.arena && b.pos < c.pos + c.size && c.pos < b.pos + b.size
  }

  /** Every byte of `b` belongs to `o`. */
  ghost predicate Owns(owner: Loc -> Owner, o: Owner, b: Block) {
    forall x :: In(x, b) ==> owner(x) == o
  }

  function RestOf(k: Key, l: Local): Block {
    Block(k.arena, l.cur, if l.has && l.cur <= l.head + CHUNK then l.head + CHUNK - l.cur else 0)
  }

  ghost predicate NoDup(free: seq<Block>) {
    forall i, j :: 0 <= i < j < |free| ==> free[i] != free[j]
  }

  ghost predicate LocalOk(s: State, k: Key, l: Local) {
    && Owns(s.owner, Rest(k), RestOf(k, l))
    && (l.has ==> l.head <= l.cur)
    && NoDup(l.free)
    && forall i :: 0 <= i < |l.free| ==> l.free[i].size > 0 && Owns(s.owner, Pool(k, l.free[i]), l.free[i])
  }

  ghost predicate LiveOk(s: State, b: Block) {
    b.size > 0 && Owns(s.owner, InUse(b), b)
  }

  /** Bytes of chunk 0 and of chunks not yet granted belong to nobody. */
  ghost predicate GrantedOk(s: State) {
    forall x: Loc :: s.owner(x) != Nobody ==> CHUNK <= x.pos < s.Tail(x.arena) * CHUNK
  }

  ghost predicate Inv(s: State) {
    && (forall a :: a in s.tails ==> 1 <= s.tails[a])
    && (forall k :: k in s.locals ==> LocalOk(s, k, s.locals[k]))
    && (forall b :: b in s.live ==> LiveOk(s, b))
    && GrantedOk(s)
  }

  /** Live blocks do not overlap, and lie in granted chunks other than chunk 0. */
  lemma LiveBlocksApart(s: State, b: Block, c: Block)
    requires Inv(s) && b in s.live && c in s.live
    ensures b != c ==> !Overlap(b, c)
    ensures CHUNK <= b.pos && b.pos + b.size <= s.Tail(b.arena) * CHUNK
  {
    assert LiveOk(s, b) && LiveOk(s, c);
    if b != c && Overlap(b, c) {
      var x := Loc(b.arena, if b.pos < c.pos then c.pos else b.pos);
      assert In(x, b) && In(x, c);
      assert false;
    }
    assert In(Loc(b.arena, b.pos), b) && In(Loc(b.arena, b.pos + b.size - 1), b);
  }

  // ----- steps -----

  function Assign(owner: Loc -> Owner, b: Block, o: Owner): Loc -> Owner {
    (x: Loc) => if In(x, b) then o else owner(x)
  }

  /** The thread takes the block `b`, cut or reused, and its allocator becomes `l`. */
  function Take(s: State, k: Key, l: Local, b: Block): State {
    s.(locals := s.locals[k := l], live := s.live + {b}, owner := Assign(s.owner, b, InUse(b)))
  }

  /** The directory grants its next chunk to the thread. */
  function Grant(s: State, k: Key, l: Local): State {
    var pos := s.Tail(k.arena) * CHUNK;
    s.(tails := s.tails[k.arena := s.Tail(k.arena) + 1],
       locals := s.locals[k := SetChunk(l, pos)],
       owner := Assign(s.owner, Block(k.arena, pos, CHUNK), Rest(k)))
  }

  /** The block that a successful attempt gives. */
  function Given(k: Key, l: Local, o: Outcome, size: nat): Block {
    match o
    case Cut(pos) => Block(k.arena, pos, size)
    case Reused(n) => if n < |l.free| then Block(l.free[n].arena, l.free[n].pos, size) else Block(k.arena, 0, size)
    case NeedChunk => Block(k.arena, 0, size)
  }

  /** An allocation: from the current chunk, from the free list, or from a new chunk. */
  function Alloc(s: State, k: Key, size: nat, unit: nat): State
    requires unit > 0
  {
    var l := s.At(k);
    var (l', o) := Malloc(l, size, unit);
    if !o.NeedChunk? then Take(s, k, l', Given(k, l, o, size))
    else
      var g := Grant(s, k, l');
      var (l'', o') := Malloc(g.At(k), size, unit);
      Take(g, k, l'', Given(k, g.At(k), o', size))
  }

  function AllocBlock(s: State, k: Key, size: nat, unit: nat): Block
    requires unit > 0
  {
    var l := s.At(k);
    var (l', o) := Malloc(l, size, unit);
    if !o.NeedChunk? then Given(k, l, o, size)
    else
      var g := Grant(s, k, l');
      Given(k, g.At(k), Malloc(g.At(k), size, unit).1, size)
  }

  /** A freed block goes to the freeing thread's list for directory 0 of the block's node. */
  function Release(s: State, t: nat, b: Block): State {
    var k := Key(t, Arena(b.arena.node, 0));
    s.(locals := s.locals[k := s.At(k).(free := s.At(k).free + [b])], live := s.live - {b}, owner := Assign(s.owner, b, Pool(k, b)))
  }

  datatype Action = DoAlloc(k: Key, size: nat, unit: nat) | DoFree(t: nat, b: Block)

  /** Sizes are at most a chunk, alignments divide it, and only live blocks are freed. `chunks` is
      how many chunks a directory has. */
  predicate Enabled(s: State, chunks: nat, act: Action) {
    match act
    case DoAlloc(k, size, unit) =>
      && 0 < size <= CHUNK && unit > 0 && CHUNK % unit == 0
      && (Malloc(s.At(k), size, unit).1.NeedChunk? ==> s.Tail(k.arena) < chunks)
    case DoFree(t, b) => b in s.live
  }

  function Do(s: State, chunks: nat, act: Action): State
    requires Enabled(s, chunks, act)
  {
    match act
    case DoAlloc(k, size, unit) => Alloc(s, k, size, unit)
    case DoFree(t, b) => Release(s, t, b)
  }

  // ----- every step keeps the invariant -----

  /** Bytes that belong to `p` change hands; what belongs to anyone else stays. */
  lemma AssignOther(owner: Loc -> Owner, b: Block, p: Owner, q: Owner, c: Block, o: Owner)
    requires Owns(owner, p, b) && Owns(owner, o, c) && o != p
    ensures Owns(Assign(owner, b, q), o, c)
  {
  }

  /** The first multiple of `unit` from `x` on. */
  ghost predicate FirstMultiple(p: nat, x: nat, unit: nat)
    requires unit > 0
  {
    p % unit == 0 && x <= p < x + unit
  }

  lemma RoundUpIs(x: nat, unit: nat)
    requires unit > 0
    ensures FirstMultiple(RoundUp(x, unit), x, unit)
    ensures x % unit == 0 ==> RoundUp(x, unit) == x
  {
    var y := x + unit - 1;
    assert y == y / unit * unit + y % unit;
    DivModIs(y / unit * unit, unit, y / unit, 0);
    if x % unit == 0 {
      var q := x / unit;
      assert x == q * unit;
      assert y / unit == q by { DivModIs(y, unit, q, unit - 1); }
    }
  }

  lemma LocalAt(s: State, k: Key)
    requires Inv(s)
    ensures LocalOk(s, k, s.At(k))
  {
    if k in s.locals {
      assert LocalOk(s, k, s.locals[k]);
    }
  }

  /** Taking a block whose bytes all belong to `p`, which is the thread's rest or one of its pool
      entries. */
  lemma TakeKeepsInv(s: State, k: Key, l: Local, b: Block, p: Owner)
    requires Inv(s) && b.size > 0 && Owns(s.owner, p, b)
    requires p == Rest(k) || (p.Pool? && p.key == k)
    requires var t := Take(s, k, l, b); LocalOk(t, k, l)
    ensures Inv(Take(s, k, l, b))
  {
    var t := Take(s, k, l, b);
    forall j | j in t.locals ensures LocalOk(t, j, t.locals[j]) {
      if j != k {
        OtherLocal(s, t.owner, j, b, p, InUse(b));
      }
    }
    forall c | c in t.live ensures LiveOk(t, c) {
      if c in s.live {
        assert LiveOk(s, c);
        AssignOther(s.owner, b, p, InUse(b), c, InUse(c));
      }
    }
    forall x: Loc | t.owner(x) != Nobody ensures CHUNK <= x.pos < t.Tail(x.arena) * CHUNK {
      assert s.owner(x) != Nobody;
    }
  }

  lemma OtherLocal(s: State, owner: Loc -> Owner, j: Key, b: Block, p: Owner, q: Owner)
    requires Inv(s) && j in s.locals && Owns(s.owner, p, b) && owner == Assign(s.owner, b, q)
    requires p != Rest(j) && !(p.Pool? && p.key == j)
    ensures forall t: State :: t.owner == owner ==> LocalOk(t, j, s.locals[j])
  {
    var l := s.locals[j];
    assert LocalOk(s, j, l);
    AssignOther(s.owner, b, p, q, RestOf(j, l), Rest(j));
    forall i | 0 <= i < |l.free| ensures Owns(owner, Pool(j, l.free[i]), l.free[i]) {
      AssignOther(s.owner, b, p, q, l.free[i], Pool(j, l.free[i]));
    }
  }

  lemma CutKeepsInv(s: State, k: Key, size: nat, unit: nat)
    requires Inv(s) && 0 < size && unit > 0 && Malloc(s.At(k), size, unit).1.Cut?
    ensures var (l, o) := Malloc(s.At(k), size, unit); Inv(Take(s, k, l, Given(k, s.At(k), o, size)))
  {
    var l := s.At(k);
    var (l', o) := Malloc(l, size, unit);
    var b := Given(k, l, o, size);
    LocalAt(s, k);
    RoundUpIs(l.cur, unit);
    assert forall x :: In(x, b) ==> In(x, RestOf(k, l));
    assert Owns(s.owner, Rest(k), b);
    var t := Take(s, k, l', b);
    assert forall x :: In(x, RestOf(k, l')) ==> In(x, RestOf(k, l)) && !In(x, b);
    assert Owns(t.owner, Rest(k), RestOf(k, l'));
    forall i | 0 <= i < |l.free| ensures Owns(t.owner, Pool(k, l.free[i]), l.free[i]) {
      AssignOther(s.owner, b, Rest(k), InUse(b), l.free[i], Pool(k, l.free[i]));
    }
    TakeKeepsInv(s, k, l', b, Rest(k));
  }

  lemma ReuseKeepsInv(s: State, k: Key, size: nat, unit: nat)
    requires Inv(s) && 0 < size && unit > 0 && Malloc(s.At(k), size, unit).1.Reused?
    ensures var (l, o) := Malloc(s.At(k), size, unit); Inv(Take(s, k, l, Given(k, s.At(k), o, size)))
  {
    var l := s.At(k);
    var (l', o) := Malloc(l, size, unit);
    var e, b := l.free[o.index], Given(k, l, o, size);
    LocalAt(s, k);
    RoundUpIs(l.cur, unit);
    assert forall x :: In(x, b) ==> In(x, e);
    assert Owns(s.owner, Pool(k, e), b);
    var t := Take(s, k, l', b);
    assert forall x :: In(x, RestOf(k, l')) ==> In(x, RestOf(k, l));
    assert Owns(s.owner, Rest(k), RestOf(k, l'));
    AssignOther(s.owner, b, Pool(k, e), InUse(b), RestOf(k, l'), Rest(k));
    forall i | 0 <= i < |l'.free| ensures l'.free[i].size > 0 && Owns(t.owner, Pool(k, l'.free[i]), l'.free[i]) {
      var j := if i < o.index then i else i + 1;
      assert l'.free[i] == l.free[j] && l.free[j] != e;
      AssignOther(s.owner, b, Pool(k, e), InUse(b), l.free[j], Pool(k, l.free[j]));
    }
    assert NoDup(l'.free);
    TakeKeepsInv(s, k, l', b, Pool(k, e));
  }

  /** A new chunk belonged to nobody, so granting it disturbs nothing. */
  lemma GrantKeepsInv(s: State, k: Key, l: Local)
    requires Inv(s) && l.free == s.At(k).free
    ensures Inv(Grant(s, k, l))
  {
    var tail := s.Tail(k.arena);
    var c, t := Block(k.arena, tail * CHUNK, CHUNK), Grant(s, k, l);
    assert (tail + 1) * CHUNK == tail * CHUNK + CHUNK;
    assert 1 <= tail && CHUNK <= tail * CHUNK;
    assert Owns(s.owner, Nobody, c);
    LocalAt(s, k);
    forall j | j in t.locals ensures LocalOk(t, j, t.locals[j]) {
      if j != k {
        OtherLocal(s, t.owner, j, c, Nobody, Rest(k));
      } else {
        assert forall x :: In(x, RestOf(k, t.locals[k])) ==> In(x, c);
        forall i | 0 <= i < |l.free| ensures Owns(t.owner, Pool(k, l.free[i]), l.free[i]) {
          AssignOther(s.owner, c, Nobody, Rest(k), l.free[i], Pool(k, l.free[i]));
        }
      }
    }
    forall b | b in t.live ensures LiveOk(t, b) {
      assert LiveOk(s, b);
      AssignOther(s.owner, c, Nobody, Rest(k), b, InUse(b));
    }
    forall x: Loc | t.owner(x) != Nobody ensures CHUNK <= x.pos < t.Tail(x.arena) * CHUNK {
      GrantedByte(s, t, k, c, x);
    }
  }

  lemma GrantedByte(s: State, t: State, k: Key, c: Block, x: Loc)
    requires GrantedOk(s) && t.owner(x) != Nobody && t.owner == Assign(s.owner, c, Rest(k))
    requires c == Block(k.arena, s.Tail(k.arena) * CHUNK, CHUNK) && CHUNK <= c.pos
    requires t.tails == s.tails[k.arena := s.Tail(k.arena) + 1]
    ensures CHUNK <= x.pos < t.Tail(x.arena) * CHUNK
  {
    var tail := s.Tail(k.arena);
    assert (tail + 1) * CHUNK == tail * CHUNK + CHUNK;
    if !In(x, c) {
      assert s.owner(x) != Nobody;
    }
  }

  /** Right after a grant the attempt succeeds: the chunk is aligned and large enough. */
  lemma GrantSuffices(s: State, k: Key, l: Local, size: nat, unit: nat)
    requires 0 < size <= CHUNK && unit > 0 && CHUNK % unit == 0
    ensures Malloc(Grant(s, k, l).At(k), size, unit).1.Cut?
  {
    var pos := s.Tail(k.arena) * CHUNK;
    MultipleOf(s.Tail(k.arena), CHUNK, unit);
    RoundUpIs(pos, unit);
  }

  lemma AllocKeepsInv(s: State, k: Key, size: nat, unit: nat)
    requires Inv(s) && 0 < size <= CHUNK && unit > 0 && CHUNK % unit == 0
    ensures Inv(Alloc(s, k, size, unit))
  {
    hide Inv;
    var (l, o) := Malloc(s.At(k), size, unit);
    match o
    case Cut(_) => CutKeepsInv(s, k, size, unit);
    case Reused(_) => ReuseKeepsInv(s, k, size, unit);
    case NeedChunk =>
      GrantKeepsInv(s, k, l);
      GrantSuffices(s, k, l, size, unit);
      CutKeepsInv(Grant(s, k, l), k, size, unit);
  }

  lemma ReleaseKeepsInv(s: State, t: nat, b: Block)
    requires Inv(s) && b in s.live
    ensures Inv(Release(s, t, b))
  {
    var k := Key(t, Arena(b.arena.node, 0));
    var u, l := Release(s, t, b), s.At(k);
    assert LiveOk(s, b);
    LocalAt(s, k);
    assert In(Loc(b.arena, b.pos), b);
    forall i | 0 <= i < |l.free| ensures l.free[i] != b && Owns(u.owner, Pool(k, l.free[i]), l.free[i]) {
      assert l.free[i] == b ==> s.owner(Loc(b.arena, b.pos)) == Pool(k, b);
      AssignOther(s.owner, b, InUse(b), Pool(k, b), l.free[i], Pool(k, l.free[i]));
    }
    AssignOther(s.owner, b, InUse(b), Pool(k, b), RestOf(k, l), Rest(k));
    forall j | j in u.locals ensures LocalOk(u, j, u.locals[j]) {
      if j != k {
        OtherLocal(s, u.owner, j, b, InUse(b), Pool(k, b));
      }
    }
    forall c | c in u.live ensures LiveOk(u, c) {
      assert LiveOk(s, c);
      AssignOther(s.owner, b, InUse(b), Pool(k, b), c, InUse(c));
    }
    forall x: Loc | u.owner(x) != Nobody ensures CHUNK <= x.pos < u.Tail(x.arena) * CHUNK {
      assert s.owner(x) != Nobody;
    }
  }

  lemma StepKeepsInv(s: State, chunks: nat, act: Action)
    requires Inv(s) && Enabled(s, chunks, act)
    ensures Inv(Do(s, chunks, act))
  {
    hide Inv;
    match act
    case DoAlloc(k, size, unit) => AllocKeepsInv(s, k, size, unit);
    case DoFree(t, b) => ReleaseKeepsInv(s, t, b);
  }

  /** What an allocation returns is live afterwards, has the size asked for, and overlaps no block
      that was live before. */
  lemma AllocIsFresh(s: State, chunks: nat, k: Key, size: nat, unit: nat, c: Block)
    requires Inv(s) && Enabled(s, chunks, DoAlloc(k, size, unit)) && c in s.live
    ensures var b, t := AllocBlock(s, k, size, unit), Alloc(s, k, size, unit);
            b in t.live && c in t.live && b.size == size && t.live == s.live + {b} && !Overlap(b, c)
  {
    var b, t := AllocBlock(s, k, size, unit), Alloc(s, k, size, unit);
    AllocKeepsInv(s, k, size, unit);
    AllocNotLive(s, k, size, unit);
    LiveBlocksApart(t, b, c);
  }

  lemma AllocNotLive(s: State, k: Key, size: nat, unit: nat)
    requires Inv(s) && 0 < size <= CHUNK && unit > 0 && CHUNK % unit == 0
    ensures AllocBlock(s, k, size, unit) !in s.live
  {
    var (l, o) := Malloc(s.At(k), size, unit);
    if o.NeedChunk? {
      GrantKeepsInv(s, k, l);
      GrantSuffices(s, k, l, size, unit);
      CutNotLive(Grant(s, k, l), k, size, unit);
    } else if o.Cut? {
      CutNotLive(s, k, size, unit);
    } else {
      var e, b := s.At(k).free[o.index], Given(k, s.At(k), o, size);
      LocalAt(s, k);
      var x := Loc(b.arena, b.pos);
      assert In(x, b) && In(x, e);
      NotLive(s, b, x);
    }
  }

  lemma NotLive(s: State, b: Block, x: Loc)
    requires Inv(s) && In(x, b) && s.owner(x) != InUse(b)
    ensures b !in s.live
  {
    assert b in s.live ==> LiveOk(s, b);
  }

  lemma CutNotLive(s: State, k: Key, size: nat, unit: nat)
    requires Inv(s) && 0 < size && unit > 0 && Malloc(s.At(k), size, unit).1.Cut?
    ensures Given(k, s.At(k), Malloc(s.At(k), size, unit).1, size) !in s.live
  {
    var l := s.At(k);
    var b := Given(k, l, Malloc(l, size, unit).1, size);
    LocalAt(s, k);
    RoundUpIs(l.cur, unit);
    var x := Loc(b.arena, b.pos);
    assert In(x, b) && In(x, RestOf(k, l));
    NotLive(s, b, x);
  }

  // ----- where a block comes from -----

  /** The current chunk has room for `size` bytes from position `p` on. */
  predicate Room(l: Local, p: nat, size: nat) {
    l.has && p + size <= l.head + CHUNK
  }

  ghost predicate NoneFits(free: seq<Block>, upTo: nat, size: nat) {
    forall j :: 0 <= j < upTo && j < |free| ==> free[j].size < size
  }

  /** The chunk is used while it has room, from the first aligned position on and without a gap; then the
      first free block that is large enough; and a new chunk is asked for only if there is none. */
  lemma MallocExact(l: Local, size: nat, unit: nat, p: nat)
    requires unit > 0 && FirstMultiple(p, l.cur, unit)
    ensures var (l', o) := Malloc(l, size, unit);
            && (Room(l, p, size) ==> o == Cut(p) && l' == l.(cur := p + size))
            && (!Room(l, p, size) ==>
                 match o
                 case Cut(_) => false
                 case Reused(n) =>
                   && n < |l.free| && size <= l.free[n].size && NoneFits(l.free, n, size)
                   && l' == l.(cur := p, free := l.free[..n] + l.free[n + 1..])
                 case NeedChunk => NoneFits(l.free, |l.free|, size) && l' == l.(cur := p))
  {
    RoundUpIs(l.cur, unit);
    FirstMultipleIs(p, RoundUp(l.cur, unit), l.cur, unit);
  }

  lemma FirstMultipleIs(p: nat, q: nat, x: nat, unit: nat)
    requires unit > 0 && FirstMultiple(p, x, unit) && FirstMultiple(q, x, unit)
    ensures p == q
  {
    assert p == p / unit * unit && q == q / unit * unit;
    var d := p / unit - q / unit;
    assert d * unit == p - q;
    MulFar(d, unit);
  }

  /** A block that is cut from a chunk, the thread's own or a new one, is aligned. A block from the free
      list is aligned if and only if it was so where it was freed, for the list does not know alignments. */
  lemma AllocIsAligned(s: State, chunks: nat, k: Key, size: nat, unit: nat)
    requires Enabled(s, chunks, DoAlloc(k, size, unit))
    ensures var o, b := Malloc(s.At(k), size, unit).1, AllocBlock(s, k, size, unit);
            b.pos % unit == 0 <==> (o.Reused? ==> s.At(k).free[o.index].pos % unit == 0)
  {
    var (l, o) := Malloc(s.At(k), size, unit);
    RoundUpIs(s.At(k).cur, unit);
    if o.NeedChunk? {
      GrantSuffices(s, k, l, size, unit);
      RoundUpIs(Grant(s, k, l).At(k).cur, unit);
    }
  }

  /** So alignment is lost in an ordinary run: a block at an odd position is freed, and a request for an
      even one gets it. */
  lemma ReuseMisaligns(t: nat, node: nat, start: State) returns (states: seq<State>, acts: seq<Action>)
    requires CHUNK % 2 == 0 && Init(start)
    ensures Run(states, 2, acts) && |acts| == 4 && acts[3] == DoAlloc(Key(t, Arena(node, 0)), 1, 2)
    ensures AllocBlock(states[3], Key(t, Arena(node, 0)), 1, 2).pos % 2 == 1
  {
    hide Alloc, AllocBlock, Release;
    var k := Key(t, Arena(node, 0));
    var b := Block(k.arena, CHUNK + 1, CHUNK - 1);
    acts := [DoAlloc(k, 1, 1), DoAlloc(k, CHUNK - 1, 1), DoFree(t, b), DoAlloc(k, 1, 2)];
    FirstAlloc(start, k);
    var s1 := Do(start, 2, acts[0]);
    SecondAlloc(s1, k, CHUNK + 1, CHUNK - 1);
    var s2 := Do(s1, 2, acts[1]);
    FirstFree(s2, t, node, b);
    var s3 := Do(s2, 2, acts[2]);
    OddReuse(s3, k, b);
    states := [start, s1, s2, s3, Do(s3, 2, acts[3])];
  }

  lemma FirstAlloc(s: State, k: Key)
    requires Init(s)
    ensures Malloc(s.At(k), 1, 1).1.NeedChunk? && s.Tail(k.arena) == 1
    ensures Alloc(s, k, 1, 1).At(k) == Local(true, CHUNK, CHUNK + 1, [])
  {
    FromNewChunk(Malloc(s.At(k), 1, 1).0, 1, 1, 1);
  }

  lemma SecondAlloc(s: State, k: Key, p: nat, size: nat)
    requires s.At(k) == Local(true, CHUNK, p, []) && p + size <= CHUNK + CHUNK
    ensures Malloc(s.At(k), size, 1).1.Cut?
    ensures Alloc(s, k, size, 1).At(k) == Local(true, CHUNK, p + size, []) && Block(k.arena, p, size) in Alloc(s, k, size, 1).live
  {
    MallocExact(s.At(k), size, 1, p);
  }

  lemma FirstFree(s: State, t: nat, node: nat, b: Block)
    requires b in s.live && b.arena == Arena(node, 0) && s.At(Key(t, b.arena)) == Local(true, CHUNK, 2 * CHUNK, [])
    ensures Release(s, t, b).At(Key(t, b.arena)) == Local(true, CHUNK, 2 * CHUNK, [b])
  {
  }

  lemma OddReuse(s: State, k: Key, b: Block)
    requires s.At(k) == Local(true, CHUNK, 2 * CHUNK, [b]) && b.size >= 1
    ensures Malloc(s.At(k), 1, 2).1.Reused? && AllocBlock(s, k, 1, 2).pos == b.pos
  {
    MallocExact(s.At(k), 1, 2, 2 * CHUNK);
  }

  /** What a thread allocates changes nothing for other threads and other directories, and takes a new
      chunk, the next one in order, only when its own chunk has no room and its free list no fit. */
  lemma AllocTouches(s: State, chunks: nat, k: Key, size: nat, unit: nat)
    requires Enabled(s, chunks, DoAlloc(k, size, unit))
    ensures var t := Alloc(s, k, size, unit);
            && (forall j :: j != k ==> t.At(j) == s.At(j))
            && (forall a :: a != k.arena ==> t.Tail(a) == s.Tail(a))
            && (Malloc(s.At(k), size, unit).1.NeedChunk? ==>
                 && t.Tail(k.arena) == s.Tail(k.arena) + 1
                 && AllocBlock(s, k, size, unit) == Block(k.arena, s.Tail(k.arena) * CHUNK, size)
                 && t.At(k).cur == s.Tail(k.arena) * CHUNK + size)
            && (!Malloc(s.At(k), size, unit).1.NeedChunk? ==> t.tails == s.tails)
  {
    var (l, o) := Malloc(s.At(k), size, unit);
    if o.NeedChunk? {
      FromNewChunk(l, s.Tail(k.arena), size, unit);
    }
    hide Malloc, Assign;
  }

  lemma FromNewChunk(l: Local, tail: nat, size: nat, unit: nat)
    requires 0 < size <= CHUNK && unit > 0 && CHUNK % unit == 0
    ensures var g := SetChunk(l, tail * CHUNK); Malloc(g, size, unit) == (g.(cur := tail * CHUNK + size), Cut(tail * CHUNK))
  {
    MultipleOf(tail, CHUNK, unit);
    MallocExact(SetChunk(l, tail * CHUNK), size, unit, tail * CHUNK);
  }

  /** A freed block serves the freeing thread's next request of that size or less in that directory, if
      the chunk has no room and no block that was freed earlier fits. */
  lemma FreedIsReused(s: State, t: nat, b: Block, size: nat, unit: nat)
    requires b in s.live && size <= b.size && unit > 0
    requires var l := s.At(Key(t, Arena(b.arena.node, 0)));
             NoneFits(l.free, |l.free|, size) && Exhausted(l, size, unit)
    ensures AllocBlock(Release(s, t, b), Key(t, Arena(b.arena.node, 0)), size, unit) == Block(b.arena, b.pos, size)
  {
    var k := Key(t, Arena(b.arena.node, 0));
    var free := s.At(k).free;
    var l := Release(s, t, b).At(k);
    assert l.free == free + [b];
    var n := FirstFit(l.free, size, 0);
    assert forall j :: 0 <= j < |free| ==> l.free[j] == free[j];
    assert l.free[|free|] == b;
    assert n == |free|;
  }

  // ----- runs -----

  ghost predicate Init(s: State) {
    s.tails == map[] && s.locals == map[] && s.live == {} && forall x :: s.owner(x) == Nobody
  }

  ghost predicate Run(states: seq<State>, chunks: nat, acts: seq<Action>) {
    && |states| == |acts| + 1
    && Init(states[0])
    && forall i :: 0 <= i < |acts| ==> Enabled(states[i], chunks, acts[i]) && states[i + 1] == Do(states[i], chunks, acts[i])
  }

  lemma {:induction false} RunInv(states: seq<State>, chunks: nat, acts: seq<Action>, i: nat)
    requires Run(states, chunks, acts) && i < |states|
    ensures Inv(states[i])
  {
    if i > 0 {
      RunInv(states, chunks, acts, i - 1);
      StepKeepsInv(states[i - 1], chunks, acts[i - 1]);
      assert states[i - 1 + 1] == Do(states[i - 1], chunks, acts[i - 1]);
    }
  }

  /** Over any sequence of allocations and frees by any threads, live blocks are pairwise disjoint,
      lie in granted chunks, and never touch chunk 0. */
  lemma LiveBlocksAreSafe(states: seq<State>, chunks: nat, acts: seq<Action>, i: nat, b: Block, c: Block)
    requires Run(states, chunks, acts) && i < |states| && b in states[i].live && c in states[i].live
    ensures b != c ==> !Overlap(b, c)
    ensures CHUNK <= b.pos && b.pos + b.size <= states[i].Tail(b.arena) * CHUNK
  {
    RunInv(states, chunks, acts, i);
    LiveBlocksApart(states[i], b, c);
  }
}
