/** The hopscotch leaf of CHIME: a circular array of `span` slots in which every key sits
    fewer than `neighbor` slots after the slot it hashes to.

    A slot's hop bitmap is modelled as the set of offsets whose bit is on: offset `o`
    stands for bit `neighbor - o - 1` of the machine word. */
module HopscotchLeaf {

  type Key = nat
  type Value = nat

  const NULL_KEY: Key := 0
  const NULL_VALUE: Value := 0

  datatype Entry = Entry(key: Key, value: Value, hop: set<nat>)

  type Leaf = seq<Entry>

  /** Span size, neighbourhood size and the key hash, all parameters of the proofs. */
  datatype Geometry = Geometry(span: nat, neighbor: nat, hash: Key -> nat) {

    predicate Valid() {
      1 <= neighbor <= span
    }

    function Home(k: Key): (h: nat)
      requires Valid()
      ensures h < span
    {
      hash(k) % span
    }

    /** The array slot of a logical index, which may run past either end by one turn. */
    function Slot(i: int): (s: nat)
      requires Valid() && 0 <= i + span && i < 2 * span
      ensures s < span
    {
      if i < 0 then i + span else if i < span then i else i - span
    }

    /** The slot reached `o` slots after slot `h`. */
    function At(h: nat, o: nat): (s: nat)
      requires Valid() && h < span && o < span
      ensures s < span
      ensures s == Slot(h + o) && Off(h, s) == o
    {
      Slot(h + o)
    }

    /** How many slots after `h` slot `s` is reached, going round. */
    function Off(h: nat, s: nat): (o: nat)
      requires Valid() && h < span && s < span
      ensures o < span
    {
      if h <= s then s - h else s + span - h
    }
  }

  /** Slot `s` holds a key that hashes to slot `h`. */
  predicate Owns(g: Geometry, r: Leaf, h: nat, s: nat)
    requires g.Valid() && |r| == g.span && s < g.span
  {
    r[s].key != NULL_KEY && g.Home(r[s].key) == h
  }

  ghost predicate InNeighborhood(g: Geometry, r: Leaf)
    requires g.Valid() && |r| == g.span
  {
    forall s :: 0 <= s < g.span && r[s].key != NULL_KEY ==> g.Off(g.Home(r[s].key), s) < g.neighbor
  }

  /** Bit `o` of home `h` is set exactly when the slot `o` after `h` holds a key of home `h`. */
  ghost predicate BitmapsExact(g: Geometry, r: Leaf)
    requires g.Valid() && |r| == g.span
  {
    && (forall h, s :: 0 <= h < g.span && 0 <= s < g.span ==>
          (g.Off(h, s) in r[h].hop <==> Owns(g, r, h, s)))
    && (forall h, o :: 0 <= h < g.span && o in r[h].hop ==> o < g.neighbor)
  }

  ghost predicate DistinctKeys(r: Leaf) {
    forall s, t :: 0 <= s < |r| && 0 <= t < |r| && s != t && r[s].key != NULL_KEY ==> r[s].key != r[t].key
  }

  ghost predicate Inv(g: Geometry, r: Leaf) {
    g.Valid() && |r| == g.span && InNeighborhood(g, r) && BitmapsExact(g, r) && DistinctKeys(r)
  }

  ghost function KeySet(r: Leaf): set<Key> {
    set s | 0 <= s < |r| && r[s].key != NULL_KEY :: r[s].key
  }

  ghost function SlotOf(r: Leaf, k: Key): (s: nat)
    requires k in KeySet(r)
    ensures s < |r| && r[s].key == k
  {
    var s :| 0 <= s < |r| && r[s].key == k;
    s
  }

  /** The key-value map a leaf stands for. */
  ghost function Contents(r: Leaf): (m: map<Key, Value>)
    requires DistinctKeys(r)
    ensures forall s :: 0 <= s < |r| && r[s].key != NULL_KEY ==> r[s].key in m && m[r[s].key] == r[s].value
    ensures forall k :: k in m ==> k != NULL_KEY && exists s :: 0 <= s < |r| && r[s].key == k
  {
    map k | k in KeySet(r) :: r[SlotOf(r, k)].value
  }

  lemma SameContents(r: Leaf, m: map<Key, Value>)
    requires DistinctKeys(r)
    requires forall s :: 0 <= s < |r| && r[s].key != NULL_KEY ==> r[s].key in m && m[r[s].key] == r[s].value
    requires forall k :: k in m ==> k != NULL_KEY && exists s :: 0 <= s < |r| && r[s].key == k
    ensures Contents(r) == m
  {
    var c := Contents(r);
    forall k | k in m ensures k in c && c[k] == m[k] {
      var s :| 0 <= s < |r| && r[s].key == k;
    }
  }

  // ----- one hop -----

  /** Copies the key of slot `sh`, whose home is `sg`, into the hole `sj`; slot `sh` is the new hole
      and keeps its old pair until something is written over it. */
  function CopyKey(g: Geometry, r: Leaf, sg: nat, sh: nat, sj: nat): (r': Leaf)
    requires g.Valid() && |r| == g.span && sg < g.span && sh < g.span && sj < g.span
    ensures |r'| == g.span
  {
    var r1 := r[sj := r[sj].(key := r[sh].key, value := r[sh].value)];
    r1[sg := r1[sg].(hop := r1[sg].hop - {g.Off(sg, sh)} + {g.Off(sg, sj)})]
  }

  /** The same move with the new hole emptied at once. */
  function MoveKey(g: Geometry, r: Leaf, sg: nat, sh: nat, sj: nat): (r': Leaf)
    requires g.Valid() && |r| == g.span && sg < g.span && sh < g.span && sj < g.span
    ensures |r'| == g.span
  {
    var r2 := CopyKey(g, r, sg, sh, sj);
    r2[sh := r2[sh].(key := NULL_KEY, value := NULL_VALUE)]
  }

  /** Puts a new pair into the hole `sj` and sets the bit in its home `sg`. */
  function Place(g: Geometry, r: Leaf, sg: nat, sj: nat, k: Key, v: Value): (r': Leaf)
    requires g.Valid() && |r| == g.span && sg < g.span && sj < g.span
    ensures |r'| == g.span
  {
    var r1 := r[sj := r[sj].(key := k, value := v)];
    r1[sg := r1[sg].(hop := r1[sg].hop + {g.Off(sg, sj)})]
  }

  ghost predicate LegalMove(g: Geometry, r: Leaf, sg: nat, sh: nat, sj: nat) {
    && g.Valid() && |r| == g.span && sg < g.span && sh < g.span && sj < g.span
    && r[sj].key == NULL_KEY && sh != sj && Owns(g, r, sg, sh) && g.Off(sg, sj) < g.neighbor
  }

  /** Where a move leaves the keys and the bitmaps, slot by slot. */
  ghost predicate Moved(g: Geometry, r: Leaf, r': Leaf, sg: nat, sh: nat, sj: nat) {
    && LegalMove(g, r, sg, sh, sj) && |r'| == g.span
    && (forall s :: 0 <= s < g.span ==>
          r'[s].key == if s == sj then r[sh].key else if s == sh then NULL_KEY else r[s].key)
    && (forall s :: 0 <= s < g.span && s != sh ==>
          r'[s].value == if s == sj then r[sh].value else r[s].value)
    && (forall s :: 0 <= s < g.span ==>
          r'[s].hop == if s == sg then r[s].hop - {g.Off(sg, sh)} + {g.Off(sg, sj)} else r[s].hop)
  }

  lemma MoveKeyMoved(g: Geometry, r: Leaf, sg: nat, sh: nat, sj: nat)
    requires LegalMove(g, r, sg, sh, sj)
    ensures Moved(g, r, MoveKey(g, r, sg, sh, sj), sg, sh, sj)
  {
  }

  lemma MovedBitmaps(g: Geometry, r: Leaf, r': Leaf, sg: nat, sh: nat, sj: nat)
    requires Inv(g, r) && Moved(g, r, r', sg, sh, sj)
    ensures BitmapsExact(g, r')
  {
    forall h, s | 0 <= h < g.span && 0 <= s < g.span
      ensures g.Off(h, s) in r'[h].hop <==> Owns(g, r', h, s)
    {
      assert g.Off(h, s) in r[h].hop <==> Owns(g, r, h, s);
      assert r'[s].key == if s == sj then r[sh].key else if s == sh then NULL_KEY else r[s].key;
    }
  }

  lemma MovedKeys(g: Geometry, r: Leaf, r': Leaf, sg: nat, sh: nat, sj: nat)
    requires Inv(g, r) && Moved(g, r, r', sg, sh, sj)
    ensures InNeighborhood(g, r') && DistinctKeys(r')
  {
  }

  lemma MovedContents(g: Geometry, r: Leaf, r': Leaf, sg: nat, sh: nat, sj: nat)
    requires DistinctKeys(r) && DistinctKeys(r') && Moved(g, r, r', sg, sh, sj)
    ensures Contents(r') == Contents(r)
  {
    var m := Contents(r);
    forall k | k in m ensures exists s :: 0 <= s < |r'| && r'[s].key == k {
      var s :| 0 <= s < |r| && r[s].key == k;
      assert r'[if s == sh then sj else s].key == k;
    }
    SameContents(r', m);
  }

  lemma MoveKeyInv(g: Geometry, r: Leaf, sg: nat, sh: nat, sj: nat)
    requires Inv(g, r) && LegalMove(g, r, sg, sh, sj)
    ensures Inv(g, MoveKey(g, r, sg, sh, sj))
    ensures Contents(MoveKey(g, r, sg, sh, sj)) == Contents(r)
  {
    var r' := MoveKey(g, r, sg, sh, sj);
    MoveKeyMoved(g, r, sg, sh, sj);
    MovedBitmaps(g, r, r', sg, sh, sj);
    MovedKeys(g, r, r', sg, sh, sj);
    MovedContents(g, r, r', sg, sh, sj);
  }

  ghost predicate Placed(g: Geometry, r: Leaf, r': Leaf, sj: nat, k: Key, v: Value) {
    && g.Valid() && |r| == g.span && |r'| == g.span && sj < g.span
    && r[sj].key == NULL_KEY && k != NULL_KEY && g.Off(g.Home(k), sj) < g.neighbor
    && (forall s :: 0 <= s < g.span ==> r'[s].key == if s == sj then k else r[s].key)
    && (forall s :: 0 <= s < g.span ==> r'[s].value == if s == sj then v else r[s].value)
    && (forall s :: 0 <= s < g.span ==>
          r'[s].hop == if s == g.Home(k) then r[s].hop + {g.Off(g.Home(k), sj)} else r[s].hop)
  }

  lemma PlacedInv(g: Geometry, r: Leaf, r': Leaf, sj: nat, k: Key, v: Value)
    requires Inv(g, r) && Placed(g, r, r', sj, k, v) && k !in Contents(r)
    ensures Inv(g, r')
  {
    forall h, s | 0 <= h < g.span && 0 <= s < g.span
      ensures g.Off(h, s) in r'[h].hop <==> Owns(g, r', h, s)
    {
      assert g.Off(h, s) in r[h].hop <==> Owns(g, r, h, s);
      assert r'[s].key == if s == sj then k else r[s].key;
    }
  }

  lemma PlacedContents(g: Geometry, r: Leaf, r': Leaf, sj: nat, k: Key, v: Value)
    requires DistinctKeys(r) && DistinctKeys(r') && Placed(g, r, r', sj, k, v) && k !in Contents(r)
    ensures Contents(r') == Contents(r)[k := v]
  {
    var m := Contents(r)[k := v];
    forall q | q in m ensures exists s :: 0 <= s < |r'| && r'[s].key == q {
      if q == k {
        assert r'[sj].key == k;
      } else {
        var s :| 0 <= s < |r| && r[s].key == q;
        assert r'[s].key == q;
      }
    }
    SameContents(r', m);
  }

  lemma PlaceInv(g: Geometry, r: Leaf, sj: nat, k: Key, v: Value)
    requires Inv(g, r) && sj < g.span && r[sj].key == NULL_KEY && k != NULL_KEY
    requires k !in Contents(r) && g.Off(g.Home(k), sj) < g.neighbor
    ensures Inv(g, Place(g, r, g.Home(k), sj, k, v))
    ensures Contents(Place(g, r, g.Home(k), sj, k, v)) == Contents(r)[k := v]
  {
    var r' := Place(g, r, g.Home(k), sj, k, v);
    assert Placed(g, r, r', sj, k, v);
    PlacedInv(g, r, r', sj, k, v);
    PlacedContents(g, r, r', sj, k, v);
  }
}
