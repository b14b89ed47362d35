/** Range queries over the radix tree: which entries of a node are worth following. The state of a
    prefix against a bound is INSIDE, BORDER or OUTSIDE; an entry survives unless one of its two
    states is OUTSIDE. Both bounds are inclusive. */
module RangePrune {
  import opened Radix

  // ----- order -----

  /** Lexicographic comparison of sequences of one length. */
  function Cmp(x: seq<Byte>, y: seq<Byte>): (c: int)
    requires |x| == |y|
    ensures c == 0 <==> x == y
  {
    if x == [] then 0
    else if x[0] < y[0] then -1
    else if x[0] > y[0] then 1
    else
      assert x == [x[0]] + x[1..] && y == [y[0]] + y[1..];
      Cmp(x[1..], y[1..])
  }

  lemma {:induction false} CmpConcat(x: seq<Byte>, y: seq<Byte>, u: seq<Byte>, w: seq<Byte>)
    requires |x| == |y| && |u| == |w|
    ensures Cmp(x + u, y + w) == if x == y then Cmp(u, w) else Cmp(x, y)
  {
    if x == [] {
      assert x + u == u && y + w == w;
    } else {
      assert (x + u)[1..] == x[1..] + u && (y + w)[1..] == y[1..] + w;
      assert x == [x[0]] + x[1..] && y == [y[0]] + y[1..];
      CmpConcat(x[1..], y[1..], u, w);
    }
  }

  ghost predicate InRange(k: Path, from: Path, to: Path)
    requires IsKey(k) && IsKey(from) && IsKey(to)
  {
    Cmp(from, k) <= 0 && Cmp(k, to) <= 0
  }

  lemma {:induction false} CmpFlip(x: seq<Byte>, y: seq<Byte>)
    requires |x| == |y|
    ensures Cmp(x, y) == -Cmp(y, x)
  {
    if x != [] {
      CmpFlip(x[1..], y[1..]);
    }
  }

  // ----- states -----

  datatype Side = INSIDE | BORDER | OUTSIDE

  /** The state of a prefix against the lower bound, read as a comparison with the bound's prefix. */
  function Low(pre: seq<Byte>, from: Path): Side
    requires |pre| <= |from|
  {
    var c := Cmp(pre, from[..|pre|]);
    if c == 0 then BORDER else if c > 0 then INSIDE else OUTSIDE
  }

  function High(pre: seq<Byte>, to: Path): Side
    requires |pre| <= |to|
  {
    var c := Cmp(pre, to[..|pre|]);
    if c == 0 then BORDER else if c < 0 then INSIDE else OUTSIDE
  }

  /** A prefix survives exactly if some key that begins with it lies in the range. */
  lemma SurvivesExact(pre: seq<Byte>, from: Path, to: Path)
    requires IsKey(from) && IsKey(to) && Cmp(from, to) <= 0 && |pre| <= KEY_LEN + 1
    ensures Low(pre, from) != OUTSIDE && High(pre, to) != OUTSIDE <==>
            exists k :: IsKey(k) && pre <= k && InRange(k, from, to)
  {
    hide Cmp;
    var n := |pre|;
    forall k | IsKey(k) && pre <= k
      ensures Cmp(from, k) == (if pre == from[..n] then Cmp(from[n..], k[n..]) else Cmp(from[..n], pre))
      ensures Cmp(k, to) == (if pre == to[..n] then Cmp(k[n..], to[n..]) else Cmp(pre, to[..n]))
    {
      assert k == pre + k[n..] && from == from[..n] + from[n..] && to == to[..n] + to[n..];
      CmpConcat(from[..n], pre, from[n..], k[n..]);
      CmpConcat(pre, to[..n], k[n..], to[n..]);
    }
    CmpFlip(pre, from[..n]);
    if Low(pre, from) != OUTSIDE && High(pre, to) != OUTSIDE {
      var k := if Low(pre, from) == BORDER then from else if High(pre, to) == BORDER then to else pre + from[n..];
      assert IsKey(k) && pre <= k;
      assert InRange(k, from, to);
    }
  }

  /** A surviving prefix that goes on with the bytes `u`: only a BORDER state has to look at them. */
  function Next(s: Side, c: int, low: bool): Side {
    if s != BORDER then s
    else if c == 0 then BORDER
    else if (c > 0) == low then INSIDE
    else OUTSIDE
  }

  lemma CmpPrefix(pre: seq<Byte>, u: seq<Byte>, bound: Path)
    requires |pre| + |u| <= |bound|
    ensures Cmp(pre + u, bound[..|pre + u|]) ==
            if pre == bound[..|pre|] then Cmp(u, bound[|pre|..|pre| + |u|]) else Cmp(pre, bound[..|pre|])
  {
    hide Cmp;
    var n := |pre|;
    TakeConcat(bound, n, |u|);
    CmpConcat(pre, bound[..n], u, bound[n..n + |u|]);
  }

  lemma LowExtends(pre: seq<Byte>, u: seq<Byte>, from: Path)
    requires |pre| + |u| <= |from|
    ensures Low(pre + u, from) == Next(Low(pre, from), Cmp(u, from[|pre|..|pre| + |u|]), true)
  {
    hide Cmp;
    CmpPrefix(pre, u, from);
  }

  lemma HighExtends(pre: seq<Byte>, u: seq<Byte>, to: Path)
    requires |pre| + |u| <= |to|
    ensures High(pre + u, to) == Next(High(pre, to), Cmp(u, to[|pre|..|pre| + |u|]), false)
  {
    hide Cmp;
    CmpPrefix(pre, u, to);
  }

  /** The header of a node may repeat bytes that were passed already; that changes nothing. */
  lemma HeaderExtends(pre: seq<Byte>, depth: nat, partial: seq<Byte>, from: Path)
    requires IsKey(from) && depth <= |pre| && Fits(depth, partial) && pre <= Full(pre, depth, partial)
    ensures var q := Full(pre, depth, partial);
            && Low(q, from) == Next(Low(pre, from), Cmp(partial, from[depth..depth + |partial|]), true)
            && High(q, from) == Next(High(pre, from), Cmp(partial, from[depth..depth + |partial|]), false)
  {
    hide Cmp, Next, Low, High;
    BorderIs(pre, from);
    if pre == from[..|pre|] {
      FullOfBound(pre, depth, partial, from);
      HeaderFromBorder(depth, partial, from);
    } else {
      HeaderFromInside(pre, depth, partial, from);
    }
  }

  lemma HeaderFromBorder(depth: nat, partial: seq<Byte>, from: Path)
    requires depth + |partial| <= |from|
    ensures var q, c := from[..depth] + partial, Cmp(partial, from[depth..depth + |partial|]);
            Low(q, from) == Next(BORDER, c, true) && High(q, from) == Next(BORDER, c, false)
  {
    hide Cmp, Next, Low, High;
    var x, y := from[..depth], from[depth..depth + |partial|];
    TakeConcat(from, depth, |partial|);
    CmpConcat(x, x, partial, y);
    StateIs(x + partial, from, Cmp(partial, y));
  }

  lemma FullOfBound(pre: seq<Byte>, depth: nat, partial: seq<Byte>, from: Path)
    requires depth <= |pre| <= |from| && pre == from[..|pre|]
    ensures Full(pre, depth, partial) == from[..depth] + partial && |Full(pre, depth, partial)| == depth + |partial|
  {
    assert pre[..depth] == from[..depth];
  }

  lemma TakeConcat(s: seq<Byte>, n: nat, m: nat)
    requires n + m <= |s|
    ensures s[..n + m] == s[..n] + s[n..n + m]
  {
  }

  lemma StateIs(pre: seq<Byte>, bound: Path, c: int)
    requires |pre| <= |bound| && Cmp(pre, bound[..|pre|]) == c
    ensures Low(pre, bound) == Next(BORDER, c, true) && High(pre, bound) == Next(BORDER, c, false)
  {
    hide Cmp;
  }

  lemma HeaderFromInside(pre: seq<Byte>, depth: nat, partial: seq<Byte>, from: Path)
    requires IsKey(from) && depth <= |pre| && Fits(depth, partial) && pre <= Full(pre, depth, partial)
    requires Low(pre, from) != BORDER && High(pre, from) != BORDER
    ensures var q := Full(pre, depth, partial);
            && (forall c :: Low(q, from) == Next(Low(pre, from), c, true))
            && (forall c :: High(q, from) == Next(High(pre, from), c, false))
  {
    hide Cmp, Next, Low, High;
    var q := Full(pre, depth, partial);
    var rest := q[|pre|..];
    assert q == pre + rest;
    LowExtends(pre, rest, from);
    HighExtends(pre, rest, from);
    NextKeeps(Low(pre, from), true);
    NextKeeps(High(pre, from), false);
  }

  lemma BorderIs(pre: seq<Byte>, bound: Path)
    requires |pre| <= |bound|
    ensures Low(pre, bound) == BORDER <==> pre == bound[..|pre|]
    ensures High(pre, bound) == BORDER <==> pre == bound[..|pre|]
  {
    hide Cmp;
  }

  lemma NextKeeps(s: Side, low: bool)
    requires s != BORDER
    ensures forall c :: Next(s, c, low) == s
  {
  }

  // ----- one page -----

  /** The scan of a header against a bound. */
  method HeaderState(s: Side, depth: nat, partial: seq<Byte>, bound: Path, low: bool) returns (r: Side)
    requires IsKey(bound) && Fits(depth, partial)
    ensures r == Next(s, Cmp(partial, bound[depth..depth + |partial|]), low)
  {
    if s != BORDER {
      return s;
    }
    ghost var other := bound[depth..depth + |partial|];
    hide Cmp;
    var j := 0;
    while j < |partial| && partial[j] == bound[depth + j]
      invariant 0 <= j <= |partial| && partial[..j] == other[..j]
    {
      assert other[j] == bound[depth + j];
      assert partial[..j + 1] == partial[..j] + [partial[j]] && other[..j + 1] == other[..j] + [other[j]];
      j := j + 1;
    }
    if j == |partial| {
      assert partial[..j] == partial && other[..j] == other;
      return BORDER;
    }
    assert other[j] == bound[depth + j];
    CmpFrom(partial, other, j);
    r := if (partial[j] > bound[depth + j]) == low then INSIDE else OUTSIDE;
  }

  /** The first difference decides. */
  lemma CmpFrom(x: seq<Byte>, y: seq<Byte>, j: nat)
    requires |x| == |y| && j < |x| && x[..j] == y[..j] && x[j] != y[j]
    ensures Cmp(x, y) == if x[j] > y[j] then 1 else -1
  {
    assert x == x[..j] + x[j..] && y == y[..j] + y[j..];
    CmpConcat(x[..j], y[..j], x[j..], y[j..]);
  }

  /** What is followed next: a subtree with the two states of its prefix. */
  datatype Context = Context(t: Tree, pre: seq<Byte>, l: Side, r: Side)

  ghost predicate Tracked(c: Context, from: Path, to: Path) {
    && IsKey(from) && IsKey(to)
    && Formed(c.t, c.pre) && |c.pre| <= KEY_LEN + 1
    && c.l == Low(c.pre, from) && c.r == High(c.pre, to)
  }

  /** Some key that begins with `pre` lies in the range. */
  ghost predicate Wanted(pre: seq<Byte>, from: Path, to: Path)
    requires IsKey(from) && IsKey(to)
  {
    exists k :: IsKey(k) && pre <= k && InRange(k, from, to)
  }

  /** The context for the child under byte `b`. */
  ghost predicate Follows(c: Context, b: Byte, d: Context)
    requires c.t.Node? && c.t.depth <= |c.pre|
  {
    b in c.t.kids && d.t == c.t.kids[b] && d.pre == Full(c.pre, c.t.depth, c.t.partial) + [b]
  }

  ghost predicate IsChild(c: Context, d: Context)
    requires c.t.Node? && c.t.depth <= |c.pre|
  {
    exists b: Byte :: Follows(c, b, d)
  }

  function ByteState(s: Side, x: Byte, y: Byte, low: bool): Side {
    if s != BORDER then s else if x == y then BORDER else if (x > y) == low then INSIDE else OUTSIDE
  }

  /** The states of an entry, from those of the header. */
  lemma EntryStates(c: Context, from: Path, to: Path, b: Byte, l: Side, r: Side)
    requires Tracked(c, from, to) && c.t.Node? && b in c.t.kids
    requires var q := Full(c.pre, c.t.depth, c.t.partial); l == Low(q, from) && r == High(q, to)
    ensures var at := c.t.depth + |c.t.partial|;
            var d := Context(c.t.kids[b], Full(c.pre, c.t.depth, c.t.partial) + [b], ByteState(l, b, from[at], true), ByteState(r, b, to[at], false));
            Tracked(d, from, to) && Follows(c, b, d) && |c.pre| < |d.pre|
  {
    hide Cmp, Low, High;
    var q, at := Full(c.pre, c.t.depth, c.t.partial), c.t.depth + |c.t.partial|;
    LowByte(q, b, from);
    HighByte(q, b, to);
    ChildFormed(c, b);
  }

  lemma ChildFormed(c: Context, b: Byte)
    requires c.t.Node? && Formed(c.t, c.pre) && b in c.t.kids
    ensures var q := Full(c.pre, c.t.depth, c.t.partial);
            Formed(c.t.kids[b], q + [b]) && |c.pre| <= |q| <= KEY_LEN && |q| == c.t.depth + |c.t.partial|
  {
  }

  lemma LowByte(q: seq<Byte>, b: Byte, from: Path)
    requires |q| < |from|
    ensures Low(q + [b], from) == ByteState(Low(q, from), b, from[|q|], true)
  {
    hide Low;
    var n := |q|;
    assert from[n..n + 1] == [from[n]];
    LowExtends(q, [b], from);
    CmpOne(b, from[n]);
  }

  lemma HighByte(q: seq<Byte>, b: Byte, to: Path)
    requires |q| < |to|
    ensures High(q + [b], to) == ByteState(High(q, to), b, to[|q|], false)
  {
    hide High;
    var n := |q|;
    assert to[n..n + 1] == [to[n]];
    HighExtends(q, [b], to);
    CmpOne(b, to[n]);
  }

  lemma CmpOne(x: Byte, y: Byte)
    ensures Cmp([x], [y]) == if x < y then -1 else if x > y then 1 else 0
  {
  }

  /** What has been collected after the entries below byte `n`. */
  ghost predicate Collected(c: Context, from: Path, to: Path, res: seq<Context>, n: int)
    requires IsKey(from) && IsKey(to) && c.t.Node? && c.t.depth <= |c.pre|
  {
    && (forall i :: 0 <= i < |res| ==> Tracked(res[i], from, to) && |c.pre| < |res[i].pre| && Wanted(res[i].pre, from, to))
    && (forall i :: 0 <= i < |res| ==> IsChild(c, res[i]))
    && forall b: Byte :: b < n ==> Done(c, from, to, res, b)
  }

  /** The child under byte `b`, if it is wanted, is among the contexts. */
  ghost predicate Done(c: Context, from: Path, to: Path, res: seq<Context>, b: Byte)
    requires IsKey(from) && IsKey(to) && c.t.Node? && c.t.depth <= |c.pre|
  {
    b in c.t.kids && Wanted(Full(c.pre, c.t.depth, c.t.partial) + [b], from, to) ==>
      exists i :: 0 <= i < |res| && Follows(c, b, res[i])
  }

  /** The entries of one page that are worth following: exactly those below which some key of the
      range can lie. */
  method RangeQueryOnPage(c: Context, from: Path, to: Path) returns (res: seq<Context>)
    requires Tracked(c, from, to) && c.t.Node? && Cmp(from, to) <= 0
    ensures Collected(c, from, to, res, 256)
  {
    hide Cmp, Wanted, Tracked, Follows, Next, ByteState, Collected;
    PageParts(c, from, to);
    var depth, partial := c.t.depth, c.t.partial;
    var q := Full(c.pre, depth, partial);
    var l := HeaderState(c.l, depth, partial, from, true);
    var r := HeaderState(c.r, depth, partial, to, false);
    HeaderStates(c, from, to, l, r);
    res := [];
    NothingYet(c, from, to);
    if l == OUTSIDE || r == OUTSIDE {
      OutsidePage(c, from, to, l, r);
      return;
    }
    var at := depth + |partial|;
    for n := 0 to 256
      invariant Collected(c, from, to, res, n)
    {
      var b: Byte := n;
      if b in c.t.kids {
        var d := Context(c.t.kids[b], q + [b], ByteState(l, b, from[at], true), ByteState(r, b, to[at], false));
        EntryStates(c, from, to, b, l, r);
        EntryWanted(d, from, to);
        CollectOne(c, from, to, res, b, d);
        if d.l != OUTSIDE && d.r != OUTSIDE {
          res := res + [d];
        }
      } else {
        CollectNone(c, from, to, res, n);
      }
    }
  }

  lemma PageParts(c: Context, from: Path, to: Path)
    requires Tracked(c, from, to) && c.t.Node?
    ensures IsKey(from) && IsKey(to) && c.t.depth <= |c.pre| && Fits(c.t.depth, c.t.partial)
  {
  }

  lemma HeaderStates(c: Context, from: Path, to: Path, l: Side, r: Side)
    requires Tracked(c, from, to) && c.t.Node?
    requires l == Next(c.l, Cmp(c.t.partial, from[c.t.depth..c.t.depth + |c.t.partial|]), true)
    requires r == Next(c.r, Cmp(c.t.partial, to[c.t.depth..c.t.depth + |c.t.partial|]), false)
    ensures var q := Full(c.pre, c.t.depth, c.t.partial); l == Low(q, from) && r == High(q, to)
  {
    hide Cmp, Next, Low, High;
    HeaderExtends(c.pre, c.t.depth, c.t.partial, from);
    HeaderExtends(c.pre, c.t.depth, c.t.partial, to);
  }

  lemma NothingYet(c: Context, from: Path, to: Path)
    requires IsKey(from) && IsKey(to) && c.t.Node? && c.t.depth <= |c.pre|
    ensures Collected(c, from, to, [], 0)
  {
  }

  lemma EntryWanted(d: Context, from: Path, to: Path)
    requires Tracked(d, from, to) && Cmp(from, to) <= 0
    ensures d.l != OUTSIDE && d.r != OUTSIDE <==> Wanted(d.pre, from, to)
  {
    hide Cmp, InRange;
    SurvivesExact(d.pre, from, to);
  }

  lemma CollectOne(c: Context, from: Path, to: Path, res: seq<Context>, b: Byte, d: Context)
    requires Tracked(c, from, to) && c.t.Node? && Collected(c, from, to, res, b)
    requires Tracked(d, from, to) && Follows(c, b, d) && |c.pre| < |d.pre|
    ensures Wanted(d.pre, from, to) ==> Collected(c, from, to, res + [d], b + 1)
    ensures !Wanted(d.pre, from, to) ==> Collected(c, from, to, res, b + 1)
  {
    hide Wanted, Tracked;
    PageParts(c, from, to);
    var all := res + [d];
    assert all[|res|] == d && IsChild(c, d);
    hide IsChild;
    assert forall i :: 0 <= i < |res| ==> all[i] == res[i];
    forall x: Byte | x < b ensures Done(c, from, to, all, x) {
      assert Done(c, from, to, res, x);
      if x in c.t.kids && Wanted(Full(c.pre, c.t.depth, c.t.partial) + [x], from, to) {
        var i :| 0 <= i < |res| && Follows(c, x, res[i]);
        assert Follows(c, x, all[i]);
      }
    }
    assert Done(c, from, to, all, b);
  }

  lemma CollectNone(c: Context, from: Path, to: Path, res: seq<Context>, n: nat)
    requires Tracked(c, from, to) && c.t.Node? && Collected(c, from, to, res, n) && n < 256
    requires var b: Byte := n; b !in c.t.kids
    ensures Collected(c, from, to, res, n + 1)
  {
    hide Wanted, Tracked, IsChild;
    PageParts(c, from, to);
    var b: Byte := n;
    assert Done(c, from, to, res, b);
  }

  lemma PrefixOf(q: seq<Byte>, b: Byte, k: Path)
    requires q + [b] <= k
    ensures q <= k
  {
  }

  /** If the page as a whole is outside, no entry of it is wanted. */
  lemma OutsidePage(c: Context, from: Path, to: Path, l: Side, r: Side)
    requires Tracked(c, from, to) && c.t.Node? && Cmp(from, to) <= 0 && (l == OUTSIDE || r == OUTSIDE)
    requires var q := Full(c.pre, c.t.depth, c.t.partial); l == Low(q, from) && r == High(q, to)
    ensures Collected(c, from, to, [], 256)
  {
    hide Cmp, InRange, Low, High;
    var q := Full(c.pre, c.t.depth, c.t.partial);
    SurvivesExact(q, from, to);
    forall b: Byte ensures !Wanted(q + [b], from, to) && Done(c, from, to, [], b) {
      if Wanted(q + [b], from, to) {
        var k :| IsKey(k) && q + [b] <= k && InRange(k, from, to);
        PrefixOf(q, b, k);
        assert false;
      }
    }
  }

  // ----- the whole query -----

  /** The pair is below one of the contexts. */
  ghost predicate Pending(cs: seq<Context>, k: Path, v: Value) {
    exists i :: 0 <= i < |cs| && Has(cs[i].t, k, v)
  }

  ghost predicate AllTracked(cs: seq<Context>, from: Path, to: Path, level: nat) {
    forall i :: 0 <= i < |cs| ==> Tracked(cs[i], from, to) && level <= |cs[i].pre|
  }

  ghost predicate Belongs(t: Tree, cs: seq<Context>) {
    forall k, v :: Pending(cs, k, v) ==> Has(t, k, v)
  }

  ghost predicate Sound(t: Tree, from: Path, to: Path, ret: map<Path, Value>)
    requires IsKey(from) && IsKey(to)
  {
    forall k :: k in ret ==> IsKey(k) && InRange(k, from, to) && Has(t, k, ret[k])
  }

  /** Every pair of the range is in the result, or below `todo`, or below `next`. */
  ghost predicate Complete(t: Tree, from: Path, to: Path, ret: map<Path, Value>, todo: seq<Context>, next: seq<Context>)
    requires IsKey(from) && IsKey(to)
  {
    forall k, v :: Has(t, k, v) && IsKey(k) && InRange(k, from, to) ==> k in ret || Pending(todo, k, v) || Pending(next, k, v)
  }

  /** A page's survivors hold every pair of the range that the page holds, and nothing else. */
  lemma PageStep(c: Context, from: Path, to: Path, res: seq<Context>, k: Path, v: Value)
    requires Tracked(c, from, to) && c.t.Node? && Collected(c, from, to, res, 256)
    ensures Pending(res, k, v) ==> Has(c.t, k, v)
    ensures Has(c.t, k, v) && IsKey(k) && InRange(k, from, to) ==> Pending(res, k, v)
  {
    hide Cmp, InRange;
    if Pending(res, k, v) {
      var i :| 0 <= i < |res| && Has(res[i].t, k, v);
      assert IsChild(c, res[i]);
    }
    if Has(c.t, k, v) && IsKey(k) && InRange(k, from, to) {
      var b :| b in c.t.kids && Has(c.t.kids[b], k, v);
      var q := Full(c.pre, c.t.depth, c.t.partial) + [b];
      HasPrefix(c.t.kids[b], q, k, v);
      assert Wanted(q, from, to);
      assert Done(c, from, to, res, b);
    }
  }

  lemma PendingConcat(x: seq<Context>, y: seq<Context>, k: Path, v: Value)
    ensures Pending(x + y, k, v) <==> Pending(x, k, v) || Pending(y, k, v)
  {
    if Pending(x, k, v) {
      var i :| 0 <= i < |x| && Has(x[i].t, k, v);
      assert (x + y)[i] == x[i];
    }
    if Pending(y, k, v) {
      var i :| 0 <= i < |y| && Has(y[i].t, k, v);
      assert (x + y)[|x| + i] == y[i];
    }
  }

  lemma PendingHead(cs: seq<Context>, k: Path, v: Value)
    requires cs != []
    ensures Pending(cs, k, v) <==> Has(cs[0].t, k, v) || Pending(cs[1..], k, v)
  {
    assert cs == [cs[0]] + cs[1..];
    PendingConcat([cs[0]], cs[1..], k, v);
    assert [cs[0]][0] == cs[0];
  }

  /** Taking one context off the list: its leaf goes to the result, its page's survivors to the next
      level. */
  lemma TakeStep(t: Tree, from: Path, to: Path, ret: map<Path, Value>, todo: seq<Context>, next: seq<Context>,
                 ret': map<Path, Value>, more: seq<Context>)
    requires IsKey(from) && IsKey(to) && todo != [] && Tracked(todo[0], from, to)
    requires Sound(t, from, to, ret) && Complete(t, from, to, ret, todo, next) && Belongs(t, todo) && Belongs(t, next)
    requires todo[0].t.Node? ==> Collected(todo[0], from, to, more, 256) && ret' == ret
    requires !todo[0].t.Node? ==> more == []
    requires todo[0].t.Empty? ==> ret' == ret
    requires todo[0].t.Leaf? ==> ret' == if InRange(todo[0].t.key, from, to) then ret[todo[0].t.key := todo[0].t.value] else ret
    ensures Sound(t, from, to, ret') && Complete(t, from, to, ret', todo[1..], next + more)
    ensures Belongs(t, todo[1..]) && Belongs(t, next + more)
  {
    hide Cmp, InRange, Tracked, Collected, Pending;
    var c := todo[0];
    forall k, v
      ensures Pending(todo, k, v) <==> Has(c.t, k, v) || Pending(todo[1..], k, v)
      ensures Pending(next + more, k, v) <==> Pending(next, k, v) || Pending(more, k, v)
      ensures Pending(more, k, v) ==> Has(c.t, k, v)
      ensures Has(c.t, k, v) && IsKey(k) && InRange(k, from, to) ==> k in ret' || Pending(more, k, v)
    {
      PendingHead(todo, k, v);
      PendingConcat(next, more, k, v);
      if c.t.Node? {
        PageStep(c, from, to, more, k, v);
      } else {
        NonePending(k, v);
      }
    }
    if c.t.Leaf? {
      LeafKey(c, from, to);
      assert Has(c.t, c.t.key, c.t.value);
      assert Pending(todo, c.t.key, c.t.value);
    }
  }

  lemma NonePending(k: Path, v: Value)
    ensures !Pending([], k, v)
  {
  }

  lemma LeafKey(c: Context, from: Path, to: Path)
    requires Tracked(c, from, to)
    ensures c.t.Leaf? ==> IsKey(c.t.key) && |c.pre| <= KEY_LEN + 1
    ensures |c.pre| <= KEY_LEN + 1
  {
  }

  /** Two pairs with one key are one pair. */
  lemma OneValue(t: Tree, pre: seq<Byte>, k: Path, v: Value, w: Value)
    requires Formed(t, pre) && IsKey(k) && Has(t, k, v) && Has(t, k, w)
    ensures v == w
  {
    LookupExact(t, pre, k, v);
    LookupExact(t, pre, k, w);
  }

  ghost predicate IsResult(t: Tree, from: Path, to: Path, ret: map<Path, Value>)
    requires IsKey(from) && IsKey(to)
  {
    forall k, v :: IsKey(k) ==> (k in ret && ret[k] == v <==> Has(t, k, v) && InRange(k, from, to))
  }

  lemma ResultIs(t: Tree, pre: seq<Byte>, from: Path, to: Path, ret: map<Path, Value>)
    requires Formed(t, pre) && IsKey(from) && IsKey(to)
    requires Sound(t, from, to, ret) && Complete(t, from, to, ret, [], [])
    ensures IsResult(t, from, to, ret)
  {
    hide InRange, Formed;
    forall k, v | IsKey(k) ensures k in ret && ret[k] == v <==> Has(t, k, v) && InRange(k, from, to) {
      NonePending(k, v);
      if Has(t, k, v) && InRange(k, from, to) {
        OneValue(t, pre, k, v, ret[k]);
      }
    }
  }

  /** All contexts of one level, read together. */
  method QueryLevel(ghost t: Tree, from: Path, to: Path, survivors: seq<Context>, ret: map<Path, Value>, ghost level: nat)
    returns (next: seq<Context>, ret': map<Path, Value>)
    requires IsKey(from) && IsKey(to) && Cmp(from, to) <= 0 && AllTracked(survivors, from, to, level)
    requires Sound(t, from, to, ret) && Complete(t, from, to, ret, survivors, []) && Belongs(t, survivors)
    ensures AllTracked(next, from, to, level + 1)
    ensures Sound(t, from, to, ret') && Complete(t, from, to, ret', [], next) && Belongs(t, next)
  {
    hide Cmp, InRange, Tracked, Collected, Pending, Has, Sound, Complete;
    next, ret' := [], ret;
    NoneBelongs(t);
    var i := 0;
    while i < |survivors|
      invariant 0 <= i <= |survivors|
      invariant AllTracked(next, from, to, level + 1)
      invariant Sound(t, from, to, ret') && Complete(t, from, to, ret', survivors[i..], next)
      invariant Belongs(t, survivors[i..]) && Belongs(t, next)
    {
      var c := survivors[i];
      ghost var was := ret';
      LeafKey(c, from, to);
      var more: seq<Context> := [];
      if c.t.Leaf? {
        if Cmp(from, c.t.key) <= 0 && Cmp(c.t.key, to) <= 0 {
          ret' := ret'[c.t.key := c.t.value];
        }
        RangeTest(c.t.key, from, to);
      } else if c.t.Node? {
        more := RangeQueryOnPage(c, from, to);
        PageDeeper(c, from, to, more, level);
      }
      TakeStep(t, from, to, was, survivors[i..], next, ret', more);
      assert survivors[i..][1..] == survivors[i + 1..];
      next := next + more;
      i := i + 1;
    }
    assert survivors[i..] == [];
  }

  lemma RangeTest(k: Path, from: Path, to: Path)
    requires IsKey(k) && IsKey(from) && IsKey(to)
    ensures InRange(k, from, to) <==> Cmp(from, k) <= 0 && Cmp(k, to) <= 0
  {
  }

  lemma PageDeeper(c: Context, from: Path, to: Path, more: seq<Context>, level: nat)
    requires Tracked(c, from, to) && c.t.Node? && Collected(c, from, to, more, 256) && level <= |c.pre|
    ensures AllTracked(more, from, to, level + 1)
  {
    hide Tracked, Wanted, Done;
  }

  lemma NoneBelongs(t: Tree)
    ensures Belongs(t, [])
  {
  }

  /** The query, level by level, from contexts that stand for the subtree `t`. It ends because every
      level is reached by more bytes than the one above, and its result is exactly the part of the
      subtree's map that is in range. */
  method QueryLevels(ghost t: Tree, ghost pre: seq<Byte>, from: Path, to: Path, starts: seq<Context>) returns (ret: map<Path, Value>)
    requires Formed(t, pre) && IsKey(from) && IsKey(to) && Cmp(from, to) <= 0
    requires AllTracked(starts, from, to, 0) && Belongs(t, starts) && Complete(t, from, to, map[], starts, [])
    ensures IsResult(t, from, to, ret) && Sound(t, from, to, ret)
  {
    NothingFound(t, from, to);
    hide Cmp, InRange, Tracked, Has, Sound, Complete, Belongs, Formed;
    ret := map[];
    var survivors := starts;
    ghost var level := 0;
    while survivors != []
      invariant level <= KEY_LEN + 2 && AllTracked(survivors, from, to, level)
      invariant Sound(t, from, to, ret) && Complete(t, from, to, ret, survivors, []) && Belongs(t, survivors)
      decreases KEY_LEN + 2 - level
    {
      LeafKey(survivors[0], from, to);
      survivors, ret := QueryLevel(t, from, to, survivors, ret, level);
      SwapPending(t, from, to, ret, survivors);
      level := level + 1;
    }
    ResultIs(t, pre, from, to, ret);
  }

  lemma NothingFound(t: Tree, from: Path, to: Path)
    requires IsKey(from) && IsKey(to)
    ensures Sound(t, from, to, map[])
  {
  }

  /** Started at the root, the query is exact. */
  method RangeQueryFromRoot(t: Tree, from: Path, to: Path) returns (ret: map<Path, Value>)
    requires Formed(t, ROOT) && IsKey(from) && IsKey(to) && from[..1] == ROOT && to[..1] == ROOT
    ensures IsResult(t, from, to, ret)
  {
    if Cmp(from, to) > 0 {
      EmptyRange(t, from, to);
      return map[];
    }
    var start := Context(t, ROOT, BORDER, BORDER);
    BorderPrefix(t, ROOT, from, to);
    StartQuery(t, ROOT, from, to, start);
    ret := QueryLevels(t, ROOT, from, to, [start]);
  }

  lemma SwapPending(t: Tree, from: Path, to: Path, ret: map<Path, Value>, next: seq<Context>)
    requires IsKey(from) && IsKey(to) && Complete(t, from, to, ret, [], next)
    ensures Complete(t, from, to, ret, next, [])
  {
    hide Pending, InRange, Has;
  }

  /** A prefix that both bounds have is on both borders. */
  lemma BorderPrefix(t: Tree, pre: seq<Byte>, from: Path, to: Path)
    requires IsKey(from) && IsKey(to) && |pre| <= KEY_LEN + 1 && pre == from[..|pre|] && pre == to[..|pre|] && Formed(t, pre)
    ensures Tracked(Context(t, pre, BORDER, BORDER), from, to)
  {
    hide Formed, Cmp;
  }

  lemma StartQuery(t: Tree, pre: seq<Byte>, from: Path, to: Path, start: Context)
    requires IsKey(from) && IsKey(to) && start == Context(t, pre, BORDER, BORDER) && Tracked(start, from, to)
    ensures AllTracked([start], from, to, 0) && Belongs(t, [start])
    ensures Complete(t, from, to, map[], [start], [])
  {
    hide InRange, Formed, Cmp;
    forall k, v ensures Pending([start], k, v) <==> Has(t, k, v) {
      assert [start][0] == start;
    }
    hide Pending;
  }

  lemma EmptyRange(t: Tree, from: Path, to: Path)
    requires IsKey(from) && IsKey(to) && Cmp(from, to) > 0
    ensures IsResult(t, from, to, map[])
  {
    forall k | IsKey(k) ensures !InRange(k, from, to) {
      if InRange(k, from, to) {
        CmpTransitive(from, k, to);
      }
    }
  }

  lemma {:induction false} CmpTransitive(x: seq<Byte>, y: seq<Byte>, z: seq<Byte>)
    requires |x| == |y| == |z| && Cmp(x, y) <= 0 && Cmp(y, z) <= 0
    ensures Cmp(x, z) <= 0
  {
    if x != [] && x[0] == y[0] == z[0] {
      CmpTransitive(x[1..], y[1..], z[1..]);
    }
  }

  // ----- where the query starts -----

  /** The pairs of the range that `t` holds are exactly those that `u` holds. */
  ghost predicate SameInRange(t: Tree, u: Tree, from: Path, to: Path)
    requires IsKey(from) && IsKey(to)
  {
    forall k, v :: IsKey(k) && InRange(k, from, to) ==> (Has(t, k, v) <==> Has(u, k, v))
  }

  /** Keys of the range begin with what the bounds have in common. */
  lemma InRangeShares(k: Path, from: Path, to: Path, n: nat)
    requires IsKey(k) && IsKey(from) && IsKey(to) && n <= KEY_LEN + 1 && from[..n] == to[..n] && InRange(k, from, to)
    ensures k[..n] == from[..n]
  {
    assert k == k[..n] + k[n..] && from == from[..n] + from[n..] && to == to[..n] + to[n..];
    CmpConcat(from[..n], k[..n], from[n..], k[n..]);
    CmpConcat(k[..n], to[..n], k[n..], to[n..]);
    CmpFlip(from[..n], k[..n]);
  }

  /** Only the child under the bound's byte can hold keys of the range. */
  lemma ChildHolds(t: Tree, pre: seq<Byte>, from: Path, to: Path, target: nat)
    requires t.Node? && Formed(t, pre) && IsKey(from) && IsKey(to)
    requires t.depth + |t.partial| < target <= KEY_LEN + 1 && from[..target] == to[..target]
    ensures var at := t.depth + |t.partial|; SameInRange(t, if from[at] in t.kids then t.kids[from[at]] else Empty, from, to)
  {
    hide Cmp, InRange;
    var at, q := t.depth + |t.partial|, Full(pre, t.depth, t.partial);
    var u := if from[at] in t.kids then t.kids[from[at]] else Empty;
    forall k, v | IsKey(k) && InRange(k, from, to) ensures Has(t, k, v) <==> Has(u, k, v) {
      InRangeShares(k, from, to, target);
      assert k[at] == k[..target][at] == from[..target][at];
      if Has(t, k, v) {
        var b :| b in t.kids && Has(t.kids[b], k, v);
        HasPrefix(t.kids[b], q + [b], k, v);
        assert (q + [b])[at] == b;
      }
    }
  }

  /** A header that differs from the bounds where they agree holds no key of the range. */
  lemma MismatchHoldsNone(t: Tree, pre: seq<Byte>, from: Path, to: Path, target: nat, i: nat)
    requires t.Node? && Formed(t, pre) && IsKey(from) && IsKey(to) && target <= KEY_LEN + 1 && from[..target] == to[..target]
    requires i < |t.partial| && t.depth + i < target && t.partial[i] != from[t.depth + i]
    ensures SameInRange(t, Empty, from, to)
  {
    hide Cmp, InRange, Has;
    var x := t.depth + i;
    forall k, v | IsKey(k) && InRange(k, from, to) ensures Has(t, k, v) <==> Has(Empty, k, v) {
      InRangeShares(k, from, to, target);
      assert k[x] == k[..target][x] == from[..target][x];
      EmptyHas(k, v);
      if Has(t, k, v) {
        HasHeader(t, pre, k, v, i);
        assert false;
      }
    }
  }

  lemma HasHeader(t: Tree, pre: seq<Byte>, k: Path, v: Value, i: nat)
    requires t.Node? && Formed(t, pre) && Has(t, k, v) && i < |t.partial|
    ensures IsKey(k) && k[t.depth + i] == t.partial[i]
  {
    var q := Full(pre, t.depth, t.partial);
    var b :| b in t.kids && Has(t.kids[b], k, v);
    HasPrefix(t.kids[b], q + [b], k, v);
    assert (q + [b])[t.depth + i] == t.partial[i];
  }

  /** The leaf at which the descent towards `from` ends before it has passed `target` bytes. */
  function EarlyLeaf(t: Tree, depth: nat, from: Path, target: nat): Option<Path>
    requires IsKey(from) && Bounded(t)
  {
    if t.Empty? || depth == target then None
    else if t.Leaf? then Some(t.key)
    else
      var at := t.depth + |t.partial|;
      if target <= at || !Matches(t.depth, t.partial, from) || from[at] !in t.kids then None
      else EarlyLeaf(t.kids[from[at]], at + 1, from, target)
  }

  /** What the descent has found: contexts that stand for a subtree with the same pairs of the range as
      the whole tree, unless it ended at an early leaf. */
  ghost predicate Started(t: Tree, u: Tree, pre: seq<Byte>, from: Path, to: Path, starts: seq<Context>) {
    && IsKey(from) && IsKey(to) && Formed(u, pre) && SameInRange(t, u, from, to)
    && AllTracked(starts, from, to, 0) && Belongs(u, starts) && Complete(u, from, to, map[], starts, [])
  }

  lemma NothingToStart(t: Tree, from: Path, to: Path)
    requires IsKey(from) && IsKey(to) && SameInRange(t, Empty, from, to)
    ensures Started(t, Empty, ROOT, from, to, [])
  {
    hide InRange;
    forall k, v ensures !Has(Empty, k, v) {
    }
  }

  lemma SameTrans(t: Tree, u: Tree, w: Tree, from: Path, to: Path)
    requires IsKey(from) && IsKey(to) && SameInRange(t, u, from, to) && SameInRange(u, w, from, to)
    ensures SameInRange(t, w, from, to)
  {
    hide InRange, Has;
  }

  /** The header scan on the way down: a difference, the target depth inside the header, or neither. */
  method ScanHeader(p: Tree, from: Path, target: nat) returns (differs: bool, inside: bool, ghost at: nat)
    requires p.Node? && IsKey(from) && Fits(p.depth, p.partial) && p.depth < target
    ensures differs ==> at < |p.partial| && p.depth + at < target && p.partial[at] != from[p.depth + at]
    ensures !differs && inside ==> target <= p.depth + |p.partial|
    ensures !differs && !inside ==> Matches(p.depth, p.partial, from) && p.depth + |p.partial| < target
  {
    at := 0;
    for i := 0 to |p.partial|
      invariant p.depth + i < target && forall x :: 0 <= x < i ==> from[p.depth + x] == p.partial[x]
    {
      if from[p.depth + i] != p.partial[i] {
        return true, false, i;
      }
      if p.depth + i + 1 == target {
        return false, true, i;
      }
    }
    assert from[p.depth..p.depth + |p.partial|] == p.partial;
    differs, inside := false, false;
  }

  /** The search for the entries at which the query starts: down along `from` for as many bytes as the
      two bounds have in common. */
  method SearchEntries(t: Tree, from: Path, to: Path, target: nat) returns (starts: seq<Context>, ghost u: Tree, ghost pre: seq<Byte>, ghost early: bool)
    requires Formed(t, ROOT) && Bounded(t) && IsKey(from) && IsKey(to) && Cmp(from, to) <= 0
    requires 1 <= target <= KEY_LEN + 1 && from[..target] == to[..target] && from[..1] == ROOT
    ensures early <==> EarlyLeaf(t, 1, from, target).Some?
    ensures early ==> starts == [] && u.Leaf? && IsKey(u.key) && EarlyLeaf(t, 1, from, target) == Some(u.key) && SameInRange(t, u, from, to)
    ensures !early ==> Started(t, u, pre, from, to, starts)
  {
    hide Cmp, InRange, Has, Complete, Belongs, AllTracked, Collected, Tracked;
    var p, depth := t, 1;
    pre := ROOT;
    starts, u, early := [], t, false;
    while true
      invariant Formed(p, pre) && Bounded(p) && |pre| == depth <= target && pre == from[..depth] && SameInRange(t, p, from, to)
      invariant EarlyLeaf(t, 1, from, target) == EarlyLeaf(p, depth, from, target)
      decreases p
    {
      u := p;
      if p.Empty? {
        NothingToStart(t, from, to);
        pre := ROOT;
        return;
      }
      if depth == target {
        starts := [Context(p, from[..depth], BORDER, BORDER)];
        StartHere(t, p, pre, from, to, target);
        return;
      }
      if p.Leaf? {
        early := true;
        return;
      }
      var differs, inside, i := ScanHeader(p, from, target);
      if differs {
        MismatchHoldsNone(p, pre, from, to, target, i);
        SameTrans(t, p, Empty, from, to);
        NothingToStart(t, from, to);
        EarlyDiffers(p, depth, from, target, i);
        u, pre := Empty, ROOT;
        return;
      }
      if inside {
        StartHere(t, p, pre, from, to, target);
        starts := RangeQueryOnPage(Context(p, from[..depth], BORDER, BORDER), from, to);
        PageStarts(t, p, pre, from, to, starts);
        return;
      }
      ghost var at := p.depth + |p.partial|;
      ChildHolds(p, pre, from, to, target);
      var b := from[p.depth + |p.partial|];
      if b !in p.kids {
        SameTrans(t, p, Empty, from, to);
        NothingToStart(t, from, to);
        u, pre := Empty, ROOT;
        return;
      }
      SameTrans(t, p, p.kids[b], from, to);
      Descends(p, pre, from, depth);
      pre := from[..at + 1];
      depth := p.depth + |p.partial| + 1;
      p := p.kids[b];
    }
  }

  lemma EarlyDiffers(p: Tree, depth: nat, from: Path, target: nat, i: nat)
    requires p.Node? && IsKey(from) && Bounded(p) && depth < target && i < |p.partial| && p.partial[i] != from[p.depth + i]
    ensures EarlyLeaf(p, depth, from, target) == None
  {
    assert from[p.depth..p.depth + |p.partial|][i] == from[p.depth + i];
  }

  lemma Descends(p: Tree, pre: seq<Byte>, from: Path, depth: nat)
    requires p.Node? && IsKey(from) && Formed(p, pre) && Matches(p.depth, p.partial, from) && depth <= |from| && pre == from[..depth]
    requires from[p.depth + |p.partial|] in p.kids
    ensures var at := p.depth + |p.partial|; Formed(p.kids[from[at]], from[..at + 1])
  {
    var at := p.depth + |p.partial|;
    assert Full(pre, p.depth, p.partial) == from[..at] by {
      assert pre[..p.depth] == from[..p.depth];
      assert from[..at] == from[..p.depth] + from[p.depth..at];
    }
    assert from[..at] + [from[at]] == from[..at + 1];
  }

  lemma StartHere(t: Tree, p: Tree, pre: seq<Byte>, from: Path, to: Path, target: nat)
    requires Formed(p, pre) && IsKey(from) && IsKey(to) && |pre| <= target <= KEY_LEN + 1
    requires from[..target] == to[..target] && pre == from[..|pre|] && SameInRange(t, p, from, to)
    ensures var start := Context(p, pre, BORDER, BORDER);
            Tracked(start, from, to) && Started(t, p, pre, from, to, [start])
  {
    hide Formed, InRange, Has, Cmp;
    assert from[..|pre|] == from[..target][..|pre|] && to[..|pre|] == to[..target][..|pre|];
    BorderPrefix(p, pre, from, to);
    StartQuery(p, pre, from, to, Context(p, pre, BORDER, BORDER));
  }

  lemma PageStarts(t: Tree, p: Tree, pre: seq<Byte>, from: Path, to: Path, starts: seq<Context>)
    requires p.Node? && IsKey(from) && IsKey(to) && Formed(p, pre) && SameInRange(t, p, from, to)
    requires var c := Context(p, pre, BORDER, BORDER); Tracked(c, from, to) && Collected(c, from, to, starts, 256)
    ensures Started(t, p, pre, from, to, starts)
  {
    hide Formed, InRange, Cmp, Tracked, Collected, Has, Pending;
    var c := Context(p, pre, BORDER, BORDER);
    forall k, v
      ensures Pending(starts, k, v) ==> Has(p, k, v)
      ensures Has(p, k, v) && IsKey(k) && InRange(k, from, to) ==> Pending(starts, k, v)
    {
      PageStep(c, from, to, starts, k, v);
    }
    PageDeeper(c, from, to, starts, 0);
    WeakerLevel(starts, from, to);
  }

  lemma WeakerLevel(cs: seq<Context>, from: Path, to: Path)
    requires AllTracked(cs, from, to, 1)
    ensures AllTracked(cs, from, to, 0)
  {
    hide Tracked;
  }

  lemma SameResult(t: Tree, u: Tree, from: Path, to: Path, ret: map<Path, Value>)
    requires IsKey(from) && IsKey(to) && SameInRange(t, u, from, to) && IsResult(u, from, to, ret)
    ensures IsResult(t, from, to, ret)
  {
    hide InRange, Has;
  }

  /** The query as it runs. It is exact if and only if the descent to the common prefix of the bounds
      does not end early at a leaf whose key lies in the range; in that case it returns nothing. */
  method RangeQuery(t: Tree, from: Path, to: Path) returns (ret: map<Path, Value>)
    requires Formed(t, ROOT) && Bounded(t) && IsKey(from) && IsKey(to) && from[..1] == ROOT && to[..1] == ROOT
    ensures var early := EarlyLeaf(t, 1, from, CommonFrom(from, to, 0));
            var missed := Cmp(from, to) <= 0 && early.Some? && IsKey(early.value) && InRange(early.value, from, to);
            && (IsResult(t, from, to, ret) <==> !missed)
            && (missed ==> ret == map[])
  {
    if Cmp(from, to) > 0 {
      EmptyRange(t, from, to);
      return map[];
    }
    var target := CommonFrom(from, to, 0);
    assert from[..target] == from[0..target] && to[..target] == to[0..target];
    CommonRoot(from, to);
    var starts, u, pre, early := SearchEntries(t, from, to, target);
    ghost var base, prefix := if early then Empty else u, if early then ROOT else pre;
    if early {
      NothingToStart(Empty, from, to);
    }
    ret := QueryLevels(base, prefix, from, to, starts);
    if early {
      EmptySound(from, to, ret);
      EarlyMisses(t, u, from, to);
    } else {
      SameResult(t, u, from, to, ret);
    }
  }

  lemma CommonRoot(from: Path, to: Path)
    requires IsKey(from) && IsKey(to) && from[..1] == to[..1]
    ensures 1 <= CommonFrom(from, to, 0)
  {
    assert from[0] == from[..1][0] && to[0] == to[..1][0];
  }

  lemma EmptySound(from: Path, to: Path, ret: map<Path, Value>)
    requires IsKey(from) && IsKey(to) && Sound(Empty, from, to, ret)
    ensures ret == map[]
  {
    forall k ensures k !in ret {
    }
  }

  /** An early leaf holds the only pair of the range, if its key is in it. */
  lemma EarlyMisses(t: Tree, u: Tree, from: Path, to: Path)
    requires IsKey(from) && IsKey(to) && u.Leaf? && IsKey(u.key) && SameInRange(t, u, from, to)
    ensures IsResult(t, from, to, map[]) <==> !InRange(u.key, from, to)
  {
    hide InRange;
    if InRange(u.key, from, to) {
      assert Has(u, u.key, u.value);
      assert Has(t, u.key, u.value);
    }
  }

  /** So a query for a single key that is stored below the root in a leaf of its own returns nothing,
      whenever keys are longer than one byte. */
  lemma SingleKeyIsMissed(k: Path, v: Value)
    requires IsKey(k) && k[..1] == ROOT && 1 < KEY_LEN
    ensures var t := Node(1, [], map[k[1] := Leaf(k, v)]);
            && Formed(t, ROOT) && Bounded(t) && Lookup(t, k) == Some(v)
            && CommonFrom(k, k, 0) == KEY_LEN + 1
            && EarlyLeaf(t, 1, k, CommonFrom(k, k, 0)) == Some(k) && InRange(k, k, k)
  {
    var t := Node(1, [], map[k[1] := Leaf(k, v)]);
    assert k[..1] + [k[1]] == k[..2];
    assert Full(ROOT, 1, []) + [k[1]] == k[..2];
    assert Formed(Leaf(k, v), Full(ROOT, 1, []) + [k[1]]);
    FormedBounded(t, ROOT);
    assert k[1..1] == [];
    CommonSelf(k, 0);
    assert EarlyLeaf(t.kids[k[1]], 2, k, KEY_LEN + 1) == Some(k);
  }

  lemma {:induction false} CommonSelf(k: Path, d: nat)
    requires IsKey(k) && d <= KEY_LEN + 1
    ensures CommonFrom(k, k, d) == KEY_LEN + 1 - d
    decreases KEY_LEN + 1 - d
  {
    if d <= KEY_LEN {
      CommonSelf(k, d + 1);
    }
  }
}
