/** Epoch-based reclamation. Protect is two steps, the load of the current epoch and the store into
    the thread's table entry; a bump is one fetch-and-add, one read per table entry and one store,
    and any number of bumps overlap; retiring is an unlink followed by taking the stamp. */
module Epoch {

  // ----- the table -----

  /** `thread` 0 means free, `epoch` 0 means not protected. */
  datatype Entry = Entry(thread: nat, epoch: nat)

  function Oldest(oldest: nat, e: Entry): nat {
    if e.epoch != 0 && e.epoch < oldest then e.epoch else oldest
  }

  /** One uninterrupted scan: the result lies just below the current epoch and every protected one,
      and is the largest such. */
  method ComputeNewSafeToReclaimEpoch(table: array<Entry>, current: nat) returns (safe: nat)
    requires 1 <= current
    ensures safe < current
    ensures forall i :: 0 <= i < table.Length && table[i].epoch != 0 ==> safe < table[i].epoch
    ensures safe + 1 == current || exists i :: 0 <= i < table.Length && table[i].epoch == safe + 1
  {
    var oldest := current;
    for i := 0 to table.Length
      invariant 1 <= oldest <= current
      invariant forall x :: 0 <= x < i && table[x].epoch != 0 ==> oldest <= table[x].epoch
      invariant oldest == current || exists x :: 0 <= x < i && table[x].epoch == oldest
    {
      if table[i].epoch != 0 && table[i].epoch < oldest {
        oldest := table[i].epoch;
      }
    }
    safe := oldest - 1;
  }

  /** The entry `x` places after `first` in a table of `n`, going round. */
  function Probe(first: nat, x: nat, n: nat): (i: nat)
    requires first < n && x < n
    ensures i < n
  {
    if first + x < n then first + x else first + x - n
  }

  /** One round over the table from a hashed start: takes the first free entry in that order, and
      fails only if all are taken. */
  method ReserveEntry(table: array<Entry>, start: nat, thread: nat) returns (slot: int)
    requires table.Length > 0 && thread != 0
    modifies table
    ensures slot == -1 ==> table[..] == old(table[..]) && forall i :: 0 <= i < table.Length ==> table[i].thread != 0
    ensures slot != -1 ==>
      && 0 <= slot < table.Length && old(table[slot].thread) == 0
      && table[..] == old(table[..])[slot := old(table[slot]).(thread := thread)]
      && exists x: nat :: x < table.Length && slot == Probe(start % table.Length, x, table.Length) &&
           forall y: nat :: y < x ==> old(table[Probe(start % table.Length, y, table.Length)].thread) != 0
  {
    var first, n := start % table.Length, table.Length;
    for i := 0 to n
      invariant table[..] == old(table[..])
      invariant forall x :: 0 <= x < i ==> table[Probe(first, x, n)].thread != 0
    {
      var index := Probe(first, i, n);
      if table[index].thread == 0 {
        assert forall y: nat :: y < i ==> old(table[..])[Probe(first, y, n)].thread != 0;
        table[index] := table[index].(thread := thread);
        return index;
      }
    }
    forall j | 0 <= j < n ensures table[j].thread != 0 {
      assert j == Probe(first, if first <= j then j - first else j + n - first, n);
    }
    slot := -1;
  }

  // ----- the protocol -----

  datatype Phase =
    | Out
    | Loaded(e: nat)
      // Protected with epoch `e` since time `since`.
    | In(e: nat, since: nat)

  /** `slot` is -1 until the thread has reserved an entry. */
  datatype Thread = Thread(slot: int, phase: Phase)

  /** A bump under way: the epoch that its fetch-and-add returned, the oldest seen, entries read. */
  datatype Scan = Scan(captured: nat, oldest: nat, pos: nat)

  datatype Item =
    | Linked
    | Unlinked(at: nat)
    | Retired(at: nat, stamp: nat)
    | Freed(at: nat)

  datatype State = State(
    clock: nat,
    current: nat,
    safe: nat,
    table: seq<Entry>,
    threads: map<nat, Thread>,
    scans: map<nat, Scan>,
    items: map<nat, Item>)

  /** The thread was protected before the item was unlinked and still is: it may hold a reference. */
  ghost predicate Holds(t: Thread, x: Item) {
    t.phase.In? && !x.Linked? && t.phase.since <= x.at
  }

  datatype Action =
    | Reserve(t: nat, slot: nat)
    | Load(t: nat)
    | Protect(t: nat)
    | Unprotect(t: nat)
    | BumpStart(b: nat)
    | ScanEntry(b: nat)
    | BumpEnd(b: nat)
    | Link(x: nat)
    | Unlink(x: nat)
    | Stamp(x: nat)
    | Free(x: nat)

  predicate Enabled(s: State, act: Action) {
    match act
    case Reserve(t, i) => t != 0 && t in s.threads && s.threads[t].slot == -1 && i < |s.table| && s.table[i].thread == 0
    case Load(t) => t in s.threads && s.threads[t].slot != -1 && s.threads[t].phase.Out?
    case Protect(t) => t in s.threads && 0 <= s.threads[t].slot < |s.table| && s.threads[t].phase.Loaded?
    case Unprotect(t) => t in s.threads && 0 <= s.threads[t].slot < |s.table| && s.threads[t].phase.In?
    case BumpStart(b) => b !in s.scans
    case ScanEntry(b) => b in s.scans && s.scans[b].pos < |s.table|
    case BumpEnd(b) => b in s.scans && s.scans[b].pos == |s.table| && 1 <= s.scans[b].oldest
    case Link(x) => x !in s.items
    case Unlink(x) => x in s.items && s.items[x].Linked?
    case Stamp(x) => x in s.items && s.items[x].Unlinked?
    case Free(x) => x in s.items && s.items[x].Retired? && s.items[x].stamp <= s.safe
  }

  function Do(s0: State, act: Action): State
    requires Enabled(s0, act)
  {
    var s := s0.(clock := s0.clock + 1);
    match act
    case Reserve(t, i) =>
      s.(table := s.table[i := s.table[i].(thread := t)], threads := s.threads[t := s.threads[t].(slot := i)])
    case Load(t) =>
      s.(threads := s.threads[t := s.threads[t].(phase := Loaded(s.current))])
    case Protect(t) =>
      var i, e := s.threads[t].slot, s.threads[t].phase.e;
      s.(table := s.table[i := s.table[i].(epoch := e)], threads := s.threads[t := s.threads[t].(phase := In(e, s.clock))])
    case Unprotect(t) =>
      var i := s.threads[t].slot;
      s.(table := s.table[i := s.table[i].(epoch := 0)], threads := s.threads[t := s.threads[t].(phase := Out)])
    case BumpStart(b) =>
      s.(scans := s.scans[b := Scan(s.current, s.current, 0)], current := s.current + 1)
    case ScanEntry(b) =>
      var c := s.scans[b];
      s.(scans := s.scans[b := Scan(c.captured, Oldest(c.oldest, s.table[c.pos]), c.pos + 1)])
    case BumpEnd(b) =>
      s.(safe := s.scans[b].oldest - 1, scans := s.scans - {b})
    case Link(x) => s.(items := s.items[x := Linked])
    case Unlink(x) => s.(items := s.items[x := Unlinked(s.clock)])
    case Stamp(x) => s.(items := s.items[x := Retired(s.items[x].at, s.current)])
    case Free(x) => s.(items := s.items[x := Freed(s.items[x].at)])
  }

  // ----- the invariant -----

  ghost predicate ClockOk(s: State) {
    && 1 <= s.current && s.safe < s.current
    && forall x :: x in s.items && !s.items[x].Linked? ==> s.items[x].at <= s.clock
  }

  ghost predicate ScanOk(s: State, c: Scan) {
    1 <= c.oldest <= c.captured < s.current && c.pos <= |s.table|
  }

  /** The table entry of a thread is its own and shows what it has stored there. */
  ghost predicate ThreadOk(s: State, t: nat, th: Thread) {
    && (th.slot == -1 ==> th.phase.Out?)
    && (th.slot != -1 ==> 0 <= th.slot < |s.table| && t != 0 && s.table[th.slot].thread == t)
    && match th.phase
       case Out => th.slot != -1 ==> s.table[th.slot].epoch == 0
       case Loaded(e) => 1 <= e <= s.current && s.table[th.slot].epoch == 0
       case In(e, since) => 1 <= e <= s.current && s.table[th.slot].epoch == e && since <= s.clock
  }

  /** While a reader may hold a retired item, neither the safe epoch nor any bump under way can
      reach the item's stamp. */
  ghost predicate Guarded(s: State, th: Thread, x: Item) {
    match x
    case Linked => true
    case Unlinked(_) => true
    case Retired(_, stamp) =>
      && s.safe < stamp
      && th.phase.In? && th.phase.e <= stamp
      && forall b :: b in s.scans ==> s.scans[b].oldest <= stamp || s.scans[b].pos <= th.slot
    case Freed(_) => false
  }

  ghost predicate TableOk(s: State) {
    forall i :: 0 <= i < |s.table| && s.table[i].thread == 0 ==> s.table[i].epoch == 0
  }

  ghost predicate Inv(s: State) {
    && ClockOk(s)
    && TableOk(s)
    && (forall b :: b in s.scans ==> ScanOk(s, s.scans[b]))
    && (forall t :: t in s.threads ==> ThreadOk(s, t, s.threads[t]))
    && forall t, x :: t in s.threads && x in s.items && Holds(s.threads[t], s.items[x]) ==> Guarded(s, s.threads[t], s.items[x])
  }

  lemma StepKeepsThreads(s: State, act: Action)
    requires Inv(s) && Enabled(s, act)
    ensures var s' := Do(s, act); TableOk(s') && forall t :: t in s'.threads ==> ThreadOk(s', t, s'.threads[t])
  {
    hide Guarded, Holds, ScanOk;
    var s' := Do(s, act);
    forall t | t in s'.threads ensures ThreadOk(s', t, s'.threads[t]) {
      assert ThreadOk(s, t, s.threads[t]);
      match act
      case Reserve(u, i) => assert ThreadOk(s, u, s.threads[u]);
      case Protect(u) => assert ThreadOk(s, u, s.threads[u]);
      case Unprotect(u) => assert ThreadOk(s, u, s.threads[u]);
      case _ =>
    }
    if act.Protect? || act.Unprotect? {
      assert ThreadOk(s, act.t, s.threads[act.t]);
    }
  }

  lemma StepKeepsScans(s: State, act: Action)
    requires Inv(s) && Enabled(s, act)
    ensures var s' := Do(s, act); ClockOk(s') && forall b :: b in s'.scans ==> ScanOk(s', s'.scans[b])
  {
    hide Guarded, Holds, ThreadOk;
    var s' := Do(s, act);
    forall b | b in s'.scans ensures ScanOk(s', s'.scans[b]) {
      assert b in s.scans ==> ScanOk(s, s.scans[b]);
    }
    if act.BumpEnd? {
      assert ScanOk(s, s.scans[act.b]);
    }
  }

  /** The heart of the argument, one reader and one item at a time. */
  lemma StepKeepsGuard(s: State, act: Action, t: nat, x: nat)
    requires Inv(s) && Enabled(s, act)
    requires var s' := Do(s, act); t in s'.threads && x in s'.items && Holds(s'.threads[t], s'.items[x])
    ensures var s' := Do(s, act); Guarded(s', s'.threads[t], s'.items[x])
  {
    var s' := Do(s, act);
    var th, item := s'.threads[t], s'.items[x];
    assert ThreadOk(s, t, s.threads[t]);
    if x in s.items && Holds(s.threads[t], s.items[x]) {
      assert Guarded(s, s.threads[t], s.items[x]);
      if item.Retired? {
        forall b | b in s'.scans ensures s'.scans[b].oldest <= item.stamp || s'.scans[b].pos <= th.slot {
          assert b in s.scans ==> ScanOk(s, s.scans[b]);
        }
      }
    }
  }

  lemma StepKeepsInv(s: State, act: Action)
    requires Inv(s) && Enabled(s, act)
    ensures Inv(Do(s, act))
  {
    StepKeepsThreads(s, act);
    StepKeepsScans(s, act);
    var s' := Do(s, act);
    hide ClockOk, TableOk, ScanOk, ThreadOk, Guarded, Holds, Enabled, Do;
    forall t, x | t in s'.threads && x in s'.items && Holds(s'.threads[t], s'.items[x])
      ensures Guarded(s', s'.threads[t], s'.items[x])
    {
      StepKeepsGuard(s, act, t, x);
    }
  }

  ghost predicate Init(s: State) {
    && s.clock == 0 && s.current == 1 && s.safe == 0
    && (forall i :: 0 <= i < |s.table| ==> s.table[i] == Entry(0, 0))
    && (forall t :: t in s.threads ==> s.threads[t] == Thread(-1, Out))
    && s.scans == map[] && s.items == map[]
  }

  ghost predicate Run(states: seq<State>, acts: seq<Action>) {
    && |states| == |acts| + 1
    && Init(states[0])
    && forall i :: 0 <= i < |acts| ==> Enabled(states[i], acts[i]) && states[i + 1] == Do(states[i], acts[i])
  }

  lemma {:induction false} RunInv(states: seq<State>, acts: seq<Action>, i: nat)
    requires Run(states, acts) && i < |states|
    ensures Inv(states[i])
  {
    if i > 0 {
      RunInv(states, acts, i - 1);
      StepKeepsInv(states[i - 1], acts[i - 1]);
      assert states[i - 1 + 1] == Do(states[i - 1], acts[i - 1]);
    }
  }

  /** The safe epoch is always below the current one; a retired item that a reader may still hold
      is never safe to reclaim; and so nothing that was freed is held. */
  lemma ReclamationIsSafe(states: seq<State>, acts: seq<Action>, i: nat, t: nat, x: nat)
    requires Run(states, acts) && i < |states|
    requires t in states[i].threads && x in states[i].items && Holds(states[i].threads[t], states[i].items[x])
    ensures states[i].safe < states[i].current
    ensures states[i].items[x].Retired? ==> !(states[i].items[x].stamp <= states[i].safe)
    ensures !states[i].items[x].Freed?
  {
    RunInv(states, acts, i);
    assert Guarded(states[i], states[i].threads[t], states[i].items[x]);
  }

  lemma SafeBelowCurrent(states: seq<State>, acts: seq<Action>, i: nat)
    requires Run(states, acts) && i < |states|
    ensures states[i].safe < states[i].current
    ensures forall x :: x in states[i].items && states[i].items[x].Retired? && states[i].items[x].stamp == states[i].current ==>
      !Enabled(states[i], Free(x))
  {
    RunInv(states, acts, i);
  }

  /** No two threads ever own the same table entry. */
  lemma EntriesAreOwn(states: seq<State>, acts: seq<Action>, i: nat, t: nat, u: nat)
    requires Run(states, acts) && i < |states| && t in states[i].threads && u in states[i].threads && t != u
    requires states[i].threads[t].slot != -1
    ensures states[i].threads[t].slot != states[i].threads[u].slot
  {
    RunInv(states, acts, i);
    assert ThreadOk(states[i], t, states[i].threads[t]) && ThreadOk(states[i], u, states[i].threads[u]);
  }
}
