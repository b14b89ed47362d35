/** That epochs do get reclaimed: what a bump publishes is exactly what its scan has seen, and an item
    that no old reader can hold is free to go after it. */
module EpochProgress {
  import opened Epoch

  lemma RunStep(states: seq<State>, acts: seq<Action>, j: nat)
    requires Run(states, acts) && j < |acts|
    ensures Enabled(states[j], acts[j]) && states[j + 1] == Do(states[j], acts[j])
    ensures |states[j + 1].table| == |states[j].table|
  {
  }

  // ----- what a scan has seen -----

  /** Step `j` is bump `b` reading entry `p`. */
  predicate Reads(states: seq<State>, acts: seq<Action>, b: nat, j: nat, p: nat) {
    && j < |acts| && j < |states| && acts[j] == ScanEntry(b)
    && b in states[j].scans && states[j].scans[b].pos == p && p < |states[j].table|
  }

  function Seen(states: seq<State>, j: nat, p: nat): nat
    requires j < |states| && p < |states[j].table|
  {
    states[j].table[p].epoch
  }

  /** Bump `b` begins in step `from` and has not ended before step `n`. */
  ghost predicate Bumping(acts: seq<Action>, b: nat, from: nat, n: nat) {
    && from < n <= |acts| && acts[from] == BumpStart(b)
    && forall j :: from < j < n ==> acts[j] != BumpEnd(b)
  }

  /** `oldest` is the least of `captured` and the epochs seen between the two steps. */
  ghost predicate LeastSeen(states: seq<State>, acts: seq<Action>, b: nat, from: nat, n: nat, captured: nat, oldest: nat) {
    && oldest <= captured
    && (forall j, p :: from < j < n && Reads(states, acts, b, j, p) && Seen(states, j, p) != 0 ==> oldest <= Seen(states, j, p))
    && (oldest == captured || exists j, p :: from < j < n && Reads(states, acts, b, j, p) && Seen(states, j, p) == oldest)
  }

  ghost predicate HasRead(states: seq<State>, acts: seq<Action>, b: nat, from: nat, n: nat, upTo: nat) {
    forall p: nat :: p < upTo ==> WasRead(states, acts, b, from, n, p)
  }

  ghost predicate WasRead(states: seq<State>, acts: seq<Action>, b: nat, from: nat, n: nat, p: nat) {
    exists j: nat :: from < j < n && Reads(states, acts, b, j, p)
  }

  ghost predicate ScanIs(states: seq<State>, acts: seq<Action>, b: nat, from: nat, n: nat)
    requires from < |states| && n < |states|
  {
    && b in states[n].scans
    && states[n].scans[b].captured == states[from].current
    && LeastSeen(states, acts, b, from, n, states[from].current, states[n].scans[b].oldest)
    && HasRead(states, acts, b, from, n, states[n].scans[b].pos)
  }

  lemma {:induction false} ScanSoFar(states: seq<State>, acts: seq<Action>, b: nat, from: nat, n: nat)
    requires Run(states, acts) && Bumping(acts, b, from, n)
    ensures ScanIs(states, acts, b, from, n)
  {
    hide Run;
    var h := n - 1;
    assert h < |acts| && |states| == |acts| + 1 by { RunShape(states, acts); }
    RunStep(states, acts, h);
    if from < h {
      ScanSoFar(states, acts, b, from, h);
      ScanStep(states, acts, b, from, h, n);
    }
  }

  lemma RunShape(states: seq<State>, acts: seq<Action>)
    requires Run(states, acts)
    ensures |states| == |acts| + 1
  {
  }

  lemma ScanStep(states: seq<State>, acts: seq<Action>, b: nat, from: nat, h: nat, n: nat)
    requires from < h < |acts| && |states| == |acts| + 1 && n == h + 1 && acts[h] != BumpEnd(b)
    requires Enabled(states[h], acts[h]) && states[n] == Do(states[h], acts[h])
    requires ScanIs(states, acts, b, from, h)
    ensures ScanIs(states, acts, b, from, n)
  {
    var c := states[h].scans[b];
    forall p: nat | WasRead(states, acts, b, from, h, p) ensures WasRead(states, acts, b, from, n, p) {
      var j: nat :| from < j < h && Reads(states, acts, b, j, p);
      assert from < j < n && Reads(states, acts, b, j, p);
    }
    LeastSeenNext(states, acts, b, from, h, n);
    if acts[h] == ScanEntry(b) {
      assert from < h < n && Reads(states, acts, b, h, c.pos);
      assert states[n].scans[b] == Scan(c.captured, Oldest(c.oldest, states[h].table[c.pos]), c.pos + 1);
    }
  }

  lemma LeastSeenNext(states: seq<State>, acts: seq<Action>, b: nat, from: nat, h: nat, n: nat)
    requires from < h < |acts| && |states| == |acts| + 1 && n == h + 1 && b in states[h].scans
    requires Enabled(states[h], acts[h])
    requires LeastSeen(states, acts, b, from, h, states[from].current, states[h].scans[b].oldest)
    ensures var c := states[h].scans[b];
            LeastSeen(states, acts, b, from, n, states[from].current,
                      if acts[h] == ScanEntry(b) then Oldest(c.oldest, states[h].table[c.pos]) else c.oldest)
  {
    var c := states[h].scans[b];
    var oldest := if acts[h] == ScanEntry(b) then Oldest(c.oldest, states[h].table[c.pos]) else c.oldest;
    if oldest != c.oldest {
      assert Reads(states, acts, b, h, c.pos) && Seen(states, h, c.pos) == oldest;
    } else if oldest != states[from].current {
      var j, p :| from < j < h && Reads(states, acts, b, j, p) && Seen(states, j, p) == oldest;
      assert from < j < n && Reads(states, acts, b, j, p);
    }
  }

  /** Over all runs: a bump reads every entry, and the safe epoch that it publishes is the largest number
      below the epoch that it moved on from and below every protected epoch that it read. */
  lemma BumpIsExact(states: seq<State>, acts: seq<Action>, b: nat, from: nat, to: nat)
    requires Run(states, acts) && Bumping(acts, b, from, to) && to < |acts| && acts[to] == BumpEnd(b)
    ensures |states| == |acts| + 1
    ensures LeastSeen(states, acts, b, from, to, states[from].current, states[to + 1].safe + 1)
    ensures HasRead(states, acts, b, from, to, |states[to].table|)
    ensures states[from + 1].current == states[from].current + 1
  {
    ScanSoFar(states, acts, b, from, to);
    RunStep(states, acts, to);
    RunStep(states, acts, from);
    hide Run, LeastSeen, HasRead;
  }

  // ----- who is protected, and since when -----

  /** An entry that is not free belongs to the thread that it names. */
  ghost predicate Owned(s: State) {
    forall i: nat :: i < |s.table| && s.table[i].thread != 0 ==>
      s.table[i].thread in s.threads && s.threads[s.table[i].thread].slot == i
  }

  lemma {:induction false} RunOwned(states: seq<State>, acts: seq<Action>, n: nat)
    requires Run(states, acts) && n < |states|
    ensures Owned(states[n])
  {
    if n > 0 {
      var h := n - 1;
      RunOwned(states, acts, h);
      RunInv(states, acts, h);
      RunStep(states, acts, h);
      hide Run;
      StepOwned(states[h], acts[h]);
    }
  }

  lemma StepOwned(s: State, act: Action)
    requires Inv(s) && Owned(s) && Enabled(s, act)
    ensures Owned(Do(s, act))
  {
    hide Guarded, Holds, ScanOk;
    assert act.Reserve? ==> ThreadOk(s, act.t, s.threads[act.t]);
    assert act.Protect? ==> ThreadOk(s, act.t, s.threads[act.t]);
    assert act.Unprotect? ==> ThreadOk(s, act.t, s.threads[act.t]);
  }

  /** A nonzero epoch in the table is that of a protected thread. */
  lemma ProtectedBy(s: State, p: nat) returns (t: nat)
    requires Inv(s) && Owned(s) && p < |s.table| && s.table[p].epoch != 0
    ensures t in s.threads && s.threads[t].phase.In? && s.threads[t].phase.e == s.table[p].epoch
  {
    hide Guarded, Holds, ScanOk;
    t := s.table[p].thread;
    assert ThreadOk(s, t, s.threads[t]);
  }

  /** Over all runs: the epoch under which a thread is, or is about to be, protected is the one that was
      current when it last loaded it. */
  lemma {:induction false} LoadedWhen(states: seq<State>, acts: seq<Action>, n: nat, t: nat) returns (j: nat)
    requires Run(states, acts) && n < |states| && t in states[n].threads && !states[n].threads[t].phase.Out?
    ensures j < n && |states| == |acts| + 1 && acts[j] == Load(t) && states[j].current == states[n].threads[t].phase.e
    ensures forall h :: j < h < n ==> acts[h] != Load(t) && acts[h] != Unprotect(t)
  {
    assert n > 0;
    var h := n - 1;
    RunStep(states, acts, h);
    RunShape(states, acts);
    if acts[h] == Load(t) {
      j := h;
    } else {
      j := LoadedWhen(states, acts, h, t);
    }
  }

  // ----- items go -----

  lemma {:induction false} CurrentGrows(states: seq<State>, acts: seq<Action>, i: nat, j: nat)
    requires Run(states, acts) && i <= j < |states|
    ensures states[i].current <= states[j].current
    ensures (exists c :: i <= c < j && acts[c].BumpStart?) ==> states[i].current < states[j].current
  {
    if i < j {
      var h := j - 1;
      CurrentGrows(states, acts, i, h);
      RunStep(states, acts, h);
      hide Run;
    }
  }

  /** A retired item keeps the stamp of the epoch in which it was retired until it is freed. */
  lemma {:induction false} StampStays(states: seq<State>, acts: seq<Action>, a: nat, x: nat, n: nat)
    requires Run(states, acts) && a < n < |states| && a < |acts| && acts[a] == Stamp(x)
    ensures x in states[n].items
    ensures states[n].items[x].Freed? || (states[n].items[x].Retired? && states[n].items[x].stamp == states[a].current)
  {
    var h := n - 1;
    RunStep(states, acts, h);
    if a < h {
      StampStays(states, acts, a, x, h);
    }
    hide Run;
  }

  /** At no read of the bump is a thread protected under the epoch `stamp` or an older one. */
  ghost predicate NoOldReader(states: seq<State>, acts: seq<Action>, b: nat, from: nat, to: nat, stamp: nat) {
    forall j, t :: from < j < to && j < |acts| && j < |states| && acts[j] == ScanEntry(b)
                   && t in states[j].threads && states[j].threads[t].phase.In? ==>
      stamp < states[j].threads[t].phase.e
  }

  /** Over all runs: once the epoch has moved on from the one in which an item was retired, a bump that
      meets no reader from that epoch or an earlier one makes the item reclaimable. */
  lemma NoOldReaderFrees(states: seq<State>, acts: seq<Action>, a: nat, x: nat, c: nat, b: nat, from: nat, to: nat)
    requires Run(states, acts) && a < c < from && from < to < |acts|
    requires acts[a] == Stamp(x) && acts[c].BumpStart?
    requires Bumping(acts, b, from, to) && acts[to] == BumpEnd(b)
    requires |states| == |acts| + 1 && NoOldReader(states, acts, b, from, to, states[a].current)
    ensures x in states[to + 1].items && (states[to + 1].items[x].Freed? || Enabled(states[to + 1], Free(x)))
  {
    CurrentGrows(states, acts, a, from);
    StampStays(states, acts, a, x, to + 1);
    BumpIsExact(states, acts, b, from, to);
    LeastIsAbove(states, acts, b, from, to, states[a].current, states[to + 1].safe + 1);
    hide Run, Bumping, NoOldReader, LeastSeen, HasRead;
  }

  lemma LeastIsAbove(states: seq<State>, acts: seq<Action>, b: nat, from: nat, to: nat, stamp: nat, oldest: nat)
    requires Run(states, acts) && from < to < |acts| && |states| == |acts| + 1
    requires NoOldReader(states, acts, b, from, to, stamp) && stamp < states[from].current && 0 < oldest
    requires LeastSeen(states, acts, b, from, to, states[from].current, oldest)
    ensures stamp < oldest
  {
    hide Run, Inv, Owned;
    if oldest != states[from].current {
      var j, p :| from < j < to && Reads(states, acts, b, j, p) && Seen(states, j, p) == oldest;
      RunInv(states, acts, j);
      RunOwned(states, acts, j);
      var t := ProtectedBy(states[j], p);
    }
  }

  // ----- safety, step by step -----

  lemma {:induction false} ClockCounts(states: seq<State>, acts: seq<Action>, n: nat)
    requires Run(states, acts) && n < |states|
    ensures states[n].clock == n
  {
    if n > 0 {
      var h := n - 1;
      ClockCounts(states, acts, h);
      RunStep(states, acts, h);
      hide Run;
    }
  }

  /** A thread that stored its epoch in step `p` stays protected until it drops it. */
  lemma {:induction false} ProtectStays(states: seq<State>, acts: seq<Action>, p: nat, t: nat, n: nat)
    requires Run(states, acts) && p < n < |states| && p < |acts| && acts[p] == Protect(t)
    requires forall h :: p < h < n && h < |acts| ==> acts[h] != Unprotect(t)
    ensures t in states[n].threads && states[n].threads[t].phase.In? && states[n].threads[t].phase.since == p + 1
  {
    var h := n - 1;
    RunStep(states, acts, h);
    ClockCounts(states, acts, h);
    if p < h {
      ProtectStays(states, acts, p, t, h);
    }
    hide Run;
  }

  /** An item that was unlinked in step `u` stays unlinked. */
  lemma {:induction false} UnlinkStays(states: seq<State>, acts: seq<Action>, u: nat, x: nat, n: nat)
    requires Run(states, acts) && u < n < |states| && u < |acts| && acts[u] == Unlink(x)
    ensures x in states[n].items && !states[n].items[x].Linked? && states[n].items[x].at == u + 1
  {
    var h := n - 1;
    RunStep(states, acts, h);
    ClockCounts(states, acts, h);
    if u < h {
      UnlinkStays(states, acts, u, x, h);
    }
    hide Run;
  }

  /** Over all runs: if a thread was protected before an item was unlinked, and has not dropped its
      protection since, the item has not been freed and cannot be freed now. */
  lemma ReaderKeepsItem(states: seq<State>, acts: seq<Action>, p: nat, t: nat, u: nat, x: nat, n: nat)
    requires Run(states, acts) && p < u < n < |states| && u < |acts| && acts[p] == Protect(t) && acts[u] == Unlink(x)
    requires forall h :: p < h < n && h < |acts| ==> acts[h] != Unprotect(t)
    ensures x in states[n].items && !states[n].items[x].Freed? && !Enabled(states[n], Free(x))
  {
    ProtectStays(states, acts, p, t, n);
    UnlinkStays(states, acts, u, x, n);
    ReclamationIsSafe(states, acts, n, t, x);
    hide Run;
  }

  // ----- nobody is stuck -----

  /** A thread always has a next step: without an entry it can reserve any free one, and with one it can
      load the epoch, store it, and drop it. */
  lemma ThreadGoesOn(s: State, t: nat) returns (act: Action)
    requires Inv(s) && t in s.threads && t != 0
    requires s.threads[t].slot == -1 ==> exists i: nat :: i < |s.table| && s.table[i].thread == 0
    ensures Enabled(s, act) && (act.Reserve? || act.Load? || act.Protect? || act.Unprotect?) && act.t == t
  {
    hide Guarded, Holds, ScanOk;
    var th := s.threads[t];
    assert ThreadOk(s, t, th);
    if th.slot == -1 {
      var i: nat :| i < |s.table| && s.table[i].thread == 0;
      act := Reserve(t, i);
    } else {
      act := match th.phase case Out => Load(t) case Loaded(_) => Protect(t) case In(_, _) => Unprotect(t);
    }
  }

  /** A bump always has a next step, whatever else goes on. */
  lemma BumpGoesOn(s: State, b: nat) returns (act: Action)
    requires Inv(s)
    ensures Enabled(s, act) && (act.BumpStart? || act.ScanEntry? || act.BumpEnd?) && act.b == b
  {
    hide Guarded, Holds, ThreadOk;
    if b !in s.scans {
      act := BumpStart(b);
    } else {
      assert ScanOk(s, s.scans[b]);
      act := if s.scans[b].pos < |s.table| then ScanEntry(b) else BumpEnd(b);
    }
  }
}
