/** What the bound on tickets of the hand-over lock is for. Drawing the last ticket carries into the
    ticket being served. Exactly such a draw breaks the lock's invariant, and exactly when the holder
    got its turn by hand-over does it let a second thread inside. A run leads there. */
module TicketOverflow {
  import opened HandOverLock

  // ----- when tickets run out -----

  lemma OverflowWord(word: nat)
    requires word < WORD && word % HALF + 1 == HALF
    ensures var w := (word + 1) % WORD;
            w < WORD && w % HALF == 0 && w / HALF == if word / HALF + 1 == HALF then 0 else word / HALF + 1
  {
  }

  /** The bound is exact: a draw keeps the invariant if and only if the low half does not overflow. */
  lemma DrawKeepsInvIff(s: State, t: ThreadId)
    requires Inv(s) && Enabled(s, Draw(t))
    ensures Inv(Do(s, Draw(t))) <==> HasTickets(s, Draw(t))
  {
    if HasTickets(s, Draw(t)) {
      StepKeepsInv(s, Draw(t));
    } else {
      var n := s.threads[t].node;
      assert LockOk(s, n);
      OverflowWord(s.locks[n].word);
      var s' := Do(s, Draw(t));
      assert s'.locks[n].Ticket() == 0 && t in s'.threads && s'.threads[t].pc == Waiting;
      assert !Pending(s', n, s'.threads[t].ticket);
      assert !ThreadOk(s', t);
    }
  }

  ghost predicate TwoInside(s: State) {
    exists t, u :: t in s.threads && u in s.threads && t != u && Inside(s.threads[t].pc) && Inside(s.threads[u].pc)
  }

  /** The holder of a local lock, if there is one. */
  lemma HolderOf(s: State, n: NodeId) returns (t: ThreadId)
    requires Inv(s) && n in s.locks && s.phase[n] != Idle
    ensures t in s.threads && s.threads[t].node == n && s.threads[t].pc == s.phase[n] && s.threads[t].ticket == s.locks[n].Current()
  {
    assert LockOk(s, n);
    assert Pending(s, n, s.locks[n].Current());
    t :| Drawn(s, t, n, s.locks[n].Current());
    assert ThreadOk(s, t);
  }

  lemma InsideIsHolder(s: State, t: ThreadId)
    requires Inv(s) && t in s.threads && Inside(s.threads[t].pc)
    ensures var n := s.threads[t].node;
            Owner(s, n) && s.phase[n] == s.threads[t].pc && s.threads[t].ticket == s.locks[n].Current()
  {
    assert ThreadOk(s, t);
  }

  /** After an overflowing draw the next waiter's turn comes up although the holder has not left. */
  lemma OverflowStartsTurn(s: State, t: ThreadId) returns (u: ThreadId)
    requires Inv(s) && Enabled(s, Draw(t)) && !HasTickets(s, Draw(t))
    requires s.locks[s.threads[t].node].Current() + 1 < HALF
    ensures Enabled(Do(s, Draw(t)), Turn(u)) && s.threads[u].node == s.threads[t].node
    ensures u == t || (u in s.threads && s.threads[u].pc == Waiting)
  {
    var n := s.threads[t].node;
    var l := s.locks[n];
    assert LockOk(s, n) && ThreadOk(s, t);
    OverflowWord(l.word);
    var d := Do(s, Draw(t));
    var next := l.Current() + 1;
    assert d.locks[n].Current() == next;
    if next == HALF - 1 {
      u := t;
      assert d.threads[t].ticket == next;
    } else {
      assert Pending(s, n, next);
      u :| Drawn(s, u, n, next);
      assert ThreadOk(s, u) && u != t;
    }
  }

  /** That turn puts two threads inside if and only if the holder is inside and the hand-over flag is
      still up from the turn before: the next waiter then does not ask for the remote word. */
  lemma OverflowTurnIff(s: State, t: ThreadId, u: ThreadId)
    requires Inv(s) && Enabled(s, Draw(t)) && !HasTickets(s, Draw(t))
    requires Enabled(Do(s, Draw(t)), Turn(u)) && s.threads[u].node == s.threads[t].node
    ensures var n := s.threads[t].node;
            TwoInside(Do(Do(s, Draw(t)), Turn(u))) <==> s.locks[n].handOver && Inside(s.phase[n])
  {
    hide Do, Enabled, HasTickets, Inv;
    OverflowShape(s, t, u);
    var n, s' := s.threads[t].node, Do(Do(s, Draw(t)), Turn(u));
    if TwoInside(s') {
      var x, y :| x in s'.threads && y in s'.threads && x != y && Inside(s'.threads[x].pc) && Inside(s'.threads[y].pc);
      OverflowWitness(s, n, x, y, u, if x == u then y else x);
    }
    if s.locks[n].handOver && Inside(s.phase[n]) {
      var h := HolderOf(s, n);
      assert Inside(s'.threads[h].pc) && Inside(s'.threads[u].pc);
    }
  }

  /** What the two steps do to the threads. */
  lemma OverflowShape(s: State, t: ThreadId, u: ThreadId)
    requires Inv(s) && Enabled(s, Draw(t)) && Enabled(Do(s, Draw(t)), Turn(u)) && s.threads[u].node == s.threads[t].node
    ensures t in s.threads && u in s.threads && s.threads[t].node in s.locks && s.threads[t].node in s.phase
    ensures s.threads[t].pc == Idle && (u == t || s.threads[u].pc == Waiting)
    ensures var s' := Do(Do(s, Draw(t)), Turn(u));
            && s'.threads.Keys == s.threads.Keys
            && (forall x :: x in s.threads && x != u && x != t ==> s'.threads[x] == s.threads[x])
            && (t != u ==> s'.threads[t].pc == Waiting)
            && s'.threads[u].pc == if s.locks[s.threads[t].node].handOver then Critical else Spinning
  {
    hide TicketsUnique, TicketsHeld, RemoteOk, LockOk;
    assert ThreadOk(s, t);
  }

  /** At most one thread is inside before; so of two inside afterwards one is the new one. */
  lemma OverflowWitness(s: State, n: NodeId, x: ThreadId, y: ThreadId, u: ThreadId, z: ThreadId)
    requires Inv(s) && x != y && z in s.threads && z != u && (z == x || z == y) && Inside(s.threads[z].pc)
    requires x == u || (x in s.threads && Inside(s.threads[x].pc))
    requires y == u || (y in s.threads && Inside(s.threads[y].pc))
    ensures x == u || y == u
    ensures n in s.locks && s.locks[n].handOver ==> Inside(s.phase[n])
  {
    InsideIsHolder(s, z);
    if x != u && y != u {
      InsideIsHolder(s, x);
      InsideIsHolder(s, y);
      var m := s.threads[x].node;
      assert Drawn(s, x, m, s.locks[m].Current()) && Drawn(s, y, m, s.locks[m].Current());
    }
    assert n in s.locks && s.locks[n].handOver ==> LockOk(s, n);
    assert n in s.locks && s.locks[n].handOver ==> Owner(s, n);
  }

  // ----- a run that gets there -----

  lemma RunExtends(states: seq<State>, actions: seq<Action>, a: Action)
    requires Run(states, actions) && var s := states[|states| - 1]; Enabled(s, a) && HasTickets(s, a)
    ensures Run(states + [Do(states[|states| - 1], a)], actions + [a])
  {
    hide Do, Enabled, HasTickets, Init;
    var s := states[|states| - 1];
    var more, acts := states + [Do(s, a)], actions + [a];
    forall i | 0 <= i < |acts| ensures Enabled(more[i], acts[i]) && HasTickets(more[i], acts[i]) && more[i + 1] == Do(more[i], acts[i]) {
      if i < |actions| {
        assert more[i] == states[i] && more[i + 1] == states[i + 1];
      }
    }
  }

  /** A run that ends in `s`. */
  ghost predicate Reachable(s: State) {
    exists states: seq<State>, actions: seq<Action> :: EndsIn(states, actions, s)
  }

  ghost predicate EndsIn(states: seq<State>, actions: seq<Action>, s: State) {
    Run(states, actions) && states[|states| - 1] == s
  }

  lemma ReachNext(s: State, a: Action)
    requires Reachable(s) && Enabled(s, a) && HasTickets(s, a)
    ensures Reachable(Do(s, a))
  {
    hide Run, Do, Enabled, HasTickets;
    var states: seq<State>, actions: seq<Action> :| EndsIn(states, actions, s);
    RunParts(states, actions);
    RunExtends(states, actions, a);
    var more := states + [Do(s, a)];
    assert more[|more| - 1] == Do(s, a);
    assert EndsIn(more, actions + [a], Do(s, a));
  }

  lemma RunParts(states: seq<State>, actions: seq<Action>)
    requires Run(states, actions)
    ensures |states| == |actions| + 1
  {
  }

  lemma ReachableInv(s: State)
    requires Reachable(s)
    ensures Inv(s)
  {
    hide Inv, Run;
    var states: seq<State>, actions: seq<Action> :| EndsIn(states, actions, s);
    RunParts(states, actions);
    RunInv(states, actions, |states| - 1);
  }

  /** One node with two threads, of which `x` has the number `p`. */
  function Two(p: nat, remote: nat, l: LocalLock, x: Thread, y: Thread, phase: Pc, sections: nat): State
    requires p < 2
  {
    State(remote, false, map[0 := l], map[p := x, 1 - p := y], map[0 := phase], map[0 := sections])
  }

  lemma TwoSwapped(p: nat, remote: nat, l: LocalLock, x: Thread, y: Thread, phase: Pc, sections: nat)
    requires p < 2
    ensures Two(p, remote, l, x, y, phase, sections) == Two(1 - p, remote, l, y, x, phase, sections)
  {
  }

  lemma TwoDraws(p: nat, remote: nat, l: LocalLock, x: Thread, y: Thread, phase: Pc, sections: nat)
    requires p < 2 && x.node == 0 && x.pc == Idle && l.Ticket() + 1 < HALF && Reachable(Two(p, remote, l, x, y, phase, sections))
    ensures Reachable(Two(p, remote, l.FetchAdd(1), x.(pc := Waiting, ticket := l.Ticket()), y, phase, sections))
  {
    hide Reachable;
    var s := Two(p, remote, l, x, y, phase, sections);
    ReachNext(s, Draw(p));
    assert Do(s, Draw(p)) == Two(p, remote, l.FetchAdd(1), x.(pc := Waiting, ticket := l.Ticket()), y, phase, sections);
  }

  lemma TwoTurns(p: nat, remote: nat, l: LocalLock, x: Thread, y: Thread, phase: Pc, sections: nat)
    requires p < 2 && x.node == 0 && x.pc == Waiting && x.ticket == l.Current() && Reachable(Two(p, remote, l, x, y, phase, sections))
    ensures var pc := if l.handOver then Critical else Spinning;
            Reachable(Two(p, remote, l.Granted(), x.(pc := pc), y, pc, if l.handOver then sections + 1 else sections))
  {
    hide Reachable;
    var s, pc := Two(p, remote, l, x, y, phase, sections), if l.handOver then Critical else Spinning;
    ReachNext(s, Turn(p));
    assert Do(s, Turn(p)) == Two(p, remote, l.Granted(), x.(pc := pc), y, pc, if l.handOver then sections + 1 else sections);
  }

  lemma TwoSwaps(p: nat, l: LocalLock, x: Thread, y: Thread, phase: Pc, sections: nat)
    requires p < 2 && x.node == 0 && x.pc == Spinning && Reachable(Two(p, 0, l, x, y, phase, sections))
    ensures Reachable(Two(p, x.tag, l, x.(pc := Critical), y, Critical, 1))
  {
    hide Reachable;
    var s := Two(p, 0, l, x, y, phase, sections);
    ReachNext(s, Swap(p));
    assert Do(s, Swap(p)) == Two(p, x.tag, l, x.(pc := Critical), y, Critical, 1);
  }

  lemma TwoExits(p: nat, remote: nat, l: LocalLock, x: Thread, y: Thread, phase: Pc, sections: nat)
    requires p < 2 && x.node == 0 && x.pc == Critical && Reachable(Two(p, remote, l, x, y, phase, sections))
    ensures var pc := if l.Decide().handOver then Passing else Freeing;
            Reachable(Two(p, remote, l.Decide(), x.(pc := pc), y, pc, sections))
  {
    hide Reachable;
    var s, pc := Two(p, remote, l, x, y, phase, sections), if l.Decide().handOver then Passing else Freeing;
    ReachNext(s, Exit(p));
    assert Do(s, Exit(p)) == Two(p, remote, l.Decide(), x.(pc := pc), y, pc, sections);
  }

  lemma TwoPasses(p: nat, remote: nat, l: LocalLock, x: Thread, y: Thread, phase: Pc, sections: nat)
    requires p < 2 && x.node == 0 && x.pc == Passing && Reachable(Two(p, remote, l, x, y, phase, sections))
    ensures Reachable(Two(p, remote, l.Released(), x.(pc := Idle), y, Idle, sections))
  {
    hide Reachable;
    var s := Two(p, remote, l, x, y, phase, sections);
    ReachNext(s, Pass(p));
    assert Do(s, Pass(p)) == Two(p, remote, l.Released(), x.(pc := Idle), y, Idle, sections);
  }

  lemma TwoLeaves(p: nat, remote: nat, l: LocalLock, x: Thread, y: Thread, phase: Pc, sections: nat)
    requires p < 2 && x.node == 0 && x.pc == Freeing && Reachable(Two(p, remote, l, x, y, phase, sections))
    ensures Reachable(Two(p, 0, l.Released(), x.(pc := Idle), y, Idle, sections))
  {
    hide Reachable, Two, Do;
    TwoFrees(p, remote, l, x, y, phase, sections);
    TwoGoes(p, l, x.(pc := Leaving), y, sections);
  }

  lemma TwoFrees(p: nat, remote: nat, l: LocalLock, x: Thread, y: Thread, phase: Pc, sections: nat)
    requires p < 2 && x.node == 0 && x.pc == Freeing && Reachable(Two(p, remote, l, x, y, phase, sections))
    ensures Reachable(Two(p, 0, l, x.(pc := Leaving), y, Leaving, sections))
  {
    hide Reachable;
    var s := Two(p, remote, l, x, y, phase, sections);
    ReachNext(s, Free(p, true));
    assert Do(s, Free(p, true)) == Two(p, 0, l, x.(pc := Leaving), y, Leaving, sections);
  }

  lemma TwoGoes(p: nat, l: LocalLock, x: Thread, y: Thread, sections: nat)
    requires p < 2 && x.node == 0 && x.pc == Leaving && Reachable(Two(p, 0, l, x, y, Leaving, sections))
    ensures Reachable(Two(p, 0, l.Released(), x.(pc := Idle), y, Idle, sections))
  {
    hide Reachable;
    var s := Two(p, 0, l, x, y, Leaving, sections);
    ReachNext(s, Leave(p));
    assert Do(s, Leave(p)) == Two(p, 0, l.Released(), x.(pc := Idle), y, Idle, sections);
  }

  /** The two threads take turns, each drawing while the other is inside. The holder of ticket `c` is
      inside and the other thread has left; every eighth time the remote word is freed. */
  function Alternating(c: nat): State {
    var h := c % 8 + 1;
    Two(c % 2, 1, Counters(c, c + 1, 2 <= h, h), Thread(0, c % 2 + 1, Critical, c), Thread(0, 2 - c % 2, Idle, if c == 0 then 0 else c - 1), Critical, h)
  }

  function Counters(cur: nat, next: nat, handOver: bool, handTime: nat): LocalLock {
    LocalLock(cur * HALF + next, handOver, handTime)
  }

  lemma CountersMove(cur: nat, next: nat, handOver: bool, handTime: nat)
    requires cur < HALF && next < HALF
    ensures var l := Counters(cur, next, handOver, handTime);
            && l.word < WORD && l.Ticket() == next && l.Current() == cur && l.handOver == handOver && l.handTime == handTime
            && (next + 1 < HALF ==> l.FetchAdd(1) == Counters(cur, next + 1, handOver, handTime))
            && (cur + 1 < HALF ==> l.Released() == Counters(cur + 1, next, handOver, handTime))
  {
  }

  /** The other thread draws, and the holder decides: there is a successor, so only the count matters. */
  lemma AlternatingDraws(c: nat)
    requires Reachable(Alternating(c)) && c + 2 < HALF
    ensures var h := c % 8 + 1;
            var pc := if h < 8 then Passing else Freeing;
            Reachable(Two(c % 2, 1, Counters(c, c + 2, h < 8, if h < 8 then h else 0), Thread(0, c % 2 + 1, pc, c), Thread(0, 2 - c % 2, Waiting, c + 1), pc, h))
  {
    hide Reachable, Two, Counters;
    var p, h := c % 2, c % 8 + 1;
    var x, y := Thread(0, p + 1, Critical, c), Thread(0, 2 - p, Idle, if c == 0 then 0 else c - 1);
    var l := Counters(c, c + 1, 2 <= h, h);
    CountersMove(c, c + 1, 2 <= h, h);
    CountersMove(c, c + 2, 2 <= h, h);
    TwoSwapped(p, 1, l, x, y, Critical, h);
    TwoDraws(1 - p, 1, l, y, x, Critical, h);
    var y', l' := y.(pc := Waiting, ticket := c + 1), l.FetchAdd(1);
    TwoSwapped(1 - p, 1, l', y', x, Critical, h);
    TwoExits(p, 1, l', x, y', Critical, h);
    DecideIs(c, h);
    CountersMove(c, c + 2, h < 8, if h < 8 then h else 0);
  }

  lemma DecideIs(c: nat, h: nat)
    requires c + 2 < HALF && 1 <= h <= 8
    ensures Counters(c, c + 2, 2 <= h, h).Decide() == Counters(c, c + 2, h < 8, if h < 8 then h else 0)
  {
    CountersMove(c, c + 2, 2 <= h, h);
  }

  /** The holder leaves, handing over or not, and the other thread's turn starts. */
  lemma AlternatingTurns(c: nat)
    requires Reachable(Alternating(c)) && c + 2 < HALF
    ensures var p, h := c % 2, c % 8 + 1;
            var gone := Thread(0, p + 1, Idle, c);
            && (h < 8 ==> Reachable(Two(1 - p, 1, Counters(c + 1, c + 2, true, h + 1), Thread(0, 2 - p, Critical, c + 1), gone, Critical, h + 1)))
            && (h == 8 ==> Reachable(Two(1 - p, 0, Counters(c + 1, c + 2, false, 1), Thread(0, 2 - p, Spinning, c + 1), gone, Spinning, h)))
  {
    hide Reachable, Two, Counters;
    AlternatingDraws(c);
    var p, h := c % 2, c % 8 + 1;
    var x, y := Thread(0, p + 1, if h < 8 then Passing else Freeing, c), Thread(0, 2 - p, Waiting, c + 1);
    var flag, time := h < 8, if h < 8 then h else 0;
    var l := Counters(c, c + 2, flag, time);
    var l', remote := Counters(c + 1, c + 2, flag, time), if flag then 1 else 0;
    CountersMove(c, c + 2, flag, time);
    CountersMove(c + 1, c + 2, flag, time);
    if flag {
      TwoPasses(p, 1, l, x, y, Passing, h);
    } else {
      TwoLeaves(p, 1, l, x, y, Freeing, h);
    }
    var gone := x.(pc := Idle);
    TwoSwapped(p, remote, l', gone, y, Idle, h);
    TwoTurns(1 - p, remote, l', y, gone, Idle, h);
    GrantedIs(c, flag, time);
  }

  lemma AlternatingGoesOn(c: nat)
    requires Reachable(Alternating(c)) && c + 2 < HALF
    ensures Reachable(Alternating(c + 1))
  {
    hide Reachable, Two, Counters;
    AlternatingTurns(c);
    var p, h := c % 2, c % 8 + 1;
    assert (c + 1) % 2 == 1 - p;
    if h == 8 {
      TwoSwaps(1 - p, Counters(c + 1, c + 2, false, 1), Thread(0, 2 - p, Spinning, c + 1), Thread(0, p + 1, Idle, c), Spinning, h);
    }
  }

  lemma GrantedIs(c: nat, flag: bool, time: nat)
    requires time < 8
    ensures Counters(c + 1, c + 2, flag, time).Granted() == Counters(c + 1, c + 2, flag, time + 1)
  {
  }

  lemma AlternatingStarts()
    ensures Reachable(Alternating(0))
  {
    hide Reachable, Two, Counters;
    var x, y := Thread(0, 1, Idle, 0), Thread(0, 2, Idle, 0);
    TwoInit(x, y);
    CountersMove(0, 0, false, 0);
    CountersMove(0, 1, false, 0);
    TwoDraws(0, 0, Counters(0, 0, false, 0), x, y, Idle, 0);
    var l, w := Counters(0, 1, false, 0), x.(pc := Waiting);
    TwoTurns(0, 0, l, w, y, Idle, 0);
    var l' := l.Granted();
    FirstGrant();
    TwoSwaps(0, l', w.(pc := Spinning), y, Spinning, 0);
    assert Alternating(0) == Two(0, 1, l', w.(pc := Critical), y, Critical, 1);
  }

  lemma FirstGrant()
    ensures Counters(0, 1, false, 0).Granted() == Counters(0, 1, false, 1)
  {
  }

  lemma TwoInit(x: Thread, y: Thread)
    requires x == Thread(0, 1, Idle, 0) && y == Thread(0, 2, Idle, 0)
    ensures Reachable(Two(0, 0, Counters(0, 0, false, 0), x, y, Idle, 0))
  {
    var s := Two(0, 0, Counters(0, 0, false, 0), x, y, Idle, 0);
    assert Run([s], []) && EndsIn([s], [], s);
  }

  /** Every number of turns below the bound is reached. */
  lemma {:induction false} AlternatingReachable(c: nat)
    requires c + 1 < HALF
    ensures Reachable(Alternating(c))
  {
    hide Reachable, Alternating;
    if c == 0 {
      AlternatingStarts();
    } else {
      AlternatingReachable(c - 1);
      AlternatingGoesOn(c - 1);
    }
  }

  /** The bound on tickets cannot be dropped: a run of two threads leads to a state in which the next
      draw overflows, the turn that it starts needs no remote word, and two threads are inside. */
  lemma TicketOverflowBreaksExclusion() returns (s: State)
    ensures Reachable(s) && Inv(s) && Enabled(s, Draw(1)) && !HasTickets(s, Draw(1))
    ensures Enabled(Do(s, Draw(1)), Turn(1))
    ensures TwoInside(Do(Do(s, Draw(1)), Turn(1)))
  {
    hide Reachable, Inv;
    s := Alternating(HALF - 2);
    AlternatingReachable(HALF - 2);
    CountersMove(HALF - 2, HALF - 1, true, 7);
    ReachableInv(s);
    OverflowWord(s.locks[0].word);
    OverflowTurnIff(s, 1, 1);
  }
}
