/** The hierarchical lock of the B-link tree: a ticket lock per compute node in front of one remote
    lock word. A holder that sees a local successor may pass the remote word on instead of freeing it.

    The protocol is a state machine over its visible steps: the fetch-and-add that draws a ticket,
    the moment the local turn comes up, the remote compare-and-swap, the hand-over decision, the
    write that frees the remote word (waited for, or issued and landing later) and the local release. */
module HandOverLock {

  const HALF: nat := 0x1_0000_0000
  const WORD: nat := 0x1_0000_0000_0000_0000
  const MAX_HAND_OVER: nat := 8

  // ----- the local lock of one compute node -----

  /** `word` packs the next ticket in its low half and the ticket being served in its high half. */
  datatype LocalLock = LocalLock(word: nat, handOver: bool, handTime: nat) {

    function Ticket(): nat { word % HALF }

    function Current(): nat { word / HALF }

    function FetchAdd(x: nat): LocalLock {
      this.(word := (word + x) % WORD)
    }

    /** The holder's turn starts: one more critical section since the remote word was taken. */
    function Granted(): LocalLock {
      this.(handTime := (handTime + 1) % 256)
    }

    /** The hand-over decision, made by the holder on its way out. */
    function Decide(): LocalLock {
      var over := if Ticket() <= (Current() + 1) % HALF then false else handTime < MAX_HAND_OVER;
      LocalLock(word, over, if over then handTime else 0)
    }

    function Released(): LocalLock {
      FetchAdd(HALF)
    }
  }

  /** The same lock as the fields that the threads of a node update. */
  class LocalLockNode {
    var ticketLock: nat
    var handOver: bool
    var handTime: nat

    function View(): LocalLock
      reads this
    {
      LocalLock(ticketLock, handOver, handTime)
    }

    constructor ()
      ensures View() == LocalLock(0, false, 0)
    {
      ticketLock, handOver, handTime := 0, false, 0;
    }

    method DrawTicket() returns (ticket: nat, current: nat)
      modifies this
      ensures View() == old(View()).FetchAdd(1)
      ensures ticket == old(View()).Ticket() && current == old(View()).Current() % HALF
    {
      var lockVal := ticketLock;
      ticketLock := (ticketLock + 1) % WORD;
      ticket := lockVal % HALF;
      current := lockVal / HALF % HALF;
    }

    /** Called once the current ticket equals the caller's own. */
    method TurnStarts() returns (passed: bool)
      modifies this
      ensures View() == old(View()).Granted() && passed == old(View()).handOver
    {
      handTime := (handTime + 1) % 256;
      passed := handOver;
    }

    method CanHandOver() returns (over: bool)
      modifies this
      ensures View() == old(View()).Decide() && over == View().handOver
    {
      var ticket, current := ticketLock % HALF, ticketLock / HALF;
      if ticket <= (current + 1) % HALF {
        handOver := false;
      } else {
        handOver := handTime < MAX_HAND_OVER;
      }
      if !handOver {
        handTime := 0;
      }
      over := handOver;
    }

    method Release()
      modifies this
      ensures View() == old(View()).Released()
    {
      ticketLock := (ticketLock + HALF) % WORD;
    }
  }

  // ----- the whole system around one remote lock word -----

  type NodeId = nat
  type ThreadId = nat

  /** Where a thread is. The page is read and written in `Critical`, `Passing` and `Freeing`. */
  datatype Pc =
    | Idle
    | Waiting   // drew a ticket, waits for its turn
    | Spinning  // has the local turn, swaps on the remote word until it is free
    | Critical  // holds the lock
    | Passing   // decided to hand the remote word to its local successor
    | Freeing   // decided to free the remote word
    | Leaving   // the freeing write is done or under way, the local lock is still held

  datatype Thread = Thread(node: NodeId, tag: nat, pc: Pc, ticket: nat)

  /** `landing` says that a freeing write was issued and has not reached the remote word yet.
      The last two fields only keep the books: `phase` is where the holder of a node's local lock
      is, `Idle` if it has none, and `sections` counts a node's critical sections since its last
      successful swap. No step looks at either. */
  datatype State = State(
    remote: nat,
    landing: bool,
    locks: map<NodeId, LocalLock>,
    threads: map<ThreadId, Thread>,
    phase: map<NodeId, Pc>,
    sections: map<NodeId, nat>)

  datatype Action =
    | Draw(t: ThreadId)
    | Turn(t: ThreadId)
    | Swap(t: ThreadId)
    | Exit(t: ThreadId)
    | Pass(t: ThreadId)
    | Free(t: ThreadId, waits: bool)
    | Land
    | Leave(t: ThreadId)

  predicate Enabled(s: State, a: Action) {
    if a.Land? then s.landing
    else
      && a.t in s.threads && s.threads[a.t].node in s.locks && s.threads[a.t].node in s.sections
      && var th := s.threads[a.t];
         var l := s.locks[th.node];
         match a
         case Draw(_) => th.pc == Idle
         case Turn(_) => th.pc == Waiting && th.ticket == l.Current()
         case Swap(_) => th.pc == Spinning && s.remote == 0
         case Exit(_) => th.pc == Critical
         case Pass(_) => th.pc == Passing
         case Free(_, _) => th.pc == Freeing
         case Leave(_) => th.pc == Leaving
  }

  /** Moves one thread on and stores its node's lock. */
  function Update(s: State, t: ThreadId, th: Thread, l: LocalLock): State {
    s.(threads := s.threads[t := th], locks := s.locks[th.node := l],
       phase := if th.pc == Waiting then s.phase else s.phase[th.node := th.pc])
  }

  function Do(s: State, a: Action): State
    requires Enabled(s, a)
  {
    if a.Land? then s.(remote := 0, landing := false)
    else
      var th := s.threads[a.t];
      var n, l := th.node, s.locks[th.node];
      match a
      case Draw(t) =>
        Update(s, t, th.(pc := Waiting, ticket := l.Ticket()), l.FetchAdd(1))
      case Turn(t) =>
        Update(s, t, th.(pc := if l.handOver then Critical else Spinning), l.Granted())
          .(sections := if l.handOver then s.sections[n := s.sections[n] + 1] else s.sections)
      case Swap(t) =>
        Update(s, t, th.(pc := Critical), l).(remote := th.tag, sections := s.sections[n := 1])
      case Exit(t) =>
        Update(s, t, th.(pc := if l.Decide().handOver then Passing else Freeing), l.Decide())
      case Pass(t) =>
        Update(s, t, th.(pc := Idle), l.Released())
      case Free(t, waits) =>
        Update(s, t, th.(pc := Leaving), l).(remote := if waits then 0 else s.remote, landing := s.landing || !waits)
      case Leave(t) =>
        Update(s, t, th.(pc := Idle), l.Released())
  }

  /** Nobody has touched the lock yet. */
  ghost predicate Init(s: State) {
    && s.remote == 0 && !s.landing && s.locks.Keys == s.phase.Keys == s.sections.Keys
    && (forall n :: n in s.locks ==> s.locks[n] == LocalLock(0, false, 0) && s.phase[n] == Idle && s.sections[n] == 0)
    && (forall t :: t in s.threads ==>
          s.threads[t].pc == Idle && s.threads[t].tag != 0 && s.threads[t].node in s.locks)
  }

  // ----- what every step keeps -----

  ghost predicate Holds(pc: Pc) {
    pc != Idle && pc != Waiting
  }

  /** The phases in which a thread reads and writes the protected page. */
  ghost predicate Inside(pc: Pc) {
    pc == Critical || pc == Passing || pc == Freeing
  }

  /** A node owns the remote word while its flag is up or its holder is inside. */
  ghost predicate Owner(s: State, n: NodeId) {
    n in s.locks && n in s.phase && (s.locks[n].handOver || Inside(s.phase[n]))
  }

  /** The drawn tickets: from the one being served up to the next one to draw. */
  ghost predicate Pending(s: State, n: NodeId, x: nat) {
    n in s.locks && s.locks[n].Current() <= x < s.locks[n].Ticket()
  }

  ghost predicate Drawn(s: State, t: ThreadId, n: NodeId, x: nat) {
    t in s.threads && s.threads[t].node == n && s.threads[t].pc != Idle && s.threads[t].ticket == x
  }

  /** A thread with a ticket is in line; the ticket being served is the holder's, if there is one. */
  ghost predicate ThreadOk(s: State, t: ThreadId)
    requires t in s.threads
  {
    var th := s.threads[t];
    && th.node in s.locks && th.node in s.phase && th.node in s.sections && th.tag != 0
    && (th.pc != Idle ==> Pending(s, th.node, th.ticket))
    && (Holds(th.pc) ==> th.ticket == s.locks[th.node].Current() && s.phase[th.node] == th.pc)
    && (th.pc == Waiting && th.ticket == s.locks[th.node].Current() ==> s.phase[th.node] == Idle)
  }

  /** What the local lock looks like in each phase of its holder. */
  ghost predicate LockOk(s: State, n: NodeId)
    requires n in s.locks
  {
    var l := s.locks[n];
    && n in s.sections && n in s.phase && l.word < WORD && l.Current() <= l.Ticket()
    && (s.phase[n] != Idle ==> l.Current() < l.Ticket())
    && (l.handOver ==> l.Current() < l.Ticket() && 1 <= l.handTime == s.sections[n] <= MAX_HAND_OVER)
    && match s.phase[n]
       case Idle => if l.handOver then l.handTime < MAX_HAND_OVER else l.handTime == 0
       case Waiting => false
       case Spinning => !l.handOver && l.handTime == 1
       case Critical => 1 <= l.handTime == s.sections[n] <= MAX_HAND_OVER
       case Passing => l.handOver && l.handTime < MAX_HAND_OVER && l.Current() + 1 < l.Ticket()
       case Freeing => !l.handOver && l.handTime == 0 && 1 <= s.sections[n] <= MAX_HAND_OVER
       case Leaving => !l.handOver && l.handTime == 0
  }

  ghost predicate TicketsUnique(s: State) {
    forall t, u, n, x :: Drawn(s, t, n, x) && Drawn(s, u, n, x) ==> t == u
  }

  ghost predicate TicketsHeld(s: State) {
    forall n, x :: Pending(s, n, x) ==> exists t :: Drawn(s, t, n, x)
  }

  ghost predicate RemoteOk(s: State) {
    && (forall m, n :: Owner(s, m) && Owner(s, n) ==> m == n)
    && (forall n :: Owner(s, n) ==> s.remote != 0 && !s.landing)
    && (s.landing ==> s.remote != 0)
    && (s.remote != 0 ==> s.landing || exists n :: Owner(s, n))
  }

  ghost predicate Inv(s: State) {
    && (forall t :: t in s.threads ==> ThreadOk(s, t))
    && (forall n :: n in s.locks ==> LockOk(s, n))
    && TicketsUnique(s) && TicketsHeld(s) && RemoteOk(s)
  }

  lemma InitInv(s: State)
    requires Init(s)
    ensures Inv(s)
  {
  }

  lemma DrawWord(word: nat)
    requires word < WORD && word % HALF + 1 < HALF
    ensures var w := (word + 1) % WORD;
            w < WORD && w % HALF == word % HALF + 1 && w / HALF == word / HALF
  {
  }

  lemma ReleaseWord(word: nat)
    requires word < WORD && word / HALF < word % HALF
    ensures var w := (word + HALF) % WORD;
            w < WORD && w % HALF == word % HALF && w / HALF == word / HALF + 1
  {
  }

  // Each part of the invariant, for a step that moves one thread `t` of node `n`.

  ghost predicate Moves(s: State, s': State, t: ThreadId, n: NodeId) {
    && Inv(s) && t in s.threads && s.threads[t].node == n && n in s.locks
    && s'.threads.Keys == s.threads.Keys && s'.locks.Keys == s.locks.Keys
    && s'.phase.Keys == s.phase.Keys && s'.sections.Keys == s.sections.Keys
    && (forall u :: u in s.threads && u != t ==> s'.threads[u] == s.threads[u])
    && (forall m :: m in s.locks && m != n ==> s'.locks[m] == s.locks[m])
    && (forall m :: m in s.phase && m != n ==> s'.phase[m] == s.phase[m])
    && (forall m :: m in s.sections && m != n ==> s'.sections[m] == s.sections[m])
    && s'.threads[t].node == n && s'.threads[t].tag == s.threads[t].tag
  }

  lemma DoMoves(s: State, a: Action)
    requires Inv(s) && Enabled(s, a) && !a.Land?
    ensures Moves(s, Do(s, a), a.t, s.threads[a.t].node)
  {
    hide TicketsUnique, TicketsHeld, RemoteOk, LockOk;
    assert ThreadOk(s, a.t);
    match a {
      case Draw(_) =>
      case Turn(_) =>
      case Swap(_) =>
      case Exit(_) =>
      case Pass(_) =>
      case Free(_, _) =>
      case Leave(_) =>
    }
  }

  lemma OtherLocksOk(s: State, s': State, t: ThreadId, n: NodeId)
    requires Moves(s, s', t, n) && LockOk(s', n)
    ensures forall m :: m in s'.locks ==> LockOk(s', m)
  {
    forall m | m in s'.locks && m != n ensures LockOk(s', m) {
      assert LockOk(s, m);
    }
  }

  /** The line of tickets is unchanged: the thread keeps its place and the lock its counters. */
  ghost predicate SameLine(s: State, s': State, t: ThreadId, n: NodeId)
    requires t in s.threads && t in s'.threads && n in s.locks && n in s'.locks
  {
    && s'.locks[n].word == s.locks[n].word && s'.threads[t].ticket == s.threads[t].ticket
    && s.threads[t].pc != Idle && s'.threads[t].pc != Idle
  }

  lemma SameLineTickets(s: State, s': State, t: ThreadId, n: NodeId)
    requires Moves(s, s', t, n) && SameLine(s, s', t, n)
    ensures TicketsUnique(s') && TicketsHeld(s')
  {
    assert forall u, m, x :: Drawn(s', u, m, x) <==> Drawn(s, u, m, x);
    assert forall m, x :: Pending(s', m, x) <==> Pending(s, m, x);
  }

  /** A step of the holder, or of the thread whose turn it is, leaves the other threads in order. */
  lemma SameLineThreads(s: State, s': State, t: ThreadId, n: NodeId)
    requires Moves(s, s', t, n) && SameLine(s, s', t, n)
    requires s.threads[t].ticket == s.locks[n].Current() && ThreadOk(s', t)
    ensures forall u :: u in s'.threads ==> ThreadOk(s', u)
  {
    forall u | u in s'.threads && u != t ensures ThreadOk(s', u) {
      assert ThreadOk(s, u);
      assert Drawn(s, t, n, s.threads[t].ticket);
      if s.threads[u].node == n && s.threads[u].pc != Idle {
        assert Drawn(s, u, n, s.threads[u].ticket);
        assert s.threads[u].ticket != s.threads[t].ticket;
      }
    }
  }

  lemma RemoteSame(s: State, s': State, t: ThreadId, n: NodeId)
    requires Moves(s, s', t, n) && s'.remote == s.remote && s'.landing == s.landing
    requires Owner(s', n) <==> Owner(s, n)
    ensures RemoteOk(s')
  {
    hide TicketsUnique, TicketsHeld, LockOk, ThreadOk;
    assert forall m :: Owner(s', m) <==> Owner(s, m);
  }

  lemma RemoteTaken(s: State, s': State, t: ThreadId, n: NodeId)
    requires Moves(s, s', t, n) && s.remote == 0 && s'.remote != 0 && s'.landing == s.landing && Owner(s', n)
    ensures RemoteOk(s')
  {
    hide TicketsUnique, TicketsHeld, LockOk, ThreadOk;
    assert forall m :: Owner(s', m) && m != n ==> Owner(s, m);
  }

  lemma RemoteFreed(s: State, s': State, t: ThreadId, n: NodeId)
    requires Moves(s, s', t, n) && Owner(s, n) && !Owner(s', n)
    requires (s'.remote == 0 && s'.landing == s.landing) || (s'.remote == s.remote && s'.landing)
    ensures RemoteOk(s')
  {
    hide TicketsUnique, TicketsHeld, LockOk, ThreadOk;
    assert forall m :: Owner(s', m) ==> Owner(s, m);
  }

  // ----- the steps one by one -----

  lemma DrawKeepsLine(s: State, s': State, t: ThreadId, n: NodeId)
    requires Moves(s, s', t, n) && s.threads[t].pc == Idle && s'.threads[t].pc == Waiting
    requires s'.locks[n].Ticket() == s.locks[n].Ticket() + 1 && s'.locks[n].Current() == s.locks[n].Current()
    requires s'.threads[t].ticket == s.locks[n].Ticket()
    ensures TicketsUnique(s') && TicketsHeld(s')
  {
    forall u, w, m, x | Drawn(s', u, m, x) && Drawn(s', w, m, x) ensures u == w {
      if u != t { assert ThreadOk(s, u); assert Drawn(s, u, m, x); }
      if w != t { assert ThreadOk(s, w); assert Drawn(s, w, m, x); }
    }
    forall m, x | Pending(s', m, x) ensures exists u :: Drawn(s', u, m, x) {
      if m == n && x == s.locks[n].Ticket() {
        assert Drawn(s', t, m, x);
      } else {
        assert Pending(s, m, x);
        var u :| Drawn(s, u, m, x);
        assert Drawn(s', u, m, x);
      }
    }
  }

  lemma DrawLocally(s: State, t: ThreadId)
    requires Inv(s) && Enabled(s, Draw(t)) && s.locks[s.threads[t].node].Ticket() + 1 < HALF
    ensures var s', n := Do(s, Draw(t)), s.threads[t].node;
            && Moves(s, s', t, n) && LockOk(s', n) && (Owner(s', n) <==> Owner(s, n))
            && s'.locks[n].Ticket() == s.locks[n].Ticket() + 1 && s'.locks[n].Current() == s.locks[n].Current()
            && s'.phase == s.phase
  {
    hide TicketsUnique, TicketsHeld, RemoteOk;
    var n := s.threads[t].node;
    assert ThreadOk(s, t) && LockOk(s, n);
    DoMoves(s, Draw(t));
    DrawWord(s.locks[n].word);
  }

  lemma DrawKeepsThreads(s: State, s': State, t: ThreadId, n: NodeId)
    requires Moves(s, s', t, n) && s.threads[t].pc == Idle && s'.threads[t].pc == Waiting
    requires s'.locks[n].Ticket() == s.locks[n].Ticket() + 1 && s'.locks[n].Current() == s.locks[n].Current()
    requires s'.threads[t].ticket == s.locks[n].Ticket() && s'.phase == s.phase && LockOk(s, n)
    ensures forall u :: u in s'.threads ==> ThreadOk(s', u)
  {
    hide TicketsUnique, TicketsHeld, RemoteOk;
    forall u | u in s'.threads ensures ThreadOk(s', u) {
      assert ThreadOk(s, u);
    }
  }

  lemma DrawKeeps(s: State, t: ThreadId)
    requires Inv(s) && Enabled(s, Draw(t)) && s.locks[s.threads[t].node].Ticket() + 1 < HALF
    ensures Inv(Do(s, Draw(t)))
  {
    hide TicketsUnique, TicketsHeld, RemoteOk, LockOk, ThreadOk, Owner;
    var s', n := Do(s, Draw(t)), s.threads[t].node;
    DrawLocally(s, t);
    OtherLocksOk(s, s', t, n);
    DrawKeepsLine(s, s', t, n);
    DrawKeepsThreads(s, s', t, n);
    RemoteSame(s, s', t, n);
  }

  lemma TurnLocally(s: State, t: ThreadId)
    requires Inv(s) && Enabled(s, Turn(t))
    ensures var s', n := Do(s, Turn(t)), s.threads[t].node;
            && Moves(s, s', t, n) && SameLine(s, s', t, n) && s.threads[t].ticket == s.locks[n].Current()
            && LockOk(s', n) && ThreadOk(s', t) && (Owner(s', n) <==> Owner(s, n))
  {
    hide TicketsUnique, TicketsHeld, RemoteOk, Moves;
    var n := s.threads[t].node;
    assert ThreadOk(s, t) && LockOk(s, n);
    DoMoves(s, Turn(t));
  }

  lemma TurnKeeps(s: State, t: ThreadId)
    requires Inv(s) && Enabled(s, Turn(t))
    ensures Inv(Do(s, Turn(t)))
  {
    hide TicketsUnique, TicketsHeld, RemoteOk, LockOk, Owner, Pending, Drawn;
    var s', n := Do(s, Turn(t)), s.threads[t].node;
    TurnLocally(s, t);
    OtherLocksOk(s, s', t, n);
    SameLineTickets(s, s', t, n);
    SameLineThreads(s, s', t, n);
    RemoteSame(s, s', t, n);
  }

  lemma SwapLocally(s: State, t: ThreadId)
    requires Inv(s) && Enabled(s, Swap(t))
    ensures var s', n := Do(s, Swap(t)), s.threads[t].node;
            && Moves(s, s', t, n) && SameLine(s, s', t, n) && s.threads[t].ticket == s.locks[n].Current()
            && LockOk(s', n) && ThreadOk(s', t) && Owner(s', n)
  {
    hide TicketsUnique, TicketsHeld, RemoteOk;
    var n := s.threads[t].node;
    assert ThreadOk(s, t) && LockOk(s, n);
    DoMoves(s, Swap(t));
  }

  lemma SwapKeeps(s: State, t: ThreadId)
    requires Inv(s) && Enabled(s, Swap(t))
    ensures Inv(Do(s, Swap(t)))
  {
    hide TicketsUnique, TicketsHeld, RemoteOk, LockOk, Owner, Pending, Drawn;
    var s', n := Do(s, Swap(t)), s.threads[t].node;
    SwapLocally(s, t);
    OtherLocksOk(s, s', t, n);
    SameLineTickets(s, s', t, n);
    SameLineThreads(s, s', t, n);
    RemoteTaken(s, s', t, n);
  }

  lemma ExitLocally(s: State, t: ThreadId)
    requires Inv(s) && Enabled(s, Exit(t))
    ensures var s', n := Do(s, Exit(t)), s.threads[t].node;
            && Moves(s, s', t, n) && SameLine(s, s', t, n) && s.threads[t].ticket == s.locks[n].Current()
            && LockOk(s', n) && ThreadOk(s', t) && Owner(s', n) && Owner(s, n)
  {
    hide TicketsUnique, TicketsHeld, RemoteOk;
    var n := s.threads[t].node;
    assert ThreadOk(s, t) && LockOk(s, n);
    DoMoves(s, Exit(t));
  }

  lemma ExitKeeps(s: State, t: ThreadId)
    requires Inv(s) && Enabled(s, Exit(t))
    ensures Inv(Do(s, Exit(t)))
  {
    hide TicketsUnique, TicketsHeld, RemoteOk, LockOk, Owner, Pending, Drawn;
    var s', n := Do(s, Exit(t)), s.threads[t].node;
    ExitLocally(s, t);
    OtherLocksOk(s, s', t, n);
    SameLineTickets(s, s', t, n);
    SameLineThreads(s, s', t, n);
    RemoteSame(s, s', t, n);
  }

  lemma FreeLocally(s: State, t: ThreadId, waits: bool)
    requires Inv(s) && Enabled(s, Free(t, waits))
    ensures var s', n := Do(s, Free(t, waits)), s.threads[t].node;
            && Moves(s, s', t, n) && SameLine(s, s', t, n) && s.threads[t].ticket == s.locks[n].Current()
            && LockOk(s', n) && ThreadOk(s', t) && Owner(s, n) && !Owner(s', n)
  {
    hide TicketsUnique, TicketsHeld, RemoteOk, Moves;
    var n := s.threads[t].node;
    assert ThreadOk(s, t) && LockOk(s, n);
    DoMoves(s, Free(t, waits));
  }

  lemma FreeKeeps(s: State, t: ThreadId, waits: bool)
    requires Inv(s) && Enabled(s, Free(t, waits))
    ensures Inv(Do(s, Free(t, waits)))
  {
    hide TicketsUnique, TicketsHeld, RemoteOk, LockOk, Owner, Pending, Drawn;
    var s', n := Do(s, Free(t, waits)), s.threads[t].node;
    FreeLocally(s, t, waits);
    OtherLocksOk(s, s', t, n);
    SameLineTickets(s, s', t, n);
    SameLineThreads(s, s', t, n);
    RemoteFreed(s, s', t, n);
  }

  lemma ReleaseKeepsLine(s: State, s': State, t: ThreadId, n: NodeId)
    requires Moves(s, s', t, n) && Holds(s.threads[t].pc) && s'.threads[t].pc == Idle
    requires s'.locks[n].Ticket() == s.locks[n].Ticket() && s'.locks[n].Current() == s.locks[n].Current() + 1
    ensures TicketsUnique(s') && TicketsHeld(s')
  {
    assert ThreadOk(s, t);
    forall u, w, m, x | Drawn(s', u, m, x) && Drawn(s', w, m, x) ensures u == w {
      assert Drawn(s, u, m, x) && Drawn(s, w, m, x);
    }
    forall m, x | Pending(s', m, x) ensures exists u :: Drawn(s', u, m, x) {
      assert Pending(s, m, x);
      var u :| Drawn(s, u, m, x);
      assert Drawn(s', u, m, x);
    }
  }

  lemma ReleaseKeepsThreads(s: State, s': State, t: ThreadId, n: NodeId)
    requires Moves(s, s', t, n) && Holds(s.threads[t].pc) && s'.threads[t].pc == Idle && s'.phase[n] == Idle
    requires s'.locks[n].Ticket() == s.locks[n].Ticket() && s'.locks[n].Current() == s.locks[n].Current() + 1
    ensures forall u :: u in s'.threads ==> ThreadOk(s', u)
  {
    assert ThreadOk(s, t);
    assert Drawn(s, t, n, s.threads[t].ticket);
    forall u | u in s'.threads ensures ThreadOk(s', u) {
      assert ThreadOk(s, u);
      if u != t && s.threads[u].node == n && s.threads[u].pc != Idle {
        assert Drawn(s, u, n, s.threads[u].ticket);
        assert s.threads[u].ticket != s.threads[t].ticket;
      }
    }
  }

  lemma PassLocally(s: State, t: ThreadId)
    requires Inv(s) && Enabled(s, Pass(t))
    ensures var s', n := Do(s, Pass(t)), s.threads[t].node;
            && Moves(s, s', t, n) && LockOk(s', n) && (Owner(s', n) <==> Owner(s, n))
            && s'.locks[n].Ticket() == s.locks[n].Ticket() && s'.locks[n].Current() == s.locks[n].Current() + 1
  {
    hide TicketsUnique, TicketsHeld, RemoteOk;
    var n := s.threads[t].node;
    assert ThreadOk(s, t) && LockOk(s, n);
    DoMoves(s, Pass(t));
    ReleaseWord(s.locks[n].word);
  }

  lemma PassKeeps(s: State, t: ThreadId)
    requires Inv(s) && Enabled(s, Pass(t))
    ensures Inv(Do(s, Pass(t)))
  {
    hide TicketsUnique, TicketsHeld, RemoteOk, LockOk, ThreadOk, Owner;
    var s', n := Do(s, Pass(t)), s.threads[t].node;
    PassLocally(s, t);
    OtherLocksOk(s, s', t, n);
    ReleaseKeepsLine(s, s', t, n);
    ReleaseKeepsThreads(s, s', t, n);
    RemoteSame(s, s', t, n);
  }

  lemma LeaveLocally(s: State, t: ThreadId)
    requires Inv(s) && Enabled(s, Leave(t))
    ensures var s', n := Do(s, Leave(t)), s.threads[t].node;
            && Moves(s, s', t, n) && LockOk(s', n) && (Owner(s', n) <==> Owner(s, n))
            && s'.locks[n].Ticket() == s.locks[n].Ticket() && s'.locks[n].Current() == s.locks[n].Current() + 1
  {
    hide TicketsUnique, TicketsHeld, RemoteOk, Moves;
    var n := s.threads[t].node;
    assert ThreadOk(s, t) && LockOk(s, n);
    DoMoves(s, Leave(t));
    ReleaseWord(s.locks[n].word);
  }

  lemma LeaveKeeps(s: State, t: ThreadId)
    requires Inv(s) && Enabled(s, Leave(t))
    ensures Inv(Do(s, Leave(t)))
  {
    hide TicketsUnique, TicketsHeld, RemoteOk, LockOk, ThreadOk, Owner;
    var s', n := Do(s, Leave(t)), s.threads[t].node;
    LeaveLocally(s, t);
    OtherLocksOk(s, s', t, n);
    ReleaseKeepsLine(s, s', t, n);
    ReleaseKeepsThreads(s, s', t, n);
    RemoteSame(s, s', t, n);
  }

  lemma LandKeeps(s: State)
    requires Inv(s) && Enabled(s, Land)
    ensures Inv(Do(s, Land))
  {
    var s' := Do(s, Land);
    assert forall t :: t in s'.threads ==> (ThreadOk(s', t) <==> ThreadOk(s, t));
    assert forall n :: n in s'.locks ==> (LockOk(s', n) <==> LockOk(s, n));
    assert forall u, m, x :: Drawn(s', u, m, x) <==> Drawn(s, u, m, x);
    assert forall m, x :: Pending(s', m, x) <==> Pending(s, m, x);
    assert forall m :: Owner(s', m) <==> Owner(s, m);
  }

  /** A ticket can be drawn without the low half of the word overflowing into the high half. */
  predicate HasTickets(s: State, a: Action) {
    a.Draw? && a.t in s.threads && s.threads[a.t].node in s.locks ==> s.locks[s.threads[a.t].node].Ticket() + 1 < HALF
  }

  lemma StepKeepsInv(s: State, a: Action)
    requires Inv(s) && Enabled(s, a) && HasTickets(s, a)
    ensures Inv(Do(s, a))
  {
    hide Inv, Do;
    match a {
      case Draw(t) => DrawKeeps(s, t);
      case Turn(t) => TurnKeeps(s, t);
      case Swap(t) => SwapKeeps(s, t);
      case Exit(t) => ExitKeeps(s, t);
      case Pass(t) => PassKeeps(s, t);
      case Free(t, waits) => FreeKeeps(s, t, waits);
      case Land => LandKeeps(s);
      case Leave(t) => LeaveKeeps(s, t);
    }
  }

  // ----- safety over whole runs -----

  /** A run: every action is possible where it happens and no node runs out of tickets. */
  ghost predicate Run(states: seq<State>, actions: seq<Action>) {
    && |states| == |actions| + 1 && Init(states[0])
    && forall i :: 0 <= i < |actions| ==>
         Enabled(states[i], actions[i]) && HasTickets(states[i], actions[i]) && states[i + 1] == Do(states[i], actions[i])
  }

  lemma {:induction false} RunInv(states: seq<State>, actions: seq<Action>, i: nat)
    requires Run(states, actions) && i < |states|
    ensures Inv(states[i])
  {
    hide Inv, Do, Enabled, HasTickets, Init;
    if i == 0 {
      InitInv(states[0]);
    } else {
      RunInv(states, actions, i - 1);
      var j := i - 1;
      assert Enabled(states[j], actions[j]) && states[j + 1] == Do(states[j], actions[j]);
      StepKeepsInv(states[j], actions[j]);
    }
  }

  /** At most one thread of the whole cluster is inside at any time. */
  lemma MutualExclusion(states: seq<State>, actions: seq<Action>, i: nat, t: ThreadId, u: ThreadId)
    requires Run(states, actions) && i < |states|
    requires t in states[i].threads && u in states[i].threads
    requires Inside(states[i].threads[t].pc) && Inside(states[i].threads[u].pc)
    ensures t == u
  {
    RunInv(states, actions, i);
    var s := states[i];
    hide Run;
    assert ThreadOk(s, t) && ThreadOk(s, u);
    var m, n := s.threads[t].node, s.threads[u].node;
    assert Owner(s, m) && Owner(s, n);
    assert Drawn(s, t, m, s.locks[m].Current()) && Drawn(s, u, m, s.locks[m].Current());
  }

  /** A remote word that is taken, and is not about to be freed by a write under way, belongs to a
      node that has a holder inside or a waiter whose turn it already is: it is never orphaned. */
  lemma NoOrphanedWord(states: seq<State>, actions: seq<Action>, i: nat) returns (t: ThreadId)
    requires Run(states, actions) && i < |states| && states[i].remote != 0 && !states[i].landing
    ensures t in states[i].threads && Owner(states[i], states[i].threads[t].node)
    ensures Inside(states[i].threads[t].pc) || Enabled(states[i], Turn(t))
  {
    RunInv(states, actions, i);
    var s := states[i];
    hide Run;
    var n :| Owner(s, n);
    assert LockOk(s, n);
    assert Pending(s, n, s.locks[n].Current());
    t :| Drawn(s, t, n, s.locks[n].Current());
    assert ThreadOk(s, t);
  }

  /** A hand-over is only ever decided when another thread of the node is waiting behind. */
  lemma HandOverHasSuccessor(states: seq<State>, actions: seq<Action>, i: nat, t: ThreadId) returns (u: ThreadId)
    requires Run(states, actions) && i < |states| && t in states[i].threads && states[i].threads[t].pc == Passing
    ensures u in states[i].threads && u != t && states[i].threads[u].pc == Waiting
    ensures states[i].threads[u].node == states[i].threads[t].node
    ensures states[i].threads[u].ticket == states[i].threads[t].ticket + 1
  {
    RunInv(states, actions, i);
    var s := states[i];
    hide Run;
    assert ThreadOk(s, t);
    var n := s.threads[t].node;
    assert LockOk(s, n);
    assert Pending(s, n, s.locks[n].Current() + 1);
    u :| Drawn(s, u, n, s.locks[n].Current() + 1);
    assert ThreadOk(s, u);
  }

  /** At most `MAX_HAND_OVER` critical sections run on one successful swap of the remote word. */
  lemma BoundedHandOver(states: seq<State>, actions: seq<Action>, i: nat, t: ThreadId)
    requires Run(states, actions) && i < |states| && t in states[i].threads && Inside(states[i].threads[t].pc)
    ensures states[i].threads[t].node in states[i].sections
    ensures 1 <= states[i].sections[states[i].threads[t].node] <= MAX_HAND_OVER
  {
    RunInv(states, actions, i);
    var s := states[i];
    hide Run;
    assert ThreadOk(s, t);
    assert LockOk(s, s.threads[t].node);
  }

  /** Thread `u` of the node of `t` waits with the next ticket. */
  predicate NextInLine(s: State, t: ThreadId, u: ThreadId)
    requires t in s.threads
  {
    && u in s.threads && s.threads[u].node == s.threads[t].node && s.threads[u].pc == Waiting
    && s.threads[u].ticket == s.threads[t].ticket + 1
  }

  /** A thread on its way out hands the remote word over if and only if another thread of its node is
      waiting with the next ticket, however many wait behind that one, and fewer than eight critical
      sections have run since the node took the word. */
  lemma ExitPassesIff(s: State, t: ThreadId)
    requires Inv(s) && Enabled(s, Exit(t))
    ensures s.threads[t].node in s.sections
    ensures Do(s, Exit(t)).threads[t].pc == Passing <==>
              s.sections[s.threads[t].node] < MAX_HAND_OVER && exists u :: NextInLine(s, t, u)
    ensures Do(s, Exit(t)).threads[t].pc == Passing || Do(s, Exit(t)).threads[t].pc == Freeing
  {
    hide RemoteOk;
    var n := s.threads[t].node;
    assert ThreadOk(s, t) && LockOk(s, n);
    var l := s.locks[n];
    if l.Current() + 1 < l.Ticket() {
      assert Pending(s, n, l.Current() + 1);
      var u :| Drawn(s, u, n, l.Current() + 1);
      assert ThreadOk(s, u);
      assert NextInLine(s, t, u);
    }
    if exists u :: NextInLine(s, t, u) {
      var u :| NextInLine(s, t, u);
      assert ThreadOk(s, u);
    }
  }

  /** While a thread holds or waits for the lock, some thread that does can go on, or a freeing write
      is about to land: the lock never gets stuck. */
  lemma SomeoneGoesOn(s: State, t: ThreadId) returns (a: Action)
    requires Inv(s) && t in s.threads && s.threads[t].pc != Idle
    ensures Enabled(s, a) && !a.Draw?
  {
    assert ThreadOk(s, t);
    var n := s.threads[t].node;
    var u := ServedThread(s, n);
    if s.threads[u].pc == Spinning && s.remote != 0 {
      if s.landing {
        return Land;
      }
      var m :| Owner(s, m);
      assert LockOk(s, m);
      u := ServedThread(s, m);
    }
    a := StepOf(s, u);
  }

  /** The thread whose ticket is being served. */
  lemma ServedThread(s: State, n: NodeId) returns (u: ThreadId)
    requires Inv(s) && n in s.locks && s.locks[n].Current() < s.locks[n].Ticket()
    ensures Drawn(s, u, n, s.locks[n].Current())
    ensures if s.phase[n] == Idle then s.threads[u].pc == Waiting else s.threads[u].pc == s.phase[n]
  {
    hide RemoteOk;
    assert LockOk(s, n);
    assert Pending(s, n, s.locks[n].Current());
    u :| Drawn(s, u, n, s.locks[n].Current());
    assert ThreadOk(s, u);
  }

  lemma StepOf(s: State, u: ThreadId) returns (a: Action)
    requires Inv(s) && u in s.threads && s.threads[u].pc != Idle
    requires s.threads[u].node in s.locks && s.threads[u].ticket == s.locks[s.threads[u].node].Current()
    requires s.threads[u].pc == Spinning ==> s.remote == 0
    ensures Enabled(s, a) && !a.Draw?
  {
    hide RemoteOk, TicketsUnique, TicketsHeld, LockOk;
    assert ThreadOk(s, u);
    match s.threads[u].pc
    case Waiting => a := Turn(u);
    case Spinning => a := Swap(u);
    case Critical => a := Exit(u);
    case Passing => a := Pass(u);
    case Freeing => a := Free(u, true);
    case Leaving => a := Leave(u);
  }

  /** The step takes a thread of node `n` into its critical section. */
  ghost predicate Enters(s: State, s': State, a: Action, n: NodeId) {
    && !a.Land? && a.t in s.threads && a.t in s'.threads && s.threads[a.t].node == n
    && !Inside(s.threads[a.t].pc) && Inside(s'.threads[a.t].pc)
  }

  /** How many critical sections of node `n` have begun since its last successful swap. */
  ghost function Entered(states: seq<State>, actions: seq<Action>, n: NodeId, i: nat): nat
    requires i < |states| == |actions| + 1
  {
    if i == 0 then 0
    else if !Enters(states[i - 1], states[i], actions[i - 1], n) then Entered(states, actions, n, i - 1)
    else if actions[i - 1].Swap? then 1
    else Entered(states, actions, n, i - 1) + 1
  }

  lemma StepCounts(s: State, a: Action, n: NodeId)
    requires Enabled(s, a) && n in s.sections
    ensures var s' := Do(s, a);
            && n in s'.sections
            && s'.sections[n] == if !Enters(s, s', a, n) then s.sections[n] else if a.Swap? then 1 else s.sections[n] + 1
  {
    match a
    case Draw(_) =>
    case Turn(_) =>
    case Swap(_) =>
    case Exit(_) =>
    case Pass(_) =>
    case Free(_, _) =>
    case Leave(_) =>
    case Land =>
  }

  /** The bookkeeping counts what it is meant to count, so `BoundedHandOver` bounds that number. */
  lemma {:induction false} SectionsAreEntries(states: seq<State>, actions: seq<Action>, n: NodeId, i: nat)
    requires Run(states, actions) && i < |states| && n in states[0].locks
    ensures n in states[i].sections && states[i].sections[n] == Entered(states, actions, n, i)
  {
    if i > 0 {
      SectionsAreEntries(states, actions, n, i - 1);
      hide Inv, Do, Enabled, HasTickets, Init, Enters;
      var h := i - 1;
      assert Enabled(states[h], actions[h]) && states[h + 1] == Do(states[h], actions[h]);
      StepCounts(states[h], actions[h], n);
    }
  }
}
