/** What an operation of the B-link tree does from its beginning to its end. The history is written
    by the steps themselves; here each operation is followed by what its caller asked for, so that
    the history is the one that the callers' requests make. */
module BLinkOps {
  import opened BLinkPage
  import opened BLinkTree
  import opened BLinkRuns

  /** What a thread was asked to do and has not done yet. */
  datatype Task = Done | Todo(k: Key, kind: Kind)

  function TaskOf(op: Op): Task {
    match op
    case Down(k, kind, _, _) => Todo(k, kind)
    case Splitting(_, _, c, _, _, _) => if c.PutKey? then Todo(c.k, Put(c.v)) else Done
    case _ => Done
  }

  /** What a request does to the map. */
  function Outcome(m: Store, k: Key, kind: Kind): Store {
    match kind
    case Find => m
    case Put(v) => m[k := v]
    case Del => map x | x in m && x != k :: m[x]
  }

  /** The event of a request that takes effect on the map `m`. */
  ghost predicate Records(e: Event, m: Store, k: Key, kind: Kind) {
    match kind
    case Find => e == Got(k, if k in m then m[k] else NULL_VALUE)
    case Put(v) => e == Did(PutKey(k, v))
    case Del => e == Did(DropKey(k))
  }

  /** The step from `s` to `s'` is where the request takes effect: one event enters the history, and the
      map becomes what the request asks for. */
  ghost predicate Completes(s: State, s': State, k: Key, kind: Kind) {
    && |s'.hist| == |s.hist| + 1 && s'.hist[..|s.hist|] == s.hist
    && Records(s'.hist[|s.hist|], Replay(s.hist), k, kind)
    && Replay(s'.hist) == Outcome(Replay(s.hist), k, kind)
  }

  function Begun(act: Action): Task {
    match act
    case Begin(k, kind) => Todo(k, kind)
    case BeginCached(k, kind, _) => Todo(k, kind)
    case _ => Done
  }

  /** What a step of a thread does with the thread's task: takes it up, leaves it, or completes it. */
  ghost predicate Advances(s: State, s': State, before: Task, act: Action, after: Task) {
    if Begun(act).Todo? then before.Done? && after == Begun(act) && s'.hist == s.hist
    else
      || (after == before && s'.hist == s.hist)
      || (before.Todo? && after.Done? && Completes(s, s', before.k, before.kind))
  }

  lemma LoggedCompletes(s: State, s': State, c: Change, k: Key, kind: Kind)
    requires s'.hist == s.hist + [Did(c)] && Records(Did(c), Replay(s.hist), k, kind)
    ensures Completes(s, s', k, kind)
  {
    hide Replay;
    LogExtends(s.hist, Did(c));
  }

  /** A removal does not fill a page, so a page is never split for one. */
  lemma RemovalLeavesRoom(s: State, i: nat)
    requires i < |s.ops| && Ready(s, s.ops[i]) && ChangeOf(s.ops[i]).DropKey?
    requires Inv(s)
    ensures var op := s.ops[i]; Changed(s.t.pages[op.at], ChangeOf(op)).Size() < s.t.pages[op.at].Card()
  {
    hide Legal, Replay, OpOk, Changed, TreeOk;
    ReadyOwes(s, i);
    DropLeavesRoom(s.t, Replay(s.hist), s.ops[i].at, ChangeOf(s.ops[i]));
  }

  lemma AnswerCompletes(s: State, i: nat)
    requires Enabled(s, i, Answer)
    requires var op := s.ops[i]; Lookup(s.t.pages[op.at].body.data, op.k) == Lookup(Replay(s.hist), op.k)
    ensures Completes(s, Do(s, i, Answer), s.ops[i].k, s.ops[i].kind)
  {
    hide Replay;
    LogExtends(s.hist, Got(s.ops[i].k, Lookup(Replay(s.hist), s.ops[i].k)));
  }

  /** Every step of a thread begins its request, leaves it pending without a trace in the history, or
      completes exactly that request; and no step changes what another thread has to do. */
  lemma StepAdvances(s: State, i: nat, act: Action)
    requires Inv(s) && Enabled(s, i, act)
    ensures var s' := Do(s, i, act);
            && |s'.ops| == |s.ops|
            && Advances(s, s', TaskOf(s.ops[i]), act, TaskOf(s'.ops[i]))
            && forall j :: 0 <= j < |s.ops| && j != i ==> s'.ops[j] == s.ops[j]
  {
    hide Inv, Replay, MustMove, Changed, Divides, Completes, Records, Outcome, Cut, LeftHalf, RightHalf;
    var op, s' := s.ops[i], Do(s, i, act);
    match act
    case Answer =>
      AnswerIsCurrent(s, i);
      AnswerCompletes(s, i);
    case Write => WriteCompletes(s, s', op);
    case WriteSibling(sep, sib) =>
      ShapeKept(s, i);
      if ChangeOf(op).DropKey? {
        RemovalLeavesRoom(s, i);
      }
    case WriteLeft => SplitCompletes(s, s', i);
    case _ =>
  }

  lemma ShapeKept(s: State, i: nat)
    requires i < |s.ops| && Ready(s, s.ops[i])
    ensures var op := s.ops[i]; Changed(s.t.pages[op.at], ChangeOf(op)).Card() == s.t.pages[op.at].Card()
  {
    hide MustMove;
  }

  lemma WriteCompletes(s: State, s': State, op: Op)
    requires Writes(op) && s'.hist == Logged(s.hist, ChangeOf(op))
    ensures if op.Down? then Completes(s, s', op.k, op.kind) else s'.hist == s.hist
  {
    hide Completes, Replay;
    if op.Down? {
      LoggedCompletes(s, s', ChangeOf(op), op.k, op.kind);
    }
  }

  lemma SplitCompletes(s: State, s': State, i: nat)
    requires Inv(s) && i < |s.ops| && s.ops[i].Splitting? && s'.hist == Logged(s.hist, s.ops[i].change)
    ensures var c := s.ops[i].change;
            if c.PutKey? then Completes(s, s', c.k, Put(c.v)) else s'.hist == s.hist
  {
    hide Completes, Replay, TreeOk, Legal, SplittingOk;
    var c := s.ops[i].change;
    assert OpOk(s.t, s.ops[i]);
    SplitsNoDrop(s.t, s.ops[i]);
    if c.PutKey? {
      LoggedCompletes(s, s', c, c.k, Put(c.v));
    }
  }

  lemma SplitsNoDrop(t: Tree, op: Op)
    requires op.Splitting? && SplittingOk(t, op)
    ensures !op.change.DropKey?
  {
  }

  // ----- runs with their steps -----

  datatype Step = Step(thread: nat, act: Action)

  ghost predicate Trace(states: seq<State>, steps: seq<Step>) {
    && |states| == |steps| + 1
    && Init(states[0])
    && forall n :: 0 <= n < |steps| ==>
         Enabled(states[n], steps[n].thread, steps[n].act) && states[n + 1] == Do(states[n], steps[n].thread, steps[n].act)
  }

  lemma TraceIsRun(states: seq<State>, steps: seq<Step>)
    requires Trace(states, steps)
    ensures Run(states)
  {
    forall n | 0 <= n < |states| - 1 ensures Next(states[n], states[n + 1]) {
      assert Enabled(states[n], steps[n].thread, steps[n].act);
    }
  }

  /** Step `n` as seen by thread `i`. */
  lemma TraceStep(states: seq<State>, steps: seq<Step>, n: nat, i: nat)
    requires Trace(states, steps) && n < |steps| && i < |states[n].ops|
    ensures Inv(states[n]) && |states[n + 1].ops| == |states[n].ops|
    ensures steps[n].thread == i ==>
              Advances(states[n], states[n + 1], TaskOf(states[n].ops[i]), steps[n].act, TaskOf(states[n + 1].ops[i]))
    ensures steps[n].thread != i ==> states[n + 1].ops[i] == states[n].ops[i]
  {
    hide Inv, Advances, Init;
    TraceIsRun(states, steps);
    RunInv(states, n);
    StepAdvances(states[n], steps[n].thread, steps[n].act);
  }

  /** Thread `i` starts no other request in the steps from `a` on up to `n`. */
  ghost predicate NoneBegun(steps: seq<Step>, i: nat, a: nat, n: nat) {
    forall b :: a < b < n && b < |steps| && steps[b].thread == i ==> Begun(steps[b].act).Done?
  }

  /** Thread `i` leaves the history alone in step `b`. */
  ghost predicate Silent(states: seq<State>, steps: seq<Step>, i: nat, b: nat) {
    b < |steps| && b + 1 < |states| && (steps[b].thread == i ==> states[b + 1].hist == states[b].hist)
  }

  ghost predicate CompletedAt(states: seq<State>, steps: seq<Step>, i: nat, a: nat, n: nat, k: Key, kind: Kind, b: nat) {
    && a < b < n && b < |steps| && b + 1 < |states| && steps[b].thread == i
    && Completes(states[b], states[b + 1], k, kind)
    && forall c :: a < c < n && c != b ==> Silent(states, steps, i, c)
  }

  /** Over all runs: after a thread has been asked for `kind` on `k`, and until it is asked for something
      else, either the request is pending and the thread has put nothing into the history, or there is
      exactly one step of the thread that put an event into it, and that event is the request's. */
  lemma {:induction false} TakesEffectOnce(states: seq<State>, steps: seq<Step>, i: nat, a: nat, n: nat)
    requires Trace(states, steps) && a < n <= |steps| && steps[a].thread == i && Begun(steps[a].act).Todo?
    requires NoneBegun(steps, i, a, n)
    ensures i < |states[n].ops|
    ensures var task := Begun(steps[a].act);
            || (TaskOf(states[n].ops[i]) == task && forall c :: a < c < n ==> Silent(states, steps, i, c))
            || (TaskOf(states[n].ops[i]) == Done && exists b :: CompletedAt(states, steps, i, a, n, task.k, task.kind, b))
    decreases n
  {
    hide Inv, Init, Completes, Do;
    var task := Begun(steps[a].act);
    var h := n - 1;
    assert Enabled(states[a], i, steps[a].act);
    if a == h {
      TraceStep(states, steps, a, i);
    } else {
      TakesEffectOnce(states, steps, i, a, h);
      TraceStep(states, steps, h, i);
      assert steps[h].thread == i ==> Begun(steps[h].act).Done?;
      EffectOnceStep(states, steps, i, a, h, n, task);
    }
  }

  lemma EffectOnceStep(states: seq<State>, steps: seq<Step>, i: nat, a: nat, h: nat, n: nat, task: Task)
    requires a < h < |steps| && n == h + 1 && |states| == |steps| + 1 && i < |states[h].ops| && |states[n].ops| == |states[h].ops|
    requires task.Todo? && (steps[h].thread == i ==> Begun(steps[h].act).Done?)
    requires steps[h].thread == i ==>
               Advances(states[h], states[n], TaskOf(states[h].ops[i]), steps[h].act, TaskOf(states[n].ops[i]))
    requires steps[h].thread != i ==> states[n].ops[i] == states[h].ops[i]
    requires || (TaskOf(states[h].ops[i]) == task && forall c :: a < c < h ==> Silent(states, steps, i, c))
             || (TaskOf(states[h].ops[i]) == Done && exists b :: CompletedAt(states, steps, i, a, h, task.k, task.kind, b))
    ensures || (TaskOf(states[n].ops[i]) == task && forall c :: a < c < n ==> Silent(states, steps, i, c))
            || (TaskOf(states[n].ops[i]) == Done && exists b :: CompletedAt(states, steps, i, a, n, task.k, task.kind, b))
  {
    hide Completes, TaskOf;
    if TaskOf(states[h].ops[i]) == Done {
      var b :| CompletedAt(states, steps, i, a, h, task.k, task.kind, b);
      assert Silent(states, steps, i, h);
      assert CompletedAt(states, steps, i, a, n, task.k, task.kind, b);
    } else if steps[h].thread == i && states[n].hist != states[h].hist {
      assert CompletedAt(states, steps, i, a, n, task.k, task.kind, h);
    } else {
      if steps[h].thread == i {
        NotCompleted(states[h], states[n], task);
      }
      assert Silent(states, steps, i, h);
    }
  }

  lemma NotCompleted(s: State, s': State, task: Task)
    requires s'.hist == s.hist && task.Todo?
    ensures !Completes(s, s', task.k, task.kind)
  {
  }

  /** Over all runs: a step that changes the history completes what its thread was asked for. */
  lemma EveryEventIsAsked(states: seq<State>, steps: seq<Step>, n: nat)
    requires Trace(states, steps) && n < |steps| && states[n + 1].hist != states[n].hist
    ensures steps[n].thread < |states[n].ops|
    ensures var task := TaskOf(states[n].ops[steps[n].thread]);
            task.Todo? && Completes(states[n], states[n + 1], task.k, task.kind)
  {
    hide Inv, Completes, Do;
    assert Enabled(states[n], steps[n].thread, steps[n].act);
    TraceStep(states, steps, n, steps[n].thread);
  }
}
