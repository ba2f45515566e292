/** No temporary task is lost or run twice, and they run in the order of adding exactly as long as
    one thread runs the loop. */
module LoopProofs {
  import opened LoopModel

  /** What the loopers still hold. */
  function Held(loopers: seq<Looper>): seq<Task> {
    if loopers == [] then [] else Held(loopers[..|loopers| - 1]) + loopers[|loopers| - 1].batch
  }

  ghost predicate Numbered(added: seq<Task>) {
    forall i :: 0 <= i < |added| ==> added[i] == i
  }

  ghost predicate Idle(loopers: seq<Looper>) {
    forall k :: 0 <= k < |loopers| && !loopers[k].phase.Running? ==> loopers[k].batch == []
  }

  ghost predicate Inv(l: Loop) {
    Numbered(l.added) && Idle(l.loopers) &&
    multiset(l.executed) + multiset(Held(l.loopers)) + multiset(l.tempTasks) == multiset(l.added)
  }

  // ---------------------------------------------------------------- conservation over every run

  lemma {:induction false} HeldUpdate(loopers: seq<Looper>, k: nat, x: Looper)
    requires k < |loopers|
    ensures multiset(Held(loopers[k := x])) + multiset(loopers[k].batch) == multiset(Held(loopers)) + multiset(x.batch)
  {
    var n := |loopers| - 1;
    var front := loopers[..n];
    if k == n {
      assert loopers[k := x][..n] == front;
      Shuffle(multiset(Held(front)), multiset(Held(front)), multiset(loopers[k].batch), multiset(x.batch),
              multiset{}, multiset{});
    } else {
      assert loopers[k := x][..n] == front[k := x];
      HeldUpdate(front, k, x);
      Shuffle(multiset(Held(front[k := x])), multiset(Held(front)), multiset(loopers[k].batch), multiset(x.batch),
              multiset(loopers[n].batch), multiset(loopers[n].batch));
    }
  }

  lemma Shuffle(h': multiset<Task>, h: multiset<Task>, b: multiset<Task>, b': multiset<Task>,
                c: multiset<Task>, d: multiset<Task>)
    ensures h' + b == h + b' && c == d ==> h' + c + b == h + d + b'
    ensures h' == h ==> h' + b' + b == h + b + b'
  {
    if h' + b == h + b' && c == d {
      assert h' + c + b == (h' + b) + c && h + d + b' == (h + b') + c;
    }
  }

  /** Moving tasks between the places keeps their sum. */
  lemma Moved(e: multiset<Task>, h: multiset<Task>, t: multiset<Task>, e': multiset<Task>, h': multiset<Task>,
              t': multiset<Task>, b: multiset<Task>, b': multiset<Task>)
    requires h' + b == h + b'
    requires e + b + t == e' + b' + t'
    ensures e' + h' + t' == e + h + t
  {
    assert forall x :: e'[x] + h'[x] + t'[x] == e[x] + h[x] + t[x] by {
      assert forall x :: h'[x] + b[x] == (h' + b)[x] == (h + b')[x] == h[x] + b'[x];
      assert forall x :: e[x] + b[x] + t[x] == (e + b + t)[x] == (e' + b' + t')[x] == e'[x] + b'[x] + t'[x];
    }
  }

  lemma LooperKeeps(l: Loop, k: nat, step: Step)
    requires Inv(l) && Enabled(l, step) && step in {Test(k), Swap(k), RunNext(k), Finish(k)}
    ensures Inv(Apply(l, step))
  {
    var l' := Apply(l, step);
    var x := l'.loopers[k];
    HeldUpdate(l.loopers, k, x);
    var b, b' := multiset(l.loopers[k].batch), multiset(x.batch);
    assert multiset(l.executed) + b + multiset(l.tempTasks) == multiset(l'.executed) + b' + multiset(l'.tempTasks) by {
      if step.RunNext? { assert l.loopers[k].batch == [l.loopers[k].batch[0]] + x.batch; }
    }
    Moved(multiset(l.executed), multiset(Held(l.loopers)), multiset(l.tempTasks),
          multiset(l'.executed), multiset(Held(l'.loopers)), multiset(l'.tempTasks), b, b');
  }

  lemma StepKeeps(l: Loop, step: Step)
    requires Inv(l) && Enabled(l, step)
    ensures Inv(Apply(l, step))
  {
    match step
    case Test(k) => LooperKeeps(l, k, step);
    case Swap(k) => LooperKeeps(l, k, step);
    case RunNext(k) => LooperKeeps(l, k, step);
    case Finish(k) => LooperKeeps(l, k, step);
    case Begin(thread) => BeginKeeps(l, thread);
    case AddTask => AddKeeps(l);
    case Close =>
    case SetTask(_) =>
  }

  lemma BeginKeeps(l: Loop, thread: nat)
    requires Inv(l)
    ensures Inv(Apply(l, Begin(thread)))
  {
    var l' := Apply(l, Begin(thread));
    if l' != l { assert l'.loopers[..|l.loopers|] == l.loopers && Held(l'.loopers) == Held(l.loopers) + []; }
  }

  lemma AddKeeps(l: Loop)
    requires Inv(l)
    ensures Inv(Apply(l, AddTask))
  {
    var t: Task := |l.added|;
    assert multiset(l.tempTasks + [t]) == multiset(l.tempTasks) + multiset{t};
    assert multiset(l.added + [t]) == multiset(l.added) + multiset{t};
  }

  lemma {:induction false} RunKeeps(l: Loop, steps: seq<Step>)
    requires Inv(l)
    ensures Inv(Exec(l, steps))
    decreases |steps|
  {
    if steps != [] {
      if Enabled(l, steps[0]) {
        StepKeeps(l, steps[0]);
        RunKeeps(Apply(l, steps[0]), steps[1..]);
      } else {
        RunKeeps(l, steps[1..]);
      }
    }
  }

  lemma {:induction false} Once(added: seq<Task>, t: Task)
    requires Numbered(added)
    ensures multiset(added)[t] == if t < |added| then 1 else 0
  {
    if added != [] {
      var n := |added| - 1;
      Once(added[..n], t);
      assert added == added[..n] + [added[n]];
    }
  }

  /** Over every run, with any number of threads adding, closing and looping: each added task is
      in exactly one place, run, in some thread's batch, or waiting. So none is lost and none
      runs twice. */
  lemma EveryTaskOnce(hasTask: bool, steps: seq<Step>, t: Task)
    ensures var l := Exec(Init(hasTask), steps);
            multiset(l.executed)[t] + multiset(Held(l.loopers))[t] + multiset(l.tempTasks)[t] ==
              if t < |l.added| then 1 else 0
  {
    RunKeeps(Init(hasTask), steps);
    Once(Exec(Init(hasTask), steps).added, t);
  }

  // ---------------------------------------------------------------- who is let in

  /** The number of loopers grows exactly when a thread without a loop begins one that has a task
      and whose flag is down, and then the flag goes up. */
  lemma EntersExactly(l: Loop, step: Step)
    requires Enabled(l, step)
    ensures var l' := Apply(l, step);
            |l'.loopers| != |l.loopers| <==>
              step.Begin? && l.hasTask && !l.flag && forall looper <- l.loopers :: looper.thread != step.thread
    ensures var l' := Apply(l, step);
            |l'.loopers| != |l.loopers| ==> l'.flag && l'.loopers == l.loopers + [Looper(step.thread, Top, [])]
  {
    if step.Begin? {
      assert (forall looper <- l.loopers :: looper.thread != step.thread) <==>
             forall k :: 0 <= k < |l.loopers| ==> l.loopers[k].thread != step.thread;
    }
  }

  ghost predicate OwnThreads(loopers: seq<Looper>) {
    forall j, k :: 0 <= j < k < |loopers| ==> loopers[j].thread != loopers[k].thread
  }

  /** Threads let in and not answered by a lowering of the flag. */
  function Rises(l: Loop): int { |l.loopers| - if l.flag then 1 else 0 }

  function Closes(steps: seq<Step>): nat {
    if steps == [] then 0 else (if steps[0].Close? then 1 else 0) + Closes(steps[1..])
  }

  lemma {:induction false} RunRises(l: Loop, steps: seq<Step>)
    requires OwnThreads(l.loopers)
    ensures var l' := Exec(l, steps);
            OwnThreads(l'.loopers) && Rises(l') <= Rises(l) + Closes(steps)
    decreases |steps|
  {
    if steps != [] {
      if Enabled(l, steps[0]) {
        EntersExactly(l, steps[0]);
        RunRises(Apply(l, steps[0]), steps[1..]);
      } else {
        RunRises(l, steps[1..]);
      }
    }
  }

  /** Over every run no thread is let in twice, and every thread after the first needs a close
      before it: at most one more is let in than there were closes, and none while the flag an
      earlier one raised is still up. */
  lemma OneThreadPerClose(hasTask: bool, steps: seq<Step>)
    ensures var l := Exec(Init(hasTask), steps);
            OwnThreads(l.loopers) && |l.loopers| <= Closes(steps) + if l.flag then 1 else 0
  {
    RunRises(Init(hasTask), steps);
  }

  // ---------------------------------------------------------------- order

  ghost predicate Live(l: Loop, k: nat) {
    k < |l.loopers| && !l.loopers[k].phase.Gone?
  }

  ghost predicate Nobody(l: Loop) {
    forall k: nat :: !Live(l, k)
  }

  /** One thread loops at most, and what has run, its batch and what waits are the history. */
  ghost predicate InLine(l: Loop) {
    Numbered(l.added) && Idle(l.loopers) && (forall j: nat, k: nat :: Live(l, j) && Live(l, k) ==> j == k) &&
    l.executed + Held(l.loopers) + l.tempTasks == l.added
  }

  /** The tasks that have run are the first ones added, in that order. */
  ghost predicate InOrder(l: Loop) {
    |l.executed| <= |l.added| && l.executed == l.added[..|l.executed|]
  }

  lemma {:induction false} HeldByOne(loopers: seq<Looper>, k: nat)
    requires k < |loopers| && forall j :: 0 <= j < |loopers| && j != k ==> loopers[j].batch == []
    ensures Held(loopers) == loopers[k].batch
  {
    var n := |loopers| - 1;
    if k == n {
      HeldByNone(loopers[..n]);
    } else {
      HeldByOne(loopers[..n], k);
    }
  }

  lemma {:induction false} HeldByNone(loopers: seq<Looper>)
    requires forall j :: 0 <= j < |loopers| ==> loopers[j].batch == []
    ensures Held(loopers) == []
  {
    if loopers != [] { HeldByNone(loopers[..|loopers| - 1]); }
  }

  /** A looper of a loop that is in line holds all there is to hold. */
  lemma OneHolds(l: Loop, k: nat, x: Looper)
    requires InLine(l) && Live(l, k)
    ensures Held(l.loopers) == l.loopers[k].batch && Held(l.loopers[k := x]) == x.batch
  {
    forall j: nat | j < |l.loopers| && j != k
      ensures l.loopers[j].batch == []
    {
      assert !(Live(l, j) && Live(l, k));
    }
    HeldByOne(l.loopers, k);
    HeldByOne(l.loopers[k := x], k);
  }

  /** A thread begins only when no other is still in the loop. */
  ghost predicate Alone(l: Loop, step: Step) {
    step.Begin? && MayBegin(l, step.thread) ==> Nobody(l)
  }

  /** Only looper `k` changes, and what it runs it takes from the front of its batch. */
  lemma Replaced(l: Loop, k: nat, l': Loop)
    requires InLine(l) && Live(l, k) && |l'.loopers| == |l.loopers|
    requires l'.loopers == l.loopers[k := l'.loopers[k]] && l'.added == l.added
    requires !l'.loopers[k].phase.Running? ==> l'.loopers[k].batch == []
    requires l'.executed + l'.loopers[k].batch + l'.tempTasks == l.executed + l.loopers[k].batch + l.tempTasks
    ensures InLine(l')
  {
    OneHolds(l, k, l'.loopers[k]);
    forall j: nat | Live(l', j)
      ensures j == k
    {
      assert j != k ==> Live(l, j);
    }
  }

  lemma LooperInLine(l: Loop, k: nat, step: Step)
    requires InLine(l) && Enabled(l, step) && step in {Test(k), Swap(k), RunNext(k), Finish(k)}
    ensures InLine(Apply(l, step))
  {
    assert Live(l, k);
    var b := l.loopers[k].batch;
    if step.RunNext? { assert l.executed + b == l.executed + [b[0]] + b[1..]; }
    if step.Swap? { assert l.tempTasks + [] == l.tempTasks; }
    Replaced(l, k, Apply(l, step));
  }

  lemma StepInLine(l: Loop, step: Step)
    requires InLine(l) && Enabled(l, step) && Alone(l, step)
    ensures InLine(Apply(l, step))
  {
    match step
    case Test(k) => LooperInLine(l, k, step);
    case Swap(k) => LooperInLine(l, k, step);
    case RunNext(k) => LooperInLine(l, k, step);
    case Finish(k) => LooperInLine(l, k, step);
    case Begin(_) =>
      var l' := Apply(l, step);
      if l' != l {
        assert l'.loopers[..|l.loopers|] == l.loopers && Held(l'.loopers) == Held(l.loopers) + [];
        assert forall j: nat :: Live(l', j) && j < |l.loopers| ==> Live(l, j);
      }
    case AddTask => assert forall j: nat :: Live(Apply(l, step), j) ==> Live(l, j);
    case Close => assert forall j: nat :: Live(Apply(l, step), j) ==> Live(l, j);
    case SetTask(_) => assert forall j: nat :: Live(Apply(l, step), j) ==> Live(l, j);
  }

  ghost predicate AllAlone(l: Loop, steps: seq<Step>)
    decreases |steps|
  {
    if steps == [] then true
    else if !Enabled(l, steps[0]) then AllAlone(l, steps[1..])
    else Alone(l, steps[0]) && AllAlone(Apply(l, steps[0]), steps[1..])
  }

  lemma {:induction false} RunInLine(l: Loop, steps: seq<Step>)
    requires InLine(l) && AllAlone(l, steps)
    ensures InLine(Exec(l, steps))
    decreases |steps|
  {
    if steps != [] {
      if Enabled(l, steps[0]) {
        StepInLine(l, steps[0]);
        RunInLine(Apply(l, steps[0]), steps[1..]);
      } else {
        RunInLine(l, steps[1..]);
      }
    }
  }

  /** Over every run in which the loop is begun by one thread at a time, whoever adds tasks and
      whenever, running tasks included: what has run, the rest of the batch and what waits are,
      in this order, the whole history of added tasks. */
  lemma FirstInFirstOut(hasTask: bool, steps: seq<Step>)
    requires AllAlone(Init(hasTask), steps)
    ensures var l := Exec(Init(hasTask), steps);
            l.executed + Held(l.loopers) + l.tempTasks == l.added && InOrder(l)
  {
    RunInLine(Init(hasTask), steps);
    InLineInOrder(Exec(Init(hasTask), steps));
  }

  lemma InLineInOrder(l: Loop)
    requires InLine(l)
    ensures InOrder(l)
  {
    assert l.added == l.executed + (Held(l.loopers) + l.tempTasks);
  }

  // ---------------------------------------------------------------- the guard of begin is not enough

  ghost predicate NoBegin(steps: seq<Step>) {
    forall i :: 0 <= i < |steps| ==> !steps[i].Begin?
  }

  lemma {:induction false} NoBeginIsAlone(l: Loop, steps: seq<Step>)
    requires NoBegin(steps)
    ensures AllAlone(l, steps)
    decreases |steps|
  {
    if steps != [] {
      if Enabled(l, steps[0]) {
        NoBeginIsAlone(Apply(l, steps[0]), steps[1..]);
      } else {
        NoBeginIsAlone(l, steps[1..]);
      }
    }
  }

  lemma {:induction false} ExecConcat(l: Loop, a: seq<Step>, b: seq<Step>)
    ensures Exec(l, a + b) == Exec(Exec(l, a), b)
    decreases |a|
  {
    if a == [] {
      assert a + b == b;
    } else {
      assert (a + b)[1..] == a[1..] + b;
      if Enabled(l, a[0]) { ExecConcat(Apply(l, a[0]), a[1..], b); } else { ExecConcat(l, a[1..], b); }
    }
  }

  lemma One(l: Loop, step: Step)
    requires Enabled(l, step)
    ensures Exec(l, [step]) == Apply(l, step)
  {
    assert Exec(Apply(l, step), []) == Apply(l, step);
  }

  /** Two threads in the loop: `j` with a batch or on its way to one, `k` at the test. */
  ghost predicate Both(l: Loop, j: nat, k: nat) {
    j != k && Live(l, j) && Live(l, k) && l.loopers[k] == Looper(l.loopers[k].thread, Top, []) &&
    l.flag && Numbered(l.added) && (!l.loopers[j].phase.Running? ==> l.loopers[j].batch == []) &&
    l.executed + l.loopers[j].batch + l.tempTasks == l.added
  }

  /** In at most four steps `j` holds a task. */
  lemma Taking(l: Loop, j: nat, k: nat) returns (steps: seq<Step>)
    requires Both(l, j, k)
    ensures NoBegin(steps) && Both(Exec(l, steps), j, k) && Exec(l, steps).loopers[j].batch != []
    decreases if l.loopers[j].phase.Running? then 3 else if l.loopers[j].phase.Top? then 2 else 1
  {
    var x := l.loopers[j];
    if x.phase.Running? && x.batch != [] {
      steps := [];
    } else if x.phase.Working? {
      One(l, AddTask);
      var l1 := Apply(l, AddTask);
      One(l1, Swap(j));
      ExecConcat(l, [AddTask], [Swap(j)]);
      steps := [AddTask] + [Swap(j)];
    } else {
      var step := if x.phase.Running? then Finish(j) else Test(j);
      One(l, step);
      var rest := Taking(Apply(l, step), j, k);
      ExecConcat(l, [step], rest);
      steps := [step] + rest;
    }
  }

  /** Then `k` can take a later task and run it first. */
  lemma Overtaking(l: Loop, j: nat, k: nat) returns (steps: seq<Step>)
    requires Both(l, j, k) && l.loopers[j].batch != []
    ensures NoBegin(steps) && !InOrder(Exec(l, steps))
  {
    var l1 := Apply(l, AddTask);
    var l2 := Apply(l1, Test(k));
    var l3 := Apply(l2, Swap(k));
    var l4 := Apply(l3, RunNext(k));
    One(l, AddTask);
    One(l1, Test(k));
    One(l2, Swap(k));
    One(l3, RunNext(k));
    ExecConcat(l, [AddTask], [Test(k)]);
    ExecConcat(l, [AddTask] + [Test(k)], [Swap(k)]);
    ExecConcat(l, [AddTask] + [Test(k)] + [Swap(k)], [RunNext(k)]);
    steps := [AddTask] + [Test(k)] + [Swap(k)] + [RunNext(k)];
    var n := |l.executed|;
    assert l4.executed[n] == l1.tempTasks[0] && l1.added[n + |l.loopers[j].batch|] == l1.tempTasks[0];
    assert l1.added == l1.executed + l.loopers[j].batch + l1.tempTasks;
  }

  /** When a thread is let into the loop, every task added from then on runs in order, in every
      continuation in which nobody else is let in, if and only if nobody was still inside: the
      flag the source tests is already down while an earlier thread finishes its batch. */
  lemma OrderNeedsOneThread(l: Loop, thread: nat)
    requires InLine(l) && MayBegin(l, thread)
    ensures (forall steps | NoBegin(steps) :: InOrder(Exec(Apply(l, Begin(thread)), steps))) <==> Nobody(l)
  {
    var l' := Apply(l, Begin(thread));
    if Nobody(l) {
      StepInLine(l, Begin(thread));
      forall steps | NoBegin(steps)
        ensures InOrder(Exec(l', steps))
      {
        NoBeginIsAlone(l', steps);
        RunInLine(l', steps);
        InLineInOrder(Exec(l', steps));
      }
    } else {
      var j: nat :| Live(l, j);
      OneHolds(l, j, l.loopers[j]);
      var k := |l.loopers|;
      var first := Taking(l', j, k);
      var then_ := Overtaking(Exec(l', first), j, k);
      ExecConcat(l', first, then_);
      assert NoBegin(first + then_) && !InOrder(Exec(l', first + then_));
    }
  }
}
