/** `Loop` as the object the program updates, proved to take the steps of the machine. */
module TempTaskLoop {
  import opened Wrappers
  import opened LoopModel
  import opened Sequences

  /** What running code does to the loop it runs in. */
  datatype Act = Adds | Closes

  ghost function Acting(acts: seq<Act>): (r: seq<Step>)
    ensures |r| == |acts|
  {
    seq(|acts|, i requires 0 <= i < |acts| => if acts[i].Adds? then AddTask else Close)
  }

  /** Looper `k` runs the tasks of `batch` in their order; task `t` does `acts(t)`. */
  ghost function Batch(k: nat, batch: seq<Task>, acts: Task -> seq<Act>): seq<Step> {
    if batch == [] then []
    else Batch(k, batch[..|batch| - 1], acts) + [RunNext(k)] + Acting(acts(batch[|batch| - 1]))
  }

  /** One round: the test, and if the flag is up the main task, the swap, the batch. */
  ghost function TurnSteps(k: nat, up: bool, main: seq<Act>, batch: seq<Task>, acts: Task -> seq<Act>): seq<Step> {
    if up then [Test(k)] + (Acting(main) + [Swap(k)]) + Batch(k, batch, acts) + [Finish(k)] else [Test(k)]
  }

  /** The names of the next `n` tasks. */
  ghost function Next(made: nat, n: nat): seq<Task> {
    seq(n, i => made + i)
  }

  /** What other code sees of a loop. */
  datatype View = View(flag: bool, tasks: seq<Task>, made: nat)

  /** After `acts`: each addition put the next task behind the waiting ones, and a close took the
      flag down. */
  ghost function After(v: View, acts: seq<Act>): View {
    var n := multiset(acts)[Adds];
    View(v.flag && Closes !in acts, v.tasks + Next(v.made, n), v.made + n)
  }

  lemma AfterBoth(v: View, a: seq<Act>, b: seq<Act>)
    ensures After(v, []) == v && After(After(v, a), b) == After(v, a + b)
  {
    var m, n := multiset(a)[Adds], multiset(b)[Adds];
    assert multiset(a + b)[Adds] == m + n;
    assert (v.tasks + Next(v.made, m)) + Next(v.made + m, n) == v.tasks + Next(v.made, m + n);
  }

  lemma AfterOne(v: View, act: Act)
    ensures After(v, [act]) == if act.Adds? then v.(tasks := v.tasks + [v.made], made := v.made + 1) else v.(flag := false)
  {
    assert multiset([act])[Adds] == if act.Adds? then 1 else 0;
  }

  lemma AfterNext(v: View, acts: seq<Act>, i: nat)
    requires i < |acts|
    ensures After(v, acts[..i + 1]) ==
              var w := After(v, acts[..i]);
              if acts[i].Adds? then w.(tasks := w.tasks + [w.made], made := w.made + 1) else w.(flag := false)
  {
    assert acts[..i + 1] == acts[..i] + [acts[i]];
    AfterBoth(v, acts[..i], [acts[i]]);
    AfterOne(After(v, acts[..i]), acts[i]);
  }

  /** Everything the tasks of a batch do, in the order they run. */
  ghost function Doings(batch: seq<Task>, acts: Task -> seq<Act>): seq<Act> {
    Concat(seq(|batch|, i requires 0 <= i < |batch| => acts(batch[i])))
  }

  lemma DoingsOne(batch: seq<Task>, i: nat, acts: Task -> seq<Act>)
    requires i < |batch|
    ensures Doings(batch[..i + 1], acts) == Doings(batch[..i], acts) + acts(batch[i])
  {
    var all := seq(i + 1, k requires 0 <= k < i + 1 => acts(batch[..i + 1][k]));
    assert all[..i] == seq(i, k requires 0 <= k < i => acts(batch[..i][k]));
  }

  lemma AfterBatchOne(v: View, batch: seq<Task>, i: nat, acts: Task -> seq<Act>)
    requires i < |batch|
    ensures After(v, Doings(batch[..i + 1], acts)) == After(After(v, Doings(batch[..i], acts)), acts(batch[i]))
  {
    DoingsOne(batch, i, acts);
    AfterBoth(v, Doings(batch[..i], acts), acts(batch[i]));
  }

  lemma BatchOne(before: seq<Step>, ran: seq<Task>, k: nat, batch: seq<Task>, i: nat, acts: Task -> seq<Act>)
    requires i < |batch|
    ensures before + Batch(k, batch[..i + 1], acts)
         == before + Batch(k, batch[..i], acts) + [RunNext(k)] + Acting(acts(batch[i]))
    ensures ran + batch[..i + 1] == ran + batch[..i] + [batch[i]] && batch[i..][0] == batch[i] && batch[i..][1..] == batch[i + 1..]
  {
    assert batch[..i + 1][..i] == batch[..i];
  }

  lemma {:induction false} ExecSnoc(l: LoopModel.Loop, steps: seq<Step>, step: Step)
    requires Enabled(Exec(l, steps), step)
    ensures Exec(l, steps + [step]) == Apply(Exec(l, steps), step)
    decreases |steps|
  {
    if steps == [] {
      assert Exec(Apply(l, step), []) == Apply(l, step);
      assert ([] + [step])[0] == step && ([] + [step])[1..] == [];
    } else {
      assert (steps + [step])[1..] == steps[1..] + [step];
      if Enabled(l, steps[0]) { ExecSnoc(Apply(l, steps[0]), steps[1..], step); } else { ExecSnoc(l, steps[1..], step); }
    }
  }

  class Loop {
    var flag: bool
    var hasTask: bool
    var tempTasks: seq<Task>
    var made: nat          // tasks added so far: the name of the next one
    var begun: seq<nat>    // the threads whose loop id is set

    ghost const first: bool
    ghost var loop: LoopModel.Loop
    ghost var steps: seq<Step>

    /** The fields show the state the machine is in after all the steps so far. */
    ghost predicate Coupled()
      reads this
    {
      loop == Exec(LoopModel.Init(first), steps) &&
      flag == loop.flag && hasTask == loop.hasTask && tempTasks == loop.tempTasks && made == |loop.added| &&
      |begun| == |loop.loopers| && forall k :: 0 <= k < |begun| ==> begun[k] == loop.loopers[k].thread
    }

    ghost predicate Stands(k: nat, phase: Phase, batch: seq<Task>)
      reads this
    {
      k < |loop.loopers| && loop.loopers[k].phase == phase && loop.loopers[k].batch == batch
    }

    ghost function Now(): View
      reads this
    {
      View(flag, tempTasks, made)
    }

    constructor (hasTask: bool)
      ensures Coupled() && steps == [] && first == hasTask
    {
      flag, this.hasTask, tempTasks, made, begun := false, hasTask, [], 0, [];
      first, loop, steps := hasTask, LoopModel.Init(hasTask), [];
    }

    ghost method Take(step: Step)
      requires loop == Exec(LoopModel.Init(first), steps) && Enabled(loop, step)
      modifies this`loop, this`steps
      ensures steps == old(steps) + [step] && loop == Apply(old(loop), step)
      ensures loop == Exec(LoopModel.Init(first), steps)
    {
      ExecSnoc(LoopModel.Init(first), steps, step);
      loop, steps := Apply(loop, step), steps + [step];
    }

    method AddTempTask()
      requires Coupled()
      modifies this`tempTasks, this`made, this`loop, this`steps
      ensures Coupled() && steps == old(steps) + [AddTask] && loop == Apply(old(loop), AddTask)
      ensures tempTasks == old(tempTasks) + [old(made)] && made == old(made) + 1
    {
      Take(AddTask);
      tempTasks, made := tempTasks + [made], made + 1;
    }

    method CloseLoop()
      requires Coupled()
      modifies this`flag, this`loop, this`steps
      ensures Coupled() && steps == old(steps) + [Close] && loop == Apply(old(loop), Close)
      ensures !flag
    {
      Take(Close);
      flag := false;
    }

    method SetTask(task: bool) returns (error: Option<string>)
      requires Coupled()
      modifies this`hasTask, this`loop, this`steps
      ensures Coupled() && steps == old(steps) + [LoopModel.SetTask(task)]
      ensures error.Some? <==> flag
      ensures hasTask == if flag then old(hasTask) else task
    {
      Take(LoopModel.SetTask(task));
      if flag { return Some("Loop: Please close the current task first"); }
      hasTask := task;
      error := None;
    }

    method Knows(thread: nat) returns (r: bool)
      ensures r <==> thread in begun
    {
      r := false;
      for k := 0 to |begun|
        invariant r <==> thread in begun[..k]
      {
        if begun[k] == thread { r := true; }
      }
    }

    /** The checks at the start of `beginInCurrentThread`. */
    method Enter(thread: nat) returns (error: Option<string>)
      requires Coupled()
      modifies this`flag, this`begun, this`loop, this`steps
      ensures Coupled() && steps == old(steps) + [Begin(thread)]
      ensures error.None? <==> thread !in old(begun) && old(hasTask) && !old(flag)
      ensures if error.None? then begun == old(begun) + [thread] && flag else begun == old(begun) && flag == old(flag)
      ensures error.None? ==> Stands(|old(begun)|, Top, [])
    {
      Take(Begin(thread));
      var known := Knows(thread);
      if known { return Some("Loop: current thread already has a loop"); }
      if !hasTask { return Some("Loop: haven't got task"); }
      if flag { return Some("Loop: looping now"); }
      begun, flag := begun + [thread], true;
      error := None;
    }

    method Act(acts: seq<Act>)
      requires Coupled()
      modifies this`flag, this`tempTasks, this`made, this`loop, this`steps
      ensures Coupled() && steps == old(steps) + Acting(acts)
      ensures loop.loopers == old(loop.loopers) && loop.executed == old(loop.executed)
      ensures Now() == After(old(Now()), acts)
    {
      AfterBoth(Now(), [], []);
      for i := 0 to |acts|
        invariant Coupled() && steps == old(steps) + Acting(acts)[..i]
        invariant loop.loopers == old(loop.loopers) && loop.executed == old(loop.executed)
        invariant Now() == After(old(Now()), acts[..i])
      {
        AfterNext(old(Now()), acts, i);
        if acts[i].Adds? { AddTempTask(); } else { CloseLoop(); }
        assert Acting(acts)[..i + 1] == Acting(acts)[..i] + [Acting(acts)[i]];
      }
      assert Acting(acts)[..|acts|] == Acting(acts) && acts[..|acts|] == acts;
    }

    /** `task()` for the next task of the local batch. */
    method RunTask(k: nat, ghost batch: seq<Task>, task: Task, acts: Task -> seq<Act>)
      requires Coupled() && Stands(k, Running, batch) && batch != [] && batch[0] == task
      modifies this`flag, this`tempTasks, this`made, this`loop, this`steps
      ensures Coupled() && Stands(k, Running, batch[1..])
      ensures steps == old(steps) + [RunNext(k)] + Acting(acts(task))
      ensures loop.executed == old(loop.executed) + [task]
      ensures Now() == After(old(Now()), acts(task))
    {
      Take(RunNext(k));
      Act(acts(task));
    }

    /** The loop over the batch: every task of it runs, in its order. */
    method RunBatch(k: nat, temp: seq<Task>, acts: Task -> seq<Act>)
      requires Coupled() && Stands(k, Running, temp)
      modifies this`flag, this`tempTasks, this`made, this`loop, this`steps
      ensures Coupled() && Stands(k, Running, [])
      ensures steps == old(steps) + Batch(k, temp, acts) && loop.executed == old(loop.executed) + temp
      ensures Now() == After(old(Now()), Doings(temp, acts))
    {
      AfterBoth(Now(), [], []);
      for i := 0 to |temp|
        invariant Now() == After(old(Now()), Doings(temp[..i], acts))
        invariant Coupled() && Stands(k, Running, temp[i..])
        invariant steps == old(steps) + Batch(k, temp[..i], acts)
        invariant loop.executed == old(loop.executed) + temp[..i]
      {
        AfterBatchOne(old(Now()), temp, i, acts);
        BatchOne(old(steps), old(loop.executed), k, temp, i, acts);
        RunTask(k, temp[i..], temp[i], acts);
      }
      assert temp[..|temp|] == temp;
    }

    /** `task_()`, then the swap under the lock. */
    method SwapTasks(k: nat, main: seq<Act>) returns (temp: seq<Task>)
      requires Coupled() && Stands(k, Working, [])
      modifies this`flag, this`tempTasks, this`made, this`loop, this`steps
      ensures Coupled() && Stands(k, Running, temp) && tempTasks == []
      ensures Now().(tasks := temp) == After(old(Now()), main)
      ensures steps == old(steps) + Acting(main) + [Swap(k)] && loop.executed == old(loop.executed)
    {
      Act(main);
      Take(Swap(k));
      temp, tempTasks := tempTasks, [];
    }

    method TestFlag(k: nat) returns (go: bool)
      requires Coupled() && Stands(k, Top, [])
      modifies this`loop, this`steps
      ensures Coupled() && go == flag && steps == old(steps) + [Test(k)] && loop.executed == old(loop.executed)
      ensures Stands(k, if flag then Working else Gone, [])
    {
      Take(Test(k));
      go := flag;
    }

    method BackToTop(k: nat)
      requires Coupled() && Stands(k, Running, [])
      modifies this`loop, this`steps
      ensures Coupled() && Stands(k, Top, []) && steps == old(steps) + [Finish(k)] && loop.executed == old(loop.executed)
    {
      Take(Finish(k));
    }

    /** One round of the loop by looper `k`, in which the main task does `main` and task `t` does
        `acts(t)`: everything waiting at the swap runs, in its order, and nothing else. */
    method Turn(k: nat, main: seq<Act>, acts: Task -> seq<Act>) returns (ghost batch: seq<Task>)
      requires Coupled() && Stands(k, Top, [])
      modifies this`flag, this`tempTasks, this`made, this`loop, this`steps
      ensures Coupled() && Stands(k, if old(flag) then Top else Gone, [])
      ensures old(flag) ==>
                var swapped := After(old(Now()), main);
                batch == swapped.tasks && Now() == After(swapped.(tasks := []), Doings(batch, acts))
      ensures !old(flag) ==> batch == [] && Now() == old(Now())
      ensures loop.executed == old(loop.executed) + batch
      ensures steps == old(steps) + TurnSteps(k, old(flag), main, batch, acts)
    {
      batch := [];
      var go := TestFlag(k);
      if go {
        batch := Round(k, main, acts);
      }
    }

    method Round(k: nat, main: seq<Act>, acts: Task -> seq<Act>) returns (ghost batch: seq<Task>)
      requires Coupled() && Stands(k, Working, [])
      modifies this`flag, this`tempTasks, this`made, this`loop, this`steps
      ensures Coupled() && Stands(k, Top, [])
      ensures var swapped := After(old(Now()), main);
              batch == swapped.tasks && Now() == After(swapped.(tasks := []), Doings(batch, acts))
      ensures loop.executed == old(loop.executed) + batch
      ensures steps == old(steps) + (Acting(main) + [Swap(k)]) + Batch(k, batch, acts) + [Finish(k)]
    {
      var temp := SwapTasks(k, main);
      batch := temp;
      RunBatch(k, temp, acts);
      BackToTop(k);
    }
  }
}
