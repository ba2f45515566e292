/** `Loop` as a state machine: any thread adds temporary tasks or closes the loop; a thread that
    has begun the loop tests the flag, swaps the added tasks out as its batch and runs them. */
module LoopModel {

  /** A temporary task, named by its place in the order of adding. */
  type Task = nat

  datatype Phase = Top | Working | Running | Gone

  /** A thread inside `beginInCurrentThread`, with its local batch. */
  datatype Looper = Looper(thread: nat, phase: Phase, batch: seq<Task>)

  datatype Loop = Loop(
    flag: bool,
    hasTask: bool,
    tempTasks: seq<Task>,
    loopers: seq<Looper>,
    executed: seq<Task>,
    added: seq<Task>
  )

  datatype Step =
    | AddTask
    | Close
    | SetTask(hasTask: bool)
    | Begin(thread: nat)
    | Test(k: nat)     // while (flag_)
    | Swap(k: nat)     // task_(), then the swap under the lock
    | RunNext(k: nat)
    | Finish(k: nat)   // the batch is done, back to the test

  function Init(hasTask: bool): Loop {
    Loop(false, hasTask, [], [], [], [])
  }

  /** The three checks of `beginInCurrentThread`, each of which throws. */
  predicate MayBegin(l: Loop, thread: nat) {
    (forall k :: 0 <= k < |l.loopers| ==> l.loopers[k].thread != thread) && l.hasTask && !l.flag
  }

  predicate Enabled(l: Loop, step: Step) {
    match step
    case Test(k) => k < |l.loopers| && l.loopers[k].phase.Top?
    case Swap(k) => k < |l.loopers| && l.loopers[k].phase.Working?
    case RunNext(k) => k < |l.loopers| && l.loopers[k].phase.Running? && l.loopers[k].batch != []
    case Finish(k) => k < |l.loopers| && l.loopers[k].phase.Running? && l.loopers[k].batch == []
    case _ => true
  }

  function At(l: Loop, k: nat, phase: Phase, batch: seq<Task>): seq<Looper>
    requires k < |l.loopers|
  {
    l.loopers[k := Looper(l.loopers[k].thread, phase, batch)]
  }

  /** A call that throws changes nothing. */
  function Apply(l: Loop, step: Step): Loop
    requires Enabled(l, step)
  {
    match step
    case AddTask => l.(tempTasks := l.tempTasks + [|l.added|], added := l.added + [|l.added|])
    case Close => l.(flag := false)
    case SetTask(hasTask) => if l.flag then l else l.(hasTask := hasTask)
    case Begin(thread) =>
      if MayBegin(l, thread) then l.(flag := true, loopers := l.loopers + [Looper(thread, Top, [])]) else l
    case Test(k) => l.(loopers := At(l, k, if l.flag then Working else Gone, []))
    case Swap(k) => l.(loopers := At(l, k, Running, l.tempTasks), tempTasks := [])
    case RunNext(k) =>
      var batch := l.loopers[k].batch;
      l.(loopers := At(l, k, Running, batch[1..]), executed := l.executed + [batch[0]])
    case Finish(k) => l.(loopers := At(l, k, Top, []))
  }

  function Exec(l: Loop, steps: seq<Step>): Loop
    decreases |steps|
  {
    if steps == [] then l
    else if Enabled(l, steps[0]) then Exec(Apply(l, steps[0]), steps[1..])
    else Exec(l, steps[1..])
  }
}
