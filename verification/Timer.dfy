/** The wheel as the object the program updates, proved to take the steps of the machine. */
module TimerWheel {
  import opened Sequences
  import opened TimerModel
  import opened TimerProofs

  lemma {:induction false} ExecSnoc(w: Wheel, steps: seq<Step>, step: Step)
    requires Shaped(w) && Enabled(Exec(w, steps), step)
    ensures Exec(w, steps + [step]) == Apply(Exec(w, steps), step)
    decreases |steps|
  {
    if steps == [] {
      ApplyShaped(w, step);
      assert Exec(Apply(w, step), []) == Apply(w, step);
      assert ([] + [step])[0] == step && ([] + [step])[1..] == [];
    } else {
      assert (steps + [step])[1..] == steps[1..] + [step];
      if Enabled(w, steps[0]) {
        ApplyShaped(w, steps[0]);
        ExecSnoc(Apply(w, steps[0]), steps[1..], step);
      } else {
        ExecSnoc(w, steps[1..], step);
      }
    }
  }

  /** The steps of a tick that takes the tasks `due`, where running a task `t` adds new tasks
      after the delays `adds(t)`. */
  ghost function Adding(delays: seq<int>, now: int): (r: seq<Step>)
    ensures |r| == |delays|
  {
    seq(|delays|, i requires 0 <= i < |delays| => Add(delays[i], now))
  }

  ghost function Running(due: seq<Task>, adds: Task -> seq<int>, now: int): seq<Step> {
    if due == [] then []
    else Running(due[..|due| - 1], adds, now) + [RunNext(now)] + Adding(adds(due[|due| - 1]), now)
  }

  ghost function Ticking(due: seq<Task>, adds: Task -> seq<int>, now: int): seq<Step> {
    [Collect(now)] + Running(due, adds, now) + [Advance]
  }

  /** The tasks that additions after these delays make, `made` having been made before. */
  ghost function New(made: nat, delays: seq<int>, now: int): (r: seq<Task>)
    ensures |r| == |delays|
  {
    seq(|delays|, i requires 0 <= i < |delays| => Task(made + i, now + delays[i]))
  }

  lemma NewBoth(added: seq<Task>, made: nat, a: seq<int>, b: seq<int>, now: int)
    ensures added + New(made, [], now) == added
    ensures (added + New(made, a, now)) + New(made + |a|, b, now) == added + New(made, a + b, now)
  {
  }

  lemma NewOne(made: nat, delay: int, now: int)
    ensures New(made, [delay], now) == [Task(made, now + delay)]
  {
  }

  /** All delays of the additions the tasks of `due` make, in the order they run. */
  ghost function Delays(due: seq<Task>, adds: Task -> seq<int>): seq<int> {
    Concat(seq(|due|, i requires 0 <= i < |due| => adds(due[i])))
  }

  lemma DelaysOne(due: seq<Task>, i: nat, adds: Task -> seq<int>)
    requires i < |due|
    ensures Delays(due[..i + 1], adds) == Delays(due[..i], adds) + adds(due[i])
  {
    var all := seq(i + 1, k requires 0 <= k < i + 1 => adds(due[..i + 1][k]));
    assert all[..i] == seq(i, k requires 0 <= k < i => adds(due[..i][k]));
  }

  ghost function RanAll(due: seq<Task>, now: int): seq<Ran> {
    seq(|due|, i requires 0 <= i < |due| => Ran(due[i], now))
  }

  lemma RanOne(ran: seq<Ran>, due: seq<Task>, i: nat, now: int)
    requires i < |due|
    ensures ran + RanAll(due[..i + 1], now) == (ran + RanAll(due[..i], now)) + [Ran(due[i], now)]
    ensures ran + RanAll([], now) == ran
  {
  }

  lemma DueNotDueAt(list: seq<Task>, i: nat, now: int)
    requires i < |list|
    ensures list[i].due <= now ==>
              Due(list[i..], now) == [list[i]] + Due(list[i + 1..], now) && NotDue(list[i..], now) == NotDue(list[i + 1..], now)
    ensures list[i].due > now ==>
              Due(list[i..], now) == Due(list[i + 1..], now) && NotDue(list[i..], now) == [list[i]] + NotDue(list[i + 1..], now)
  {
    assert list[i..][1..] == list[i + 1..];
  }

  /** Taking element `i` out, or stepping over it. */
  lemma Cut(list: seq<Task>, i: nat)
    requires i < |list|
    ensures var rest := list[..i] + list[i + 1..]; rest[..i] == list[..i] && rest[i..] == list[i + 1..]
    ensures list[..i + 1] == list[..i] + [list[i]]
  {
  }

  lemma Chain(a: seq<Task>, x: Task, b: seq<Task>)
    ensures a + [x] + b == a + ([x] + b)
  {
  }

  /** The loop over a slot: what is due is pushed on the time-out list and erased in place. */
  method EraseDue(wheelList: seq<Task>, now: int) returns (timeOut: seq<Task>, list: seq<Task>)
    ensures timeOut == Due(wheelList, now) && list == NotDue(wheelList, now)
    ensures multiset(timeOut) + multiset(list) == multiset(wheelList)
    ensures (forall timer <- timeOut :: timer.due <= now) && (forall timer <- list :: timer.due > now)
  {
    list, timeOut := wheelList, [];
    var i: nat := 0;
    assert list[..0] == [] && list[0..] == list;
    while i < |list|
      invariant i <= |list|
      invariant timeOut + Due(list[i..], now) == Due(wheelList, now)
      invariant list[..i] + NotDue(list[i..], now) == NotDue(wheelList, now)
      decreases |list| - i
    {
      DueNotDueAt(list, i, now);
      var timer := list[i];
      if timer.due <= now {
        Cut(list, i);
        Chain(timeOut, timer, Due(list[i + 1..], now));
        timeOut := timeOut + [timer];
        list := list[..i] + list[i + 1..];
      } else {
        Cut(list, i);
        Chain(list[..i], timer, NotDue(list[i + 1..], now));
        i := i + 1;
      }
    }
    assert list[i..] == [] && list[..i] == list;
    Partition(wheelList, now);
  }

  class Timer {
    const timeNum: nat
    var timeWheel: seq<seq<Task>>
    var wheelIndex: nat
    var made: nat  // tasks allocated so far: the identity of the next one

    ghost const timeInterval: int
    ghost const start: int
    ghost var wheel: Wheel
    ghost var steps: seq<Step>

    /** The fields show the state the machine is in after all the steps so far. */
    ghost predicate Coupled()
      reads this
    {
      1 <= timeInterval <= 1000 && wheel == Exec(Init(timeInterval, start), steps) &&
      timeNum == wheel.timeNum && timeWheel == wheel.slots && wheelIndex == wheel.index && made == |wheel.added|
    }

    constructor (timeInterval: int, ghost start: int)
      requires 1 <= timeInterval <= 1000
      ensures Coupled() && steps == [] && this.timeInterval == timeInterval && this.start == start
    {
      this.timeInterval, this.start := timeInterval, start;
      timeNum := SlotCount(timeInterval);
      timeWheel := seq(SlotCount(timeInterval), _ => []);
      wheelIndex, made := 0, 0;
      wheel, steps := Init(timeInterval, start), [];
    }

    ghost method Take(step: Step)
      requires 1 <= timeInterval <= 1000 && wheel == Exec(Init(timeInterval, start), steps) && Enabled(wheel, step)
      modifies this`wheel, this`steps
      ensures steps == old(steps) + [step] && wheel == Apply(old(wheel), step)
      ensures wheel == Exec(Init(timeInterval, start), steps)
    {
      ExecSnoc(Init(timeInterval, start), steps, step);
      ApplyShaped(wheel, step);
      wheel, steps := Apply(wheel, step), steps + [step];
    }

    method AddOnceTask(time: int, now: int)
      requires Coupled() && wheel.now <= now
      modifies this`timeWheel, this`made, this`wheel, this`steps
      ensures Coupled() && steps == old(steps) + [Add(time, now)] && wheel == Apply(old(wheel), Add(time, now))
      ensures made == old(made) + 1
      ensures var s := if Rem(Quot(time, Quot(1000, timeNum)), timeNum) + wheelIndex >= timeNum then 1 else 0;
              s < |old(timeWheel)| && timeWheel == old(timeWheel)[s := old(timeWheel)[s] + [Task(old(made), now + time)]]
    {
      var index := time;
      index := Quot(index, Quot(1000, timeNum));
      index := Rem(index, timeNum);
      index := Quot(index + wheelIndex, timeNum);
      SlotInRange(time, wheelIndex, timeNum);
      Take(Add(time, now));
      timeWheel := timeWheel[index := timeWheel[index] + [Task(made, now + time)]];
      made := made + 1;
    }

    /** The due tasks of the current slot leave it, and come back in the order they had. */
    method TakeDue(now: int) returns (timeOut: seq<Task>)
      requires Coupled() && wheel.now <= now && !wheel.ticking
      modifies this`timeWheel, this`wheel, this`steps
      ensures Coupled() && steps == old(steps) + [Collect(now)] && wheel == Apply(old(wheel), Collect(now))
      ensures timeOut == wheel.timedOut && wheelIndex < |old(timeWheel)| && |timeWheel| == |old(timeWheel)|
      ensures timeWheel == old(timeWheel)[wheelIndex := timeWheel[wheelIndex]]
      ensures multiset(timeOut) + multiset(timeWheel[wheelIndex]) == multiset(old(timeWheel)[wheelIndex])
      ensures (forall timer <- timeOut :: timer.due <= now) && (forall timer <- timeWheel[wheelIndex] :: timer.due > now)
    {
      ApplyShaped(wheel, Collect(now));
      var list;
      timeOut, list := EraseDue(timeWheel[wheelIndex], now);
      Take(Collect(now));
      timeWheel := timeWheel[wheelIndex := list];
    }

    /** A task runs; what it does to the timer is to add tasks after some delays. */
    method Work(timer: Task, now: int, adds: Task -> seq<int>)
      requires Coupled() && wheel.ticking && wheel.timedOut != [] && wheel.timedOut[0] == timer && wheel.now <= now
      modifies this`timeWheel, this`made, this`wheel, this`steps
      ensures Coupled() && steps == old(steps) + [RunNext(now)] + Adding(adds(timer), now)
      ensures wheel.timedOut == old(wheel.timedOut)[1..] && wheel.ran == old(wheel.ran) + [Ran(timer, now)]
      ensures wheel.ticking && wheel.now == now
      ensures made == old(made) + |adds(timer)| && wheel.added == old(wheel.added) + New(old(made), adds(timer), now)
    {
      Take(RunNext(now));
      AddAll(adds(timer), now);
    }

    method AddAll(delays: seq<int>, now: int)
      requires Coupled() && wheel.now == now
      modifies this`timeWheel, this`made, this`wheel, this`steps
      ensures Coupled() && steps == old(steps) + Adding(delays, now)
      ensures made == old(made) + |delays| && wheel.added == old(wheel.added) + New(old(made), delays, now)
      ensures wheel.timedOut == old(wheel.timedOut) && wheel.ran == old(wheel.ran)
      ensures wheel.ticking == old(wheel.ticking) && wheel.now == now
    {
      NewBoth(wheel.added, made, [], [], now);
      for k := 0 to |delays|
        invariant Coupled() && steps == old(steps) + Adding(delays, now)[..k]
        invariant made == old(made) + k && wheel.added == old(wheel.added) + New(old(made), delays[..k], now)
        invariant wheel.timedOut == old(wheel.timedOut) && wheel.ran == old(wheel.ran)
        invariant wheel.ticking == old(wheel.ticking) && wheel.now == now
      {
        NewOne(made, delays[k], now);
        NewBoth(old(wheel.added), old(made), delays[..k], [delays[k]], now);
        assert delays[..k + 1] == delays[..k] + [delays[k]];
        AddOnceTask(delays[k], now);
        assert Adding(delays, now)[..k + 1] == Adding(delays, now)[..k] + [Add(delays[k], now)];
      }
      assert delays[..|delays|] == delays;
    }

    method RunAll(timeOut: seq<Task>, now: int, adds: Task -> seq<int>)
      requires Coupled() && wheel.ticking && wheel.timedOut == timeOut && wheel.now == now
      modifies this`timeWheel, this`made, this`wheel, this`steps
      ensures Coupled() && wheel.ticking && wheel.timedOut == []
      ensures steps == old(steps) + Running(timeOut, adds, now)
      ensures wheel.ran == old(wheel.ran) + RanAll(timeOut, now)
      ensures wheel.added == old(wheel.added) + New(old(made), Delays(timeOut, adds), now)
    {
      assert wheel.ran + RanAll(timeOut[..0], now) == wheel.ran;
      NewBoth(wheel.added, made, [], [], now);
      for i := 0 to |timeOut|
        invariant wheel.ran == old(wheel.ran) + RanAll(timeOut[..i], now)
        invariant made == old(made) + |Delays(timeOut[..i], adds)|
        invariant wheel.added == old(wheel.added) + New(old(made), Delays(timeOut[..i], adds), now)
        invariant Coupled() && wheel.ticking && wheel.now == now && wheel.timedOut == timeOut[i..]
        invariant steps == old(steps) + Running(timeOut[..i], adds, now)
      {
        DelaysOne(timeOut, i, adds);
        RanOne(old(wheel.ran), timeOut, i, now);
        NewBoth(old(wheel.added), old(made), Delays(timeOut[..i], adds), adds(timeOut[i]), now);
        Work(timeOut[i], now, adds);
        assert timeOut[..i + 1][..i] == timeOut[..i];
      }
      assert timeOut[..|timeOut|] == timeOut;
    }

    method MoveOn()
      requires Coupled() && wheel.ticking && wheel.timedOut == []
      modifies this`wheelIndex, this`wheel, this`steps
      ensures Coupled() && !wheel.ticking && steps == old(steps) + [Advance]
      ensures wheel.ran == old(wheel.ran) && wheel.added == old(wheel.added)
      ensures wheelIndex == (if old(wheelIndex) + 1 == timeNum then 0 else old(wheelIndex) + 1)
    {
      Take(Advance);
      wheelIndex := wheelIndex + 1;
      if wheelIndex == timeNum { wheelIndex := 0; }
    }

    /** One tick: exactly the due tasks of the slot run, in their order, the additions they make
        on the way happen in that order too, and the index moves on by one, round the wheel. */
    method Tick(now: int, adds: Task -> seq<int>)
      requires Coupled() && wheel.now <= now && !wheel.ticking
      modifies this
      ensures Coupled() && !wheel.ticking
      ensures steps == old(steps) + Ticking(Due(old(wheel.slots[wheel.index]), now), adds, now)
      ensures var due := Due(old(timeWheel)[old(wheelIndex)], now);
              wheel.ran == old(wheel.ran) + RanAll(due, now) &&
              wheel.added == old(wheel.added) + New(old(made), Delays(due, adds), now)
      ensures wheelIndex == (if old(wheelIndex) + 1 == timeNum then 0 else old(wheelIndex) + 1)
    {
      var timeOut := TakeDue(now);
      RunAll(timeOut, now, adds);
      MoveOn();
    }
  }
}
