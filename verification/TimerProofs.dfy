/** At most once, never early, never more than one turn of the wheel late. */
module TimerProofs {
  import opened Wrappers
  import opened TimerModel

  // ---------------------------------------------------------------- collecting a slot

  lemma {:induction false} Partition(list: seq<Task>, now: int)
    ensures multiset(list) == multiset(Due(list, now)) + multiset(NotDue(list, now))
    ensures forall t <- Due(list, now) :: t.due <= now
    ensures forall t <- NotDue(list, now) :: t.due > now
  {
    if list != [] {
      Partition(list[1..], now);
      assert list == [list[0]] + list[1..];
    }
  }

  /** Both halves keep the order of the slot. */
  lemma {:induction false} PartitionInOrder(a: seq<Task>, b: seq<Task>, t: Task, now: int)
    ensures Due(a + b, now) == Due(a, now) + Due(b, now) && NotDue(a + b, now) == NotDue(a, now) + NotDue(b, now)
    ensures Due([t], now) + NotDue([t], now) == [t] && (Due([t], now) == [t] <==> t.due <= now)
  {
    assert [t][1..] == [];
    if a == [] {
      assert a + b == b;
    } else {
      assert (a + b)[1..] == a[1..] + b;
      PartitionInOrder(a[1..], b, t, now);
    }
  }

  /** The source's loop as written: after `erase` returns the next position the loop moves on
      once more, so the element behind an erased one is never looked at; behind the last
      element there is no position to move to (None). */
  function CollectAsWritten(list: seq<Task>, now: int): Option<(seq<Task>, seq<Task>)> {
    if list == [] then Some(([], []))
    else if list[0].due <= now then
      if |list| == 1 then None
      else
        var r := CollectAsWritten(list[2..], now);
        if r.None? then None else Some(([list[0]] + r.value.0, [list[1]] + r.value.1))
    else
      var r := CollectAsWritten(list[1..], now);
      if r.None? then None else Some((r.value.0, [list[0]] + r.value.1))
  }

  /** Each due task has a task behind it that is not due. */
  predicate Spaced(list: seq<Task>, now: int) {
    forall i :: 0 <= i < |list| && list[i].due <= now ==> i + 1 < |list| && list[i + 1].due > now
  }

  lemma AsWrittenTakesLess(list: seq<Task>, now: int)
    ensures var r := CollectAsWritten(list, now); r.Some? ==> |r.value.0| <= |Due(list, now)|
  {
    if list != [] && list[0].due <= now && |list| > 1 {
      AsWrittenTakesLess(list[2..], now);
      assert list[1..][1..] == list[2..];
    } else if list != [] {
      AsWrittenTakesLess(list[1..], now);
    }
  }

  lemma SameTail(x: Task, a: seq<Task>, b: seq<Task>)
    ensures [x] + a == [x] + b <==> a == b
  {
    assert ([x] + a)[1..] == a && ([x] + b)[1..] == b;
  }

  /** The loop as written collects what is due, and only that, exactly on spaced slots. */
  lemma {:induction false} AsWrittenExactly(list: seq<Task>, now: int)
    ensures CollectAsWritten(list, now) == Some((Due(list, now), NotDue(list, now))) <==> Spaced(list, now)
    decreases |list|
  {
    if list == [] {
    } else if list[0].due > now {
      var tail := list[1..];
      AsWrittenExactly(tail, now);
      SpacedTail(list, 1, now);
      assert Due(list, now) == Due(tail, now) && NotDue(list, now) == [list[0]] + NotDue(tail, now);
      var r := CollectAsWritten(tail, now);
      if r.Some? { SameTail(list[0], r.value.1, NotDue(tail, now)); }
    } else if |list| == 1 {
      assert !Spaced(list, now);
    } else if list[1].due > now {
      var tail := list[2..];
      assert list[1..][1..] == tail;
      AsWrittenExactly(tail, now);
      SpacedTail(list, 2, now);
      assert Due(list[1..], now) == Due(tail, now) && NotDue(list, now) == NotDue(list[1..], now);
      var r := CollectAsWritten(tail, now);
      if r.Some? {
        SameTail(list[0], r.value.0, Due(tail, now));
        SameTail(list[1], r.value.1, NotDue(tail, now));
      }
    } else {
      assert list[1..][1..] == list[2..];
      assert !Spaced(list, now);
      AsWrittenTakesLess(list[2..], now);
    }
  }

  lemma SpacedTail(list: seq<Task>, k: nat, now: int)
    requires 1 <= k <= |list|
    requires forall i :: 0 <= i < k && list[i].due <= now ==> i + 1 < k && list[i + 1].due > now
    ensures Spaced(list, now) <==> Spaced(list[k..], now)
  {
    var tail := list[k..];
    assert forall i :: 0 <= i < |tail| ==> tail[i] == list[k + i];
    if Spaced(tail, now) {
      forall i | 0 <= i < |list| && list[i].due <= now
        ensures i + 1 < |list| && list[i + 1].due > now
      {
        if i >= k { assert tail[i - k].due <= now; }
      }
    }
  }

  // ---------------------------------------------------------------- every task is somewhere

  function Flat(slots: seq<seq<Task>>): multiset<Task> {
    if slots == [] then multiset{} else Flat(slots[..|slots| - 1]) + multiset(slots[|slots| - 1])
  }

  function Finished(ran: seq<Ran>): seq<Task> {
    if ran == [] then [] else Finished(ran[..|ran| - 1]) + [ran[|ran| - 1].task]
  }

  lemma {:induction false} FlatUpdate(slots: seq<seq<Task>>, s: nat, list: seq<Task>)
    requires s < |slots|
    ensures Flat(slots[s := list]) + multiset(slots[s]) == Flat(slots) + multiset(list)
  {
    var n := |slots| - 1;
    var front := slots[..n];
    if s == n {
      assert slots[s := list][..n] == front;
      Swap(Flat(front), multiset(list), multiset(slots[s]));
    } else {
      assert slots[s := list][..n] == front[s := list];
      FlatUpdate(front, s, list);
      AddBoth(Flat(front[s := list]), multiset(slots[s]), Flat(front), multiset(list), multiset(slots[n]));
    }
  }

  lemma Swap(f: multiset<Task>, a: multiset<Task>, b: multiset<Task>)
    ensures f + a + b == f + b + a
  {
  }

  lemma AddBoth(x: multiset<Task>, a: multiset<Task>, f: multiset<Task>, b: multiset<Task>, c: multiset<Task>)
    requires x + a == f + b
    ensures x + c + a == f + c + b
  {
    Swap(x, c, a);
    Swap(f, c, b);
  }

  lemma Cancel(x: multiset<Task>, a: multiset<Task>, f: multiset<Task>, b: multiset<Task>)
    requires x + a == f + (a + b)
    ensures x == f + b
  {
    assert (x + a) - a == x && (f + (a + b)) - a == f + b;
  }

  /** Adding a task to a slot, and taking the due ones out, as multisets. */
  lemma FlatAdd(slots: seq<seq<Task>>, s: nat, t: Task)
    requires s < |slots|
    ensures Flat(slots[s := slots[s] + [t]]) == Flat(slots) + multiset{t}
  {
    FlatUpdate(slots, s, slots[s] + [t]);
    assert multiset(slots[s] + [t]) == multiset(slots[s]) + multiset{t};
    Cancel(Flat(slots[s := slots[s] + [t]]), multiset(slots[s]), Flat(slots), multiset{t});
  }

  lemma FlatTake(slots: seq<seq<Task>>, s: nat, now: int)
    requires s < |slots|
    ensures Flat(slots[s := NotDue(slots[s], now)]) + multiset(Due(slots[s], now)) == Flat(slots)
  {
    var due, rest := Due(slots[s], now), NotDue(slots[s], now);
    Partition(slots[s], now);
    FlatUpdate(slots, s, rest);
    var x, f := Flat(slots[s := rest]), Flat(slots);
    assert x + (multiset(rest) + multiset(due)) == f + multiset(rest);
    Cancel(f, multiset(rest), x, multiset(due));
  }

  lemma {:induction false} FlatHas(slots: seq<seq<Task>>, s: nat, t: Task)
    requires s < |slots| && t in slots[s]
    ensures Flat(slots)[t] > 0
  {
    var n := |slots| - 1;
    if s < n { FlatHas(slots[..n], s, t); }
  }

  ghost predicate Numbered(added: seq<Task>) {
    forall i :: 0 <= i < |added| ==> added[i].id == i
  }

  ghost predicate Inv(w: Wheel) {
    Shaped(w) && Numbered(w.added) &&
    multiset(w.added) == Flat(w.slots) + multiset(w.timedOut) + multiset(Finished(w.ran)) &&
    (forall t <- w.timedOut :: t.due <= w.now) &&
    (forall i :: 0 <= i < |w.ran| ==> w.ran[i].task.due <= w.ran[i].at) &&
    (!w.ticking ==> w.timedOut == [])
  }

  lemma {:induction false} FlatEmpty(n: nat)
    ensures Flat(seq(n, _ => [])) == multiset{}
  {
    if n > 0 {
      FlatEmpty(n - 1);
      assert seq(n, _ => [])[..n - 1] == seq<seq<Task>>(n - 1, _ => []);
    }
  }

  lemma InitInv(timeInterval: int, now: int)
    requires 1 <= timeInterval <= 1000
    ensures Inv(Init(timeInterval, now))
  {
    FlatEmpty(SlotCount(timeInterval));
  }

  lemma PutKeeps(w: Wheel, s: int, t: Task, now: int)
    requires Inv(w) && 0 <= s < |w.slots| && t.id == |w.added| && w.now <= now
    ensures Inv(Put(w, s, t, now))
  {
    FlatAdd(w.slots, s, t);
    assert Numbered(w.added + [t]);
    ThreeParts(multiset(w.added), Flat(w.slots), multiset(w.timedOut), multiset(Finished(w.ran)), t);
    assert multiset(w.added + [t]) == multiset(w.added) + multiset{t};
  }

  lemma ThreeParts(a: multiset<Task>, f: multiset<Task>, o: multiset<Task>, d: multiset<Task>, t: Task)
    requires a == f + o + d
    ensures a + multiset{t} == f + multiset{t} + o + d
  {
  }

  lemma CollectKeeps(w: Wheel, now: int)
    requires Inv(w) && Enabled(w, Collect(now))
    ensures Inv(Apply(w, Collect(now)))
  {
    Partition(w.slots[w.index], now);
    FlatTake(w.slots, w.index, now);
    assert multiset(w.timedOut) == multiset{};
  }

  lemma RunKeeps(w: Wheel, now: int)
    requires Inv(w) && Enabled(w, RunNext(now))
    ensures Inv(Apply(w, RunNext(now)))
  {
    var w' := Apply(w, RunNext(now));
    assert w'.ran[..|w.ran|] == w.ran;
    assert w.timedOut == [w.timedOut[0]] + w'.timedOut;
    assert w.timedOut[0] in w.timedOut;
    assert forall t <- w'.timedOut :: t in w.timedOut;
  }

  lemma AddIsPut(w: Wheel, time: int, now: int) returns (j: nat)
    requires Shaped(w) && w.now <= now
    ensures j < w.timeNum && Apply(w, Add(time, now)) == Put(w, j, Task(|w.added|, now + time), now)
  {
    SlotInRange(time, w.index, w.timeNum);
    j := Slot(time, w.index, w.timeNum);
  }

  lemma AddKeeps(w: Wheel, time: int, now: int)
    requires Inv(w) && w.now <= now
    ensures Inv(Apply(w, Add(time, now)))
  {
    var j := AddIsPut(w, time, now);
    PutKeeps(w, j, Task(|w.added|, now + time), now);
  }

  lemma AdvanceKeeps(w: Wheel)
    requires Inv(w) && Enabled(w, Advance)
    ensures Inv(Apply(w, Advance))
  {
  }

  lemma StepKeeps(w: Wheel, step: Step)
    requires Inv(w) && Enabled(w, step)
    ensures Inv(Apply(w, step))
  {
    match step
    case Add(time, now) => AddKeeps(w, time, now);
    case Collect(now) => CollectKeeps(w, now);
    case RunNext(now) => RunKeeps(w, now);
    case Advance => AdvanceKeeps(w);
  }

  lemma {:induction false} ExecKeeps(w: Wheel, steps: seq<Step>)
    requires Inv(w)
    ensures Inv(Exec(w, steps))
    decreases |steps|
  {
    if steps != [] {
      if Enabled(w, steps[0]) {
        StepKeeps(w, steps[0]);
        ExecKeeps(Apply(w, steps[0]), steps[1..]);
      } else {
        ExecKeeps(w, steps[1..]);
      }
    }
  }

  lemma UniqueTasks(added: seq<Task>, t: Task)
    requires Numbered(added)
    ensures multiset(added)[t] <= 1
  {
    if |added| > 0 {
      var n := |added| - 1;
      UniqueTasks(added[..n], t);
      assert added == added[..n] + [added[n]];
      assert added[n] !in added[..n];
    }
  }

  /** Over every run of additions and ticks a task is in exactly one place, a slot, the time-out
      list or the finished ones; it runs at most once and never before its time. */
  lemma AtMostOnceAndNotEarly(timeInterval: int, start: int, steps: seq<Step>, t: Task)
    requires 1 <= timeInterval <= 1000
    ensures var w := Exec(Init(timeInterval, start), steps);
            Flat(w.slots)[t] + multiset(w.timedOut)[t] + multiset(Finished(w.ran))[t] == (if t in w.added then 1 else 0) &&
            forall i :: 0 <= i < |w.ran| ==> w.ran[i].task.due <= w.ran[i].at
  {
    InitInv(timeInterval, start);
    ExecKeeps(Init(timeInterval, start), steps);
    var w := Exec(Init(timeInterval, start), steps);
    UniqueTasks(w.added, t);
    assert t in w.added <==> multiset(w.added)[t] > 0;
  }

  // ---------------------------------------------------------------- bounded lateness

  /** Ticks until slot `j` is collected. */
  function Distance(w: Wheel, j: nat): int {
    var next := if w.ticking then w.index + 1 else w.index;
    if j >= next then j - next else j + w.timeNum - next
  }

  /** Ticks of the run that begin when the clock shows at least `due`. */
  ghost function TicksSince(w: Wheel, steps: seq<Step>, due: int): nat
    requires Shaped(w)
    decreases |steps|
  {
    if steps == [] then 0
    else if !Enabled(w, steps[0]) then TicksSince(w, steps[1..], due)
    else
      ApplyShaped(w, steps[0]);
      (if steps[0].Collect? && due <= steps[0].now then 1 else 0) + TicksSince(Apply(w, steps[0]), steps[1..], due)
  }

  ghost predicate Served(w: Wheel, t: Task) {
    t in w.timedOut || t in Finished(w.ran)
  }

  lemma ServedStays(w: Wheel, step: Step, t: Task)
    requires Shaped(w) && Enabled(w, step) && Served(w, t) && (!w.ticking ==> w.timedOut == [])
    ensures Served(Apply(w, step), t)
  {
    if step.RunNext? {
      var w' := Apply(w, step);
      assert w'.ran[..|w.ran|] == w.ran;
      assert Finished(w'.ran) == Finished(w.ran) + [w.timedOut[0]];
      assert w.timedOut == [w.timedOut[0]] + w'.timedOut;
    } else if step.Add? {
      SlotInRange(step.time, w.index, w.timeNum);
    }
  }

  lemma {:induction false} ServedForever(w: Wheel, steps: seq<Step>, t: Task)
    requires Inv(w) && Served(w, t)
    ensures Served(Exec(w, steps), t)
    decreases |steps|
  {
    if steps != [] {
      if Enabled(w, steps[0]) {
        ServedStays(w, steps[0], t);
        StepKeeps(w, steps[0]);
        ServedForever(Apply(w, steps[0]), steps[1..], t);
      } else {
        ServedForever(w, steps[1..], t);
      }
    }
  }

  lemma DueContains(list: seq<Task>, now: int, t: Task)
    requires t in list
    ensures if t.due <= now then t in Due(list, now) else t in NotDue(list, now)
  {
    if t != list[0] {
      assert t in list[1..];
      DueContains(list[1..], now, t);
    }
  }

  /** One step brings a waiting task nearer, or serves it. */
  lemma WaitStep(w: Wheel, step: Step, j: nat, t: Task)
    requires Shaped(w) && Enabled(w, step) && j < w.timeNum && t in w.slots[j]
    ensures var w' := Apply(w, step);
            Shaped(w') && w'.timeNum == w.timeNum && w.now <= w'.now &&
            if step.Collect? && w.index == j && t.due <= step.now then Served(w', t)
            else t in w'.slots[j] && (step.Collect? ==> w'.now == step.now) &&
                 Distance(w', j) == if step.Collect? then (if Distance(w, j) == 0 then w.timeNum - 1 else Distance(w, j) - 1)
                                    else Distance(w, j)
  {
    ApplyShaped(w, step);
    match step
    case Add(time, now) => SlotInRange(time, w.index, w.timeNum);
    case Collect(now) => DueContains(w.slots[j], now, t);
    case _ =>
  }

  /** A task waiting in a slot is served once `timeNum` ticks have begun at or after its time,
      whatever else happens in between. */
  lemma {:induction false} Lateness(w: Wheel, steps: seq<Step>, j: nat, t: Task)
    requires Inv(w) && j < w.timeNum && t in w.slots[j]
    requires TicksSince(w, steps, t.due) >= if t.due <= w.now then Distance(w, j) + 1 else w.timeNum
    ensures Served(Exec(w, steps), t)
    decreases |steps|
  {
    if Enabled(w, steps[0]) {
      var step := steps[0];
      WaitStep(w, step, j, t);
      StepKeeps(w, step);
      if step.Collect? && w.index == j && t.due <= step.now {
        ServedForever(Apply(w, step), steps[1..], t);
      } else {
        Lateness(Apply(w, step), steps[1..], j, t);
      }
    } else {
      Lateness(w, steps[1..], j, t);
    }
  }

  lemma PutIsServed(w: Wheel, j: nat, t: Task, now: int, steps: seq<Step>)
    requires Inv(w) && j < w.timeNum && t.id == |w.added| && w.now <= now
    ensures var w' := Put(w, j, t, now);
            Inv(w') && (TicksSince(w', steps, t.due) >= w'.timeNum ==>
              Served(Exec(w', steps), t) && (!Exec(w', steps).ticking ==> t in Finished(Exec(w', steps).ran)))
  {
    PutKeeps(w, j, t, now);
    var w' := Put(w, j, t, now);
    assert t in w'.slots[j];
    if TicksSince(w', steps, t.due) >= w'.timeNum {
      Lateness(w', steps, j, t);
      ExecKeeps(w', steps);
    }
  }

  /** From the moment it is added, a one-shot task is served within one turn of the wheel of
      becoming due, whatever slot it was given: it is taken from its slot, and has run when the
      tick that took it is over. */
  lemma AddedIsServed(w: Wheel, time: int, now: int, steps: seq<Step>)
    requires Inv(w) && w.now <= now
    ensures var w', t := Apply(w, Add(time, now)), Task(|w.added|, now + time);
            Inv(w') && w'.added == w.added + [t] &&
            (TicksSince(w', steps, t.due) >= w'.timeNum ==>
              Served(Exec(w', steps), t) && (!Exec(w', steps).ticking ==> t in Finished(Exec(w', steps).ran)))
  {
    var j := AddIsPut(w, time, now);
    PutIsServed(w, j, Task(|w.added|, now + time), now, steps);
  }
}
