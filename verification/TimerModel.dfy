/** The timer wheel for one-shot tasks, as a state machine over a non-decreasing clock. */
module TimerModel {

  datatype Task = Task(id: nat, due: int)

  /** A task that ran, and when. */
  datatype Ran = Ran(task: Task, at: int)

  datatype Wheel = Wheel(
    timeNum: nat,
    slots: seq<seq<Task>>,
    index: nat,
    timedOut: seq<Task>,   // collected in this tick and still to run
    ticking: bool,         // between collecting and moving the index
    now: int,
    ran: seq<Ran>,
    added: seq<Task>
  )

  datatype Step =
    | Add(time: int, now: int)  // addOnceTask
    | Collect(now: int)         // a tick begins
    | RunNext(now: int)         // the next collected task runs
    | Advance                   // the tick ends

  // The source divides with truncation towards zero: a quotient rounds towards zero and a
  // remainder has the sign of the dividend.
  function Quot(a: int, b: int): (q: int)
    requires b > 0
    ensures a < b ==> q <= 0
    ensures 0 <= a ==> q >= 0
    ensures b <= a ==> q >= 1
    decreases a < 0, if a < 0 then -a else a
  {
    if a < 0 then -Quot(-a, b) else if a < b then 0 else 1 + Quot(a - b, b)
  }

  function Rem(a: int, b: int): (r: int)
    requires b > 0
    ensures -b < r < b && (0 <= a ==> 0 <= r) && (a <= 0 ==> r <= 0)
    decreases a < 0, if a < 0 then -a else a
  {
    if a < 0 then -Rem(-a, b) else if a < b then a else Rem(a - b, b)
  }

  lemma {:induction false} QuotRem(a: int, b: int)
    requires b > 0
    ensures a == b * Quot(a, b) + Rem(a, b)
    decreases a < 0, if a < 0 then -a else a
  {
    if a < 0 {
      QuotRem(-a, b);
      Times(b, Quot(-a, b), -Quot(-a, b));
    } else if b <= a {
      QuotRem(a - b, b);
      Times(b, Quot(a - b, b), 1 + Quot(a - b, b));
    }
  }

  lemma Times(b: int, q: int, r: int)
    ensures r == -q ==> b * r == -(b * q)
    ensures r == 1 + q ==> b * r == b + b * q
  {
  }

  lemma {:induction false} QuotAtMost(a: nat, b: int)
    requires b >= 1
    ensures Quot(a, b) <= a
  {
    if a >= b { QuotAtMost(a - b, b); }
  }

  function SlotCount(timeInterval: int): (n: nat)
    requires 1 <= timeInterval <= 1000
    ensures 1 <= n <= 1000
    ensures n * timeInterval <= 1000 < (n + 1) * timeInterval
  {
    QuotAtMost(1000, timeInterval);
    QuotRem(1000, timeInterval);
    Quot(1000, timeInterval)
  }

  /** The slot of a task that runs in `time` milliseconds, as the source computes it. */
  function Slot(time: int, index: nat, timeNum: nat): int
    requires 1 <= timeNum <= 1000
  {
    Quot(Rem(Quot(time, Quot(1000, timeNum)), timeNum) + index, timeNum)
  }

  function Init(timeInterval: int, now: int): Wheel
    requires 1 <= timeInterval <= 1000
  {
    var n := SlotCount(timeInterval);
    Wheel(n, seq(n, _ => []), 0, [], false, now, [], [])
  }

  /** The tasks of a slot that are due, and the ones that stay. */
  function Due(list: seq<Task>, now: int): seq<Task> {
    if list == [] then []
    else (if list[0].due <= now then [list[0]] else []) + Due(list[1..], now)
  }

  function NotDue(list: seq<Task>, now: int): seq<Task> {
    if list == [] then []
    else (if list[0].due <= now then [] else [list[0]]) + NotDue(list[1..], now)
  }

  ghost predicate Shaped(w: Wheel) {
    1 <= w.timeNum <= 1000 && |w.slots| == w.timeNum && w.index < w.timeNum
  }

  /** The clock never goes back. */
  predicate Enabled(w: Wheel, step: Step) {
    match step
    case Add(_, now) => w.now <= now
    case Collect(now) => w.now <= now && !w.ticking
    case RunNext(now) => w.now <= now && w.ticking && w.timedOut != []
    case Advance => w.ticking && w.timedOut == []
  }

  lemma SlotInRange(time: int, index: nat, timeNum: nat)
    requires 1 <= timeNum <= 1000 && index < timeNum
    ensures 0 <= Slot(time, index, timeNum) <= 1 && Slot(time, index, timeNum) < timeNum
    ensures Slot(time, index, timeNum) == 1 <==> Rem(Quot(time, Quot(1000, timeNum)), timeNum) + index >= timeNum
  {
    var shift := Rem(Quot(time, Quot(1000, timeNum)), timeNum) + index;
    assert -(timeNum as int) < shift < 2 * timeNum - 1;
    if shift < 0 { assert Quot(-shift, timeNum) == 0; }
  }

  /** The slot the comment beside the source asks for: the same sum reduced modulo `timeNum`. */
  function IntendedSlot(time: int, index: nat, timeNum: nat): int
    requires 1 <= timeNum <= 1000
  {
    Rem(Rem(Quot(time, Quot(1000, timeNum)), timeNum) + index, timeNum)
  }

  /** Dividing instead of reducing gives the intended slot exactly when the shift from the current
      slot lands on slot 0 without wrapping, or on slot 1 after it. */
  lemma SlotIsIntended(time: int, index: nat, timeNum: nat)
    requires 1 <= timeNum <= 1000 && index < timeNum
    ensures var shift := Rem(Quot(time, Quot(1000, timeNum)), timeNum);
            Slot(time, index, timeNum) == IntendedSlot(time, index, timeNum) <==>
              shift + index == 0 || shift + index == timeNum + 1
  {
    QuotRemSmall(Rem(Quot(time, Quot(1000, timeNum)), timeNum) + index, timeNum);
  }

  lemma QuotRemSmall(x: int, n: int)
    requires n > 0 && -n < x < 2 * n - 1
    ensures Quot(x, n) == Rem(x, n) <==> x == 0 || x == n + 1
  {
    if x < 0 {
      assert Quot(-x, n) == 0 && Rem(-x, n) == -x;
    } else if x >= n {
      assert Quot(x - n, n) == 0 && Rem(x - n, n) == x - n;
    }
  }

  function Put(w: Wheel, s: int, t: Task, now: int): Wheel
    requires 0 <= s < |w.slots|
  {
    w.(slots := w.slots[s := w.slots[s] + [t]], now := now, added := w.added + [t])
  }

  function Apply(w: Wheel, step: Step): Wheel
    requires Shaped(w) && Enabled(w, step)
  {
    match step
    case Add(time, now) =>
      SlotInRange(time, w.index, w.timeNum);
      Put(w, Slot(time, w.index, w.timeNum), Task(|w.added|, now + time), now)
    case Collect(now) =>
      w.(timedOut := Due(w.slots[w.index], now),
         slots := w.slots[w.index := NotDue(w.slots[w.index], now)], ticking := true, now := now)
    case RunNext(now) =>
      w.(timedOut := w.timedOut[1..], ran := w.ran + [Ran(w.timedOut[0], now)], now := now)
    case Advance =>
      w.(index := if w.index + 1 == w.timeNum then 0 else w.index + 1, ticking := false)
  }

  lemma ApplyShaped(w: Wheel, step: Step)
    requires Shaped(w) && Enabled(w, step)
    ensures Shaped(Apply(w, step)) && Apply(w, step).timeNum == w.timeNum
  {
    if step.Add? { SlotInRange(step.time, w.index, w.timeNum); }
  }

  ghost function Exec(w: Wheel, steps: seq<Step>): (r: Wheel)
    requires Shaped(w)
    ensures Shaped(r) && r.timeNum == w.timeNum
    decreases |steps|
  {
    if steps == [] then w
    else if !Enabled(w, steps[0]) then Exec(w, steps[1..])
    else ApplyShaped(w, steps[0]); Exec(Apply(w, steps[0]), steps[1..])
  }
}
