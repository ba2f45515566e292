/** What becomes of the bytes given to `Channel::send`: each call queues a request for everything
    the send buffer holds, and a completion erases what the kernel took and looks at a buffer to
    see whether to ask for more. */
module SendPath {
  import opened Sequences
  import opened Wrappers
  import B = BufferModel
  import opened NetBuffer

  /** The buffer a completion looks at: the send buffer is meant, the free window of the read
      buffer is written. */
  datatype Test = AsMeant | AsWritten

  datatype Line = Line(
    sendBuf: B.Buf,
    readBuf: B.Buf,
    requests: seq<seq<char>>,  // the bytes each outstanding write request shows to the kernel
    given: seq<char>,          // all bytes given to send
    wire: seq<char>            // all bytes the kernel took, in its order
  )

  /** OutOfArray: an index has left its array and no assertion said so. */
  datatype Outcome = Done(line: Line) | AssertFailed | OutOfArray

  /** Taken: the kernel reports `res` for request `i`, the bytes it took or a negative error. */
  datatype Step = Send(view: seq<char>) | Taken(i: nat, res: int) | Reads(op: B.Op)

  const MAX_ERRNO := 4095

  function Open(size: nat): Line {
    Line(B.Init(size), B.Init(size), [], [], [])
  }

  ghost predicate Inside(l: Line) {
    B.Valid(l.sendBuf) && B.Valid(l.readBuf) && l.readBuf.write < |l.readBuf.bytes|
  }

  function Unread(l: Line): seq<char>
    requires Inside(l)
  {
    B.Contents(l.sendBuf)
  }

  /** The read buffer's free window holds nothing but the byte that is always spared. */
  predicate OnLastByte(b: B.Buf) {
    b.write == |b.bytes| - 1
  }

  function Window(b: B.Buf): seq<char>
    requires B.Valid(b) && b.write < |b.bytes|
  {
    B.WindowInside(b);
    var (at, size) := B.DisWrite(b);
    b.bytes[at..at + size]
  }

  lemma WindowEmpty(b: B.Buf)
    requires B.Valid(b) && b.write < |b.bytes|
    ensures |Window(b)| == |b.bytes| - 1 - b.write && (Window(b) == [] <==> OnLastByte(b))
  {
    B.WrapSmall(|b.bytes| - b.write - 1);
  }

  /** What a completion asks for next. */
  function More(test: Test, l: Line): seq<char>
    requires Inside(l)
  {
    if test.AsMeant? then Unread(l) else Window(l.readBuf)
  }

  function OnSend(l: Line, view: seq<char>): Line
    requires Inside(l) && |Unread(l)| + |view| <= B.INT_MAX
  {
    B.InputAppends(l.sendBuf, view);
    l.(sendBuf := B.Input(l.sendBuf, view).value, requests := l.requests + [Unread(l) + view], given := l.given + view)
  }

  lemma SendDoes(l: Line, view: seq<char>)
    requires Inside(l) && |Unread(l)| + |view| <= B.INT_MAX
    ensures Inside(OnSend(l, view)) && Unread(OnSend(l, view)) == Unread(l) + view
  {
    B.InputAppends(l.sendBuf, view);
  }

  /** `eraseWrite(res)`: the result is passed on as a `size_t`, whatever its sign. */
  function Erased(b: B.Buf, res: int): Option<B.Buf>
    requires -MAX_ERRNO <= res
  {
    B.EraseData(b, if res < 0 then res + B.SIZE_RANGE else res)
  }

  /** What erasing leaves: less than there was, a failed assertion, or old bytes back. */
  lemma ErasedInside(b: B.Buf, res: int)
    requires B.Valid(b) && -MAX_ERRNO <= res <= B.INT_MAX
    ensures var r, n := Erased(b, res), |B.Contents(b)|;
            if res < 0 then r == Some(b.(read := b.read + res))
            else if res <= n then r.Some? && B.Valid(r.value) && B.Contents(r.value) == B.Contents(b)[res..]
            else r.None? || r.value.read < 0
  {
    if res < 0 { B.EraseNegative(b, res); } else { B.EraseExactly(b, res); B.ToIntOnce(b.read, res); }
  }

  ghost function OnTaken(test: Test, l: Line, i: nat, res: int): Outcome
    requires Inside(l) && i < |l.requests| && -MAX_ERRNO <= res <= |l.requests[i]|
  {
    var b := Erased(l.sendBuf, res);
    if b.None? then AssertFailed
    else if !B.Valid(b.value) then OutOfArray
    else Done(AskMore(test, l.(sendBuf := b.value, requests := Without(l.requests, i),
                               wire := l.wire + l.requests[i][..if res < 0 then 0 else res])))
  }

  function AskMore(test: Test, l: Line): Line
    requires Inside(l)
  {
    if More(test, l) == [] then l else l.(requests := l.requests + [More(test, l)])
  }

  ghost predicate Enabled(l: Line, step: Step)
    requires Inside(l)
  {
    match step
    case Send(view) => |Unread(l)| + |view| <= B.INT_MAX
    case Taken(i, res) => i < |l.requests| && -MAX_ERRNO <= res <= |l.requests[i]| && res <= B.INT_MAX
    case Reads(op) => !op.OpInput? && B.Allowed(l.readBuf, op)
  }

  ghost function Apply(test: Test, l: Line, step: Step): Outcome
    requires Inside(l) && Enabled(l, step)
  {
    match step
    case Send(view) => Done(OnSend(l, view))
    case Taken(i, res) => OnTaken(test, l, i, res)
    case Reads(op) =>
      var b := B.Apply(l.readBuf, op);
      if b.None? then AssertFailed else Done(l.(readBuf := b.value))
  }

  /** The lengths of the buffers, and what is outside them, stay as they are. */
  lemma StepInside(test: Test, l: Line, step: Step)
    requires Inside(l) && Enabled(l, step)
    ensures var o := Apply(test, l, step); o.Done? ==> Inside(o.line) && |o.line.readBuf.bytes| == |l.readBuf.bytes|
    ensures step.Send? || step.Reads? ==> Apply(test, l, step).Done?
  {
    match step
    case Send(view) => SendDoes(l, view);
    case Reads(op) =>
      B.OpRefines(l.readBuf, B.Queue(B.Contents(l.readBuf), 0), op);
      B.FillKeepsOpen(l.readBuf, op);
    case Taken(_, _) =>
  }

  ghost function Exec(test: Test, l: Line, steps: seq<Step>): (o: Outcome)
    requires Inside(l)
    ensures o.Done? ==> Inside(o.line)
    decreases |steps|
  {
    if steps == [] then Done(l)
    else if !Enabled(l, steps[0]) then Exec(test, l, steps[1..])
    else
      StepInside(test, l, steps[0]);
      var o := Apply(test, l, steps[0]);
      if o.Done? then Exec(test, o.line, steps[1..]) else o
  }

  lemma First(test: Test, l: Line, step: Step, rest: seq<Step>)
    requires Inside(l) && Enabled(l, step)
    ensures var o := Apply(test, l, step);
            if o.Done? then Inside(o.line) && Exec(test, l, [step] + rest) == Exec(test, o.line, rest)
            else Exec(test, l, [step] + rest) == o
  {
    StepInside(test, l, step);
    assert ([step] + rest)[1..] == rest;
  }

  // ---------------------------------------------------------------- what one completion does

  /** The four ways a completion ends, by its result and what the send buffer holds. */
  lemma TakenExactly(test: Test, l: Line, i: nat, res: int)
    requires Inside(l) && Enabled(l, Taken(i, res))
    ensures var o := OnTaken(test, l, i, res);
            if res < 0 then
              if l.sendBuf.read + res < 0 then o == OutOfArray
              else o.Done? && |Unread(o.line)| == |Unread(l)| - res && o.line.wire == l.wire
            else if res <= |Unread(l)| then
              o.Done? && Unread(o.line) == Unread(l)[res..] && o.line.wire == l.wire + l.requests[i][..res]
            else !o.Done?
    ensures var o := OnTaken(test, l, i, res);
            o.Done? ==> o.line.readBuf == l.readBuf && o.line.given == l.given &&
                        (var more := More(test, o.line);
                         o.line.requests == Without(l.requests, i) + if more == [] then [] else [more])
  {
    ErasedInside(l.sendBuf, res);
  }

  ghost predicate Drained(test: Test, l: Line)
    requires Inside(l)
  {
    if test.AsMeant? then Unread(l) == [] else OnLastByte(l.readBuf)
  }

  /** `reduseSend` is reached, because nothing more is asked for: as meant when the send buffer is
      empty, as written when the read buffer stands on its last byte, whatever is left to send. */
  lemma DrainsExactly(test: Test, l: Line, i: nat, res: int)
    requires Inside(l) && Enabled(l, Taken(i, res)) && OnTaken(test, l, i, res).Done?
    ensures var l' := OnTaken(test, l, i, res).line;
            |l'.requests| == |l.requests| - (if Drained(test, l') then 1 else 0)
  {
    TakenExactly(test, l, i, res);
    WindowEmpty(l.readBuf);
  }

  // ---------------------------------------------------------------- one request at a time

  /** At most one request is outstanding, and it shows all there is. */
  ghost predicate Single(l: Line) {
    Inside(l) && ((l.requests == [] && Unread(l) == []) || l.requests == [Unread(l)]) && l.given == l.wire + Unread(l)
  }

  /** Nothing is given to send while a request is outstanding, and no write fails. */
  ghost predicate Patient(l: Line, step: Step) {
    match step
    case Send(_) => l.requests == []
    case Taken(_, res) => res >= 0
    case Reads(_) => true
  }

  ghost predicate AllPatient(l: Line, steps: seq<Step>)
    requires Inside(l)
    decreases |steps|
  {
    if steps == [] then true
    else if !Enabled(l, steps[0]) then AllPatient(l, steps[1..])
    else
      StepInside(AsMeant, l, steps[0]);
      Patient(l, steps[0]) &&
      var o := Apply(AsMeant, l, steps[0]);
      o.Done? ==> AllPatient(o.line, steps[1..])
  }

  lemma SingleSend(l: Line, view: seq<char>)
    requires Single(l) && Enabled(l, Send(view)) && l.requests == []
    ensures Single(OnSend(l, view))
  {
    SendDoes(l, view);
    Joined(l.wire, Unread(l), view);
  }

  lemma Joined(wire: seq<char>, unread: seq<char>, view: seq<char>)
    ensures wire + unread + view == wire + (unread + view)
  {
  }

  lemma SingleTaken(l: Line, i: nat, res: nat)
    requires Single(l) && Enabled(l, Taken(i, res))
    ensures OnTaken(AsMeant, l, i, res).Done? && Single(OnTaken(AsMeant, l, i, res).line)
  {
    TakenExactly(AsMeant, l, i, res);
    assert Without(l.requests, i) == [];
    assert Unread(l) == Unread(l)[..res] + Unread(l)[res..];
  }

  lemma SingleReads(l: Line, op: B.Op)
    requires Single(l) && Enabled(l, Reads(op))
    ensures Apply(AsMeant, l, Reads(op)).Done? && Single(Apply(AsMeant, l, Reads(op)).line)
  {
    StepInside(AsMeant, l, Reads(op));
  }

  lemma {:induction false} SingleRun(l: Line, steps: seq<Step>)
    requires Single(l) && AllPatient(l, steps)
    ensures Exec(AsMeant, l, steps).Done? && Single(Exec(AsMeant, l, steps).line)
    decreases |steps|
  {
    if steps != [] {
      if Enabled(l, steps[0]) {
        match steps[0] {
          case Send(view) => SingleSend(l, view);
          case Taken(i, res) => SingleTaken(l, i, res);
          case Reads(op) => SingleReads(l, op);
        }
        SingleRun(Apply(AsMeant, l, steps[0]).line, steps[1..]);
      } else {
        SingleRun(l, steps[1..]);
      }
    }
  }

  /** With the test as meant, however the kernel splits the writes: when each send waits for the
      one before and no write fails, no assertion fails, the kernel takes the bytes given, once
      and in order, and has them all when nothing is outstanding. */
  lemma BytesArriveOnce(size: nat, steps: seq<Step>)
    requires 1 <= size <= B.INT_MAX && AllPatient(Open(size), steps)
    ensures Exec(AsMeant, Open(size), steps).Done?
    ensures var l := Exec(AsMeant, Open(size), steps).line; l.wire <= l.given && (l.requests == [] ==> l.wire == l.given)
  {
    SingleRun(Open(size), steps);
  }

  // ---------------------------------------------------------------- when the order holds

  /** Completions that report bytes taken. */
  ghost predicate Taking(steps: seq<Step>) {
    forall i :: 0 <= i < |steps| ==> steps[i].Taken? && steps[i].res >= 0
  }

  ghost predicate Orderly(o: Outcome) {
    o.Done? && o.line.wire <= o.line.given
  }

  lemma {:induction false} TakingIsPatient(l: Line, steps: seq<Step>)
    requires Inside(l) && Taking(steps)
    ensures AllPatient(l, steps)
    decreases |steps|
  {
    if steps != [] {
      if Enabled(l, steps[0]) {
        StepInside(AsMeant, l, steps[0]);
        if Apply(AsMeant, l, steps[0]).Done? { TakingIsPatient(Apply(AsMeant, l, steps[0]).line, steps[1..]); }
      } else {
        TakingIsPatient(l, steps[1..]);
      }
    }
  }

  /** Requests for no bytes, of an empty buffer, change nothing. */
  ghost predicate Idle(l: Line) {
    Inside(l) && Unread(l) == [] && l.given == l.wire && forall i :: 0 <= i < |l.requests| ==> l.requests[i] == []
  }

  lemma {:induction false} IdleRun(l: Line, steps: seq<Step>)
    requires Idle(l) && Taking(steps)
    ensures Orderly(Exec(AsMeant, l, steps))
    decreases |steps|
  {
    if steps != [] {
      if Enabled(l, steps[0]) {
        TakenExactly(AsMeant, l, steps[0].i, steps[0].res);
        IdleRun(Apply(AsMeant, l, steps[0]).line, steps[1..]);
      } else {
        IdleRun(l, steps[1..]);
      }
    }
  }

  /** The oldest request is taken whole, and the next one shows more than is left. */
  lemma Overrun(test: Test, l: Line, n: nat) returns (steps: seq<Step>)
    requires Inside(l) && |l.requests| >= 1 && |l.requests[0]| <= |Unread(l)|
    requires n <= B.INT_MAX && n > |Unread(l)| - |l.requests[0]|
    requires OnTaken(test, l, 0, |l.requests[0]|).Done? ==>
               var r := OnTaken(test, l, 0, |l.requests[0]|).line.requests; |r| > 0 && |r[0]| >= n
    ensures Taking(steps) && !Exec(test, l, steps).Done?
  {
    var a, b := Taken(0, |l.requests[0]|), Taken(0, n);
    TakenExactly(test, l, 0, |l.requests[0]|);
    First(test, l, a, [b]);
    var l1 := OnTaken(test, l, 0, |l.requests[0]|).line;
    TakenExactly(test, l1, 0, n);
    First(test, l1, b, []);
    steps := [a] + [b];
  }

  /** Two requests that show the oldest byte, the first perhaps no byte at all: then its
      completion asks for everything a second time. */
  lemma Twice(l: Line) returns (steps: seq<Step>)
    requires Inside(l) && |l.requests| == 2 && |l.requests[0]| <= |Unread(l)| && l.requests[1] == Unread(l) != []
    ensures Taking(steps) && !Exec(AsMeant, l, steps).Done?
  {
    if l.requests[0] != [] {
      TakenExactly(AsMeant, l, 0, |l.requests[0]|);
      steps := Overrun(AsMeant, l, |Unread(l)|);
    } else {
      TakenExactly(AsMeant, l, 0, 0);
      First(AsMeant, l, Taken(0, 0), []);
      var l1 := OnTaken(AsMeant, l, 0, 0).line;
      assert l1.requests == [Unread(l), Unread(l)];
      TakenExactly(AsMeant, l1, 0, |Unread(l)|);
      var rest := Overrun(AsMeant, l1, |Unread(l)|);
      First(AsMeant, l, Taken(0, 0), rest);
      steps := [Taken(0, 0)] + rest;
    }
  }

  /** As meant, a send keeps the line orderly, whatever of it the kernel then takes, exactly when
      no request is outstanding (`sendFlag_` is 0) or there is nothing to write at all. */
  lemma SendExactly(l: Line, view: seq<char>)
    requires Single(l) && Enabled(l, Send(view))
    ensures Inside(OnSend(l, view))
    ensures (forall steps | Taking(steps) :: Orderly(Exec(AsMeant, OnSend(l, view), steps)))
            <==> l.requests == [] || Unread(l) + view == []
  {
    var l' := OnSend(l, view);
    B.InputAppends(l.sendBuf, view);
    if l.requests == [] {
      SingleSend(l, view);
      forall steps | Taking(steps)
        ensures Orderly(Exec(AsMeant, l', steps))
      {
        TakingIsPatient(l', steps);
        SingleRun(l', steps);
      }
    } else if Unread(l) + view == [] {
      forall steps | Taking(steps)
        ensures Orderly(Exec(AsMeant, l', steps))
      {
        IdleRun(l', steps);
      }
    } else {
      var steps := Twice(l');
      assert !Orderly(Exec(AsMeant, l', steps));
    }
  }

  /** As meant, the line stays orderly after a completion exactly when its result is no error: the
      code passes an error on as a length, and bytes that were erased come back or the read index
      leaves the array. */
  lemma ResultExactly(l: Line, res: int)
    requires Single(l) && Enabled(l, Taken(0, res))
    ensures (forall steps | Taking(steps) :: Orderly(Exec(AsMeant, l, [Taken(0, res)] + steps))) <==> res >= 0
  {
    TakenExactly(AsMeant, l, 0, res);
    First(AsMeant, l, Taken(0, res), []);
    if res >= 0 {
      SingleTaken(l, 0, res);
      forall steps | Taking(steps)
        ensures Orderly(Exec(AsMeant, l, [Taken(0, res)] + steps))
      {
        var l1 := OnTaken(AsMeant, l, 0, res).line;
        First(AsMeant, l, Taken(0, res), steps);
        TakingIsPatient(l1, steps);
        SingleRun(l1, steps);
      }
    } else if l.sendBuf.read + res < 0 {
      assert Taking([]) && !Orderly(Exec(AsMeant, l, [Taken(0, res)] + []));
    } else {
      var steps := TooMuch(OnTaken(AsMeant, l, 0, res).line);
      First(AsMeant, l, Taken(0, res), steps);
      assert !Orderly(Exec(AsMeant, l, [Taken(0, res)] + steps));
    }
  }

  /** With old bytes back in the buffer, the kernel gets more than was ever given. */
  lemma TooMuch(l: Line) returns (steps: seq<Step>)
    requires Inside(l) && l.requests == [Unread(l)] && |l.wire| + |Unread(l)| > |l.given|
    ensures Taking(steps) && !Orderly(Exec(AsMeant, l, steps))
  {
    var n := |Unread(l)|;
    TakenExactly(AsMeant, l, 0, n);
    First(AsMeant, l, Taken(0, n), []);
    steps := [Taken(0, n)] + [];
  }

  // ---------------------------------------------------------------- the test as written

  /** Nothing is outstanding, or one request that shows all there is. */
  ghost predicate Calm(l: Line) {
    Inside(l) && l.wire <= l.given && (l.requests == [] || Single(l))
  }

  lemma {:induction false} CalmRun(l: Line, steps: seq<Step>)
    requires Calm(l) && OnLastByte(l.readBuf) && Taking(steps)
    ensures Orderly(Exec(AsWritten, l, steps))
    decreases |steps|
  {
    if steps != [] {
      if Enabled(l, steps[0]) {
        TakenExactly(AsWritten, l, steps[0].i, steps[0].res);
        WindowEmpty(l.readBuf);
        assert Unread(l) == Unread(l)[..steps[0].res] + Unread(l)[steps[0].res..];
        CalmRun(Apply(AsWritten, l, steps[0]).line, steps[1..]);
      } else {
        CalmRun(l, steps[1..]);
      }
    }
  }

  lemma WindowOverrun(l: Line) returns (steps: seq<Step>)
    requires Single(l) && l.requests != [] && !OnLastByte(l.readBuf)
    ensures Taking(steps) && !Exec(AsWritten, l, steps).Done?
  {
    TakenExactly(AsWritten, l, 0, |Unread(l)|);
    WindowEmpty(l.readBuf);
    steps := Overrun(AsWritten, l, 1);
  }

  /** As written, one outstanding request stays orderly, whatever of it the kernel takes, exactly
      when the read buffer stands on its last byte: anywhere else the completion asks for the read
      buffer's window, and erasing what is taken of that fails its assertion. */
  lemma WindowExactly(l: Line)
    requires Single(l) && l.requests != []
    ensures (forall steps | Taking(steps) :: Orderly(Exec(AsWritten, l, steps))) <==> OnLastByte(l.readBuf)
  {
    if OnLastByte(l.readBuf) {
      forall steps | Taking(steps)
        ensures Orderly(Exec(AsWritten, l, steps))
      {
        CalmRun(l, steps);
      }
    } else {
      var steps := WindowOverrun(l);
      assert !Orderly(Exec(AsWritten, l, steps));
    }
  }

  /** Completions that report bytes taken, among reads of any kind. */
  ghost predicate TakingAndReading(steps: seq<Step>) {
    forall i :: 0 <= i < |steps| ==> steps[i].Reads? || (steps[i].Taken? && steps[i].res >= 0)
  }

  lemma {:induction false} TinyRun(l: Line, steps: seq<Step>)
    requires Calm(l) && |l.readBuf.bytes| == 1 && TakingAndReading(steps)
    ensures Orderly(Exec(AsWritten, l, steps))
    decreases |steps|
  {
    if steps != [] {
      if Enabled(l, steps[0]) {
        StepInside(AsWritten, l, steps[0]);
        if steps[0].Taken? {
          TakenExactly(AsWritten, l, steps[0].i, steps[0].res);
          WindowEmpty(l.readBuf);
          assert Unread(l) == Unread(l)[..steps[0].res] + Unread(l)[steps[0].res..];
        }
        TinyRun(Apply(AsWritten, l, steps[0]).line, steps[1..]);
      } else {
        TinyRun(l, steps[1..]);
      }
    }
  }

  /** With the reading side at work in between, no outstanding request is safe, unless the read
      buffer has a single byte. */
  lemma EverySendCanFail(l: Line)
    requires Single(l) && l.requests != []
    ensures (forall steps | TakingAndReading(steps) :: Orderly(Exec(AsWritten, l, steps))) <==> |l.readBuf.bytes| == 1
  {
    if |l.readBuf.bytes| == 1 {
      forall steps | TakingAndReading(steps)
        ensures Orderly(Exec(AsWritten, l, steps))
      {
        TinyRun(l, steps);
      }
    } else {
      First(AsWritten, l, Reads(B.OpClear), []);
      var l1 := Apply(AsWritten, l, Reads(B.OpClear)).line;
      var rest := WindowOverrun(l1);
      First(AsWritten, l, Reads(B.OpClear), rest);
      var steps := [Reads(B.OpClear)] + rest;
      assert !Orderly(Exec(AsWritten, l, steps));
    }
  }

  /** On a fresh connection, as written, a send of one byte and two completions of one byte fail
      the assertion; as meant, an error result takes the read index out of the array. */
  lemma FreshExamples(size: nat, c: char, res: int)
    requires 2 <= size <= B.INT_MAX && -MAX_ERRNO <= res < 0
    ensures Exec(AsWritten, Open(size), [Send([c])] + [Taken(0, 1), Taken(0, 1)]) == AssertFailed
    ensures Exec(AsMeant, Open(size), [Send([c])] + [Taken(0, res)]) == OutOfArray
  {
    var l0 := Open(size);
    B.InputAppends(l0.sendBuf, [c]);
    SingleSend(l0, [c]);
    First(AsWritten, l0, Send([c]), [Taken(0, 1), Taken(0, 1)]);
    First(AsMeant, l0, Send([c]), [Taken(0, res)]);
    var l1 := OnSend(l0, [c]);
    assert Unread(l1) == [c];
    TakenExactly(AsMeant, l1, 0, res);
    First(AsMeant, l1, Taken(0, res), []);
    assert [Taken(0, res)] + [] == [Taken(0, res)];
    TakenExactly(AsWritten, l1, 0, 1);
    First(AsWritten, l1, Taken(0, 1), [Taken(0, 1)]);
    assert [Taken(0, 1)] + [Taken(0, 1)] == [Taken(0, 1), Taken(0, 1)];
    WindowEmpty(l1.readBuf);
    SecondTaken(OnTaken(AsWritten, l1, 0, 1).line);
  }

  lemma SecondTaken(l: Line)
    requires Inside(l) && Unread(l) == [] && |l.requests| == 1 && l.requests[0] != [] && l.sendBuf.read < B.INT_MAX
    ensures Exec(AsWritten, l, [Taken(0, 1)]) == AssertFailed
  {
    First(AsWritten, l, Taken(0, 1), []);
    assert [Taken(0, 1)] + [] == [Taken(0, 1)];
    B.EraseExactly(l.sendBuf, 1);
  }

  // ---------------------------------------------------------------- the object

  /** Drained: `reduseSend` is reached. */
  datatype Answer = Drained | Asked | Failed | OffArray

  /** The buffers of a channel, with its flag and outstanding requests. */
  class ChannelBuffers {
    const sendBuf: Buffer
    const readBuf: Buffer
    var sendFlag: int
    var requests: seq<seq<char>>
    ghost var line: Line

    ghost predicate Coupled()
      reads this, sendBuf, sendBuf.buf, readBuf, readBuf.buf
    {
      sendBuf != readBuf && sendBuf.buf != readBuf.buf && Inside(line) &&
      line.sendBuf == sendBuf.State() && line.readBuf == readBuf.State() &&
      requests == line.requests && sendFlag == |line.requests|
    }

    constructor (size: nat)
      requires 1 <= size <= B.INT_MAX
      ensures fresh(sendBuf) && fresh(sendBuf.buf) && fresh(readBuf) && fresh(readBuf.buf)
      ensures Coupled() && line == Open(size)
    {
      sendBuf := new Buffer(size);
      readBuf := new Buffer(size);
      sendFlag, requests, line := 0, [], Open(size);
    }

    /** `Channel::send` on an open channel. */
    method Send(view: seq<char>)
      requires Coupled() && Enabled(line, Step.Send(view))
      modifies this`sendFlag, this`requests, this`line, sendBuf, sendBuf.buf
      ensures Coupled() && line == OnSend(old(line), view)
      ensures requests == old(requests) + [old(B.Contents(sendBuf.State())) + view] && sendFlag == old(sendFlag) + 1
      ensures B.Contents(sendBuf.State()) == old(B.Contents(sendBuf.State())) + view
    {
      SendDoes(line, view);
      sendBuf.Input(view);
      var bufView := sendBuf.DisRead();
      requests := requests + [bufView];
      sendFlag := sendFlag + 1;
      line := OnSend(line, view);
    }

    /** The kernel stores `data` in the free window, then `alreadyRead`. */
    method AlreadyRead(data: seq<char>)
      requires Coupled() && Enabled(line, Reads(B.OpFill(data)))
      modifies this`line, readBuf`writeIndex, readBuf.buf
      ensures Coupled() && Apply(AsWritten, old(line), Reads(B.OpFill(data))) == Done(line)
      ensures B.Contents(readBuf.State()) == old(B.Contents(readBuf.State())) + data
    {
      StepInside(AsWritten, line, Reads(B.OpFill(data)));
      B.FillAppends(line.readBuf, data);
      Buffer.Copy(data, readBuf.buf, readBuf.writeIndex);
      var ok := readBuf.Already(|data|);
      line := Apply(AsWritten, line, Reads(B.OpFill(data))).line;
    }

    /** A write completion: the branch of the event loop up to the test as written. */
    method Completed(i: nat, res: int) returns (r: Answer)
      requires Coupled() && Enabled(line, Taken(i, res))
      modifies this`sendFlag, this`requests, this`line, sendBuf`readIndex, sendBuf`writeIndex
      ensures match OnTaken(AsWritten, old(line), i, res)
              case AssertFailed => r.Failed?
              case OutOfArray => r.OffArray?
              case Done(l) => Coupled() && line == l && (r == if OnLastByte(readBuf.State()) then Drained else Asked)
      ensures var unread := old(B.Contents(sendBuf.State()));
              res > |unread| || old(sendBuf.readIndex) + res < 0 ==> r.Failed? || r.OffArray?
      ensures var unread := old(B.Contents(sendBuf.State()));
              0 <= res <= |unread| ==>
                B.Valid(sendBuf.State()) && B.Contents(sendBuf.State()) == unread[res..] &&
                if readBuf.writeIndex == readBuf.buf.Length - 1
                then r == Drained && sendFlag == old(sendFlag) - 1 && requests == Without(old(requests), i)
                else r == Asked && sendFlag == old(sendFlag) &&
                     requests == Without(old(requests), i) + [readBuf.buf[readBuf.writeIndex..readBuf.buf.Length - 1]]
    {
      r := EraseWrite(i, res);
      if r.Asked? { r := Ask(); }
    }

    /** `eraseWrite`; Asked when it leaves a good buffer. */
    method EraseWrite(i: nat, res: int) returns (r: Answer)
      requires Coupled() && Enabled(line, Taken(i, res))
      modifies this`requests, this`line, sendBuf`readIndex, sendBuf`writeIndex
      ensures var b := Erased(old(line.sendBuf), res);
              if b.None? then r == Failed
              else if !B.Valid(b.value) then r == OffArray
              else r == Asked && line.sendBuf == sendBuf.State() == b.value && requests == Without(old(requests), i) &&
                   line == old(line).(sendBuf := b.value, requests := requests,
                                      wire := old(line.wire) + old(requests)[i][..if res < 0 then 0 else res])
      ensures var unread := old(B.Contents(sendBuf.State()));
              (0 <= res <= |unread| ==> r == Asked && B.Contents(sendBuf.State()) == unread[res..]) &&
              (res > |unread| || old(sendBuf.readIndex) + res < 0 ==> r != Asked)
    {
      ErasedInside(line.sendBuf, res);
      var taken := requests[i][..if res < 0 then 0 else res];
      var ok := sendBuf.EraseData(if res < 0 then res + B.SIZE_RANGE else res);
      if !ok { return Failed; }
      if sendBuf.readIndex < 0 { return OffArray; }
      requests := Without(requests, i);
      line := line.(sendBuf := sendBuf.State(), requests := requests, wire := line.wire + taken);
      r := Asked;
    }

    /** The test as written, and what follows from it. */
    method Ask() returns (r: Answer)
      requires sendBuf != readBuf && sendBuf.buf != readBuf.buf && Inside(line)
      requires line.sendBuf == sendBuf.State() && line.readBuf == readBuf.State()
      requires requests == line.requests && sendFlag == |line.requests| + 1
      modifies this`sendFlag, this`requests, this`line
      ensures Coupled() && line == AskMore(AsWritten, old(line))
      ensures r == if OnLastByte(readBuf.State()) then Drained else Asked
      ensures if readBuf.writeIndex == readBuf.buf.Length - 1
              then sendFlag == old(sendFlag) - 1 && requests == old(requests)
              else sendFlag == old(sendFlag) && requests == old(requests) + [readBuf.buf[readBuf.writeIndex..readBuf.buf.Length - 1]]
    {
      WindowEmpty(line.readBuf);
      var at, size := readBuf.DisWrite();
      if size > 0 {
        requests := requests + [readBuf.buf[at..at + size]];
        r := Asked;
      } else {
        sendFlag := sendFlag - 1;
        r := Drained;
      }
      line := AskMore(AsWritten, line);
    }
  }
}
