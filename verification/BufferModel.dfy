/** The growing read and write buffer: an array with two indices, against a queue of bytes. */
module BufferModel {
  import opened Sequences
  import opened Wrappers

  const INT_MAX := 0x7fff_ffff
  const INT_RANGE := 0x1_0000_0000
  const SIZE_RANGE := 0x1_0000_0000_0000_0000

  datatype Buf = Buf(bytes: seq<char>, write: int, read: int)

  function Init(size: nat): Buf {
    Buf(seq(size, _ => '\0'), 0, 0)
  }

  ghost predicate Valid(b: Buf) {
    0 <= b.read <= b.write <= |b.bytes| <= INT_MAX
  }

  function Contents(b: Buf): seq<char>
    requires Valid(b)
  {
    b.bytes[b.read..b.write]
  }

  /** A value stored into, or cast to, a 32-bit int. */
  function ToInt(n: int): (r: int)
    ensures -INT_MAX - 1 <= r <= INT_MAX && (r - n) % INT_RANGE == 0
  {
    var m := n % INT_RANGE;
    if m > INT_MAX then m - INT_RANGE else m
  }

  // ---------------------------------------------------------------- input

  /** The grown buffer: room for the bytes carried over and exactly the new ones behind them. */
  function Grown(b: Buf, extra: nat): Buf
    requires Valid(b)
  {
    Buf(Contents(b) + seq(extra, _ => '\0'), |Contents(b)|, 0)
  }

  /** As written the write index is set to the new size, behind the room for the new bytes. */
  function GrownAsWritten(b: Buf, extra: nat): Buf
    requires Valid(b)
  {
    var g := Grown(b, extra);
    g.(write := |g.bytes|)
  }

  /** The copy to the write index; None when it would leave the array. */
  function CopyIn(b: Buf, view: seq<char>): Option<Buf>
    requires 0 <= b.write
  {
    if b.write + |view| > |b.bytes| then None
    else Some(b.(bytes := Overlay(b.bytes, b.write, view), write := b.write + |view|))
  }

  function Input(b: Buf, view: seq<char>): Option<Buf>
    requires Valid(b)
  {
    CopyIn(if |view| > |b.bytes| - b.write then Grown(b, |view|) else b, view)
  }

  function InputAsWritten(b: Buf, view: seq<char>): Option<Buf>
    requires Valid(b)
  {
    CopyIn(if |view| > |b.bytes| - b.write then GrownAsWritten(b, |view|) else b, view)
  }

  /** Whether it grows or not, `input` stays inside the array and appends. */
  lemma InputAppends(b: Buf, view: seq<char>)
    requires Valid(b) && |Contents(b)| + |view| <= INT_MAX
    ensures Input(b, view).Some?
    ensures var r := Input(b, view).value; Valid(r) && Contents(r) == Contents(b) + view
  {
    var g := if |view| > |b.bytes| - b.write then Grown(b, |view|) else b;
    var r := Input(b, view).value;
    assert Contents(g) == Contents(b);
    assert Contents(r) == r.bytes[..g.write + |view|][g.read..];
  }

  /** As written it does so exactly when it need not grow. */
  lemma AsWrittenExactly(b: Buf, view: seq<char>)
    requires Valid(b) && |Contents(b)| + |view| <= INT_MAX
    ensures InputAsWritten(b, view).Some? <==> |view| <= |b.bytes| - b.write
    ensures InputAsWritten(b, view) == Input(b, view) <==> |view| <= |b.bytes| - b.write
  {
    InputAppends(b, view);
  }

  // ---------------------------------------------------------------- the free window

  /** Offset and length of the free window; the length is computed in 64 unsigned bits. */
  function DisWrite(b: Buf): (nat, nat)
    requires Valid(b)
  {
    (b.write, (|b.bytes| - b.write - 1) % SIZE_RANGE)
  }

  /** The window lies in the array, with one byte to spare, exactly when the array is not full;
      the assertion in the source, that the unsigned length is not negative, always holds. */
  lemma WindowInside(b: Buf)
    requires Valid(b)
    ensures var (at, size) := DisWrite(b); at + size < |b.bytes| <==> b.write < |b.bytes|
  {
    if b.write < |b.bytes| { WrapSmall(|b.bytes| - b.write - 1); } else { assert (-1) % SIZE_RANGE == SIZE_RANGE - 1; }
  }

  lemma WrapSmall(n: int)
    ensures 0 <= n < SIZE_RANGE ==> n % SIZE_RANGE == n
    ensures -INT_MAX - 1 <= n < 0 ==> n % SIZE_RANGE > INT_MAX
  {
    if -INT_MAX - 1 <= n < 0 { assert (n + SIZE_RANGE) % SIZE_RANGE == n + SIZE_RANGE; }
  }

  /** Growing fills the array to its last byte: the next window is outside it. */
  lemma FullAfterGrowth(b: Buf, view: seq<char>)
    requires Valid(b) && |Contents(b)| + |view| <= INT_MAX
    ensures var r := Input(b, view).value;
            |view| >= |b.bytes| - b.write <==> Input(b, view).Some? && Valid(r) && r.write == |r.bytes|
  {
    InputAppends(b, view);
  }

  // ---------------------------------------------------------------- erase and already

  /** None is a failed assertion.  The sum of the read index and the cast length is one of two
      ints; where it overflows, which C++ leaves undefined, it is taken to wrap around. */
  function EraseData(b: Buf, len: nat): Option<Buf> {
    var sum := ToInt(b.read + ToInt(len));
    if sum > b.write then None
    else if sum == b.write then Some(b.(read := 0, write := 0))
    else Some(b.(read := ToInt(b.read + len)))
  }

  function Already(b: Buf, len: nat): Option<Buf> {
    var w := ToInt(b.write + len);
    if w % SIZE_RANGE < |b.bytes| then Some(b.(write := w)) else None
  }

  /** Erasing drops a prefix, or fails when there is less. */
  ghost predicate ErasesPrefix(b: Buf, len: nat, r: Option<Buf>)
    requires Valid(b)
  {
    if len <= |Contents(b)| then r.Some? && Valid(r.value) && Contents(r.value) == Contents(b)[len..] else r.None?
  }

  /** It does, exactly unless the erased end does not fit an int and the assertion passes on what
      wrapping leaves of it. */
  lemma EraseExactly(b: Buf, len: nat)
    requires Valid(b)
    ensures ErasesPrefix(b, len, EraseData(b, len)) <==> b.read + len <= INT_MAX || ToInt(b.read + len) > b.write
  {
    ToIntOnce(b.read, len);
    if b.read + len <= INT_MAX { assert ToInt(b.read + len) == b.read + len; }
  }

  lemma ToIntOnce(a: int, n: int)
    ensures ToInt(a + ToInt(n)) == ToInt(a + n)
  {
    assert (a + ToInt(n)) % INT_RANGE == (a + n) % INT_RANGE;
  }

  /** The cast fails at 2^32: nothing is erased, and no assertion says so; the sum overflows
      already at a length that fits, and the read index ends before the array. */
  lemma EraseExamples(b: Buf)
    requires Valid(b) && b.read == 10 && b.write == 20
    ensures EraseData(b, INT_RANGE) == Some(b) && !ErasesPrefix(b, INT_RANGE, EraseData(b, INT_RANGE))
    ensures EraseData(b, INT_MAX) == Some(b.(read := 9 - INT_MAX - 1)) && !ErasesPrefix(b, INT_MAX, EraseData(b, INT_MAX))
  {
  }

  /** A negative result of the kernel, passed on as a length, always passes the assertion and
      moves the read index back. */
  lemma EraseNegative(b: Buf, res: int)
    requires Valid(b) && -INT_MAX <= res < 0
    ensures EraseData(b, res + SIZE_RANGE) == Some(b.(read := b.read + res))
  {
    ToIntOnce(b.read, res + SIZE_RANGE);
    assert (b.read + res + SIZE_RANGE) % INT_RANGE == (b.read + res) % INT_RANGE;
  }

  /** Marking bytes as written moves the write index, or fails when the array would be full. */
  ghost predicate Marks(b: Buf, len: nat, r: Option<Buf>) {
    if b.write + len < |b.bytes| then r == Some(b.(write := b.write + len)) else r.None?
  }

  lemma AlreadyExactly(b: Buf, len: nat)
    requires Valid(b)
    ensures Marks(b, len, Already(b, len)) <==>
              b.write + len < |b.bytes| || ToInt(b.write + len) % SIZE_RANGE >= |b.bytes|
  {
    if b.write + len < |b.bytes| {
      assert ToInt(b.write + len) == b.write + len;
      WrapSmall(b.write + len);
    }
  }

  // ---------------------------------------------------------------- every sequence of operations

  /** Fill is the bytes some other party stores at the start of the free window, then `already`. */
  datatype Op = OpInput(view: seq<char>) | OpFill(data: seq<char>) | OpErase(len: nat) | OpClear

  /** The queue: all bytes ever added, and how many of them are erased. */
  datatype Queue = Queue(added: seq<char>, erased: nat)

  ghost predicate Proper(q: Queue) {
    q.erased <= |q.added|
  }

  function Rest(q: Queue): seq<char>
    requires Proper(q)
  {
    q.added[q.erased..]
  }

  function Apply(b: Buf, op: Op): Option<Buf>
    requires Valid(b)
  {
    match op
    case OpInput(view) => Input(b, view)
    case OpFill(data) =>
      if b.write + |data| > |b.bytes| then None
      else Already(b.(bytes := Overlay(b.bytes, b.write, data)), |data|)
    case OpErase(len) => EraseData(b, len)
    case OpClear => Some(b.(write := 0, read := 0))
  }

  function ApplyQueue(q: Queue, op: Op): Queue {
    match op
    case OpInput(view) => q.(added := q.added + view)
    case OpFill(data) => q.(added := q.added + data)
    case OpErase(len) => q.(erased := q.erased + len)
    case OpClear => q.(erased := |q.added|)
  }

  /** What a caller must keep to: contents that an int can index, no more bytes filled in than the
      window offered, no more erased than there are. */
  ghost predicate Allowed(b: Buf, op: Op)
    requires Valid(b)
  {
    match op
    case OpInput(view) => |Contents(b)| + |view| <= INT_MAX
    case OpFill(data) => b.write < |b.bytes| && |data| <= DisWrite(b).1
    case OpErase(len) => len <= |Contents(b)|
    case OpClear => true
  }

  lemma OpRefines(b: Buf, q: Queue, op: Op)
    requires Valid(b) && Allowed(b, op) && Proper(q) && Contents(b) == Rest(q)
    ensures Apply(b, op).Some?
    ensures var r, p := Apply(b, op).value, ApplyQueue(q, op); Valid(r) && Proper(p) && Contents(r) == Rest(p)
  {
    match op
    case OpInput(view) => InputAppends(b, view);
    case OpFill(data) => FillAppends(b, data);
    case OpErase(len) => EraseExactly(b, len);
    case OpClear =>
  }

  lemma FillAppends(b: Buf, data: seq<char>)
    requires Valid(b) && Allowed(b, OpFill(data))
    ensures Apply(b, OpFill(data)).Some?
    ensures var r := Apply(b, OpFill(data)).value; Valid(r) && Contents(r) == Contents(b) + data
  {
    WrapSmall(|b.bytes| - b.write - 1);
    var f := b.(bytes := Overlay(b.bytes, b.write, data));
    AlreadyExactly(f, |data|);
    assert f.bytes[b.read..b.write + |data|] == f.bytes[..b.write + |data|][b.read..];
  }

  /** The run of a caller that keeps to the rules; None where it does not, or an assertion fails. */
  ghost function Run(b: Buf, ops: seq<Op>): Option<Buf>
    requires Valid(b)
    decreases |ops|
  {
    if ops == [] then Some(b)
    else
      var r := Apply(b, ops[0]);
      if r.None? || !Valid(r.value) then None else Run(r.value, ops[1..])
  }

  ghost predicate AllAllowed(b: Buf, ops: seq<Op>)
    requires Valid(b)
    decreases |ops|
  {
    if ops == [] then true
    else
      var r := Apply(b, ops[0]);
      Allowed(b, ops[0]) && (r.Some? && Valid(r.value) ==> AllAllowed(r.value, ops[1..]))
  }

  function RunQueue(q: Queue, ops: seq<Op>): Queue
    decreases |ops|
  {
    if ops == [] then q else RunQueue(ApplyQueue(q, ops[0]), ops[1..])
  }

  lemma {:induction false} RunRefines(b: Buf, q: Queue, ops: seq<Op>)
    requires Valid(b) && AllAllowed(b, ops) && Proper(q) && Contents(b) == Rest(q)
    ensures Run(b, ops).Some?
    ensures var r, p := Run(b, ops).value, RunQueue(q, ops); Valid(r) && Proper(p) && Contents(r) == Rest(p)
    decreases |ops|
  {
    if ops != [] {
      OpRefines(b, q, ops[0]);
      RunRefines(Apply(b, ops[0]).value, ApplyQueue(q, ops[0]), ops[1..]);
    }
  }

  /** For every sequence of operations of such a caller, whatever the buffer grew to: no assertion
      fails, no copy leaves the array, and what can be read is the bytes added minus the prefix
      erased. */
  lemma RefinesQueue(size: nat, ops: seq<Op>)
    requires size <= INT_MAX && AllAllowed(Init(size), ops)
    ensures Run(Init(size), ops).Some?
    ensures var r, p := Run(Init(size), ops).value, RunQueue(Queue([], 0), ops);
            Valid(r) && Proper(p) && Contents(r) == p.added[p.erased..]
  {
    RunRefines(Init(size), Queue([], 0), ops);
  }

  /** A buffer that is only filled through its window, never by `input`, keeps its size and never
      gets full, so every window it offers lies inside. */
  lemma {:induction false} FilledStaysOpen(b: Buf, ops: seq<Op>)
    requires Valid(b) && b.write < |b.bytes| && AllAllowed(b, ops)
    requires forall i :: 0 <= i < |ops| ==> !ops[i].OpInput?
    ensures Run(b, ops).Some?
    ensures var r := Run(b, ops).value;
            |r.bytes| == |b.bytes| && Valid(r) && DisWrite(r).0 + DisWrite(r).1 < |r.bytes|
    decreases |ops|
  {
    if ops == [] {
      WindowInside(b);
    } else {
      OpRefines(b, Queue(Contents(b), 0), ops[0]);
      FillKeepsOpen(b, ops[0]);
      FilledStaysOpen(Apply(b, ops[0]).value, ops[1..]);
    }
  }

  lemma FillKeepsOpen(b: Buf, op: Op)
    requires Valid(b) && b.write < |b.bytes| && Allowed(b, op) && !op.OpInput?
    ensures Apply(b, op).Some? ==>
              Apply(b, op).value.write < |b.bytes| && |Apply(b, op).value.bytes| == |b.bytes|
  {
    if op.OpFill? {
      WrapSmall(|b.bytes| - b.write - 1);
      AlreadyExactly(b.(bytes := Overlay(b.bytes, b.write, op.data)), |op.data|);
    }
  }
}
