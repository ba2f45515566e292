/** The asynchronous log pipeline as a state machine: producers append to a current block, full
    blocks wait in a ready list, the log thread swaps that list, writes its blocks to disk and
    returns them to a bounded pool. */
module LogModel {

  const BUFFER_SIZE := 10 * 1024
  const HEAD_LEVEL := BUFFER_SIZE - 3
  const LOW_LEVEL := BUFFER_SIZE - 256
  const BLOCK_SIZE := 100 * 1024
  const BLOCK_NUM := 5
  /** The longest chunk a log stream hands over. */
  const MAX_CHUNK := HEAD_LEVEL + 2

  const OVERFLOW_MESSAGE := "LOG FATAL: buf over flow!\n"
  /** The source keeps `sizeof` a pointer of the notice. */
  const MARK_SIZE := 8
  /** The most that fits behind the notice; `apendMessage` itself does not look. */
  const MAX_APPEND := BLOCK_SIZE - MARK_SIZE

  /** A message with its number in the order of appending. */
  datatype Message = Message(id: nat, text: string)

  /** A block: whether it starts with the overflow notice, and the messages in it. */
  datatype Block = Block(marked: bool, msgs: seq<Message>)

  datatype Phase = Waiting | Flushing

  datatype Log = Log(
    pool: nat,              // free blocks
    current: Block,
    ready: seq<Block>,
    toWrite: seq<Block>,
    inHand: bool,           // a block written and not yet returned to the pool
    phase: Phase,
    file: seq<Block>,       // blocks in the order they were written
    // history
    appended: seq<Message>,
    dropped: seq<Message>,
    batches: seq<seq<Block>> // what each swap took
  )

  datatype Outcome = Done(log: Log) | AssertFailed | BlockLost

  datatype Step = Append(text: string) | Swap | WriteOne | Return | Finish

  function Text(msgs: seq<Message>): string {
    if msgs == [] then "" else Text(msgs[..|msgs| - 1]) + msgs[|msgs| - 1].text
  }

  function Bytes(b: Block): string {
    (if b.marked then OVERFLOW_MESSAGE[..MARK_SIZE] else "") + Text(b.msgs)
  }

  function Init(): Log {
    Log(BLOCK_NUM - 1, Block(false, []), [], [], false, Waiting, [], [], [], [])
  }

  /** `changeBuf`: take a free block, or overwrite the current one when there is none. */
  function ChangeBuf(l: Log): Log {
    if l.pool > 0 then
      l.(pool := l.pool - 1, ready := l.ready + [l.current], current := Block(false, []))
    else
      l.(current := Block(true, []), dropped := l.dropped + l.current.msgs)
  }

  /** `apendMessage` up to the copy: other blocks when there is no room. */
  function MakeRoom(l: Log, text: string): Log {
    if BLOCK_SIZE - |Bytes(l.current)| < |text| then ChangeBuf(l) else l
  }

  /** The copy stays inside the block. */
  predicate CopyFits(l: Log, text: string) {
    |Bytes(MakeRoom(l, text).current)| + |text| <= BLOCK_SIZE
  }

  function Append1(l: Log, text: string): Log {
    var m := Message(|l.appended|, text);
    var l := MakeRoom(l, text);
    l.(current := l.current.(msgs := l.current.msgs + [m]), appended := l.appended + [m])
  }

  function SwapBuffers(l: Log): Outcome {
    if l.toWrite != [] then AssertFailed
    else if |l.ready| > BLOCK_NUM then AssertFailed
    else Done(l.(toWrite := l.ready, ready := [], phase := Flushing, batches := l.batches + [l.ready]))
  }

  function WriteLast(l: Log): Log
    requires l.toWrite != []
  {
    var n := |l.toWrite| - 1;
    l.(toWrite := l.toWrite[..n], file := l.file + [l.toWrite[n]], inHand := true)
  }

  /** The pool holds at most `BLOCK_NUM` blocks; a block pushed beyond that is gone. */
  function ReturnBlock(l: Log): Outcome {
    if l.pool == BLOCK_NUM then BlockLost else Done(l.(pool := l.pool + 1, inHand := false))
  }

  /** Producers append at any time; the log thread waits, swaps, then writes and returns one
      block after the other. */
  predicate Enabled(l: Log, step: Step) {
    match step
    case Append(text) => |text| <= MAX_APPEND
    case Swap => l.phase.Waiting? && l.ready != []
    case WriteOne => l.phase.Flushing? && l.toWrite != [] && !l.inHand
    case Return => l.inHand
    case Finish => l.phase.Flushing? && l.toWrite == [] && !l.inHand
  }

  function Apply(l: Log, step: Step): Outcome
    requires Enabled(l, step)
  {
    match step
    case Append(text) => Done(Append1(l, text))
    case Swap => SwapBuffers(l)
    case WriteOne => Done(WriteLast(l))
    case Return => ReturnBlock(l)
    case Finish => Done(l.(phase := Waiting))
  }

  function Exec(l: Log, steps: seq<Step>): Outcome
    decreases |steps|
  {
    if steps == [] then Done(l)
    else if !Enabled(l, steps[0]) then Exec(l, steps[1..])
    else
      var o := Apply(l, steps[0]);
      if o.Done? then Exec(o.log, steps[1..]) else o
  }
}
