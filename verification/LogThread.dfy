/** `LogThread` and its pool as classes over bytes; each method is proved to take the step
    `LogModel` gives for it. */
module LogPipeline {
  import opened Sequences
  import opened Wrappers
  import opened LogModel
  import opened LogProofs

  /** The bounded pool `MyQueue`; the newest element comes out first. */
  class MyQueue<T> {
    var que: seq<T>
    const maxSize: nat

    constructor (maxSize: nat)
      ensures que == [] && this.maxSize == maxSize
    {
      que, this.maxSize := [], maxSize;
    }

    method TryPop() returns (r: Option<T>)
      modifies this
      ensures if old(que) == [] then r.None? && que == [] else r.Some? && que + [r.value] == old(que)
    {
      if que == [] { return None; }
      r := Some(que[|que| - 1]);
      que := que[..|que| - 1];
    }

    method Push(x: T) returns (ok: bool)
      modifies this
      ensures ok <==> |old(que)| != maxSize
      ensures que == if ok then old(que) + [x] else old(que)
    {
      if |que| == maxSize { return false; }
      que := que + [x];
      ok := true;
    }
  }

  /** Writing a batch's newest block and returning it leaves the plan for the file as it was. */
  lemma FlushedOne(l: Log)
    requires l.toWrite != [] && ReturnBlock(WriteLast(l)).Done?
    ensures var l' := ReturnBlock(WriteLast(l)).log;
            l'.file + Reverse(l'.toWrite) == l.file + Reverse(l.toWrite) && l'.phase == l.phase && !l'.inHand &&
            l'.appended == l.appended && l'.ready == l.ready && l'.current == l.current
  {
    var n := |l.toWrite| - 1;
    assert l.file + [l.toWrite[n]] + Reverse(l.toWrite[..n]) == l.file + ([l.toWrite[n]] + Reverse(l.toWrite[..n]));
  }

  lemma OneMore(l: Log)
    requires Reachable(l) && Enabled(l, WriteOne)
    ensures ReturnBlock(WriteLast(l)).Done?
  {
    ReachableStep(l, WriteOne);
    ReachableStep(WriteLast(l), Return);
  }

  class LogThread {
    var currentBuf: string
    var currentBufIndex: nat
    const preBuf: MyQueue<string>
    var readyBuf: seq<(string, nat)>
    var bufToWrite: seq<(string, nat)>
    var reloadMes: bool
    var inHand: Option<string>
    var disk: string
    ghost var log: Log

    /** The first `n` characters of a buffer are the block. */
    static ghost predicate Holds(p: (string, nat), b: Block) {
      |p.0| == BLOCK_SIZE && p.1 <= BLOCK_SIZE && p.0[..p.1] == Bytes(b)
    }

    static ghost predicate HoldAll(ps: seq<(string, nat)>, bs: seq<Block>) {
      |ps| == |bs| && forall i :: 0 <= i < |ps| ==> Holds(ps[i], bs[i])
    }

    static function AllBytes(blocks: seq<Block>): string {
      if blocks == [] then "" else AllBytes(blocks[..|blocks| - 1]) + Bytes(blocks[|blocks| - 1])
    }

    static lemma AllBytesLast(blocks: seq<Block>, b: Block)
      ensures AllBytes(blocks + [b]) == AllBytes(blocks) + Bytes(b)
    {
      assert (blocks + [b])[..|blocks|] == blocks;
    }

    /** The fields are what the abstract state says they are. */
    ghost predicate Coupled()
      reads this, preBuf
    {
      |preBuf.que| == log.pool && CoupledButPool()
    }

    ghost predicate CoupledButPool()
      reads this, preBuf
    {
      preBuf.maxSize == BLOCK_NUM && (forall b <- preBuf.que :: |b| == BLOCK_SIZE) &&
      Holds((currentBuf, currentBufIndex), log.current) &&
      HoldAll(readyBuf, log.ready) && HoldAll(bufToWrite, log.toWrite) &&
      (inHand.Some? <==> log.inHand) && (inHand.Some? ==> |inHand.value| == BLOCK_SIZE) &&
      disk == AllBytes(log.file)
    }

    ghost predicate Valid()
      reads this, preBuf
    {
      Coupled() && Reachable(log)
    }

    constructor ()
      ensures Valid() && log == Init() && fresh(preBuf)
      ensures currentBufIndex == 0 && |preBuf.que| == BLOCK_NUM - 1 && readyBuf == bufToWrite == [] && disk == ""
    {
      var blank := seq(BLOCK_SIZE, _ => '\0');
      currentBuf, currentBufIndex := blank, 0;
      readyBuf, bufToWrite, reloadMes, inHand, disk := [], [], false, None, "";
      log := Init();
      preBuf := new MyQueue<string>(BLOCK_NUM);
      new;
      for i := 0 to BLOCK_NUM - 1
        invariant preBuf.maxSize == BLOCK_NUM && |preBuf.que| == i && forall b <- preBuf.que :: |b| == BLOCK_SIZE
        invariant currentBuf == blank && currentBufIndex == 0 && fresh(preBuf) && log == Init()
        invariant readyBuf == [] && bufToWrite == [] && inHand.None? && disk == ""
      {
        var _ := preBuf.Push(blank);
      }
      assert Exec(Init(), []) == Done(Init());
    }

    /** The room left behind what the current block holds; the assertion on it always holds. */
    method FreeSize() returns (n: int)
      requires Coupled()
      ensures n >= 0 && n + currentBufIndex == BLOCK_SIZE && currentBufIndex == |Bytes(log.current)|
    {
      n := BLOCK_SIZE - currentBufIndex;
    }

    method ChangeBuf()
      requires Coupled()
      modifies this`currentBuf, this`currentBufIndex, this`readyBuf, this`reloadMes, this`log, preBuf
      ensures Coupled() && log == LogModel.ChangeBuf(old(log))
      ensures if old(preBuf.que) != []
              then currentBufIndex == 0 && readyBuf == old(readyBuf) + [(old(currentBuf), old(currentBufIndex))] &&
                   preBuf.que + [currentBuf] == old(preBuf.que)
              else currentBuf[..currentBufIndex] == OVERFLOW_MESSAGE[..MARK_SIZE] && currentBufIndex == MARK_SIZE &&
                   readyBuf == old(readyBuf) && preBuf.que == [] && reloadMes
    {
      var buf := preBuf.TryPop();
      if buf.Some? {
        Exchange(buf.value);
      } else {
        Overwrite();
      }
    }

    /** `std::exchange` of the current block for a free one. */
    method Exchange(free: string)
      requires log.pool > 0 && |preBuf.que| == log.pool - 1 && |free| == BLOCK_SIZE
      requires CoupledButPool()
      modifies this`currentBuf, this`currentBufIndex, this`readyBuf, this`log
      ensures Coupled() && log == LogModel.ChangeBuf(old(log)) && currentBufIndex == 0 && currentBuf == free
      ensures readyBuf == old(readyBuf) + [(old(currentBuf), old(currentBufIndex))]
    {
      HoldMore(readyBuf, log.ready, (currentBuf, currentBufIndex), log.current);
      readyBuf := readyBuf + [(currentBuf, currentBufIndex)];
      currentBuf, currentBufIndex := free, 0;
      log := log.(pool := log.pool - 1, ready := log.ready + [log.current], current := Block(false, []));
    }

    static lemma HoldLess(ps: seq<(string, nat)>, bs: seq<Block>)
      requires HoldAll(ps, bs) && bs != []
      ensures HoldAll(ps[..|ps| - 1], bs[..|bs| - 1]) && Holds(ps[|ps| - 1], bs[|bs| - 1])
    {
    }

    static lemma HoldMore(ps: seq<(string, nat)>, bs: seq<Block>, p: (string, nat), b: Block)
      requires HoldAll(ps, bs) && Holds(p, b)
      ensures HoldAll(ps + [p], bs + [b])
    {
    }

    /** The notice is copied with its terminator; only its first eight characters are kept. */
    method Overwrite()
      requires Coupled() && log.pool == 0
      modifies this`currentBuf, this`currentBufIndex, this`reloadMes, this`log
      ensures Coupled() && log == LogModel.ChangeBuf(old(log)) && currentBufIndex == MARK_SIZE && reloadMes
      ensures currentBuf[..MARK_SIZE] == OVERFLOW_MESSAGE[..MARK_SIZE]
    {
      var notice := OVERFLOW_MESSAGE + "\0";
      var marked := Overlay(currentBuf, 0, notice);
      NoticePrefix(marked);
      log := log.(current := Block(true, []), dropped := log.dropped + log.current.msgs);
      currentBuf, currentBufIndex, reloadMes := marked, MARK_SIZE, true;
    }

    lemma NoticePrefix(buf: string)
      requires |buf| >= |OVERFLOW_MESSAGE| + 1 && buf[..|OVERFLOW_MESSAGE| + 1] == OVERFLOW_MESSAGE + "\0"
      ensures buf[..MARK_SIZE] == Bytes(Block(true, []))
    {
      assert buf[..MARK_SIZE] == buf[..|OVERFLOW_MESSAGE| + 1][..MARK_SIZE] == OVERFLOW_MESSAGE[..MARK_SIZE];
    }

    /** A chunk is copied whole behind what the current block holds, after a change of blocks if
        there is no room.  The answer is whether the copy stays inside; the source does not look. */
    method ApendMessage(text: string) returns (inside: bool)
      requires Coupled()
      modifies this`currentBuf, this`currentBufIndex, this`readyBuf, this`reloadMes, this`log, preBuf
      ensures inside <==> CopyFits(old(log), text)
      ensures inside ==> Coupled() && log == Append1(old(log), text)
      ensures old(currentBufIndex) + |text| <= BLOCK_SIZE ==>
                inside && readyBuf == old(readyBuf) && preBuf.que == old(preBuf.que) &&
                currentBuf[..currentBufIndex] == old(currentBuf[..currentBufIndex]) + text
      ensures old(currentBufIndex) + |text| > BLOCK_SIZE && old(preBuf.que) != [] ==>
                readyBuf == old(readyBuf) + [(old(currentBuf), old(currentBufIndex))] &&
                preBuf.que == old(preBuf.que[..|preBuf.que| - 1]) &&
                (inside <==> |text| <= BLOCK_SIZE) && (inside ==> currentBuf[..currentBufIndex] == text)
      ensures old(currentBufIndex) + |text| > BLOCK_SIZE && old(preBuf.que) == [] ==>
                readyBuf == old(readyBuf) && preBuf.que == [] && reloadMes && (inside <==> |text| <= MAX_APPEND) &&
                (inside ==> currentBuf[..currentBufIndex] == OVERFLOW_MESSAGE[..MARK_SIZE] + text)
    {
      MakeRoom(text);
      inside := CopyIn(text);
    }

    /** Other blocks when there is no room. */
    method MakeRoom(text: string)
      requires Coupled()
      modifies this`currentBuf, this`currentBufIndex, this`readyBuf, this`reloadMes, this`log, preBuf
      ensures Coupled() && log == LogModel.MakeRoom(old(log), text) && currentBufIndex == |Bytes(log.current)|
      ensures log.appended == old(log).appended
      ensures old(currentBufIndex) + |text| <= BLOCK_SIZE ==>
                readyBuf == old(readyBuf) && preBuf.que == old(preBuf.que) &&
                currentBuf == old(currentBuf) && currentBufIndex == old(currentBufIndex)
      ensures old(currentBufIndex) + |text| > BLOCK_SIZE && old(preBuf.que) != [] ==>
                readyBuf == old(readyBuf) + [(old(currentBuf), old(currentBufIndex))] && currentBufIndex == 0 &&
                preBuf.que == old(preBuf.que[..|preBuf.que| - 1])
      ensures old(currentBufIndex) + |text| > BLOCK_SIZE && old(preBuf.que) == [] ==>
                readyBuf == old(readyBuf) && preBuf.que == [] && reloadMes && currentBufIndex == MARK_SIZE &&
                currentBuf[..currentBufIndex] == OVERFLOW_MESSAGE[..MARK_SIZE]
    {
      var temp := FreeSize();
      assert temp >= 0;
      if temp < |text| {
        ChangeBuf();
      }
    }

    method CopyIn(text: string) returns (inside: bool)
      requires Coupled()
      modifies this`currentBuf, this`currentBufIndex, this`log
      ensures inside <==> old(currentBufIndex) + |text| <= BLOCK_SIZE
      ensures var m := Message(|old(log).appended|, text);
              inside ==> Coupled() && currentBuf[..currentBufIndex] == old(currentBuf[..currentBufIndex]) + text &&
                         log == old(log).(current := old(log).current.(msgs := old(log).current.msgs + [m]),
                                          appended := old(log).appended + [m])
    {
      if currentBufIndex + |text| > BLOCK_SIZE { return false; }
      Put(text);
      inside := true;
    }

    method Put(text: string)
      requires Coupled() && currentBufIndex + |text| <= BLOCK_SIZE
      modifies this`currentBuf, this`currentBufIndex, this`log
      ensures var m := Message(|old(log).appended|, text);
              Coupled() && log == old(log).(current := old(log).current.(msgs := old(log).current.msgs + [m]),
                                            appended := old(log).appended + [m])
      ensures currentBufIndex == old(currentBufIndex) + |text|
      ensures currentBuf[..currentBufIndex] == old(currentBuf[..currentBufIndex]) + text
    {
      ghost var b, m := log.current, Message(|log.appended|, text);
      currentBuf := Overlay(currentBuf, currentBufIndex, text);
      currentBufIndex := currentBufIndex + |text|;
      BytesAppend(b, m);
      log := log.(current := b.(msgs := b.msgs + [m]), appended := log.appended + [m]);
    }

    /** What the log thread does under the lock once something is ready. */
    method SwapBuffers()
      requires Valid() && Enabled(log, Swap)
      modifies this`bufToWrite, this`readyBuf, this`log
      ensures Valid() && LogModel.SwapBuffers(old(log)) == Done(log)
      ensures old(bufToWrite) == [] && bufToWrite == old(readyBuf) && |bufToWrite| <= BLOCK_NUM && readyBuf == []
    {
      ReachableStep(log, Swap);
      assert bufToWrite == [];
      bufToWrite, readyBuf := readyBuf, bufToWrite;
      assert |bufToWrite| <= BLOCK_NUM;
      log := LogModel.SwapBuffers(log).log;
    }

    /** One round of `flushToFile`: the newest block goes to disk, then back to the pool. */
    method FlushOne()
      requires Valid() && Enabled(log, WriteOne)
      modifies this`bufToWrite, this`disk, this`inHand, this`log, preBuf
      ensures Valid() && ReturnBlock(WriteLast(old(log))) == Done(log)
      ensures bufToWrite == old(bufToWrite[..|bufToWrite| - 1])
      ensures var (block, size) := old(bufToWrite[|bufToWrite| - 1]);
              disk == old(disk) + block[..size] && preBuf.que == old(preBuf.que) + [block]
    {
      WriteBack();
      GiveBack();
    }

    static lemma WriteStep(l: Log)
      requires Reachable(l) && Enabled(l, WriteOne)
      ensures Reachable(WriteLast(l))
      ensures AllBytes(WriteLast(l).file) == AllBytes(l.file) + Bytes(l.toWrite[|l.toWrite| - 1])
    {
      ReachableStep(l, WriteOne);
      AllBytesLast(l.file, l.toWrite[|l.toWrite| - 1]);
    }

    /** The newest block leaves the list, and what it holds goes to the end of the file. */
    method WriteNewest()
      requires bufToWrite != [] && bufToWrite[|bufToWrite| - 1].1 <= |bufToWrite[|bufToWrite| - 1].0|
      modifies this`bufToWrite, this`disk, this`inHand
      ensures bufToWrite == old(bufToWrite[..|bufToWrite| - 1])
      ensures var (block, size) := old(bufToWrite[|bufToWrite| - 1]);
              disk == old(disk) + block[..size] && inHand == Some(block)
    {
      var n := |bufToWrite| - 1;
      var temp := bufToWrite[n];
      bufToWrite := bufToWrite[..n];
      disk := disk + temp.0[..temp.1];
      inHand := Some(temp.0);
    }

    method WriteBack()
      requires Valid() && Enabled(log, WriteOne)
      modifies this`bufToWrite, this`disk, this`inHand, this`log
      ensures Valid() && log == WriteLast(old(log))
      ensures bufToWrite == old(bufToWrite[..|bufToWrite| - 1])
      ensures var (block, size) := old(bufToWrite[|bufToWrite| - 1]);
              disk == old(disk) + block[..size] && inHand == Some(block)
    {
      WriteStep(log);
      HoldLess(bufToWrite, log.toWrite);
      WriteNewest();
      log := WriteLast(log);
    }

    method GiveBack()
      requires Valid() && Enabled(log, Return)
      modifies this`inHand, this`log, preBuf
      ensures Valid() && ReturnBlock(old(log)) == Done(log)
      ensures preBuf.que == old(preBuf.que) + [old(inHand).value]
    {
      ReachableStep(log, Return);
      var ok := preBuf.Push(inHand.value);
      assert ok;
      inHand := None;
      log := ReturnBlock(log).log;
    }

    /** `flushToFile`, alone: every waiting block is written, the newest first. */
    method FlushToFile()
      requires Valid() && log.phase.Flushing? && !log.inHand
      modifies this`bufToWrite, this`disk, this`inHand, this`log, preBuf
      ensures Valid() && bufToWrite == [] && log.phase.Flushing? && !log.inHand
      ensures |preBuf.que| == |old(preBuf.que)| + |old(bufToWrite)|
      ensures log.file == old(log.file) + Reverse(old(log.toWrite))
      ensures log.appended == old(log.appended) && log.ready == old(log.ready) && log.current == old(log.current)
    {
      while bufToWrite != []
        invariant Valid() && log.phase.Flushing? && !log.inHand
        invariant |preBuf.que| + |bufToWrite| == |old(preBuf.que)| + |old(bufToWrite)|
        invariant log.file + Reverse(log.toWrite) == old(log.file) + Reverse(old(log.toWrite))
        invariant log.appended == old(log.appended) && log.ready == old(log.ready) && log.current == old(log.current)
        decreases |bufToWrite|
      {
        OneMore(log);
        FlushedOne(log);
        FlushOne();
      }
      assert log.file + [] == log.file;
    }

    /** One round of `logLoop` once something is ready, alone. */
    method LogRound()
      requires Valid() && Enabled(log, Swap)
      modifies this`readyBuf, this`bufToWrite, this`disk, this`inHand, this`log, preBuf
      ensures Valid() && log.phase.Waiting? && readyBuf == [] && bufToWrite == []
      ensures |preBuf.que| == |old(preBuf.que)| + |old(readyBuf)|
      ensures log.file == old(log.file) + Reverse(old(log.ready)) && log.current == old(log.current)
    {
      ReachableStep(log, Swap);
      SwapBuffers();
      FlushToFile();
      EndRound();
    }

    ghost method EndRound()
      requires Valid() && Enabled(log, Finish)
      modifies this`log
      ensures Valid() && log == old(log).(phase := Waiting)
    {
      ReachableStep(log, Finish);
      log := log.(phase := Waiting);
    }
  }
}
