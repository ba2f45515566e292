/** Block conservation, bounds and delivery over every interleaving of the log pipeline. */
module LogProofs {
  import opened Sequences
  import opened LogModel

  // ---------------------------------------------------------------- messages in blocks

  function Msgs(blocks: seq<Block>): seq<Message> {
    if blocks == [] then [] else Msgs(blocks[..|blocks| - 1]) + blocks[|blocks| - 1].msgs
  }

  /** Batch by batch, each with its newest block first. */
  function NewestFirst(batches: seq<seq<Block>>): seq<Block> {
    if batches == [] then [] else NewestFirst(batches[..|batches| - 1]) + Reverse(batches[|batches| - 1])
  }

  lemma {:induction false} MsgsConcat(a: seq<Block>, b: seq<Block>)
    ensures Msgs(a + b) == Msgs(a) + Msgs(b)
  {
    if b == [] {
      assert a + b == a;
    } else {
      var n := |b| - 1;
      assert (a + b)[..|a + b| - 1] == a + b[..n];
      MsgsConcat(a, b[..n]);
    }
  }

  lemma {:induction false} ReverseMsgs(a: seq<Block>)
    ensures multiset(Msgs(Reverse(a))) == multiset(Msgs(a))
  {
    if a != [] {
      var n := |a| - 1;
      ReverseMsgs(a[..n]);
      MsgsConcat([a[n]], Reverse(a[..n]));
      assert Msgs([a[n]]) == Msgs([]) + a[n].msgs == a[n].msgs by { assert [a[n]][..0] == []; }
    }
  }

  lemma {:induction false} NewestFirstMsgs(batches: seq<seq<Block>>)
    ensures multiset(Msgs(NewestFirst(batches))) == multiset(Msgs(Concat(batches)))
  {
    if batches != [] {
      var n := |batches| - 1;
      NewestFirstMsgs(batches[..n]);
      ReverseMsgs(batches[n]);
      MsgsConcat(NewestFirst(batches[..n]), Reverse(batches[n]));
      MsgsConcat(Concat(batches[..n]), batches[n]);
    }
  }

  // ---------------------------------------------------------------- the invariant

  /** All blocks ever filled, oldest first. */
  function Blocks(l: Log): seq<Block> {
    Concat(l.batches) + l.ready + [l.current]
  }

  /** Every message not discarded, in block order. */
  function Kept(l: Log): seq<Message> { Msgs(Blocks(l)) }

  ghost predicate Increasing(msgs: seq<Message>) {
    forall i, j :: 0 <= i < j < |msgs| ==> msgs[i].id < msgs[j].id
  }

  ghost predicate Conserved(l: Log) {
    l.pool + 1 + |l.ready| + |l.toWrite| + (if l.inHand then 1 else 0) == BLOCK_NUM &&
    (l.phase.Waiting? ==> l.toWrite == [] && !l.inHand)
  }

  ghost predicate Numbered(appended: seq<Message>) {
    forall i :: 0 <= i < |appended| ==> appended[i].id == i
  }

  ghost predicate Delivered(l: Log) {
    Numbered(l.appended) && Increasing(Kept(l)) &&
    multiset(l.appended) == multiset(Kept(l)) + multiset(l.dropped)
  }

  ghost predicate Filed(l: Log) {
    l.file + Reverse(l.toWrite) == NewestFirst(l.batches)
  }

  /** Blocks stay in bounds, and a block that is handed on holds a message. */
  ghost predicate Filled(l: Log) {
    |Bytes(l.current)| <= BLOCK_SIZE && (l.current.msgs == [] ==> !l.current.marked) &&
    forall b <- Concat(l.batches) + l.ready :: b.msgs != [] && |Bytes(b)| <= BLOCK_SIZE
  }

  ghost predicate Inv(l: Log) {
    Conserved(l) && Delivered(l) && Filed(l) && Filled(l)
  }

  // ---------------------------------------------------------------- preservation

  lemma InitInv()
    ensures Inv(Init())
  {
    assert Blocks(Init()) == [Block(false, [])];
    assert Msgs([Block(false, [])]) == [] by { assert [Block(false, [])][..0] == []; }
  }

  lemma MsgsLast(blocks: seq<Block>, b: Block)
    ensures Msgs(blocks + [b]) == Msgs(blocks) + b.msgs
  {
    assert (blocks + [b])[..|blocks|] == blocks;
  }

  lemma BytesAppend(b: Block, m: Message)
    ensures Bytes(b.(msgs := b.msgs + [m])) == Bytes(b) + m.text
  {
    assert (b.msgs + [m])[..|b.msgs|] == b.msgs;
  }

  /** A message with the next number goes behind everything kept. */
  lemma NextNumber(kept: seq<Message>, dropped: seq<Message>, appended: seq<Message>, m: Message)
    requires Numbered(appended) && Increasing(kept) && multiset(appended) == multiset(kept) + multiset(dropped)
    requires m.id == |appended|
    ensures Increasing(kept + [m]) && Numbered(appended + [m])
    ensures multiset(appended + [m]) == multiset(kept + [m]) + multiset(dropped)
  {
    forall i | 0 <= i < |kept|
      ensures kept[i].id < m.id
    {
      assert kept[i] in multiset(appended);
      var j :| 0 <= j < |appended| && appended[j] == kept[i];
    }
  }

  /** A whole block of messages moves from the kept to the dropped ones. */
  lemma DropSuffix(front: seq<Message>, back: seq<Message>, dropped: seq<Message>, appended: seq<Message>)
    requires Increasing(front + back) && multiset(appended) == multiset(front + back) + multiset(dropped)
    ensures Increasing(front) && multiset(appended) == multiset(front) + multiset(dropped + back)
  {
    forall i, j | 0 <= i < j < |front|
      ensures front[i].id < front[j].id
    {
      assert (front + back)[i] == front[i] && (front + back)[j] == front[j];
    }
  }

  lemma ChangeFree(l: Log)
    requires Inv(l) && l.current.msgs != [] && l.pool > 0
    ensures Inv(ChangeBuf(l)) && ChangeBuf(l).current == Block(false, []) && ChangeBuf(l).appended == l.appended
  {
    var l' := ChangeBuf(l);
    var taken := Concat(l.batches) + l.ready;
    assert Concat(l.batches) + l'.ready == taken + [l.current];
    assert Blocks(l') == Blocks(l) + [Block(false, [])];
    MsgsLast(Blocks(l), Block(false, []));
    assert Kept(l') == Kept(l);
  }

  lemma ChangeFull(l: Log)
    requires Inv(l) && l.pool == 0
    ensures var l' := ChangeBuf(l);
            Conserved(l') && Delivered(l') && Filed(l') && l'.current == Block(true, []) && l'.appended == l.appended &&
            (forall b <- Concat(l'.batches) + l'.ready :: b.msgs != [] && |Bytes(b)| <= BLOCK_SIZE)
  {
    var l' := ChangeBuf(l);
    var front := Concat(l.batches) + l.ready;
    MsgsLast(front, l.current);
    MsgsLast(front, Block(true, []));
    DropSuffix(Msgs(front), l.current.msgs, l.dropped, l.appended);
    assert Kept(l') == Msgs(front);
  }

  /** Putting a message into a block that has room. */
  lemma PutKeeps(l: Log, text: string)
    requires Conserved(l) && Delivered(l) && Filed(l)
    requires forall b <- Concat(l.batches) + l.ready :: b.msgs != [] && |Bytes(b)| <= BLOCK_SIZE
    requires |Bytes(l.current)| + |text| <= BLOCK_SIZE
    ensures var m := Message(|l.appended|, text);
            Inv(l.(current := l.current.(msgs := l.current.msgs + [m]), appended := l.appended + [m]))
  {
    var m := Message(|l.appended|, text);
    PutDelivers(l, m);
    BytesAppend(l.current, m);
  }

  lemma PutDelivers(l: Log, m: Message)
    requires Delivered(l) && m.id == |l.appended|
    ensures Delivered(l.(current := l.current.(msgs := l.current.msgs + [m]), appended := l.appended + [m]))
  {
    var l' := l.(current := l.current.(msgs := l.current.msgs + [m]), appended := l.appended + [m]);
    var front := Concat(l.batches) + l.ready;
    MsgsLast(front, l.current);
    MsgsLast(front, l'.current);
    assert Kept(l') == Kept(l) + [m];
    NextNumber(Kept(l), l.dropped, l.appended, m);
  }

  lemma AppendKeeps(l: Log, text: string)
    requires Inv(l) && |text| <= MAX_APPEND
    ensures Inv(Append1(l, text))
  {
    if BLOCK_SIZE - |Bytes(l.current)| < |text| {
      if l.pool > 0 { ChangeFree(l); } else { ChangeFull(l); }
      PutKeeps(ChangeBuf(l), text);
    } else {
      PutKeeps(l, text);
    }
  }

  /** The copy stays inside the block exactly for what fits behind the notice, and, unless the
      block that fills up is overwritten, for what fits a block. */
  lemma AppendFits(l: Log, text: string)
    requires Inv(l)
    ensures CopyFits(l, text) <==>
              |text| <= MAX_APPEND || (|text| <= BLOCK_SIZE && (l.pool > 0 || |Bytes(l.current)| + |text| <= BLOCK_SIZE))
  {
    assert Bytes(Block(false, [])) == "" && |Bytes(Block(true, []))| == MARK_SIZE;
  }

  /** An append changes blocks exactly when the chunk does not fit behind what the current block
      holds and a block is free; a chunk that fits goes behind it. */
  lemma ChangesExactly(l: Log, text: string)
    requires Inv(l)
    ensures var l' := Append1(l, text);
            var full := |Bytes(l.current)| + |text| > BLOCK_SIZE;
            (l'.ready != l.ready <==> full && l.pool > 0) && (l'.pool != l.pool <==> full && l.pool > 0) &&
            (full && l.pool > 0 ==> l'.ready == l.ready + [l.current] && l'.pool == l.pool - 1) &&
            (l'.dropped != l.dropped <==> full && l.pool == 0 && l.current.msgs != []) &&
            Bytes(l'.current) == (if !full then Bytes(l.current) else if l.pool > 0 then "" else OVERFLOW_MESSAGE[..MARK_SIZE]) + text
  {
    BytesAppend(MakeRoom(l, text).current, Message(|l.appended|, text));
    assert l.ready + [l.current] != l.ready;
    assert l.current.msgs != [] ==> l.dropped + l.current.msgs != l.dropped;
    assert l.current.msgs == [] ==> l.dropped + l.current.msgs == l.dropped;
  }

  lemma SwapKeeps(l: Log)
    requires Inv(l) && Enabled(l, Swap)
    ensures SwapBuffers(l).Done? && Inv(SwapBuffers(l).log)
  {
    var l' := SwapBuffers(l).log;
    assert (l.batches + [l.ready])[..|l.batches|] == l.batches;
    assert Concat(l'.batches) + l'.ready == Concat(l.batches) + l.ready;
    assert l.file + [] == l.file;
  }

  lemma WriteKeeps(l: Log)
    requires Inv(l) && Enabled(l, WriteOne)
    ensures Inv(WriteLast(l))
  {
    var l', n := WriteLast(l), |l.toWrite| - 1;
    assert l'.file + Reverse(l'.toWrite) == l.file + ([l.toWrite[n]] + Reverse(l.toWrite[..n]));
  }

  lemma StepKeeps(l: Log, step: Step)
    requires Inv(l) && Enabled(l, step)
    ensures Apply(l, step).Done? && Inv(Apply(l, step).log)
  {
    match step
    case Append(text) => AppendKeeps(l, text);
    case Swap => SwapKeeps(l);
    case WriteOne => WriteKeeps(l);
    case Return =>
    case Finish =>
  }

  // ---------------------------------------------------------------- whole runs

  lemma {:induction false} RunKeeps(l: Log, steps: seq<Step>)
    requires Inv(l)
    ensures Exec(l, steps).Done? && Inv(Exec(l, steps).log)
    decreases |steps|
  {
    if steps != [] {
      if Enabled(l, steps[0]) {
        StepKeeps(l, steps[0]);
        RunKeeps(Apply(l, steps[0]).log, steps[1..]);
      } else {
        RunKeeps(l, steps[1..]);
      }
    }
  }

  lemma {:induction false} ExecConcat(l: Log, a: seq<Step>, b: seq<Step>)
    requires Exec(l, a).Done?
    ensures Exec(l, a + b) == Exec(Exec(l, a).log, b)
    decreases |a|
  {
    if a == [] {
      assert a + b == b;
    } else {
      assert (a + b)[1..] == a[1..] + b;
      ExecConcat(if Enabled(l, a[0]) then Apply(l, a[0]).log else l, a[1..], b);
    }
  }

  /** The states some run leads to. */
  ghost predicate Reachable(l: Log) {
    exists steps :: Exec(Init(), steps) == Done(l)
  }

  lemma ReachableStep(l: Log, step: Step)
    requires Reachable(l) && Enabled(l, step)
    ensures Conserved(l) && Apply(l, step).Done? && Reachable(Apply(l, step).log)
  {
    var past :| Exec(Init(), past) == Done(l);
    InitInv();
    RunKeeps(Init(), past);
    StepKeeps(l, step);
    ExecConcat(Init(), past, [step]);
    assert Exec(l, [step]) == Apply(l, step);
  }

  /** The blocks a message can be in before it is on disk. */
  function Buffered(l: Log): seq<Block> {
    l.toWrite + l.ready + [l.current]
  }

  lemma MsgsBag(a: seq<Block>, b: seq<Block>)
    ensures multiset(Msgs(a + b)) == multiset(Msgs(a)) + multiset(Msgs(b))
  {
    MsgsConcat(a, b);
  }

  lemma WrittenAndBuffered(l: Log)
    requires Filed(l)
    ensures multiset(Kept(l)) == multiset(Msgs(l.file)) + multiset(Msgs(Buffered(l)))
  {
    var taken, rest := Concat(l.batches), l.ready + [l.current];
    assert Blocks(l) == taken + rest && Buffered(l) == l.toWrite + rest;
    MsgsBag(taken, rest);
    MsgsBag(l.toWrite, rest);
    TakenBag(l);
  }

  lemma TakenBag(l: Log)
    requires Filed(l)
    ensures multiset(Msgs(Concat(l.batches))) == multiset(Msgs(l.file)) + multiset(Msgs(l.toWrite))
  {
    NewestFirstMsgs(l.batches);
    MsgsBag(l.file, Reverse(l.toWrite));
    ReverseMsgs(l.toWrite);
  }

  /** Over every interleaving no assertion fails and no block is lost; five blocks are always
      somewhere; what was appended is written, buffered or dropped, nothing twice; and the file
      is the batches in order, each newest block first. */
  lemma LogIsSafe(steps: seq<Step>)
    ensures var o := Exec(Init(), steps);
            o.Done? && Conserved(o.log) && |o.log.toWrite| <= BLOCK_NUM &&
            Numbered(o.log.appended) &&
            multiset(o.log.appended)
            == multiset(Msgs(o.log.file)) + multiset(Msgs(Buffered(o.log))) + multiset(o.log.dropped) &&
            o.log.file + Reverse(o.log.toWrite) == NewestFirst(o.log.batches)
  {
    InitInv();
    RunKeeps(Init(), steps);
    WrittenAndBuffered(Exec(Init(), steps).log);
  }

  /** Messages are dropped only by an append that finds the current block too full while the
      other four blocks all await the disk, and then exactly the current block's are. */
  lemma DropsOnlyWhenAllWait(l: Log, step: Step)
    requires Inv(l) && Enabled(l, step)
    ensures Apply(l, step).Done?
    ensures var l' := Apply(l, step).log;
            if step.Append? && BLOCK_SIZE - |Bytes(l.current)| < |step.text|
               && |l.ready| + |l.toWrite| + (if l.inHand then 1 else 0) == BLOCK_NUM - 1
            then l'.dropped == l.dropped + l.current.msgs && l'.current == Block(true, [Message(|l.appended|, step.text)])
            else l'.dropped == l.dropped
  {
    StepKeeps(l, step);
  }

  // ---------------------------------------------------------------- order in the file

  lemma IncreasingParts(a: seq<Message>, b: seq<Message>)
    requires Increasing(a + b)
    ensures Increasing(a) && Increasing(b) && (a != [] && b != [] ==> a[0].id < b[0].id)
  {
    var c := a + b;
    assert forall i :: 0 <= i < |a| ==> c[i] == a[i];
    assert forall i :: 0 <= i < |b| ==> c[|a| + i] == b[i];
  }

  ghost predicate NoneEmpty(blocks: seq<Block>) {
    forall i :: 0 <= i < |blocks| ==> blocks[i].msgs != []
  }

  /** The two newest blocks of a batch stand in the file in the other order. */
  lemma TwoBlocksSwap(batch: seq<Block>)
    requires |batch| >= 2 && NoneEmpty(batch) && Increasing(Msgs(batch))
    ensures !Increasing(Msgs(Reverse(batch)))
  {
    var n := |batch| - 1;
    var x, y := batch[n], batch[n - 1];
    InBatch(batch, n);
    ReverseTwo(batch);
    MsgsConcat([x, y], Reverse(batch[..n - 1]));
    MsgsPair(x, y);
    OutOfOrder(x.msgs, y.msgs, Msgs(Reverse(batch[..n - 1])));
  }

  lemma ReverseTwo(batch: seq<Block>)
    requires |batch| >= 2
    ensures Reverse(batch) == [batch[|batch| - 1], batch[|batch| - 2]] + Reverse(batch[..|batch| - 2])
  {
    var m := batch[..|batch| - 1];
    var rest := m[..|m| - 1];
    assert rest == batch[..|batch| - 2];
    PairUp(batch[|batch| - 1], m[|m| - 1], Reverse(rest));
  }

  lemma PairUp(x: Block, y: Block, tail: seq<Block>)
    ensures [x] + ([y] + tail) == [x, y] + tail
  {
  }

  lemma OutOfOrder(x: seq<Message>, y: seq<Message>, tail: seq<Message>)
    requires x != [] && y != [] && y[0].id < x[0].id
    ensures !Increasing(x + y + tail)
  {
    var r := x + y + tail;
    assert r[0] == x[0] && r[|x|] == y[0];
  }

  lemma MsgsPair(x: Block, y: Block)
    ensures Msgs([x, y]) == x.msgs + y.msgs
  {
    MsgsLast([], x);
    MsgsLast([x], y);
    assert [] + [x] == [x] && [x] + [y] == [x, y];
  }

  lemma InBatch(batch: seq<Block>, n: nat)
    requires n == |batch| - 1 && n >= 1 && NoneEmpty(batch) && Increasing(Msgs(batch))
    ensures batch[n - 1].msgs[0].id < batch[n].msgs[0].id
  {
    assert batch == batch[..n - 1] + [batch[n - 1], batch[n]];
    MsgsConcat(batch[..n - 1], [batch[n - 1], batch[n]]);
    MsgsPair(batch[n - 1], batch[n]);
    IncreasingParts(Msgs(batch[..n - 1]), batch[n - 1].msgs + batch[n].msgs);
    IncreasingParts(batch[n - 1].msgs, batch[n].msgs);
  }

  ghost predicate Small(batches: seq<seq<Block>>) {
    forall i :: 0 <= i < |batches| ==> |batches[i]| <= 1
  }

  lemma {:induction false} OrderedBatches(batches: seq<seq<Block>>)
    requires NoneEmpty(Concat(batches)) && Increasing(Msgs(Concat(batches)))
    ensures Increasing(Msgs(NewestFirst(batches))) <==> Small(batches)
  {
    if Small(batches) {
      SmallBatches(batches);
    } else {
      LastBatch(batches);
      var n := |batches| - 1;
      OrderedBatches(batches[..n]);
      LastSmall(batches);
      if |batches[n]| >= 2 { TwoBlocksSwap(batches[n]); }
      NotOrdered(batches, n);
    }
  }

  lemma LastSmall(batches: seq<seq<Block>>)
    requires batches != []
    ensures Small(batches) <==> Small(batches[..|batches| - 1]) && |batches[|batches| - 1]| <= 1
  {
  }

  lemma NotOrdered(batches: seq<seq<Block>>, n: nat)
    requires n == |batches| - 1
    requires !Increasing(Msgs(NewestFirst(batches[..n]))) || !Increasing(Msgs(Reverse(batches[n])))
    ensures !Increasing(Msgs(NewestFirst(batches)))
  {
    var a, c := Msgs(NewestFirst(batches[..n])), Msgs(Reverse(batches[n]));
    MsgsConcat(NewestFirst(batches[..n]), Reverse(batches[n]));
    NotIncreasing(a, c);
  }

  lemma NotIncreasing(a: seq<Message>, b: seq<Message>)
    ensures Increasing(a + b) ==> Increasing(a) && Increasing(b)
  {
    if Increasing(a + b) { IncreasingParts(a, b); }
  }

  /** The requirements of `OrderedBatches` hold of all batches but the last, and of the last. */
  lemma LastBatch(batches: seq<seq<Block>>)
    requires batches != [] && NoneEmpty(Concat(batches)) && Increasing(Msgs(Concat(batches)))
    ensures var n := |batches| - 1;
            NoneEmpty(Concat(batches[..n])) && Increasing(Msgs(Concat(batches[..n]))) &&
            NoneEmpty(batches[n]) && Increasing(Msgs(batches[n]))
  {
    var n := |batches| - 1;
    BlockParts(Concat(batches[..n]), batches[n]);
  }

  lemma BlockParts(a: seq<Block>, b: seq<Block>)
    requires NoneEmpty(a + b) && Increasing(Msgs(a + b))
    ensures NoneEmpty(a) && NoneEmpty(b) && Increasing(Msgs(a)) && Increasing(Msgs(b))
  {
    MsgsConcat(a, b);
    IncreasingParts(Msgs(a), Msgs(b));
    forall i | 0 <= i < |a| ensures a[i].msgs != [] { assert (a + b)[i] == a[i]; }
    forall i | 0 <= i < |b| ensures b[i].msgs != [] { assert (a + b)[|a| + i] == b[i]; }
  }

  lemma {:induction false} SmallBatches(batches: seq<seq<Block>>)
    requires Small(batches)
    ensures NewestFirst(batches) == Concat(batches)
  {
    if batches != [] {
      var n := |batches| - 1;
      SmallBatches(batches[..n]);
      assert |batches[n]| <= 1;
      assert Reverse(batches[n]) == batches[n];
    }
  }

  /** Between two flushes the file is in the order of appending exactly when no swap ever took
      more than one block. */
  lemma FileOrder(l: Log)
    requires Inv(l) && l.phase.Waiting?
    ensures Increasing(Msgs(l.file)) <==> Small(l.batches)
  {
    var taken, rest := Concat(l.batches), l.ready + [l.current];
    assert l.file + [] == l.file;
    assert Blocks(l) == taken + rest;
    MsgsConcat(taken, rest);
    IncreasingParts(Msgs(taken), Msgs(rest));
    forall i | 0 <= i < |taken|
      ensures taken[i].msgs != []
    {
      assert taken[i] in taken + l.ready;
    }
    OrderedBatches(l.batches);
  }
}
