/** The io_uring event loop and the life cycle of its connections, as a state machine.

    A state holds what `Uring` and its `Channel`s hold (two request queues, the slot
    counter, the connection table, per channel `sendFlag_` and `closeFlag_`) together with
    what the kernel holds: the requests prepared since the last submit and the requests
    submitted and not yet completed.  Every `assert` on the table and on the flags is an
    `AssertFailed` outcome here; `RingProofs` shows that no run produces it.  What a completion
    does to the buffers of its channel, with the assertions in there, is in `Network`. */
module RingModel {
  import opened Wrappers

  type Fd = int

  datatype Kind = Read | Write

  /** A `UringRequest`; `chan` is the identity of the channel its raw pointer points to. */
  datatype Request = Request(kind: Kind, fd: Fd, chan: nat)

  /** Armed: suspended with a read pending.  Resumed: running the read callback.
      Finished: it will never ask for another read. */
  datatype Coroutine = Armed | Resumed | Finished

  datatype Chan = Chan(id: nat, sendFlag: int, closeFlag: bool, task: Coroutine)

  datatype Ring = Ring(
    queueSize: nat,
    freeNum: nat,
    recvQ: seq<Fd>,
    sendQ: seq<Fd>,
    conns: map<Fd, Chan>,
    // the kernel's side
    open: set<Fd>,                // descriptors accepted and not yet closed
    prepared: seq<Request>,       // entries taken since the last io_uring_submit
    inKernel: multiset<Request>,  // entries submitted and not yet completed
    running: Option<Fd>,          // the channel whose coroutine the loop is resuming
    // history
    requeued: nat,                // write completions that queued a further write
    born: nat,                    // channels created so far; the next identity
    closed: seq<nat>,             // identities in the order closeCb_ was called
    recvLog: seq<Fd>,             // every read request ever queued
    sendLog: seq<Fd>,             // every write request ever queued
    recvTaken: seq<Fd>,           // every read request ever prepared
    sendTaken: seq<Fd>            // every write request ever prepared
  )

  datatype Outcome = Done(ring: Ring) | AssertFailed

  datatype ReadResult = Disconnect | Empty | Data

  datatype Step =
    | AddNewFd(fd: Fd)                            // a descriptor from accept or connect
    | Send(fd: Fd)                                // Channel::send on a live channel
    | ReadDone(req: Request, result: ReadResult)  // a READ completion
    | Rearm                                       // the resumed coroutine awaits the next read
    | WriteDone(req: Request, more: bool)         // a WRITE completion
    | BeginRecv
    | BeginSend
    | Submit

  function Init(queueSize: nat): Ring
    requires queueSize >= 1
  {
    Ring(queueSize, queueSize - 1, [], [], map[], {}, [], multiset{}, None, 0, 0, [], [], [], [], [])
  }

  function QueueRead(r: Ring, fd: Fd): Ring {
    r.(recvQ := r.recvQ + [fd], recvLog := r.recvLog + [fd])
  }

  function QueueWrite(r: Ring, fd: Fd): Ring {
    r.(sendQ := r.sendQ + [fd], sendLog := r.sendLog + [fd])
  }

  function Open(r: Ring, fd: Fd): Outcome {
    if fd in r.conns then AssertFailed
    else Done(QueueRead(r.(conns := r.conns[fd := Chan(r.born, 0, false, Armed)],
                           open := r.open + {fd},
                           born := r.born + 1), fd))
  }

  /** `Channel::send`: nothing once a close was requested. */
  function SendOn(r: Ring, fd: Fd): Ring
    requires fd in r.conns
  {
    var c := r.conns[fd];
    if c.closeFlag then r
    else QueueWrite(r.(conns := r.conns[fd := c.(sendFlag := c.sendFlag + 1)]), fd)
  }

  /** `Channel::close` on the channel with identity `chan`: deferred while writes are
      outstanding, otherwise the close callback, the table entry and the descriptor go. */
  function Close(r: Ring, fd: Fd, chan: nat): Outcome {
    if fd !in r.conns || r.conns[fd].id != chan then AssertFailed
    else
      var c := r.conns[fd];
      if c.sendFlag > 0 then
        Done(r.(conns := r.conns[fd := c.(closeFlag := true, task := Finished)]))
      else
        Done(r.(conns := r.conns - {fd}, open := r.open - {fd}, closed := r.closed + [chan]))
  }

  function FreeSlot(o: Outcome): Outcome {
    if o.Done? then Done(o.ring.(freeNum := o.ring.freeNum + 1)) else o
  }

  function CompleteRead(r: Ring, req: Request, result: ReadResult): Outcome {
    var r := r.(inKernel := r.inKernel - multiset{req});
    if req.fd !in r.conns || r.conns[req.fd].id != req.chan then AssertFailed
    else if result.Data? then
      Done(r.(running := Some(req.fd),
              conns := r.conns[req.fd := r.conns[req.fd].(task := Resumed)]))
    else FreeSlot(Close(r, req.fd, req.chan))
  }

  /** The coroutine returns to `co_await`; control comes back to the event loop. */
  function FinishRead(r: Ring, fd: Fd): Outcome {
    if fd !in r.conns then AssertFailed
    else FreeSlot(Done(QueueRead(
                    r.(running := None, conns := r.conns[fd := r.conns[fd].(task := Armed)]), fd)))
  }

  /** `Channel::reduseSend`. */
  function ReduceSend(r: Ring, fd: Fd): Outcome
    requires fd in r.conns
  {
    var c := r.conns[fd];
    if c.sendFlag <= 0 then AssertFailed
    else
      var c := c.(sendFlag := c.sendFlag - 1);
      var r := r.(conns := r.conns[fd := c]);
      if c.sendFlag == 0 && c.closeFlag then Close(r, fd, c.id) else Done(r)
  }

  /** The source gives no slot back when it queues a further write. */
  function CompleteWrite(r: Ring, req: Request, more: bool): Outcome {
    var r := r.(inKernel := r.inKernel - multiset{req});
    if req.fd !in r.conns then AssertFailed
    else if more then Done(QueueWrite(r.(requeued := r.requeued + 1), req.fd))
    else FreeSlot(ReduceSend(r, req.fd))
  }

  function Min(a: nat, b: nat): nat { if a <= b then a else b }

  function Requests(kind: Kind, conns: map<Fd, Chan>, fds: seq<Fd>): seq<Request>
    requires forall i :: 0 <= i < |fds| ==> fds[i] in conns
  {
    if fds == [] then [] else
      [Request(kind, fds[0], conns[fds[0]].id)] + Requests(kind, conns, fds[1..])
  }

  function TakeReads(r: Ring): Outcome {
    var k := Min(|r.recvQ|, r.freeNum);
    if exists i :: 0 <= i < k && r.recvQ[i] !in r.conns then AssertFailed
    else Done(r.(recvQ := r.recvQ[k..], freeNum := r.freeNum - k,
                 prepared := r.prepared + Requests(Read, r.conns, r.recvQ[..k]),
                 recvTaken := r.recvTaken + r.recvQ[..k]))
  }

  function TakeWrites(r: Ring): Outcome {
    var k := Min(|r.sendQ|, r.freeNum);
    if exists i :: 0 <= i < k && r.sendQ[i] !in r.conns then AssertFailed
    else Done(r.(sendQ := r.sendQ[k..], freeNum := r.freeNum - k,
                 prepared := r.prepared + Requests(Write, r.conns, r.sendQ[..k]),
                 sendTaken := r.sendTaken + r.sendQ[..k]))
  }

  function SubmitAll(r: Ring): Ring {
    r.(inKernel := r.inKernel + multiset(r.prepared), prepared := [])
  }

  /** What the environment may do: the operating system hands out closed descriptors only,
      user code sends on live channels, the kernel completes what was submitted, and the
      event loop is one thread. */
  predicate Enabled(r: Ring, step: Step) {
    match step
    case AddNewFd(fd) => fd !in r.open
    case Send(fd) => fd in r.conns
    case ReadDone(req, _) => r.running.None? && req in r.inKernel && req.kind.Read?
    case Rearm => r.running.Some?
    case WriteDone(req, _) => r.running.None? && req in r.inKernel && req.kind.Write?
    case BeginRecv => r.running.None?
    case BeginSend => r.running.None?
    case Submit => r.running.None?
  }

  function Apply(r: Ring, step: Step): Outcome
    requires Enabled(r, step)
  {
    match step
    case AddNewFd(fd) => Open(r, fd)
    case Send(fd) => Done(SendOn(r, fd))
    case ReadDone(req, result) => CompleteRead(r, req, result)
    case Rearm => FinishRead(r, r.running.value)
    case WriteDone(req, more) => CompleteWrite(r, req, more)
    case BeginRecv => TakeReads(r)
    case BeginSend => TakeWrites(r)
    case Submit => Done(SubmitAll(r))
  }

  /** A run: any interleaving of steps.  A step that is not enabled does not happen. */
  function Exec(r: Ring, steps: seq<Step>): Outcome
    decreases |steps|
  {
    if steps == [] then Done(r)
    else if !Enabled(r, steps[0]) then Exec(r, steps[1..])
    else
      var o := Apply(r, steps[0]);
      if o.AssertFailed? then o else Exec(o.ring, steps[1..])
  }
}
