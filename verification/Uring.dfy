/** `Uring` and `Channel` as classes whose methods change their fields the way the source
    does, each proved to take exactly the step `RingModel` gives for it. */
module UringLoop {
  import opened Wrappers
  import opened RingModel
  import opened RingProofs
  import opened RingRounds

  class Channel {
    const fd: Fd
    const uring: Uring
    ghost const id: nat
    var sendFlag: int
    var closeFlag: bool
    ghost var task: Coroutine

    constructor (fd: Fd, uring: Uring, ghost id: nat)
      ensures this.fd == fd && this.uring == uring && Snap() == Chan(id, 0, false, Armed)
    {
      this.fd, this.uring, this.id := fd, uring, id;
      sendFlag, closeFlag, task := 0, false, Armed;
    }

    ghost function Snap(): Chan
      reads this
    {
      Chan(id, sendFlag, closeFlag, task)
    }

    /** On a channel of the table. */
    ghost predicate Attached()
      reads this, uring, uring.connections.Values
    {
      uring.Coupled() && fd in uring.connections && uring.connections[fd] == this
    }

    /** Changing this channel changes one entry of the table. */
    lemma OnlyMine(before: map<Fd, Chan>)
      requires uring.Linked() && fd in uring.connections && uring.connections[fd] == this
      requires before.Keys == uring.connections.Keys
      requires forall f <- uring.connections :: f != fd ==> before[f] == uring.connections[f].Snap()
      ensures uring.Snaps() == before[fd := Snap()]
    {
    }

    method Send()
      requires Attached()
      modifies this`sendFlag, uring`sendQue, uring`ring
      ensures Attached() && uring.ring == SendOn(old(uring.ring), fd)
      ensures sendFlag == old(sendFlag) + (if closeFlag then 0 else 1)
      ensures uring.sendQue == old(uring.sendQue) + (if closeFlag then [] else [fd])
    {
      if closeFlag { return; }
      uring.AddWriteRequest(fd);
      sendFlag := sendFlag + 1;
      uring.ring := SendOn(uring.ring, fd);
      OnlyMine(old(uring.Snaps()));
    }

    method Close()
      requires Attached()
      modifies this`closeFlag, this`task, uring`connections, uring`ring
      ensures uring.Coupled() && RingModel.Close(old(uring.ring), fd, id) == Done(uring.ring)
      ensures closeFlag == (old(closeFlag) || sendFlag > 0)
      ensures uring.connections == old(uring.connections) - if old(sendFlag) > 0 then {} else {fd}
    {
      uring.ring := RingModel.Close(uring.ring, fd, id).ring;
      if sendFlag > 0 {
        closeFlag := true;
        task := Finished;
        OnlyMine(old(uring.Snaps()));
        return;
      }
      uring.RemoveFd(this);
    }

    method ReduceSend()
      requires Attached() && sendFlag > 0
      modifies this, uring`connections, uring`ring
      ensures uring.Coupled() && RingModel.ReduceSend(old(uring.ring), fd) == Done(uring.ring)
      ensures sendFlag == old(sendFlag) - 1 && closeFlag == old(closeFlag)
      ensures uring.connections == old(uring.connections) - if old(sendFlag) == 1 && old(closeFlag) then {fd} else {}
    {
      ghost var before := uring.ring;
      sendFlag := sendFlag - 1;
      uring.ring := before.(conns := before.conns[fd := Snap()]);
      OnlyMine(old(uring.Snaps()));
      if sendFlag == 0 && closeFlag {
        Close();
      }
    }
  }

  class Uring {
    const queueSize: nat
    var freeNum: nat
    var recvQue: seq<Fd>
    var sendQue: seq<Fd>
    var connections: map<Fd, Channel>
    ghost var prepared: seq<Request>  // the submission entries filled in since the last submit
    ghost var ring: Ring              // the abstract state, with the kernel's side and the history

    ghost function Snaps(): map<Fd, Chan>
      reads this`connections, connections.Values
    {
      map fd | fd in connections :: connections[fd].Snap()
    }

    /** Each channel of the table stands at its own descriptor. */
    ghost predicate Linked()
      reads this`connections, connections.Values
    {
      forall fd <- connections :: connections[fd].fd == fd && connections[fd].uring == this
    }

    /** The fields are what the abstract state says they are. */
    ghost predicate Coupled()
      reads this, connections.Values
    {
      Linked() && ring.queueSize == queueSize && ring.freeNum == freeNum && ring.recvQ == recvQue &&
      ring.sendQ == sendQue && ring.conns == Snaps() && ring.prepared == prepared
    }

    ghost predicate Valid()
      reads this, connections.Values
    {
      Coupled() && Reachable(queueSize, ring)
    }

    constructor (queueSize: nat)
      requires queueSize >= 1
      ensures Valid() && ring == Init(queueSize) && connections == map[]
      ensures freeNum == queueSize - 1 && recvQue == sendQue == []
    {
      this.queueSize, freeNum := queueSize, queueSize - 1;
      recvQue, sendQue, connections, prepared := [], [], map[], [];
      ring := Init(queueSize);
      new;
      assert Exec(Init(queueSize), []) == Done(Init(queueSize));
    }

    method AddWriteRequest(fd: Fd)
      modifies this`sendQue
      ensures sendQue == old(sendQue) + [fd]
    {
      sendQue := sendQue + [fd];
    }

    method AddReadRequest(fd: Fd)
      modifies this`recvQue
      ensures recvQue == old(recvQue) + [fd]
    {
      recvQue := recvQue + [fd];
    }

    method RemoveFd(channel: Channel)
      requires Linked() && channel.fd in connections && connections[channel.fd] == channel
      modifies this`connections
      ensures connections == old(connections) - {channel.fd} && Linked()
      ensures Snaps() == old(Snaps()) - {channel.fd}
    {
      var fd := channel.fd;
      assert fd in connections && connections[fd] == channel;
      connections := connections - {fd};
    }

    /** Adding a channel adds one entry to the table. */
    lemma OnlyNew(before: map<Fd, Chan>, fd: Fd)
      requires connections.Keys == before.Keys + {fd}
      requires forall f <- connections :: f != fd ==> before[f] == connections[f].Snap()
      ensures Snaps() == before[fd := connections[fd].Snap()]
    {
    }

    /** The source asserts that `fd` is not in the table; `ring.open` are the descriptors the
        operating system has not seen closed, and it hands out others only. */
    method AddNewFd(fd: Fd) returns (channel: Channel)
      requires Valid() && fd !in ring.open
      modifies this`connections, this`recvQue, this`ring
      ensures Valid() && RingModel.Open(old(ring), fd) == Done(ring)
      ensures fresh(channel) && connections == old(connections)[fd := channel] && fd !in old(connections)
      ensures recvQue == old(recvQue) + [fd] && channel.sendFlag == 0 && !channel.closeFlag
    {
      TableIsOpen(queueSize, ring);
      assert fd !in connections;
      ReachableStep(queueSize, ring, Step.AddNewFd(fd));
      channel := Insert(fd);
    }

    method Insert(fd: Fd) returns (channel: Channel)
      requires Coupled() && fd !in connections
      modifies this`connections, this`recvQue, this`ring
      ensures Coupled() && RingModel.Open(old(ring), fd) == Done(ring)
      ensures fresh(channel) && connections == old(connections)[fd := channel]
      ensures recvQue == old(recvQue) + [fd] && channel.sendFlag == 0 && !channel.closeFlag
    {
      channel := new Channel(fd, this, ring.born);
      connections := connections[fd := channel];
      AddReadRequest(fd);
      OnlyNew(old(Snaps()), fd);
      ring := RingModel.Open(ring, fd).ring;
    }

    /** The prefix of a request queue that the free slots allow, as the source takes it. */
    static method TakeSome(queue: seq<Fd>, free: nat) returns (taken: seq<Fd>, rest: seq<Fd>, left: nat)
      ensures taken + rest == queue && |taken| + left == free && (rest == [] || left == 0)
    {
      if |queue| <= free {
        taken, rest, left := queue, [], free - |queue|;
      } else {
        taken, rest := [], queue;
        for i := 0 to free
          invariant taken == queue[..i] && rest == queue[i..]
        {
          taken, rest := taken + [rest[0]], rest[1..];
        }
        left := 0;
      }
    }

    /** There is one way to take as much as the slots allow. */
    static lemma TakesThese(queue: seq<Fd>, free: nat, taken: seq<Fd>, rest: seq<Fd>, left: nat)
      requires taken + rest == queue && |taken| + left == free && (rest == [] || left == 0)
      ensures var k := Min(|queue|, free); taken == queue[..k] && rest == queue[k..] && left == free - k
    {
    }

    /** One submission entry per descriptor taken off a queue, in order. */
    method Prepare(kind: Kind, fds: seq<Fd>)
      requires Linked() && forall i :: 0 <= i < |fds| ==> fds[i] in connections
      modifies this`prepared
      ensures prepared == old(prepared) + Requests(kind, Snaps(), fds)
    {
      var temp := fds;
      while temp != []
        invariant forall i :: 0 <= i < |temp| ==> temp[i] in connections
        invariant old(prepared) + Requests(kind, Snaps(), fds) == prepared + Requests(kind, Snaps(), temp)
      {
        var fd := temp[0];
        assert temp == [fd] + temp[1..];
        temp := temp[1..];
        assert fd in connections;
        var channel := connections[fd];
        assert channel.fd == fd;
        ghost var req := Request(kind, fd, channel.id);
        assert Requests(kind, Snaps(), [fd] + temp) == [req] + Requests(kind, Snaps(), temp);
        assert prepared + ([req] + Requests(kind, Snaps(), temp)) == (prepared + [req]) + Requests(kind, Snaps(), temp);
        prepared := prepared + [req];
      }
    }

    method BeginRecv() returns (ghost tempRecv: seq<Fd>)
      requires Coupled() && RingModel.TakeReads(ring).Done?
      modifies this`recvQue, this`freeNum, this`prepared, this`ring
      ensures Coupled() && RingModel.TakeReads(old(ring)) == Done(ring)
      ensures HandedOver(Read, old(recvQue), old(freeNum), old(prepared), Snaps(), recvQue, freeNum, prepared)
      ensures tempRecv + recvQue == old(recvQue) && |tempRecv| + freeNum == old(freeNum) && (recvQue == [] || freeNum == 0)
    {
      TakesAllItCan(ring);
      TakeReads();
      tempRecv := old(recvQue)[..old(freeNum) - freeNum];
    }

    method TakeReads()
      requires Coupled() && RingModel.TakeReads(ring).Done?
      modifies this`recvQue, this`freeNum, this`prepared, this`ring
      ensures Coupled() && RingModel.TakeReads(old(ring)) == Done(ring)
    {
      ring := RingModel.TakeReads(ring).ring;
      if |recvQue| == 0 { return; }
      var tempRecv, rest, left := TakeSome(recvQue, freeNum);
      TakesThese(recvQue, freeNum, tempRecv, rest, left);
      recvQue, freeNum := rest, left;
      Prepare(Read, tempRecv);
    }

    method BeginSend() returns (ghost tempSend: seq<Fd>)
      requires Coupled() && RingModel.TakeWrites(ring).Done?
      modifies this`sendQue, this`freeNum, this`prepared, this`ring
      ensures Coupled() && RingModel.TakeWrites(old(ring)) == Done(ring)
      ensures HandedOver(Write, old(sendQue), old(freeNum), old(prepared), Snaps(), sendQue, freeNum, prepared)
      ensures tempSend + sendQue == old(sendQue) && |tempSend| + freeNum == old(freeNum) && (sendQue == [] || freeNum == 0)
    {
      TakesAllItCan(ring);
      TakeWrites();
      tempSend := old(sendQue)[..old(freeNum) - freeNum];
    }

    method TakeWrites()
      requires Coupled() && RingModel.TakeWrites(ring).Done?
      modifies this`sendQue, this`freeNum, this`prepared, this`ring
      ensures Coupled() && RingModel.TakeWrites(old(ring)) == Done(ring)
    {
      ring := RingModel.TakeWrites(ring).ring;
      if |sendQue| == 0 { return; }
      var tempSend, rest, left := TakeSome(sendQue, freeNum);
      TakesThese(sendQue, freeNum, tempSend, rest, left);
      sendQue, freeNum := rest, left;
      Prepare(Write, tempSend);
    }

    /** The read callback: user code that sends on channels of the table, its own or others. */
    method Callback(sends: seq<Fd>)
      requires Coupled()
      modifies this`sendQue, this`ring, connections.Values`sendFlag
      ensures Coupled() && ring.running == old(ring.running)
      ensures Exec(old(ring), Sends(sends)) == Done(ring)
      ensures sendQue == old(sendQue) + Restrict(sends, Accepting(old(Snaps())))
      ensures forall fd <- connections ::
                connections[fd].sendFlag == old(connections[fd].sendFlag) + if connections[fd].closeFlag then 0 else multiset(sends)[fd]
    {
      SendAll(sends);
      SendsEffect(old(ring), sends);
      forall fd <- connections
        ensures connections[fd].sendFlag == old(connections[fd].sendFlag) + if connections[fd].closeFlag then 0 else multiset(sends)[fd]
      {
        assert ring.conns[fd].sendFlag == connections[fd].sendFlag && old(ring).conns[fd].sendFlag == old(connections[fd].sendFlag);
      }
    }

    method SendAll(sends: seq<Fd>)
      requires Coupled()
      modifies this`sendQue, this`ring, connections.Values`sendFlag
      ensures Coupled() && ring.running == old(ring.running)
      ensures Exec(old(ring), Sends(sends)) == Done(ring)
    {
      for i := 0 to |sends|
        invariant Coupled() && ring.running == old(ring.running)
        invariant Exec(old(ring), Sends(sends[..i])) == Done(ring)
      {
        SendsNext(old(ring), sends[..i], sends[i]);
        assert sends[..i + 1] == sends[..i] + [sends[i]];
        if sends[i] in connections {
          connections[sends[i]].Send();
        }
      }
      assert sends[..|sends|] == sends;
    }

    /** The resumed coroutine: close and return on an empty view, otherwise call back and
        await the next read. */
    method Resume(channel: Channel, empty: bool, sends: seq<Fd>)
      requires channel.uring == this && channel.Attached()
      requires !empty ==> ring.running == Some(channel.fd)
      modifies this, connections.Values
      ensures Coupled() && connections == old(connections) - if !empty || old(channel.sendFlag) > 0 then {} else {channel.fd}
      ensures empty ==> RingModel.Close(old(ring), channel.fd, channel.id) == Done(ring)
      ensures !empty ==> Exec(old(ring), Sends(sends) + [Rearm]) == Done(ring.(freeNum := ring.freeNum + 1))
    {
      if empty {
        channel.Close();
        return;
      }
      Callback(sends);
      ghost var called := ring;
      Await(channel);
      StepFirst(called, Rearm, []);
      ExecConcat(old(ring), Sends(sends), [Rearm]);
    }

    /** `await_suspend` and the return to the event loop. */
    method Await(channel: Channel)
      requires channel.uring == this && channel.Attached() && ring.running == Some(channel.fd)
      modifies this`recvQue, this`ring, channel`task
      ensures Coupled() && recvQue == old(recvQue) + [channel.fd]
      ensures FinishRead(old(ring), channel.fd) == Done(ring.(freeNum := ring.freeNum + 1))
    {
      ghost var called := ring;
      AddReadRequest(channel.fd);
      channel.task := Armed;
      ring := FinishRead(called, channel.fd).ring.(freeNum := called.freeNum);
      channel.OnlyMine(called.conns);
    }

    /** Data: the callback's sends are queued and counted, and the next read is queued.  No data: the
        channel closes, at once or when its writes are done.  Either way a slot is back. */
    method HandleRead(req: Request, result: ReadResult, sends: seq<Fd>)
      requires Coupled() && Enabled(ring, ReadDone(req, result)) && CompleteRead(ring, req, result).Done?
      modifies this, connections.Values
      ensures Coupled() && connections.Values <= old(connections.Values)
      ensures Exec(old(ring), StepsOf(ReadCqe(req, result, sends))) == Done(ring)
      ensures freeNum == old(freeNum) + 1
      ensures recvQue == old(recvQue) + if result.Data? then [req.fd] else []
      ensures sendQue == old(sendQue) + if result.Data? then Restrict(sends, Accepting(old(Snaps()))) else []
      ensures connections == old(connections) - if result.Data? || old(connections[req.fd].sendFlag) > 0 then {} else {req.fd}
      ensures forall fd <- connections ::
                connections[fd].closeFlag == (old(connections[fd].closeFlag) || (fd == req.fd && !result.Data?)) &&
                connections[fd].sendFlag == old(connections[fd].sendFlag) +
                                            if result.Data? && !old(connections[fd].closeFlag) then multiset(sends)[fd] else 0
    {
      ghost var before := ring;
      ReadDoes(before, req, result, sends);
      assert req.fd in connections;
      var channel := connections[req.fd];
      if result.Data? {
        HandleData(req, channel, sends);
      } else {
        HandleGone(req, channel, result, sends);
      }
      forall fd <- connections
        ensures connections[fd].closeFlag == (old(connections[fd].closeFlag) || (fd == req.fd && !result.Data?)) &&
                connections[fd].sendFlag == old(connections[fd].sendFlag) +
                                            if result.Data? && !old(connections[fd].closeFlag) then multiset(sends)[fd] else 0
      {
        assert ring.conns[fd] == connections[fd].Snap() && before.conns[fd] == old(connections[fd].Snap());
      }
    }

    /** No bytes: the loop closes the channel itself, or the coroutine does on waking up. */
    method HandleGone(req: Request, channel: Channel, result: ReadResult, ghost sends: seq<Fd>)
      requires channel.uring == this && channel.Attached() && req.fd == channel.fd && !result.Data?
      requires Enabled(ring, ReadDone(req, result)) && CompleteRead(ring, req, result).Done?
      modifies this, connections.Values
      ensures Coupled() && connections == old(connections) - if old(channel.sendFlag) > 0 then {} else {req.fd}
      ensures Exec(old(ring), StepsOf(ReadCqe(req, result, sends))) == Done(ring)
    {
      StepFirst(ring, ReadDone(req, result), []);
      ring := ring.(inKernel := ring.inKernel - multiset{req});
      if result.Disconnect? {
        channel.Close();
      } else {
        Resume(channel, true, []);
      }
      GiveSlotBack();
    }

    method HandleData(req: Request, channel: Channel, sends: seq<Fd>)
      requires channel.uring == this && channel.Attached() && req.fd == channel.fd
      requires Enabled(ring, ReadDone(req, Data)) && CompleteRead(ring, req, Data).Done?
      modifies this, connections.Values
      ensures Coupled() && connections == old(connections)
      ensures Exec(old(ring), StepsOf(ReadCqe(req, Data, sends))) == Done(ring)
    {
      StepFirst(ring, ReadDone(req, Data), Sends(sends) + [Rearm]);
      Wake(req, channel);
      Resume(channel, false, sends);
      GiveSlotBack();
    }

    /** The bytes are there and the coroutine is resumed. */
    method Wake(req: Request, channel: Channel)
      requires channel.uring == this && channel.Attached() && req.fd == channel.fd
      requires CompleteRead(ring, req, Data).Done?
      modifies this`ring, channel
      ensures channel.Attached() && ring == CompleteRead(old(ring), req, Data).ring
    {
      ghost var before := ring;
      channel.task := Resumed;
      ring := CompleteRead(before, req, Data).ring;
      channel.OnlyMine(before.conns);
    }

    /** `freeNum_++` */
    method GiveSlotBack()
      requires Coupled()
      modifies this`freeNum, this`ring
      ensures Coupled() && ring == old(ring).(freeNum := old(ring).freeNum + 1)
    {
      freeNum := freeNum + 1;
      ring := ring.(freeNum := freeNum);
    }

    /** More to send: the write is queued again and its slot stays taken.  Otherwise it is counted
        off, the deferred close happens at zero, and the slot is back. */
    method HandleWrite(req: Request, more: bool)
      requires Coupled() && Enabled(ring, WriteDone(req, more)) && CompleteWrite(ring, req, more).Done?
      modifies this, connections.Values
      ensures Coupled() && connections.Values <= old(connections.Values)
      ensures Exec(old(ring), StepsOf(WriteCqe(req, more))) == Done(ring)
      ensures freeNum == old(freeNum) + if more then 0 else 1
      ensures recvQue == old(recvQue) && sendQue == old(sendQue) + if more then [req.fd] else []
      ensures connections == old(connections) -
              if !more && old(connections[req.fd].sendFlag == 1 && connections[req.fd].closeFlag) then {req.fd} else {}
      ensures forall fd <- connections ::
                connections[fd].closeFlag == old(connections[fd].closeFlag) &&
                connections[fd].sendFlag == old(connections[fd].sendFlag) - if fd == req.fd && !more then 1 else 0
    {
      StepFirst(ring, WriteDone(req, more), []);
      WroteEffect(ring, req, more);
      assert req.fd in connections;
      var channel := connections[req.fd];
      CompleteOne(req, more, channel);
      forall fd <- connections
        ensures connections[fd].closeFlag == old(connections[fd].closeFlag) &&
                connections[fd].sendFlag == old(connections[fd].sendFlag) - if fd == req.fd && !more then 1 else 0
      {
        assert ring.conns[fd] == connections[fd].Snap() && old(ring).conns[fd] == old(connections[fd].Snap());
      }
    }

    method CompleteOne(req: Request, more: bool, channel: Channel)
      requires channel.uring == this && channel.Attached() && req.fd == channel.fd
      requires CompleteWrite(ring, req, more).Done?
      modifies this, channel
      ensures Coupled() && CompleteWrite(old(ring), req, more) == Done(ring)
      ensures connections == old(connections) -
              if !more && old(channel.sendFlag == 1 && channel.closeFlag) then {req.fd} else {}
    {
      ring := ring.(inKernel := ring.inKernel - multiset{req});
      if more {
        AddWriteRequest(channel.fd);
        ring := QueueWrite(ring.(requeued := ring.requeued + 1), req.fd);
      } else {
        channel.ReduceSend();
        GiveSlotBack();
      }
    }

    /** One round of the loop is a run of the machine: the completions in the order the kernel
        reported them, the two hand-overs, the submit.  What waited and what the completions queue
        is prepared, as far as slots go, or waits; a channel whose close was asked for and whose
        writes are done is gone, and the flags of the others count their writes. */
    method EventLoop(cqes: seq<Completion>) returns (ghost tempRecv: seq<Fd>, ghost tempSend: seq<Fd>)
      requires Valid() && ring.running.None? && Reported(cqes, ring.inKernel)
      modifies this, connections.Values
      ensures Valid() && ring.running.None?
      ensures Exec(old(ring), Flatten(cqes) + [Step.BeginRecv, Step.BeginSend, Step.Submit]) == Done(ring)
      ensures tempRecv + recvQue == old(recvQue) + Reread(cqes)
      ensures tempSend + sendQue == old(sendQue) + Asked(cqes, Accepting(old(Snaps())))
      ensures |tempRecv| + |tempSend| + freeNum == old(freeNum) + Returned(cqes)
      ensures recvQue == sendQue == [] || freeNum == 0
      ensures forall fd <- connections :: fd in old(connections) && connections[fd] == old(connections)[fd]
      ensures forall fd <- old(connections) ::
                var flag := old(connections[fd].sendFlag) + multiset(Asked(cqes, Accepting(old(Snaps()))))[fd]
                            - multiset(Written(cqes))[fd];
                var closing := old(connections[fd].closeFlag) || fd in Gone(cqes);
                if closing && flag == 0 then fd !in connections
                else fd in connections && connections[fd].sendFlag == flag && connections[fd].closeFlag == closing
    {
      RoundEffect(queueSize, ring, cqes);
      HandleAll(cqes);
      tempRecv, tempSend := HandOver(old(ring), Flatten(cqes));
      forall fd <- old(connections)
        ensures var flag := old(connections[fd].sendFlag) + multiset(Asked(cqes, Accepting(old(Snaps()))))[fd]
                            - multiset(Written(cqes))[fd];
                var closing := old(connections[fd].closeFlag) || fd in Gone(cqes);
                if closing && flag == 0 then fd !in connections
                else fd in connections && connections[fd].sendFlag == flag && connections[fd].closeFlag == closing
      {
        assert old(ring).conns[fd] == old(connections[fd].Snap());
        assert fd in connections ==> ring.conns[fd] == connections[fd].Snap();
      }
    }

    method HandleAll(cqes: seq<Completion>)
      requires Valid() && ring.running.None? && Reported(cqes, ring.inKernel)
      modifies this, connections.Values
      ensures Valid() && ring.running.None?
      ensures Exec(old(ring), Flatten(cqes)) == Done(ring)
      ensures forall fd <- connections :: fd in old(connections) && connections[fd] == old(connections)[fd]
    {
      for i := 0 to |cqes|
        invariant Valid() && ring.running.None? && Reported(cqes[i..], ring.inKernel)
        invariant connections.Values <= old(connections.Values)
        invariant forall fd <- connections :: fd in old(connections) && connections[fd] == old(connections)[fd]
        invariant Exec(old(ring), Flatten(cqes[..i])) == Done(ring)
      {
        assert cqes[i..] == [cqes[i]] + cqes[i + 1..];
        OneCompletion(queueSize, ring, cqes[i], cqes[i + 1..]);
        FlattenNext(old(ring), cqes, i);
        Handle(cqes[i]);
      }
      assert cqes[..|cqes|] == cqes;
    }

    method Handle(c: Completion)
      requires Coupled() && Enabled(ring, StepsOf(c)[0]) && Apply(ring, StepsOf(c)[0]).Done?
      modifies this, connections.Values
      ensures Coupled() && connections.Values <= old(connections.Values)
      ensures forall fd <- connections :: fd in old(connections) && connections[fd] == old(connections)[fd]
      ensures Exec(old(ring), StepsOf(c)) == Done(ring)
    {
      match c
      case ReadCqe(req, result, sends) => HandleRead(req, result, sends);
      case WriteCqe(req, more) => HandleWrite(req, more);
    }

    /** The end of a round. */
    method HandOver(ghost start: Ring, ghost steps: seq<Step>) returns (ghost tempRecv: seq<Fd>, ghost tempSend: seq<Fd>)
      requires Valid() && ring.running.None? && Exec(start, steps) == Done(ring)
      modifies this`recvQue, this`sendQue, this`freeNum, this`prepared, this`ring
      ensures Valid() && ring.running.None? && ring.conns == old(ring.conns)
      ensures Exec(start, steps + [Step.BeginRecv, Step.BeginSend, Step.Submit]) == Done(ring)
      ensures tempRecv + recvQue == old(recvQue) && tempSend + sendQue == old(sendQue)
      ensures |tempRecv| + |tempSend| + freeNum == old(freeNum) && (recvQue == sendQue == [] || freeNum == 0)
    {
      ghost var r1 := ring;
      ReachableStep(queueSize, r1, Step.BeginRecv);
      tempRecv := BeginRecv();
      ghost var r2 := ring;
      ReachableStep(queueSize, r2, Step.BeginSend);
      tempSend := BeginSend();
      ReachableStep(queueSize, ring, Step.Submit);
      HandOverSteps(start, steps, r1, r2, ring);
      Submit();
    }

    /** `io_uring_submit`. */
    method Submit()
      requires Coupled()
      modifies this`prepared, this`ring
      ensures Coupled() && ring == SubmitAll(old(ring))
      ensures prepared == [] && ring.inKernel == old(ring.inKernel) + multiset(old(prepared))
    {
      prepared := [];
      ring := SubmitAll(ring);
    }
  }
}
