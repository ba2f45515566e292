/** The invariant that ties queues, kernel requests, flags and table together, its
    preservation by every step, and what it gives for whole runs. */
module RingProofs {
  import opened Wrappers
  import opened RingModel

  // ---------------------------------------------------------------- the invariant

  /** Everything the ring still owes some channel, order forgotten. */
  datatype Pending = Pending(recv: multiset<Fd>, send: multiset<Fd>, reqs: multiset<Request>, running: Option<Fd>)

  function Owed(r: Ring): Pending {
    Pending(multiset(r.recvQ), multiset(r.sendQ), multiset(r.prepared) + r.inKernel, r.running)
  }

  /** Writes of the channel `c` at `fd` that are queued, prepared or in the kernel. */
  function PendingWrites(p: Pending, fd: Fd, c: Chan): nat {
    p.send[fd] + p.reqs[Request(Write, fd, c.id)]
  }

  /** Reads of the channel `c` at `fd` that are queued, prepared, in the kernel or being resumed. */
  function PendingReads(p: Pending, fd: Fd, c: Chan): nat {
    p.recv[fd] + p.reqs[Request(Read, fd, c.id)] + if p.running == Some(fd) then 1 else 0
  }

  ghost predicate Counted(p: Pending, fd: Fd, c: Chan) {
    c.sendFlag == PendingWrites(p, fd, c) &&
    PendingReads(p, fd, c) == (if c.closeFlag then 0 else 1) &&
    (c.closeFlag ==> c.sendFlag > 0) &&
    (c.closeFlag <==> c.task.Finished?) &&
    (c.task.Resumed? <==> p.running == Some(fd))
  }

  ghost predicate Known(p: Pending, conns: map<Fd, Chan>) {
    (forall fd <- p.recv :: fd in conns) &&
    (forall fd <- p.send :: fd in conns) &&
    (forall req <- p.reqs :: req.fd in conns && conns[req.fd].id == req.chan) &&
    (p.running.Some? ==> p.running.value in conns)
  }

  ghost predicate Balanced(p: Pending, conns: map<Fd, Chan>) {
    Known(p, conns) && forall fd <- conns :: Counted(p, fd, conns[fd])
  }

  ghost predicate Live(conns: map<Fd, Chan>, id: nat) {
    exists fd :: fd in conns && conns[fd].id == id
  }

  /** Each identity given out is at one descriptor of the table or closed once, never both. */
  ghost predicate Identities(conns: map<Fd, Chan>, born: nat, closed: seq<nat>) {
    (forall fd <- conns :: conns[fd].id < born) &&
    (forall fd, fd' :: fd in conns && fd' in conns && fd != fd' ==> conns[fd].id != conns[fd'].id) &&
    (forall id <- closed :: id < born) &&
    (forall id: nat :: id < born ==> multiset(closed)[id] == if Live(conns, id) then 0 else 1)
  }

  ghost predicate Slots(r: Ring) {
    r.queueSize >= 1 &&
    r.freeNum + |r.prepared| + |r.inKernel| + (if r.running.Some? then 1 else 0) + r.requeued == r.queueSize - 1
  }

  /** What was queued is what was taken, then what waits. */
  ghost predicate Fifo(r: Ring) {
    r.recvLog == r.recvTaken + r.recvQ && r.sendLog == r.sendTaken + r.sendQ
  }

  ghost predicate Inv(r: Ring) {
    Slots(r) && Balanced(Owed(r), r.conns) && r.open == r.conns.Keys &&
    Identities(r.conns, r.born, r.closed) && Fifo(r)
  }

  // ---------------------------------------------------------------- one channel at a time

  /** `p` and `q` owe the same to every channel but the one at `fd`. */
  ghost predicate SameElsewhere(p: Pending, q: Pending, fd: Fd) {
    (forall f :: f != fd ==> p.recv[f] == q.recv[f] && p.send[f] == q.send[f]) &&
    (forall req: Request :: req.fd != fd ==> p.reqs[req] == q.reqs[req]) &&
    (p.running == q.running || (p.running in {None, Some(fd)} && q.running in {None, Some(fd)}))
  }

  lemma ChangeOne(p: Pending, conns: map<Fd, Chan>, q: Pending, fd: Fd, c: Chan)
    requires Balanced(p, conns) && SameElsewhere(p, q, fd)
    requires forall req <- q.reqs :: req.fd == fd ==> req.chan == c.id
    requires Counted(q, fd, c)
    ensures Balanced(q, conns[fd := c])
  {
    var conns' := conns[fd := c];
    forall req <- q.reqs
      ensures req.fd in conns' && conns'[req.fd].id == req.chan
    {
      if req.fd != fd { assert p.reqs[req] > 0; }
    }
    forall f <- q.recv ensures f in conns' { assert f != fd ==> p.recv[f] > 0; }
    forall f <- q.send ensures f in conns' { assert f != fd ==> p.send[f] > 0; }
    forall f <- conns'
      ensures Counted(q, f, conns'[f])
    {
      if f != fd { assert Counted(p, f, conns[f]); }
    }
  }

  lemma RemoveOne(p: Pending, conns: map<Fd, Chan>, q: Pending, fd: Fd)
    requires Balanced(p, conns) && SameElsewhere(p, q, fd)
    requires q.recv[fd] == 0 && q.send[fd] == 0 && q.running != Some(fd)
    requires forall req <- q.reqs :: req.fd != fd
    ensures Balanced(q, conns - {fd})
  {
    var conns' := conns - {fd};
    forall req <- q.reqs
      ensures req.fd in conns' && conns'[req.fd].id == req.chan
    {
      assert p.reqs[req] > 0;
    }
    forall f <- q.recv ensures f in conns' { assert f != fd ==> p.recv[f] > 0; }
    forall f <- q.send ensures f in conns' { assert f != fd ==> p.send[f] > 0; }
    forall f <- conns'
      ensures Counted(q, f, conns'[f])
    {
      assert Counted(p, f, conns[f]);
    }
  }

  lemma LiveSame(conns: map<Fd, Chan>, conns': map<Fd, Chan>, id: nat)
    requires forall fd <- conns :: conns[fd].id == id ==> fd in conns' && conns'[fd].id == id
    requires forall fd <- conns' :: conns'[fd].id == id ==> fd in conns && conns[fd].id == id
    ensures Live(conns, id) == Live(conns', id)
  {
    if fd :| fd in conns && conns[fd].id == id { assert conns'[fd].id == id; }
    if fd :| fd in conns' && conns'[fd].id == id { assert conns[fd].id == id; }
  }

  lemma KeepIdentity(conns: map<Fd, Chan>, born: nat, closed: seq<nat>, fd: Fd, c: Chan)
    requires Identities(conns, born, closed) && fd in conns && c.id == conns[fd].id
    ensures Identities(conns[fd := c], born, closed)
  {
    forall id: nat | id < born
      ensures Live(conns, id) == Live(conns[fd := c], id)
    {
      LiveSame(conns, conns[fd := c], id);
    }
  }

  lemma AddIdentity(conns: map<Fd, Chan>, born: nat, closed: seq<nat>, fd: Fd, c: Chan)
    requires Identities(conns, born, closed) && fd !in conns && c.id == born
    ensures Identities(conns[fd := c], born + 1, closed)
  {
    forall id: nat | id < born + 1
      ensures multiset(closed)[id] == if Live(conns[fd := c], id) then 0 else 1
    {
      if id == born { assert conns[fd := c][fd].id == id && born !in closed; }
      else { LiveSame(conns, conns[fd := c], id); }
    }
  }

  lemma DropIdentity(conns: map<Fd, Chan>, born: nat, closed: seq<nat>, fd: Fd)
    requires Identities(conns, born, closed) && fd in conns
    ensures Identities(conns - {fd}, born, closed + [conns[fd].id])
  {
    forall id: nat | id < born
      ensures multiset(closed + [conns[fd].id])[id] == if Live(conns - {fd}, id) then 0 else 1
    {
      if id == conns[fd].id { assert Live(conns, id); }
      else { LiveSame(conns, conns - {fd}, id); }
    }
  }

  // ---------------------------------------------------------------- preservation

  lemma InitInv(queueSize: nat)
    requires queueSize >= 1
    ensures Inv(Init(queueSize))
  {
  }

  /** A step that works on the channel at `fd` and leaves it as `c`. */
  lemma KeepsChange(r: Ring, r': Ring, fd: Fd, c: Chan)
    requires Inv(r) && fd in r.conns && c.id == r.conns[fd].id
    requires r'.conns == r.conns[fd := c] && r'.open == r.open && r'.born == r.born && r'.closed == r.closed
    requires SameElsewhere(Owed(r), Owed(r'), fd) && Counted(Owed(r'), fd, c)
    requires Owed(r').reqs <= Owed(r).reqs
    requires Slots(r') && Fifo(r')
    ensures Inv(r')
  {
    assert forall req <- Owed(r').reqs :: req in Owed(r).reqs;
    ChangeOne(Owed(r), r.conns, Owed(r'), fd, c);
    KeepIdentity(r.conns, r.born, r.closed, fd, c);
  }

  /** A step that removes the channel at `fd`, of which nothing is pending any more. */
  lemma KeepsRemove(r: Ring, r': Ring, fd: Fd)
    requires Inv(r) && fd in r.conns
    requires r'.conns == r.conns - {fd} && r'.open == r.open - {fd} && r'.born == r.born
    requires r'.closed == r.closed + [r.conns[fd].id]
    requires SameElsewhere(Owed(r), Owed(r'), fd) && Owed(r').reqs <= Owed(r).reqs
    requires PendingReads(Owed(r'), fd, r.conns[fd]) == 0 && PendingWrites(Owed(r'), fd, r.conns[fd]) == 0
    requires Slots(r') && Fifo(r')
    ensures Inv(r')
  {
    NothingLeft(Owed(r), fd, r.conns[fd], r.conns, Owed(r'));
    RemoveOne(Owed(r), r.conns, Owed(r'), fd);
    DropIdentity(r.conns, r.born, r.closed, fd);
  }

  /** No request of a channel is left once its counts are nil. */
  lemma NothingLeft(p: Pending, fd: Fd, c: Chan, conns: map<Fd, Chan>, q: Pending)
    requires Known(p, conns) && fd in conns && conns[fd].id == c.id && q.reqs <= p.reqs
    requires PendingReads(q, fd, c) == 0 && PendingWrites(q, fd, c) == 0
    ensures forall req <- q.reqs :: req.fd != fd
  {
    forall req <- q.reqs
      ensures req.fd != fd
    {
      assert p.reqs[req] > 0;
      assert req == if req.kind == Read then Request(Read, req.fd, req.chan) else Request(Write, req.fd, req.chan);
    }
  }

  /** What a step does to the parts the invariant does not follow channel by channel. */
  ghost predicate SideEffects(r: Ring, r': Ring) {
    r'.born == r.born && (Slots(r) ==> Slots(r')) && (Fifo(r) ==> Fifo(r'))
  }

  /** The channel at `fd` stays as `c`. */
  ghost predicate Stays(r: Ring, r': Ring, fd: Fd, c: Chan) {
    r'.conns == r.conns[fd := c] && r'.open == r.open && r'.closed == r.closed
  }

  /** The channel `c` at `fd` is gone: closed once more, descriptor given back. */
  ghost predicate Goes(r: Ring, r': Ring, fd: Fd, c: Chan) {
    r'.conns == r.conns - {fd} && r'.open == r.open - {fd} && r'.closed == r.closed + [c.id]
  }

  lemma OpenShape(r: Ring, fd: Fd)
    requires fd !in r.conns
    ensures Open(r, fd).Done?
    ensures var r' := Open(r, fd).ring;
            Owed(r') == Owed(r).(recv := Owed(r).recv + multiset{fd}) &&
            r'.conns == r.conns[fd := Chan(r.born, 0, false, Armed)] &&
            r'.open == r.open + {fd} && r'.born == r.born + 1 && r'.closed == r.closed &&
            (Slots(r) ==> Slots(r')) && (Fifo(r) ==> Fifo(r'))
  {
  }

  lemma OpenKeeps(r: Ring, fd: Fd)
    requires Inv(r) && fd !in r.open
    ensures Open(r, fd).Done? && Inv(Open(r, fd).ring)
  {
    OpenShape(r, fd);
    OpenSteps(r, Open(r, fd).ring, fd, Chan(r.born, 0, false, Armed));
  }

  lemma OpenSteps(r: Ring, r': Ring, fd: Fd, c: Chan)
    requires Inv(r) && fd !in r.conns && c == Chan(r.born, 0, false, Armed)
    requires Owed(r') == Owed(r).(recv := Owed(r).recv + multiset{fd}) && r'.conns == r.conns[fd := c]
    requires r'.open == r.open + {fd} && r'.born == r.born + 1 && r'.closed == r.closed && Slots(r') && Fifo(r')
    ensures Inv(r')
  {
    FirstRead(Owed(r), r.conns, Owed(r'), fd, c);
    ChangeOne(Owed(r), r.conns, Owed(r'), fd, c);
    AddIdentity(r.conns, r.born, r.closed, fd, c);
  }

  lemma FirstRead(p: Pending, conns: map<Fd, Chan>, q: Pending, fd: Fd, c: Chan)
    requires Balanced(p, conns) && fd !in conns && c.sendFlag == 0 && !c.closeFlag && c.task.Armed?
    requires q == p.(recv := p.recv + multiset{fd})
    ensures Counted(q, fd, c)
  {
    assert fd !in p.recv && fd !in p.send;
    assert Request(Read, fd, c.id) !in p.reqs && Request(Write, fd, c.id) !in p.reqs;
  }

  lemma SendShape(r: Ring, fd: Fd)
    requires fd in r.conns && !r.conns[fd].closeFlag
    ensures var r', c := SendOn(r, fd), r.conns[fd];
            Owed(r') == Owed(r).(send := Owed(r).send + multiset{fd}) &&
            Stays(r, r', fd, c.(sendFlag := c.sendFlag + 1)) && SideEffects(r, r')
  {
  }

  lemma SendKeeps(r: Ring, fd: Fd)
    requires Inv(r) && fd in r.conns
    ensures Inv(SendOn(r, fd))
  {
    var c := r.conns[fd];
    if !c.closeFlag {
      SendShape(r, fd);
      assert Counted(Owed(r), fd, c);
      KeepsChange(r, SendOn(r, fd), fd, c.(sendFlag := c.sendFlag + 1));
    }
  }

  /** The channel as a completed read leaves it, unless it is removed. */
  function AfterRead(c: Chan, result: ReadResult): Chan {
    if result.Data? then c.(task := Resumed) else c.(closeFlag := true, task := Finished)
  }

  ghost predicate ReadEffect(r: Ring, r': Ring, req: Request, result: ReadResult, c: Chan) {
    Owed(r') == Owed(r).(reqs := Owed(r).reqs - multiset{req},
                         running := if result.Data? then Some(req.fd) else None) &&
    (if result.Data? || c.sendFlag > 0 then Stays(r, r', req.fd, AfterRead(c, result)) else Goes(r, r', req.fd, c)) &&
    SideEffects(r, r')
  }

  lemma LeavesKernel(prepared: multiset<Request>, inKernel: multiset<Request>, req: Request)
    requires req in inKernel
    ensures prepared + (inKernel - multiset{req}) == prepared + inKernel - multiset{req}
  {
  }

  lemma ReadShape(r: Ring, req: Request, result: ReadResult)
    requires Enabled(r, ReadDone(req, result)) && req.fd in r.conns && r.conns[req.fd].id == req.chan
    ensures CompleteRead(r, req, result).Done?
    ensures ReadEffect(r, CompleteRead(r, req, result).ring, req, result, r.conns[req.fd])
  {
    LeavesKernel(multiset(r.prepared), r.inKernel, req);
  }

  lemma ReadKeeps(r: Ring, req: Request, result: ReadResult)
    requires Inv(r) && Enabled(r, ReadDone(req, result))
    ensures CompleteRead(r, req, result).Done? && Inv(CompleteRead(r, req, result).ring)
  {
    assert req in Owed(r).reqs;
    ReadShape(r, req, result);
    ReadSteps(r, CompleteRead(r, req, result).ring, req, result, r.conns[req.fd]);
  }

  lemma ReadSteps(r: Ring, r': Ring, req: Request, result: ReadResult, c: Chan)
    requires Inv(r) && r.running.None? && req.kind.Read? && req in r.inKernel
    requires req.fd in r.conns && r.conns[req.fd] == c && c.id == req.chan
    requires ReadEffect(r, r', req, result, c)
    ensures Inv(r')
  {
    ReadCounts(Owed(r), r.conns, Owed(r'), req, result, c);
    if result.Data? || c.sendFlag > 0 {
      KeepsChange(r, r', req.fd, AfterRead(c, result));
    } else {
      KeepsRemove(r, r', req.fd);
    }
  }

  /** The only pending read is the one that completes. */
  lemma ReadCounts(p: Pending, conns: map<Fd, Chan>, q: Pending, req: Request, result: ReadResult, c: Chan)
    requires Balanced(p, conns) && p.running.None? && req.kind.Read? && req in p.reqs
    requires req.fd in conns && conns[req.fd] == c && c.id == req.chan
    requires q == p.(reqs := p.reqs - multiset{req}, running := if result.Data? then Some(req.fd) else None)
    ensures Counted(p, req.fd, c) && SameElsewhere(p, q, req.fd) && q.reqs <= p.reqs
    ensures if result.Data? || c.sendFlag > 0 then Counted(q, req.fd, AfterRead(c, result))
            else PendingReads(q, req.fd, c) == PendingWrites(q, req.fd, c) == 0
  {
  }

  lemma RearmShape(r: Ring, fd: Fd)
    requires fd in r.conns && r.running == Some(fd)
    ensures FinishRead(r, fd).Done?
    ensures var r', c := FinishRead(r, fd).ring, r.conns[fd];
            Owed(r') == Owed(r).(recv := Owed(r).recv + multiset{fd}, running := None) &&
            Stays(r, r', fd, c.(task := Armed)) && SideEffects(r, r')
  {
  }

  lemma RearmKeeps(r: Ring, fd: Fd)
    requires Inv(r) && r.running == Some(fd)
    ensures FinishRead(r, fd).Done? && Inv(FinishRead(r, fd).ring)
  {
    RearmShape(r, fd);
    assert Counted(Owed(r), fd, r.conns[fd]);
    KeepsChange(r, FinishRead(r, fd).ring, fd, r.conns[fd].(task := Armed));
  }

  /** A final write completion that makes a deferred close happen. */
  predicate LastWrite(c: Chan, more: bool) {
    !more && c.sendFlag == 1 && c.closeFlag
  }

  /** The channel as a completed write leaves it, unless it is removed. */
  function AfterWrite(c: Chan, more: bool): Chan {
    if more then c else c.(sendFlag := c.sendFlag - 1)
  }

  ghost predicate WriteEffect(r: Ring, r': Ring, req: Request, more: bool, c: Chan) {
    Owed(r').reqs == Owed(r).reqs - multiset{req} && Owed(r').recv == Owed(r).recv &&
    Owed(r').send == (if more then Owed(r).send + multiset{req.fd} else Owed(r).send) && r'.running == r.running &&
    (if LastWrite(c, more) then Goes(r, r', req.fd, c) else Stays(r, r', req.fd, AfterWrite(c, more))) &&
    SideEffects(r, r')
  }

  lemma MoreShape(r: Ring, req: Request)
    requires Enabled(r, WriteDone(req, true)) && req.fd in r.conns
    ensures CompleteWrite(r, req, true).Done?
    ensures WriteEffect(r, CompleteWrite(r, req, true).ring, req, true, r.conns[req.fd])
  {
    LeavesKernel(multiset(r.prepared), r.inKernel, req);
  }

  lemma DrainedShape(r: Ring, req: Request)
    requires Enabled(r, WriteDone(req, false)) && req.fd in r.conns && r.conns[req.fd].sendFlag > 0
    ensures CompleteWrite(r, req, false).Done?
    ensures WriteEffect(r, CompleteWrite(r, req, false).ring, req, false, r.conns[req.fd])
  {
    var c := r.conns[req.fd];
    var c' := c.(sendFlag := c.sendFlag - 1);
    var r1 := r.(inKernel := r.inKernel - multiset{req});
    LeavesKernel(multiset(r.prepared), r.inKernel, req);
    if LastWrite(c, false) {
      assert r1.conns[req.fd := c'] - {req.fd} == r.conns - {req.fd};
    }
  }

  lemma WriteKeeps(r: Ring, req: Request, more: bool)
    requires Inv(r) && Enabled(r, WriteDone(req, more))
    ensures CompleteWrite(r, req, more).Done? && Inv(CompleteWrite(r, req, more).ring)
  {
    assert req in Owed(r).reqs;
    assert Counted(Owed(r), req.fd, r.conns[req.fd]);
    if more { MoreShape(r, req); } else { DrainedShape(r, req); }
    WriteSteps(r, CompleteWrite(r, req, more).ring, req, more, r.conns[req.fd]);
  }

  lemma WriteSteps(r: Ring, r': Ring, req: Request, more: bool, c: Chan)
    requires Inv(r) && req.kind.Write? && req in Owed(r).reqs
    requires req.fd in r.conns && r.conns[req.fd] == c && c.id == req.chan
    requires WriteEffect(r, r', req, more, c)
    ensures Inv(r')
  {
    assert Counted(Owed(r), req.fd, c);
    WriteCounts(Owed(r), Owed(r'), req, more, c);
    if LastWrite(c, more) {
      KeepsRemove(r, r', req.fd);
    } else {
      KeepsChange(r, r', req.fd, AfterWrite(c, more));
    }
  }

  lemma WriteCounts(p: Pending, q: Pending, req: Request, more: bool, c: Chan)
    requires Counted(p, req.fd, c) && req.kind.Write? && req.chan == c.id && req in p.reqs && q.running == p.running
    requires q.reqs == p.reqs - multiset{req} && q.recv == p.recv
    requires q.send == if more then p.send + multiset{req.fd} else p.send
    ensures SameElsewhere(p, q, req.fd) && q.reqs <= p.reqs
    ensures PendingWrites(q, req.fd, c) == PendingWrites(p, req.fd, c) - if more then 0 else 1
    ensures PendingReads(q, req.fd, c) == PendingReads(p, req.fd, c)
    ensures if LastWrite(c, more) then PendingReads(q, req.fd, c) == PendingWrites(q, req.fd, c) == 0
            else Counted(q, req.fd, AfterWrite(c, more))
  {
  }

  // ---------------------------------------------------------------- preparing and submitting

  lemma CountFirst(x: Request, rest: seq<Request>)
    ensures multiset([x] + rest) == multiset{x} + multiset(rest)
  {
  }

  lemma RequestsCount(kind: Kind, conns: map<Fd, Chan>, fds: seq<Fd>, req: Request)
    requires forall i :: 0 <= i < |fds| ==> fds[i] in conns
    ensures multiset(Requests(kind, conns, fds))[req]
         == if req.kind == kind && req.fd in conns && req.chan == conns[req.fd].id then multiset(fds)[req.fd] else 0
  {
    if fds != [] {
      RequestsCount(kind, conns, fds[1..], req);
      assert fds == [fds[0]] + fds[1..];
      CountFirst(Request(kind, fds[0], conns[fds[0]].id), Requests(kind, conns, fds[1..]));
    }
  }

  lemma {:induction false} RequestsLength(kind: Kind, conns: map<Fd, Chan>, fds: seq<Fd>)
    requires forall i :: 0 <= i < |fds| ==> fds[i] in conns
    ensures |Requests(kind, conns, fds)| == |fds|
  {
    if fds != [] { RequestsLength(kind, conns, fds[1..]); }
  }

  lemma SplitQueue(q: seq<Fd>, k: nat)
    requires k <= |q|
    ensures multiset(q) == multiset(q[..k]) + multiset(q[k..])
  {
    assert q == q[..k] + q[k..];
  }

  /** Requests moved from a queue to the submission entries: every channel is owed the same. */
  ghost predicate Moved(p: Pending, q: Pending, conns: map<Fd, Chan>, kind: Kind, fds: seq<Fd>)
    requires forall i :: 0 <= i < |fds| ==> fds[i] in conns
  {
    q.reqs == p.reqs + multiset(Requests(kind, conns, fds)) && q.running == p.running &&
    (kind.Read? ==> p.recv == q.recv + multiset(fds) && p.send == q.send) &&
    (kind.Write? ==> p.send == q.send + multiset(fds) && p.recv == q.recv)
  }

  lemma MoveKeepsCounts(p: Pending, q: Pending, conns: map<Fd, Chan>, kind: Kind, fds: seq<Fd>, fd: Fd)
    requires forall i :: 0 <= i < |fds| ==> fds[i] in conns
    requires Moved(p, q, conns, kind, fds) && fd in conns && Counted(p, fd, conns[fd])
    ensures Counted(q, fd, conns[fd])
  {
    RequestsCount(kind, conns, fds, Request(Read, fd, conns[fd].id));
    RequestsCount(kind, conns, fds, Request(Write, fd, conns[fd].id));
  }

  lemma MoveKeepsKnown(p: Pending, q: Pending, conns: map<Fd, Chan>, kind: Kind, fds: seq<Fd>)
    requires forall i :: 0 <= i < |fds| ==> fds[i] in conns
    requires Moved(p, q, conns, kind, fds) && Known(p, conns)
    ensures Known(q, conns)
  {
    forall req <- q.reqs
      ensures req.fd in conns && conns[req.fd].id == req.chan
    {
      RequestsCount(kind, conns, fds, req);
      assert req in p.reqs || multiset(Requests(kind, conns, fds))[req] > 0;
    }
    forall fd <- q.recv ensures fd in conns { assert p.recv[fd] > 0; }
    forall fd <- q.send ensures fd in conns { assert p.send[fd] > 0; }
  }

  lemma MoveKeepsBalance(p: Pending, q: Pending, conns: map<Fd, Chan>, kind: Kind, fds: seq<Fd>)
    requires forall i :: 0 <= i < |fds| ==> fds[i] in conns
    requires Moved(p, q, conns, kind, fds) && Balanced(p, conns)
    ensures Balanced(q, conns)
  {
    MoveKeepsKnown(p, q, conns, kind, fds);
    forall fd <- conns
      ensures Counted(q, fd, conns[fd])
    {
      assert Counted(p, fd, conns[fd]);
      MoveKeepsCounts(p, q, conns, kind, fds, fd);
    }
  }

  lemma MoveKeeps(r: Ring, r': Ring, kind: Kind, fds: seq<Fd>)
    requires Inv(r) && Fifo(r') && Slots(r') && forall i :: 0 <= i < |fds| ==> fds[i] in r.conns
    requires Moved(Owed(r), Owed(r'), r.conns, kind, fds)
    requires r'.conns == r.conns && r'.open == r.open && r'.closed == r.closed && r'.born == r.born
    ensures Inv(r')
  {
    MoveKeepsBalance(Owed(r), Owed(r'), r.conns, kind, fds);
  }

  lemma QueuedIsKnown(q: seq<Fd>, conns: map<Fd, Chan>)
    requires forall fd <- multiset(q) :: fd in conns
    ensures forall i :: 0 <= i < |q| ==> q[i] in conns
  {
    forall i | 0 <= i < |q| ensures q[i] in conns { var fd := q[i]; assert fd in multiset(q); }
  }

  lemma TakeReadsShape(r: Ring, k: nat)
    requires k == Min(|r.recvQ|, r.freeNum) && forall i :: 0 <= i < |r.recvQ| ==> r.recvQ[i] in r.conns
    ensures TakeReads(r).Done?
    ensures var r' := TakeReads(r).ring;
            Moved(Owed(r), Owed(r'), r.conns, Read, r.recvQ[..k]) &&
            r'.conns == r.conns && r'.open == r.open && r'.closed == r.closed && r'.born == r.born
  {
    SplitQueue(r.recvQ, k);
  }

  lemma TakeReadsEffects(r: Ring, k: nat)
    requires k == Min(|r.recvQ|, r.freeNum) && forall i :: 0 <= i < |r.recvQ| ==> r.recvQ[i] in r.conns
    requires Fifo(r) && Slots(r)
    ensures Fifo(TakeReads(r).ring) && Slots(TakeReads(r).ring)
  {
    assert r.recvQ == r.recvQ[..k] + r.recvQ[k..];
    RequestsLength(Read, r.conns, r.recvQ[..k]);
  }

  lemma TakeReadsKeeps(r: Ring)
    requires Inv(r)
    ensures TakeReads(r).Done? && Inv(TakeReads(r).ring)
  {
    var k := Min(|r.recvQ|, r.freeNum);
    QueuedIsKnown(r.recvQ, r.conns);
    TakeReadsShape(r, k);
    TakeReadsEffects(r, k);
    MoveKeeps(r, TakeReads(r).ring, Read, r.recvQ[..k]);
  }

  lemma TakeWritesShape(r: Ring, k: nat)
    requires k == Min(|r.sendQ|, r.freeNum) && forall i :: 0 <= i < |r.sendQ| ==> r.sendQ[i] in r.conns
    ensures TakeWrites(r).Done?
    ensures var r' := TakeWrites(r).ring;
            Moved(Owed(r), Owed(r'), r.conns, Write, r.sendQ[..k]) &&
            r'.conns == r.conns && r'.open == r.open && r'.closed == r.closed && r'.born == r.born
  {
    SplitQueue(r.sendQ, k);
  }

  lemma TakeWritesEffects(r: Ring, k: nat)
    requires k == Min(|r.sendQ|, r.freeNum) && forall i :: 0 <= i < |r.sendQ| ==> r.sendQ[i] in r.conns
    requires Fifo(r) && Slots(r)
    ensures Fifo(TakeWrites(r).ring) && Slots(TakeWrites(r).ring)
  {
    assert r.sendQ == r.sendQ[..k] + r.sendQ[k..];
    RequestsLength(Write, r.conns, r.sendQ[..k]);
  }

  lemma TakeWritesKeeps(r: Ring)
    requires Inv(r)
    ensures TakeWrites(r).Done? && Inv(TakeWrites(r).ring)
  {
    var k := Min(|r.sendQ|, r.freeNum);
    QueuedIsKnown(r.sendQ, r.conns);
    TakeWritesShape(r, k);
    TakeWritesEffects(r, k);
    MoveKeeps(r, TakeWrites(r).ring, Write, r.sendQ[..k]);
  }

  lemma {:induction false} RequestsAt(kind: Kind, conns: map<Fd, Chan>, fds: seq<Fd>, i: nat)
    requires i < |fds| && forall i :: 0 <= i < |fds| ==> fds[i] in conns
    ensures |Requests(kind, conns, fds)| == |fds|
    ensures Requests(kind, conns, fds)[i] == Request(kind, fds[i], conns[fds[i]].id)
  {
    RequestsLength(kind, conns, fds);
    if i > 0 { RequestsAt(kind, conns, fds[1..], i - 1); }
  }

  /** One queue handed over: a front of it is prepared in order, each entry pays with a slot, and
      what stays behind stays for want of slots only. */
  ghost predicate HandedOver(kind: Kind, queue: seq<Fd>, free: nat, prepared: seq<Request>, conns: map<Fd, Chan>,
                             queue': seq<Fd>, free': nat, prepared': seq<Request>) {
    var n := free - free';
    0 <= n <= |queue| && queue' == queue[n..] && (queue' == [] || free' == 0) &&
    |prepared'| == |prepared| + n && prepared'[..|prepared|] == prepared &&
    forall i :: 0 <= i < n ==>
      queue[i] in conns && prepared'[|prepared| + i] == Request(kind, queue[i], conns[queue[i]].id)
  }

  lemma HandedFront(kind: Kind, queue: seq<Fd>, free: nat, prepared: seq<Request>, conns: map<Fd, Chan>, n: nat)
    requires n <= |queue| && n <= free && (n == |queue| || n == free)
    requires forall i :: 0 <= i < n ==> queue[i] in conns
    ensures HandedOver(kind, queue, free, prepared, conns, queue[n..], free - n, prepared + Requests(kind, conns, queue[..n]))
  {
    RequestsLength(kind, conns, queue[..n]);
    forall i | 0 <= i < n
      ensures Requests(kind, conns, queue[..n])[i] == Request(kind, queue[i], conns[queue[i]].id)
    {
      RequestsAt(kind, conns, queue[..n], i);
    }
  }

  /** The two hand-overs take as much of their queues as the free slots allow. */
  lemma TakesAllItCan(r: Ring)
    ensures TakeReads(r).Done? ==>
              var r' := TakeReads(r).ring;
              HandedOver(Read, r.recvQ, r.freeNum, r.prepared, r.conns, r'.recvQ, r'.freeNum, r'.prepared) &&
              r'.sendQ == r.sendQ && r'.conns == r.conns && r'.inKernel == r.inKernel
    ensures TakeWrites(r).Done? ==>
              var r' := TakeWrites(r).ring;
              HandedOver(Write, r.sendQ, r.freeNum, r.prepared, r.conns, r'.sendQ, r'.freeNum, r'.prepared) &&
              r'.recvQ == r.recvQ && r'.conns == r.conns && r'.inKernel == r.inKernel
  {
    if TakeReads(r).Done? { HandedFront(Read, r.recvQ, r.freeNum, r.prepared, r.conns, Min(|r.recvQ|, r.freeNum)); }
    if TakeWrites(r).Done? { HandedFront(Write, r.sendQ, r.freeNum, r.prepared, r.conns, Min(|r.sendQ|, r.freeNum)); }
  }

  lemma SubmitKeeps(r: Ring)
    requires Inv(r)
    ensures Inv(SubmitAll(r))
  {
    SubmitOwes(r);
    SubmitEffects(r);
  }

  lemma SubmitOwes(r: Ring)
    ensures Owed(SubmitAll(r)) == Owed(r)
  {
  }

  lemma SubmitEffects(r: Ring)
    requires Fifo(r) && Slots(r)
    ensures Fifo(SubmitAll(r)) && Slots(SubmitAll(r))
  {
  }

  /** No step the environment may take from a good state fails an assertion of the source or
      leaves the good states. */
  lemma StepKeeps(r: Ring, step: Step)
    requires Inv(r) && Enabled(r, step)
    ensures Apply(r, step).Done? && Inv(Apply(r, step).ring)
  {
    match step
    case AddNewFd(fd) => OpenKeeps(r, fd);
    case Send(fd) => SendKeeps(r, fd);
    case ReadDone(req, result) => ReadKeeps(r, req, result);
    case Rearm => RearmKeeps(r, r.running.value);
    case WriteDone(req, more) => WriteKeeps(r, req, more);
    case BeginRecv => TakeReadsKeeps(r);
    case BeginSend => TakeWritesKeeps(r);
    case Submit => SubmitKeeps(r);
  }

  // ---------------------------------------------------------------- whole runs

  lemma {:induction false} RunKeeps(r: Ring, steps: seq<Step>)
    requires Inv(r)
    ensures Exec(r, steps).Done? && Inv(Exec(r, steps).ring)
    decreases |steps|
  {
    if steps != [] {
      if Enabled(r, steps[0]) {
        StepKeeps(r, steps[0]);
        RunKeeps(Apply(r, steps[0]).ring, steps[1..]);
      } else {
        RunKeeps(r, steps[1..]);
      }
    }
  }

  // ---------------------------------------------------------------- arrival order

  /** The descriptors of the entries of one kind, in the order they were prepared. */
  function FdsOf(kind: Kind, reqs: seq<Request>): seq<Fd> {
    if reqs == [] then []
    else (if reqs[0].kind == kind then [reqs[0].fd] else []) + FdsOf(kind, reqs[1..])
  }

  ghost predicate Tail<T>(s: seq<T>, t: seq<T>) {
    |s| <= |t| && t[|t| - |s|..] == s
  }

  /** The entries prepared since the last submit are what was taken last, in that order. */
  ghost predicate Entered(r: Ring) {
    Tail(FdsOf(Read, r.prepared), r.recvTaken) && Tail(FdsOf(Write, r.prepared), r.sendTaken)
  }

  lemma AssocFds(a: seq<Fd>, b: seq<Fd>, c: seq<Fd>)
    ensures (a + b) + c == a + (b + c)
  {
  }

  lemma {:induction false} FdsOfConcat(kind: Kind, a: seq<Request>, b: seq<Request>)
    ensures FdsOf(kind, a + b) == FdsOf(kind, a) + FdsOf(kind, b)
  {
    if a == [] {
      assert a + b == b;
    } else {
      assert (a + b)[1..] == a[1..] + b;
      FdsOfConcat(kind, a[1..], b);
      AssocFds(if a[0].kind == kind then [a[0].fd] else [], FdsOf(kind, a[1..]), FdsOf(kind, b));
    }
  }

  lemma {:induction false} FdsOfRequests(kind: Kind, other: Kind, conns: map<Fd, Chan>, fds: seq<Fd>)
    requires kind != other && forall i :: 0 <= i < |fds| ==> fds[i] in conns
    ensures FdsOf(kind, Requests(kind, conns, fds)) == fds && FdsOf(other, Requests(kind, conns, fds)) == []
  {
    if fds != [] {
      FdsOfRequests(kind, other, conns, fds[1..]);
      assert Requests(kind, conns, fds)[1..] == Requests(kind, conns, fds[1..]);
    }
  }

  lemma LongerTail<T>(s: seq<T>, t: seq<T>, more: seq<T>)
    requires Tail(s, t)
    ensures Tail(s + more, t + more)
  {
  }

  /** Entries of one kind put behind the prepared ones. */
  lemma PreparedInOrder(kind: Kind, other: Kind, conns: map<Fd, Chan>, prepared: seq<Request>, fds: seq<Fd>, taken: seq<Fd>)
    requires kind != other && forall i :: 0 <= i < |fds| ==> fds[i] in conns
    requires Tail(FdsOf(kind, prepared), taken)
    ensures var after := prepared + Requests(kind, conns, fds);
            Tail(FdsOf(kind, after), taken + fds) && FdsOf(other, after) == FdsOf(other, prepared)
  {
    FdsOfConcat(kind, prepared, Requests(kind, conns, fds));
    FdsOfConcat(other, prepared, Requests(kind, conns, fds));
    FdsOfRequests(kind, other, conns, fds);
    LongerTail(FdsOf(kind, prepared), taken, fds);
  }

  lemma EnteredReads(r: Ring)
    requires Entered(r) && TakeReads(r).Done?
    ensures Entered(TakeReads(r).ring)
  {
    var k := Min(|r.recvQ|, r.freeNum);
    PreparedInOrder(Read, Write, r.conns, r.prepared, r.recvQ[..k], r.recvTaken);
  }

  lemma EnteredWrites(r: Ring)
    requires Entered(r) && TakeWrites(r).Done?
    ensures Entered(TakeWrites(r).ring)
  {
    var k := Min(|r.sendQ|, r.freeNum);
    PreparedInOrder(Write, Read, r.conns, r.prepared, r.sendQ[..k], r.sendTaken);
  }

  lemma EnteredSame(r: Ring, r': Ring)
    requires Entered(r) && r'.recvTaken == r.recvTaken && r'.sendTaken == r.sendTaken && r'.prepared in {r.prepared, []}
    ensures Entered(r')
  {
    EmptyTail(r.recvTaken);
    EmptyTail(r.sendTaken);
  }

  lemma EmptyTail<T>(t: seq<T>)
    ensures Tail([], t)
  {
    assert t[|t|..] == [];
  }

  lemma {:induction false} EnteredRun(r: Ring, steps: seq<Step>)
    requires Entered(r) && Exec(r, steps).Done?
    ensures Entered(Exec(r, steps).ring)
    decreases |steps|
  {
    if steps != [] {
      if Enabled(r, steps[0]) {
        var r' := Apply(r, steps[0]).ring;
        if steps[0].BeginRecv? {
          EnteredReads(r);
        } else if steps[0].BeginSend? {
          EnteredWrites(r);
        } else {
          TakesNothing(r, steps[0]);
          EnteredSame(r, r');
        }
        EnteredRun(r', steps[1..]);
      } else {
        EnteredRun(r, steps[1..]);
      }
    }
  }

  lemma TakesNothing(r: Ring, step: Step)
    requires Enabled(r, step) && Apply(r, step).Done? && !step.BeginRecv? && !step.BeginSend?
    ensures var r' := Apply(r, step).ring;
            r'.recvTaken == r.recvTaken && r'.sendTaken == r.sendTaken && r'.prepared in {r.prepared, []}
  {
  }

  // ---------------------------------------------------------------- runs from an empty ring

  lemma StepFirst(r: Ring, step: Step, rest: seq<Step>)
    requires Enabled(r, step) && Apply(r, step).Done?
    ensures Exec(r, [step] + rest) == Exec(Apply(r, step).ring, rest)
  {
    assert ([step] + rest)[1..] == rest;
  }

  lemma {:induction false} ExecConcat(r: Ring, a: seq<Step>, b: seq<Step>)
    requires Exec(r, a).Done?
    ensures Exec(r, a + b) == Exec(Exec(r, a).ring, b)
    decreases |a|
  {
    if a == [] {
      assert a + b == b;
    } else {
      assert (a + b)[1..] == a[1..] + b;
      ExecConcat(if Enabled(r, a[0]) then Apply(r, a[0]).ring else r, a[1..], b);
    }
  }

  /** The states some run leads to from an empty ring of the given size. */
  ghost predicate Reachable(queueSize: nat, r: Ring) {
    queueSize >= 1 && exists steps :: Exec(Init(queueSize), steps) == Done(r)
  }

  lemma ReachableRun(queueSize: nat, r: Ring, steps: seq<Step>)
    requires Reachable(queueSize, r)
    ensures Exec(r, steps).Done? && Reachable(queueSize, Exec(r, steps).ring) && Inv(r)
  {
    var past :| Exec(Init(queueSize), past) == Done(r);
    RunsKeepInv(queueSize, past);
    ExecConcat(Init(queueSize), past, steps);
    RunsKeepInv(queueSize, past + steps);
  }

  lemma ReachableStep(queueSize: nat, r: Ring, step: Step)
    requires Reachable(queueSize, r) && Enabled(r, step)
    ensures Apply(r, step).Done? && Reachable(queueSize, Apply(r, step).ring)
  {
    ReachableRun(queueSize, r, [step]);
    StepKeeps(r, step);
    StepFirst(r, step, []);
  }

  lemma {:induction false} SizeKept(r: Ring, steps: seq<Step>)
    requires Exec(r, steps).Done?
    ensures Exec(r, steps).ring.queueSize == r.queueSize
    decreases |steps|
  {
    if steps != [] {
      SizeKept(if Enabled(r, steps[0]) then Apply(r, steps[0]).ring else r, steps[1..]);
    }
  }

  lemma SizeStays(queueSize: nat, r: Ring)
    requires Reachable(queueSize, r)
    ensures r.queueSize == queueSize
  {
    var past :| Exec(Init(queueSize), past) == Done(r);
    SizeKept(Init(queueSize), past);
  }

  /** The life cycle is safe: whatever the interleaving and whatever the kernel answers, no
      lookup or flag assertion of the source fails, every flag equals what it stands for,
      no more entries are taken between two submits than the ring has, and each queue is
      prepared in arrival order. */
  lemma RunsAreSafe(queueSize: nat, steps: seq<Step>)
    requires queueSize >= 1
    ensures var o := Exec(Init(queueSize), steps);
            o.Done? && Inv(o.ring) && |o.ring.prepared| <= o.ring.queueSize - 1 &&
            o.ring.recvTaken <= o.ring.recvLog && Tail(FdsOf(Read, o.ring.prepared), o.ring.recvTaken) &&
            o.ring.sendTaken <= o.ring.sendLog && Tail(FdsOf(Write, o.ring.prepared), o.ring.sendTaken)
  {
    RunsKeepInv(queueSize, steps);
    EmptyTail<Fd>([]);
    EnteredRun(Init(queueSize), steps);
  }

  lemma RunsKeepInv(queueSize: nat, steps: seq<Step>)
    requires queueSize >= 1
    ensures Exec(Init(queueSize), steps).Done? && Inv(Exec(Init(queueSize), steps).ring)
  {
    InitInv(queueSize);
    RunKeeps(Init(queueSize), steps);
  }

  /** In every run, for every channel of the table: its flag is the number of its writes that are
      queued or in flight, and it has exactly one read queued, in flight or being resumed until
      a close is asked for, and none after that.  Every identity ever given out is in the table
      or was closed once. */
  lemma EveryChannelCounted(queueSize: nat, steps: seq<Step>, fd: Fd, id: nat)
    requires queueSize >= 1
    ensures var o := Exec(Init(queueSize), steps);
            o.Done? &&
            var r, flying := o.ring, multiset(o.ring.prepared) + o.ring.inKernel;
            (fd in r.conns ==>
              var c := r.conns[fd];
              c.sendFlag == multiset(r.sendQ)[fd] + flying[Request(Write, fd, c.id)] &&
              multiset(r.recvQ)[fd] + flying[Request(Read, fd, c.id)] + (if r.running == Some(fd) then 1 else 0)
              == if c.closeFlag then 0 else 1) &&
            (fd !in r.conns ==> fd !in r.recvQ && fd !in r.sendQ && forall req <- flying :: req.fd != fd) &&
            (id < r.born ==> multiset(r.closed)[id] == if Live(r.conns, id) then 0 else 1)
  {
    RunsAreSafe(queueSize, steps);
    var r := Exec(Init(queueSize), steps).ring;
    if fd in r.conns {
      assert Counted(Owed(r), fd, r.conns[fd]);
    } else {
      NothingUnknown(r, fd);
    }
  }

  lemma NothingUnknown(r: Ring, fd: Fd)
    requires Inv(r) && fd !in r.conns
    ensures fd !in r.recvQ && fd !in r.sendQ && forall req <- multiset(r.prepared) + r.inKernel :: req.fd != fd
  {
    assert Known(Owed(r), r.conns);
    assert forall f <- r.recvQ :: f in Owed(r).recv;
    assert forall f <- r.sendQ :: f in Owed(r).send;
  }

  /** The steps at which a connection goes away. */
  predicate Closing(r: Ring, step: Step) {
    match step
    case ReadDone(req, result) => !result.Data? && req.fd in r.conns && r.conns[req.fd].sendFlag == 0
    case WriteDone(req, more) => !more && req.fd in r.conns && r.conns[req.fd].closeFlag && r.conns[req.fd].sendFlag == 1
    case _ => false
  }

  /** Nothing anywhere refers to the channel with identity `id`. */
  ghost predicate Forgotten(r: Ring, id: nat) {
    !Live(r.conns, id) && (forall req <- r.prepared :: req.chan != id) && (forall req <- r.inKernel :: req.chan != id)
  }

  /** `closeCb_` runs exactly at the closing steps, for a channel never closed before, and
      leaves no request that points to it. */
  lemma ClosedOnceAndQuiet(r: Ring, step: Step)
    requires Inv(r) && Enabled(r, step)
    ensures Apply(r, step).Done?
    ensures var r' := Apply(r, step).ring;
            if Closing(r, step)
            then exists id :: Live(r.conns, id) && id !in r.closed && r'.closed == r.closed + [id] && Forgotten(r', id)
            else r'.closed == r.closed
  {
    StepKeeps(r, step);
    if Closing(r, step) {
      ClosingCloses(r, step);
      Retired(r, Apply(r, step).ring, step.req);
    } else {
      NoNegativeFlag(r);
      OtherStepsCloseNothing(r, step);
    }
  }

  lemma NoNegativeFlag(r: Ring)
    requires Inv(r)
    ensures forall fd <- r.conns :: r.conns[fd].sendFlag >= 0
  {
    forall fd <- r.conns ensures r.conns[fd].sendFlag >= 0 { assert Counted(Owed(r), fd, r.conns[fd]); }
  }

  lemma Retired(r: Ring, r': Ring, req: Request)
    requires Inv(r) && Inv(r') && req in r.inKernel && req.fd in r.conns
    requires r'.closed == r.closed + [r.conns[req.fd].id] && r'.born == r.born
    ensures exists id :: Live(r.conns, id) && id !in r.closed && r'.closed == r.closed + [id] && Forgotten(r', id)
  {
    var id := r.conns[req.fd].id;
    assert Live(r.conns, id) && multiset(r.closed)[id] == 0;
    assert multiset(r'.closed)[id] == 1;
    NoPointer(r', id);
  }

  lemma ClosingCloses(r: Ring, step: Step)
    requires Inv(r) && Enabled(r, step) && Closing(r, step) && Apply(r, step).Done?
    ensures var r' := Apply(r, step).ring;
            step.req in r.inKernel && step.req.fd in r.conns &&
            r'.closed == r.closed + [r.conns[step.req.fd].id] && r'.born == r.born
  {
    var req := step.req;
    assert req in Owed(r).reqs && Counted(Owed(r), req.fd, r.conns[req.fd]);
  }

  lemma NoPointer(r: Ring, id: nat)
    requires Inv(r) && id < r.born && !Live(r.conns, id)
    ensures Forgotten(r, id)
  {
    forall req | req in r.prepared || req in r.inKernel
      ensures req.chan != id
    {
      assert req in Owed(r).reqs;
    }
  }

  lemma OtherStepsCloseNothing(r: Ring, step: Step)
    requires Enabled(r, step) && Apply(r, step).Done? && !Closing(r, step)
    requires forall fd <- r.conns :: r.conns[fd].sendFlag >= 0
    ensures Apply(r, step).ring.closed == r.closed
  {
  }

  /** Each write completion that queues a further write costs a slot for good: when
      `queueSize - 1` of them have happened the ring never issues a request again. */
  lemma {:induction false} StalledForever(r: Ring, steps: seq<Step>)
    requires Inv(r) && r.requeued == r.queueSize - 1
    ensures Exec(r, steps).Done?
    ensures var r' := Exec(r, steps).ring;
            r'.freeNum == 0 && r'.prepared == [] && r'.inKernel == multiset{} &&
            r'.recvTaken == r.recvTaken && r'.sendTaken == r.sendTaken
    decreases |steps|
  {
    if steps != [] && Enabled(r, steps[0]) {
      StepKeeps(r, steps[0]);
      StalledStep(r, steps[0]);
      StalledForever(Apply(r, steps[0]).ring, steps[1..]);
    } else if steps != [] {
      StalledForever(r, steps[1..]);
    }
  }

  lemma StalledStep(r: Ring, step: Step)
    requires Slots(r) && r.requeued == r.queueSize - 1 && Enabled(r, step) && Apply(r, step).Done?
    ensures var r' := Apply(r, step).ring;
            r'.requeued == r.requeued && r'.queueSize == r.queueSize &&
            r'.recvTaken == r.recvTaken && r'.sendTaken == r.sendTaken
  {
  }

  /** It happens: on the smallest useful ring one connection and one partial write suffice,
      and the read of that connection is never issued. */
  lemma StallExample(fd: Fd)
    ensures var write := Request(Write, fd, 0);
            var o := Exec(Init(2), [AddNewFd(fd), Send(fd), BeginSend, Submit, WriteDone(write, true)]);
            o.Done? && o.ring.requeued == o.ring.queueSize - 1 && o.ring.recvQ == [fd]
  {
    var write := Request(Write, fd, 0);
    var r1 := Apply(Init(2), AddNewFd(fd)).ring;
    StepFirst(Init(2), AddNewFd(fd), [Send(fd), BeginSend, Submit, WriteDone(write, true)]);
    StepFirst(r1, Send(fd), [BeginSend, Submit, WriteDone(write, true)]);
    StalledAfterSend(fd, SendOn(r1, fd));
  }

  lemma StalledAfterSend(fd: Fd, r2: Ring)
    requires r2.queueSize == 2 && r2.freeNum == 1 && r2.recvQ == [fd] && r2.sendQ == [fd]
    requires fd in r2.conns && r2.conns[fd].id == 0
    requires r2.prepared == [] && r2.inKernel == multiset{} && r2.running.None? && r2.requeued == 0
    ensures var o := Exec(r2, [BeginSend, Submit, WriteDone(Request(Write, fd, 0), true)]);
            o.Done? && o.ring.requeued == o.ring.queueSize - 1 && o.ring.recvQ == [fd]
  {
    var write := Request(Write, fd, 0);
    assert r2.sendQ[..1] == [fd];
    var r3 := Apply(r2, BeginSend).ring;
    assert Requests(Write, r2.conns, [fd]) == [write] + Requests(Write, r2.conns, []) == [write];
    assert r3.prepared == [write];
    StepFirst(r2, BeginSend, [Submit, WriteDone(write, true)]);
    var r4 := Apply(r3, Submit).ring;
    StepFirst(r3, Submit, [WriteDone(write, true)]);
    StepFirst(r4, WriteDone(write, true), []);
  }

  /** Every slot is back once nothing is in flight exactly when no completion ever queued a
      further write. */
  lemma SlotsComeBack(r: Ring)
    requires Inv(r) && r.prepared == [] && r.inKernel == multiset{} && r.running.None?
    ensures r.freeNum == r.queueSize - 1 <==> r.requeued == 0
  {
  }
}
