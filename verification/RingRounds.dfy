/** What completions do: the machine's steps for each, and, for a whole round of them, the effect
    on the queues, the table, the flags and the slots in closed form. */
module RingRounds {
  import opened Wrappers
  import opened RingModel
  import opened RingProofs

  /** What the kernel reports for one request, with what the callback does about it. */
  datatype Completion =
    | ReadCqe(req: Request, result: ReadResult, sends: seq<Fd>)
    | WriteCqe(req: Request, more: bool)

  /** Sends on the channels at `fds`, where there are any. */
  function Sends(fds: seq<Fd>): (steps: seq<Step>)
    ensures |steps| == |fds|
  {
    if fds == [] then [] else Sends(fds[..|fds| - 1]) + [Send(fds[|fds| - 1])]
  }

  function StepsOf(c: Completion): seq<Step> {
    match c
    case ReadCqe(req, Data, sends) => [ReadDone(req, Data)] + (Sends(sends) + [Rearm])
    case ReadCqe(req, result, _) => [ReadDone(req, result)]
    case WriteCqe(req, more) => [WriteDone(req, more)]
  }

  lemma TableIsOpen(queueSize: nat, r: Ring)
    requires Reachable(queueSize, r)
    ensures r.open == r.conns.Keys
  {
    ReachableRun(queueSize, r, []);
  }

  function Flatten(cqes: seq<Completion>): seq<Step> {
    if cqes == [] then [] else Flatten(cqes[..|cqes| - 1]) + StepsOf(cqes[|cqes| - 1])
  }

  /** The kernel reports requests it holds, each once. */
  ghost predicate Reported(cqes: seq<Completion>, inKernel: multiset<Request>) {
    if cqes == [] then true
    else
      var c := cqes[0];
      c.req in inKernel && (c.ReadCqe? <==> c.req.kind.Read?) && Reported(cqes[1..], inKernel - multiset{c.req})
  }

  lemma {:induction false} SendsLeaveKernel(r: Ring, fds: seq<Fd>)
    ensures var o := Exec(r, Sends(fds));
            o.Done? && o.ring.inKernel == r.inKernel && o.ring.running == r.running
  {
    if fds != [] {
      var n := |fds| - 1;
      SendsLeaveKernel(r, fds[..n]);
      ExecConcat(r, Sends(fds[..n]), [Send(fds[n])]);
      OneSend(Exec(r, Sends(fds[..n])).ring, fds[n]);
    }
  }

  lemma OneSend(r: Ring, fd: Fd)
    ensures Exec(r, [Send(fd)]) == Done(if fd in r.conns then SendOn(r, fd) else r)
  {
    assert [Send(fd)][1..] == [];
  }

  /** A reported completion can be handled, and leaves the others reported. */
  lemma OneCompletion(queueSize: nat, r: Ring, c: Completion, rest: seq<Completion>)
    requires Reachable(queueSize, r) && r.running.None? && Reported([c] + rest, r.inKernel)
    ensures var first := StepsOf(c)[0]; Enabled(r, first) && Apply(r, first).Done?
    ensures var o := Exec(r, StepsOf(c));
            o.Done? && Reachable(queueSize, o.ring) && o.ring.running.None? && Reported(rest, o.ring.inKernel)
  {
    assert ([c] + rest)[1..] == rest;
    var first := StepsOf(c)[0];
    ReachableStep(queueSize, r, first);
    FirstStep(r, c);
    if c.ReadCqe? && c.result.Data? {
      DataCompletion(queueSize, Apply(r, first).ring, c.req.fd, c.sends);
      StepFirst(r, first, Sends(c.sends) + [Rearm]);
    } else {
      StepFirst(r, first, []);
    }
  }

  /** A completion takes its request from the kernel, and runs the coroutine only if there is data. */
  lemma FirstStep(r: Ring, c: Completion)
    requires Enabled(r, StepsOf(c)[0]) && Apply(r, StepsOf(c)[0]).Done?
    ensures var r' := Apply(r, StepsOf(c)[0]).ring;
            r'.inKernel == r.inKernel - multiset{c.req} &&
            r'.running == if c.ReadCqe? && c.result.Data? then Some(c.req.fd) else None
  {
  }

  lemma DataCompletion(queueSize: nat, r: Ring, fd: Fd, sends: seq<Fd>)
    requires Reachable(queueSize, r) && r.running == Some(fd)
    ensures var o := Exec(r, Sends(sends) + [Rearm]);
            o.Done? && Reachable(queueSize, o.ring) && o.ring.running.None? && o.ring.inKernel == r.inKernel
  {
    SendsLeaveKernel(r, sends);
    ReachableRun(queueSize, r, Sends(sends) + [Rearm]);
    ExecConcat(r, Sends(sends), [Rearm]);
    var r1 := Exec(r, Sends(sends)).ring;
    assert Exec(r1, [Rearm]) == FinishRead(r1, fd);
  }

  lemma FlattenNext(r: Ring, cqes: seq<Completion>, i: nat)
    requires i < |cqes| && Exec(r, Flatten(cqes[..i])).Done?
    ensures Exec(r, Flatten(cqes[..i + 1])) == Exec(Exec(r, Flatten(cqes[..i])).ring, StepsOf(cqes[i]))
  {
    assert cqes[..i + 1][..i] == cqes[..i];
    ExecConcat(r, Flatten(cqes[..i]), StepsOf(cqes[i]));
  }

  lemma HandOverSteps(r0: Ring, steps: seq<Step>, r1: Ring, r2: Ring, r3: Ring)
    requires Exec(r0, steps) == Done(r1) && r1.running.None?
    requires TakeReads(r1) == Done(r2) && TakeWrites(r2) == Done(r3)
    ensures Exec(r0, steps + [BeginRecv, BeginSend, Submit]) == Done(SubmitAll(r3))
  {
    ExecConcat(r0, steps, [BeginRecv, BeginSend, Submit]);
    StepFirst(r1, BeginRecv, [BeginSend, Submit]);
    StepFirst(r2, BeginSend, [Submit]);
    StepFirst(r3, Submit, []);
  }

  // ---------------------------------------------------------------- what one completion does

  /** The elements of `s` that are in `keep`, in their order and as often as they occur. */
  function Restrict(s: seq<Fd>, keep: set<Fd>): (r: seq<Fd>)
    ensures forall x :: multiset(r)[x] == if x in keep then multiset(s)[x] else 0
  {
    if s == [] then []
    else
      var n := |s| - 1;
      assert s == s[..n] + [s[n]];
      Restrict(s[..n], keep) + if s[n] in keep then [s[n]] else []
  }

  lemma RestrictLast(s: seq<Fd>, x: Fd, keep: set<Fd>)
    ensures Restrict(s + [x], keep) == Restrict(s, keep) + if x in keep then [x] else []
  {
    assert (s + [x])[..|s|] == s;
  }

  lemma {:induction false} RestrictConcat(s: seq<Fd>, t: seq<Fd>, keep: set<Fd>)
    ensures Restrict(s + t, keep) == Restrict(s, keep) + Restrict(t, keep)
  {
    if t == [] {
      assert s + t == s;
    } else {
      var front, x := t[..|t| - 1], t[|t| - 1];
      var last := if x in keep then [x] else [];
      assert t == front + [x];
      AssocFds(s, front, [x]);
      RestrictConcat(s, front, keep);
      RestrictLast(s + front, x, keep);
      RestrictLast(front, x, keep);
      AssocFds(Restrict(s, keep), Restrict(front, keep), last);
    }
  }

  /** The descriptors whose channels take sends. */
  function Accepting(conns: map<Fd, Chan>): set<Fd> {
    set fd | fd in conns && !conns[fd].closeFlag
  }

  /** Only flags grew, each by the number of occurrences in `queued`. */
  ghost predicate Grown(conns: map<Fd, Chan>, conns': map<Fd, Chan>, queued: seq<Fd>) {
    conns'.Keys == conns.Keys &&
    forall fd <- conns :: conns'[fd] == conns[fd].(sendFlag := conns[fd].sendFlag + multiset(queued)[fd])
  }

  lemma SameAccepting(conns: map<Fd, Chan>, conns': map<Fd, Chan>)
    requires conns'.Keys == conns.Keys && forall fd <- conns :: conns'[fd].closeFlag == conns[fd].closeFlag
    ensures Accepting(conns') == Accepting(conns)
  {
    assert forall fd :: fd in Accepting(conns') <==> fd in conns && !conns[fd].closeFlag;
  }

  lemma SendGrows(conns: map<Fd, Chan>, r: Ring, queued: seq<Fd>, fd: Fd)
    requires Grown(conns, r.conns, queued)
    ensures var r' := if fd in r.conns then SendOn(r, fd) else r;
            if fd in Accepting(conns)
            then Grown(conns, r'.conns, queued + [fd]) &&
                 r' == Queued(r, [fd], r'.conns)
            else r' == r
  {
    assert forall f :: multiset(queued + [fd])[f] == multiset(queued)[f] + if f == fd then 1 else 0;
  }

  lemma SendsNext(r: Ring, fds: seq<Fd>, fd: Fd)
    requires Exec(r, Sends(fds)).Done?
    ensures var r1 := Exec(r, Sends(fds)).ring; Exec(r, Sends(fds + [fd])) == Done(if fd in r1.conns then SendOn(r1, fd) else r1)
  {
    assert (fds + [fd])[..|fds|] == fds;
    ExecConcat(r, Sends(fds), [Send(fd)]);
    OneSend(Exec(r, Sends(fds)).ring, fd);
  }

  /** The ring `r` with `queued` put into the send queue and the table `conns`. */
  function Queued(r: Ring, queued: seq<Fd>, conns: map<Fd, Chan>): Ring {
    r.(sendQ := r.sendQ + queued, sendLog := r.sendLog + queued, conns := conns)
  }

  lemma QueuedMore(r: Ring, queued: seq<Fd>, conns: map<Fd, Chan>, more: seq<Fd>, conns': map<Fd, Chan>)
    ensures Queued(Queued(r, queued, conns), more, conns') == Queued(r, queued + more, conns')
    ensures Queued(r, [], r.conns) == r
  {
    AssocFds(r.sendQ, queued, more);
    AssocFds(r.sendLog, queued, more);
  }

  /** From `r` to `r'` just the writes `queued` were queued and counted. */
  ghost predicate Sent(r: Ring, r': Ring, queued: seq<Fd>) {
    Grown(r.conns, r'.conns, queued) && r' == Queued(r, queued, r'.conns)
  }

  lemma SentOne(r: Ring, r1: Ring, queued: seq<Fd>, fd: Fd)
    requires Sent(r, r1, queued)
    ensures Sent(r, if fd in r1.conns then SendOn(r1, fd) else r1, queued + if fd in Accepting(r.conns) then [fd] else [])
  {
    SendGrows(r.conns, r1, queued, fd);
    if fd in Accepting(r.conns) {
      QueuedMore(r, queued, r1.conns, [fd], SendOn(r1, fd).conns);
    } else {
      assert queued + [] == queued;
    }
  }

  /** The sends a callback makes: each on a channel that takes sends queues one write and counts
      it, and the others do nothing. */
  lemma {:induction false} SendsEffect(r: Ring, fds: seq<Fd>)
    ensures Exec(r, Sends(fds)).Done? && Sent(r, Exec(r, Sends(fds)).ring, Restrict(fds, Accepting(r.conns)))
  {
    if fds == [] {
      QueuedMore(r, [], r.conns, [], r.conns);
    } else {
      var front, fd := fds[..|fds| - 1], fds[|fds| - 1];
      assert fds == front + [fd];
      SendsEffect(r, front);
      SendsNext(r, front, fd);
      RestrictLast(front, fd, Accepting(r.conns));
      SentOne(r, Exec(r, Sends(front)).ring, Restrict(front, Accepting(r.conns)), fd);
    }
  }

  lemma GrownUpdate(conns: map<Fd, Chan>, conns': map<Fd, Chan>, queued: seq<Fd>, fd: Fd)
    requires Grown(conns, conns', queued) && fd in conns
    ensures Grown(conns[fd := conns[fd].(task := Armed)], conns'[fd := conns'[fd].(task := Armed)], queued)
  {
  }

  lemma RearmEffect(r: Ring, fd: Fd)
    requires fd in r.conns && r.running == Some(fd)
    ensures Exec(r, [Rearm]) == Done(r.(recvQ := r.recvQ + [fd], recvLog := r.recvLog + [fd], freeNum := r.freeNum + 1,
                                        running := None, conns := r.conns[fd := r.conns[fd].(task := Armed)]))
  {
    assert [Rearm][1..] == [];
  }

  lemma SendsThenRearm(r: Ring, fd: Fd, sends: seq<Fd>)
    requires fd in r.conns && r.running == Some(fd)
    ensures var o, queued := Exec(r, Sends(sends) + [Rearm]), Restrict(sends, Accepting(r.conns));
            o.Done? && Grown(r.conns[fd := r.conns[fd].(task := Armed)], o.ring.conns, queued) &&
            o.ring == Queued(r, queued, o.ring.conns).(recvQ := r.recvQ + [fd], recvLog := r.recvLog + [fd],
                                                       freeNum := r.freeNum + 1, running := None)
  {
    SendsEffect(r, sends);
    ExecConcat(r, Sends(sends), [Rearm]);
    var r2 := Exec(r, Sends(sends)).ring;
    RearmEffect(r2, fd);
    GrownUpdate(r.conns, r2.conns, Restrict(sends, Accepting(r.conns)), fd);
  }

  lemma WakeEffect(r: Ring, req: Request)
    requires CompleteRead(r, req, Data).Done?
    ensures req.fd in r.conns
    ensures var r' := CompleteRead(r, req, Data).ring;
            r' == r.(inKernel := r.inKernel - multiset{req}, running := Some(req.fd), conns := r'.conns) &&
            req.fd in r'.conns && Accepting(r'.conns) == Accepting(r.conns) &&
            r'.conns[req.fd := r'.conns[req.fd].(task := Armed)] == r.conns[req.fd := r.conns[req.fd].(task := Armed)]
  {
    SameAccepting(r.conns, CompleteRead(r, req, Data).ring.conns);
  }

  /** Data: the callback's sends are queued and counted, the next read is queued, a slot is back. */
  lemma DataEffect(r: Ring, req: Request, sends: seq<Fd>)
    requires Enabled(r, ReadDone(req, Data)) && CompleteRead(r, req, Data).Done?
    ensures var o, queued := Exec(r, StepsOf(ReadCqe(req, Data, sends))), Restrict(sends, Accepting(r.conns));
            o.Done? && o.ring.sendQ == r.sendQ + queued && o.ring.recvQ == r.recvQ + [req.fd] &&
            o.ring.freeNum == r.freeNum + 1 && req.fd in r.conns &&
            Grown(r.conns[req.fd := r.conns[req.fd].(task := Armed)], o.ring.conns, queued)
  {
    WakeEffect(r, req);
    StepFirst(r, ReadDone(req, Data), Sends(sends) + [Rearm]);
    SendsThenRearm(CompleteRead(r, req, Data).ring, req.fd, sends);
  }

  /** No bytes: the channel closes at once or, with writes outstanding, later; a slot is back. */
  lemma GoneEffect(r: Ring, req: Request, result: ReadResult, sends: seq<Fd>)
    requires !result.Data? && Enabled(r, ReadDone(req, result)) && CompleteRead(r, req, result).Done?
    ensures var o, c := Exec(r, StepsOf(ReadCqe(req, result, sends))), r.conns[req.fd];
            o.Done? && o.ring.recvQ == r.recvQ && o.ring.sendQ == r.sendQ && o.ring.freeNum == r.freeNum + 1 &&
            o.ring.conns == if c.sendFlag > 0 then r.conns[req.fd := c.(closeFlag := true, task := Finished)]
                            else r.conns - {req.fd}
  {
    StepFirst(r, ReadDone(req, result), []);
  }

  /** Both kinds of read completion at once, channel by channel. */
  lemma ReadDoes(r: Ring, req: Request, result: ReadResult, sends: seq<Fd>)
    requires Enabled(r, ReadDone(req, result)) && CompleteRead(r, req, result).Done?
    ensures var o := Exec(r, StepsOf(ReadCqe(req, result, sends)));
            o.Done? && o.ring.freeNum == r.freeNum + 1 &&
            o.ring.recvQ == r.recvQ + (if result.Data? then [req.fd] else []) &&
            o.ring.sendQ == r.sendQ + (if result.Data? then Restrict(sends, Accepting(r.conns)) else []) &&
            o.ring.conns.Keys <= r.conns.Keys &&
            forall fd <- o.ring.conns ::
              o.ring.conns[fd].closeFlag == (r.conns[fd].closeFlag || (fd == req.fd && !result.Data?)) &&
              o.ring.conns[fd].sendFlag == r.conns[fd].sendFlag +
                                           if result.Data? && !r.conns[fd].closeFlag then multiset(sends)[fd] else 0
  {
    if result.Data? {
      DataEffect(r, req, sends);
    } else {
      GoneEffect(r, req, result, sends);
      assert r.recvQ + [] == r.recvQ && r.sendQ + [] == r.sendQ;
    }
  }

  lemma ReduceEffect(r: Ring, fd: Fd)
    requires fd in r.conns && ReduceSend(r, fd).Done?
    ensures var r', c := ReduceSend(r, fd).ring, r.conns[fd];
            r'.recvQ == r.recvQ && r'.sendQ == r.sendQ && r'.freeNum == r.freeNum &&
            r'.conns == if c.sendFlag == 1 && c.closeFlag then r.conns - {fd} else r.conns[fd := c.(sendFlag := c.sendFlag - 1)]
  {
    var c := r.conns[fd].(sendFlag := r.conns[fd].sendFlag - 1);
    assert r.conns[fd := c] - {fd} == r.conns - {fd};
  }

  /** A write: queued again without a slot, or counted off with its slot back, the deferred close
      happening at zero. */
  lemma WroteEffect(r: Ring, req: Request, more: bool)
    requires Enabled(r, WriteDone(req, more)) && CompleteWrite(r, req, more).Done?
    ensures var o, c := Exec(r, StepsOf(WriteCqe(req, more))), r.conns[req.fd];
            o.Done? && o.ring.recvQ == r.recvQ && o.ring.sendQ == r.sendQ + (if more then [req.fd] else []) &&
            o.ring.freeNum == r.freeNum + (if more then 0 else 1) &&
            o.ring.conns == if more then r.conns else if c.sendFlag == 1 && c.closeFlag then r.conns - {req.fd}
                            else r.conns[req.fd := c.(sendFlag := c.sendFlag - 1)]
  {
    StepFirst(r, WriteDone(req, more), []);
    if !more { ReduceEffect(r.(inKernel := r.inKernel - multiset{req}), req.fd); }
  }

  // ---------------------------------------------------------------- what a round does

  /** The channels whose end the round learns. */
  function Gone(cqes: seq<Completion>): set<Fd> {
    set c | c in cqes && c.ReadCqe? && !c.result.Data? :: c.req.fd
  }

  /** The reads it queues: one for each completion with data. */
  function Reread(cqes: seq<Completion>): seq<Fd> {
    if cqes == [] then []
    else (if cqes[0].ReadCqe? && cqes[0].result.Data? then [cqes[0].req.fd] else []) + Reread(cqes[1..])
  }

  function Written(cqes: seq<Completion>): seq<Fd> {
    if cqes == [] then [] else (if cqes[0].WriteCqe? then [cqes[0].req.fd] else []) + Written(cqes[1..])
  }

  /** The slots it gives back: one for each completion but the writes queued again. */
  function Returned(cqes: seq<Completion>): nat {
    if cqes == [] then 0 else (if cqes[0].WriteCqe? && cqes[0].more then 0 else 1) + Returned(cqes[1..])
  }

  /** The writes it queues: the sends of the callbacks on channels that take them, those at `open`
      until their end is learnt, and the writes queued again. */
  function Asked(cqes: seq<Completion>, open: set<Fd>): seq<Fd> {
    if cqes == [] then []
    else
      var c := cqes[0];
      (if c.WriteCqe? then (if c.more then [c.req.fd] else []) else if c.result.Data? then Restrict(c.sends, open) else [])
      + Asked(cqes[1..], open - Gone([c]))
  }

  /** The flag of the channel at `fd`: what it was and the writes queued, less the writes completed. */
  function FlagAfter(conns: map<Fd, Chan>, cqes: seq<Completion>, fd: Fd): int
    requires fd in conns
  {
    conns[fd].sendFlag + multiset(Asked(cqes, Accepting(conns)))[fd] - multiset(Written(cqes))[fd]
  }

  /** A channel is gone when a close was asked for and its flag is down; the others stay. */
  ghost predicate After(conns: map<Fd, Chan>, cqes: seq<Completion>, conns': map<Fd, Chan>) {
    conns'.Keys <= conns.Keys &&
    forall fd <- conns ::
      var flag, closing := FlagAfter(conns, cqes, fd), conns[fd].closeFlag || fd in Gone(cqes);
      if closing && flag == 0 then fd !in conns'
      else fd in conns' && conns'[fd].sendFlag == flag && conns'[fd].closeFlag == closing
  }

  ghost predicate Sane(conns: map<Fd, Chan>) {
    forall fd <- conns :: conns[fd].sendFlag >= 0 && (conns[fd].closeFlag ==> conns[fd].sendFlag > 0)
  }

  lemma ReachableSane(queueSize: nat, r: Ring)
    requires Reachable(queueSize, r)
    ensures Sane(r.conns)
  {
    ReachableRun(queueSize, r, []);
    forall fd <- r.conns ensures r.conns[fd].sendFlag >= 0 && (r.conns[fd].closeFlag ==> r.conns[fd].sendFlag > 0) {
      assert Counted(Owed(r), fd, r.conns[fd]);
    }
  }

  lemma RoundOfNone(conns: map<Fd, Chan>)
    requires Sane(conns)
    ensures After(conns, [], conns)
  {
  }

  lemma RoundOfOne(c: Completion, open: set<Fd>)
    ensures Asked([c], open) == (if c.WriteCqe? then (if c.more then [c.req.fd] else [])
                                 else if c.result.Data? then Restrict(c.sends, open) else [])
    ensures Written([c]) == if c.WriteCqe? then [c.req.fd] else []
    ensures Gone([c]) == if c.ReadCqe? && !c.result.Data? then {c.req.fd} else {}
    ensures Reread([c]) == if c.ReadCqe? && c.result.Data? then [c.req.fd] else []
  {
    assert [c][1..] == [];
  }

  lemma AskedFirst(c: Completion, rest: seq<Completion>, open: set<Fd>)
    ensures Asked([c] + rest, open) == Asked([c], open) + Asked(rest, open - Gone([c]))
  {
    RoundOfOne(c, open);
    assert ([c] + rest)[1..] == rest;
  }

  lemma WrittenFirst(c: Completion, rest: seq<Completion>)
    ensures Written([c] + rest) == Written([c]) + Written(rest)
  {
    RoundOfOne(c, {});
    assert ([c] + rest)[1..] == rest;
  }

  lemma RereadFirst(c: Completion, rest: seq<Completion>)
    ensures Reread([c] + rest) == Reread([c]) + Reread(rest)
  {
    RoundOfOne(c, {});
    assert ([c] + rest)[1..] == rest;
  }

  lemma RoundFirst(c: Completion, rest: seq<Completion>, open: set<Fd>)
    ensures Asked([c] + rest, open) == Asked([c], open) + Asked(rest, open - Gone([c]))
    ensures Written([c] + rest) == Written([c]) + Written(rest)
    ensures Gone([c] + rest) == Gone([c]) + Gone(rest)
    ensures Reread([c] + rest) == Reread([c]) + Reread(rest)
    ensures Returned([c] + rest) == Returned([c]) + Returned(rest)
  {
    AskedFirst(c, rest, open);
    WrittenFirst(c, rest);
    RereadFirst(c, rest);
    assert ([c] + rest)[1..] == rest && [c][1..] == [];
  }

  lemma AfterData(conns: map<Fd, Chan>, c: Completion, conns': map<Fd, Chan>)
    requires Sane(conns) && c.ReadCqe? && c.result.Data? && c.req.fd in conns
    requires Grown(conns[c.req.fd := conns[c.req.fd].(task := Armed)], conns', Restrict(c.sends, Accepting(conns)))
    ensures After(conns, [c], conns')
  {
    RoundOfOne(c, Accepting(conns));
  }

  lemma AfterGone(conns: map<Fd, Chan>, c: Completion, conns': map<Fd, Chan>)
    requires Sane(conns) && c.ReadCqe? && !c.result.Data? && c.req.fd in conns
    requires var x := conns[c.req.fd];
             conns' == if x.sendFlag > 0 then conns[c.req.fd := x.(closeFlag := true, task := Finished)] else conns - {c.req.fd}
    ensures After(conns, [c], conns')
  {
    RoundOfOne(c, Accepting(conns));
  }

  lemma AfterWrote(conns: map<Fd, Chan>, c: Completion, conns': map<Fd, Chan>)
    requires Sane(conns) && c.WriteCqe? && c.req.fd in conns
    requires var x := conns[c.req.fd];
             conns' == if c.more then conns else if x.sendFlag == 1 && x.closeFlag then conns - {c.req.fd}
                       else conns[c.req.fd := x.(sendFlag := x.sendFlag - 1)]
    ensures After(conns, [c], conns')
  {
    RoundOfOne(c, Accepting(conns));
    assert forall fd :: multiset([c.req.fd])[fd] == if fd == c.req.fd then 1 else 0;
  }

  /** The queues, the table and the slots after the completions `cqes`. */
  ghost predicate Handled(r: Ring, cqes: seq<Completion>, r': Ring) {
    After(r.conns, cqes, r'.conns) && r'.recvQ == r.recvQ + Reread(cqes) &&
    r'.sendQ == r.sendQ + Asked(cqes, Accepting(r.conns)) && r'.freeNum == r.freeNum + Returned(cqes)
  }

  lemma HandledShort(r: Ring, c: Completion, r': Ring)
    requires After(r.conns, [c], r'.conns)
    requires r'.recvQ == r.recvQ + if c.ReadCqe? && c.result.Data? then [c.req.fd] else []
    requires r'.sendQ == r.sendQ + if c.WriteCqe? then (if c.more then [c.req.fd] else [])
                                   else if c.result.Data? then Restrict(c.sends, Accepting(r.conns)) else []
    requires r'.freeNum == r.freeNum + if c.WriteCqe? && c.more then 0 else 1
    ensures Handled(r, [c], r')
  {
    RoundOfOne(c, Accepting(r.conns));
  }

  lemma OneWrite(r: Ring, c: Completion)
    requires Sane(r.conns) && c.WriteCqe?
    requires Enabled(r, WriteDone(c.req, c.more)) && CompleteWrite(r, c.req, c.more).Done?
    ensures Exec(r, StepsOf(c)).Done? && Handled(r, [c], Exec(r, StepsOf(c)).ring)
  {
    WroteEffect(r, c.req, c.more);
    AfterWrote(r.conns, c, Exec(r, StepsOf(c)).ring.conns);
    HandledShort(r, c, Exec(r, StepsOf(c)).ring);
  }

  lemma OneData(r: Ring, c: Completion)
    requires Sane(r.conns) && c.ReadCqe? && c.result.Data?
    requires Enabled(r, ReadDone(c.req, Data)) && CompleteRead(r, c.req, Data).Done?
    ensures Exec(r, StepsOf(c)).Done? && Handled(r, [c], Exec(r, StepsOf(c)).ring)
  {
    DataEffect(r, c.req, c.sends);
    AfterData(r.conns, c, Exec(r, StepsOf(c)).ring.conns);
    HandledShort(r, c, Exec(r, StepsOf(c)).ring);
  }

  lemma OneGone(r: Ring, c: Completion)
    requires Sane(r.conns) && c.ReadCqe? && !c.result.Data?
    requires Enabled(r, ReadDone(c.req, c.result)) && CompleteRead(r, c.req, c.result).Done?
    ensures Exec(r, StepsOf(c)).Done? && Handled(r, [c], Exec(r, StepsOf(c)).ring)
  {
    GoneEffect(r, c.req, c.result, c.sends);
    AfterGone(r.conns, c, Exec(r, StepsOf(c)).ring.conns);
    assert r.recvQ + [] == r.recvQ && r.sendQ + [] == r.sendQ;
    HandledShort(r, c, Exec(r, StepsOf(c)).ring);
  }

  /** One completion, in closed form. */
  lemma OneEffect(r: Ring, c: Completion)
    requires Sane(r.conns) && Enabled(r, StepsOf(c)[0]) && Apply(r, StepsOf(c)[0]).Done?
    ensures Exec(r, StepsOf(c)).Done? && Handled(r, [c], Exec(r, StepsOf(c)).ring)
  {
    if c.WriteCqe? {
      OneWrite(r, c);
    } else if c.result.Data? {
      OneData(r, c);
    } else {
      OneGone(r, c);
    }
  }

  lemma {:induction false} AskedWithin(cqes: seq<Completion>, open: set<Fd>, fd: Fd)
    requires fd !in open && forall c <- cqes :: c.req.fd != fd
    ensures multiset(Asked(cqes, open))[fd] == 0 && multiset(Written(cqes))[fd] == 0
  {
    if cqes != [] { AskedWithin(cqes[1..], open - Gone([cqes[0]]), fd); }
  }

  lemma AcceptingAfter(conns: map<Fd, Chan>, cqes: seq<Completion>, conns': map<Fd, Chan>)
    requires After(conns, cqes, conns')
    ensures Accepting(conns') == Accepting(conns) - Gone(cqes)
  {
    forall fd ensures fd in Accepting(conns') <==> fd in conns && !conns[fd].closeFlag && fd !in Gone(cqes) {
      if fd in conns { assert fd in conns' || fd !in conns'; }
    }
  }

  lemma FlagFirst(conns: map<Fd, Chan>, c: Completion, conns1: map<Fd, Chan>, rest: seq<Completion>, fd: Fd)
    requires After(conns, [c], conns1) && fd in conns
    ensures FlagAfter(conns, [c] + rest, fd)
         == FlagAfter(conns, [c], fd) + multiset(Asked(rest, Accepting(conns1)))[fd] - multiset(Written(rest))[fd]
  {
    AcceptingAfter(conns, [c], conns1);
    RoundFirst(c, rest, Accepting(conns));
    CountBoth(Asked([c], Accepting(conns)), Asked(rest, Accepting(conns1)), fd);
    CountBoth(Written([c]), Written(rest), fd);
  }

  lemma CountBoth(a: seq<Fd>, b: seq<Fd>, fd: Fd)
    ensures multiset(a + b)[fd] == multiset(a)[fd] + multiset(b)[fd]
  {
  }

  lemma AfterFirst(conns: map<Fd, Chan>, c: Completion, conns1: map<Fd, Chan>, rest: seq<Completion>, conns': map<Fd, Chan>)
    requires After(conns, [c], conns1) && After(conns1, rest, conns')
    requires forall x <- rest :: x.req.fd in conns1
    ensures After(conns, [c] + rest, conns')
  {
    forall fd <- conns
      ensures var flag, closing := FlagAfter(conns, [c] + rest, fd), conns[fd].closeFlag || fd in Gone([c] + rest);
              if closing && flag == 0 then fd !in conns'
              else fd in conns' && conns'[fd].sendFlag == flag && conns'[fd].closeFlag == closing
    {
      FlagFirst(conns, c, conns1, rest, fd);
      RoundFirst(c, rest, {});
      if fd !in conns1 { AskedWithin(rest, Accepting(conns1), fd); }
    }
  }

  lemma {:induction false} ReportedHeld(cqes: seq<Completion>, inKernel: multiset<Request>)
    requires Reported(cqes, inKernel)
    ensures forall c <- cqes :: c.req in inKernel
  {
    if cqes != [] { ReportedHeld(cqes[1..], inKernel - multiset{cqes[0].req}); }
  }

  lemma ReportedInTable(queueSize: nat, r: Ring, cqes: seq<Completion>)
    requires Reachable(queueSize, r) && Reported(cqes, r.inKernel)
    ensures forall c <- cqes :: c.req.fd in r.conns
  {
    ReachableRun(queueSize, r, []);
    ReportedHeld(cqes, r.inKernel);
    forall c <- cqes ensures c.req.fd in r.conns { assert c.req in Owed(r).reqs; }
  }

  lemma FlattenLast(cqes: seq<Completion>, c: Completion)
    ensures Flatten(cqes + [c]) == Flatten(cqes) + StepsOf(c)
  {
    assert (cqes + [c])[..|cqes|] == cqes;
  }

  lemma AssocSteps(a: seq<Step>, b: seq<Step>, c: seq<Step>)
    ensures (a + b) + c == a + (b + c) && [] + a == a && a + [] == a
  {
  }

  lemma {:induction false} FlattenFirst(c: Completion, rest: seq<Completion>)
    ensures Flatten([c] + rest) == StepsOf(c) + Flatten(rest)
  {
    if rest == [] {
      assert [c] + rest == [] + [c];
      FlattenLast([], c);
      AssocSteps(StepsOf(c), [], []);
    } else {
      var front, last := rest[..|rest| - 1], rest[|rest| - 1];
      assert [c] + rest == ([c] + front) + [last] && rest == front + [last];
      FlattenFirst(c, front);
      FlattenLast([c] + front, last);
      FlattenLast(front, last);
      AssocSteps(StepsOf(c), Flatten(front), StepsOf(last));
    }
  }

  lemma HandledFirst(r: Ring, c: Completion, r1: Ring, rest: seq<Completion>, r': Ring)
    requires Handled(r, [c], r1) && Handled(r1, rest, r') && forall x <- rest :: x.req.fd in r1.conns
    ensures Handled(r, [c] + rest, r')
  {
    AfterFirst(r.conns, c, r1.conns, rest, r'.conns);
    AcceptingAfter(r.conns, [c], r1.conns);
    RoundFirst(c, rest, Accepting(r.conns));
    AssocFds(r.recvQ, Reread([c]), Reread(rest));
    AssocFds(r.sendQ, Asked([c], Accepting(r.conns)), Asked(rest, Accepting(r1.conns)));
  }

  /** All completions of a round: which reads and writes are queued, what becomes of every channel
      and its flag, and the slots that come back. */
  lemma {:induction false} RoundEffect(queueSize: nat, r: Ring, cqes: seq<Completion>)
    requires Reachable(queueSize, r) && r.running.None? && Reported(cqes, r.inKernel)
    ensures Exec(r, Flatten(cqes)).Done? && Handled(r, cqes, Exec(r, Flatten(cqes)).ring)
    decreases |cqes|
  {
    ReachableSane(queueSize, r);
    if cqes == [] {
      RoundOfNone(r.conns);
      assert r.recvQ + [] == r.recvQ && r.sendQ + [] == r.sendQ;
    } else {
      var c, rest := cqes[0], cqes[1..];
      assert cqes == [c] + rest;
      OneCompletion(queueSize, r, c, rest);
      OneEffect(r, c);
      var r1 := Exec(r, StepsOf(c)).ring;
      ReportedInTable(queueSize, r1, rest);
      RoundEffect(queueSize, r1, rest);
      FlattenFirst(c, rest);
      ExecConcat(r, StepsOf(c), Flatten(rest));
      HandledFirst(r, c, r1, rest, Exec(r1, Flatten(rest)).ring);
    }
  }
}
