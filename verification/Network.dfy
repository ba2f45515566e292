/** The ring and the buffers of its channels together: every answer of the code's own tests is
    computed from the buffers, and every assertion on a buffer that can fail is an outcome. */
module Network {
  import opened Sequences
  import opened Wrappers
  import B = BufferModel
  import R = RingModel
  import P = RingProofs
  import opened SendPath

  const BUFFER_SIZE := 1024

  /** `lines` holds the buffers of each channel under the channel's identity, `offered` the offset
      and length its last prepared read told the kernel. */
  datatype Net = Net(ring: R.Ring, lines: map<nat, Line>, offered: map<nat, (nat, nat)>)

  datatype Result = Fine(net: Net) | LookupFailed | BufferFailed | Escaped

  datatype Event =
    | AddNewFd(fd: R.Fd)
    | SendOn(fd: R.Fd, view: seq<char>)
    | ReadDone(req: R.Request, res: int, quiet: bool, data: seq<char>)  // quiet: errno is 0
    | UserReads(op: B.Op)                                               // in the read callback
    | Rearm
    | WriteDone(req: R.Request, i: nat, res: int)
    | BeginRecv
    | BeginSend
    | Submit

  function Init(queueSize: nat): Net
    requires queueSize >= 1
  {
    Net(R.Init(queueSize), map[], map[])
  }

  /** The channel at `fd` with its buffers. */
  ghost predicate Ready(n: Net, fd: R.Fd) {
    fd in n.ring.conns && n.ring.conns[fd].id in n.lines && Inside(n.lines[n.ring.conns[fd].id])
  }

  ghost function LineAt(n: Net, fd: R.Fd): (l: Line)
    requires Ready(n, fd)
    ensures Inside(l)
  {
    n.lines[n.ring.conns[fd].id]
  }

  /** The kernel completes what it holds: a channel's oldest requests are the ones in the kernel,
      and a read delivers no more than the window it was offered. */
  ghost predicate Enabled(n: Net, e: Event) {
    match e
    case AddNewFd(fd) => fd !in n.ring.open
    case SendOn(fd, view) => fd in n.ring.conns && (Ready(n, fd) ==> |Unread(LineAt(n, fd))| + |view| <= B.INT_MAX)
    case ReadDone(req, res, _, data) =>
      n.ring.running.None? && req in n.ring.inKernel && req.kind.Read? && -MAX_ERRNO <= res &&
      |data| == (if res < 0 then 0 else res) && (req.chan in n.offered ==> |data| <= n.offered[req.chan].1)
    case UserReads(op) =>
      n.ring.running.Some? && (op.OpErase? || op.OpClear?) &&
      (Ready(n, n.ring.running.value) ==> B.Allowed(LineAt(n, n.ring.running.value).readBuf, op))
    case Rearm => n.ring.running.Some?
    case WriteDone(req, i, res) =>
      n.ring.running.None? && req in n.ring.inKernel && req.kind.Write? && i < n.ring.inKernel[req] &&
      (Ready(n, req.fd) ==> i < |LineAt(n, req.fd).requests| ==> SendPath.Enabled(LineAt(n, req.fd), Taken(i, res)))
    case BeginRecv => n.ring.running.None?
    case BeginSend => n.ring.running.None?
    case Submit => n.ring.running.None?
  }

  /** A step of the ring, with the buffers it leaves. */
  function Take(n: Net, step: R.Step, lines: map<nat, Line>): Result
    requires R.Enabled(n.ring, step)
  {
    var o := R.Apply(n.ring, step);
    if o.AssertFailed? then LookupFailed else Fine(Net(o.ring, lines, n.offered))
  }

  /** `alreadyRead(res)` on the buffer the kernel has stored `data` in, where it was told to. */
  function Filled(b: B.Buf, at: nat, data: seq<char>, res: int): Option<B.Buf>
    requires -MAX_ERRNO <= res && at + |data| <= |b.bytes|
  {
    B.Already(b.(bytes := Overlay(b.bytes, at, data)), if res < 0 then res + B.SIZE_RANGE else res)
  }

  ghost function OnSendOn(n: Net, fd: R.Fd, view: seq<char>): Result
    requires Enabled(n, SendOn(fd, view))
  {
    if !Ready(n, fd) then LookupFailed
    else
      var c := n.ring.conns[fd];
      Take(n, R.Send(fd), if c.closeFlag then n.lines else n.lines[c.id := OnSend(LineAt(n, fd), view)])
  }

  /** A read completion: the loop closes on a disconnect, otherwise marks the bytes and resumes the
      coroutine, which closes on an empty view. */
  ghost function OnRead(n: Net, req: R.Request, res: int, quiet: bool, data: seq<char>): Result
    requires Enabled(n, ReadDone(req, res, quiet, data))
  {
    if res <= 0 && quiet then Take(n, R.ReadDone(req, R.Disconnect), n.lines)
    else if !Ready(n, req.fd) || req.chan !in n.offered then LookupFailed
    else
      var l, at := LineAt(n, req.fd), n.offered[req.chan].0;
      if at + |data| > |l.readBuf.bytes| then Escaped
      else
        var b := Filled(l.readBuf, at, data, res);
        if b.None? then BufferFailed
        else if !B.Valid(b.value) then Escaped
        else Take(n, R.ReadDone(req, if B.Contents(b.value) == [] then R.Empty else R.Data),
                  n.lines[req.chan := l.(readBuf := b.value)])
  }

  /** The further write is asked for when the test as written says so. */
  ghost function OnWrite(n: Net, req: R.Request, i: nat, res: int): Result
    requires Enabled(n, WriteDone(req, i, res))
  {
    if !Ready(n, req.fd) || i >= |LineAt(n, req.fd).requests| then LookupFailed
    else
      var o := OnTaken(AsWritten, LineAt(n, req.fd), i, res);
      match o
      case AssertFailed => BufferFailed
      case OutOfArray => Escaped
      case Done(l) =>
        StepInside(AsWritten, LineAt(n, req.fd), Taken(i, res));
        Take(n, R.WriteDone(req, More(AsWritten, l) != []), n.lines[req.chan := l])
  }

  ghost function OnUserReads(n: Net, op: B.Op): Result
    requires Enabled(n, UserReads(op))
  {
    var fd := n.ring.running.value;
    if !Ready(n, fd) then LookupFailed
    else
      var l := LineAt(n, fd);
      var b := B.Apply(l.readBuf, op);
      if b.None? then BufferFailed
      else Fine(n.(lines := n.lines[n.ring.conns[fd].id := l.(readBuf := b.value)]))
  }

  /** The windows offered to the reads that are prepared for `fds`. */
  ghost function Offer(n: Net, fds: seq<R.Fd>): map<nat, (nat, nat)>
    requires forall k :: 0 <= k < |fds| ==> Ready(n, fds[k])
  {
    if fds == [] then n.offered
    else
      var fd := fds[|fds| - 1];
      assert Ready(n, fd);
      Offer(n, fds[..|fds| - 1])[n.ring.conns[fd].id := B.DisWrite(LineAt(n, fd).readBuf)]
  }

  ghost function OnBeginRecv(n: Net): Result
    requires Enabled(n, BeginRecv)
  {
    var fds := n.ring.recvQ[..R.Min(|n.ring.recvQ|, n.ring.freeNum)];
    if exists k :: 0 <= k < |fds| && !Ready(n, fds[k]) then LookupFailed
    else Take(n.(offered := Offer(n, fds)), R.BeginRecv, n.lines)
  }

  ghost function Apply(n: Net, e: Event): Result
    requires Enabled(n, e)
  {
    match e
    case AddNewFd(fd) => Take(n, R.AddNewFd(fd), n.lines[n.ring.born := Open(BUFFER_SIZE)])
    case SendOn(fd, view) => OnSendOn(n, fd, view)
    case ReadDone(req, res, quiet, data) => OnRead(n, req, res, quiet, data)
    case UserReads(op) => OnUserReads(n, op)
    case Rearm => Take(n, R.Rearm, n.lines)
    case WriteDone(req, i, res) => OnWrite(n, req, i, res)
    case BeginRecv => OnBeginRecv(n)
    case BeginSend => Take(n, R.BeginSend, n.lines)
    case Submit => Take(n, R.Submit, n.lines)
  }

  ghost function Exec(n: Net, events: seq<Event>): Result
    decreases |events|
  {
    if events == [] then Fine(n)
    else if !Enabled(n, events[0]) then Exec(n, events[1..])
    else
      var o := Apply(n, events[0]);
      if o.Fine? then Exec(o.net, events[1..]) else o
  }

  // ---------------------------------------------------------------- the invariant

  /** Each channel of the table has its buffers, and as many outstanding requests as its flag says. */
  ghost predicate Fits(conns: map<R.Fd, R.Chan>, lines: map<nat, Line>) {
    forall fd <- conns :: conns[fd].id in lines && Matches(conns[fd], lines[conns[fd].id])
  }

  ghost predicate Matches(c: R.Chan, l: Line) {
    Inside(l) && |l.requests| == c.sendFlag
  }

  /** Reads of a channel that the kernel knows. */
  function Reads(p: P.Pending, fd: R.Fd, id: nat): nat {
    p.reqs[R.Request(R.Read, fd, id)]
  }

  /** A pending read was offered the window that is still free. */
  ghost predicate StillFree(p: P.Pending, conns: map<R.Fd, R.Chan>, lines: map<nat, Line>, offered: map<nat, (nat, nat)>)
    requires Fits(conns, lines)
  {
    forall fd <- conns :: Reads(p, fd, conns[fd].id) > 0 ==>
      conns[fd].id in offered && offered[conns[fd].id] == B.DisWrite(lines[conns[fd].id].readBuf)
  }

  /** The ring is in a state of some run, and the buffers fit it. */
  ghost predicate Inv(queueSize: nat, n: Net) {
    P.Reachable(queueSize, n.ring) && Buffered(n)
  }

  ghost predicate Buffered(n: Net) {
    Fits(n.ring.conns, n.lines) && StillFree(P.Owed(n.ring), n.ring.conns, n.lines, n.offered)
  }

  /** Only the channel `id` at `fd` changes: the others keep their flags and buffers, and no read
      is added. */
  ghost predicate OneChanges(p: P.Pending, conns: map<R.Fd, R.Chan>, lines: map<nat, Line>,
                             q: P.Pending, conns': map<R.Fd, R.Chan>, lines': map<nat, Line>, fd: R.Fd, id: nat) {
    (forall f <- conns' :: f != fd ==> f in conns && conns'[f] == conns[f] && conns[f].id != id) &&
    (forall f <- conns' :: f != fd ==> Reads(q, f, conns'[f].id) <= Reads(p, f, conns'[f].id)) &&
    (forall k <- lines :: k != id ==> k in lines' && lines'[k] == lines[k])
  }

  /** The changed channel has its buffers, and a pending read of it only if there was one before
      and the read buffer is the same. */
  ghost predicate GoodAt(p: P.Pending, conns: map<R.Fd, R.Chan>, lines: map<nat, Line>,
                         q: P.Pending, conns': map<R.Fd, R.Chan>, lines': map<nat, Line>, fd: R.Fd, id: nat) {
    fd in conns' ==>
      conns'[fd].id == id && id in lines' && Matches(conns'[fd], lines'[id]) &&
      (Reads(q, fd, id) == 0 ||
       (fd in conns && conns[fd].id == id && id in lines && lines'[id].readBuf == lines[id].readBuf && Reads(p, fd, id) > 0))
  }

  lemma OneKeeps(p: P.Pending, conns: map<R.Fd, R.Chan>, lines: map<nat, Line>, offered: map<nat, (nat, nat)>,
                 q: P.Pending, conns': map<R.Fd, R.Chan>, lines': map<nat, Line>, fd: R.Fd, id: nat)
    requires Fits(conns, lines) && StillFree(p, conns, lines, offered)
    requires OneChanges(p, conns, lines, q, conns', lines', fd, id) && GoodAt(p, conns, lines, q, conns', lines', fd, id)
    ensures Fits(conns', lines') && StillFree(q, conns', lines', offered)
  {
    forall f <- conns'
      ensures conns'[f].id in lines' && Matches(conns'[f], lines'[conns'[f].id])
      ensures Reads(q, f, conns'[f].id) > 0 ==>
        conns'[f].id in offered && offered[conns'[f].id] == B.DisWrite(lines'[conns'[f].id].readBuf)
    {
      if f != fd { assert conns[f].id in lines && Matches(conns[f], lines[conns[f].id]); }
    }
  }

  lemma InitInv(queueSize: nat)
    requires queueSize >= 1
    ensures Inv(queueSize, Init(queueSize))
  {
    assert R.Exec(R.Init(queueSize), []) == R.Done(R.Init(queueSize));
  }

  /** What the ring's invariant says of one channel of the table. */
  lemma AtChannel(queueSize: nat, r: R.Ring, fd: R.Fd)
    requires P.Reachable(queueSize, r) && fd in r.conns
    ensures var p, c := P.Owed(r), r.conns[fd];
            P.Counted(p, fd, c) && Reads(p, fd, c.id) <= 1 && (r.running == Some(fd) ==> Reads(p, fd, c.id) == 0) &&
            c.id < r.born
    ensures forall f <- r.conns :: f != fd ==> r.conns[f].id != r.conns[fd].id
  {
    P.ReachableRun(queueSize, r, []);
  }

  lemma ReadyAt(n: Net, fd: R.Fd)
    requires Buffered(n) && fd in n.ring.conns
    ensures var c := n.ring.conns[fd];
            Ready(n, fd) && Matches(c, LineAt(n, fd)) &&
            (Reads(P.Owed(n.ring), fd, c.id) > 0 ==> c.id in n.offered && n.offered[c.id] == B.DisWrite(LineAt(n, fd).readBuf))
  {
  }

  lemma Pointed(queueSize: nat, r: R.Ring, req: R.Request)
    requires P.Reachable(queueSize, r) && req in r.inKernel
    ensures req.fd in r.conns && r.conns[req.fd].id == req.chan && P.Owed(r).reqs[req] >= r.inKernel[req] >= 1
  {
    P.ReachableRun(queueSize, r, []);
    assert req in P.Owed(r).reqs;
  }

  /** A completed request belongs to a channel of the table, and the window a read was offered is
      the one that is still free. */
  lemma InTable(queueSize: nat, n: Net, req: R.Request)
    requires Inv(queueSize, n) && req in n.ring.inKernel
    ensures Ready(n, req.fd) && n.ring.conns[req.fd].id == req.chan
    ensures req.kind.Write? ==> n.ring.inKernel[req] <= |LineAt(n, req.fd).requests|
    ensures req.kind.Read? ==> req.chan in n.offered && n.offered[req.chan] == B.DisWrite(LineAt(n, req.fd).readBuf)
  {
    Pointed(queueSize, n.ring, req);
    AtChannel(queueSize, n.ring, req.fd);
    ReadyAt(n, req.fd);
    assert req == R.Request(req.kind, req.fd, req.chan);
  }

  // ---------------------------------------------------------------- preservation

  lemma OneBuffered(n: Net, n': Net, fd: R.Fd, id: nat)
    requires Buffered(n) && n'.offered == n.offered
    requires OneChanges(P.Owed(n.ring), n.ring.conns, n.lines, P.Owed(n'.ring), n'.ring.conns, n'.lines, fd, id)
    requires GoodAt(P.Owed(n.ring), n.ring.conns, n.lines, P.Owed(n'.ring), n'.ring.conns, n'.lines, fd, id)
    ensures Buffered(n')
  {
    OneKeeps(P.Owed(n.ring), n.ring.conns, n.lines, n.offered, P.Owed(n'.ring), n'.ring.conns, n'.lines, fd, id);
  }

  /** The descriptor of a new channel, or of one that changes to `c` and `l`. */
  lemma Stays(n: Net, n': Net, fd: R.Fd, c: R.Chan, l: Line)
    requires Buffered(n) && n'.offered == n.offered && n'.ring.conns == n.ring.conns[fd := c] && n'.lines == n.lines[c.id := l]
    requires forall f <- n.ring.conns :: f != fd ==> n.ring.conns[f].id != c.id
    requires forall f, id | f != fd :: Reads(P.Owed(n'.ring), f, id) <= Reads(P.Owed(n.ring), f, id)
    requires Matches(c, l)
    requires Reads(P.Owed(n'.ring), fd, c.id) == 0 ||
             (fd in n.ring.conns && n.ring.conns[fd].id == c.id && c.id in n.lines && l.readBuf == n.lines[c.id].readBuf &&
              Reads(P.Owed(n.ring), fd, c.id) > 0)
    ensures Buffered(n')
  {
    OneBuffered(n, n', fd, c.id);
  }

  lemma Goes(n: Net, n': Net, fd: R.Fd, id: nat, l: Line)
    requires Buffered(n) && n'.offered == n.offered && n'.ring.conns == n.ring.conns - {fd} && n'.lines == n.lines[id := l]
    requires forall f <- n.ring.conns :: f != fd ==> n.ring.conns[f].id != id
    requires forall f, i | f != fd :: Reads(P.Owed(n'.ring), f, i) <= Reads(P.Owed(n.ring), f, i)
    ensures Buffered(n')
  {
    OneBuffered(n, n', fd, id);
  }

  lemma AddKeeps(queueSize: nat, n: Net, fd: R.Fd)
    requires Inv(queueSize, n) && fd !in n.ring.open
    ensures var o := Apply(n, AddNewFd(fd)); o.Fine? && Inv(queueSize, o.net)
  {
    P.ReachableStep(queueSize, n.ring, R.AddNewFd(fd));
    Opened(queueSize, n.ring, fd);
    Stays(n, Apply(n, AddNewFd(fd)).net, fd, R.Chan(n.ring.born, 0, false, R.Armed), Open(BUFFER_SIZE));
  }

  lemma Opened(queueSize: nat, r: R.Ring, fd: R.Fd)
    requires P.Reachable(queueSize, r) && fd !in r.open
    ensures R.Open(r, fd).Done?
    ensures var r' := R.Open(r, fd).ring;
            fd !in r.conns && P.Owed(r').reqs == P.Owed(r).reqs && Reads(P.Owed(r), fd, r.born) == 0 &&
            r'.conns == r.conns[fd := R.Chan(r.born, 0, false, R.Armed)]
    ensures forall f <- r.conns :: r.conns[f].id != r.born
  {
    P.ReachableRun(queueSize, r, []);
    P.OpenShape(r, fd);
    assert R.Request(R.Read, fd, r.born) !in P.Owed(r).reqs;
  }

  lemma SendKeeps(queueSize: nat, n: Net, fd: R.Fd, view: seq<char>)
    requires Inv(queueSize, n) && Enabled(n, SendOn(fd, view))
    ensures var o := OnSendOn(n, fd, view); o.Fine? && Inv(queueSize, o.net)
  {
    P.ReachableStep(queueSize, n.ring, R.Send(fd));
    AtChannel(queueSize, n.ring, fd);
    ReadyAt(n, fd);
    var c := n.ring.conns[fd];
    if !c.closeFlag {
      P.SendShape(n.ring, fd);
      SendDoes(LineAt(n, fd), view);
      Stays(n, OnSendOn(n, fd, view).net, fd, c.(sendFlag := c.sendFlag + 1), OnSend(LineAt(n, fd), view));
    }
  }

  /** A read completes, and leaves the buffers `l`. */
  lemma ReadTaken(queueSize: nat, n: Net, req: R.Request, result: R.ReadResult, l: Line)
    requires Inv(queueSize, n) && R.Enabled(n.ring, R.ReadDone(req, result))
    requires Ready(n, req.fd) && Matches(n.ring.conns[req.fd], l)
    ensures var o := Take(n, R.ReadDone(req, result), n.lines[req.chan := l]); o.Fine? && Inv(queueSize, o.net)
  {
    Pointed(queueSize, n.ring, req);
    AtChannel(queueSize, n.ring, req.fd);
    P.ReachableStep(queueSize, n.ring, R.ReadDone(req, result));
    P.ReadShape(n.ring, req, result);
    var n', c := Take(n, R.ReadDone(req, result), n.lines[req.chan := l]).net, n.ring.conns[req.fd];
    OneLess(P.Owed(n.ring), P.Owed(n'.ring), req);
    if result.Data? || c.sendFlag > 0 {
      Stays(n, n', req.fd, P.AfterRead(c, result), l);
    } else {
      Goes(n, n', req.fd, c.id, l);
    }
  }

  lemma OneLess(p: P.Pending, q: P.Pending, req: R.Request)
    requires req.kind.Read? && req in p.reqs && q.reqs == p.reqs - multiset{req} && Reads(p, req.fd, req.chan) <= 1
    ensures Reads(q, req.fd, req.chan) == 0
    ensures forall f, id :: Reads(q, f, id) <= Reads(p, f, id)
  {
    assert req == R.Request(R.Read, req.fd, req.chan);
  }

  /** What `alreadyRead` leaves is inside the array, with a byte to spare. */
  lemma FilledInside(b: B.Buf, at: nat, data: seq<char>, res: int)
    requires -MAX_ERRNO <= res && at + |data| <= |b.bytes|
    ensures var r := Filled(b, at, data, res); r.Some? ==> |r.value.bytes| == |b.bytes| && r.value.write < |b.bytes|
  {
    var w := B.ToInt(b.write + if res < 0 then res + B.SIZE_RANGE else res);
    if w >= 0 { B.WrapSmall(w); } else { B.WrapSmall(w); }
  }

  lemma ReadKeeps(queueSize: nat, n: Net, req: R.Request, res: int, quiet: bool, data: seq<char>)
    requires Inv(queueSize, n) && Enabled(n, ReadDone(req, res, quiet, data))
    ensures var o := OnRead(n, req, res, quiet, data); !o.LookupFailed? && (o.Fine? ==> Inv(queueSize, o.net))
  {
    InTable(queueSize, n, req);
    ReadyAt(n, req.fd);
    var l := LineAt(n, req.fd);
    if res <= 0 && quiet {
      ReadTaken(queueSize, n, req, R.Disconnect, l);
      assert n.lines[req.chan := l] == n.lines;
    } else {
      ReadMarks(queueSize, n, req, res, quiet, data);
    }
  }

  /** The bytes are marked as read. */
  lemma ReadMarks(queueSize: nat, n: Net, req: R.Request, res: int, quiet: bool, data: seq<char>)
    requires Inv(queueSize, n) && Enabled(n, ReadDone(req, res, quiet, data)) && !(res <= 0 && quiet)
    requires Ready(n, req.fd) && Matches(n.ring.conns[req.fd], LineAt(n, req.fd))
    requires req.chan in n.offered && n.offered[req.chan] == B.DisWrite(LineAt(n, req.fd).readBuf)
    ensures var o := OnRead(n, req, res, quiet, data); !o.LookupFailed? && (o.Fine? ==> Inv(queueSize, o.net))
  {
    var l, at := LineAt(n, req.fd), n.offered[req.chan].0;
    WindowFits(l.readBuf, at, |data|);
    FilledInside(l.readBuf, at, data, res);
    var b := Filled(l.readBuf, at, data, res);
    if b.Some? && B.Valid(b.value) {
      ReadTaken(queueSize, n, req, if B.Contents(b.value) == [] then R.Empty else R.Data, l.(readBuf := b.value));
    }
  }

  lemma WindowFits(b: B.Buf, at: nat, len: nat)
    requires B.Valid(b) && b.write < |b.bytes| && at == B.DisWrite(b).0 && len <= B.DisWrite(b).1
    ensures at == b.write && at + len < |b.bytes|
  {
    B.WindowInside(b);
  }

  /** A write completes, and leaves the buffers `l`. */
  lemma WriteTaken(queueSize: nat, n: Net, req: R.Request, more: bool, l: Line)
    requires Inv(queueSize, n) && R.Enabled(n.ring, R.WriteDone(req, more))
    requires Ready(n, req.fd) && Inside(l) && l.readBuf == LineAt(n, req.fd).readBuf
    requires |l.requests| == n.ring.conns[req.fd].sendFlag - if more then 0 else 1
    ensures var o := Take(n, R.WriteDone(req, more), n.lines[req.chan := l]); o.Fine? && Inv(queueSize, o.net)
  {
    Pointed(queueSize, n.ring, req);
    AtChannel(queueSize, n.ring, req.fd);
    P.ReachableStep(queueSize, n.ring, R.WriteDone(req, more));
    if more { P.MoreShape(n.ring, req); } else { P.DrainedShape(n.ring, req); }
    var n', c := Take(n, R.WriteDone(req, more), n.lines[req.chan := l]).net, n.ring.conns[req.fd];
    SameReads(P.Owed(n.ring), P.Owed(n'.ring), req);
    if P.LastWrite(c, more) {
      Goes(n, n', req.fd, c.id, l);
    } else {
      Stays(n, n', req.fd, P.AfterWrite(c, more), l);
    }
  }

  lemma SameReads(p: P.Pending, q: P.Pending, req: R.Request)
    requires req.kind.Write? && q.reqs == p.reqs - multiset{req}
    ensures forall f, id :: Reads(q, f, id) == Reads(p, f, id)
  {
  }

  lemma WriteKeeps(queueSize: nat, n: Net, req: R.Request, i: nat, res: int)
    requires Inv(queueSize, n) && Enabled(n, WriteDone(req, i, res))
    ensures var o := OnWrite(n, req, i, res); !o.LookupFailed? && (o.Fine? ==> Inv(queueSize, o.net))
  {
    InTable(queueSize, n, req);
    ReadyAt(n, req.fd);
    var l := LineAt(n, req.fd);
    if OnTaken(AsWritten, l, i, res).Done? {
      StepInside(AsWritten, l, Taken(i, res));
      TakenExactly(AsWritten, l, i, res);
      var l' := OnTaken(AsWritten, l, i, res).line;
      WriteTaken(queueSize, n, req, More(AsWritten, l') != [], l');
    }
  }

  lemma RearmKeeps(queueSize: nat, n: Net)
    requires Inv(queueSize, n) && Enabled(n, Rearm)
    ensures var o := Take(n, R.Rearm, n.lines); o.Fine? && Inv(queueSize, o.net)
  {
    var fd := n.ring.running.value;
    RunningKnown(queueSize, n.ring);
    P.ReachableStep(queueSize, n.ring, R.Rearm);
    AtChannel(queueSize, n.ring, fd);
    ReadyAt(n, fd);
    P.RearmShape(n.ring, fd);
    Stays(n, Take(n, R.Rearm, n.lines).net, fd, n.ring.conns[fd].(task := R.Armed), LineAt(n, fd));
  }

  lemma RunningKnown(queueSize: nat, r: R.Ring)
    requires P.Reachable(queueSize, r) && r.running.Some?
    ensures r.running.value in r.conns
  {
    P.ReachableRun(queueSize, r, []);
  }

  lemma UserReadsKeep(queueSize: nat, n: Net, op: B.Op)
    requires Inv(queueSize, n) && Enabled(n, UserReads(op))
    ensures var o := OnUserReads(n, op); o.Fine? && Inv(queueSize, o.net)
  {
    var fd := n.ring.running.value;
    RunningKnown(queueSize, n.ring);
    AtChannel(queueSize, n.ring, fd);
    ReadyAt(n, fd);
    var l := LineAt(n, fd);
    StepInside(AsWritten, l, SendPath.Reads(op));
    var n' := OnUserReads(n, op).net;
    assert n'.ring.conns == n.ring.conns[fd := n.ring.conns[fd]];
    Stays(n, n', fd, n.ring.conns[fd], l.(readBuf := B.Apply(l.readBuf, op).value));
  }

  /** The offers made for `fds` are the windows of their channels; other offers stay. */
  lemma {:induction false} OfferAt(queueSize: nat, n: Net, fds: seq<R.Fd>, fd: R.Fd)
    requires Inv(queueSize, n) && fd in n.ring.conns && forall k :: 0 <= k < |fds| ==> Ready(n, fds[k])
    ensures var id, o := n.ring.conns[fd].id, Offer(n, fds);
            if fd in fds then id in o && o[id] == B.DisWrite(LineAt(n, fd).readBuf)
            else id in n.offered ==> id in o && o[id] == n.offered[id]
    decreases |fds|
  {
    ReadyAt(n, fd);
    if fds != [] {
      var last := fds[|fds| - 1];
      assert Ready(n, last);
      OfferAt(queueSize, n, fds[..|fds| - 1], fd);
      AtChannel(queueSize, n.ring, fd);
      assert fds == fds[..|fds| - 1] + [last];
    }
  }

  lemma AllReady(queueSize: nat, n: Net, fds: seq<R.Fd>)
    requires Inv(queueSize, n) && fds <= n.ring.recvQ
    ensures forall k :: 0 <= k < |fds| ==> fds[k] in n.ring.conns && Ready(n, fds[k])
  {
    P.ReachableRun(queueSize, n.ring, []);
    P.QueuedIsKnown(n.ring.recvQ, n.ring.conns);
    forall k | 0 <= k < |fds|
      ensures fds[k] in n.ring.conns && Ready(n, fds[k])
    {
      assert fds[k] == n.ring.recvQ[k];
      ReadyAt(n, fds[k]);
    }
  }

  lemma BeginRecvKeeps(queueSize: nat, n: Net)
    requires Inv(queueSize, n) && Enabled(n, BeginRecv)
    ensures var o := OnBeginRecv(n); o.Fine? && Inv(queueSize, o.net)
  {
    var fds := n.ring.recvQ[..R.Min(|n.ring.recvQ|, n.ring.freeNum)];
    AllReady(queueSize, n, fds);
    P.ReachableStep(queueSize, n.ring, R.BeginRecv);
    Receiving(queueSize, n.ring, fds);
    Beginning(n, fds);
    OffersBuffered(queueSize, n, Net(R.TakeReads(n.ring).ring, n.lines, Offer(n, fds)), fds);
  }

  lemma Beginning(n: Net, fds: seq<R.Fd>)
    requires Enabled(n, BeginRecv) && R.TakeReads(n.ring).Done? && fds == n.ring.recvQ[..R.Min(|n.ring.recvQ|, n.ring.freeNum)]
    requires forall k :: 0 <= k < |fds| ==> Ready(n, fds[k])
    ensures OnBeginRecv(n) == Fine(Net(R.TakeReads(n.ring).ring, n.lines, Offer(n, fds)))
  {
  }

  lemma Receiving(queueSize: nat, r: R.Ring, fds: seq<R.Fd>)
    requires P.Reachable(queueSize, r) && fds == r.recvQ[..R.Min(|r.recvQ|, r.freeNum)]
    ensures R.TakeReads(r).Done? && forall i :: 0 <= i < |fds| ==> fds[i] in r.conns
    ensures var r' := R.TakeReads(r).ring;
            r'.conns == r.conns && P.Owed(r').reqs == P.Owed(r).reqs + multiset(R.Requests(R.Read, r.conns, fds))
  {
    P.ReachableRun(queueSize, r, []);
    P.QueuedIsKnown(r.recvQ, r.conns);
    P.TakeReadsShape(r, R.Min(|r.recvQ|, r.freeNum));
  }

  lemma OffersBuffered(queueSize: nat, n: Net, n': Net, fds: seq<R.Fd>)
    requires Inv(queueSize, n) && forall k :: 0 <= k < |fds| ==> fds[k] in n.ring.conns && Ready(n, fds[k])
    requires n'.ring.conns == n.ring.conns && n'.lines == n.lines && n'.offered == Offer(n, fds)
    requires P.Owed(n'.ring).reqs == P.Owed(n.ring).reqs + multiset(R.Requests(R.Read, n.ring.conns, fds))
    ensures Buffered(n')
  {
    forall fd <- n.ring.conns
      ensures var id := n.ring.conns[fd].id;
              Reads(P.Owed(n'.ring), fd, id) > 0 ==>
                id in n'.offered && id in n.lines && n'.offered[id] == B.DisWrite(n.lines[id].readBuf)
    {
      ReadyAt(n, fd);
      OfferAt(queueSize, n, fds, fd);
      P.RequestsCount(R.Read, n.ring.conns, fds, R.Request(R.Read, fd, n.ring.conns[fd].id));
      assert fd !in fds ==> multiset(fds)[fd] == 0;
    }
  }

  lemma BeginSendKeeps(queueSize: nat, n: Net)
    requires Inv(queueSize, n) && Enabled(n, BeginSend)
    ensures var o := Take(n, R.BeginSend, n.lines); o.Fine? && Inv(queueSize, o.net)
  {
    P.ReachableStep(queueSize, n.ring, R.BeginSend);
    Sending(queueSize, n.ring);
    var n' := Take(n, R.BeginSend, n.lines).net;
    SameOffers(n, n');
  }

  lemma SameOffers(n: Net, n': Net)
    requires Buffered(n) && n'.ring.conns == n.ring.conns && n'.lines == n.lines && n'.offered == n.offered
    requires forall fd, id :: Reads(P.Owed(n'.ring), fd, id) == Reads(P.Owed(n.ring), fd, id)
    ensures Buffered(n')
  {
  }

  lemma Sending(queueSize: nat, r: R.Ring)
    requires P.Reachable(queueSize, r)
    ensures R.TakeWrites(r).Done?
    ensures var r' := R.TakeWrites(r).ring;
            r'.conns == r.conns && forall fd, id :: Reads(P.Owed(r'), fd, id) == Reads(P.Owed(r), fd, id)
  {
    P.ReachableRun(queueSize, r, []);
    var k := R.Min(|r.sendQ|, r.freeNum);
    P.QueuedIsKnown(r.sendQ, r.conns);
    P.TakeWritesShape(r, k);
    WritesOnly(P.Owed(r), P.Owed(R.TakeWrites(r).ring), r.conns, r.sendQ[..k]);
  }

  lemma WritesOnly(p: P.Pending, q: P.Pending, conns: map<R.Fd, R.Chan>, fds: seq<R.Fd>)
    requires forall i :: 0 <= i < |fds| ==> fds[i] in conns
    requires q.reqs == p.reqs + multiset(R.Requests(R.Write, conns, fds))
    ensures forall fd, id :: Reads(q, fd, id) == Reads(p, fd, id)
  {
    forall fd, id
      ensures Reads(q, fd, id) == Reads(p, fd, id)
    {
      P.RequestsCount(R.Write, conns, fds, R.Request(R.Read, fd, id));
    }
  }

  lemma SubmitKeeps(queueSize: nat, n: Net)
    requires Inv(queueSize, n) && Enabled(n, Submit)
    ensures var o := Take(n, R.Submit, n.lines); o.Fine? && Inv(queueSize, o.net)
  {
    P.ReachableStep(queueSize, n.ring, R.Submit);
    P.SubmitOwes(n.ring);
  }

  /** No event of a good state fails a lookup, and if it fails no buffer either, the state stays
      good. */
  lemma StepKeeps(queueSize: nat, n: Net, e: Event)
    requires Inv(queueSize, n) && Enabled(n, e)
    ensures !Apply(n, e).LookupFailed? && (Apply(n, e).Fine? ==> Inv(queueSize, Apply(n, e).net))
  {
    match e
    case AddNewFd(fd) => AddKeeps(queueSize, n, fd);
    case SendOn(fd, view) => SendKeeps(queueSize, n, fd, view);
    case ReadDone(req, res, quiet, data) => ReadKeeps(queueSize, n, req, res, quiet, data);
    case UserReads(op) => UserReadsKeep(queueSize, n, op);
    case Rearm => RearmKeeps(queueSize, n);
    case WriteDone(req, i, res) => WriteKeeps(queueSize, n, req, i, res);
    case BeginRecv => BeginRecvKeeps(queueSize, n);
    case BeginSend => BeginSendKeeps(queueSize, n);
    case Submit => SubmitKeeps(queueSize, n);
  }

  lemma {:induction false} RunKeeps(queueSize: nat, n: Net, events: seq<Event>)
    requires Inv(queueSize, n)
    ensures !Exec(n, events).LookupFailed? && (Exec(n, events).Fine? ==> Inv(queueSize, Exec(n, events).net))
    decreases |events|
  {
    if events != [] {
      if Enabled(n, events[0]) {
        StepKeeps(queueSize, n, events[0]);
        if Apply(n, events[0]).Fine? { RunKeeps(queueSize, Apply(n, events[0]).net, events[1..]); }
      } else {
        RunKeeps(queueSize, n, events[1..]);
      }
    }
  }

  // ---------------------------------------------------------------- which completions fail

  /** A read completion fails exactly on an error that the code takes for a length, because errno
      is set, and that reaches back before the bytes still unread. */
  lemma ReadExactly(queueSize: nat, n: Net, req: R.Request, res: int, quiet: bool, data: seq<char>)
    requires Inv(queueSize, n) && Enabled(n, ReadDone(req, res, quiet, data))
    ensures Ready(n, req.fd)
    ensures var b, o := LineAt(n, req.fd).readBuf, OnRead(n, req, res, quiet, data);
            if res >= 0 || quiet || b.write + res >= b.read then o.Fine?
            else if b.write + res >= 0 then o.Escaped?
            else o.BufferFailed?
  {
    InTable(queueSize, n, req);
    ReadyAt(n, req.fd);
    ReadKeeps(queueSize, n, req, res, quiet, data);
    if res > 0 || !quiet {
      var b, at := LineAt(n, req.fd).readBuf, n.offered[req.chan].0;
      WindowFits(b, at, |data|);
      FilledExactly(b, data, res);
    }
  }

  lemma FilledExactly(b: B.Buf, data: seq<char>, res: int)
    requires B.Valid(b) && -MAX_ERRNO <= res && |data| == (if res < 0 then 0 else res) && b.write + |data| < |b.bytes|
    ensures var r := Filled(b, b.write, data, res);
            if b.write + res < 0 then r.None?
            else r.Some? && r.value.write == b.write + res && r.value.read == b.read && |r.value.bytes| == |b.bytes|
  {
    var len := if res < 0 then res + B.SIZE_RANGE else res;
    assert (b.write + len) % B.INT_RANGE == (b.write + res) % B.INT_RANGE;
    assert B.ToInt(b.write + len) == b.write + res;
    B.WrapSmall(b.write + res);
  }

  /** A write completion fails exactly on an error that moves the read index out of the array, or
      when more bytes were taken than the send buffer holds.  Otherwise it gives its slot back
      exactly when the read buffer of the channel stands on its last byte. */
  lemma WriteExactly(queueSize: nat, n: Net, req: R.Request, i: nat, res: int)
    requires Inv(queueSize, n) && Enabled(n, WriteDone(req, i, res))
    ensures Ready(n, req.fd)
    ensures var l, o := LineAt(n, req.fd), OnWrite(n, req, i, res);
            (o.Fine? <==> if res < 0 then l.sendBuf.read + res >= 0 else res <= |Unread(l)|) &&
            (o.Fine? ==>
              var back := if OnLastByte(l.readBuf) then 1 else 0;
              o.net.ring.freeNum == n.ring.freeNum + back && o.net.ring.requeued == n.ring.requeued + 1 - back)
  {
    InTable(queueSize, n, req);
    ReadyAt(n, req.fd);
    WriteKeeps(queueSize, n, req, i, res);
    var l := LineAt(n, req.fd);
    TakenExactly(AsWritten, l, i, res);
    if OnTaken(AsWritten, l, i, res).Done? {
      StepInside(AsWritten, l, Taken(i, res));
      WindowEmpty(l.readBuf);
      SlotOf(n.ring, req, !OnLastByte(l.readBuf));
    }
  }

  lemma SlotOf(r: R.Ring, req: R.Request, more: bool)
    requires R.Enabled(r, R.WriteDone(req, more))
    ensures var o := R.CompleteWrite(r, req, more);
            o.Done? ==> o.ring.freeNum == r.freeNum + (if more then 0 else 1) &&
                        o.ring.requeued == r.requeued + (if more then 1 else 0)
  {
  }

  // ---------------------------------------------------------------- whole runs

  /** Whatever users, kernel and loop do, with the code's own tests on the buffers: no lookup and no
      flag assertion fails, and while no buffer fails either, the ring is in a state of its own
      runs, each channel has as many requests outstanding as its flag says, and a pending read
      was offered the window that is still free. */
  lemma NetworkIsSafe(queueSize: nat, events: seq<Event>)
    requires queueSize >= 1
    ensures var o := Exec(Init(queueSize), events);
            !o.LookupFailed? && (o.Fine? ==> P.Reachable(queueSize, o.net.ring) && P.Inv(o.net.ring) && Buffered(o.net))
  {
    InitInv(queueSize);
    RunKeeps(queueSize, Init(queueSize), events);
    var o := Exec(Init(queueSize), events);
    if o.Fine? { P.ReachableRun(queueSize, o.net.ring, []); }
  }

  /** Write completions of a run that found the read buffer off its last byte. */
  ghost function Lost(n: Net, events: seq<Event>): nat
    decreases |events|
  {
    if events == [] then 0
    else if !Enabled(n, events[0]) then Lost(n, events[1..])
    else
      var o := Apply(n, events[0]);
      (if LosesSlot(n, events[0]) then 1 else 0) + if o.Fine? then Lost(o.net, events[1..]) else 0
  }

  ghost predicate LosesSlot(n: Net, e: Event) {
    e.WriteDone? && Ready(n, e.req.fd) && !OnLastByte(LineAt(n, e.req.fd).readBuf)
  }

  /** Only a write completion can lose a slot. */
  lemma Requeues(queueSize: nat, n: Net, e: Event)
    requires Inv(queueSize, n) && Enabled(n, e) && Apply(n, e).Fine?
    ensures Apply(n, e).net.ring.requeued == n.ring.requeued + if LosesSlot(n, e) then 1 else 0
  {
    match e
    case WriteDone(req, i, res) => WriteExactly(queueSize, n, req, i, res);
    case ReadDone(req, res, quiet, data) => ReadRequeues(n, req, res, quiet, data);
    case AddNewFd(_) =>
    case SendOn(_, _) =>
    case UserReads(_) =>
    case Rearm =>
    case BeginRecv =>
    case BeginSend =>
    case Submit =>
  }

  lemma ReadRequeues(n: Net, req: R.Request, res: int, quiet: bool, data: seq<char>)
    requires Enabled(n, ReadDone(req, res, quiet, data)) && OnRead(n, req, res, quiet, data).Fine?
    ensures OnRead(n, req, res, quiet, data).net.ring.requeued == n.ring.requeued
  {
  }

  lemma {:induction false} LostIsRequeued(queueSize: nat, n: Net, events: seq<Event>)
    requires Inv(queueSize, n) && Exec(n, events).Fine?
    ensures Exec(n, events).net.ring.requeued == n.ring.requeued + Lost(n, events)
    decreases |events|
  {
    if events != [] {
      if Enabled(n, events[0]) {
        StepKeeps(queueSize, n, events[0]);
        Requeues(queueSize, n, events[0]);
        LostIsRequeued(queueSize, Apply(n, events[0]).net, events[1..]);
      } else {
        LostIsRequeued(queueSize, n, events[1..]);
      }
    }
  }

  /** In every run the free slots, the entries in flight and the completions that found the read
      buffer off its last byte make up `queue_size - 1`; so all slots are back once nothing is in
      flight exactly when there was no such completion. */
  lemma SlotsAsWritten(queueSize: nat, events: seq<Event>)
    requires queueSize >= 1 && Exec(Init(queueSize), events).Fine?
    ensures var r, lost := Exec(Init(queueSize), events).net.ring, Lost(Init(queueSize), events);
            r.freeNum + |r.prepared| + |r.inKernel| + (if r.running.Some? then 1 else 0) + lost == queueSize - 1 &&
            (r.prepared == [] && r.inKernel == multiset{} && r.running.None? ==> (r.freeNum == queueSize - 1 <==> lost == 0))
  {
    InitInv(queueSize);
    NetworkIsSafe(queueSize, events);
    LostIsRequeued(queueSize, Init(queueSize), events);
    P.SizeStays(queueSize, Exec(Init(queueSize), events).net.ring);
  }

  /** One event after all slots are lost: nothing is prepared. */
  lemma StalledEvent(queueSize: nat, n: Net, e: Event)
    requires Inv(queueSize, n) && n.ring.requeued == n.ring.queueSize - 1 && Enabled(n, e) && Apply(n, e).Fine?
    ensures var r, r' := n.ring, Apply(n, e).net.ring;
            r'.requeued == r.requeued && r'.queueSize == r.queueSize && r'.recvTaken == r.recvTaken && r'.sendTaken == r.sendTaken
  {
    P.ReachableRun(queueSize, n.ring, []);
    Stepped(n, e);
    if Apply(n, e).net.ring != n.ring {
      var step :| R.Enabled(n.ring, step) && R.Apply(n.ring, step) == R.Done(Apply(n, e).net.ring);
      P.StalledStep(n.ring, step);
    }
  }

  /** Each event is a step of the ring, or none. */
  lemma Stepped(n: Net, e: Event)
    requires Enabled(n, e) && Apply(n, e).Fine?
    ensures var r' := Apply(n, e).net.ring;
            r' == n.ring || exists step :: R.Enabled(n.ring, step) && R.Apply(n.ring, step) == R.Done(r')
  {
    match e
    case AddNewFd(fd) => assert R.Enabled(n.ring, R.AddNewFd(fd));
    case SendOn(fd, _) => assert R.Enabled(n.ring, R.Send(fd));
    case ReadDone(req, res, quiet, data) => ReadStepped(n, req, res, quiet, data);
    case UserReads(_) =>
    case Rearm => assert R.Enabled(n.ring, R.Rearm);
    case WriteDone(req, i, res) => WriteStepped(n, req, i, res);
    case BeginRecv => assert R.Enabled(n.ring, R.BeginRecv);
    case BeginSend => assert R.Enabled(n.ring, R.BeginSend);
    case Submit => assert R.Enabled(n.ring, R.Submit);
  }

  lemma ReadStepped(n: Net, req: R.Request, res: int, quiet: bool, data: seq<char>)
    requires Enabled(n, ReadDone(req, res, quiet, data)) && OnRead(n, req, res, quiet, data).Fine?
    ensures exists step :: R.Enabled(n.ring, step) && R.Apply(n.ring, step) == R.Done(OnRead(n, req, res, quiet, data).net.ring)
  {
    assert forall result :: R.Enabled(n.ring, R.ReadDone(req, result));
  }

  lemma WriteStepped(n: Net, req: R.Request, i: nat, res: int)
    requires Enabled(n, WriteDone(req, i, res)) && OnWrite(n, req, i, res).Fine?
    ensures exists step :: R.Enabled(n.ring, step) && R.Apply(n.ring, step) == R.Done(OnWrite(n, req, i, res).net.ring)
  {
    assert forall more :: R.Enabled(n.ring, R.WriteDone(req, more));
  }

  lemma {:induction false} StalledEvents(queueSize: nat, n: Net, events: seq<Event>)
    requires Inv(queueSize, n) && n.ring.requeued == n.ring.queueSize - 1 && Exec(n, events).Fine?
    ensures var r, r' := n.ring, Exec(n, events).net.ring; r'.recvTaken == r.recvTaken && r'.sendTaken == r.sendTaken
    decreases |events|
  {
    if events != [] {
      if Enabled(n, events[0]) {
        StepKeeps(queueSize, n, events[0]);
        StalledEvent(queueSize, n, events[0]);
        StalledEvents(queueSize, Apply(n, events[0]).net, events[1..]);
      } else {
        StalledEvents(queueSize, n, events[1..]);
      }
    }
  }

  /** Once `queue_size - 1` write completions have found the read buffer off its last byte, no
      continuation ever prepares a request again. */
  lemma StalledAsWritten(queueSize: nat, past: seq<Event>, later: seq<Event>)
    requires queueSize >= 1 && Exec(Init(queueSize), past).Fine? && Lost(Init(queueSize), past) == queueSize - 1
    requires Exec(Exec(Init(queueSize), past).net, later).Fine?
    ensures var r := Exec(Init(queueSize), past).net.ring;
            var r' := Exec(Exec(Init(queueSize), past).net, later).net.ring;
            r'.recvTaken == r.recvTaken && r'.sendTaken == r.sendTaken
  {
    InitInv(queueSize);
    RunKeeps(queueSize, Init(queueSize), past);
    LostIsRequeued(queueSize, Init(queueSize), past);
    P.SizeStays(queueSize, Exec(Init(queueSize), past).net.ring);
    StalledEvents(queueSize, Exec(Init(queueSize), past).net, later);
  }

  // ---------------------------------------------------------------- a complete write is fatal

  lemma First(n: Net, e: Event, rest: seq<Event>)
    requires Enabled(n, e)
    ensures Exec(n, [e] + rest) == if Apply(n, e).Fine? then Exec(Apply(n, e).net, rest) else Apply(n, e)
  {
    assert ([e] + rest)[1..] == rest;
  }

  /** A channel whose only request is in the kernel, with a free slot and nothing else to send. */
  ghost predicate Waiting(n: Net, req: R.Request) {
    req in n.ring.inKernel && req.kind.Write? && n.ring.running.None? && n.ring.freeNum >= 1 &&
    n.ring.sendQ == [] && n.ring.prepared == [] &&
    Ready(n, req.fd) && Single(LineAt(n, req.fd)) && LineAt(n, req.fd).requests != []
  }

  /** From any such state: when the kernel takes all of the write, and then one byte of what the
      code asks for next, an assertion fails, unless the read buffer stands on its last byte. */
  lemma SecondWriteFails(queueSize: nat, n: Net, req: R.Request)
    requires Inv(queueSize, n) && Waiting(n, req) && !OnLastByte(LineAt(n, req.fd).readBuf)
    ensures !Exec(n, [WriteDone(req, 0, |Unread(LineAt(n, req.fd))|)] + ([BeginSend] + ([Submit] + [WriteDone(req, 0, 1)]))).Fine?
  {
    var a := WriteDone(req, 0, |Unread(LineAt(n, req.fd))|);
    AllTaken(queueSize, n, req);
    WriteKeeps(queueSize, n, req, 0, |Unread(LineAt(n, req.fd))|);
    First(n, a, [BeginSend] + ([Submit] + [WriteDone(req, 0, 1)]));
    NextFails(queueSize, Apply(n, a).net, req);
  }

  /** The send buffer is empty, and the read buffer's window is asked for. */
  ghost predicate Asking(n: Net, req: R.Request) {
    n.ring.running.None? && n.ring.freeNum >= 1 && n.ring.sendQ == [req.fd] && n.ring.prepared == [] && req.kind.Write? &&
    Ready(n, req.fd) && n.ring.conns[req.fd].id == req.chan && Unread(LineAt(n, req.fd)) == [] &&
    |LineAt(n, req.fd).requests| == 1 && LineAt(n, req.fd).requests[0] != []
  }

  lemma AllTaken(queueSize: nat, n: Net, req: R.Request)
    requires Inv(queueSize, n) && Waiting(n, req) && !OnLastByte(LineAt(n, req.fd).readBuf)
    ensures var a := WriteDone(req, 0, |Unread(LineAt(n, req.fd))|);
            Enabled(n, a) && Apply(n, a).Fine? && Asking(Apply(n, a).net, req)
  {
    var l := LineAt(n, req.fd);
    InTable(queueSize, n, req);
    TakenExactly(AsWritten, l, 0, |Unread(l)|);
    WindowEmpty(l.readBuf);
    Requeued(n.ring, req);
  }

  lemma SendsOver(n: Net)
    requires Enabled(n, BeginSend) && R.TakeWrites(n.ring).Done?
    ensures Apply(n, BeginSend) == Fine(n.(ring := R.TakeWrites(n.ring).ring))
  {
  }

  lemma Submits(n: Net)
    requires Enabled(n, Submit)
    ensures Apply(n, Submit) == Fine(n.(ring := R.SubmitAll(n.ring)))
  {
  }

  lemma Submitted(r: R.Ring)
    ensures var r' := R.SubmitAll(r);
            r'.conns == r.conns && r'.running == r.running && r'.sendQ == r.sendQ && r'.freeNum == r.freeNum && r'.prepared == []
  {
  }

  /** The hand-over of a single queued write. */
  lemma HandedOver(queueSize: nat, n: Net, req: R.Request, rest: seq<Event>) returns (n': Net)
    requires Inv(queueSize, n) && n.ring.running.None? && n.ring.freeNum >= 1 && n.ring.prepared == [] && req.kind.Write?
    requires n.ring.sendQ == [req.fd] && req.fd in n.ring.conns && n.ring.conns[req.fd].id == req.chan
    ensures Exec(n, [BeginSend] + ([Submit] + rest)) == Exec(n', rest)
    ensures n'.lines == n.lines && n'.ring.conns == n.ring.conns && n'.ring.running.None? && req in n'.ring.inKernel
    ensures n'.ring.sendQ == [] && n'.ring.prepared == [] && n'.ring.freeNum == n.ring.freeNum - 1
  {
    Sending(queueSize, n.ring);
    Resent(n.ring, req);
    SendsOver(n);
    First(n, BeginSend, [Submit] + rest);
    var n1 := n.(ring := R.TakeWrites(n.ring).ring);
    Submits(n1);
    Submitted(n1.ring);
    First(n1, Submit, rest);
    n' := n1.(ring := R.SubmitAll(n1.ring));
  }

  lemma NextFails(queueSize: nat, n: Net, req: R.Request)
    requires Inv(queueSize, n) && Asking(n, req)
    ensures !Exec(n, [BeginSend] + ([Submit] + [WriteDone(req, 0, 1)])).Fine?
  {
    var d := WriteDone(req, 0, 1);
    var n2 := HandedOver(queueSize, n, req, [d]);
    assert LineAt(n2, req.fd) == LineAt(n, req.fd);
    NothingLeft(LineAt(n, req.fd));
    LastFails(n2, req);
    First(n2, d, []);
    assert [d] + [] == [d];
  }

  lemma LastFails(n: Net, req: R.Request)
    requires req in n.ring.inKernel && req.kind.Write? && n.ring.running.None? && Ready(n, req.fd)
    requires LineAt(n, req.fd).requests != [] && SendPath.Enabled(LineAt(n, req.fd), Taken(0, 1))
    requires !OnTaken(AsWritten, LineAt(n, req.fd), 0, 1).Done?
    ensures Enabled(n, WriteDone(req, 0, 1)) && !Apply(n, WriteDone(req, 0, 1)).Fine?
  {
  }

  lemma Requeued(r: R.Ring, req: R.Request)
    requires R.Enabled(r, R.WriteDone(req, true)) && req.fd in r.conns && r.sendQ == []
    ensures var o := R.CompleteWrite(r, req, true);
            o.Done? && o.ring.sendQ == [req.fd] && o.ring.conns == r.conns && o.ring.freeNum == r.freeNum &&
            o.ring.prepared == r.prepared && o.ring.running == r.running
  {
  }

  lemma Resent(r: R.Ring, req: R.Request)
    requires r.sendQ == [req.fd] && req.fd in r.conns && r.conns[req.fd].id == req.chan && req.kind.Write?
    requires r.freeNum >= 1 && r.prepared == [] && R.TakeWrites(r).Done?
    ensures var r' := R.TakeWrites(r).ring;
            req in R.SubmitAll(r').inKernel && r'.sendQ == [] && r'.freeNum == r.freeNum - 1 && r'.running == r.running
  {
    assert r.sendQ[..1] == [req.fd];
    assert R.Requests(R.Write, r.conns, [req.fd]) == [req];
  }

  lemma NothingLeft(l: Line)
    requires Inside(l) && Unread(l) == [] && |l.requests| >= 1 && l.requests[0] != []
    ensures SendPath.Enabled(l, Taken(0, 1)) && !OnTaken(AsWritten, l, 0, 1).Done?
  {
    TakenExactly(AsWritten, l, 0, 1);
  }

  /** Such a state is four events away on any ring of three entries or more. */
  lemma WaitingExample(queueSize: nat, fd: R.Fd, c: char)
    requires queueSize >= 3
    ensures var o := Exec(Init(queueSize), [AddNewFd(fd)] + ([SendOn(fd, [c])] + ([BeginSend] + [Submit])));
            o.Fine? && Waiting(o.net, R.Request(R.Write, fd, 0)) && !OnLastByte(LineAt(o.net, fd).readBuf)
  {
    InitInv(queueSize);
    var n0 := Init(queueSize);
    AddKeeps(queueSize, n0, fd);
    First(n0, AddNewFd(fd), [SendOn(fd, [c])] + ([BeginSend] + [Submit]));
    var n1 := Apply(n0, AddNewFd(fd)).net;
    SendKeeps(queueSize, n1, fd, [c]);
    First(n1, SendOn(fd, [c]), [BeginSend] + [Submit]);
    var n2 := Apply(n1, SendOn(fd, [c])).net;
    SendDoes(Open(BUFFER_SIZE), [c]);
    Sent(queueSize, n2, fd, R.Request(R.Write, fd, 0));
  }

  lemma Sent(queueSize: nat, n: Net, fd: R.Fd, req: R.Request)
    requires Inv(queueSize, n) && n.ring.sendQ == [fd] && n.ring.freeNum >= 2 && n.ring.prepared == [] && n.ring.running.None?
    requires Ready(n, fd) && req == R.Request(R.Write, fd, n.ring.conns[fd].id)
    requires Single(LineAt(n, fd)) && LineAt(n, fd).requests != [] && !OnLastByte(LineAt(n, fd).readBuf)
    ensures var o := Exec(n, [BeginSend] + [Submit]);
            o.Fine? && Waiting(o.net, req) && !OnLastByte(LineAt(o.net, fd).readBuf)
  {
    var n' := HandedOver(queueSize, n, req, []);
    assert [Submit] + [] == [Submit];
    assert LineAt(n', fd) == LineAt(n, fd);
  }
}
