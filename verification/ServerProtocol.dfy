/** The connection threads of the server, interleaved: one step is one system call (or
    one branch between two) of one thread. The device is the one of DeviceSpec with `n`
    slots, written by the server only. */
module ServerProtocol {
  import opened Bytes
  import opened DeviceSpec
  import opened SeekCommand

  /** Where a thread is in `process`. */
  datatype Pc =
    | Receiving    // in the receive loop
    | HasMessage   // waiting for the mutex
    | Locked       // has the mutex, about to open the device
    | Opened       // about to seek or write
    | Commanded    // about to choose the start offset
    | Positioned   // about to seek to the end
    | Measured     // about to seek to the start offset
    | Rewound      // about to allocate the send buffer
    | Reading      // about to read
    | Sending      // about to send what was read
    | Closing      // about to close the device and release the mutex
    | Returned

  /** A thread's variables, and the exchange it is in the middle of: `at` commands were
      committed once its own had been carried out, it should reply from `start`, it does
      reply from `base`, and `clean` says that no seek failed and that no read which had
      bytes to copy copied none. Its command is number `cmd` of all, and `tid` its number. */
  datatype Thread = Thread(
    pc: Pc, msg: seq<byte>, wrote: bool, ioctlCmdRecv: bool, offset: int, bytesProcessed: nat, chunk: seq<byte>,
    tid: nat, cmd: nat, at: nat, start: nat, base: nat, reply: seq<byte>, clean: bool)

  const NEW_THREAD := Thread(Receiving, [], false, false, 0, 0, [], 0, 0, 0, 0, 0, [], true)

  /** A reply as the client of thread `tid` saw it. `wrote`: the message was written to the
      device, and was not a seek; `seeked`: the thread's flag; `whole`: the read loop ran to
      its end, cleanly. */
  datatype Exchange = Exchange(
    tid: nat, cmd: nat, msg: seq<byte>, wrote: bool, at: nat, start: nat, seeked: bool, reply: seq<byte>, whole: bool)

  /** A message that a thread has begun to carry out. */
  datatype Command = Command(tid: nat, msg: seq<byte>)

  /** What the mutex guards: the device, and the position of the file behind the global
      descriptor. `commands` are the messages carried out or attempted, in order, `written`
      those passed to write; `complete` says that each of these was copied in full. */
  datatype Guarded = Guarded(dev: Dev, fPos: nat, commands: seq<Command>, written: seq<seq<byte>>, complete: bool)

  datatype Server = Server(g: Guarded, owner: Option<nat>, threads: map<nat, Thread>, log: seq<Exchange>)

  const START := Server(Guarded(FRESH, 0, [], [], true), None, map[], [])

  /** What the environment chooses for one step: the message that has arrived, whether
      the system call fails, how many bytes a copy leaves out. */
  datatype Env = Env(msg: seq<byte>, fail: bool, uncopied: nat)

  predicate Holding(pc: Pc) {
    !pc.Receiving? && !pc.HasMessage? && !pc.Returned?
  }

  function Put(s: Server, t: nat, th: Thread): Server {
    s.(threads := s.threads[t := th])
  }

  function Seeked(s: Server, pos: nat): Server {
    s.(g := s.g.(fPos := pos))
  }

  /** Return without releasing the mutex. */
  function Abandon(s: Server, t: nat, th: Thread): Server {
    Put(s, t, th.(pc := Returned))
  }

  function Release(s: Server, t: nat, th: Thread, pc: Pc): Server {
    Put(s, t, th.(pc := pc)).(owner := None)
  }

  function Said(th: Thread, ended: bool): Exchange {
    Exchange(th.tid, th.cmd, th.msg, th.wrote, th.at, th.start, th.ioctlCmdRecv, th.reply, ended && th.clean)
  }

  function Record(s: Server, th: Thread, ended: bool): Server {
    s.(log := s.log + [Said(th, ended)])
  }

  /** The write of a message: the file moves past the command it completes, if any. */
  function WriteMessage(g: Guarded, msg: seq<byte>, uncopied: nat): Guarded {
    var left := Min(uncopied, |msg|);
    var dev := Accept(g.dev, msg[..|msg| - left]);
    var size := if |dev.history| > |g.dev.history| then |dev.history[|dev.history| - 1]| else 0;
    g.(dev := dev, fPos := g.fPos + size, written := g.written + [msg], complete := g.complete && left == 0)
  }

  /** The message is put on record as a command of the thread. */
  function Noted(s: Server, t: nat, msg: seq<byte>): Server {
    s.(g := s.g.(commands := s.g.commands + [Command(t, msg)]))
  }

  function Carry(n: nat, s: Server, t: nat, th: Thread, env: Env): Server
    requires n > 0
  {
    match Parse(th.msg)
    case Malformed => Abandon(s, t, th)
    case Seek(cmd, offset) =>
      var p := SeekTo(SlotsOf(n, s.g.dev), cmd, offset);
      if env.fail || p.None? then Release(s, t, th.(ioctlCmdRecv := true), Returned)
      else Seeked(Put(s, t, th.(pc := Commanded, wrote := false, ioctlCmdRecv := true, at := |s.g.dev.history|)), p.value)
    case Data =>
      if env.fail then Abandon(s, t, th)
      else
        var g := WriteMessage(s.g, th.msg, env.uncopied);
        Put(s, t, th.(pc := Commanded, wrote := true, at := |g.dev.history|)).(g := g)
  }

  /** The ioctl or the write. */
  function StepCommand(n: nat, s: Server, t: nat, th: Thread, env: Env): Server
    requires n > 0
  {
    Carry(n, Noted(s, t, th.msg), t, th.(tid := t, cmd := |s.g.commands| + 1), env)
  }

  /** The start offset: SEEK_CUR once a seek has come in on the connection. */
  function StepTell(s: Server, t: nat, th: Thread, env: Env): Server {
    var start := if th.ioctlCmdRecv then s.g.fPos else 0;
    var failed := th.ioctlCmdRecv && env.fail;
    Put(s, t, th.(pc := Positioned, start := start, offset := if failed then -1 else start, clean := !failed))
  }

  function StepSeekEnd(n: nat, s: Server, t: nat, th: Thread, env: Env): Server {
    var end := |StreamOf(n, s.g.dev)|;
    if env.fail then Release(s, t, th, Returned)
    else Seeked(Put(s, t, th.(pc := Measured, bytesProcessed := end)), end)
  }

  function StepSeekSet(s: Server, t: nat, th: Thread, env: Env): Server {
    if env.fail || th.offset < 0 then Put(s, t, th.(pc := Rewound, clean := false))
    else Seeked(Put(s, t, th.(pc := Rewound)), th.offset)
  }

  function StepAllocate(s: Server, t: nat, th: Thread, env: Env): Server {
    if env.fail then Abandon(s, t, th)
    else Put(s, t, th.(pc := Reading, reply := [], base := s.g.fPos))
  }

  /** The bytes that one read hands over. */
  function Got(n: nat, g: Guarded, th: Thread, env: Env): seq<byte> {
    var r := ReadAt(RingOf(n, g.dev), g.fPos, th.bytesProcessed);
    r[..|r| - Min(env.uncopied, |r|)]
  }

  /** What follows a read that handed over `got`; `atEnd` says there was nothing to read. */
  function AfterRead(s: Server, t: nat, th: Thread, fail: bool, got: seq<byte>, atEnd: bool): Server {
    if fail then Record(Abandon(s, t, th), th, false)
    else if got == [] then Put(s, t, th.(pc := Closing, clean := th.clean && atEnd))
    else Seeked(Put(s, t, th.(pc := Sending, chunk := got)), s.g.fPos + |got|)
  }

  function StepRead(n: nat, s: Server, t: nat, th: Thread, env: Env): Server {
    var atEnd := ReadAt(RingOf(n, s.g.dev), s.g.fPos, th.bytesProcessed) == [];
    AfterRead(s, t, th, env.fail, Got(n, s.g, th, env), atEnd)
  }

  function StepSend(s: Server, t: nat, th: Thread, env: Env): Server {
    if env.fail then Record(Abandon(s, t, th), th, false)
    else Put(s, t, th.(pc := Reading, reply := th.reply + th.chunk))
  }

  function StepClose(s: Server, t: nat, th: Thread): Server {
    Record(Release(s, t, th, Receiving), th, true)
  }

  /** One step of thread `t`; a thread not seen before is a new connection, and a thread
      that cannot move stays where it is. */
  function Step(n: nat, s: Server, t: nat, env: Env): Server
    requires n > 0
  {
    if t !in s.threads then Put(s, t, NEW_THREAD)
    else
      var th := s.threads[t];
      match th.pc
      case Returned => s
      case Receiving =>
        if env.fail then Abandon(s, t, th)
        else if NEWLINE in env.msg && NUL !in env.msg then Put(s, t, th.(pc := HasMessage, msg := env.msg))
        else s
      case HasMessage =>
        if s.owner.Some? then s else Put(s, t, th.(pc := Locked)).(owner := Some(t))
      case Locked => Seeked(Put(s, t, th.(pc := Opened)), 0)
      case Opened => StepCommand(n, s, t, th, env)
      case Commanded => StepTell(s, t, th, env)
      case Positioned => StepSeekEnd(n, s, t, th, env)
      case Measured => StepSeekSet(s, t, th, env)
      case Rewound => StepAllocate(s, t, th, env)
      case Reading => StepRead(n, s, t, th, env)
      case Sending => StepSend(s, t, th, env)
      case Closing => StepClose(s, t, th)
  }

  function Run(n: nat, steps: seq<(nat, Env)>): Server
    requires n > 0
  {
    if steps == [] then START
    else
      var (t, env) := steps[|steps| - 1];
      Step(n, Run(n, steps[..|steps| - 1]), t, env)
  }

  // -------------------------------------------------------------- invariant

  /** The stream as it stood when `at` commands had been committed. */
  function StreamAt(n: nat, history: seq<seq<byte>>, at: nat): seq<byte>
    requires at <= |history|
  {
    Flatten(LastN(n, history[..at]))
  }

  /** `reply` is `s` from `base` to `pos`. */
  ghost predicate Slice(s: seq<byte>, base: nat, pos: nat, reply: seq<byte>) {
    base <= pos <= |s| && |reply| == pos - base && forall i :: 0 <= i < |reply| ==> reply[i] == s[base + i]
  }

  /** The thread starts where it should, or has given up a clean exchange. */
  ghost predicate OnTrack(end: nat, start: nat, pos: int, clean: bool) {
    start <= end && (pos == start || (!clean && (pos == end || pos == -1)))
  }

  predicate IsData(msg: seq<byte>) {
    Parse(msg) == Data
  }

  /** Where a seek command leads, when these commands have been committed. */
  function Target(n: nat, history: seq<seq<byte>>, msg: seq<byte>): Option<nat>
    requires n > 0
  {
    match Parse(msg)
    case Seek(cmd, offset) => SeekTo(SlotsOf(n, Dev(history, [])), cmd, offset)
    case _ => None
  }

  /** What has become of a message. If it was data copied in full it is the newest command,
      and after a seek on the connection `pos` is behind it; if it was a seek, `pos` is where
      it leads. */
  ghost predicate Done(n: nat, history: seq<seq<byte>>, complete: bool, wrote: bool, seeked: bool, msg: seq<byte>, pos: nat)
    requires n > 0
  {
    && wrote == IsData(msg)
    && (wrote && complete ==>
          (exists before :: history == before + [msg]) && (seeked ==> pos == |msg|))
    && (!wrote ==> seeked && Target(n, history, msg) == Some(pos))
  }

  ghost predicate DoneAt(n: nat, g: Guarded, th: Thread, pos: nat)
    requires n > 0
  {
    Done(n, g.dev.history, g.complete, th.wrote, th.ioctlCmdRecv, th.msg, pos)
  }

  /** The exchange refers to the present state of the device, and starts where it should. */
  ghost predicate Placed(n: nat, g: Guarded, th: Thread)
    requires n > 0
  {
    th.at == |g.dev.history| && DoneAt(n, g, th, th.start) && (!th.ioctlCmdRecv ==> th.start == 0)
  }

  /** In the reply loop, or behind it: what has been sent, and read but not yet sent. */
  ghost predicate Replying(stream: seq<byte>, pos: nat, th: Thread) {
    OnTrack(|stream|, th.start, th.base, th.clean) &&
    match th.pc
    case Reading => th.bytesProcessed == |stream| && Slice(stream, th.base, pos, th.reply)
    case Sending =>
      && th.bytesProcessed == |stream| && |th.chunk| <= pos
      && Slice(stream, th.base, pos - |th.chunk|, th.reply) && Slice(stream, pos - |th.chunk|, pos, th.chunk)
    case _ => Slice(stream, th.base, pos, th.reply) && (th.clean ==> pos == |stream|)
  }

  /** What the thread in the locked section knows at each point, the file being at `pos`. */
  ghost predicate Progress(n: nat, g: Guarded, pos: nat, th: Thread)
    requires n > 0
  {
    var stream := StreamOf(n, g.dev);
    var end := |stream|;
    match th.pc
    case Locked => NEWLINE in th.msg
    case Opened => NEWLINE in th.msg && pos == 0
    case Commanded => th.at == |g.dev.history| && pos <= end && DoneAt(n, g, th, pos)
    case Positioned => Placed(n, g, th) && OnTrack(end, th.start, th.offset, th.clean)
    case Measured =>
      Placed(n, g, th) && OnTrack(end, th.start, th.offset, th.clean) && pos == end == th.bytesProcessed
    case Rewound =>
      Placed(n, g, th) && OnTrack(end, th.start, pos, th.clean) && th.bytesProcessed == end
    case Reading => Placed(n, g, th) && Replying(stream, pos, th)
    case Sending => Placed(n, g, th) && Replying(stream, pos, th)
    case Closing => Placed(n, g, th) && Replying(stream, pos, th)
    case _ => true
  }

  /** The reply is from the stream, from `start` on, and to its end if it is whole. */
  ghost predicate ReplyFrom(stream: seq<byte>, start: nat, reply: seq<byte>, whole: bool) {
    start <= |stream| && Slice(stream, start, start + |reply|, reply) && (whole ==> start + |reply| == |stream|)
  }

  /** What a client may rely on, stated about the history as it is now. */
  ghost predicate Good(n: nat, history: seq<seq<byte>>, complete: bool, x: Exchange)
    requires n > 0
  {
    && x.at <= |history|
    && ReplyFrom(StreamAt(n, history, x.at), x.start, x.reply, x.whole)
    && (!x.seeked ==> x.start == 0)
    && Done(n, history[..x.at], complete, x.wrote, x.seeked, x.msg, x.start)
  }

  ghost predicate GuardedOk(g: Guarded) {
    NEWLINE !in g.dev.pending && (g.complete ==> g.dev == Dev(g.written, []))
  }

  ghost predicate ThreadOk(n: nat, s: Server, t: nat)
    requires n > 0
  {
    t in s.threads ==>
      && (Holding(s.threads[t].pc) ==> s.owner == Some(t) && Progress(n, s.g, s.g.fPos, s.threads[t]))
      && (s.threads[t].pc.HasMessage? ==> NEWLINE in s.threads[t].msg)
  }

  ghost predicate LogOk(n: nat, s: Server)
    requires n > 0
  {
    forall i :: 0 <= i < |s.log| ==> Good(n, s.g.dev.history, s.g.complete, s.log[i])
  }

  ghost predicate Inv(n: nat, s: Server)
    requires n > 0
  {
    GuardedOk(s.g) && LogOk(n, s) && forall t :: ThreadOk(n, s, t)
  }

  // ------------------------------------------------------------------ steps

  /** Whoever holds the mutex is the only thread with anything at stake, so a step of the
      owner need only account for itself. */
  lemma OwnerStep(n: nat, s: Server, s': Server, t: nat)
    requires n > 0
    requires Inv(n, s) && s.owner == Some(t) && t in s.threads
    requires t in s'.threads && s'.threads == s.threads[t := s'.threads[t]]
    requires GuardedOk(s'.g) && LogOk(n, s') && ThreadOk(n, s', t)
    ensures Inv(n, s')
  {
    forall u
      ensures ThreadOk(n, s', u)
    {
      assert ThreadOk(n, s, u);
    }
  }

  /** A step of the owner that changes at most the file position. */
  lemma OwnerMoves(n: nat, s: Server, t: nat, th: Thread, pos: nat)
    requires n > 0
    requires Inv(n, s) && s.owner == Some(t) && t in s.threads
    requires !th.pc.HasMessage? && (Holding(th.pc) ==> Progress(n, s.g, pos, th))
    ensures Inv(n, Seeked(Put(s, t, th), pos))
  {
    OwnerStep(n, s, Seeked(Put(s, t, th), pos), t);
  }

  /** A step that ends the exchange, on record or not. */
  lemma OwnerLeaves(n: nat, s: Server, t: nat, th: Thread, owner: Option<nat>, xs: seq<Exchange>)
    requires n > 0
    requires Inv(n, s) && s.owner == Some(t) && t in s.threads
    requires !th.pc.HasMessage? && !Holding(th.pc)
    requires forall i :: 0 <= i < |xs| ==> Good(n, s.g.dev.history, s.g.complete, xs[i])
    ensures Inv(n, Server(s.g, owner, s.threads[t := th], s.log + xs))
    ensures s.log + [] == s.log
  {
    OwnerStep(n, s, Server(s.g, owner, s.threads[t := th], s.log + xs), t);
  }

  lemma GoodLater(n: nat, h: seq<seq<byte>>, h': seq<seq<byte>>, complete: bool, complete': bool, x: Exchange)
    requires n > 0
    requires Good(n, h, complete, x) && h <= h' && (complete' ==> complete)
    ensures Good(n, h', complete', x)
  {
    assert h'[..x.at] == h[..x.at];
  }

  lemma NotedKeepsInv(n: nat, s: Server, t: nat, msg: seq<byte>)
    requires n > 0 && Inv(n, s)
    ensures Inv(n, Noted(s, t, msg))
  {
    var s' := Noted(s, t, msg);
    forall u
      ensures ThreadOk(n, s', u)
    {
      assert ThreadOk(n, s, u);
    }
  }

  lemma CommandKeepsInv(n: nat, s: Server, t: nat, env: Env)
    requires n > 0 && Inv(n, s) && t in s.threads && s.threads[t].pc.Opened?
    ensures Inv(n, StepCommand(n, s, t, s.threads[t], env))
  {
    var th := s.threads[t];
    assert ThreadOk(n, s, t);
    NotedKeepsInv(n, s, t, th.msg);
    CarryKeepsInv(n, Noted(s, t, th.msg), t, th.(tid := t, cmd := |s.g.commands| + 1), env);
  }

  lemma CarryKeepsInv(n: nat, s: Server, t: nat, th: Thread, env: Env)
    requires n > 0 && Inv(n, s) && s.owner == Some(t) && t in s.threads
    requires NEWLINE in th.msg && s.g.fPos == 0
    ensures Inv(n, Carry(n, s, t, th, env))
  {
    match Parse(th.msg) {
      case Malformed =>
        OwnerMoves(n, s, t, th.(pc := Returned), s.g.fPos);
      case Seek(cmd, offset) =>
        OwnerSeeks(n, s, t, th.(wrote := false, ioctlCmdRecv := true, at := |s.g.dev.history|), cmd, offset);
        OwnerLeaves(n, s, t, th.(pc := Returned, ioctlCmdRecv := true), None, []);
      case Data =>
        if env.fail {
          OwnerMoves(n, s, t, th.(pc := Returned), s.g.fPos);
        } else {
          OwnerWrites(n, s, t, th, env.uncopied);
        }
    }
  }

  lemma OwnerSeeks(n: nat, s: Server, t: nat, th: Thread, cmd: nat, offset: nat)
    requires n > 0 && Inv(n, s) && s.owner == Some(t) && t in s.threads
    requires !th.wrote && th.ioctlCmdRecv && th.at == |s.g.dev.history| && Parse(th.msg) == Seek(cmd, offset)
    ensures var p := SeekTo(SlotsOf(n, s.g.dev), cmd, offset);
            p.Some? ==> Inv(n, Seeked(Put(s, t, th.(pc := Commanded)), p.value))
  {
    var p := SeekTo(SlotsOf(n, s.g.dev), cmd, offset);
    if p.Some? {
      SlotsHoldStream(n, s.g.dev);
      SeekToBelow(SlotsOf(n, s.g.dev), cmd, offset);
      OwnerMoves(n, s, t, th.(pc := Commanded), p.value);
    }
  }

  lemma OwnerWrites(n: nat, s: Server, t: nat, th: Thread, uncopied: nat)
    requires n > 0 && Inv(n, s) && s.owner == Some(t) && t in s.threads
    requires NEWLINE in th.msg && s.g.fPos == 0 && IsData(th.msg)
    ensures var g := WriteMessage(s.g, th.msg, uncopied);
            Inv(n, Put(s, t, th.(pc := Commanded, wrote := true, at := |g.dev.history|)).(g := g))
  {
    var g := WriteMessage(s.g, th.msg, uncopied);
    var s' := Put(s, t, th.(pc := Commanded, wrote := true, at := |g.dev.history|)).(g := g);
    WriteKeeps(n, s.g, th.msg, uncopied);
    forall i | 0 <= i < |s'.log|
      ensures Good(n, g.dev.history, g.complete, s'.log[i])
    {
      GoodLater(n, s.g.dev.history, g.dev.history, s.g.complete, g.complete, s.log[i]);
    }
    OwnerStep(n, s, s', t);
  }

  /** A write keeps the guarded state in order, and leaves the file inside the stream. */
  lemma WriteKeeps(n: nat, g: Guarded, msg: seq<byte>, uncopied: nat)
    requires n > 0 && GuardedOk(g) && NEWLINE in msg
    ensures var g' := WriteMessage(g, msg, uncopied);
            && GuardedOk(g') && g.dev.history <= g'.dev.history && (g'.complete ==> g.complete)
            && g'.fPos - g.fPos <= |StreamOf(n, g'.dev)|
            && (g'.complete ==> g'.dev.history == g.dev.history + [msg] && g'.fPos == g.fPos + |msg|)
  {
    var left := Min(uncopied, |msg|);
    var g' := WriteMessage(g, msg, uncopied);
    if g'.complete {
      assert msg[..|msg| - left] == msg && g.dev.pending + msg == msg;
    }
    if |g'.dev.history| > |g.dev.history| {
      NewestInStream(n, g'.dev);
    }
  }

  lemma NewestInStream(n: nat, d: Dev)
    requires n > 0 && |d.history| > 0
    ensures |d.history[|d.history| - 1]| <= |StreamOf(n, d)|
  {
    var ring := RingOf(n, d);
    assert ring == ring[..|ring| - 1] + [d.history[|d.history| - 1]];
    FlattenAppend(ring[..|ring| - 1], d.history[|d.history| - 1]);
  }

  lemma TellKeepsInv(n: nat, s: Server, t: nat, env: Env)
    requires n > 0 && Inv(n, s) && t in s.threads && s.threads[t].pc.Commanded?
    ensures Inv(n, StepTell(s, t, s.threads[t], env))
  {
    assert ThreadOk(n, s, t);
    OwnerMoves(n, s, t, StepTell(s, t, s.threads[t], env).threads[t], s.g.fPos);
  }

  lemma SeekEndKeepsInv(n: nat, s: Server, t: nat, env: Env)
    requires n > 0 && Inv(n, s) && t in s.threads && s.threads[t].pc.Positioned?
    ensures Inv(n, StepSeekEnd(n, s, t, s.threads[t], env))
  {
    assert ThreadOk(n, s, t);
    var th := s.threads[t];
    if env.fail {
      OwnerLeaves(n, s, t, th.(pc := Returned), None, []);
    } else {
      var end := |StreamOf(n, s.g.dev)|;
      OwnerMoves(n, s, t, th.(pc := Measured, bytesProcessed := end), end);
    }
  }

  lemma SeekSetKeepsInv(n: nat, s: Server, t: nat, env: Env)
    requires n > 0 && Inv(n, s) && t in s.threads && s.threads[t].pc.Measured?
    ensures Inv(n, StepSeekSet(s, t, s.threads[t], env))
  {
    assert ThreadOk(n, s, t);
    var s' := StepSeekSet(s, t, s.threads[t], env);
    OwnerMoves(n, s, t, s'.threads[t], s'.g.fPos);
  }

  lemma AllocateKeepsInv(n: nat, s: Server, t: nat, env: Env)
    requires n > 0 && Inv(n, s) && t in s.threads && s.threads[t].pc.Rewound?
    ensures Inv(n, StepAllocate(s, t, s.threads[t], env))
  {
    assert ThreadOk(n, s, t);
    OwnerMoves(n, s, t, StepAllocate(s, t, s.threads[t], env).threads[t], s.g.fPos);
  }

  lemma SaidReplying(stream: seq<byte>, pos: nat, th: Thread, ended: bool)
    requires Replying(stream, pos, th) && (ended ==> th.pc.Closing?)
    ensures ReplyFrom(stream, th.start, th.reply, ended && th.clean)
  {
  }

  lemma GetsReplying(stream: seq<byte>, pos: nat, th: Thread, got: seq<byte>)
    requires Replying(stream, pos, th) && th.pc.Reading? && Slice(stream, pos, pos + |got|, got)
    ensures Replying(stream, pos + |got|, th.(pc := Sending, chunk := got))
  {
  }

  lemma SendsReplying(stream: seq<byte>, pos: nat, th: Thread)
    requires Replying(stream, pos, th) && th.pc.Sending?
    ensures Replying(stream, pos, th.(pc := Reading, reply := th.reply + th.chunk))
  {
    SliceJoin(stream, th.base, pos - |th.chunk|, pos, th.reply, th.chunk);
  }

  lemma StreamNow(n: nat, d: Dev)
    ensures d.history[..|d.history|] == d.history && StreamAt(n, d.history, |d.history|) == StreamOf(n, d)
  {
    Whole(d.history);
  }

  /** What a thread may put on record at any point of the reply loop. */
  lemma ReplyGood(n: nat, g: Guarded, pos: nat, th: Thread, ended: bool)
    requires n > 0 && Placed(n, g, th) && Replying(StreamOf(n, g.dev), pos, th) && (ended ==> th.pc.Closing?)
    ensures Good(n, g.dev.history, g.complete, Said(th, ended))
  {
    SaidReplying(StreamOf(n, g.dev), pos, th, ended);
    StreamNow(n, g.dev);
  }

  /** A read, by what it hands over and whether there was nothing to read. */
  lemma ReadResult(n: nat, s: Server, t: nat, th: Thread, env: Env) returns (got: seq<byte>, atEnd: bool)
    ensures got == Got(n, s.g, th, env) && atEnd == (ReadAt(RingOf(n, s.g.dev), s.g.fPos, th.bytesProcessed) == [])
    ensures StepRead(n, s, t, th, env) == AfterRead(s, t, th, env.fail, got, atEnd)
  {
    got, atEnd := Got(n, s.g, th, env), ReadAt(RingOf(n, s.g.dev), s.g.fPos, th.bytesProcessed) == [];
  }

  lemma ReadKeepsInv(n: nat, s: Server, t: nat, env: Env)
    requires n > 0 && Inv(n, s) && t in s.threads && s.threads[t].pc.Reading?
    ensures Inv(n, StepRead(n, s, t, s.threads[t], env))
  {
    var th := s.threads[t];
    assert ThreadOk(n, s, t);
    var got, atEnd := ReadResult(n, s, t, th, env);
    OwnerReads(n, s, t, th, env, got, atEnd);
  }

  /** A read leaves the thread where it should be. */
  lemma GetsOnTrack(n: nat, g: Guarded, th: Thread, env: Env, got: seq<byte>, atEnd: bool)
    requires n > 0 && th.pc.Reading? && Progress(n, g, g.fPos, th)
    requires got == Got(n, g, th, env) && atEnd == (ReadAt(RingOf(n, g.dev), g.fPos, th.bytesProcessed) == [])
    ensures Progress(n, g, g.fPos + |got|, th.(pc := Sending, chunk := got))
    ensures atEnd ==> g.fPos == |StreamOf(n, g.dev)|
  {
    GotIsSlice(n, g, th, env);
    GetsReplying(StreamOf(n, g.dev), g.fPos, th, got);
  }

  lemma OwnerReads(n: nat, s: Server, t: nat, th: Thread, env: Env, got: seq<byte>, atEnd: bool)
    requires n > 0 && Inv(n, s) && s.owner == Some(t) && t in s.threads && th.pc.Reading? && Progress(n, s.g, s.g.fPos, th)
    requires got == Got(n, s.g, th, env) && atEnd == (ReadAt(RingOf(n, s.g.dev), s.g.fPos, th.bytesProcessed) == [])
    ensures Inv(n, AfterRead(s, t, th, env.fail, got, atEnd))
  {
    GetsOnTrack(n, s.g, th, env, got, atEnd);
    OwnerHasRead(n, s, t, th, env.fail, got, atEnd);
  }

  lemma OwnerHasRead(n: nat, s: Server, t: nat, th: Thread, fail: bool, got: seq<byte>, atEnd: bool)
    requires n > 0 && Inv(n, s) && s.owner == Some(t) && t in s.threads && th.pc.Reading? && Progress(n, s.g, s.g.fPos, th)
    requires Progress(n, s.g, s.g.fPos + |got|, th.(pc := Sending, chunk := got))
    requires atEnd ==> s.g.fPos == |StreamOf(n, s.g.dev)|
    ensures Inv(n, AfterRead(s, t, th, fail, got, atEnd))
  {
    if fail {
      OwnerGivesUp(n, s, t, th, got, atEnd);
    } else if got == [] {
      OwnerFinishes(n, s, t, th, atEnd);
    } else {
      OwnerMoves(n, s, t, th.(pc := Sending, chunk := got), s.g.fPos + |got|);
    }
  }

  lemma OwnerGivesUp(n: nat, s: Server, t: nat, th: Thread, got: seq<byte>, atEnd: bool)
    requires n > 0 && Inv(n, s) && s.owner == Some(t) && t in s.threads && th.pc.Reading? && Progress(n, s.g, s.g.fPos, th)
    ensures Inv(n, AfterRead(s, t, th, true, got, atEnd))
  {
    ReplyGood(n, s.g, s.g.fPos, th, false);
    OwnerLeaves(n, s, t, th.(pc := Returned), s.owner, [Said(th, false)]);
  }

  lemma OwnerFinishes(n: nat, s: Server, t: nat, th: Thread, atEnd: bool)
    requires n > 0 && Inv(n, s) && s.owner == Some(t) && t in s.threads && th.pc.Reading? && Progress(n, s.g, s.g.fPos, th)
    requires atEnd ==> s.g.fPos == |StreamOf(n, s.g.dev)|
    ensures Inv(n, AfterRead(s, t, th, false, [], atEnd))
  {
    OwnerMoves(n, s, t, th.(pc := Closing, clean := th.clean && atEnd), s.g.fPos);
  }

  lemma SendKeepsInv(n: nat, s: Server, t: nat, env: Env)
    requires n > 0 && Inv(n, s) && t in s.threads && s.threads[t].pc.Sending?
    ensures Inv(n, StepSend(s, t, s.threads[t], env))
  {
    assert ThreadOk(n, s, t);
    if env.fail {
      OwnerBreaksOff(n, s, t, s.threads[t]);
    } else {
      OwnerSends(n, s, t, s.threads[t]);
    }
  }

  lemma OwnerBreaksOff(n: nat, s: Server, t: nat, th: Thread)
    requires n > 0 && Inv(n, s) && s.owner == Some(t) && t in s.threads && th.pc.Sending? && Progress(n, s.g, s.g.fPos, th)
    ensures Inv(n, Record(Abandon(s, t, th), th, false))
  {
    ReplyGood(n, s.g, s.g.fPos, th, false);
    OwnerLeaves(n, s, t, th.(pc := Returned), s.owner, [Said(th, false)]);
  }

  lemma OwnerSends(n: nat, s: Server, t: nat, th: Thread)
    requires n > 0 && Inv(n, s) && s.owner == Some(t) && t in s.threads && th.pc.Sending? && Progress(n, s.g, s.g.fPos, th)
    ensures Inv(n, Put(s, t, th.(pc := Reading, reply := th.reply + th.chunk)))
  {
    SendsReplying(StreamOf(n, s.g.dev), s.g.fPos, th);
    OwnerMoves(n, s, t, th.(pc := Reading, reply := th.reply + th.chunk), s.g.fPos);
  }

  lemma CloseKeepsInv(n: nat, s: Server, t: nat)
    requires n > 0 && Inv(n, s) && t in s.threads && s.threads[t].pc.Closing?
    ensures Inv(n, StepClose(s, t, s.threads[t]))
  {
    var th := s.threads[t];
    assert ThreadOk(n, s, t);
    ReplyGood(n, s.g, s.g.fPos, th, true);
    OwnerLeaves(n, s, t, th.(pc := Receiving), None, [Said(th, true)]);
  }

  lemma SliceFrom(s: seq<byte>, base: nat, pos: nat, reply: seq<byte>)
    requires Slice(s, base, pos, reply)
    ensures reply <= s[base..] && (pos == |s| ==> reply == s[base..])
  {
  }

  lemma SliceJoin(s: seq<byte>, base: nat, mid: nat, pos: nat, reply: seq<byte>, chunk: seq<byte>)
    requires Slice(s, base, mid, reply) && Slice(s, mid, pos, chunk)
    ensures Slice(s, base, pos, reply + chunk)
  {
  }

  lemma SliceShorter(s: seq<byte>, pos: nat, r: seq<byte>, k: nat)
    requires Slice(s, pos, pos + |r|, r) && k <= |r|
    ensures Slice(s, pos, pos + k, r[..k])
  {
  }

  /** A read hands over a slice of the stream, at the position. */
  lemma GotIsSlice(n: nat, g: Guarded, th: Thread, env: Env)
    requires g.fPos <= |StreamOf(n, g.dev)| == th.bytesProcessed
    ensures var got := Got(n, g, th, env); Slice(StreamOf(n, g.dev), g.fPos, g.fPos + |got|, got)
    ensures ReadAt(RingOf(n, g.dev), g.fPos, th.bytesProcessed) == [] <==> g.fPos == |StreamOf(n, g.dev)|
  {
    ReadIsSlice(RingOf(n, g.dev), g.fPos, th.bytesProcessed);
    var r := ReadAt(RingOf(n, g.dev), g.fPos, th.bytesProcessed);
    SliceShorter(StreamOf(n, g.dev), g.fPos, r, |r| - Min(env.uncopied, |r|));
  }

  /** What is read is the next slice of the stream; nothing is read only at its end, or
      when the copy fails. */
  lemma ReadOnTrack(n: nat, g: Guarded, th: Thread, env: Env)
    requires n > 0
    requires Slice(StreamOf(n, g.dev), th.base, g.fPos, th.reply) && th.bytesProcessed == |StreamOf(n, g.dev)|
    ensures var got := Got(n, g, th, env); Slice(StreamOf(n, g.dev), th.base, g.fPos + |got|, th.reply + got)
    ensures ReadAt(RingOf(n, g.dev), g.fPos, th.bytesProcessed) == [] <==> g.fPos == |StreamOf(n, g.dev)|
  {
    GotIsSlice(n, g, th, env);
    var got := Got(n, g, th, env);
    SliceJoin(StreamOf(n, g.dev), th.base, g.fPos, g.fPos + |got|, th.reply, got);
  }

  lemma OutsideKeepsInv(n: nat, s: Server, t: nat, env: Env)
    requires n > 0 && Inv(n, s)
    requires t in s.threads ==> !Holding(s.threads[t].pc) || s.threads[t].pc.Locked?
    ensures Inv(n, Step(n, s, t, env))
  {
    var s' := Step(n, s, t, env);
    assert ThreadOk(n, s, t);
    forall u
      ensures ThreadOk(n, s', u)
    {
      assert ThreadOk(n, s, u);
    }
  }

  lemma StepKeepsInv(n: nat, s: Server, t: nat, env: Env)
    requires n > 0 && Inv(n, s)
    ensures Inv(n, Step(n, s, t, env))
  {
    if t !in s.threads || !Holding(s.threads[t].pc) || s.threads[t].pc.Locked? {
      OutsideKeepsInv(n, s, t, env);
    } else {
      match s.threads[t].pc {
        case Opened => CommandKeepsInv(n, s, t, env);
        case Commanded => TellKeepsInv(n, s, t, env);
        case Positioned => SeekEndKeepsInv(n, s, t, env);
        case Measured => SeekSetKeepsInv(n, s, t, env);
        case Rewound => AllocateKeepsInv(n, s, t, env);
        case Reading => ReadKeepsInv(n, s, t, env);
        case Sending => SendKeepsInv(n, s, t, env);
        case Closing => CloseKeepsInv(n, s, t);
      }
    }
  }

  lemma {:induction false} RunKeepsInv(n: nat, steps: seq<(nat, Env)>)
    requires n > 0
    ensures Inv(n, Run(n, steps))
  {
    if steps != [] {
      RunKeepsInv(n, steps[..|steps| - 1]);
      var (t, env) := steps[|steps| - 1];
      StepKeepsInv(n, Run(n, steps[..|steps| - 1]), t, env);
    }
  }
}
