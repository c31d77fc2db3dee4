/** What the server achieves when nothing fails, in every interleaving: which replies are
    whole, and that a thread which has the mutex answers, whatever the others do. */
module ServerProgress {
  import opened Bytes
  import opened DeviceSpec
  import opened SeekCommand
  import opened ServerProtocol
  import opened ServerTheorems
  import opened ServerMessages

  // ------------------------------------------------------------ clean steps

  /** Nothing fails, and every copy is complete. */
  predicate Faultless(env: Env) {
    !env.fail && env.uncopied == 0
  }

  /** The start offset has been chosen. */
  predicate Told(pc: Pc) {
    PastCommand(pc) && !pc.Commanded?
  }

  ghost predicate CleanThread(th: Thread) {
    Told(th.pc) ==> th.clean
  }

  /** The thread stays clean, and says only what is whole. */
  ghost predicate StaysClean(s: Server, s': Server, t: nat) {
    && t in s'.threads && CleanThread(s'.threads[t])
    && s.log <= s'.log && forall i :: |s.log| <= i < |s'.log| ==> s'.log[i].whole
  }

  lemma CleanSeek(n: nat, s: Server, t: nat, env: Env)
    requires n > 0 && Inv(n, s) && t in s.threads && CleanThread(s.threads[t]) && Faultless(env)
    ensures s.threads[t].pc.Commanded? ==> StaysClean(s, StepTell(s, t, s.threads[t], env), t)
    ensures s.threads[t].pc.Positioned? ==> StaysClean(s, StepSeekEnd(n, s, t, s.threads[t], env), t)
    ensures s.threads[t].pc.Measured? ==> StaysClean(s, StepSeekSet(s, t, s.threads[t], env), t)
    ensures s.threads[t].pc.Rewound? ==> StaysClean(s, StepAllocate(s, t, s.threads[t], env), t)
  {
    assert ThreadOk(n, s, t);
  }

  lemma CleanRead(s: Server, t: nat, th: Thread, got: seq<byte>)
    requires t in s.threads && th.pc.Reading? && th.clean
    ensures StaysClean(s, AfterRead(s, t, th, false, got, got == []), t)
  {
  }

  lemma CleanEnd(s: Server, t: nat, th: Thread, env: Env)
    requires t in s.threads && th.clean && Faultless(env)
    ensures StaysClean(s, StepSend(s, t, th, env), t)
    ensures StaysClean(s, StepClose(s, t, th), t)
  {
  }

  lemma CleanOutside(n: nat, s: Server, t: nat, env: Env)
    requires n > 0 && t in s.threads && (!Holding(s.threads[t].pc) || s.threads[t].pc.Locked?)
    ensures StaysClean(s, Step(n, s, t, env), t)
  {
    OutsideShape(n, s, t, env);
  }

  lemma CleanCommand(n: nat, s: Server, t: nat, env: Env)
    requires n > 0 && t in s.threads && s.threads[t].pc.Opened?
    ensures StaysClean(s, StepCommand(n, s, t, s.threads[t], env), t)
  {
    CommandShape(n, s, t, env);
  }

  lemma GotAll(n: nat, g: Guarded, th: Thread, env: Env)
    requires env.uncopied == 0
    ensures Got(n, g, th, env) == ReadAt(RingOf(n, g.dev), g.fPos, th.bytesProcessed)
  {
  }

  lemma CleanStep(n: nat, s: Server, t: nat, env: Env)
    requires n > 0 && Inv(n, s) && t in s.threads && CleanThread(s.threads[t]) && Faultless(env)
    ensures StaysClean(s, Step(n, s, t, env), t)
  {
    var th := s.threads[t];
    match th.pc {
      case Opened => CleanCommand(n, s, t, env);
      case Commanded => CleanSeek(n, s, t, env);
      case Positioned => CleanSeek(n, s, t, env);
      case Measured => CleanSeek(n, s, t, env);
      case Rewound => CleanSeek(n, s, t, env);
      case Reading =>
        GotAll(n, s.g, th, env);
        CleanRead(s, t, th, Got(n, s.g, th, env));
      case Sending => CleanEnd(s, t, th, env);
      case Closing => CleanEnd(s, t, th, env);
      case _ => CleanOutside(n, s, t, env);
    }
  }

  // ---------------------------------------------------------- complete runs

  /** The step copies a message in part. */
  ghost predicate ShortWrite(s: Server, t: nat, env: Env) {
    && t in s.threads && s.threads[t].pc.Opened? && IsData(s.threads[t].msg)
    && !env.fail && env.uncopied > 0
  }

  ghost predicate ShortAt(n: nat, steps: seq<(nat, Env)>, i: nat)
    requires n > 0 && i < |steps|
  {
    ShortWrite(Run(n, steps[..i]), steps[i].0, steps[i].1)
  }

  lemma CompleteCommand(n: nat, s: Server, t: nat, env: Env)
    requires n > 0 && t in s.threads && s.threads[t].pc.Opened? && NEWLINE in s.threads[t].msg
    ensures StepCommand(n, s, t, s.threads[t], env).g.complete <==> s.g.complete && !ShortWrite(s, t, env)
  {
  }

  /** Only a write that copies a message in part makes the record of complete copies false. */
  lemma CompleteStep(n: nat, s: Server, t: nat, env: Env)
    requires n > 0 && Inv(n, s)
    ensures Step(n, s, t, env).g.complete <==> s.g.complete && !ShortWrite(s, t, env)
  {
    if t in s.threads && s.threads[t].pc.Opened? {
      assert ThreadOk(n, s, t);
      CompleteCommand(n, s, t, env);
    }
  }

  /** Every message was copied in full exactly when no step copied one in part. */
  lemma {:induction false} CompleteExactly(n: nat, steps: seq<(nat, Env)>)
    requires n > 0
    ensures Run(n, steps).g.complete <==> forall i :: 0 <= i < |steps| ==> !ShortAt(n, steps, i)
  {
    if steps != [] {
      var k := |steps| - 1;
      CompleteExactly(n, steps[..k]);
      RunKeepsInv(n, steps[..k]);
      CompleteStep(n, Run(n, steps[..k]), steps[k].0, steps[k].1);
      forall i | 0 <= i < k
        ensures ShortAt(n, steps[..k], i) <==> ShortAt(n, steps, i)
      {
        assert steps[..k][..i] == steps[..i];
      }
      assert ShortAt(n, steps, k) <==> ShortWrite(Run(n, steps[..k]), steps[k].0, steps[k].1);
    }
  }

  ghost predicate AllFaultless(steps: seq<(nat, Env)>) {
    forall i :: 0 <= i < |steps| ==> Faultless(steps[i].1)
  }

  ghost predicate AllClean(s: Server) {
    && s.g.complete && (forall t :: t in s.threads ==> CleanThread(s.threads[t]))
    && forall i :: 0 <= i < |s.log| ==> s.log[i].whole
  }

  lemma OthersStay(n: nat, s: Server, t: nat, env: Env)
    requires n > 0 && Inv(n, s) && t in s.threads
    ensures var s' := Step(n, s, t, env); t in s'.threads && s'.threads == s.threads[t := s'.threads[t]]
  {
    assert ThreadOk(n, s, t);
    if s.threads[t].pc.Opened? {
      CommandShape(n, s, t, env);
    } else {
      StepShape(n, s, t, env);
    }
  }

  lemma AllCleanStep(n: nat, s: Server, t: nat, env: Env)
    requires n > 0 && Inv(n, s) && AllClean(s) && Faultless(env)
    ensures AllClean(Step(n, s, t, env))
  {
    CompleteStep(n, s, t, env);
    if t in s.threads {
      OthersStay(n, s, t, env);
      CleanStep(n, s, t, env);
    }
  }

  /** In a run in which nothing fails, every message is copied in full and every reply is
      whole. */
  lemma {:induction false} FaultlessRun(n: nat, steps: seq<(nat, Env)>)
    requires n > 0 && AllFaultless(steps)
    ensures AllClean(Run(n, steps))
  {
    if steps != [] {
      var k := |steps| - 1;
      FaultlessRun(n, steps[..k]);
      RunKeepsInv(n, steps[..k]);
      AllCleanStep(n, Run(n, steps[..k]), steps[k].0, steps[k].1);
    }
  }

  // ------------------------------------------------ replies, from what came

  /** The messages among the commands that are data, in order. */
  ghost function DataOf(commands: seq<Command>): seq<seq<byte>> {
    if commands == [] then []
    else
      var k := |commands| - 1;
      DataOf(commands[..k]) + if IsData(commands[k].msg) then [commands[k].msg] else []
  }

  lemma DataAppend(commands: seq<Command>, c: Command)
    ensures DataOf(commands + [c]) == DataOf(commands) + if IsData(c.msg) then [c.msg] else []
  {
    assert (commands + [c])[..|commands|] == commands;
  }

  /** An exchange that knows its place: `at` of the commands up to its own were data. */
  ghost predicate Numbered(commands: seq<Command>, x: Exchange) {
    x.cmd <= |commands| && x.at == |DataOf(commands[..x.cmd])|
  }

  /** What has been written is the data among the commands. */
  ghost predicate AllWritten(s: Server) {
    && s.g.written == DataOf(s.g.commands)
    && forall i :: 0 <= i < |s.log| ==> Numbered(s.g.commands, s.log[i])
  }

  lemma NumberedLater(commands: seq<Command>, c: Command, x: Exchange)
    requires Numbered(commands, x)
    ensures Numbered(commands + [c], x)
  {
    assert (commands + [c])[..x.cmd] == commands[..x.cmd];
  }

  lemma WriteOrNot(n: nat, s: Server, t: nat, env: Env)
    requires n > 0 && t in s.threads && s.threads[t].pc.Opened? && Faultless(env)
    ensures var msg := s.threads[t].msg;
            StepCommand(n, s, t, s.threads[t], env).g.written == s.g.written + if IsData(msg) then [msg] else []
  {
  }

  lemma WrittenCommand(n: nat, s: Server, t: nat, env: Env)
    requires n > 0 && t in s.threads && s.threads[t].pc.Opened? && Faultless(env) && AllWritten(s)
    ensures AllWritten(StepCommand(n, s, t, s.threads[t], env))
  {
    var c := Command(t, s.threads[t].msg);
    CommandShape(n, s, t, env);
    WriteOrNot(n, s, t, env);
    DataAppend(s.g.commands, c);
    forall i | 0 <= i < |s.log|
      ensures Numbered(s.g.commands + [c], s.log[i])
    {
      NumberedLater(s.g.commands, c, s.log[i]);
    }
  }

  /** A thread that has carried out its command knows how many were data. */
  lemma SaidNumbered(n: nat, s: Server, t: nat, ended: bool)
    requires n > 0 && Inv(n, s) && Conn(s) && AllWritten(s) && s.g.complete
    requires t in s.threads && PastCommand(s.threads[t].pc)
    ensures Numbered(s.g.commands, Said(s.threads[t], ended))
  {
    assert ThreadOk(n, s, t) && ConnThread(s, t);
    Whole(s.g.commands);
  }

  lemma WrittenFrame(n: nat, s: Server, s': Server, t: nat)
    requires n > 0 && Inv(n, s) && Conn(s) && AllWritten(s) && s.g.complete && Frame(s, s', t)
    ensures AllWritten(s')
  {
    if PastCommand(s.threads[t].pc) {
      SaidNumbered(n, s, t, false);
      SaidNumbered(n, s, t, true);
    }
  }

  lemma WrittenStep(n: nat, s: Server, t: nat, env: Env)
    requires n > 0 && Inv(n, s) && Conn(s) && AllWritten(s) && s.g.complete && Faultless(env)
    ensures AllWritten(Step(n, s, t, env))
  {
    if t in s.threads {
      assert ThreadOk(n, s, t);
      if s.threads[t].pc.Opened? {
        WrittenCommand(n, s, t, env);
      } else {
        StepShape(n, s, t, env);
        WrittenFrame(n, s, Step(n, s, t, env), t);
      }
    }
  }

  lemma {:induction false} FaultlessWritten(n: nat, steps: seq<(nat, Env)>)
    requires n > 0 && AllFaultless(steps)
    ensures AllWritten(Run(n, steps))
  {
    if steps != [] {
      var k := |steps| - 1;
      FaultlessWritten(n, steps[..k]);
      FaultlessRun(n, steps[..k]);
      RunConn(n, steps[..k]);
      WrittenStep(n, Run(n, steps[..k]), steps[k].0, steps[k].1);
    }
  }

  lemma PrefixOfPrefix<T>(s: seq<T>, k: nat)
    requires k < |s|
    ensures s[..|s| - 1][..k] == s[..k]
  {
  }

  lemma {:induction false} DataPrefix(commands: seq<Command>, k: nat)
    requires k <= |commands|
    ensures DataOf(commands[..k]) <= DataOf(commands)
    decreases |commands|
  {
    if k < |commands| {
      var front := commands[..|commands| - 1];
      DataPrefix(front, k);
      PrefixOfPrefix(commands, k);
    } else {
      Whole(commands);
    }
  }

  lemma TextAt(commands: seq<Command>, i: nat, t: nat)
    requires i < |commands| && commands[i].tid == t
    ensures commands[i].msg in Texts(commands, t)
  {
    var k := |commands| - 1;
    if i < k {
      TextAt(commands[..k], i, t);
    }
  }

  lemma ReceivedCommand(n: nat, steps: seq<(nat, Env)>, i: nat, t: nat, msg: seq<byte>)
    requires n > 0 && i < |Run(n, steps).g.commands| && Run(n, steps).g.commands[i] == Command(t, msg)
    ensures msg in Received(n, steps, t)
  {
    RunConn(n, steps);
    ConnectionInOrder(n, steps, t);
    TextAt(Run(n, steps).g.commands, i, t);
    assert t in Run(n, steps).threads;
  }

  /** The messages carried out by the time of reply `x`, and the data among them. */
  ghost function DataBy(s: Server, x: Exchange): seq<seq<byte>>
    requires x.cmd <= |s.g.commands|
  {
    DataOf(s.g.commands[..x.cmd])
  }

  /** The messages written by the time of a reply are the data by then. */
  lemma WrittenBy(n: nat, steps: seq<(nat, Env)>, x: Exchange)
    requires n > 0 && AllFaultless(steps) && x in Run(n, steps).log
    ensures var s := Run(n, steps);
            && Reachable(n, s) && s.g.complete && x.whole && s.g.dev.history == s.g.written
            && x.cmd <= |s.g.commands| && x.at <= |s.g.written| && s.g.written[..x.at] == DataBy(s, x)
  {
    var s := Run(n, steps);
    FaultlessRun(n, steps);
    FaultlessWritten(n, steps);
    RunKeepsInv(n, steps);
    assert Numbered(s.g.commands, x);
    DataPrefix(s.g.commands, x.cmd);
  }

  /** The reply that message `x.msg` should get, when `data` are the data messages carried out
      up to and including it. */
  ghost predicate RightReply(n: nat, data: seq<seq<byte>>, seeked: bool, x: Exchange)
    requires n > 0
  {
    var last := Flatten(LastN(n, data));
    if IsData(x.msg) then
      && data != [] && data[|data| - 1] == x.msg
      && if seeked then |x.msg| <= |last| && x.reply == last[|x.msg|..] else x.reply == last
    else x.start <= |last| && x.reply == last[x.start..] && Target(n, data, x.msg) == Some(x.start)
  }

  lemma ReplyToData(n: nat, s: Server, x: Exchange, data: seq<seq<byte>>)
    requires n > 0 && Reachable(n, s) && x in s.log && s.g.complete && x.whole && IsData(x.msg)
    requires x.at <= |s.g.written| && s.g.written[..x.at] == data
    ensures RightReply(n, data, AfterSeek(s, x), x)
  {
    RepliesAreLastMessages(n, s, x);
    assert |data| == x.at && data[|data| - 1] == s.g.written[x.at - 1];
  }

  lemma ReplyToSeek(n: nat, s: Server, x: Exchange, data: seq<seq<byte>>)
    requires n > 0 && Reachable(n, s) && x in s.log && x.whole && !IsData(x.msg)
    requires s.g.dev.history == s.g.written && x.at <= |s.g.written| && s.g.written[..x.at] == data
    ensures RightReply(n, data, AfterSeek(s, x), x)
  {
    Replies(n, s, x);
  }

  lemma FiledReply(n: nat, steps: seq<(nat, Env)>, x: Exchange)
    requires n > 0 && x in Run(n, steps).log
    ensures var s := Run(n, steps);
            0 < x.cmd <= |s.g.commands| && s.g.commands[x.cmd - 1] == Command(x.tid, x.msg)
  {
    RunConn(n, steps);
    assert Filed(Run(n, steps).g.commands, x);
  }

  /** A reply is to a message that was carried out, and that arrived on its connection. */
  lemma ReplyFiled(n: nat, steps: seq<(nat, Env)>, x: Exchange)
    requires n > 0 && x in Run(n, steps).log
    ensures var s := Run(n, steps);
            0 < x.cmd <= |s.g.commands| && s.g.commands[x.cmd - 1] == Command(x.tid, x.msg)
    ensures x.msg in Received(n, steps, x.tid)
  {
    FiledReply(n, steps, x);
    ReceivedCommand(n, steps, x.cmd - 1, x.tid, x.msg);
  }

  lemma FaultlessRight(n: nat, steps: seq<(nat, Env)>, x: Exchange)
    requires n > 0 && AllFaultless(steps) && x in Run(n, steps).log
    ensures var s := Run(n, steps); x.cmd <= |s.g.commands| && RightReply(n, DataBy(s, x), AfterSeek(s, x), x)
  {
    var s := Run(n, steps);
    WrittenBy(n, steps, x);
    if IsData(x.msg) {
      ReplyToData(n, s, x, DataBy(s, x));
    } else {
      ReplyToSeek(n, s, x, DataBy(s, x));
    }
  }

  /** So in such a run every reply is to a message that arrived on its connection. To data,
      on a connection without seeks, it is the last `n` of the data messages carried out up to
      and including it, whoever sent them, and after a seek it leaves out as many bytes as the
      message has; to a seek it is what those `n` messages hold from where it leads. */
  lemma FaultlessReplies(n: nat, steps: seq<(nat, Env)>, x: Exchange)
    requires n > 0 && AllFaultless(steps) && x in Run(n, steps).log
    ensures x.msg in Received(n, steps, x.tid)
    ensures var s := Run(n, steps);
            && 0 < x.cmd <= |s.g.commands| && s.g.commands[x.cmd - 1] == Command(x.tid, x.msg)
            && RightReply(n, DataBy(s, x), AfterSeek(s, x), x)
  {
    ReplyFiled(n, steps, x);
    FaultlessRight(n, steps, x);
  }

  // --------------------------------------------------------------- progress

  /** Steps from a given state. */
  function RunFrom(n: nat, s: Server, steps: seq<(nat, Env)>): Server
    requires n > 0
    decreases |steps|
  {
    if steps == [] then s else RunFrom(n, Step(n, s, steps[0].0, steps[0].1), steps[1..])
  }

  lemma {:induction false} RunOn(n: nat, past: seq<(nat, Env)>, steps: seq<(nat, Env)>)
    requires n > 0
    ensures Run(n, past + steps) == RunFrom(n, Run(n, past), steps)
    decreases |steps|
  {
    if steps == [] {
      assert past + steps == past;
    } else {
      var now := past + [steps[0]];
      assert past + steps == now + steps[1..] && now[..|now| - 1] == past;
      RunOn(n, now, steps[1..]);
    }
  }

  /** How many of the steps are steps of thread `t`. */
  function Own(steps: seq<(nat, Env)>, t: nat): nat {
    if steps == [] then 0 else (if steps[0].0 == t then 1 else 0) + Own(steps[1..], t)
  }

  /** Nothing fails in the steps of thread `t`; anything may in those of the others. */
  ghost predicate OwnFaultless(steps: seq<(nat, Env)>, t: nat) {
    forall i :: 0 <= i < |steps| && steps[i].0 == t ==> Faultless(steps[i].1)
  }

  /** The message is data, or a seek that leads somewhere. */
  ghost predicate Doable(n: nat, history: seq<seq<byte>>, msg: seq<byte>)
    requires n > 0
  {
    IsData(msg) || Target(n, history, msg).Some?
  }

  /** A message to be carried out by thread `t`, and how things stood when it got the mutex. */
  datatype Job = Job(t: nat, msg: seq<byte>, g: Guarded, log: seq<Exchange>)

  function JobOf(s: Server, t: nat): Job
    requires t in s.threads
  {
    Job(t, s.threads[t].msg, s.g, s.log)
  }

  /** How many entries are unread at each position, by whatever way of counting: at most
      `size`, and fewer after a read from inside the stream. */
  datatype Count = Count(rank: nat -> nat, size: nat)

  ghost predicate Bounded(c: Count) {
    forall pos: nat :: c.rank(pos) <= c.size
  }

  ghost predicate Counts(n: nat, job: Job, c: Count) {
    var ring, end := RingOf(n, DevDone(job)), |StreamOf(n, DevDone(job))|;
    && Bounded(c)
    && (forall pos: nat :: pos < end ==> c.rank(pos + |ReadAt(ring, pos, end)|) < c.rank(pos))
  }

  lemma UnreadCounts(n: nat, job: Job) returns (c: Count)
    ensures Counts(n, job, c) && c.size == |RingOf(n, DevDone(job))|
  {
    var ring, end := RingOf(n, DevDone(job)), |StreamOf(n, DevDone(job))|;
    c := Count((pos: nat) => Unread(ring, pos), |ring|);
    forall pos: nat | pos < end
      ensures c.rank(pos + |ReadAt(ring, pos, end)|) < c.rank(pos)
    {
      ReadsEntry(ring, pos, end);
    }
  }

  /** The device once the message has been carried out. */
  function DevDone(job: Job): Dev {
    if IsData(job.msg) then Accept(job.g.dev, job.msg) else job.g.dev
  }

  ghost predicate Carried(job: Job, g: Guarded) {
    && g.dev == DevDone(job)
    && g.written == if IsData(job.msg) then job.g.written + [job.msg] else job.g.written
  }

  /** The thread is at work on it. */
  ghost predicate Serving(job: Job, s: Server) {
    && job.t in s.threads && s.log == job.log
    && (var th := s.threads[job.t];
        && Holding(th.pc) && th.msg == job.msg && CleanThread(th)
        && if PastCommand(th.pc) then Carried(job, s.g) && th.tid == job.t && th.cmd == |job.g.commands| + 1
           else s.g == job.g.(fPos := s.g.fPos))
  }

  /** It has been answered, in full, the mutex is free, and the thread receives again. */
  ghost predicate Served(n: nat, job: Job, s: Server)
    requires n > 0
  {
    && s.owner == None && Carried(job, s.g)
    && job.t in s.threads && s.threads[job.t].pc.Receiving?
    && |s.log| == |job.log| + 1 && s.log[..|job.log|] == job.log
    && Answers(n, job, s.log[|job.log|])
  }

  /** The whole answer: the stream, from where a seek leads or, for data, from an offset that
      is 0 unless a seek came before. */
  ghost predicate Answers(n: nat, job: Job, x: Exchange)
    requires n > 0
  {
    var stream := StreamOf(n, DevDone(job));
    && x.tid == job.t && x.cmd == |job.g.commands| + 1 && x.msg == job.msg && x.whole
    && x.at == |DevDone(job).history| && x.start <= |stream| && x.reply == stream[x.start..]
    && (!IsData(job.msg) ==> Target(n, job.g.dev.history, job.msg) == Some(x.start))
    && (!x.seeked ==> x.start == 0)
  }

  /** How many steps of its own the thread still needs, at most. */
  function StepsLeft(c: Count, pc: Pc, pos: nat): nat {
    var end, left := c.size, c.rank(pos);
    match pc
    case Locked => 2 * end + 8
    case Opened => 2 * end + 7
    case Commanded => 2 * end + 6
    case Positioned => 2 * end + 5
    case Measured => 2 * end + 4
    case Rewound => 2 * end + 3
    case Reading => 2 * left + 2
    case Sending => 2 * left + 3
    case Closing => 1
    case _ => 0
  }

  function Left(c: Count, job: Job, s: Server): nat
    requires job.t in s.threads
  {
    StepsLeft(c, s.threads[job.t].pc, s.g.fPos)
  }

  /** One step closer. */
  ghost predicate Closer(c: Count, job: Job, s: Server, s': Server)
    requires job.t in s.threads
  {
    Serving(job, s') && Left(c, job, s') < Left(c, job, s)
  }

  /** Data, copied in full. */
  lemma DataCarried(g: Guarded, msg: seq<byte>)
    ensures var g' := WriteMessage(g, msg, 0); g'.dev == Accept(g.dev, msg) && g'.written == g.written + [msg]
  {
    Whole(msg);
  }

  lemma DataCloser(n: nat, c: Count, job: Job, s: Server, env: Env)
    requires n > 0 && Serving(job, s) && s.threads[job.t].pc.Opened? && Faultless(env) && IsData(job.msg)
    ensures Closer(c, job, s, StepCommand(n, s, job.t, s.threads[job.t], env))
  {
    DataCarried(s.g, job.msg);
    DataCarried(Noted(s, job.t, job.msg).g, job.msg);
  }

  lemma CommandCloser(n: nat, c: Count, job: Job, s: Server, env: Env)
    requires n > 0 && Serving(job, s) && s.threads[job.t].pc.Opened? && Faultless(env)
    requires Doable(n, job.g.dev.history, job.msg)
    ensures Closer(c, job, s, StepCommand(n, s, job.t, s.threads[job.t], env))
  {
    if IsData(job.msg) {
      DataCloser(n, c, job, s, env);
    } else {
      assert SlotsOf(n, s.g.dev) == SlotsOf(n, Dev(s.g.dev.history, []));
    }
  }

  lemma SeekCloser(n: nat, c: Count, job: Job, s: Server, env: Env)
    requires n > 0 && Inv(n, s) && Serving(job, s) && Faultless(env) && Bounded(c)
    ensures var t, th := job.t, s.threads[job.t];
            && (th.pc.Commanded? ==> Closer(c, job, s, StepTell(s, t, th, env)))
            && (th.pc.Positioned? ==> Closer(c, job, s, StepSeekEnd(n, s, t, th, env)))
            && (th.pc.Measured? ==> Closer(c, job, s, StepSeekSet(s, t, th, env)))
            && (th.pc.Rewound? ==> Closer(c, job, s, StepAllocate(s, t, th, env)))
  {
    CleanSeek(n, s, job.t, env);
  }

  lemma ReadServes(job: Job, s: Server, got: seq<byte>)
    requires Serving(job, s) && s.threads[job.t].pc.Reading?
    ensures var s' := AfterRead(s, job.t, s.threads[job.t], false, got, got == []);
            && Serving(job, s') && s'.g.fPos == s.g.fPos + |got|
            && s'.threads[job.t].pc == if got == [] then Closing else Sending
  {
  }

  lemma ReadCloser(n: nat, c: Count, job: Job, s: Server, got: seq<byte>)
    requires Serving(job, s) && s.threads[job.t].pc.Reading?
    requires got == [] || c.rank(s.g.fPos + |got|) < c.rank(s.g.fPos)
    ensures Closer(c, job, s, AfterRead(s, job.t, s.threads[job.t], false, got, got == []))
  {
    ReadServes(job, s, got);
  }

  lemma SendCloser(n: nat, c: Count, job: Job, s: Server, env: Env)
    requires Serving(job, s) && s.threads[job.t].pc.Sending? && Faultless(env)
    ensures Closer(c, job, s, StepSend(s, job.t, s.threads[job.t], env))
  {
  }

  lemma SliceToEnd(s: seq<byte>, base: nat, reply: seq<byte>)
    requires Slice(s, base, |s|, reply)
    ensures reply == s[base..]
  {
  }

  /** What the thread puts on record at its end. */
  lemma CloseAnswers(n: nat, job: Job, g: Guarded, th: Thread)
    requires n > 0 && th.pc.Closing? && Progress(n, g, g.fPos, th) && th.clean && Carried(job, g)
    requires th.msg == job.msg && th.tid == job.t && th.cmd == |job.g.commands| + 1
    ensures Answers(n, job, Said(th, true))
  {
    SliceToEnd(StreamOf(n, DevDone(job)), th.base, th.reply);
  }

  lemma CloseServes(n: nat, job: Job, s: Server)
    requires n > 0 && Inv(n, s) && Serving(job, s) && s.threads[job.t].pc.Closing?
    ensures Served(n, job, StepClose(s, job.t, s.threads[job.t]))
  {
    assert ThreadOk(n, s, job.t);
    CloseAnswers(n, job, s.g, s.threads[job.t]);
  }

  /** A step of the thread itself brings it closer, or to its end. */
  lemma OwnStep(n: nat, c: Count, job: Job, s: Server, env: Env)
    requires n > 0 && Inv(n, s) && Serving(job, s) && Faultless(env)
    requires Doable(n, job.g.dev.history, job.msg) && Counts(n, job, c)
    ensures var s' := Step(n, s, job.t, env);
            if s.threads[job.t].pc.Closing? then Served(n, job, s') else Closer(c, job, s, s')
  {
    var t, th := job.t, s.threads[job.t];
    match th.pc {
      case Locked =>
      case Opened => CommandCloser(n, c, job, s, env);
      case Reading =>
        assert ThreadOk(n, s, t);
        GotAll(n, s.g, th, env);
        ReadOnTrack(n, s.g, th, env);
        ReadCloser(n, c, job, s, Got(n, s.g, th, env));
      case Sending => SendCloser(n, c, job, s, env);
      case Closing => CloseServes(n, job, s);
      case _ => SeekCloser(n, c, job, s, env);
    }
  }

  /** A step of another thread, whatever happens in it, changes nothing that matters. */
  lemma OtherStep(n: nat, c: Count, job: Job, s: Server, u: nat, env: Env)
    requires n > 0 && Inv(n, s) && Serving(job, s) && u != job.t
    ensures var s' := Step(n, s, u, env); Serving(job, s') && Left(c, job, s') == Left(c, job, s)
  {
    assert ThreadOk(n, s, job.t) && ThreadOk(n, s, u);
    if u in s.threads {
      OutsideShape(n, s, u, env);
    }
  }

  lemma FirstStep(n: nat, s: Server, t: nat, steps: seq<(nat, Env)>, k: nat)
    requires n > 0 && k < |steps|
    ensures RunFrom(n, s, steps[..k + 1]) == RunFrom(n, Step(n, s, steps[0].0, steps[0].1), steps[1..][..k])
    ensures Own(steps[..k + 1], t) == (if steps[0].0 == t then 1 else 0) + Own(steps[1..][..k], t)
  {
    Uncons(steps, k);
  }

  /** The end, or one step on with no more of its own steps left than there are to come. */
  lemma AnyStep(n: nat, c: Count, job: Job, s: Server, steps: seq<(nat, Env)>) returns (s': Server, own: nat)
    requires n > 0 && Inv(n, s) && Serving(job, s) && Doable(n, job.g.dev.history, job.msg)
    requires steps != [] && OwnFaultless(steps, job.t) && Counts(n, job, c)
    ensures s' == RunFrom(n, s, steps[..1]) && own == Own(steps[..1], job.t) == if steps[0].0 == job.t then 1 else 0
    ensures Inv(n, s') && OwnFaultless(steps[1..], job.t)
    ensures if own == 1 && s.threads[job.t].pc.Closing? then Served(n, job, s')
            else Serving(job, s') && Left(c, job, s') + own <= Left(c, job, s)
  {
    var (u, env) := steps[0];
    s', own := Step(n, s, u, env), if u == job.t then 1 else 0;
    FirstStep(n, s, job.t, steps, 0);
    assert steps[1..][..0] == [];
    StepKeepsInv(n, s, u, env);
    if u == job.t {
      OwnStep(n, c, job, s, env);
    } else {
      OtherStep(n, c, job, s, u, env);
    }
  }

  lemma OwnOnward(steps: seq<(nat, Env)>, t: nat)
    requires steps != []
    ensures Own(steps, t) == Own(steps[1..], t) + if steps[0].0 == t then 1 else 0
  {
  }

  lemma Onward(n: nat, s: Server, t: nat, steps: seq<(nat, Env)>, k: nat)
    requires n > 0 && k < |steps|
    ensures RunFrom(n, s, steps[..k + 1]) == RunFrom(n, RunFrom(n, s, steps[..1]), steps[1..][..k])
    ensures Own(steps[..k + 1], t) == Own(steps[..1], t) + Own(steps[1..][..k], t)
  {
    FirstStep(n, s, t, steps, k);
    FirstStep(n, s, t, steps, 0);
    assert steps[1..][..0] == [];
  }

  /** Whatever the other threads do in between, a thread at work that takes enough steps of
      its own, none of which fails, answers and releases the mutex: after `k` steps in all. */
  lemma {:induction false} Serves(n: nat, c: Count, job: Job, s: Server, steps: seq<(nat, Env)>) returns (k: nat)
    requires n > 0 && Inv(n, s) && Serving(job, s) && Doable(n, job.g.dev.history, job.msg)
    requires Counts(n, job, c)
    requires OwnFaultless(steps, job.t) && Own(steps, job.t) >= Left(c, job, s)
    ensures k <= |steps| && Own(steps[..k], job.t) <= Left(c, job, s) && Served(n, job, RunFrom(n, s, steps[..k]))
    decreases |steps|
  {
    var s', own := AnyStep(n, c, job, s, steps);
    if own == 1 && s.threads[job.t].pc.Closing? {
      k := 1;
    } else {
      OwnOnward(steps, job.t);
      k := Serves(n, c, job, s', steps[1..]);
      Onward(n, s, job.t, steps, k);
      k := k + 1;
    }
  }

  lemma LogGrows(n: nat, s: Server, t: nat, env: Env)
    requires n > 0 && Inv(n, s)
    ensures s.log <= Step(n, s, t, env).log
  {
    if t in s.threads {
      assert ThreadOk(n, s, t);
      if s.threads[t].pc.Opened? {
        CommandShape(n, s, t, env);
      } else {
        StepShape(n, s, t, env);
      }
    }
  }

  lemma {:induction false} LogStays(n: nat, s: Server, steps: seq<(nat, Env)>, k: nat)
    requires n > 0 && Inv(n, s) && k <= |steps|
    ensures RunFrom(n, s, steps[..k]).log <= RunFrom(n, s, steps).log
    decreases |steps|, k
  {
    if steps == [] {
      assert steps[..k] == steps;
    } else {
      var s' := Step(n, s, steps[0].0, steps[0].1);
      StepKeepsInv(n, s, steps[0].0, steps[0].1);
      if k == 0 {
        LogGrows(n, s, steps[0].0, steps[0].1);
        LogStays(n, s', steps[1..], 0);
        assert steps[1..][..0] == [] && steps[..0] == [];
      } else {
        LogStays(n, s', steps[1..], k - 1);
        assert steps[..k][1..] == steps[1..][..k - 1];
      }
    }
  }

  /** How many steps of its own a thread needs for a message, at most: each command in the ring
      takes a read and a send. */
  function Enough(n: nat, job: Job): nat {
    2 * |RingOf(n, DevDone(job))| + 9
  }

  lemma Begins(n: nat, s: Server, t: nat, env: Env)
    requires n > 0 && s.owner == None && t in s.threads && s.threads[t].pc.HasMessage?
    ensures var s' := Step(n, s, t, env); Serving(JobOf(s, t), s') && s'.threads[t].pc.Locked?
  {
  }

  lemma StaysAnswered(n: nat, job: Job, s: Server, log: seq<Exchange>)
    requires n > 0 && Served(n, job, s) && s.log <= log
    ensures |job.log| < |log| && Answers(n, job, log[|job.log|])
  {
  }

  /** In every interleaving: a thread with a message, data or a seek that leads somewhere, that
      gets the mutex and then takes enough steps of its own, none of which fails, has carried
      it out, answered in full and released the mutex after `k` of the steps, whatever the
      other threads do and whatever fails in them; and the answer stays on record. */
  lemma Undisturbed(n: nat, s: Server, t: nat, steps: seq<(nat, Env)>) returns (k: nat)
    requires n > 0 && Inv(n, s) && s.owner == None
    requires t in s.threads && s.threads[t].pc.HasMessage? && Doable(n, s.g.dev.history, s.threads[t].msg)
    requires OwnFaultless(steps, t) && Own(steps, t) >= Enough(n, JobOf(s, t)) && steps[0].0 == t
    ensures var job := JobOf(s, t);
            && k <= |steps| && Own(steps[..k], t) <= Enough(n, job)
            && Served(n, job, RunFrom(n, s, steps[..k]))
            && var log := RunFrom(n, s, steps).log; |s.log| < |log| && Answers(n, job, log[|s.log|])
  {
    var job, s', rest := JobOf(s, t), Step(n, s, t, steps[0].1), steps[1..];
    StepKeepsInv(n, s, t, steps[0].1);
    Begins(n, s, t, steps[0].1);
    var c := UnreadCounts(n, job);
    k := Serves(n, c, job, s', rest);
    FirstStep(n, s, t, steps, k);
    k := k + 1;
    LogStays(n, s, steps, k);
    StaysAnswered(n, job, RunFrom(n, s, steps[..k]), RunFrom(n, s, steps).log);
  }
}
