/** What holds in every interleaving of the server's threads: exclusion, the replies, what a
    connection's own messages decide, and when the mutex is kept for good. */
module ServerTheorems {
  import opened Bytes
  import opened DeviceSpec
  import opened SeekCommand
  import opened ServerProtocol

  // ------------------------------------------------------------ connections

  /** One of these commands is a seek of thread `t`. */
  ghost predicate SeekedBy(commands: seq<Command>, t: nat) {
    exists i :: 0 <= i < |commands| && commands[i].tid == t && Parse(commands[i].msg).Seek?
  }

  lemma SeekedByAppend(commands: seq<Command>, c: Command, t: nat)
    ensures SeekedBy(commands + [c], t) <==> SeekedBy(commands, t) || (c.tid == t && Parse(c.msg).Seek?)
  {
    var more := commands + [c];
    if SeekedBy(commands, t) {
      var i :| 0 <= i < |commands| && commands[i].tid == t && Parse(commands[i].msg).Seek?;
      assert more[i] == commands[i];
    }
    assert more[|commands|] == c;
    if SeekedBy(more, t) {
      var i :| 0 <= i < |more| && more[i].tid == t && Parse(more[i].msg).Seek?;
      assert i < |commands| ==> commands[i] == more[i];
    }
  }

  predicate PastCommand(pc: Pc) {
    Holding(pc) && !pc.Locked? && !pc.Opened?
  }

  /** A thread's flag says whether it has carried out a seek; and a thread that has carried
      out a command and not yet replied carried out the last one. */
  ghost predicate ConnThread(s: Server, t: nat) {
    t in s.threads ==>
      var th, commands := s.threads[t], s.g.commands;
      && (th.ioctlCmdRecv <==> SeekedBy(commands, t))
      && (PastCommand(th.pc) ==>
            th.tid == t && 0 < th.cmd == |commands| && commands[|commands| - 1] == Command(t, th.msg))
  }

  /** The exchange belongs to command number `cmd`, and its flag to the commands up to it. */
  ghost predicate Filed(commands: seq<Command>, x: Exchange) {
    && 0 < x.cmd <= |commands| && commands[x.cmd - 1] == Command(x.tid, x.msg)
    && (x.seeked <==> SeekedBy(commands[..x.cmd], x.tid))
  }

  ghost predicate Conn(s: Server) {
    && (forall i :: 0 <= i < |s.g.commands| ==> s.g.commands[i].tid in s.threads)
    && (forall t :: ConnThread(s, t))
    && (forall i :: 0 <= i < |s.log| ==> Filed(s.g.commands, s.log[i]))
  }

  /** The part of the invariant that these arguments need. */
  ghost predicate Exclusive(s: Server) {
    forall t :: t in s.threads && Holding(s.threads[t].pc) ==> s.owner == Some(t)
  }

  lemma InvExclusive(n: nat, s: Server)
    requires n > 0 && Inv(n, s)
    ensures Exclusive(s)
  {
    forall t | t in s.threads && Holding(s.threads[t].pc)
      ensures s.owner == Some(t)
    {
      assert ThreadOk(n, s, t);
    }
  }

  /** What a step that carries out no command leaves alone: all that the mutex guards but the
      position, the other threads, the thread's flag and its place among the commands; and
      what it may say. */
  ghost predicate Frame(s: Server, s': Server, t: nat) {
    && t in s.threads && t in s'.threads && s'.threads == s.threads[t := s'.threads[t]]
    && s'.g == s.g.(fPos := s'.g.fPos)
    && (var th, th' := s.threads[t], s'.threads[t];
        && th'.ioctlCmdRecv == th.ioctlCmdRecv && th'.tid == th.tid && th'.cmd == th.cmd
        && (PastCommand(th'.pc) ==> PastCommand(th.pc) && th'.msg == th.msg)
        && (s'.log == s.log
            || (PastCommand(th.pc) && (s'.log == s.log + [Said(th, false)] || s'.log == s.log + [Said(th, true)]))))
  }

  /** The mutex belongs to a thread that has returned. */
  ghost predicate Stuck(s: Server) {
    s.owner.Some? && s.owner.value in s.threads && s.threads[s.owner.value].pc.Returned?
  }

  /** The step is one of the returns that do not release the mutex: a write, an allocation,
      a read or a send fails, or a seek command has no comma. */
  ghost predicate KeepsMutex(s: Server, t: nat, env: Env) {
    t in s.threads &&
    var th := s.threads[t];
    match th.pc
    case Opened => Parse(th.msg).Malformed? || (Parse(th.msg).Data? && env.fail)
    case Rewound => env.fail
    case Reading => env.fail
    case Sending => env.fail
    case _ => false
  }

  ghost predicate OwnerThere(s: Server) {
    s.owner.Some? ==>
      s.owner.value in s.threads && (Holding(s.threads[s.owner.value].pc) || s.threads[s.owner.value].pc.Returned?)
  }

  /** What a step of a known thread does to the mutex: a thread outside the locked section
      takes it when it is free, or leaves it; a thread inside keeps it, to go on or, at one
      of those steps, to return, or releases it. */
  ghost predicate MutexMoves(s: Server, s': Server, t: nat, keeps: bool) {
    && t in s.threads && t in s'.threads && s'.threads == s.threads[t := s'.threads[t]]
    && (var pc, pc' := s.threads[t].pc, s'.threads[t].pc;
        if !Holding(pc) then
          && !keeps
          && ((s'.owner == s.owner && s'.g == s.g && s'.log == s.log && !Holding(pc') && (pc.Returned? ==> pc'.Returned?))
              || (s.owner == None && s'.owner == Some(t) && Holding(pc')))
        else if s'.owner == s.owner then if keeps then pc'.Returned? else Holding(pc')
        else s'.owner == None && !keeps)
  }

  /** A step that carries out no command, seen from both sides. */
  ghost predicate Shape(s: Server, s': Server, t: nat, keeps: bool) {
    Frame(s, s', t) && MutexMoves(s, s', t, keeps)
  }

  lemma OutsideShape(n: nat, s: Server, t: nat, env: Env)
    requires n > 0 && t in s.threads && (!Holding(s.threads[t].pc) || s.threads[t].pc.Locked?)
    ensures Shape(s, Step(n, s, t, env), t, false)
  {
  }

  lemma SeekShape(n: nat, s: Server, t: nat, env: Env)
    requires t in s.threads && s.owner == Some(t)
    ensures s.threads[t].pc.Commanded? ==> Shape(s, StepTell(s, t, s.threads[t], env), t, false)
    ensures s.threads[t].pc.Positioned? ==> Shape(s, StepSeekEnd(n, s, t, s.threads[t], env), t, false)
    ensures s.threads[t].pc.Measured? ==> Shape(s, StepSeekSet(s, t, s.threads[t], env), t, false)
    ensures s.threads[t].pc.Rewound? ==> Shape(s, StepAllocate(s, t, s.threads[t], env), t, env.fail)
  {
  }

  lemma ReadShape(s: Server, t: nat, fail: bool, got: seq<byte>, atEnd: bool)
    requires t in s.threads && s.owner == Some(t) && s.threads[t].pc.Reading?
    ensures Shape(s, AfterRead(s, t, s.threads[t], fail, got, atEnd), t, fail)
  {
  }

  lemma SendShape(s: Server, t: nat, env: Env)
    requires t in s.threads && s.owner == Some(t) && s.threads[t].pc.Sending?
    ensures Shape(s, StepSend(s, t, s.threads[t], env), t, env.fail)
  {
  }

  lemma CloseShape(s: Server, t: nat)
    requires t in s.threads && s.owner == Some(t) && s.threads[t].pc.Closing?
    ensures Shape(s, StepClose(s, t, s.threads[t]), t, false)
  {
  }

  lemma StepShape(n: nat, s: Server, t: nat, env: Env)
    requires n > 0 && t in s.threads && !s.threads[t].pc.Opened? && (Holding(s.threads[t].pc) ==> s.owner == Some(t))
    ensures Shape(s, Step(n, s, t, env), t, KeepsMutex(s, t, env))
  {
    var th := s.threads[t];
    match th.pc {
      case Commanded => SeekShape(n, s, t, env);
      case Positioned => SeekShape(n, s, t, env);
      case Measured => SeekShape(n, s, t, env);
      case Rewound => SeekShape(n, s, t, env);
      case Reading =>
        ReadShape(s, t, env.fail, Got(n, s.g, th, env), ReadAt(RingOf(n, s.g.dev), s.g.fPos, th.bytesProcessed) == []);
      case Sending => SendShape(s, t, env);
      case Closing => CloseShape(s, t);
      case _ => OutsideShape(n, s, t, env);
    }
  }

  lemma ConnFrame(s: Server, s': Server, t: nat)
    requires Conn(s) && Frame(s, s', t)
    ensures Conn(s')
  {
    forall u
      ensures ConnThread(s', u)
    {
      assert ConnThread(s, u);
    }
    if PastCommand(s.threads[t].pc) {
      SaidFiled(s, t, false);
      SaidFiled(s, t, true);
    }
  }

  /** What the thread puts on record is filed under its own command. */
  lemma SaidFiled(s: Server, t: nat, ended: bool)
    requires Conn(s) && t in s.threads && PastCommand(s.threads[t].pc)
    ensures Filed(s.g.commands, Said(s.threads[t], ended))
  {
    assert ConnThread(s, t);
    assert s.g.commands[..|s.g.commands|] == s.g.commands;
  }

  lemma FiledLater(commands: seq<Command>, c: Command, x: Exchange)
    requires Filed(commands, x)
    ensures Filed(commands + [c], x)
  {
    assert (commands + [c])[..x.cmd] == commands[..x.cmd];
  }

  /** What a step that carries out a command changes. */
  ghost predicate CommandFrame(s: Server, s': Server, t: nat) {
    && t in s.threads && t in s'.threads && s'.threads == s.threads[t := s'.threads[t]] && s'.log == s.log
    && s'.g.commands == s.g.commands + [Command(t, s.threads[t].msg)]
    && (var th, th' := s.threads[t], s'.threads[t];
        && th'.msg == th.msg && th'.tid == t && th'.cmd == |s'.g.commands|
        && th'.ioctlCmdRecv == (th.ioctlCmdRecv || Parse(th.msg).Seek?))
  }

  lemma CommandShape(n: nat, s: Server, t: nat, env: Env)
    requires n > 0 && t in s.threads && s.threads[t].pc.Opened?
    ensures CommandFrame(s, StepCommand(n, s, t, s.threads[t], env), t)
  {
  }

  lemma CommandMutex(n: nat, s: Server, t: nat, env: Env)
    requires n > 0 && t in s.threads && s.threads[t].pc.Opened? && s.owner == Some(t)
    ensures MutexMoves(s, StepCommand(n, s, t, s.threads[t], env), t, KeepsMutex(s, t, env))
  {
  }

  lemma ConnCommand(s: Server, s': Server, t: nat)
    requires Conn(s) && Exclusive(s) && CommandFrame(s, s', t) && s.threads[t].pc.Opened?
    ensures Conn(s')
  {
    var c := Command(t, s.threads[t].msg);
    forall u
      ensures ConnThread(s', u)
    {
      assert ConnThread(s, u);
      SeekedByAppend(s.g.commands, c, u);
    }
    forall i | 0 <= i < |s'.log|
      ensures Filed(s'.g.commands, s'.log[i])
    {
      FiledLater(s.g.commands, c, s.log[i]);
    }
  }

  /** A new connection has no commands yet. */
  lemma ConnNew(s: Server, t: nat)
    requires Conn(s) && t !in s.threads
    ensures Conn(Put(s, t, NEW_THREAD))
  {
    var s' := Put(s, t, NEW_THREAD);
    forall u
      ensures ConnThread(s', u)
    {
      assert ConnThread(s, u);
    }
  }

  lemma ConnStep(n: nat, s: Server, t: nat, env: Env)
    requires n > 0 && Exclusive(s) && Conn(s)
    ensures Conn(Step(n, s, t, env))
  {
    if t !in s.threads {
      ConnNew(s, t);
    } else if s.threads[t].pc.Opened? {
      CommandShape(n, s, t, env);
      ConnCommand(s, Step(n, s, t, env), t);
    } else {
      StepShape(n, s, t, env);
      ConnFrame(s, Step(n, s, t, env), t);
    }
  }

  lemma {:induction false} RunConn(n: nat, steps: seq<(nat, Env)>)
    requires n > 0
    ensures Inv(n, Run(n, steps)) && Conn(Run(n, steps))
  {
    RunKeepsInv(n, steps);
    if steps != [] {
      var front := steps[..|steps| - 1];
      RunConn(n, front);
      var (t, env) := steps[|steps| - 1];
      InvExclusive(n, Run(n, front));
      ConnStep(n, Run(n, front), t, env);
    }
  }

  // --------------------------------------------------------------- theorems

  /** The states of all interleavings of any number of threads. */
  ghost predicate Reachable(n: nat, s: Server)
    requires n > 0
  {
    exists steps :: s == Run(n, steps)
  }

  lemma ReachableInv(n: nat, s: Server)
    requires n > 0 && Reachable(n, s)
    ensures Inv(n, s) && Conn(s)
  {
    var steps :| s == Run(n, steps);
    RunConn(n, steps);
  }

  /** In every interleaving at most one thread is in the locked section. */
  lemma MutualExclusion(n: nat, s: Server, t: nat, u: nat)
    requires n > 0 && Reachable(n, s)
    requires t in s.threads && Holding(s.threads[t].pc)
    requires u in s.threads && Holding(s.threads[u].pc)
    ensures t == u
  {
    ReachableInv(n, s);
    assert ThreadOk(n, s, t) && ThreadOk(n, s, u);
  }

  /** A seek is among the messages of the connection, up to the one this replies to. */
  ghost predicate AfterSeek(s: Server, x: Exchange) {
    x.cmd <= |s.g.commands| && SeekedBy(s.g.commands[..x.cmd], x.tid)
  }

  lemma FromStart(stream: seq<byte>, start: nat, reply: seq<byte>, whole: bool)
    requires ReplyFrom(stream, start, reply, whole)
    ensures reply <= stream[start..] && (whole ==> reply == stream[start..])
  {
    SliceFrom(stream, start, start + |reply|, reply);
  }

  /** In every interleaving, with failures anywhere, every reply is a prefix of the stream
      from the command's start offset, as it stood after the command; and all of it when
      the read loop ran cleanly to its end. The start offset is where the command leads, if
      it is a seek, and 0 if there was no seek among the connection's messages so far. */
  lemma Replies(n: nat, s: Server, x: Exchange)
    requires n > 0 && Reachable(n, s) && x in s.log
    ensures var history := s.g.dev.history;
            && x.at <= |history|
            && x.start <= |StreamAt(n, history, x.at)|
            && x.reply <= StreamAt(n, history, x.at)[x.start..]
            && (x.whole ==> x.reply == StreamAt(n, history, x.at)[x.start..])
            && (!IsData(x.msg) ==> Target(n, history[..x.at], x.msg) == Some(x.start))
            && (!AfterSeek(s, x) ==> x.start == 0)
    ensures 0 < x.cmd <= |s.g.commands| && s.g.commands[x.cmd - 1] == Command(x.tid, x.msg)
  {
    ReachableInv(n, s);
    assert Good(n, s.g.dev.history, s.g.complete, x);
    FromStart(StreamAt(n, s.g.dev.history, x.at), x.start, x.reply, x.whole);
  }

  /** When every message was copied in full, a whole reply to a message on a connection
      without seeks is the last `n` messages written up to and including it. After a seek
      on the connection the reply to a message leaves out as many bytes as it has. */
  lemma RepliesAreLastMessages(n: nat, s: Server, x: Exchange)
    requires n > 0 && Reachable(n, s) && x in s.log
    requires s.g.complete && IsData(x.msg) && x.whole
    ensures 0 < x.at <= |s.g.written| && s.g.written[x.at - 1] == x.msg
    ensures var last := Flatten(LastN(n, s.g.written[..x.at]));
            if AfterSeek(s, x) then |x.msg| <= |last| && x.reply == last[|x.msg|..] else x.reply == last
  {
    ReachableInv(n, s);
    assert Good(n, s.g.dev.history, s.g.complete, x);
    FromStart(StreamAt(n, s.g.dev.history, x.at), x.start, x.reply, x.whole);
  }

  // -------------------------------------------------------- the mutex, kept

  lemma KeptMoves(s: Server, s': Server, t: nat, keeps: bool)
    requires Exclusive(s) && OwnerThere(s) && MutexMoves(s, s', t, keeps)
    ensures OwnerThere(s') && (Stuck(s') <==> Stuck(s) || keeps)
    ensures Stuck(s) ==> s'.g == s.g && s'.log == s.log && s'.owner == s.owner
  {
  }

  lemma KeptStep(n: nat, s: Server, t: nat, env: Env)
    requires n > 0 && Exclusive(s) && OwnerThere(s)
    ensures var s' := Step(n, s, t, env);
            && OwnerThere(s') && (Stuck(s') <==> Stuck(s) || KeepsMutex(s, t, env))
            && (Stuck(s) ==> s'.g == s.g && s'.log == s.log && s'.owner == s.owner)
  {
    if t in s.threads {
      if s.threads[t].pc.Opened? {
        CommandMutex(n, s, t, env);
      } else {
        StepShape(n, s, t, env);
      }
      KeptMoves(s, Step(n, s, t, env), t, KeepsMutex(s, t, env));
    }
  }

  ghost predicate KeptAt(n: nat, steps: seq<(nat, Env)>, i: nat)
    requires n > 0 && i < |steps|
  {
    KeepsMutex(Run(n, steps[..i]), steps[i].0, steps[i].1)
  }

  lemma KeptAtPrefix(n: nat, steps: seq<(nat, Env)>, k: nat, i: nat)
    requires n > 0 && i < k <= |steps|
    ensures KeptAt(n, steps[..k], i) <==> KeptAt(n, steps, i)
  {
    assert steps[..k][..i] == steps[..i];
  }

  /** The mutex is kept for good exactly when one of those steps has been taken. */
  lemma {:induction false} KeptExactly(n: nat, steps: seq<(nat, Env)>)
    requires n > 0
    ensures OwnerThere(Run(n, steps))
    ensures Stuck(Run(n, steps)) <==> exists i :: 0 <= i < |steps| && KeptAt(n, steps, i)
  {
    if steps != [] {
      var k := |steps| - 1;
      KeptExactly(n, steps[..k]);
      KeptLast(n, steps);
      forall i | 0 <= i < k
        ensures KeptAt(n, steps[..k], i) <==> KeptAt(n, steps, i)
      {
        KeptAtPrefix(n, steps, k, i);
      }
    }
  }

  lemma KeptLast(n: nat, steps: seq<(nat, Env)>)
    requires n > 0 && steps != [] && OwnerThere(Run(n, steps[..|steps| - 1]))
    ensures OwnerThere(Run(n, steps))
    ensures Stuck(Run(n, steps)) <==> Stuck(Run(n, steps[..|steps| - 1])) || KeptAt(n, steps, |steps| - 1)
  {
    var front, last := steps[..|steps| - 1], steps[|steps| - 1];
    RunKeepsInv(n, front);
    InvExclusive(n, Run(n, front));
    KeptStep(n, Run(n, front), last.0, last.1);
  }

  /** After one of them, nothing guarded by the mutex changes again, and nothing is said. */
  lemma {:induction false} HeldForever(n: nat, steps: seq<(nat, Env)>, more: seq<(nat, Env)>)
    requires n > 0 && Stuck(Run(n, steps))
    ensures var s, s' := Run(n, steps), Run(n, steps + more);
            Stuck(s') && s'.owner == s.owner && s'.g == s.g && s'.log == s.log
  {
    if more == [] {
      assert steps + more == steps;
    } else {
      var front := more[..|more| - 1];
      HeldForever(n, steps, front);
      assert (steps + more)[..|steps + more| - 1] == steps + front;
      RunKeepsInv(n, steps + front);
      InvExclusive(n, Run(n, steps + front));
      KeptExactly(n, steps + front);
      var (u, env) := more[|more| - 1];
      KeptStep(n, Run(n, steps + front), u, env);
    }
  }

  /** Five steps to it: a connection, a line, the lock, the open, and a write that fails. */
  lemma StuckRun(n: nat)
    requires n > 0
    ensures var fine := Env([120, NEWLINE], false, 0);
            Stuck(Run(n, [(7, fine), (7, fine), (7, fine), (7, fine), (7, fine.(fail := true))]))
  {
    var fine := Env([120, NEWLINE], false, 0);
    var e := (7, fine);
    var steps := [e, e, e, e, (7, fine.(fail := true))];
    assert steps[..4] == [e, e, e, e] && [e, e, e, e][..3] == [e, e, e] && [e, e, e][..2] == [e, e] && [e, e][..1] == [e];
    assert Run(n, [e]) == Put(START, 7, NEW_THREAD);
    var s := Run(n, [e, e]);
    assert s.threads[7] == NEW_THREAD.(pc := HasMessage, msg := fine.msg);
    s := Run(n, [e, e, e]);
    assert s.threads[7].pc.Locked? && s.owner == Some(7);
    s := Run(n, [e, e, e, e]);
    assert s.threads[7].pc.Opened? && s.owner == Some(7) && Parse(fine.msg) == Data;
  }
}
