/** What becomes of the messages that arrive, in every interleaving: each connection's are
    carried out and answered in the order in which they came, and when a thread returns. */
module ServerMessages {
  import opened Bytes
  import opened DeviceSpec
  import opened SeekCommand
  import opened ServerProtocol
  import opened ServerTheorems

  // --------------------------------------------------------------- arriving

  /** A message arrives for a thread that is waiting for one. */
  ghost predicate Arrives(s: Server, t: nat, env: Env) {
    && t in s.threads && s.threads[t].pc.Receiving?
    && !env.fail && NEWLINE in env.msg && NUL !in env.msg
  }

  /** The messages that have arrived for thread `t`, in order. */
  ghost function Received(n: nat, steps: seq<(nat, Env)>, t: nat): seq<seq<byte>>
    requires n > 0
  {
    if steps == [] then []
    else
      var k := |steps| - 1;
      var (u, env) := steps[k];
      Received(n, steps[..k], t) + if u == t && Arrives(Run(n, steps[..k]), t, env) then [env.msg] else []
  }

  /** The messages that thread `t` has carried out, or tried to, in order. */
  ghost function Texts(commands: seq<Command>, t: nat): seq<seq<byte>> {
    if commands == [] then []
    else
      var k := |commands| - 1;
      Texts(commands[..k], t) + if commands[k].tid == t then [commands[k].msg] else []
  }

  /** The messages that replies to the client of thread `t` answer, in order. */
  ghost function Answered(log: seq<Exchange>, t: nat): seq<seq<byte>> {
    if log == [] then []
    else
      var k := |log| - 1;
      Answered(log[..k], t) + if log[k].tid == t then [log[k].msg] else []
  }

  lemma TextsAppend(commands: seq<Command>, c: Command, t: nat)
    ensures Texts(commands + [c], t) == Texts(commands, t) + if c.tid == t then [c.msg] else []
  {
    assert (commands + [c])[..|commands|] == commands;
  }

  lemma AnsweredAppend(log: seq<Exchange>, x: Exchange, t: nat)
    ensures Answered(log + [x], t) == Answered(log, t) + if x.tid == t then [x.msg] else []
  {
    assert (log + [x])[..|log|] == log;
  }

  /** The thread has a message and has not yet begun to carry it out. */
  predicate Waits(pc: Pc) {
    pc.HasMessage? || pc.Locked? || pc.Opened?
  }

  /** All but at most one of the messages that have arrived (`got`) have been carried out; the
      one that has not is at hand. All but at most one of those carried out have been
      answered; the one that has not is at hand, or the thread has returned. */
  ghost predicate InOrder(s: Server, got: seq<seq<byte>>, t: nat) {
    var texts, told := Texts(s.g.commands, t), Answered(s.log, t);
    if t !in s.threads then got == texts == told == []
    else
      var th := s.threads[t];
      && (th.pc.Returned? ==> got == texts && (texts == told || exists m :: texts == told + [m]))
      && (th.pc.Receiving? ==> got == texts == told)
      && (Waits(th.pc) ==> got == texts + [th.msg] && texts == told)
      && (PastCommand(th.pc) ==> got == texts && texts == told + [th.msg])
  }

  /** What a step of a known thread, other than the command itself, does to its message: it
      comes in, stays at hand until the command, and after it until the reply is on record or
      the thread has returned. */
  ghost predicate Keeps(s: Server, s': Server, t: nat, env: Env) {
    && t in s.threads && t in s'.threads && s'.g.commands == s.g.commands
    && (var th, th' := s.threads[t], s'.threads[t];
        if Arrives(s, t, env) then s'.log == s.log && th'.pc.HasMessage? && th'.msg == env.msg
        else if th.pc.Receiving? then s'.log == s.log && (th'.pc.Receiving? || th'.pc.Returned?)
        else if th.pc.Returned? then s'.log == s.log && th'.pc.Returned?
        else if Waits(th.pc) then s'.log == s.log && Waits(th'.pc) && th'.msg == th.msg
        else if PastCommand(th'.pc) then s'.log == s.log && th'.msg == th.msg
        else
          || ((th'.pc.Receiving? || th'.pc.Returned?)
              && (s'.log == s.log + [Said(th, false)] || s'.log == s.log + [Said(th, true)]))
          || (th'.pc.Returned? && s'.log == s.log))
  }

  lemma OutsideKeeps(n: nat, s: Server, t: nat, env: Env)
    requires n > 0 && t in s.threads && (!Holding(s.threads[t].pc) || s.threads[t].pc.Locked?)
    ensures Keeps(s, Step(n, s, t, env), t, env)
  {
  }

  lemma SeekKeeps(n: nat, s: Server, t: nat, env: Env)
    requires t in s.threads
    ensures s.threads[t].pc.Commanded? ==> Keeps(s, StepTell(s, t, s.threads[t], env), t, env)
    ensures s.threads[t].pc.Positioned? ==> Keeps(s, StepSeekEnd(n, s, t, s.threads[t], env), t, env)
    ensures s.threads[t].pc.Measured? ==> Keeps(s, StepSeekSet(s, t, s.threads[t], env), t, env)
    ensures s.threads[t].pc.Rewound? ==> Keeps(s, StepAllocate(s, t, s.threads[t], env), t, env)
  {
  }

  lemma ReplyKeeps(s: Server, t: nat, env: Env, got: seq<byte>, atEnd: bool)
    requires t in s.threads
    ensures s.threads[t].pc.Reading? ==> Keeps(s, AfterRead(s, t, s.threads[t], env.fail, got, atEnd), t, env)
    ensures s.threads[t].pc.Sending? ==> Keeps(s, StepSend(s, t, s.threads[t], env), t, env)
    ensures s.threads[t].pc.Closing? ==> Keeps(s, StepClose(s, t, s.threads[t]), t, env)
  {
  }

  lemma StepKeepsMessage(n: nat, s: Server, t: nat, env: Env)
    requires n > 0 && t in s.threads && !s.threads[t].pc.Opened?
    ensures Keeps(s, Step(n, s, t, env), t, env)
  {
    var th := s.threads[t];
    match th.pc {
      case Commanded => SeekKeeps(n, s, t, env);
      case Positioned => SeekKeeps(n, s, t, env);
      case Measured => SeekKeeps(n, s, t, env);
      case Rewound => SeekKeeps(n, s, t, env);
      case Reading =>
        ReplyKeeps(s, t, env, Got(n, s.g, th, env), ReadAt(RingOf(n, s.g.dev), s.g.fPos, th.bytesProcessed) == []);
      case Sending => ReplyKeeps(s, t, env, [], false);
      case Closing => ReplyKeeps(s, t, env, [], false);
      case _ => OutsideKeeps(n, s, t, env);
    }
  }

  /** The messages that have arrived for `u` after a step of `t`. */
  ghost function GotAfter(s: Server, t: nat, env: Env, got: seq<seq<byte>>, u: nat): seq<seq<byte>> {
    got + if u == t && Arrives(s, u, env) then [env.msg] else []
  }

  lemma OwnOrder(s: Server, s': Server, t: nat, env: Env, got: seq<seq<byte>>)
    requires InOrder(s, got, t) && ConnThread(s, t) && Keeps(s, s', t, env)
    ensures InOrder(s', GotAfter(s, t, env, got, t), t)
  {
    AnsweredAppend(s.log, Said(s.threads[t], false), t);
    AnsweredAppend(s.log, Said(s.threads[t], true), t);
  }

  lemma OwnCommandOrder(s: Server, s': Server, t: nat, env: Env, got: seq<seq<byte>>)
    requires InOrder(s, got, t) && CommandFrame(s, s', t) && s.threads[t].pc.Opened?
    requires s'.threads[t].pc.Commanded? || s'.threads[t].pc.Returned?
    ensures InOrder(s', GotAfter(s, t, env, got, t), t)
  {
    TextsAppend(s.g.commands, Command(t, s.threads[t].msg), t);
  }

  lemma CommandGoes(n: nat, s: Server, t: nat, env: Env)
    requires n > 0 && t in s.threads && s.threads[t].pc.Opened?
    ensures var s' := StepCommand(n, s, t, s.threads[t], env);
            t in s'.threads && (s'.threads[t].pc.Commanded? || s'.threads[t].pc.Returned?)
  {
  }

  lemma OtherCommandOrder(s: Server, s': Server, t: nat, got: seq<seq<byte>>, u: nat)
    requires InOrder(s, got, u) && u != t && CommandFrame(s, s', t)
    ensures InOrder(s', got, u)
  {
    TextsAppend(s.g.commands, Command(t, s.threads[t].msg), u);
  }

  lemma OtherFrameOrder(s: Server, s': Server, t: nat, got: seq<seq<byte>>, u: nat)
    requires InOrder(s, got, u) && u != t && Frame(s, s', t) && ConnThread(s, t)
    ensures InOrder(s', got, u)
  {
    AnsweredAppend(s.log, Said(s.threads[t], false), u);
    AnsweredAppend(s.log, Said(s.threads[t], true), u);
  }

  /** The messages of the other connections are left alone. */
  lemma OtherOrder(n: nat, s: Server, t: nat, env: Env, got: seq<seq<byte>>, u: nat)
    requires n > 0 && Exclusive(s) && Conn(s) && InOrder(s, got, u) && u != t
    ensures InOrder(Step(n, s, t, env), got, u)
  {
    if t in s.threads {
      assert ConnThread(s, t);
      if s.threads[t].pc.Opened? {
        CommandShape(n, s, t, env);
        OtherCommandOrder(s, Step(n, s, t, env), t, got, u);
      } else {
        StepShape(n, s, t, env);
        OtherFrameOrder(s, Step(n, s, t, env), t, got, u);
      }
    }
  }

  lemma OrderStep(n: nat, s: Server, t: nat, env: Env, got: seq<seq<byte>>, u: nat)
    requires n > 0 && Exclusive(s) && Conn(s) && InOrder(s, got, u)
    ensures InOrder(Step(n, s, t, env), GotAfter(s, t, env, got, u), u)
  {
    if u != t {
      OtherOrder(n, s, t, env, got, u);
    } else if t in s.threads {
      assert ConnThread(s, t);
      if s.threads[t].pc.Opened? {
        CommandShape(n, s, t, env);
        CommandGoes(n, s, t, env);
        OwnCommandOrder(s, Step(n, s, t, env), t, env, got);
      } else {
        StepKeepsMessage(n, s, t, env);
        OwnOrder(s, Step(n, s, t, env), t, env, got);
      }
    }
  }

  /** In every interleaving, with failures anywhere, the messages of a connection are carried
      out and answered as they arrived, in their order, none twice and none left out; at most
      one has arrived and not been carried out, and at most one been carried out and not
      answered. */
  lemma {:induction false} ConnectionInOrder(n: nat, steps: seq<(nat, Env)>, t: nat)
    requires n > 0
    ensures InOrder(Run(n, steps), Received(n, steps, t), t)
  {
    if steps != [] {
      var k := |steps| - 1;
      var s := Run(n, steps[..k]);
      ConnectionInOrder(n, steps[..k], t);
      RunConn(n, steps[..k]);
      InvExclusive(n, s);
      OrderStep(n, s, steps[k].0, steps[k].1, Received(n, steps[..k], t), t);
      GotStep(n, steps, t);
    }
  }

  lemma GotStep(n: nat, steps: seq<(nat, Env)>, t: nat)
    requires n > 0 && steps != []
    ensures var k := |steps| - 1;
            Received(n, steps, t) == GotAfter(Run(n, steps[..k]), steps[k].0, steps[k].1, Received(n, steps[..k], t), t)
  {
  }

  // -------------------------------------------------------------- returning

  /** The step is one that ends the thread: a recv fails; the ioctl does, or it leads nowhere;
      a seek to the end fails; or it is one of those that keep the mutex. */
  ghost predicate Ends(n: nat, s: Server, t: nat, env: Env)
    requires n > 0
  {
    t in s.threads &&
    var th := s.threads[t];
    match th.pc
    case Receiving => env.fail
    case Opened =>
      if Parse(th.msg).Seek? then env.fail || Target(n, s.g.dev.history, th.msg).None?
      else Parse(th.msg).Malformed? || env.fail
    case Positioned => env.fail
    case Rewound => env.fail
    case Reading => env.fail
    case Sending => env.fail
    case _ => false
  }

  ghost predicate Gone(s: Server, t: nat) {
    t in s.threads && s.threads[t].pc.Returned?
  }

  lemma CommandEnds(n: nat, s: Server, t: nat, env: Env)
    requires n > 0 && t in s.threads && s.threads[t].pc.Opened?
    ensures Gone(StepCommand(n, s, t, s.threads[t], env), t) <==> Ends(n, s, t, env)
  {
    assert SlotsOf(n, s.g.dev) == SlotsOf(n, Dev(s.g.dev.history, []));
  }

  lemma SeekEnds(n: nat, s: Server, t: nat, env: Env)
    requires n > 0 && t in s.threads
    ensures var th := s.threads[t];
            && (th.pc.Commanded? ==> !Gone(StepTell(s, t, th, env), t))
            && (th.pc.Positioned? ==> (Gone(StepSeekEnd(n, s, t, th, env), t) <==> env.fail))
            && (th.pc.Measured? ==> !Gone(StepSeekSet(s, t, th, env), t))
            && (th.pc.Rewound? ==> (Gone(StepAllocate(s, t, th, env), t) <==> env.fail))
  {
  }

  lemma ReplyEnds(s: Server, t: nat, env: Env, got: seq<byte>, atEnd: bool)
    requires t in s.threads
    ensures var th := s.threads[t];
            && (th.pc.Reading? ==> (Gone(AfterRead(s, t, th, env.fail, got, atEnd), t) <==> env.fail))
            && (th.pc.Sending? ==> (Gone(StepSend(s, t, th, env), t) <==> env.fail))
            && (th.pc.Closing? ==> !Gone(StepClose(s, t, th), t))
  {
  }

  lemma OwnEnds(n: nat, s: Server, t: nat, env: Env)
    requires n > 0
    ensures Gone(Step(n, s, t, env), t) <==> Gone(s, t) || Ends(n, s, t, env)
  {
    if t in s.threads {
      var th := s.threads[t];
      match th.pc {
        case Opened => CommandEnds(n, s, t, env);
        case Commanded => SeekEnds(n, s, t, env);
        case Positioned => SeekEnds(n, s, t, env);
        case Measured => SeekEnds(n, s, t, env);
        case Rewound => SeekEnds(n, s, t, env);
        case Reading =>
          ReplyEnds(s, t, env, Got(n, s.g, th, env), ReadAt(RingOf(n, s.g.dev), s.g.fPos, th.bytesProcessed) == []);
        case Sending => ReplyEnds(s, t, env, [], false);
        case Closing => ReplyEnds(s, t, env, [], false);
        case _ =>
      }
    }
  }

  lemma OtherEnds(n: nat, s: Server, t: nat, env: Env, u: nat)
    requires n > 0 && Exclusive(s) && u != t
    ensures Gone(Step(n, s, t, env), u) <==> Gone(s, u)
  {
    if t in s.threads {
      if s.threads[t].pc.Opened? {
        CommandShape(n, s, t, env);
      } else {
        StepShape(n, s, t, env);
      }
    }
  }

  ghost predicate EndsAt(n: nat, steps: seq<(nat, Env)>, i: nat, t: nat)
    requires n > 0 && i < |steps|
  {
    steps[i].0 == t && Ends(n, Run(n, steps[..i]), t, steps[i].1)
  }

  /** A thread has returned exactly when one of those steps has been taken. */
  lemma {:induction false} ReturnedExactly(n: nat, steps: seq<(nat, Env)>, t: nat)
    requires n > 0
    ensures Gone(Run(n, steps), t) <==> exists i :: 0 <= i < |steps| && EndsAt(n, steps, i, t)
  {
    if steps != [] {
      var k := |steps| - 1;
      ReturnedExactly(n, steps[..k], t);
      RunConn(n, steps[..k]);
      InvExclusive(n, Run(n, steps[..k]));
      var (u, env) := steps[k];
      if u == t {
        OwnEnds(n, Run(n, steps[..k]), t, env);
      } else {
        OtherEnds(n, Run(n, steps[..k]), u, env, t);
      }
      assert EndsAt(n, steps, k, t) <==> u == t && Ends(n, Run(n, steps[..k]), t, env);
      forall i | 0 <= i < k
        ensures EndsAt(n, steps[..k], i, t) <==> EndsAt(n, steps, i, t)
      {
        assert steps[..k][..i] == steps[..i];
      }
    }
  }
}
