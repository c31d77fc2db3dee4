/** The server as a program: the threads' variables, the mutex and the descriptor, changed
    by system calls on the driver's own device. Whatever the schedule, it stands as the run
    of ServerProtocol with the same steps, so what is proved of runs holds of it. */
module ServerProcess {
  import opened Bytes
  import opened DeviceSpec
  import opened Driver
  import opened SeekCommand
  import opened ServerProtocol
  import opened ServerTheorems
  import opened ServerProgress
  import ServerCalls

  /** The variables of `process`, and where it is; `sent` has gone out since the send buffer
      was allocated. */
  datatype Locals = Locals(
    pc: Pc, msg: seq<byte>, ioctlCmdRecv: bool, offset: int, bytesProcessed: nat, chunk: seq<byte>, sent: seq<byte>)

  const NEW_LOCALS := Locals(Receiving, [], false, 0, 0, [], [])

  ghost function LocalsOf(th: Thread): Locals {
    Locals(th.pc, th.msg, th.ioctlCmdRecv, th.offset, th.bytesProcessed, th.chunk, th.reply)
  }

  /** What a turn of a thread comes to: its variables, the mutex, and the reply, if it ends
      here. */
  datatype Effect = Effect(v: Locals, owner: Option<nat>, said: seq<seq<byte>>)

  /** The effect is that of going from `s` to `s'`. */
  ghost predicate Matches(s: Server, s': Server, t: nat, e: Effect) {
    && t in s'.threads && e.v == LocalsOf(s'.threads[t]) && e.owner == s'.owner
    && |s'.log| == |s.log| + |e.said| && s.log <= s'.log
    && forall i :: 0 <= i < |e.said| ==> s'.log[|s.log| + i].reply == e.said[i]
  }

  /** The device and the file stand as the guarded state says; a device that has lost its
      pending bytes is never looked at again. */
  ghost predicate Stands(d: Device, f: File, s: Server)
    reads d, d.ring, d.ring.entry, f
  {
    d.Valid() && d.dev == s.g.dev && f.fPos == s.g.fPos && (d.Lost() ==> Stuck(s))
  }

  /** The thread has the mutex, and its variables are at hand. */
  ghost predicate Has(s: Server, t: nat, v: Locals) {
    t in s.threads && s.owner == Some(t) && v == LocalsOf(s.threads[t])
  }

  /** ioctl, after a seek command. */
  method Seeks(d: Device, f: File, t: nat, v: Locals, env: Env, ghost s: Server) returns (e: Effect)
    requires ServerCalls.Backs(d, f, s.g) && d.Capacity() > 0 && Has(s, t, v) && v.pc.Opened? && Parse(v.msg).Seek?
    modifies f
    ensures var s' := StepCommand(d.Capacity(), s, t, s.threads[t], env); Matches(s, s', t, e) && Stands(d, f, s')
  {
    ghost var th := s.threads[t].(tid := t, cmd := |s.g.commands| + 1);
    ghost var noted := Noted(s, t, v.msg);
    ServerCalls.CarrySeek(d.Capacity(), noted, t, th, env);
    var ret := ServerCalls.SeekCommanded(d, f, v.msg, env.fail, noted, t, th);
    if ret != 0 {
      e := Effect(v.(pc := Returned, ioctlCmdRecv := true), None, []);
    } else {
      e := Effect(v.(pc := Commanded, ioctlCmdRecv := true), Some(t), []);
    }
  }

  /** write, of data. Whether it fails is for the driver to decide. */
  method Writes(d: Device, f: File, t: nat, v: Locals, env: Env, ghost s: Server) returns (e: Effect, fail: bool)
    requires ServerCalls.Backs(d, f, s.g) && d.Capacity() > 0 && Has(s, t, v) && v.pc.Opened?
    requires IsData(v.msg) && NEWLINE in v.msg
    modifies d, d.ring, d.ring.entry, f
    ensures env.fail ==> fail
    ensures var s' := StepCommand(d.Capacity(), s, t, s.threads[t], env.(fail := fail));
            Matches(s, s', t, e) && Stands(d, f, s')
  {
    ghost var th := s.threads[t].(tid := t, cmd := |s.g.commands| + 1);
    ghost var noted := Noted(s, t, v.msg);
    ServerCalls.CarryData(d.Capacity(), noted, t, th, env.uncopied);
    var ret := ServerCalls.WriteData(d, f, v.msg, env.fail, env.uncopied, noted, t, th);
    fail := ret < 0;
    e := Effect(v.(pc := if fail then Returned else Commanded), Some(t), []);
  }

  method Commands(d: Device, f: File, t: nat, v: Locals, env: Env, ghost s: Server) returns (e: Effect, fail: bool)
    requires ServerCalls.Backs(d, f, s.g) && d.Capacity() > 0 && Has(s, t, v) && v.pc.Opened? && NEWLINE in v.msg
    modifies d, d.ring, d.ring.entry, f
    ensures (env.fail ==> fail) && (fail ==> env.fail || IsData(v.msg))
    ensures var s' := StepCommand(d.Capacity(), s, t, s.threads[t], env.(fail := fail));
            Matches(s, s', t, e) && Stands(d, f, s')
  {
    fail := env.fail;
    match Parse(v.msg) {
      case Malformed => e := Effect(v.(pc := Returned), Some(t), []);
      case Seek(_, _) => e := Seeks(d, f, t, v, env, s);
      case Data => e, fail := Writes(d, f, t, v, env, s);
    }
  }

  /** lseek to learn the position, once a seek has come in. */
  method Tells(d: Device, f: File, t: nat, v: Locals, env: Env, ghost s: Server) returns (e: Effect)
    requires ServerCalls.Backs(d, f, s.g) && Has(s, t, v) && v.pc.Commanded?
    modifies f
    ensures var s' := StepTell(s, t, s.threads[t], env); Matches(s, s', t, e) && Stands(d, f, s')
  {
    var offset := 0;
    if v.ioctlCmdRecv {
      offset := ServerCalls.Tell(d, f, env.fail, s, t, s.threads[t]);
      if offset < 0 {
        offset := -1;
      }
    }
    e := Effect(v.(pc := Positioned, offset := offset), Some(t), []);
  }

  method SeeksEnd(d: Device, f: File, t: nat, v: Locals, env: Env, ghost s: Server) returns (e: Effect)
    requires ServerCalls.Backs(d, f, s.g) && Has(s, t, v) && v.pc.Positioned?
    modifies f
    ensures var s' := StepSeekEnd(d.Capacity(), s, t, s.threads[t], env); Matches(s, s', t, e) && Stands(d, f, s')
  {
    var ret := ServerCalls.SeekEnd(d, f, env.fail, s, t, s.threads[t]);
    if ret < 0 {
      e := Effect(v.(pc := Returned), None, []);
    } else {
      e := Effect(v.(pc := Measured, bytesProcessed := ret), Some(t), []);
    }
  }

  method SeeksStart(d: Device, f: File, t: nat, v: Locals, env: Env, ghost s: Server) returns (e: Effect)
    requires ServerCalls.Backs(d, f, s.g) && Has(s, t, v) && v.pc.Measured?
    modifies f
    ensures var s' := StepSeekSet(s, t, s.threads[t], env); Matches(s, s', t, e) && Stands(d, f, s')
  {
    var ret := ServerCalls.SeekSet(d, f, v.offset, env.fail, s, t, s.threads[t]);
    e := Effect(v.(pc := Rewound), Some(t), []);
  }

  method Reads(d: Device, f: File, t: nat, v: Locals, env: Env, ghost s: Server) returns (e: Effect)
    requires ServerCalls.Backs(d, f, s.g) && Has(s, t, v) && v.pc.Reading?
    modifies f
    ensures var s' := StepRead(d.Capacity(), s, t, s.threads[t], env); Matches(s, s', t, e) && Stands(d, f, s')
  {
    var ret, chunk := ServerCalls.ReadChunk(d, f, v.bytesProcessed, env.fail, env.uncopied, s, t, s.threads[t]);
    if ret < 0 {
      e := Effect(v.(pc := Returned), Some(t), [v.sent]);
    } else if ret == 0 {
      e := Effect(v.(pc := Closing), Some(t), []);
    } else {
      e := Effect(v.(pc := Sending, chunk := chunk), Some(t), []);
    }
  }

  /** The steps that make no call on the device. */
  function Else(t: nat, v: Locals, owner: Option<nat>, env: Env): Effect {
    match v.pc
    case Receiving =>
      if env.fail then Effect(v.(pc := Returned), owner, [])
      else if NEWLINE in env.msg && NUL !in env.msg then Effect(v.(pc := HasMessage, msg := env.msg), owner, [])
      else Effect(v, owner, [])
    case HasMessage => if owner.Some? then Effect(v, owner, []) else Effect(v.(pc := Locked), Some(t), [])
    case Rewound =>
      if env.fail then Effect(v.(pc := Returned), owner, []) else Effect(v.(pc := Reading, sent := []), owner, [])
    case Sending =>
      if env.fail then Effect(v.(pc := Returned), owner, [v.sent])
      else Effect(v.(pc := Reading, sent := v.sent + v.chunk), owner, [])
    case Closing => Effect(v.(pc := Receiving), None, [v.sent])
    case _ => Effect(v, owner, [])
  }

  lemma ElseMatches(n: nat, s: Server, t: nat, env: Env)
    requires n > 0 && t in s.threads
    requires var pc := s.threads[t].pc; !Holding(pc) || pc.Rewound? || pc.Sending? || pc.Closing?
    ensures var s' := Step(n, s, t, env); Matches(s, s', t, Else(t, LocalsOf(s.threads[t]), s.owner, env)) && s'.g == s.g
  {
  }

  /** A thread outside the locked section leaves a mutex kept for good as it is. */
  lemma StuckStays(n: nat, s: Server, t: nat, env: Env)
    requires n > 0 && t in s.threads && !Holding(s.threads[t].pc) && Stuck(s)
    ensures Stuck(Step(n, s, t, env))
  {
    OutsideShape(n, s, t, env);
  }

  /** A turn of a thread outside the locked section. */
  method OutsideTurn(d: Device, f: File, t: nat, v: Locals, owner: Option<nat>, env: Env, ghost s: Server)
      returns (e: Effect)
    requires d.Capacity() > 0 && Stands(d, f, s)
    requires t in s.threads && v == LocalsOf(s.threads[t]) && owner == s.owner && !Holding(v.pc)
    ensures var s' := Step(d.Capacity(), s, t, env); Matches(s, s', t, e) && Stands(d, f, s')
  {
    e := Else(t, v, owner, env);
    ElseMatches(d.Capacity(), s, t, env);
    if Stuck(s) {
      StuckStays(d.Capacity(), s, t, env);
    }
  }

  /** A turn of the thread that has the mutex. */
  method InsideTurn(d: Device, f: File, t: nat, v: Locals, env: Env, ghost s: Server)
      returns (e: Effect, fail: bool, f': File)
    requires d.Capacity() > 0 && ServerCalls.Backs(d, f, s.g) && Has(s, t, v) && Holding(v.pc)
    requires v.pc.Opened? ==> NEWLINE in v.msg
    modifies d, d.ring, d.ring.entry, f
    ensures f' == f || fresh(f')
    ensures (env.fail ==> fail) && (fail ==> env.fail || (v.pc.Opened? && IsData(v.msg)))
    ensures var s' := Step(d.Capacity(), s, t, env.(fail := fail)); Matches(s, s', t, e) && Stands(d, f', s')
  {
    fail, f' := env.fail, f;
    match v.pc {
      case Locked =>
        f' := new File();
        e := Effect(v.(pc := Opened), Some(t), []);
      case Opened => e, fail := Commands(d, f, t, v, env, s);
      case Commanded => e := Tells(d, f, t, v, env, s);
      case Positioned => e := SeeksEnd(d, f, t, v, env, s);
      case Measured => e := SeeksStart(d, f, t, v, env, s);
      case Reading => e := Reads(d, f, t, v, env, s);
      case Rewound | Sending | Closing =>
        e := Else(t, v, Some(t), env);
        ElseMatches(d.Capacity(), s, t, env);
    }
  }

  ghost predicate SameThreads(vs: map<nat, Locals>, ths: map<nat, Thread>) {
    vs.Keys == ths.Keys && forall t :: t in vs ==> vs[t] == LocalsOf(ths[t])
  }

  /** Each reply has gone to the client of the thread on record with it. */
  ghost predicate SameReplies(replies: seq<(nat, seq<byte>)>, log: seq<Exchange>) {
    |replies| == |log| && forall i :: 0 <= i < |log| ==> replies[i] == (log[i].tid, log[i].reply)
  }

  function To(t: nat, said: seq<seq<byte>>): (r: seq<(nat, seq<byte>)>)
    ensures |r| == |said| && forall i :: 0 <= i < |r| ==> r[i] == (t, said[i])
  {
    seq(|said|, i requires 0 <= i < |said| => (t, said[i]))
  }

  /** What a step puts on record is the thread's own. */
  lemma OwnReplies(n: nat, s: Server, t: nat, env: Env)
    requires n > 0 && Inv(n, s) && ConnThread(s, t) && t in s.threads
    ensures var log, log' := s.log, Step(n, s, t, env).log; forall i :: |log| <= i < |log'| ==> log'[i].tid == t
  {
    assert ThreadOk(n, s, t);
    if s.threads[t].pc.Opened? {
      CommandShape(n, s, t, env);
    } else {
      StepShape(n, s, t, env);
    }
  }

  lemma RepliesAfter(replies: seq<(nat, seq<byte>)>, log: seq<Exchange>, log': seq<Exchange>, t: nat, said: seq<seq<byte>>)
    requires SameReplies(replies, log) && log <= log' && |log'| == |log| + |said|
    requires forall i :: |log| <= i < |log'| ==> log'[i].tid == t
    requires forall i :: 0 <= i < |said| ==> log'[|log| + i].reply == said[i]
    ensures SameReplies(replies + To(t, said), log')
  {
    var more := replies + To(t, said);
    forall i | 0 <= i < |log'|
      ensures more[i] == (log'[i].tid, log'[i].reply)
    {
      if i < |log| {
        assert log'[i] == log[i];
      } else {
        var j := i - |log|;
        assert log'[|log| + j].reply == said[j] && more[i] == To(t, said)[j];
      }
    }
  }

  lemma SameAfter(vs: map<nat, Locals>, replies: seq<(nat, seq<byte>)>, s: Server, s': Server, t: nat, e: Effect)
    requires SameThreads(vs, s.threads) && SameReplies(replies, s.log) && Matches(s, s', t, e)
    requires s'.threads == s.threads[t := s'.threads[t]]
    requires forall i :: |s.log| <= i < |s'.log| ==> s'.log[i].tid == t
    ensures SameThreads(vs[t := e.v], s'.threads) && SameReplies(replies + To(t, e.said), s'.log)
  {
    RepliesAfter(replies, s.log, s'.log, t, e.said);
  }

  /** A turn of a thread that has been seen before. */
  method TurnOf(d: Device, f: File, t: nat, v: Locals, owner: Option<nat>, env: Env, ghost s: Server)
      returns (e: Effect, fail: bool, f': File)
    requires d.Capacity() > 0 && Inv(d.Capacity(), s) && Stands(d, f, s)
    requires t in s.threads && v == LocalsOf(s.threads[t]) && owner == s.owner
    modifies d, d.ring, d.ring.entry, f
    ensures f' == f || fresh(f')
    ensures (env.fail ==> fail) && (fail ==> env.fail || (v.pc.Opened? && IsData(v.msg)))
    ensures var s' := Step(d.Capacity(), s, t, env.(fail := fail));
            Matches(s, s', t, e) && Stands(d, f', s') && s'.threads == s.threads[t := s'.threads[t]]
  {
    assert ThreadOk(d.Capacity(), s, t);
    if Holding(v.pc) {
      e, fail, f' := InsideTurn(d, f, t, v, env, s);
    } else {
      fail, f' := env.fail, f;
      e := OutsideTurn(d, f, t, v, owner, env, s);
    }
    OthersStay(d.Capacity(), s, t, env.(fail := fail));
  }

  lemma RunMore(n: nat, steps: seq<(nat, Env)>, t: nat, env: Env)
    requires n > 0
    ensures Run(n, steps + [(t, env)]) == Step(n, Run(n, steps), t, env)
  {
    assert (steps + [(t, env)])[..|steps|] == steps;
  }

  class Process {
    const device: Device
    var file: File
    var owner: Option<nat>
    var threads: map<nat, Locals>
    /** What the clients have been sent: the thread's number and the bytes. */
    var replies: seq<(nat, seq<byte>)>

    /** The steps made so far. */
    ghost var steps: seq<(nat, Env)>

    /** The state of the run with these steps. */
    ghost function Now(): Server
      reads this, device, device.ring
      requires device.Capacity() > 0
    {
      Run(device.Capacity(), steps)
    }

    /** All stands as in `s`. */
    ghost predicate IsAs(s: Server)
      reads this, device, device.ring, device.ring.entry, file
    {
      && device.Capacity() > 0 && Stands(device, file, s)
      && owner == s.owner && SameThreads(threads, s.threads) && SameReplies(replies, s.log)
    }

    ghost predicate Mirrors()
      reads this, device, device.ring, device.ring.entry, file
    {
      device.Capacity() > 0 && IsAs(Now())
    }

    constructor (n: nat)
      requires 1 <= n <= 255
      ensures fresh(device) && fresh(device.ring) && fresh(device.ring.entry) && fresh(file)
      ensures Mirrors() && device.Capacity() == n && steps == []
    {
      device := new Device(n);
      file := new File();
      owner, threads, replies, steps := None, map[], [], [];
    }

    method Accept(t: nat, env: Env, ghost s: Server)
      requires IsAs(s) && t !in threads
      modifies this`threads
      ensures device.Capacity() > 0 && IsAs(Step(device.Capacity(), s, t, env))
    {
      threads := threads[t := NEW_LOCALS];
      assert LocalsOf(NEW_THREAD) == NEW_LOCALS;
    }

    method Advance(t: nat, env: Env, ghost s: Server) returns (fail: bool)
      requires IsAs(s) && Inv(device.Capacity(), s) && ConnThread(s, t) && t in threads
      modifies this`file, this`owner, this`threads, this`replies, device, device.ring, device.ring.entry, file
      ensures file == old(file) || fresh(file)
      ensures device.Capacity() > 0 && IsAs(Step(device.Capacity(), s, t, env.(fail := fail)))
      ensures (env.fail ==> fail) && (fail ==> env.fail || (old(threads)[t].pc.Opened? && IsData(old(threads)[t].msg)))
    {
      var e;
      e, fail, file := TurnOf(device, file, t, threads[t], owner, env, s);
      OwnReplies(device.Capacity(), s, t, env.(fail := fail));
      SameAfter(threads, replies, s, Step(device.Capacity(), s, t, env.(fail := fail)), t, e);
      threads, owner, replies := threads[t := e.v], e.owner, replies + To(t, e.said);
    }

    /** One turn of thread `t`, a new connection if it has not been seen before. It is a step
        of the run; what fails in it is what the environment says, except that the driver may
        find no memory for a write. */
    method Act(t: nat, env: Env) returns (fail: bool)
      requires Mirrors()
      modifies this, device, device.ring, device.ring.entry, file
      ensures Mirrors() && (file == old(file) || fresh(file))
      ensures steps == old(steps) + [(t, env.(fail := fail))]
      ensures env.fail ==> fail
      ensures fail && !env.fail ==>
                t in old(threads) && old(threads)[t].pc.Opened? && IsData(old(threads)[t].msg)
    {
      RunConn(device.Capacity(), steps);
      assert ConnThread(Now(), t);
      fail := env.fail;
      if t in threads {
        fail := Advance(t, env, Now());
      } else {
        Accept(t, env, Now());
      }
      RunMore(device.Capacity(), steps, t, env.(fail := fail));
      steps := steps + [(t, env.(fail := fail))];
    }
  }

  /** The plan is followed, but for writes for which the driver found no memory. */
  ghost predicate Follows(steps: seq<(nat, Env)>, plan: seq<(nat, Env)>) {
    && |steps| == |plan|
    && forall i :: 0 <= i < |plan| ==>
         && steps[i].0 == plan[i].0 && steps[i].1 == plan[i].1.(fail := steps[i].1.fail)
         && (plan[i].1.fail ==> steps[i].1.fail)
  }

  lemma FollowsMore(steps: seq<(nat, Env)>, plan: seq<(nat, Env)>, fail: bool)
    requires |steps| < |plan| && Follows(steps, plan[..|steps|]) && (plan[|steps|].1.fail ==> fail)
    ensures var (t, env) := plan[|steps|]; Follows(steps + [(t, env.(fail := fail))], plan[..|steps| + 1])
  {
  }

  /** Any schedule of any threads, from the start, on one device: at the end device, position,
      threads and replies are those of a run, so that every reply sent is one that the
      theorems on runs speak of. */
  method Schedule(n: nat, plan: seq<(nat, Env)>) returns (p: Process)
    requires 1 <= n <= 255
    ensures p.Mirrors() && p.device.Capacity() == n && Follows(p.steps, plan)
    ensures SameReplies(p.replies, Run(n, p.steps).log)
  {
    p := new Process(n);
    for i := 0 to |plan|
      invariant fresh(p) && fresh(p.device) && fresh(p.device.ring) && fresh(p.device.ring.entry) && fresh(p.file)
      invariant p.Mirrors() && p.device.Capacity() == n && Follows(p.steps, plan[..i])
    {
      ghost var before := p.steps;
      var fail := p.Act(plan[i].0, plan[i].1);
      FollowsMore(before, plan, fail);
    }
    assert plan[..|plan|] == plan;
  }
}
