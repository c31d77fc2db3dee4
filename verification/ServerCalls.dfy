/** The system calls of the locked section, made on the driver's own device and file: each
    does what the step of the same name does to the guarded state. */
module ServerCalls {
  import opened Bytes
  import opened DeviceSpec
  import opened Driver
  import opened SeekCommand
  import opened ServerProtocol

  /** The device and the open file stand as the guarded state says. */
  ghost predicate Backs(d: Device, f: File, g: Guarded)
    reads d, d.ring, d.ring.entry, f
  {
    d.Valid() && !d.Lost() && d.dev == g.dev && f.fPos == g.fPos
  }

  /** open: a file at position 0. */
  method Open(d: Device, ghost s: Server, ghost t: nat) returns (f: File)
    requires d.Valid() && !d.Lost() && d.dev == s.g.dev && d.Capacity() > 0
    requires t in s.threads && s.threads[t].pc.Locked?
    ensures fresh(f) && Backs(d, f, Step(d.Capacity(), s, t, Env([], false, 0)).g)
  {
    f := new File();
  }

  lemma CarryData(n: nat, s: Server, t: nat, th: Thread, uncopied: nat)
    requires n > 0 && IsData(th.msg)
    ensures Carry(n, s, t, th, Env([], false, uncopied)).g == WriteMessage(s.g, th.msg, uncopied)
  {
  }

  /** write, as the server's guarded state sees it. */
  method WriteBytes(d: Device, f: File, msg: seq<byte>, interrupted: bool, uncopied: nat, ghost g: Guarded)
      returns (ret: int)
    requires Backs(d, f, g) && msg != []
    modifies d, d.ring, d.ring.entry, f
    ensures d.Valid() && (interrupted ==> ret < 0)
    ensures ret < 0 ==> d.dev == g.dev && f.fPos == g.fPos
    ensures ret >= 0 ==> Backs(d, f, WriteMessage(g, msg, uncopied))
  {
    ret := d.Write(f, msg, interrupted, uncopied);
  }

  /** write of a message that is data. It fails as a system call when it returns an error. */
  method WriteData(d: Device, f: File, msg: seq<byte>, interrupted: bool, uncopied: nat,
                   ghost s: Server, ghost t: nat, ghost th: Thread) returns (ret: int)
    requires Backs(d, f, s.g) && d.Capacity() > 0 && msg == th.msg && NEWLINE in msg && IsData(msg)
    modifies d, d.ring, d.ring.entry, f
    ensures d.Valid() && (interrupted ==> ret < 0)
    ensures ret < 0 ==> d.dev == s.g.dev && f.fPos == s.g.fPos
    ensures ret >= 0 ==> Backs(d, f, Carry(d.Capacity(), s, t, th, Env([], false, uncopied)).g)
  {
    CarryData(d.Capacity(), s, t, th, uncopied);
    ret := WriteBytes(d, f, msg, interrupted, uncopied, s.g);
  }

  /** What a seek command does to the guarded state. */
  lemma CarrySeek(n: nat, s: Server, t: nat, th: Thread, env: Env)
    requires n > 0 && Parse(th.msg).Seek?
    ensures var p := SeekTo(SlotsOf(n, s.g.dev), Parse(th.msg).writeCmd, Parse(th.msg).writeCmdOffset);
            && p == Target(n, s.g.dev.history, th.msg)
            && Carry(n, s, t, th, env).g == if env.fail || p.None? then s.g else s.g.(fPos := p.value)
  {
    assert SlotsOf(n, s.g.dev) == SlotsOf(n, DeviceSpec.Dev(s.g.dev.history, []));
  }

  /** ioctl with the request number that the server uses. */
  method Request(d: Device, f: File, cmd: nat, offset: nat, interrupted: bool) returns (ret: int)
    requires d.Valid() && d.Capacity() > 0
    modifies f
    ensures var p := SeekTo(SlotsOf(d.Capacity(), d.dev), cmd, offset);
            if interrupted || p.None? then ret < 0 && f.fPos == old(f.fPos) else ret == 0 && f.fPos == p.value
  {
    RequestNumber();
    ret := d.Ioctl(f, AESDCHAR_IOCSEEKTO, Some((cmd, offset)), interrupted);
  }

  /** ioctl of a seek command. */
  method SeekCommanded(d: Device, f: File, msg: seq<byte>, interrupted: bool,
                       ghost s: Server, ghost t: nat, ghost th: Thread) returns (ret: int)
    requires Backs(d, f, s.g) && d.Capacity() > 0 && msg == th.msg && Parse(msg).Seek?
    modifies f
    ensures Backs(d, f, Carry(d.Capacity(), s, t, th, Env([], interrupted, 0)).g)
    ensures ret == 0 <==> !interrupted && Target(d.Capacity(), s.g.dev.history, th.msg).Some?
  {
    CarrySeek(d.Capacity(), s, t, th, Env([], interrupted, 0));
    ret := Request(d, f, Parse(msg).writeCmd, Parse(msg).writeCmdOffset, interrupted);
  }

  /** lseek to the end. */
  method SeekEnd(d: Device, f: File, interrupted: bool, ghost s: Server, ghost t: nat, ghost th: Thread) returns (ret: int)
    requires Backs(d, f, s.g)
    modifies f
    ensures Backs(d, f, StepSeekEnd(d.Capacity(), s, t, th, Env([], interrupted, 0)).g)
    ensures !interrupted ==> ret == |StreamOf(d.Capacity(), s.g.dev)|
    ensures interrupted ==> ret < 0
  {
    ret := d.Llseek(f, 0, SEEK_END, interrupted, 0);
  }

  /** lseek by nothing from the current position. */
  method Tell(d: Device, f: File, interrupted: bool, ghost s: Server, ghost t: nat, ghost th: Thread) returns (ret: int)
    requires Backs(d, f, s.g)
    modifies f
    ensures Backs(d, f, StepTell(s, t, th, Env([], interrupted, 0)).g)
    ensures if interrupted then ret < 0 else ret == s.g.fPos
  {
    ret := d.Llseek(f, 0, SEEK_CUR, interrupted, 0);
  }

  /** lseek to the start offset, which is negative when asking for it failed. */
  method SeekSet(d: Device, f: File, offset: int, interrupted: bool, ghost s: Server, ghost t: nat, ghost th: Thread)
      returns (ret: int)
    requires Backs(d, f, s.g) && offset == th.offset
    modifies f
    ensures Backs(d, f, StepSeekSet(s, t, th, Env([], interrupted, 0)).g)
  {
    ret := d.Llseek(f, offset, SEEK_SET, interrupted, 0);
  }

  /** read. */
  method ReadChunk(d: Device, f: File, count: nat, interrupted: bool, uncopied: nat,
                   ghost s: Server, ghost t: nat, ghost th: Thread) returns (ret: int, chunk: seq<byte>)
    requires Backs(d, f, s.g) && count == th.bytesProcessed
    modifies f
    ensures Backs(d, f, StepRead(d.Capacity(), s, t, th, Env([], interrupted, uncopied)).g)
    ensures if interrupted then ret < 0 else chunk == Got(d.Capacity(), s.g, th, Env([], false, uncopied)) && ret == |chunk|
  {
    ret, chunk := d.Read(f, count, interrupted, uncopied);
  }
}
