/** Whole runs of driver calls. */
module DriverRuns {
  import opened Bytes
  import opened DeviceSpec
  import opened Driver
  import opened CircularBuffer

  /** The bytes of `s` from `p` up to `q`; none when `p` is past the end. */
  function Upto(s: seq<byte>, p: nat, q: nat): seq<byte> {
    if p <= q <= |s| then s[p..q] else []
  }

  /** `out` is what reading from `start` to `pos` gives. */
  ghost predicate Drained(s: seq<byte>, start: nat, pos: nat, out: seq<byte>) {
    start <= pos && (start <= |s| ==> pos <= |s|) && out == Upto(s, start, pos)
  }

  /** One complete read extends what has been read of the stream, or finds its end. */
  lemma ReadExtends(ring: seq<seq<byte>>, start: nat, pos: nat, out: seq<byte>, count: nat)
    requires Drained(Flatten(ring), start, pos, out) && count > 0
    ensures var r := ReadAt(ring, pos, count);
            && Drained(Flatten(ring), start, pos + |r|, out + r)
            && (r == [] <==> pos >= |Flatten(ring)|)
            && |r| <= count
  {
    ReadIsSlice(ring, pos, count);
  }

  /** One turn of the drain loop, after `done` has been read from `start` on. */
  method ReadMore(d: Device, f: File, count: nat, ghost start: nat, done: seq<byte>) returns (out: seq<byte>, ret: int)
    requires d.Valid() && count > 0 && Drained(d.StreamNow(), start, f.fPos, done)
    modifies f
    ensures Drained(d.StreamNow(), start, f.fPos, out)
    ensures 0 <= ret <= count && f.fPos == old(f.fPos) + ret
    ensures ret == 0 <==> old(f.fPos) >= |d.StreamNow()|
  {
    ghost var r := ReadAt(d.RingNow(), f.fPos, count);
    ReadExtends(d.RingNow(), start, f.fPos, done, count);
    var bytes;
    ret, bytes := d.Read(f, count, false, 0);
    assert ret == |r| && bytes == r;
    out := done + bytes;
  }

  lemma DrainedWhole(s: seq<byte>, start: nat, pos: nat, out: seq<byte>)
    ensures Drained(s, start, start, [])
    ensures Drained(s, start, pos, out) && pos >= |s| ==> out == if start <= |s| then s[start..] else []
  {
  }

  /** Reading with any positive counts, every copy complete, until a read returns 0:
      the bytes read are the stream from the starting position on. */
  method Drain(d: Device, f: File, counts: nat -> nat) returns (out: seq<byte>)
    requires d.Valid() && forall i :: counts(i) > 0
    modifies f
    ensures out == if old(f.fPos) <= |d.StreamNow()| then d.StreamNow()[old(f.fPos)..] else []
  {
    ghost var s, p := d.StreamNow(), f.fPos;
    out := [];
    var i: nat := 0;
    var ret := 1;
    DrainedWhole(s, p, p, out);
    while ret != 0
      invariant d.Valid() && d.StreamNow() == s && Drained(s, p, f.fPos, out)
      invariant ret == 0 ==> f.fPos >= |s|
      decreases if f.fPos < |s| then |s| - f.fPos else 0, ret != 0
    {
      out, ret := ReadMore(d, f, counts(i), p, out);
      i := i + 1;
    }
    DrainedWhole(s, p, f.fPos, out);
  }

  /** Seeking to the end tells the length of the stream exactly when the driver's length
      variable, which it does not initialise, starts at 0. Reading then finds nothing, on
      every ring, also when the variable starts above 0. */
  method SeekEndThenRead(d: Device, f: File, count: nat, initial: int) returns (end: int, ret: int)
    requires d.Valid()
    modifies f
    ensures end == |d.StreamNow()| <==> initial == 0
    ensures initial >= 0 ==> ret == 0
  {
    end := d.Llseek(f, 0, SEEK_END, false, initial);
    ReadIsSlice(d.RingNow(), f.fPos, count);
    var out;
    ret, out := d.Read(f, count, false, 0);
  }

  /** What a read finds where a request leads. */
  lemma FoundThere(n: nat, d: Dev, cmd: nat, offset: nat, count: nat)
    requires n > 0 && count > 0 && SeekTo(SlotsOf(n, d), cmd, offset).Some?
    ensures var r, ring := ReadAt(RingOf(n, d), SeekTo(SlotsOf(n, d), cmd, offset).value, count), RingOf(n, d);
            && r != []
            && (OutOffs(n, d) == 0 ==>
                  && cmd < |ring| && offset < |ring[cmd]|
                  && r <= ring[cmd][offset..] && |r| == Min(count, |ring[cmd]| - offset))
  {
    SeekThenRead(n, d, cmd, offset, count);
    if OutOffs(n, d) == 0 {
      SeekUnturned(n, d, cmd, offset, count);
    }
  }

  /** A seek request succeeds exactly when the slot and the byte exist. */
  method SeekRequest(d: Device, f: File, writeCmd: nat, writeCmdOffset: nat) returns (ret: int)
    requires d.Valid()
    modifies f
    ensures ret == 0 <==> writeCmd < d.Capacity() && writeCmdOffset < |SlotsOf(d.Capacity(), d.dev)[writeCmd]|
    ensures ret == 0 ==> SeekTo(SlotsOf(d.Capacity(), d.dev), writeCmd, writeCmdOffset) == Some(f.fPos)
    ensures ret != 0 ==> ret == -EINVAL && f.fPos == old(f.fPos)
  {
    RequestNumber();
    ret := d.Ioctl(f, AESDCHAR_IOCSEEKTO, Some((writeCmd, writeCmdOffset)), false);
  }

  /** Reading where a request has led. */
  method ReadThere(d: Device, f: File, ghost cmd: nat, ghost offset: nat, count: nat) returns (out: seq<byte>)
    requires d.Valid() && count > 0 && SeekTo(SlotsOf(d.Capacity(), d.dev), cmd, offset) == Some(f.fPos)
    modifies f
    ensures out != []
    ensures d.ring.outOffs == 0 ==>
              && cmd < |d.RingNow()| && offset < |d.RingNow()[cmd]|
              && out <= d.RingNow()[cmd][offset..] && |out| == Min(count, |d.RingNow()[cmd]| - offset)
  {
    FoundThere(d.Capacity(), d.dev, cmd, offset, count);
    var n;
    n, out := d.Read(f, count, false, 0);
  }

  /** A seek request that succeeds is followed by a read that finds something, whatever the
      rotation; and what it asked for, when the read offset is 0. */
  method SeekToThenRead(d: Device, f: File, writeCmd: nat, writeCmdOffset: nat, count: nat)
      returns (ret: int, out: seq<byte>)
    requires d.Valid() && count > 0
    modifies f
    ensures ret == 0 <==> writeCmd < d.Capacity() && writeCmdOffset < |SlotsOf(d.Capacity(), d.dev)[writeCmd]|
    ensures if ret == 0 then out != [] else ret == -EINVAL && out == [] && f.fPos == old(f.fPos)
    ensures ret == 0 && d.ring.outOffs == 0 ==>
              && writeCmd < |d.RingNow()| && writeCmdOffset < |d.RingNow()[writeCmd]|
              && out <= d.RingNow()[writeCmd][writeCmdOffset..]
              && |out| == Min(count, |d.RingNow()[writeCmd]| - writeCmdOffset)
  {
    out := [];
    ret := SeekRequest(d, f, writeCmd, writeCmdOffset);
    if ret == 0 {
      out := ReadThere(d, f, writeCmd, writeCmdOffset, count);
    }
  }

  datatype Call =
    | Write(file: File, buf: seq<byte>, interrupted: bool, uncopied: nat)
    | Read(file: File, count: nat, interrupted: bool, uncopied: nat)
    | Llseek(file: File, offset: int, origin: int, interrupted: bool, initial: int)
    | Ioctl(file: File, cmd: nat, arg: Option<(nat, nat)>, interrupted: bool)

  /** The device and the positions of the open files, between calls. */
  datatype Moment = Moment(dev: Dev, pos: map<File, nat>)

  /** Bytes that a commit adds to the position of the file that wrote them. */
  function Committed(d: Dev, d': Dev): nat {
    if |d'.history| > |d.history| then |d'.history[|d'.history| - 1]| else 0
  }

  /** What a write may return, and do to the device and the position. The bytes `g` before
      those copied are the pending ones, unless these have been lost. */
  ghost predicate WriteReturns(call: Call, d: Dev, p: nat, ret: int, d': Dev, p': nat)
    requires call.Write?
  {
    && p' == p + Committed(d, d')
    && (if call.buf == [] then ret == 0
        else if call.interrupted then ret == -ERESTARTSYS
        else ret == -ENOMEM || ret == |call.buf| - Min(call.uncopied, |call.buf|))
    && (if ret < 0 || call.buf == [] then d' == d
        else exists g :: |g| == |d.pending| && d' == Accept(Dev(d.history, g), call.buf[..ret]))
  }

  /** What a read returns, hands over and does to the position. */
  ghost predicate ReadReturns(n: nat, call: Call, d: Dev, p: nat, ret: int, out: seq<byte>, p': nat)
    requires call.Read?
  {
    if call.interrupted then ret == -ERESTARTSYS && out == [] && p' == p
    else
      var r := ReadAt(RingOf(n, d), p, call.count);
      && ret == |r| - Min(call.uncopied, |r|) && out == r[..ret] && p' == p + ret
  }

  /** Seeking to a position: it is returned, and the file is there, unless it is negative. */
  predicate SeeksTo(target: int, p: nat, ret: int, p': nat) {
    if target < 0 then ret == -EINVAL && p' == p else ret == target == p'
  }

  /** Origins 0, 1 and 2 are the start, the position and the end. */
  ghost predicate LlseekReturns(n: nat, call: Call, d: Dev, p: nat, ret: int, p': nat)
    requires call.Llseek?
  {
    if call.interrupted then ret == -ERESTARTSYS && p' == p
    else if call.origin == 0 then SeeksTo(call.offset, p, ret, p')
    else if call.origin == 1 then SeeksTo(p + call.offset, p, ret, p')
    else if call.origin == 2 then SeeksTo(call.initial + |StreamOf(n, d)| + call.offset, p, ret, p')
    else ret == -EINVAL && p' == p
  }

  /** A request of another driver, one that cannot be copied in, or one for a byte that no
      slot has, fails and leaves the position alone. */
  ghost predicate IoctlReturns(n: nat, call: Call, d: Dev, p: nat, ret: int, p': nat)
    requires n > 0 && call.Ioctl?
  {
    if call.cmd / 256 % 256 != AESD_IOC_MAGIC || call.cmd % 256 > AESDCHAR_IOC_MAXNR then ret == -ENOTTY && p' == p
    else if call.arg.None? then ret == -EFAULT && p' == p
    else if call.interrupted then ret == -ERESTARTSYS && p' == p
    else
      var slots, (slot, offset) := SlotsOf(n, d), call.arg.value;
      if slot < n && offset < |slots[slot]| then ret == 0 && p' == |Flatten(slots[..slot])| + offset
      else ret == -EINVAL && p' == p
  }

  /** What a call returns (and a read hands over) and does, told from its own arguments, the
      device and the position of its file. */
  ghost predicate CallReturns(n: nat, call: Call, d: Dev, p: nat, ret: int, out: seq<byte>, d': Dev, p': nat)
    requires n > 0
  {
    match call
    case Write(_, _, _, _) => WriteReturns(call, d, p, ret, d', p') && out == []
    case Read(_, _, _, _) => ReadReturns(n, call, d, p, ret, out, p') && d' == d
    case Llseek(_, _, _, _, _) => LlseekReturns(n, call, d, p, ret, p') && d' == d && out == []
    case Ioctl(_, _, _, _) => IoctlReturns(n, call, d, p, ret, p') && d' == d && out == []
  }

  /** The same among all files: the others stay where they are. */
  ghost predicate Returns(n: nat, call: Call, m: Moment, ret: int, out: seq<byte>, m': Moment)
    requires n > 0
  {
    && call.file in m.pos && call.file in m'.pos && m'.pos == m.pos[call.file := m'.pos[call.file]]
    && CallReturns(n, call, m.dev, m.pos[call.file], ret, out, m'.dev, m'.pos[call.file])
  }

  /** Every call of a run returned as it should, from moment to moment. */
  ghost predicate Traced(n: nat, calls: seq<Call>, rets: seq<int>, outs: seq<seq<byte>>, trace: seq<Moment>)
    requires n > 0
  {
    && |calls| == |rets| == |outs| && |trace| == |calls| + 1 && trace[0].dev == FRESH
    && forall i :: 0 <= i < |calls| ==> Returns(n, calls[i], trace[i], rets[i], outs[i], trace[i + 1])
  }

  lemma TracedMore(n: nat, calls: seq<Call>, rets: seq<int>, outs: seq<seq<byte>>, trace: seq<Moment>,
                   call: Call, ret: int, out: seq<byte>, m: Moment)
    requires n > 0 && Traced(n, calls, rets, outs, trace) && Returns(n, call, trace[|calls|], ret, out, m)
    ensures Traced(n, calls + [call], rets + [ret], outs + [out], trace + [m])
  {
  }

  /** The moment is now. */
  ghost predicate IsNow(d: Device, m: Moment, files: set<File>)
    reads d, files
  {
    m.dev == d.dev && m.pos.Keys == files && forall f :: f in files ==> f.fPos == m.pos[f]
  }

  /** The bytes that a call returning `ret` accepted into the device, if any. */
  function Chunk(call: Call, ret: int): seq<seq<byte>> {
    if call.Write? && 0 <= ret <= |call.buf| then [call.buf[..ret]] else []
  }

  /** What the writes of a run said they accepted. */
  function Accepted(calls: seq<Call>, rets: seq<int>): seq<seq<byte>>
    requires |calls| == |rets|
  {
    if calls == [] then []
    else Accepted(calls[..|calls| - 1], rets[..|rets| - 1]) + Chunk(calls[|calls| - 1], rets[|rets| - 1])
  }

  lemma AcceptedAppend(calls: seq<Call>, rets: seq<int>, call: Call, ret: int)
    requires |calls| == |rets|
    ensures Accepted(calls + [call], rets + [ret]) == Accepted(calls, rets) + Chunk(call, ret)
    ensures AcceptAll(Accepted(calls + [call], rets + [ret])) ==
            var d := AcceptAll(Accepted(calls, rets)); var c := Chunk(call, ret);
            if c == [] then d else Accept(d, c[0])
  {
    assert (calls + [call])[..|calls|] == calls && (rets + [ret])[..|rets|] == rets;
    var a := Accepted(calls, rets);
    var c := Chunk(call, ret);
    if c == [] {
      assert a + c == a;
    } else {
      assert (a + c)[..|a|] == a;
    }
  }

  // --------------------------------------------------------- blocks over a run

  /** A write that got as far as asking for memory. */
  predicate Asks(call: Call, ret: int) {
    call.Write? && call.buf != [] && ret != -ERESTARTSYS
  }

  /** The device that the calls and their results add up to. */
  function DevAfter(calls: seq<Call>, rets: seq<int>): Dev
    requires |calls| == |rets|
  {
    AcceptAll(Accepted(calls, rets))
  }

  /** The pending entry holds a block: the last write that asked for memory got it, and did
      not complete a command; it may have copied nothing. */
  predicate Held(calls: seq<Call>, rets: seq<int>)
    requires |calls| == |rets|
  {
    calls != [] &&
    var k := |calls| - 1;
    if Asks(calls[k], rets[k]) then
      rets[k] >= 0 && |DevAfter(calls, rets).history| == |DevAfter(calls[..k], rets[..k]).history|
    else Held(calls[..k], rets[..k])
  }

  /** Call i makes the driver forget a block: it asks for memory while one is held, and
      either nothing is pending, so that the block is not even grown, or it gets none. */
  predicate ForgetsAt(calls: seq<Call>, rets: seq<int>, i: nat)
    requires |calls| == |rets| && i < |calls|
  {
    && Asks(calls[i], rets[i]) && Held(calls[..i], rets[..i])
    && (DevAfter(calls[..i], rets[..i]).pending == [] || rets[i] == -ENOMEM)
  }

  predicate Forgets(calls: seq<Call>, rets: seq<int>)
    requires |calls| == |rets|
  {
    exists i :: 0 <= i < |calls| && ForgetsAt(calls, rets, i)
  }

  /** The runs after which unloading leaves nothing behind: no block was forgotten, none is
      held, and no command was evicted. */
  predicate Tidy(n: nat, calls: seq<Call>, rets: seq<int>)
    requires |calls| == |rets|
  {
    !Forgets(calls, rets) && !Held(calls, rets) && |DevAfter(calls, rets).history| <= n
  }

  /** Call i finds no memory while bytes are pending: the driver then forgets the block that
      holds them. */
  predicate LosesAt(calls: seq<Call>, rets: seq<int>, i: nat)
    requires |calls| == |rets| && i < |calls|
  {
    Asks(calls[i], rets[i]) && rets[i] == -ENOMEM && DevAfter(calls[..i], rets[..i]).pending != []
  }

  predicate Loses(calls: seq<Call>, rets: seq<int>)
    requires |calls| == |rets|
  {
    exists i :: 0 <= i < |calls| && LosesAt(calls, rets, i)
  }

  lemma LosesAppend(calls: seq<Call>, rets: seq<int>, call: Call, ret: int)
    requires |calls| == |rets|
    ensures Loses(calls + [call], rets + [ret]) <==>
            Loses(calls, rets) || (Asks(call, ret) && ret == -ENOMEM && DevAfter(calls, rets).pending != [])
  {
    var cs, rs, k := calls + [call], rets + [ret], |calls|;
    PrefixesAppend(calls, call);
    PrefixesAppend(rets, ret);
    forall i | 0 <= i < k
      ensures LosesAt(cs, rs, i) <==> LosesAt(calls, rets, i)
    {
    }
    if Loses(calls, rets) {
      var i :| 0 <= i < |calls| && LosesAt(calls, rets, i);
      assert LosesAt(cs, rs, i);
    }
    assert LosesAt(cs, rs, k) <==> Asks(call, ret) && ret == -ENOMEM && DevAfter(calls, rets).pending != [];
  }

  lemma ForgetsAppend(calls: seq<Call>, rets: seq<int>, call: Call, ret: int)
    requires |calls| == |rets|
    ensures Forgets(calls + [call], rets + [ret]) <==>
            || Forgets(calls, rets)
            || (Asks(call, ret) && Held(calls, rets) && (DevAfter(calls, rets).pending == [] || ret == -ENOMEM))
  {
    var cs, rs, k := calls + [call], rets + [ret], |calls|;
    PrefixesAppend(calls, call);
    PrefixesAppend(rets, ret);
    forall i | 0 <= i < k
      ensures ForgetsAt(cs, rs, i) <==> ForgetsAt(calls, rets, i)
    {
    }
    if Forgets(calls, rets) {
      var i :| 0 <= i < |calls| && ForgetsAt(calls, rets, i);
      assert ForgetsAt(cs, rs, i);
    }
    assert ForgetsAt(cs, rs, k) <==>
           Asks(call, ret) && Held(calls, rets) && (DevAfter(calls, rets).pending == [] || ret == -ENOMEM);
  }

  lemma HeldAppend(calls: seq<Call>, rets: seq<int>, call: Call, ret: int)
    requires |calls| == |rets|
    ensures Held(calls + [call], rets + [ret]) <==>
            if Asks(call, ret) then
              ret >= 0 && |DevAfter(calls + [call], rets + [ret]).history| == |DevAfter(calls, rets).history|
            else Held(calls, rets)
  {
    assert (calls + [call])[..|calls|] == calls && (rets + [ret])[..|rets|] == rets;
  }

  /** What the memory of a device has to do with its pending entry. */
  datatype Memory = Memory(dev: Dev, pending: Entry, dropped: set<nat>)

  ghost function MemoryOf(d: Device): Memory
    reads d
  {
    Memory(d.dev, d.entry, d.dropped)
  }

  /** One call, seen from the memory of the device. */
  ghost predicate Moves(m: Memory, call: Call, ret: int, m': Memory) {
    if !Asks(call, ret) then m'.pending == m.pending && m'.dropped == m.dropped
    else
      && m'.dropped == m.dropped +
           (if m.pending.buffptr != 0 && (m.pending.size == 0 || ret == -ENOMEM) then {m.pending.buffptr} else {})
      && (ret == -ENOMEM ==> m'.pending == m.pending.(buffptr := 0))
      && (ret >= 0 ==> (m'.pending.buffptr == 0 <==> |m'.dev.history| > |m.dev.history|))
  }

  ghost predicate LostIn(m: Memory) {
    m.pending.size > 0 && m.pending.buffptr == 0
  }

  /** The memory is as the calls and their results say. */
  ghost predicate MemoryAs(m: Memory, calls: seq<Call>, rets: seq<int>)
    requires |calls| == |rets|
  {
    && (Forgets(calls, rets) <==> m.dropped != {})
    && (m.dropped == {} ==>
          !LostIn(m) && m.dev == DevAfter(calls, rets) && (Held(calls, rets) <==> m.pending.buffptr != 0))
  }

  lemma MemoryStep(m: Memory, call: Call, ret: int, m': Memory, calls: seq<Call>, rets: seq<int>)
    requires |calls| == |rets| && MemoryAs(m, calls, rets) && Moves(m, call, ret, m')
    requires |m.dev.pending| == m.pending.size && (ret < 0 ==> ret == -ENOMEM || !Asks(call, ret))
    requires !LostIn(m) ==> m'.dev == var c := Chunk(call, ret); if c == [] then m.dev else Accept(m.dev, c[0])
    requires LostIn(m') ==> LostIn(m) || (Asks(call, ret) && ret == -ENOMEM)
    ensures MemoryAs(m', calls + [call], rets + [ret])
  {
    AcceptedAppend(calls, rets, call, ret);
    ForgetsAppend(calls, rets, call, ret);
    HeldAppend(calls, rets, call, ret);
    if m'.dropped == {} {
      assert m.dropped == {} && !LostIn(m);
    }
  }

  method PerformWrite(d: Device, call: Call) returns (ret: int)
    requires d.Valid() && call.Write?
    modifies d, d.ring, d.ring.entry, call.file
    ensures d.Valid() && Moves(old(MemoryOf(d)), call, ret, MemoryOf(d))
    ensures ret < 0 ==> ret == -ENOMEM || !Asks(call, ret)
    ensures d.Lost() ==> old(d.Lost()) || (Asks(call, ret) && ret == -ENOMEM)
    ensures !old(d.Lost()) ==> d.dev == var c := Chunk(call, ret); if c == [] then old(d.dev) else Accept(old(d.dev), c[0])
    ensures WriteReturns(call, old(d.dev), old(call.file.fPos), ret, d.dev, call.file.fPos)
  {
    ret := d.Write(call.file, call.buf, call.interrupted, call.uncopied);
    assert ret >= 0 && !old(d.Lost()) ==>
        d.dev == Accept(DeviceSpec.Dev(old(d.dev).history, old(d.dev).pending), call.buf[..ret]);
  }

  /** A call other than write. */
  method PerformOther(d: Device, call: Call) returns (ret: int, out: seq<byte>)
    requires d.Valid() && !call.Write?
    modifies call.file
    ensures CallReturns(d.Capacity(), call, d.dev, old(call.file.fPos), ret, out, d.dev, call.file.fPos)
  {
    out := [];
    match call {
      case Read(f, count, interrupted, uncopied) =>
        ret, out := d.Read(f, count, interrupted, uncopied);
      case Llseek(f, offset, origin, interrupted, initial) =>
        ret := d.Llseek(f, offset, origin, interrupted, initial);
      case Ioctl(f, cmd, arg, interrupted) =>
        ret := d.Ioctl(f, cmd, arg, interrupted);
    }
  }

  method Perform(d: Device, call: Call) returns (ret: int, out: seq<byte>)
    requires d.Valid()
    modifies d, d.ring, d.ring.entry, call.file
    ensures d.Valid() && Moves(old(MemoryOf(d)), call, ret, MemoryOf(d))
    ensures ret < 0 ==> ret == -ENOMEM || !Asks(call, ret)
    ensures d.Lost() ==> old(d.Lost()) || (Asks(call, ret) && ret == -ENOMEM)
    ensures !old(d.Lost()) ==> d.dev == var c := Chunk(call, ret); if c == [] then old(d.dev) else Accept(old(d.dev), c[0])
    ensures CallReturns(d.Capacity(), call, old(d.dev), old(call.file.fPos), ret, out, d.dev, call.file.fPos)
  {
    if call.Write? {
      ret := PerformWrite(d, call);
      out := [];
    } else {
      ret, out := PerformOther(d, call);
    }
  }

  /** The contents are as the calls and their results say; `lost` records whether the device
      has ever been without the block of its pending bytes. */
  ghost predicate ContentsAs(m: Memory, calls: seq<Call>, rets: seq<int>, lost: bool)
    requires |calls| == |rets|
  {
    && (lost <==> Loses(calls, rets))
    && (!lost ==> !LostIn(m) && m.dev == DevAfter(calls, rets))
  }

  lemma ContentsStep(m: Memory, call: Call, ret: int, m': Memory, calls: seq<Call>, rets: seq<int>, lost: bool)
    requires |calls| == |rets| && ContentsAs(m, calls, rets, lost) && Moves(m, call, ret, m')
    requires |m.dev.pending| == m.pending.size
    requires !LostIn(m) ==> m'.dev == var c := Chunk(call, ret); if c == [] then m.dev else Accept(m.dev, c[0])
    requires LostIn(m') ==> LostIn(m) || (Asks(call, ret) && ret == -ENOMEM)
    ensures ContentsAs(m', calls + [call], rets + [ret], lost || LostIn(m'))
  {
    AcceptedAppend(calls, rets, call, ret);
    LosesAppend(calls, rets, call, ret);
  }

  /** The device after the calls. */
  ghost predicate After(d: Device, calls: seq<Call>, rets: seq<int>, lost: bool)
    reads d, d.ring, d.ring.entry
  {
    && d.Valid() && |calls| == |rets|
    && MemoryAs(MemoryOf(d), calls, rets) && ContentsAs(MemoryOf(d), calls, rets, lost)
  }

  /** One call, seen from all the files there are. */
  method PerformAmong(d: Device, call: Call, ghost files: set<File>, ghost m: Moment)
      returns (ret: int, out: seq<byte>, ghost m': Moment)
    requires d.Valid() && call.file in files && IsNow(d, m, files)
    modifies d, d.ring, d.ring.entry, call.file
    ensures d.Valid() && Moves(old(MemoryOf(d)), call, ret, MemoryOf(d))
    ensures ret < 0 ==> ret == -ENOMEM || !Asks(call, ret)
    ensures d.Lost() ==> old(d.Lost()) || (Asks(call, ret) && ret == -ENOMEM)
    ensures !old(d.Lost()) ==> d.dev == var c := Chunk(call, ret); if c == [] then old(d.dev) else Accept(old(d.dev), c[0])
    ensures IsNow(d, m', files) && Returns(d.Capacity(), call, m, ret, out, m')
  {
    ret, out := Perform(d, call);
    var p: nat := call.file.fPos;
    m' := Moment(d.dev, m.pos[call.file := p]);
  }

  method Turn(d: Device, call: Call, ghost calls: seq<Call>, rets: seq<int>, ghost lost: bool,
              ghost files: set<File>, ghost m: Moment)
      returns (ret: int, out: seq<byte>, ghost lost': bool, ghost m': Moment)
    requires After(d, calls, rets, lost) && call.file in files && IsNow(d, m, files)
    modifies d, d.ring, d.ring.entry, call.file
    ensures After(d, calls + [call], rets + [ret], lost')
    ensures IsNow(d, m', files) && Returns(d.Capacity(), call, m, ret, out, m')
  {
    ghost var before := MemoryOf(d);
    ret, out, m' := PerformAmong(d, call, files, m);
    MemoryStep(before, call, ret, MemoryOf(d), calls, rets);
    ContentsStep(before, call, ret, MemoryOf(d), calls, rets, lost);
    lost' := lost || d.Lost();
  }

  /** A new device, after no calls. */
  lemma NothingYet()
    ensures MemoryAs(Memory(FRESH, EMPTY_ENTRY, {}), [], []) && ContentsAs(Memory(FRESH, EMPTY_ENTRY, {}), [], [], false)
  {
  }

  /** The state of a run after its first calls. */
  ghost predicate Running(d: Device, calls: seq<Call>, rets: seq<int>, outs: seq<seq<byte>>, lost: bool,
                          files: set<File>, trace: seq<Moment>)
    reads d, d.ring, d.ring.entry, files
  {
    && After(d, calls, rets, lost) && d.Capacity() > 0 && Traced(d.Capacity(), calls, rets, outs, trace)
    && IsNow(d, trace[|calls|], files)
  }

  method NextCall(d: Device, calls: seq<Call>, i: nat, rets: seq<int>, outs: seq<seq<byte>>, ghost lost: bool,
                  ghost files: set<File>, ghost trace: seq<Moment>)
      returns (rets': seq<int>, outs': seq<seq<byte>>, ghost lost': bool, ghost trace': seq<Moment>)
    requires i < |calls| && calls[i].file in files && Running(d, calls[..i], rets, outs, lost, files, trace)
    modifies d, d.ring, d.ring.entry, calls[i].file
    ensures Running(d, calls[..i + 1], rets', outs', lost', files, trace') && trace <= trace'
  {
    Snoc(calls, i);
    var ret, out;
    ghost var m;
    ret, out, lost', m := Turn(d, calls[i], calls[..i], rets, lost, files, trace[i]);
    TracedMore(d.Capacity(), calls[..i], rets, outs, trace, calls[i], ret, out, m);
    rets', outs', trace' := rets + [ret], outs + [out], trace + [m];
  }

  method RunCalls(n: nat, calls: seq<Call>, ghost files: set<File>)
      returns (d: Device, rets: seq<int>, outs: seq<seq<byte>>, ghost lost: bool, ghost trace: seq<Moment>)
    requires 1 <= n <= 255 && forall i :: 0 <= i < |calls| ==> calls[i].file in files
    modifies files
    ensures fresh(d) && d.Capacity() == n && Running(d, calls, rets, outs, lost, files, trace)
    ensures trace[0] == Moment(FRESH, map f | f in files :: old(f.fPos))
  {
    d := new Device(n);
    rets, outs, lost := [], [], false;
    trace := [Moment(FRESH, map f | f in files :: f.fPos)];
    NothingYet();
    for i := 0 to |calls|
      invariant fresh(d) && fresh(d.ring) && fresh(d.ring.entry) && d.Capacity() == n
      invariant Running(d, calls[..i], rets, outs, lost, files, trace)
      invariant trace[0] == Moment(FRESH, map f | f in files :: old(f.fPos))
    {
      rets, outs, lost, trace := NextCall(d, calls, i, rets, outs, lost, files, trace);
    }
    assert calls[..|calls|] == calls;
  }

  /** Every run of calls on a new device, through any files, with any interruptions and
      short copies. The driver loses pending bytes exactly when a write fails for want of
      memory while bytes are pending, which the calls and their results decide; unless that
      happens, the accepted bytes are the evicted commands, the ring and the pending bytes,
      in order, and the pending entry has its block. And each call returned what it should:
      `trace` are the device and the positions of the files before, between and after them. */
  method Run(n: nat, calls: seq<Call>, ghost files: set<File>)
      returns (d: Device, rets: seq<int>, outs: seq<seq<byte>>, ghost lost: bool, ghost trace: seq<Moment>)
    requires 1 <= n <= 255 && forall i :: 0 <= i < |calls| ==> calls[i].file in files
    modifies files
    ensures fresh(d) && d.Capacity() == n && After(d, calls, rets, lost)
    ensures Traced(n, calls, rets, outs, trace) && IsNow(d, trace[|calls|], files)
    ensures trace[0] == Moment(FRESH, map f | f in files :: old(f.fPos))
    ensures lost <==> Loses(calls, rets)
    ensures !Loses(calls, rets) ==>
              && !d.Lost()
              && Flatten(Accepted(calls, rets)) == Flatten(EvictedOf(n, d.dev)) + Flatten(d.RingNow()) + d.dev.pending
    ensures HoldsAll(d.heap, d.ring.Entries(), LastN(n, d.dev.history))
  {
    d, rets, outs, lost, trace := RunCalls(n, calls, files);
    Conservation(Accepted(calls, rets), n);
    d.RingHolds();
  }

  /** A whole life of the module: any run of calls, then the unloading. No block is left
      behind exactly when the run is tidy, which the calls and their results decide. */
  method RunAndUnload(n: nat, calls: seq<Call>, ghost files: set<File>)
      returns (d: Device, rets: seq<int>, outs: seq<seq<byte>>, ghost trace: seq<Moment>)
    requires 1 <= n <= 255 && forall i :: 0 <= i < |calls| ==> calls[i].file in files
    modifies files
    ensures Traced(n, calls, rets, outs, trace) && (d.heap == map[] <==> Tidy(n, calls, rets))
  {
    ghost var lost;
    d, rets, outs, lost, trace := Run(n, calls, files);
    d.Cleanup();
  }

  // ------------------------------------------------------------ sample runs

  lemma OneCall(call: Call, ret: int)
    requires call.Write? && call.buf != [] && 0 <= ret <= |call.buf|
    ensures DevAfter([call], [ret]) == Accept(FRESH, call.buf[..ret])
    ensures Held([call], [ret]) <==> NEWLINE !in call.buf[..ret]
    ensures !Forgets([call], [ret])
  {
    Single(call);
    Single(ret);
    AcceptedAppend([], [], call, ret);
    HeldAppend([], [], call, ret);
    ForgetsAppend([], [], call, ret);
  }

  /** One write, copied in full, is tidy exactly when it brings a newline. */
  lemma OneWrite(n: nat, call: Call)
    requires n > 0 && call.Write? && call.buf != []
    ensures Tidy(n, [call], [|call.buf|]) <==> NEWLINE in call.buf
  {
    OneCall(call, |call.buf|);
    assert call.buf[..|call.buf|] == call.buf;
  }

  /** A write that copies nothing, and then one that copies. */
  lemma CopiedNothing(n: nat, none: Call, next: Call, ret: int)
    requires none.Write? && none.buf != [] && next.Write? && next.buf != [] && ret >= 0
    ensures !Tidy(n, [none, next], [0, ret])
  {
    Pair(none, next);
    Pair(0, ret);
    OneCall(none, 0);
    ForgetsAppend([none], [0], next, ret);
  }

  function Repeat<T>(x: T, k: nat): (r: seq<T>)
    ensures |r| == k
  {
    if k == 0 then [] else Repeat(x, k - 1) + [x]
  }

  lemma CommandOnTop(d: Dev, buf: seq<byte>)
    requires NEWLINE in buf && d.pending == []
    ensures var d' := Accept(d, buf); |d'.history| == |d.history| + 1 && d'.pending == []
  {
    assert [] + buf == buf;
  }

  /** Writes that each complete a command make as many commands as they are. */
  lemma {:induction false} ManyLines(call: Call, ret: int, k: nat)
    requires call.Write? && 0 <= ret <= |call.buf| && NEWLINE in call.buf[..ret]
    ensures var d := DevAfter(Repeat(call, k), Repeat(ret, k)); |d.history| == k && d.pending == []
  {
    if k > 0 {
      ManyLines(call, ret, k - 1);
      OneMore(Repeat(call, k - 1), Repeat(ret, k - 1), call, ret);
    }
  }

  lemma OneMore(calls: seq<Call>, rets: seq<int>, call: Call, ret: int)
    requires |calls| == |rets| && DevAfter(calls, rets).pending == []
    requires call.Write? && 0 <= ret <= |call.buf| && NEWLINE in call.buf[..ret]
    ensures var d := DevAfter(calls + [call], rets + [ret]);
            |d.history| == |DevAfter(calls, rets).history| + 1 && d.pending == []
  {
    AcceptedAppend(calls, rets, call, ret);
    CommandOnTop(DevAfter(calls, rets), call.buf[..ret]);
  }

  /** More commands than the ring holds. */
  lemma TooMany(n: nat, calls: seq<Call>, rets: seq<int>)
    requires |calls| == |rets| && |DevAfter(calls, rets).history| > n
    ensures !Tidy(n, calls, rets)
  {
  }

  /** One command more than the ring holds is evicted, and its block never freed. */
  lemma TooManyLines(n: nat, line: Call)
    requires line.Write? && NEWLINE in line.buf
    ensures !Tidy(n, Repeat(line, n + 1), Repeat(|line.buf|, n + 1))
  {
    assert line.buf[..|line.buf|] == line.buf;
    ManyLines(line, |line.buf|, n + 1);
    TooMany(n, Repeat(line, n + 1), Repeat(|line.buf|, n + 1));
  }

  /** A write that finds no memory loses the bytes pending before it. */
  lemma LosingRun(text: Call, next: Call)
    requires text.Write? && text.buf != [] && NEWLINE !in text.buf && next.Write? && next.buf != []
    ensures Loses([text, next], [|text.buf|, -ENOMEM])
  {
    Pair(text, next);
    Pair(|text.buf|, -ENOMEM);
    OneCall(text, |text.buf|);
    assert text.buf[..|text.buf|] == text.buf;
    LosesAppend([text], [|text.buf|], next, -ENOMEM);
  }

  /** On a new device it loses nothing. */
  lemma HarmlessFailure(call: Call)
    ensures !Loses([call], [-ENOMEM])
  {
    Single(call);
    Single(-ENOMEM);
    LosesAppend([], [], call, -ENOMEM);
  }
}
