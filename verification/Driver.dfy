/** The aesdchar driver: file operations over the ring and the pending entry. */
module Driver {
  import opened Bytes
  import opened CircularBuffer
  import opened DeviceSpec
  import opened Modulo

  const ENOMEM := 12
  const EFAULT := 14
  const EINVAL := 22
  const ENOTTY := 25
  const ERESTARTSYS := 512

  const SEEK_SET := 0
  const SEEK_CUR := 1
  const SEEK_END := 2

  const AESD_IOC_MAGIC := 0x16
  const AESDCHAR_IOC_MAXNR := 1

  /** _IOWR(AESD_IOC_MAGIC, 1, struct aesd_seekto), the structure being 8 bytes long. */
  const AESDCHAR_IOCSEEKTO := 0xC008_1601

  lemma RequestNumber()
    ensures AESDCHAR_IOCSEEKTO / 256 % 256 == AESD_IOC_MAGIC && AESDCHAR_IOCSEEKTO % 256 == AESDCHAR_IOC_MAXNR
  {
  }

  /** An open file; `fPos` is both `filp->f_pos` and the `*f_pos` of read and write. */
  class File {
    var fPos: nat

    constructor ()
      ensures fPos == 0
    {
      fPos := 0;
    }
  }

  /** Entry `e` holds the bytes `s` in its block. */
  ghost predicate Holds(heap: map<nat, seq<byte>>, e: Entry, s: seq<byte>) {
    && e.buffptr in heap
    && e.size == |s| <= |heap[e.buffptr]|
    && heap[e.buffptr][..e.size] == s
  }

  ghost predicate HoldsAll(heap: map<nat, seq<byte>>, es: seq<Entry>, ss: seq<seq<byte>>) {
    |es| == |ss| && forall i :: 0 <= i < |es| ==> Holds(heap, es[i], ss[i])
  }

  ghost predicate NoSharing(es: seq<Entry>) {
    forall i, j :: 0 <= i < j < |es| ==> es[i].buffptr != es[j].buffptr
  }

  function Blocks(es: seq<Entry>): (r: set<nat>) {
    set e | e in es :: e.buffptr
  }

  /** Committed entries, the pending entry's block `p` and dropped blocks never share a
      block, and account for every live block. */
  ghost predicate Accounts(live: set<nat>, log: seq<Entry>, p: nat, dropped: set<nat>) {
    && 0 !in live
    && NoSharing(log)
    && p !in Blocks(log)
    && Blocks(log) !! dropped
    && p !in dropped
    && live == Blocks(log) + dropped + (if p == 0 then {} else {p})
  }

  /** Replacing a block that holds no committed entry by another such block. */
  lemma HoldsAllKept(heap: map<nat, seq<byte>>, es: seq<Entry>, ss: seq<seq<byte>>, q: nat, p: nat, contents: seq<byte>)
    requires HoldsAll(heap, es, ss) && q !in Blocks(es) && p !in Blocks(es)
    ensures HoldsAll((heap - {q})[p := contents], es, ss)
  {
  }

  /** Committing moves the pending block into the log. */
  lemma AccountsCommit(live: set<nat>, log: seq<Entry>, e: Entry, dropped: set<nat>)
    requires Accounts(live, log, e.buffptr, dropped) && e.buffptr != 0
    ensures Accounts(live, log + [e], 0, dropped)
  {
  }

  lemma HoldsAllAppend(heap: map<nat, seq<byte>>, es: seq<Entry>, ss: seq<seq<byte>>, e: Entry, s: seq<byte>)
    requires HoldsAll(heap, es, ss) && Holds(heap, e, s)
    ensures HoldsAll(heap, es + [e], ss + [s])
  {
  }

  ghost predicate SameSizes(es: seq<Entry>, ss: seq<seq<byte>>) {
    |es| == |ss| && forall i :: 0 <= i < |es| ==> es[i].size == |ss[i]|
  }

  lemma {:induction false} SizesAgree(es: seq<Entry>, ss: seq<seq<byte>>)
    requires SameSizes(es, ss)
    ensures TotalSize(es) == |Flatten(ss)|
  {
    if es != [] {
      SizesAgree(es[1..], ss[1..]);
    }
  }

  lemma InBlocks(es: seq<Entry>, p: nat)
    ensures p in Blocks(es) <==> exists i :: 0 <= i < |es| && es[i].buffptr == p
  {
  }

  /** The slots hold the entries, each in one slot, and are otherwise empty. */
  lemma SlotsDistinct(slots: seq<Entry>, inOffs: nat, full: bool)
    requires inOffs < |slots| && NoSharing(InOrder(slots, inOffs, full))
    requires !full ==> forall i :: inOffs <= i < |slots| ==> slots[i] == EMPTY_ENTRY
    ensures forall i :: 0 <= i < |slots| ==> slots[i] == EMPTY_ENTRY || slots[i] in InOrder(slots, inOffs, full)
    ensures forall i, j :: 0 <= i < j < |slots| ==>
              slots[j] == EMPTY_ENTRY || slots[i].buffptr != slots[j].buffptr || slots[i].buffptr == 0
    ensures forall e :: e in InOrder(slots, inOffs, full) ==> e in slots
  {
    var es := InOrder(slots, inOffs, full);
    if full {
      assert forall j :: 0 <= j < |slots| ==> slots[j] == es[if j < inOffs then |slots| - inOffs + j else j - inOffs];
    } else {
      assert forall j :: 0 <= j < inOffs ==> slots[j] == es[j];
    }
  }

  /** Nothing of the log is left once the newest `n` entries' blocks are gone, exactly
      when there are no more than `n` entries. */
  lemma BlocksBeyond(log: seq<Entry>, n: nat)
    requires NoSharing(log)
    ensures Blocks(log) <= Blocks(LastN(n, log)) <==> |log| <= n
    ensures Blocks(LastN(n, log)) <= Blocks(log)
  {
    forall p
      ensures (p in Blocks(log) <==> exists i :: 0 <= i < |log| && log[i].buffptr == p)
      ensures (p in Blocks(LastN(n, log)) <==> exists i :: 0 <= i < |LastN(n, log)| && LastN(n, log)[i].buffptr == p)
    {
      InBlocks(log, p);
      InBlocks(LastN(n, log), p);
    }
    if |log| > n {
      assert log[0].buffptr in Blocks(log);
      assert forall i :: 0 <= i < n ==> LastN(n, log)[i] == log[|log| - n + i];
    }
  }

  /** The block of an entry that has fallen off is in no slot, and no other entry that has
      fallen off or is still held has it. */
  lemma EvictedNotHeld(log: seq<Entry>, n: nat, k: nat)
    requires NoSharing(log) && k + n < |log|
    ensures log[k].buffptr !in Blocks(LastN(n, log))
    ensures forall j :: 0 <= j < |log| && log[j].buffptr == log[k].buffptr ==> j == k
  {
  }

  /** What the cleanup leaves behind is nothing exactly when nothing was evicted, dropped
      or pending. */
  lemma CleanupLeaves(live: set<nat>, log: seq<Entry>, p: nat, dropped: set<nat>, n: nat)
    requires Accounts(live, log, p, dropped)
    ensures live - Blocks(LastN(n, log)) == {} <==> |log| <= n && dropped == {} && p == 0
  {
    BlocksBeyond(log, n);
    var kept := Blocks(LastN(n, log));
    assert forall x :: x in live - kept <==> x in live && x !in kept;
    assert forall x :: x in dropped ==> x in live - kept;
    assert p != 0 ==> p in live - kept;
    if live - kept == {} {
      assert Blocks(log) <= kept;
      assert dropped == {};
    }
  }

  lemma HoldsSlice(heap: map<nat, seq<byte>>, e: Entry, s: seq<byte>, b: nat, m: nat)
    requires Holds(heap, e, s) && b + m <= e.size
    ensures s[b..b + m] == heap[e.buffptr][b..b + m]
  {
  }

  /** The bytes a read finds from byte `b` of entry `k` on. */
  lemma ReadFromEntry(heap: map<nat, seq<byte>>, es: seq<Entry>, ss: seq<seq<byte>>, pos: nat, k: nat, b: nat, count: nat)
    requires HoldsAll(heap, es, ss) && At(es, pos, k, b)
    ensures var e := es[k];
            && e.buffptr in heap && b + Min(count, e.size - b) <= e.size <= |heap[e.buffptr]|
            && ReadAt(ss, pos, count) == heap[e.buffptr][b..b + Min(count, e.size - b)]
  {
    SizesAgree(es[..k], ss[..k]);
    ReadInEntry(ss, k, b, count);
    HoldsSlice(heap, es[k], ss[k], b, Min(count, es[k].size - b));
  }

  lemma SlotsTurned(slots: seq<Entry>, o: nat, ring: seq<seq<byte>>)
    requires o < |slots| && SameSizes(slots[o..] + slots[..o], ring)
    ensures SameSizes(slots, Turn(ring, o))
  {
  }

  class Device {
    const ring: Ring
    var entry: Entry
    var heap: map<nat, seq<byte>>

    /** What has been committed and is pending. */
    ghost var dev: Dev
    /** Blocks whose last pointer was overwritten before they were committed. */
    ghost var dropped: set<nat>

    ghost function Capacity(): nat {
      ring.entry.Length
    }

    /** A failed krealloc has cleared the pointer and kept the size. */
    ghost predicate Lost()
      reads this
    {
      entry.size > 0 && entry.buffptr == 0
    }

    ghost predicate Valid()
      reads this, ring, ring.entry
    {
      && ring.Valid()
      && Accounts(heap.Keys, ring.log, entry.buffptr, dropped)
      && HoldsAll(heap, ring.log, dev.history)
      && (entry.buffptr != 0 ==> Holds(heap, entry, dev.pending))
      && |dev.pending| == entry.size
      && NEWLINE !in dev.pending
    }

    constructor (n: nat)
      requires 1 <= n <= 255
      ensures Valid() && !Lost() && fresh(ring) && fresh(ring.entry) && Capacity() == n
      ensures dev == FRESH && dropped == {} && entry == EMPTY_ENTRY
    {
      ring := new Ring(n);
      entry, heap := EMPTY_ENTRY, map[];
      dev, dropped := FRESH, {};
    }

    /** Some unused block of the given size and contents, or NULL. */
    method Kmalloc(size: nat) returns (p: nat)
      requires 0 !in heap
      modifies this`heap
      ensures p == 0 ==> heap == old(heap)
      ensures p != 0 ==> p !in old(heap) && p in heap && |heap[p]| == size && heap == old(heap)[p := heap[p]]
    {
      p := *;
      if p in heap {
        p := 0;
      }
      if p != 0 {
        var contents: seq<byte> := *;
        if |contents| != size {
          contents := seq(size, _ => 0);
        }
        heap := heap[p := contents];
      }
    }

    /** Grows a block, possibly moving it; NULL leaves the old block in place. */
    method Krealloc(q: nat, size: nat) returns (p: nat)
      requires 0 !in heap && (q != 0 ==> q in heap)
      modifies this`heap
      ensures p == 0 ==> heap == old(heap)
      ensures p != 0 ==> (p == q || p !in old(heap)) && p in heap && |heap[p]| == size
      ensures p != 0 ==> heap == (old(heap) - {q})[p := heap[p]]
      ensures p != 0 && q != 0 ==> var m := Min(size, |old(heap)[q]|); heap[p][..m] == old(heap)[q][..m]
    {
      p := Kmalloc(size);
      if p != 0 && q != 0 {
        var m := Min(size, |heap[q]|);
        heap := heap[p := heap[q][..m] + heap[p][m..]];
        var moved: bool := *;
        if moved {
          heap := heap - {q};
        } else {
          heap := (heap - {p})[q := heap[p]];
          p := q;
        }
      }
    }

    method Kfree(p: nat)
      requires p == 0 || p in heap
      requires 0 !in heap
      modifies this`heap
      ensures heap == old(heap) - {p}
    {
      heap := heap - {p};
    }

    /** What a successful allocation for a write leaves: a block for the pending entry
        with room for the new bytes, holding the bytes pending before (or, after a
        failed krealloc, arbitrary ones). */
    ghost predicate RoomFor(count: nat, pending: seq<byte>)
      reads this, ring, ring.entry
    {
      && ring.Valid()
      && Accounts(heap.Keys, ring.log, entry.buffptr, dropped)
      && HoldsAll(heap, ring.log, dev.history)
      && entry.buffptr != 0
      && Holds(heap, entry, pending)
      && entry.size + count <= |heap[entry.buffptr]|
    }

    /** The allocation of a write that starts a command. A block left by a write that
        copied nothing is no longer reachable. */
    method ReserveFirst(count: nat) returns (ok: bool)
      requires Valid() && entry.size == 0
      modifies this`entry, this`heap, this`dropped
      ensures ok ==> RoomFor(count, dev.pending)
      ensures !ok ==> Valid() && entry.buffptr == 0
      ensures entry.size == 0
      ensures dropped == old(dropped) + (if old(entry.buffptr) == 0 then {} else {old(entry.buffptr)})
    {
      dropped := dropped + if entry.buffptr == 0 then {} else {entry.buffptr};
      var p := Kmalloc(count);
      entry := entry.(buffptr := p);
      ok := p != 0;
      if ok {
        HoldsAllKept(old(heap), ring.log, dev.history, p, p, heap[p]);
      }
    }

    /** The allocation of a write that continues a command. When it fails the block of
        the pending entry is no longer reachable. */
    method ReserveMore(count: nat) returns (ok: bool, ghost pending: seq<byte>)
      requires Valid() && entry.size > 0
      modifies this`entry, this`heap, this`dropped
      ensures ok ==> RoomFor(count, pending) && (!old(Lost()) ==> pending == dev.pending)
      ensures !ok ==> Valid() && entry.buffptr == 0
      ensures entry.size == old(entry.size)
      ensures dropped == old(dropped) + (if ok || old(entry.buffptr) == 0 then {} else {old(entry.buffptr)})
    {
      ghost var q := entry.buffptr;
      var p := Krealloc(entry.buffptr, entry.size + count);
      dropped := dropped + if p != 0 || q == 0 then {} else {q};
      entry := entry.(buffptr := p);
      ok := p != 0;
      pending := if ok then heap[p][..entry.size] else [];
      if ok {
        HoldsAllKept(old(heap), ring.log, dev.history, q, p, heap[p]);
      }
    }

    /** The allocation of a write. */
    method Reserve(count: nat) returns (ok: bool, ghost pending: seq<byte>)
      requires Valid()
      modifies this`entry, this`heap, this`dropped
      ensures ok ==> RoomFor(count, pending) && (!old(Lost()) ==> pending == dev.pending)
      ensures !ok ==> Valid() && entry.buffptr == 0
      ensures entry.size == old(entry.size)
      ensures dropped == old(dropped) +
                (if old(entry.buffptr) != 0 && (old(entry.size) == 0 || !ok) then {old(entry.buffptr)} else {})
    {
      if entry.size == 0 {
        ok := ReserveFirst(count);
        pending := dev.pending;
      } else {
        ok, pending := ReserveMore(count);
      }
    }

    /** copy_from_user behind the pending bytes. */
    method CopyIn(chunk: seq<byte>, ghost pending: seq<byte>)
      requires RoomFor(|chunk|, pending)
      modifies this`entry, this`heap
      ensures RoomFor(0, pending + chunk)
      ensures entry.size == old(entry.size) + |chunk|
    {
      var p, size := entry.buffptr, entry.size;
      var block := heap[p];
      heap := heap[p := block[..size] + chunk + block[size + |chunk|..]];
      entry := entry.(size := size + |chunk|);
      assert heap[p][..entry.size] == pending + chunk;
      HoldsAllKept(old(heap), ring.log, dev.history, p, p, heap[p]);
    }

    /** The newline branch of a write: the pending entry moves into the ring. The block
        that fell off is never NULL when there is one, and is freed only when NULL. */
    method Commit(ghost pending: seq<byte>)
      requires RoomFor(0, pending)
      modifies this`entry, this`heap, this`dev, ring, ring.entry
      ensures Valid() && entry == EMPTY_ENTRY
      ensures dev == Dev(old(dev.history) + [pending], [])
      ensures heap == old(heap) && ring.log == old(ring.log) + [old(entry)]
    {
      AccountsCommit(heap.Keys, ring.log, entry, dropped);
      HoldsAllAppend(heap, ring.log, dev.history, entry, pending);
      var removed := ring.AddEntry(entry);
      if removed == 0 {
        Kfree(removed);
      }
      assert heap == old(heap);
      dev := Dev(dev.history + [pending], []);
      entry := EMPTY_ENTRY;
    }

    /** A write once there is room: copy, then commit if there is a newline. */
    method Append(f: File, chunk: seq<byte>, ghost pending: seq<byte>)
      requires RoomFor(|chunk|, pending)
      modifies this`entry, this`heap, this`dev, ring, ring.entry, f
      ensures Valid() && !Lost()
      ensures dev == Accept(Dev(old(dev.history), pending), chunk)
      ensures entry.buffptr == 0 <==> |dev.history| > |old(dev.history)|
      ensures f.fPos == old(f.fPos) +
                (if |dev.history| > |old(dev.history)| then |dev.history[|dev.history| - 1]| else 0)
    {
      CopyIn(chunk, pending);
      if NEWLINE in heap[entry.buffptr][..entry.size] {
        var size := entry.size;
        Commit(pending + chunk);
        f.fPos := f.fPos + size;
      } else {
        dev := Dev(dev.history, pending + chunk);
      }
    }

    /** aesd_write of `buf`. The environment chooses whether the wait for the lock is
        interrupted, whether memory is found, and how many bytes stay uncopied. */
    method Write(f: File, buf: seq<byte>, interrupted: bool, uncopied: nat) returns (ret: int)
      requires Valid()
      modifies this`entry, this`heap, this`dev, this`dropped, ring, ring.entry, f
      ensures Valid()
      ensures buf == [] ==> ret == 0
      ensures buf != [] ==> (interrupted <==> ret == -ERESTARTSYS)
      ensures buf != [] && !interrupted ==> ret == -ENOMEM || ret == |buf| - Min(uncopied, |buf|)
      ensures ret >= 0 && !old(Lost()) ==> !Lost() && dev == Accept(old(dev), buf[..ret])
      ensures ret >= 0 && buf != [] && old(Lost()) ==>
                exists g :: |g| == old(entry.size) && dev == Accept(Dev(old(dev.history), g), buf[..ret])
      ensures ret < 0 || buf == [] ==> dev == old(dev) && ring.log == old(ring.log)
      ensures Lost() ==> old(Lost()) || ret == -ENOMEM
      ensures buf == [] || ret == -ERESTARTSYS ==> entry == old(entry)
      ensures ret == -ENOMEM ==> entry == old(entry).(buffptr := 0)
      ensures buf != [] && ret >= 0 ==> (entry.buffptr == 0 <==> |dev.history| > |old(dev.history)|)
      ensures f.fPos == old(f.fPos) +
                (if |dev.history| > |old(dev.history)| then |dev.history[|dev.history| - 1]| else 0)
      ensures dropped == old(dropped) +
                (if old(entry.buffptr) != 0 && ret != -ERESTARTSYS && buf != [] && (old(entry.size) == 0 || ret == -ENOMEM)
                 then {old(entry.buffptr)} else {})
    {
      if |buf| == 0 {
        return 0;
      }
      if interrupted {
        return -ERESTARTSYS;
      }
      var ok;
      ghost var pending;
      ok, pending := Reserve(|buf|);
      if !ok {
        return -ENOMEM;
      }
      ret := |buf| - Min(uncopied, |buf|);
      Append(f, buf[..ret], pending);
    }

    ghost function RingNow(): (r: seq<seq<byte>>)
      reads this, ring
    {
      RingOf(Capacity(), dev)
    }

    ghost function StreamNow(): (r: seq<byte>)
      reads this, ring
    {
      StreamOf(Capacity(), dev)
    }

    lemma RingHolds()
      requires Valid()
      ensures HoldsAll(heap, ring.Entries(), RingNow())
      ensures TotalSize(ring.Entries()) == |StreamNow()|
    {
      SizesAgree(ring.Entries(), RingNow());
    }

    lemma SlotSizes()
      requires Valid()
      ensures SameSizes(ring.entry[..], SlotsOf(Capacity(), dev))
    {
      RingHolds();
      if ring.full {
        SlotsTurned(ring.entry[..], ring.inOffs, RingNow());
      } else {
        StepsSmall(|ring.log|, Capacity());
        assert forall j :: 0 <= j < ring.inOffs ==> ring.entry[j] == ring.Entries()[j];
      }
    }

    /** When the read offset is 0, the position that a seek request leads to is byte `offset`
        of entry `cmd`, counted from the oldest: which is what find returns there. */
    lemma SeekFinds(cmd: nat, offset: nat)
      requires Valid() && ring.outOffs == 0 && SeekTo(SlotsOf(Capacity(), dev), cmd, offset).Some?
      ensures At(ring.Entries(), SeekTo(SlotsOf(Capacity(), dev), cmd, offset).value, cmd, offset)
    {
      RingHolds();
      SeekUnturned(Capacity(), dev, cmd, offset, 0);
      SizesOfSlots(Capacity(), dev);
      SeekSameSizes(SlotsOf(Capacity(), dev), RingNow());
      assert SeekTo(SlotsOf(Capacity(), dev), cmd, offset) == SeekTo(RingNow(), cmd, offset);
      SizesAgree(ring.Entries()[..cmd], RingNow()[..cmd]);
    }

    /** aesd_read of at most `count` bytes. */
    method Read(f: File, count: nat, interrupted: bool, uncopied: nat) returns (ret: int, out: seq<byte>)
      requires Valid()
      modifies f
      ensures interrupted ==> ret == -ERESTARTSYS && out == [] && f.fPos == old(f.fPos)
      ensures !interrupted ==>
                var r := ReadAt(RingNow(), old(f.fPos), count);
                ret == |r| - Min(uncopied, |r|) && out == r[..ret] && f.fPos == old(f.fPos) + ret
    {
      if interrupted {
        return -ERESTARTSYS, [];
      }
      var slot, offset;
      ghost var k;
      slot, offset, k := ring.FindEntryOffsetForFpos(f.fPos);
      RingHolds();
      if slot == -1 {
        ReadIsSlice(RingNow(), f.fPos, count);
        return 0, [];
      }
      var e := ring.entry[slot];
      ReadFromEntry(heap, ring.Entries(), RingNow(), f.fPos, k, offset, count);
      var n := Min(count, e.size - offset);
      var bytes := Min(uncopied, n);
      ret := n - bytes;
      out := heap[e.buffptr][offset..offset + ret];
      f.fPos := f.fPos + ret;
    }

    /** aesd_llseek. `initial` is what the uninitialised length variable happens to hold. */
    method Llseek(f: File, offset: int, origin: int, interrupted: bool, initial: int) returns (ret: int)
      requires Valid()
      modifies f
      ensures var target := if origin == SEEK_SET then offset
                            else if origin == SEEK_CUR then old(f.fPos) + offset
                            else initial + |StreamNow()| + offset;
              if interrupted then ret == -ERESTARTSYS && f.fPos == old(f.fPos)
              else if !(SEEK_SET <= origin <= SEEK_END) || target < 0 then ret == -EINVAL && f.fPos == old(f.fPos)
              else ret == target && f.fPos == target
    {
      if interrupted {
        return -ERESTARTSYS;
      }
      if origin == SEEK_SET {
        ret := offset;
      } else if origin == SEEK_CUR {
        ret := f.fPos + offset;
      } else if origin == SEEK_END {
        var totalLength := ring.WalkTotal(initial);
        RingHolds();
        ret := totalLength + offset;
      } else {
        return -EINVAL;
      }
      if ret < 0 {
        return -EINVAL;
      }
      f.fPos := ret;
    }

    /** aesd_ioctl. `arg` is None when the request cannot be copied in. */
    method Ioctl(f: File, cmd: nat, arg: Option<(nat, nat)>, interrupted: bool) returns (ret: int)
      requires Valid()
      modifies f
      ensures if cmd / 256 % 256 != AESD_IOC_MAGIC || cmd % 256 > AESDCHAR_IOC_MAXNR then
                ret == -ENOTTY && f.fPos == old(f.fPos)
              else if arg.None? then ret == -EFAULT && f.fPos == old(f.fPos)
              else if interrupted then ret == -ERESTARTSYS && f.fPos == old(f.fPos)
              else match SeekTo(SlotsOf(Capacity(), dev), arg.value.0, arg.value.1)
                case None => ret == -EINVAL && f.fPos == old(f.fPos)
                case Some(p) => ret == 0 && f.fPos == p
    {
      if cmd / 256 % 256 != AESD_IOC_MAGIC {
        return -ENOTTY;
      }
      if cmd % 256 > AESDCHAR_IOC_MAXNR {
        return -ENOTTY;
      }
      if arg.None? {
        return -EFAULT;
      }
      if interrupted {
        return -ERESTARTSYS;
      }
      var (writeCmd, writeCmdOffset) := arg.value;
      SlotSizes();
      if writeCmd >= ring.entry.Length || writeCmdOffset >= ring.entry[writeCmd].size {
        return -EINVAL;
      }
      ghost var slots := ring.entry[..];
      var offset := 0;
      for i := 0 to writeCmd
        invariant offset == TotalSize(slots[..i])
      {
        TotalSizeStep(slots, i);
        offset := offset + ring.entry[i].size;
      }
      SizesAgree(slots[..writeCmd], SlotsOf(Capacity(), dev)[..writeCmd]);
      f.fPos := offset + writeCmdOffset;
      return 0;
    }

    /** Blocks still reachable from the ring. */
    ghost function RingBlocks(): set<nat>
      reads ring, ring.entry
    {
      Blocks(ring.Entries())
    }

    /** The free loop of aesd_cleanup_module, slot by slot. Each call to kfree is given
        NULL or a live block, so no block is freed twice. */
    method FreeSlots(ghost slots: seq<Entry>)
      requires slots == ring.entry[..] && 0 !in heap
      requires forall i :: 0 <= i < |slots| ==> slots[i] == EMPTY_ENTRY || slots[i].buffptr in heap
      requires forall i, j :: 0 <= i < j < |slots| ==>
                 slots[j] == EMPTY_ENTRY || slots[i].buffptr != slots[j].buffptr || slots[i].buffptr == 0
      modifies this`heap
      ensures heap.Keys == old(heap.Keys) - Blocks(slots)
    {
      for index := 0 to ring.entry.Length
        invariant 0 !in heap
        invariant heap.Keys == old(heap.Keys) - Blocks(slots[..index])
      {
        InBlocks(slots[..index], slots[index].buffptr);
        assert slots[..index + 1] == slots[..index] + [slots[index]];
        Kfree(ring.entry[index].buffptr);
      }
      assert slots[..|slots|] == slots;
    }

    /** The free loop of aesd_cleanup_module: exactly the blocks in the ring are freed. It
        leaves no block behind exactly when no entry was ever evicted, no block was
        dropped and none is pending. */
    method Cleanup()
      requires Valid()
      modifies this`heap
      ensures heap.Keys == old(heap.Keys) - RingBlocks()
      ensures heap == map[] <==> |dev.history| <= Capacity() && dropped == {} && entry.buffptr == 0
    {
      ghost var slots, live := ring.entry[..], heap.Keys;
      assert forall i :: 0 <= i < |ring.log| ==> ring.log[i] in ring.log;
      assert NoSharing(ring.Entries());
      SlotsDistinct(slots, ring.inOffs, ring.full);
      FreeSlots(slots);
      assert live - Blocks(slots) == live - RingBlocks();
      CleanupLeaves(live, ring.log, entry.buffptr, dropped, Capacity());
      assert heap == map[] <==> heap.Keys == {};
    }
  }
}
