/** The fixed ring of write commands. */
module CircularBuffer {
  import opened Bytes
  import opened Modulo

  /** A `buffptr` is the number of a heap block; 0 is NULL. */
  datatype Entry = Entry(buffptr: nat, size: nat)

  const EMPTY_ENTRY := Entry(0, 0)

  function TotalSize(es: seq<Entry>): nat {
    if es == [] then 0 else es[0].size + TotalSize(es[1..])
  }

  lemma {:induction false} TotalSizeConcat(a: seq<Entry>, b: seq<Entry>)
    ensures TotalSize(a + b) == TotalSize(a) + TotalSize(b)
  {
    if a == [] {
      assert a + b == b;
    } else {
      assert (a + b)[1..] == a[1..] + b;
      TotalSizeConcat(a[1..], b);
    }
  }

  lemma TotalSizeStep(es: seq<Entry>, k: nat)
    requires k < |es|
    ensures TotalSize(es[..k + 1]) == TotalSize(es[..k]) + es[k].size
  {
    assert es[..k + 1] == es[..k] + [es[k]];
    TotalSizeConcat(es[..k], [es[k]]);
    assert TotalSize([es[k]]) == es[k].size + TotalSize([]);
  }

  lemma TotalSizeSplit(es: seq<Entry>, k: nat)
    requires k <= |es|
    ensures TotalSize(es) == TotalSize(es[..k]) + TotalSize(es[k..])
  {
    assert es == es[..k] + es[k..];
    TotalSizeConcat(es[..k], es[k..]);
  }

  /** Byte `b` of entry `k` is byte `offset` of the entries laid end to end. */
  ghost predicate At(es: seq<Entry>, offset: nat, k: nat, b: nat) {
    k < |es| && b < es[k].size && TotalSize(es[..k]) + b == offset
  }

  /** An offset names at most one byte of one entry, even among empty entries. */
  lemma AtUnique(es: seq<Entry>, offset: nat, k: nat, b: nat, k': nat, b': nat)
    requires At(es, offset, k, b) && At(es, offset, k', b')
    ensures k == k' && b == b'
  {
    if k < k' {
      AtOrdered(es, offset, k, b, k', b');
    } else if k' < k {
      AtOrdered(es, offset, k', b', k, b);
    }
  }

  lemma AtOrdered(es: seq<Entry>, offset: nat, k: nat, b: nat, k': nat, b': nat)
    requires At(es, offset, k, b) && k < k' < |es|
    ensures !At(es, offset, k', b')
  {
    TotalSizeStep(es, k);
    TotalSizeSplit(es[..k'], k + 1);
    assert es[..k'][..k + 1] == es[..k + 1];
  }

  /** An offset names some byte exactly when it is below the total size. */
  lemma AtExists(es: seq<Entry>, offset: nat)
    ensures (exists k, b :: At(es, offset, k, b)) <==> offset < TotalSize(es)
  {
    if offset < TotalSize(es) {
      AtExistsFrom(es, offset, 0);
    } else {
      forall k: nat, b: nat | At(es, offset, k, b)
        ensures false
      {
        TotalSizeStep(es, k);
        TotalSizeSplit(es, k + 1);
      }
    }
  }

  lemma {:induction false} AtExistsFrom(es: seq<Entry>, offset: nat, k: nat)
    requires k <= |es| && TotalSize(es[..k]) <= offset < TotalSize(es)
    ensures exists k, b :: At(es, offset, k, b)
    decreases |es| - k
  {
    assert es[..|es|] == es;
    if k < |es| {
      TotalSizeStep(es, k);
      if offset < TotalSize(es[..k + 1]) {
        assert At(es, offset, k, offset - TotalSize(es[..k]));
      } else {
        AtExistsFrom(es, offset, k + 1);
      }
    }
  }

  /** Slots in read order: from `outOffs` round to just before it when full. */
  function InOrder(slots: seq<Entry>, inOffs: nat, full: bool): (es: seq<Entry>)
    requires inOffs < |slots|
  {
    if full then slots[inOffs..] + slots[..inOffs] else slots[..inOffs]
  }

  /** Storing into a full ring drops the oldest entry and appends the new one. */
  lemma StoreFull(slots: seq<Entry>, inOffs: nat, e: Entry)
    requires inOffs < |slots|
    ensures InOrder(slots[inOffs := e], if inOffs + 1 < |slots| then inOffs + 1 else 0, true)
         == InOrder(slots, inOffs, true)[1..] + [e]
  {
    assert slots[inOffs := e] == slots[..inOffs] + [e] + slots[inOffs + 1..];
  }

  /** Storing into a ring that is not full appends; it may fill the ring. */
  lemma StorePartial(slots: seq<Entry>, inOffs: nat, e: Entry)
    requires inOffs < |slots|
    ensures InOrder(slots[inOffs := e], if inOffs + 1 < |slots| then inOffs + 1 else 0, inOffs + 1 == |slots|)
         == InOrder(slots, inOffs, false) + [e]
  {
    assert slots[inOffs := e] == slots[..inOffs] + [e] + slots[inOffs + 1..];
  }

  /** The oldest entry of a full ring is in the slot about to be written. */
  lemma OldestNext(slots: seq<Entry>, inOffs: nat, log: seq<Entry>)
    requires inOffs < |slots| <= |log| && InOrder(slots, inOffs, true) == LastN(|slots|, log)
    ensures slots[inOffs] == log[|log| - |slots|]
  {
    assert InOrder(slots, inOffs, true)[0] == LastN(|slots|, log)[0];
  }

  /** Adding one entry to a ring that shows the newest of `log`. */
  lemma {:induction false} AddedInOrder(slots: seq<Entry>, inOffs: nat, full: bool, log: seq<Entry>, e: Entry)
    requires inOffs < |slots| && inOffs == Steps(|log|, |slots|) && full == (|log| >= |slots|)
    requires InOrder(slots, inOffs, full) == LastN(|slots|, log)
    ensures var next := if inOffs + 1 < |slots| then inOffs + 1 else 0;
            && next == Steps(|log + [e]|, |slots|)
            && InOrder(slots[inOffs := e], next, |log + [e]| >= |slots|) == LastN(|slots|, log + [e])
    ensures !full ==> inOffs == |log|
  {
    if full {
      StoreFull(slots, inOffs, e);
      LastNAppend(|slots|, log, e);
    } else {
      StepsSmall(|log|, |slots|);
      StorePartial(slots, inOffs, e);
    }
  }

  lemma {:induction false} EmptiesTotal(es: seq<Entry>)
    requires forall i :: 0 <= i < |es| ==> es[i] == EMPTY_ENTRY
    ensures TotalSize(es) == 0
  {
    if es != [] {
      EmptiesTotal(es[1..]);
    }
  }

  class Ring {
    const entry: array<Entry>
    var inOffs: nat
    var outOffs: nat
    var full: bool

    /** Every entry ever added, in order. */
    ghost var log: seq<Entry>

    /** What holds in every state that adding entries to an empty ring can reach. The
        number of slots fits the 8-bit indices; the next slot is the number of entries
        added, wrapped; a slot never used is zero; and the slots in read order hold the
        newest entries. */
    ghost predicate Valid()
      reads this, entry
    {
      && 1 <= entry.Length <= 255
      && full == (|log| >= entry.Length)
      && inOffs == Steps(|log|, entry.Length)
      && outOffs == (if full then inOffs else 0)
      && (!full ==> forall i :: inOffs <= i < entry.Length ==> entry[i] == EMPTY_ENTRY)
      && InOrder(entry[..], inOffs, full) == LastN(entry.Length, log)
    }

    /** The entries, oldest first. */
    ghost function Entries(): (es: seq<Entry>)
      reads this, entry
    {
      LastN(entry.Length, log)
    }

    constructor (n: nat)
      requires 1 <= n <= 255
      ensures Valid() && fresh(entry) && entry.Length == n
      ensures log == []
    {
      entry := new Entry[n](_ => EMPTY_ENTRY);
      inOffs, outOffs, full := 0, 0, false;
      log := [];
    }

    /** The next slot is the number of entries added, modulo the number of slots. */
    lemma NextSlot()
      requires Valid()
      ensures inOffs == |log| % entry.Length
    {
      StepsIsMod(|log|, entry.Length);
    }

    /** aesd_circular_buffer_find_entry_offset_for_fpos: the slot (as an index; -1 is
        NULL) and byte that an offset into the flat stream falls on. */
    method FindEntryOffsetForFpos(charOffset: nat) returns (slot: int, byteOffset: nat, ghost k: nat)
      requires Valid()
      ensures -1 <= slot < entry.Length
      ensures slot == -1 <==> charOffset >= TotalSize(Entries())
      ensures slot >= 0 ==> At(Entries(), charOffset, k, byteOffset) && Entries()[k] == entry[slot]
      ensures slot >= 0 ==> slot == (if outOffs + k < entry.Length then outOffs + k else outOffs + k - entry.Length)
    {
      var totalEntries := if full then entry.Length else inOffs;
      var rest: nat := charOffset;
      var i: nat := 0;
      byteOffset, k := 0, 0;
      while i < totalEntries
        invariant 0 <= i <= totalEntries
        invariant charOffset == TotalSize(Entries()[..i]) + rest
      {
        slot := (outOffs + i) % entry.Length;
        Wrap(outOffs + i, entry.Length);
        assert entry[slot] == Entries()[i];
        TotalSizeStep(Entries(), i);
        TotalSizeSplit(Entries(), i + 1);
        if rest < entry[slot].size {
          byteOffset, k := rest, i;
          return;
        }
        rest := rest - entry[slot].size;
        i := i + 1;
      }
      assert Entries()[..i] == Entries();
      slot := -1;
    }

    /** aesd_circular_buffer_add_entry: keeps the newest entries, in order, and hands back
        the block of the entry that fell off (NULL when none did): over a run, those are
        the blocks of the first entry added, the second, and so on. */
    method AddEntry(e: Entry) returns (removed: nat)
      requires Valid()
      modifies this, entry
      ensures Valid()
      ensures log == old(log) + [e]
      ensures removed == if |old(log)| >= entry.Length then old(log)[|old(log)| - entry.Length].buffptr else 0
    {
      ghost var slots := entry[..];
      Wrap(inOffs + 1, entry.Length);
      AddedInOrder(slots, inOffs, full, log, e);
      if full {
        OldestNext(slots, inOffs, log);
      }
      removed := 0;
      if full {
        removed := entry[outOffs].buffptr;
        outOffs := (outOffs + 1) % entry.Length;
      }
      entry[inOffs] := e;
      inOffs := (inOffs + 1) % entry.Length;
      if inOffs == outOffs {
        full := true;
      }
      log := log + [e];
      assert entry[..] == slots[old(inOffs) := e];
      assert full == (|log| >= entry.Length);
    }

    /** The SEEK_END loop of aesd_llseek: from the read slot round to the write slot, at
        least once. On an empty ring it walks all the empty slots. The sum starts from
        `initial`, what the uninitialised variable happens to hold. */
    method WalkTotal(initial: int) returns (totalLength: int)
      requires Valid()
      ensures totalLength == initial + TotalSize(Entries())
    {
      ghost var n, o := entry.Length, outOffs;
      ghost var walk := entry[o..] + entry[..o];
      ghost var i := 0;
      var position := outOffs;
      totalLength := initial;
      assert !full ==> inOffs == |log| by {
        if !full {
          StepsSmall(|log|, n);
        }
      }
      while true
        invariant 0 <= i < n && position == if o + i < n then o + i else o + i - n
        invariant totalLength == initial + TotalSize(walk[..i])
        invariant !full && inOffs > 0 ==> i < inOffs
        decreases n - i
      {
        assert walk[i] == entry[position];
        TotalSizeStep(walk, i);
        totalLength := totalLength + entry[position].size;
        i := i + 1;
        if position == entry.Length - 1 {
          position := 0;
        } else {
          position := position + 1;
        }
        if position == inOffs {
          break;
        }
      }
      if !full && inOffs == 0 {
        EmptiesTotal(walk);
        assert walk[..i] == walk;
      } else {
        assert walk[..i] == InOrder(entry[..], inOffs, full);
      }
    }
  }
}
