/** What the device is, apart from how it is stored: the commands committed so far
    and the bytes waiting for a newline. The ring only ever shows the newest `n`
    commands, and every position is an offset into those laid end to end. */
module DeviceSpec {
  import opened Bytes
  import opened Modulo

  datatype Dev = Dev(history: seq<seq<byte>>, pending: seq<byte>)

  const FRESH := Dev([], [])

  /** One write of which `chunk` was copied in. */
  function Accept(d: Dev, chunk: seq<byte>): Dev {
    var entry := d.pending + chunk;
    if NEWLINE in entry then Dev(d.history + [entry], []) else Dev(d.history, entry)
  }

  function AcceptAll(chunks: seq<seq<byte>>): Dev {
    if chunks == [] then FRESH
    else Accept(AcceptAll(chunks[..|chunks| - 1]), chunks[|chunks| - 1])
  }

  function RingOf(n: nat, d: Dev): seq<seq<byte>> {
    LastN(n, d.history)
  }

  function EvictedOf(n: nat, d: Dev): seq<seq<byte>> {
    d.history[..|d.history| - |RingOf(n, d)|]
  }

  function StreamOf(n: nat, d: Dev): seq<byte> {
    Flatten(RingOf(n, d))
  }

  // ---------------------------------------------------------------- writes

  /** No byte is lost, duplicated or reordered, whatever the chunking. */
  lemma {:induction false} Conservation(chunks: seq<seq<byte>>, n: nat)
    ensures var d := AcceptAll(chunks);
            Flatten(chunks) == Flatten(EvictedOf(n, d)) + StreamOf(n, d) + d.pending
  {
    AcceptedInOrder(chunks);
    var d := AcceptAll(chunks);
    assert d.history == EvictedOf(n, d) + RingOf(n, d);
    FlattenConcat(EvictedOf(n, d), RingOf(n, d));
  }

  lemma {:induction false} AcceptedInOrder(chunks: seq<seq<byte>>)
    ensures Flatten(chunks) == Flatten(AcceptAll(chunks).history) + AcceptAll(chunks).pending
  {
    if chunks != [] {
      var front, last := chunks[..|chunks| - 1], chunks[|chunks| - 1];
      var d := AcceptAll(front);
      AcceptedInOrder(front);
      assert chunks == front + [last];
      FlattenAppend(front, last);
      FlattenAppend(d.history, d.pending + last);
    }
  }

  /** The chunks of one committed command: only the last has a newline. */
  ghost predicate IsGroup(g: seq<seq<byte>>) {
    |g| > 0 && NEWLINE in g[|g| - 1] && forall i :: 0 <= i < |g| - 1 ==> NEWLINE !in g[i]
  }

  /** The chunks split into one group per command, and a rest without newlines. */
  ghost predicate Grouped(chunks: seq<seq<byte>>, gs: seq<seq<seq<byte>>>, rest: seq<seq<byte>>, d: Dev) {
    && Flatten(gs) + rest == chunks
    && |d.history| == |gs|
    && (forall i :: 0 <= i < |gs| ==> IsGroup(gs[i]) && d.history[i] == Flatten(gs[i]))
    && (forall i :: 0 <= i < |rest| ==> NEWLINE !in rest[i])
    && d.pending == Flatten(rest) && NEWLINE !in d.pending
  }

  /** A command is committed with the first chunk that brings a newline. */
  lemma {:induction false} Grouping(chunks: seq<seq<byte>>) returns (gs: seq<seq<seq<byte>>>, rest: seq<seq<byte>>)
    ensures Grouped(chunks, gs, rest, AcceptAll(chunks))
  {
    if chunks == [] {
      gs, rest := [], [];
    } else {
      var front, last := chunks[..|chunks| - 1], chunks[|chunks| - 1];
      gs, rest := Grouping(front);
      assert chunks == front + [last];
      GroupStep(front, gs, rest, AcceptAll(front), last);
      if NEWLINE in last {
        gs, rest := gs + [rest + [last]], [];
      } else {
        rest := rest + [last];
      }
    }
  }

  lemma GroupStep(chunks: seq<seq<byte>>, gs: seq<seq<seq<byte>>>, rest: seq<seq<byte>>, d: Dev, last: seq<byte>)
    requires Grouped(chunks, gs, rest, d)
    ensures if NEWLINE in last then Grouped(chunks + [last], gs + [rest + [last]], [], Accept(d, last))
            else Grouped(chunks + [last], gs, rest + [last], Accept(d, last))
  {
    FlattenAppend(rest, last);
    FlattenAppend(gs, rest + [last]);
    assert chunks + [last] == Flatten(gs) + (rest + [last]);
  }

  ghost predicate IsLine(l: seq<byte>) {
    |l| > 0 && l[|l| - 1] == NEWLINE && NEWLINE !in l[..|l| - 1]
  }

  ghost predicate AllLines(ls: seq<seq<byte>>) {
    forall i :: 0 <= i < |ls| ==> IsLine(ls[i])
  }

  /** `ls` are the complete lines of `s`, and `rest` what follows the last newline. */
  ghost predicate LinesOf(s: seq<byte>, ls: seq<seq<byte>>, rest: seq<byte>) {
    Flatten(ls) + rest == s && AllLines(ls) && NEWLINE !in rest
  }

  lemma {:induction false} LinesUnique(s: seq<byte>, ls: seq<seq<byte>>, rest: seq<byte>,
                                       ls': seq<seq<byte>>, rest': seq<byte>)
    requires LinesOf(s, ls, rest) && LinesOf(s, ls', rest')
    ensures ls == ls' && rest == rest'
  {
    FirstLine(s, ls, rest);
    FirstLine(s, ls', rest');
    if ls != [] && ls' != [] {
      assert |ls[0]| == |ls'[0]|;
      LinesUnique(s[|ls[0]|..], ls[1..], rest, ls'[1..], rest');
    }
  }

  /** Where the first line ends is decided by the bytes alone. */
  lemma FirstLine(s: seq<byte>, ls: seq<seq<byte>>, rest: seq<byte>)
    requires LinesOf(s, ls, rest)
    ensures ls == [] ==> s == rest
    ensures ls != [] ==> |ls[0]| <= |s| && s[..|ls[0]|] == ls[0] && s[|ls[0]| - 1] == NEWLINE
    ensures ls != [] ==> (forall i :: 0 <= i < |ls[0]| - 1 ==> s[i] != NEWLINE)
    ensures ls != [] ==> LinesOf(s[|ls[0]|..], ls[1..], rest)
  {
  }

  /** A newline occurs in the chunk, if at all, only as its final byte. */
  ghost predicate EndsLine(chunk: seq<byte>) {
    forall i :: 0 <= i < |chunk| - 1 ==> chunk[i] != NEWLINE
  }

  /** The commands are the lines of the byte stream exactly when no chunk carries a
      newline before its final byte. */
  lemma LinesExactly(chunks: seq<seq<byte>>)
    ensures LinesOf(Flatten(chunks), AcceptAll(chunks).history, AcceptAll(chunks).pending)
       <==> forall i :: 0 <= i < |chunks| ==> EndsLine(chunks[i])
  {
    AcceptedInOrder(chunks);
    AllLinesExactly(chunks);
  }

  lemma {:induction false} AllLinesExactly(chunks: seq<seq<byte>>)
    ensures NEWLINE !in AcceptAll(chunks).pending
    ensures AllLines(AcceptAll(chunks).history) <==> forall i :: 0 <= i < |chunks| ==> EndsLine(chunks[i])
  {
    if chunks != [] {
      var front, last := chunks[..|chunks| - 1], chunks[|chunks| - 1];
      var d := AcceptAll(front);
      AllLinesExactly(front);
      assert chunks == front + [last];
      var entry := d.pending + last;
      assert forall i :: 0 <= i < |last| ==> entry[|d.pending| + i] == last[i];
      if NEWLINE in entry {
        assert (d.history + [entry])[..|d.history|] == d.history;
        assert (d.history + [entry])[|d.history|] == entry;
        EntryIsLine(d.pending, last);
      }
    }
  }

  lemma EntryIsLine(pending: seq<byte>, chunk: seq<byte>)
    requires NEWLINE !in pending && NEWLINE in pending + chunk
    ensures IsLine(pending + chunk) <==> EndsLine(chunk)
  {
    var e := pending + chunk;
    assert forall i :: 0 <= i < |chunk| ==> e[|pending| + i] == chunk[i];
    assert e[..|e| - 1] == pending + chunk[..|chunk| - 1];
  }

  /** Two chunkings of one byte stream, neither with an inner newline, leave the
      device in the same state. */
  lemma ChunkingIrrelevant(chunks: seq<seq<byte>>, chunks': seq<seq<byte>>)
    requires Flatten(chunks) == Flatten(chunks')
    requires forall i :: 0 <= i < |chunks| ==> EndsLine(chunks[i])
    requires forall i :: 0 <= i < |chunks'| ==> EndsLine(chunks'[i])
    ensures AcceptAll(chunks) == AcceptAll(chunks')
  {
    LinesExactly(chunks);
    LinesExactly(chunks');
    var d, d' := AcceptAll(chunks), AcceptAll(chunks');
    LinesUnique(Flatten(chunks), d.history, d.pending, d'.history, d'.pending);
  }

  // ----------------------------------------------------------------- reads

  /** A read of at most `count` bytes at `pos`: never past the end of one entry. */
  function ReadAt(ring: seq<seq<byte>>, pos: nat, count: nat): seq<byte> {
    if ring == [] then []
    else if pos < |ring[0]| then ring[0][pos..pos + Min(count, |ring[0]| - pos)]
    else ReadAt(ring[1..], pos - |ring[0]|, count)
  }

  /** How many entries have bytes at or behind `pos` that are still to be read, at most. */
  function Unread(ring: seq<seq<byte>>, pos: nat): (r: nat)
    ensures r <= |ring|
  {
    if ring == [] then 0
    else if pos >= |ring[0]| then Unread(ring[1..], pos - |ring[0]|)
    else |ring|
  }

  /** A read with a large enough count reads an entry to its end. */
  lemma {:induction false} ReadsEntry(ring: seq<seq<byte>>, pos: nat, count: nat)
    requires pos < |Flatten(ring)| && count >= |Flatten(ring)| - pos
    ensures Unread(ring, pos + |ReadAt(ring, pos, count)|) < Unread(ring, pos)
  {
    if pos >= |ring[0]| {
      ReadsEntry(ring[1..], pos - |ring[0]|, count);
    }
  }

  /** Within entry `k`, a read returns the bytes of that entry. */
  lemma {:induction false} ReadInEntry(ring: seq<seq<byte>>, k: nat, b: nat, count: nat)
    requires k < |ring| && b < |ring[k]|
    ensures ReadAt(ring, |Flatten(ring[..k])| + b, count) == ring[k][b..b + Min(count, |ring[k]| - b)]
  {
    if k > 0 {
      assert ring[..k][1..] == ring[1..][..k - 1];
      ReadInEntry(ring[1..], k - 1, b, count);
    }
  }

  /** A read is a slice of the flat stream, empty only at the end or for count 0. */
  lemma {:induction false} ReadIsSlice(ring: seq<seq<byte>>, pos: nat, count: nat)
    ensures var r, s := ReadAt(ring, pos, count), Flatten(ring);
            && |r| <= count
            && (pos >= |s| ==> r == [])
            && (pos < |s| ==> pos + |r| <= |s| && r == s[pos..pos + |r|] && (count > 0 ==> |r| > 0))
  {
    if ring != [] {
      var first, rest := ring[0], Flatten(ring[1..]);
      var r := ReadAt(ring, pos, count);
      if pos < |first| {
        SliceInFront(first, rest, pos, pos + |r|);
      } else {
        var p := pos - |first|;
        ReadIsSlice(ring[1..], p, count);
        if p < |rest| {
          SliceBehind(first, rest, p, p + |r|);
        }
      }
    }
  }

  // ----------------------------------------------------------------- seeks

  /** The slot that a full ring reads from first. */
  function OutOffs(n: nat, d: Dev): (o: nat)
    requires n > 0
    ensures o < n
  {
    if |d.history| < n then 0 else Steps(|d.history|, n)
  }

  /** Items in read order, put back in slot order when reading starts at slot `o`. */
  function Turn(items: seq<seq<byte>>, o: nat): (r: seq<seq<byte>>)
    requires o < |items|
    ensures |r| == |items|
    ensures forall i :: 0 <= i < |r| ==> r[i] == items[if i < o then |items| - o + i else i - o]
  {
    items[|items| - o..] + items[..|items| - o]
  }

  /** How the ring's slots hold the newest commands; a slot never used is empty. */
  function SlotsOf(n: nat, d: Dev): (slots: seq<seq<byte>>)
    requires n > 0
    ensures |slots| == n
  {
    var ring := RingOf(n, d);
    if |ring| < n then ring + seq(n - |ring|, _ => []) else Turn(ring, OutOffs(n, d))
  }

  /** The position of byte `offset` of item `cmd`, if there is such a byte. */
  function SeekTo(items: seq<seq<byte>>, cmd: nat, offset: nat): Option<nat> {
    if cmd >= |items| || offset >= |items[cmd]| then None
    else Some(|Flatten(items[..cmd])| + offset)
  }

  lemma {:induction false} FlattenEmpties(ss: seq<seq<byte>>)
    requires forall i :: 0 <= i < |ss| ==> ss[i] == []
    ensures Flatten(ss) == []
  {
    if ss != [] {
      FlattenEmpties(ss[1..]);
    }
  }

  /** The slots hold as many bytes as the stream, whatever the rotation. */
  lemma SlotsHoldStream(n: nat, d: Dev)
    requires n > 0
    ensures |Flatten(SlotsOf(n, d))| == |StreamOf(n, d)|
  {
    var ring := RingOf(n, d);
    if |ring| < n {
      FlattenConcat(ring, SlotsOf(n, d)[|ring|..]);
      FlattenEmpties(SlotsOf(n, d)[|ring|..]);
      assert SlotsOf(n, d) == ring + SlotsOf(n, d)[|ring|..];
    } else {
      var o := OutOffs(n, d);
      FlattenConcat(ring[n - o..], ring[..n - o]);
      assert ring == ring[..n - o] + ring[n - o..];
      FlattenConcat(ring[..n - o], ring[n - o..]);
    }
  }

  lemma SeekToBelow(items: seq<seq<byte>>, cmd: nat, offset: nat)
    requires SeekTo(items, cmd, offset).Some?
    ensures SeekTo(items, cmd, offset).value < |Flatten(items)|
  {
    assert items == items[..cmd] + items[cmd..];
    FlattenConcat(items[..cmd], items[cmd..]);
  }

  /** A seek that succeeds leaves something to read, for every rotation of the ring. */
  lemma SeekThenRead(n: nat, d: Dev, cmd: nat, offset: nat, count: nat)
    requires n > 0 && SeekTo(SlotsOf(n, d), cmd, offset).Some? && count > 0
    ensures var p := SeekTo(SlotsOf(n, d), cmd, offset).value;
            p < |StreamOf(n, d)| && ReadAt(RingOf(n, d), p, count) != []
  {
    SlotsHoldStream(n, d);
    SeekToBelow(SlotsOf(n, d), cmd, offset);
    ReadIsSlice(RingOf(n, d), SeekTo(SlotsOf(n, d), cmd, offset).value, count);
  }

  /** Turning the items by `o` slots leaves every size where it was. */
  ghost predicate SameAfterTurn(items: seq<seq<byte>>, o: nat)
    requires o < |items|
  {
    forall i :: 0 <= i < |items| ==> |items[if i < o then |items| - o + i else i - o]| == |items[i]|
  }

  /** The sizes of the commands, read from the oldest, are also the sizes of the slots,
      read from slot 0: true while the ring is not full, and then only when the sizes look
      the same after turning by the read offset. */
  ghost predicate SizesUnturned(n: nat, d: Dev)
    requires n > 0
  {
    |RingOf(n, d)| == n ==> SameAfterTurn(RingOf(n, d), OutOffs(n, d))
  }

  /** The seek ioctl counts commands from slot 0. It agrees with counting from the
      oldest command, on every request, exactly when the sizes are unturned. */
  lemma SeekExactly(n: nat, d: Dev)
    requires n > 0
    ensures (forall cmd: nat, offset: nat :: SeekTo(SlotsOf(n, d), cmd, offset) == SeekTo(RingOf(n, d), cmd, offset))
       <==> SizesUnturned(n, d)
  {
    SizesOfSlots(n, d);
    SeekSameSizes(SlotsOf(n, d), RingOf(n, d));
  }

  lemma SizesOfTurn(items: seq<seq<byte>>, o: nat)
    requires o < |items|
    ensures SameAfterTurn(items, o) <==> forall i :: 0 <= i < |items| ==> |Turn(items, o)[i]| == |items[i]|
  {
  }

  lemma SizesOfSlots(n: nat, d: Dev)
    requires n > 0
    ensures SizesUnturned(n, d) <==> forall i :: 0 <= i < |RingOf(n, d)| ==> |SlotsOf(n, d)[i]| == |RingOf(n, d)[i]|
    ensures forall i :: |RingOf(n, d)| <= i < n ==> SlotsOf(n, d)[i] == []
  {
    var ring, slots := RingOf(n, d), SlotsOf(n, d);
    if |ring| < n {
      assert forall i :: 0 <= i < |ring| ==> slots[i] == ring[i];
    } else {
      SizesOfTurn(ring, OutOffs(n, d));
    }
  }

  /** Two item lists, the first padded with empty items, resolve all requests alike
      exactly when they agree on the sizes. */
  lemma SeekSameSizes(a: seq<seq<byte>>, b: seq<seq<byte>>)
    requires |a| >= |b| && forall i :: |b| <= i < |a| ==> a[i] == []
    ensures (forall cmd: nat, offset: nat :: SeekTo(a, cmd, offset) == SeekTo(b, cmd, offset))
       <==> forall i :: 0 <= i < |b| ==> |a[i]| == |b[i]|
  {
    if forall i :: 0 <= i < |b| ==> |a[i]| == |b[i]| {
      forall cmd: nat, offset: nat
        ensures SeekTo(a, cmd, offset) == SeekTo(b, cmd, offset)
      {
        if cmd < |b| {
          FlattenSameSizes(a[..cmd], b[..cmd]);
        }
      }
    } else {
      var i :| 0 <= i < |b| && |a[i]| != |b[i]|;
      assert SeekTo(a, i, Min(|a[i]|, |b[i]|)) != SeekTo(b, i, Min(|a[i]|, |b[i]|));
    }
  }

  lemma {:induction false} FlattenSameSizes(a: seq<seq<byte>>, b: seq<seq<byte>>)
    requires |a| == |b| && forall i :: 0 <= i < |a| ==> |a[i]| == |b[i]|
    ensures |Flatten(a)| == |Flatten(b)|
  {
    if a != [] {
      FlattenSameSizes(a[1..], b[1..]);
    }
  }

  /** When the read offset is 0 a seek reaches the command and byte it names. */
  lemma {:induction false} SeekUnturned(n: nat, d: Dev, cmd: nat, offset: nat, count: nat)
    requires n > 0 && OutOffs(n, d) == 0
    requires SeekTo(SlotsOf(n, d), cmd, offset).Some?
    ensures cmd < |RingOf(n, d)| && offset < |RingOf(n, d)[cmd]|
    ensures var e, p := RingOf(n, d)[cmd], SeekTo(SlotsOf(n, d), cmd, offset).value;
            ReadAt(RingOf(n, d), p, count) == e[offset..offset + Min(count, |e| - offset)]
  {
    SizesOfSlots(n, d);
    SeekSameSizes(SlotsOf(n, d), RingOf(n, d));
    assert SeekTo(SlotsOf(n, d), cmd, offset) == SeekTo(RingOf(n, d), cmd, offset);
    ReadInEntry(RingOf(n, d), cmd, offset, count);
  }

  lemma {:induction false} AcceptLines(chunks: seq<seq<byte>>)
    requires AllLines(chunks)
    ensures AcceptAll(chunks) == Dev(chunks, [])
  {
    if chunks != [] {
      var front, last := chunks[..|chunks| - 1], chunks[|chunks| - 1];
      AcceptLines(front);
      assert chunks == front + [last] && [] + last == last;
      assert last[|last| - 1] == NEWLINE;
    }
  }

  lemma SeekSecond(items: seq<seq<byte>>)
    requires |items| > 1 && |items[1]| > 0
    ensures SeekTo(items, 1, 0) == Some(|items[0]|)
  {
    assert items[..1] == [items[0]];
    assert Flatten([items[0]]) == items[0] + Flatten([]);
  }

  /** After n + 1 commands the ring has turned by one slot. */
  lemma TurnedOnce(n: nat, d: Dev)
    requires n >= 2 && |d.history| == n + 1
    ensures SlotsOf(n, d) == Turn(RingOf(n, d), 1) && RingOf(n, d) == d.history[1..]
  {
    StepsSmall(n - 1, n);
    assert Steps(n, n) == 0 && Steps(n + 1, n) == 1;
  }

  /** `n + 1` commands, the second of two bytes and the others of one. */
  function TurningCommands(n: nat): (r: seq<seq<byte>>)
    requires n >= 2
    ensures |r| == n + 1 && forall i :: 0 <= i <= n ==> r[i] == if i == 1 then [1, NEWLINE] else [NEWLINE]
  {
    seq(n + 1, i => if i == 1 then [1, NEWLINE] else [NEWLINE])
  }

  lemma TurnedSeeks(n: nat, d: Dev)
    requires n >= 2 && |d.history| == n + 1
    requires |d.history[1]| == 2 && |d.history[2]| > 0 && |d.history[n]| == 1
    ensures SeekTo(RingOf(n, d), 1, 0) == Some(2)
    ensures SeekTo(SlotsOf(n, d), 1, 0) == Some(1)
    ensures |RingOf(n, d)[0]| == 2
  {
    TurnedOnce(n, d);
    SeekSecond(RingOf(n, d));
    SeekSecond(SlotsOf(n, d));
  }

  /** On a ring of any size above one: after those commands, asking for the first byte of
      the second oldest command leads into the oldest, past its first byte. */
  lemma SeekTurnedCounterexample(n: nat)
    requires n >= 2
    ensures var d := AcceptAll(TurningCommands(n));
            && SeekTo(RingOf(n, d), 1, 0) == Some(2)
            && SeekTo(SlotsOf(n, d), 1, 0) == Some(1)
            && |RingOf(n, d)[0]| == 2
  {
    var chunks := TurningCommands(n);
    AcceptLines(chunks);
    TurnedSeeks(n, Dev(chunks, []));
  }
}
