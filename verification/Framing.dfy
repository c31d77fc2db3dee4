/** How `process` cuts a connection's bytes into messages. */
module Framing {
  import opened Bytes

  const BUFFER_START_LENGTH := 128

  /** A byte buffer as the C string functions see it: up to the first NUL. */
  function CString(s: seq<byte>): (r: seq<byte>)
    ensures r <= s && NUL !in r
    ensures |r| < |s| ==> s[|r|] == NUL
  {
    if s == [] || s[0] == NUL then [] else [s[0]] + CString(s[1..])
  }

  predicate Zeros(s: seq<byte>) {
    forall i :: 0 <= i < |s| ==> s[i] == NUL
  }

  /** Behind the received bytes there are only zeros, so the C string functions see
      the received bytes up to their first NUL. */
  lemma {:induction false} CStringPadded(s: seq<byte>, zeros: seq<byte>)
    requires Zeros(zeros)
    ensures CString(s + zeros) == CString(s)
  {
    if s == [] {
      assert s + zeros == zeros;
    } else {
      assert (s + zeros)[1..] == s[1..] + zeros;
      CStringPadded(s[1..], zeros);
    }
  }

  lemma CStringWhole(s: seq<byte>)
    ensures CString(s) == s <==> NUL !in s
  {
  }

  datatype Status = Complete | Waiting | Ended

  /** recv into the buffer: there is room for a byte, and the last byte of the buffer is
      out of reach. `want` is how many bytes are ready. */
  method Recv(buf: array<byte>, at: nat, capacity: nat, input: seq<byte>, pos: nat, want: nat) returns (n: nat)
    requires 1 <= capacity && at + capacity < buf.Length && pos <= |input|
    modifies buf
    ensures n == Min(Min(want, capacity), |input| - pos)
    ensures buf[..] == old(buf[..at]) + input[pos..pos + n] + old(buf[at + n..])
  {
    n := Min(Min(want, capacity), |input| - pos);
    forall i | 0 <= i < n {
      buf[at + i] := input[pos + i];
    }
  }

  /** realloc by one more start length. What the new tail holds is up to the allocator. */
  method Grow(buf: array<byte>, tail: seq<byte>) returns (grown: array<byte>)
    requires |tail| == BUFFER_START_LENGTH
    ensures fresh(grown) && grown[..] == buf[..] + tail
  {
    grown := new byte[buf.Length + BUFFER_START_LENGTH](_ => 0);
    forall i | 0 <= i < buf.Length {
      grown[i] := buf[i];
    }
    forall i | 0 <= i < |tail| {
      grown[buf.Length + i] := tail[i];
    }
  }

  /** A new tail that does no harm: the program clears its last byte itself. */
  ghost predicate Harmless(tail: seq<byte>) {
    |tail| == BUFFER_START_LENGTH && Zeros(tail[..BUFFER_START_LENGTH - 1])
  }

  /** The buffer after growing with `data` in it and receiving `chunk`: behind the data came
      the old terminator and the new tail, whose last byte has been cleared. */
  function Seen(data: seq<byte>, chunk: seq<byte>, tail: seq<byte>): seq<byte>
    requires |chunk| <= |tail| && |tail| > 0
  {
    var s := data + chunk + ([NUL] + tail)[|chunk|..];
    s[|s| - 1 := NUL]
  }

  lemma HarmlessSeen(data: seq<byte>, chunk: seq<byte>, tail: seq<byte>)
    requires Harmless(tail) && |chunk| <= |tail| && NUL !in data + chunk
    ensures CString(Seen(data, chunk, tail)) == data + chunk
  {
    var rest := Seen(data, chunk, tail)[|data + chunk|..];
    assert Seen(data, chunk, tail) == data + chunk + rest;
    assert Zeros(rest);
    CStringPadded(data + chunk, rest);
    CStringWhole(data + chunk);
  }

  /** A byte of the tail shows behind a chunk that ends just before it. */
  lemma HarmSeen(data: seq<byte>, chunk: seq<byte>, tail: seq<byte>)
    requires 0 < |chunk| < |tail| && tail[|chunk| - 1] != NUL
    ensures CString(Seen(data, chunk, tail)) != data + chunk
  {
    assert Seen(data, chunk, tail)[|data + chunk|] == tail[|chunk| - 1];
  }

  /** The string functions see exactly the received bytes, however many arrive, if and only
      if the new tail is harmless: which realloc does not promise. */
  lemma {:induction false} GrowthNeedsZeros(data: seq<byte>, tail: seq<byte>)
    requires NUL !in data && |tail| == 128
    ensures (forall chunk: seq<byte> :: |chunk| <= |tail| && NUL !in chunk ==>
               CString(Seen(data, chunk, tail)) == data + chunk)
       <==> Zeros(tail[..127])
  {
    if Harmless(tail) {
      forall chunk: seq<byte> | |chunk| <= |tail| && NUL !in chunk
        ensures CString(Seen(data, chunk, tail)) == data + chunk
      {
        HarmlessSeen(data, chunk, tail);
      }
    } else {
      var i :| 0 <= i < |tail| - 1 && tail[i] != NUL;
      var chunk: seq<byte> := seq(i + 1, _ => 1);
      assert NUL !in chunk && tail[..127][i] == tail[i];
      HarmSeen(data, chunk, tail);
    }
  }

  /** The buffer starts with `data`, and there is room for a byte and a terminator. */
  ghost predicate Starts(s: seq<byte>, data: seq<byte>) {
    |data| + 2 <= |s| && s[..|data|] == data
  }

  /** The buffer holds `data` and then zeros. */
  ghost predicate Filled(s: seq<byte>, data: seq<byte>) {
    Starts(s, data) && Zeros(s[|data|..])
  }

  lemma FilledString(s: seq<byte>, data: seq<byte>)
    requires Filled(s, data)
    ensures CString(s) == CString(data)
  {
    assert s == data + s[|data|..];
    CStringPadded(data, s[|data|..]);
  }

  /** Receiving behind the data into a buffer that stays as long as it is. */
  lemma FilledMore(s: seq<byte>, data: seq<byte>, chunk: seq<byte>)
    requires Starts(s, data) && |data| + |chunk| + 2 <= |s|
    ensures var t := (s[..|data|] + chunk + s[|data| + |chunk|..])[|s| - 1 := 0];
            Starts(t, data + chunk) && (Filled(s, data) ==> Filled(t, data + chunk))
  {
    var zeros := s[|data| + |chunk|..];
    assert Filled(s, data) ==> forall i :: 0 <= i < |zeros| ==> zeros[i] == s[|data|..][|chunk| + i];
  }

  /** Receiving to the last byte but one, growing, and clearing the last byte: a buffer that
      was as it should be still is, exactly when the new tail is harmless. */
  lemma FilledGrown(s: seq<byte>, data: seq<byte>, chunk: seq<byte>, tail: seq<byte>)
    requires Starts(s, data) && |data| + |chunk| + 1 == |s| && |tail| == BUFFER_START_LENGTH
    ensures var t := s[..|data|] + chunk + s[|data| + |chunk|..] + tail;
            var u := t[|t| - 1 := 0];
            Starts(u, data + chunk) && (Filled(s, data) ==> (Filled(u, data + chunk) <==> Harmless(tail)))
  {
    var t := s[..|data|] + chunk + s[|data| + |chunk|..] + tail;
    var u := t[|t| - 1 := 0];
    if Filled(s, data) {
      var rest := u[|data + chunk|..];
      assert s[|data| + |chunk|] == s[|data|..][|chunk|] == NUL;
      assert rest[0] == NUL && rest[|tail|] == NUL && |rest| == |tail| + 1;
      var body := tail[..|tail| - 1];
      assert forall i :: 0 <= i < |body| ==> body[i] == rest[i + 1];
      assert forall i :: 0 < i < |tail| ==> rest[i] == body[i - 1];
    }
  }

  /** One turn of the receive loop: receive behind what is there, grow the buffer when
      that fills it, and terminate it. */
  method ReceiveChunk(buf: array<byte>, at: nat, input: seq<byte>, pos: nat, want: nat, tail: seq<byte>,
                      ghost data: seq<byte>)
      returns (recvBuffer: array<byte>, bufferIndex: nat, bytesRecv: nat)
    requires Starts(buf[..], data) && at == |data| && pos <= |input| && |tail| == BUFFER_START_LENGTH
    modifies buf
    ensures recvBuffer == buf || fresh(recvBuffer)
    ensures bytesRecv == Min(Min(want, buf.Length - at - 1), |input| - pos) && bufferIndex == at + bytesRecv
    ensures recvBuffer.Length == buf.Length + if bytesRecv == buf.Length - at - 1 then BUFFER_START_LENGTH else 0
    ensures Starts(recvBuffer[..], data + input[pos..pos + bytesRecv])
    ensures old(Filled(buf[..], data)) ==>
              (Filled(recvBuffer[..], data + input[pos..pos + bytesRecv]) <==>
               bytesRecv < buf.Length - at - 1 || Harmless(tail))
  {
    var bufferSize := buf.Length;
    ghost var before := buf[..];
    recvBuffer := buf;
    bytesRecv := Recv(recvBuffer, at, bufferSize - at - 1, input, pos, want);
    ghost var chunk := input[pos..pos + bytesRecv];
    ghost var t := before[..at] + chunk + before[at + bytesRecv..];
    assert recvBuffer[..] == t;
    if bytesRecv == bufferSize - at - 1 {
      bufferSize := bufferSize + BUFFER_START_LENGTH;
      bufferIndex := bufferSize - BUFFER_START_LENGTH - 1;
      recvBuffer := Grow(recvBuffer, tail);
      FilledGrown(before, data, chunk, tail);
      t := t + tail;
    } else {
      bufferIndex := at + bytesRecv;
      FilledMore(before, data, chunk);
    }
    recvBuffer[bufferSize - 1] := 0;
    assert recvBuffer[..] == t[|t| - 1 := 0];
  }

  /** What the allocator hands out when the buffer grows, turn by turn. */
  ghost predicate AllHarmless(tails: seq<seq<byte>>) {
    forall i :: 0 <= i < |tails| ==> Harmless(tails[i])
  }

  predicate Sized(tails: seq<seq<byte>>, n: nat) {
    |tails| == n && forall i :: 0 <= i < n ==> |tails[i]| == BUFFER_START_LENGTH
  }

  /** Each of the recv calls k0, ..., k - 1 found something ready. */
  predicate Ready(wants: seq<nat>, k0: nat, k: nat) {
    k <= |wants| && forall i :: k0 <= i < k ==> wants[i] > 0
  }

  /** The bytes that the first recv of a message brings, when `want` bytes are ready. */
  function FirstChunk(input: seq<byte>, pos: nat, want: nat): seq<byte>
    requires pos <= |input|
  {
    input[pos..pos + Min(Min(want, BUFFER_START_LENGTH - 1), |input| - pos)]
  }

  /** The buffer of a message that is not complete; `ok` says that growing has done no harm. */
  ghost predicate Unfinished(s: seq<byte>, data: seq<byte>, ok: bool) {
    Starts(s, data) && (ok ==> Filled(s, data) && NEWLINE !in CString(data))
  }

  method MessageTurn(buf: array<byte>, at: nat, input: seq<byte>, pos0: nat, pos: nat, want: nat, tail: seq<byte>,
                     ghost ok: bool)
      returns (recvBuffer: array<byte>, bufferIndex: nat, pos': nat, done: bool)
    requires pos0 <= pos <= |input| && at == pos - pos0 && Unfinished(buf[..], input[pos0..pos], ok)
    requires |tail| == BUFFER_START_LENGTH && (ok ==> Harmless(tail))
    modifies buf
    ensures recvBuffer == buf || fresh(recvBuffer)
    ensures pos' == pos + Min(Min(want, buf.Length - at - 1), |input| - pos) && bufferIndex == pos' - pos0
    ensures recvBuffer.Length == buf.Length + if pos' - pos == buf.Length - at - 1 then BUFFER_START_LENGTH else 0
    ensures Starts(recvBuffer[..], input[pos0..pos']) && (ok ==> Filled(recvBuffer[..], input[pos0..pos']))
    ensures done == (NEWLINE in CString(recvBuffer[..]))
    ensures ok ==> done == (NEWLINE in CString(input[pos0..pos']))
  {
    var bytesRecv;
    ghost var data := input[pos0..pos];
    recvBuffer, bufferIndex, bytesRecv := ReceiveChunk(buf, at, input, pos, want, tail, data);
    pos' := pos + bytesRecv;
    assert input[pos0..pos'] == data + input[pos..pos'];
    if ok {
      FilledString(recvBuffer[..], input[pos0..pos']);
    }
    done := NEWLINE in CString(recvBuffer[..]);
  }

  /** One message's receive loop. `input` is what the peer sends, of which `pos0` bytes
      were taken before; `wants[k]` is how many bytes recv number k finds ready, and
      `tails[k]` what the buffer would grow by. The thread returns (Ended) at turn
      `patience`, after an exit request, a failed recv, or a failed allocation; Waiting
      means that the run considered ends inside the loop. */
  method ReceiveMessage(input: seq<byte>, pos0: nat, wants: seq<nat>, tails: seq<seq<byte>>, patience: nat, k0: nat)
      returns (status: Status, recvBuffer: array<byte>, pos: nat, k: nat)
    requires pos0 <= |input| && k0 <= |wants| && Sized(tails, |wants|)
    ensures pos0 <= pos <= |input| && k0 <= k <= |wants|
    ensures Ready(wants, k0, k) ==> pos - pos0 >= Min(k - k0, |input| - pos0)
    ensures status == Complete ==> k0 < k && NEWLINE in CString(recvBuffer[..])
    ensures status == Waiting ==> k == |wants|
    ensures status == Ended ==> k == patience
    ensures k0 <= patience ==> k <= patience && (k == patience && k < |wants| && status != Complete ==> status == Ended)
    ensures Starts(recvBuffer[..], input[pos0..pos])
    ensures AllHarmless(tails) ==> Filled(recvBuffer[..], input[pos0..pos])
    ensures AllHarmless(tails) && status == Complete ==> NEWLINE in CString(input[pos0..pos])
    ensures AllHarmless(tails) && status == Waiting ==> NEWLINE !in CString(input[pos0..pos])
    ensures AllHarmless(tails) && k0 < |wants| && k0 != patience &&
            NEWLINE in CString(FirstChunk(input, pos0, wants[k0])) ==>
              status == Complete && k == k0 + 1 && input[pos0..pos] == FirstChunk(input, pos0, wants[k0])
  {
    recvBuffer := new byte[BUFFER_START_LENGTH](_ => 0);
    var bufferIndex := 0;
    pos, k, status := pos0, k0, Ended;
    ghost var ok := AllHarmless(tails);
    ghost var first := if k0 < |wants| then FirstChunk(input, pos0, wants[k0]) else [];
    while k < |wants|
      invariant pos0 <= pos <= |input| && k0 <= k <= |wants|
      invariant k == k0 ==> recvBuffer.Length == BUFFER_START_LENGTH && pos == pos0
      invariant Ready(wants, k0, k) ==> pos - pos0 >= Min(k - k0, |input| - pos0)
      invariant fresh(recvBuffer) && bufferIndex == pos - pos0
      invariant k0 <= patience ==> k <= patience
      invariant Unfinished(recvBuffer[..], input[pos0..pos], ok)
      invariant ok && k0 < k ==> NEWLINE !in CString(first)
    {
      if k == patience {
        return;
      }
      var done;
      recvBuffer, bufferIndex, pos, done :=
        MessageTurn(recvBuffer, bufferIndex, input, pos0, pos, wants[k], tails[k], ok);
      assert k == k0 ==> first == input[pos0..pos];
      k := k + 1;
      if done {
        status := Complete;
        return;
      }
    }
    status := Waiting;
  }

  /** The messages of one connection. `raws` are the bytes received for each of them,
      `messages` the bytes that `strlen` sees, which is what is acted on, and `buffered`
      the bytes received after the last message. When growing does no harm, no byte is lost
      exactly when no NUL was among the bytes received before the buffered ones. */
  method ReceiveAll(input: seq<byte>, wants: seq<nat>, tails: seq<seq<byte>>, patience: nat)
      returns (messages: seq<seq<byte>>, raws: seq<seq<byte>>, buffered: seq<byte>, received: nat, turns: nat)
    requires Sized(tails, |wants|)
    ensures turns == Min(|wants|, patience)
    ensures Ready(wants, 0, turns) ==> received >= Min(turns, |input|)
    ensures |buffered| <= received <= |input| && Flatten(raws) + buffered == input[..received]
    ensures |messages| == |raws| && forall i :: 0 <= i < |messages| ==> NEWLINE in messages[i] && NUL !in messages[i]
    ensures AllHarmless(tails) ==> forall i :: 0 <= i < |raws| ==> messages[i] == CString(raws[i])
    ensures AllHarmless(tails) ==>
              (Flatten(messages) + buffered == input[..received] <==> NUL !in input[..received - |buffered|])
    ensures AllHarmless(tails) && NUL !in input ==> messages == raws && Flatten(messages) + buffered == input[..received]
    ensures AllHarmless(tails) && wants != [] && patience > 0 && NEWLINE in CString(FirstChunk(input, 0, wants[0])) ==>
              raws != [] && raws[0] == FirstChunk(input, 0, wants[0])
  {
    messages, raws, buffered, received := [], [], [], 0;
    turns := 0;
    ghost var ok := AllHarmless(tails);
    ghost var quick := ok && wants != [] && patience > 0 && NEWLINE in CString(FirstChunk(input, 0, wants[0]));
    while true
      invariant received <= |input| && turns <= |wants| && turns <= patience && buffered == []
      invariant Ready(wants, 0, turns) ==> received >= Min(turns, |input|)
      invariant Cut(input[..received], messages, raws, ok)
      invariant if turns == 0 then raws == [] && received == 0
                else quick ==> raws != [] && raws[0] == FirstChunk(input, 0, wants[0])
      decreases |wants| - turns
    {
      var status, recvBuffer, pos;
      status, recvBuffer, pos, turns := ReceiveMessage(input, received, wants, tails, patience, turns);
      var raw := input[received..pos];
      UpTo(input, received, pos);
      if status != Complete {
        received, buffered := pos, raw;
        break;
      }
      CutMore(input[..received], messages, raws, ok, recvBuffer[..], raw);
      received := pos;
      messages := messages + [CString(recvBuffer[..])];
      raws := raws + [raw];
    }
    if ok {
      ConservedTo(input, messages, raws, buffered, received);
    }
  }

  /** The bytes so far are cut into `raws`, of which `messages` were made. */
  ghost predicate Cut(bytes: seq<byte>, messages: seq<seq<byte>>, raws: seq<seq<byte>>, ok: bool) {
    && Flatten(raws) == bytes && |messages| == |raws|
    && (forall i :: 0 <= i < |messages| ==> NEWLINE in messages[i] && NUL !in messages[i])
    && (ok ==> forall i :: 0 <= i < |raws| ==> messages[i] == CString(raws[i]))
  }

  lemma CutMore(bytes: seq<byte>, messages: seq<seq<byte>>, raws: seq<seq<byte>>, ok: bool, buf: seq<byte>, raw: seq<byte>)
    requires Cut(bytes, messages, raws, ok) && NEWLINE in CString(buf) && (ok ==> Filled(buf, raw))
    ensures Cut(bytes + raw, messages + [CString(buf)], raws + [raw], ok)
  {
    FlattenAppend(raws, raw);
    if ok {
      FilledString(buf, raw);
    }
  }

  lemma ConservedTo(input: seq<byte>, messages: seq<seq<byte>>, raws: seq<seq<byte>>, buffered: seq<byte>, received: nat)
    requires |messages| == |raws| && forall i :: 0 <= i < |raws| ==> messages[i] == CString(raws[i])
    requires |buffered| <= received <= |input| && Flatten(raws) + buffered == input[..received]
    ensures Flatten(messages) + buffered == input[..received] <==> NUL !in input[..received - |buffered|]
    ensures NUL !in input ==> messages == raws
  {
    ConservedExactly(messages, raws);
    NulInSome(raws);
    assert Flatten(raws) == input[..received][..received - |buffered|] == input[..received - |buffered|];
    assert Flatten(messages) + buffered == input[..received] ==> |Flatten(messages)| == |Flatten(raws)|;
  }

  lemma {:induction false} ConservedExactly(messages: seq<seq<byte>>, raws: seq<seq<byte>>)
    requires |messages| == |raws| && forall i :: 0 <= i < |raws| ==> messages[i] == CString(raws[i])
    ensures |Flatten(messages)| <= |Flatten(raws)|
    ensures |Flatten(messages)| == |Flatten(raws)| <==> forall i :: 0 <= i < |raws| ==> NUL !in raws[i]
    ensures (forall i :: 0 <= i < |raws| ==> NUL !in raws[i]) ==> messages == raws
  {
    if raws != [] {
      ConservedExactly(messages[1..], raws[1..]);
      CStringWhole(raws[0]);
      if NUL in raws[0] {
        assert |messages[0]| < |raws[0]|;
      } else {
        assert messages == [raws[0]] + messages[1..] && raws == [raws[0]] + raws[1..];
      }
    }
  }

  lemma {:induction false} NulInSome(raws: seq<seq<byte>>)
    ensures NUL !in Flatten(raws) <==> forall i :: 0 <= i < |raws| ==> NUL !in raws[i]
  {
    if raws != [] {
      NulInSome(raws[1..]);
      assert raws == [raws[0]] + raws[1..];
    }
  }

  /** A line, a NUL and more, arriving together: what follows the line is lost. */
  method LosesBehindNul() returns (input: seq<byte>, messages: seq<seq<byte>>, buffered: seq<byte>, received: nat)
    ensures NEWLINE in CString(input) && received <= |input|
    ensures |Flatten(messages) + buffered| < received
  {
    input := [97, NEWLINE, NUL, 98];
    var tail: seq<byte> := seq(BUFFER_START_LENGTH, _ => 0);
    var raws, turns;
    assert CString(input[1..]) == [NEWLINE] + CString(input[2..]);
    assert FirstChunk(input, 0, 4) == input;
    messages, raws, buffered, received, turns := ReceiveAll(input, [4], [tail], 1);
    assert raws[0][2] == NUL;
    NulInSome(raws);
    ghost var whole := input[..received];
    assert Flatten(raws) == whole[..received - |buffered|];
    ConservedExactly(messages, raws);
  }
}
