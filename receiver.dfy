/**
 * `receive` from src/shared.c: drain a connected socket into a heap buffer
 * that starts at 256000 bytes and grows by 256000 bytes whenever it is
 * exactly full, until the peer closes, recv fails, or (for a non-zero
 * `num_bytes`) at least `num_bytes` bytes have arrived.
 *
 * `Iteration` is one pass of the source's do-while loop over the abstract
 * state `Rx`; `Drain` runs the loop to its end. The method `Receive` runs
 * the loop on an array against the `Socket` and `Heap` oracles and is
 * proved to compute exactly `Drain`; the lemmas say what `Drain` promises.
 */
module Receiver {
  import opened Transport

  /** The growth step, and the initial capacity, of the receive buffer. */
  const StepSize: nat := 256000

  /** The loop's state: the buffer's valid bytes and capacity, what the oracles still hold, and a log of every chunk recv handed over. */
  datatype Rx = Rx(
    received: seq<byte>,      // buf[0..total_bytes_rx)
    capacity: nat,            // len_rx
    pending: seq<byte>,       // bytes the peer sent that are not received yet
    script: seq<Step>,        // the network's remaining decisions
    grants: seq<bool>,        // the allocator's remaining decisions
    chunks: seq<seq<byte>>)   // what each recv call so far handed over, in order

  /** The end of one pass through the loop body. */
  datatype Turn = Continue(next: Rx) | Stop(last: Rx) | RecvFailed

  /** How the whole loop ends: normally, or with recv returning -1 (the source exits the process). */
  datatype Outcome = Finished(rx: Rx) | Errored

  /** The concatenation of a list of chunks. */
  function Concat(cs: seq<seq<byte>>): (r: seq<byte>)
  {
    if cs == [] then [] else Concat(cs[..|cs| - 1]) + cs[|cs| - 1]
  }

  /** The buffer never holds more than its capacity (`0 <= total_bytes_rx <= len_rx`). */
  predicate Fits(s: Rx) { |s.received| <= s.capacity }

  /** The state just before the loop: an empty buffer of one step. */
  function Initial(stream: seq<byte>, script: seq<Step>, grants: seq<bool>): (s: Rx)
    ensures Fits(s) && s.capacity == StepSize && s.received == [] && s.chunks == []
  {
    Rx([], StepSize, stream, script, grants, [])
  }

  /** One pass of the do-while loop, including the stop test at its head and the `bytes_rx > 0` test at its foot. */
  function Iteration(s: Rx, numBytes: nat): (t: Turn)
    requires Fits(s)
    ensures t.Continue? ==> Fits(t.next) && |t.next.pending| < |s.pending|
  {
    if numBytes != 0 && |s.received| >= numBytes then Stop(s)
    else
      var n := Delivered(s.pending, s.script, s.capacity - |s.received|);
      if n < 0 then RecvFailed
      else
        var u := AfterRecv(s, n);
        if n > 0 then Continue(u) else Stop(u)
  }

  /**
   * The state after a recv that handed over `n >= 0` bytes: the bytes are
   * appended at the cursor; a buffer that is now exactly full is offered to
   * realloc, and grows by one step if the allocator grants it.
   */
  function AfterRecv(s: Rx, n: nat): (u: Rx)
    requires n <= |s.pending| && |s.received| + n <= s.capacity
    ensures u.received == s.received + s.pending[..n] && u.received[|s.received|..] == s.pending[..n]
  {
    var received := s.received + s.pending[..n];
    var full := |received| == s.capacity;
    var grown := full && Granted(s.grants);
    assert received[|s.received|..] == s.pending[..n];
    Rx(received,
       if grown then s.capacity + StepSize else s.capacity,
       s.pending[n..],
       Rest(s.script),
       if full then Rest(s.grants) else s.grants,
       s.chunks + [s.pending[..n]])
  }

  /** What one pass of the loop guarantees. */
  lemma PassKeeps(s: Rx, numBytes: nat)
    requires Fits(s)
    // the early stop issues no recv and changes nothing
    ensures numBytes != 0 && |s.received| >= numBytes ==> Iteration(s, numBytes) == Stop(s)
    // otherwise exactly one recv is issued, asking for the free space; -1 ends everything
    ensures !(numBytes != 0 && |s.received| >= numBytes) ==>
      (Iteration(s, numBytes).RecvFailed? <==> Delivered(s.pending, s.script, s.capacity - |s.received|) == -1)
    ensures var t := Iteration(s, numBytes);
      !t.RecvFailed? ==>
      var u := if t.Continue? then t.next else t.last;
      && Fits(u)
      && u.received + u.pending == s.received + s.pending
      && s.received <= u.received
      // either the target was already reached and nothing happened, or one
      // recv was logged and, when it filled the buffer, one realloc decision
      // was used; the buffer grows exactly when it is full and that realloc
      // succeeds
      && ((numBytes != 0 && |s.received| >= numBytes) ||
          (&& u.chunks == s.chunks + [u.received[|s.received|..]] && u.script == Rest(s.script)
           && u.grants == (if |u.received| == s.capacity then Rest(s.grants) else s.grants)
           && (u.capacity == s.capacity + StepSize <==> |u.received| == s.capacity && Granted(s.grants))))
      && (s.received == Concat(s.chunks) ==> u.received == Concat(u.chunks))
      // capacity grows by exactly one step, and only out of a full buffer
      && (u.capacity == s.capacity || (u.capacity == s.capacity + StepSize && |u.received| == s.capacity))
      && (s.capacity % StepSize == 0 ==> u.capacity % StepSize == 0)
  {
    var t := Iteration(s, numBytes);
    if !(numBytes != 0 && |s.received| >= numBytes) {
      var n := Delivered(s.pending, s.script, s.capacity - |s.received|);
      if n >= 0 {
        RecvKeeps(s, n);
        assert t == if n > 0 then Continue(AfterRecv(s, n)) else Stop(AfterRecv(s, n));
      }
    }
  }

  /** The state after a recv keeps the loop's invariants. */
  lemma RecvKeeps(s: Rx, n: nat)
    requires n <= |s.pending| && |s.received| + n <= s.capacity
    ensures var u := AfterRecv(s, n);
      && Fits(u)
      && u.received + u.pending == s.received + s.pending
      && s.received <= u.received
      && u.chunks == s.chunks + [u.received[|s.received|..]] && u.script == Rest(s.script)
      && (s.received == Concat(s.chunks) ==> u.received == Concat(u.chunks))
      // realloc is called exactly when the buffer is full; the capacity grows by one step exactly when it succeeds
      && u.grants == (if |u.received| == s.capacity then Rest(s.grants) else s.grants)
      && (u.capacity == s.capacity || u.capacity == s.capacity + StepSize)
      && (u.capacity == s.capacity + StepSize <==> |u.received| == s.capacity && Granted(s.grants))
      && (s.capacity % StepSize == 0 ==> u.capacity % StepSize == 0)
  {
    var u := AfterRecv(s, n);
    assert s.pending[..n] + s.pending[n..] == s.pending;
    assert u.received + u.pending == s.received + (s.pending[..n] + s.pending[n..]);
    ConcatSnoc(s.chunks, s.pending[..n]);
  }

  lemma ConcatSnoc(cs: seq<seq<byte>>, c: seq<byte>)
    ensures Concat(cs + [c]) == Concat(cs) + c
  {
    assert (cs + [c])[..|cs|] == cs;
  }

  /** The whole loop, from state `s`. */
  function Drain(s: Rx, numBytes: nat): (o: Outcome)
    requires Fits(s)
    decreases |s.pending|
    ensures o.Finished? ==> Fits(o.rx)
    // no byte is lost, duplicated or reordered
    ensures o.Finished? ==> o.rx.received + o.rx.pending == s.received + s.pending
    // the buffer holds the concatenation of the chunks, whatever their sizes
    ensures o.Finished? && s.received == Concat(s.chunks) ==> o.rx.received == Concat(o.rx.chunks)
    // capacity never shrinks and stays a whole number of steps
    ensures o.Finished? ==> s.capacity <= o.rx.capacity
    ensures o.Finished? && s.capacity % StepSize == 0 ==> o.rx.capacity % StepSize == 0
  {
    var t := Iteration(s, numBytes);
    PassKeeps(s, numBytes);
    if t.Continue? then Drain(t.next, numBytes)
    else if t.Stop? then Finished(t.last)
    else Errored
  }

  /** The loop's first pass, unfolded: the early stop. */
  lemma DrainStopsAtTarget(s: Rx, numBytes: nat)
    requires Fits(s) && numBytes != 0 && |s.received| >= numBytes
    ensures Drain(s, numBytes) == Finished(s)
  {
  }

  /** The loop's first pass, unfolded: a recv that returns `n`. */
  lemma DrainAfterRecv(s: Rx, numBytes: nat, n: int)
    requires Fits(s) && !(numBytes != 0 && |s.received| >= numBytes)
    requires n == Delivered(s.pending, s.script, s.capacity - |s.received|)
    ensures n < 0 ==> Drain(s, numBytes) == Errored
    ensures n == 0 ==> Drain(s, numBytes) == Finished(AfterRecv(s, 0))
    ensures n > 0 ==> Fits(AfterRecv(s, n)) && Drain(s, numBytes) == Drain(AfterRecv(s, n), numBytes)
  {
    if n < 0 {
      assert Iteration(s, numBytes) == RecvFailed;
    } else if n == 0 {
      assert Iteration(s, numBytes) == Stop(AfterRecv(s, 0));
    } else {
      assert Iteration(s, numBytes) == Continue(AfterRecv(s, n));
    }
  }

  /** No recv call fails. */
  predicate NoFailure(script: seq<Step>) { forall i :: 0 <= i < |script| ==> script[i].Chunk? }

  /** Every realloc is granted. */
  predicate AllGranted(grants: seq<bool>) { forall i :: 0 <= i < |grants| ==> grants[i] }

  /**
   * When nothing fails, the loop runs until the peer has nothing more to send
   * or, for a non-zero `num_bytes`, until at least that many bytes are in.
   */
  lemma {:induction false} DrainsToTargetOrEof(s: Rx, numBytes: nat)
    requires |s.received| < s.capacity
    requires NoFailure(s.script) && AllGranted(s.grants)
    ensures Drain(s, numBytes).Finished?
    ensures var u := Drain(s, numBytes).rx;
      u.pending == [] || (numBytes != 0 && |u.received| >= numBytes)
    decreases |s.pending|
  {
    match Iteration(s, numBytes)
    case Continue(t) =>
      assert NoFailure(t.script) && AllGranted(t.grants);
      DrainsToTargetOrEof(t, numBytes);
    case Stop(t) =>
    case RecvFailed =>
  }

  /** With `num_bytes == 0` and no failure, the result is the whole stream, in whatever chunks it arrives. */
  lemma ReadsWholeStream(stream: seq<byte>, script: seq<Step>, grants: seq<bool>)
    requires NoFailure(script) && AllGranted(grants)
    ensures Drain(Initial(stream, script, grants), 0).Finished?
    ensures Drain(Initial(stream, script, grants), 0).rx.received == stream
  {
    DrainsToTargetOrEof(Initial(stream, script, grants), 0);
    var u := Drain(Initial(stream, script, grants), 0).rx;
    assert u.received + u.pending == [] + stream;
    assert u.received == u.received + u.pending;
  }

  /** With `num_bytes != 0` and no failure, a long enough stream yields at least `num_bytes` bytes, a prefix of the stream. */
  lemma ReadsAtLeast(stream: seq<byte>, script: seq<Step>, grants: seq<bool>, numBytes: nat)
    requires NoFailure(script) && AllGranted(grants)
    requires numBytes != 0
    ensures var o := Drain(Initial(stream, script, grants), numBytes);
      && o.Finished?
      && o.rx.received <= stream
      && (|stream| >= numBytes ==> |o.rx.received| >= numBytes)
      && (|stream| < numBytes ==> o.rx.received == stream)
  {
    DrainsToTargetOrEof(Initial(stream, script, grants), numBytes);
    var u := Drain(Initial(stream, script, grants), numBytes).rx;
    assert u.received + u.pending == [] + stream;
    assert u.received <= u.received + u.pending;
  }

  /** Before every recv, fewer than `num_bytes` bytes were in: no call is issued once the target is reached. */
  predicate CallsBelowTarget(chunks: seq<seq<byte>>, numBytes: nat)
  {
    forall i :: 0 <= i < |chunks| ==> |Concat(chunks[..i])| < numBytes
  }

  lemma {:induction false} NoRecvPastTarget(s: Rx, numBytes: nat)
    requires Fits(s) && numBytes != 0
    requires s.received == Concat(s.chunks) && CallsBelowTarget(s.chunks, numBytes)
    ensures Drain(s, numBytes).Finished? ==> CallsBelowTarget(Drain(s, numBytes).rx.chunks, numBytes)
    decreases |s.pending|
  {
    var t := Iteration(s, numBytes);
    if !t.RecvFailed? {
      var u := if t.Continue? then t.next else t.last;
      if u != s {
        assert |s.received| < numBytes;
        assert u.chunks[..|s.chunks|] == s.chunks;
        forall i | 0 <= i < |u.chunks|
          ensures |Concat(u.chunks[..i])| < numBytes
        {
          if i < |s.chunks| {
            assert u.chunks[..i] == s.chunks[..i];
          }
        }
        assert u.received == Concat(u.chunks) by {
          assert u.chunks[..|u.chunks| - 1] == s.chunks;
        }
      }
      if t.Continue? {
        NoRecvPastTarget(u, numBytes);
      }
    }
  }

  /**
   * With `num_bytes == 0`, a loop that ends while the peer still has bytes
   * stopped on a full buffer whose growth was refused: the 0-byte request
   * that follows reads like a closed connection.
   */
  lemma {:induction false} StopsOnlyWhenFull(s: Rx)
    requires Fits(s) && s.capacity >= StepSize && s.capacity % StepSize == 0
    requires NoFailure(s.script)
    ensures var o := Drain(s, 0);
      o.Finished? && o.rx.pending != [] ==>
        && |o.rx.received| >= StepSize && |o.rx.received| % StepSize == 0
        // the buffer is full, or was full when the 0-byte request re-tried realloc
        && (o.rx.capacity == |o.rx.received| || o.rx.capacity == |o.rx.received| + StepSize)
    decreases |s.pending|
  {
    match Iteration(s, 0)
    case Continue(t) =>
      assert NoFailure(t.script);
      StopsOnlyWhenFull(t);
    case Stop(t) =>
    case RecvFailed =>
  }

  /** `receive` does not truncate: asked for 1 byte of a 3-byte stream delivered at once, it returns all 3. */
  lemma NoTruncation()
    ensures Drain(Initial([1, 2, 3], [], []), 1) == Finished(Rx([1, 2, 3], StepSize, [], [], [], [[1, 2, 3]]))
  {
    var s := Initial([1, 2, 3], [], []);
    var u := Rx([1, 2, 3], StepSize, [], [], [], [[1, 2, 3]]);
    var bytes: seq<byte> := [1, 2, 3];
    assert Delivered(bytes, [], StepSize) == 3;
    assert bytes[..3] == bytes && bytes[3..] == [];
    assert Iteration(s, 1) == Continue(u);
    assert Iteration(u, 1) == Stop(u);
  }

  /** The buffer `receive` returns, with the number of valid bytes at its start. */
  datatype Received = Buffer(buf: array<byte>, total: nat) | ReceiveError

  /**
   * `receive(sockfd, num_bytes)`. Each recv asks for exactly the free space
   * `len_rx - total_bytes_rx` at offset `cursor == total_bytes_rx`, which
   * the precondition of `Socket.Recv` turns into "no write past the buffer".
   */
  method Receive(sock: Socket, heap: Heap, numBytes: nat) returns (res: Received)
    modifies sock, heap
    ensures var o := Drain(Initial(old(sock.pending), old(sock.script), old(heap.grants)), numBytes);
      && (res.ReceiveError? <==> o.Errored?)
      && (res.Buffer? ==>
            && fresh(res.buf)
            && res.buf.Length == o.rx.capacity
            && res.total == |o.rx.received|
            && res.buf[..res.total] == o.rx.received
            && sock.pending == o.rx.pending && sock.script == o.rx.script && heap.grants == o.rx.grants)
    ensures res.Buffer? ==>
      && res.total <= res.buf.Length
      && res.buf.Length >= StepSize && res.buf.Length % StepSize == 0
      && res.buf[..res.total] == old(sock.pending)[..res.total]
      && sock.pending == old(sock.pending)[res.total..]
  {
    var cursor: nat := 0;
    var totalBytesRx: nat := 0;
    var lenRx: nat := StepSize;
    var buf := new byte[lenRx];
    var bytesRx: int := 0;
    ghost var chunks: seq<seq<byte>> := [];
    ghost var init := Initial(sock.pending, sock.script, heap.grants);
    assert buf[..totalBytesRx] == [];

    while true
      invariant cursor == totalBytesRx <= lenRx == buf.Length
      invariant fresh(buf)
      invariant Drain(Rx(buf[..totalBytesRx], lenRx, sock.pending, sock.script, heap.grants, chunks), numBytes)
             == Drain(init, numBytes)
      decreases |sock.pending|
    {
      ghost var cur := Rx(buf[..totalBytesRx], lenRx, sock.pending, sock.script, heap.grants, chunks);
      if numBytes != 0 && totalBytesRx >= numBytes {
        DrainStopsAtTarget(cur, numBytes);
        break;
      }

      bytesRx, buf, totalBytesRx, cursor, lenRx := RecvAndGrow(sock, heap, buf, cursor, totalBytesRx, cur);
      DrainAfterRecv(cur, numBytes, bytesRx);
      if bytesRx < 0 {
        break;
      }
      chunks := chunks + [cur.pending[..bytesRx]];
      if bytesRx == 0 {
        break;
      }
    }

    if bytesRx == -1 {
      return ReceiveError;
    }
    res := Buffer(buf, totalBytesRx);
    PrefixOfStream(init, numBytes);
  }

  /**
   * The body of the loop in `receive` after its stop test (lines 22-41):
   * one recv into the free space at the cursor, the counters advanced, and
   * an exactly full buffer offered to realloc for one more step (on refusal
   * the old buffer and length stay). The source also adds a -1 from recv to
   * the counters; nothing reads them after that, so they are left alone.
   */
  method RecvAndGrow(sock: Socket, heap: Heap, buf: array<byte>, cursor: nat, total: nat, ghost cur: Rx)
    returns (bytesRx: int, buf': array<byte>, total': nat, cursor': nat, len': nat)
    requires cursor == total <= buf.Length
    requires cur == Rx(buf[..total], buf.Length, sock.pending, sock.script, heap.grants, cur.chunks)
    modifies sock, heap, buf
    ensures bytesRx == Delivered(cur.pending, cur.script, cur.capacity - total)
    ensures bytesRx >= 0 ==>
      && cursor' == total' == total + bytesRx <= len' == buf'.Length
      && (buf' == buf || fresh(buf'))
      && Rx(buf'[..total'], len', sock.pending, sock.script, heap.grants, cur.chunks + [cur.pending[..bytesRx]])
         == AfterRecv(cur, bytesRx)
  {
    buf', total', cursor', len' := buf, total, cursor, buf.Length;
    ghost var before := buf[..];
    bytesRx := sock.Recv(buf, cursor, len' - total);
    if bytesRx < 0 {
      return;
    }
    ghost var chunk := cur.pending[..bytesRx];
    total' := total + bytesRx;
    cursor' := cursor + bytesRx;
    WrittenAtCursor(before, buf[..], cursor, chunk);
    assert buf[..total'] == cur.received + chunk;

    if total' == len' {
      var newBuf := heap.Realloc(buf, len' + StepSize);
      if newBuf != null {
        assert newBuf[..total'] == buf[..total'] by {
          assert newBuf[..buf.Length] == buf[..];
        }
        buf' := newBuf;
        len' := len' + StepSize;
      }
    }
  }

  lemma WrittenAtCursor(before: seq<byte>, after: seq<byte>, off: nat, chunk: seq<byte>)
    requires off + |chunk| <= |before|
    requires after == before[..off] + chunk + before[off + |chunk|..]
    ensures |after| == |before| && after[..off + |chunk|] == before[..off] + chunk
  {
    assert after[..off + |chunk|] == (before[..off] + chunk + before[off + |chunk|..])[..off + |chunk|];
  }

  lemma PrefixOfStream(init: Rx, numBytes: nat)
    requires init.received == [] && Fits(init)
    ensures var o := Drain(init, numBytes);
      o.Finished? ==> o.rx.received == init.pending[..|o.rx.received|] && o.rx.pending == init.pending[|o.rx.received|..]
  {
    var o := Drain(init, numBytes);
    if o.Finished? {
      assert o.rx.received + o.rx.pending == init.pending;
    }
  }
}
