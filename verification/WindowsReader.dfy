/**
 The read-ahead buffer on Windows (lib/communication/windows/bufferedreader.cpp) and receiving a complete block with
 it (lib/communication/windows/socketnonblocking.cpp). Carried bytes are returned on their own, as a short read, so
 nothing is ever lost.
*/
module WindowsReaders {
  import opened Streams
  import opened ReadAhead

  /** How the signal read ends that follows a read that would have blocked: it completes at once, and since then data
      is there the repeated read delivers a chunk of this wish; it goes on, or it fails. */
  datatype Signal = Completes(wish: nat) | Continues | Fails

  /** The kernel's answers to one call: is an earlier signal read still pending, the read itself, the signal read. */
  datatype Answer = Answer(pending: bool, first: Reply, signal: Signal)

  datatype Received = Received(next: Reader, data: Bytes, ret: int)

  function Deliver(r: Reader, desired: nat, wish: nat): Received {
    var k := Taken(wish, r.unread, desired + BUFFER);
    var d := Min(k, desired);
    Received(Reader(r.unread[d..k], r.unread[k..]), r.unread[..d], d)
  }

  /** One call of recv. */
  function Recv(r: Reader, desired: nat, a: Answer): Received {
    if |r.carry| >= desired then Received(Reader(r.carry[desired..], r.unread), r.carry[..desired], desired)
    else if |r.carry| > 0 then Received(Reader([], r.unread), r.carry, |r.carry|)
    else if a.pending then Received(r, [], -1)
    else
      match a.first
      case Chunk(wish) => Deliver(r, desired, wish)
      case WouldBlock => if a.signal.Completes? then Deliver(r, desired, a.signal.wish) else Received(r, [], -1)
      case Failure => Received(r, [], -1)
  }

  /** A call can be tried again after waiting: a signal read is on its way. */
  predicate Retryable(a: Answer) { a.pending || (a.first.WouldBlock? && a.signal.Continues?) }

  /** Every call is lossless: what it returns continues into carry and unread bytes as the stream did. It returns at
      least one byte, or reports an error, or the stream has ended. */
  lemma Lossless(r: Reader, desired: nat, a: Answer)
    ensures var o := Recv(r, desired, a);
            && o.data + o.next.Stream() == r.Stream()
            && (o.ret == -1 ==> o.data == [] && o.next == r)
            && (o.ret >= 0 ==> o.ret == |o.data| <= desired)
            && o.ret >= -1
            && (desired > 0 && o.ret == 0 ==> r.Stream() == [])
  {
    hide Deliver;
    if |r.carry| >= desired {
      Associative(r.carry[..desired], r.carry[desired..], r.unread);
    } else if |r.carry| == 0 {
      var wish := if a.first.Chunk? then a.first.wish else if a.signal.Completes? then a.signal.wish else 0;
      DeliverLossless(r, desired, wish);
    }
  }

  /** Data that is there is delivered: a call fails exactly when nothing is carried, something is asked for, and a
      signal read is pending, or the read fails, or it would block and the signal read does not complete. What is
      carried is returned alone; otherwise the call returns as many bytes as the read has, up to the request, and keeps
      the others. */
  lemma ReturnsExactly(r: Reader, desired: nat, a: Answer)
    ensures var o := Recv(r, desired, a);
            var read := |r.unread| - |o.next.unread|;
            && (o.ret == -1 <==> r.carry == [] && desired > 0 && Unserved(a))
            && (r.carry != [] || desired == 0 ==> o.ret == Min(|r.carry|, desired) && o.next.unread == r.unread)
            && (r.carry == [] && desired > 0 && !Unserved(a) ==>
                  && o.ret == Min(read, desired) && |o.next.carry| == read - o.ret
                  && read == Taken(WishOf(a), r.unread, desired + BUFFER))
            && (o.ret >= 0 ==> o.ret <= |r.Stream()| && o.data == r.Stream()[..o.ret])
  {
    hide Recv;
    RecvCases(r, desired, a);
  }

  /** The kernel has nothing to deliver to this call. */
  predicate Unserved(a: Answer) {
    a.pending || a.first.Failure? || (a.first.WouldBlock? && !a.signal.Completes?)
  }

  function WishOf(a: Answer): nat {
    if a.first.Chunk? then a.first.wish else if a.signal.Completes? then a.signal.wish else 0
  }

  lemma RecvCases(r: Reader, desired: nat, a: Answer)
    ensures var k := Taken(WishOf(a), r.unread, desired + BUFFER);
            Recv(r, desired, a) ==
            if |r.carry| >= desired then Received(Reader(r.carry[desired..], r.unread), r.carry[..desired], desired)
            else if r.carry != [] then Received(Reader([], r.unread), r.carry, |r.carry|)
            else if Unserved(a) then Received(r, [], -1)
            else
              var d := Min(k, desired);
              Received(Reader(r.unread[d..k], r.unread[k..]), r.unread[..d], d)
  {
  }

  lemma DeliverLossless(r: Reader, desired: nat, wish: nat)
    requires r.carry == []
    ensures var o := Deliver(r, desired, wish);
            && o.data + o.next.Stream() == r.Stream()
            && o.ret == |o.data| <= desired
            && (desired > 0 && o.ret == 0 ==> r.Stream() == [])
  {
    var k := Taken(wish, r.unread, desired + BUFFER);
    var d := Min(k, desired);
    ThreeParts(r.unread, d, k);
    Associative(r.unread[..d], r.unread[d..k], r.unread[k..]);
  }

  function Run(r: Reader, requests: seq<Request<Answer>>): Outcome
    decreases requests
  {
    if requests == [] then Outcome(r, [])
    else
      var o := Recv(r, requests[0].desired, requests[0].answer);
      var rest := Run(o.next, requests[1..]);
      Outcome(rest.reader, o.data + rest.delivered)
  }

  /** Stream refinement: over every sequence of calls with any request sizes and any chunking, the bytes delivered,
      followed by the carry and the unread bytes, are the stream. */
  lemma {:induction false} RunExact(r: Reader, requests: seq<Request<Answer>>)
    ensures Run(r, requests).delivered + Run(r, requests).reader.Stream() == r.Stream()
    decreases requests
  {
    hide Recv;
    if requests != [] {
      var o := Recv(r, requests[0].desired, requests[0].answer);
      var rest := Run(o.next, requests[1..]);
      Lossless(r, requests[0].desired, requests[0].answer);
      RunExact(o.next, requests[1..]);
      Associative(o.data, rest.delivered, rest.reader.Stream());
    }
  }

  /** Receives up to desiredLen bytes to buf[off..] and writes nothing else. */
  method RecvInto(reader: BufferedReader, socket: StreamSocket, buf: array<byte>, off: nat, desiredLen: nat,
                  answer: Answer)
    returns (ret: int)
    requires reader.Valid() && off + desiredLen <= buf.Length && buf != reader.buffer
    modifies reader, reader.buffer, buf, socket`unread
    ensures reader.Valid()
    ensures ret == Recv(old(reader.With(socket)), desiredLen, answer).ret
    ensures reader.With(socket) == Recv(old(reader.With(socket)), desiredLen, answer).next
    ensures Filled(old(buf[..]), buf[..], off, Recv(old(reader.With(socket)), desiredLen, answer).data)
    ensures ret == -1 <==> old(reader.Carry()) == [] && desiredLen > 0 && Unserved(answer)
    ensures ret >= 0 ==>
              && ret <= desiredLen && ret <= |old(reader.With(socket).Stream())|
              && buf[off..off + ret] == old(reader.With(socket).Stream())[..ret]
    ensures old(reader.Carry()) != [] ==> ret == Min(old(|reader.Carry()|), desiredLen)
    ensures old(reader.Carry()) == [] && desiredLen > 0 && !Unserved(answer) ==>
              var read := |old(socket.unread)| - |socket.unread|;
              && ret == Min(read, desiredLen)
              && read == Taken(WishOf(answer), old(socket.unread), desiredLen + BUFFER)
  {
    hide Recv, Filled, Unserved;
    ghost var o := Recv(reader.With(socket), desiredLen, answer);
    ReturnsExactly(reader.With(socket), desiredLen, answer);
    ghost var before := buf[..];
    ret := RecvBytes(reader, socket, buf, off, desiredLen, answer);
    FilledFront(before, buf[..], off, o.data, o.data);
  }

  method RecvBytes(reader: BufferedReader, socket: StreamSocket, buf: array<byte>, off: nat, desiredLen: nat,
                   answer: Answer)
    returns (ret: int)
    requires reader.Valid() && off + desiredLen <= buf.Length && buf != reader.buffer
    modifies reader, reader.buffer, buf, socket`unread
    ensures reader.Valid()
    ensures ret == Recv(old(reader.With(socket)), desiredLen, answer).ret
    ensures reader.With(socket) == Recv(old(reader.With(socket)), desiredLen, answer).next
    ensures Filled(old(buf[..]), buf[..], off, Recv(old(reader.With(socket)), desiredLen, answer).data)
  {
    hide Filled, Taken, Deliver;
    var bytesLeft := reader.fillLevel - reader.alreadyRead;
    ghost var carry := reader.Carry();
    FilledNothing(buf[..], off);
    if bytesLeft >= desiredLen {
      reader.CopyOut(buf, off, desiredLen);
      reader.alreadyRead := reader.alreadyRead + desiredLen;
      return desiredLen;
    } else if bytesLeft > 0 {
      reader.CopyOut(buf, off, bytesLeft);
      assert carry[..bytesLeft] == carry;
      reader.alreadyRead := reader.fillLevel;
      return bytesLeft;
    }
    if answer.pending {
      return -1;
    }
    reader.alreadyRead, reader.fillLevel := 0, 0;
    match answer.first
    case Chunk(_) =>
      ret := ReadChunk(reader, socket, buf, off, desiredLen, answer.first);
    case WouldBlock =>
      if answer.signal.Completes? {
        ret := ReadChunk(reader, socket, buf, off, desiredLen, Chunk(answer.signal.wish));
      } else {
        ret := -1;
      }
    case Failure =>
      ret := -1;
  }

  /** WSARecv with the caller's buffer and the read-ahead buffer, and the bookkeeping for what it delivered. */
  method ReadChunk(reader: BufferedReader, socket: StreamSocket, buf: array<byte>, off: nat, desiredLen: nat,
                   chunk: Reply)
    returns (ret: int)
    requires reader.Valid() && off + desiredLen <= buf.Length && buf != reader.buffer
    requires chunk.Chunk? && reader.alreadyRead == 0
    modifies reader`fillLevel, reader.buffer, buf, socket`unread
    ensures reader.Valid()
    ensures ret == Deliver(Reader([], old(socket.unread)), desiredLen, chunk.wish).ret
    ensures reader.With(socket) == Deliver(Reader([], old(socket.unread)), desiredLen, chunk.wish).next
    ensures Filled(old(buf[..]), buf[..], off, Deliver(Reader([], old(socket.unread)), desiredLen, chunk.wish).data)
  {
    hide Filled, Taken;
    var numberOfBytesRecvd := socket.ReadScattered(chunk, buf, off, desiredLen, reader.buffer);
    if numberOfBytesRecvd > desiredLen {
      reader.fillLevel := numberOfBytesRecvd - desiredLen;
      return desiredLen;
    }
    reader.fillLevel := 0;
    return numberOfBytesRecvd;
  }

  /** One answer set of the kernel, and whether the select that may follow finds the socket readable in time. */
  datatype Turn = Turn(answer: Answer, readable: bool)

  /** The turns from the i-th on; a kernel that says no more has failed. */
  function From(turns: seq<Turn>, i: nat): seq<Turn> { if i < |turns| then turns[i..] else [] }

  const NO_TURN := Turn(Answer(false, Failure, Fails), false)

  function Head(turns: seq<Turn>): Turn { if turns == [] then NO_TURN else turns[0] }

  function Tail(turns: seq<Turn>): seq<Turn> { if turns == [] then [] else turns[1..] }

  lemma RecvShape(r: Reader, desired: nat, a: Answer)
    requires desired > 0
    ensures var o := Recv(r, desired, a);
            && -1 <= o.ret <= desired
            && (o.ret == -1 ==> o.data == [] && o.next == r)
            && (o.ret >= 0 ==> o.ret == |o.data|)
            && (o.ret == 0 ==> o.next.Stream() == [])
  {
    hide Recv;
    Lossless(r, desired, a);
    assert r.Stream() == [] ==> |Recv(r, desired, a).data + Recv(r, desired, a).next.Stream()| == 0;
  }

  /** What the kernel's answers make of receiving the last `left` bytes of a block. */
  function Complete(r: Reader, left: nat, turns: seq<Turn>): Completed
    decreases left, |turns|
  {
    if left == 0 then Completed([], r, Full)
    else
      var t := Head(turns);
      var o := Recv(r, left, t.answer);
      RecvShape(r, left, t.answer);
      if o.ret > 0 then Prepend(o.data, Complete(o.next, left - o.ret, Tail(turns)))
      else if o.ret == 0 then Completed([], o.next, Ended)
      else if Retryable(t.answer) && t.readable && turns != [] then Complete(o.next, left, Tail(turns))
      else Completed([], o.next, Failed)
  }

  /** Nothing is lost, even after a failure: what is delivered continues into what is left. A block is full exactly when
      all its bytes were delivered, and it ends early only at the end of the stream. */
  lemma {:induction false} CompleteExact(r: Reader, left: nat, turns: seq<Turn>)
    ensures var c := Complete(r, left, turns);
            && c.data + c.reader.Stream() == r.Stream()
            && |c.data| <= left && (c.how.Full? <==> |c.data| == left)
            && (c.how.Ended? ==> c.reader.Stream() == [])
    decreases left, |turns|
  {
    hide Recv;
    if left == 0 {
      assert [] + r.Stream() == r.Stream();
    } else {
      var t := Head(turns);
      var o := Recv(r, left, t.answer);
      RecvShape(r, left, t.answer);
      Lossless(r, left, t.answer);
      assert [] + o.next.Stream() == o.next.Stream();
      if o.ret > 0 {
        var c := Complete(o.next, left - o.ret, Tail(turns));
        CompleteExact(o.next, left - o.ret, Tail(turns));
        Associative(o.data, c.data, c.reader.Stream());
      } else if o.ret == -1 && Retryable(t.answer) && t.readable && turns != [] {
        CompleteExact(o.next, left, Tail(turns));
      }
    }
  }

  /** The turn brings data. */
  predicate Serves(t: Turn) { !Unserved(t.answer) }

  /** The loop goes on after this turn: data, or a wait that succeeds for a signal read that is on its way. */
  predicate GoesOn(t: Turn) {
    || Serves(t)
    || (t.readable && (t.answer.pending || (t.answer.first.WouldBlock? && t.answer.signal.Continues?)))
  }

  function Served(turns: seq<Turn>): nat {
    if turns == [] then 0 else (if Serves(turns[0]) then 1 else 0) + Served(turns[1..])
  }

  /** The kernel keeps on delivering, for at least `needed` reads. */
  predicate Supplies(turns: seq<Turn>, needed: nat) {
    (forall i :: 0 <= i < |turns| ==> GoesOn(turns[i])) && Served(turns) >= needed
  }

  /** Then the block ends full or at the end of the stream. */
  lemma {:induction false} DeliveringSucceeds(r: Reader, left: nat, turns: seq<Turn>)
    requires Supplies(turns, left)
    ensures !Complete(r, left, turns).how.Failed?
    decreases |turns|
  {
    hide Recv;
    if left > 0 {
      var t := turns[0];
      var o := Recv(r, left, t.answer);
      RecvShape(r, left, t.answer);
      ReturnsExactly(r, left, t.answer);
      if o.ret > 0 {
        DeliveringSucceeds(o.next, left - o.ret, turns[1..]);
      } else if o.ret == -1 {
        DeliveringSucceeds(o.next, left, turns[1..]);
      }
    }
  }

  ghost predicate StopsAt(turns: seq<Turn>, k: int) {
    0 <= k <= |turns| && (forall i :: 0 <= i < k ==> GoesOn(turns[i])) && (k < |turns| ==> !GoesOn(turns[k]))
  }

  /** A failure has a reason: the kernel's first turn that neither brings data nor ends in a successful wait. */
  lemma {:induction false} FailureHasReason(r: Reader, left: nat, turns: seq<Turn>)
    requires Complete(r, left, turns).how.Failed?
    ensures exists k :: StopsAt(turns, k)
    decreases |turns|
  {
    hide Recv, Complete, GoesOn;
    if turns == [] || !GoesOn(turns[0]) {
      assert StopsAt(turns, 0);
    } else {
      FailsLater(r, left, turns);
      var o := Recv(r, left, turns[0].answer);
      FailureHasReason(o.next, if o.ret > 0 then left - o.ret else left, turns[1..]);
      var k :| StopsAt(turns[1..], k);
      assert forall i :: 0 < i < k + 1 ==> turns[i] == turns[1..][i - 1];
      assert StopsAt(turns, k + 1);
    }
  }

  lemma FailsLater(r: Reader, left: nat, turns: seq<Turn>)
    requires turns != [] && GoesOn(turns[0]) && Complete(r, left, turns).how.Failed?
    ensures left > 0 && Recv(r, left, turns[0].answer).ret != 0
    ensures var o := Recv(r, left, turns[0].answer);
            o.ret <= left && Complete(o.next, if o.ret > 0 then left - o.ret else left, turns[1..]).how.Failed?
  {
    hide Recv;
    if left > 0 {
      RecvShape(r, left, turns[0].answer);
      ReturnsExactly(r, left, turns[0].answer);
    }
  }

  /** And with that turn, unless something is carried, the call fails at once. */
  lemma FailsAtOnce(r: Reader, left: nat, turns: seq<Turn>)
    requires r.carry == [] && left > 0 && (turns == [] || !GoesOn(turns[0]))
    ensures Complete(r, left, turns) == Completed([], r, Failed)
  {
    hide Recv;
    RecvShape(r, left, Head(turns).answer);
    ReturnsExactly(r, left, Head(turns).answer);
  }

  /** One recv within receiveComplete: the block grows by what is returned, if anything. */
  method ReceiveMore(reader: BufferedReader, socket: StreamSocket, block: array<byte>, len: nat, dataToGet: nat,
                     answer: Answer)
    returns (numBytes: int)
    requires reader.Valid() && 0 < dataToGet <= len <= block.Length && block != reader.buffer
    modifies reader, reader.buffer, block, socket`unread
    ensures reader.Valid() && -1 <= numBytes <= dataToGet
    ensures numBytes == Recv(old(reader.With(socket)), dataToGet, answer).ret
    ensures reader.With(socket) == Recv(old(reader.With(socket)), dataToGet, answer).next
    ensures block[..][len..] == old(block[..])[len..]
    ensures block[..][..len - dataToGet + if numBytes < 0 then 0 else numBytes] ==
            old(block[..])[..len - dataToGet] + Recv(old(reader.With(socket)), dataToGet, answer).data
  {
    hide Filled, Recv;
    ghost var now, before, got := reader.With(socket), block[..], len - dataToGet;
    ghost var o := Recv(now, dataToGet, answer);
    RecvShape(now, dataToGet, answer);
    numBytes := RecvInto(reader, socket, block, len - dataToGet, dataToGet, answer);
    FilledPrefix(before, block[..], got, o.data, o.data, len);
  }

  /** What is received so far, and what the answers that follow make of the rest, is the whole. */
  ghost predicate Continuing(start: Reader, len: nat, turns: seq<Turn>, got: Bytes, now: Reader, i: nat) {
    |got| <= len && Complete(start, len, turns) == Prepend(got, Complete(now, len - |got|, From(turns, i)))
  }

  lemma ContinuingStart(start: Reader, len: nat, turns: seq<Turn>)
    ensures Continuing(start, len, turns, [], start, 0)
  {
    hide Complete;
    FromStart(turns);
    PrependTwice([], [], Complete(start, len, turns));
  }

  lemma FromStart(turns: seq<Turn>)
    ensures From(turns, 0) == turns
  {
  }

  lemma CompleteOnce(r: Reader, left: nat, turns: seq<Turn>)
    requires left > 0
    ensures var t := Head(turns);
            var o := Recv(r, left, t.answer);
            && -1 <= o.ret <= left && (o.ret >= 0 ==> o.ret == |o.data|) && (o.ret == -1 ==> o.data == [])
            && Complete(r, left, turns) ==
               if o.ret > 0 then Prepend(o.data, Complete(o.next, left - o.ret, Tail(turns)))
               else if o.ret == 0 then Completed([], o.next, Ended)
               else if Retryable(t.answer) && t.readable then Complete(o.next, left, Tail(turns))
               else Completed([], o.next, Failed)
  {
    hide Recv;
    RecvShape(r, left, Head(turns).answer);
  }

  lemma HeadTail(turns: seq<Turn>, i: nat)
    ensures Head(From(turns, i)) == (if i < |turns| then turns[i] else NO_TURN)
    ensures Tail(From(turns, i)) == From(turns, i + 1)
    ensures i >= |turns| ==> !Retryable(Head(From(turns, i)).answer)
  {
  }

  /** One round of the loop. */
  lemma ContinuingStep(start: Reader, len: nat, turns: seq<Turn>, got: Bytes, now: Reader, i: nat)
    requires Continuing(start, len, turns, got, now, i) && |got| < len
    ensures var t := if i < |turns| then turns[i] else NO_TURN;
            var o := Recv(now, len - |got|, t.answer);
            var again := o.ret == -1 && Retryable(t.answer) && t.readable;
            && (o.ret > 0 || again ==> Continuing(start, len, turns, got + o.data, o.next, i + 1))
            && (again ==> i < |turns|)
            && (o.ret == 0 ==> Complete(start, len, turns) == Completed(got, o.next, Ended))
            && (o.ret == -1 && !again ==> Complete(start, len, turns) == Completed(got, o.next, Failed))
  {
    hide Recv, Complete, Retryable, From, Head, Tail;
    var left, rest := len - |got|, From(turns, i);
    HeadTail(turns, i);
    CompleteOnce(now, left, rest);
    var o := Recv(now, left, Head(rest).answer);
    assert got + [] == got;
    if o.ret > 0 {
      PrependTwice(got, o.data, Complete(o.next, left - o.ret, Tail(rest)));
    }
  }

  lemma ContinuingFull(start: Reader, len: nat, turns: seq<Turn>, got: Bytes, now: Reader, i: nat)
    requires Continuing(start, len, turns, got, now, i) && |got| == len
    ensures Complete(start, len, turns) == Completed(got, now, Full)
  {
    assert got + [] == got;
  }

  /** Receives until the block is full, the stream ends or something fails. `got` counts the bytes delivered even when
      the call fails. The kernel's answers decide all of it. */
  method ReceiveComplete(reader: BufferedReader, socket: StreamSocket, block: array<byte>, len: nat, turns: seq<Turn>)
    returns (ret: int, ghost got: nat)
    requires reader.Valid() && len <= block.Length && block != reader.buffer
    modifies reader, reader.buffer, block, socket`unread
    ensures reader.Valid() && got <= len
    ensures Complete(old(reader.With(socket)), len, turns).data == block[..][..got]
    ensures Complete(old(reader.With(socket)), len, turns).reader == reader.With(socket)
    ensures ret >= 0 ==> ret == got
    ensures ret == if Complete(old(reader.With(socket)), len, turns).how.Failed? then -1 else got
    ensures Supplies(turns, len) ==> ret == got
    ensures block[..][..got] + reader.With(socket).Stream() == old(reader.With(socket).Stream())
    ensures 0 <= ret < len ==> reader.With(socket).Stream() == []
    ensures block[..][len..] == old(block[..])[len..]
  {
    hide Continuing, Complete, Recv, From, Filled, Supplies;
    if Supplies(turns, len) {
      DeliveringSucceeds(reader.With(socket), len, turns);
    }
    ghost var start := reader.With(socket);
    ghost var now := start;
    CompleteExact(start, len, turns);
    ContinuingStart(start, len, turns);
    var dataToGet := len;
    var i := 0;
    while dataToGet > 0
      invariant 0 <= dataToGet <= len && 0 <= i && reader.Valid() && now == reader.With(socket)
      invariant Continuing(start, len, turns, block[..][..len - dataToGet], now, i)
      invariant block[..][len..] == old(block[..])[len..]
      decreases dataToGet, |turns| - i
    {
      var turn := if i < |turns| then turns[i] else NO_TURN;
      ContinuingStep(start, len, turns, block[..][..len - dataToGet], now, i);
      RecvShape(now, dataToGet, turn.answer);
      i := i + 1;
      ret := ReceiveMore(reader, socket, block, len, dataToGet, turn.answer);
      now := reader.With(socket);
      got := len - dataToGet;
      if ret > 0 {
        dataToGet := dataToGet - ret;
      } else {
        assert block[..][..got] + [] == block[..][..got];
        if ret == 0 {
          return len - dataToGet, got;
        } else if Retryable(turn.answer) {
          if !turn.readable {
            return -1, got;
          }
        } else {
          return -1, got;
        }
      }
    }
    ContinuingFull(start, len, turns, block[..][..len], now, i);
    return len, len;
  }
}
