/**
 The read-ahead buffer on Linux (lib/communication/linux/bufferedreader.cpp) and receiving a complete block with it
 (lib/communication/linux/socketnonblocking.cpp). The refill path does not count the bytes carried over from the
 last read, so it loses exactly as many bytes as were carried.
*/
module LinuxReaders {
  import opened Streams
  import opened ReadAhead

  datatype Received = Received(next: Reader, data: Bytes, ret: int)

  /** One call of recv. On the refill path the caller's buffer and the read-ahead buffer hold carry followed by the
      k bytes read, but only the first k bytes of that are ever handed out. */
  function Recv(r: Reader, desired: nat, reply: Reply): Received {
    if |r.carry| >= desired then Received(Reader(r.carry[desired..], r.unread), r.carry[..desired], desired)
    else if !reply.Chunk? then Received(Reader([], r.unread), [], -1)
    else
      var k := Taken(reply.wish, r.unread, desired - |r.carry| + BUFFER);
      var all := r.carry + r.unread[..k];
      var d := Min(k, desired);
      Received(Reader(all[d..k], r.unread[k..]), all[..d], d)
  }

  /** The carry is empty or serves the whole request. */
  predicate Sound(r: Reader, desired: nat) { r.carry == [] || |r.carry| >= desired }

  /** What recv leaves neither reported nor kept. */
  function Dropped(r: Reader, desired: nat, reply: Reply): Bytes {
    if |r.carry| >= desired then []
    else if !reply.Chunk? then r.carry
    else
      var k := Taken(reply.wish, r.unread, desired - |r.carry| + BUFFER);
      (r.carry + r.unread[..k])[k..]
  }

  /** Exact accounting: reported, kept and dropped bytes are, in this order, the carry and the bytes newly read;
      exactly as many bytes are dropped as were carried into a refill; nothing is invented or reordered. */
  lemma Accounting(r: Reader, desired: nat, reply: Reply)
    ensures var o := Recv(r, desired, reply);
            var read := |r.unread| - |o.next.unread|;
            && 0 <= read
            && o.next.unread == r.unread[read..]
            && o.data + o.next.carry + Dropped(r, desired, reply) == r.carry + r.unread[..read]
            && |Dropped(r, desired, reply)| == (if |r.carry| >= desired then 0 else |r.carry|)
            && (o.ret == |o.data| || (o.ret == -1 && o.data == []))
            && o.ret <= desired
            && |o.next.carry| <= (if |r.carry| >= desired then |r.carry| else BUFFER)
  {
    if |r.carry| >= desired {
      ThreeParts(r.carry, desired, |r.carry|);
    } else if reply.Chunk? {
      var k := Taken(reply.wish, r.unread, desired - |r.carry| + BUFFER);
      ThreeParts(r.carry + r.unread[..k], Min(k, desired), k);
    }
  }

  /** Data that is there is delivered: a call fails exactly when the carry does not serve it and the read fails or would
      block; otherwise it returns as many bytes as the carry or the read has, up to the request, and they are the next
      bytes of carry and stream. */
  lemma ReturnsExactly(r: Reader, desired: nat, reply: Reply)
    ensures var o := Recv(r, desired, reply);
            var read := |r.unread| - |o.next.unread|;
            && (o.ret == -1 <==> |r.carry| < desired && !reply.Chunk?)
            && (|r.carry| >= desired ==> o.ret == desired && o.next.unread == r.unread)
            && (|r.carry| < desired && reply.Chunk? ==>
                  && o.ret == Min(read, desired)
                  && read == Taken(reply.wish, r.unread, desired - |r.carry| + BUFFER))
            && (o.ret >= 0 ==> o.ret <= |r.Stream()| && o.data == r.Stream()[..o.ret])
  {
    if |r.carry| < desired && reply.Chunk? {
      var k := Taken(reply.wish, r.unread, desired - |r.carry| + BUFFER);
      assert (r.carry + r.unread[..k])[..Min(k, desired)] == (r.carry + r.unread)[..Min(k, desired)];
    }
  }

  /** "Behaves like standard recv": a call is lossless if and only if the carry is empty or serves the request. */
  lemma LosslessIff(r: Reader, desired: nat, reply: Reply)
    ensures Recv(r, desired, reply).data + Recv(r, desired, reply).next.Stream() == r.Stream() <==> Sound(r, desired)
  {
    hide Recv, Dropped;
    var o, lost := Recv(r, desired, reply), Dropped(r, desired, reply);
    Accounting(r, desired, reply);
    Regroup(o.data, o.next.carry, lost, o.next.unread, r);
  }

  /** Without the dropped bytes the rest makes up the stream exactly when none were dropped. */
  lemma Regroup(data: Bytes, carry: Bytes, lost: Bytes, unread: Bytes, r: Reader)
    requires |unread| <= |r.unread| && unread == r.unread[|r.unread| - |unread|..]
    requires data + carry + lost == r.carry + r.unread[..|r.unread| - |unread|]
    ensures data + (carry + unread) == r.Stream() <==> lost == []
  {
    var read := |r.unread| - |unread|;
    assert |data| + |carry| + |lost| == |r.carry| + read;
    if lost == [] {
      assert data + (carry + unread) == (data + carry + lost) + unread;
      assert r.carry + r.unread == r.carry + r.unread[..read] + r.unread[read..];
    }
  }

  /** A run of calls: all bytes they delivered, and the reader afterwards. */
  function Run(r: Reader, requests: seq<Request<Reply>>): Outcome
    decreases requests
  {
    if requests == [] then Outcome(r, [])
    else
      var o := Recv(r, requests[0].desired, requests[0].answer);
      var rest := Run(o.next, requests[1..]);
      Outcome(rest.reader, o.data + rest.delivered)
  }

  ghost predicate AllSound(r: Reader, requests: seq<Request<Reply>>)
    decreases requests
  {
    requests == [] ||
    (Sound(r, requests[0].desired) &&
      AllSound(Recv(r, requests[0].desired, requests[0].answer).next, requests[1..]))
  }

  lemma {:induction false} RunNeverGrows(r: Reader, requests: seq<Request<Reply>>)
    ensures |Run(r, requests).delivered| + |Run(r, requests).reader.Stream()| <= |r.Stream()|
    decreases requests
  {
    if requests != [] {
      Accounting(r, requests[0].desired, requests[0].answer);
      RunNeverGrows(Recv(r, requests[0].desired, requests[0].answer).next, requests[1..]);
    }
  }

  lemma CancelFront(front: Bytes, a: Bytes, b: Bytes)
    ensures front + a == front + b <==> a == b
  {
    if front + a == front + b {
      assert a == (front + a)[|front|..] && b == (front + b)[|front|..];
    }
  }

  /** Over any run: the bytes delivered continue into what is left exactly as the stream did, if and only if every
      request found the carry empty or long enough. */
  lemma {:induction false} RunExactIff(r: Reader, requests: seq<Request<Reply>>)
    ensures Run(r, requests).delivered + Run(r, requests).reader.Stream() == r.Stream() <==> AllSound(r, requests)
    decreases requests
  {
    hide Recv, Sound, Dropped;
    if requests == [] {
      assert [] + r.Stream() == r.Stream();
    } else {
      var o := Recv(r, requests[0].desired, requests[0].answer);
      var rest := Run(o.next, requests[1..]);
      var left := rest.delivered + rest.reader.Stream();
      RunExactIff(o.next, requests[1..]);
      Associative(o.data, rest.delivered, rest.reader.Stream());
      LosslessIff(r, requests[0].desired, requests[0].answer);
      if Sound(r, requests[0].desired) {
        CancelFront(o.data, left, o.next.Stream());
      } else {
        LosesBytes(r, requests[0].desired, requests[0].answer);
        RunNeverGrows(o.next, requests[1..]);
        assert |o.data + left| == |o.data| + |left|;
      }
    }
  }

  lemma LosesBytes(r: Reader, desired: nat, reply: Reply)
    requires !Sound(r, desired)
    ensures var o := Recv(r, desired, reply); |o.data| + |o.next.Stream()| < |r.Stream()|
  {
    hide Recv, Dropped;
    Accounting(r, desired, reply);
    var o := Recv(r, desired, reply);
    assert |o.data + o.next.carry + Dropped(r, desired, reply)| == |r.carry| + |r.unread| - |o.next.unread|;
  }

  /** Requests of at most one byte never lose anything. */
  lemma {:induction false} SingleBytesExact(r: Reader, requests: seq<Request<Reply>>)
    requires forall i :: 0 <= i < |requests| ==> requests[i].desired <= 1
    ensures Run(r, requests).delivered + Run(r, requests).reader.Stream() == r.Stream()
  {
    SingleBytesSound(r, requests);
    RunExactIff(r, requests);
  }

  lemma {:induction false} SingleBytesSound(r: Reader, requests: seq<Request<Reply>>)
    requires forall i :: 0 <= i < |requests| ==> requests[i].desired <= 1
    ensures AllSound(r, requests)
    decreases requests
  {
    if requests != [] {
      SingleBytesSound(Recv(r, requests[0].desired, requests[0].answer).next, requests[1..]);
    }
  }

  /** Receives up to desiredLen bytes to buf[off..]; `reply` is the kernel's answer should it be asked. The bytes
      reported lie at off; behind them, up to desiredLen, bytes may have been overwritten that are not reported. */
  method RecvInto(reader: BufferedReader, socket: StreamSocket, buf: array<byte>, off: nat, desiredLen: nat,
                  reply: Reply)
    returns (ret: int, ghost filled: Bytes)
    requires reader.Valid() && off + desiredLen <= buf.Length && buf != reader.buffer
    modifies reader, reader.buffer, buf, socket`unread
    ensures reader.Valid()
    ensures ret == Recv(old(reader.With(socket)), desiredLen, reply).ret
    ensures reader.With(socket) == Recv(old(reader.With(socket)), desiredLen, reply).next
    ensures Recv(old(reader.With(socket)), desiredLen, reply).data <= filled
    ensures |filled| <= desiredLen && Filled(old(buf[..]), buf[..], off, filled)
    ensures ret == -1 <==> old(|reader.Carry()|) < desiredLen && !reply.Chunk?
    ensures ret >= 0 ==>
              && ret <= desiredLen && ret <= |old(reader.With(socket).Stream())|
              && buf[off..off + ret] == old(reader.With(socket).Stream())[..ret]
    ensures old(|reader.Carry()|) < desiredLen && reply.Chunk? ==>
              var read := |old(socket.unread)| - |socket.unread|;
              && ret == Min(read, desiredLen)
              && read == Taken(reply.wish, old(socket.unread), desiredLen - old(|reader.Carry()|) + BUFFER)
  {
    hide Recv, Taken, Filled;
    var bytesLeft := reader.fillLevel - reader.alreadyRead;
    ghost var before, carry, unread := buf[..], reader.Carry(), socket.unread;
    ghost var o := Recv(reader.With(socket), desiredLen, reply);
    ReturnsExactly(reader.With(socket), desiredLen, reply);
    FilledNothing(before, off);
    if bytesLeft >= desiredLen {
      RecvFast(carry, unread, desiredLen, reply);
      filled := carry[..desiredLen];
      reader.CopyOut(buf, off, desiredLen);
      reader.alreadyRead := reader.alreadyRead + desiredLen;
      FilledFront(before, buf[..], off, filled, o.data);
      return desiredLen, filled;
    } else if bytesLeft > 0 {
      reader.CopyOut(buf, off, bytesLeft);
    }
    assert carry[..bytesLeft] == carry;
    ret, filled := Refill(reader, before, carry, socket, buf, off, desiredLen, reply);
    FilledFront(before, buf[..], off, filled, o.data);
  }

  /** Reads behind the carried bytes, which are copied already, and on into the read-ahead buffer. */
  method Refill(reader: BufferedReader, ghost before: Bytes, ghost carry: Bytes, socket: StreamSocket,
                buf: array<byte>, off: nat, desiredLen: nat, reply: Reply)
    returns (ret: int, ghost filled: Bytes)
    requires reader.Valid() && off + desiredLen <= buf.Length && buf != reader.buffer
    requires |carry| == reader.fillLevel - reader.alreadyRead < desiredLen && Filled(before, buf[..], off, carry)
    modifies reader, reader.buffer, buf, socket`unread
    ensures reader.Valid()
    ensures ret == Recv(Reader(carry, old(socket.unread)), desiredLen, reply).ret
    ensures reader.With(socket) == Recv(Reader(carry, old(socket.unread)), desiredLen, reply).next
    ensures Recv(Reader(carry, old(socket.unread)), desiredLen, reply).data <= filled
    ensures |filled| <= desiredLen && Filled(before, buf[..], off, filled)
  {
    hide Recv, Taken, Filled;
    ghost var copied, unread := buf[..], socket.unread;
    var bytesLeft := reader.fillLevel - reader.alreadyRead;
    ret := socket.ReadScattered(reply, buf, off + bytesLeft, desiredLen - bytesLeft, reader.buffer);
    ghost var arrived := if reply.Chunk? then unread[..Min(ret, desiredLen - bytesLeft)] else [];
    FilledTwice(before, copied, buf[..], off, carry, arrived);
    RefillResult(carry, unread, desiredLen, reply, ret);
    filled := carry + arrived;
    reader.alreadyRead := 0;
    if ret > desiredLen {
      reader.fillLevel := ret - desiredLen;
      assert reader.Carry() == reader.buffer[..ret - |arrived|][..ret - desiredLen];
      return desiredLen, filled;
    }
    reader.fillLevel := 0;
  }

  lemma RecvFast(carry: Bytes, unread: Bytes, desired: nat, reply: Reply)
    requires |carry| >= desired
    ensures Recv(Reader(carry, unread), desired, reply) ==
            Received(Reader(carry[desired..], unread), carry[..desired], desired)
  {
  }

  /** What the caller's buffer then holds starts with what recv reports, and the rest of the chunk is kept. */
  lemma RefillResult(carry: Bytes, unread: Bytes, desired: nat, reply: Reply, ret: int)
    requires |carry| < desired
    requires ret == if reply.Chunk? then Taken(reply.wish, unread, desired - |carry| + BUFFER) else -1
    ensures var o := Recv(Reader(carry, unread), desired, reply);
            var first := if ret >= 0 then Min(ret, desired - |carry|) else 0;
            && o.data <= carry + unread[..first]
            && (ret > desired ==>
                  o.ret == desired && o.next == Reader(unread[first..ret][..ret - desired], unread[ret..]))
            && (0 <= ret <= desired ==> o.ret == ret && o.next == Reader([], unread[ret..]))
            && (ret < 0 ==> o.ret == -1 && o.next == Reader([], unread))
  {
    if ret > desired {
      Overfull(carry, unread, desired, ret);
    } else if ret >= 0 {
      Underfull(carry, unread, desired, ret);
    }
  }

  /** More was read than fits the request: the rest is kept, short of as many bytes as were carried. */
  lemma Overfull(carry: Bytes, unread: Bytes, desired: nat, k: nat)
    requires |carry| < desired < k <= |unread|
    ensures (carry + unread[..k])[..desired] == carry + unread[..desired - |carry|]
    ensures (carry + unread[..k])[desired..k] == unread[desired - |carry|..k][..k - desired]
  {
  }

  lemma Underfull(carry: Bytes, unread: Bytes, desired: nat, k: nat)
    requires |carry| < desired && k <= desired && k <= |unread|
    ensures (carry + unread[..k])[..k] == (carry + unread[..Min(k, desired - |carry|)])[..k]
  {
  }

  // ---- Receiving a complete block ------------------------------------------------------------------------

  /** One answer of the kernel, and whether a poll that follows finds the socket readable in time. */
  datatype Answer = Answer(reply: Reply, readable: bool)

  lemma RecvShape(r: Reader, desired: nat, reply: Reply)
    requires desired > 0
    ensures var o := Recv(r, desired, reply);
            && -1 <= o.ret <= desired
            && (o.ret == -1 ==> o.data == [] && o.next == Reader([], r.unread))
            && (o.ret >= 0 ==> o.ret == |o.data|)
            && (o.ret == 0 ==> r.unread == [] && o.next == Reader([], []))
            && (o.ret < desired ==> o.next.carry == [])
  {
  }

  /** The answers from the i-th on; a kernel that says no more has failed. */
  function From(answers: seq<Answer>, i: nat): seq<Answer> { if i < |answers| then answers[i..] else [] }

  function Head(answers: seq<Answer>): Answer { if answers == [] then Answer(Failure, false) else answers[0] }

  function Tail(answers: seq<Answer>): seq<Answer> { if answers == [] then [] else answers[1..] }

  /** What the kernel's answers make of receiving the last `left` bytes of a block: a read that delivers goes on with
      the rest, an empty one ends it, one that would block is repeated when the poll says so, anything else fails. */
  function Complete(r: Reader, left: nat, answers: seq<Answer>): Completed
    decreases left, |answers|
  {
    if left == 0 then Completed([], r, Full)
    else
      var a := Head(answers);
      var o := Recv(r, left, a.reply);
      RecvShape(r, left, a.reply);
      if o.ret > 0 then Prepend(o.data, Complete(o.next, left - o.ret, Tail(answers)))
      else if o.ret == 0 then Completed([], o.next, Ended)
      else if a.reply.WouldBlock? && a.readable then Complete(o.next, left, Tail(answers))
      else Completed([], o.next, Failed)
  }

  /** With nothing carried a block is received without loss, however the kernel cuts the stream up. */
  lemma {:induction false} CompleteWithoutCarry(r: Reader, left: nat, answers: seq<Answer>)
    requires r.carry == []
    ensures var c := Complete(r, left, answers); c.data + c.reader.Stream() == r.Stream()
    decreases left, |answers|
  {
    hide Recv;
    if left > 0 {
      var a := Head(answers);
      var o := Recv(r, left, a.reply);
      RecvShape(r, left, a.reply);
      LosslessIff(r, left, a.reply);
      if 0 < o.ret < left {
        CompleteWithoutCarry(o.next, left - o.ret, Tail(answers));
        var c := Complete(o.next, left - o.ret, Tail(answers));
        Associative(o.data, c.data, c.reader.Stream());
      } else if o.ret == left {
        assert o.data + [] == o.data;
      } else if o.ret == -1 && a.reply.WouldBlock? && a.readable {
        CompleteWithoutCarry(o.next, left, Tail(answers));
        assert [] + o.next.Stream() == o.next.Stream();
      }
    }
  }

  /** Of the first call alone it depends whether something is lost: what follows finds no carry. */
  lemma CompleteAfterFirst(r: Reader, left: nat, answers: seq<Answer>)
    requires left > 0
    ensures var o := Recv(r, left, Head(answers).reply);
            var c := Complete(r, left, answers);
            o.data + o.next.Stream() == c.data + c.reader.Stream()
  {
    hide Recv;
    var a := Head(answers);
    var o := Recv(r, left, a.reply);
    RecvShape(r, left, a.reply);
    if 0 < o.ret < left {
      CompleteWithoutCarry(o.next, left - o.ret, Tail(answers));
      var c := Complete(o.next, left - o.ret, Tail(answers));
      Associative(o.data, c.data, c.reader.Stream());
    } else if o.ret == left {
      assert o.data + [] == o.data;
    } else if o.ret == -1 && a.reply.WouldBlock? && a.readable {
      CompleteWithoutCarry(o.next, left, Tail(answers));
      assert [] + o.next.Stream() == o.next.Stream();
    }
  }

  /** A block is received without loss if and only if the carry was empty or served the whole block; otherwise exactly
      as many bytes are lost as were carried. */
  lemma CompleteExactIff(r: Reader, size: nat, answers: seq<Answer>)
    ensures var c := Complete(r, size, answers);
            && (Sound(r, size) <==> c.data + c.reader.Stream() == r.Stream())
            && (!Sound(r, size) ==> |c.data| + |c.reader.carry| + |c.reader.unread| == |r.unread|)
  {
    hide Recv, Dropped;
    if size == 0 {
      assert [] + r.Stream() == r.Stream();
    } else {
      var o := Recv(r, size, Head(answers).reply);
      CompleteAfterFirst(r, size, answers);
      LosslessIff(r, size, Head(answers).reply);
      Accounting(r, size, Head(answers).reply);
      Lengths(r, o, Complete(r, size, answers), Dropped(r, size, Head(answers).reply));
    }
  }

  lemma Lengths(r: Reader, o: Received, c: Completed, lost: Bytes)
    requires o.data + o.next.Stream() == c.data + c.reader.Stream() && |o.next.unread| <= |r.unread|
    requires o.data + o.next.carry + lost == r.carry + r.unread[..|r.unread| - |o.next.unread|]
    ensures |c.data| + |c.reader.carry| + |c.reader.unread| + |lost| == |r.carry| + |r.unread|
  {
    assert |o.data + o.next.Stream()| == |c.data + c.reader.Stream()|;
    assert |o.data + o.next.carry + lost| == |r.carry| + |r.unread| - |o.next.unread|;
  }

  /** A block is full exactly when all its bytes were delivered; it ends early only at the end of the stream. */
  lemma {:induction false} CompleteShape(r: Reader, left: nat, answers: seq<Answer>)
    ensures var c := Complete(r, left, answers);
            && |c.data| <= left && (c.how.Full? <==> |c.data| == left)
            && (c.how.Ended? ==> c.reader.Stream() == [])
    decreases left, |answers|
  {
    hide Recv;
    if left > 0 {
      var a := Head(answers);
      var o := Recv(r, left, a.reply);
      RecvShape(r, left, a.reply);
      if o.ret > 0 {
        CompleteShape(o.next, left - o.ret, Tail(answers));
      } else if o.ret == -1 && a.reply.WouldBlock? && a.readable {
        CompleteShape(o.next, left, Tail(answers));
      }
    }
  }

  /** The loop goes on after this answer: data, or a wait that succeeds. */
  predicate GoesOn(a: Answer) { a.reply.Chunk? || (a.reply.WouldBlock? && a.readable) }

  function Chunks(answers: seq<Answer>): nat {
    if answers == [] then 0 else (if answers[0].reply.Chunk? then 1 else 0) + Chunks(answers[1..])
  }

  /** The kernel keeps on delivering, for at least `needed` reads. */
  predicate Supplies(answers: seq<Answer>, needed: nat) {
    (forall i :: 0 <= i < |answers| ==> GoesOn(answers[i])) && Chunks(answers) >= needed
  }

  /** Then the block ends full or at the end of the stream. */
  lemma {:induction false} DeliveringSucceeds(r: Reader, left: nat, answers: seq<Answer>)
    requires Supplies(answers, left)
    ensures !Complete(r, left, answers).how.Failed?
    decreases |answers|
  {
    hide Recv;
    if left > 0 {
      var a := answers[0];
      var o := Recv(r, left, a.reply);
      RecvShape(r, left, a.reply);
      ReturnsExactly(r, left, a.reply);
      if o.ret > 0 {
        DeliveringSucceeds(o.next, left - o.ret, answers[1..]);
      } else if o.ret == -1 {
        DeliveringSucceeds(o.next, left, answers[1..]);
      }
    }
  }

  ghost predicate StopsAt(answers: seq<Answer>, k: int) {
    0 <= k <= |answers| && (forall i :: 0 <= i < k ==> GoesOn(answers[i])) && (k < |answers| ==> !GoesOn(answers[k]))
  }

  /** A failure has a reason: the kernel's first answer that is neither data nor followed by a successful wait. */
  lemma {:induction false} FailureHasReason(r: Reader, left: nat, answers: seq<Answer>)
    requires Complete(r, left, answers).how.Failed?
    ensures exists k :: StopsAt(answers, k)
    decreases |answers|
  {
    hide Recv, Complete;
    if answers == [] || !GoesOn(answers[0]) {
      assert StopsAt(answers, 0);
    } else {
      FailsLater(r, left, answers);
      var a := answers[0];
      var o := Recv(r, left, a.reply);
      FailureHasReason(o.next, if o.ret > 0 then left - o.ret else left, answers[1..]);
      var k :| StopsAt(answers[1..], k);
      assert forall i :: 0 < i < k + 1 ==> answers[i] == answers[1..][i - 1];
      assert StopsAt(answers, k + 1);
    }
  }

  lemma FailsLater(r: Reader, left: nat, answers: seq<Answer>)
    requires answers != [] && GoesOn(answers[0]) && Complete(r, left, answers).how.Failed?
    ensures left > 0 && Recv(r, left, answers[0].reply).ret != 0
    ensures var o := Recv(r, left, answers[0].reply);
            o.ret <= left && Complete(o.next, if o.ret > 0 then left - o.ret else left, answers[1..]).how.Failed?
  {
    hide Recv;
    if left > 0 {
      RecvShape(r, left, answers[0].reply);
      ReturnsExactly(r, left, answers[0].reply);
    }
  }

  /** And with that answer, unless the carry is enough, the call fails at once. */
  lemma FailsAtOnce(r: Reader, left: nat, answers: seq<Answer>)
    requires |r.carry| < left && (answers == [] || !GoesOn(answers[0]))
    ensures Complete(r, left, answers) == Completed([], Reader([], r.unread), Failed)
  {
  }

  /** One recv within receiveComplete: the block grows by what is returned, if anything. */
  method ReceiveMore(reader: BufferedReader, socket: StreamSocket, block: array<byte>, size: nat, sizeLeft: nat,
                     reply: Reply)
    returns (ret: int)
    requires reader.Valid() && 0 < sizeLeft <= size <= block.Length && block != reader.buffer
    modifies reader, reader.buffer, block, socket`unread
    ensures reader.Valid() && -1 <= ret <= sizeLeft
    ensures ret == Recv(old(reader.With(socket)), sizeLeft, reply).ret
    ensures reader.With(socket) == Recv(old(reader.With(socket)), sizeLeft, reply).next
    ensures block[..][size..] == old(block[..])[size..]
    ensures block[..][..size - sizeLeft + if ret < 0 then 0 else ret] ==
            old(block[..])[..size - sizeLeft] + Recv(old(reader.With(socket)), sizeLeft, reply).data
  {
    hide Recv, Filled;
    ghost var now, before, pos := reader.With(socket), block[..], size - sizeLeft;
    ghost var o := Recv(now, sizeLeft, reply);
    ghost var filled: Bytes;
    RecvShape(now, sizeLeft, reply);
    ret, filled := RecvInto(reader, socket, block, size - sizeLeft, sizeLeft, reply);
    FilledPrefix(before, block[..], pos, filled, o.data, size);
  }

  /** What is received so far, and what the answers that follow make of the rest, is the whole. */
  ghost predicate Continues(start: Reader, size: nat, answers: seq<Answer>, got: Bytes, now: Reader, i: nat) {
    |got| <= size && Complete(start, size, answers) == Prepend(got, Complete(now, size - |got|, From(answers, i)))
  }

  lemma ContinuesStart(start: Reader, size: nat, answers: seq<Answer>)
    ensures Continues(start, size, answers, [], start, 0)
  {
    hide Complete;
    FromStart(answers);
    PrependTwice([], [], Complete(start, size, answers));
  }

  lemma FromStart(answers: seq<Answer>)
    ensures From(answers, 0) == answers
  {
  }

  lemma CompleteOnce(r: Reader, left: nat, answers: seq<Answer>)
    requires left > 0
    ensures var a := Head(answers);
            var o := Recv(r, left, a.reply);
            && -1 <= o.ret <= left && (o.ret >= 0 ==> o.ret == |o.data|) && (o.ret == -1 ==> o.data == [])
            && Complete(r, left, answers) ==
               if o.ret > 0 then Prepend(o.data, Complete(o.next, left - o.ret, Tail(answers)))
               else if o.ret == 0 then Completed([], o.next, Ended)
               else if a.reply.WouldBlock? && a.readable then Complete(o.next, left, Tail(answers))
               else Completed([], o.next, Failed)
  {
    hide Recv;
    RecvShape(r, left, Head(answers).reply);
  }

  lemma HeadTail(answers: seq<Answer>, i: nat)
    ensures Head(From(answers, i)) == (if i < |answers| then answers[i] else Answer(Failure, false))
    ensures Tail(From(answers, i)) == From(answers, i + 1)
  {
  }

  /** One round of the loop. */
  lemma ContinuesStep(start: Reader, size: nat, answers: seq<Answer>, got: Bytes, now: Reader, i: nat)
    requires Continues(start, size, answers, got, now, i) && |got| < size
    ensures var a := if i < |answers| then answers[i] else Answer(Failure, false);
            var o := Recv(now, size - |got|, a.reply);
            && (o.ret > 0 || (o.ret == -1 && a.reply.WouldBlock? && a.readable) ==>
                  Continues(start, size, answers, got + o.data, o.next, i + 1))
            && (o.ret == 0 ==> Complete(start, size, answers) == Completed(got, o.next, Ended))
            && (o.ret == -1 && !(a.reply.WouldBlock? && a.readable) ==>
                  Complete(start, size, answers) == Completed(got, o.next, Failed))
  {
    hide Recv, Complete, From, Head, Tail;
    var left, rest := size - |got|, From(answers, i);
    HeadTail(answers, i);
    CompleteOnce(now, left, rest);
    var o := Recv(now, left, Head(rest).reply);
    assert got + [] == got;
    if o.ret > 0 {
      PrependTwice(got, o.data, Complete(o.next, left - o.ret, Tail(rest)));
    }
  }

  lemma ContinuesFull(start: Reader, size: nat, answers: seq<Answer>, got: Bytes, now: Reader, i: nat)
    requires Continues(start, size, answers, got, now, i) && |got| == size
    ensures Complete(start, size, answers) == Completed(got, now, Full)
  {
    assert got + [] == got;
  }

  /** Receives until the block is full, the stream ends or something fails. `got` counts the bytes delivered even when
      the call fails. The kernel's answers decide all of it. */
  method ReceiveComplete(reader: BufferedReader, socket: StreamSocket, block: array<byte>, size: nat,
                         answers: seq<Answer>)
    returns (ret: int, ghost got: nat)
    requires reader.Valid() && size <= block.Length && block != reader.buffer
    modifies reader, reader.buffer, block, socket`unread
    ensures reader.Valid() && got <= size
    ensures Complete(old(reader.With(socket)), size, answers).data == block[..][..got]
    ensures Complete(old(reader.With(socket)), size, answers).reader == reader.With(socket)
    ensures ret >= 0 ==> ret == got
    ensures ret == if Complete(old(reader.With(socket)), size, answers).how.Failed? then -1 else got
    ensures Supplies(answers, size) ==> ret == got
    ensures Sound(old(reader.With(socket)), size) <==>
            block[..][..got] + reader.With(socket).Stream() == old(reader.With(socket).Stream())
    ensures 0 <= ret < size ==> reader.With(socket).Stream() == []
    ensures block[..][size..] == old(block[..])[size..]
  {
    hide Recv, Complete, Continues, Filled, From, Sound, Supplies;
    if Supplies(answers, size) {
      DeliveringSucceeds(reader.With(socket), size, answers);
    }
    ghost var start := reader.With(socket);
    ghost var now := start;
    CompleteExactIff(start, size, answers);
    CompleteShape(start, size, answers);
    ContinuesStart(start, size, answers);
    var sizeLeft := size;
    var i := 0;
    while sizeLeft > 0
      invariant 0 <= sizeLeft <= size && 0 <= i && reader.Valid() && now == reader.With(socket)
      invariant Continues(start, size, answers, block[..][..size - sizeLeft], now, i)
      invariant block[..][size..] == old(block[..])[size..]
      decreases sizeLeft, |answers| - i
    {
      var answer := if i < |answers| then answers[i] else Answer(Failure, false);
      ContinuesStep(start, size, answers, block[..][..size - sizeLeft], now, i);
      RecvShape(now, sizeLeft, answer.reply);
      i := i + 1;
      ret := ReceiveMore(reader, socket, block, size, sizeLeft, answer.reply);
      now := reader.With(socket);
      got := size - sizeLeft;
      if ret > 0 {
        sizeLeft := sizeLeft - ret;
      } else {
        assert block[..][..got] + [] == block[..][..got];
        if ret == 0 {
          return size - sizeLeft, got;
        } else if answer.reply.WouldBlock? {
          if !answer.readable {
            return -1, got;
          }
        } else {
          return -1, got;
        }
      }
    }
    ContinuesFull(start, size, answers, block[..][..size], now, i);
    return size, size;
  }
}
