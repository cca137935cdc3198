/**
 What both variants of the buffered reader share (lib/include/hbk/communication/bufferedreader.h): the buffer with what
 was read ahead, and what its users see. Receiving differs by platform.
*/
module ReadAhead {
  import opened Streams

  /** What the reader holds back, and what the socket still has. */
  datatype Reader = Reader(carry: Bytes, unread: Bytes) {
    function Stream(): Bytes { carry + unread }
  }

  /** One call of recv in a run of calls, with the kernel's answer. */
  datatype Request<A> = Request(desired: nat, answer: A)

  /** After a run of calls: the reader, and all bytes they delivered. */
  datatype Outcome = Outcome(reader: Reader, delivered: Bytes)

  /** How receiving a complete block ends: the block is full, the stream has ended, or an error or a failed wait. */
  datatype How = Full | Ended | Failed

  /** What receiving a complete block delivers, what it leaves, and how it ends. */
  datatype Completed = Completed(data: Bytes, reader: Reader, how: How)

  function Prepend(data: Bytes, c: Completed): Completed { c.(data := data + c.data) }

  lemma PrependTwice(a: Bytes, b: Bytes, c: Completed)
    ensures Prepend(a, Prepend(b, c)) == Prepend(a + b, c) && Prepend([], c) == c
  {
    Associative(a, b, c.data);
    assert [] + c.data == c.data;
  }

  class BufferedReader {
    const buffer: array<byte>
    var fillLevel: nat
    var alreadyRead: nat

    ghost predicate Valid()
      reads this
    {
      buffer.Length == BUFFER && alreadyRead <= fillLevel <= BUFFER
    }

    ghost function Carry(): Bytes
      requires Valid()
      reads this, buffer
    {
      buffer[alreadyRead..fillLevel]
    }

    /** Together with the socket it reads from. */
    ghost function With(socket: StreamSocket): Reader
      requires Valid()
      reads this, buffer, socket
    {
      Reader(Carry(), socket.unread)
    }

    constructor ()
      ensures Valid() && fresh(buffer) && Carry() == []
    {
      buffer := new byte[BUFFER];
      fillLevel, alreadyRead := 0, 0;
    }

    /** Copies from the read-ahead buffer to the caller's. */
    method CopyOut(buf: array<byte>, off: nat, count: nat)
      requires Valid() && alreadyRead + count <= fillLevel && off + count <= buf.Length && buf != buffer
      modifies buf
      ensures Filled(old(buf[..]), buf[..], off, Carry()[..count])
    {
      forall i | 0 <= i < count {
        buf[off + i] := buffer[alreadyRead + i];
      }
    }
  }
}
