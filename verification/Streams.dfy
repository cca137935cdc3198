/**
 A non-blocking stream socket as its users see it: bytes still to be read, bytes already sent, and replies of the
 kernel that may be anything the interface allows.
*/
module Streams {
  newtype byte = x: int | 0 <= x < 256
  type Bytes = seq<byte>

  /** Capacity of the read-ahead buffer. */
  const BUFFER: nat := 65536

  /** What the kernel answers when asked for data. A chunk of any wish is cut to what is there and fits, and holds
      at least one byte unless the stream has ended. */
  datatype Reply = Chunk(wish: nat) | WouldBlock | Failure

  function Min(a: nat, b: nat): nat { if a < b then a else b }

  /** The number of bytes a chunk holds. */
  function Taken(wish: nat, unread: Bytes, room: nat): (k: nat)
    ensures k <= |unread|
    ensures room > 0 ==> k <= room && (k == 0 <==> unread == [])
  {
    if unread == [] || room == 0 then 0 else Min(if wish == 0 then 1 else wish, Min(|unread|, room))
  }

  /** The kernel may return any number of bytes that are there and fit. */
  lemma TakenAny(unread: Bytes, room: nat, k: nat)
    requires 0 < k <= Min(|unread|, room)
    ensures Taken(k, unread, room) == k
  {
  }

  /** The buffer was overwritten with data at off and nowhere else. */
  predicate Filled(before: Bytes, after: Bytes, off: nat, data: Bytes) {
    && off + |data| <= |before| == |after|
    && after[off..off + |data|] == data
    && after[..off] == before[..off]
    && after[off + |data|..] == before[off + |data|..]
  }

  lemma FilledNothing(a: Bytes, off: nat)
    requires off <= |a|
    ensures Filled(a, a, off, [])
  {
  }

  /** Of what was filled in, the part reported extends what was there before. */
  lemma FilledPrefix(before: Bytes, after: Bytes, off: nat, filled: Bytes, data: Bytes, size: nat)
    requires Filled(before, after, off, filled) && data <= filled && off + |filled| <= size <= |before|
    ensures |after| == |before| && after[..off + |data|] == before[..off] + data && after[size..] == before[size..]
  {
    assert after[off..off + |data|] == after[off..off + |filled|][..|data|] == data;
    assert after[size..] == after[off + |filled|..][size - off - |filled|..];
    assert before[size..] == before[off + |filled|..][size - off - |filled|..];
  }

  lemma FilledFront(before: Bytes, after: Bytes, off: nat, filled: Bytes, data: Bytes)
    requires Filled(before, after, off, filled) && data <= filled
    ensures off + |data| <= |after| && after[off..off + |data|] == data
  {
    assert after[off..off + |data|] == after[off..off + |filled|][..|data|];
  }

  lemma Associative(a: Bytes, b: Bytes, c: Bytes)
    ensures (a + b) + c == a + (b + c)
  {
  }

  lemma ThreeParts(s: Bytes, i: nat, j: nat)
    requires i <= j <= |s|
    ensures s[..i] + s[i..j] + s[j..] == s
  {
  }

  /** Filling in two neighbouring steps is filling at once. */
  lemma FilledTwice(a: Bytes, b: Bytes, c: Bytes, off: nat, first: Bytes, second: Bytes)
    requires Filled(a, b, off, first) && Filled(b, c, off + |first|, second)
    ensures Filled(a, c, off, first + second)
  {
    assert c[off..off + |first|] == c[..off + |first|][off..] == b[off..off + |first|];
    assert c[..off] == c[..off + |first|][..off] == b[..off];
    var end := off + |first| + |second|;
    assert c[end..] == b[end..] == b[off + |first|..][|second|..] == a[off + |first|..][|second|..] == a[end..];
  }

  class StreamSocket {
    /** What will still come in, up to the end of the stream. */
    var unread: Bytes
    /** What went out. */
    var wire: Bytes

    /** Reads into a[off..off + len] and goes on in b: readv or WSARecv with two buffers. */
    method ReadScattered(reply: Reply, a: array<byte>, off: nat, len: nat, b: array<byte>) returns (ret: int)
      requires off + len <= a.Length && a != b && b.Length > 0
      modifies this`unread, a, b
      ensures !reply.Chunk? ==> ret == -1 && unread == old(unread)
      ensures reply.Chunk? ==> ret == Taken(reply.wish, old(unread), len + b.Length) && unread == old(unread)[ret..]
      ensures Filled(old(a[..]), a[..], off, if reply.Chunk? then old(unread)[..Min(ret, len)] else [])
      ensures reply.Chunk? ==> b[..ret - Min(ret, len)] == old(unread)[Min(ret, len)..ret]
    {
      if !reply.Chunk? {
        return -1;
      }
      var k := Taken(reply.wish, unread, len + b.Length);
      var first := Min(k, len);
      forall i | 0 <= i < first {
        a[off + i] := unread[i];
      }
      forall i | 0 <= i < k - first {
        b[i] := unread[first + i];
      }
      unread := unread[k..];
      return k;
    }
  }
}
