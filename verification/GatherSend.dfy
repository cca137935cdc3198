/**
 Sending several memory areas at once on Linux (lib/communication/linux/socketnonblocking.cpp): the kernel accepts any
 prefix, and the rest is sent after moving on in the caller's block array in place.
*/
module GatherSend {
  import opened Streams

  /** A memory area: `size` bytes of `mem` from `pos` on. */
  datatype Area = Area(mem: Bytes, pos: nat, size: nat)

  type Block = a: Area | a.pos + a.size <= |a.mem| witness Area([], 0, 0)

  function Data(b: Block): (d: Bytes)
    ensures |d| == b.size
  {
    b.mem[b.pos..b.pos + b.size]
  }

  /** The bytes the blocks describe, one block after the other. */
  function Gathered(blocks: seq<Block>): Bytes
  {
    if blocks == [] then [] else Data(blocks[0]) + Gathered(blocks[1..])
  }

  function TotalSize(blocks: seq<Block>): nat {
    if blocks == [] then 0 else blocks[0].size + TotalSize(blocks[1..])
  }

  lemma {:induction false} GatheredLength(blocks: seq<Block>)
    ensures |Gathered(blocks)| == TotalSize(blocks)
  {
    if blocks != [] {
      GatheredLength(blocks[1..]);
    }
  }

  lemma {:induction false} TotalSnoc(blocks: seq<Block>, n: nat)
    requires n < |blocks|
    ensures TotalSize(blocks[..n + 1]) == TotalSize(blocks[..n]) + blocks[n].size
  {
    if n > 0 {
      TotalSnoc(blocks[1..], n - 1);
      assert blocks[..n + 1][1..] == blocks[1..][..n] && blocks[..n][1..] == blocks[1..][..n - 1];
    }
  }

  /** The kernel's answer to one send, and whether the poll that may follow finds the socket writable. Accepted
      wishes are cut to what is offered; accepting nothing is a lost connection. */
  datatype Reply = Accepts(wish: nat) | Again | Interrupted | Broken

  datatype Turn = Turn(reply: Reply, writable: bool)

  function TurnAt(turns: seq<Turn>, i: nat): Turn { if i < |turns| then turns[i] else Turn(Broken, false) }

  /** The answers from the i-th on. */
  function From(turns: seq<Turn>, i: nat): seq<Turn> { if i < |turns| then turns[i..] else [] }

  lemma FromNext(turns: seq<Turn>, i: nat)
    ensures if i < |turns| then From(turns, i) == [turns[i]] + From(turns, i + 1)
            else From(turns, i) == [] == From(turns, i + 1)
  {
  }

  /** How a send loop ends: all bytes out, a send of zero bytes, which is a closed connection, or an error or a failed
      poll. */
  datatype End = Delivered | Closed | Failed

  /** How sending `left` bytes of one area ends under the kernel's answers. */
  function Ending(left: nat, turns: seq<Turn>): End
    decreases turns
  {
    if left == 0 then Delivered
    else if turns == [] then Failed
    else
      match turns[0].reply
      case Accepts(wish) =>
        var n := Min(wish, left);
        if n == 0 then Closed else Ending(left - n, turns[1..])
      case Again => if turns[0].writable then Ending(left, turns[1..]) else Failed
      case Interrupted => Ending(left, turns[1..])
      case Broken => Failed
  }

  /** How many of them go out. */
  function Passed(left: nat, turns: seq<Turn>): (n: nat)
    ensures n <= left
    decreases turns
  {
    if left == 0 || turns == [] then 0
    else
      match turns[0].reply
      case Accepts(wish) =>
        var n := Min(wish, left);
        if n == 0 then 0 else n + Passed(left - n, turns[1..])
      case Again => if turns[0].writable then Passed(left, turns[1..]) else 0
      case Interrupted => Passed(left, turns[1..])
      case Broken => 0
  }

  /** Sending delivers exactly when all bytes go out. */
  lemma {:induction false} DeliveredIff(left: nat, turns: seq<Turn>)
    ensures Ending(left, turns).Delivered? <==> Passed(left, turns) == left
    decreases turns
  {
    if left > 0 && turns != [] {
      match turns[0].reply
      case Accepts(wish) =>
        if Min(wish, left) > 0 { DeliveredIff(left - Min(wish, left), turns[1..]); }
      case Again => DeliveredIff(left, turns[1..]);
      case Interrupted => DeliveredIff(left, turns[1..]);
      case Broken =>
    }
  }

  lemma NothingToSend(turns: seq<Turn>)
    ensures Ending(0, turns).Delivered? && Passed(0, turns) == 0
  {
  }

  /** One round of sending an area. */
  lemma SendStep(left: nat, turns: seq<Turn>, i: nat)
    requires left > 0
    ensures var turn := TurnAt(turns, i);
            var n := if turn.reply.Accepts? then Min(turn.reply.wish, left) else 0;
            var end, passed := Ending(left, From(turns, i)), Passed(left, From(turns, i));
            if turn.reply.Broken? || (turn.reply.Again? && !turn.writable) then end.Failed? && passed == 0
            else if turn.reply.Accepts? && n == 0 then end.Closed? && passed == 0
            else end == Ending(left - n, From(turns, i + 1)) && passed == n + Passed(left - n, From(turns, i + 1))
  {
    FromNext(turns, i);
  }

  /** How sending the last `left` bytes of several blocks ends: the loop polls after every answer but the last. */
  function GatherEnding(left: nat, turns: seq<Turn>): End
    decreases turns
  {
    if turns == [] then Failed
    else
      match turns[0].reply
      case Accepts(wish) =>
        var n := Min(wish, left);
        if n == 0 then Closed
        else if n == left then Delivered
        else if turns[0].writable then GatherEnding(left - n, turns[1..])
        else Failed
      case Broken => Failed
      case _ =>
        if left == 0 then Delivered else if turns[0].writable then GatherEnding(left, turns[1..]) else Failed
  }

  /** How many of them go out. */
  function GatherPassed(left: nat, turns: seq<Turn>): (n: nat)
    ensures n <= left
    decreases turns
  {
    if turns == [] then 0
    else
      match turns[0].reply
      case Accepts(wish) =>
        var n := Min(wish, left);
        if 0 < n < left && turns[0].writable then n + GatherPassed(left - n, turns[1..]) else n
      case Broken => 0
      case _ => if left > 0 && turns[0].writable then GatherPassed(left, turns[1..]) else 0
  }

  /** One round of the loop. */
  lemma GatherStep(left: nat, turns: seq<Turn>, i: nat)
    ensures var turn := TurnAt(turns, i);
            var n := if turn.reply.Accepts? then Min(turn.reply.wish, left) else 0;
            var end, passed := GatherEnding(left, From(turns, i)), GatherPassed(left, From(turns, i));
            if turn.reply.Broken? then end.Failed? && passed == 0
            else if turn.reply.Accepts? && n == 0 then end.Closed? && passed == 0
            else if n == left then end.Delivered? && passed == n
            else if !turn.writable then end.Failed? && passed == n
            else end == GatherEnding(left - n, From(turns, i + 1)) &&
                 passed == n + GatherPassed(left - n, From(turns, i + 1))
  {
    FromNext(turns, i);
  }

  lemma FromStart(turns: seq<Turn>)
    ensures From(turns, 0) == turns
  {
  }

  /** With bytes to send, the loop ends regularly exactly when all of them go out. */
  lemma {:induction false} GatherDeliveredIff(left: nat, turns: seq<Turn>)
    requires left > 0
    ensures GatherEnding(left, turns).Delivered? <==> GatherPassed(left, turns) == left
    decreases turns
  {
    if turns != [] {
      match turns[0].reply
      case Accepts(wish) =>
        if 0 < Min(wish, left) < left { GatherDeliveredIff(left - Min(wish, left), turns[1..]); }
      case Broken =>
      case _ => GatherDeliveredIff(left, turns[1..]);
    }
  }

  /** sendmsg with the blocks from `from` on: takes a prefix of what they describe, or nothing. */
  method SendMessage(socket: StreamSocket, blocks: array<Block>, from: nat, reply: Reply) returns (ret: int)
    requires from <= blocks.Length
    modifies socket`wire
    ensures -1 <= ret <= |Gathered(blocks[..][from..])|
    ensures ret == -1 <==> !reply.Accepts?
    ensures reply.Accepts? ==> ret == Min(reply.wish, |Gathered(blocks[..][from..])|)
    ensures socket.wire == old(socket.wire) + Gathered(blocks[..][from..])[..if ret == -1 then 0 else ret]
  {
    var all := Gathered(blocks[..][from..]);
    if !reply.Accepts? {
      return -1;
    }
    ret := Min(reply.wish, |all|);
    socket.wire := socket.wire + all[..ret];
  }

  /** The blocks from position `pos` on describe what is left of all the data after `sent` bytes. */
  ghost predicate Describes(blocks: seq<Block>, pos: nat, all: Bytes, sent: nat) {
    pos <= |blocks| && sent <= |all| && Gathered(blocks[pos..]) == all[sent..]
  }

  lemma DescribesAll(blocks: seq<Block>)
    ensures Describes(blocks, 0, Gathered(blocks), 0) && |Gathered(blocks)| == TotalSize(blocks)
  {
    GatheredLength(blocks);
    assert blocks[0..] == blocks;
  }

  /** As long as something is left to send there is a block to look at. */
  lemma NotPastTheEnd(blocks: seq<Block>, pos: nat, all: Bytes, sent: nat)
    requires Describes(blocks, pos, all, sent)
    ensures |Gathered(blocks[pos..])| == |all| - sent
    ensures sent < |all| ==> pos < |blocks|
  {
    assert pos == |blocks| ==> blocks[pos..] == [];
  }

  /** What is on the wire: what was there at the start, and the first `sent` bytes. */
  ghost predicate OnWire(start: Bytes, wire: Bytes, all: Bytes, sent: nat) {
    sent <= |all| && wire == start + all[..sent]
  }

  lemma OnWireStart(wire: Bytes, all: Bytes)
    ensures OnWire(wire, wire, all, 0)
  {
  }

  lemma OnWireStep(start: Bytes, wire: Bytes, blocks: seq<Block>, pos: nat, all: Bytes, sent: nat, n: nat)
    requires Describes(blocks, pos, all, sent) && OnWire(start, wire, all, sent) && n <= |Gathered(blocks[pos..])|
    ensures OnWire(start, wire + Gathered(blocks[pos..])[..n], all, sent + n)
  {
    Associative(start, all[..sent], all[sent..][..n]);
    assert all[..sent] + all[sent..][..n] == all[..sent + n];
  }

  /** Skipping a whole block. */
  lemma SkipBlock(blocks: seq<Block>, pos: nat, all: Bytes, sent: nat)
    requires Describes(blocks, pos, all, sent) && pos < |blocks| && sent + blocks[pos].size <= |all|
    ensures Describes(blocks, pos + 1, all, sent + blocks[pos].size)
  {
    var rest := blocks[pos..];
    assert rest[1..] == blocks[pos + 1..];
    assert Gathered(rest) == Data(rest[0]) + Gathered(rest[1..]);
    assert all[sent + blocks[pos].size..] == all[sent..][blocks[pos].size..];
  }

  /** Cutting the front off a block. */
  lemma CutBlock(blocks: seq<Block>, pos: nat, all: Bytes, sent: nat, off: nat)
    requires Describes(blocks, pos, all, sent) && pos < |blocks| && off < blocks[pos].size
    requires sent + off <= |all|
    ensures var b := blocks[pos];
            Describes(blocks[pos := Area(b.mem, b.pos + off, b.size - off)], pos, all, sent + off)
  {
    var b := blocks[pos];
    var c: Block := Area(b.mem, b.pos + off, b.size - off);
    var now := blocks[pos := c];
    assert now[pos..] == [c] + blocks[pos + 1..];
    assert blocks[pos..] == [b] + blocks[pos + 1..];
    assert Data(c) == Data(b)[off..];
    assert all[sent + off..] == all[sent..][off..];
    assert Gathered(blocks[pos..]) == Data(b) + Gathered(blocks[pos + 1..]);
    assert Gathered(now[pos..]) == Data(c) + Gathered(blocks[pos + 1..]);
  }

  /** After a partial write: moves on by the bytes written and cuts the block they end in. There always is one. */
  method Reorganize(blocks: array<Block>, from: nat, count: nat, bytesWritten: nat, ghost all: Bytes, ghost sent: nat)
    returns (pos: nat, left: nat)
    requires from + count == blocks.Length && Describes(blocks[..], from, all, sent) && sent + bytesWritten < |all|
    modifies blocks
    ensures pos + left == blocks.Length && Describes(blocks[..], pos, all, sent + bytesWritten)
    ensures pos < blocks.Length && blocks[pos].size > 0
  {
    hide Describes;
    pos, left := from, count;
    var remainingOffset := bytesWritten;
    var again := true;
    while again
      invariant pos + left == blocks.Length && from <= pos
      invariant 0 <= remainingOffset <= bytesWritten
      invariant again ==> Describes(blocks[..], pos, all, sent + bytesWritten - remainingOffset)
      invariant !again ==> Describes(blocks[..], pos, all, sent + bytesWritten)
      invariant !again ==> pos < blocks.Length && blocks[pos].size > 0
      decreases left, again
    {
      ghost var gone := sent + bytesWritten - remainingOffset;
      NotPastTheEnd(blocks[..], pos, all, gone);
      if remainingOffset >= blocks[pos].size {
        SkipBlock(blocks[..], pos, all, gone);
        remainingOffset := remainingOffset - blocks[pos].size;
        pos := pos + 1;
        left := left - 1;
      } else {
        CutBlock(blocks[..], pos, all, gone, remainingOffset);
        blocks[pos] := Area(blocks[pos].mem, blocks[pos].pos + remainingOffset, blocks[pos].size - remainingOffset);
        again := false;
      }
    }
  }

  method TotalLength(blocks: array<Block>) returns (totalLength: nat)
    ensures totalLength == TotalSize(blocks[..])
  {
    totalLength := 0;
    var blockIndex := 0;
    while blockIndex < blocks.Length
      invariant 0 <= blockIndex <= blocks.Length
      invariant totalLength == TotalSize(blocks[..][..blockIndex])
    {
      TotalSnoc(blocks[..], blockIndex);
      totalLength := totalLength + blocks[blockIndex].size;
      blockIndex := blockIndex + 1;
    }
    assert blocks[..][..blockIndex] == blocks[..];
  }

  function GatherResult(left: nat, turns: seq<Turn>): int {
    match GatherEnding(left, turns)
    case Delivered => left
    case Closed => 0
    case Failed => -1
  }

  // ---- Which answer decides -------------------------------------------------------------------------------

  /** All bytes that the answers accept together, as far as there are so many. */
  function Offered(turns: seq<Turn>): nat {
    if turns == [] then 0 else (if turns[0].reply.Accepts? then turns[0].reply.wish else 0) + Offered(turns[1..])
  }

  /** After this answer several blocks are sent on: some bytes or a reason to try again, and then a successful poll. */
  predicate GatherGoesOn(t: Turn) { t.writable && !t.reply.Broken? && t.reply != Accepts(0) }

  /** The first answer that accepts the last missing byte, or does not let the loop go on, decides: the total for the
      last byte, 0 for a closed connection, -1 for an error or a failed poll. All that was accepted is on the wire. */
  lemma {:induction false} GatherDecided(left: nat, turns: seq<Turn>, k: nat)
    requires left > 0 && k < |turns| && Offered(turns[..k]) < left
    requires forall i :: 0 <= i < k ==> GatherGoesOn(turns[i])
    requires !GatherGoesOn(turns[k]) || Offered(turns[..k + 1]) >= left
    ensures GatherResult(left, turns) ==
            if turns[k].reply == Accepts(0) then 0 else if Offered(turns[..k + 1]) >= left then left else -1
    ensures GatherPassed(left, turns) == Min(left, Offered(turns[..k + 1]))
    decreases k
  {
    OfferedFirst(turns, k + 1);
    if k > 0 {
      OfferedFirst(turns, k);
      var n := if turns[0].reply.Accepts? then turns[0].reply.wish else 0;
      assert GatherGoesOn(turns[0]);
      GatherDecided(left - n, turns[1..], k - 1);
    }
  }

  lemma OfferedFirst(turns: seq<Turn>, k: nat)
    requires 0 < k <= |turns|
    ensures Offered(turns[..k]) ==
            (if turns[0].reply.Accepts? then turns[0].reply.wish else 0) + Offered(turns[1..][..k - 1])
    ensures k == 1 ==> Offered(turns[1..][..k - 1]) == 0
  {
    assert turns[..k][1..] == turns[1..][..k - 1];
  }

  /** A kernel that falls silent has failed. */
  lemma {:induction false} GatherSilent(left: nat, turns: seq<Turn>)
    requires Offered(turns) < left && forall i :: 0 <= i < |turns| ==> GatherGoesOn(turns[i])
    ensures GatherResult(left, turns) == -1 && GatherPassed(left, turns) == Offered(turns)
    decreases turns
  {
    if turns != [] {
      assert GatherGoesOn(turns[0]);
      GatherSilent(left - if turns[0].reply.Accepts? then turns[0].reply.wish else 0, turns[1..]);
    }
  }

  /** After this answer one area is sent on: only a send that would block is followed by a poll. */
  predicate SendGoesOn(t: Turn) {
    t.reply.Interrupted? || (t.reply.Accepts? && t.reply.wish > 0) || (t.reply.Again? && t.writable)
  }

  /** The same for one area. */
  lemma {:induction false} SendDecided(left: nat, turns: seq<Turn>, k: nat)
    requires left > 0 && k < |turns| && Offered(turns[..k]) < left
    requires forall i :: 0 <= i < k ==> SendGoesOn(turns[i])
    requires !SendGoesOn(turns[k]) || Offered(turns[..k + 1]) >= left
    ensures Ending(left, turns) ==
            if turns[k].reply == Accepts(0) then Closed
            else if Offered(turns[..k + 1]) >= left then Delivered else Failed
    ensures Passed(left, turns) == Min(left, Offered(turns[..k + 1]))
    decreases k
  {
    OfferedFirst(turns, k + 1);
    if k > 0 {
      OfferedFirst(turns, k);
      var n := if turns[0].reply.Accepts? then turns[0].reply.wish else 0;
      assert SendGoesOn(turns[0]);
      SendDecided(left - n, turns[1..], k - 1);
    } else if turns[0].reply.Accepts? && turns[0].reply.wish > 0 {
      NothingToSend(turns[1..]);
    }
  }

  lemma {:induction false} SendSilent(left: nat, turns: seq<Turn>)
    requires Offered(turns) < left && forall i :: 0 <= i < |turns| ==> SendGoesOn(turns[i])
    ensures Ending(left, turns).Failed? && Passed(left, turns) == Offered(turns)
    decreases turns
  {
    if turns != [] {
      assert SendGoesOn(turns[0]);
      SendSilent(left - if turns[0].reply.Accepts? then turns[0].reply.wish else 0, turns[1..]);
    }
  }

  /** Sends what the blocks describe. The kernel's answers decide how much of it goes out and what is returned; when a
      part is missing, the end of the caller's array still describes it. */
  method SendBlocks(socket: StreamSocket, blocks: array<Block>, turns: seq<Turn>) returns (ret: int)
    modifies blocks, socket`wire
    ensures var total := TotalSize(old(blocks[..]));
            && ret == GatherResult(total, turns)
            && OnWire(old(socket.wire), socket.wire, Gathered(old(blocks[..])), GatherPassed(total, turns))
            && (GatherPassed(total, turns) < total ==>
                  exists pos :: Describes(blocks[..], pos, Gathered(old(blocks[..])), GatherPassed(total, turns)))
  {
    hide Describes, Gathered, OnWire, TotalSize, GatherEnding, GatherPassed, From;
    FromStart(turns);
    ghost var all, start := Gathered(blocks[..]), socket.wire;
    DescribesAll(blocks[..]);
    OnWireStart(start, all);
    var totalLength := TotalLength(blocks);
    var totalBytesRemaining := totalLength;
    var pBlockPos: nat, blockCount: nat := 0, blocks.Length;
    var i := 0;
    ghost var sent: nat := 0;
    while true
      invariant pBlockPos + blockCount == blocks.Length && 0 <= totalBytesRemaining == totalLength - sent
      invariant Describes(blocks[..], pBlockPos, all, sent) && OnWire(start, socket.wire, all, sent)
      invariant 0 <= i && (totalLength > 0 ==> totalBytesRemaining > 0)
      invariant GatherEnding(totalLength, turns) == GatherEnding(totalBytesRemaining, From(turns, i))
      invariant GatherPassed(totalLength, turns) == sent + GatherPassed(totalBytesRemaining, From(turns, i))
      decreases if i < |turns| then |turns| - i else 0
    {
      var turn := TurnAt(turns, i);
      GatherStep(totalBytesRemaining, turns, i);
      i := i + 1;
      NotPastTheEnd(blocks[..], pBlockPos, all, sent);
      ghost var before, wire := sent, socket.wire;
      ret := SendMessage(socket, blocks, pBlockPos, turn.reply);
      OnWireStep(start, wire, blocks[..], pBlockPos, all, sent, if ret == -1 then 0 else ret);
      sent := sent + if ret == -1 then 0 else ret;
      var bytesWritten: nat;
      if ret == 0 {
        return ret;
      } else if ret == -1 {
        if turn.reply.Broken? {
          return ret;
        }
        bytesWritten := 0;
      } else {
        bytesWritten := ret;
      }
      totalBytesRemaining := totalBytesRemaining - bytesWritten;
      if totalBytesRemaining == 0 {
        return totalLength;
      }
      pBlockPos, blockCount := Reorganize(blocks, pBlockPos, blockCount, bytesWritten, all, before);
      if !turn.writable {
        return -1;
      }
    }
  }

  /** The list form works on a copy, so the caller's blocks stay as they are. */
  method SendBlockList(socket: StreamSocket, blocks: seq<Block>, turns: seq<Turn>) returns (ret: int)
    modifies socket`wire
    ensures ret == GatherResult(TotalSize(blocks), turns)
    ensures OnWire(old(socket.wire), socket.wire, Gathered(blocks), GatherPassed(TotalSize(blocks), turns))
  {
    var dataBlockVector := new Block[|blocks|](i requires 0 <= i < |blocks| => blocks[i]);
    assert dataBlockVector[..] == blocks;
    ret := SendBlocks(socket, dataBlockVector, turns);
  }

  /** send: takes a prefix of one area, or nothing. */
  method SendOnce(socket: StreamSocket, data: Bytes, reply: Reply) returns (ret: int)
    modifies socket`wire
    ensures -1 <= ret <= |data|
    ensures reply.Accepts? ==> ret == Min(reply.wish, |data|)
    ensures ret == -1 <==> !reply.Accepts?
    ensures socket.wire == old(socket.wire) + data[..if ret == -1 then 0 else ret]
  {
    if !reply.Accepts? {
      return -1;
    }
    ret := Min(reply.wish, |data|);
    socket.wire := socket.wire + data[..ret];
  }

  lemma OnWireMore(start: Bytes, wire: Bytes, data: Bytes, sent: nat, n: nat)
    requires OnWire(start, wire, data, sent) && n <= |data| - sent
    ensures OnWire(start, wire + data[sent..][..n], data, sent + n)
  {
    Associative(start, data[..sent], data[sent..][..n]);
    assert data[..sent] + data[sent..][..n] == data[..sent + n];
  }

  /** Sends one area. The kernel's answers decide how much goes out; the size is returned exactly when all does. */
  method SendBlock(socket: StreamSocket, data: Bytes, turns: seq<Turn>) returns (ret: int)
    modifies socket`wire
    ensures ret == if Ending(|data|, turns).Delivered? then |data| else -1
    ensures OnWire(old(socket.wire), socket.wire, data, Passed(|data|, turns))
  {
    hide OnWire, Ending, Passed, From;
    FromStart(turns);
    NothingToSend(turns);
    ghost var start := socket.wire;
    OnWireStart(start, data);
    var pDat := 0;
    var bytesLeft := |data|;
    var i := 0;
    ret := |data|;
    while bytesLeft > 0
      invariant 0 <= i && 0 <= bytesLeft && pDat <= |data| && OnWire(start, socket.wire, data, pDat)
      invariant bytesLeft > 0 ==> ret == |data| && bytesLeft == |data| - pDat
      invariant bytesLeft > 0 ==> Ending(|data|, turns) == Ending(bytesLeft, From(turns, i))
      invariant bytesLeft > 0 ==> Passed(|data|, turns) == pDat + Passed(bytesLeft, From(turns, i))
      invariant bytesLeft == 0 ==> Passed(|data|, turns) == pDat
      invariant bytesLeft == 0 ==> ret == if Ending(|data|, turns).Delivered? then |data| else -1
      decreases bytesLeft, if i < |turns| then |turns| - i else 0
    {
      var turn := TurnAt(turns, i);
      SendStep(bytesLeft, turns, i);
      i := i + 1;
      NothingToSend(From(turns, i));
      ghost var wire := socket.wire;
      var numBytes := SendOnce(socket, data[pDat..], turn.reply);
      OnWireMore(start, wire, data, pDat, if numBytes < 0 then 0 else numBytes);
      if numBytes > 0 {
        pDat := pDat + numBytes;
        bytesLeft := bytesLeft - numBytes;
      } else if numBytes == 0 {
        bytesLeft, ret := 0, -1;
      } else if turn.reply.Again? {
        if !turn.writable {
          bytesLeft, ret := 0, -1;
        }
      } else if !turn.reply.Interrupted? {
        bytesLeft, ret := 0, -1;
      }
    }
  }

  /** All forms agree on the wire: on three sockets that start alike the array form, the list form and the single send
      of the same bytes leave the same wire whenever the kernel's answers let each of them deliver, and with bytes to
      send each form returns the total size exactly then. */
  method SendThreeWays(s1: StreamSocket, s2: StreamSocket, s3: StreamSocket, blocks: array<Block>,
                       t1: seq<Turn>, t2: seq<Turn>, t3: seq<Turn>)
    returns (r1: int, r2: int, r3: int)
    requires s1 != s2 && s2 != s3 && s1 != s3 && s1.wire == s2.wire == s3.wire
    modifies s1`wire, s2`wire, s3`wire, blocks
    ensures var total := TotalSize(old(blocks[..]));
            && r1 == GatherResult(total, t1) && r2 == GatherResult(total, t2)
            && r3 == if Ending(total, t3).Delivered? then total else -1
    ensures r1 == r2 == r3 == TotalSize(old(blocks[..])) ==>
              s1.wire == s2.wire == s3.wire == old(s1.wire) + Gathered(old(blocks[..]))
    ensures TotalSize(old(blocks[..])) > 0 ==>
              && (r1 == TotalSize(old(blocks[..])) <==> s1.wire == old(s1.wire) + Gathered(old(blocks[..])))
              && (r2 == TotalSize(old(blocks[..])) <==> s2.wire == old(s2.wire) + Gathered(old(blocks[..])))
              && (r3 == TotalSize(old(blocks[..])) <==> s3.wire == old(s3.wire) + Gathered(old(blocks[..])))
  {
    hide OnWire, Gathered, TotalSize, Ending, Passed, GatherEnding, GatherPassed;
    var same := blocks[..];
    ghost var wire, total := s1.wire, TotalSize(same);
    GatheredLength(same);
    r2 := SendBlockList(s2, same, t2);
    r3 := SendBlock(s3, Gathered(same), t3);
    r1 := SendBlocks(s1, blocks, t1);
    AllOnWire(wire, s1.wire, Gathered(same), GatherPassed(total, t1));
    AllOnWire(wire, s2.wire, Gathered(same), GatherPassed(total, t2));
    AllOnWire(wire, s3.wire, Gathered(same), Passed(total, t3));
    DeliveredIff(total, t3);
    if total > 0 {
      GatherDeliveredIff(total, t1);
      GatherDeliveredIff(total, t2);
    }
  }

  lemma AllOnWire(start: Bytes, wire: Bytes, all: Bytes, sent: nat)
    requires OnWire(start, wire, all, sent)
    ensures wire == start + all <==> sent == |all|
  {
    if sent == |all| {
      assert all[..sent] == all;
    } else {
      assert |wire| < |start + all|;
    }
  }
}
