/**
 Sending several memory areas on Windows (lib/communication/windows/socketnonblocking.cpp): one gather write, then
 block by block whatever it did not take, found by a cumulative sum. A send error inside sendBlock is assigned to a
 variable that hides the returned one, so the error is swallowed and the call reports success.
*/
module WindowsSend {
  import opened Streams
  import opened GatherSend

  /** The answer to the gather write: bytes taken, nothing for a reason that allows going on, or an error code. */
  datatype First = Took(wish: nat) | Later | Error(code: int)

  /** Sends one area. Only a connection closed by the peer, seen as a send of zero bytes, is reported; whatever else
      ends the loop early is swallowed. */
  method SendBlock(socket: StreamSocket, data: Bytes, turns: seq<Turn>) returns (ret: int)
    modifies socket`wire
    ensures ret == if Ending(|data|, turns).Closed? then -1 else |data|
    ensures OnWire(old(socket.wire), socket.wire, data, Passed(|data|, turns))
  {
    hide OnWire, Ending, Passed, From;
    FromStart(turns);
    NothingToSend(turns);
    ghost var start := socket.wire;
    OnWireStart(start, data);
    var pDat := 0;
    var bytesLeft := |data|;
    var i := 0;
    ret := |data|;
    while bytesLeft > 0
      invariant 0 <= i && 0 <= bytesLeft && pDat <= |data| && OnWire(start, socket.wire, data, pDat)
      invariant bytesLeft > 0 ==> ret == |data| && bytesLeft == |data| - pDat
      invariant bytesLeft > 0 ==> Ending(|data|, turns) == Ending(bytesLeft, From(turns, i))
      invariant bytesLeft > 0 ==> Passed(|data|, turns) == pDat + Passed(bytesLeft, From(turns, i))
      invariant bytesLeft == 0 ==> Passed(|data|, turns) == pDat
      invariant bytesLeft == 0 ==> ret == if Ending(|data|, turns).Closed? then -1 else |data|
      decreases bytesLeft, if i < |turns| then |turns| - i else 0
    {
      var turn := TurnAt(turns, i);
      SendStep(bytesLeft, turns, i);
      i := i + 1;
      NothingToSend(From(turns, i));
      ghost var wire := socket.wire;
      var numBytes := SendOnce(socket, data[pDat..], turn.reply);
      OnWireMore(start, wire, data, pDat, if numBytes < 0 then 0 else numBytes);
      if numBytes > 0 {
        pDat := pDat + numBytes;
        bytesLeft := bytesLeft - numBytes;
      } else if numBytes == 0 {
        bytesLeft, ret := 0, -1;
      } else if turn.reply.Again? {
        if !turn.writable {
          bytesLeft := 0;
        }
      } else if !turn.reply.Interrupted? {
        bytesLeft := 0;
      }
    }
  }

  // ---- Which bytes the gather write left to be sent -------------------------------------------------------

  /** Block n lies in the gathered bytes between two cumulative sums. */
  lemma {:induction false} BlockInGathered(blocks: seq<Block>, n: nat)
    requires n < |blocks|
    ensures TotalSize(blocks[..n]) + blocks[n].size == TotalSize(blocks[..n + 1]) <= |Gathered(blocks)|
    ensures Gathered(blocks)[TotalSize(blocks[..n])..TotalSize(blocks[..n + 1])] == Data(blocks[n])
  {
    TotalSnoc(blocks, n);
    var first, rest := Data(blocks[0]), Gathered(blocks[1..]);
    assert Gathered(blocks) == first + rest;
    if n > 0 {
      BlockInGathered(blocks[1..], n - 1);
      assert blocks[1..][..n - 1] == blocks[..n][1..] && blocks[1..][..n] == blocks[..n + 1][1..];
      ShiftSlice(first, rest, TotalSize(blocks[1..][..n - 1]), TotalSize(blocks[1..][..n]));
    } else {
      assert TotalSize(blocks[..0]) == 0;
      assert (first + rest)[..|first|] == first;
    }
  }

  lemma ShiftSlice(a: Bytes, b: Bytes, i: nat, j: nat)
    requires i <= j <= |b|
    ensures (a + b)[|a| + i..|a| + j] == b[i..j]
  {
  }

  lemma TotalIsLength(blocks: seq<Block>)
    ensures TotalSize(blocks[..|blocks|]) == TotalSize(blocks) == |Gathered(blocks)|
    ensures TotalSize(blocks[..0]) == 0
  {
    GatheredLength(blocks);
    assert blocks[..|blocks|] == blocks;
  }

  /** How many bytes of block i the gather write did not take. */
  function Left(blocks: seq<Block>, written: nat, i: nat): (left: nat)
    requires i < |blocks|
    ensures left <= blocks[i].size
  {
    var sum := TotalSize(blocks[..i + 1]);
    if sum <= written then 0 else Min(sum - written, blocks[i].size)
  }

  function Rest(blocks: seq<Block>, written: nat, i: nat): (rest: Bytes)
    requires i < |blocks|
    ensures |rest| == Left(blocks, written, i)
  {
    Data(blocks[i])[blocks[i].size - Left(blocks, written, i)..]
  }

  /** Start and size computed from the sum select exactly the part of the block that is missing. */
  lemma RestOfBlock(blocks: seq<Block>, n: nat, written: nat)
    requires n < |blocks| && written <= |Gathered(blocks)|
    ensures UpTo(blocks, written, n + 1) == UpTo(blocks, written, n) + Left(blocks, written, n) <= |Gathered(blocks)|
    ensures Rest(blocks, written, n) == Gathered(blocks)[UpTo(blocks, written, n)..UpTo(blocks, written, n + 1)]
  {
    hide Gathered, TotalSize;
    BlockInGathered(blocks, n);
    var lo, hi, from := TotalSize(blocks[..n]), TotalSize(blocks[..n + 1]), UpTo(blocks, written, n);
    if written < hi {
      assert Gathered(blocks)[lo..hi][from - lo..] == Gathered(blocks)[from..hi];
    }
  }

  /** Where block n begins, or the gather write ended if that is further on. */
  function UpTo(blocks: seq<Block>, written: nat, n: nat): nat
    requires n <= |blocks|
  {
    var sum := TotalSize(blocks[..n]);
    if sum <= written then written else sum
  }

  function Answers(turns: seq<seq<Turn>>, i: nat): seq<Turn> { if i < |turns| then turns[i] else [] }

  /** How sending the rest of block i ends; a block without a rest is not sent. */
  function EndOf(blocks: seq<Block>, written: nat, turns: seq<seq<Turn>>, i: nat): End
    requires i < |blocks|
  {
    Ending(Left(blocks, written, i), Answers(turns, i))
  }

  /** The loop comes to block n: no block before it ended with a closed connection. */
  predicate Reached(blocks: seq<Block>, written: nat, turns: seq<seq<Turn>>, n: nat)
    requires n <= |blocks|
  {
    forall i :: 0 <= i < n ==> !EndOf(blocks, written, turns, i).Closed?
  }

  /** The bytes that go out for the first n blocks: of every block that is reached, what passes of its rest. */
  function Resumed(blocks: seq<Block>, written: nat, turns: seq<seq<Turn>>, n: nat): Bytes
    requires n <= |blocks|
  {
    if n == 0 then []
    else
      var before := Resumed(blocks, written, turns, n - 1);
      if Reached(blocks, written, turns, n - 1)
      then before + Rest(blocks, written, n - 1)[..Passed(Left(blocks, written, n - 1), Answers(turns, n - 1))]
      else before
  }

  lemma {:induction false} ResumedLength(blocks: seq<Block>, written: nat, turns: seq<seq<Turn>>, n: nat)
    requires n <= |blocks| && written <= |Gathered(blocks)|
    ensures |Resumed(blocks, written, turns, n)| <= UpTo(blocks, written, n) - written
    ensures |Resumed(blocks, written, turns, n)| == UpTo(blocks, written, n) - written <==>
            forall i :: 0 <= i < n ==> EndOf(blocks, written, turns, i).Delivered?
    decreases n
  {
    hide Gathered, TotalSize, Left, UpTo, Rest, Ending, Passed;
    if n == 0 {
      StartsAt(blocks, written);
    } else {
      ResumedLength(blocks, written, turns, n - 1);
      RestOfBlock(blocks, n - 1, written);
      DeliveredIff(Left(blocks, written, n - 1), Answers(turns, n - 1));
      var end := EndOf(blocks, written, turns, n - 1);
      var left := Left(blocks, written, n - 1);
      assert end.Delivered? <==> Passed(left, Answers(turns, n - 1)) == left;
      if !Reached(blocks, written, turns, n - 1) {
        var i :| 0 <= i < n - 1 && EndOf(blocks, written, turns, i).Closed?;
        assert !EndOf(blocks, written, turns, i).Delivered?;
      }
    }
  }

  lemma StartsAt(blocks: seq<Block>, written: nat)
    ensures UpTo(blocks, written, 0) == written
    ensures written <= |Gathered(blocks)| ==> UpTo(blocks, written, |blocks|) == |Gathered(blocks)|
  {
    TotalIsLength(blocks);
  }

  /** As long as nothing is swallowed, what goes out are the next missing bytes, without a hole. */
  lemma {:induction false} ResumedPrefix(blocks: seq<Block>, written: nat, turns: seq<seq<Turn>>, n: nat)
    requires n <= |blocks| && written <= |Gathered(blocks)|
    requires forall i :: 0 <= i < n && Reached(blocks, written, turns, i) ==>
               !EndOf(blocks, written, turns, i).Failed?
    ensures written <= UpTo(blocks, written, n) <= |Gathered(blocks)|
    ensures Resumed(blocks, written, turns, n) <= Gathered(blocks)[written..]
    ensures Reached(blocks, written, turns, n) ==>
              Resumed(blocks, written, turns, n) == Gathered(blocks)[written..][..UpTo(blocks, written, n) - written]
    decreases n
  {
    hide Gathered, TotalSize, Left, UpTo, Rest, Ending, Passed;
    StartsAt(blocks, written);
    if n > 0 {
      ResumedPrefix(blocks, written, turns, n - 1);
      ResumedLength(blocks, written, turns, n - 1);
      RestOfBlock(blocks, n - 1, written);
      var all, k := Gathered(blocks), UpTo(blocks, written, n - 1);
      var left := Left(blocks, written, n - 1);
      DeliveredIff(left, Answers(turns, n - 1));
      if Reached(blocks, written, turns, n - 1) {
        SuffixStep(all, written, k, left, Passed(left, Answers(turns, n - 1)));
      }
    }
  }

  lemma SuffixStep(all: Bytes, written: nat, k: nat, left: nat, passed: nat)
    requires written <= k && passed <= left && k + left <= |all|
    ensures all[written..][..k - written] + all[k..k + left][..passed] == all[written..][..k - written + passed]
  {
  }

  /** Exactly the missing suffix follows the prefix that the gather write took, if and only if every block with a rest
      is delivered. */
  lemma SuffixIff(blocks: seq<Block>, written: nat, turns: seq<seq<Turn>>)
    requires written <= |Gathered(blocks)|
    ensures Resumed(blocks, written, turns, |blocks|) == Gathered(blocks)[written..] <==>
            forall i :: 0 <= i < |blocks| ==> EndOf(blocks, written, turns, i).Delivered?
  {
    hide Gathered, Resumed, UpTo, Ending, Left;
    StartsAt(blocks, written);
    ResumedLength(blocks, written, turns, |blocks|);
    if forall i :: 0 <= i < |blocks| ==> EndOf(blocks, written, turns, i).Delivered? {
      ResumedPrefix(blocks, written, turns, |blocks|);
    }
  }

  /** Of the bytes that the gather write can take, how many it takes. */
  function Taking(first: First, all: nat): (written: nat)
    ensures written <= all
  {
    if first.Took? then Min(first.wish, all) else 0
  }

  /** The gather write. */
  method SendFirst(socket: StreamSocket, blocks: seq<Block>, first: First) returns (ret: int, bytesWritten: nat)
    modifies socket`wire
    ensures ret == if first.Took? then 0 else -1
    ensures bytesWritten == if first.Took? then Min(first.wish, |Gathered(blocks)|) else 0
    ensures bytesWritten == Taking(first, |Gathered(blocks)|)
    ensures socket.wire == old(socket.wire) + Gathered(blocks)[..bytesWritten]
  {
    var all := Gathered(blocks);
    if !first.Took? {
      return -1, 0;
    }
    bytesWritten := Min(first.wish, |all|);
    socket.wire := socket.wire + all[..bytesWritten];
    ret := 0;
  }

  method CompleteLength(blocks: seq<Block>) returns (completeLength: nat)
    ensures completeLength == TotalSize(blocks)
  {
    completeLength := 0;
    var k := 0;
    while k < |blocks|
      invariant 0 <= k <= |blocks| && completeLength == TotalSize(blocks[..k])
    {
      TotalSnoc(blocks, k);
      completeLength := completeLength + blocks[k].size;
      k := k + 1;
    }
    TotalIsLength(blocks);
  }

  /** Sends the rest of a block that the gather write did not take completely. */
  method SendRest(socket: StreamSocket, blocks: seq<Block>, ghost written: nat, turns: seq<seq<Turn>>, index: nat,
                  bytesWritten: nat, blockSum: nat)
    returns (ret: int)
    requires index < |blocks| && blockSum == TotalSize(blocks[..index + 1])
    requires bytesWritten == UpTo(blocks, written, index) < blockSum
    modifies socket`wire
    ensures ret == if EndOf(blocks, written, turns, index).Closed? then -1 else Left(blocks, written, index)
    ensures OnWire(old(socket.wire), socket.wire, Rest(blocks, written, index),
                   Passed(Left(blocks, written, index), Answers(turns, index)))
    ensures Left(blocks, written, index) == blockSum - bytesWritten
  {
    hide Gathered, Ending, Passed, TotalSize, Left, Rest, UpTo, OnWire;
    Sums(blocks, written, index);
    var bytesRemaining := blockSum - bytesWritten;
    var begin := blocks[index].size - bytesRemaining;
    ret := SendBlock(socket, Data(blocks[index])[begin..], Answers(turns, index));
  }

  /** Sends all blocks. A gather write that fails returns its error code. Otherwise the wire has what it took, followed
      by what passes of the rest of every block that is reached; -1 is returned exactly if a block ends with a closed
      connection, and else the full size, whether the bytes went out or not. */
  method SendBlocks(socket: StreamSocket, blocks: seq<Block>, first: First, turns: seq<seq<Turn>>) returns (ret: int)
    modifies socket`wire
    ensures first.Error? ==> ret == first.code && socket.wire == old(socket.wire)
    ensures !first.Error? ==>
              var written := Taking(first, |Gathered(blocks)|);
              && socket.wire == old(socket.wire) + Gathered(blocks)[..written] +
                                Resumed(blocks, written, turns, |blocks|)
              && ret == if Reached(blocks, written, turns, |blocks|) then |Gathered(blocks)| else -1
    ensures first.Took? && first.wish >= |Gathered(blocks)| ==>
              ret == |Gathered(blocks)| && socket.wire == old(socket.wire) + Gathered(blocks)
  {
    hide Gathered, Ending, Passed, TotalSize, Left, Rest, UpTo, Resumed, Reached, EndOf, OnWire;
    TotalIsLength(blocks);
    ghost var start := socket.wire;
    var completeLength := CompleteLength(blocks);
    var bytesWritten: nat;
    ret, bytesWritten := SendFirst(socket, blocks, first);
    ghost var written := bytesWritten;
    if ret < 0 && first.Error? {
      assert Gathered(blocks)[..0] == [];
      return first.code;
    }
    StartsAt(blocks, written);
    if bytesWritten == completeLength {
      NothingMissing(blocks, turns, |blocks|);
      return bytesWritten;
    }
    ghost var front := start + Gathered(blocks)[..written];
    ResumedStart(blocks, written, turns);
    var blockSum := 0;
    var index := 0;
    while index < |blocks|
      invariant 0 <= index <= |blocks| && blockSum == TotalSize(blocks[..index])
      invariant bytesWritten == UpTo(blocks, written, index)
      invariant Reached(blocks, written, turns, index)
      invariant socket.wire == front + Resumed(blocks, written, turns, index)
    {
      Sums(blocks, written, index);
      blockSum := blockSum + blocks[index].size;
      ghost var wire := socket.wire;
      if bytesWritten < blockSum {
        ret := SendRest(socket, blocks, written, turns, index, bytesWritten, blockSum);
        ResumedNext(blocks, written, turns, index);
        OneMore(front, Resumed(blocks, written, turns, index), Rest(blocks, written, index),
                Passed(Left(blocks, written, index), Answers(turns, index)), wire, socket.wire);
        if ret > 0 {
          bytesWritten := bytesWritten + ret;
        } else {
          ResumedStops(blocks, written, turns, index + 1, |blocks|);
          return -1;
        }
      } else {
        TakenWhole(blocks, written, turns, index);
      }
      index := index + 1;
    }
    return bytesWritten;
  }

  lemma ResumedStart(blocks: seq<Block>, written: nat, turns: seq<seq<Turn>>)
    ensures Resumed(blocks, written, turns, 0) == [] && Reached(blocks, written, turns, 0)
  {
  }

  lemma ResumedNext(blocks: seq<Block>, written: nat, turns: seq<seq<Turn>>, n: nat)
    requires n < |blocks| && Reached(blocks, written, turns, n)
    ensures Resumed(blocks, written, turns, n + 1) == Resumed(blocks, written, turns, n) +
              Rest(blocks, written, n)[..Passed(Left(blocks, written, n), Answers(turns, n))]
    ensures Reached(blocks, written, turns, n + 1) <==> !EndOf(blocks, written, turns, n).Closed?
  {
    hide EndOf, Left, Passed;
  }

  /** A block without a rest is not sent. */
  lemma TakenWhole(blocks: seq<Block>, written: nat, turns: seq<seq<Turn>>, n: nat)
    requires n < |blocks| && Reached(blocks, written, turns, n) && Left(blocks, written, n) == 0
    ensures Resumed(blocks, written, turns, n + 1) == Resumed(blocks, written, turns, n)
    ensures Reached(blocks, written, turns, n + 1)
  {
    hide Left, Resumed, Reached;
    NothingToSend(Answers(turns, n));
    ResumedNext(blocks, written, turns, n);
    assert Resumed(blocks, written, turns, n) + [] == Resumed(blocks, written, turns, n);
  }

  /** What is compared and computed in the loop, by the sums. */
  lemma Sums(blocks: seq<Block>, written: nat, n: nat)
    requires n < |blocks|
    ensures TotalSize(blocks[..n + 1]) == TotalSize(blocks[..n]) + blocks[n].size
    ensures var sum, upTo := TotalSize(blocks[..n + 1]), UpTo(blocks, written, n);
            && Left(blocks, written, n) == (if upTo < sum then sum - upTo else 0) <= blocks[n].size
            && UpTo(blocks, written, n + 1) == upTo + Left(blocks, written, n)
            && Rest(blocks, written, n) == Data(blocks[n])[blocks[n].size - Left(blocks, written, n)..]
  {
    hide TotalSize;
    TotalSnoc(blocks, n);
  }

  lemma OneMore(start: Bytes, before: Bytes, rest: Bytes, passed: nat, wire: Bytes, after: Bytes)
    requires wire == start + before && OnWire(wire, after, rest, passed)
    ensures after == start + (before + rest[..passed])
  {
  }

  /** Behind a closed connection nothing more goes out. */
  lemma {:induction false} ResumedStops(blocks: seq<Block>, written: nat, turns: seq<seq<Turn>>, i: nat, n: nat)
    requires i <= n <= |blocks| && !Reached(blocks, written, turns, i)
    ensures Resumed(blocks, written, turns, n) == Resumed(blocks, written, turns, i)
    ensures !Reached(blocks, written, turns, n)
    decreases n
  {
    hide EndOf;
    if i < n {
      ResumedStops(blocks, written, turns, i, n - 1);
    }
  }

  lemma {:induction false} NothingMissing(blocks: seq<Block>, turns: seq<seq<Turn>>, n: nat)
    requires n <= |blocks|
    ensures Resumed(blocks, |Gathered(blocks)|, turns, n) == [] && Reached(blocks, |Gathered(blocks)|, turns, n)
    decreases n
  {
    hide Gathered, TotalSize;
    if n > 0 {
      NothingMissing(blocks, turns, n - 1);
      BlockInGathered(blocks, n - 1);
      NothingToSend(Answers(turns, n - 1));
    }
  }

  /** Success is reported although bytes are missing if and only if no block ends with a closed connection and some
      block ends with an error. */
  lemma FalseSuccessIff(blocks: seq<Block>, written: nat, turns: seq<seq<Turn>>)
    requires written <= |Gathered(blocks)|
    ensures Reached(blocks, written, turns, |blocks|) &&
            Resumed(blocks, written, turns, |blocks|) != Gathered(blocks)[written..] <==>
            && (forall i :: 0 <= i < |blocks| ==> !EndOf(blocks, written, turns, i).Closed?)
            && (exists i :: 0 <= i < |blocks| && EndOf(blocks, written, turns, i).Failed?)
  {
    hide EndOf, Resumed, Gathered;
    SuffixIff(blocks, written, turns);
  }

  /** A swallowed error: the byte did not go out, and the call reports that it did. */
  method SwallowedError(socket: StreamSocket, data: Bytes) returns (ret: int)
    requires |data| == 1
    modifies socket`wire
    ensures ret == |data| && socket.wire == old(socket.wire)
  {
    ret := SendBlock(socket, data, [Turn(Broken, false)]);
    assert data[..0] == [];
  }
}
