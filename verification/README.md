# Verified model of the hbk library

The library gives programs on Linux and Windows an event loop, timers and notifiers, non-blocking stream sockets with
read-ahead, conversions between Unix and NTP time, IPv4 helpers, a list of network adapters, and string helpers. This
project models its parts with the most state, branching or arithmetic, and proves what they promise: for every input,
every run and every interleaving. Where the code does not keep a promise, a lemma names the inputs or the runs, and the
exact condition under which it does is proved. `dafny verify dfyconfig.toml` checks the whole project.

## What is modelled

**The Linux event loop** (`EpollMachine`, `EpollSafety`, `EpollRefusals`, `EpollDraining`, `EpollWakeup`,
`EpollHandlers`, `EventLoop`). A state of the step machine holds the registry of handlers, the kernel's interest set and
queued edges, the batch returned by the last wait, the position of the dispatch loop and the handler it calls, the
initial drains that are still running and theirs, and the work waiting behind each descriptor. An action is one atomic step of the loop, of a callback, of another thread or of the kernel; a run is any
sequence of actions, so theorems over runs cover every interleaving and everything callbacks do in the middle of a
batch. The kernel is the weak one that the initial drain in `addEvent` is written for: adding or modifying does not queue
readiness that was there before, and modifying keeps the edges of the directions that stay. Entries are identified by
addresses that may be used again once an entry is erased, and the early `break` over the batch is modelled as it stands.
The class `EventLoop` has the fields and loops of the code and refines the machine: each method extends a ghost log of
actions, and its fields always are the state the machine reaches by that log, so what holds of all runs holds of the
code. What callbacks, other threads and the kernel do comes from a script: while a handler runs, and before every wait
delivers. A script that ends cuts the observation there, and every method that can be cut says why it was. Wakeups are
proved channel by channel: what a theorem asks, it asks of that channel's handler and descriptor only.

**Notifier and Timer** (`Notifier`, `NotifierLoop`, `Timer`) over an event descriptor and a timer descriptor. An operation
that calls back carries what is done inside the callback, to any depth. `NotifierLoop` runs a notifier together with the
event loop, step by step and interleaved with everything else.

**The byte stream** (`Streams`, `ReadAhead`, `LinuxReader`, `WindowsReader`, `GatherSend`, `WindowsSend`). The kernel
accepts or returns any amount, would block, or fails; the readers, `receiveComplete` and all send forms are proved
against one abstract stream, and what they deliver and return is a function of the kernel's answers.

**NTP time** (`TimeConvert`, `Bits`, `Words`), section 6 of RFC 5905 and the epoch offset of RFC 868, with 32- and 64-bit
truncation written out.

**IPv4, adapters and strings** (`Decimals`, `Ipv4`, `NetadapterList`, `Split`, `Replace`).

## Where the code departs from what it promises

- The erase methods forget a handler whatever `epoll_ctl` answers. All continuations are safe if and only if the removal
  was accepted or the kernel did not report the channel anyway; otherwise one arrival leads to the call of an empty
  handler or through a dead entry.
- The add methods store a handler before they ask the kernel. A refused addition is never unsafe, but of a descriptor that
  was not registered it sticks: until a handler of the descriptor is erased every later addition fails, even one that
  the kernel would accept, and none of its handlers is called. When registry and kernel agree after a step is stated
  exactly.
- An erased handler can be called again: an initial drain of `addEvent` or `addOutEvent` that is open when the handler
  is erased goes on with it, once for each positive result. Nothing else calls it.
- A refused `addOutEvent` leaves its handler stored. The next accepted `addEvent` of that descriptor has the kernel
  report output too, but drains the input handler only, so room to write that was there before is never reported; the
  same happens with the directions exchanged, and when a handler is erased. Which changes keep all wakeups is exact.
- The stop record ends `execute` at once. Wakeups of the records behind it are lost; the exact condition is proved.
- On Linux the refill path of `recv` loses exactly as many bytes as it carried over, although the header says that it
  behaves like the standard function. It is lossless if and only if the carry is empty or serves the request.
- `Timer::set` tests the old handler: the new one is dropped if and only if the old one is empty.
- A `set` made inside the callback of `cancel` reports success and is disarmed by the rest of `cancel`; that happens exactly
  if the timer was running with a user handler.
- `ntpfraction2microseconds` increments in 32 bits, so the largest fraction becomes zero.
- The fraction of `nanoseconds2NtpStruct` depends on the lower 32 bits only, so above 2^32 ns seconds and fraction
  make up the argument only if 5^9 divides the upper half.
- Windows: `sendBlock` assigns errors to a variable that hides the returned one and reports success. `sendBlocks` reports
  the full size although bytes are missing if and only if no block ends with a closed connection and some block ends with
  an error. A first write that fails returns the positive error code.
- Linux: `sendBlocks` of no bytes at all returns -1 exactly if the kernel's first answer is an error, else 0.
- String `replace` goes on |search| characters behind a match, whatever the length of the substitute. With a shorter one
  it passes over occurrences, with a longer one it may replace what it inserted, or never end; the header promises to
  replace all occurrences. All three conditions are exact.
- `getSubnet` reads its parts with `std::stoul` into 32 bits: values too large by a multiple of 2^32 pass for bytes.

## Model

| member | source | states |
|---|---|---|
| EpollSafety.DispatchSafety | lib/sys/linux/eventloop.cpp:256-293 | over every run in which no removal of a channel that the kernel reports is refused the loop never calls through a dead entry or an empty handler: each bit set in the batch has a live entry with a handler for that direction, and batch entries are pairwise distinct |
| EpollSafety.ErasedCalledIff | lib/sys/linux/eventloop.cpp:144-231 | in every run in which a channel was erased and not registered again since, whatever batch was pending, a step calls its handler if and only if it goes on with an initial drain after a positive result, and that drain was open when the handler was erased |
| EpollSafety.ErasedCalledAgain | lib/sys/linux/eventloop.cpp:87-92 | a run in which a handler erased in its initial drain is called once more |
| EpollSafety.ClearBitsAll | lib/sys/linux/eventloop.cpp:174-184 | with distinct pointers the early break loses nothing: every record with the pointer is cleared, the others keep their bits |
| EpollSafety.StepKeepsInv | lib/sys/linux/eventloop.cpp:46-231 | each step of loop, callback, other thread and kernel keeps the safety invariant, unless it is a refused removal of a channel that the kernel reports |
| EpollSafety.UnregisterKeeps | lib/sys/linux/eventloop.cpp:144-231 | so does a refused removal of what the kernel does not report |
| EpollSafety.RegistryAgrees | lib/sys/linux/eventloop.cpp:46-231 | after every run in which the kernel refuses nothing, the interest set has exactly the registered descriptors and the stop descriptor, each mask has exactly the directions with a handler, and no entry is empty, so each further change is legal |
| EpollSafety.AcceptedStepKeepsAgree | lib/sys/linux/eventloop.cpp:46-231 | one accepted step keeps registry and interest set in agreement |
| EpollRefusals.RemovalSafeIff | lib/sys/linux/eventloop.cpp:144-231 | after any run in which no removal of a reported channel was refused, removing any channel leaves all such continuations safe if and only if the kernel accepts it or did not report the channel; after a run in which nothing was refused it does report it |
| EpollRefusals.DanglingIsUnsafe | lib/sys/linux/eventloop.cpp:239-300 | from every position of the loop, when the kernel reports a direction under an address without a handler for it, input or output, a continuation calls through a dead entry or an empty handler |
| EpollRefusals.RefusedRemovalIsUnsafe | lib/sys/linux/eventloop.cpp:144-187 | the shortest instance: one accepted registration and its refused removal |
| EpollRefusals.AgreesAfter | lib/sys/linux/eventloop.cpp:46-231 | exactly when registry and kernel agree about a descriptor after a step, refused additions included |
| EpollRefusals.RefusedAdditionSticks | lib/sys/linux/eventloop.cpp:60-84 | after a refused addition of a descriptor, and until one of its handlers is erased, every later addition leaves the kernel without it and begins no drain, and the loop enters none of its handlers |
| EpollDraining.BitsOnlyGoOff | lib/sys/linux/eventloop.cpp:254-300 | no step but a wait sets a bit of the batch |
| EpollDraining.FairPass | lib/sys/linux/eventloop.cpp:254-300 | in every run a pass calls no position twice, goes in batch order, and serves each set bit when it is reached; a bit left on keeps the loop from waiting |
| EpollDraining.WaitsOnlyWhenDrained | lib/sys/linux/eventloop.cpp:254-300 | the loop goes back to waiting only when all bits of the batch are off |
| EpollDraining.PassesBounded | lib/sys/linux/eventloop.cpp:254-300 | when nothing arrives and each positive result consumed at least one unit, the further passes made from the start of any pass plus the work left never exceed the work there was |
| EpollDraining.PassShrinksWork | lib/sys/linux/eventloop.cpp:254-300 | under these conditions the total of unread work strictly decreases from each pass to the next |
| EpollWakeup.NoLostWakeup | lib/sys/linux/eventloop.cpp:87-92 | in every run that is diligent for a channel, whatever other handlers do and the kernel refuses of other descriptors, the channel, while registered, reported and with work, has a queued edge, a pending bit, or an initial drain still running |
| EpollWakeup.RegisteredNotLost | lib/sys/linux/eventloop.cpp:46-300 | the same of every registered channel, in the caller's terms: no removal of a reported channel and no addition to its own descriptor is refused, its own handler returns 0 or less only after seeing the channel empty, and the stop record is not met while it is pending |
| EpollWakeup.BlocksOnlyWhenEmpty | lib/sys/linux/eventloop.cpp:239-300 | epoll_wait never blocks on stranded data of a channel for which the run was diligent |
| EpollWakeup.StepCovers | lib/sys/linux/eventloop.cpp:46-300 | each step that is diligent for a channel keeps its wakeup covered |
| EpollWakeup.ChangeKeepsIff | lib/sys/linux/eventloop.cpp:46-231 | an accepted addition or removal keeps all wakeups if and only if the other direction of the descriptor is not registered, or was reported before, or has no work, or is being drained |
| EpollWakeup.RefusedOutputStrands | lib/sys/linux/eventloop.cpp:121-132 | a run, with attentive handlers and accepted removals, in which a refused addOutEvent and an accepted addEvent leave the loop waiting although there is room to write, and nothing will report it |
| EpollWakeup.StopThenWait | lib/sys/linux/eventloop.cpp:294-297 | stopping, executing again and waiting keeps the wakeup of a channel if and only if it did not rely on the discarded batch alone |
| EpollWakeup.StopStrandsTail | lib/sys/linux/eventloop.cpp:294-297 | a wait that delivers the stop record first strands the unread data of the record behind it |
| EpollWakeup.StopStrands | lib/sys/linux/eventloop.cpp:294-297 | a run from the start that strands data by stopping |
| EpollHandlers.StoredIsLast | lib/include/hbk/sys/eventloop.h:55 | after every run, refusals or not, the registry holds for each channel exactly the handler of its last registration since it was erased |
| EpollHandlers.CalledIsLast | lib/sys/linux/eventloop.cpp:257-279 | in every run the handler that the loop is calling is the one of the last registration of its channel when the loop entered it |
| EpollHandlers.RegisteredIsCalled | lib/sys/linux/eventloop.cpp:66-73 | after any run, a registration of a channel makes its handler the one that the loop calls next for it, until another registration or an erase |
| EpollHandlers.DrainCallsItsOwn | lib/sys/linux/eventloop.cpp:87-92 | in every run an open initial drain calls the handler that was registered with it, even after that was replaced or erased, and the kernel had accepted it |
| EventLoops.Epoll.Ctl | lib/sys/linux/eventloop.cpp:76-85 | the kernel contract: adding wants an absent descriptor, the other operations a present one; queued edges of kept directions stay, readiness from before is not queued |
| EventLoops.EventLoop.constructor | lib/sys/linux/eventloop.cpp:21-37 | the fields start as the initial state of the machine |
| EventLoops.EventLoop.EnterIn | lib/sys/linux/eventloop.cpp:52-85 | the registration part of addEvent is exactly one registration step, with the return value of epoll_ctl, and begins an initial drain with that handler exactly when it succeeds; the new handler replaces the stored one, accepted or not, the other direction and all other descriptors stay, and an accepting kernel reports exactly the directions with a handler |
| EventLoops.EventLoop.AddEvent | lib/sys/linux/eventloop.cpp:46-93 | refuses an empty handler or descriptor -1 without effect; otherwise registers, and returns 0 exactly if the kernel accepts, after the initial drain has made its calls in order and has ended; else it was cut in a drain whose script ran out |
| EventLoops.EventLoop.EnterOut | lib/sys/linux/eventloop.cpp:101-134 | the same for the registration part of addOutEvent |
| EventLoops.EventLoop.AddOutEvent | lib/sys/linux/eventloop.cpp:95-142 | the same for addOutEvent |
| EventLoops.EventLoop.InitialDrain | lib/sys/linux/eventloop.cpp:87-92 | calls the new handler, each call doing what it does and returning, exactly until the first result that is not positive; it is cut only when all scripted calls of this drain, or of one begun in it, have been made and all reported that there is more |
| EventLoops.EventLoop.TurnOff | lib/sys/linux/eventloop.cpp:174-184 | the loop over the batch with its early break, in place |
| EventLoops.EventLoop.EraseEvent | lib/sys/linux/eventloop.cpp:144-187 | returns -1 without effect when there is no input handler; otherwise is exactly one removal step, accepted or refused by the kernel, with its answer; the output handler stays, the entry goes when there is none, and all other descriptors stay |
| EventLoops.EventLoop.EraseOutEvent | lib/sys/linux/eventloop.cpp:189-231 | the same for the output handler |
| EventLoops.EventLoop.Meanwhile | lib/sys/linux/eventloop.cpp:239-240 | arrivals, registrations and removals by other threads before a wait delivers are, one after the other, steps of the machine that leave the loop waiting; it is cut only by a drain whose script ran out |
| EventLoops.EventLoop.Deliver | lib/sys/linux/eventloop.cpp:240 | a successful wait writes the batch as one atomic step |
| EventLoops.EventLoop.EpollWait | lib/sys/linux/eventloop.cpp:240-247 | one wait: delivers, is interrupted, or fails, which leaves the loop exactly if the kernel fails |
| EventLoops.EventLoop.Returned | lib/sys/linux/eventloop.cpp:263-269 | a bit stays on, and is counted, exactly if the result is positive |
| EventLoops.EventLoop.EnterHandler | lib/sys/linux/eventloop.cpp:257-279 | a set bit leads to the stored handler for the direction of the live entry at the address, or, if there is none, to a call the loop must not make |
| EventLoops.EventLoop.Serve | lib/sys/linux/eventloop.cpp:260-293 | one direction of a record: skipped exactly when its bit is off; else the live handler is entered, does what it does, and its result decides the bit; cut only by a missing call for a set bit, a drain whose script ran out, or a call it must not make |
| EventLoops.EventLoop.RunPass | lib/sys/linux/eventloop.cpp:255-299 | one pass examines all positions in order, or meets the stop record; the calls made are the next of the script, and the reason is given when it is cut |
| EventLoops.EventLoop.DrainBatch | lib/sys/linux/eventloop.cpp:254-300 | passes are repeated until no handler asks for another one; calls and reasons as before |
| EventLoops.EventLoop.Execute | lib/sys/linux/eventloop.cpp:233-303 | the whole loop is a run of the machine from its start to the stop record (0) or a failed wait (-1); results come in the order of the script, no wait is made after one that failed, and it is cut only when all waits are used up, all calls are while a bit is set, a drain script ran out, or, after the refused removal of a reported channel only, by a call it must not make |
| EventLoops.EventLoop.Safe | lib/sys/linux/eventloop.cpp:233-303 | at every point of every method the fields satisfy the fairness invariant, and the safety invariant unless the removal of a reported channel was refused |
| Notifiers.DeliverCounts | lib/sys/linux/notifier.cpp:77-89 | processing makes exactly as many calls as the counter said and loses no notification made by a callback |
| Notifiers.DeliversToInstalled | lib/sys/linux/notifier.cpp:77-89 | unless a callback installs another handler, all calls go to the installed one |
| Notifiers.Conservation | lib/sys/linux/notifier.cpp:71-89 | over every run accepted notifications are the calls made plus the counter |
| Notifiers.NotifyThenProcess | lib/sys/linux/notifier.cpp:71-89 | n notifications that fit the counter are all accepted, and the next processing makes n calls more |
| Notifiers.InstalledIsCalled | lib/sys/linux/notifier.cpp:60-68 | an installed handler, an empty one as the default, gets all calls of the next processing, and all but the first of one whose first callback installs it |
| NotifierLoops.RunIsDiligent | lib/sys/linux/notifier.cpp:71-89 | every combined run of notifier and loop, in single steps, is a run of the loop that is diligent for the notifier's channel and in which the counter is the work behind the channel: process has seen its channel empty when it returns, although it reads once and its callbacks may notify again |
| NotifierLoops.OwedConservation | lib/sys/linux/notifier.cpp:71-89 | at every moment of every combined run accepted notifications are the calls made, the counter, and the calls still owed by running processes |
| NotifierLoops.NotificationNotLost | lib/sys/linux/notifier.cpp:71-89 | whatever other handlers do, a registered notifier with a counter above zero has a queued edge, a pending bit or a drain that has not read yet, if the kernel reports it, as it does whenever it refused no addition to the descriptor |
| NotifierLoops.AllDelivered | lib/sys/linux/notifier.cpp:71-89 | n accepted notifications have given exactly n calls whenever the loop waits and no edge of the notifier is queued |
| NotifierLoops.ProcessIsEvents | lib/sys/linux/notifier.cpp:77-89 | the step that the method is proved against is reading, calling and returning in a row |
| Notifiers.Notifier.Set | lib/sys/linux/notifier.cpp:60-68 | an empty handler installs the one that does nothing |
| Notifiers.Notifier.NotifyOnce | lib/sys/linux/notifier.cpp:71-75 | counts up by one, or fails when the counter is full |
| Notifiers.Notifier.ProcessEvent | lib/sys/linux/notifier.cpp:77-89 | refines the delivery the conservation law is about |
| Timers.NanosecondsExact | lib/sys/linux/timer.cpp:68-80 | seconds and nanoseconds of a period make it up exactly |
| Timers.AtMostOnce | lib/sys/linux/timer.cpp:63-130 | over every run, nested callbacks included, a one-shot arming is called at most once, fired or cancelled, never both; no call of an arming follows its cancelled one |
| Timers.RoundsCall | lib/sys/linux/timer.cpp:79-84 | from a setting on, n rounds of one or more expirations and a processing make exactly n calls when repeated, and only the first makes one when not |
| Timers.CancelIsFinal | lib/sys/linux/timer.cpp:93-118 | cancel tells the handler once, exactly if the timer was running, and no later or nested operation calls that arming again |
| Timers.MissedExpirationsCollapse | lib/sys/linux/timer.cpp:120-130 | any number of unread expirations gives one callback |
| Timers.SetSupersedes | lib/sys/linux/timer.cpp:63-91 | after a new setting nothing is called for the arming before it |
| Timers.SetInstalls | lib/sys/linux/timer.cpp:85-89 | the handler given to set is installed if and only if the one before was not empty |
| Timers.SetInsideCancelIsLost | lib/sys/linux/timer.cpp:107-115 | a set inside the cancelled callback takes effect exactly if the callback runs, and is disarmed at once: nothing is called before the next set |
| Timers.Timer.Set | lib/sys/linux/timer.cpp:68-91 | sets the descriptor to the period in nanoseconds, and its interval to the same exactly if repeated; a zero period is refused without effect; when the kernel refuses, the handler is stored all the same |
| Timers.Timer.SetDuration | lib/sys/linux/timer.cpp:63-66 | the overload for durations does the same with the count cut to 32 bits, so a multiple of 2^32 is refused |
| Timers.Timer.Cancel | lib/sys/linux/timer.cpp:93-118 | refines the cancel step, and returns 1 exactly if the timer was running, -1 if the time cannot be read, which drops the handler without telling it; if disarming fails the timer goes on |
| Timers.Timer.ProcessEvent | lib/sys/linux/timer.cpp:120-130 | refines the processing step |
| Streams.StreamSocket.ReadScattered | lib/communication/linux/bufferedreader.cpp:54-62 | the kernel contract of a read into two buffers: any prefix of the unread bytes |
| Streams.TakenAny | lib/communication/linux/bufferedreader.cpp:54-62 | the kernel may return any number of bytes that are there and fit |
| LinuxReaders.Accounting | lib/communication/linux/bufferedreader.cpp:43-72 | reported, kept and dropped bytes are, in this order, carry and bytes read; exactly as many bytes as a refill carried are dropped |
| LinuxReaders.ReturnsExactly | lib/communication/linux/bufferedreader.cpp:40-73 | a call fails exactly when the carry does not serve it and the read does not deliver; else it returns as many bytes as carry or read have, up to the request, and they are the next ones |
| LinuxReaders.LosslessIff | lib/include/hbk/communication/bufferedreader.h:57 | a call behaves like standard recv if and only if the carry is empty or serves the request |
| LinuxReaders.RunExactIff | lib/communication/linux/bufferedreader.cpp:40-73 | a run delivers the stream exactly if and only if every request found the carry empty or long enough |
| LinuxReaders.SingleBytesExact | lib/communication/linux/bufferedreader.cpp:43-49 | requests of at most one byte never lose anything |
| LinuxReaders.RunNeverGrows | lib/communication/linux/bufferedreader.cpp:40-73 | no run invents bytes |
| LinuxReaders.RecvInto | lib/communication/linux/bufferedreader.cpp:40-73 | fields and buffers follow the accounted step and only the caller's range is written; it fails exactly when the carry does not serve and the read does not deliver, else the next bytes are in the buffer, as many as were read, up to the request |
| LinuxReaders.Refill | lib/communication/linux/bufferedreader.cpp:50-72 | the refill path with the carried bytes already copied |
| LinuxReaders.ReceiveComplete | lib/communication/linux/socketnonblocking.cpp:304-336 | block, carry and rest of the stream are what the kernel's answers make of the call, without loss if and only if the carry was empty or served the whole block; the number of bytes delivered is returned, or -1 exactly if the call failed, which it does not as long as the kernel delivers |
| LinuxReaders.CompleteExactIff | lib/communication/linux/socketnonblocking.cpp:304-336 | under any answers a block is received without loss if and only if the carry was empty or served the whole block; else exactly as many bytes are lost as were carried |
| LinuxReaders.CompleteShape | lib/communication/linux/socketnonblocking.cpp:304-336 | it is full exactly when all bytes were delivered, and ends early only at the end of the stream |
| LinuxReaders.DeliveringSucceeds | lib/communication/linux/socketnonblocking.cpp:304-336 | while the kernel delivers, or would block and the poll succeeds, for as many reads as bytes are asked for, a block does not fail: it ends full or at the end of the stream |
| LinuxReaders.FailureHasReason | lib/communication/linux/socketnonblocking.cpp:317-332 | a failed block has as its reason an answer that is neither data nor followed by a successful poll, or the kernel's silence |
| LinuxReaders.FailsAtOnce | lib/communication/linux/socketnonblocking.cpp:317-332 | such an answer, when the carry is not enough, ends the call at once and delivers nothing |
| WindowsReaders.Lossless | lib/communication/windows/bufferedreader.cpp:49-106 | every call is lossless and returns a byte, an error, or has seen the end |
| WindowsReaders.ReturnsExactly | lib/communication/windows/bufferedreader.cpp:49-106 | a call fails exactly when nothing is carried, something is asked for, and a signal read is pending, or the read failed, or it would block and the signal read did not complete; else it returns as many bytes as the carry alone, or the read, has, up to the request, and they are the next ones |
| WindowsReaders.RunExact | lib/communication/windows/bufferedreader.cpp:49-106 | over every sequence of calls delivered bytes, carry and unread bytes are the stream |
| WindowsReaders.RecvInto | lib/communication/windows/bufferedreader.cpp:46-107 | fields and buffers follow that step and nothing else is written; it fails exactly in those cases, else the next bytes are in the buffer, as many as were read, up to the request |
| WindowsReaders.ReadChunk | lib/communication/windows/bufferedreader.cpp:86-106 | what does not fit the caller's buffer becomes the carry |
| WindowsReaders.ReceiveComplete | lib/communication/windows/socketnonblocking.cpp:217-266 | block, carry and rest of the stream are what the kernel's answers make of the call; the number of bytes delivered is returned, all up to the end of the stream when it is short, or -1 exactly if the call failed, which it does not as long as the kernel delivers |
| WindowsReaders.CompleteExact | lib/communication/windows/socketnonblocking.cpp:217-266 | under any answers nothing is lost, even on failure; a block is full exactly when all its bytes were delivered, and ends early only at the end of the stream |
| WindowsReaders.DeliveringSucceeds | lib/communication/windows/socketnonblocking.cpp:239-266 | while turns bring data, or end in a successful wait for a signal read on its way, for as many reads as bytes are asked for, a block does not fail |
| WindowsReaders.FailureHasReason | lib/communication/windows/socketnonblocking.cpp:250-263 | a failed block has as its reason a turn that does neither, or the kernel's silence |
| WindowsReaders.FailsAtOnce | lib/communication/windows/socketnonblocking.cpp:250-263 | such a turn, when nothing is carried, ends the call at once and delivers nothing |
| GatherSend.SkipBlock | lib/communication/linux/socketnonblocking.cpp:389-399 | skipping a whole block keeps sent bytes and described bytes the original bytes |
| GatherSend.CutBlock | lib/communication/linux/socketnonblocking.cpp:389-399 | so does cutting the front off a block |
| GatherSend.NotPastTheEnd | lib/communication/linux/socketnonblocking.cpp:389-399 | as long as bytes are left there is a block to look at |
| GatherSend.Reorganize | lib/communication/linux/socketnonblocking.cpp:389-399 | the unbounded inner loop ends on a block with bytes left, zero-size blocks included, and never runs past the last |
| GatherSend.SendBlocks | lib/communication/linux/socketnonblocking.cpp:339-408 | wire and result are functions of the kernel's answers: a prefix of the original bytes goes out, the total length is returned if the answers let it deliver, 0 for a closed connection and -1 for an error or failed poll; when bytes are missing the caller's array still describes them |
| GatherSend.GatherDeliveredIff | lib/communication/linux/socketnonblocking.cpp:339-408 | with bytes to send it delivers exactly when all of them go out |
| GatherSend.GatherDecided | lib/communication/linux/socketnonblocking.cpp:368-407 | the first answer that accepts the last missing byte or does not let the loop go on decides: the total for the last byte, 0 for a closed connection, -1 for an error or a failed poll; all that was accepted is on the wire |
| GatherSend.GatherSilent | lib/communication/linux/socketnonblocking.cpp:368-407 | without such an answer the call fails, with all that was accepted on the wire |
| GatherSend.SendBlockList | lib/communication/linux/socketnonblocking.cpp:412-420 | the same from a copy, so the caller's blocks stay |
| GatherSend.SendBlock | lib/communication/linux/socketnonblocking.cpp:422-461 | wire and result are functions of the kernel's answers; the size is returned exactly if no closed connection, error or failed poll comes before all bytes are out |
| GatherSend.DeliveredIff | lib/communication/linux/socketnonblocking.cpp:422-461 | sending one area ends regularly exactly if all its bytes go out |
| GatherSend.SendDecided | lib/communication/linux/socketnonblocking.cpp:422-461 | the same decision for one area, where only a send that would block is followed by a poll |
| GatherSend.SendSilent | lib/communication/linux/socketnonblocking.cpp:422-461 | without a deciding answer the call fails, with all that was accepted on the wire |
| GatherSend.SendThreeWays | lib/communication/linux/socketnonblocking.cpp:339-461 | when the kernel's answers let all three forms deliver the wires are equal; with bytes to send each form returns the total size exactly if all of them went out |
| WindowsSend.SendBlock | lib/communication/windows/socketnonblocking.cpp:331-369 | returns -1 exactly if the connection is closed by the peer, and else the size, whatever part went out |
| WindowsSend.BlockInGathered | lib/communication/windows/socketnonblocking.cpp:309-315 | the cumulative sums mark where each block lies in the gathered bytes |
| WindowsSend.RestOfBlock | lib/communication/windows/socketnonblocking.cpp:312-316 | start and size computed from the sum select exactly the missing part of the block |
| WindowsSend.ResumedPrefix | lib/communication/windows/socketnonblocking.cpp:309-325 | as long as no error is swallowed, what goes out are the next missing bytes, without a hole |
| WindowsSend.SuffixIff | lib/communication/windows/socketnonblocking.cpp:309-325 | from any accepted prefix exactly the missing suffix follows if and only if every block with a rest is delivered |
| WindowsSend.FalseSuccessIff | lib/communication/windows/socketnonblocking.cpp:309-327 | the full size is reported although bytes are missing if and only if no block ends with a closed connection and some block ends with an error |
| WindowsSend.SendBlocks | lib/communication/windows/socketnonblocking.cpp:278-328 | the wire has what the first write took and what passes of the rest of every block that is reached; -1 is returned exactly if a block ends with a closed connection, else the full size; a failed first write returns its code |
| WindowsSend.SendRest | lib/communication/windows/socketnonblocking.cpp:309-325 | the arithmetic on sums and sizes sends exactly the part of the block that the gather write did not take |
| WindowsSend.SwallowedError | lib/communication/windows/socketnonblocking.cpp:353-366 | one byte that did not go out is reported as sent |
| TimeConvert.NoOverflow | lib/sys/timeconvert.cpp:32-48 | no intermediate product leaves 64 bits |
| TimeConvert.OffsetIs | lib/sys/timeconvert.cpp:30 | the offset between the epochs is the number of days from 1900 to 1970, leap days counted, in seconds |
| TimeConvert.NanoFraction | lib/sys/timeconvert.cpp:41-48 | the fraction is that of the nanoseconds beyond full seconds, rounded down |
| TimeConvert.MicroFraction | lib/sys/timeconvert.cpp:32-39 | the same for microseconds |
| TimeConvert.NanosecondsRoundTrip | lib/sys/timeconvert.cpp:41-48 | nanoseconds to fraction and back gives n mod 10^9 for every 32-bit n |
| TimeConvert.MicrosecondsRoundTrip | lib/sys/timeconvert.cpp:32-39 | microseconds to fraction and back gives n mod 10^6 |
| TimeConvert.NanosecondsReverseTrip | lib/sys/timeconvert.cpp:112-120 | a fraction comes back within 4 below and 1 above, the largest one as zero |
| TimeConvert.MicrosecondsReverseTrip | lib/sys/timeconvert.cpp:103-110 | by way of microseconds within 4294 below and 1 above; the largest one wraps to zero |
| TimeConvert.NanosecondsBoundsReached | lib/sys/timeconvert.cpp:112-120 | both bounds are reached |
| TimeConvert.MicrosecondsBoundsReached | lib/sys/timeconvert.cpp:103-110 | both bounds are reached |
| TimeConvert.FractionOfLowerHalf | lib/sys/timeconvert.cpp:50-59 | the fraction is that of the low 32 bits of the argument |
| TimeConvert.NtpStructRecomposes | lib/sys/timeconvert.cpp:50-59 | seconds and fraction make up n if and only if the seconds fit 32 bits and 5^9 divides n / 2^32; so always below 2^32 |
| TimeConvert.NtpStructFails | lib/sys/timeconvert.cpp:50-59 | 4.3 seconds do not recompose |
| TimeConvert.FormsAgree | lib/sys/timeconvert.cpp:86-101 | the 64-bit form is the struct form, for every timeval whose seconds do not overflow when aligned |
| TimeConvert.Unpacks | lib/sys/timeconvert.cpp:86-110 | the seconds come back exactly for those that fit after alignment, the microseconds always modulo one second |
| TimeConvert.OrderPreserving | lib/sys/timeconvert.cpp:86-93 | within the era packing is strictly order preserving |
| Splitting.Leftmost | lib/string/split.cpp:36 | what the search finds is the first match at or after the position |
| Splitting.JoinSplit | lib/string/split.cpp:47-69 | joining the tokens gives the text back, for every non-empty separator |
| Splitting.TokensFree | lib/string/split.cpp:47-69 | no token contains the separator |
| Splitting.SplitUnique | lib/string/split.cpp:47-69 | split returns the one list of tokens that joins to the text and is cut off where the separators stand |
| Splitting.SplitInvertsJoin | lib/string/split.cpp:29-45 | with a single character split inverts join on every non-empty list of tokens free of it |
| Splitting.SplitFrom | lib/string/split.cpp:60-68 | the loop both overloads run returns those tokens |
| Splitting.SplitAtChar | lib/string/split.cpp:29-45 | the overload for a character agrees with the one for a text of that character |
| Splitting.SplitAtString | lib/string/split.cpp:47-69 | the overload for texts; an empty separator does not split |
| Replacing.EndsIff | lib/string/replace.cpp:37-45 | the loop ends if and only if the text has no match or the rescanned part of the substitute has none; never for an empty search, always for a substitute no longer than a non-empty search |
| Replacing.ReplacesWhatSplitCuts | lib/string/replace.cpp:37-45 | the loop replaces exactly the occurrences that split cuts at if and only if the moved tokens stay cut off; then the outcome is the tokens joined by the substitute |
| Replacing.ShorterStaysCut | lib/string/replace.cpp:40-43 | for a substitute no longer than the search that condition is: no two occurrences lie closer together than the difference of the lengths |
| Replacing.SameLengthReplacesAll | lib/string/replace.cpp:37-45 | with equal lengths every occurrence is replaced, on every text |
| Replacing.PassesOver | lib/string/replace.cpp:40-43 | a text in which a shorter substitute leaves an occurrence |
| Replacing.ReplacesAgain | lib/string/replace.cpp:40-43 | a text in which a longer substitute replaces what it made |
| Replacing.ReplaceString | lib/string/replace.cpp:37-45 | the loop on the text itself, for every call on which it ends |
| Replacing.OverloadsAgree | lib/string/replace.cpp:31-45 | exchanging a character is replacing a text of length one |
| Replacing.ReplaceChar | lib/string/replace.cpp:31-35 | every character is exchanged in place |
| Decimals.DecimalRoundTrip | lib/communication/ipv4address.cpp:147 | printed numbers have no leading zero and read back as themselves |
| Decimals.ReadDecimal | lib/communication/ipv4address.cpp:140-141 | std::stoul reads back what was printed |
| Decimals.ReadsNumeric | lib/communication/ipv4address.cpp:140-141 | std::stoul reads white space, a sign and digits, whatever follows; a minus negates in 64 bits, and 2^64 or more is out of range |
| Decimals.InvalidIff | lib/communication/ipv4address.cpp:140-141 | every other text is invalid |
| Bits.BitOfBoth | lib/communication/ipv4address.cpp:146 | each bit of a bitwise and, or or, is that of the two bits |
| Ipv4.QuadText | lib/communication/ipv4address.cpp:168 | the text of an address is its four bytes in decimal, the most significant first, with dots between |
| Ipv4.ParseIff | lib/communication/ipv4address.cpp:180 | exactly the printed quads parse, each to its own address |
| Ipv4.MaskedBytes | lib/communication/ipv4address.cpp:146 | masking byte by byte is masking the 32-bit value |
| Ipv4.GetSubnet | lib/communication/ipv4address.cpp:127-151 | the printed bitwise and; otherwise no text for a wrong number of parts, and else what the first faulty part makes of the call, exceptions included |
| Ipv4.SubnetIff | lib/communication/ipv4address.cpp:127-151 | a non-empty subnet is returned if and only if all parts read as bytes, and it is the printed bitwise and of the two 32-bit values |
| Ipv4.FirstFaultDecides | lib/communication/ipv4address.cpp:138-146 | the first pair of parts that does not read as bytes decides: the exception of the address part, else of the netmask part, else no text |
| Ipv4.SubnetIdempotent | lib/communication/ipv4address.cpp:127-151 | the subnet of a subnet is itself |
| Ipv4.SameSubnetIff | lib/communication/ipv4address.cpp:127-151 | under a contiguous mask of length p two addresses give the same text if and only if their upper p bits agree |
| Ipv4.WrapsToByte | lib/communication/ipv4address.cpp:140-145 | a part too large by a multiple of 2^32 passes for a byte |
| Ipv4.MaskFromPrefix | lib/communication/ipv4address.cpp:159-166 | the loop, for any width, computes 2^width - 2^(width - prefix) |
| Ipv4.MaskBit | lib/communication/ipv4address.cpp:159-166 | that value has ones exactly above the prefix |
| Ipv4.PrefixFromMask | lib/communication/ipv4address.cpp:186-203 | the two loops, for any width, return p exactly for the mask of length p, and -1 for every mask with a gap |
| Ipv4.GetNetmaskFromPrefix | lib/communication/ipv4address.cpp:153-171 | the printed mask, no text beyond 32 |
| Ipv4.GetPrefixFromNetmask | lib/communication/ipv4address.cpp:173-204 | the prefix of a contiguous mask, -1 for every other text |
| Ipv4.PrefixInverse | lib/communication/ipv4address.cpp:153-204 | the two functions are inverse on all of 0..32, no other text has a prefix, and different prefixes have different texts |
| NetadapterLists.ApipaIff | lib/communication/ipv4address.cpp:50-64 | exactly the printed addresses of 169.254.0.0/16 are APIPA addresses |
| NetadapterLists.CountPrefix | lib/communication/linux/netadapterlist.cpp:209-228 | counts the set bits in front of the first zero byte |
| NetadapterLists.CountIsPrefix | lib/communication/linux/netadapterlist.cpp:209-228 | of every contiguous IPv6 mask that count is the prefix |
| NetadapterLists.OnesIsCount | lib/communication/linux/netadapterlist.cpp:216-224 | within a byte the number of bits that are set |
| NetadapterLists.ArrangedIs | lib/communication/linux/netadapterlist.cpp:194-199 | arranging keeps every address and puts the APIPA addresses at the end |
| NetadapterLists.ArrangedLast | lib/communication/linux/netadapterlist.cpp:194-199 | one more address goes to the end if it is an APIPA address, else to the front |
| NetadapterLists.NetadapterList.Update | lib/communication/linux/netadapterlist.cpp:138-243 | everything is stored: each interface with an address, multicast and hardware has its index in the list, and its IPv4 address and netmask read back from some entry there; and nothing else: name and hardware are those of the first such interface of the index, the master the last that was told, and every stored address was told |
| NetadapterLists.UpdateStores | lib/communication/linux/netadapterlist.cpp:138-243 | the same as a law of what update promises |
| NetadapterLists.AdapterCount | lib/communication/linux/netadapterlist.cpp:180-199 | no address is stored twice or dropped |
| NetadapterLists.UpdatePrints | lib/communication/linux/netadapterlist.cpp:183-199 | update stores printed addresses only |
| NetadapterLists.PrintedSubnet | lib/communication/linux/netadapterlist.cpp:300 | texts of subnets agree exactly when the network numbers do |
| NetadapterLists.NetadapterList.CheckSubnet | lib/communication/linux/netadapterlist.cpp:290-307 | the nested search in index order, exceptions of getSubnet included |
| NetadapterLists.CheckFinds | lib/communication/linux/netadapterlist.cpp:290-307 | after update: the name of the adapter with the lowest index that is not excluded and has an address with the requested network number, no text if there is none |
| NetadapterLists.FreeIff | lib/communication/linux/netadapterlist.cpp:290-307 | with non-empty names no text means exactly that the subnet is free |

## Left out

- EventLoops.EventLoop.AddEvent: the private stop descriptor is not registered by users.
- EventLoops.EventLoop.AddOutEvent: the same.
- EpollWakeup.NoLostWakeup: the channel's own handler throws nothing, and reports that nothing is left only after seeing its channel empty; of a channel that the kernel does not report nothing is promised, `RegisteredNotLost` says when it does.
- EventLoops.EventLoop.Execute: an initial drain that another thread runs is finished before the loop moves on; the machine has all interleavings. Arrivals between two calls of a pass are told at the end of the first.
- NotifierLoops.AllDelivered: the handler of the notifier's descriptor is always its own `process`.
- Timers.CancelIsFinal: like all theorems about runs of a timer, over runs in which the kernel accepts what the timer sets; `Timer.Set` and `Timer.Cancel` say what one call does when it does not.
- Timers.Timer.ProcessEvent: calling an empty handler throws and the event loop catches it; the model leaves no trace of it.
- WindowsReaders.ReceiveComplete: waiting for a socket whose signal read is still pending is one wait with one answer, where the code may wait repeatedly.
- WindowsReaders.RecvInto: the read repeated after a signal read that completed at once is taken to succeed, since data is there; the code uses its count unchecked.
- Replacing.ReplaceString: calls on which the loop never ends have no result; `EndsIff` says which they are.
- NetadapterLists.NetadapterList.Update: a listed interface has a non-empty hardware address, as the code that reads it makes sure; the text of IPv6 addresses is taken as given.
- Ipv4.GetSubnet: std::stoul as on 64-bit Linux.
- Callbacks that throw: a throw leaves a bit set without counting it.
- The unlocked moment in which the loop writes the number of records, iterators read after erasing, and destroying a running callback: the model's steps are atomic.
- Executing the loop from inside a callback, and closing a descriptor without erasing it.
- Real system calls: replies come from scripts, and a script that ends stands for a fatal error (sockets) or cuts the observation (event loop), so every loop ends.
- Sizes beyond `int` and `ssize_t`, which the socket code casts.
- The Windows event loop, multicast servers, netlink, WMI, connecting and accepting, socket options: plumbing around system calls.
- Conversions of `double` timestamps: floating point.
- `trim`, IPv6 text helpers, pid file, `executeCommand`, `isValidManualAddress` and `isValidNetmask`: would only add easy members.
