/**
 The event loop with its fields updated in place (lib/sys/linux/eventloop.cpp), refining the step machine: every
 method extends a ghost log of actions, and the fields always are the state the machine reaches by that log. What
 the machine keeps over all runs therefore holds of the code. What callbacks, other threads and the kernel do is
 given by a script: while a handler runs, and before every wait delivers. A script that ends cuts the observation there,
 and so does a call through a dead entry or an empty handler, which is possible only after a refused removal. Every
 method that can be cut says why it was.
*/
module EventLoops {
  import opened Options
  import opened EpollMachine
  import opened EpollSafety
  import opened EpollDraining

  datatype CtlOp = CtlAdd | CtlMod | CtlDel

  /** The kernel side of one epoll instance, and the work waiting behind the descriptors. */
  class Epoll {
    var interest: map<Fd, Interest>
    var edges: set<Channel>
    ghost var work: map<Channel, nat>

    constructor (stop: Fd)
      ensures interest == map[stop := Interest({In}, None)] && edges == {} && work == map[]
    {
      interest, edges, work := map[stop := Interest({In}, None)], {}, map[];
    }

    /** epoll_ctl. Adding wants an absent descriptor, the other operations a present one; `ok` is false when the
        kernel refuses for another reason. Readiness from before the call is not queued. */
    method Ctl(op: CtlOp, fd: Fd, mask: set<Dir>, ptr: Option<Addr>, ok: bool) returns (ret: int)
      modifies this`interest, this`edges
      ensures ret == if ok && (op.CtlAdd? <==> fd !in old(interest)) then 0 else -1
      ensures ret == -1 ==> interest == old(interest) && edges == old(edges)
      ensures ret == 0 ==>
        interest == if op.CtlDel? then old(interest) - {fd} else old(interest)[fd := Interest(mask, ptr)]
      ensures ret == 0 ==>
        edges == if op.CtlAdd? then old(edges) else Retain(old(edges), fd, if op.CtlDel? then {} else mask)
    {
      if !ok || op.CtlAdd? != (fd !in interest) {
        return -1;
      }
      if op.CtlDel? {
        interest, edges := interest - {fd}, Retain(edges, fd, {});
      } else {
        interest, edges := interest[fd := Interest(mask, ptr)], if op.CtlAdd? then edges else Retain(edges, fd, mask);
      }
      return 0;
    }
  }

  /** One call of a handler: what happens while it runs, and what it returns. */
  datatype Behaviour = Behaviour(deeds: seq<Deed>, result: int)

  datatype Deed =
    | Arrives(chan: Channel, amount: nat)
    | Consumes(amount: nat)
    | FindsEmpty
    | Adds(fd: Fd, dir: Dir, handler: Option<Handler>, ok: bool, drain: seq<Behaviour>)
    | Erases(fd: Fd, dir: Dir, ok: bool)

  /** Why an observation ends early: no further reply of the kernel, no further call of a dispatched handler, no further
      call in an initial drain, or a call that goes nowhere. */
  datatype Cut = Whole | NoReply | NoCall | NoDrainCall | Crash

  function Results(calls: seq<Behaviour>): (r: seq<int>)
    ensures |r| == |calls|
  {
    seq(|calls|, i requires 0 <= i < |calls| => calls[i].result)
  }

  lemma ResultsNext(calls: seq<Behaviour>, k: nat)
    requires k < |calls|
    ensures Results(calls)[k..] == [calls[k].result] + Results(calls)[k + 1..]
    ensures Results(calls)[..k + 1] == Results(calls)[..k] + [calls[k].result]
  {
  }

  lemma Passed(was: seq<int>, now: seq<int>, results: seq<int>, k: nat)
    requires k <= |results| && now + results[k..] == was + results
    ensures now == was + results[..k] && was <= now <= was + results
  {
    assert results == results[..k] + results[k..];
    assert now + results[k..] == (was + results[..k]) + results[k..];
    assert now == (now + results[k..])[..|now|];
    assert was + results[..k] == ((was + results[..k]) + results[k..])[..|was| + k];
  }

  /** How often the loop has waited. */
  function Waits(acts: seq<Action>): nat
    decreases |acts|
  {
    if acts == [] then 0
    else
      var last := acts[|acts| - 1];
      Waits(acts[..|acts| - 1]) + if last.Wait? || last.WaitFails? then 1 else 0
  }

  /** What the dispatched handlers have returned. */
  function Returns(acts: seq<Action>): seq<int>
    decreases |acts|
  {
    if acts == [] then []
    else
      var last := acts[|acts| - 1];
      Returns(acts[..|acts| - 1]) + if last.Return? then [last.result] else []
  }

  /** What the handler of one initial drain has returned. */
  function DrainReturns(acts: seq<Action>, id: nat): seq<int>
    decreases |acts|
  {
    if acts == [] then []
    else
      var last := acts[|acts| - 1];
      DrainReturns(acts[..|acts| - 1], id) + if last.DrainReturn? && last.id == id then [last.result] else []
  }

  ghost predicate Tallies(acts: seq<Action>, waits: nat, returned: seq<int>, drained: seq<seq<int>>) {
    && Waits(acts) == waits
    && Returns(acts) == returned
    && (forall id: nat :: DrainReturns(acts, id) == if id < |drained| then drained[id] else [])
  }

  lemma TalliesSnoc(acts: seq<Action>, waits: nat, returned: seq<int>, drained: seq<seq<int>>, a: Action)
    requires Tallies(acts, waits, returned, drained) && (a.DrainReturn? ==> a.id < |drained|)
    ensures Tallies(acts + [a], waits + if a.Wait? || a.WaitFails? then 1 else 0,
                    if a.Return? then returned + [a.result] else returned,
                    if a.DrainReturn? then drained[a.id := drained[a.id] + [a.result]] else drained)
  {
    assert (acts + [a])[..|acts|] == acts;
    forall id: nat
      ensures DrainReturns(acts + [a], id) ==
              if a.DrainReturn? && a.id == id then drained[id] + [a.result]
              else if id < |drained| then drained[id] else []
    {
    }
  }

  lemma TalliesNewDrain(acts: seq<Action>, waits: nat, returned: seq<int>, drained: seq<seq<int>>)
    requires Tallies(acts, waits, returned, drained)
    ensures Tallies(acts, waits, returned, drained + [[]])
  {
  }

  /** The results end an initial drain: the first that is not positive is the last. */
  predicate EndsDrain(results: seq<int>) {
    && |results| > 0 && results[|results| - 1] <= 0
    && (forall i :: 0 <= i < |results| - 1 ==> results[i] > 0)
  }

  lemma DrainsPrefix(results: seq<int>, drain: seq<Behaviour>, k: nat)
    requires 0 < k <= |drain| && results == Results(drain)[..k] && drain[k - 1].result <= 0
    requires forall i :: 0 <= i < k - 1 ==> drain[i].result > 0
    ensures results <= Results(drain) && EndsDrain(results)
  {
  }

  /** A drain is still open although it has made all the scripted calls: each has reported that there is more. */
  ghost predicate UsedUp(drain: seq<Behaviour>, drains: map<nat, Drain>, drained: seq<seq<int>>) {
    && (forall i :: 0 <= i < |drain| ==> drain[i].result > 0)
    && (exists id :: id in drains && id < |drained| && drained[id] == Results(drain))
  }

  /** So is this drain, or one begun while its handler ran. */
  ghost predicate DrainOut(drain: seq<Behaviour>, drains: map<nat, Drain>, drained: seq<seq<int>>)
    decreases drain, 0
  {
    UsedUp(drain, drains, drained) || exists i :: 0 <= i < |drain| && DeedsOut(drain[i].deeds, drains, drained)
  }

  ghost predicate DeedsOut(deeds: seq<Deed>, drains: map<nat, Drain>, drained: seq<seq<int>>)
    decreases deeds, 0
  {
    exists i :: 0 <= i < |deeds| && DeedOut(deeds[i], drains, drained)
  }

  ghost predicate DeedOut(deed: Deed, drains: map<nat, Drain>, drained: seq<seq<int>>)
    decreases deed, 0
  {
    deed.Adds? && DrainOut(deed.drain, drains, drained)
  }

  predicate Registers(a: Action, fd: Fd, dir: Dir, handler: Handler, ok: bool) {
    a.Register? && a.fd == fd && a.dir == dir && a.handler == handler && a.ok == ok
  }

  /** What one epoll_wait delivers. */
  datatype Outcome = Ready(picked: seq<Fd>) | Interrupted | Failed

  /** One wait: what other threads and the kernel do before it delivers, and what it delivers. */
  datatype Reply = Reply(meanwhile: seq<Deed>, outcome: Outcome)

  lemma RegisterGives(s: State, fd: Fd, d: Dir, h: Handler, addr: Addr, ok: bool, id: nat, e: Entry)
    requires e == EntryFor(s.infos, fd, addr).Put(d, Some(h))
    ensures DoRegister(s, fd, d, h, addr, ok, id) ==
            if ok && (fd in s.infos <==> fd in s.interest) then
              s.(infos := s.infos[fd := e], interest := s.interest[fd := Interest(e.Mask(), Some(e.addr))],
                 edges := if fd in s.infos then Retain(s.edges, fd, e.Mask()) else s.edges,
                 drains := s.drains[id := Drain(Channel(fd, d), h, false)])
            else s.(infos := s.infos[fd := e])
  {
  }

  lemma WaitDelivers(s: State, picked: seq<Fd>, batch: seq<Record>)
    requires s.ctl.Blocking? && |picked| <= MAX_EVENTS && Distinct(picked)
    requires |batch| == |picked|
    requires forall i :: 0 <= i < |picked| ==> Pickable(s, picked[i]) && batch[i] == RecordFor(s, picked[i])
    ensures Enabled(s, Wait(picked))
    ensures Next(s, Wait(picked)) ==
            s.(batch := batch, edges := (set c | c in s.edges && c.fd !in picked), ctl := At(Pass(0, 0, [], 0)))
  {
    assert batch == DoWait(s, picked).batch;
  }

  lemma WaitWithout(s: State, a: Action)
    requires s.ctl.Blocking? && (a == WaitFails || a == Wait([]))
    ensures Enabled(s, a)
    ensures Next(s, a) == s.(batch := [], ctl := if a.WaitFails? then Outside else At(Pass(0, 0, [], 0)))
  {
    if a.Wait? {
      WaitDelivers(s, [], []);
      assert s.edges == set c | c in s.edges && c.fd !in [];
    }
  }

  function EntryFor(infos: map<Fd, Entry>, fd: Fd, addr: Addr): Entry {
    if fd in infos then infos[fd] else Entry(addr, None, None)
  }

  function Min(m: nat, n: nat): nat { if m <= n then m else n }

  /** What one deed adds to the log `before`; what an initial drain does comes after its registration. `who` is the
      running handler that does it, if it is one. */
  ghost predicate Done(stop: Fd, before: seq<Action>, after: seq<Action>, deed: Deed, who: Option<Who>) {
    var s := Exec(Init(stop), before);
    s.Some? &&
    var own := if who.Some? then ChannelOf(s.value, who.value) else None;
    match deed
    case Arrives(c, n) => after == before + if n > 0 then [Arrive(c, n)] else []
    case Consumes(n) =>
      after == before + if own.Some? then [Consume(who.value, Min(n, s.value.Work(own.value)))] else []
    case FindsEmpty =>
      after == before + if own.Some? && s.value.Work(own.value) == 0 then [SeeEmpty(who.value)] else []
    case Erases(fd, d, ok) =>
      after == before + if s.value.Registered(Channel(fd, d)) then [Unregister(fd, d, ok)] else []
    case Adds(fd, d, h, ok, _) =>
      if h.None? || fd == -1 || fd == stop then after == before
      else |after| > |before| && before <= after && Registers(after[|before|], fd, d, h.value, ok)
  }

  /** The log has grown by these deeds, one after the other. */
  ghost predicate AllDone(stop: Fd, before: seq<Action>, after: seq<Action>, deeds: seq<Deed>, who: Option<Who>)
    decreases |deeds|
  {
    if deeds == [] then after == before
    else
      exists n :: 0 <= n <= |after| && AllDone(stop, before, after[..n], deeds[..|deeds| - 1], who) &&
        Done(stop, after[..n], after, deeds[|deeds| - 1], who)
  }

  lemma OneMoreDone(stop: Fd, before: seq<Action>, mid: seq<Action>, after: seq<Action>, deeds: seq<Deed>, i: nat,
                    who: Option<Who>)
    requires i < |deeds| && AllDone(stop, before, mid, deeds[..i], who) && mid <= after
    requires Done(stop, mid, after, deeds[i], who)
    ensures AllDone(stop, before, after, deeds[..i + 1], who)
  {
    hide Done;
    assert after[..|mid|] == mid && deeds[..i + 1][..i] == deeds[..i];
  }

  /** An initial drain has made these calls: each does what it does and returns. */
  ghost predicate DrainDone(stop: Fd, before: seq<Action>, after: seq<Action>, id: nat, calls: seq<Behaviour>)
    decreases |calls|
  {
    if calls == [] then after == before
    else
      var last := calls[|calls| - 1];
      && |after| > 0 && after[|after| - 1] == DrainReturn(id, last.result)
      && exists n :: 0 <= n < |after| && DrainDone(stop, before, after[..n], id, calls[..|calls| - 1]) &&
           AllDone(stop, after[..n], after[..|after| - 1], last.deeds, Some(Drainer(id)))
  }

  lemma NoCallDone(stop: Fd, before: seq<Action>, id: nat)
    ensures DrainDone(stop, before, before, id, [])
  {
  }

  lemma OneMoreCall(stop: Fd, before: seq<Action>, mid: seq<Action>, end: seq<Action>, id: nat, calls: seq<Behaviour>,
                    i: nat)
    requires i < |calls| && DrainDone(stop, before, mid, id, calls[..i]) && mid <= end
    requires AllDone(stop, mid, end, calls[i].deeds, Some(Drainer(id)))
    ensures DrainDone(stop, before, end + [DrainReturn(id, calls[i].result)], id, calls[..i + 1])
  {
    hide AllDone;
    var after := end + [DrainReturn(id, calls[i].result)];
    assert after[..|mid|] == mid && after[..|after| - 1] == end && calls[..i + 1][..i] == calls[..i];
  }

  /** The loop has entered a handler, which has done what it does and has returned. */
  ghost predicate Served(stop: Fd, before: seq<Action>, after: seq<Action>, call: Behaviour) {
    && |after| > 0 && after[|after| - 1] == Return(call.result)
    && AllDone(stop, before + [Advance], after[..|after| - 1], call.deeds, Some(Loop))
  }

  lemma NothingDone(stop: Fd, before: seq<Action>, who: Option<Who>)
    ensures AllDone(stop, before, before, [], who)
  {
  }

  /** Some live entry at this address has a handler for the direction. */
  predicate HasHandler(infos: map<Fd, Entry>, addr: Addr, d: Dir) {
    exists fd :: fd in infos && infos[fd].addr == addr && infos[fd].Get(d).Some?
  }

  /** There always is an address that no live entry has. */
  lemma AddressesBounded(infos: map<Fd, Entry>)
    ensures exists addr: Addr :: FreeAddress(infos, addr)
  {
    var addr := AboveAll(infos);
    assert FreeAddress(infos, addr);
  }

  lemma AboveAll(infos: map<Fd, Entry>) returns (bound: nat)
    ensures forall g :: g in infos ==> infos[g].addr < bound
    decreases |infos|
  {
    if infos == map[] {
      bound := 0;
    } else {
      assert infos.Items != {};
      var item :| item in infos.Items;
      var g := item.0;
      bound := AboveAll(infos - {g});
      if infos[g].addr >= bound {
        bound := infos[g].addr + 1;
      }
      assert forall h :: h in infos ==> h == g || h in infos - {g};
    }
  }

  lemma {:induction false} FirstHit(batch: seq<Record>, addr: Addr, removed: set<Dir>, n: nat)
    requires n < |batch| && batch[n].ptr == Some(addr)
    requires forall j :: 0 <= j < n ==> batch[j].ptr != Some(addr)
    ensures ClearBits(batch, addr, removed) == batch[n := Record(batch[n].ptr, batch[n].bits - removed)]
  {
    if n > 0 {
      FirstHit(batch[1..], addr, removed, n - 1);
    }
  }

  lemma {:induction false} NoHit(batch: seq<Record>, addr: Addr, removed: set<Dir>)
    requires forall j :: 0 <= j < |batch| ==> batch[j].ptr != Some(addr)
    ensures ClearBits(batch, addr, removed) == batch
  {
    if batch != [] {
      NoHit(batch[1..], addr, removed);
    }
  }

  class EventLoop {
    const epoll: Epoll
    const stop: Fd
    const events: array<Record>
    var eventCount: int
    var infos: map<Fd, Entry>
    ghost var ctl: Control
    ghost var drains: map<nat, Drain>
    ghost var log: seq<Action>
    ghost var waits: nat
    ghost var returned: seq<int>
    ghost var drained: seq<seq<int>>

    function Batch(): seq<Record>
      reads this`eventCount, events
      requires eventCount <= events.Length
    {
      events[..if eventCount < 0 then 0 else eventCount]
    }

    /** The machine state the fields stand for. */
    ghost function Abs(): State
      reads this, epoll, events
      requires eventCount <= events.Length
    {
      State(stop, infos, epoll.interest, epoll.edges, epoll.work, Batch(), ctl, drains)
    }

    ghost predicate Valid()
      reads this, epoll, events
    {
      && events.Length == MAX_EVENTS && eventCount <= events.Length
      && Exec(Init(stop), log) == Some(Abs())
      && (forall id :: id in drains ==> id < |drained|)
      && Tallies(log, waits, returned, drained)
    }

    /** The position of the loop has its bit set, but the script has no further call. */
    ghost predicate AtBit()
      reads this`eventCount, this`ctl, events
      requires eventCount <= events.Length
    {
      && ctl.At? && ctl.pass.pos < 2 * |Batch()|
      && DirAt(ctl.pass.pos) in Batch()[ctl.pass.pos / 2].bits && Batch()[ctl.pass.pos / 2].ptr.Some?
    }

    constructor (epoll: Epoll, stop: Fd)
      requires epoll.interest == map[stop := Interest({In}, None)] && epoll.edges == {} && epoll.work == map[]
      ensures Valid() && this.epoll == epoll && this.stop == stop && fresh(events)
      ensures log == [] && infos == map[] && ctl.Outside? && drains == map[]
    {
      this.epoll, this.stop := epoll, stop;
      events := new Record[MAX_EVENTS](_ => Record(None, {}));
      eventCount, infos := 0, map[];
      ctl, drains, log := Outside, map[], [];
      waits, returned, drained := 0, [], [];
    }

    /** Records keep their pointers: only a wait writes new ones. */
    twostate predicate SameRecords()
      reads events
    {
      forall i :: 0 <= i < events.Length ==> events[i].ptr == old(events[i].ptr)
    }

    /** Whatever the script was: passes are fair, and the loop is safe unless the kernel refused the removal of a
        channel that it reports, by the machine's theorems. */
    lemma Safe()
      requires Valid()
      ensures PassInv(Abs())
      ensures HarmlessRun(Init(stop), log) ==> Inv(Abs()) && !ctl.Wild?
    {
      hide Exec, HarmlessRun, Tallies;
      if HarmlessRun(Init(stop), log) {
        RunKeepsInv(Init(stop), log);
      }
      RunKeepsPass(Init(stop), log);
    }

    ghost method Log(before: State, a: Action)
      requires eventCount <= events.Length
      requires Exec(Init(stop), log) == Some(before)
      requires Enabled(before, a) && Next(before, a) == Abs()
      requires Tallies(log, waits, returned, drained) && (a.DrainReturn? ==> a.id < |drained|)
      modifies this`log
      ensures log == old(log) + [a] && Exec(Init(stop), log) == Some(Abs())
      ensures Tallies(log, waits + if a.Wait? || a.WaitFails? then 1 else 0,
                      if a.Return? then returned + [a.result] else returned,
                      if a.DrainReturn? then drained[a.id := drained[a.id] + [a.result]] else drained)
    {
      hide Exec, Tallies, Enabled, Next;
      ExecSnoc(Init(stop), log, before, a);
      TalliesSnoc(log, waits, returned, drained, a);
      log := log + [a];
    }

    ghost method LogRegister(before: State, fd: Fd, d: Dir, h: Handler, addr: Addr, ok: bool, id: nat)
      requires eventCount <= events.Length
      requires Exec(Init(stop), log) == Some(before)
      requires fd != -1 && fd != before.stop && id !in before.drains
      requires FreeAddress(before.infos, addr)
      requires DoRegister(before, fd, d, h, addr, ok, id) == Abs()
      requires Tallies(log, waits, returned, drained)
      modifies this`log
      ensures log == old(log) + [Register(fd, d, h, addr, ok, id)]
      ensures Exec(Init(stop), log) == Some(Abs())
      ensures Tallies(log, waits, returned, drained) && Tallies(log, waits, returned, drained + [[]])
    {
      hide Exec, Tallies;
      Log(before, Register(fd, d, h, addr, ok, id));
      TalliesNewDrain(log, waits, returned, drained);
    }

    /** What both additions do once the registry holds the new entry: the kernel is asked, and if it accepts an initial
        drain is about to begin. `before` is the state before the registry was changed. */
    method Submit(ghost before: State, fd: Fd, dir: Dir, ghost handler: Handler, ghost addr: Addr,
                  mode: CtlOp, mask: set<Dir>, ok: bool) returns (ret: int, ghost id: nat)
      requires events.Length == MAX_EVENTS && eventCount <= events.Length && fd != stop && fd != -1
      requires Exec(Init(stop), log) == Some(before) && before == Abs().(infos := before.infos)
      requires Tallies(log, waits, returned, drained) && (forall id :: id in drains ==> id < |drained|)
      requires FreeAddress(before.infos, addr)
      requires infos == before.infos[fd := EntryFor(before.infos, fd, addr).Put(dir, Some(handler))]
      requires mask == infos[fd].Mask() && mode == if fd in before.infos then CtlMod else CtlAdd
      modifies this`log, this`drains, this`drained, epoll`interest, epoll`edges
      ensures Valid()
      ensures log == old(log) + [Register(fd, dir, handler, addr, ok, id)]
      ensures ret == if ok && (fd in before.infos <==> fd in old(epoll.interest)) then 0 else -1
      ensures ret == 0 ==> epoll.interest == old(epoll.interest)[fd := Interest(mask, Some(infos[fd].addr))]
      ensures ret == -1 ==> drains == old(drains) && drained == old(drained)
      ensures ret == 0 ==> drained == old(drained) + [[]]
      ensures ret == 0 ==>
                && id == |old(drained)| && id !in old(drains)
                && drains == old(drains)[id := Drain(Channel(fd, dir), handler, false)]
    {
      hide Exec, Tallies, FreeAddress, Batch, Retain, DoRegister, EntryFor;
      id := |drained|;
      RegisterGives(before, fd, dir, handler, addr, ok, id, infos[fd]);
      ret := epoll.Ctl(mode, fd, mask, Some(infos[fd].addr), ok);
      if ret != -1 {
        drains := drains[id := Drain(Channel(fd, dir), handler, false)];
      }
      LogRegister(before, fd, dir, handler, addr, ok, id);
      if ret != -1 {
        drained := drained + [[]];
      }
    }

    /** The part of AddEvent before the first call of the handler. */
    method EnterIn(fd: Fd, eventHandler: Option<Handler>, ok: bool) returns (ret: int, ghost id: nat)
      requires Valid() && fd != stop && fd != -1 && eventHandler.Some?
      modifies this`infos, this`log, this`drains, this`drained, epoll`interest, epoll`edges
      ensures Valid()
      ensures |log| == |old(log)| + 1 && old(log) <= log && Registers(log[|old(log)|], fd, In, eventHandler.value, ok)
      ensures fd in infos && infos - {fd} == old(infos) - {fd} && infos[fd].inEvent == eventHandler
      ensures infos[fd].outEvent == if fd in old(infos) then old(infos)[fd].outEvent else None
      ensures fd in old(infos) ==> infos[fd].addr == old(infos)[fd].addr
      ensures ret == 0 ==>
                && fd in epoll.interest && epoll.interest[fd].ptr == Some(infos[fd].addr)
                && epoll.interest[fd].mask == if infos[fd].outEvent.Some? then {In, Out} else {In}
      ensures ret == if ok && (fd in old(infos) <==> fd in old(epoll.interest)) then 0 else -1
      ensures ret == -1 ==> drains == old(drains) && drained == old(drained)
      ensures ret == 0 ==> drained == old(drained) + [[]]
      ensures ret == 0 ==>
                && id == |old(drained)| && id !in old(drains)
                && drains == old(drains)[id := Drain(Channel(fd, In), eventHandler.value, false)]
    {
      hide Exec, Tallies, FreeAddress, Batch, Retain;
      ghost var before := Abs();
      var mode := CtlMod;
      var mask := {In};
      AddressesBounded(infos);
      var addr: Addr :| FreeAddress(infos, addr);
      if fd !in infos {
        infos := infos[fd := Entry(addr, eventHandler, None)];
        mode := CtlAdd;
      } else {
        if infos[fd].outEvent.Some? {
          mask := mask + {Out};
        }
        infos := infos[fd := infos[fd].(inEvent := eventHandler)];
      }
      assert mask == infos[fd].Mask();
      ret, id := Submit(before, fd, In, eventHandler.value, addr, mode, mask, ok);
    }

    method AddEvent(fd: Fd, eventHandler: Option<Handler>, ok: bool, drain: seq<Behaviour>)
      returns (ret: int, cut: Cut)
      requires Valid() && fd != stop
      modifies this`infos, this`log, this`ctl, this`drains, this`drained, epoll, events
      ensures Valid() && old(log) <= log && SameRecords() && old(drained) <= drained
      ensures eventHandler.None? || fd == -1 ==> ret == -1 && log == old(log) && Abs() == old(Abs())
      ensures eventHandler.Some? && fd != -1 ==>
                |log| > |old(log)| && Registers(log[|old(log)|], fd, In, eventHandler.value, ok)
      ensures eventHandler.Some? && fd != -1 ==>
                (ret == 0 <==> ok && (fd in old(infos) <==> fd in old(epoll.interest)))
      ensures ret == 0 || ret == -1
      ensures ret == -1 ==> cut.Whole? && drained == old(drained)
      ensures ret == -1 && eventHandler.Some? && fd != -1 ==>
                && fd in infos && infos - {fd} == old(infos) - {fd} && infos[fd].inEvent == eventHandler
                && infos[fd].outEvent == if fd in old(infos) then old(infos)[fd].outEvent else None
      ensures cut.Whole? ==> ctl == old(ctl) && drains == old(drains)
      ensures cut.Whole? && ret == 0 ==> DrainMade(|old(drained)|, drain)
      ensures cut.Whole? && ret == 0 ==>
                DrainDone(stop, log[..|old(log)| + 1], log, |old(drained)|, drain[..|drained[|old(drained)|]|])
      ensures !cut.Whole? ==> cut.NoDrainCall? && DrainOut(drain, drains, drained)
      decreases drain, 1
    {
      hide Exec, Tallies, DrainOut, Results, DrainDone;
      if eventHandler.None? || fd == -1 {
        return -1, Whole;
      }
      ghost var id: nat;
      ret, id := EnterIn(fd, eventHandler, ok);
      if ret == -1 {
        return -1, Whole;
      }
      assert drains - {id} == old(drains);
      ghost var mid := log;
      cut := InitialDrain(id, drain);
      assert log[..|old(log)| + 1] == mid;
      return 0, cut;
    }

    /** The part of AddOutEvent before the first call of the handler. */
    method EnterOut(fd: Fd, eventHandler: Option<Handler>, ok: bool) returns (ret: int, ghost id: nat)
      requires Valid() && fd != stop && fd != -1 && eventHandler.Some?
      modifies this`infos, this`log, this`drains, this`drained, epoll`interest, epoll`edges
      ensures Valid()
      ensures |log| == |old(log)| + 1 && old(log) <= log && Registers(log[|old(log)|], fd, Out, eventHandler.value, ok)
      ensures fd in infos && infos - {fd} == old(infos) - {fd} && infos[fd].outEvent == eventHandler
      ensures infos[fd].inEvent == if fd in old(infos) then old(infos)[fd].inEvent else None
      ensures fd in old(infos) ==> infos[fd].addr == old(infos)[fd].addr
      ensures ret == 0 ==>
                && fd in epoll.interest && epoll.interest[fd].ptr == Some(infos[fd].addr)
                && epoll.interest[fd].mask == if infos[fd].inEvent.Some? then {In, Out} else {Out}
      ensures ret == if ok && (fd in old(infos) <==> fd in old(epoll.interest)) then 0 else -1
      ensures ret == -1 ==> drains == old(drains) && drained == old(drained)
      ensures ret == 0 ==> drained == old(drained) + [[]]
      ensures ret == 0 ==>
                && id == |old(drained)| && id !in old(drains)
                && drains == old(drains)[id := Drain(Channel(fd, Out), eventHandler.value, false)]
    {
      hide Exec, Tallies, FreeAddress, Batch, Retain;
      ghost var before := Abs();
      var mode := CtlMod;
      var mask := {Out};
      AddressesBounded(infos);
      var addr: Addr :| FreeAddress(infos, addr);
      if fd !in infos {
        infos := infos[fd := Entry(addr, None, eventHandler)];
        mode := CtlAdd;
      } else {
        if infos[fd].inEvent.Some? {
          mask := mask + {In};
        }
        infos := infos[fd := infos[fd].(outEvent := eventHandler)];
      }
      assert mask == infos[fd].Mask();
      ret, id := Submit(before, fd, Out, eventHandler.value, addr, mode, mask, ok);
    }

    method AddOutEvent(fd: Fd, eventHandler: Option<Handler>, ok: bool, drain: seq<Behaviour>)
      returns (ret: int, cut: Cut)
      requires Valid() && fd != stop
      modifies this`infos, this`log, this`ctl, this`drains, this`drained, epoll, events
      ensures Valid() && old(log) <= log && SameRecords() && old(drained) <= drained
      ensures eventHandler.None? || fd == -1 ==> ret == -1 && log == old(log) && Abs() == old(Abs())
      ensures eventHandler.Some? && fd != -1 ==>
                |log| > |old(log)| && Registers(log[|old(log)|], fd, Out, eventHandler.value, ok)
      ensures eventHandler.Some? && fd != -1 ==>
                (ret == 0 <==> ok && (fd in old(infos) <==> fd in old(epoll.interest)))
      ensures ret == 0 || ret == -1
      ensures ret == -1 ==> cut.Whole? && drained == old(drained)
      ensures ret == -1 && eventHandler.Some? && fd != -1 ==>
                && fd in infos && infos - {fd} == old(infos) - {fd} && infos[fd].outEvent == eventHandler
                && infos[fd].inEvent == if fd in old(infos) then old(infos)[fd].inEvent else None
      ensures cut.Whole? ==> ctl == old(ctl) && drains == old(drains)
      ensures cut.Whole? && ret == 0 ==> DrainMade(|old(drained)|, drain)
      ensures cut.Whole? && ret == 0 ==>
                DrainDone(stop, log[..|old(log)| + 1], log, |old(drained)|, drain[..|drained[|old(drained)|]|])
      ensures !cut.Whole? ==> cut.NoDrainCall? && DrainOut(drain, drains, drained)
      decreases drain, 1
    {
      hide Exec, Tallies, DrainOut, Results, DrainDone;
      if eventHandler.None? || fd == -1 {
        return -1, Whole;
      }
      ghost var id: nat;
      ret, id := EnterOut(fd, eventHandler, ok);
      if ret == -1 {
        return -1, Whole;
      }
      assert drains - {id} == old(drains);
      ghost var mid := log;
      cut := InitialDrain(id, drain);
      assert log[..|old(log)| + 1] == mid;
      return 0, cut;
    }

    /** The drain has made the first calls of the script, up to the first that reported nothing left. */
    ghost predicate DrainMade(id: nat, drain: seq<Behaviour>)
      reads this`drained
    {
      id < |drained| && drained[id] <= Results(drain) && EndsDrain(drained[id])
    }

    /** A handler called by an initial drain has returned. */
    ghost method DrainReturned(id: nat, result: int)
      requires Valid() && id in drains
      modifies this`log, this`drains, this`drained
      ensures Valid() && log == old(log) + [DrainReturn(id, result)]
      ensures id < |old(drained)| && drained == old(drained)[id := old(drained)[id] + [result]]
      ensures id in drains <==> result > 0
      ensures drains - {id} == old(drains) - {id}
    {
      hide Exec, Tallies, Batch;
      var before := Abs();
      drains := if result > 0 then drains[id := drains[id].(seen := false)] else drains - {id};
      Log(before, DrainReturn(id, result));
      drained := drained[id := drained[id] + [result]];
    }

    /** Calls the new handler until it reports that nothing is left: this work would not be signalled. */
    method InitialDrain(ghost id: nat, drain: seq<Behaviour>) returns (cut: Cut)
      requires Valid() && id in drains && id == |drained| - 1 && drained[id] == []
      modifies this`infos, this`log, this`ctl, this`drains, this`drained, epoll, events
      ensures Valid() && old(log) <= log && SameRecords() && old(drained)[..id] <= drained
      ensures cut.Whole? ==> ctl == old(ctl) && drains == old(drains) - {id} && DrainMade(id, drain)
      ensures cut.Whole? ==> DrainDone(stop, old(log), log, id, drain[..|drained[id]|])
      ensures !cut.Whole? ==> cut.NoDrainCall? && DrainOut(drain, drains, drained)
      decreases drain, 0
    {
      hide Exec, Tallies, DeedsOut, Results, AllDone, DrainDone;
      NoCallDone(stop, log, id);
      var result: int;
      var k := 0;
      var more := true;
      while more
        invariant 0 <= k <= |drain|
        invariant Valid() && SameRecords() && old(log) <= log && old(drained)[..id] <= drained
        invariant ctl == old(ctl)
        invariant id < |drained| && drained[id] == Results(drain)[..k]
        invariant DrainDone(stop, old(log), log, id, drain[..k])
        invariant forall i :: 0 <= i < k && (more || i < k - 1) ==> drain[i].result > 0
        invariant more ==> id in drains && drains - {id} == old(drains) - {id}
        invariant !more ==> k > 0 && drain[k - 1].result <= 0 && drains == old(drains) - {id}
        decreases |drain| - k, more
      {
        if k == |drain| {
          assert UsedUp(drain, drains, drained);
          return NoDrainCall;
        }
        ghost var mid := log;
        result, cut := RunHandler(drain[k], Drainer(id));
        if !cut.Whole? {
          return;
        }
        OneMoreCall(stop, old(log), mid, log, id, drain, k);
        ResultsNext(drain, k);
        k := k + 1;
        DrainReturned(id, result);
        more := result > 0;
      }
      DrainsPrefix(drained[id], drain, k);
      return Whole;
    }

    /** Runs one call of a handler as scripted. `who` is the position the call is made from. */
    method RunHandler(b: Behaviour, ghost who: Who) returns (result: int, cut: Cut)
      requires Valid() && ChannelOf(Abs(), who).Some?
      modifies this`infos, this`log, this`ctl, this`drains, this`drained, epoll, events
      ensures Valid() && old(log) <= log && old(drained) <= drained && SameRecords()
      ensures cut.Whole? ==> result == b.result && AllDone(stop, old(log), log, b.deeds, Some(who))
      ensures cut.Whole? && who.Loop? ==> drains == old(drains) && ctl.Calling? && ctl.pass == old(ctl.pass)
      ensures cut.Whole? && who.Drainer? ==>
                ctl == old(ctl) && who.id in drains && drains - {who.id} == old(drains) - {who.id}
      ensures !cut.Whole? ==> cut.NoDrainCall? && DeedsOut(b.deeds, drains, drained)
      decreases b
    {
      hide Exec, Tallies, DeedOut, Done, AllDone;
      NothingDone(stop, log, Some(who));
      var i := 0;
      while i < |b.deeds|
        invariant 0 <= i <= |b.deeds| && AllDone(stop, old(log), log, b.deeds[..i], Some(who))
        invariant Valid() && SameRecords() && old(log) <= log && old(drained) <= drained
        invariant who.Loop? ==> drains == old(drains) && ctl.Calling? && ctl.pass == old(ctl.pass)
        invariant who.Drainer? ==>
                    ctl == old(ctl) && who.id in drains && drains - {who.id} == old(drains) - {who.id}
      {
        ghost var mid := log;
        cut := Perform(b.deeds[i], who);
        if !cut.Whole? {
          return 0, cut;
        }
        OneMoreDone(stop, old(log), mid, log, b.deeds, i, Some(who));
        i := i + 1;
      }
      assert b.deeds[..i] == b.deeds;
      return b.result, Whole;
    }

    /** A deed of a running handler; `who` is the position the handler was called from. */
    method Perform(deed: Deed, ghost who: Who) returns (cut: Cut)
      requires Valid() && ChannelOf(Abs(), who).Some?
      modifies this`infos, this`log, this`ctl, this`drains, this`drained, epoll, events
      ensures Valid() && old(log) <= log && old(drained) <= drained && SameRecords()
      ensures cut.Whole? && who.Loop? ==> drains == old(drains) && ctl.Calling? && ctl.pass == old(ctl.pass)
      ensures cut.Whole? && who.Drainer? ==>
                ctl == old(ctl) && who.id in drains && drains - {who.id} == old(drains) - {who.id}
      ensures !cut.Whole? ==> cut.NoDrainCall? && DeedOut(deed, drains, drained)
      ensures Done(stop, old(log), log, deed, Some(who))
      decreases deed, 1
    {
      hide Exec, Tallies, DeedOut;
      cut := Whole;
      match deed
      case Consumes(amount) =>
        Consumption(amount, who);
      case FindsEmpty =>
        Emptiness(who);
      case _ =>
        cut := PerformAnywhere(deed);
    }

    /** A deed that needs no running handler of its own. */
    method PerformAnywhere(deed: Deed) returns (cut: Cut)
      requires Valid()
      modifies this`infos, this`log, this`ctl, this`drains, this`drained, epoll, events
      ensures Valid() && old(log) <= log && old(drained) <= drained && SameRecords()
      ensures cut.Whole? ==> ctl == old(ctl) && drains == old(drains)
      ensures !cut.Whole? ==> cut.NoDrainCall? && DeedOut(deed, drains, drained)
      ensures Done(stop, old(log), log, deed, None)
      decreases deed, 0
    {
      hide Exec, Tallies, DrainOut;
      cut := Whole;
      match deed
      case Arrives(chan, amount) =>
        if amount > 0 { Arrival(chan, amount); }
      case Adds(fd, dir, handler, ok, drain) =>
        if fd != stop {
          var ret: int;
          if dir.In? {
            ret, cut := AddEvent(fd, handler, ok, drain);
          } else {
            ret, cut := AddOutEvent(fd, handler, ok, drain);
          }
        }
      case Erases(fd, dir, ok) =>
        if dir.In? {
          var ret := EraseEvent(fd, ok);
        } else {
          var ret := EraseOutEvent(fd, ok);
        }
      case _ =>
    }

    /** What other threads and the kernel do while the loop is about to wait. */
    method Meanwhile(deeds: seq<Deed>) returns (cut: Cut)
      requires Valid() && ctl.Blocking?
      modifies this`infos, this`log, this`ctl, this`drains, this`drained, epoll, events
      ensures Valid() && old(log) <= log
      ensures cut.Whole? ==> ctl.Blocking? && drains == old(drains) && AllDone(stop, old(log), log, deeds, None)
      ensures !cut.Whole? ==> cut.NoDrainCall? && DeedsOut(deeds, drains, drained)
    {
      hide Exec, Tallies, DeedOut, Done, AllDone;
      cut := Whole;
      NothingDone(stop, log, None);
      var i := 0;
      while i < |deeds|
        invariant 0 <= i <= |deeds| && AllDone(stop, old(log), log, deeds[..i], None)
        invariant Valid() && old(log) <= log && ctl.Blocking? && drains == old(drains) && cut.Whole?
      {
        ghost var mid := log;
        cut := PerformAnywhere(deeds[i]);
        if !cut.Whole? {
          return;
        }
        OneMoreDone(stop, old(log), mid, log, deeds, i, None);
        i := i + 1;
      }
      assert deeds[..i] == deeds;
    }

    method Arrival(chan: Channel, amount: nat)
      requires Valid() && amount > 0
      modifies this`log, epoll`edges, epoll`work
      ensures Valid() && log == old(log) + [Arrive(chan, amount)]
    {
      hide Exec, Tallies;
      ghost var before := Abs();
      if chan.fd in epoll.interest && chan.dir in epoll.interest[chan.fd].mask {
        epoll.edges := epoll.edges + {chan};
      }
      epoll.work := epoll.work[chan := before.Work(chan) + amount];
      Log(before, Arrive(chan, amount));
    }

    /** A running handler consumes from its own channel, at most what is there. */
    ghost method Consumption(amount: nat, who: Who)
      requires Valid() && ChannelOf(Abs(), who).Some?
      modifies this`log, this`ctl, epoll`work
      ensures Valid() && old(log) <= log && Done(stop, old(log), log, Consumes(amount), Some(who))
      ensures if who.Loop? then ctl.Calling? && ctl.pass == old(ctl.pass) else ctl == old(ctl)
    {
      hide Exec, Tallies;
      var before := Abs();
      var c := ChannelOf(before, who).value;
      var n := Min(amount, before.Work(c));
      var after := DoConsume(before, who, n);
      epoll.work, ctl := after.work, after.ctl;
      assert Abs() == after;
      Log(before, Consume(who, n));
    }

    /** A running handler looks at its channel: when it is empty the handler has seen so. */
    ghost method Emptiness(who: Who)
      requires Valid() && ChannelOf(Abs(), who).Some?
      modifies this`log, this`ctl, this`drains
      ensures Valid() && old(log) <= log && Done(stop, old(log), log, FindsEmpty, Some(who))
      ensures who.Loop? ==> ctl.Calling? && ctl.pass == old(ctl.pass) && drains == old(drains)
      ensures who.Drainer? ==> ctl == old(ctl) && who.id in drains && drains - {who.id} == old(drains) - {who.id}
    {
      hide Exec, Tallies;
      var before := Abs();
      if before.Work(ChannelOf(before, who).value) == 0 {
        if who.Loop? {
          ctl := ctl.(seen := true);
        } else {
          drains := drains[who.id := drains[who.id].(seen := true)];
        }
        Log(before, SeeEmpty(who));
      }
    }

    /** The loop over the batch in both erase methods: turns bits off in the first record with the pointer. */
    method TurnOff(addr: Addr, removed: set<Dir>)
      requires eventCount <= events.Length
      modifies events
      ensures SameRecords()
      ensures Batch() == ClearBits(old(Batch()), addr, removed)
    {
      var eventIndex := 0;
      ghost var was := Batch();
      while eventIndex < eventCount
        invariant 0 <= eventIndex <= |was|
        invariant Batch() == was && SameRecords()
        invariant forall j :: 0 <= j < eventIndex ==> was[j].ptr != Some(addr)
      {
        assert events[eventIndex] == was[eventIndex];
        if events[eventIndex].ptr == Some(addr) {
          events[eventIndex] := Record(events[eventIndex].ptr, events[eventIndex].bits - removed);
          FirstHit(was, addr, removed, eventIndex);
          assert Batch() == was[eventIndex := Record(was[eventIndex].ptr, was[eventIndex].bits - removed)];
          return;
        }
        eventIndex := eventIndex + 1;
      }
      NoHit(was, addr, removed);
    }

    method EraseEvent(fd: Fd, ok: bool) returns (ret: int)
      requires Valid()
      modifies this`infos, this`log, epoll, events
      ensures Valid() && SameRecords()
      ensures fd !in old(infos) || old(infos)[fd].inEvent.None? ==> ret == -1 && log == old(log) && Abs() == old(Abs())
      ensures fd in old(infos) && old(infos)[fd].inEvent.Some? ==>
                && log == old(log) + [Unregister(fd, In, ok)]
                && ret == if ok && fd in old(epoll.interest) then 0 else -1
      ensures infos - {fd} == old(infos) - {fd}
      ensures fd in old(infos) && old(infos)[fd].inEvent.Some? ==>
                if old(infos)[fd].outEvent.Some?
                then fd in infos && infos[fd] == Entry(old(infos)[fd].addr, None, old(infos)[fd].outEvent)
                else fd !in infos
    {
      hide Exec, Tallies;
      if fd !in infos || infos[fd].inEvent.None? {
        return -1;
      }
      ghost var before := Abs();
      var removedEvents: set<Dir>;
      var entry := infos[fd];
      if entry.outEvent.Some? {
        removedEvents := {In};
        infos := infos[fd := entry.(inEvent := None)];
        ret := epoll.Ctl(CtlMod, fd, {Out}, Some(entry.addr), ok);
      } else {
        removedEvents := {In, Out};
        ret := epoll.Ctl(CtlDel, fd, {}, None, ok);
        infos := infos - {fd};
      }
      TurnOff(entry.addr, removedEvents);
      Log(before, Unregister(fd, In, ok));
    }

    method EraseOutEvent(fd: Fd, ok: bool) returns (ret: int)
      requires Valid()
      modifies this`infos, this`log, epoll, events
      ensures Valid() && SameRecords()
      ensures fd !in old(infos) || old(infos)[fd].outEvent.None? ==> ret == -1 && log == old(log) && Abs() == old(Abs())
      ensures fd in old(infos) && old(infos)[fd].outEvent.Some? ==>
                && log == old(log) + [Unregister(fd, Out, ok)]
                && ret == if ok && fd in old(epoll.interest) then 0 else -1
      ensures infos - {fd} == old(infos) - {fd}
      ensures fd in old(infos) && old(infos)[fd].outEvent.Some? ==>
                if old(infos)[fd].inEvent.Some?
                then fd in infos && infos[fd] == Entry(old(infos)[fd].addr, old(infos)[fd].inEvent, None)
                else fd !in infos
    {
      hide Exec, Tallies;
      if fd !in infos || infos[fd].outEvent.None? {
        return -1;
      }
      ghost var before := Abs();
      var removedEvents: set<Dir>;
      var entry := infos[fd];
      if entry.inEvent.Some? {
        removedEvents := {Out};
        infos := infos[fd := entry.(outEvent := None)];
        ret := epoll.Ctl(CtlMod, fd, {In}, Some(entry.addr), ok);
      } else {
        removedEvents := {In, Out};
        ret := epoll.Ctl(CtlDel, fd, {}, None, ok);
        infos := infos - {fd};
      }
      TurnOff(entry.addr, removedEvents);
      Log(before, Unregister(fd, Out, ok));
    }

    /** What the loop may deliver: at most MAX_EVENTS distinct descriptors with a queued edge. */
    predicate Deliverable(picked: seq<Fd>)
      reads epoll
    {
      && |picked| <= MAX_EVENTS
      && (forall i, j :: 0 <= i < j < |picked| ==> picked[i] != picked[j])
      && (forall i :: 0 <= i < |picked| ==> picked[i] in epoll.interest)
      && (forall i :: 0 <= i < |picked| ==>
            Channel(picked[i], In) in epoll.edges || Channel(picked[i], Out) in epoll.edges)
    }

    method WriteRecords(picked: seq<Fd>)
      requires events.Length == MAX_EVENTS && eventCount <= events.Length && Deliverable(picked)
      modifies this`eventCount, events
      ensures eventCount == |picked| == |Batch()|
      ensures forall i :: 0 <= i < |picked| ==>
                Batch()[i] == Record(epoll.interest[picked[i]].ptr, set d: Dir | Channel(picked[i], d) in epoll.edges)
    {
      forall i | 0 <= i < |picked| {
        events[i] := Record(epoll.interest[picked[i]].ptr, set d: Dir | Channel(picked[i], d) in epoll.edges);
      }
      eventCount := |picked|;
    }

    /** A successful wait writes the records and takes the edges they report. */
    method Deliver(picked: seq<Fd>)
      requires Valid() && ctl.Blocking? && Deliverable(picked)
      modifies this`eventCount, this`ctl, this`log, this`waits, epoll`edges, events
      ensures Valid() && log == old(log) + [Wait(picked)] && waits == old(waits) + 1
      ensures eventCount == |picked| && ctl == At(Pass(0, 0, [], 0))
    {
      hide Exec, Tallies, Enabled, Next, Batch;
      ghost var before := Abs();
      WriteRecords(picked);
      epoll.edges := set c | c in epoll.edges && c.fd !in picked;
      ctl := At(Pass(0, 0, [], 0));
      assert forall i :: 0 <= i < |picked| ==> Pickable(before, picked[i]);
      WaitDelivers(before, picked, Batch());
      Log(before, Wait(picked));
      waits := waits + 1;
    }

    /** epoll_wait: the number of records, or -1. */
    method EpollWait(reply: Outcome) returns (interrupted: bool)
      requires Valid() && ctl.Blocking?
      modifies this`eventCount, this`ctl, this`log, this`waits, epoll`edges, events
      ensures Valid() && |log| == |old(log)| + 1 && old(log) <= log && waits == old(waits) + 1
      ensures -1 <= eventCount && (eventCount == -1 && !interrupted <==> reply.Failed?)
      ensures reply.Ready? && old(Deliverable(reply.picked)) ==> log[|old(log)|] == Wait(reply.picked)
      ensures eventCount == -1 && !interrupted ==> ctl.Outside? && log[|old(log)|] == WaitFails
      ensures interrupted ==> log[|old(log)|] == Wait([])
      ensures eventCount >= 0 || interrupted ==> ctl == At(Pass(0, 0, [], 0))
    {
      hide Exec, Tallies;
      if reply.Ready? && Deliverable(reply.picked) {
        Deliver(reply.picked);
        return false;
      }
      ghost var before := Abs();
      eventCount := -1;
      if reply.Failed? {
        NothingDelivered(before, WaitFails);
        return false;
      }
      NothingDelivered(before, Wait([]));
      return true;
    }

    /** A wait that fails or is interrupted. */
    ghost method NothingDelivered(before: State, a: Action)
      requires eventCount == -1 && events.Length == MAX_EVENTS && (a == WaitFails || a == Wait([]))
      requires Exec(Init(stop), log) == Some(before) && before.(batch := []) == Abs() && ctl.Blocking?
      requires forall id :: id in drains ==> id < |drained|
      requires Tallies(log, waits, returned, drained)
      modifies this`ctl, this`log, this`waits
      ensures Valid() && log == old(log) + [a] && waits == old(waits) + 1
      ensures ctl == if a.WaitFails? then Outside else At(Pass(0, 0, [], 0))
    {
      hide Exec, Tallies, Enabled, Next, Batch;
      WaitWithout(before, a);
      ctl := if a.WaitFails? then Outside else At(Pass(0, 0, [], 0));
      Log(before, a);
      waits := waits + 1;
    }

    /** The loop examines the next position: the bit is off, so it moves on. */
    ghost method Skip()
      requires Valid() && ctl.At? && ctl.pass.pos < 2 * |Batch()|
      requires Batch()[ctl.pass.pos / 2].ptr.Some? && DirAt(ctl.pass.pos) !in Batch()[ctl.pass.pos / 2].bits
      modifies this`ctl, this`log
      ensures Valid() && log == old(log) + [Advance] && ctl == At(old(ctl.pass).(pos := old(ctl.pass.pos) + 1))
    {
      hide Exec, Tallies;
      var before := Abs();
      ctl := At(ctl.pass.(pos := ctl.pass.pos + 1));
      Log(before, Advance);
    }

    /** The loop enters the handler of the next position: the one of the live entry, or else one it must not call. */
    ghost method EnterHandler()
      requires Valid() && ctl.At? && ctl.pass.pos < 2 * |Batch()|
      requires Batch()[ctl.pass.pos / 2].ptr.Some? && DirAt(ctl.pass.pos) in Batch()[ctl.pass.pos / 2].bits
      modifies this`ctl, this`log
      ensures Valid() && log == old(log) + [Advance]
      ensures if HasHandler(infos, old(Batch()[ctl.pass.pos / 2].ptr.value), DirAt(old(ctl.pass.pos)))
              then ctl.Calling? && ctl.pass == old(ctl.pass).(served := old(ctl.pass.served) + [old(ctl.pass.pos)])
              else ctl.Wild?
      ensures ctl.Calling? ==>
                && ctl.chan.dir == DirAt(old(ctl.pass.pos)) && ctl.chan.fd in infos
                && Some(infos[ctl.chan.fd].addr) == old(Batch()[ctl.pass.pos / 2].ptr)
                && Some(ctl.handler) == if ctl.chan.dir.In? then infos[ctl.chan.fd].inEvent
                                        else infos[ctl.chan.fd].outEvent
    {
      hide Exec, Tallies;
      var before := Abs();
      ctl := DoAdvance(before).ctl;
      Log(before, Advance);
    }

    /** The stop record is met: execute is about to return. */
    ghost method MeetStop()
      requires Valid() && ctl.At? && ctl.pass.pos < 2 * |Batch()| && Batch()[ctl.pass.pos / 2].ptr.None?
      modifies this`ctl, this`log
      ensures Valid() && log == old(log) + [Advance] && ctl.Outside?
    {
      hide Exec, Tallies;
      var before := Abs();
      ctl := Outside;
      Log(before, Advance);
    }

    /** The pass is over: another one if some result was positive, else back to waiting. */
    ghost method EndPass()
      requires Valid() && ctl.At? && ctl.pass.pos == 2 * |Batch()|
      modifies this`ctl, this`log
      ensures Valid() && log == old(log) + [Advance]
      ensures ctl == if old(ctl.pass.left) > 0 then At(Pass(0, 0, [], old(ctl.pass.round) + 1)) else Blocking
    {
      hide Exec, Tallies;
      var before := Abs();
      ctl := if ctl.pass.left > 0 then At(Pass(0, 0, [], ctl.pass.round + 1)) else Blocking;
      Log(before, Advance);
    }

    ghost method Begin()
      requires Valid() && ctl.Outside?
      modifies this`ctl, this`log
      ensures Valid() && log == old(log) + [Start] && ctl.Blocking?
    {
      hide Exec, Tallies;
      var before := Abs();
      ctl := Blocking;
      Log(before, Start);
    }

    /** A handler has returned: the bit of record n stays on exactly if the result is positive. */
    method Returned(n: nat, dir: Dir, result: int)
      requires Valid() && n < eventCount && ctl.Calling?
      requires ctl.pass.pos == if dir.In? then 2 * n else 2 * n + 1
      modifies this`ctl, this`log, this`returned, events
      ensures Valid() && SameRecords() && log == old(log) + [Return(result)] && returned == old(returned) + [result]
      ensures ctl.At? && ctl.pass.pos == old(ctl.pass.pos) + 1
      ensures ctl.pass.left == old(ctl.pass.left) + if result > 0 then 1 else 0
    {
      hide Exec, Tallies;
      ghost var before := Abs();
      if result > 0 {
        ctl := At(ctl.pass.(pos := ctl.pass.pos + 1, left := ctl.pass.left + 1));
      } else {
        events[n] := Record(events[n].ptr, events[n].bits - {dir});
        ctl := At(ctl.pass.(pos := ctl.pass.pos + 1));
      }
      assert Batch() == DoReturn(before, result).batch;
      Log(before, Return(result));
      returned := returned + [result];
    }

    /** The bit is set: calls the handler, and turns the bit off once the handler has nothing left. */
    method CallHandler(n: nat, dir: Dir, call: Behaviour) returns (result: int, cut: Cut)
      requires Valid() && n < eventCount && ctl.At? && ctl.pass.pos == if dir.In? then 2 * n else 2 * n + 1
      requires events[n].ptr.Some? && dir in events[n].bits
      modifies this`infos, this`log, this`ctl, this`drains, this`drained, this`returned, epoll, events
      ensures Valid() && SameRecords() && old(log) <= log
      ensures cut.Whole? ==> result == call.result && returned == old(returned) + [result]
      ensures cut.Whole? ==> Served(stop, old(log), log, call)
      ensures cut.Whole? ==> ctl.At? && ctl.pass.pos == old(ctl.pass.pos) + 1
      ensures cut.Whole? ==> ctl.pass.left == old(ctl.pass.left) + if result > 0 then 1 else 0
      ensures !cut.Whole? ==> returned == old(returned)
      ensures match cut
              case Whole => true
              case NoDrainCall => DeedsOut(call.deeds, drains, drained)
              case Crash => ctl.Wild?
              case _ => false
    {
      hide Exec, Tallies, DeedsOut, AllDone;
      assert DirAt(ctl.pass.pos) == dir && ctl.pass.pos / 2 == n && Batch()[n] == events[n];
      var alive := HasHandler(infos, events[n].ptr.value, dir);
      EnterHandler();
      if !alive {
        return 0, Crash;
      }
      result, cut := RunHandler(call, Loop);
      if cut.Whole? {
        Returned(n, dir, result);
      }
    }

    /** One direction of record n. Calls the handler if the bit is set, and turns the bit off once the handler has
        nothing left. */
    method Serve(n: nat, dir: Dir, eventsLeft: nat, calls: seq<Behaviour>, k: nat)
      returns (left: nat, next: nat, cut: Cut)
      requires Valid() && n < eventCount && k <= |calls| && events[n].ptr.Some?
      requires ctl.At? && ctl.pass.pos == (if dir.In? then 2 * n else 2 * n + 1) && ctl.pass.left == eventsLeft
      modifies this`infos, this`log, this`ctl, this`drains, this`drained, this`returned, epoll, events
      ensures Valid() && SameRecords() && old(log) <= log
      ensures k <= next <= |calls| && returned + Results(calls)[next..] == old(returned) + Results(calls)[k..]
      ensures cut.Whole? ==> ctl.At? && ctl.pass.pos == old(ctl.pass.pos) + 1 && ctl.pass.left == left
      ensures cut.Whole? ==> if dir in old(events[n].bits) then next == k + 1 && Served(stop, old(log), log, calls[k])
                             else next == k && log == old(log) + [Advance]
      ensures cut.Whole? ==> left == if next > k && calls[k].result > 0 then eventsLeft + 1 else eventsLeft
      ensures WhyCut(cut, calls, next)
    {
      hide Exec, Tallies, DeedsOut, Results, Served;
      left, next, cut := eventsLeft, k, Whole;
      assert DirAt(ctl.pass.pos) == dir && ctl.pass.pos / 2 == n && Batch()[n] == events[n];
      if dir !in events[n].bits {
        Skip();
        return;
      }
      if k == |calls| {
        cut := NoCall;
        return;
      }
      var result: int;
      result, cut := CallHandler(n, dir, calls[k]);
      if !cut.Whole? {
        return;
      }
      next := k + 1;
      ResultsNext(calls, k);
      if result > 0 {
        left := left + 1;
      }
    }

    /** The dispatch of a batch is cut when the script has no further call for a bit that is set, in an initial drain of
        the call being made, or by a call that goes nowhere. */
    ghost predicate WhyCut(cut: Cut, calls: seq<Behaviour>, next: nat)
      reads this, epoll, events
      requires Valid()
    {
      match cut
      case Whole => true
      case NoCall => next == |calls| && AtBit()
      case NoDrainCall => next < |calls| && DeedsOut(calls[next].deeds, drains, drained)
      case Crash => ctl.Wild?
      case NoReply => false
    }

    /** One pass over the batch. `stopped` when the stop record is met. */
    method RunPass(calls: seq<Behaviour>, k: nat) returns (eventsLeft: nat, next: nat, stopped: bool, cut: Cut)
      requires Valid() && k <= |calls| && ctl.At? && ctl.pass.pos == 0 && ctl.pass.left == 0
      modifies this`infos, this`log, this`ctl, this`drains, this`drained, this`returned, epoll, events
      ensures Valid() && old(log) <= log
      ensures k <= next <= |calls| && returned + Results(calls)[next..] == old(returned) + Results(calls)[k..]
      ensures cut.Whole? && stopped ==> ctl.Outside? && |log| > |old(log)| && log[|log| - 1] == Advance
      ensures cut.Whole? && !stopped ==> ctl.At? && ctl.pass.pos == 2 * |Batch()| && ctl.pass.left == eventsLeft
      ensures cut.Whole? && !stopped && eventsLeft > 0 ==> next > k
      ensures WhyCut(cut, calls, next)
    {
      hide Exec, Tallies, DeedsOut, Results, Served;
      eventsLeft, next, stopped, cut := 0, k, false, Whole;
      var n := 0;
      while n < eventCount
        invariant 0 <= n && (eventCount >= 0 ==> n <= eventCount) && (eventCount < 0 ==> n == 0)
        invariant Valid() && old(log) <= log && cut.Whole?
        invariant k <= next <= |calls| && returned + Results(calls)[next..] == old(returned) + Results(calls)[k..]
        invariant ctl.At? && ctl.pass.pos == 2 * n && ctl.pass.left == eventsLeft
        invariant eventsLeft > 0 ==> next > k
      {
        if events[n].ptr.None? {
          MeetStop();
          stopped := true;
          return;
        }
        eventsLeft, next, cut := Serve(n, In, eventsLeft, calls, next);
        if !cut.Whole? {
          return;
        }
        eventsLeft, next, cut := Serve(n, Out, eventsLeft, calls, next);
        if !cut.Whole? {
          return;
        }
        n := n + 1;
      }
    }

    /** Passes over the batch until no handler asks for another one, or the stop record is met. */
    method DrainBatch(calls: seq<Behaviour>, k: nat) returns (next: nat, stopped: bool, cut: Cut)
      requires Valid() && k <= |calls| && ctl.At? && ctl.pass.pos == 0 && ctl.pass.left == 0
      modifies this`infos, this`log, this`ctl, this`drains, this`drained, this`returned, epoll, events
      ensures Valid() && old(log) <= log
      ensures k <= next <= |calls| && returned + Results(calls)[next..] == old(returned) + Results(calls)[k..]
      ensures cut.Whole? && stopped ==> ctl.Outside? && |log| > |old(log)| && log[|log| - 1] == Advance
      ensures cut.Whole? && !stopped ==> ctl.Blocking?
      ensures WhyCut(cut, calls, next)
    {
      hide Valid, DeedsOut, Results;
      next, stopped, cut := k, false, Whole;
      var again := true;
      while again
        invariant k <= next <= |calls| && !stopped && cut.Whole?
        invariant returned + Results(calls)[next..] == old(returned) + Results(calls)[k..]
        invariant Valid() && old(log) <= log
        invariant if again then ctl.At? && ctl.pass.pos == 0 && ctl.pass.left == 0 else ctl.Blocking?
        decreases |calls| - next, again
      {
        var eventsLeft: nat;
        eventsLeft, next, stopped, cut := RunPass(calls, next);
        if !cut.Whole? || stopped {
          return;
        }
        again := eventsLeft > 0;
        EndPass();
      }
    }

    /** Why a run of execute was cut that has waited w times and has seen u calls return. */
    ghost predicate WhyEnded(cut: Cut, replies: seq<Reply>, calls: seq<Behaviour>, w: int, u: int)
      reads this, epoll, events
      requires Valid()
    {
      match cut
      case Whole => true
      case NoReply => w == |replies| && ctl.Blocking?
      case NoCall => u == |calls| && AtBit()
      case NoDrainCall =>
        || (0 <= u < |calls| && DeedsOut(calls[u].deeds, drains, drained))
        || (0 <= w < |replies| && DeedsOut(replies[w].meanwhile, drains, drained))
      case Crash => ctl.Wild?
    }

    /** Waits and drains batches until the stop record is met (0) or the wait fails (-1). */
    method Execute(replies: seq<Reply>, calls: seq<Behaviour>) returns (ret: int, cut: Cut)
      requires Valid() && ctl.Outside?
      modifies this, epoll, events
      ensures Valid() && old(log) < log && log[|old(log)|] == Start
      ensures old(returned) <= returned <= old(returned) + Results(calls)
      ensures cut.Whole? ==> ctl.Outside? && (ret == 0 || ret == -1)
      ensures cut.Whole? ==> log[|log| - 1] == if ret == 0 then Advance else WaitFails
      ensures old(waits) <= waits <= old(waits) + |replies|
      ensures forall i :: 0 <= i < waits - old(waits) && replies[i].outcome.Failed? ==>
                i == waits - old(waits) - 1 && cut.Whole? && ret == -1
      ensures WhyEnded(cut, replies, calls, waits - old(waits), |returned| - |old(returned)|)
      ensures HarmlessRun(Init(stop), log) ==> !ctl.Wild? && !cut.Crash?
    {
      hide Exec, Valid, HarmlessRun, Inv, PassInv, DeedsOut, Results;
      Begin();
      ret, cut := WaitAndDrain(replies, calls);
      Safe();
    }

    method WaitAndDrain(replies: seq<Reply>, calls: seq<Behaviour>) returns (ret: int, cut: Cut)
      requires Valid() && ctl.Blocking?
      modifies this, epoll, events
      ensures Valid() && old(log) <= log
      ensures old(returned) <= returned <= old(returned) + Results(calls)
      ensures cut.Whole? ==> ctl.Outside? && (ret == 0 || ret == -1) && |log| > |old(log)|
      ensures cut.Whole? ==> log[|log| - 1] == if ret == 0 then Advance else WaitFails
      ensures old(waits) <= waits <= old(waits) + |replies|
      ensures forall i :: 0 <= i < waits - old(waits) && replies[i].outcome.Failed? ==>
                i == waits - old(waits) - 1 && cut.Whole? && ret == -1
      ensures WhyEnded(cut, replies, calls, waits - old(waits), |returned| - |old(returned)|)
    {
      hide Valid, DeedsOut, Results, AllDone;
      ret, cut := 0, Whole;
      var w, k := 0, 0;
      while w < |replies|
        invariant 0 <= w <= |replies| && 0 <= k <= |calls| && waits == old(waits) + w
        invariant returned + Results(calls)[k..] == old(returned) + Results(calls)
        invariant forall i :: 0 <= i < w ==> !replies[i].outcome.Failed?
        invariant Valid() && old(log) <= log && ctl.Blocking? && ret == 0 && cut.Whole?
      {
        Passed(old(returned), returned, Results(calls), k);
        cut := Meanwhile(replies[w].meanwhile);
        if !cut.Whole? {
          return;
        }
        var interrupted := EpollWait(replies[w].outcome);
        w := w + 1;
        if eventCount == -1 {
          if !interrupted {
            Passed(old(returned), returned, Results(calls), k);
            return eventCount, Whole;
          }
        }
        var stopped: bool;
        k, stopped, cut := DrainBatch(calls, k);
        Passed(old(returned), returned, Results(calls), k);
        if !cut.Whole? || stopped {
          return;
        }
      }
      Passed(old(returned), returned, Results(calls), k);
      cut := NoReply;
    }
  }
}
