/**
 Notifications through an event descriptor (lib/sys/linux/notifier.cpp): a counter in the kernel, and a handler
 called once for every unit of the counter. Callbacks may notify again and may install another handler.
*/
module Notifiers {
  import opened Options

  /** The largest value an event descriptor holds. */
  const MAX_COUNT: nat := 0xFFFF_FFFF_FFFF_FFFE

  datatype Callback = Nop | User(id: nat)

  /** What a callback, or another thread in between, does with the notifier. */
  datatype Deed = Notify | Install(handler: Option<nat>)

  /** `accepted` notifications so far, and the handlers `calls` went to. */
  datatype NotifierState = NotifierState(counter: nat, handler: Callback, accepted: nat, calls: seq<Callback>)

  function Do(st: NotifierState, deed: Deed): NotifierState {
    match deed
    case Notify =>
      if st.counter < MAX_COUNT then st.(counter := st.counter + 1, accepted := st.accepted + 1) else st
    case Install(h) => st.(handler := if h.Some? then User(h.value) else Nop)
  }

  function DoAll(st: NotifierState, deeds: seq<Deed>): NotifierState
    decreases deeds
  {
    if deeds == [] then st else DoAll(Do(st, deeds[0]), deeds[1..])
  }

  /** n calls of whatever handler is installed at the time; the i-th call does script[i]. */
  function Deliver(st: NotifierState, n: nat, script: seq<seq<Deed>>): NotifierState
    decreases n
  {
    if n == 0 then st
    else
      var called := DoAll(st.(calls := st.calls + [st.handler]), if script == [] then [] else script[0]);
      Deliver(called, n - 1, if script == [] then [] else script[1..])
  }

  datatype Op = One(deed: Deed) | Process(script: seq<seq<Deed>>)

  function Step(st: NotifierState, op: Op): NotifierState {
    match op
    case One(deed) => Do(st, deed)
    case Process(script) => Deliver(st.(counter := 0), st.counter, script)
  }

  function Run(st: NotifierState, ops: seq<Op>): NotifierState
    decreases ops
  {
    if ops == [] then st else Run(Step(st, ops[0]), ops[1..])
  }

  const START := NotifierState(0, Nop, 0, [])

  lemma {:induction false} DoAllKeeps(st: NotifierState, deeds: seq<Deed>)
    ensures DoAll(st, deeds).accepted - DoAll(st, deeds).counter == st.accepted - st.counter
    ensures DoAll(st, deeds).calls == st.calls
    ensures (forall d :: d in deeds ==> d.Notify?) ==> DoAll(st, deeds).handler == st.handler
    decreases deeds
  {
    if deeds != [] {
      DoAllKeeps(Do(st, deeds[0]), deeds[1..]);
    }
  }

  /** Delivering makes exactly n calls, and loses none of the notifications made by the callbacks. */
  lemma {:induction false} DeliverCounts(st: NotifierState, n: nat, script: seq<seq<Deed>>)
    ensures |Deliver(st, n, script).calls| == |st.calls| + n
    ensures st.calls <= Deliver(st, n, script).calls
    ensures Deliver(st, n, script).accepted - Deliver(st, n, script).counter == st.accepted - st.counter
    decreases n
  {
    if n > 0 {
      var deeds, rest := if script == [] then [] else script[0], if script == [] then [] else script[1..];
      DoAllKeeps(st.(calls := st.calls + [st.handler]), deeds);
      DeliverCounts(DoAll(st.(calls := st.calls + [st.handler]), deeds), n - 1, rest);
    }
  }

  /** While no callback installs another handler, every call goes to the installed one. */
  lemma {:induction false} DeliversToInstalled(st: NotifierState, n: nat, script: seq<seq<Deed>>)
    requires forall i, d :: 0 <= i < |script| && d in script[i] ==> d.Notify?
    ensures Deliver(st, n, script).calls == st.calls + seq(n, i => st.handler)
    ensures Deliver(st, n, script).handler == st.handler
    decreases n
  {
    if n > 0 {
      var deeds, rest := if script == [] then [] else script[0], if script == [] then [] else script[1..];
      DoAllKeeps(st.(calls := st.calls + [st.handler]), deeds);
      DeliversToInstalled(DoAll(st.(calls := st.calls + [st.handler]), deeds), n - 1, rest);
      assert seq(n, i => st.handler) == [st.handler] + seq(n - 1, i => st.handler);
    }
  }

  /** n notifications that fit the counter are all accepted, and the next processing makes as many calls more. */
  lemma {:induction false} NotifyThenProcess(st: NotifierState, n: nat, script: seq<seq<Deed>>)
    requires st.counter + n <= MAX_COUNT
    ensures Run(st, seq(n, i => One(Notify))) == st.(counter := st.counter + n, accepted := st.accepted + n)
    ensures |Step(Run(st, seq(n, i => One(Notify))), Process(script)).calls| == |st.calls| + st.counter + n
    decreases n
  {
    var notified := st.(counter := st.counter + n, accepted := st.accepted + n);
    if n > 0 {
      assert seq(n, i => One(Notify))[1..] == seq(n - 1, i => One(Notify));
      NotifyThenProcess(Step(st, One(Notify)), n - 1, script);
    }
    DeliverCounts(notified.(counter := 0), notified.counter, script);
  }

  /** A full counter takes no more. */
  lemma NoMoreAccepted(st: NotifierState)
    requires st.counter == MAX_COUNT
    ensures Do(st, Notify) == st
  {
  }

  /** An installed handler gets the calls that follow, until another is installed: all of the next processing, and all
      but the first of a processing whose first callback installs it. */
  lemma {:induction false} InstalledIsCalled(st: NotifierState, handler: Option<nat>, script: seq<seq<Deed>>)
    requires forall i, d :: 0 <= i < |script| && d in script[i] ==> d.Notify?
    ensures var installed := if handler.Some? then User(handler.value) else Nop;
            && Step(Do(st, Install(handler)), Process(script)).calls == st.calls + seq(st.counter, i => installed)
            && Step(st, Process([[Install(handler)]] + script)).calls ==
               st.calls + if st.counter == 0 then [] else [st.handler] + seq(st.counter - 1, i => installed)
  {
    var installed := if handler.Some? then User(handler.value) else Nop;
    DeliversToInstalled(st.(handler := installed, counter := 0), st.counter, script);
    if st.counter > 0 {
      var called := st.(counter := 0, calls := st.calls + [st.handler]);
      var all := [[Install(handler)]] + script;
      assert all[1..] == script;
      assert DoAll(called, [Install(handler)]) == called.(handler := installed) by {
        assert [Install(handler)][1..] == [];
      }
      DeliversToInstalled(called.(handler := installed), st.counter - 1, script);
    }
  }

  /** Conservation over every run: accepted notifications are the calls made plus what the counter still holds,
      under any interleaving of notifications, installed handlers and processing, recursive notifications included. */
  lemma {:induction false} Conservation(st: NotifierState, ops: seq<Op>)
    requires st.accepted == |st.calls| + st.counter
    ensures Run(st, ops).accepted == |Run(st, ops).calls| + Run(st, ops).counter
    decreases ops
  {
    if ops != [] {
      if ops[0].Process? {
        DeliverCounts(st.(counter := 0), st.counter, ops[0].script);
      }
      Conservation(Step(st, ops[0]), ops[1..]);
    }
  }

  class Notifier {
    var counter: nat
    var eventHandler: Callback
    ghost var accepted: nat
    ghost var calls: seq<Callback>

    ghost function State(): NotifierState
      reads this
    {
      NotifierState(counter, eventHandler, accepted, calls)
    }

    constructor ()
      ensures State() == START
    {
      counter, eventHandler, accepted, calls := 0, Nop, 0, [];
    }

    method Set(handler: Option<nat>) returns (ret: int)
      modifies this
      ensures ret == 0 && State() == Do(old(State()), Install(handler))
      ensures eventHandler == (if handler.Some? then User(handler.value) else Nop) && counter == old(counter)
    {
      if handler.Some? {
        eventHandler := User(handler.value);
      } else {
        eventHandler := Nop;
      }
      return 0;
    }

    /** 8 bytes written when the counter has room, else -1. */
    method NotifyOnce() returns (ret: int)
      modifies this
      ensures State() == Do(old(State()), Notify)
      ensures ret == if old(counter) < MAX_COUNT then 8 else -1
      ensures counter == old(counter) + (if ret == 8 then 1 else 0) && eventHandler == old(eventHandler)
      ensures accepted == old(accepted) + if ret == 8 then 1 else 0
    {
      if counter >= MAX_COUNT {
        return -1;
      }
      counter, accepted := counter + 1, accepted + 1;
      return 8;
    }

    method CallHandler(deeds: seq<Deed>)
      modifies this
      ensures State() == DoAll(old(State()).(calls := old(calls) + [old(eventHandler)]), deeds)
    {
      calls := calls + [eventHandler];
      ghost var called := State();
      var i := 0;
      while i < |deeds|
        invariant 0 <= i <= |deeds|
        invariant DoAll(called, deeds) == DoAll(State(), deeds[i..])
      {
        match deeds[i] {
          case Notify => var ret := NotifyOnce();
          case Install(handler) => var ret := Set(handler);
        }
        i := i + 1;
      }
    }

    /** Reads the counter away and calls the handler as often as it said. */
    method ProcessEvent(script: seq<seq<Deed>>) returns (ret: int)
      modifies this
      ensures State() == Step(old(State()), Process(script))
      ensures ret == if old(counter) == 0 then -1 else 0
      ensures |calls| == |old(calls)| + old(counter) && old(calls) <= calls
    {
      DeliverCounts(State().(counter := 0), counter, script);
      if counter == 0 {
        return -1;
      }
      var eventCount := counter;
      counter := 0;
      ghost var read := State();
      var i := 0;
      ghost var rest := script;
      while i < eventCount
        invariant 0 <= i <= eventCount
        invariant rest == if i <= |script| then script[i..] else []
        invariant Deliver(read, eventCount, script) == Deliver(State(), eventCount - i, rest)
      {
        CallHandler(if i < |script| then script[i] else []);
        rest := if rest == [] then [] else rest[1..];
        i := i + 1;
      }
      return 0;
    }
  }
}
