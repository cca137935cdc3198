/**
 Timers over a timer descriptor (lib/sys/linux/timer.cpp). Callbacks may set, cancel and even process the timer
 again, so an operation that calls back carries the operations done inside the callback.
*/
module Timers {
  import opened Words

  datatype Callback = Empty | Nop | User(id: nat)

  /** A call of a user handler. `arming` says which successful set the handler came with. */
  datatype Call = Call(arming: nat, id: nat, fired: bool)

  datatype Op =
    | Set(periodMs: nat, repeated: bool, handler: Callback)
    | Cancel(within: seq<Op>)
    | Expire(times: nat)
    | Process(within: seq<Op>)

  /** `value` and `interval` in ns as in the timer descriptor, 0 when disarmed or not cyclic; `ticks` unread
      expirations; `kinds[a]`: arming a was cyclic. */
  datatype TimerState = TimerState(
    handler: Callback, value: nat, interval: nat, ticks: nat, kinds: seq<bool>, log: seq<Call>)

  const START := TimerState(Nop, 0, 0, 0, [], [])

  function Nanoseconds(periodMs: nat): nat {
    (periodMs / 1000) * 1_000_000_000 + (periodMs % 1000) * 1000 * 1000
  }

  lemma NanosecondsExact(periodMs: nat)
    ensures Nanoseconds(periodMs) == periodMs * 1_000_000
  {
  }

  function DoSet(st: TimerState, periodMs: nat, repeated: bool, h: Callback): TimerState {
    if periodMs == 0 then st
    else
      st.(handler := if st.handler.Empty? then Nop else h,
          value := Nanoseconds(periodMs), interval := if repeated then Nanoseconds(periodMs) else 0,
          ticks := 0, kinds := st.kinds + [repeated])
  }

  function DoExpire(st: TimerState, times: nat): TimerState {
    if st.value == 0 || times == 0 then st
    else st.(value := st.interval, ticks := st.ticks + if st.interval > 0 then times else 1)
  }

  /** The installed handler is called; empty and default handlers leave no trace. */
  function Called(st: TimerState, h: Callback, fired: bool): TimerState {
    if h.User? && st.kinds != [] then st.(log := st.log + [Call(|st.kinds| - 1, h.id, fired)]) else st
  }

  function Disarm(st: TimerState): TimerState { st.(value := 0, interval := 0, ticks := 0) }

  function Step(st: TimerState, op: Op): TimerState
    decreases op
  {
    match op
    case Set(p, r, h) => DoSet(st, p, r, h)
    case Expire(n) => DoExpire(st, n)
    case Cancel(within) =>
      var bare := st.(handler := Nop);
      if st.value == 0 then Disarm(bare)
      else if st.handler.User? then Disarm(Run(Called(bare, st.handler, false), within))
      else Disarm(bare)
    case Process(within) =>
      if st.ticks == 0 then st
      else if st.handler.User? then Run(Called(st.(ticks := 0), st.handler, true), within)
      else st.(ticks := 0)
  }

  function Run(st: TimerState, ops: seq<Op>): TimerState
    decreases ops
  {
    if ops == [] then st else Run(Step(st, ops[0]), ops[1..])
  }

  /** Cancelling up to the last setting of the time. */
  function Undisarmed(st: TimerState, within: seq<Op>): TimerState {
    var bare := st.(handler := Nop);
    if st.value > 0 && st.handler.User? then Run(Called(bare, st.handler, false), within) else bare
  }

  /** An arming that is called again was cyclic and had fired before, never been cancelled. */
  ghost predicate CallsOk(st: TimerState) {
    && (forall i :: 0 <= i < |st.log| ==> st.log[i].arming < |st.kinds|)
    && (forall i, j :: 0 <= i < j < |st.log| && st.log[i].arming == st.log[j].arming ==>
          st.log[i].fired && st.kinds[st.log[i].arming])
  }

  ghost predicate CalledFor(st: TimerState, arming: nat) {
    exists i :: 0 <= i < |st.log| && st.log[i].arming == arming
  }

  /** While the handler of the latest arming is still installed: no cancelled call of it was made, and if it is not
      cyclic, it was called only if it can no longer fire or be cancelled. */
  ghost predicate CurrentOk(st: TimerState) {
    && (st.handler.User? ==> st.kinds != [])
    && (st.kinds != [] && !st.kinds[|st.kinds| - 1] ==> st.interval == 0 && (st.value == 0 || st.ticks == 0))
    && (st.handler.User? ==>
          && (forall i :: 0 <= i < |st.log| && st.log[i].arming == |st.kinds| - 1 ==> st.log[i].fired)
          && (!st.kinds[|st.kinds| - 1] && CalledFor(st, |st.kinds| - 1) ==> st.value == 0 && st.ticks == 0))
  }

  ghost predicate Inv(st: TimerState) { CallsOk(st) && CurrentOk(st) }

  lemma CalledKeeps(st: TimerState, h: Callback, fired: bool)
    requires Inv(st) && h.User? && st.handler == h
    requires if fired then st.ticks > 0 else st.value > 0
    ensures var u := if fired then st.(ticks := 0) else st.(handler := Nop);
            Inv(Called(u, h, fired))
  {
    var a := |st.kinds| - 1;
    if !st.kinds[a] {
      assert !CalledFor(st, a);
    }
  }

  lemma {:induction false} StepKeeps(st: TimerState, op: Op)
    requires Inv(st)
    ensures Inv(Step(st, op))
    decreases op
  {
    match op
    case Set(p, r, h) =>
      if p != 0 { NanosecondsExact(p); }
    case Expire(n) =>
    case Cancel(within) =>
      if st.value > 0 && st.handler.User? {
        CalledKeeps(st, st.handler, false);
        RunKeeps(Called(st.(handler := Nop), st.handler, false), within);
      }
    case Process(within) =>
      if st.ticks > 0 && st.handler.User? {
        CalledKeeps(st, st.handler, true);
        RunKeeps(Called(st.(ticks := 0), st.handler, true), within);
      }
  }

  lemma {:induction false} RunKeeps(st: TimerState, ops: seq<Op>)
    requires Inv(st)
    ensures Inv(Run(st, ops))
    decreases ops
  {
    if ops != [] {
      StepKeeps(st, ops[0]);
      RunKeeps(Step(st, ops[0]), ops[1..]);
    }
  }

  /** Over every run, callbacks inside callbacks included: an arming that is not cyclic is called at most once, fired
      or cancelled but never both; and a cancelled call is the last one of any arming. */
  lemma AtMostOnce(ops: seq<Op>, i: nat, j: nat)
    requires i < j < |Run(START, ops).log|
    requires Run(START, ops).log[i].arming == Run(START, ops).log[j].arming
    ensures Run(START, ops).log[i].arming < |Run(START, ops).kinds|
    ensures Run(START, ops).kinds[Run(START, ops).log[i].arming]
    ensures Run(START, ops).log[i].fired
  {
    RunKeeps(START, ops);
  }

  /** No handler of arming a is installed any more. */
  ghost predicate Dead(st: TimerState, a: nat) {
    a + 1 < |st.kinds| || (a + 1 == |st.kinds| && !st.handler.User?)
  }

  lemma {:induction false} StepDead(st: TimerState, op: Op, a: nat)
    requires Dead(st, a)
    ensures Dead(Step(st, op), a) && st.log <= Step(st, op).log
    ensures forall i :: |st.log| <= i < |Step(st, op).log| ==> Step(st, op).log[i].arming != a
    decreases op
  {
    match op
    case Set(p, r, h) =>
    case Expire(n) =>
    case Cancel(within) =>
      if st.value > 0 && st.handler.User? {
        RunDead(Called(st.(handler := Nop), st.handler, false), within, a);
      }
    case Process(within) =>
      if st.ticks > 0 && st.handler.User? {
        RunDead(Called(st.(ticks := 0), st.handler, true), within, a);
      }
  }

  lemma {:induction false} RunDead(st: TimerState, ops: seq<Op>, a: nat)
    requires Dead(st, a)
    ensures Dead(Run(st, ops), a) && st.log <= Run(st, ops).log
    ensures forall i :: |st.log| <= i < |Run(st, ops).log| ==> Run(st, ops).log[i].arming != a
    decreases ops
  {
    if ops != [] {
      StepDead(st, ops[0], a);
      RunDead(Step(st, ops[0]), ops[1..], a);
    }
  }

  /** Cancelling is final: it calls the handler at most once, with fired=false and exactly if the timer was running,
      and no later operation, nor any inside that callback, calls a handler for that arming again. */
  lemma CancelIsFinal(st: TimerState, within: seq<Op>, later: seq<Op>)
    requires st.kinds != []
    ensures var t := Run(Step(st, Cancel(within)), later);
            var told := if st.value > 0 && st.handler.User? then [Call(|st.kinds| - 1, st.handler.id, false)] else [];
            && st.log + told <= t.log
            && forall i :: |st.log + told| <= i < |t.log| ==> t.log[i].arming != |st.kinds| - 1
    ensures Step(st, Cancel(within)).value == 0 && Step(st, Cancel(within)).ticks == 0
  {
    var bare := st.(handler := Nop);
    var a := |st.kinds| - 1;
    if st.value > 0 && st.handler.User? {
      RunDead(Called(bare, st.handler, false), within, a);
    }
    RunDead(Step(st, Cancel(within)), later, a);
  }

  /** A set made by a cancelled callback is in vain. It succeeds if the callback runs, which it does exactly if the
      timer was running with a user handler; then the rest of cancel disarms it, so nothing is called before the next
      set. */
  lemma SetInsideCancelIsLost(st: TimerState, p: nat, r: bool, id: nat, missed: nat, within: seq<Op>)
    requires p > 0
    ensures var t := Step(st, Cancel([Set(p, r, User(id))]));
            && (st.value > 0 && st.handler.User? <==> t.kinds == st.kinds + [r])
            && (st.value > 0 && st.handler.User? ==> t.handler == User(id))
            && t.value == 0 && t.ticks == 0 && Step(Step(t, Expire(missed)), Process(within)) == t
  {
    var inner := Set(p, r, User(id));
    assert [inner][1..] == [];
    if st.value > 0 && st.handler.User? {
      var called := Called(st.(handler := Nop), st.handler, false);
      assert Run(called, [inner]) == DoSet(called, p, r, User(id)) by { RunOne(called, inner); }
    } else {
      assert |st.kinds| != |st.kinds + [r]|;
    }
  }

  lemma RunOne(st: TimerState, op: Op)
    ensures Run(st, [op]) == Step(st, op)
  {
    hide Step;
    assert [op][1..] == [];
  }

  lemma RunNothing(st: TimerState)
    ensures Run(st, []) == st
  {
  }

  lemma ProcessOnce(st: TimerState, within: seq<Op>)
    ensures Step(st, Process(within)) ==
            if st.ticks == 0 then st
            else if st.handler.User? then Run(Called(st.(ticks := 0), st.handler, true), within)
            else st.(ticks := 0)
  {
    hide Run;
  }

  /** However many expirations were missed, processing calls the handler once, then does what the callback does. */
  lemma {:induction false} MissedExpirationsCollapse(st: TimerState, missed: nat, within: seq<Op>)
    requires st.value > 0 && st.interval > 0 && missed > 0 && st.handler.User? && st.kinds != []
    ensures Step(Step(st, Expire(missed)), Process(within)) == Step(Step(st, Expire(1)), Process(within))
    ensures Step(Step(st, Expire(missed)), Process([])).log == st.log + [Call(|st.kinds| - 1, st.handler.id, true)]
    ensures Step(Step(Step(st, Expire(missed)), Process([])), Process(within)) ==
            Step(Step(st, Expire(missed)), Process([]))
  {
    var many, one := DoExpire(st, missed), DoExpire(st, 1);
    assert Step(st, Expire(missed)) == many && Step(st, Expire(1)) == one;
    assert many.(ticks := 0) == one.(ticks := 0);
    hide Step, Run;
    ProcessOnce(many, within);
    ProcessOnce(one, within);
    ProcessOnce(many, []);
    RunNothing(Called(many.(ticks := 0), st.handler, true));
    ProcessOnce(Step(many, Process([])), within);
  }

  /** A new setting takes over: what the old arming still had unread or running is gone. */
  lemma SetSupersedes(st: TimerState, p: nat, r: bool, h: Callback, later: seq<Op>)
    requires p > 0 && st.kinds != []
    ensures var t := Run(Step(st, Set(p, r, h)), later);
            st.log <= t.log && forall i :: |st.log| <= i < |t.log| ==> t.log[i].arming != |st.kinds| - 1
  {
    RunDead(Step(st, Set(p, r, h)), later, |st.kinds| - 1);
  }

  /** The handler given to set is installed if and only if the one before was not empty: after an empty handler the
      next one is dropped. */
  lemma SetInstalls(st: TimerState, p: nat, r: bool, id: nat)
    requires p > 0
    ensures Step(st, Set(p, r, User(id))).handler == User(id) <==> !st.handler.Empty?
    ensures Step(Step(st, Set(p, r, User(id))), Expire(1)).ticks == 1
    ensures st.handler.Empty? ==> Step(Step(Step(st, Set(p, r, User(id))), Expire(1)), Process([])).log == st.log
  {
    NanosecondsExact(p);
  }

  /** What the loop sees of a timer that is left alone: expirations, any number of them, and then a processing. */
  function Rounds(times: seq<nat>): seq<Op> {
    if times == [] then [] else [Expire(times[0]), Process([])] + Rounds(times[1..])
  }

  lemma {:induction false} RoundFirst(st: TimerState, times: seq<nat>)
    requires times != []
    ensures Run(st, Rounds(times)) == Run(Step(Step(st, Expire(times[0])), Process([])), Rounds(times[1..]))
  {
    hide Step;
    var ops := Rounds(times);
    assert ops[1..] == [Process([])] + Rounds(times[1..]);
    assert ops[1..][1..] == Rounds(times[1..]);
  }

  lemma FiredRound(st: TimerState, missed: nat)
    requires st.value > 0 && st.ticks == 0 && missed > 0 && st.handler.User? && st.kinds != []
    ensures Step(Step(st, Expire(missed)), Process([])) ==
            st.(value := st.interval, log := st.log + [Call(|st.kinds| - 1, st.handler.id, true)])
  {
    RunNothing(Called(DoExpire(st, missed).(ticks := 0), st.handler, true));
  }

  lemma SilentRound(st: TimerState, missed: nat)
    requires st.value == 0 && st.ticks == 0
    ensures Step(Step(st, Expire(missed)), Process([])) == st
  {
  }

  lemma {:induction false} SilentRounds(st: TimerState, times: seq<nat>)
    requires st.value == 0 && st.ticks == 0
    ensures Run(st, Rounds(times)) == st
  {
    if times != [] {
      RoundFirst(st, times);
      SilentRound(st, times[0]);
      SilentRounds(st, times[1..]);
    }
  }

  lemma {:induction false} CyclicRounds(st: TimerState, times: seq<nat>)
    requires st.value > 0 && st.interval == st.value && st.ticks == 0 && st.handler.User? && st.kinds != []
    requires forall i :: 0 <= i < |times| ==> times[i] > 0
    ensures Run(st, Rounds(times)).log == st.log + seq(|times|, i => Call(|st.kinds| - 1, st.handler.id, true))
    decreases times
  {
    hide Step;
    var call := Call(|st.kinds| - 1, st.handler.id, true);
    if times == [] {
      RunNothing(st);
    } else {
      RoundFirst(st, times);
      FiredRound(st, times[0]);
      CyclicRounds(st.(value := st.interval, log := st.log + [call]), times[1..]);
      assert seq(|times|, i => call) == [call] + seq(|times| - 1, i => call);
    }
  }

  /** A repeated timer repeats: from a setting on, n rounds of at least one expiration and a processing each make
      exactly n calls of the handler; without repetition the first round makes the only call. */
  lemma {:induction false} RoundsCall(st: TimerState, p: nat, r: bool, id: nat, times: seq<nat>)
    requires p > 0 && !st.handler.Empty? && forall i :: 0 <= i < |times| ==> times[i] > 0
    ensures var n := if r then |times| else if times == [] then 0 else 1;
            Run(Step(st, Set(p, r, User(id))), Rounds(times)).log ==
            st.log + seq(n, i => Call(|st.kinds|, id, true))
  {
    NanosecondsExact(p);
    var t := Step(st, Set(p, r, User(id)));
    assert t == DoSet(st, p, r, User(id));
    var call := Call(|st.kinds|, id, true);
    if r {
      CyclicRounds(t, times);
    } else if times == [] {
      RunNothing(t);
    } else {
      RoundFirst(t, times);
      FiredRound(t, times[0]);
      SilentRounds(t.(value := 0, log := t.log + [call]), times[1..]);
      assert seq(1, i => call) == [call];
    }
  }

  /** The kernel's timer descriptor. */
  class TimerFd {
    var value: nat
    var interval: nat
    var ticks: nat

    constructor ()
      ensures value == 0 && interval == 0 && ticks == 0
    {
      value, interval, ticks := 0, 0, 0;
    }

    /** Setting the time drops expirations not yet read; a kernel that does not accept it changes nothing. */
    method SetTime(newValue: nat, newInterval: nat, accepted: bool) returns (ret: int)
      modifies this
      ensures ret == if accepted then 0 else -1
      ensures accepted ==> value == newValue && interval == newInterval && ticks == 0
      ensures !accepted ==> value == old(value) && interval == old(interval) && ticks == old(ticks)
    {
      if !accepted {
        return -1;
      }
      value, interval, ticks := newValue, newInterval, 0;
      return 0;
    }

    /** The expirations since the last read; 0 when a read would block. */
    method Read() returns (count: nat)
      modifies this`ticks
      ensures count == old(ticks) && ticks == 0
    {
      count, ticks := ticks, 0;
    }

    method Elapse(times: nat)
      modifies this
      ensures interval == old(interval)
      ensures if old(value) == 0 || times == 0 then value == old(value) && ticks == old(ticks)
              else value == interval && ticks == old(ticks) + if interval > 0 then times else 1
    {
      if value > 0 && times > 0 {
        ticks := ticks + if interval > 0 then times else 1;
        value := interval;
      }
    }
  }

  class Timer {
    const fd: TimerFd
    var eventHandler: Callback
    ghost var kinds: seq<bool>
    ghost var log: seq<Call>

    ghost function State(): TimerState
      reads this, fd
    {
      TimerState(eventHandler, fd.value, fd.interval, fd.ticks, kinds, log)
    }

    constructor ()
      ensures State() == START && fresh(fd)
    {
      fd := new TimerFd();
      eventHandler, kinds, log := Nop, [], [];
    }

    /** When the kernel does not accept the time, the handler is installed all the same. */
    method Set(periodMs: nat, repeated: bool, handler: Callback, accepted: bool) returns (ret: int)
      modifies this, fd
      ensures ret == if periodMs == 0 || !accepted then -1 else 0
      ensures periodMs > 0 && accepted ==>
                && fd.value == periodMs * 1_000_000
                && fd.interval == (if repeated then periodMs * 1_000_000 else 0) && fd.ticks == 0
      ensures periodMs == 0 || !accepted ==>
                fd.value == old(fd.value) && fd.interval == old(fd.interval) && fd.ticks == old(fd.ticks)
      ensures eventHandler == if periodMs == 0 then old(eventHandler)
                              else if old(eventHandler).Empty? then Nop else handler
      ensures accepted ==> State() == Step(old(State()), Op.Set(periodMs, repeated, handler))
      ensures !accepted ==>
                State() == if periodMs == 0 then old(State()) else
                           old(State()).(handler := if old(eventHandler).Empty? then Nop else handler)
    {
      if periodMs == 0 {
        return -1;
      }
      var seconds := periodMs / 1000;
      var rest := periodMs % 1000;
      var value := seconds * 1_000_000_000 + rest * 1000 * 1000;
      var interval := 0;
      if repeated {
        interval := seconds * 1_000_000_000 + rest * 1000 * 1000;
      }
      if !eventHandler.Empty? {
        eventHandler := handler;
      } else {
        eventHandler := Nop;
      }
      ret := fd.SetTime(value, interval, accepted);
      if accepted {
        kinds := kinds + [repeated];
      }
    }

    /** The overload that takes a duration: the count is cut to 32 bits. */
    method SetDuration(count: int, repeated: bool, handler: Callback, accepted: bool) returns (ret: int)
      modifies this, fd
      ensures accepted ==> State() == Step(old(State()), Op.Set(count % TWO_32, repeated, handler))
      ensures !accepted ==> fd.value == old(fd.value) && fd.interval == old(fd.interval) && log == old(log)
      ensures ret == if count % TWO_32 == 0 || !accepted then -1 else 0
      ensures count % TWO_32 > 0 && accepted ==>
                && fd.value == count % TWO_32 * 1_000_000
                && fd.interval == if repeated then count % TWO_32 * 1_000_000 else 0
    {
      ret := Set(count % TWO_32, repeated, handler, accepted);
    }

    /** Stops the timer; a user handler of a running timer is told so with fired=false. When the kernel does not tell
        the time, the handler is dropped and the timer goes on; when it does not accept the last setting, the timer goes
        on although the handler was told. */
    method Cancel(within: seq<Op>, readable: bool, accepted: bool) returns (ret: int)
      requires Inv(State())
      modifies this, fd
      ensures ret == if !readable then -1 else if old(fd.value) != 0 then 1 else 0
      ensures readable && accepted ==> State() == Step(old(State()), Op.Cancel(within))
      ensures readable && accepted ==> fd.value == 0 && fd.interval == 0 && fd.ticks == 0
      ensures readable && !accepted ==> State() == Undisarmed(old(State()), within)
      ensures !readable ==> State() == old(State()).(handler := Nop)
      decreases within, 1
    {
      ret := 0;
      ghost var before := State();
      var originalEventHandler := eventHandler;
      eventHandler := Nop;
      if !readable {
        return -1;
      }
      if fd.value != 0 {
        if originalEventHandler.User? {
          CalledKeeps(before, originalEventHandler, false);
          CallHandler(originalEventHandler, false, within);
        }
        ret := 1;
      }
      var ignored := fd.SetTime(0, 0, accepted);
    }

    /** Called by the event loop: one read, then one call however many expirations there were. Calling an empty
        handler throws, which the event loop catches. */
    method ProcessEvent(within: seq<Op>) returns (ret: int)
      requires Inv(State())
      modifies this, fd
      ensures State() == Step(old(State()), Process(within)) && ret == 0
      decreases within, 1
    {
      ghost var before := State();
      var timerEventCount := fd.Read();
      if timerEventCount > 0 && eventHandler.User? {
        CalledKeeps(before, eventHandler, true);
        CallHandler(eventHandler, true, within);
      }
      return 0;
    }

    /** Calls a user handler; inside it the operations `within` are done. */
    method CallHandler(h: Callback, fired: bool, within: seq<Op>)
      requires h.User? && kinds != [] && Inv(Called(State(), h, fired))
      modifies this, fd
      ensures State() == Run(Called(old(State()), h, fired), within)
      decreases within, 0
    {
      log := log + [Call(|kinds| - 1, h.id, fired)];
      ghost var called := State();
      var i := 0;
      while i < |within|
        invariant 0 <= i <= |within|
        invariant Run(called, within) == Run(State(), within[i..]) && Inv(State())
      {
        Perform(within[i]);
        i := i + 1;
      }
    }

    method Perform(op: Op)
      requires Inv(State())
      modifies this, fd
      ensures State() == Step(old(State()), op) && Inv(State())
      decreases op
    {
      StepKeeps(State(), op);
      match op
      case Set(p, r, h) => var ret := Set(p, r, h, true);
      case Cancel(within) => var ret := Cancel(within, true, true);
      case Expire(times) => fd.Elapse(times);
      case Process(within) => var ret := ProcessEvent(within);
    }
  }
}
