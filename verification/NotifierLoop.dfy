/**
 A notifier registered with the event loop (lib/sys/linux/notifier.cpp with lib/sys/linux/eventloop.cpp). One combined
 run interleaves notifications, new handlers, the single steps of `process` wherever it is called from, and all other
 steps of the loop, of callbacks, threads and the kernel. The units of the counter are the work behind the notifier's
 channel. `process` reads once, calls back, and returns without reading again; no notification is lost by that.
*/
module NotifierLoops {
  import opened Options
  import opened EpollMachine
  import opened EpollSafety
  import opened EpollDraining
  import opened EpollWakeup
  import N = Notifiers

  /** `owed`: calls that a running process still has to make; `result`: what it will return. */
  datatype World = World(st: N.NotifierState, owed: map<Who, nat>, result: map<Who, int>, machine: State)

  datatype Event =
    | Does(deed: N.Deed)     // somebody notifies or installs a handler, inside a callback or not
    | Read(who: Who)         // process reads the counter away
    | Call(who: Who)         // process calls the handler once
    | Finish(who: Who)       // process returns
    | Other(action: Action)  // anything that is not about the notifier

  function ReturnOf(who: Who, result: int): Action {
    match who
    case Loop => Return(result)
    case Drainer(id) => DrainReturn(id, result)
  }

  /** Not an arrival at the channel, nor a step of a handler running for it. */
  ghost predicate Foreign(s: State, c: Channel, a: Action) {
    match a
    case Arrive(d, _) => d != c
    case Consume(who, _) => ChannelOf(s, who) != Some(c)
    case SeeEmpty(who) => ChannelOf(s, who) != Some(c)
    case Return(_) => ChannelOf(s, Loop) != Some(c)
    case DrainReturn(id, _) => ChannelOf(s, Drainer(id)) != Some(c)
    case _ => true
  }

  ghost predicate Possible(w: World, c: Channel, e: Event) {
    match e
    case Does(_) => true
    case Read(who) => ChannelOf(w.machine, who) == Some(c) && who !in w.owed
    case Call(who) => who in w.owed && w.owed[who] > 0
    case Finish(who) => who in w.owed && w.owed[who] == 0 && who in w.result
    case Other(a) => Enabled(w.machine, a) && Foreign(w.machine, c, a)
  }

  /** What NoLostWakeup asks of the notifier's own channel: removals of reported channels are accepted, the channel is
      not neglected by an accepted change of its descriptor, and the stop record is not met while it is pending. Nothing
      is asked of other handlers, of process, or of what callbacks do. */
  ghost predicate Fine(w: World, c: Channel, e: Event) {
    e.Other? ==> Diligent(w.machine, c, e.action)
  }

  /** What an event is in the loop's terms. */
  function Actions(w: World, c: Channel, e: Event): seq<Action> {
    match e
    case Does(deed) => if deed.Notify? && w.st.counter < N.MAX_COUNT then [Arrive(c, 1)] else []
    case Read(who) => [Consume(who, w.st.counter)] + [SeeEmpty(who)]
    case Call(_) => []
    case Finish(who) => if who in w.result then [ReturnOf(who, w.result[who])] else []
    case Other(a) => [a]
  }

  /** What an event does to the notifier. */
  function Effect(st: N.NotifierState, e: Event): N.NotifierState {
    match e
    case Does(deed) => N.Do(st, deed)
    case Read(_) => st.(counter := 0)
    case Call(_) => st.(calls := st.calls + [st.handler])
    case _ => st
  }

  ghost function Played(s: State, acts: seq<Action>): State {
    if Exec(s, acts).Some? then Exec(s, acts).value else s
  }

  /** process returns -1 when there was nothing to read. */
  ghost function After(w: World, c: Channel, e: Event): World
    requires Possible(w, c, e)
  {
    var machine := Played(w.machine, Actions(w, c, e));
    var st := Effect(w.st, e);
    match e
    case Read(who) =>
      World(st, w.owed[who := w.st.counter], w.result[who := if w.st.counter == 0 then -1 else 0], machine)
    case Call(who) => World(st, w.owed[who := w.owed[who] - 1], w.result, machine)
    case Finish(who) => World(st, w.owed - {who}, w.result - {who}, machine)
    case _ => World(st, w.owed, w.result, machine)
  }

  ghost function Begin(stop: Fd): World { World(N.START, map[], map[], Init(stop)) }

  /** The world after a combined run, or None when some event is not possible where it stands. */
  ghost function AfterAll(stop: Fd, c: Channel, events: seq<Event>): Option<World> {
    if events == [] then Some(Begin(stop))
    else
      var before := AfterAll(stop, c, events[..|events| - 1]);
      var e := events[|events| - 1];
      if before.Some? && Possible(before.value, c, e) && Fine(before.value, c, e)
      then Some(After(before.value, c, e)) else None
  }

  /** The same run in the loop's terms. */
  ghost function Log(stop: Fd, c: Channel, events: seq<Event>): seq<Action> {
    if events == [] then []
    else
      var before := AfterAll(stop, c, events[..|events| - 1]);
      Log(stop, c, events[..|events| - 1]) +
      if before.Some? then Actions(before.value, c, events[|events| - 1]) else []
  }

  // ---- The coupling ---------------------------------------------------------------------------------------

  /** A handler that runs for the channel and has seen it empty. */
  ghost predicate Seen(s: State, c: Channel, who: Who) {
    match who
    case Loop => s.ctl.Calling? && s.ctl.chan == c && s.ctl.seen
    case Drainer(id) => id in s.drains && s.drains[id].chan == c && s.drains[id].seen
  }

  /** The counter is the work behind the channel, a process that has read has seen the channel empty, and accepted
      notifications are the calls made, the counter, and the calls still owed. */
  ghost predicate Coupled(w: World, c: Channel) {
    && w.machine.Work(c) == w.st.counter
    && w.owed.Keys == w.result.Keys
    && (forall who :: who in w.result ==> w.result[who] <= 0 && Seen(w.machine, c, who))
    && w.st.accepted == |w.st.calls| + w.st.counter + Total(w.owed)
  }

  /** The actions of an event can be played, and are diligent for the channel. */
  ghost predicate Plays(s: State, c: Channel, acts: seq<Action>) {
    Exec(s, acts).Some? && DiligentRun(s, c, acts)
  }

  lemma PlaysNothing(s: State, c: Channel)
    ensures Plays(s, c, []) && Played(s, []) == s
  {
  }

  lemma PlaysOne(s: State, c: Channel, a: Action)
    requires Enabled(s, a) && Diligent(s, c, a)
    ensures Plays(s, c, [a]) && Played(s, [a]) == Next(s, a)
  {
    hide Enabled, Next, Diligent;
    assert [a][..0] == [] && Exec(s, []) == Some(s);
    assert DiligentRun(s, c, []);
    assert Exec(s, [a]) == Some(Next(s, a));
  }

  /** Played after a diligent run, they make a longer one. */
  lemma {:induction false} PlaysAfter(s: State, c: Channel, acts: seq<Action>, t: State, more: seq<Action>)
    requires Plays(s, c, acts) && Exec(s, acts) == Some(t) && Plays(t, c, more)
    ensures Plays(s, c, acts + more) && Exec(s, acts + more) == Some(Played(t, more))
    decreases |more|
  {
    hide Enabled, Next, Diligent;
    if more == [] {
      assert acts + more == acts;
    } else {
      var front := more[..|more| - 1];
      PlaysAfter(s, c, acts, t, front);
      assert (acts + more)[..|acts + more| - 1] == acts + front;
    }
  }

  // ---- Every event keeps the coupling ---------------------------------------------------------------------

  lemma DoesKeeps(w: World, c: Channel, deed: N.Deed)
    requires Coupled(w, c)
    ensures Plays(w.machine, c, Actions(w, c, Does(deed))) && Coupled(After(w, c, Does(deed)), c)
  {
    if deed.Notify? && w.st.counter < N.MAX_COUNT {
      PlaysOne(w.machine, c, Arrive(c, 1));
    } else {
      PlaysNothing(w.machine, c);
    }
  }

  lemma CallKeeps(w: World, c: Channel, who: Who)
    requires Coupled(w, c) && Possible(w, c, Call(who))
    ensures Plays(w.machine, c, Actions(w, c, Call(who))) && Coupled(After(w, c, Call(who)), c)
  {
    PlaysNothing(w.machine, c);
    TotalSet(w.owed, who, w.owed[who] - 1);
  }

  lemma ReadKeeps(w: World, c: Channel, who: Who)
    requires Coupled(w, c) && Possible(w, c, Read(who))
    ensures Plays(w.machine, c, Actions(w, c, Read(who))) && Coupled(After(w, c, Read(who)), c)
  {
    hide Seen, Exec, Plays, Played, Total, DoConsume, DoSeeEmpty, Enabled;
    var s, n := w.machine, w.st.counter;
    ReadMachine(s, c, who, n);
    ReadPlays(s, c, who, n);
    TotalSet(w.owed, who, n);
    var u := After(w, c, Read(who));
    forall other | other in u.result ensures u.result[other] <= 0 && Seen(u.machine, c, other) {
      ReadSees(s, c, who, n, other);
    }
  }

  lemma ReadPlays(s: State, c: Channel, who: Who, n: nat)
    requires Enabled(s, Consume(who, n)) && Enabled(DoConsume(s, who, n), SeeEmpty(who))
    ensures Plays(s, c, [Consume(who, n)] + [SeeEmpty(who)])
    ensures Played(s, [Consume(who, n)] + [SeeEmpty(who)]) == DoSeeEmpty(DoConsume(s, who, n), who)
  {
    hide Exec, DoConsume, DoSeeEmpty;
    var t := DoConsume(s, who, n);
    PlaysOne(s, c, Consume(who, n));
    PlaysOne(t, c, SeeEmpty(who));
    PlaysAfter(s, c, [Consume(who, n)], t, [SeeEmpty(who)]);
  }

  lemma ReadMachine(s: State, c: Channel, who: Who, n: nat)
    requires ChannelOf(s, who) == Some(c) && s.Work(c) == n
    ensures Enabled(s, Consume(who, n)) && Enabled(DoConsume(s, who, n), SeeEmpty(who))
    ensures DoSeeEmpty(DoConsume(s, who, n), who).Work(c) == 0
  {
  }

  lemma ReadSees(s: State, c: Channel, who: Who, n: nat, other: Who)
    requires ChannelOf(s, who) == Some(c) && s.Work(c) == n && Enabled(s, Consume(who, n))
    requires Enabled(DoConsume(s, who, n), SeeEmpty(who))
    requires other == who || Seen(s, c, other)
    ensures Seen(DoSeeEmpty(DoConsume(s, who, n), who), c, other)
  {
  }

  lemma FinishKeeps(w: World, c: Channel, who: Who)
    requires Coupled(w, c) && Possible(w, c, Finish(who)) && ControlInv(w.machine)
    ensures Plays(w.machine, c, Actions(w, c, Finish(who))) && Coupled(After(w, c, Finish(who)), c)
  {
    var r := w.result[who];
    FinishMachine(w.machine, c, who, r);
    PlaysOne(w.machine, c, ReturnOf(who, r));
    TotalTake(w.owed, who);
    hide Seen, Next;
    var u := After(w, c, Finish(who));
    forall other | other in u.result ensures u.result[other] <= 0 && Seen(u.machine, c, other) {
      FinishSees(w.machine, c, who, r, other);
    }
  }

  /** process can always return, and it is diligent: it has seen its channel empty, if not its counter. */
  lemma FinishMachine(s: State, c: Channel, who: Who, r: int)
    requires Seen(s, c, who) && ControlInv(s) && r <= 0
    ensures Enabled(s, ReturnOf(who, r)) && Diligent(s, c, ReturnOf(who, r))
    ensures Next(s, ReturnOf(who, r)).Work(c) == s.Work(c)
  {
  }

  lemma FinishSees(s: State, c: Channel, who: Who, r: int, other: Who)
    requires Enabled(s, ReturnOf(who, r)) && other != who && Seen(s, c, other)
    ensures Seen(Next(s, ReturnOf(who, r)), c, other)
  {
  }

  lemma OtherKeeps(w: World, c: Channel, a: Action)
    requires Coupled(w, c) && Possible(w, c, Other(a)) && Fine(w, c, Other(a))
    ensures Plays(w.machine, c, Actions(w, c, Other(a))) && Coupled(After(w, c, Other(a)), c)
  {
    PlaysOne(w.machine, c, a);
    OtherWork(w.machine, c, a);
    hide Seen, Next;
    var u := After(w, c, Other(a));
    forall who | who in u.result ensures u.result[who] <= 0 && Seen(u.machine, c, who) {
      OtherSees(w.machine, c, a, who);
    }
  }

  lemma OtherWork(s: State, c: Channel, a: Action)
    requires Enabled(s, a) && Foreign(s, c, a)
    ensures Next(s, a).Work(c) == s.Work(c)
  {
    match a
    case Advance => AdvanceQuiet(s);
    case Consume(who, n) =>
    case _ =>
  }

  lemma OtherSees(s: State, c: Channel, a: Action, who: Who)
    requires Enabled(s, a) && Foreign(s, c, a) && Seen(s, c, who)
    ensures Seen(Next(s, a), c, who)
  {
    match a
    case Advance => AdvanceQuiet(s);
    case Consume(_, _) =>
    case SeeEmpty(_) =>
    case Register(_, _, _, _, _, _) =>
    case DrainReturn(_, _) =>
    case _ =>
  }

  lemma StepKeepsCoupled(w: World, c: Channel, e: Event)
    requires Coupled(w, c) && ControlInv(w.machine) && Possible(w, c, e) && Fine(w, c, e)
    ensures Plays(w.machine, c, Actions(w, c, e)) && Coupled(After(w, c, e), c)
  {
    match e
    case Does(deed) => DoesKeeps(w, c, deed);
    case Read(who) => ReadKeeps(w, c, who);
    case Call(who) => CallKeeps(w, c, who);
    case Finish(who) => FinishKeeps(w, c, who);
    case Other(a) => OtherKeeps(w, c, a);
  }

  /** Every combined run is a diligent run of the loop, and keeps the coupling. */
  lemma {:induction false} RunIsDiligent(stop: Fd, c: Channel, events: seq<Event>, w: World)
    requires AfterAll(stop, c, events) == Some(w)
    ensures Exec(Init(stop), Log(stop, c, events)) == Some(w.machine) && Plays(Init(stop), c, Log(stop, c, events))
    ensures Coupled(w, c)
    decreases |events|
  {
    hide Exec, Plays, Coupled, Possible, Fine, Inv;
    if events == [] {
      BeginsWell(stop, c);
    } else {
      var front, e := events[..|events| - 1], events[|events| - 1];
      var v := AfterAll(stop, c, front).value;
      RunIsDiligent(stop, c, front, v);
      ControlOf(stop, c, Log(stop, c, front), v.machine);
      StepKeepsCoupled(v, c, e);
      PlaysAfter(Init(stop), c, Log(stop, c, front), v.machine, Actions(v, c, e));
    }
  }

  lemma BeginsWell(stop: Fd, c: Channel)
    ensures Exec(Init(stop), []) == Some(Init(stop)) && Plays(Init(stop), c, []) && Coupled(Begin(stop), c)
  {
    PlaysNothing(Init(stop), c);
  }

  lemma ControlOf(stop: Fd, c: Channel, acts: seq<Action>, s: State)
    requires Plays(Init(stop), c, acts) && Exec(Init(stop), acts) == Some(s)
    ensures ControlInv(s)
  {
    hide Exec, DiligentRun;
    DiligentIsHarmless(Init(stop), c, acts);
    Reached(stop, acts, s);
  }

  // ---- What follows ---------------------------------------------------------------------------------------

  /** Conservation at every moment of every combined run: accepted notifications are the calls made, the counter, and
      the calls still owed by running processes, whatever callbacks notify or install. */
  lemma OwedConservation(stop: Fd, c: Channel, events: seq<Event>, w: World)
    requires AfterAll(stop, c, events) == Some(w)
    ensures w.st.accepted == |w.st.calls| + w.st.counter + Total(w.owed)
    ensures w.machine.Work(c) == w.st.counter
  {
    RunIsDiligent(stop, c, events, w);
  }

  /** The kernel reports the notifier, as it does whenever it refused no addition to the descriptor. */
  ghost predicate Heard(stop: Fd, c: Channel, events: seq<Event>, w: World) {
    w.machine.Registered(c) && (Watched(w.machine, c) || AdditionsAccepted(c.fd, Log(stop, c, events)))
  }

  lemma HeardIsWatched(stop: Fd, c: Channel, events: seq<Event>, w: World)
    requires Heard(stop, c, events, w)
    requires Exec(Init(stop), Log(stop, c, events)) == Some(w.machine)
    requires DiligentRun(Init(stop), c, Log(stop, c, events))
    ensures Watched(w.machine, c)
  {
    hide Exec, DiligentRun, AdditionsAccepted;
    DiligentIsHarmless(Init(stop), c, Log(stop, c, events));
    if AdditionsAccepted(c.fd, Log(stop, c, events)) {
      RegisteredIsWatched(stop, c, Log(stop, c, events), w.machine);
    }
  }

  /** A registered notifier with a counter above zero has a wakeup: a queued edge, a pending bit, or a drain that has
      not read yet. */
  lemma NotificationNotLost(stop: Fd, c: Channel, events: seq<Event>, w: World)
    requires AfterAll(stop, c, events) == Some(w) && w.st.counter > 0 && Heard(stop, c, events, w)
    ensures c in w.machine.edges || Pending(w.machine, c) || Draining(w.machine, c)
  {
    hide Exec, DiligentRun;
    RunIsDiligent(stop, c, events, w);
    HeardIsWatched(stop, c, events, w);
    NoLostWakeup(stop, c, Log(stop, c, events), w.machine);
  }

  /** n notifications give exactly n calls once the loop is about to block: no edge of the notifier is queued, and the
      call that registered it has returned. */
  lemma AllDelivered(stop: Fd, c: Channel, events: seq<Event>, w: World)
    requires AfterAll(stop, c, events) == Some(w) && Heard(stop, c, events, w)
    requires w.machine.ctl.Blocking? && c !in w.machine.edges
    requires forall id :: id in w.machine.drains ==> w.machine.drains[id].chan != c
    ensures w.st.counter == 0 && w.owed == map[] && w.st.accepted == |w.st.calls|
  {
    hide Exec, DiligentRun;
    RunIsDiligent(stop, c, events, w);
    HeardIsWatched(stop, c, events, w);
    BlocksOnlyWhenEmpty(stop, c, Log(stop, c, events), w.machine);
    forall who ensures who !in w.owed {
      assert who in w.result ==> Seen(w.machine, c, who);
    }
  }

  // ---- One call of process without interruption -----------------------------------------------------------

  function DeedsAsEvents(deeds: seq<N.Deed>): seq<Event> {
    if deeds == [] then [] else [Does(deeds[0])] + DeedsAsEvents(deeds[1..])
  }

  /** n calls of the handler; the i-th does script[i]. */
  function CallsAsEvents(who: Who, n: nat, script: seq<seq<N.Deed>>): seq<Event>
    decreases n
  {
    if n == 0 then []
    else
      [Call(who)] + DeedsAsEvents(if script == [] then [] else script[0]) +
      CallsAsEvents(who, n - 1, if script == [] then [] else script[1..])
  }

  function Effects(st: N.NotifierState, events: seq<Event>): N.NotifierState
    decreases |events|
  {
    if events == [] then st else Effects(Effect(st, events[0]), events[1..])
  }

  lemma {:induction false} EffectsOf(st: N.NotifierState, a: seq<Event>, b: seq<Event>)
    ensures Effects(st, a + b) == Effects(Effects(st, a), b)
    decreases |a|
  {
    if a == [] {
      assert a + b == b;
    } else {
      assert (a + b)[1..] == a[1..] + b;
      EffectsOf(Effect(st, a[0]), a[1..], b);
    }
  }

  lemma {:induction false} DeedsEffect(st: N.NotifierState, deeds: seq<N.Deed>)
    ensures Effects(st, DeedsAsEvents(deeds)) == N.DoAll(st, deeds)
    decreases |deeds|
  {
    if deeds != [] {
      assert DeedsAsEvents(deeds)[1..] == DeedsAsEvents(deeds[1..]);
      DeedsEffect(N.Do(st, deeds[0]), deeds[1..]);
    }
  }

  lemma CallFirst(st: N.NotifierState, who: Who, deeds: seq<Event>, rest: seq<Event>)
    ensures Effects(st, [Call(who)] + deeds + rest) == Effects(st.(calls := st.calls + [st.handler]), deeds + rest)
  {
    hide Effects;
    assert [Call(who)] + deeds + rest == [Call(who)] + (deeds + rest);
    EffectsCons(st, Call(who), deeds + rest);
  }

  lemma EffectsCons(st: N.NotifierState, e: Event, more: seq<Event>)
    ensures Effects(st, [e] + more) == Effects(Effect(st, e), more)
  {
    hide Effect;
    assert ([e] + more)[1..] == more;
  }

  lemma {:induction false} CallsEffect(st: N.NotifierState, who: Who, n: nat, script: seq<seq<N.Deed>>)
    ensures Effects(st, CallsAsEvents(who, n, script)) == N.Deliver(st, n, script)
    decreases n
  {
    if n > 0 {
      var deeds := if script == [] then [] else script[0];
      var rest := CallsAsEvents(who, n - 1, if script == [] then [] else script[1..]);
      var called := st.(calls := st.calls + [st.handler]);
      CallFirst(st, who, DeedsAsEvents(deeds), rest);
      hide Effects, DeedsAsEvents;
      EffectsOf(called, DeedsAsEvents(deeds), rest);
      DeedsEffect(called, deeds);
      CallsEffect(N.DoAll(called, deeds), who, n - 1, if script == [] then [] else script[1..]);
    }
  }

  /** What `Notifier.ProcessEvent` is proved to do is what reading, calling and returning do in a row. */
  lemma ProcessIsEvents(st: N.NotifierState, who: Who, script: seq<seq<N.Deed>>)
    ensures Effects(st, [Read(who)] + CallsAsEvents(who, st.counter, script) + [Finish(who)]) ==
            N.Step(st, N.Process(script))
  {
    var calls := CallsAsEvents(who, st.counter, script);
    var read := st.(counter := 0);
    EffectsOf(st, [Read(who)] + calls, [Finish(who)]);
    EffectsOf(st, [Read(who)], calls);
    CallsEffect(read, who, st.counter, script);
    assert Effects(st, [Read(who)]) == read by { assert [Read(who)][1..] == []; }
    var end := N.Deliver(read, st.counter, script);
    assert Effects(end, [Finish(who)]) == end by { assert [Finish(who)][1..] == []; }
  }
}
