/**
 Which handler is called. The registry holds, for every channel, the handler of its last registration since it was
 erased, whatever the kernel answered; the loop calls that handler, and an initial drain the one it was given.
*/
module EpollHandlers {
  import opened Options
  import opened EpollMachine

  /** The handler of the last registration of the channel, None if it was erased since or never registered. */
  function LastHandler(acts: seq<Action>, c: Channel): Option<Handler>
    decreases |acts|
  {
    if acts == [] then None
    else
      var a := acts[|acts| - 1];
      if a.Register? && Channel(a.fd, a.dir) == c then Some(a.handler)
      else if a.Unregister? && Channel(a.fd, a.dir) == c then None
      else LastHandler(acts[..|acts| - 1], c)
  }

  function Stored(s: State, c: Channel): Option<Handler> {
    if c.fd !in s.infos then None else if c.dir.In? then s.infos[c.fd].inEvent else s.infos[c.fd].outEvent
  }

  lemma StepStores(s: State, a: Action, c: Channel)
    requires Enabled(s, a)
    ensures Stored(Next(s, a), c) ==
            if a.Register? && Channel(a.fd, a.dir) == c then Some(a.handler)
            else if a.Unregister? && Channel(a.fd, a.dir) == c then None
            else Stored(s, c)
  {
    match a
    case Register(fd, d, h, addr, ok, id) => RegisterStores(s, fd, d, h, addr, ok, id, c);
    case Unregister(fd, d, ok) => UnregisterStores(s, fd, d, ok, c);
    case Advance => AdvanceQuiet(s);
    case _ =>
  }

  lemma RegisterStores(s: State, fd: Fd, d: Dir, h: Handler, addr: Addr, ok: bool, id: nat, c: Channel)
    ensures Stored(DoRegister(s, fd, d, h, addr, ok, id), c) == if Channel(fd, d) == c then Some(h) else Stored(s, c)
  {
  }

  lemma UnregisterStores(s: State, fd: Fd, d: Dir, ok: bool, c: Channel)
    requires s.Registered(Channel(fd, d))
    ensures Stored(DoUnregister(s, fd, d, ok), c) == if Channel(fd, d) == c then None else Stored(s, c)
  {
  }

  /** After every run, refusals or not, the registry holds exactly the handlers of the last registrations. */
  lemma {:induction false} StoredIsLast(stop: Fd, acts: seq<Action>, s: State, c: Channel)
    requires Exec(Init(stop), acts) == Some(s)
    ensures Stored(s, c) == LastHandler(acts, c)
    decreases |acts|
  {
    hide Enabled, Next;
    if acts != [] {
      var front := acts[..|acts| - 1];
      StoredIsLast(stop, front, Exec(Init(stop), front).value, c);
      StepStores(Exec(Init(stop), front).value, acts[|acts| - 1], c);
    }
  }

  /** The loop entered the handler at step n of the run. */
  ghost predicate EnteredAt(acts: seq<Action>, n: int, c: Channel, h: Handler) {
    0 <= n < |acts| && acts[n] == Advance && LastHandler(acts[..n], c) == Some(h)
  }

  lemma AdvanceEnters(s: State)
    requires Enabled(s, Advance) && DoAdvance(s).ctl.Calling?
    ensures var ctl := DoAdvance(s).ctl; Stored(s, ctl.chan) == Some(ctl.handler)
  {
  }

  lemma StaysInside(s: State, a: Action)
    requires Enabled(s, a) && Next(s, a).ctl.Calling?
    ensures a.Advance? || (s.ctl.Calling? && Next(s, a).ctl.chan == s.ctl.chan &&
                           Next(s, a).ctl.handler == s.ctl.handler)
  {
  }

  /** In every run, a handler that the loop is calling is the one of the last registration of its channel when the loop
      entered it: a later registration replaces it for the next call. */
  lemma {:induction false} CalledIsLast(stop: Fd, acts: seq<Action>, s: State)
    requires Exec(Init(stop), acts) == Some(s) && s.ctl.Calling?
    ensures exists n :: EnteredAt(acts, n, s.ctl.chan, s.ctl.handler)
    decreases |acts|
  {
    hide Enabled, Next, LastHandler;
    if acts != [] {
      var front, last := acts[..|acts| - 1], acts[|acts| - 1];
      var before := Exec(Init(stop), front).value;
      StaysInside(before, last);
      if last.Advance? {
        NextIsAdvance(before);
        AdvanceEnters(before);
        StoredIsLast(stop, front, before, s.ctl.chan);
        assert EnteredAt(acts, |front|, s.ctl.chan, s.ctl.handler);
      } else {
        CalledIsLast(stop, front, before);
        var n :| EnteredAt(front, n, s.ctl.chan, s.ctl.handler);
        assert front[..n] == acts[..n];
        assert EnteredAt(acts, n, s.ctl.chan, s.ctl.handler);
      }
    }
  }

  lemma NextIsAdvance(s: State)
    requires Enabled(s, Advance)
    ensures Next(s, Advance) == DoAdvance(s)
  {
  }

  /** The last registration that was to begin this drain. */
  function LastBegun(acts: seq<Action>, id: nat): Option<Action>
    decreases |acts|
  {
    if acts == [] then None
    else
      var a := acts[|acts| - 1];
      if a.Register? && a.id == id then Some(a) else LastBegun(acts[..|acts| - 1], id)
  }

  lemma StepDrains(s: State, a: Action, id: nat)
    requires Enabled(s, a) && id in Next(s, a).drains
    ensures if a.Register? && a.id == id then
              a.ok && Next(s, a).drains[id].chan == Channel(a.fd, a.dir) && Next(s, a).drains[id].handler == a.handler
            else
              && id in s.drains && Next(s, a).drains[id].chan == s.drains[id].chan
              && Next(s, a).drains[id].handler == s.drains[id].handler
  {
    match a
    case Advance => AdvanceQuiet(s);
    case Consume(_, _) =>
    case SeeEmpty(_) =>
    case _ =>
  }

  /** In every run, an open initial drain calls the handler that was registered with it, for the channel it was
      registered for, even after another was registered or the channel was erased; and the kernel had accepted it. */
  lemma {:induction false} DrainCallsItsOwn(stop: Fd, acts: seq<Action>, s: State, id: nat)
    requires Exec(Init(stop), acts) == Some(s) && id in s.drains
    ensures match LastBegun(acts, id)
            case Some(Register(fd, d, h, _, ok, _)) =>
              ok && s.drains[id].chan == Channel(fd, d) && s.drains[id].handler == h
            case _ => false
    decreases |acts|
  {
    hide Enabled, Next;
    if acts != [] {
      var front := acts[..|acts| - 1];
      StepDrains(Exec(Init(stop), front).value, acts[|acts| - 1], id);
      if !(acts[|acts| - 1].Register? && acts[|acts| - 1].id == id) {
        DrainCallsItsOwn(stop, front, Exec(Init(stop), front).value, id);
      }
    }
  }

  /** Registering again replaces the handler: after any run, a registration of the channel makes its handler the one
      that the loop calls next for it, accepted or not, until another registration or an erase. */
  lemma {:induction false} RegisteredIsCalled(stop: Fd, acts: seq<Action>, r: Action, more: seq<Action>, s: State)
    requires r.Register? && Exec(Init(stop), acts + [r] + more) == Some(s)
    requires forall i :: 0 <= i < |more| && (more[i].Register? || more[i].Unregister?) ==>
               Channel(more[i].fd, more[i].dir) != Channel(r.fd, r.dir)
    ensures Stored(s, Channel(r.fd, r.dir)) == Some(r.handler)
    ensures Enabled(s, Advance) && Next(s, Advance).ctl.Calling? &&
            Next(s, Advance).ctl.chan == Channel(r.fd, r.dir) ==>
              Next(s, Advance).ctl.handler == r.handler
  {
    hide Exec, Enabled, Next, Stored;
    var c := Channel(r.fd, r.dir);
    StoredIsLast(stop, acts + [r] + more, s, c);
    LastIs(acts, r, more);
    if Enabled(s, Advance) && Next(s, Advance).ctl.Calling? {
      NextIsAdvance(s);
      AdvanceEnters(s);
    }
  }

  lemma {:induction false} LastIs(acts: seq<Action>, r: Action, more: seq<Action>)
    requires r.Register?
    requires forall i :: 0 <= i < |more| && (more[i].Register? || more[i].Unregister?) ==>
               Channel(more[i].fd, more[i].dir) != Channel(r.fd, r.dir)
    ensures LastHandler(acts + [r] + more, Channel(r.fd, r.dir)) == Some(r.handler)
    decreases |more|
  {
    var all := acts + [r] + more;
    if more != [] {
      assert all[..|all| - 1] == acts + [r] + more[..|more| - 1];
      LastIs(acts, r, more[..|more| - 1]);
    }
  }
}
