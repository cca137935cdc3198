/**
 What a refusal of epoll_ctl does. The erase methods forget a handler whatever the kernel answers, and the add methods
 store one before they ask the kernel. So a refused removal of a watched channel makes the loop call an empty or dead
 handler sooner or later, and a refused addition leaves an entry that no later addition can bring to work.
*/
module EpollRefusals {
  import opened Options
  import opened EpollMachine
  import opened EpollSafety

  // ---- Refused removals -----------------------------------------------------------------------------------

  /** The kernel reports c under an address that has no handler for it. */
  ghost predicate Dangling(s: State, c: Channel) {
    Watched(s, c) && s.interest[c.fd].ptr.Some? && !s.Live(s.interest[c.fd].ptr.value, c.dir)
  }

  lemma RefusedRemovalDangles(s: State, c: Channel)
    requires Inv(s) && s.Registered(c) && Watched(s, c)
    ensures Dangling(DoUnregister(s, c.fd, c.dir, false), c) && ControlInv(DoUnregister(s, c.fd, c.dir, false))
  {
    var t := DoUnregister(s, c.fd, c.dir, false);
    assert forall f :: f in t.infos && t.infos[f].addr == s.infos[c.fd].addr ==> f == c.fd;
    if t.ctl.Calling? {
      var e := s.infos[c.fd];
      var removed := if e.Get(c.dir.Other()).Some? then {c.dir} else {In, Out};
      ClearBitsAt(s.batch, e.addr, removed, s.ctl.pass.pos / 2);
    }
  }

  predicate NoRemovals(acts: seq<Action>) {
    forall i :: 0 <= i < |acts| ==> !acts[i].Unregister?
  }

  function CallsLast(k: Control): nat { if k.Calling? then 0 else 1 }

  /** With handlers that return 0 the loop leaves the batch, unless it runs into a call it must not make. */
  lemma ToIdle(s: State) returns (run: seq<Action>, t: State)
    requires ControlInv(s) && (s.ctl.At? || s.ctl.Calling?)
    ensures Exec(s, run) == Some(t) && NoRemovals(run)
    ensures t.infos == s.infos && t.interest == s.interest
    ensures t.ctl.Blocking? || t.ctl.Outside? || t.ctl.Wild?
    decreases s.ctl.pass.left, 2 * |s.batch| - s.ctl.pass.pos, CallsLast(s.ctl)
  {
    hide Exec, Next, DoAdvance;
    var a := if s.ctl.Calling? then Return(0) else Advance;
    var u := Next(s, a);
    if s.ctl.Calling? { AfterReturn(s); } else { AfterAdvance(s); }
    if u.ctl.At? || u.ctl.Calling? {
      run, t := ToIdle(u);
    } else {
      run, t := [], u;
      assert Exec(u, []) == Some(u) by { ExecNothing(u); }
    }
    ExecCons(s, a, run);
    run := [a] + run;
  }

  lemma AfterReturn(s: State)
    requires ControlInv(s) && s.ctl.Calling?
    ensures Enabled(s, Return(0)) && ControlInv(Next(s, Return(0)))
    ensures var u, p := Next(s, Return(0)), s.ctl.pass;
            && u.infos == s.infos && u.interest == s.interest && |u.batch| == |s.batch|
            && u.ctl == At(p.(pos := p.pos + 1))
  {
  }

  lemma AfterAdvance(s: State)
    requires ControlInv(s) && s.ctl.At?
    ensures Enabled(s, Advance) && ControlInv(Next(s, Advance))
    ensures var u, p := Next(s, Advance), s.ctl.pass;
            && u.infos == s.infos && u.interest == s.interest && u.batch == s.batch
            && (|| u.ctl.Blocking? || u.ctl.Outside? || u.ctl.Wild?
                || (p.left > 0 && u.ctl == At(Pass(0, 0, [], p.round + 1)))
                || (p.pos < 2 * |s.batch| && u.ctl == At(p.(pos := p.pos + 1)))
                || (u.ctl.Calling? && u.ctl.pass == p.(served := p.served + [p.pos])))
  {
    AdvanceQuiet(s);
  }

  /** From a waiting loop one arrival leads to the call. */
  lemma Reported(s: State, c: Channel) returns (run: seq<Action>, t: State)
    requires s.ctl.Blocking? && Dangling(s, c)
    ensures Exec(s, run) == Some(t) && NoRemovals(run) && t.ctl.Wild?
  {
    hide Exec, Dangling;
    var a, w := Arrive(c, 1), Wait([c.fd]);
    Delivered(s, c);
    var u := Next(s, a);
    var v := Next(u, w);
    run, t := Dispatched(v, c);
    ExecCons(u, w, run);
    ExecCons(s, a, [w] + run);
    run := [a] + ([w] + run);
  }

  ghost predicate OneRecord(s: State, c: Channel) {
    && |s.batch| == 1 && s.batch[0].ptr.Some? && c.dir in s.batch[0].bits && !s.Live(s.batch[0].ptr.value, c.dir)
  }

  lemma SameLive(s: State, t: State, p: Addr, d: Dir)
    requires s.infos == t.infos
    ensures s.Live(p, d) <==> t.Live(p, d)
  {
    if s.Live(p, d) {
      var fd := OwnerOf(s, p, d);
      assert fd in t.infos && t.infos[fd].addr == p && t.infos[fd].Get(d).Some?;
    }
    if t.Live(p, d) {
      var fd := OwnerOf(t, p, d);
      assert fd in s.infos && s.infos[fd].addr == p && s.infos[fd].Get(d).Some?;
    }
  }

  lemma Delivered(s: State, c: Channel)
    requires s.ctl.Blocking? && Dangling(s, c)
    ensures Enabled(s, Arrive(c, 1)) && Enabled(DoArrive(s, c, 1), Wait([c.fd]))
    ensures var v := DoWait(DoArrive(s, c, 1), [c.fd]); OneRecord(v, c) && v.ctl == At(Pass(0, 0, [], 0))
  {
    var u := DoArrive(s, c, 1);
    assert c == Channel(c.fd, c.dir) && c in u.edges;
    assert c.dir == In || c.dir == Out;
    assert Pickable(u, c.fd);
    var v := DoWait(u, [c.fd]);
    assert v.batch[0] == RecordFor(u, c.fd);
    SameLive(s, v, s.interest[c.fd].ptr.value, c.dir);
  }

  /** The loop comes to the record: if output is dangling, input is served before. */
  lemma Dispatched(s: State, c: Channel) returns (run: seq<Action>, t: State)
    requires OneRecord(s, c) && s.ctl == At(Pass(0, 0, [], 0))
    ensures Exec(s, run) == Some(t) && NoRemovals(run) && t.ctl.Wild?
  {
    hide Exec;
    run, t := [Advance], DoAdvance(s);
    ExecOne(s, Advance);
    if !t.ctl.Wild? {
      PastInput(s, c);
      if t.ctl.Calling? {
        ExecOne(t, Return(0));
        ExecSnoc(s, run, t, Return(0));
        run, t := run + [Return(0)], DoReturn(t, 0);
      }
      ExecSnoc(s, run, t, Advance);
      run, t := run + [Advance], DoAdvance(t);
    }
  }

  lemma PastInput(s: State, c: Channel)
    requires OneRecord(s, c) && s.ctl == At(Pass(0, 0, [], 0)) && !DoAdvance(s).ctl.Wild?
    ensures var t := DoAdvance(s);
            && (t.ctl.Calling? || t.ctl.At?) && (t.ctl.Calling? ==> Enabled(t, Return(0)))
            && var u := if t.ctl.Calling? then DoReturn(t, 0) else t;
               Enabled(u, Advance) && DoAdvance(u).ctl.Wild?
  {
    AdvanceQuiet(s);
    var t := DoAdvance(s);
    var u := if t.ctl.Calling? then DoReturn(t, 0) else t;
    SameLive(s, u, s.batch[0].ptr.value, c.dir);
    assert DirAt(0) == In && DirAt(1) == Out && c.dir == Out;
  }

  /** From every state of the loop a dangling channel leads to a call through a dead entry or an empty handler. */
  lemma DanglingIsUnsafe(s: State, c: Channel) returns (run: seq<Action>, t: State)
    requires ControlInv(s) && Dangling(s, c)
    ensures Exec(s, run) == Some(t) && NoRemovals(run) && t.ctl.Wild?
  {
    hide Exec, Next, ControlInv;
    run, t := [], s;
    ExecNothing(s);
    if s.ctl.At? || s.ctl.Calling? {
      run, t := ToIdle(s);
      assert Dangling(t, c);
    }
    if t.ctl.Outside? {
      var u := Next(t, Start);
      ExecSnoc(s, run, t, Start);
      assert Dangling(u, c) && u.ctl.Blocking? by { Started(t, c); }
      run, t := run + [Start], u;
    }
    if t.ctl.Blocking? {
      var more, w := Reported(t, c);
      ExecAppend(s, run, t, more);
      run, t := run + more, w;
    }
  }

  lemma Started(s: State, c: Channel)
    requires s.ctl.Outside? && Dangling(s, c)
    ensures Dangling(Next(s, Start), c) && Next(s, Start).ctl.Blocking?
  {
  }

  ghost predicate SafeFrom(s: State, run: seq<Action>) {
    Exec(s, run).Some? ==> !Exec(s, run).value.ctl.Wild?
  }

  /** After any harmless run, all harmless continuations are safe if and only if the removal is harmless too: the kernel
      accepts it or did not report the channel anyway. After a run in which nothing was refused it does report every
      registered channel. */
  lemma RemovalSafeIff(stop: Fd, acts: seq<Action>, s: State, c: Channel, ok: bool)
    requires Exec(Init(stop), acts) == Some(s) && HarmlessRun(Init(stop), acts) && s.Registered(c)
    ensures var u := DoUnregister(s, c.fd, c.dir, ok);
            && Exec(Init(stop), acts + [Unregister(c.fd, c.dir, ok)]) == Some(u)
            && (ok || !Watched(s, c) <==> forall more :: HarmlessRun(u, more) ==> SafeFrom(u, more))
    ensures AllAccepted(acts) ==> Watched(s, c)
  {
    hide Exec, Next, Inv, HarmlessRun, AllAccepted, Watched, Dangling, ControlInv;
    var u := DoUnregister(s, c.fd, c.dir, ok);
    Reached(stop, acts, s);
    AcceptedIsWatched(stop, acts, s, c);
    UnregisterIs(s, c, ok);
    ExecSnoc(Init(stop), acts, s, Unregister(c.fd, c.dir, ok));
    if ok || !Watched(s, c) {
      UnregisterKeeps(s, c, ok);
      forall more | HarmlessRun(u, more) ensures SafeFrom(u, more) {
        if Exec(u, more).Some? { StaysSafe(u, more); }
      }
    } else {
      RefusedRemovalDangles(s, c);
      var more, t := DanglingIsUnsafe(u, c);
      NoRefusalIsHarmless(u, more);
      assert !SafeFrom(u, more);
    }
  }

  lemma AcceptedIsWatched(stop: Fd, acts: seq<Action>, s: State, c: Channel)
    requires Exec(Init(stop), acts) == Some(s) && s.Registered(c)
    ensures AllAccepted(acts) ==> Watched(s, c)
  {
    hide Exec;
    if AllAccepted(acts) {
      RegistryAgrees(stop, acts, s);
    }
  }

  lemma UnregisterIs(s: State, c: Channel, ok: bool)
    requires s.Registered(c)
    ensures var a := Unregister(c.fd, c.dir, ok); Enabled(s, a) && Next(s, a) == DoUnregister(s, c.fd, c.dir, ok)
  {
  }

  lemma StaysSafe(s: State, more: seq<Action>)
    requires Inv(s) && Exec(s, more).Some? && HarmlessRun(s, more)
    ensures !Exec(s, more).value.ctl.Wild?
  {
    hide Exec;
    RunKeepsInv(s, more);
  }

  /** The shortest instance: one accepted registration, and its removal refused. */
  lemma RefusedRemovalIsUnsafe() returns (run: seq<Action>, t: State)
    ensures Exec(Init(3), run) == Some(t) && t.ctl.Wild?
    ensures [Register(5, In, 1, 100, true, 0), Unregister(5, In, false)] <= run
    ensures NoRemovals(run[2..])
  {
    var s0, c := Init(3), Channel(5, In);
    var a, b := Register(5, In, 1, 100, true, 0), Unregister(5, In, false);
    ExecOne(s0, a);
    var s := DoRegister(s0, 5, In, 1, 100, true, 0);
    assert s.Registered(c) && Watched(s, c);
    NoRefusalIsHarmless(s0, [a]);
    RunKeepsInv(s0, [a]);
    UnregisterIs(s, c, false);
    ExecSnoc(s0, [a], s, b);
    RefusedRemovalDangles(s, c);
    hide Exec, Next, NoRemovals, Dangling, ControlInv;
    var u := DoUnregister(s, 5, In, false);
    var more, w := DanglingIsUnsafe(u, c);
    ExecAppend(s0, [a] + [b], u, more);
    run, t := [a] + [b] + more, w;
    assert run[2..] == more && [a] + [b] == [a, b];
  }

  // ---- Refused additions ----------------------------------------------------------------------------------

  /** Registry and kernel agree about one descriptor. */
  predicate AgreeAt(s: State, fd: Fd) {
    && (fd in s.infos <==> fd in s.interest)
    && (fd in s.infos ==> s.interest[fd] == Interest(s.infos[fd].Mask(), Some(s.infos[fd].addr)))
  }

  /** The registry knows the descriptor and the kernel does not. */
  predicate Stuck(s: State, fd: Fd) { fd in s.infos && fd !in s.interest }

  /** When registry and kernel agree about a descriptor after a step, with refused additions: an accepted addition
      makes them agree unless the descriptor is stuck, and a refused one leaves them so only if it changes no mask; a
      removal makes them agree unless the descriptor is stuck and keeps a handler; nothing else matters. */
  lemma AgreesAfter(s: State, a: Action, fd: Fd)
    requires Inv(s) && Enabled(s, a) && Harmless(s, a) && fd != s.stop
    ensures AgreeAt(Next(s, a), fd) <==>
            if a.Register? && a.fd == fd then
              (a.ok && !Stuck(s, fd)) || (AgreeAt(s, fd) && s.Registered(Channel(fd, a.dir)))
            else if a.Unregister? && a.fd == fd then !Stuck(s, fd) || s.infos[fd].Get(a.dir.Other()).None?
            else AgreeAt(s, fd)
  {
    match a
    case Register(f, d, h, addr, ok, id) => RegisterAgrees(s, f, d, h, addr, ok, id, fd);
    case Unregister(f, d, ok) => UnregisterAgrees(s, f, d, ok, fd);
    case _ => QuietStep(s, a);
  }

  lemma RegisterAgrees(s: State, f: Fd, d: Dir, h: Handler, addr: Addr, ok: bool, id: nat, fd: Fd)
    requires WatchInv(s) && f != s.stop && fd != s.stop
    ensures AgreeAt(DoRegister(s, f, d, h, addr, ok, id), fd) <==>
            if f != fd then AgreeAt(s, fd)
            else (ok && !Stuck(s, fd)) || (AgreeAt(s, fd) && s.Registered(Channel(fd, d)))
  {
    if f == fd && fd in s.infos {
      var e := s.infos[fd].Put(d, Some(h));
      assert forall b :: b in e.Mask() <==> b == d || b in s.infos[fd].Mask();
      if s.Registered(Channel(fd, d)) {
        assert e.Mask() == s.infos[fd].Mask();
      } else {
        assert d in e.Mask() && d !in s.infos[fd].Mask();
      }
    }
  }

  lemma UnregisterAgrees(s: State, f: Fd, d: Dir, ok: bool, fd: Fd)
    requires WatchInv(s) && s.stop !in s.infos && f != s.stop && fd != s.stop && s.Registered(Channel(f, d))
    requires ok || !Watched(s, Channel(f, d))
    ensures AgreeAt(DoUnregister(s, f, d, ok), fd) <==>
            if f == fd then !Stuck(s, fd) || s.infos[fd].Get(d.Other()).None? else AgreeAt(s, fd)
  {
    if !ok {
      OnlyOtherWatched(s, Channel(f, d));
    }
    if f == fd && s.infos[fd].Get(d.Other()).Some? {
      var e := s.infos[fd].Put(d, None);
      assert e.Mask() == {d.Other()};
    }
  }

  /** Stuck, and no pending bit of the batch belongs to its entry. */
  ghost predicate Silent(s: State, fd: Fd) {
    && Stuck(s, fd)
    && forall n :: 0 <= n < |s.batch| && s.batch[n].ptr == Some(s.infos[fd].addr) ==> s.batch[n].bits == {}
  }

  predicate Erases(a: Action, fd: Fd) { a.Unregister? && a.fd == fd }

  lemma RefusedAdditionIsSilent(s: State, fd: Fd, d: Dir, h: Handler, addr: Addr, id: nat)
    requires Inv(s) && fd !in s.infos && Enabled(s, Register(fd, d, h, addr, false, id))
    ensures Silent(DoRegister(s, fd, d, h, addr, false, id), fd)
  {
    forall n | 0 <= n < |s.batch| && s.batch[n].ptr == Some(addr) ensures s.batch[n].bits == {} {
      assert forall b :: b in s.batch[n].bits ==> s.Live(addr, b);
    }
  }

  lemma StepStaysSilent(s: State, a: Action, fd: Fd)
    requires Inv(s) && Silent(s, fd) && Enabled(s, a) && Harmless(s, a) && !Erases(a, fd)
    ensures Silent(Next(s, a), fd)
  {
    match a
    case Unregister(f, d, ok) =>
      UnregisterStaysSilent(s, f, d, ok, fd);
    case Wait(picked) =>
      WaitStaysSilent(s, picked, fd);
    case Register(_, _, _, _, _, _) =>
    case Advance => AdvanceQuiet(s);
    case _ => QuietStep(s, a);
  }

  lemma UnregisterStaysSilent(s: State, f: Fd, d: Dir, ok: bool, fd: Fd)
    requires Inv(s) && Silent(s, fd) && s.Registered(Channel(f, d)) && f != fd
    ensures Silent(DoUnregister(s, f, d, ok), fd)
  {
    var e := s.infos[f];
    ClearBitsAll(s.batch, e.addr, if e.Get(d.Other()).Some? then {d} else {In, Out});
  }

  lemma WaitStaysSilent(s: State, picked: seq<Fd>, fd: Fd)
    requires Inv(s) && Stuck(s, fd) && Enabled(s, Wait(picked))
    ensures Silent(DoWait(s, picked), fd)
  {
    var t := DoWait(s, picked);
    forall n | 0 <= n < |t.batch| ensures t.batch[n].ptr != Some(t.infos[fd].addr) {
      assert Pickable(s, picked[n]) && picked[n] != fd;
    }
  }

  /** An addition to a stuck descriptor changes neither the kernel's interest nor what is drained. */
  lemma AdditionFails(s: State, fd: Fd, d: Dir, h: Handler, addr: Addr, ok: bool, id: nat)
    requires Stuck(s, fd)
    ensures var t := DoRegister(s, fd, d, h, addr, ok, id);
            Stuck(t, fd) && t.interest == s.interest && t.edges == s.edges && t.drains == s.drains
  {
  }

  lemma SilentNotCalled(s: State, a: Action, fd: Fd)
    requires Inv(s) && Silent(s, fd) && Enabled(s, a) && !s.ctl.Calling? && Next(s, a).ctl.Calling?
    ensures Next(s, a).ctl.chan.fd != fd
  {
    OnlyAdvanceCalls(s, a);
  }

  /** A refused addition sticks. After the kernel has refused to add a descriptor, and until one of its handlers is
      erased, the registry keeps it and the kernel does not know it: every later addition to it fails, even one that the
      kernel would accept, begins no initial drain, and none of its handlers is entered by the loop. */
  lemma {:induction false} RefusedAdditionSticks(stop: Fd, acts: seq<Action>, s: State, fd: Fd, d: Dir, h: Handler,
                                                 addr: Addr, id: nat, more: seq<Action>, t: State, a: Action)
    requires Exec(Init(stop), acts) == Some(s) && HarmlessRun(Init(stop), acts) && fd !in s.infos
    requires Enabled(s, Register(fd, d, h, addr, false, id))
    requires Exec(DoRegister(s, fd, d, h, addr, false, id), more) == Some(t)
    requires HarmlessRun(DoRegister(s, fd, d, h, addr, false, id), more)
    requires forall i :: 0 <= i < |more| ==> !Erases(more[i], fd)
    requires Enabled(t, a)
    ensures Stuck(t, fd)
    ensures a.Register? && a.fd == fd ==>
              Stuck(Next(t, a), fd) && Next(t, a).interest == t.interest && Next(t, a).drains == t.drains
    ensures !t.ctl.Calling? && Next(t, a).ctl.Calling? ==> Next(t, a).ctl.chan.fd != fd
  {
    hide Exec, Next, Inv, Silent, HarmlessRun;
    Reached(stop, acts, s);
    var u := DoRegister(s, fd, d, h, addr, false, id);
    RegisterKeeps(s, fd, d, h, addr, false, id);
    RefusedAdditionIsSilent(s, fd, d, h, addr, id);
    RunStaysSilent(u, more, fd);
    IsStuck(t, fd);
    if a.Register? && a.fd == fd {
      AdditionFails(t, fd, a.dir, a.handler, a.addr, a.ok, a.id);
      RegisterIs(t, a);
    }
    if !t.ctl.Calling? && Next(t, a).ctl.Calling? {
      SilentNotCalled(t, a, fd);
    }
  }

  lemma IsStuck(s: State, fd: Fd)
    requires Silent(s, fd)
    ensures Stuck(s, fd)
  {
  }

  lemma RegisterIs(s: State, a: Action)
    requires Enabled(s, a) && a.Register?
    ensures Next(s, a) == DoRegister(s, a.fd, a.dir, a.handler, a.addr, a.ok, a.id)
  {
  }

  lemma {:induction false} RunStaysSilent(s: State, acts: seq<Action>, fd: Fd)
    requires Inv(s) && Silent(s, fd) && Exec(s, acts).Some? && HarmlessRun(s, acts)
    requires forall i :: 0 <= i < |acts| ==> !Erases(acts[i], fd)
    ensures Inv(Exec(s, acts).value) && Silent(Exec(s, acts).value, fd)
    decreases |acts|
  {
    hide Next, Inv, Silent, Enabled;
    if acts != [] {
      var front, last := acts[..|acts| - 1], acts[|acts| - 1];
      RunStaysSilent(s, front, fd);
      StepStaysSilent(Exec(s, front).value, last, fd);
      StepKeepsInv(Exec(s, front).value, last);
    }
  }
}
