/**
 No lost wakeup. The loop is edge triggered, so data that is there before the kernel watches a descriptor, or that
 a handler leaves behind, is reported only once. A watched channel with work keeps a witness: an edge queued in the
 kernel, its bit pending in the batch, or an initial drain still running. So the loop never blocks on stranded data.
 All this is said of one channel, and asks something of its own handler, of its own descriptor and of the stop record,
 but nothing of other handlers and descriptors.
*/
module EpollWakeup {
  import opened Options
  import opened EpollMachine
  import opened EpollSafety
  import opened EpollDraining
  import opened EpollRefusals

  /** Record n belongs to the entry of the channel and its bit is on. */
  ghost predicate BitOn(s: State, c: Channel, n: nat) {
    && n < |s.batch| && c.fd in s.infos
    && s.batch[n].ptr == Some(s.infos[c.fd].addr)
    && c.dir in s.batch[n].bits
  }

  /** The handler now running for position (n, d) has already seen its channel empty: the bit no longer counts. */
  ghost predicate BeingSeen(s: State, n: nat, d: Dir) {
    s.ctl.Calling? && s.ctl.pass.pos / 2 == n && DirAt(s.ctl.pass.pos) == d && s.ctl.seen
  }

  ghost predicate PendingAt(s: State, c: Channel, n: nat) { BitOn(s, c, n) && !BeingSeen(s, n, c.dir) }

  ghost predicate Pending(s: State, c: Channel) {
    exists n: nat :: PendingAt(s, c, n)
  }

  predicate Unseen(d: Drain, c: Channel) { d.chan == c && !d.seen }

  ghost predicate Draining(s: State, c: Channel) {
    exists id :: id in s.drains && Unseen(s.drains[id], c)
  }

  ghost predicate Witnessed(s: State, c: Channel) {
    c in s.edges || Pending(s, c) || Draining(s, c)
  }

  ghost predicate Covered(s: State, c: Channel) {
    s.Registered(c) && Watched(s, c) && s.Work(c) > 0 ==> Witnessed(s, c)
  }

  /** A dispatched handler whose bit is still on serves the live entry of its record. */
  ghost predicate CallInv(s: State) {
    s.ctl.Calling? ==>
      && s.ctl.pass.pos < 2 * |s.batch|
      && s.ctl.chan.dir == DirAt(s.ctl.pass.pos)
      && (s.ctl.chan.dir in s.batch[s.ctl.pass.pos / 2].bits ==>
            s.ctl.chan.fd in s.infos && s.batch[s.ctl.pass.pos / 2].ptr == Some(s.infos[s.ctl.chan.fd].addr))
  }

  ghost predicate IdleClear(s: State, c: Channel) {
    s.ctl.Blocking? || s.ctl.Outside? ==> forall n: nat :: !BitOn(s, c, n)
  }

  /** Only what the kernel watches has bits. */
  ghost predicate BitsWatched(s: State, c: Channel) {
    forall n: nat :: BitOn(s, c, n) ==> Watched(s, c)
  }

  ghost predicate WakeInv(s: State, c: Channel) {
    Inv(s) && PassInv(s) && CallInv(s) && IdleClear(s, c) && BitsWatched(s, c) && Covered(s, c)
  }

  /** The record that stops the loop is reached at this step. */
  ghost predicate Stops(s: State, a: Action) {
    a.Advance? && s.ctl.At? && s.ctl.pass.pos < 2 * |s.batch| && s.batch[s.ctl.pass.pos / 2].ptr.None?
  }

  /** The kernel accepts a change of the other direction of the descriptor and begins to watch c with it, although c was
      registered before and has work: no drain is begun for c. */
  ghost predicate Neglects(s: State, c: Channel, a: Action) {
    && (a.Register? || a.Unregister?) && a.ok && a.fd == c.fd && a.dir != c.dir
    && c.fd in s.interest && s.Registered(c) && !Watched(s, c) && s.Work(c) > 0 && !Draining(s, c)
  }

  /** The handler of c reports that it is done only after seeing its channel empty, and the loop is not stopped while c
      is pending. */
  ghost predicate Attentive(s: State, c: Channel, a: Action) {
    && (a.Return? && a.result <= 0 && s.ctl.Calling? && s.ctl.chan == c ==> s.ctl.seen)
    && (a.DrainReturn? && a.result <= 0 && a.id in s.drains && s.drains[a.id].chan == c ==> s.drains[a.id].seen)
    && (Stops(s, a) ==> !Pending(s, c))
  }

  ghost predicate Diligent(s: State, c: Channel, a: Action) {
    Harmless(s, a) && Attentive(s, c, a) && !Neglects(s, c, a)
  }

  ghost predicate DiligentRun(s: State, c: Channel, acts: seq<Action>)
    decreases |acts|
  {
    acts == [] ||
    var front := acts[..|acts| - 1];
    DiligentRun(s, c, front) && (Exec(s, front).Some? ==> Diligent(Exec(s, front).value, c, acts[|acts| - 1]))
  }

  lemma {:induction false} DiligentIsHarmless(s: State, c: Channel, acts: seq<Action>)
    requires DiligentRun(s, c, acts)
    ensures HarmlessRun(s, acts)
    decreases |acts|
  {
    hide Exec, Attentive, Neglects, Harmless;
    if acts != [] {
      DiligentIsHarmless(s, c, acts[..|acts| - 1]);
    }
  }

  // ---- Bits ----------------------------------------------------------------------------------------------

  /** A bit belongs to a registered channel. */
  lemma BitIsRegistered(s: State, c: Channel, n: nat)
    requires Inv(s) && BitOn(s, c, n)
    ensures s.Registered(c)
  {
    var fd := OwnerOf(s, s.batch[n].ptr.value, c.dir);
  }

  lemma RegisterBits(s: State, fd: Fd, d: Dir, h: Handler, addr: Addr, ok: bool, id: nat, c: Channel, n: nat)
    requires Inv(s) && Enabled(s, Register(fd, d, h, addr, ok, id))
    requires BitOn(DoRegister(s, fd, d, h, addr, ok, id), c, n)
    ensures BitOn(s, c, n)
  {
    assert !s.Live(addr, c.dir);
  }

  lemma UnregisterBits(s: State, fd: Fd, d: Dir, ok: bool, c: Channel, n: nat)
    requires Inv(s) && s.Registered(Channel(fd, d)) && BitOn(DoUnregister(s, fd, d, ok), c, n)
    ensures BitOn(s, c, n) && c != Channel(fd, d)
  {
    var e := s.infos[fd];
    ClearBitsAll(s.batch, e.addr, if e.Get(d.Other()).Some? then {d} else {In, Out});
  }

  /** Only a wait turns bits on. */
  lemma BitsOnlyOff(s: State, a: Action, c: Channel, n: nat)
    requires Inv(s) && Enabled(s, a) && !a.Wait? && BitOn(Next(s, a), c, n)
    ensures BitOn(s, c, n)
  {
    match a
    case Register(fd, d, h, addr, ok, id) => RegisterBits(s, fd, d, h, addr, ok, id, c, n);
    case Unregister(fd, d, ok) => UnregisterBits(s, fd, d, ok, c, n);
    case Advance => AdvanceQuiet(s);
    case WaitFails =>
    case Return(_) =>
    case _ => QuietBatch(s, a);
  }

  lemma QuietBatch(s: State, a: Action)
    requires Enabled(s, a) && (a.Arrive? || a.Spurious? || a.Consume? || a.SeeEmpty? || a.DrainReturn? || a.Start?)
    ensures Next(s, a).batch == s.batch && Next(s, a).infos == s.infos
  {
    match a
    case Consume(_, _) =>
    case SeeEmpty(_) =>
    case _ =>
  }

  lemma RegisterWatches(s: State, fd: Fd, d: Dir, h: Handler, addr: Addr, ok: bool, id: nat, c: Channel)
    requires Inv(s) && Watched(s, c) && s.Registered(c)
    ensures Watched(DoRegister(s, fd, d, h, addr, ok, id), c)
  {
  }

  lemma UnregisterWatches(s: State, fd: Fd, d: Dir, ok: bool, c: Channel)
    requires s.Registered(Channel(fd, d)) && Watched(s, c) && s.Registered(c) && c != Channel(fd, d)
    ensures Watched(DoUnregister(s, fd, d, ok), c)
  {
  }

  lemma WaitBits(s: State, picked: seq<Fd>, c: Channel, n: nat)
    requires Inv(s) && Enabled(s, Wait(picked)) && BitOn(DoWait(s, picked), c, n)
    ensures c in s.edges && Watched(s, c)
  {
    var fd := picked[n];
    assert Pickable(s, fd) && Channel(fd, c.dir) in s.edges;
    assert fd == c.fd;
    assert c == Channel(fd, c.dir);
  }

  lemma StepKeepsBitsWatched(s: State, c: Channel, a: Action)
    requires Inv(s) && BitsWatched(s, c) && Enabled(s, a)
    ensures BitsWatched(Next(s, a), c)
  {
    hide Inv, Next, BitOn, Watched;
    forall n: nat | BitOn(Next(s, a), c, n) ensures Watched(Next(s, a), c) {
      BitStaysWatched(s, c, a, n);
    }
  }

  lemma BitStaysWatched(s: State, c: Channel, a: Action, n: nat)
    requires Inv(s) && BitsWatched(s, c) && Enabled(s, a) && BitOn(Next(s, a), c, n)
    ensures Watched(Next(s, a), c)
  {
    hide Inv, BitOn, Enabled, DoRegister, DoUnregister, DoWait;
    match a
    case Wait(picked) =>
      WaitBits(s, picked, c, n);
      QuietStep(s, a);
    case Register(fd, d, h, addr, ok, id) =>
      BitsOnlyOff(s, a, c, n);
      BitIsRegistered(s, c, n);
      RegisterWatches(s, fd, d, h, addr, ok, id, c);
    case Unregister(fd, d, ok) =>
      RegisteredOf(s, a);
      UnregisterBits(s, fd, d, ok, c, n);
      BitIsRegistered(s, c, n);
      UnregisterWatches(s, fd, d, ok, c);
    case _ =>
      BitsOnlyOff(s, a, c, n);
      QuietStep(s, a);
  }

  lemma RegisteredOf(s: State, a: Action)
    requires Enabled(s, a) && a.Unregister?
    ensures s.Registered(Channel(a.fd, a.dir))
  {
  }

  // ---- Every step keeps the witness ----------------------------------------------------------------------

  /** A witness survives when edges and open drains survive and batch, registry and position stay the same. */
  lemma SameBatchWitness(s: State, t: State, c: Channel)
    requires Witnessed(s, c)
    requires t.batch == s.batch && t.ctl == s.ctl
    requires c.fd in s.infos ==> c.fd in t.infos && t.infos[c.fd].addr == s.infos[c.fd].addr
    requires c in s.edges ==> c in t.edges
    requires Draining(s, c) ==> Draining(t, c)
    ensures Witnessed(t, c)
  {
    if Pending(s, c) {
      var n: nat :| PendingAt(s, c, n);
      assert PendingAt(t, c, n);
    }
  }

  lemma ArriveCovers(s: State, c: Channel, d: Channel, n: nat)
    requires WakeInv(s, c) && Enabled(s, Arrive(d, n))
    ensures Covered(DoArrive(s, d, n), c)
  {
    var t := DoArrive(s, d, n);
    if t.Registered(c) && Watched(t, c) && t.Work(c) > 0 && d != c {
      SameBatchWitness(s, t, c);
    }
  }

  lemma RegisterCovers(s: State, c: Channel, fd: Fd, d: Dir, h: Handler, addr: Addr, ok: bool, id: nat)
    requires Inv(s) && Covered(s, c) && Enabled(s, Register(fd, d, h, addr, ok, id))
    requires !Neglects(s, c, Register(fd, d, h, addr, ok, id))
    ensures Covered(DoRegister(s, fd, d, h, addr, ok, id), c)
  {
    var t := DoRegister(s, fd, d, h, addr, ok, id);
    if t.Registered(c) && Watched(t, c) && t.Work(c) > 0 {
      if c == Channel(fd, d) && id in t.drains {
        assert Unseen(t.drains[id], c);
      } else {
        RegisterWitness(s, c, fd, d, h, addr, ok, id);
        if Draining(s, c) {
          var k :| k in s.drains && Unseen(s.drains[k], c);
          assert k in t.drains && Unseen(t.drains[k], c);
        }
        SameBatchWitness(s, t, c);
      }
    }
  }

  /** Unless a drain is begun for it, a channel that is watched now was watched before, or is drained. */
  lemma RegisterWitness(s: State, c: Channel, fd: Fd, d: Dir, h: Handler, addr: Addr, ok: bool, id: nat)
    requires Inv(s) && Covered(s, c) && Enabled(s, Register(fd, d, h, addr, ok, id))
    requires !Neglects(s, c, Register(fd, d, h, addr, ok, id))
    requires var t := DoRegister(s, fd, d, h, addr, ok, id);
             t.Registered(c) && Watched(t, c) && t.Work(c) > 0 && (c == Channel(fd, d) ==> id !in t.drains)
    ensures Witnessed(s, c)
  {
    var t := DoRegister(s, fd, d, h, addr, ok, id);
    if c == Channel(fd, d) {
      assert Watched(s, c) && s.Registered(c);
    } else {
      assert s.Registered(c);
      assert Watched(s, c) || Draining(s, c);
    }
  }

  lemma UnregisterCovers(s: State, c: Channel, fd: Fd, d: Dir, ok: bool)
    requires Inv(s) && Covered(s, c) && s.Registered(Channel(fd, d)) && !Neglects(s, c, Unregister(fd, d, ok))
    ensures Covered(DoUnregister(s, fd, d, ok), c)
  {
    var t := DoUnregister(s, fd, d, ok);
    var e := s.infos[fd];
    ClearBitsAll(s.batch, e.addr, if e.Get(d.Other()).Some? then {d} else {In, Out});
    if t.Registered(c) && Watched(t, c) && t.Work(c) > 0 {
      assert s.Registered(c) && c != Channel(fd, d);
      assert t.infos[c.fd].addr == s.infos[c.fd].addr;
      assert Watched(s, c) || Draining(s, c);
      if Pending(s, c) {
        var n: nat :| PendingAt(s, c, n);
        assert t.batch[n].ptr == s.batch[n].ptr && c.dir in t.batch[n].bits;
        assert PendingAt(t, c, n);
      }
    }
  }

  lemma WaitCovers(s: State, c: Channel, picked: seq<Fd>)
    requires WakeInv(s, c) && Enabled(s, Wait(picked))
    ensures Covered(DoWait(s, picked), c)
  {
    var t := DoWait(s, picked);
    if t.Registered(c) && Watched(t, c) && t.Work(c) > 0 {
      assert !Pending(s, c);
      if c in s.edges && c.fd in picked {
        var n :| 0 <= n < |picked| && picked[n] == c.fd;
        assert c == Channel(c.fd, c.dir) && c.dir in t.batch[n].bits;
        assert t.batch[n].ptr == Some(t.infos[c.fd].addr);
        assert PendingAt(t, c, n);
      }
    }
  }

  lemma SeeEmptyCovers(s: State, c: Channel, w: Who)
    requires WakeInv(s, c) && Enabled(s, SeeEmpty(w))
    ensures Covered(DoSeeEmpty(s, w), c)
  {
    var t := DoSeeEmpty(s, w);
    if t.Registered(c) && Watched(t, c) && t.Work(c) > 0 {
      assert ChannelOf(s, w).value != c;
      if Pending(s, c) {
        var n: nat :| PendingAt(s, c, n);
        assert PendingAt(t, c, n);
      } else if Draining(s, c) {
        var k :| k in s.drains && Unseen(s.drains[k], c);
        assert k in t.drains && Unseen(t.drains[k], c);
      }
    }
  }

  lemma ReturnCovers(s: State, c: Channel, r: int)
    requires WakeInv(s, c) && Enabled(s, Return(r)) && Attentive(s, c, Return(r))
    ensures Covered(DoReturn(s, r), c)
  {
    var t := DoReturn(s, r);
    if t.Registered(c) && Watched(t, c) && t.Work(c) > 0 {
      if Pending(s, c) {
        var n: nat :| PendingAt(s, c, n);
        assert PendingAt(t, c, n);
      }
    }
  }

  lemma AdvanceCovers(s: State, c: Channel)
    requires WakeInv(s, c) && Enabled(s, Advance)
    ensures Covered(DoAdvance(s), c)
  {
    AdvanceQuiet(s);
    var t := DoAdvance(s);
    if t.Registered(c) && Watched(t, c) && t.Work(c) > 0 {
      if Pending(s, c) {
        var n: nat :| PendingAt(s, c, n);
        assert PendingAt(t, c, n);
      }
    }
  }

  lemma DrainReturnCovers(s: State, c: Channel, id: nat, r: int)
    requires WakeInv(s, c) && Enabled(s, DrainReturn(id, r)) && Attentive(s, c, DrainReturn(id, r))
    ensures Covered(DoDrainReturn(s, id, r), c)
  {
    var t := DoDrainReturn(s, id, r);
    if t.Registered(c) && Watched(t, c) && t.Work(c) > 0 {
      if Draining(s, c) {
        var k :| k in s.drains && Unseen(s.drains[k], c);
        assert k in t.drains && Unseen(t.drains[k], c);
      }
      SameBatchWitness(s, t, c);
    }
  }

  lemma ConsumeCovers(s: State, c: Channel, w: Who, n: nat)
    requires WakeInv(s, c) && Enabled(s, Consume(w, n))
    ensures Covered(DoConsume(s, w, n), c)
  {
    var t := DoConsume(s, w, n);
    if t.Registered(c) && Watched(t, c) && t.Work(c) > 0 {
      if Pending(s, c) {
        var m: nat :| PendingAt(s, c, m);
        assert PendingAt(t, c, m);
      }
    }
  }

  lemma IdleStepCovers(s: State, c: Channel, a: Action)
    requires WakeInv(s, c) && Enabled(s, a) && (a.Spurious? || a.Start? || a.WaitFails?)
    ensures Covered(Next(s, a), c)
  {
    var t := Next(s, a);
    if t.Registered(c) && Watched(t, c) && t.Work(c) > 0 {
      if Pending(s, c) {
        var n: nat :| PendingAt(s, c, n);
        assert BitOn(s, c, n);
        if a.Spurious? { assert PendingAt(t, c, n); }
      }
    }
  }

  lemma StepCovers(s: State, c: Channel, a: Action)
    requires WakeInv(s, c) && Enabled(s, a) && Diligent(s, c, a)
    ensures Covered(Next(s, a), c)
  {
    match a
    case Arrive(d, n) => ArriveCovers(s, c, d, n);
    case Spurious(_) => IdleStepCovers(s, c, a);
    case Consume(w, n) => ConsumeCovers(s, c, w, n);
    case SeeEmpty(w) => SeeEmptyCovers(s, c, w);
    case Register(fd, d, h, addr, ok, id) => RegisterCovers(s, c, fd, d, h, addr, ok, id);
    case Unregister(fd, d, ok) => UnregisterCovers(s, c, fd, d, ok);
    case DrainReturn(id, r) => DrainReturnCovers(s, c, id, r);
    case Start => IdleStepCovers(s, c, a);
    case Wait(picked) => WaitCovers(s, c, picked);
    case WaitFails => IdleStepCovers(s, c, a);
    case Advance => AdvanceCovers(s, c);
    case Return(r) => ReturnCovers(s, c, r);
  }

  lemma StepKeepsCall(s: State, a: Action)
    requires Inv(s) && CallInv(s) && Enabled(s, a)
    ensures CallInv(Next(s, a))
  {
    match a
    case Unregister(fd, d, ok) =>
      var e := s.infos[fd];
      ClearBitsAll(s.batch, e.addr, if e.Get(d.Other()).Some? then {d} else {In, Out});
    case Register(_, _, _, _, _, _) =>
    case Advance => AdvanceCall(s);
    case Consume(_, _) =>
    case SeeEmpty(_) =>
    case _ =>
  }

  lemma AdvanceCall(s: State)
    requires Inv(s) && Enabled(s, Advance)
    ensures CallInv(DoAdvance(s))
  {
    AdvanceQuiet(s);
  }

  lemma StepKeepsIdle(s: State, c: Channel, a: Action)
    requires Inv(s) && PassInv(s) && IdleClear(s, c) && Enabled(s, a) && Attentive(s, c, a)
    ensures IdleClear(Next(s, a), c)
  {
    var t := Next(s, a);
    if (t.ctl.Blocking? || t.ctl.Outside?) && !a.WaitFails? {
      forall n: nat ensures !BitOn(t, c, n) {
        if BitOn(t, c, n) {
          BitsOnlyOff(s, a, c, n);
          NotIdleYet(s, c, a, n);
        }
      }
    }
  }

  /** With its bit on the loop does not become idle. */
  lemma NotIdleYet(s: State, c: Channel, a: Action, n: nat)
    requires PassInv(s) && IdleClear(s, c) && Enabled(s, a) && Attentive(s, c, a) && !a.WaitFails?
    ensures BitOn(s, c, n) ==> !Next(s, a).ctl.Blocking? && !Next(s, a).ctl.Outside?
  {
    if a.Advance? && BitOn(s, c, n) {
      var q: nat := if c.dir.In? then 2 * n else 2 * n + 1;
      assert BitSet(s, q);
      assert a == Advance && PendingAt(s, c, n) && Pending(s, c);
      AdvanceNotIdle(s, c);
    } else if !a.Advance? {
      IdleOnlyByAdvance(s, a);
    }
  }

  lemma AdvanceNotIdle(s: State, c: Channel)
    requires PassInv(s) && Enabled(s, Advance) && !Stops(s, Advance) && (exists q: nat :: BitSet(s, q))
    ensures !DoAdvance(s).ctl.Blocking? && !DoAdvance(s).ctl.Outside?
  {
  }

  lemma IdleOnlyByAdvance(s: State, a: Action)
    requires Enabled(s, a) && !a.Advance? && !a.WaitFails?
    ensures Next(s, a).ctl.Blocking? || Next(s, a).ctl.Outside? ==> s.ctl.Blocking? || s.ctl.Outside?
  {
  }

  lemma StepKeepsWake(s: State, c: Channel, a: Action)
    requires WakeInv(s, c) && Enabled(s, a) && Diligent(s, c, a)
    ensures WakeInv(Next(s, a), c)
  {
    hide Inv, PassInv, CallInv, IdleClear, BitsWatched, Covered, Enabled, Next, Attentive, Neglects, Harmless;
    StepKeepsInv(s, a);
    StepKeepsPass(s, a);
    StepKeepsCall(s, a);
    StepKeepsIdle(s, c, a);
    StepKeepsBitsWatched(s, c, a);
    assert Covered(Next(s, a), c) by { StepCovers(s, c, a); }
  }

  lemma {:induction false} RunKeepsWake(s: State, c: Channel, acts: seq<Action>)
    requires WakeInv(s, c) && Exec(s, acts).Some? && DiligentRun(s, c, acts)
    ensures WakeInv(Exec(s, acts).value, c)
    decreases |acts|
  {
    hide WakeInv, Enabled, Next, Diligent;
    if acts != [] {
      RunKeepsWake(s, c, acts[..|acts| - 1]);
      StepKeepsWake(Exec(s, acts[..|acts| - 1]).value, c, acts[|acts| - 1]);
    }
  }

  lemma WakeReached(stop: Fd, c: Channel, acts: seq<Action>, s: State)
    requires Exec(Init(stop), acts) == Some(s) && DiligentRun(Init(stop), c, acts)
    ensures WakeInv(s, c)
  {
    hide Exec, DiligentRun;
    RunKeepsWake(Init(stop), c, acts);
  }

  /** No lost wakeup for a watched channel, after every run in which its handler is attentive and no accepted change of
      its descriptor neglects it. Other handlers and descriptors may do what they like. */
  lemma NoLostWakeup(stop: Fd, c: Channel, acts: seq<Action>, s: State)
    requires Exec(Init(stop), acts) == Some(s) && DiligentRun(Init(stop), c, acts)
    requires s.Registered(c) && Watched(s, c) && s.Work(c) > 0
    ensures c in s.edges || Pending(s, c) || Draining(s, c)
  {
    hide Exec, DiligentRun, Inv, PassInv, CallInv;
    WakeReached(stop, c, acts, s);
  }

  /** epoll_wait never blocks on stranded data: when the loop waits, a watched channel for which no edge is queued and
      no initial drain is running is empty. */
  lemma BlocksOnlyWhenEmpty(stop: Fd, c: Channel, acts: seq<Action>, s: State)
    requires Exec(Init(stop), acts) == Some(s) && DiligentRun(Init(stop), c, acts)
    requires s.ctl.Blocking? && c !in s.edges && !Draining(s, c) && s.Registered(c) && Watched(s, c)
    ensures s.Work(c) == 0
  {
    hide Exec, DiligentRun, Inv, PassInv, CallInv;
    WakeReached(stop, c, acts, s);
    assert !Pending(s, c);
  }

  // ---- When every addition to the descriptor is accepted --------------------------------------------------

  ghost predicate AdditionsAccepted(fd: Fd, acts: seq<Action>) {
    forall i :: 0 <= i < |acts| && acts[i].Register? && acts[i].fd == fd ==> acts[i].ok
  }

  /** Then the kernel watches exactly what is registered of it, whatever it refuses of other descriptors. */
  lemma {:induction false} DescriptorAgrees(stop: Fd, fd: Fd, acts: seq<Action>, s: State)
    requires Exec(Init(stop), acts) == Some(s) && HarmlessRun(Init(stop), acts) && AdditionsAccepted(fd, acts)
    ensures fd != stop ==> AgreeAt(s, fd)
    decreases |acts|
  {
    hide Enabled, Next, Inv, Harmless, AgreeAt;
    StopStays(Init(stop), acts);
    if acts == [] {
      assert AgreeAt(Init(stop), fd) || fd == stop by { AgreesInitially(stop, fd); }
    } else {
      var front := acts[..|acts| - 1];
      var before := Exec(Init(stop), front).value;
      DescriptorAgrees(stop, fd, front, before);
      Reached(stop, front, before);
      StopStays(Init(stop), front);
      if fd != stop {
        AcceptedKeepsAgreeAt(before, acts[|acts| - 1], fd);
      }
    }
  }

  lemma AgreesInitially(stop: Fd, fd: Fd)
    ensures fd != stop ==> AgreeAt(Init(stop), fd)
  {
  }

  lemma AcceptedKeepsAgreeAt(s: State, a: Action, fd: Fd)
    requires Inv(s) && AgreeAt(s, fd) && Enabled(s, a) && Harmless(s, a) && fd != s.stop
    requires a.Register? && a.fd == fd ==> a.ok
    ensures AgreeAt(Next(s, a), fd)
  {
    hide Inv, Enabled, Next;
    AgreesAfter(s, a, fd);
  }

  ghost predicate AttentiveRun(s: State, c: Channel, acts: seq<Action>)
    decreases |acts|
  {
    acts == [] ||
    var front := acts[..|acts| - 1];
    AttentiveRun(s, c, front) && (Exec(s, front).Some? ==> Attentive(Exec(s, front).value, c, acts[|acts| - 1]))
  }

  /** Then nothing neglects c: an attentive and harmless run is diligent. */
  lemma {:induction false} AttentiveIsDiligent(stop: Fd, c: Channel, acts: seq<Action>)
    requires Exec(Init(stop), acts).Some? && HarmlessRun(Init(stop), acts)
    requires AttentiveRun(Init(stop), c, acts) && AdditionsAccepted(c.fd, acts)
    ensures DiligentRun(Init(stop), c, acts)
    decreases |acts|
  {
    hide Enabled, Next, Harmless, Attentive, Neglects;
    if acts != [] {
      var front := acts[..|acts| - 1];
      var before := Exec(Init(stop), front).value;
      AttentiveIsDiligent(stop, c, front);
      DescriptorAgrees(stop, c.fd, front, before);
      Reached(stop, front, before);
      StopStays(Init(stop), front);
      AgreedNotNeglected(before, c, acts[|acts| - 1]);
    }
  }

  lemma AgreedNotNeglected(s: State, c: Channel, a: Action)
    requires Inv(s) && (c.fd != s.stop ==> AgreeAt(s, c.fd))
    ensures !Neglects(s, c, a) && (s.Registered(c) ==> Watched(s, c))
  {
  }

  /** The kernel reports what is registered when it refuses neither additions to the descriptor nor removals of what it
      reports. */
  lemma RegisteredIsWatched(stop: Fd, c: Channel, acts: seq<Action>, s: State)
    requires Exec(Init(stop), acts) == Some(s) && HarmlessRun(Init(stop), acts) && AdditionsAccepted(c.fd, acts)
    requires s.Registered(c)
    ensures Watched(s, c)
  {
    hide Exec, HarmlessRun, AdditionsAccepted, Inv;
    DescriptorAgrees(stop, c.fd, acts, s);
    Reached(stop, acts, s);
    StopStays(Init(stop), acts);
    AgreedNotNeglected(s, c, Start);
  }

  /** No lost wakeup for any registered channel: removals of reported channels and additions to its own descriptor are
      accepted, its own handler returns a result of at most 0 only after seeing the channel empty, and the stop record
      is not met while the channel is pending. */
  lemma RegisteredNotLost(stop: Fd, c: Channel, acts: seq<Action>, s: State)
    requires Exec(Init(stop), acts) == Some(s) && HarmlessRun(Init(stop), acts)
    requires AttentiveRun(Init(stop), c, acts) && AdditionsAccepted(c.fd, acts)
    requires s.Registered(c) && s.Work(c) > 0
    ensures Watched(s, c) && (c in s.edges || Pending(s, c) || Draining(s, c))
  {
    hide Exec, HarmlessRun, AttentiveRun, DiligentRun, AdditionsAccepted, Inv, Pending, Draining;
    AttentiveIsDiligent(stop, c, acts);
    RegisteredIsWatched(stop, c, acts, s);
    NoLostWakeup(stop, c, acts, s);
  }

  // ---- Neglect is exactly what loses a wakeup ------------------------------------------------------------

  lemma {:induction false} RunKeepsBitsWatched(s: State, c: Channel, acts: seq<Action>)
    requires Inv(s) && BitsWatched(s, c) && Exec(s, acts).Some? && HarmlessRun(s, acts)
    ensures BitsWatched(Exec(s, acts).value, c)
    decreases |acts|
  {
    hide Inv, BitsWatched, Enabled, Next, Harmless;
    if acts != [] {
      var front := acts[..|acts| - 1];
      RunKeepsBitsWatched(s, c, front);
      RunKeepsInv(s, front);
      StepKeepsBitsWatched(Exec(s, front).value, c, acts[|acts| - 1]);
    }
  }

  ghost predicate AllCovered(s: State) {
    forall c {:trigger Covered(s, c)} :: Covered(s, c)
  }

  /** An accepted change of a descriptor, adding or removing one direction, keeps all wakeups if and only if the other
      direction was not registered, or was watched before, or has no work, or is being drained. */
  lemma ChangeKeepsIff(stop: Fd, acts: seq<Action>, s: State, a: Action)
    requires Exec(Init(stop), acts) == Some(s) && HarmlessRun(Init(stop), acts) && AllCovered(s)
    requires Enabled(s, a) && (a.Register? || a.Unregister?) && a.ok
    ensures AllCovered(Next(s, a)) <==> !Neglects(s, Channel(a.fd, a.dir.Other()), a)
  {
    hide Exec, HarmlessRun, Inv, Enabled, Covered, BitsWatched, Neglects, Next;
    Reached(stop, acts, s);
    var c := Channel(a.fd, a.dir.Other());
    BitsOf(stop, acts, s, c);
    if Neglects(s, c, a) {
      NeglectedIsLost(s, c, a);
      assert !Covered(Next(s, a), c);
    } else {
      forall d ensures Covered(Next(s, a), d) {
        assert Covered(s, d);
        if Neglects(s, d, a) { OnlyOtherNeglected(s, d, a); }
        ChangeCovers(s, d, a);
      }
    }
  }

  lemma BitsOf(stop: Fd, acts: seq<Action>, s: State, c: Channel)
    requires Exec(Init(stop), acts) == Some(s) && HarmlessRun(Init(stop), acts)
    ensures BitsWatched(s, c)
  {
    hide Exec, HarmlessRun;
    RunKeepsBitsWatched(Init(stop), c, acts);
  }

  lemma OnlyOtherNeglected(s: State, c: Channel, a: Action)
    requires Neglects(s, c, a)
    ensures c == Channel(a.fd, a.dir.Other())
  {
  }

  lemma ChangeCovers(s: State, c: Channel, a: Action)
    requires Inv(s) && Covered(s, c) && Enabled(s, a) && (a.Register? || a.Unregister?) && !Neglects(s, c, a)
    ensures Covered(Next(s, a), c)
  {
    match a
    case Register(fd, d, h, addr, ok, id) => RegisterCovers(s, c, fd, d, h, addr, ok, id);
    case Unregister(fd, d, ok) => UnregisterCovers(s, c, fd, d, ok);
  }

  /** What is neglected is registered, watched and has work, and there is no witness. */
  lemma NeglectedIsLost(s: State, c: Channel, a: Action)
    requires Inv(s) && BitsWatched(s, c) && Enabled(s, a) && Neglects(s, c, a)
    ensures var t := Next(s, a); t.Registered(c) && Watched(t, c) && t.Work(c) > 0 && !Witnessed(t, c)
    ensures !Covered(Next(s, a), c)
  {
    var t := Next(s, a);
    forall n: nat ensures !BitOn(t, c, n) {
      if BitOn(t, c, n) { BitsOnlyOff(s, a, c, n); }
    }
    assert c !in s.edges && c !in t.edges;
    assert forall id :: id in t.drains && Unseen(t.drains[id], c) ==> id in s.drains;
  }

  /** One registered input handler, drained and idle. */
  function Added(): State {
    State(3, map[5 := Entry(100, Some(1), None)], map[3 := Interest({In}, None), 5 := Interest({In}, Some(100))],
          {}, map[], [], Outside, map[])
  }

  lemma AddAndDrain() returns (acts: seq<Action>)
    ensures acts == [Register(5, In, 1, 100, true, 0)] + [SeeEmpty(Drainer(0))] + [DrainReturn(0, 0)]
    ensures Exec(Init(3), acts) == Some(Added())
  {
    var a := Register(5, In, 1, 100, true, 0);
    var s := DoRegister(Init(3), 5, In, 1, 100, true, 0);
    AddAndDrainStates();
    ExecOne(Init(3), a);
    hide Exec, Next, Added;
    ExecSnoc(Init(3), [a], s, SeeEmpty(Drainer(0)));
    var t := DoSeeEmpty(s, Drainer(0));
    ExecSnoc(Init(3), [a] + [SeeEmpty(Drainer(0))], t, DrainReturn(0, 0));
    acts := [a] + [SeeEmpty(Drainer(0))] + [DrainReturn(0, 0)];
  }

  lemma AddAndDrainStates()
    ensures var s := DoRegister(Init(3), 5, In, 1, 100, true, 0);
            && Enabled(Init(3), Register(5, In, 1, 100, true, 0))
            && Next(Init(3), Register(5, In, 1, 100, true, 0)) == s
            && Enabled(s, SeeEmpty(Drainer(0)))
            && var t := DoSeeEmpty(s, Drainer(0));
               && Next(s, SeeEmpty(Drainer(0))) == t
               && Enabled(t, DrainReturn(0, 0)) && Next(t, DrainReturn(0, 0)) == Added()
  {
    var s := DoRegister(Init(3), 5, In, 1, 100, true, 0);
    assert s.interest[5].mask == {In};
    var t := DoDrainReturn(DoSeeEmpty(s, Drainer(0)), 0, 0);
    assert t.drains == map[];
  }

  /** A refused addOutEvent leaves the handler stored. The next accepted addEvent has the kernel report output too, but
      drains the input handler only: the loop blocks although there is room to write and nothing will say so. */
  lemma RefusedOutputStrands() returns (run: seq<Action>, s: State)
    ensures Exec(Init(3), run) == Some(s)
    ensures run == [Register(5, In, 1, 100, true, 0)] + [SeeEmpty(Drainer(0))] + [DrainReturn(0, 0)] +
                   [Register(5, Out, 2, 101, false, 1)] + [Arrive(Channel(5, Out), 1)] +
                   [Register(5, In, 1, 101, true, 1)] + [SeeEmpty(Drainer(1))] + [DrainReturn(1, 0)] + [Start]
    ensures s.ctl.Blocking? && Agree(s) && s.edges == {} && s.drains == map[]
    ensures s.Registered(Channel(5, Out)) && Watched(s, Channel(5, Out)) && s.Work(Channel(5, Out)) == 1
    ensures !Witnessed(s, Channel(5, Out))
  {
    var s0 := Init(3);
    run := AddAndDrain();
    OutputRefused();
    AddedAgain();
    StrandedEnd();
    hide Exec, Next, Enabled, Agree, Witnessed, Watched, Refused, AddedTwice, Stranded;
    var s1 := DoRegister(Added(), 5, Out, 2, 101, false, 1);
    ExecSnoc(s0, run, Added(), Register(5, Out, 2, 101, false, 1));
    run := run + [Register(5, Out, 2, 101, false, 1)];
    ExecSnoc(s0, run, s1, Arrive(Channel(5, Out), 1));
    run := run + [Arrive(Channel(5, Out), 1)];
    ExecSnoc(s0, run, Refused(), Register(5, In, 1, 101, true, 1));
    run := run + [Register(5, In, 1, 101, true, 1)];
    ExecSnoc(s0, run, AddedTwice(), SeeEmpty(Drainer(1)));
    run := run + [SeeEmpty(Drainer(1))];
    var s2 := Next(AddedTwice(), SeeEmpty(Drainer(1)));
    ExecSnoc(s0, run, s2, DrainReturn(1, 0));
    run := run + [DrainReturn(1, 0)];
    ExecSnoc(s0, run, Next(s2, DrainReturn(1, 0)), Start);
    run, s := run + [Start], Stranded();
  }

  function Refused(): State {
    Added().(infos := map[5 := Entry(100, Some(1), Some(2))], work := map[Channel(5, Out) := 1])
  }

  lemma OutputRefused()
    ensures var a := Register(5, Out, 2, 101, false, 1);
            && Enabled(Added(), a)
            && var s := DoRegister(Added(), 5, Out, 2, 101, false, 1);
               && Next(Added(), a) == s
               && Enabled(s, Arrive(Channel(5, Out), 1)) && Next(s, Arrive(Channel(5, Out), 1)) == Refused()
  {
    var s := DoRegister(Added(), 5, Out, 2, 101, false, 1);
    assert s.infos == Refused().infos && s.interest == Added().interest;
    var t := DoArrive(s, Channel(5, Out), 1);
    assert t.work == Refused().work && t.edges == {};
  }

  function AddedTwice(): State {
    Refused().(interest := map[3 := Interest({In}, None), 5 := Interest({In, Out}, Some(100))],
               drains := map[1 := Drain(Channel(5, In), 1, false)])
  }

  lemma AddedAgain()
    ensures var a := Register(5, In, 1, 101, true, 1); Enabled(Refused(), a) && Next(Refused(), a) == AddedTwice()
  {
    var t := DoRegister(Refused(), 5, In, 1, 101, true, 1);
    assert t.infos == Refused().infos;
    assert t.infos[5].Mask() == {In, Out};
    assert t.interest == AddedTwice().interest && t.drains == AddedTwice().drains && t.edges == {};
  }

  function Stranded(): State { AddedTwice().(drains := map[], ctl := Blocking) }

  lemma StrandedEnd()
    ensures Enabled(AddedTwice(), SeeEmpty(Drainer(1)))
    ensures var s := Next(AddedTwice(), SeeEmpty(Drainer(1)));
            && Enabled(s, DrainReturn(1, 0))
            && var t := Next(s, DrainReturn(1, 0)); Enabled(t, Start) && Next(t, Start) == Stranded()
    ensures var s := Stranded();
            && s.ctl.Blocking? && s.edges == {} && s.drains == map[] && Agree(s)
            && s.Registered(Channel(5, Out)) && Watched(s, Channel(5, Out)) && s.Work(Channel(5, Out)) == 1
            && !Witnessed(s, Channel(5, Out))
  {
    var s := DoSeeEmpty(AddedTwice(), Drainer(1));
    assert DoDrainReturn(s, 1, 0).drains == map[];
    assert Stranded().infos[5].Mask() == {In, Out};
  }

  // ---- The stop record discards the rest of the batch ----------------------------------------------------

  /** Stopping, calling execute again and waiting keeps the wakeup of a channel if and only if it did not rely on the
      discarded batch alone. */
  lemma StopThenWait(s: State, c: Channel, picked: seq<Fd>)
    requires Inv(s) && Enabled(s, Advance) && Stops(s, Advance)
    requires Enabled(Next(Next(s, Advance), Start), Wait(picked))
    ensures Covered(Next(Next(Next(s, Advance), Start), Wait(picked)), c) <==>
            (s.Registered(c) && Watched(s, c) && s.Work(c) > 0 ==> c in s.edges || Draining(s, c))
  {
    AdvanceQuiet(s);
    var u := Next(Next(s, Advance), Start);
    var t := Next(u, Wait(picked));
    if s.Registered(c) && Watched(s, c) {
      if Pending(t, c) {
        var n: nat :| PendingAt(t, c, n);
        WaitBitsOf(u, picked, c, n);
      }
      if c in s.edges && c.fd in picked {
        var n :| 0 <= n < |picked| && picked[n] == c.fd;
        assert c == Channel(c.fd, c.dir);
        assert PendingAt(t, c, n);
      }
    }
  }

  lemma WaitBitsOf(u: State, picked: seq<Fd>, c: Channel, n: nat)
    requires RegistryInv(u) && WatchInv(u) && Enabled(u, Wait(picked)) && BitOn(DoWait(u, picked), c, n)
    ensures c in u.edges
  {
    var fd := picked[n];
    assert Pickable(u, fd) && Channel(fd, c.dir) in u.edges;
    assert fd == c.fd;
    assert c == Channel(fd, c.dir);
  }

  /** When a wait delivers the stop record first, the record behind it is lost: execute, called again, blocks
      although the channel has unread data. */
  lemma StopStrandsTail(s: State, acts: seq<Action>, c: Channel, stop: Fd) returns (run: seq<Action>, t: State)
    requires Exec(Init(stop), acts) == Some(s) && AllAccepted(acts) && s.ctl.Blocking?
    requires c.dir.In? && s.Registered(c) && s.Work(c) > 0 && s.edges == {Channel(stop, In), c} && s.drains == map[]
    ensures run == acts + [Wait([stop, c.fd])] + [Advance] + [Start] && Exec(Init(stop), run) == Some(t)
    ensures t.ctl.Blocking? && t.edges == {} && t.drains == map[] && t.Registered(c) && t.Work(c) > 0
  {
    RegistryAgrees(stop, acts, s);
    assert c.fd != stop by { NoRefusalIsHarmless(Init(stop), acts); RunKeepsInv(Init(stop), acts); }
    var w := Wait([stop, c.fd]);
    assert Pickable(s, stop) && Pickable(s, c.fd);
    var u := Next(s, w);
    ExecSnoc(Init(stop), acts, s, w);
    assert u.batch[0].ptr == None && u.edges == {};
    ExecSnoc(Init(stop), acts + [w], u, Advance);
    ExecSnoc(Init(stop), acts + [w] + [Advance], Next(u, Advance), Start);
    run, t := acts + [w] + [Advance] + [Start], Next(Next(u, Advance), Start);
  }

  /** A run of diligent handlers, ending in a stop, that strands data: one byte arrives on descriptor 5 together
      with the stop. */
  lemma StopStrands() returns (run: seq<Action>, t: State)
    ensures Exec(Init(3), run) == Some(t) && AllAccepted(run)
    ensures t.ctl.Blocking? && t.edges == {} && t.drains == map[]
    ensures t.Registered(Channel(5, In)) && t.Work(Channel(5, In)) > 0
  {
    var acts, s := AddThenArrive();
    run, t := StopStrandsTail(s, acts, Channel(5, In), 3);
  }

  lemma AddThenArrive() returns (acts: seq<Action>, s: State)
    ensures Exec(Init(3), acts) == Some(s) && AllAccepted(acts) && s.ctl.Blocking?
    ensures s.Registered(Channel(5, In)) && s.Work(Channel(5, In)) > 0
    ensures s.edges == {Channel(3, In), Channel(5, In)} && s.drains == map[]
  {
    var s0, a, b := Init(3), Arrive(Channel(5, In), 1), Arrive(Channel(3, In), 1);
    acts := AddAndDrain();
    var s1 := DoArrive(Added(), Channel(5, In), 1);
    var s2 := DoArrive(s1, Channel(3, In), 1);
    ExecSnoc(s0, acts, Added(), a);
    hide Exec;
    ExecSnoc(s0, acts + [a], s1, b);
    ExecSnoc(s0, acts + [a] + [b], s2, Start);
    acts, s := acts + [a] + [b] + [Start], Next(s2, Start);
  }
}
