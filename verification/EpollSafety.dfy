/**
 What every run keeps: the registry mirrors the kernel's interest set, and every bit still set in the batch
 belongs to a live entry with a handler for that direction, so no erased handler is ever called.
*/
module EpollSafety {
  import opened Options
  import opened EpollMachine

  /** Live entries have pairwise distinct addresses, and each has a handler. */
  ghost predicate RegistryInv(s: State) {
    && s.stop !in s.infos
    && (forall f, g :: f in s.infos && g in s.infos && f != g ==> s.infos[f].addr != s.infos[g].addr)
    && (forall f :: f in s.infos ==> s.infos[f].inEvent.Some? || s.infos[f].outEvent.Some?)
  }

  /** The kernel watches only live entries, under their addresses, for directions that have a handler. */
  ghost predicate WatchInv(s: State) {
    && s.stop in s.interest && s.interest[s.stop] == Interest({In}, None)
    && (forall f :: f in s.interest && f != s.stop ==>
          && f in s.infos
          && s.interest[f].ptr == Some(s.infos[f].addr)
          && {} != s.interest[f].mask <= s.infos[f].Mask())
  }

  /** The kernel watches exactly the registered descriptors and the stop descriptor, with exactly the right masks. */
  ghost predicate Agree(s: State) {
    && s.interest.Keys == s.infos.Keys + {s.stop}
    && (forall f :: f in s.infos ==> s.interest[f] == Interest(s.infos[f].Mask(), Some(s.infos[f].addr)))
  }

  ghost predicate EdgesInv(s: State) {
    forall c :: c in s.edges ==> c.fd in s.interest && c.dir in s.interest[c.fd].mask
  }

  ghost predicate DistinctRecords(batch: seq<Record>) {
    forall i, j :: 0 <= i < j < |batch| ==> batch[i].ptr != batch[j].ptr
  }

  ghost predicate BitsLive(s: State) {
    forall n, d :: 0 <= n < |s.batch| && d in s.batch[n].bits && s.batch[n].ptr.Some? ==>
      s.Live(s.batch[n].ptr.value, d)
  }

  ghost predicate ControlInv(s: State) {
    && (s.ctl.At? ==> s.ctl.pass.pos <= 2 * |s.batch|)
    && (s.ctl.Calling? ==> s.ctl.pass.pos < 2 * |s.batch| && s.batch[s.ctl.pass.pos / 2].ptr.Some?)
  }

  ghost predicate Inv(s: State) {
    && RegistryInv(s) && WatchInv(s) && EdgesInv(s)
    && DistinctRecords(s.batch) && BitsLive(s) && ControlInv(s) && !s.ctl.Wild?
  }

  /** The kernel reports this channel. */
  predicate Watched(s: State, c: Channel) { c.fd in s.interest && c.dir in s.interest[c.fd].mask }

  /** The kernel refuses no removal of a channel that it reports. */
  predicate Harmless(s: State, a: Action) { a.Unregister? ==> a.ok || !Watched(s, Channel(a.fd, a.dir)) }

  ghost predicate HarmlessRun(s: State, acts: seq<Action>)
    decreases |acts|
  {
    acts == [] ||
    var front := acts[..|acts| - 1];
    HarmlessRun(s, front) && (Exec(s, front).Some? ==> Harmless(Exec(s, front).value, acts[|acts| - 1]))
  }

  lemma {:induction false} NoRefusalIsHarmless(s: State, acts: seq<Action>)
    requires forall i :: 0 <= i < |acts| && acts[i].Unregister? ==> acts[i].ok
    ensures HarmlessRun(s, acts)
    decreases |acts|
  {
    hide Exec;
    if acts != [] {
      NoRefusalIsHarmless(s, acts[..|acts| - 1]);
    }
  }

  lemma {:induction false} HarmlessAppend(s: State, acts: seq<Action>, t: State, more: seq<Action>)
    requires Exec(s, acts) == Some(t)
    ensures HarmlessRun(s, acts + more) <==> HarmlessRun(s, acts) && HarmlessRun(t, more)
    decreases |more|
  {
    hide Exec, Harmless;
    if more == [] {
      assert acts + more == acts;
    } else {
      var front := more[..|more| - 1];
      HarmlessAppend(s, acts, t, front);
      assert (acts + more)[..|acts + more| - 1] == acts + front;
      ExecAppend(s, acts, t, front);
    }
  }

  /** The kernel refuses neither an addition nor a removal. */
  predicate Accepted(a: Action) { (a.Register? ==> a.ok) && (a.Unregister? ==> a.ok) }

  predicate AllAccepted(acts: seq<Action>) {
    forall i :: 0 <= i < |acts| ==> Accepted(acts[i])
  }

  /** With distinct pointers the early break loses nothing: every record with the pointer is cleared. */
  lemma {:induction false} ClearBitsAt(batch: seq<Record>, addr: Addr, removed: set<Dir>, n: nat)
    requires DistinctRecords(batch) && n < |batch|
    ensures ClearBits(batch, addr, removed)[n] ==
            if batch[n].ptr == Some(addr) then Record(batch[n].ptr, batch[n].bits - removed) else batch[n]
  {
    if batch[0].ptr == Some(addr) {
      assert n > 0 ==> batch[0].ptr != batch[n].ptr;
    } else if n > 0 {
      ClearBitsAt(batch[1..], addr, removed, n - 1);
    }
  }

  lemma ClearBitsAll(batch: seq<Record>, addr: Addr, removed: set<Dir>)
    requires DistinctRecords(batch)
    ensures forall n {:trigger ClearBits(batch, addr, removed)[n]} :: 0 <= n < |batch| ==>
      ClearBits(batch, addr, removed)[n] ==
        if batch[n].ptr == Some(addr) then Record(batch[n].ptr, batch[n].bits - removed) else batch[n]
    ensures DistinctRecords(ClearBits(batch, addr, removed))
  {
    forall n | 0 <= n < |batch|
      ensures ClearBits(batch, addr, removed)[n] ==
        if batch[n].ptr == Some(addr) then Record(batch[n].ptr, batch[n].bits - removed) else batch[n]
    {
      ClearBitsAt(batch, addr, removed, n);
    }
  }

  lemma RegisterKeeps(s: State, fd: Fd, d: Dir, h: Handler, addr: Addr, ok: bool, id: nat)
    requires Inv(s) && Enabled(s, Register(fd, d, h, addr, ok, id))
    ensures Inv(DoRegister(s, fd, d, h, addr, ok, id))
  {
    var t := DoRegister(s, fd, d, h, addr, ok, id);
    forall n, e | 0 <= n < |t.batch| && e in t.batch[n].bits && t.batch[n].ptr.Some?
      ensures t.Live(t.batch[n].ptr.value, e)
    {
      var g := OwnerOf(s, s.batch[n].ptr.value, e);
      assert g in t.infos && t.infos[g].addr == s.batch[n].ptr.value && t.infos[g].Get(e).Some?;
    }
  }

  /** Removing is safe when the kernel accepts it, and also when the kernel did not report the channel. */
  lemma UnregisterKeeps(s: State, c: Channel, ok: bool)
    requires Inv(s) && s.Registered(c) && (ok || !Watched(s, c))
    ensures Inv(DoUnregister(s, c.fd, c.dir, ok))
  {
    var t := DoUnregister(s, c.fd, c.dir, ok);
    var e := s.infos[c.fd];
    if !ok {
      OnlyOtherWatched(s, c);
    }
    ClearBitsAll(s.batch, e.addr, if e.Get(c.dir.Other()).Some? then {c.dir} else {In, Out});
    forall n, b | 0 <= n < |t.batch| && b in t.batch[n].bits && t.batch[n].ptr.Some?
      ensures t.Live(t.batch[n].ptr.value, b)
    {
      assert b in s.batch[n].bits && t.batch[n].ptr == s.batch[n].ptr;
      var g := OwnerOf(s, s.batch[n].ptr.value, b);
      assert g in t.infos && t.infos[g].addr == s.batch[n].ptr.value && t.infos[g].Get(b).Some?;
    }
  }

  lemma OnlyOtherWatched(s: State, c: Channel)
    requires WatchInv(s) && s.stop !in s.infos && s.Registered(c) && !Watched(s, c)
    ensures c.fd in s.interest ==> s.interest[c.fd].mask == {c.dir.Other()} && s.infos[c.fd].Get(c.dir.Other()).Some?
  {
    if c.fd in s.interest {
      assert s.interest[c.fd].mask <= s.infos[c.fd].Mask();
      var d :| d in s.interest[c.fd].mask;
      assert d == c.dir.Other();
      assert forall b :: b in s.interest[c.fd].mask ==> b == d;
    }
  }

  lemma WaitKeeps(s: State, picked: seq<Fd>)
    requires Inv(s) && Enabled(s, Wait(picked))
    ensures Inv(DoWait(s, picked))
  {
    var t := DoWait(s, picked);
    forall i, j | 0 <= i < j < |t.batch|
      ensures t.batch[i].ptr != t.batch[j].ptr
    {
      assert Pickable(s, picked[i]) && Pickable(s, picked[j]);
    }
    forall n, d | 0 <= n < |t.batch| && d in t.batch[n].bits && t.batch[n].ptr.Some?
      ensures t.Live(t.batch[n].ptr.value, d)
    {
      var fd := picked[n];
      assert Channel(fd, d) in s.edges && Pickable(s, fd);
      assert fd in t.infos && t.infos[fd].addr == t.batch[n].ptr.value && t.infos[fd].Get(d).Some?;
    }
  }

  /** A step that leaves registry and interest alone and only turns bits off keeps every bit live. */
  lemma FewerBitsLive(s: State, t: State)
    requires BitsLive(s) && DistinctRecords(s.batch) && t.infos == s.infos && |t.batch| <= |s.batch|
    requires forall n :: 0 <= n < |t.batch| ==> t.batch[n].ptr == s.batch[n].ptr && t.batch[n].bits <= s.batch[n].bits
    ensures BitsLive(t) && DistinctRecords(t.batch)
  {
    forall n, d | 0 <= n < |t.batch| && d in t.batch[n].bits && t.batch[n].ptr.Some?
      ensures t.Live(t.batch[n].ptr.value, d)
    {
      assert d in s.batch[n].bits;
      var g := OwnerOf(s, s.batch[n].ptr.value, d);
      assert g in t.infos && t.infos[g].addr == t.batch[n].ptr.value && t.infos[g].Get(d).Some?;
    }
  }

  lemma AdvanceKeeps(s: State)
    requires Inv(s) && Enabled(s, Advance)
    ensures Inv(DoAdvance(s))
  {
    FewerBitsLive(s, DoAdvance(s));
  }

  lemma ReturnKeeps(s: State, r: int)
    requires Inv(s) && Enabled(s, Return(r))
    ensures Inv(DoReturn(s, r))
  {
    FewerBitsLive(s, DoReturn(s, r));
  }

  lemma OthersKeep(s: State, a: Action)
    requires Inv(s) && Enabled(s, a)
    requires !a.Register? && !a.Unregister? && !a.Wait? && !a.Advance? && !a.Return?
    ensures Inv(Next(s, a))
  {
    if a.Consume? || a.SeeEmpty? {
      HandlerKeeps(s, a);
    } else {
      FewerBitsLive(s, Next(s, a));
    }
  }

  lemma HandlerKeeps(s: State, a: Action)
    requires Inv(s) && Enabled(s, a) && (a.Consume? || a.SeeEmpty?)
    ensures Inv(Next(s, a))
  {
    FewerBitsLive(s, Next(s, a));
  }

  lemma StepKeepsInv(s: State, a: Action)
    requires Inv(s) && Enabled(s, a) && Harmless(s, a)
    ensures Inv(Next(s, a))
  {
    match a
    case Register(fd, d, h, addr, ok, id) => RegisterKeeps(s, fd, d, h, addr, ok, id);
    case Unregister(fd, d, ok) => UnregisterKeeps(s, Channel(fd, d), ok);
    case Wait(picked) => WaitKeeps(s, picked);
    case Advance => AdvanceKeeps(s);
    case Return(r) => ReturnKeeps(s, r);
    case _ => OthersKeep(s, a);
  }

  lemma {:induction false} RunKeepsInv(s: State, acts: seq<Action>)
    requires Inv(s) && Exec(s, acts).Some? && HarmlessRun(s, acts)
    ensures Inv(Exec(s, acts).value)
    decreases |acts|
  {
    hide Enabled, Next, Inv, Harmless;
    if acts != [] {
      RunKeepsInv(s, acts[..|acts| - 1]);
      StepKeepsInv(Exec(s, acts[..|acts| - 1]).value, acts[|acts| - 1]);
    }
  }

  lemma Reached(stop: Fd, acts: seq<Action>, s: State)
    requires Exec(Init(stop), acts) == Some(s) && HarmlessRun(Init(stop), acts)
    ensures Inv(s)
  {
    hide Exec, HarmlessRun;
    RunKeepsInv(Init(stop), acts);
  }

  /** Dispatch safety. In every run in which the kernel refuses no removal of a channel that it reports, the loop never
      calls through a dead entry or an empty handler, and each bit set in the batch has a live entry with a handler for
      its direction, whatever callbacks and other threads add, replace or erase. */
  lemma {:induction false} DispatchSafety(stop: Fd, acts: seq<Action>, s: State)
    requires Exec(Init(stop), acts) == Some(s) && HarmlessRun(Init(stop), acts)
    ensures !s.ctl.Wild?
    ensures forall n, d :: 0 <= n < |s.batch| && d in s.batch[n].bits && s.batch[n].ptr.Some? ==>
              exists fd :: fd in s.infos && s.infos[fd].addr == s.batch[n].ptr.value && s.infos[fd].Get(d).Some?
    ensures DistinctRecords(s.batch)
    ensures s.ctl.Calling? ==> s.ctl.pass.pos < 2 * |s.batch| && s.batch[s.ctl.pass.pos / 2].ptr.Some?
  {
    RunKeepsInv(Init(stop), acts);
  }

  predicate RegistersAgain(a: Action, c: Channel) { a.Register? && a.fd == c.fd && a.dir == c.dir }

  lemma StepStaysErased(s: State, a: Action, c: Channel)
    requires Enabled(s, a) && !s.Registered(c) && !RegistersAgain(a, c)
    ensures !Next(s, a).Registered(c)
  {
    if !a.Register? && !a.Unregister? {
      QuietStep(s, a);
    }
  }

  /** A handler is entered only while its channel is registered. */
  lemma EntersRegistered(s: State, a: Action)
    requires Enabled(s, a) && !s.ctl.Calling? && Next(s, a).ctl.Calling?
    ensures s.Registered(Next(s, a).ctl.chan)
  {
    hide Next;
    OnlyAdvanceCalls(s, a);
  }

  lemma ErasesChannel(s: State, c: Channel, ok: bool)
    requires s.Registered(c)
    ensures !DoUnregister(s, c.fd, c.dir, ok).Registered(c)
  {
  }

  /** A step calls a handler of the channel: the loop enters it, a registration begins its drain, or a drain goes on. */
  ghost predicate CallsHandler(s: State, a: Action, c: Channel)
    requires Enabled(s, a)
  {
    || (a.Advance? && Next(s, a).ctl.Calling? && Next(s, a).ctl.chan == c)
    || (a.Register? && Channel(a.fd, a.dir) == c && a.id in Next(s, a).drains)
    || (a.DrainReturn? && a.result > 0 && s.drains[a.id].chan == c)
  }

  lemma StepAddsNoDrain(s: State, a: Action, c: Channel, id: nat)
    requires Enabled(s, a) && !RegistersAgain(a, c)
    ensures id in Next(s, a).drains && Next(s, a).drains[id].chan == c ==> id in s.drains && s.drains[id].chan == c
  {
    match a
    case Advance => AdvanceQuiet(s);
    case SeeEmpty(_) =>
    case Consume(_, _) =>
    case _ =>
  }

  /** An erased handler is not entered by the loop: in every run in which c was erased and not registered again since,
      whatever batch was pending, the only calls of its handler are those of an initial drain that was open when it was
      erased, one for each positive result. With DispatchSafety the loop does not run into an empty handler either. */
  lemma {:induction false} ErasedCalledIff(stop: Fd, before: seq<Action>, u: State, c: Channel, ok: bool,
                                           later: seq<Action>, s: State, a: Action)
    requires Exec(Init(stop), before) == Some(u)
    requires Exec(Init(stop), before + [Unregister(c.fd, c.dir, ok)] + later) == Some(s) && Enabled(s, a)
    requires forall i :: 0 <= i < |later| ==> !RegistersAgain(later[i], c)
    requires !RegistersAgain(a, c)
    ensures CallsHandler(s, a, c) <==>
            a.DrainReturn? && a.result > 0 && a.id in s.drains && s.drains[a.id].chan == c
    ensures forall id :: id in s.drains && s.drains[id].chan == c ==> id in u.drains && u.drains[id].chan == c
    ensures !s.Registered(c)
  {
    hide Next;
    StaysErased(stop, before, u, c, ok, later, s);
    if a.Advance? && Next(s, a).ctl.Calling? {
      EntersRegistered(s, a);
    }
  }

  lemma {:induction false} StaysErased(stop: Fd, before: seq<Action>, u: State, c: Channel, ok: bool,
                                       later: seq<Action>, s: State)
    requires Exec(Init(stop), before) == Some(u)
    requires Exec(Init(stop), before + [Unregister(c.fd, c.dir, ok)] + later) == Some(s)
    requires forall i :: 0 <= i < |later| ==> !RegistersAgain(later[i], c)
    ensures forall id :: id in s.drains && s.drains[id].chan == c ==> id in u.drains && u.drains[id].chan == c
    ensures !s.Registered(c)
    decreases |later|
  {
    hide Next, Enabled;
    var acts := before + [Unregister(c.fd, c.dir, ok)] + later;
    var front, last := acts[..|acts| - 1], acts[|acts| - 1];
    var previous := Exec(Init(stop), front).value;
    if later == [] {
      assert front == before && last == Unregister(c.fd, c.dir, ok);
      NextIsUnregister(previous, c, ok);
    } else {
      assert front == before + [Unregister(c.fd, c.dir, ok)] + later[..|later| - 1];
      assert last == later[|later| - 1];
      StaysErased(stop, before, u, c, ok, later[..|later| - 1], previous);
      StepStaysErased(previous, last, c);
    }
    forall id | id in s.drains && s.drains[id].chan == c ensures id in u.drains && u.drains[id].chan == c {
      StepAddsNoDrain(previous, last, c, id);
    }
  }

  /** The exception occurs: a handler that erases itself in its initial drain and then reports that there is more is
      called again. */
  lemma ErasedCalledAgain() returns (acts: seq<Action>, s: State)
    ensures acts == [Register(5, In, 1, 100, true, 0)] + [Unregister(5, In, true)]
    ensures Exec(Init(3), acts) == Some(s) && !s.Registered(Channel(5, In))
    ensures Enabled(s, DrainReturn(0, 1)) && CallsHandler(s, DrainReturn(0, 1), Channel(5, In))
  {
    var s0, a, b := Init(3), Register(5, In, 1, 100, true, 0), Unregister(5, In, true);
    ExecOne(s0, a);
    var t := DoRegister(s0, 5, In, 1, 100, true, 0);
    assert t.Registered(Channel(5, In));
    ExecSnoc(s0, [a], t, b);
    acts, s := [a] + [b], DoUnregister(t, 5, In, true);
  }

  lemma NextIsUnregister(s: State, c: Channel, ok: bool)
    requires Enabled(s, Unregister(c.fd, c.dir, ok))
    ensures !Next(s, Unregister(c.fd, c.dir, ok)).Registered(c)
  {
    ErasesChannel(s, c, ok);
  }

  lemma OnlyAdvanceCalls(s: State, a: Action)
    requires Enabled(s, a) && !s.ctl.Calling? && Next(s, a).ctl.Calling?
    ensures a.Advance? && Next(s, a) == DoAdvance(s)
  {
  }

  lemma RegisterKeepsAgree(s: State, fd: Fd, d: Dir, h: Handler, addr: Addr, id: nat)
    requires RegistryInv(s) && Agree(s) && Enabled(s, Register(fd, d, h, addr, true, id))
    ensures Agree(DoRegister(s, fd, d, h, addr, true, id))
  {
  }

  lemma UnregisterKeepsAgree(s: State, fd: Fd, d: Dir)
    requires RegistryInv(s) && Agree(s) && Enabled(s, Unregister(fd, d, true))
    ensures Agree(DoUnregister(s, fd, d, true))
  {
  }

  /** No other step changes the registry or the interest set. */
  lemma QuietStep(s: State, a: Action)
    requires Enabled(s, a) && !a.Register? && !a.Unregister?
    ensures Next(s, a).infos == s.infos && Next(s, a).interest == s.interest && Next(s, a).stop == s.stop
  {
    hide DoConsume, DoSeeEmpty, DoAdvance;
    match a
    case Arrive(_, _) =>
    case Consume(w, n) => ConsumeQuiet(s, w, n);
    case SeeEmpty(w) => SeeEmptyQuiet(s, w);
    case DrainReturn(_, _) =>
    case Wait(_) =>
    case Advance => AdvanceQuiet(s);
    case Return(_) =>
    case _ =>
  }

  lemma ConsumeQuiet(s: State, w: Who, n: nat)
    requires Enabled(s, Consume(w, n))
    ensures var t := DoConsume(s, w, n); t.infos == s.infos && t.interest == s.interest && t.stop == s.stop
  {
  }

  lemma SeeEmptyQuiet(s: State, w: Who)
    requires Enabled(s, SeeEmpty(w))
    ensures var t := DoSeeEmpty(s, w); t.infos == s.infos && t.interest == s.interest && t.stop == s.stop
  {
  }

  lemma AcceptedStepKeepsAgree(s: State, a: Action)
    requires Inv(s) && Agree(s) && Enabled(s, a) && Accepted(a)
    ensures Agree(Next(s, a))
  {
    match a
    case Register(fd, d, h, addr, _, id) => RegisterKeepsAgree(s, fd, d, h, addr, id);
    case Unregister(fd, d, _) => UnregisterKeepsAgree(s, fd, d);
    case _ => QuietStep(s, a);
  }

  /** Registry and kernel agree after every run in which the kernel refuses nothing: hence each further change of
      the interest set is legal, adding only absent descriptors and modifying or deleting only present ones. */
  lemma {:induction false} RegistryAgrees(stop: Fd, acts: seq<Action>, s: State)
    requires Exec(Init(stop), acts) == Some(s) && AllAccepted(acts)
    ensures s.stop == stop && Agree(s) && s.interest[stop] == Interest({In}, None)
    ensures forall fd :: fd != stop ==> (fd in s.infos <==> fd in s.interest)
    ensures forall fd, d :: fd in s.infos ==> (d in s.interest[fd].mask <==> s.infos[fd].Get(d).Some?)
    ensures forall fd :: fd in s.infos ==> s.infos[fd].inEvent.Some? || s.infos[fd].outEvent.Some?
    decreases acts
  {
    StopStays(Init(stop), acts);
    NoRefusalIsHarmless(Init(stop), acts);
    RunKeepsInv(Init(stop), acts);
    if acts != [] {
      var before := acts[..|acts| - 1];
      RegistryAgrees(stop, before, Exec(Init(stop), before).value);
      NoRefusalIsHarmless(Init(stop), before);
      RunKeepsInv(Init(stop), before);
      AcceptedStepKeepsAgree(Exec(Init(stop), before).value, acts[|acts| - 1]);
    }
  }

  lemma StepKeepsStop(s: State, a: Action)
    requires Enabled(s, a)
    ensures Next(s, a).stop == s.stop
  {
    if !a.Register? && !a.Unregister? {
      QuietStep(s, a);
    }
  }

  lemma {:induction false} StopStays(s: State, acts: seq<Action>)
    requires Exec(s, acts).Some?
    ensures Exec(s, acts).value.stop == s.stop
  {
    if acts != [] {
      StopStays(s, acts[..|acts| - 1]);
      StepKeepsStop(Exec(s, acts[..|acts| - 1]).value, acts[|acts| - 1]);
    }
  }
}
