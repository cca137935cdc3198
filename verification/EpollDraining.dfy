/**
 Fair draining of a batch: each pass calls each pending direction at most once and serves every bit that is set
 when it is reached, the loop goes back to waiting only when all bits are off, and the number of passes is bounded
 by the work that was there.
*/
module EpollDraining {
  import opened Options
  import opened EpollMachine

  ghost predicate InBatch(s: State) { s.ctl.At? || s.ctl.Calling? }

  ghost predicate BitSet(s: State, pos: nat) {
    pos < 2 * |s.batch| && s.batch[pos / 2].ptr.Some? && DirAt(pos) in s.batch[pos / 2].bits
  }

  ghost predicate Increasing(q: seq<nat>) {
    forall i, j :: 0 <= i < j < |q| ==> q[i] < q[j]
  }

  /** A position already passed whose bit is still set was served in this pass and asked for another one. */
  ghost predicate PassInv(s: State) {
    InBatch(s) ==>
      var p := s.ctl.pass;
      && (forall q: nat :: q < p.pos && BitSet(s, q) ==> q in p.served && p.left > 0)
      && Increasing(p.served)
      && (forall i :: 0 <= i < |p.served| ==> p.served[i] < p.pos || (s.ctl.Calling? && p.served[i] == p.pos))
      && (s.ctl.Calling? ==> p.served != [] && p.served[|p.served| - 1] == p.pos)
      && p.left <= if s.ctl.Calling? then |p.served| - 1 else |p.served|
  }

  ghost predicate BatchClear(s: State) {
    forall q: nat :: !BitSet(s, q)
  }

  lemma {:induction false} ClearBitsShrinks(batch: seq<Record>, addr: Addr, removed: set<Dir>, n: nat)
    requires n < |batch|
    ensures ClearBits(batch, addr, removed)[n].ptr == batch[n].ptr
    ensures ClearBits(batch, addr, removed)[n].bits <= batch[n].bits
  {
    if batch[0].ptr != Some(addr) && n > 0 {
      ClearBitsShrinks(batch[1..], addr, removed, n - 1);
    }
  }

  /** Only a wait sets bits; nothing else does, whatever callbacks register or erase. */
  lemma BitsOnlyGoOff(s: State, a: Action, q: nat)
    requires Enabled(s, a) && !a.Wait? && BitSet(Next(s, a), q)
    ensures BitSet(s, q)
  {
    if a.Unregister? {
      var e := s.infos[a.fd];
      ClearBitsShrinks(s.batch, e.addr, if e.Get(a.dir.Other()).Some? then {a.dir} else {In, Out}, q / 2);
    }
  }

  /** The moves of the loop, as far as its position goes. */
  lemma AdvanceMoves(s: State)
    requires Enabled(s, Advance)
    ensures var p, c := s.ctl.pass, DoAdvance(s).ctl;
            || c.Blocking? || c.Outside? || c.Wild?
            || (c.At? && c.pass == Pass(0, 0, [], p.round + 1))
            || (c.At? && c.pass == p.(pos := p.pos + 1) && !BitSet(s, p.pos))
            || (c.Calling? && c.pass == p.(served := p.served + [p.pos]))
  {
  }

  lemma SameBits(s: State)
    requires Enabled(s, Advance)
    ensures forall q: nat :: BitSet(DoAdvance(s), q) <==> BitSet(s, q)
  {
    AdvanceQuiet(s);
    assert DoAdvance(s).batch == s.batch;
  }

  lemma AdvanceKeepsPass(s: State)
    requires PassInv(s) && Enabled(s, Advance)
    ensures PassInv(Next(s, Advance))
  {
    assert Next(s, Advance) == DoAdvance(s);
    hide Next, DoAdvance, BitSet;
    AdvanceMoves(s);
    SameBits(s);
  }

  lemma ReturnKeepsPass(s: State, r: int)
    requires PassInv(s) && Enabled(s, Return(r))
    ensures PassInv(Next(s, Return(r)))
  {
    var t := Next(s, Return(r));
    forall q: nat | BitSet(t, q) ensures BitSet(s, q) { BitsOnlyGoOff(s, Return(r), q); }
    if r <= 0 {
      assert !BitSet(t, s.ctl.pass.pos);
    }
  }

  lemma OthersKeepPass(s: State, a: Action)
    requires PassInv(s) && Enabled(s, a) && !a.Advance? && !a.Return?
    ensures PassInv(Next(s, a))
  {
    var t := Next(s, a);
    if InBatch(t) && !a.Wait? {
      assert t.ctl.pass == s.ctl.pass && (t.ctl.Calling? <==> s.ctl.Calling?);
      forall q: nat | BitSet(t, q) ensures BitSet(s, q) { BitsOnlyGoOff(s, a, q); }
    }
  }

  lemma StepKeepsPass(s: State, a: Action)
    requires PassInv(s) && Enabled(s, a)
    ensures PassInv(Next(s, a))
  {
    match a
    case Advance => AdvanceKeepsPass(s);
    case Return(r) => ReturnKeepsPass(s, r);
    case _ => OthersKeepPass(s, a);
  }

  lemma {:induction false} RunKeepsPass(s: State, acts: seq<Action>)
    requires PassInv(s) && Exec(s, acts).Some?
    ensures PassInv(Exec(s, acts).value)
  {
    if acts != [] {
      RunKeepsPass(s, acts[..|acts| - 1]);
      StepKeepsPass(Exec(s, acts[..|acts| - 1]).value, acts[|acts| - 1]);
    }
  }

  /** In every run at all: within a pass no position is called twice, each is called in batch order, and any
      position already passed that is still pending was served and keeps the loop from waiting. */
  lemma FairPass(stop: Fd, acts: seq<Action>, s: State)
    requires Exec(Init(stop), acts) == Some(s) && InBatch(s)
    ensures Increasing(s.ctl.pass.served)
    ensures forall q: nat :: q < s.ctl.pass.pos && BitSet(s, q) ==> q in s.ctl.pass.served && s.ctl.pass.left > 0
  {
    RunKeepsPass(Init(stop), acts);
  }

  /** The loop turns from dispatching back to waiting only when every bit of the batch is off. */
  lemma WaitsOnlyWhenDrained(stop: Fd, acts: seq<Action>, s: State)
    requires Exec(Init(stop), acts) == Some(s) && Enabled(s, Advance) && Next(s, Advance).ctl.Blocking?
    ensures BatchClear(Next(s, Advance))
  {
    RunKeepsPass(Init(stop), acts);
    SameBits(s);
  }

  // ---- Termination measure -------------------------------------------------------------------------------

  /** The sum of all values, as of the work over all channels. */
  ghost function Total<K(!new)>(work: map<K, nat>): nat
    decreases |work|
  {
    if work == map[] then 0
    else
      var c :| c in work;
      work[c] + Total(work - {c})
  }

  lemma {:induction false} TotalTake<K(!new)>(work: map<K, nat>, c: K)
    requires c in work
    ensures Total(work) == work[c] + Total(work - {c})
    decreases |work|
  {
    var d :| d in work && Total(work) == work[d] + Total(work - {d});
    if d != c {
      TotalTake(work - {d}, c);
      TotalTake(work - {c}, d);
      assert work - {d} - {c} == work - {c} - {d};
    }
  }

  lemma TotalSet<K(!new)>(work: map<K, nat>, c: K, v: nat)
    ensures Total(work[c := v]) == Total(work) - (if c in work then work[c] else 0) + v
  {
    TotalTake(work[c := v], c);
    if c in work {
      TotalTake(work, c);
      assert work[c := v] - {c} == work - {c};
    } else {
      assert work[c := v] - {c} == work;
    }
  }

  /** Nothing arrives, and a handler that returns a positive result has consumed at least one unit. */
  ghost predicate Productive(s: State, a: Action) {
    !a.Arrive? && (a.Return? && a.result > 0 && s.ctl.Calling? ==> s.ctl.took >= 1)
  }

  ghost predicate ProductiveRun(s: State, acts: seq<Action>) {
    forall i {:trigger acts[i]} :: 0 <= i < |acts| && Exec(s, acts[..i]).Some? ==>
      InBatch(Exec(s, acts[..i]).value) && Productive(Exec(s, acts[..i]).value, acts[i])
  }

  ghost function Potential(s: State): nat
    requires InBatch(s)
  {
    Total(s.work) + s.ctl.pass.left + (if s.ctl.Calling? then s.ctl.took else 0) + s.ctl.pass.round
  }

  lemma ConsumePotential(s: State, w: Who, n: nat)
    requires InBatch(s) && Enabled(s, Consume(w, n))
    ensures InBatch(DoConsume(s, w, n)) && Potential(DoConsume(s, w, n)) <= Potential(s)
  {
    var c := ChannelOf(s, w).value;
    TotalSet(s.work, c, s.Work(c) - n);
  }

  lemma StepPotential(s: State, a: Action)
    requires InBatch(s) && Enabled(s, a) && Productive(s, a) && InBatch(Next(s, a))
    ensures Potential(Next(s, a)) <= Potential(s)
  {
    match a
    case Consume(w, n) => ConsumePotential(s, w, n);
    case Advance => AdvancePotential(s);
    case Return(r) => ReturnPotential(s, r);
    case _ =>
  }

  lemma AdvancePotential(s: State)
    requires InBatch(s) && Enabled(s, Advance) && InBatch(DoAdvance(s))
    ensures Potential(DoAdvance(s)) <= Potential(s)
  {
    AdvanceQuiet(s);
    AdvanceMoves(s);
  }

  lemma ReturnPotential(s: State, r: int)
    requires InBatch(s) && Enabled(s, Return(r)) && Productive(s, Return(r))
    ensures Potential(DoReturn(s, r)) <= Potential(s)
  {
  }

  lemma {:induction false} RunPotential(s: State, acts: seq<Action>)
    requires InBatch(s) && ProductiveRun(s, acts)
    requires Exec(s, acts).Some? && InBatch(Exec(s, acts).value)
    ensures Potential(Exec(s, acts).value) <= Potential(s)
  {
    if acts != [] {
      var before := acts[..|acts| - 1];
      forall i | 0 <= i < |before| && Exec(s, before[..i]).Some?
        ensures InBatch(Exec(s, before[..i]).value) && Productive(Exec(s, before[..i]).value, before[i])
      {
        assert before[..i] == acts[..i] && before[i] == acts[i];
      }
      assert InBatch(Exec(s, before).value) && Productive(Exec(s, before).value, acts[|acts| - 1]);
      RunPotential(s, before);
      StepPotential(Exec(s, before).value, acts[|acts| - 1]);
    }
  }

  /** From the start of any pass on: as many further passes as are made, and the positive results of the running one,
      are paid for by work consumed, whatever callbacks register, erase and drain meanwhile. So a batch that starts with
      W units of work is left after at most W further passes. */
  lemma PassesBounded(s: State, k: nat, acts: seq<Action>, t: State)
    requires s.ctl == At(Pass(0, 0, [], k)) && ProductiveRun(s, acts)
    requires Exec(s, acts) == Some(t) && InBatch(t)
    ensures t.ctl.pass.round - k + t.ctl.pass.left + Total(t.work) <= Total(s.work)
  {
    RunPotential(s, acts);
  }

  /** With every pass but the last the total of unread work strictly decreases. */
  lemma PassShrinksWork(s: State, k: nat, acts: seq<Action>, t: State)
    requires s.ctl == At(Pass(0, 0, [], k)) && ProductiveRun(s, acts)
    requires Exec(s, acts) == Some(t) && t.ctl == At(Pass(0, 0, [], k + 1))
    ensures Total(t.work) < Total(s.work)
  {
    RunPotential(s, acts);
  }
}
