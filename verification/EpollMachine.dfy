/**
 The Linux event loop as a step machine (lib/sys/linux/eventloop.cpp).

 A state holds the registry of handlers, the kernel side of epoll, the batch returned by the last wait, the
 position of the dispatch loop and the initial drains that are still running. An action is one atomic step of
 the loop, of a callback, of another thread or of the kernel. A run is a sequence of actions, so a statement
 about all runs covers every interleaving and everything a callback may do in the middle of a batch.
*/
module EpollMachine {
  import opened Options

  datatype Dir = In | Out {
    function Other(): Dir { if In? then Out else In }
  }

  type Fd = int
  type Addr = nat
  type Handler = nat

  const MAX_EVENTS: nat := 16

  /** One direction of one file descriptor. */
  datatype Channel = Channel(fd: Fd, dir: Dir)

  /** A registry entry. `addr` is the address of the map node: unique among live entries, reusable afterwards. */
  datatype Entry = Entry(addr: Addr, inEvent: Option<Handler>, outEvent: Option<Handler>) {
    function Get(d: Dir): Option<Handler> { if d.In? then inEvent else outEvent }

    function Put(d: Dir, h: Option<Handler>): Entry {
      if d.In? then this.(inEvent := h) else this.(outEvent := h)
    }

    function Mask(): (m: set<Dir>)
      ensures forall d :: d in m <==> Get(d).Some?
    {
      (if inEvent.Some? then {In} else {}) + (if outEvent.Some? then {Out} else {})
    }
  }

  /** What epoll stores for a descriptor: the direction mask and the user pointer (None for the stop descriptor). */
  datatype Interest = Interest(mask: set<Dir>, ptr: Option<Addr>)

  /** A record of the batch: the user pointer and the direction bits not yet served. */
  datatype Record = Record(ptr: Option<Addr>, bits: set<Dir>)

  /** An initial drain begun by addEvent or addOutEvent, with the handler it was given. `seen`: this invocation found
      its channel empty. */
  datatype Drain = Drain(chan: Channel, handler: Handler, seen: bool)

  /** Progress of one pass over the batch. Position 2n is the IN test of record n, position 2n+1 its OUT test.
      `left` counts positive results, `served` lists the positions called in this pass, `round` earlier passes. */
  datatype Pass = Pass(pos: nat, left: nat, served: seq<nat>, round: nat)

  datatype Control =
    | Outside                                               // execute is not running
    | Blocking                                              // about to wait
    | At(pass: Pass)                                        // about to examine a position
    | Calling(pass: Pass, chan: Channel, handler: Handler, seen: bool, took: nat) // inside a handler
    | Wild                                                  // called through a dead entry or an empty handler

  datatype State = State(
    stop: Fd,
    infos: map<Fd, Entry>,
    interest: map<Fd, Interest>,
    edges: set<Channel>,
    work: map<Channel, nat>,
    batch: seq<Record>,
    ctl: Control,
    drains: map<nat, Drain>)
  {
    /** Units a handler could still consume: unread input, or free room for output. */
    function Work(c: Channel): nat { if c in work then work[c] else 0 }

    predicate Registered(c: Channel) { c.fd in infos && infos[c.fd].Get(c.dir).Some? }

    predicate Live(p: Addr, d: Dir) {
      exists fd :: fd in infos && infos[fd].addr == p && infos[fd].Get(d).Some?
    }
  }

  function DirAt(pos: nat): Dir { if pos % 2 == 0 then In else Out }

  datatype Who = Loop | Drainer(id: nat)

  datatype Action =
    | Arrive(chan: Channel, amount: nat)       // data or room becomes available
    | Spurious(chan: Channel)                  // the kernel reports an edge again
    | Consume(who: Who, amount: nat)           // a running handler consumes
    | SeeEmpty(who: Who)                       // a running handler finds its channel empty
    | Register(fd: Fd, dir: Dir, handler: Handler, addr: Addr, ok: bool, id: nat)
    | Unregister(fd: Fd, dir: Dir, ok: bool)
    | DrainReturn(id: nat, result: int)        // a handler called by an initial drain returns
    | Start                                    // execute is called
    | Wait(picked: seq<Fd>)                    // epoll_wait delivers; [] is an interruption by a signal
    | WaitFails                                // epoll_wait fails otherwise: execute returns -1
    | Advance                                  // the dispatch loop moves on
    | Return(result: int)                      // a dispatched handler returns

  function Init(stop: Fd): State {
    State(stop, map[], map[stop := Interest({In}, None)], {}, map[], [], Outside, map[])
  }

  ghost function ChannelOf(s: State, w: Who): Option<Channel> {
    match w
    case Loop => if s.ctl.Calling? then Some(s.ctl.chan) else None
    case Drainer(id) => if id in s.drains then Some(s.drains[id].chan) else None
  }

  ghost predicate Distinct(picked: seq<Fd>) {
    forall i, j :: 0 <= i < j < |picked| ==> picked[i] != picked[j]
  }

  ghost predicate Pickable(s: State, fd: Fd) {
    fd in s.interest && (Channel(fd, In) in s.edges || Channel(fd, Out) in s.edges)
  }

  /** No live entry is at this address. */
  predicate FreeAddress(infos: map<Fd, Entry>, addr: Addr) {
    forall g :: g in infos ==> infos[g].addr != addr
  }

  ghost predicate Enabled(s: State, a: Action) {
    match a
    case Arrive(c, n) => n > 0
    case Spurious(c) => c.fd in s.interest && c.dir in s.interest[c.fd].mask
    case Consume(w, n) => ChannelOf(s, w).Some? && n <= s.Work(ChannelOf(s, w).value)
    case SeeEmpty(w) => ChannelOf(s, w).Some? && s.Work(ChannelOf(s, w).value) == 0
    case Register(fd, d, h, addr, ok, id) =>
      fd != -1 && fd != s.stop && id !in s.drains && FreeAddress(s.infos, addr)
    case Unregister(fd, d, ok) => s.Registered(Channel(fd, d))
    case DrainReturn(id, r) => id in s.drains
    case Start => s.ctl.Outside?
    case Wait(picked) =>
      s.ctl.Blocking? && |picked| <= MAX_EVENTS && Distinct(picked) &&
      (forall i :: 0 <= i < |picked| ==> Pickable(s, picked[i]))
    case WaitFails => s.ctl.Blocking?
    case Advance => s.ctl.At? && s.ctl.pass.pos <= 2 * |s.batch|
    case Return(r) => s.ctl.Calling? && s.ctl.pass.pos < 2 * |s.batch|
  }

  function DoArrive(s: State, c: Channel, n: nat): State {
    s.(work := s.work[c := s.Work(c) + n],
       edges := if c.fd in s.interest && c.dir in s.interest[c.fd].mask then s.edges + {c} else s.edges)
  }

  ghost function DoConsume(s: State, w: Who, n: nat): State
    requires Enabled(s, Consume(w, n))
  {
    var c := ChannelOf(s, w).value;
    var t := s.(work := s.work[c := s.Work(c) - n]);
    if w.Loop? then t.(ctl := s.ctl.(took := s.ctl.took + n)) else t
  }

  ghost function DoSeeEmpty(s: State, w: Who): State
    requires Enabled(s, SeeEmpty(w))
  {
    match w
    case Loop => s.(ctl := s.ctl.(seen := true))
    case Drainer(id) => s.(drains := s.drains[id := s.drains[id].(seen := true)])
  }

  /** The edges that stay queued when a descriptor's mask is changed. */
  function Retain(edges: set<Channel>, fd: Fd, mask: set<Dir>): set<Channel> {
    set c | c in edges && (c.fd != fd || c.dir in mask)
  }

  /** addEvent and addOutEvent up to the first call of the handler. Adding needs the descriptor to be absent from
      the kernel, modifying needs it present; `ok` is false when the kernel refuses for another reason. */
  function DoRegister(s: State, fd: Fd, d: Dir, h: Handler, addr: Addr, ok: bool, id: nat): State {
    var isNew := fd !in s.infos;
    var e := (if isNew then Entry(addr, None, None) else s.infos[fd]).Put(d, Some(h));
    var t := s.(infos := s.infos[fd := e]);
    if ok && (isNew <==> fd !in s.interest) then
      t.(interest := s.interest[fd := Interest(e.Mask(), Some(e.addr))],
         edges := if isNew then s.edges else Retain(s.edges, fd, e.Mask()),
         drains := s.drains[id := Drain(Channel(fd, d), h, false)])
    else t
  }

  /** Turns bits off in the first record with the given pointer, as the loops with an early break do. */
  function ClearBits(batch: seq<Record>, addr: Addr, removed: set<Dir>): (r: seq<Record>)
    ensures |r| == |batch|
  {
    if batch == [] then []
    else if batch[0].ptr == Some(addr) then [Record(batch[0].ptr, batch[0].bits - removed)] + batch[1..]
    else [batch[0]] + ClearBits(batch[1..], addr, removed)
  }

  /** eraseEvent and eraseOutEvent. */
  function DoUnregister(s: State, fd: Fd, d: Dir, ok: bool): State
    requires s.Registered(Channel(fd, d))
  {
    var e := s.infos[fd];
    var reached := ok && fd in s.interest;
    if e.Get(d.Other()).Some? then
      s.(infos := s.infos[fd := e.Put(d, None)],
         interest := if reached then s.interest[fd := Interest({d.Other()}, Some(e.addr))] else s.interest,
         edges := if reached then Retain(s.edges, fd, {d.Other()}) else s.edges,
         batch := ClearBits(s.batch, e.addr, {d}))
    else
      s.(infos := s.infos - {fd},
         interest := if reached then s.interest - {fd} else s.interest,
         edges := if reached then Retain(s.edges, fd, {}) else s.edges,
         batch := ClearBits(s.batch, e.addr, {In, Out}))
  }

  function DoDrainReturn(s: State, id: nat, r: int): State
    requires id in s.drains
  {
    if r > 0 then s.(drains := s.drains[id := s.drains[id].(seen := false)]) else s.(drains := s.drains - {id})
  }

  function RecordFor(s: State, fd: Fd): Record
    requires fd in s.interest
  {
    Record(s.interest[fd].ptr, set d: Dir | Channel(fd, d) in s.edges)
  }

  ghost function DoWait(s: State, picked: seq<Fd>): State
    requires Enabled(s, Wait(picked))
  {
    s.(batch := seq(|picked|, i requires 0 <= i < |picked| => RecordFor(s, picked[i])),
       edges := (set c | c in s.edges && c.fd !in picked),
       ctl := At(Pass(0, 0, [], 0)))
  }

  /** The descriptor whose live entry has address p and a handler for d. */
  ghost function OwnerOf(s: State, p: Addr, d: Dir): (fd: Fd)
    requires s.Live(p, d)
    ensures fd in s.infos && s.infos[fd].addr == p && s.infos[fd].Get(d).Some?
  {
    var fd :| fd in s.infos && s.infos[fd].addr == p && s.infos[fd].Get(d).Some?;
    fd
  }

  /** One move of the dispatch loop: end of a pass, stop record, call of a handler, or a bit that is off. */
  ghost function DoAdvance(s: State): State
    requires Enabled(s, Advance)
  {
    var p := s.ctl.pass;
    if p.pos == 2 * |s.batch| then
      if p.left > 0 then s.(ctl := At(Pass(0, 0, [], p.round + 1))) else s.(ctl := Blocking)
    else
      var r := s.batch[p.pos / 2];
      var d := DirAt(p.pos);
      if r.ptr.None? then s.(ctl := Outside)
      else if d !in r.bits then s.(ctl := At(p.(pos := p.pos + 1)))
      else if s.Live(r.ptr.value, d) then
        var fd := OwnerOf(s, r.ptr.value, d);
        s.(ctl := Calling(p.(served := p.served + [p.pos]), Channel(fd, d), s.infos[fd].Get(d).value, false, 0))
      else s.(ctl := Wild)
  }

  /** The loop moves without touching anything but its position. */
  lemma AdvanceQuiet(s: State)
    requires Enabled(s, Advance)
    ensures DoAdvance(s) == s.(ctl := DoAdvance(s).ctl)
  {
  }

  /** A dispatched handler returns: a positive result keeps the bit, any other turns it off. */
  ghost function DoReturn(s: State, r: int): State
    requires Enabled(s, Return(r))
  {
    var p := s.ctl.pass;
    var rec := s.batch[p.pos / 2];
    if r > 0 then s.(ctl := At(p.(pos := p.pos + 1, left := p.left + 1)))
    else s.(batch := s.batch[p.pos / 2 := rec.(bits := rec.bits - {DirAt(p.pos)})], ctl := At(p.(pos := p.pos + 1)))
  }

  ghost function Next(s: State, a: Action): State
    requires Enabled(s, a)
  {
    match a
    case Arrive(c, n) => DoArrive(s, c, n)
    case Spurious(c) => s.(edges := s.edges + {c})
    case Consume(w, n) => DoConsume(s, w, n)
    case SeeEmpty(w) => DoSeeEmpty(s, w)
    case Register(fd, d, h, addr, ok, id) => DoRegister(s, fd, d, h, addr, ok, id)
    case Unregister(fd, d, ok) => DoUnregister(s, fd, d, ok)
    case DrainReturn(id, r) => DoDrainReturn(s, id, r)
    case Start => s.(ctl := Blocking)
    case Wait(picked) => DoWait(s, picked)
    case WaitFails => s.(batch := [], ctl := Outside)
    case Advance => DoAdvance(s)
    case Return(r) => DoReturn(s, r)
  }

  /** The state after a run, or None when some action is not possible where it stands. */
  ghost function Exec(s: State, acts: seq<Action>): Option<State> {
    if acts == [] then Some(s)
    else
      var before := Exec(s, acts[..|acts| - 1]);
      var a := acts[|acts| - 1];
      if before.Some? && Enabled(before.value, a) then Some(Next(before.value, a)) else None
  }

  lemma ExecSnoc(s: State, acts: seq<Action>, t: State, a: Action)
    requires Exec(s, acts) == Some(t) && Enabled(t, a)
    ensures Exec(s, acts + [a]) == Some(Next(t, a))
  {
    assert (acts + [a])[..|acts|] == acts;
  }

  lemma ExecNothing(s: State)
    ensures Exec(s, []) == Some(s)
  {
  }

  lemma ExecOne(s: State, a: Action)
    requires Enabled(s, a)
    ensures Exec(s, [a]) == Some(Next(s, a))
  {
    ExecNothing(s);
    assert [] + [a] == [a];
    ExecSnoc(s, [], s, a);
  }

  lemma {:induction false} ExecAppend(s: State, acts: seq<Action>, t: State, more: seq<Action>)
    requires Exec(s, acts) == Some(t)
    ensures Exec(s, acts + more) == Exec(t, more)
    decreases |more|
  {
    hide Enabled, Next;
    if more == [] {
      assert acts + more == acts;
    } else {
      ExecAppend(s, acts, t, more[..|more| - 1]);
      assert (acts + more)[..|acts + more| - 1] == acts + more[..|more| - 1];
    }
  }

  lemma ExecCons(s: State, a: Action, more: seq<Action>)
    requires Enabled(s, a)
    ensures Exec(s, [a] + more) == Exec(Next(s, a), more)
  {
    hide Enabled, Next;
    ExecOne(s, a);
    ExecAppend(s, [a], Next(s, a), more);
  }
}
