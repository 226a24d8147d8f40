/** Pipes (kernel/src/fs/vfs.rs): sixteen slots with a 4096-byte ring each, descriptors from one running counter. A
    blocked call gives up the processor; what the other tasks then do is any sequence of steps. */
module Pipes {
  import opened Wrappers

  const SLOTS: nat := 16
  const RING: nat := 4096
  const FIRST_FD: nat := 32
  const RETRIES: nat := 200

  datatype Pipe = Pipe(ring: seq<bv8>, head: nat, tail: nat, readOpen: bool, writeOpen: bool, used: bool,
                       readers: nat, writers: nat, readFd: nat, writeFd: nat)

  datatype State = State(pipes: seq<Pipe>, next: nat)

  predicate PipeOk(p: Pipe) { |p.ring| == RING && p.head < RING && p.tail < RING }

  ghost predicate Inv(s: State) { |s.pipes| == SLOTS && forall i :: 0 <= i < SLOTS ==> PipeOk(s.pipes[i]) }

  function Count(p: Pipe): (n: nat)
    requires PipeOk(p)
    ensures n < RING
  {
    (p.head + RING - p.tail) % RING
  }

  // The bytes in the ring, oldest first.
  function Contents(p: Pipe): (c: seq<bv8>)
    requires PipeOk(p)
    ensures |c| == Count(p)
  {
    seq(Count(p), k requires 0 <= k < Count(p) => p.ring[(p.tail + k) % RING])
  }

  predicate Empty(p: Pipe) { p.head == p.tail }
  predicate Full(p: Pipe) { (p.head + 1) % RING == p.tail }

  function Pushed(p: Pipe, b: bv8): (p': Pipe)
    requires PipeOk(p)
    ensures PipeOk(p')
  {
    p.(ring := p.ring[p.head := b], head := (p.head + 1) % RING)
  }

  function Popped(p: Pipe): (p': Pipe)
    requires PipeOk(p)
    ensures PipeOk(p')
  {
    p.(tail := (p.tail + 1) % RING)
  }

  // The ring is a queue of at most 4095 bytes.
  lemma PushAppends(p: Pipe, b: bv8)
    requires PipeOk(p) && !Full(p)
    ensures Contents(Pushed(p, b)) == Contents(p) + [b]
  {
    var p' := Pushed(p, b);
    assert Count(p') == Count(p) + 1;
    forall k | 0 <= k < Count(p') ensures Contents(p')[k] == (Contents(p) + [b])[k] {
      assert k < Count(p) ==> (p.tail + k) % RING != p.head;
    }
  }

  lemma PopRemoves(p: Pipe)
    requires PipeOk(p) && !Empty(p)
    ensures Contents(p) == [p.ring[p.tail]] + Contents(Popped(p))
  {
    var p' := Popped(p);
    assert Count(p) == Count(p') + 1;
    forall k | 0 <= k < Count(p) ensures Contents(p)[k] == ([p.ring[p.tail]] + Contents(p'))[k] {
      assert k > 0 ==> (p'.tail + (k - 1)) % RING == (p.tail + k) % RING;
    }
  }

  lemma EmptyFull(p: Pipe)
    requires PipeOk(p)
    ensures Empty(p) <==> Contents(p) == []
    ensures Full(p) <==> |Contents(p)| == RING - 1
  {
  }

  // ---------------------------------------------------------------- steps of any task

  datatype Step = Push(slot: nat, byte: bv8) | Pop(slot: nat) | Close(fd: nat) | Create

  // The first unused slot, SLOTS if there is none.
  function Unused(ps: seq<Pipe>): (i: nat)
    ensures i <= |ps| && (forall j :: 0 <= j < i ==> ps[j].used) && (i < |ps| ==> !ps[i].used)
  {
    if ps == [] || !ps[0].used then 0 else 1 + Unused(ps[1..])
  }

  // pipe_from_fd
  function Lookup(ps: seq<Pipe>, fd: nat, read: bool): (r: Option<nat>)
    ensures r.Some? ==>
      r.value < |ps| && Holds(ps[r.value], fd, read) && forall j :: 0 <= j < r.value ==> !Holds(ps[j], fd, read)
    ensures r.None? ==> forall j :: 0 <= j < |ps| ==> !Holds(ps[j], fd, read)
  {
    if ps == [] then None
    else if Holds(ps[0], fd, read) then Some(0)
    else match Lookup(ps[1..], fd, read) case None => None case Some(i) => Some(i + 1)
  }

  predicate Holds(p: Pipe, fd: nat, read: bool) { p.used && if read then p.readFd == fd else p.writeFd == fd }

  function NewPipe(next: nat): Pipe { Pipe(seq(RING, _ => 0), 0, 0, true, true, true, 1, 1, next, next + 1) }

  // One pipe after krust_vfs_pipe_close found it.
  function Closed(p: Pipe, fd: nat): Pipe {
    var p1 := if p.readFd == fd then p.(readOpen := false, readers := if p.readers > 0 then p.readers - 1 else 0)
        else p;
    var p2 := if p1.writeFd == fd then p1.(writeOpen := false, writers := if p1.writers > 0 then p1.writers - 1 else 0)
        else p1;
    if p2.readers == 0 && p2.writers == 0 then p2.(used := false) else p2
  }

  // The first used slot with this descriptor at either end.
  function Named(ps: seq<Pipe>, fd: nat): (i: nat)
    ensures i <= |ps| && forall j :: 0 <= j < i ==> !Names(ps[j], fd)
    ensures i < |ps| ==> Names(ps[i], fd)
  {
    if ps == [] || Names(ps[0], fd) then 0 else 1 + Named(ps[1..], fd)
  }

  predicate Names(p: Pipe, fd: nat) { p.used && (p.readFd == fd || p.writeFd == fd) }

  function Apply(s: State, st: Step): (s': State)
    requires Inv(s)
    ensures Inv(s')
  {
    match st
    case Push(i, b) => if i < SLOTS && !Full(s.pipes[i]) then s.(pipes := s.pipes[i := Pushed(s.pipes[i], b)]) else s
    case Pop(i) => if i < SLOTS && !Empty(s.pipes[i]) then s.(pipes := s.pipes[i := Popped(s.pipes[i])]) else s
    case Close(fd) =>
      var i := Named(s.pipes, fd);
      if i < SLOTS then s.(pipes := s.pipes[i := Closed(s.pipes[i], fd)]) else s
    case Create =>
      var i := Unused(s.pipes);
      if i < SLOTS then State(s.pipes[i := NewPipe(s.next)], s.next + 2) else s
  }

  // ---------------------------------------------------------------- descriptors

  // Descriptors in use are different and were handed out by the counter.
  ghost predicate FdsOk(s: State) {
    && Inv(s)
    && (forall i :: 0 <= i < SLOTS && s.pipes[i].used ==> s.pipes[i].readFd < s.pipes[i].writeFd < s.next)
    && (forall i, j :: 0 <= i < SLOTS && 0 <= j < SLOTS && i != j && s.pipes[i].used && s.pipes[j].used ==>
          Names(s.pipes[i], s.pipes[j].readFd) == false && Names(s.pipes[i], s.pipes[j].writeFd) == false)
  }

  lemma ApplyFds(s: State, st: Step)
    requires FdsOk(s)
    ensures FdsOk(Apply(s, st)) && s.next <= Apply(s, st).next
  {
  }

  lemma LookupIs(s: State, fd: nat, read: bool, i: nat)
    requires FdsOk(s) && i < SLOTS && Holds(s.pipes[i], fd, read)
    ensures Lookup(s.pipes, fd, read) == Some(i)
  {
    forall j | 0 <= j < SLOTS && j != i ensures !Holds(s.pipes[j], fd, read) {
      assert Names(s.pipes[j], fd) == false;
    }
  }

  lemma HeldBefore(s: State, st: Step, fd: nat, read: bool, i: nat)
    requires Inv(s) && fd < s.next && i < SLOTS && Holds(Apply(s, st).pipes[i], fd, read)
    ensures Holds(s.pipes[i], fd, read)
    ensures Apply(s, st).pipes[i].readFd == s.pipes[i].readFd && Apply(s, st).pipes[i].writeFd == s.pipes[i].writeFd
  {
    hide Unused, Named;
  }

  /** What a descriptor reaches after a step it reached before the step, in the same slot and the same pipe. */
  lemma ApplyLookup(s: State, st: Step, fd: nat, read: bool, i: nat)
    requires FdsOk(s) && fd < s.next && Lookup(Apply(s, st).pipes, fd, read) == Some(i)
    ensures Lookup(s.pipes, fd, read) == Some(i)
    ensures Apply(s, st).pipes[i].readFd == s.pipes[i].readFd && Apply(s, st).pipes[i].writeFd == s.pipes[i].writeFd
  {
    hide Apply, Lookup;
    HeldBefore(s, st, fd, read, i);
    LookupIs(s, fd, read, i);
  }

  function Run(s: State, steps: seq<Step>): (s': State)
    requires Inv(s)
    ensures Inv(s')
    decreases |steps|
  {
    if steps == [] then s else Run(Apply(s, steps[0]), steps[1..])
  }

  /** Over any run a descriptor reaches the pipe it was made for or nothing: never a later pipe in the same slot.
      Once it reaches nothing it never reaches anything again. */
  lemma {:induction false} DescriptorsNeverMove(s: State, steps: seq<Step>, fd: nat, read: bool)
    requires FdsOk(s) && fd < s.next
    ensures FdsOk(Run(s, steps))
    ensures match Lookup(Run(s, steps).pipes, fd, read)
            case None => true
            case Some(i) => && Lookup(s.pipes, fd, read) == Some(i)
                            && Run(s, steps).pipes[i].readFd == s.pipes[i].readFd
                            && Run(s, steps).pipes[i].writeFd == s.pipes[i].writeFd
    decreases |steps|
  {
    hide Apply, Lookup;
    if steps == [] {
    } else {
      var s1 := Apply(s, steps[0]);
      ApplyFds(s, steps[0]);
      DescriptorsNeverMove(s1, steps[1..], fd, read);
      match Lookup(Run(s1, steps[1..]).pipes, fd, read)
      case None =>
      case Some(i) => ApplyLookup(s, steps[0], fd, read, i);
    }
  }

  // A slot is in use as long as an end is open, and its counters say which.
  predicate EndsOk(p: Pipe) {
    && p.used == (p.readOpen || p.writeOpen)
    && p.readers == (if p.readOpen then 1 else 0) && p.writers == (if p.writeOpen then 1 else 0)
  }

  ghost predicate AllEndsOk(s: State) { Inv(s) && forall i :: 0 <= i < SLOTS ==> EndsOk(s.pipes[i]) }

  lemma CloseEnds(p: Pipe, fd: nat)
    requires EndsOk(p) && p.used
    ensures EndsOk(Closed(p, fd))
    ensures var p' := Closed(p, fd);
            p'.readOpen == (p.readOpen && p.readFd != fd) && p'.writeOpen == (p.writeOpen && p.writeFd != fd)
  {
  }

  /** Over any run a slot is given back exactly when both ends of its pipe have been closed, however often each was. */
  lemma {:induction false} SlotsOutliveNoEnd(s: State, steps: seq<Step>)
    requires AllEndsOk(s)
    ensures AllEndsOk(Run(s, steps))
    decreases |steps|
  {
    hide Named, Unused;
    if steps == [] {
    } else {
      match steps[0] {
        case Close(fd) => if Named(s.pipes, fd) < SLOTS { CloseEnds(s.pipes[Named(s.pipes, fd)], fd); }
        case _ =>
      }
      SlotsOutliveNoEnd(Apply(s, steps[0]), steps[1..]);
    }
  }

  // ---------------------------------------------------------------- what went through a slot

  // The bytes put into and taken out of the pipe a slot holds now.
  datatype History = History(sent: seq<bv8>, got: seq<bv8>)

  function Recorded(s: State, h: History, slot: nat, st: Step): History
    requires Inv(s) && slot < SLOTS
  {
    match st
    case Push(i, b) => if i == slot && !Full(s.pipes[slot]) then h.(sent := h.sent + [b]) else h
    case Pop(i) =>
      if i == slot && !Empty(s.pipes[slot]) then h.(got := h.got + [s.pipes[slot].ring[s.pipes[slot].tail]]) else h
    case Close(_) => h
    case Create => if Unused(s.pipes) == slot then History([], []) else h
  }

  function RecordedRun(s: State, h: History, slot: nat, steps: seq<Step>): History
    requires Inv(s) && slot < SLOTS
    decreases |steps|
  {
    if steps == [] then h else RecordedRun(Apply(s, steps[0]), Recorded(s, h, slot, steps[0]), slot, steps[1..])
  }

  // What was read is a prefix of what was written; the rest is in the ring, in order.
  ghost predicate Fifo(p: Pipe, h: History)
    requires PipeOk(p)
  {
    h.got + Contents(p) == h.sent
  }

  lemma ApplyFifo(s: State, h: History, slot: nat, st: Step)
    requires Inv(s) && slot < SLOTS && Fifo(s.pipes[slot], h)
    ensures Fifo(Apply(s, st).pipes[slot], Recorded(s, h, slot, st))
  {
    hide Contents;
    var p := s.pipes[slot];
    match st
    case Push(i, b) => if i == slot && !Full(p) { PushAppends(p, b); }
    case Pop(i) => if i == slot && !Empty(p) { PopRemoves(p); }
    case Close(fd) => SameContents(p, Closed(p, fd));
    case Create => EmptyFull(NewPipe(s.next));
  }

  lemma SameContents(p: Pipe, p': Pipe)
    requires PipeOk(p) && p'.ring == p.ring && p'.head == p.head && p'.tail == p.tail
    ensures Contents(p') == Contents(p)
  {
  }

  /** Over any interleaving of transfers, closes and creations every pipe is a queue of at most 4095 bytes: the bytes
      read are a prefix of the bytes written, and what is left is what the ring holds. */
  lemma {:induction false} PipesAreQueues(s: State, h: History, slot: nat, steps: seq<Step>)
    requires Inv(s) && slot < SLOTS && Fifo(s.pipes[slot], h)
    ensures var h', p := RecordedRun(s, h, slot, steps), Run(s, steps).pipes[slot];
            && Fifo(p, h') && h'.got <= h'.sent && |h'.sent| - |h'.got| <= RING - 1
    decreases |steps|
  {
    if steps == [] {
    } else {
      ApplyFifo(s, h, slot, steps[0]);
      PipesAreQueues(Apply(s, steps[0]), Recorded(s, h, slot, steps[0]), slot, steps[1..]);
    }
  }

  // ---------------------------------------------------------------- one call among the steps of others

  // A step of the call itself, or of another task while the call waits.
  datatype Event = Event(mine: bool, step: Step)

  function Steps(t: seq<Event>): (r: seq<Step>)
    ensures |r| == |t| && forall k :: 0 <= k < |t| ==> r[k] == t[k].step
  {
    seq(|t|, k requires 0 <= k < |t| => t[k].step)
  }

  function Others(steps: seq<Step>): (r: seq<Event>)
    ensures |r| == |steps| && forall k :: 0 <= k < |r| ==> r[k] == Event(false, steps[k])
  {
    seq(|steps|, k requires 0 <= k < |steps| => Event(false, steps[k]))
  }

  // The byte a step of the call took out, and the byte it put in.
  function OwnPop(s: State, e: Event): seq<bv8>
    requires Inv(s)
  {
    if e.mine && e.step.Pop? && e.step.slot < SLOTS && !Empty(s.pipes[e.step.slot])
    then [s.pipes[e.step.slot].ring[s.pipes[e.step.slot].tail]] else []
  }

  function OwnPush(s: State, e: Event): seq<bv8>
    requires Inv(s)
  {
    if e.mine && e.step.Push? && e.step.slot < SLOTS && !Full(s.pipes[e.step.slot]) then [e.step.byte] else []
  }

  function Taken(s: State, t: seq<Event>): seq<bv8>
    requires Inv(s)
    decreases |t|
  {
    if t == [] then [] else OwnPop(s, t[0]) + Taken(Apply(s, t[0].step), t[1..])
  }

  function Put(s: State, t: seq<Event>): seq<bv8>
    requires Inv(s)
    decreases |t|
  {
    if t == [] then [] else OwnPush(s, t[0]) + Put(Apply(s, t[0].step), t[1..])
  }

  lemma {:induction false} RunPlus(s: State, a: seq<Step>, b: seq<Step>)
    requires Inv(s)
    ensures Run(s, a + b) == Run(Run(s, a), b)
    decreases |a|
  {
    hide Apply, Inv;
    if a == [] {
      assert a + b == b;
    } else {
      assert (a + b)[1..] == a[1..] + b;
      RunPlus(Apply(s, a[0]), a[1..], b);
    }
  }

  lemma {:induction false} MinePlus(s: State, a: seq<Event>, b: seq<Event>)
    requires Inv(s)
    ensures Taken(s, a + b) == Taken(s, a) + Taken(Run(s, Steps(a)), b)
    ensures Put(s, a + b) == Put(s, a) + Put(Run(s, Steps(a)), b)
    decreases |a|
  {
    hide Apply, OwnPop, OwnPush, Inv, Steps;
    if a == [] {
      assert a + b == b && Steps(a) == [];
    } else {
      assert (a + b)[1..] == a[1..] + b;
      assert Steps(a)[1..] == Steps(a[1..]);
      MinePlus(Apply(s, a[0].step), a[1..], b);
    }
  }

  lemma RunConcat(s: State, a: seq<Event>, b: seq<Event>)
    requires Inv(s)
    ensures Run(s, Steps(a + b)) == Run(Run(s, Steps(a)), Steps(b))
    ensures Taken(s, a + b) == Taken(s, a) + Taken(Run(s, Steps(a)), b)
    ensures Put(s, a + b) == Put(s, a) + Put(Run(s, Steps(a)), b)
  {
    hide Run, Taken, Put;
    assert Steps(a + b) == Steps(a) + Steps(b);
    RunPlus(s, Steps(a), Steps(b));
    MinePlus(s, a, b);
  }

  lemma {:induction false} NothingOfMine(s: State, t: seq<Event>)
    requires Inv(s) && forall e :: e in t ==> !e.mine
    ensures Taken(s, t) == [] && Put(s, t) == []
    decreases |t|
  {
    if t == [] {
    } else {
      NothingOfMine(Apply(s, t[0].step), t[1..]);
    }
  }

  lemma NoEvents(s: State)
    requires Inv(s)
    ensures Run(s, Steps([])) == s && Taken(s, []) == [] && Put(s, []) == []
  {
  }

  lemma One(s: State, e: Event)
    requires Inv(s)
    ensures Run(s, Steps([e])) == Apply(s, e.step)
    ensures Taken(s, [e]) == OwnPop(s, e) && Put(s, [e]) == OwnPush(s, e)
  {
    assert Steps([e])[1..] == [] && [e][1..] == [];
  }

  // ---------------------------------------------------------------- whose bytes they are

  // The slot is given to a new pipe.
  predicate Recycles(s: State, slot: nat, st: Step) { st.Create? && Unused(s.pipes) == slot }

  // How many events pass before the slot is given to a new pipe.
  function Lived(s: State, slot: nat, t: seq<Event>): (n: nat)
    requires Inv(s)
    ensures n <= |t|
    decreases |t|
  {
    if t == [] || Recycles(s, slot, t[0].step) then 0 else 1 + Lived(Apply(s, t[0].step), slot, t[1..])
  }

  lemma StepGot(s: State, h: History, slot: nat, e: Event)
    requires Inv(s) && slot < SLOTS && (e.step == Pop(slot) <==> e.mine) && !Recycles(s, slot, e.step)
    ensures Recorded(s, h, slot, e.step).got == h.got + OwnPop(s, e)
  {
  }

  lemma StepSent(s: State, h: History, slot: nat, e: Event)
    requires Inv(s) && slot < SLOTS && (e.step.Push? && e.step.slot == slot <==> e.mine) && !Recycles(s, slot, e.step)
    ensures Recorded(s, h, slot, e.step).sent == h.sent + OwnPush(s, e)
  {
  }

  /** As long as the slot is not given to a new pipe and nobody else reads it, the bytes handed out are exactly the next
      ones written to the pipe, whatever is closed meanwhile. */
  lemma {:induction false} SoleReader(s: State, h: History, slot: nat, t: seq<Event>)
    requires Inv(s) && slot < SLOTS && Lived(s, slot, t) == |t|
    requires forall e :: e in t ==> (e.step == Pop(slot) <==> e.mine)
    ensures RecordedRun(s, h, slot, Steps(t)).got == h.got + Taken(s, t)
    decreases |t|
  {
    hide Apply, Recycles, Recorded, OwnPop;
    if t == [] {
    } else {
      assert Steps(t)[0] == t[0].step && Steps(t)[1..] == Steps(t[1..]);
      StepGot(s, h, slot, t[0]);
      SoleReader(Apply(s, t[0].step), Recorded(s, h, slot, t[0].step), slot, t[1..]);
    }
  }

  /** And likewise for what a sole writer puts in. */
  lemma {:induction false} SoleWriter(s: State, h: History, slot: nat, t: seq<Event>)
    requires Inv(s) && slot < SLOTS && Lived(s, slot, t) == |t|
    requires forall e :: e in t ==> (e.step.Push? && e.step.slot == slot <==> e.mine)
    ensures RecordedRun(s, h, slot, Steps(t)).sent == h.sent + Put(s, t)
    decreases |t|
  {
    hide Apply, Recycles, Recorded, OwnPush;
    if t == [] {
    } else {
      assert Steps(t)[0] == t[0].step && Steps(t)[1..] == Steps(t[1..]);
      StepSent(s, h, slot, t[0]);
      SoleWriter(Apply(s, t[0].step), Recorded(s, h, slot, t[0].step), slot, t[1..]);
    }
  }

  lemma {:induction false} LivedPrefix(s: State, slot: nat, t: seq<Event>)
    requires Inv(s)
    ensures Lived(s, slot, t[..Lived(s, slot, t)]) == Lived(s, slot, t)
    decreases |t|
  {
    hide Apply, Recycles;
    var n := Lived(s, slot, t);
    if n == 0 {
    } else {
      assert t[..n][0] == t[0] && t[..n][1..] == t[1..][..n - 1];
      LivedPrefix(Apply(s, t[0].step), slot, t[1..]);
    }
  }

  // What the pipe that holds the slot at the start of a call has seen when it loses the slot, or when the call ends.
  function NamedPipe(s: State, h: History, slot: nat, t: seq<Event>): History
    requires Inv(s) && slot < SLOTS
  {
    RecordedRun(s, h, slot, Steps(t[..Lived(s, slot, t)]))
  }

  // The bytes the call takes out of, or puts into, a later pipe in the same slot.
  function TakenLate(s: State, slot: nat, t: seq<Event>): seq<bv8>
    requires Inv(s)
  {
    Taken(Run(s, Steps(t[..Lived(s, slot, t)])), t[Lived(s, slot, t)..])
  }

  function PutLate(s: State, slot: nat, t: seq<Event>): seq<bv8>
    requires Inv(s)
  {
    Put(Run(s, Steps(t[..Lived(s, slot, t)])), t[Lived(s, slot, t)..])
  }

  /** For every trace in which nobody else reads the slot: the bytes handed out are the next ones of the pipe the
      descriptor names exactly if none of them is taken after the slot has been given to a new pipe. */
  lemma ReaderGetsOwnPipeIff(s: State, h: History, slot: nat, t: seq<Event>)
    requires Inv(s) && slot < SLOTS && forall e :: e in t ==> (e.step == Pop(slot) <==> e.mine)
    ensures NamedPipe(s, h, slot, t).got == h.got + Taken(s, t) <==> TakenLate(s, slot, t) == []
  {
    hide RecordedRun, Taken, Run, Lived;
    var n := Lived(s, slot, t);
    var a, b := t[..n], t[n..];
    assert t == a + b && forall e :: e in a ==> e in t;
    LivedPrefix(s, slot, t);
    SoleReader(s, h, slot, a);
    MinePlus(s, a, b);
    Longer(h.got, Taken(s, a), TakenLate(s, slot, t));
  }

  lemma WriterFillsOwnPipeIff(s: State, h: History, slot: nat, t: seq<Event>)
    requires Inv(s) && slot < SLOTS && forall e :: e in t ==> (e.step.Push? && e.step.slot == slot <==> e.mine)
    ensures NamedPipe(s, h, slot, t).sent == h.sent + Put(s, t) <==> PutLate(s, slot, t) == []
  {
    hide RecordedRun, Put, Run, Lived;
    var n := Lived(s, slot, t);
    var a, b := t[..n], t[n..];
    assert t == a + b && forall e :: e in a ==> e in t;
    LivedPrefix(s, slot, t);
    SoleWriter(s, h, slot, a);
    MinePlus(s, a, b);
    Longer(h.sent, Put(s, a), PutLate(s, slot, t));
  }

  lemma Longer(x: seq<bv8>, y: seq<bv8>, z: seq<bv8>)
    ensures x + y == x + (y + z) <==> z == []
  {
    assert z == [] ==> y + z == y;
    assert |x + y| == |x| + |y| && |x + (y + z)| == |x| + |y| + |z|;
  }

  /** A descriptor that is still good when the call ends is a sign that its slot was not given away. */
  lemma {:induction false} GoodDescriptorLived(s: State, fd: nat, read: bool, slot: nat, t: seq<Event>)
    requires FdsOk(s) && slot < SLOTS && fd < s.next && Lookup(Run(s, Steps(t)).pipes, fd, read) == Some(slot)
    ensures Lived(s, slot, t) == |t|
    decreases |t|
  {
    hide Apply, Lookup, Unused;
    if t == [] {
    } else {
      var s1 := Apply(s, t[0].step);
      assert Steps(t)[0] == t[0].step && Steps(t)[1..] == Steps(t[1..]);
      ApplyFds(s, t[0].step);
      DescriptorsNeverMove(s1, Steps(t[1..]), fd, read);
      ApplyLookup(s, t[0].step, fd, read, slot);
      InUse(s, fd, read, slot);
      GoodDescriptorLived(s1, fd, read, slot, t[1..]);
    }
  }

  lemma InUse(s: State, fd: nat, read: bool, slot: nat)
    requires FdsOk(s) && slot < SLOTS && Lookup(s.pipes, fd, read) == Some(slot)
    ensures Unused(s.pipes) != slot
  {
  }

  /** That does happen: a reader blocked while both ends are closed and the slot is given to a new pipe reads the new
      pipe's bytes. */
  lemma RecycledSlotMixes(s: State, b: bv8)
    requires FdsOk(s) && s.pipes[0].used && s.pipes[0].readers == 1 && s.pipes[0].writers == 1 && Empty(s.pipes[0])
    ensures var t := Mixing(s.pipes[0], b);
            Taken(s, t) == [b] && Lookup(Run(s, Steps(t)).pipes, s.pipes[0].readFd, true) == None
  {
    hide Run, Taken, Apply, Lookup;
    var p := s.pipes[0];
    Reused(s, b);
    var s1 := Apply(s, Close(p.readFd));
    var s2 := Apply(s1, Close(p.writeFd));
    var s3 := Apply(s2, Create);
    var s4 := Apply(s3, Push(0, b));
    var e4, e5 := Event(false, Push(0, b)), Event(true, Pop(0));
    FirstEvent(s, Event(false, Close(p.readFd)),
               [Event(false, Close(p.writeFd))] + ([Event(false, Create)] + ([e4] + [e5])));
    FirstEvent(s1, Event(false, Close(p.writeFd)), [Event(false, Create)] + ([e4] + [e5]));
    FirstEvent(s2, Event(false, Create), [e4] + [e5]);
    FirstEvent(s3, e4, [e5]);
    One(s4, e5);
  }

  lemma Reused(s: State, b: bv8)
    requires FdsOk(s) && s.pipes[0].used && s.pipes[0].readers == 1 && s.pipes[0].writers == 1 && Empty(s.pipes[0])
    ensures var p := s.pipes[0];
            var s4 := Apply(Apply(Apply(Apply(s, Close(p.readFd)), Close(p.writeFd)), Create), Push(0, b));
            && !Empty(s4.pipes[0]) && s4.pipes[0].ring[s4.pipes[0].tail] == b
            && Lookup(Apply(s4, Pop(0)).pipes, p.readFd, true) == None
  {
    var p := s.pipes[0];
    var s1 := Apply(s, Close(p.readFd));
    var s2 := Apply(s1, Close(p.writeFd));
    var s3 := Apply(s2, Create);
    assert s1.pipes[0] == Closed(p, p.readFd) && s1.pipes[0].used;
    assert !s2.pipes[0].used && s3.pipes[0] == NewPipe(s.next);
    assert forall i :: 1 <= i < SLOTS ==> !Names(s.pipes[i], p.readFd) && s3.pipes[i] == s.pipes[i];
  }

  function Mixing(p: Pipe, b: bv8): seq<Event> {
    [Event(false, Close(p.readFd))] + ([Event(false, Close(p.writeFd))] + ([Event(false, Create)]
      + ([Event(false, Push(0, b))] + [Event(true, Pop(0))])))
  }

  lemma FirstEvent(s: State, e: Event, t: seq<Event>)
    requires Inv(s)
    ensures Run(s, Steps([e] + t)) == Run(Apply(s, e.step), Steps(t))
    ensures Taken(s, [e] + t) == OwnPop(s, e) + Taken(Apply(s, e.step), t)
  {
    RunConcat(s, [e], t);
    One(s, e);
  }

  class PipeTable {
    var pipes: seq<Pipe>
    var nextFd: nat

    ghost function S(): State
      reads this
    {
      State(pipes, nextFd)
    }

    // krust_vfs_init
    constructor Init()
      ensures FdsOk(S()) && AllEndsOk(S()) && nextFd == FIRST_FD && forall i :: 0 <= i < SLOTS ==> !pipes[i].used
    {
      pipes := seq(SLOTS, _ => Pipe(seq(RING, _ => 0), 0, 0, false, false, false, 0, 0, 0, 0));
      nextFd := FIRST_FD;
    }

    method FromFd(fd: nat, read: bool) returns (r: Option<nat>)
      ensures r == Lookup(pipes, fd, read)
    {
      var i := 0;
      while i < |pipes|
        invariant i <= |pipes| && forall j :: 0 <= j < i ==> !Holds(pipes[j], fd, read)
      {
        if pipes[i].used {
          if read && pipes[i].readFd == fd { return Some(i); }
          if !read && pipes[i].writeFd == fd { return Some(i); }
        }
        i := i + 1;
      }
      return None;
    }

    // krust_vfs_pipe_create
    method CreatePipe() returns (fds: Option<(nat, nat)>)
      requires FdsOk(S())
      modifies this
      ensures S() == Apply(old(S()), Create) && FdsOk(S())
      ensures fds == None <==> forall i :: 0 <= i < SLOTS ==> old(pipes)[i].used
      ensures fds.Some? ==> && fds == Some((old(nextFd), old(nextFd) + 1)) && Lookup(pipes, fds.value.0, true).Some?
                            && Lookup(pipes, fds.value.1, false) == Lookup(pipes, fds.value.0, true)
                            && Contents(pipes[Lookup(pipes, fds.value.0, true).value]) == []
    {
      hide FdsOk, Lookup;
      FdsInv(S());
      ApplyFds(S(), Create);
      var i := 0;
      while i < SLOTS && pipes[i].used
        invariant i <= SLOTS && forall j :: 0 <= j < i ==> pipes[j].used
      {
        i := i + 1;
      }
      assert i == Unused(pipes);
      if i == SLOTS { return None; }
      fds := Some((nextFd, nextFd + 1));
      pipes := pipes[i := NewPipe(nextFd)];
      nextFd := nextFd + 2;
      assert S() == Apply(old(S()), Create);
      LookupIs(S(), nextFd - 2, true, i);
      LookupIs(S(), nextFd - 1, false, i);
    }

    // krust_vfs_pipe_close
    method ClosePipe(fd: nat)
      requires FdsOk(S())
      modifies this
      ensures S() == Apply(old(S()), Close(fd)) && FdsOk(S())
    {
      hide FdsOk;
      FdsInv(S());
      ApplyFds(S(), Close(fd));
      var i := 0;
      while i < SLOTS && !Names(pipes[i], fd)
        invariant i <= SLOTS && forall j :: 0 <= j < i ==> !Names(pipes[j], fd)
      {
        i := i + 1;
      }
      assert i == Named(pipes, fd);
      if i < SLOTS { pipes := pipes[i := Closed(pipes[i], fd)]; }
    }

    // krust_sched_yield: the others take their steps.
    method Yield(steps: seq<Step>)
      requires Inv(S())
      modifies this
      ensures S() == Run(old(S()), steps)
    {
      var s := Run(State(pipes, nextFd), steps);
      pipes, nextFd := s.pipes, s.next;
    }

    /** krust_vfs_pipe_read. `others` is what the other tasks do at each yield. The call ends: it has all it asked
        for, or the pipe is empty and closed for writing or stayed empty over 201 yields. */
    method Read(fd: nat, size: nat, others: nat -> seq<Step>)
      returns (data: Option<seq<bv8>>, ghost trace: seq<Event>, ghost waited: nat)
      requires FdsOk(S())
      modifies this
      ensures S() == Run(old(S()), Steps(trace)) && Inv(S())
      ensures data == None <==> Lookup(old(pipes), fd, true) == None
      ensures data == None ==> trace == []
      ensures data.Some? ==>
                var slot := Lookup(old(pipes), fd, true).value;
                && data.value == Taken(old(S()), trace) && |data.value| <= size
                && (forall e :: e in trace && e.mine ==> e.step == Pop(slot))
                && (|data.value| < size ==> Empty(pipes[slot]) && (!pipes[slot].writeOpen || waited == RETRIES + 1))
    {
      hide FdsOk, Lookup, Apply, Run, Taken, Put, Steps;
      trace, waited := [], 0;
      FdsInv(S());
      NoEvents(S());
      var p := FromFd(fd, true);
      if p == None { return None, trace, waited; }
      var slot, buf, retries, turn := p.value, [], 0, 0;
      while |buf| < size
        invariant Inv(S()) && S() == Run(old(S()), Steps(trace)) && buf == Taken(old(S()), trace) && |buf| <= size
        invariant retries <= RETRIES + 1 && forall e :: e in trace && e.mine ==> e.step == Pop(slot)
        decreases size - |buf|, RETRIES + 1 - retries
      {
        ghost var s := S();
        if pipes[slot].head != pipes[slot].tail {
          ghost var e := Event(true, Pop(slot));
          PopIs(s, slot);
          RunConcat(old(S()), trace, [e]);
          One(s, e);
          buf := buf + [pipes[slot].ring[pipes[slot].tail]];
          pipes := pipes[slot := pipes[slot].(tail := (pipes[slot].tail + 1) % RING)];
          trace := trace + [e];
          retries := 0;
        } else if !pipes[slot].writeOpen {
          break;
        } else {
          if retries > RETRIES { break; }
          retries := retries + 1;
          Yield(others(turn));
          OthersOnly(s, others(turn));
          RunConcat(old(S()), trace, Others(others(turn)));
          trace, turn := trace + Others(others(turn)), turn + 1;
        }
      }
      return Some(buf), trace, retries;
    }

    /** krust_vfs_pipe_write: the same for a writer and a full pipe. */
    method Write(fd: nat, data: seq<bv8>, others: nat -> seq<Step>)
      returns (total: Option<nat>, ghost trace: seq<Event>, ghost waited: nat)
      requires FdsOk(S())
      modifies this
      ensures S() == Run(old(S()), Steps(trace)) && Inv(S())
      ensures total == None <==> Lookup(old(pipes), fd, false) == None
      ensures total == None ==> trace == []
      ensures total.Some? ==>
                var slot := Lookup(old(pipes), fd, false).value;
                && total.value <= |data| && data[..total.value] == Put(old(S()), trace)
                && (forall e :: e in trace && e.mine ==> e.step.Push? && e.step.slot == slot)
                && (total.value < |data| ==> Full(pipes[slot]) && (!pipes[slot].readOpen || waited == RETRIES + 1))
    {
      hide FdsOk, Lookup, Apply, Run, Taken, Put, Steps;
      trace, waited := [], 0;
      FdsInv(S());
      NoEvents(S());
      var p := FromFd(fd, false);
      if p == None { return None, trace, waited; }
      var slot, n, retries, turn := p.value, 0, 0, 0;
      while n < |data|
        invariant Inv(S()) && S() == Run(old(S()), Steps(trace)) && n <= |data| && data[..n] == Put(old(S()), trace)
        invariant retries <= RETRIES + 1 && forall e :: e in trace && e.mine ==> e.step.Push? && e.step.slot == slot
        decreases |data| - n, RETRIES + 1 - retries
      {
        ghost var s := S();
        var next := (pipes[slot].head + 1) % RING;
        if next != pipes[slot].tail {
          ghost var e := Event(true, Push(slot, data[n]));
          PushIs(s, slot, data[n]);
          RunConcat(old(S()), trace, [e]);
          One(s, e);
          pipes := pipes[slot := pipes[slot].(ring := pipes[slot].ring[pipes[slot].head := data[n]], head := next)];
          trace := trace + [e];
          assert data[..n + 1] == data[..n] + [data[n]];
          n, retries := n + 1, 0;
        } else if !pipes[slot].readOpen {
          break;
        } else {
          if retries > RETRIES { break; }
          retries := retries + 1;
          Yield(others(turn));
          OthersOnly(s, others(turn));
          RunConcat(old(S()), trace, Others(others(turn)));
          trace, turn := trace + Others(others(turn)), turn + 1;
        }
      }
      return Some(n), trace, retries;
    }
  }

  lemma FdsInv(s: State)
    requires FdsOk(s)
    ensures Inv(s)
  {
  }

  lemma PopIs(s: State, slot: nat)
    requires Inv(s) && slot < SLOTS && !Empty(s.pipes[slot])
    ensures Apply(s, Pop(slot)) == s.(pipes := s.pipes[slot := Popped(s.pipes[slot])])
  {
  }

  lemma PushIs(s: State, slot: nat, b: bv8)
    requires Inv(s) && slot < SLOTS && !Full(s.pipes[slot])
    ensures Apply(s, Push(slot, b)) == s.(pipes := s.pipes[slot := Pushed(s.pipes[slot], b)])
  {
  }

  lemma OthersOnly(s: State, steps: seq<Step>)
    requires Inv(s)
    ensures Steps(Others(steps)) == steps && Taken(s, Others(steps)) == [] && Put(s, Others(steps)) == []
  {
    NothingOfMine(s, Others(steps));
  }
}
