/** Signal delivery and sigreturn (kernel/src/process/scheduler.rs): a seven-word frame on the user stack, handlers
    nested in handlers. User memory is read and written in 64-bit words. */
module Signals {
  const NSIG: nat := 32
  const SIGKILL: nat := 9
  const SIGSEGV: nat := 11
  const SIGTERM: nat := 15
  const MOD64: nat := 0x1_0000_0000_0000_0000
  const LOWEST: nat := 0x1000
  const HIGHEST: nat := 0x7FFF_FFFF_FFFF
  const FRAME: nat := 56

  datatype Registers = Registers(rip: nat, cs: nat, rflags: nat, rsp: nat, ss: nat, rax: nat, rdi: nat)

  type Memory = nat -> nat

  // What the kernel keeps of the running task; `exited` holds its exit code.
  datatype Task = Task(pending: set<nat>, blocked: set<nat>, handlers: nat -> nat, exited: bool, exitCode: nat)

  datatype State = State(task: Task, regs: Registers, mem: Memory)

  // rflags without the trap and interrupt bits (8 and 9).
  function Masked(f: nat): (m: nat)
    ensures m / 0x100 % 4 == 0 && m % 0x100 == f % 0x100 && m / 0x400 == f / 0x400
  {
    f - f / 0x100 % 4 * 0x100
  }

  function FrameOf(sig: nat, r: Registers): seq<nat> { [sig, r.rip, r.cs, r.rflags, r.rsp, r.ss, 0] }

  // The words of a frame stand at `a`.
  ghost predicate FrameAt(m: Memory, a: nat, f: seq<nat>) { forall i :: 0 <= i < |f| ==> m(a + 8 * i) == f[i] }

  function Stored(m: Memory, a: nat, f: seq<nat>): Memory {
    (x: nat) => if a <= x < a + 8 * |f| && (x - a) % 8 == 0 then f[(x - a) / 8] else m(x)
  }

  lemma StoredIs(m: Memory, a: nat, f: seq<nat>)
    ensures FrameAt(Stored(m, a, f), a, f)
  {
  }

  // ---------------------------------------------------------------- delivery

  predicate Deliverable(t: Task, sig: nat) { sig in t.pending && sig !in t.blocked }

  predicate Fatal(sig: nat) { sig == SIGKILL || sig == SIGSEGV || sig == SIGTERM }

  function Killed(t: Task, sig: nat): Task { t.(exited := true, exitCode := 0x100 + sig) }

  // The handler is called on a new frame below the user stack pointer, or the program dies for lack of room.
  function Called(s: State, sig: nat): State {
    var a := (s.regs.rsp + MOD64 - FRAME) % MOD64;
    if a < LOWEST then s.(task := Killed(s.task, sig))
    else State(s.task.(pending := s.task.pending - {sig}),
               s.regs.(rsp := a, rip := s.task.handlers(sig), rdi := sig),
               Stored(s.mem, a, FrameOf(sig, s.regs)))
  }

  // krust_sched_deliver_signals from signal `sig` on.
  function Delivered(s: State, sig: nat): State
    requires sig <= NSIG
    decreases NSIG - sig
  {
    if sig == NSIG then s
    else if !Deliverable(s.task, sig) then Delivered(s, sig + 1)
    else if s.task.handlers(sig) == 1 then Delivered(s.(task := s.task.(pending := s.task.pending - {sig})), sig + 1)
    else if s.task.handlers(sig) == 0 then
      if Fatal(sig) then s.(task := Killed(s.task, sig))
      else Delivered(s.(task := s.task.(pending := s.task.pending - {sig})), sig + 1)
    else Called(s, sig)
  }

  // The first signal that does not just vanish: it is handled, or it kills.
  predicate Decisive(t: Task, sig: nat) {
    Deliverable(t, sig) && (t.handlers(sig) > 1 || (t.handlers(sig) == 0 && Fatal(sig)))
  }

  // Signals below n that are dropped on the way.
  function Dropped(t: Task, from: nat, n: nat): set<nat> { set x | from <= x < n && x in t.pending && x !in t.blocked }

  /** Delivery drops the ignored signals below the first decisive one and acts on that one alone; later signals stay
      pending. */
  lemma {:induction false} DeliveredIs(s: State, from: nat, sig: nat)
    requires from <= sig <= NSIG && (forall x :: from <= x < sig ==> !Decisive(s.task, x))
    requires (sig < NSIG ==> Decisive(s.task, sig))
    ensures var s1 := s.(task := s.task.(pending := s.task.pending - Dropped(s.task, from, sig)));
            Delivered(s, from) == if sig == NSIG then s1
                                  else if s.task.handlers(sig) == 0 then s1.(task := Killed(s1.task, sig))
                                  else Called(s1, sig)
    decreases sig - from
  {
    if from < sig {
      var s' := if Deliverable(s.task, from) then s.(task := s.task.(pending := s.task.pending - {from})) else s;
      assert !Decisive(s.task, from);
      assert forall x :: from < x ==> (Decisive(s'.task, x) <==> Decisive(s.task, x));
      DeliveredIs(s', from + 1, sig);
      assert s.task.pending - Dropped(s.task, from, sig) == s'.task.pending - Dropped(s'.task, from + 1, sig);
    } else {
      assert s.task.pending - Dropped(s.task, from, sig) == s.task.pending;
    }
  }

  /** Delivery kills a live task exactly if the first decisive signal has no handler, or its frame does not fit below
      the stack pointer. */
  lemma KillsIff(s: State, sig: nat)
    requires 1 <= sig <= NSIG && (forall x :: 1 <= x < sig ==> !Decisive(s.task, x))
    requires (sig < NSIG ==> Decisive(s.task, sig)) && !s.task.exited
    ensures Delivered(s, 1).task.exited
            <==> sig < NSIG && (s.task.handlers(sig) == 0 || (s.regs.rsp + MOD64 - FRAME) % MOD64 < LOWEST)
  {
    hide Delivered;
    DeliveredIs(s, 1, sig);
  }

  // ---------------------------------------------------------------- return

  predicate Accepted(r: Registers) {
    && LOWEST <= r.rip <= HIGHEST && (r.cs == 0x23 || r.cs == 0x1B)
    && (r.ss == 0x2B || r.ss == 0x23) && LOWEST <= r.rsp <= HIGHEST
  }

  // krust_sched_sigreturn: the context in the frame, if it is one a user may have.
  function Returned(s: State): (State, bool) {
    var a := s.regs.rsp;
    var sig := s.mem(a);
    var r := Registers(s.mem(a + 8), s.mem(a + 16), Masked(s.mem(a + 24)), s.mem(a + 32), s.mem(a + 40), sig,
                       s.regs.rdi);
    if !Accepted(r) then (s, false)
    else (State(if 0 < sig < NSIG then s.task.(pending := s.task.pending - {sig}) else s.task, r, s.mem), true)
  }

  // The registers a program sees again: all but the flags bits and the scratch registers.
  predicate Resumed(r: Registers, r': Registers) {
    r'.rip == r.rip && r'.cs == r.cs && r'.rsp == r.rsp && r'.ss == r.ss && r'.rflags == Masked(r.rflags)
  }

  /** With its frame intact, a return succeeds exactly if the interrupted context was an acceptable one, and then
      resumes it. The accumulator is not part of the frame: it comes back as the number of the signal. */
  lemma ReturnResumes(s: State, sig: nat, r: Registers)
    requires FrameAt(s.mem, s.regs.rsp, FrameOf(sig, r))
    ensures Returned(s).1 <==> Accepted(r)
    ensures Accepted(r) ==> Resumed(r, Returned(s).0.regs) && Returned(s).0.regs.rax == sig
  {
    var f, a := FrameOf(sig, r), s.regs.rsp;
    assert s.mem(a + 8 * 0) == f[0] && s.mem(a + 8 * 1) == f[1] && s.mem(a + 8 * 2) == f[2];
    assert s.mem(a + 8 * 3) == f[3] && s.mem(a + 8 * 4) == f[4] && s.mem(a + 8 * 5) == f[5];
  }

  /** What is pending after a return: everything that was, except the signal the handler was for. So a signal raised
      while a handler runs survives exactly if it is another one. */
  lemma SurvivesReturnIff(s: State, sig: nat, r: Registers, x: nat)
    requires FrameAt(s.mem, s.regs.rsp, FrameOf(sig, r)) && Accepted(r)
    ensures x in Returned(s).0.task.pending <==> x in s.task.pending && !(x == sig && 0 < sig < NSIG)
  {
    assert s.mem(s.regs.rsp + 8 * 0) == FrameOf(sig, r)[0];
    ReturnResumes(s, sig, r);
  }

  // A delivery and the return from it, over a handler that raises `raised`: what is pending then.
  lemma RaisedDuringHandler(s: State, sig: nat, raised: set<nat>, m: Memory, x: nat)
    requires Accepted(s.regs) && s.regs.rsp >= LOWEST + FRAME && 0 < sig < NSIG
    requires FrameAt(m, s.regs.rsp - FRAME, FrameOf(sig, s.regs))
    ensures var s1 := Called(s, sig);
            var s2 := s1.(task := s1.task.(pending := s1.task.pending + raised), mem := m);
            && Returned(s2).1
            && (x in Returned(s2).0.task.pending <==> x != sig && (x in s.task.pending || x in raised))
  {
    hide FrameAt, Stored, FrameOf, Masked;
    assert (s.regs.rsp + MOD64 - FRAME) % MOD64 == s.regs.rsp - FRAME;
    var s1 := Called(s, sig);
    var s2 := s1.(task := s1.task.(pending := s1.task.pending + raised), mem := m);
    ReturnResumes(s2, sig, s.regs);
    SurvivesReturnIff(s2, sig, s.regs, x);
  }

  // ---------------------------------------------------------------- nesting

  // A delivery not yet returned from: which signal, where its frame is, what it interrupted.
  datatype Saved = Saved(sig: nat, at: nat, regs: Registers)

  // A delivery of a signal to its handler, a return, or the program computing.
  datatype Op = Deliver(sig: nat) | Return | Compute(regs: Registers, mem: Memory)

  function Step(s: State, op: Op): State {
    match op
    case Deliver(sig) => Called(s, sig)
    case Return => Returned(s).0
    case Compute(r, m) => s.(regs := r, mem := m)
  }

  function Stacked(s: State, st: seq<Saved>, op: Op): seq<Saved> {
    match op
    case Deliver(sig) => st + [Saved(sig, (s.regs.rsp + MOD64 - FRAME) % MOD64, s.regs)]
    case Return => if st == [] then [] else st[..|st| - 1]
    case Compute(_, _) => st
  }

  // Frames lie below one another and still read as written.
  ghost predicate Intact(m: Memory, st: seq<Saved>) {
    && (forall i :: 0 <= i < |st| ==> FrameAt(m, st[i].at, FrameOf(st[i].sig, st[i].regs)))
    && (forall i, j :: 0 <= i < j < |st| ==> st[j].at + FRAME <= st[i].at)
  }

  // Well-behaved programs: a handler stays below its frame and leaves the frames above alone, and returns with the
  // stack pointer at its own frame; the contexts are ones a user may have, with room for a frame.
  ghost predicate Behaves(s: State, st: seq<Saved>, op: Op) {
    match op
    case Deliver(_) => Accepted(s.regs) && s.regs.rsp >= LOWEST + FRAME && (st != [] ==> s.regs.rsp <= st[|st| - 1].at)
    case Return => st != [] && s.regs.rsp == st[|st| - 1].at
    case Compute(_, m) => Intact(m, st)
  }

  lemma FrameApart(m: Memory, a: nat, f: seq<nat>, b: nat, g: seq<nat>)
    requires FrameAt(m, b, g) && a + 8 * |f| <= b
    ensures FrameAt(Stored(m, a, f), b, g)
  {
  }

  lemma DeliverIntact(m: Memory, st: seq<Saved>, sig: nat, r: Registers)
    requires Intact(m, st) && r.rsp >= FRAME && (st != [] ==> r.rsp <= st[|st| - 1].at)
    ensures Intact(Stored(m, r.rsp - FRAME, FrameOf(sig, r)), st + [Saved(sig, r.rsp - FRAME, r)])
  {
    hide FrameAt, Stored;
    var a, f := r.rsp - FRAME, FrameOf(sig, r);
    StoredIs(m, a, f);
    forall i | 0 <= i < |st| ensures FrameAt(Stored(m, a, f), st[i].at, FrameOf(st[i].sig, st[i].regs)) {
      assert i < |st| - 1 ==> st[|st| - 1].at + FRAME <= st[i].at;
      FrameApart(m, a, f, st[i].at, FrameOf(st[i].sig, st[i].regs));
    }
  }

  lemma StepIntact(s: State, st: seq<Saved>, op: Op)
    requires Intact(s.mem, st) && (forall i :: 0 <= i < |st| ==> Accepted(st[i].regs)) && Behaves(s, st, op)
    ensures Intact(Step(s, op).mem, Stacked(s, st, op))
    ensures forall i :: 0 <= i < |Stacked(s, st, op)| ==> Accepted(Stacked(s, st, op)[i].regs)
    ensures op.Return? ==> Resumed(st[|st| - 1].regs, Step(s, op).regs)
  {
    hide FrameAt, Stored, FrameOf, Masked;
    match op
    case Deliver(sig) =>
      assert (s.regs.rsp + MOD64 - FRAME) % MOD64 == s.regs.rsp - FRAME;
      DeliverIntact(s.mem, st, sig, s.regs);
    case Return => ReturnResumes(s, st[|st| - 1].sig, st[|st| - 1].regs);
    case Compute(_, m) =>
  }

  function Run(s: State, ops: seq<Op>): State
    decreases |ops|
  {
    if ops == [] then s else Run(Step(s, ops[0]), ops[1..])
  }

  function RunStack(s: State, st: seq<Saved>, ops: seq<Op>): seq<Saved>
    decreases |ops|
  {
    if ops == [] then st else RunStack(Step(s, ops[0]), Stacked(s, st, ops[0]), ops[1..])
  }

  // Every step behaves, and at least `depth` deliveries stay open throughout.
  ghost predicate RunBehaves(s: State, st: seq<Saved>, ops: seq<Op>, depth: nat)
    decreases |ops|
  {
    && |st| >= depth
    && (ops == [] || (&& Behaves(s, st, ops[0])
                      && RunBehaves(Step(s, ops[0]), Stacked(s, st, ops[0]), ops[1..], depth)))
  }

  // Open deliveries below the depth are never touched.
  lemma {:induction false} RunKeeps(s: State, st: seq<Saved>, ops: seq<Op>, depth: nat)
    requires Intact(s.mem, st) && (forall i :: 0 <= i < |st| ==> Accepted(st[i].regs)) && RunBehaves(s, st, ops, depth)
    ensures var st' := RunStack(s, st, ops);
            && |st'| >= depth && st'[..depth] == st[..depth] && Intact(Run(s, ops).mem, st')
            && forall i :: 0 <= i < |st'| ==> Accepted(st'[i].regs)
    decreases |ops|
  {
    if ops == [] {
    } else {
      StepIntact(s, st, ops[0]);
      var s1, st1 := Step(s, ops[0]), Stacked(s, st, ops[0]);
      assert |st1| >= depth;
      assert st1[..depth] == st[..depth];
      RunKeeps(s1, st1, ops[1..], depth);
    }
  }

  /** Whatever a handler does, with any number of further signals delivered and returned from inside it: the matching
      return resumes exactly what its delivery interrupted. */
  lemma HandlersNest(s: State, st: seq<Saved>, sig: nat, ops: seq<Op>)
    requires Intact(s.mem, st) && (forall i :: 0 <= i < |st| ==> Accepted(st[i].regs)) && Behaves(s, st, Deliver(sig))
    requires var s1, st1 := Step(s, Deliver(sig)), Stacked(s, st, Deliver(sig));
             && RunBehaves(s1, st1, ops, |st| + 1) && |RunStack(s1, st1, ops)| == |st| + 1
             && Behaves(Run(s1, ops), RunStack(s1, st1, ops), Return)
    ensures var s2 := Run(Step(s, Deliver(sig)), ops);
            Returned(s2).1 && Resumed(s.regs, Step(s2, Return).regs)
  {
    var s1, st1 := Step(s, Deliver(sig)), Stacked(s, st, Deliver(sig));
    StepIntact(s, st, Deliver(sig));
    RunKeeps(s1, st1, ops, |st| + 1);
    var s2, st2 := Run(s1, ops), RunStack(s1, st1, ops);
    assert st2 == st2[..|st| + 1] && st1 == st1[..|st| + 1] && st2[|st|] == st1[|st|];
    StepIntact(s2, st2, Return);
    ReturnResumes(s2, sig, s.regs);
  }

  // ---------------------------------------------------------------- the two system entries

  class Process {
    var task: Task
    var regs: Registers
    var mem: Memory

    ghost function S(): State
      reads this
    {
      State(task, regs, mem)
    }

    constructor (t: Task, r: Registers, m: Memory)
      ensures S() == State(t, r, m)
    {
      task, regs, mem := t, r, m;
    }

    // krust_sched_deliver_signals
    method DeliverSignals()
      modifies this
      ensures S() == Delivered(old(S()), 1)
    {
      hide Fatal;
      if task.pending == {} {
        NothingPending(S(), 1);
        return;
      }
      var sig := 1;
      while sig < NSIG
        invariant 1 <= sig <= NSIG && Delivered(S(), sig) == Delivered(old(S()), 1)
      {
        if sig in task.pending && sig !in task.blocked {
          var handler := task.handlers(sig);
          if handler == 1 {
            task := task.(pending := task.pending - {sig});
          } else if handler == 0 {
            if Fatal(sig) {
              task := task.(exited := true, exitCode := 0x100 + sig);
              return;
            }
            task := task.(pending := task.pending - {sig});
          } else {
            CallHandler(sig, handler);
            return;
          }
        }
        sig := sig + 1;
      }
    }

    method CallHandler(sig: nat, handler: nat)
      requires handler == task.handlers(sig)
      modifies this
      ensures S() == Called(old(S()), sig)
    {
      var a := (regs.rsp + MOD64 - FRAME) % MOD64;
      if a < LOWEST {
        task := task.(exited := true, exitCode := 0x100 + sig);
        return;
      }
      var frame := [sig, regs.rip, regs.cs, regs.rflags, regs.rsp, regs.ss, 0];
      mem := Stored(mem, a, frame);
      task := task.(pending := task.pending - {sig});
      regs := regs.(rsp := a, rip := handler, rdi := sig);
    }

    // krust_sched_sigreturn
    method SigReturn() returns (ok: bool)
      modifies this
      ensures (S(), ok) == Returned(old(S()))
    {
      var a := regs.rsp;
      var sig, rip, cs, rflags, rsp, ss := mem(a), mem(a + 8), mem(a + 16), mem(a + 24), mem(a + 32), mem(a + 40);
      if rip < LOWEST || rip > HIGHEST { return false; }
      if cs != 0x23 && cs != 0x1B { return false; }
      if ss != 0x2B && ss != 0x23 { return false; }
      if rsp < LOWEST || rsp > HIGHEST { return false; }
      regs := Registers(rip, cs, Masked(rflags), rsp, ss, sig, regs.rdi);
      if 0 < sig < NSIG { task := task.(pending := task.pending - {sig}); }
      return true;
    }
  }

  lemma NothingPending(s: State, from: nat)
    requires s.task.pending == {} && from <= NSIG
    ensures Delivered(s, from) == s
    decreases NSIG - from
  {
  }
}
