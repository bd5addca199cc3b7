// What whole runs of the abstract machine keep, whatever order executes, halts, ticks and stores come in. The kernel
// does the same to every process (Kernels.Kernel.Run).
module Runs {
  import opened Layout
  import opened Processes

  // ----- Processes that are not running -----

  // The process at depth d of terminal t exists and is not running: it waits for a child, or its terminal is not the
  // one being executed.
  ghost predicate Frozen(s: Spec, t: int, d: int)
    requires WellFormed(s) && 0 <= t < NUM_TERMINALS
  {
    0 <= d <= s.depth[t] && (t != s.run || d < s.depth[t])
  }

  // Saved context, memory and descriptors of a slot are the same in both states.
  ghost predicate Kept(s: Spec, r: Spec, k: int)
    requires WellFormed(s) && WellFormed(r) && 0 <= k < SLOTS
  {
    r.saved[k] == s.saved[k] && r.user[k] == s.user[k] && r.fds[k] == s.fds[k]
  }

  lemma StartKeeps(s: Spec, t: int, d: int, image: seq<int>, k: int)
    requires WellFormed(s) && 0 <= t < NUM_TERMINALS && 0 <= d <= 3 && |image| <= USER_MEM_SIZE - LOAD_OFFSET
    requires 0 <= k < SLOTS && k != Slot(t, d) && (s.depth[s.run] >= 0 ==> k != Top(s))
    ensures Kept(s, Start(SetAside(s), t, d, image), k)
  {
    hide Loaded, WithStdio;
  }

  // No step touches a process that is frozen before and after it.
  lemma StepKeeps(s: Spec, ev: Event, shell: Program, t: int, d: int)
    requires Good(s) && Enabled(s, ev) && Loadable(shell) && 0 <= t < NUM_TERMINALS
    requires Frozen(s, t, d) && Frozen(Step(s, ev, shell), t, d)
    ensures Kept(s, Step(s, ev, shell), Slot(t, d))
  {
    hide Execute, Halt, Tick, OpenFds, CloseFds, BootOrder;
    match ev {
      case DoExecute(prog, _, _, _) => ExecuteKeeps(s, prog, t, d);
      case DoHalt(_, exception, _, _) => HaltKeeps(Raise(s, exception), shell, t, d);
      case DoTick(_, _) => TickKeeps(s, shell, t, d);
      case _ => SlotInjective(t, d, s.run, s.depth[s.run]);
    }
  }

  lemma ExecuteKeeps(s: Spec, prog: Program, t: int, d: int)
    requires Good(s) && Booted(s) && (prog.Elf? ==> Loadable(prog)) && 0 <= t < NUM_TERMINALS && Frozen(s, t, d)
    ensures Kept(s, Execute(s, prog), Slot(t, d))
  {
    hide Start, SetAside;
    SlotInjective(t, d, s.run, s.depth[s.run]);
    SlotInjective(t, d, s.run, s.depth[s.run] + 1);
    if Pid(s.depth) < MAX_PID && prog.Elf? {
      StartKeeps(s, s.run, s.depth[s.run] + 1, prog.image, Slot(t, d));
    }
  }

  lemma HaltKeeps(s: Spec, shell: Program, t: int, d: int)
    requires Good(s) && s.depth[s.run] >= 0 && Loadable(shell) && 0 <= t < NUM_TERMINALS
    requires Frozen(s, t, d) && Frozen(Halt(s, shell), t, d)
    ensures Kept(s, Halt(s, shell), Slot(t, d))
  {
    hide Start, SetAside, CloseOpen, CloseAll, BootOrder;
    SlotInjective(t, d, s.run, s.depth[s.run]);
    if s.depth[s.run] == 0 {
      StartKeeps(s, s.run, 0, shell.image, Slot(t, d));
    } else {
      SlotInjective(t, d, s.run, s.depth[s.run] - 1);
    }
  }

  lemma TickKeeps(s: Spec, shell: Program, t: int, d: int)
    requires Good(s) && Loadable(shell) && 0 <= t < NUM_TERMINALS && Frozen(s, t, d)
    ensures Kept(s, Tick(s, shell), Slot(t, d))
  {
    hide Loaded, WithStdio, Start;
    SlotInjective(t, d, s.run, s.depth[s.run]);
    if !Booted(s) {
      var u := 1 - Pid(s.depth);
      SlotInjective(t, d, u, 0);
      StartKeeps(s, u, 0, shell.image, Slot(t, d));
    }
  }

  // The process stays frozen in every state of a run.
  ghost predicate FrozenAlong(s: Spec, evs: seq<Event>, shell: Program, t: int, d: int)
    requires Good(s) && Loadable(shell) && Runnable(s, evs, shell) && 0 <= t < NUM_TERMINALS
    decreases |evs|
  {
    Frozen(s, t, d) && (evs == [] || FrozenAlong(Step(s, evs[0], shell), evs[1..], shell, t, d))
  }

  lemma {:induction false} FrozenKept(s: Spec, evs: seq<Event>, shell: Program, t: int, d: int)
    requires Good(s) && Loadable(shell) && Runnable(s, evs, shell) && 0 <= t < NUM_TERMINALS
    requires FrozenAlong(s, evs, shell, t, d)
    ensures Kept(s, RunOf(s, evs, shell), Slot(t, d)) && Frozen(RunOf(s, evs, shell), t, d)
    decreases |evs|
  {
    hide Step, Enabled, BootOrder, Pid;
    if evs != [] {
      var r := Step(s, evs[0], shell);
      FrozenKept(r, evs[1..], shell, t, d);
      StepKeeps(s, evs[0], shell, t, d);
    }
  }

  // Terminal t stays more than d deep in every state of a run: what was executed at depth d has not halted yet.
  ghost predicate StaysDeeper(s: Spec, evs: seq<Event>, shell: Program, t: int, d: int)
    requires Good(s) && Loadable(shell) && Runnable(s, evs, shell) && 0 <= t < NUM_TERMINALS
    decreases |evs|
  {
    s.depth[t] > d && (evs == [] || StaysDeeper(Step(s, evs[0], shell), evs[1..], shell, t, d))
  }

  lemma {:induction false} DeeperIsFrozen(s: Spec, evs: seq<Event>, shell: Program, t: int, d: int)
    requires Good(s) && Loadable(shell) && Runnable(s, evs, shell) && 0 <= t < NUM_TERMINALS && 0 <= d
    requires StaysDeeper(s, evs, shell, t, d)
    ensures FrozenAlong(s, evs, shell, t, d)
    decreases |evs|
  {
    hide Step, Enabled, BootOrder, Pid;
    if evs != [] {
      DeeperIsFrozen(Step(s, evs[0], shell), evs[1..], shell, t, d);
    }
  }

  // Terminal t is not scheduled in any state of a run.
  ghost predicate StaysAway(s: Spec, evs: seq<Event>, shell: Program, t: int)
    requires Good(s) && Loadable(shell) && Runnable(s, evs, shell)
    decreases |evs|
  {
    s.run != t && (evs == [] || StaysAway(Step(s, evs[0], shell), evs[1..], shell, t))
  }

  lemma TickAway(s: Spec, shell: Program, t: int)
    requires Good(s) && Loadable(shell) && 0 <= t < NUM_TERMINALS && s.depth[t] >= 0
    ensures Tick(s, shell).depth[t] == s.depth[t]
  {
    hide Tick;
    TickCounts(s, shell);
  }

  // A step of another terminal leaves the depth of this one alone once it has a process.
  lemma StepAway(s: Spec, ev: Event, shell: Program, t: int)
    requires Good(s) && Enabled(s, ev) && Loadable(shell) && 0 <= t < NUM_TERMINALS && t != s.run && s.depth[t] >= 0
    ensures Step(s, ev, shell).depth[t] == s.depth[t]
  {
    hide Execute, Halt, Tick, OpenFds, CloseFds, LowOf, HighOf, BootOrder;
    match ev {
      case DoExecute(prog, _, _, _) => ExecuteCounts(s, prog);
      case DoHalt(_, exception, _, _) => HaltCounts(Raise(s, exception), shell);
      case DoTick(_, _) => TickAway(s, shell, t);
      case _ =>
    }
  }

  lemma {:induction false} AwayIsFrozen(s: Spec, evs: seq<Event>, shell: Program, t: int)
    requires Good(s) && Loadable(shell) && Runnable(s, evs, shell) && 0 <= t < NUM_TERMINALS
    requires StaysAway(s, evs, shell, t) && s.depth[t] >= 0
    ensures RunOf(s, evs, shell).depth[t] == s.depth[t] && FrozenAlong(s, evs, shell, t, s.depth[t])
    decreases |evs|
  {
    hide Step, Enabled, BootOrder, Pid;
    if evs != [] {
      StepAway(s, evs[0], shell, t);
      AwayIsFrozen(Step(s, evs[0], shell), evs[1..], shell, t);
    }
  }

  // ----- Resuming -----

  // A halt resumes exactly the context of its matching execute, with the stack and the memory the parent had then,
  // whatever ran in between. Only the parent's open descriptors from 2 on are lost.
  lemma HaltResumes(s: Spec, prog: Program, evs: seq<Event>, shell: Program, exception: bool)
    requires Good(s) && Booted(s) && Loadable(prog) && Loadable(shell) && Pid(s.depth) < MAX_PID
    requires Runnable(Execute(s, prog), evs, shell)
    requires StaysDeeper(Execute(s, prog), evs, shell, s.run, s.depth[s.run])
    requires var e := RunOf(Execute(s, prog), evs, shell); e.run == s.run && e.depth[s.run] == s.depth[s.run] + 1
    ensures var r := Halt(Raise(RunOf(Execute(s, prog), evs, shell), exception), shell);
      && r.run == s.run && r.depth[s.run] == s.depth[s.run] && r.current == s.current
      && r.user[Top(s)] == s.user[Top(s)]
      && r.fds[Top(s)] == CloseOpen(s.fds[Top(s)]) && AllClosed(s.fds[Top(s)], r.fds[Top(s)])
  {
    hide Enabled, Step, BootOrder, Loaded, WithStdio, CloseOpen, CloseAll, AllClosed;
    ClosesAll(s.fds[Top(s)]);
    var x, t, d := Execute(s, prog), s.run, s.depth[s.run];
    assert Kept(s.(saved := s.saved[Top(s) := s.current]), x, Top(s));
    DeeperIsFrozen(x, evs, shell, t, d);
    FrozenKept(x, evs, shell, t, d);
  }

  lemma TickSaves(s: Spec, shell: Program)
    requires Good(s) && Booted(s)
    ensures var r := Tick(s, shell); var next := (s.run + 1) % NUM_TERMINALS;
      && r.depth == s.depth && r.run == next && r.saved[Top(s)] == s.current && r.user == s.user && r.fds == s.fds
      && r.current == s.saved[Slot(next, s.depth[next])]
  {
    SlotInjective(s.run, s.depth[s.run], (s.run + 1) % NUM_TERMINALS, s.depth[(s.run + 1) % NUM_TERMINALS]);
  }

  // The round robin comes back to a terminal exactly as the last tick left it.
  lemma TickResumes(s: Spec, evs: seq<Event>, shell: Program)
    requires Good(s) && Booted(s) && Loadable(shell) && Runnable(Tick(s, shell), evs, shell)
    requires StaysAway(Tick(s, shell), evs, shell, s.run)
    requires (RunOf(Tick(s, shell), evs, shell).run + 1) % NUM_TERMINALS == s.run
    ensures var r := Tick(RunOf(Tick(s, shell), evs, shell), shell);
      && r.run == s.run && r.depth[s.run] == s.depth[s.run] && r.current == s.current
      && r.user[Top(s)] == s.user[Top(s)] && r.fds[Top(s)] == s.fds[Top(s)]
  {
    hide Enabled, Step, BootOrder, Frozen, FrozenAlong, StaysAway, Runnable, RunOf, Tick;
    var x, t := Tick(s, shell), s.run;
    TickSaves(s, shell);
    BootCompletes(x, evs, shell);
    AwayIsFrozen(x, evs, shell, t);
    FrozenKept(x, evs, shell, t, x.depth[t]);
    TickSaves(RunOf(x, evs, shell), shell);
  }

  // ----- Boot and fairness -----

  function Ticks(evs: seq<Event>): nat {
    if evs == [] then 0 else (if evs[0].DoTick? then 1 else 0) + Ticks(evs[1..])
  }

  // How often a run schedules terminal t.
  ghost function Scheduled(s: Spec, evs: seq<Event>, shell: Program, t: int): nat
    requires Good(s) && Loadable(shell) && Runnable(s, evs, shell)
    decreases |evs|
  {
    if evs == [] then 0
    else
      var r := Step(s, evs[0], shell);
      (if evs[0].DoTick? && r.run == t then 1 else 0) + Scheduled(r, evs[1..], shell, t)
  }

  // One step's effect on the counters: a tick boots the next shell or moves on to the next terminal; nothing else
  // schedules anything.
  lemma StepCounters(s: Spec, ev: Event, shell: Program)
    requires Good(s) && Enabled(s, ev) && Loadable(shell)
    ensures var r := Step(s, ev, shell);
      && (Booted(s) ==> Booted(r) && r.run == (if ev.DoTick? then (s.run + 1) % NUM_TERMINALS else s.run))
      && (!Booted(s) ==> Pid(r.depth) == Pid(s.depth) + if ev.DoTick? then 1 else 0)
  {
    hide Execute, Halt, Tick, OpenFds, CloseFds, BootOrder, CountExecute, LowOf;
    BootedPid(s);
    match ev {
      case DoExecute(prog, _, _, _) => ExecuteMoves(s, prog);
      case DoHalt(_, exception, _, _) => HaltMoves(Raise(s, exception), shell);
      case DoTick(_, _) => TickCounts(s, shell);
      case _ =>
    }
  }

  lemma ExecuteMoves(s: Spec, prog: Program)
    requires Good(s) && Booted(s) && (prog.Elf? ==> Loadable(prog))
    ensures Booted(Execute(s, prog)) && Execute(s, prog).run == s.run
  {
    hide Execute;
    ExecuteCounts(s, prog);
  }

  lemma HaltMoves(s: Spec, shell: Program)
    requires Good(s) && s.depth[s.run] >= 0 && Loadable(shell)
    ensures var r := Halt(s, shell); r.run == s.run && (Booted(r) <==> Booted(s)) && (!Booted(s) ==> r.depth == s.depth)
  {
    hide Halt;
    HaltCounts(s, shell);
  }

  lemma BootedPid(s: Spec)
    requires Good(s)
    ensures Booted(s) <==> Pid(s.depth) >= 2
  {
  }

  // Boot takes three ticks, and the scheduler's boot branches, for a count below 2, are never taken after that.
  lemma {:induction false} BootCompletes(s: Spec, evs: seq<Event>, shell: Program)
    requires Good(s) && Loadable(shell) && Runnable(s, evs, shell)
    ensures Booted(RunOf(s, evs, shell)) <==> Pid(s.depth) + Ticks(evs) >= 2 || Booted(s)
    ensures !Booted(RunOf(s, evs, shell)) ==> Pid(RunOf(s, evs, shell).depth) == Pid(s.depth) + Ticks(evs)
    decreases |evs|
  {
    hide Step, Enabled, BootOrder;
    BootedPid(s);
    if evs != [] {
      var r := Step(s, evs[0], shell);
      StepCounters(s, evs[0], shell);
      BootedPid(r);
      BootCompletes(r, evs[1..], shell);
    }
  }

  // How many of the n ticks after terminal run schedule terminal t.
  function Share(run: int, t: int, n: nat): nat {
    (n + 2 - (t - run - 1) % NUM_TERMINALS) / NUM_TERMINALS
  }

  lemma ShareNext(run: int, t: int, n: nat)
    requires 0 <= run < NUM_TERMINALS && 0 <= t < NUM_TERMINALS && n > 0
    ensures var next := (run + 1) % NUM_TERMINALS;
      Share(run, t, n) == (if next == t then 1 else 0) + Share(next, t, n - 1)
  {
    var o := (t - run - 1) % NUM_TERMINALS;
    var next := (run + 1) % NUM_TERMINALS;
    assert next == t <==> o == 0;
    assert (t - next - 1) % NUM_TERMINALS == if o == 0 then 2 else o - 1;
  }

  lemma ShareBounds(run: int, t: int, n: nat)
    requires 0 <= run < NUM_TERMINALS && 0 <= t < NUM_TERMINALS
    ensures n / NUM_TERMINALS <= Share(run, t, n) <= (n + 2) / NUM_TERMINALS && Share(run, t, 0) == 0
  {
  }

  lemma RunNext(run: int, n: nat)
    requires 0 <= run < NUM_TERMINALS && n > 0
    ensures ((run + 1) % NUM_TERMINALS + (n - 1)) % NUM_TERMINALS == (run + n) % NUM_TERMINALS
  {
  }

  // Fairness: over n ticks, interleaved with anything, every terminal is scheduled n / 3 times, rounded down or up.
  lemma {:induction false} Fair(s: Spec, evs: seq<Event>, shell: Program, t: int)
    requires Good(s) && Booted(s) && Loadable(shell) && Runnable(s, evs, shell) && 0 <= t < NUM_TERMINALS
    ensures Scheduled(s, evs, shell, t) == Share(s.run, t, Ticks(evs))
    ensures Ticks(evs) / NUM_TERMINALS <= Scheduled(s, evs, shell, t) <= (Ticks(evs) + 2) / NUM_TERMINALS
    ensures RunOf(s, evs, shell).run == (s.run + Ticks(evs)) % NUM_TERMINALS
    decreases |evs|
  {
    hide Step, Enabled, BootOrder, Pid, Share;
    ShareBounds(s.run, t, Ticks(evs));
    if evs != [] {
      var r := Step(s, evs[0], shell);
      StepCounters(s, evs[0], shell);
      Fair(r, evs[1..], shell, t);
      if evs[0].DoTick? {
        ShareNext(s.run, t, Ticks(evs));
        RunNext(s.run, Ticks(evs));
      }
    }
  }

  // ----- Exceptions -----

  // The exception flag is dropped only by the halt of a child, and raised for later only by a root shell's exception.
  lemma StepFlag(s: Spec, ev: Event, shell: Program)
    requires Good(s) && Enabled(s, ev) && Loadable(shell)
    ensures Step(s, ev, shell).faulted <==>
      if ev.DoHalt? then s.depth[s.run] == 0 && (s.faulted || ev.exception) else s.faulted
  {
    hide Loaded, WithStdio, CloseOpen, CloseAll, OpenFds, CloseFds;
  }

  // The state in which event i of a run happens.
  ghost function StateAt(s: Spec, evs: seq<Event>, shell: Program, i: nat): (r: Spec)
    requires Good(s) && Loadable(shell) && Runnable(s, evs, shell) && i <= |evs|
    ensures Good(r)
    decreases i
  {
    if i == 0 then s else StateAt(Step(s, evs[0], shell), evs[1..], shell, i - 1)
  }

  ghost predicate ChildHalts(s: Spec, evs: seq<Event>, shell: Program, i: nat)
    requires Good(s) && Loadable(shell) && Runnable(s, evs, shell) && i < |evs|
  {
    evs[i].DoHalt? && var at := StateAt(s, evs, shell, i); at.depth[at.run] >= 1
  }

  ghost predicate RootFaults(s: Spec, evs: seq<Event>, shell: Program, i: nat)
    requires Good(s) && Loadable(shell) && Runnable(s, evs, shell) && i < |evs|
  {
    evs[i].DoHalt? && evs[i].exception && var at := StateAt(s, evs, shell, i); at.depth[at.run] == 0
  }

  ghost predicate NoChildHalts(s: Spec, evs: seq<Event>, shell: Program, from: nat)
    requires Good(s) && Loadable(shell) && Runnable(s, evs, shell)
  {
    forall i :: from <= i < |evs| ==> !ChildHalts(s, evs, shell, i)
  }

  // Some root shell had an exception in the run, or one before it, and no child has halted since.
  ghost predicate Pending(s: Spec, evs: seq<Event>, shell: Program)
    requires Good(s) && Loadable(shell) && Runnable(s, evs, shell)
  {
    || (s.faulted && NoChildHalts(s, evs, shell, 0))
    || exists i: nat :: i < |evs| && RootFaults(s, evs, shell, i) && NoChildHalts(s, evs, shell, i)
  }

  lemma StateNext(s: Spec, evs: seq<Event>, shell: Program, i: nat)
    requires Good(s) && Loadable(shell) && Runnable(s, evs, shell) && 0 < i < |evs|
    ensures var r, rest := Step(s, evs[0], shell), evs[1..];
      && (ChildHalts(s, evs, shell, i) <==> ChildHalts(r, rest, shell, i - 1))
      && (RootFaults(s, evs, shell, i) <==> RootFaults(r, rest, shell, i - 1))
  {
    hide Step, Enabled, Good;
  }

  lemma NoChildNext(s: Spec, evs: seq<Event>, shell: Program, from: nat)
    requires Good(s) && Loadable(shell) && Runnable(s, evs, shell) && 0 < from <= |evs|
    ensures NoChildHalts(s, evs, shell, from) <==> NoChildHalts(Step(s, evs[0], shell), evs[1..], shell, from - 1)
  {
    hide Step, Enabled, Good, ChildHalts, RootFaults;
    forall i | from <= i < |evs|
      ensures ChildHalts(s, evs, shell, i) <==> ChildHalts(Step(s, evs[0], shell), evs[1..], shell, i - 1)
    {
      StateNext(s, evs, shell, i);
    }
    if NoChildHalts(s, evs, shell, from) {
      forall i | from - 1 <= i < |evs[1..]|
        ensures !ChildHalts(Step(s, evs[0], shell), evs[1..], shell, i)
      {
        assert !ChildHalts(s, evs, shell, i + 1);
      }
    }
  }

  // What is pending is so still after the first event.
  lemma PendingNext(s: Spec, evs: seq<Event>, shell: Program)
    requires Good(s) && Loadable(shell) && Runnable(s, evs, shell) && evs != []
    ensures Pending(s, evs, shell) <==> Pending(Step(s, evs[0], shell), evs[1..], shell)
  {
    hide Step, Enabled, Good, NoChildHalts, ChildHalts, RootFaults;
    var r, rest := Step(s, evs[0], shell), evs[1..];
    FirstFlag(s, evs, shell);
    NoChildNext(s, evs, shell, 1);
    if Pending(s, evs, shell) && !(s.faulted && NoChildHalts(s, evs, shell, 0)) {
      var i: nat :| i < |evs| && RootFaults(s, evs, shell, i) && NoChildHalts(s, evs, shell, i);
      if i > 0 {
        StateNext(s, evs, shell, i);
        NoChildNext(s, evs, shell, i);
        assert RootFaults(r, rest, shell, i - 1);
      }
    }
    if Pending(r, rest, shell) && !(r.faulted && NoChildHalts(r, rest, shell, 0)) {
      var i: nat :| i < |rest| && RootFaults(r, rest, shell, i) && NoChildHalts(r, rest, shell, i);
      StateNext(s, evs, shell, i + 1);
      NoChildNext(s, evs, shell, i + 1);
      assert RootFaults(s, evs, shell, i + 1);
    }
  }

  // The first event of a run and the flag after it.
  lemma FirstFlag(s: Spec, evs: seq<Event>, shell: Program)
    requires Good(s) && Loadable(shell) && Runnable(s, evs, shell) && evs != []
    ensures var r := Step(s, evs[0], shell);
      && (r.faulted <==> !ChildHalts(s, evs, shell, 0) && (s.faulted || RootFaults(s, evs, shell, 0)))
      && (NoChildHalts(s, evs, shell, 0) <==> !ChildHalts(s, evs, shell, 0) && NoChildHalts(s, evs, shell, 1))
      && (RootFaults(s, evs, shell, 0) ==> !ChildHalts(s, evs, shell, 0))
  {
    hide Step, BootOrder;
    StepFlag(s, evs[0], shell);
  }

  // The flag is up after a run exactly when an exception is pending.
  lemma {:induction false} FlagPending(s: Spec, evs: seq<Event>, shell: Program)
    requires Good(s) && Loadable(shell) && Runnable(s, evs, shell)
    ensures RunOf(s, evs, shell).faulted <==> Pending(s, evs, shell)
    decreases |evs|
  {
    hide Step, Enabled, BootOrder, RootFaults, ChildHalts;
    if evs != [] {
      PendingNext(s, evs, shell);
      FlagPending(Step(s, evs[0], shell), evs[1..], shell);
    }
  }

  // A child that halts of itself has its own status reported exactly when no root shell's exception is pending.
  lemma StatusReported(s: Spec, evs: seq<Event>, shell: Program, status: int)
    requires Good(s) && Loadable(shell) && Runnable(s, evs, shell) && 0 <= status < EXCEP_NUM
    ensures Reported(RunOf(s, evs, shell), status) == status <==> !Pending(s, evs, shell)
  {
    FlagPending(s, evs, shell);
  }

  // For instance: terminal 0's root shell has an exception, the next tick resumes a child in terminal 1, and that child
  // halts with status 0, which its parent sees as 256.
  lemma StaleException(s: Spec, shell: Program)
    requires Good(s) && Loadable(shell) && s.depth == [0, 1, 0] && s.run == 0 && LowOf(s) <= s.current.esp
    ensures var evs := [DoHalt(0, true, [], {}), DoTick([], {})];
      && (Enabled(s, evs[0]) && LowOf(Step(s, evs[0], shell)) <= Step(s, evs[0], shell).current.esp)
      && Runnable(s, evs, shell) && RunOf(s, evs, shell).run == 1
      && Reported(RunOf(s, evs, shell), 0) == 256
  {
    hide Loaded, WithStdio;
    var h, t := DoHalt(0, true, [], {}), DoTick([], {});
    var r := Step(s, h, shell);
    assert r.depth == s.depth && r.run == 0;
    assert [h, t][1..] == [t] && [t][1..] == [];
    assert Enabled(r, t) && Runnable(Step(r, t, shell), [], shell);
    assert Runnable(r, [t], shell);
    assert RunOf(r, [t], shell) == RunOf(Step(r, t, shell), [], shell);
  }

  // ----- Descriptors -----

  // Closing the open descriptors leaves a table as it is exactly when none is open.
  lemma CloseOpenKeeps(fds: seq<Fd>)
    requires |fds| == 8
    ensures CloseOpen(fds) == fds <==> NoneOpen(fds)
  {
    if CloseOpen(fds) == fds {
      forall i | 2 <= i < 8
        ensures fds[i].flags == 0
      {
        assert CloseOpen(fds)[i] == fds[i];
      }
    }
  }

  predicate NoneOpen(fds: seq<Fd>)
    requires |fds| == 8
  {
    forall i :: 2 <= i < 8 ==> fds[i].flags == 0
  }

  // Above the depth of a terminal no descriptor from 2 on is open.
  ghost predicate FreeAbove(s: Spec)
    requires WellFormed(s)
  {
    forall t, d :: 0 <= t < NUM_TERMINALS && s.depth[t] < d <= 3 ==> NoneOpen(s.fds[Slot(t, d)])
  }

  lemma StepFreeAbove(s: Spec, ev: Event, shell: Program)
    requires Good(s) && Enabled(s, ev) && Loadable(shell) && FreeAbove(s)
    ensures FreeAbove(Step(s, ev, shell))
  {
    hide Loaded, OpenFds, CloseFds, NoneOpen;
    var r := Step(s, ev, shell);
    forall t, d | 0 <= t < NUM_TERMINALS && r.depth[t] < d <= 3
      ensures NoneOpen(r.fds[Slot(t, d)])
    {
      SlotInjective(t, d, s.run, s.depth[s.run]);
      StepAbove(s, ev, shell, t, d);
    }
  }

  lemma StepAbove(s: Spec, ev: Event, shell: Program, t: int, d: int)
    requires Good(s) && Enabled(s, ev) && Loadable(shell) && FreeAbove(s)
    requires 0 <= t < NUM_TERMINALS && Step(s, ev, shell).depth[t] < d <= 3
    ensures NoneOpen(Step(s, ev, shell).fds[Slot(t, d)])
  {
    hide Loaded, OpenFds, CloseFds, WithStdio, NoneOpen, Start, SetAside, Halt, Tick;
    match ev {
      case DoExecute(prog, _, _, _) =>
        if Pid(s.depth) < MAX_PID && prog.Elf? {
          StartAbove(s, s.run, s.depth[s.run] + 1, prog.image, t, d);
        }
      case DoHalt(_, exception, _, _) => HaltAbove(Raise(s, exception), shell, t, d);
      case DoTick(_, _) => TickAbove(s, shell, t, d);
      case _ => SlotInjective(t, d, s.run, s.depth[s.run]);
    }
  }

  lemma StartAbove(s: Spec, u: int, e: int, image: seq<int>, t: int, d: int)
    requires WellFormed(s) && FreeAbove(s) && 0 <= u < NUM_TERMINALS && 0 <= e <= 3 && s.depth[u] <= e
    requires |image| <= USER_MEM_SIZE - LOAD_OFFSET
    requires 0 <= t < NUM_TERMINALS && Start(SetAside(s), u, e, image).depth[t] < d <= 3
    ensures NoneOpen(Start(SetAside(s), u, e, image).fds[Slot(t, d)])
  {
    hide Loaded, WithStdio, NoneOpen;
    SlotInjective(t, d, u, e);
  }

  lemma HaltAbove(s: Spec, shell: Program, t: int, d: int)
    requires Good(s) && s.depth[s.run] >= 0 && Loadable(shell) && FreeAbove(s)
    requires 0 <= t < NUM_TERMINALS && Halt(s, shell).depth[t] < d <= 3
    ensures NoneOpen(Halt(s, shell).fds[Slot(t, d)])
  {
    hide FreeAbove, Start, SetAside;
    if s.depth[s.run] == 0 {
      StartAbove(s, s.run, 0, shell.image, t, d);
    } else {
      SlotInjective(t, d, s.run, s.depth[s.run]);
      SlotInjective(t, d, s.run, s.depth[s.run] - 1);
      if d > s.depth[t] {
        assert NoneOpen(s.fds[Slot(t, d)]) by {
          AboveAt(s, t, d);
        }
      }
    }
  }

  lemma AboveAt(s: Spec, t: int, d: int)
    requires WellFormed(s) && FreeAbove(s) && 0 <= t < NUM_TERMINALS && s.depth[t] < d <= 3
    ensures NoneOpen(s.fds[Slot(t, d)])
  {
  }

  lemma TickAbove(s: Spec, shell: Program, t: int, d: int)
    requires Good(s) && Loadable(shell) && FreeAbove(s)
    requires 0 <= t < NUM_TERMINALS && Tick(s, shell).depth[t] < d <= 3
    ensures NoneOpen(Tick(s, shell).fds[Slot(t, d)])
  {
    hide Start, NoneOpen;
    if !Booted(s) {
      StartAbove(s, 1 - Pid(s.depth), 0, shell.image, t, d);
    }
  }

  lemma {:induction false} RunFreeAbove(s: Spec, evs: seq<Event>, shell: Program)
    requires Good(s) && Loadable(shell) && Runnable(s, evs, shell) && FreeAbove(s)
    ensures FreeAbove(RunOf(s, evs, shell))
    decreases |evs|
  {
    hide Step, Enabled, BootOrder, Pid, FreeAbove;
    if evs != [] {
      StepFreeAbove(s, evs[0], shell);
      RunFreeAbove(Step(s, evs[0], shell), evs[1..], shell);
    }
  }

  // Every process executed in a run from boot starts with exactly descriptors 0 and 1 open, and its first open gets 2.
  lemma FreshDescriptors(s: Spec, evs: seq<Event>, shell: Program, prog: Program, found: Lookup)
    requires Good(s) && Loadable(shell) && Runnable(s, evs, shell) && FreeAbove(s) && Loadable(prog)
    requires var r := RunOf(s, evs, shell); Booted(r) && Pid(r.depth) < MAX_PID
    ensures var r := Execute(RunOf(s, evs, shell), prog); var fds := r.fds[Top(r)];
      && HasStdio(fds) && (forall i :: 0 <= i < 8 ==> (fds[i].flags != 0 <==> i < 2)) && FreeFd(fds, 2) == 2
  {
    hide Step, Enabled, BootOrder, Loaded;
    RunFreeAbove(s, evs, shell);
    var e := RunOf(s, evs, shell);
    StartsWithStdio(e, e.run, e.depth[e.run] + 1, prog.image);
    assert NoneOpen(e.fds[Slot(e.run, e.depth[e.run] + 1)]);
  }

  // A root shell that restarts is the exception: it keeps whatever descriptors it had open, so the same holds of it
  // only if it had none.
  lemma RestartKeepsDescriptors(s: Spec, shell: Program)
    requires Good(s) && s.depth[s.run] == 0 && Loadable(shell)
    ensures var r := Halt(s, shell);
      && Top(r) == Top(s) && HasStdio(r.fds[Top(s)])
      && (NoneOpen(r.fds[Top(s)]) <==> NoneOpen(s.fds[Top(s)]))
  {
    hide Loaded;
    StartsWithStdio(s, s.run, 0, shell.image);
    var r := Halt(s, shell);
    assert forall i :: 2 <= i < 8 ==> r.fds[Top(s)][i] == s.fds[Top(s)][i];
  }

  // ----- Why nothing may be executed during boot -----

  // A call made by the running terminal's process, if it has one.
  datatype Call = Exec | Exit

  function AfterCalls(c: Counters, calls: seq<Call>): (r: Counters)
    requires Countable(c)
    ensures Countable(r)
    decreases |calls|
  {
    if calls == [] || c.depth[c.run] < 0 then c
    else AfterCalls(if calls[0].Exec? then CountExecute(c) else CountHalt(c), calls[1..])
  }

  // Calls keep the other terminals and the count of all processes in step; a shell that halts comes back.
  lemma {:induction false} CallsKeep(c: Counters, calls: seq<Call>)
    requires Countable(c) && c.pid <= MAX_PID
    ensures var r := AfterCalls(c, calls);
      && r.run == c.run && r.depth == c.depth[c.run := r.depth[c.run]] && r.pid <= MAX_PID
      && r.pid - r.depth[c.run] == c.pid - c.depth[c.run]
      && (c.depth[c.run] >= 0 ==> r.depth[c.run] >= 0) && (c.depth[c.run] < 0 ==> r == c)
    decreases |calls|
  {
    if calls != [] && c.depth[c.run] >= 0 {
      CallsKeep(if calls[0].Exec? then CountExecute(c) else CountHalt(c), calls[1..]);
    }
  }

  // Whatever is executed and halted between the boot ticks: every terminal has its shell after the third exactly when
  // no program is left running in a shell at the second and at the third.
  lemma BootUndisturbed(xs: seq<Call>, ys: seq<Call>)
    ensures var c := AfterCalls(CountTick(Counters(-1, [-1, -1, -1], 0)), xs);
      var d := AfterCalls(CountTick(c), ys);
      (forall t :: 0 <= t < NUM_TERMINALS ==> CountTick(d).depth[t] >= 0) <==> c.depth[2] == 0 && d.depth[1] == 0
  {
    var b := CountTick(Counters(-1, [-1, -1, -1], 0));
    assert b == Counters(0, [-1, -1, 0], 2);
    var c := AfterCalls(b, xs);
    CallsKeep(b, xs);
    var e := c.depth[2];
    assert c == Counters(e, [-1, -1, e], 2);
    CallsKeep(CountTick(c), ys);
    var d := AfterCalls(CountTick(c), ys);
    if e == 0 {
      var f := d.depth[1];
      assert d == Counters(1 + f, [-1, f, 0], 1);
      assert CountTick(d).depth[0] == if f == 0 then 0 else -1;
    } else {
      assert CountTick(c) == if e == 1 then Counters(2, [0, -1, 1], 0) else Counters(e, [-1, -1, e], 0);
      assert CountTick(d).depth[1] == -1;
    }
  }
}
