// What the kernel's invariant means for its counters, its paging structures and its memory.
module Guarantees {
  import opened Layout
  import opened Processes
  import opened KernelMemory
  import opened Options
  import opened Kernels
  import opened VideoPages
  import Paging
  import Runs

  // The count, the depths, the stack of the next system call and the user page entry agree in every reachable state.
  lemma CountersAgree(k: Kernel)
    requires k.Valid()
    ensures k.Built() && k.pid + 1 == (k.depth[0] + 1) + (k.depth[1] + 1) + (k.depth[2] + 1) && k.pid <= MAX_PID
    ensures 0 <= k.exec < NUM_TERMINALS && forall t :: 0 <= t < NUM_TERMINALS ==> -1 <= k.depth[t] <= 3
    ensures k.depth[k.exec] >= 0 ==>
      && k.esp0 == k.GetPCB() - 4
      && k.mmu.pd.Length == Paging.ENTRIES && k.mmu.pd[32] == Frame(Slot(k.exec, k.depth[k.exec])) + 0x97
  {
    hide Holds, Running, Paging.Coherent, Good;
    hide BootOrder;
    GoodDepths(k.spec);
    assert k.depth[..][0] == k.depth[0] && k.depth[..][1] == k.depth[1] && k.depth[..][2] == k.depth[2];
    assert k.mmu.pd[..][32] == k.mmu.pd[32];
  }

  lemma SameCounters(k: Kernel)
    requires k.Valid()
    ensures k.Built() && Good(k.spec) && k.depth[..] == k.spec.depth && k.exec == k.spec.run
    ensures k.pid == Pid(k.spec.depth)
    ensures k.depth[k.exec] == k.spec.depth[k.spec.run]
  {
    hide Holds, Running, Good, Paging.Shape, Paging.Coherent;
    GoodDepths(k.spec);
    assert k.depth[k.exec] == k.depth[..][k.exec];
  }

  lemma GoodDepths(s: Spec)
    requires Good(s)
    ensures WellFormed(s) && Pid(s.depth) <= MAX_PID
  {
  }

  // The frame of the running process and its one video page: none, VIDEO, or its terminal's backing page.
  ghost predicate MayReach(s: Spec, video: Option<nat>, a: int)
    requires WellFormed(s)
  {
    && VideoPage(video, s)
    && ((s.depth[s.run] >= 0 && Frame(Top(s)) <= a < Frame(Top(s)) + USER_MEM_SIZE)
        || (video.Some? && video.value <= a < video.value + 0x1000))
  }

  // No user read or write leaves what the running process may reach, through the paging structures or through any
  // translation the processor has cached.
  lemma UserIsolation(k: Kernel, va: nat, write: bool)
    requires k.Valid() && va < 0x1_0000_0000
    ensures WellFormed(k.spec) && k.mmu.Built()
    ensures var a := Paging.UserReach(Paging.Walk(k.mmu.pd[..], k.mmu.pt[..], k.mmu.table, va), va, write);
      a.Some? ==> MayReach(k.spec, k.video, a.value)
    ensures va / 0x1000 in k.mmu.tlb ==>
      k.mmu.tlb[va / 0x1000] == Paging.Walk(k.mmu.pd[..], k.mmu.pt[..], k.mmu.table, va)
  {
    hide Holds, Running, BootOrder, Paging.Shape, Paging.Walk;
    Paging.UserReaches(k.mmu.pd[..], k.mmu.pt[..], k.mmu.table, FrameOf(k.spec), k.video, va, write);
    Paging.SamePage(k.mmu.pd[..], k.mmu.pt[..], k.mmu.table, va);
  }

  // What the running process may reach is no part of another process's frame, of any control block or of any
  // kernel stack.
  lemma NothingElseReached(s: Spec, video: Option<nat>, a: int, j: nat)
    requires Good(s) && MayReach(s, video, a)
    ensures j != Top(s) || s.depth[s.run] < 0 ==> !(Frame(j) <= a < Frame(j) + USER_MEM_SIZE)
    ensures j < SLOTS ==> !(PcbAt(j) <= a < PcbAt(j) + PCB_SIZE) && !(StackLow(j) <= a < StackTop(j))
  {
    if s.depth[s.run] >= 0 && j != Top(s) {
      SlotsApart(j, Top(s));
    }
  }

  // The kernel page and the four video pages stay mapped to themselves, out of the user's reach.
  lemma KernelStaysMapped(k: Kernel, va: nat)
    requires k.Valid()
    requires 0x400000 <= va < 0x800000 || VIDEO <= va < VIDEO + 0x4000
    ensures k.mmu.Built()
    ensures var t := Paging.Walk(k.mmu.pd[..], k.mmu.pt[..], k.mmu.table, va);
      Paging.KernelReach(t, va) == Some(va) && forall write :: Paging.UserReach(t, va, write) == None
  {
    hide Holds, Running, BootOrder, Paging.Shape, Paging.Walk;
    Paging.KernelIdentity(k.mmu.pd[..], k.mmu.pt[..], k.mmu.table, FrameOf(k.spec), k.video, va);
  }

  // The registers, the kernel stack, the memory and the descriptors of the running process are those of the abstract
  // machine.
  lemma RunningProcess(k: Kernel)
    requires k.Valid() && k.spec.depth[k.exec] >= 0
    ensures k.mem.Length == MEMORY && Good(k.spec) && k.spec.run == k.exec
    ensures StackLow(Top(k.spec)) <= k.esp <= StackTop(Top(k.spec))
    ensures k.spec.current == Context(k.esp, k.ebp, k.mem[..][k.esp..StackTop(Top(k.spec))])
    ensures k.spec.user[Top(k.spec)] == UserAt(k.mem[..], Top(k.spec))
    ensures k.spec.fds[Top(k.spec)] == FdsAt(k.mem[..], PcbAt(Top(k.spec)))
  {
    hide UserAt, FdsAt, BootOrder, Paging.Shape, Paging.Coherent;
  }

  // The kernel stack from esp up and the user memory of slot j are the same in both memories.
  ghost predicate SameProcess(m: seq<int>, m': seq<int>, j: int, esp: int) {
    && |m| == |m'| == MEMORY && 0 <= j < SLOTS && StackLow(j) <= esp <= StackTop(j)
    && m'[esp..StackTop(j)] == m[esp..StackTop(j)] && UserAt(m', j) == UserAt(m, j)
  }

  // Any run, and the halt of a child, of itself or by an exception.
  method RunAndHalt(k: Kernel, evs: seq<Event>, status: int, exception: bool, pushed: seq<int>, between: set<nat>)
      returns (ret: int)
    requires k.Valid() && Loadable(k.shell) && Runnable(k.spec, evs, k.shell)
    requires var e := RunOf(k.spec, evs, k.shell); e.depth[e.run] >= 1 && |pushed| <= e.current.esp - LowOf(e)
    modifies k, k.mem, k.depth, k.tEsp, k.tEbp, k.mmu, k.mmu.pd, k.mmu.pt
    ensures k.Valid() && k.spec == Halt(Raise(RunOf(old(k.spec), evs, k.shell), exception), k.shell)
    ensures ret == Reported(Raise(RunOf(old(k.spec), evs, k.shell), exception), status) && k.video == None
  {
    hide Agrees, BootOrder, Halt, Runnable, RunOf, Paging.Shape, Paging.Coherent;
    k.Run(evs);
    SameCounters(k);
    RunningProcess(k);
    if exception {
      k.RaiseException();
      SameCounters(k);
    }
    ret := k.Halt(status, pushed, between);
  }

  // A program is executed, anything at all happens while it has not halted, and it halts, of itself or by an exception:
  // its parent continues with the same registers, on the same stack contents, in the same memory. It has lost its video
  // page and its open descriptors, so it keeps its table of descriptors exactly when none from 2 on was open.
  method ExecuteAndHalt(k: Kernel, prog: Program, pushed: seq<int>, params: int, between: set<nat>, evs: seq<Event>,
                        status: int, exception: bool, pushed': seq<int>, between': set<nat>) returns (ret: int)
    requires k.Valid() && Booted(k.spec) && Loadable(prog) && Loadable(k.shell) && k.pid < MAX_PID
    requires |pushed| <= k.esp - LowOf(k.spec) && Runnable(Execute(k.spec, prog), evs, k.shell)
    requires Runs.StaysDeeper(Execute(k.spec, prog), evs, k.shell, k.exec, k.depth[k.exec])
    requires var e := RunOf(Execute(k.spec, prog), evs, k.shell);
      e.run == k.exec && e.depth[k.exec] == k.depth[k.exec] + 1 && |pushed'| <= e.current.esp - LowOf(e)
    modifies k, k.mem, k.depth, k.tEsp, k.tEbp, k.mmu, k.mmu.pd, k.mmu.pt
    ensures k.Valid() && k.exec == old(k.exec) && k.depth[k.exec] == old(k.depth[k.exec])
    ensures k.esp == old(k.esp) && k.ebp == old(k.ebp) && k.video == None
    ensures SameProcess(old(k.mem[..]), k.mem[..], Slot(k.exec, k.depth[k.exec]), k.esp)
    ensures var pcb := PcbAt(Slot(k.exec, k.depth[k.exec]));
      && FdsAt(k.mem[..], pcb) == CloseOpen(FdsAt(old(k.mem[..]), pcb))
      && AllClosed(FdsAt(old(k.mem[..]), pcb), FdsAt(k.mem[..], pcb))
      && (FdsAt(k.mem[..], pcb) == FdsAt(old(k.mem[..]), pcb) <==> Runs.NoneOpen(FdsAt(old(k.mem[..]), pcb)))
    ensures ret == Reported(Raise(RunOf(Execute(old(k.spec), prog), evs, k.shell), exception), status)
  {
    hide Agrees, UserAt, FdsAt, BootOrder, Execute, Halt, CloseOpen, AllClosed, Runnable, RunOf, Runs.StaysDeeper,
      Runs.NoneOpen, Paging.Shape, Paging.Coherent;
    ghost var s := k.spec;
    SameCounters(k);
    RunningProcess(k);
    Runs.HaltResumes(s, prog, evs, k.shell, exception);
    Runs.CloseOpenKeeps(s.fds[Top(s)]);
    var _ := k.Execute(prog, pushed, params, between);
    ret := RunAndHalt(k, evs, status, exception, pushed', between');
    SameCounters(k);
    RunningProcess(k);
  }

  // Any run, and a tick.
  method RunAndTick(k: Kernel, evs: seq<Event>, pushed: seq<int>, between: set<nat>)
    requires k.Valid() && Booted(k.spec) && Loadable(k.shell) && Runnable(k.spec, evs, k.shell)
    requires var e := RunOf(k.spec, evs, k.shell); |pushed| <= e.current.esp - LowOf(e)
    modifies k, k.mem, k.depth, k.tEsp, k.tEbp, k.mmu, k.mmu.pd, k.mmu.pt
    ensures k.Valid() && k.spec == Tick(RunOf(old(k.spec), evs, k.shell), k.shell)
    ensures k.video == Some(ScreenPage(k.display, k.exec))
  {
    hide Agrees, BootOrder, Tick, Runnable, RunOf, Paging.Shape, Paging.Coherent;
    Runs.BootCompletes(k.spec, evs, k.shell);
    k.Run(evs);
    SameCounters(k);
    RunningProcess(k);
    k.Tick(pushed, between);
    SameCounters(k);
  }

  // A terminal is preempted, anything at all happens in the other two, and the scheduler comes back to it: it continues
  // with the same registers, on the same stack contents, in the same memory and with the same descriptors. Its video
  // page is now the one its screen is in.
  method PreemptAndResume(k: Kernel, pushed: seq<int>, between: set<nat>, evs: seq<Event>,
                          pushed': seq<int>, between': set<nat>)
    requires k.Valid() && Booted(k.spec) && Loadable(k.shell)
    requires |pushed| <= k.esp - LowOf(k.spec) && Runnable(Tick(k.spec, k.shell), evs, k.shell)
    requires Runs.StaysAway(Tick(k.spec, k.shell), evs, k.shell, k.exec)
    requires var e := RunOf(Tick(k.spec, k.shell), evs, k.shell);
      (e.run + 1) % NUM_TERMINALS == k.exec && |pushed'| <= e.current.esp - LowOf(e)
    modifies k, k.mem, k.depth, k.tEsp, k.tEbp, k.mmu, k.mmu.pd, k.mmu.pt
    ensures k.Valid() && k.exec == old(k.exec) && k.depth[k.exec] == old(k.depth[k.exec])
    ensures k.esp == old(k.esp) && k.ebp == old(k.ebp)
    ensures k.video == Some(ScreenPage(k.display, k.exec))
    ensures SameProcess(old(k.mem[..]), k.mem[..], Slot(k.exec, k.depth[k.exec]), k.esp)
    ensures var pcb := PcbAt(Slot(k.exec, k.depth[k.exec])); FdsAt(k.mem[..], pcb) == FdsAt(old(k.mem[..]), pcb)
  {
    hide Agrees, UserAt, FdsAt, BootOrder, Tick, Runnable, RunOf, Runs.StaysAway, Paging.Shape, Paging.Coherent;
    ghost var s := k.spec;
    SameCounters(k);
    RunningProcess(k);
    Runs.TickResumes(s, evs, k.shell);
    TickRotates(s, k.shell);
    k.Tick(pushed, between);
    RunAndTick(k, evs, pushed', between');
    SameCounters(k);
    RunningProcess(k);
  }

  // The byte a user of the process reads at a virtual address.
  ghost function UserByte(k: Kernel, va: nat): Option<int>
    requires k.Valid() && va < 0x1_0000_0000
    reads k, k.mem, k.depth, k.tEsp, k.tEbp, k.mmu, k.mmu.pd, k.mmu.pt
  {
    var a := Paging.UserReach(Paging.Walk(k.mmu.pd[..], k.mmu.pt[..], k.mmu.table, va), va, false);
    if a.Some? && a.value < k.mem.Length then Some(k.mem[a.value]) else None
  }

  lemma ReadsOwn(k: Kernel, va: nat)
    requires k.Valid() && k.spec.depth[k.exec] >= 0 && USER_MEM_START <= va < USER_MEM_START + USER_MEM_SIZE
    ensures Good(k.spec) && UserByte(k, va) == Some(k.spec.user[Top(k.spec)][va - USER_MEM_START])
  {
    hide Holds, Running, BootOrder, Paging.Shape, Paging.Walk, UserAt, FdsAt;
    Paging.UserReaches(k.mmu.pd[..], k.mmu.pt[..], k.mmu.table, FrameOf(k.spec), k.video, va, false);
    RunningProcess(k);
    UserAtIs(k.mem[..], Top(k.spec), va - USER_MEM_START);
  }

  lemma UserAtIs(m: seq<int>, k: int, offset: int)
    requires |m| == MEMORY && 0 <= k < SLOTS && 0 <= offset < USER_MEM_SIZE
    ensures 0 <= Frame(k) + offset < MEMORY && UserAt(m, k)[offset] == m[Frame(k) + offset]
  {
  }

  // The executed program finds its image, byte by byte, at virtual address 0x08048000.
  method ExecuteLoads(k: Kernel, prog: Program, pushed: seq<int>, params: int, between: set<nat>)
    requires k.Valid() && Booted(k.spec) && Loadable(prog) && k.pid < MAX_PID && |pushed| <= k.esp - LowOf(k.spec)
    modifies k, k.mem, k.depth, k.mmu, k.mmu.pd
    ensures k.Valid() && k.exec == old(k.exec) && k.depth[k.exec] == old(k.depth[k.exec]) + 1
    ensures forall i :: 0 <= i < |prog.image| ==> UserByte(k, 0x08048000 + i) == Some(prog.image[i])
  {
    hide Agrees, BootOrder, Processes.Execute, Paging.Shape, Paging.Coherent, UserByte;
    ghost var s := k.spec;
    SameCounters(k);
    var _ := k.Execute(prog, pushed, params, between);
    SameCounters(k);
    LoadsImage(s, prog);
    forall i | 0 <= i < |prog.image|
      ensures UserByte(k, 0x08048000 + i) == Some(prog.image[i])
    {
      ReadsOwn(k, 0x08048000 + i);
    }
  }

  lemma LoadsImage(s: Spec, prog: Program)
    requires Good(s) && Booted(s) && Loadable(prog) && Pid(s.depth) < MAX_PID
    ensures var r := Execute(s, prog);
      && r.run == s.run && r.depth[s.run] == s.depth[s.run] + 1
      && forall i :: 0 <= i < |prog.image| ==> r.user[Top(r)][0x48000 + i] == prog.image[i]
  {
    hide WithStdio;
  }

  // A tick, and any run after it: the running process's video page is the one its terminal's screen is in unless an
  // event of the run took it off the screen.
  method TickAndRun(k: Kernel, tick: Event, evs: seq<Event>)
    requires k.Valid() && Loadable(k.shell) && Enabled(k.spec, tick) && tick.DoTick?
    requires Runnable(Step(k.spec, tick, k.shell), evs, k.shell)
    modifies k, k.mem, k.depth, k.tEsp, k.tEbp, k.mmu, k.mmu.pd, k.mmu.pt
    ensures k.Valid() && k.spec == RunOf(Step(old(k.spec), tick, k.shell), evs, k.shell)
    ensures var s, v := old(k.spec), View(old(k.display), old(k.video));
      NeverStrays(Step(s, tick, k.shell), ViewAfter(s, v, tick), evs, k.shell) ==>
        k.video == None || k.video == Some(ScreenPage(k.display, k.exec))
  {
    hide Agrees, BootOrder, Step, Enabled, Runnable, RunOf, ViewAfter, ViewOf, StaysOnScreen, NeverStrays,
      Paging.Shape, Paging.Coherent;
    ghost var s, v := k.spec, View(k.display, k.video);
    PageHeld(k);
    OnScreenIff(s, v, tick, evs, k.shell);
    k.Handle(tick);
    k.Run(evs);
    SameCounters(k);
    if NeverStrays(Step(s, tick, k.shell), ViewAfter(s, v, tick), evs, k.shell) {
      StaysAtEnd(Step(s, tick, k.shell), ViewAfter(s, v, tick), evs, k.shell);
    }
  }

  // Two opens in a row: no descriptor is given out twice, except that a file of unknown type leaves its own free.
  method OpenTwice(k: Kernel, first: Lookup, second: Lookup) returns (a: int, b: int)
    requires k.Valid() && k.spec.depth[k.exec] >= 0
    modifies k`spec, k.mem
    ensures k.Valid() && k.spec.depth == old(k.spec.depth)
    ensures a >= 0 && b >= 0 ==> first.Entry? && (a != b <==> 0 <= first.fileType <= 2) && a <= b
  {
    hide Agrees, BootOrder, Opened, OpenFds;
    ghost var s := k.spec;
    SameCounters(k);
    a := k.Open(first);
    SameCounters(k);
    b := k.Open(second);
    if a >= 0 {
      NextOpen(s.fds[Top(s)], first.fileType, first.inode, a, OpenFds(s.fds[Top(s)], first));
    }
  }

  lemma PageHeld(k: Kernel)
    requires k.Valid()
    ensures Good(k.spec) && VideoPage(k.video, k.spec)
  {
    hide Holds, Running, Good, Paging.Shape, Paging.Coherent;
    GoodDepths(k.spec);
  }
}
