// The kernel's operations on that memory (student-distrib/system_call.c, student-distrib/scheduler.c).
module Kernels {
  import opened Layout
  import opened Processes
  import opened KernelMemory
  import opened Options
  import opened VideoPages
  import Paging
  import Runs

  ghost function FrameOf(s: Spec): Option<nat>
    requires WellFormed(s)
  {
    if s.depth[s.run] >= 0 then Some(Frame(Top(s))) else None
  }

  // The abstract state before the first tick.
  function BootSpec(mem: seq<int>): Spec
    requires |mem| == MEMORY
  {
    Spec([-1, -1, -1], 0, Context(USER_PHYS_MEM_START, 0, []), seq(SLOTS, _ => Context(0, 0, [])),
         seq(SLOTS, k requires 0 <= k < SLOTS => UserAt(mem, k)),
         seq(SLOTS, k requires 0 <= k < SLOTS => FdsAt(mem, PcbAt(k))), false)
  }

  lemma BootHolds(mem: seq<int>, tEsp: seq<int>, tEbp: seq<int>)
    requires |mem| == MEMORY && |tEsp| == |tEbp| == NUM_TERMINALS
    ensures var s := BootSpec(mem);
      Good(s) && Holds(mem, tEsp, tEbp, s) && Running(mem, USER_PHYS_MEM_START, 0, s)
  {
    hide UserAt, FdsAt;
  }

  // No abstract state fits these depths and this running terminal.
  ghost predicate Broken(depth: seq<int>, exec: int) {
    forall s :: Good(s) ==> s.depth != depth || s.run != exec
  }

  // A terminal that loses its root shell leaves the boot order for good.
  lemma NoRootShell(s: Spec, depth: seq<int>)
    requires Good(s) && s.depth[s.run] == 0 && depth == s.depth[s.run := -1]
    ensures Broken(depth, s.run)
  {
  }

  // A store that reaches the user page or the user video page.
  lemma StoreSomewhere(m: seq<int>, tEsp: seq<int>, tEbp: seq<int>, s: Spec, esp: int, ebp: int, va: int, v: int,
                       video: Option<nat>, a: int)
    requires |m| == MEMORY && Good(s) && |tEsp| == |tEbp| == NUM_TERMINALS
    requires Holds(m, tEsp, tEbp, s) && Running(m, esp, ebp, s) && VideoPage(video, s)
    requires
      || (USER_MEM_START <= va < USER_MEM_START + USER_MEM_SIZE && s.depth[s.run] >= 0
          && a == Frame(Top(s)) + (va - USER_MEM_START))
      || (USER_MEM_START + USER_MEM_SIZE <= va < USER_MEM_START + USER_MEM_SIZE + 0x1000 && video.Some?
          && a == video.value + (va - USER_MEM_START - USER_MEM_SIZE))
    ensures 0 <= a < MEMORY
    ensures Holds(m[a := v], tEsp, tEbp, Store(s, va, v)) && Running(m[a := v], esp, ebp, Store(s, va, v))
  {
    hide Holds, Running;
    if va < USER_MEM_START + USER_MEM_SIZE {
      StoreHolds(m, tEsp, tEbp, s, esp, ebp, va, v);
    } else {
      VideoHolds(m, tEsp, tEbp, s, esp, ebp, a, v);
    }
  }

  // Where a kernel store to a user pointer goes.
  lemma KernelStores(pd: seq<nat>, pt: seq<nat>, table: nat, frame: nat, video: Option<nat>, va: nat)
    requires Paging.Shape(pd, pt, table, Some(frame), video)
    requires USER_MEM_START <= va <= USER_MEM_START + USER_MEM_SIZE
    ensures |pd| == |pt| == Paging.ENTRIES
    ensures Paging.KernelReach(Paging.Walk(pd, pt, table, va), va) ==
      if va < USER_MEM_START + USER_MEM_SIZE then Some(frame + (va - USER_MEM_START)) else video
  {
    Paging.TablePresent(pd, pt, table, Some(frame), video);
    hide Paging.Walk, Paging.Shape, Paging.KernelReach;
    if va < USER_MEM_START + USER_MEM_SIZE {
      Paging.KernelReachesUser(pd, pt, table, frame, video, va);
    } else {
      Paging.KernelReachesVideo(pd, pt, table, Some(frame), video);
    }
  }

  // The kernel's variables and memory agree with the abstract machine.
  ghost predicate Agrees(s: Spec, depth: seq<int>, pid: int, exec: int, display: int, exceptionFlag: bool,
                         mem: seq<int>, tEsp: seq<int>, tEbp: seq<int>, esp: int, ebp: int, video: Option<nat>)
    requires WellFormed(s) && |tEsp| == |tEbp| == NUM_TERMINALS
  {
    && depth == s.depth && exec == s.run && pid == Pid(s.depth) && 0 <= display < NUM_TERMINALS
    && exceptionFlag == s.faulted
    && Holds(mem, tEsp, tEbp, s) && Running(mem, esp, ebp, s) && VideoPage(video, s)
  }

  // ... and go on agreeing when a process is started.
  lemma StartAgrees(s: Spec, depth: seq<int>, pid: int, exec: int, display: int, exceptionFlag: bool, m: seq<int>,
                    esps: seq<int>, ebps: seq<int>, esp: int, ebp: int, video: Option<nat>, t: int, d: int,
                    image: seq<int>, m': seq<int>, display': int, tEsp: seq<int>, tEbp: seq<int>)
    requires Good(s) && |esps| == |ebps| == |tEsp| == |tEbp| == NUM_TERMINALS && 0 <= display' < NUM_TERMINALS
    requires Agrees(s, depth, pid, exec, display, exceptionFlag, m, esps, ebps, esp, ebp, video)
    requires StartCase(s, t, d) && |image| <= USER_MEM_SIZE - LOAD_OFFSET && |m'| == MEMORY
    requires Started(m, m', LowOf(s), esp, ebp, Slot(t, d), image)
    requires SavedInArrays(s, t, esp, ebp, esps, ebps, tEsp, tEbp)
    ensures var r, top := Start(SetAside(s), t, d, image), StackTop(Slot(t, d));
      && Agrees(r, s.depth[t := d], Pid(s.depth[t := d]), t, display', exceptionFlag, m', tEsp, tEbp, top, ebp, video)
      && r.depth[r.run] == d && Top(r) == Slot(t, d)
  {
    hide Started, Stores, Parents, Preempted, Running, SavedInArrays, Start, SetAside;
    RunningBounds(m, esp, ebp, s);
    StartCounts(s, t, d, image);
    StartHolds(m, m', esp, ebp, esps, ebps, tEsp, tEbp, s, t, d, image);
  }

  lemma StdioAgrees(s: Spec, depth: seq<int>, pid: int, exec: int, display: int, exceptionFlag: bool, m: seq<int>,
                    tEsp: seq<int>, tEbp: seq<int>, esp: int, ebp: int, video: Option<nat>)
    requires Good(s) && s.depth[s.run] >= 0 && |tEsp| == |tEbp| == NUM_TERMINALS && HasStdio(s.fds[Top(s)])
    requires Agrees(s, depth, pid, exec, display, exceptionFlag, m, tEsp, tEbp, esp, ebp, video)
    ensures |m| == MEMORY && StdioCells(m, PcbAt(Top(s)))
  {
    hide Holds, Running, FdsAt, BootOrder, StdioCells, HasStdio;
    FdsHeld(m, tEsp, tEbp, s);
    StdioHeld(m, PcbAt(Top(s)));
  }

  // The shell a boot tick starts.
  lemma NextShell(s: Spec, shell: Program)
    requires Good(s) && Pid(s.depth) <= 1
    ensures var t := 1 - Pid(s.depth);
      && StartCase(s, t, 0) && s.depth[t] == -1 && Broken(s.depth, t)
      && (Loadable(shell) ==> Tick(s, shell) == Start(SetAside(s), t, 0, shell.image))
  {
    hide Start, SetAside;
  }

  // What a start needs to know of the state it starts from.
  lemma AgreesBounds(s: Spec, depth: seq<int>, pid: int, exec: int, display: int, exceptionFlag: bool, m: seq<int>,
                     tEsp: seq<int>, tEbp: seq<int>, esp: int, ebp: int, video: Option<nat>, k: int)
    requires Good(s) && |tEsp| == |tEbp| == NUM_TERMINALS
    requires Agrees(s, depth, pid, exec, display, exceptionFlag, m, tEsp, tEbp, esp, ebp, video)
    ensures depth == s.depth && exec == s.run && pid == Pid(s.depth) && exceptionFlag == s.faulted
    ensures 0 <= display < NUM_TERMINALS && |m| == MEMORY
    ensures 0 <= LowOf(s) <= esp <= HighOf(s) <= USER_PHYS_MEM_START && s.current.esp == esp
    ensures 0 <= k ==> Apart(LowOf(s), esp, PcbAt(k), PcbAt(k) + PCB_SIZE)
  {
    hide Stores, Parents, Preempted, Running;
    RunningBounds(m, esp, ebp, s);
    if 0 <= k {
      OwnStackApart(s, k);
    }
  }

  // ... and when the scheduler switches to the next terminal, having pushed below the stack pointer.
  lemma SwitchAgrees(s: Spec, display: int, exceptionFlag: bool, m: seq<int>, esps: seq<int>, ebps: seq<int>, esp: int,
                     ebp: int, video: Option<nat>, m': seq<int>, words: seq<int>, shell: Program, video': Option<nat>)
    requires Good(s) && Booted(s) && |esps| == |ebps| == NUM_TERMINALS
    requires Agrees(s, s.depth, Pid(s.depth), s.run, display, exceptionFlag, m, esps, ebps, esp, ebp, video)
    requires |m'| == |m| == MEMORY && |words| <= esp - LowOf(s) && Written(m, m', esp - |words|, words)
    requires var next := (s.run + 1) % NUM_TERMINALS;
      video' == Some(ScreenPage(display, next))
    ensures var r, tEsp, tEbp := Tick(s, shell), esps[s.run := esp], ebps[s.run := ebp];
      && Agrees(r, s.depth, Pid(s.depth), r.run, display, exceptionFlag, m', tEsp, tEbp, tEsp[r.run], tEbp[r.run],
                video')
      && r.depth == s.depth && r.run == (s.run + 1) % NUM_TERMINALS && Booted(r)
  {
    hide Stores, Parents, Preempted, Running, Tick, BootOrder;
    PushHolds(m, m', esps, ebps, s, esp, ebp, |words|);
    TickRotates(s, shell);
    SwitchHolds(m', esps, ebps, s, esp, ebp, shell);
  }

  // vidmap's test of the user's pointer, read as a signed number.
  predicate ScreenStartAccepted(screenStart: int) {
    var signed := if screenStart < 0x8000_0000 then screenStart else screenStart - 0x1_0000_0000;
    !(signed < USER_MEM_START || signed > USER_MEM_START + USER_MEM_SIZE)
  }

  // The four pointers it accepts although the word stored there is not inside the user page; one is the page's end.
  lemma ScreenStartStrays(screenStart: int)
    requires 0 <= screenStart < 0x1_0000_0000
    ensures var end := USER_MEM_START + USER_MEM_SIZE;
      && (ScreenStartAccepted(screenStart) && !(USER_MEM_START <= screenStart && screenStart + 4 <= end)
          <==> end - 3 <= screenStart <= end)
      && ScreenStartAccepted(0x8400000) && end == 0x8400000
  {
  }

  class Kernel {
    const mem: array<int>        // physical memory
    const depth: array<int>      // terminal_process_num
    const tEsp: array<int>       // terminal_esp
    const tEbp: array<int>       // terminal_ebp
    const mmu: Paging.Mmu
    const shell: Program         // what the file system holds under the name "shell"
    var pid: int
    var exec: int                // cur_execute_terminal
    var display: int             // cur_display_terminal
    var esp0: int                // tss.esp0
    var esp: int
    var ebp: int
    var exceptionFlag: bool
    ghost var spec: Spec
    ghost var video: Option<nat>

    // The objects the kernel is made of are distinct and have their sizes.
    ghost predicate Built()
      reads this
    {
      && mem.Length == MEMORY && depth.Length == tEsp.Length == tEbp.Length == NUM_TERMINALS
      && mem != depth && mem != tEsp && mem != tEbp && depth != tEsp && depth != tEbp && tEsp != tEbp
      && (mmu.pd as object) !in {mem as object, depth as object, tEsp as object, tEbp as object}
      && (mmu.pt as object) !in {mem as object, depth as object, tEsp as object, tEbp as object}
      && (shell.Elf? ==> Loadable(shell))
    }

    ghost predicate Valid()
      reads this, mem, depth, tEsp, tEbp, mmu, mmu.pd, mmu.pt
    {
      && Built() && Good(spec)
      && Agrees(spec, depth[..], pid, exec, display, exceptionFlag, mem[..], tEsp[..], tEbp[..], esp, ebp, video)
      && (spec.depth[exec] >= 0 ==> esp0 == StackTop(Top(spec)))
      && mmu.Maps(FrameOf(spec), video)
    }

    // Boot: the paging structures are built, no shell is running, and the control blocks are zero.
    constructor (mem: array<int>, table: nat, shell: Program, between: set<nat>)
      requires mem.Length == MEMORY && table % 0x1000 == 0 && table < 0x1_0000_0000
      requires shell.Elf? ==> Loadable(shell)
      requires forall k :: 0 <= k < SLOTS ==> FdsAt(mem[..], PcbAt(k)) == seq(8, _ => Fd(NULL, 0, 0, 0))
      ensures Valid() && spec.depth == [-1, -1, -1] && this.mem == mem && this.shell == shell
      ensures pid == -1 && exec == display == 0 && !exceptionFlag && video == None
      ensures fresh(depth) && fresh(tEsp) && fresh(tEbp) && fresh(mmu) && fresh(mmu.pd) && fresh(mmu.pt)
      ensures Runs.FreeAbove(spec)
    {
      this.mem, this.shell := mem, shell;
      pid, exec, display, exceptionFlag := -1, 0, 0, false;
      depth := new int[NUM_TERMINALS](_ => -1);
      tEsp := new int[NUM_TERMINALS](_ => 0);
      tEbp := new int[NUM_TERMINALS](_ => 0);
      esp0, esp, ebp := USER_PHYS_MEM_START, USER_PHYS_MEM_START, 0;
      mmu := new Paging.Mmu(table);
      spec := BootSpec(mem[..]);
      video := None;
      new;
      mmu.InitPaging(between);
      BootHolds(mem[..], tEsp[..], tEbp[..]);
      assert depth[..] == [-1, -1, -1];
    }

    // The counters as they stand.
    function Counts(): (c: Counters)
      requires Built() && 0 <= exec < NUM_TERMINALS
      reads this, depth
      ensures Countable(c)
    {
      Counters(pid, depth[..], exec)
    }

    // getPCB
    function GetPCB(): int
      requires Built() && 0 <= exec < NUM_TERMINALS
      reads this, depth
    {
      USER_PHYS_MEM_START - KERNEL_STACK_SIZE * (exec + 1) - depth[exec] * NUM_TERMINALS * KERNEL_STACK_SIZE
    }

    // The compiler's pushes below the stack pointer.
    method Push(words: seq<int>)
      requires mem.Length == MEMORY && 0 <= esp - |words| && esp <= MEMORY
      modifies mem
      ensures Written(old(mem[..]), mem[..], esp - |words|, words)
    {
      for i := 0 to |words|
        invariant Written(old(mem[..]), mem[..], esp - |words|, words[..i])
      {
        mem[esp - |words| + i] := words[i];
      }
    }

    // read_data(inode, 0, 0x08048000, size): the image is stored through the user page just mapped.
    method Load(image: seq<int>, ghost k: int, ghost video: Option<nat>)
      requires Built() && 0 <= k < SLOTS && |image| <= USER_MEM_SIZE - LOAD_OFFSET
      requires mmu.Maps(Some(Frame(k)), video)
      modifies mem
      ensures Outside(old(mem[..]), mem[..], Frame(k), Frame(k) + USER_MEM_SIZE)
      ensures UserAt(mem[..], k) == Loaded(UserAt(old(mem[..]), k), image)
    {
      hide Loaded, UserAt, Paging.Shape, Paging.Coherent, Paging.Walk, Paging.KernelReach;
      ghost var was := mem[..];
      LoadNothing(UserAt(was, k));
      assert image[..0] == [];
      for i := 0 to |image|
        invariant Outside(was, mem[..], Frame(k), Frame(k) + USER_MEM_SIZE)
        invariant UserAt(mem[..], k) == Loaded(UserAt(was, k), image[..i])
      {
        var t := mmu.Translate(0x08048000 + i);
        Paging.KernelReachesUser(mmu.pd[..], mmu.pt[..], mmu.table, Frame(k), video, 0x08048000 + i);
        var a := Paging.KernelReach(t, 0x08048000 + i);
        UserStored(mem[..], k, LOAD_OFFSET + i, image[i]);
        LoadOne(UserAt(was, k), image[..i], image[i]);
        assert image[..i + 1] == image[..i] + [image[i]];
        mem[a.value] := image[i];
      }
      assert image[..|image|] == image;
    }

    // Assign the four fields of descriptor i of the control block at pcb.
    method SetFd(pcb: int, i: int, fd: Fd)
      requires 0 <= pcb && pcb + PCB_SIZE <= mem.Length && 0 <= i < 8
      modifies mem
      ensures Outside(old(mem[..]), mem[..], pcb + 16 * i, pcb + 16 * i + 16)
      ensures FdsAt(mem[..], pcb) == FdsAt(old(mem[..]), pcb)[i := fd]
    {
      FdStored(mem[..], pcb, i, fd);
      mem[pcb + 16 * i] := fd.fops;
      mem[pcb + 16 * i + 4] := fd.inode;
      mem[pcb + 16 * i + 8] := fd.position;
      mem[pcb + 16 * i + 12] := fd.flags;
    }

    // The control block of the process being started: standard input and output, arguments, pids and the context of
    // the caller. Descriptors 2 to 7 are left as they are.
    method FillPcb(pcb: int, ghost k: int, params: int)
      requires Built() && 0 <= k < SLOTS && pcb == PcbAt(k)
      modifies mem
      ensures Outside(old(mem[..]), mem[..], PcbAt(k), PcbAt(k) + PCB_SIZE)
      ensures FdsAt(mem[..], PcbAt(k)) == WithStdio(FdsAt(old(mem[..]), PcbAt(k)))
      ensures StdioCells(mem[..], PcbAt(k))
      ensures mem[PcbAt(k) + PARENT_ESP] == mem[PcbAt(k) + 136] == esp
      ensures mem[PcbAt(k) + PARENT_EBP] == mem[PcbAt(k) + 140] == ebp
      ensures mem[PcbAt(k) + 128] == pid && mem[PcbAt(k) + 132] == pid - 1 && mem[PcbAt(k) + 144] == params
    {
      hide FdsAt, StdioCells;
      SetFd(pcb, 0, STDIO);
      SetFd(pcb, 1, STDIO);
      ghost var m := mem[..];
      mem[pcb + 144] := params;
      mem[pcb + 128], mem[pcb + 132] := pid, pid - 1;
      mem[pcb + PARENT_ESP] := esp;
      mem[pcb + PARENT_EBP] := ebp;
      FdsElsewhere(m, mem[..], pcb);
      StdioHeld(mem[..], pcb);
    }

    // The second half of execute: the new process's page, its image, its control block and the iret that enters it.
    method StartImage(image: seq<int>, pushed: seq<int>, params: int, between: set<nat>,
                      ghost low: int, ghost k: int, ghost frame: Option<nat>)
      requires Built() && 0 <= exec < NUM_TERMINALS && 0 <= depth[exec] <= 3 && k == Slot(exec, depth[exec])
      requires |image| <= USER_MEM_SIZE - LOAD_OFFSET && mmu.Maps(frame, video)
      requires 0 <= low <= esp - |pushed| && esp <= USER_PHYS_MEM_START
      requires Apart(low, esp, PcbAt(k), PcbAt(k) + PCB_SIZE)
      modifies this`esp0, this`esp, mem, mmu`tlb, mmu.pd
      ensures Started(old(mem[..]), mem[..], low, old(esp), ebp, k, image)
      ensures mmu.Maps(Some(Frame(k)), video) && esp == esp0 == StackTop(k)
    {
      hide FdsAt, UserAt, Outside, Started, Loaded, Paging.Shape, Paging.Coherent;
      ghost var m0 := mem[..];
      mmu.MapVirtualAddrToPhysical(USER_MEM_START,
        USER_PHYS_MEM_START + exec * USER_MEM_SIZE + depth[exec] * NUM_TERMINALS * USER_MEM_SIZE, between,
        frame, video);
      Load(image, k, video);
      ghost var m1 := mem[..];
      FillPcb(GetPCB(), k, params);
      ghost var m2 := mem[..];
      esp0 := USER_PHYS_MEM_START - KERNEL_STACK_SIZE * (exec + 1)
        - depth[exec] * NUM_TERMINALS * KERNEL_STACK_SIZE - 4;
      Push(pushed);
      StartedBy(m0, m1, m2, mem[..], low, esp, ebp, k, image, |pushed|);
      // iret to user mode: the next entry to the kernel starts at esp0
      esp := esp0;
    }

    // execute, from the incremented counters to the iret: low is the bottom of the stack it runs on.
    method ExecuteCommand(prog: Program, pushed: seq<int>, params: int, between: set<nat>,
                          ghost low: int, ghost frame: Option<nat>) returns (ret: int)
      requires Built() && 0 <= exec < NUM_TERMINALS && (prog.Elf? ==> Loadable(prog))
      requires -1 <= depth[exec] <= 3 && (depth[exec] == 3 ==> pid >= MAX_PID)
      requires mmu.Maps(frame, video)
      requires 0 <= low <= esp - |pushed| && esp <= USER_PHYS_MEM_START
      requires Apart(low, esp, PcbAt(Slot(exec, depth[exec] + 1)), PcbAt(Slot(exec, depth[exec] + 1)) + PCB_SIZE)
      modifies this`pid, this`esp0, this`esp, mem, depth, mmu`tlb, mmu.pd
      ensures ret == if old(pid) >= MAX_PID then 0 else if !prog.Elf? then -1 else 1
      ensures ret != 1 ==>
        && pid == old(pid) && depth[..] == old(depth[..]) && mem[..] == old(mem[..]) && mmu.Maps(frame, video)
        && esp == old(esp) && esp0 == old(esp0)
      ensures ret == 1 ==>
        var k := Slot(exec, old(depth[exec]) + 1);
        && pid == old(pid) + 1 && depth[..] == old(depth[..])[exec := old(depth[exec]) + 1]
        && |mem[..]| == MEMORY && Started(old(mem[..]), mem[..], low, old(esp), ebp, k, prog.image)
        && mmu.Maps(Some(Frame(k)), video)
        && esp == esp0 == StackTop(k)
    {
      hide Started, Paging.Shape, Paging.Coherent;
      pid := pid + 1;
      if pid > MAX_PID {
        pid := pid - 1;
        return 0;
      }
      depth[exec] := depth[exec] + 1;
      if prog == Absent {
        pid := pid - 1;
        depth[exec] := depth[exec] - 1;
        assert depth[..] == old(depth[..]);
        return -1;
      }
      if prog == NotElf {
        pid := pid - 1;
        depth[exec] := depth[exec] - 1;
        assert depth[..] == old(depth[..]);
        return -1;
      }
      StartImage(prog.image, pushed, params, between, low, Slot(exec, depth[exec]), frame);
      return 1;
    }

    // The execute system call of the running process. It returns at once only when nothing is started.
    method Execute(prog: Program, pushed: seq<int>, params: int, between: set<nat>) returns (ret: int)
      requires Valid() && Booted(spec) && (prog.Elf? ==> Loadable(prog)) && |pushed| <= esp - LowOf(spec)
      modifies this`pid, this`esp0, this`esp, this`spec, mem, depth, mmu`tlb, mmu.pd
      ensures Valid() && spec == Processes.Execute(old(spec), prog)
      ensures ret == if old(pid) == MAX_PID then 0 else if !prog.Elf? then -1 else 1
      ensures Counts() == if prog.Elf? then CountExecute(old(Counts())) else old(Counts())
      ensures ret == 1 ==> 0 <= Slot(exec, depth[exec]) < SLOTS && StdioCells(mem[..], PcbAt(Slot(exec, depth[exec])))
    {
      hide StdioCells, FdsAt, Agrees, Started, Start, SetAside, BootOrder, LowOf, HighOf, Paging.Shape, Paging.Coherent;
      ghost var s, m := spec, mem[..];
      ghost var d := s.depth[s.run] + 1;
      AgreesBounds(s, depth[..], pid, exec, display, exceptionFlag, m, tEsp[..], tEbp[..], esp, ebp, video,
                   Slot(s.run, d));
      ExecuteCounts(s, prog);
      ret := ExecuteCommand(prog, pushed, params, between, LowOf(s), FrameOf(s));
      if ret == 1 {
        StartAgrees(s, s.depth, Pid(s.depth), exec, display, exceptionFlag, m, tEsp[..], tEbp[..], old(esp), ebp, video,
                    exec, d, prog.image, mem[..], display, tEsp[..], tEbp[..]);
        spec := Processes.Execute(s, prog);
        StartsWithStdio(s, exec, d, prog.image);
        StdioAgrees(spec, depth[..], pid, exec, display, exceptionFlag, mem[..], tEsp[..], tEbp[..], esp, ebp, video);
      }
    }

    // close(fd) on the control block getPCB() finds now; the operation table's own close functions do nothing.
    method CloseAt(pcb: int, fd: int) returns (ret: int)
      requires Built() && 0 <= pcb && pcb + PCB_SIZE <= MEMORY
      modifies mem
      ensures Outside(old(mem[..]), mem[..], pcb, pcb + 128)
      ensures FdsAt(mem[..], pcb) == CloseFds(FdsAt(old(mem[..]), pcb), fd)
      ensures ret == if 2 <= fd <= 7 && FdsAt(old(mem[..]), pcb)[fd].flags != 0 then 0 else -1
    {
      if fd < 2 || fd > 7 {
        return -1;
      }
      if mem[pcb + 16 * fd + 12] == 0 {
        return -1;
      }
      SetFd(pcb, fd, CLOSED);
      return 0;
    }

    // halt's loop over descriptors 2 to 7. The depth is already decremented, so close works on the parent; the entries
    // cleared directly are the halted process's own.
    method TearDown(ghost child: int, ghost parent: int, pcb: int)
      requires Built() && 0 <= exec < NUM_TERMINALS && 0 <= child < SLOTS && 0 <= parent < SLOTS && child != parent
      requires pcb == PcbAt(child) && GetPCB() == PcbAt(parent)
      modifies mem
      ensures Halted(old(mem[..]), mem[..], child, parent)
      ensures mem[pcb + PARENT_ESP] == old(mem[pcb + PARENT_ESP]) && mem[pcb + PARENT_EBP] == old(mem[pcb + PARENT_EBP])
    {
      hide FdsAt, Outside;
      ghost var m := mem[..];
      SlotsApart(child, parent);
      TornStart(m, child, parent);
      for i := 2 to 8
        invariant GetPCB() == PcbAt(parent)
        invariant Torn(m, mem[..], child, parent, i)
      {
        ghost var m1 := mem[..];
        var _ := CloseAt(GetPCB(), i);
        ghost var m2 := mem[..];
        SetFd(pcb, i, CLOSED);
        TornNext(m, m1, m2, mem[..], child, parent, i);
      }
      TornAll(m, mem[..], child, parent);
    }

    // A root shell that halts starts the shell again. With no shell to load, its terminal is left without any process
    // while it is being executed, which no good state allows.
    method RestartRoot(pushed: seq<int>, between: set<nat>)
      requires Valid() && spec.depth[exec] == 0 && |pushed| <= esp - LowOf(spec)
      modifies this`pid, this`esp0, this`esp, this`spec, mem, depth, mmu`tlb, mmu.pd
      ensures shell.Elf? ==> Valid() && spec == Processes.Halt(old(spec), shell)
      ensures !shell.Elf? ==>
        pid == old(pid) - 1 && depth[..] == old(depth[..])[exec := -1] && Broken(depth[..], exec)
    {
      hide Agrees, Started, Start, SetAside, LowOf, HighOf, BootOrder, Paging.Shape, Paging.Coherent;
      ghost var s, m := spec, mem[..];
      AgreesBounds(s, depth[..], pid, exec, display, exceptionFlag, m, tEsp[..], tEbp[..], esp, ebp, video,
                   Slot(exec, 0));
      pid := pid - 1;
      depth[exec] := depth[exec] - 1;
      var r := ExecuteCommand(shell, pushed, 0, between, LowOf(s), FrameOf(s));
      if r == 1 {
        StartAgrees(s, s.depth, Pid(s.depth), exec, display, exceptionFlag, m, tEsp[..], tEbp[..], old(esp), ebp, video,
                    exec, 0, shell.image, mem[..], display, tEsp[..], tEbp[..]);
        assert depth[..] == s.depth == s.depth[exec := 0];
        spec := Processes.Halt(s, shell);
      } else {
        NoRootShell(s, depth[..]);
      }
    }

    method ResetPcb(pcb: int)
      requires 0 <= pcb && pcb + PCB_SIZE <= mem.Length
      modifies mem
      ensures Outside(old(mem[..]), mem[..], pcb + 128, pcb + PARENT_EBP + 1)
      ensures mem[pcb + 128] == mem[pcb + 132] == -1 && mem[pcb + PARENT_ESP] == mem[pcb + PARENT_EBP] == 0
    {
      mem[pcb + 128], mem[pcb + 132] := -1, -1;
      mem[pcb + PARENT_ESP] := 0;
      mem[pcb + PARENT_EBP] := 0;
    }

    // The halted process's user page and video page go, and the parent's user page comes back.
    method MapParent(between: set<nat>, ghost frame: Option<nat>)
      requires Built() && 0 <= exec < NUM_TERMINALS && 0 <= depth[exec] <= 3 && mmu.Maps(frame, video)
      modifies this`video, mmu`tlb, mmu.pd, mmu.pt
      ensures video == None && mmu.Maps(Some(Frame(Slot(exec, depth[exec]))), video)
    {
      mmu.RemovePage(USER_MEM_START, between, frame, video);
      mmu.Remove4kbPage(USER_MEM_START + USER_MEM_SIZE, between, None, video);
      video := None;
      mmu.FlushTlbAgain(None, video);
      mmu.MapVirtualAddrToPhysical(USER_MEM_START,
        USER_PHYS_MEM_START + exec * USER_MEM_SIZE + depth[exec] * NUM_TERMINALS * USER_MEM_SIZE, between, None, video);
    }

    // The user page and the video page of the terminal about to run.
    method MapNext(between: set<nat>, ghost frame: Option<nat>)
      requires Built() && 0 <= exec < NUM_TERMINALS && 0 <= depth[exec] <= 3 && mmu.Maps(frame, video)
      modifies this`video, mmu`tlb, mmu.pd, mmu.pt
      ensures video == Some(ScreenPage(display, exec))
      ensures mmu.Maps(Some(Frame(Slot(exec, depth[exec]))), video)
    {
      mmu.MapVirtualAddrToPhysical(USER_MEM_START,
        USER_PHYS_MEM_START + exec * USER_MEM_SIZE + depth[exec] * NUM_TERMINALS * USER_MEM_SIZE, between,
        frame, video);
      var videoPhysMem := VIDEO;
      if display != exec {
        videoPhysMem := Backing(exec);
      }
      mmu.Map4kbPage(USER_MEM_START + USER_MEM_SIZE, videoPhysMem, between,
                     Some(Frame(Slot(exec, depth[exec]))), video);
      video := Some(videoPhysMem);
    }

    // halt from the decremented counters to the reloaded stack pointer.
    method Unwind(between: set<nat>, ghost child: int, ghost parent: int, ghost frame: Option<nat>)
      requires Built() && 0 <= exec < NUM_TERMINALS && 1 <= depth[exec] <= 3 && mmu.Maps(frame, video)
      requires child == Slot(exec, depth[exec]) && parent == Slot(exec, depth[exec] - 1)
      modifies this`pid, this`esp0, this`esp, this`ebp, this`video, mem, depth, mmu`tlb, mmu.pd, mmu.pt
      ensures pid == old(pid) - 1 && depth[..] == old(depth[..])[exec := old(depth[exec]) - 1]
      ensures Halted(old(mem[..]), mem[..], child, parent)
      ensures esp == old(mem[PcbAt(child) + PARENT_ESP]) && ebp == old(mem[PcbAt(child) + PARENT_EBP])
      ensures esp0 == StackTop(parent) && video == None && mmu.Maps(Some(Frame(parent)), video)
    {
      hide Halted, FdsAt, Paging.Shape, Paging.Coherent;
      var pcb := GetPCB();
      pid := pid - 1;
      depth[exec] := depth[exec] - 1;
      TearDown(child, parent, pcb);
      MapParent(between, frame);
      esp0 := USER_PHYS_MEM_START - KERNEL_STACK_SIZE * (exec + 1)
        - depth[exec] * NUM_TERMINALS * KERNEL_STACK_SIZE - 4;
      var parentEbp, parentEsp := mem[pcb + PARENT_EBP], mem[pcb + PARENT_ESP];
      ghost var m := mem[..];
      ResetPcb(pcb);
      HaltedReset(old(mem[..]), m, mem[..], child, parent);
      esp, ebp := parentEsp, parentEbp;
    }

    // Any other process that halts resumes its parent where it executed the child.
    method ResumeParent(between: set<nat>)
      requires Valid() && spec.depth[exec] >= 1
      modifies this`pid, this`esp0, this`esp, this`ebp, this`exceptionFlag, this`spec, this`video
      modifies mem, depth, mmu`tlb, mmu.pd, mmu.pt
      ensures Valid() && spec == Processes.Halt(old(spec), shell) && video == None
    {
      hide Holds, Running, Halted, FdsAt, Paging.Shape, Paging.Coherent, BootOrder, Processes.Halt;
      ghost var s := spec;
      HaltPops(s, shell);
      exceptionFlag := false;
      Unwind(between, Top(s), Slot(exec, s.depth[exec] - 1), FrameOf(s));
      HaltHolds(old(mem[..]), mem[..], tEsp[..], tEbp[..], s, shell);
      spec := Processes.Halt(s, shell);
    }

    // What the exception handlers do before they halt the process.
    method RaiseException()
      requires Valid()
      modifies this`exceptionFlag, this`spec
      ensures Valid() && spec == Raise(old(spec), true)
    {
      hide Holds, Running, FdsAt, UserAt, Paging.Shape, Paging.Coherent, BootOrder;
      RaiseHolds(mem[..], tEsp[..], tEbp[..], spec, esp, ebp);
      exceptionFlag := true;
      spec := Raise(spec, true);
    }

    // The halt system call. The result is the value the parent's execute returns. A root shell that restarts leaves the
    // exception flag as it is.
    method Halt(status: int, pushed: seq<int>, between: set<nat>) returns (ret: int)
      requires Valid() && spec.depth[exec] >= 0 && |pushed| <= esp - LowOf(spec)
      modifies this`pid, this`esp0, this`esp, this`ebp, this`exceptionFlag, this`spec, this`video
      modifies mem, depth, mmu`tlb, mmu.pd, mmu.pt
      ensures old(spec.depth[exec]) >= 1 || shell.Elf? ==> Valid() && spec == Processes.Halt(old(spec), shell)
      ensures old(spec.depth[exec]) >= 1 || shell.Elf? ==> Counts() == CountHalt(old(Counts()))
      ensures old(spec.depth[exec]) == 0 && !shell.Elf? ==>
        pid == old(pid) - 1 && depth[..] == old(depth[..])[exec := -1] && Broken(depth[..], exec)
      ensures old(spec.depth[exec]) >= 1 ==> ret == Reported(old(spec), status) && !exceptionFlag && video == None
      ensures old(spec.depth[exec]) == 0 ==> ret == 0 && exceptionFlag == old(exceptionFlag) && video == old(video)
    {
      hide Holds, Running, FdsAt, UserAt, Paging.Shape, Paging.Coherent, BootOrder, Processes.Halt, CountHalt;
      ghost var s := spec;
      if depth[exec] == 0 {
        RestartRoot(pushed, between);
        if shell.Elf? {
          HaltCounts(s, shell);
        }
        return 0;
      }
      ret := status;
      if exceptionFlag {
        ret := 256;
      }
      ResumeParent(between);
      HaltPops(s, shell);
      HaltCounts(s, shell);
    }

    // The context of the process that loses the processor goes to the scheduler's arrays, and the next boot shell is
    // started or the next terminal resumed.
    method Tick(pushed: seq<int>, between: set<nat>)
      requires Valid() && |pushed| <= esp - LowOf(spec)
      modifies this, mem, depth, tEsp, tEbp, mmu`tlb, mmu.pd, mmu.pt
      ensures old(Booted(spec)) || shell.Elf? ==> Valid() && spec == Processes.Tick(old(spec), shell)
      ensures !old(Booted(spec)) && !shell.Elf? ==>
        && pid == old(pid) && depth[..] == old(depth[..]) && exec == 1 - pid && depth[..][exec] == -1
        && Broken(depth[..], exec)
      ensures old(Booted(spec)) || shell.Elf? ==> Counts() == CountTick(old(Counts()))
      ensures display == if old(Booted(spec)) then old(display) else 1 - old(pid)
      ensures video == if old(Booted(spec)) then Some(ScreenPage(display, exec)) else old(video)
    {
      hide Holds, Running, Processes.Tick, FdsAt, UserAt, Paging.Shape, Paging.Coherent, CountTick;
      if Booted(spec) || shell.Elf? {
        TickCounts(spec, shell);
      }
      tEsp[exec], tEbp[exec] := esp, ebp;
      if pid == -1 {
        BootShell(2, pushed, between, old(tEsp[..]), old(tEbp[..]));
        return;
      }
      if pid == 0 {
        BootShell(1, pushed, between, old(tEsp[..]), old(tEbp[..]));
        return;
      }
      if pid == 1 {
        BootShell(0, pushed, between, old(tEsp[..]), old(tEbp[..]));
        return;
      }
      RoundRobin(pushed, between, old(tEsp[..]), old(tEbp[..]));
    }

    // The state in the middle of a tick: valid but for the arrays, which already hold the interrupted context.
    ghost predicate MidTick(esps: seq<int>, ebps: seq<int>)
      reads this, mem, depth, tEsp, tEbp, mmu, mmu.pd, mmu.pt
    {
      && Built() && Good(spec) && |esps| == |ebps| == NUM_TERMINALS
      && Agrees(spec, depth[..], pid, exec, display, exceptionFlag, mem[..], esps, ebps, esp, ebp, video)
      && mmu.Maps(FrameOf(spec), video)
      && tEsp[..] == esps[exec := esp] && tEbp[..] == ebps[exec := ebp]
    }

    // One of the three boot branches of the scheduler.
    method BootShell(t: int, pushed: seq<int>, between: set<nat>, ghost esps: seq<int>, ghost ebps: seq<int>)
      requires MidTick(esps, ebps) && |pushed| <= esp - LowOf(spec) && pid <= 1 && t == 1 - pid
      modifies this`pid, this`exec, this`display, this`esp0, this`esp, this`spec, mem, depth, mmu`tlb, mmu.pd
      ensures display == t
      ensures shell.Elf? ==> Valid() && spec == Processes.Tick(old(spec), shell)
      ensures !shell.Elf? ==>
        && pid == old(pid) && depth[..] == old(depth[..]) && exec == t && depth[..][exec] == -1
        && Broken(depth[..], exec)
    {
      hide Agrees, Started, Start, SetAside, LowOf, HighOf, BootOrder, Processes.Tick, Paging.Shape, Paging.Coherent;
      ghost var s, m := spec, mem[..];
      AgreesBounds(s, depth[..], pid, exec, display, exceptionFlag, m, esps, ebps, esp, ebp, video, Slot(t, 0));
      NextShell(s, shell);
      display, exec := t, t;
      var r := ExecuteCommand(shell, pushed, 0, between, LowOf(s), FrameOf(s));
      if r == 1 {
        StartAgrees(s, s.depth, Pid(s.depth), s.run, old(display), exceptionFlag, m, esps, ebps, old(esp), ebp, video,
                    t, 0, shell.image, mem[..], display, tEsp[..], tEbp[..]);
        spec := Processes.Tick(s, shell);
      } else {
        assert depth[..] == s.depth;
      }
    }

    // The next terminal's mappings and the stack its next system call starts on.
    method Rotate(between: set<nat>, ghost frame: Option<nat>)
      requires Built() && 0 <= exec < NUM_TERMINALS && mmu.Maps(frame, video)
      requires 0 <= depth[(exec + 1) % NUM_TERMINALS] <= 3
      modifies this`exec, this`esp0, this`video, mmu`tlb, mmu.pd, mmu.pt
      ensures exec == (old(exec) + 1) % NUM_TERMINALS && esp0 == StackTop(Slot(exec, depth[exec]))
      ensures video == Some(ScreenPage(display, exec))
      ensures mmu.Maps(Some(Frame(Slot(exec, depth[exec]))), video)
    {
      exec := (exec + 1) % NUM_TERMINALS;
      MapNext(between, frame);
      esp0 := USER_PHYS_MEM_START - KERNEL_STACK_SIZE * (exec + 1)
        - depth[exec] * NUM_TERMINALS * KERNEL_STACK_SIZE - 4;
    }

    // The round robin branch of the scheduler.
    method RoundRobin(pushed: seq<int>, between: set<nat>, ghost esps: seq<int>, ghost ebps: seq<int>)
      requires MidTick(esps, ebps) && |pushed| <= esp - LowOf(spec) && Booted(spec)
      modifies this`exec, this`esp0, this`esp, this`ebp, this`spec, this`video, mem, mmu`tlb, mmu.pd, mmu.pt
      ensures Valid() && spec == Processes.Tick(old(spec), shell)
      ensures video == Some(ScreenPage(display, exec))
    {
      hide Agrees, Paging.Shape, Paging.Coherent, BootOrder, Processes.Tick, LowOf, HighOf;
      ghost var s, m, video0 := spec, mem[..], video;
      AgreesBounds(s, depth[..], pid, exec, display, exceptionFlag, m, esps, ebps, esp, ebp, video, 0);
      Push(pushed);
      ghost var m' := mem[..];
      Rotate(between, FrameOf(s));
      SwitchAgrees(s, display, exceptionFlag, m, esps, ebps, esp, ebp, video0, m', pushed, shell, video);
      esp, ebp := tEsp[exec], tEbp[exec];
      spec := Processes.Tick(s, shell);
    }

    // open's scan of descriptors 2 to 7.
    method FirstFree(pcb: int) returns (i: nat)
      requires 0 <= pcb && pcb + PCB_SIZE <= mem.Length
      ensures i == FreeFd(FdsAt(mem[..], pcb), 2)
    {
      hide FdsAt;
      i := 2;
      while i < 8 && mem[pcb + 16 * i + 12] != 0
        invariant 2 <= i <= 8 && FreeFd(FdsAt(mem[..], pcb), 2) == FreeFd(FdsAt(mem[..], pcb), i)
      {
        FlagsAt(mem[..], pcb, i);
        i := i + 1;
      }
      if i < 8 {
        FlagsAt(mem[..], pcb, i);
      }
    }

    // The three open functions; a file of any other type is not installed.
    method Install(pcb: int, i: int, found: Lookup)
      requires 0 <= pcb && pcb + PCB_SIZE <= mem.Length && 2 <= i < 8 && found.Entry?
      requires i == FreeFd(FdsAt(mem[..], pcb), 2)
      modifies mem
      ensures Outside(old(mem[..]), mem[..], pcb, pcb + 128)
      ensures FdsAt(mem[..], pcb) == OpenFds(FdsAt(old(mem[..]), pcb), found)
    {
      hide FdsAt;
      if found.fileType == 0 {
        SetFd(pcb, i, Fd(RTC, MINUS_ONE, MINUS_ONE, 1));
      } else if found.fileType == 1 {
        SetFd(pcb, i, Fd(DIRECTORY, MINUS_ONE, 0, 1));
      } else if found.fileType == 2 {
        SetFd(pcb, i, Fd(FILE, found.inode, 0, 1));
      }
    }

    // The open system call: the least free descriptor from 2 on, with the operation table of the file's kind. A file
    // type above 2 opens nothing.
    method Open(found: Lookup) returns (ret: int)
      requires Valid() && spec.depth[exec] >= 0
      modifies this`spec, mem
      ensures Valid() && spec == SetFds(old(spec), OpenFds(old(spec.fds[Top(spec)]), found))
      ensures var free := FreeFd(old(spec.fds[Top(spec)]), 2); ret == if found.Missing? || free == 8 then -1 else free
      ensures ret >= 0 ==>
        && found.Entry?
        && Opened(old(spec.fds[Top(spec)]), found.fileType, found.inode, ret, spec.fds[Top(spec)])
    {
      hide Holds, Running, FdsAt, UserAt, Paging.Shape, Paging.Coherent, BootOrder, FdsWritten, Opened;
      ghost var s, fds, m := spec, spec.fds[Top(spec)], mem[..];
      if found == Missing {
        SameFdsSet(s);
        return -1;
      }
      var pcb := GetPCB();
      FdsHeld(m, tEsp[..], tEbp[..], s);
      var i := FirstFree(pcb);
      if i == 8 {
        SameFdsSet(s);
        return -1;
      }
      Install(pcb, i, found);
      FdsWrittenBy(m, mem[..], Top(s), OpenFds(fds, found));
      FdsHold(m, mem[..], tEsp[..], tEbp[..], s, esp, ebp, OpenFds(fds, found));
      spec := SetFds(s, OpenFds(fds, found));
      OpensOne(fds, found.fileType, found.inode);
      return i;
    }

    // The close system call.
    method Close(fd: int) returns (ret: int)
      requires Valid() && spec.depth[exec] >= 0
      modifies this`spec, mem
      ensures Valid() && spec == SetFds(old(spec), CloseFds(old(spec.fds[Top(spec)]), fd))
      ensures ret == if 2 <= fd <= 7 && old(spec.fds[Top(spec)])[fd].flags != 0 then 0 else -1
      ensures var was, fds := old(spec.fds[Top(spec)]), spec.fds[Top(spec)];
        if ret == 0 then Closed(was, fd, fds) else fds == was
    {
      hide Holds, Running, FdsAt, UserAt, Paging.Shape, Paging.Coherent, BootOrder, FdsWritten, Closed;
      ghost var s, m := spec, mem[..];
      FdsHeld(m, tEsp[..], tEbp[..], s);
      ret := CloseAt(GetPCB(), fd);
      FdsWrittenBy(m, mem[..], Top(s), CloseFds(s.fds[Top(s)], fd));
      FdsHold(m, mem[..], tEsp[..], tEbp[..], s, esp, ebp, CloseFds(s.fds[Top(s)], fd));
      ClosesOne(s.fds[Top(s)], fd);
      spec := SetFds(s, CloseFds(s.fds[Top(s)], fd));
    }

    // A user-mode store, translated as the processor does it; without a translation it faults and stores nothing.
    method UserStore(va: int, v: int)
      requires Valid() && 0 <= va < 0x1_0000_0000
      modifies this`spec, mem
      ensures Valid() && spec == Store(old(spec), va, v)
      ensures var a := Paging.UserReach(Paging.Walk(mmu.pd[..], mmu.pt[..], mmu.table, va), va, true);
        if a.Some? then a.value < MEMORY && mem[..] == old(mem[..])[a.value := v] else mem[..] == old(mem[..])
    {
      hide Holds, Running, FdsAt, UserAt, Paging.Shape, Paging.Coherent, BootOrder, Paging.Walk;
      ghost var s := spec;
      var t := mmu.Translate(va);
      Paging.UserReaches(mmu.pd[..], mmu.pt[..], mmu.table, FrameOf(s), video, va, true);
      var a := Paging.UserReach(t, va, true);
      if a.Some? {
        StoreSomewhere(mem[..], tEsp[..], tEbp[..], s, esp, ebp, va, v, video, a.value);
        mem[a.value] := v;
        spec := Store(s, va, v);
      } else {
        assert Store(s, va, v) == s;
      }
    }

    // The vidmap system call. The user's pointer is stored through the kernel's view of the user page; a pointer equal
    // to the end of that page is let through and may fault.
    method Vidmap(screenStart: int, between: set<nat>) returns (ret: int, fault: bool)
      requires Valid() && spec.depth[exec] >= 0 && 0 <= screenStart < 0x1_0000_0000
      modifies this`spec, this`video, mem, mmu`tlb, mmu.pd, mmu.pt
      ensures Valid() && spec == Store(old(spec), screenStart, USER_MEM_START + USER_MEM_SIZE)
      ensures USER_MEM_START <= screenStart < USER_MEM_START + USER_MEM_SIZE ==>
        !fault && ret == USER_MEM_START + USER_MEM_SIZE && video == Some(VIDEO)
      ensures screenStart < USER_MEM_START || screenStart > USER_MEM_START + USER_MEM_SIZE ==>
        !fault && ret == -1 && video == old(video) && mem[..] == old(mem[..])
      ensures screenStart == USER_MEM_START + USER_MEM_SIZE ==>
        if old(video) == None then fault && video == old(video) && mem[..] == old(mem[..])
        else !fault && ret == USER_MEM_START + USER_MEM_SIZE && video == Some(VIDEO)
             && old(video).value < MEMORY && mem[..] == old(mem[..])[old(video).value := ret]
    {
      hide Holds, Running, FdsAt, UserAt, Paging.Shape, Paging.Coherent, BootOrder, Paging.Walk;
      if !ScreenStartAccepted(screenStart) {
        return -1, false;
      }
      ghost var s := spec;
      var t := mmu.Translate(screenStart);
      KernelStores(mmu.pd[..], mmu.pt[..], mmu.table, Frame(Top(s)), video, screenStart);
      var a := Paging.KernelReach(t, screenStart);
      if a == None {
        return -1, true;
      }
      StoreSomewhere(mem[..], tEsp[..], tEbp[..], s, esp, ebp, screenStart, USER_MEM_START + USER_MEM_SIZE, video,
                     a.value);
      mem[a.value] := USER_MEM_START + USER_MEM_SIZE;
      spec := Store(s, screenStart, USER_MEM_START + USER_MEM_SIZE);
      mmu.Map4kbPage(USER_MEM_START + USER_MEM_SIZE, VIDEO, between, FrameOf(s), video);
      video := Some(VIDEO);
      return USER_MEM_START + USER_MEM_SIZE, false;
    }

    // The running process's kernel code: a new context on its own stack, with anything below it.
    method MoveTo(context: Context, below: seq<int>)
      requires Valid() && |context.stack| == HighOf(spec) - context.esp && LowOf(spec) <= context.esp - |below|
      modifies this`esp, this`ebp, this`spec, mem
      ensures Valid() && spec == Move(old(spec), context)
    {
      hide Holds, Running, FdsAt, UserAt, Paging.Shape, Paging.Coherent, BootOrder;
      ghost var s, m := spec, mem[..];
      var words := below + context.stack;
      StackBounds(m, esp, ebp, s, context.esp, |below|);
      for i := 0 to |words|
        invariant spec == s && esp == old(esp) && ebp == old(ebp)
        invariant Written(m, mem[..], context.esp - |below|, words[..i])
      {
        mem[context.esp - |below| + i] := words[i];
      }
      assert words[..|words|] == words;
      MoveHolds(m, mem[..], tEsp[..], tEbp[..], s, esp, ebp, context, below);
      esp, ebp := context.esp, context.ebp;
      spec := Move(s, context);
    }

    method Cache(pages: set<nat>)
      requires Valid()
      modifies mmu`tlb
      ensures Valid()
    {
      hide Holds, Running, FdsAt, UserAt, Paging.Shape, BootOrder, Paging.Walk;
      mmu.Fill(pages);
    }

    // Alt+F1 to Alt+F3 as far as the scheduler is concerned.
    method Show(terminal: int)
      requires Valid() && 0 <= terminal < NUM_TERMINALS
      modifies this`display
      ensures Valid() && display == terminal
    {
      display := terminal;
    }

    // A tick on a machine that has a shell to boot.
    method TickOrBoot(pushed: seq<int>, between: set<nat>)
      requires Valid() && Loadable(shell) && |pushed| <= esp - LowOf(spec)
      modifies this, mem, depth, tEsp, tEbp, mmu`tlb, mmu.pd, mmu.pt
      ensures Valid() && spec == Processes.Tick(old(spec), shell)
      ensures View(display, video) == TickView(old(spec), View(old(display), old(video)))
    {
      hide Holds, Running, Processes.Tick, BootOrder, TickView;
      Tick(pushed, between);
      TickShows(old(spec), View(old(display), old(video)), View(display, video), shell);
    }

    method Handle(ev: Event)
      requires Valid() && Loadable(shell) && Enabled(spec, ev)
      modifies this, mem, depth, tEsp, tEbp, mmu`tlb, mmu.pd, mmu.pt
      ensures Valid() && spec == Step(old(spec), ev, shell)
      ensures View(display, video) == ViewAfter(old(spec), View(old(display), old(video)), ev)
    {
      hide Holds, Running, Processes.Execute, Processes.Halt, Processes.Tick, Store, SetFds, Move, BootOrder;
      hide ViewAfter;
      ViewKept(spec, View(display, video), ev);
      RunningBounds(mem[..], esp, ebp, spec);
      match ev {
        case DoExecute(prog, params, pushed, between) => var _ := Execute(prog, pushed, params, between);
        case DoHalt(status, exception, pushed, between) =>
          if exception {
            RaiseException();
          }
          var _ := Halt(status, pushed, between);
        case DoTick(pushed, between) => TickOrBoot(pushed, between);
        case DoOpen(found) => var _ := Open(found);
        case DoClose(fd) => var _ := Close(fd);
        case DoVidmap(va, between) => var _, _ := Vidmap(va, between);
        case DoMove(context, below) => MoveTo(context, below);
        case DoStore(va, v) => UserStore(va, v);
        case DoCache(pages) => Cache(pages);
        case DoShow(terminal) => Show(terminal);
      }
    }

    // Every run of the kernel does to every process exactly what the abstract machine does.
    method Run(evs: seq<Event>)
      requires Valid() && Loadable(shell) && Runnable(spec, evs, shell)
      modifies this, mem, depth, tEsp, tEbp, mmu`tlb, mmu.pd, mmu.pt
      ensures Valid() && spec == RunOf(old(spec), evs, shell)
      ensures View(display, video) == ViewOf(old(spec), View(old(display), old(video)), evs, shell)
    {
      hide Good, Enabled, Step, Holds, Running, ViewAfter;
      ghost var s, v := spec, View(display, video);
      assert evs[0..] == evs;
      for i := 0 to |evs|
        invariant Valid() && Loadable(shell)
        invariant Runnable(spec, evs[i..], shell) && RunOf(spec, evs[i..], shell) == RunOf(s, evs, shell)
        invariant ViewOf(spec, View(display, video), evs[i..], shell) == ViewOf(s, v, evs, shell)
      {
        assert evs[i..][0] == evs[i] && evs[i..][1..] == evs[i + 1..];
        Handle(evs[i]);
      }
    }
  }
}
