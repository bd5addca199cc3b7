// The abstract machine: every process has a frame, a descriptor table and a saved context of its own, held by value.
// Nothing in it is an address computed from a terminal and a depth.
module Processes {
  import opened Layout

  const SLOTS: int := 12
  const LOAD_OFFSET: int := 0x48000

  // Addresses of the operation tables; only that they differ matters.
  const NULL: int := 0
  const FILE: int := 1
  const DIRECTORY: int := 2
  const RTC: int := 3
  const TERMINAL: int := 4

  // fda_entry_t
  datatype Fd = Fd(fops: int, inode: int, position: int, flags: int)

  // the -1 stored in an unsigned field
  const MINUS_ONE: int := 0xFFFF_FFFF
  const CLOSED: Fd := Fd(NULL, MINUS_ONE, MINUS_ONE, 0)
  const STDIO: Fd := Fd(TERMINAL, 0, 0, 1)

  // A kernel context: stack pointer, frame pointer and everything on the kernel stack from the pointer up.
  datatype Context = Context(esp: int, ebp: int, stack: seq<int>)

  // What execute finds under a command name: nothing, a file without the ELF magic, or an image to load.
  datatype Program = Absent | NotElf | Elf(image: seq<int>)

  datatype Spec = Spec(
    depth: seq<int>,          // depth of the top process of each terminal, -1 before its shell is started
    run: int,                 // the terminal being executed
    current: Context,         // the context of the running process
    saved: seq<Context>,      // the context of every process that is not running
    user: seq<seq<int>>,      // the 4MB of memory of every process
    fds: seq<seq<Fd>>,        // the descriptor table of every process
    faulted: bool)            // exception_flag

  ghost predicate WellFormed(s: Spec) {
    && |s.depth| == NUM_TERMINALS && 0 <= s.run < NUM_TERMINALS
    && (forall t :: 0 <= t < NUM_TERMINALS ==> -1 <= s.depth[t] <= 3)
    && |s.saved| == SLOTS && |s.user| == SLOTS && |s.fds| == SLOTS
    && (forall k :: 0 <= k < SLOTS ==> |s.user[k]| == USER_MEM_SIZE && |s.fds[k]| == 8)
  }

  predicate Booted(s: Spec)
    requires |s.depth| == NUM_TERMINALS
  {
    s.depth[0] >= 0 && s.depth[1] >= 0 && s.depth[2] >= 0
  }

  // The count of processes less one, which is what the kernel's pid is.
  function Pid(depth: seq<int>): int
    requires |depth| == NUM_TERMINALS
  {
    depth[0] + depth[1] + depth[2] + 2
  }

  // The slot of the running process.
  function Top(s: Spec): int
    requires |s.depth| == NUM_TERMINALS && 0 <= s.run < NUM_TERMINALS
  {
    Slot(s.run, s.depth[s.run])
  }

  // The shells are started one by one, in terminals 2, 1 and 0, before anything else is executed.
  ghost predicate BootOrder(s: Spec)
    requires |s.depth| == NUM_TERMINALS
  {
    || (s.depth == [-1, -1, -1] && s.run == 0)
    || (s.depth == [-1, -1, 0] && s.run == 2)
    || (s.depth == [-1, 0, 0] && s.run == 1)
    || Booted(s)
  }

  ghost predicate Good(s: Spec) {
    WellFormed(s) && BootOrder(s) && Pid(s.depth) <= MAX_PID
  }

  predicate Loadable(p: Program) {
    p.Elf? && |p.image| <= USER_MEM_SIZE - LOAD_OFFSET
  }

  // user memory after loading a program image.
  function Loaded(user: seq<int>, image: seq<int>): (r: seq<int>)
    requires |user| == USER_MEM_SIZE && |image| <= USER_MEM_SIZE - LOAD_OFFSET
    ensures |r| == USER_MEM_SIZE
  {
    user[..LOAD_OFFSET] + image + user[LOAD_OFFSET + |image|..]
  }

  function WithStdio(fds: seq<Fd>): (r: seq<Fd>)
    requires |fds| == 8
    ensures |r| == 8
  {
    fds[0 := STDIO][1 := STDIO]
  }

  // Starting a program as the process at depth d of terminal t.
  function Start(s: Spec, t: int, d: int, image: seq<int>): (r: Spec)
    requires WellFormed(s) && 0 <= t < NUM_TERMINALS && 0 <= d <= 3 && |image| <= USER_MEM_SIZE - LOAD_OFFSET
    ensures WellFormed(r)
  {
    var k := Slot(t, d);
    s.(run := t, depth := s.depth[t := d], current := Context(StackTop(k), s.current.ebp, []),
       user := s.user[k := Loaded(s.user[k], image)], fds := s.fds[k := WithStdio(s.fds[k])])
  }

  // The running process, if any, is set aside with its context.
  function SetAside(s: Spec): (r: Spec)
    requires WellFormed(s)
    ensures WellFormed(r)
  {
    if s.depth[s.run] < 0 then s else s.(saved := s.saved[Top(s) := s.current])
  }

  // execute called by the running process.
  function Execute(s: Spec, p: Program): (r: Spec)
    requires Good(s) && Booted(s) && (p.Elf? ==> Loadable(p))
    ensures Good(r)
  {
    if Pid(s.depth) == MAX_PID || !p.Elf? then s
    else Start(SetAside(s), s.run, s.depth[s.run] + 1, p.image)
  }

  // The first i entries from descriptor 2 on, closed if they are open.
  function CloseOpen(fds: seq<Fd>): (r: seq<Fd>)
    requires |fds| == 8
    ensures |r| == 8
  {
    seq(8, i requires 0 <= i < 8 => if i >= 2 && fds[i].flags != 0 then CLOSED else fds[i])
  }

  function CloseAll(fds: seq<Fd>): (r: seq<Fd>)
    requires |fds| == 8
    ensures |r| == 8
  {
    seq(8, i requires 0 <= i < 8 => if i >= 2 then CLOSED else fds[i])
  }

  // What an exception handler does before it halts the process.
  function Raise(s: Spec, exception: bool): (r: Spec)
    requires Good(s)
    ensures Good(r)
  {
    if exception then s.(faulted := true) else s
  }

  const EXCEP_NUM: int := 256

  // The value a halted child's parent gets from execute.
  function Reported(s: Spec, status: int): int {
    if s.faulted then EXCEP_NUM else status
  }

  // halt: the parent resumes with the context it had when it executed the child. As the depth is already
  // decremented when close runs, it is the parent's open descriptors that are closed first.
  // A root shell starts over instead, before the exception flag is looked at.
  function Halt(s: Spec, shell: Program): (r: Spec)
    requires Good(s) && s.depth[s.run] >= 0 && (s.depth[s.run] == 0 ==> Loadable(shell))
    ensures Good(r)
  {
    var t, d := s.run, s.depth[s.run];
    if d == 0 then Start(SetAside(s), t, 0, shell.image)
    else
      var child, parent := Slot(t, d), Slot(t, d - 1);
      s.(depth := s.depth[t := d - 1], current := s.saved[parent],
         fds := s.fds[parent := CloseOpen(s.fds[parent])][child := CloseAll(s.fds[child])], faulted := false)
  }

  // A timer tick: the next boot shell, or the next terminal.
  function Tick(s: Spec, shell: Program): (r: Spec)
    requires Good(s) && (!Booted(s) ==> Loadable(shell))
    ensures Good(r)
  {
    var a := SetAside(s);
    if Pid(s.depth) == -1 then Start(a, 2, 0, shell.image)
    else if Pid(s.depth) == 0 then Start(a, 1, 0, shell.image)
    else if Pid(s.depth) == 1 then Start(a, 0, 0, shell.image)
    else
      var next := (s.run + 1) % NUM_TERMINALS;
      a.(run := next, current := a.saved[Slot(next, s.depth[next])])
  }

  // A user-mode store by the running process.
  function Store(s: Spec, va: int, v: int): (r: Spec)
    requires Good(s)
    ensures Good(r)
  {
    if s.depth[s.run] >= 0 && USER_MEM_START <= va < USER_MEM_START + USER_MEM_SIZE then
      s.(user := s.user[Top(s) := s.user[Top(s)][va - USER_MEM_START := v]])
    else s
  }

  // The running process's kernel code moved to another context on its own stack.
  function Move(s: Spec, c: Context): (r: Spec)
    requires Good(s)
    ensures Good(r)
  {
    s.(current := c)
  }

  // The least free descriptor from 2 on; 8 when there is none.
  function FreeFd(fds: seq<Fd>, i: nat): (r: nat)
    requires |fds| == 8 && i <= 8
    ensures i <= r <= 8
    ensures forall k :: i <= k < r ==> fds[k].flags != 0
    ensures r < 8 ==> fds[r].flags == 0
    decreases 8 - i
  {
    if i == 8 || fds[i].flags == 0 then i else FreeFd(fds, i + 1)
  }

  // What a name lookup finds: file type and inode number.
  datatype Lookup = Missing | Entry(fileType: int, inode: int)

  function OpenedFd(e: Lookup): Fd
    requires e.Entry? && 0 <= e.fileType <= 2
  {
    if e.fileType == 0 then Fd(RTC, MINUS_ONE, MINUS_ONE, 1)
    else if e.fileType == 1 then Fd(DIRECTORY, MINUS_ONE, 0, 1)
    else Fd(FILE, e.inode, 0, 1)
  }

  function OpenFds(fds: seq<Fd>, e: Lookup): (r: seq<Fd>)
    requires |fds| == 8
    ensures |r| == 8
  {
    var i := FreeFd(fds, 2);
    if e.Missing? || i == 8 || !(0 <= e.fileType <= 2) then fds else fds[i := OpenedFd(e)]
  }

  function CloseFds(fds: seq<Fd>, fd: int): (r: seq<Fd>)
    requires |fds| == 8
    ensures |r| == 8
  {
    if 2 <= fd <= 7 && fds[fd].flags != 0 then fds[fd := CLOSED] else fds
  }

  // What open has put in a table: an open descriptor of the file's own kind at the least free place, which a file of
  // unknown type leaves free, and every other one as it was. Only a regular file has its inode kept.
  ghost predicate Opened(fds: seq<Fd>, fileType: int, inode: int, i: int, r: seq<Fd>) {
    && |fds| == |r| == 8 && 2 <= i < 8 && fds[i].flags == 0
    && (forall j :: 2 <= j < i ==> fds[j].flags != 0)
    && (forall j :: 0 <= j < 8 && j != i ==> r[j] == fds[j])
    && (fileType == 0 ==> r[i].fops == RTC && r[i].inode == r[i].position == 0xFFFF_FFFF && r[i].flags == 1)
    && (fileType == 1 ==>
          r[i].fops == DIRECTORY && r[i].inode == 0xFFFF_FFFF && r[i].position == 0 && r[i].flags == 1)
    && (fileType == 2 ==> r[i].fops == FILE && r[i].inode == inode && r[i].position == 0 && r[i].flags == 1)
    && (fileType < 0 || fileType > 2 ==> r[i] == fds[i])
  }

  lemma OpensOne(fds: seq<Fd>, fileType: int, inode: int)
    requires |fds| == 8 && FreeFd(fds, 2) < 8
    ensures Opened(fds, fileType, inode, FreeFd(fds, 2), OpenFds(fds, Entry(fileType, inode)))
  {
  }

  // The operation table of a descriptor tells what kind of file was opened, and never takes it for a terminal.
  lemma OpenKind(fds: seq<Fd>, fileType: int, inode: int, i: int, r: seq<Fd>)
    requires Opened(fds, fileType, inode, i, r) && 0 <= fileType <= 2
    ensures (r[i].fops == FILE <==> fileType == 2) && (r[i].fops == DIRECTORY <==> fileType == 1)
    ensures (r[i].fops == RTC <==> fileType == 0) && r[i].fops != TERMINAL && r[i].fops != NULL
  {
  }

  // The next open gets another descriptor, unless the file was of unknown type.
  lemma NextOpen(fds: seq<Fd>, fileType: int, inode: int, i: int, r: seq<Fd>)
    requires Opened(fds, fileType, inode, i, r)
    ensures FreeFd(r, 2) != i <==> 0 <= fileType <= 2
    ensures FreeFd(r, 2) >= i
  {
    var n := FreeFd(r, 2);
    assert n < 8 ==> r[n].flags == 0;
  }

  // What close has done: the entry is cleared and the others are as they were.
  ghost predicate Closed(fds: seq<Fd>, fd: int, r: seq<Fd>) {
    && |fds| == |r| == 8 && 2 <= fd <= 7
    && r[fd].fops == 0 && r[fd].inode == r[fd].position == 0xFFFF_FFFF && r[fd].flags == 0
    && forall j :: 0 <= j < 8 && j != fd ==> r[j] == fds[j]
  }

  lemma ClosesOne(fds: seq<Fd>, fd: int)
    requires |fds| == 8
    ensures var r := CloseFds(fds, fd); if 2 <= fd <= 7 && fds[fd].flags != 0 then Closed(fds, fd, r) else r == fds
  {
  }

  // What is left of a table after a halt has closed it: descriptors 0 and 1, and nothing else that is open.
  ghost predicate AllClosed(fds: seq<Fd>, r: seq<Fd>) {
    && |fds| == |r| == 8 && r[0] == fds[0] && r[1] == fds[1]
    && forall i :: 2 <= i < 8 ==> r[i].flags == 0 && (fds[i].flags == 0 ==> r[i] == fds[i])
  }

  lemma ClosesAll(fds: seq<Fd>)
    requires |fds| == 8
    ensures AllClosed(fds, CloseOpen(fds))
  {
  }

  // Standard input and output: the terminal, open.
  ghost predicate HasStdio(fds: seq<Fd>) {
    |fds| == 8 && forall i :: 0 <= i < 2 ==>
      fds[i].fops == TERMINAL && fds[i].inode == 0 && fds[i].position == 0 && fds[i].flags == 1
  }

  // An executed program has them, and a new process's other descriptors are those of its slot.
  lemma StartsWithStdio(s: Spec, t: int, d: int, image: seq<int>)
    requires WellFormed(s) && 0 <= t < NUM_TERMINALS && 0 <= d <= 3 && |image| <= USER_MEM_SIZE - LOAD_OFFSET
    ensures var r, k := Start(SetAside(s), t, d, image), Slot(t, d);
      HasStdio(r.fds[k]) && forall i :: 2 <= i < 8 ==> r.fds[k][i] == s.fds[k][i]
  {
    hide Loaded;
  }

  function SetFds(s: Spec, fds: seq<Fd>): (r: Spec)
    requires Good(s) && s.depth[s.run] >= 0 && |fds| == 8
    ensures Good(r)
  {
    s.(fds := s.fds[Top(s) := fds])
  }

  // ----- The counters -----

  // pid, terminal_process_num and cur_execute_terminal, stepped as the code steps them whatever their values.
  datatype Counters = Counters(pid: int, depth: seq<int>, run: int)

  predicate Countable(c: Counters) {
    |c.depth| == NUM_TERMINALS && 0 <= c.run < NUM_TERMINALS
  }

  function CountersOf(s: Spec): (c: Counters)
    requires WellFormed(s)
    ensures Countable(c)
  {
    Counters(Pid(s.depth), s.depth, s.run)
  }

  function CountTick(c: Counters): (r: Counters)
    requires Countable(c)
    ensures Countable(r)
  {
    if -1 <= c.pid <= 1 then
      var t := 1 - c.pid;
      Counters(c.pid + 1, c.depth[t := c.depth[t] + 1], t)
    else c.(run := (c.run + 1) % NUM_TERMINALS)
  }

  // execute of a program that can be loaded.
  function CountExecute(c: Counters): (r: Counters)
    requires Countable(c)
    ensures Countable(r)
  {
    if c.pid + 1 > MAX_PID then c else c.(pid := c.pid + 1, depth := c.depth[c.run := c.depth[c.run] + 1])
  }

  function CountHalt(c: Counters): (r: Counters)
    requires Countable(c)
    ensures Countable(r)
  {
    var less := c.(pid := c.pid - 1, depth := c.depth[c.run := c.depth[c.run] - 1]);
    if c.depth[c.run] == 0 then CountExecute(less) else less
  }

  lemma TickCounts(s: Spec, shell: Program)
    requires Good(s) && (!Booted(s) ==> Loadable(shell))
    ensures CountersOf(Tick(s, shell)) == CountTick(CountersOf(s))
  {
    hide Loaded, WithStdio;
  }

  lemma ExecuteCounts(s: Spec, prog: Program)
    requires Good(s) && Booted(s) && (prog.Elf? ==> Loadable(prog))
    ensures CountersOf(Execute(s, prog)) == if prog.Elf? then CountExecute(CountersOf(s)) else CountersOf(s)
  {
    hide Loaded, WithStdio;
  }

  lemma HaltCounts(s: Spec, shell: Program)
    requires Good(s) && s.depth[s.run] >= 0 && (s.depth[s.run] == 0 ==> Loadable(shell))
    ensures CountersOf(Halt(s, shell)) == CountHalt(CountersOf(s))
  {
    hide Loaded, WithStdio;
    var c := CountersOf(s);
    if s.depth[s.run] == 0 {
      assert CountHalt(c).depth == c.depth;
    }
  }

  // The counters after each step, for callers that need nothing else about it.
  lemma TickRotates(s: Spec, shell: Program)
    requires Good(s) && Booted(s)
    ensures var r := Tick(s, shell);
      r.depth == s.depth && r.run == (s.run + 1) % NUM_TERMINALS && Booted(r) && r.faulted == s.faulted
  {
  }

  lemma StartCounts(s: Spec, t: int, d: int, image: seq<int>)
    requires WellFormed(s) && 0 <= t < NUM_TERMINALS && 0 <= d <= 3 && |image| <= USER_MEM_SIZE - LOAD_OFFSET
    ensures var r := Start(SetAside(s), t, d, image);
      && r.depth == s.depth[t := d] && r.run == t && r.faulted == s.faulted
      && r.current.esp == StackTop(Slot(t, d)) && r.current.ebp == s.current.ebp
  {
  }

  lemma HaltPops(s: Spec, shell: Program)
    requires Good(s) && s.depth[s.run] >= 1
    ensures var r := Halt(s, shell);
      r.depth == s.depth[s.run := s.depth[s.run] - 1] && r.run == s.run && !r.faulted
  {
  }

  // ----- Runs -----

  // pushed is what the kernel's own code leaves below the stack pointer; between is what the processor happens to cache
  // in the middle of a remapping.
  datatype Event =
    | DoExecute(prog: Program, params: int, pushed: seq<int>, between: set<nat>)
    | DoHalt(status: int, exception: bool, pushed: seq<int>, between: set<nat>)
    | DoTick(pushed: seq<int>, between: set<nat>)
    | DoOpen(found: Lookup)
    | DoClose(fd: int)
    | DoVidmap(screenStart: int, between: set<nat>)
    | DoMove(context: Context, below: seq<int>)   // the running process's kernel code uses its own stack
    | DoStore(va: int, v: int)                    // a user-mode store
    | DoCache(pages: set<nat>)                    // the processor caches some translations
    | DoShow(terminal: int)                       // the display is switched

  function LowOf(s: Spec): int
    requires WellFormed(s)
  {
    if s.depth[s.run] >= 0 then StackLow(Top(s)) else PcbAt(0) + PCB_SIZE
  }

  // The end of the stack the kernel is on.
  function HighOf(s: Spec): int
    requires WellFormed(s)
  {
    if s.depth[s.run] >= 0 then StackTop(Top(s)) else USER_PHYS_MEM_START
  }

  // What the environment owes: nothing is executed before the three shells run, nothing but the timer happens before
  // the first one, programs fit their frame, and kernel code stays within its stack.
  ghost predicate Enabled(s: Spec, ev: Event)
    requires Good(s)
  {
    match ev
    case DoExecute(prog, _, pushed, _) =>
      Booted(s) && (prog.Elf? ==> Loadable(prog)) && |pushed| <= s.current.esp - LowOf(s)
    case DoHalt(_, _, pushed, _) => s.depth[s.run] >= 0 && |pushed| <= s.current.esp - LowOf(s)
    case DoTick(pushed, _) => |pushed| <= s.current.esp - LowOf(s)
    case DoOpen(_) => s.depth[s.run] >= 0
    case DoClose(_) => s.depth[s.run] >= 0
    case DoVidmap(va, _) => s.depth[s.run] >= 0 && 0 <= va < 0x1_0000_0000
    case DoMove(c, below) => |c.stack| == HighOf(s) - c.esp && LowOf(s) <= c.esp - |below|
    case DoStore(va, _) => 0 <= va < 0x1_0000_0000
    case DoCache(_) => true
    case DoShow(t) => 0 <= t < NUM_TERMINALS
  }

  function Step(s: Spec, ev: Event, shell: Program): (r: Spec)
    requires Good(s) && Enabled(s, ev) && Loadable(shell)
    ensures Good(r)
  {
    match ev
    case DoExecute(prog, _, _, _) => Execute(s, prog)
    case DoHalt(_, exception, _, _) => Halt(Raise(s, exception), shell)
    case DoTick(_, _) => Tick(s, shell)
    case DoOpen(found) => SetFds(s, OpenFds(s.fds[Top(s)], found))
    case DoClose(fd) => SetFds(s, CloseFds(s.fds[Top(s)], fd))
    case DoVidmap(va, _) => Store(s, va, USER_MEM_START + USER_MEM_SIZE)
    case DoMove(c, _) => Move(s, c)
    case DoStore(va, v) => Store(s, va, v)
    case DoCache(_) => s
    case DoShow(_) => s
  }

  ghost predicate Runnable(s: Spec, evs: seq<Event>, shell: Program)
    requires Good(s) && Loadable(shell)
    decreases |evs|
  {
    evs == [] || (Enabled(s, evs[0]) && Runnable(Step(s, evs[0], shell), evs[1..], shell))
  }

  ghost function RunOf(s: Spec, evs: seq<Event>, shell: Program): (r: Spec)
    requires Good(s) && Loadable(shell) && Runnable(s, evs, shell)
    ensures Good(r)
    decreases |evs|
  {
    if evs == [] then s else RunOf(Step(s, evs[0], shell), evs[1..], shell)
  }
}
