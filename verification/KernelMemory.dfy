// The kernel's own state refines the abstract machine: one flat memory in which every address is computed from a
// terminal and a depth (student-distrib/system_call.c, student-distrib/scheduler.c).
module KernelMemory {
  import opened Layout
  import opened Processes

  // Physical memory up to the end of the last frame, by address; a 32-bit word sits in the cell of its first byte.
  const MEMORY: int := 0x3800000

  // Offsets in a process control block.
  const PARENT_ESP: int := 136
  const PARENT_EBP: int := 140

  function FdAt(mem: seq<int>, pcb: int, i: int): Fd
    requires 0 <= pcb && pcb + PCB_SIZE <= |mem| && 0 <= i < 8
  {
    Fd(mem[pcb + 16 * i], mem[pcb + 16 * i + 4], mem[pcb + 16 * i + 8], mem[pcb + 16 * i + 12])
  }

  function FdsAt(mem: seq<int>, pcb: int): (fds: seq<Fd>)
    requires 0 <= pcb && pcb + PCB_SIZE <= |mem|
    ensures |fds| == 8
  {
    seq(8, i requires 0 <= i < 8 => FdAt(mem, pcb, i))
  }

  function UserAt(mem: seq<int>, k: int): (user: seq<int>)
    requires |mem| == MEMORY && 0 <= k < SLOTS
    ensures |user| == USER_MEM_SIZE
  {
    mem[Frame(k)..Frame(k) + USER_MEM_SIZE]
  }

  // The kernel stack of slot k holds the context c, entered at esp with frame pointer ebp.
  ghost predicate ContextAt(mem: seq<int>, k: int, esp: int, ebp: int, c: Context)
    requires |mem| == MEMORY && 0 <= k < SLOTS
  {
    StackLow(k) <= esp <= StackTop(k) && c == Context(esp, ebp, mem[esp..StackTop(k)])
  }

  ghost predicate Unchanged(m: seq<int>, m': seq<int>, lo: int, hi: int)
    requires |m| == |m'| && 0 <= lo && hi <= |m|
  {
    forall a :: lo <= a < hi ==> m'[a] == m[a]
  }

  lemma SameFds(m: seq<int>, m': seq<int>, k: int)
    requires |m| == |m'| == MEMORY && 0 <= k < SLOTS
    requires Unchanged(m, m', PcbAt(k), PcbAt(k) + PCB_SIZE)
    ensures FdsAt(m', PcbAt(k)) == FdsAt(m, PcbAt(k))
    ensures m'[PcbAt(k) + PARENT_ESP] == m[PcbAt(k) + PARENT_ESP]
    ensures m'[PcbAt(k) + PARENT_EBP] == m[PcbAt(k) + PARENT_EBP]
  {
  }

  lemma SameUser(m: seq<int>, m': seq<int>, k: int)
    requires |m| == |m'| == MEMORY && 0 <= k < SLOTS
    requires Unchanged(m, m', Frame(k), Frame(k) + USER_MEM_SIZE)
    ensures UserAt(m', k) == UserAt(m, k)
  {
  }

  lemma SameContext(m: seq<int>, m': seq<int>, k: int, esp: int, ebp: int, c: Context)
    requires |m| == |m'| == MEMORY && 0 <= k < SLOTS && ContextAt(m, k, esp, ebp, c)
    requires Unchanged(m, m', esp, StackTop(k))
    ensures ContextAt(m', k, esp, ebp, c)
  {
    assert m'[esp..StackTop(k)] == m[esp..StackTop(k)];
  }

  // ----- The relation between memory and the abstract machine -----

  // Frames and descriptor tables of all slots.
  ghost predicate Stores(mem: seq<int>, s: Spec)
    requires |mem| == MEMORY && WellFormed(s)
  {
    forall k :: 0 <= k < SLOTS ==> s.user[k] == UserAt(mem, k) && s.fds[k] == FdsAt(mem, PcbAt(k))
  }

  // Every process that waits for a child is described by the child's control block.
  ghost predicate Parents(mem: seq<int>, s: Spec)
    requires |mem| == MEMORY && WellFormed(s)
  {
    forall t, d :: 0 <= t < NUM_TERMINALS && 0 <= d < s.depth[t] ==> ParentAt(mem, s, t, d)
  }

  ghost predicate ParentAt(mem: seq<int>, s: Spec, t: int, d: int)
    requires |mem| == MEMORY && WellFormed(s) && 0 <= t < NUM_TERMINALS && 0 <= d < 3
  {
    var child := PcbAt(Slot(t, d + 1));
    ContextAt(mem, Slot(t, d), mem[child + PARENT_ESP], mem[child + PARENT_EBP], s.saved[Slot(t, d)])
  }

  // Every other terminal's top process is described by the scheduler's two arrays.
  ghost predicate Preempted(mem: seq<int>, tEsp: seq<int>, tEbp: seq<int>, s: Spec)
    requires |mem| == MEMORY && WellFormed(s) && |tEsp| == |tEbp| == NUM_TERMINALS
  {
    forall t :: 0 <= t < NUM_TERMINALS && t != s.run && s.depth[t] >= 0 ==> PreemptedAt(mem, tEsp, tEbp, s, t)
  }

  ghost predicate PreemptedAt(mem: seq<int>, tEsp: seq<int>, tEbp: seq<int>, s: Spec, t: int)
    requires |mem| == MEMORY && WellFormed(s) && |tEsp| == |tEbp| == NUM_TERMINALS
    requires 0 <= t < NUM_TERMINALS && s.depth[t] >= 0
  {
    ContextAt(mem, Slot(t, s.depth[t]), tEsp[t], tEbp[t], s.saved[Slot(t, s.depth[t])])
  }

  // The running process is on its own kernel stack; before the first shell the kernel is on the boot stack,
  // above every process's stack.
  ghost predicate Running(mem: seq<int>, esp: int, ebp: int, s: Spec)
    requires |mem| == MEMORY && WellFormed(s)
  {
    if s.depth[s.run] >= 0 then ContextAt(mem, Top(s), esp, ebp, s.current)
    else PcbAt(0) + PCB_SIZE <= esp <= USER_PHYS_MEM_START && s.current.esp == esp && s.current.ebp == ebp
  }

  ghost predicate Holds(mem: seq<int>, tEsp: seq<int>, tEbp: seq<int>, s: Spec)
    requires WellFormed(s) && |tEsp| == |tEbp| == NUM_TERMINALS
  {
    |mem| == MEMORY && Stores(mem, s) && Parents(mem, s) && Preempted(mem, tEsp, tEbp, s)
  }

  ghost predicate Outside(m: seq<int>, m': seq<int>, lo: int, hi: int)
    requires |m| == |m'|
  {
    forall a :: 0 <= a < |m| && !(lo <= a < hi) ==> m'[a] == m[a]
  }

  // The stack the kernel is on meets no frame, no control block and no other process's stack.
  lemma OwnStackApart(s: Spec, k: int)
    requires WellFormed(s) && 0 <= k
    ensures Apart(LowOf(s), HighOf(s), PcbAt(k), PcbAt(k) + PCB_SIZE)
    ensures Apart(LowOf(s), HighOf(s), Frame(k), Frame(k) + USER_MEM_SIZE)
    ensures s.depth[s.run] < 0 || k != Top(s) ==> Apart(LowOf(s), HighOf(s), StackLow(k), StackTop(k))
  {
    if s.depth[s.run] >= 0 {
      KindsApart(k, Top(s));
      KindsApart(Top(s), k);
      if k != Top(s) {
        SlotsApart(k, Top(s));
      }
    }
  }

  lemma OutsideRange(m: seq<int>, m': seq<int>, lo: int, hi: int, lo': int, hi': int)
    requires |m| == |m'| && Outside(m, m', lo, hi) && Apart(lo, hi, lo', hi') && 0 <= lo' && hi' <= |m|
    ensures Unchanged(m, m', lo', hi')
  {
  }

  // A waiting process stays described when its stack and its child's control block do not change.
  lemma ParentKept(m: seq<int>, m': seq<int>, s: Spec, t: int, d: int)
    requires |m| == |m'| == MEMORY && WellFormed(s) && 0 <= t < NUM_TERMINALS && 0 <= d < 3 && ParentAt(m, s, t, d)
    requires Unchanged(m, m', StackLow(Slot(t, d)), StackTop(Slot(t, d)))
    requires Unchanged(m, m', PcbAt(Slot(t, d + 1)), PcbAt(Slot(t, d + 1)) + PCB_SIZE)
    ensures ParentAt(m', s, t, d)
  {
    hide FdsAt;
    var child := PcbAt(Slot(t, d + 1));
    SameFds(m, m', Slot(t, d + 1));
    SameContext(m, m', Slot(t, d), m[child + PARENT_ESP], m[child + PARENT_EBP], s.saved[Slot(t, d)]);
  }

  lemma PreemptedKept(m: seq<int>, m': seq<int>, tEsp: seq<int>, tEbp: seq<int>, s: Spec, t: int)
    requires |m| == |m'| == MEMORY && WellFormed(s) && |tEsp| == |tEbp| == NUM_TERMINALS
    requires 0 <= t < NUM_TERMINALS && s.depth[t] >= 0 && PreemptedAt(m, tEsp, tEbp, s, t)
    requires Unchanged(m, m', StackLow(Slot(t, s.depth[t])), StackTop(Slot(t, s.depth[t])))
    ensures PreemptedAt(m', tEsp, tEbp, s, t)
  {
    SameContext(m, m', Slot(t, s.depth[t]), tEsp[t], tEbp[t], s.saved[Slot(t, s.depth[t])]);
  }

  // Writes to the stack the kernel is on disturb nothing that is kept for later.
  lemma OwnStackStores(m: seq<int>, m': seq<int>, s: Spec)
    requires Good(s) && |m| == |m'| == MEMORY && Stores(m, s) && Outside(m, m', LowOf(s), HighOf(s))
    ensures Stores(m', s)
  {
    hide FdsAt, UserAt;
    forall k | 0 <= k < SLOTS
      ensures s.user[k] == UserAt(m', k) && s.fds[k] == FdsAt(m', PcbAt(k))
    {
      OwnStackApart(s, k);
      OutsideRange(m, m', LowOf(s), HighOf(s), PcbAt(k), PcbAt(k) + PCB_SIZE);
      OutsideRange(m, m', LowOf(s), HighOf(s), Frame(k), Frame(k) + USER_MEM_SIZE);
      SameUser(m, m', k);
      SameFds(m, m', k);
    }
  }

  lemma OwnStackParents(m: seq<int>, m': seq<int>, s: Spec)
    requires Good(s) && |m| == |m'| == MEMORY && Parents(m, s) && Outside(m, m', LowOf(s), HighOf(s))
    ensures Parents(m', s)
  {
    hide ParentAt, Outside;
    forall t, d | 0 <= t < NUM_TERMINALS && 0 <= d < s.depth[t]
      ensures ParentAt(m', s, t, d)
    {
      SlotInjective(t, d, s.run, s.depth[s.run]);
      OwnStackApart(s, Slot(t, d));
      OwnStackApart(s, Slot(t, d + 1));
      OutsideRange(m, m', LowOf(s), HighOf(s), StackLow(Slot(t, d)), StackTop(Slot(t, d)));
      OutsideRange(m, m', LowOf(s), HighOf(s), PcbAt(Slot(t, d + 1)), PcbAt(Slot(t, d + 1)) + PCB_SIZE);
      ParentKept(m, m', s, t, d);
    }
  }

  lemma OwnStackPreempted(m: seq<int>, m': seq<int>, tEsp: seq<int>, tEbp: seq<int>, s: Spec)
    requires Good(s) && |m| == |m'| == MEMORY && |tEsp| == |tEbp| == NUM_TERMINALS
    requires Preempted(m, tEsp, tEbp, s) && Outside(m, m', LowOf(s), HighOf(s))
    ensures Preempted(m', tEsp, tEbp, s)
  {
    hide PreemptedAt, Outside;
    forall t | 0 <= t < NUM_TERMINALS && t != s.run && s.depth[t] >= 0
      ensures PreemptedAt(m', tEsp, tEbp, s, t)
    {
      SlotInjective(t, s.depth[t], s.run, s.depth[s.run]);
      OwnStackApart(s, Slot(t, s.depth[t]));
      OutsideRange(m, m', LowOf(s), HighOf(s), StackLow(Slot(t, s.depth[t])), StackTop(Slot(t, s.depth[t])));
      PreemptedKept(m, m', tEsp, tEbp, s, t);
    }
  }

  lemma OwnStackWrites(m: seq<int>, m': seq<int>, tEsp: seq<int>, tEbp: seq<int>, s: Spec)
    requires Good(s) && |m| == |m'| && |tEsp| == |tEbp| == NUM_TERMINALS
    requires Holds(m, tEsp, tEbp, s) && Outside(m, m', LowOf(s), HighOf(s))
    ensures Holds(m', tEsp, tEbp, s)
  {
    hide Stores, Parents, Preempted;
    OwnStackStores(m, m', s);
    OwnStackParents(m, m', s);
    OwnStackPreempted(m, m', tEsp, tEbp, s);
  }

  // ----- Starting a process -----

  // What execute does to memory to start an image in slot k: it leaves junk below esp on the stack it runs on, loads
  // the frame, and fills in the control block with the context of its caller.
  ghost predicate Started(m: seq<int>, m': seq<int>, low: int, esp: int, ebp: int, k: int, image: seq<int>)
    requires |m| == |m'| == MEMORY && 0 <= k < SLOTS && |image| <= USER_MEM_SIZE - LOAD_OFFSET
  {
    && (forall a | 0 <= a < MEMORY && !(low <= a < esp) && !(PcbAt(k) <= a < PcbAt(k) + PCB_SIZE)
                   && !(Frame(k) <= a < Frame(k) + USER_MEM_SIZE) :: m'[a] == m[a])
    && UserAt(m', k) == Loaded(UserAt(m, k), image)
    && FdsAt(m', PcbAt(k)) == WithStdio(FdsAt(m, PcbAt(k)))
    && m'[PcbAt(k) + PARENT_ESP] == esp && m'[PcbAt(k) + PARENT_EBP] == ebp
  }

  lemma StartedRange(m: seq<int>, m': seq<int>, low: int, esp: int, ebp: int, k: int, image: seq<int>, lo: int, hi: int)
    requires |m| == |m'| == MEMORY && 0 <= k < SLOTS && |image| <= USER_MEM_SIZE - LOAD_OFFSET
    requires Started(m, m', low, esp, ebp, k, image)
    requires 0 <= lo && hi <= MEMORY && Apart(low, esp, lo, hi)
    requires Apart(PcbAt(k), PcbAt(k) + PCB_SIZE, lo, hi) && Apart(Frame(k), Frame(k) + USER_MEM_SIZE, lo, hi)
    ensures Unchanged(m, m', lo, hi)
  {
  }

  lemma StartStores(m: seq<int>, m': seq<int>, esp: int, ebp: int, s: Spec, t: int, d: int, image: seq<int>)
    requires |m| == |m'| == MEMORY && Good(s)
    requires 0 <= t < NUM_TERMINALS && 0 <= d <= 3 && |image| <= USER_MEM_SIZE - LOAD_OFFSET
    requires LowOf(s) <= esp <= HighOf(s) && Started(m, m', LowOf(s), esp, ebp, Slot(t, d), image) && Stores(m, s)
    ensures Stores(m', Start(SetAside(s), t, d, image))
  {
    hide FdsAt, UserAt, Started, Loaded, WithStdio;
    var k, r := Slot(t, d), Start(SetAside(s), t, d, image);
    forall j | 0 <= j < SLOTS
      ensures r.user[j] == UserAt(m', j) && r.fds[j] == FdsAt(m', PcbAt(j))
    {
      if j == k {
        StartedSlot(m, m', LowOf(s), esp, ebp, k, image);
      } else {
        OwnStackApart(s, j);
        SlotsApart(j, k);
        KindsApart(j, k);
        KindsApart(k, j);
        StartedRange(m, m', LowOf(s), esp, ebp, k, image, PcbAt(j), PcbAt(j) + PCB_SIZE);
        StartedRange(m, m', LowOf(s), esp, ebp, k, image, Frame(j), Frame(j) + USER_MEM_SIZE);
        SameUser(m, m', j);
        SameFds(m, m', j);
      }
    }
  }

  lemma StartedSlot(m: seq<int>, m': seq<int>, low: int, esp: int, ebp: int, k: int, image: seq<int>)
    requires |m| == |m'| == MEMORY && 0 <= k < SLOTS && |image| <= USER_MEM_SIZE - LOAD_OFFSET
    requires Started(m, m', low, esp, ebp, k, image)
    ensures UserAt(m', k) == Loaded(UserAt(m, k), image) && FdsAt(m', PcbAt(k)) == WithStdio(FdsAt(m, PcbAt(k)))
    ensures m'[PcbAt(k) + PARENT_ESP] == esp && m'[PcbAt(k) + PARENT_EBP] == ebp
  {
  }

  // The three occasions on which a process is started: by its parent, as a terminal's first shell, or as a root shell
  // that replaces itself.
  predicate StartCase(s: Spec, t: int, d: int)
    requires WellFormed(s)
  {
    && 0 <= t < NUM_TERMINALS && 0 <= d <= 3
    && if d > 0 then t == s.run && d == s.depth[t] + 1 else s.depth[t] == -1 || (t == s.run && s.depth[t] == 0)
  }

  lemma StartParents(m: seq<int>, m': seq<int>, esp: int, ebp: int, s: Spec, t: int, d: int, image: seq<int>)
    requires |m| == |m'| == MEMORY && Good(s) && StartCase(s, t, d) && |image| <= USER_MEM_SIZE - LOAD_OFFSET
    requires LowOf(s) <= esp <= HighOf(s) && Started(m, m', LowOf(s), esp, ebp, Slot(t, d), image)
    requires Parents(m, s) && Running(m, esp, ebp, s)
    ensures Parents(m', Start(SetAside(s), t, d, image))
  {
    hide Started, ParentAt;
    var k, r := Slot(t, d), Start(SetAside(s), t, d, image);
    forall t2, d2 | 0 <= t2 < NUM_TERMINALS && 0 <= d2 < r.depth[t2]
      ensures ParentAt(m', r, t2, d2)
    {
      if d2 < s.depth[t2] {
        assert ParentAt(m, s, t2, d2);
        WaitingKept(m, m', esp, ebp, s, t, d, image, t2, d2);
        SameSaved(m', s, r, t2, d2);
      } else {
        NewParent(m, m', esp, ebp, s, t, d, image);
      }
    }
  }

  lemma WaitingKept(m: seq<int>, m': seq<int>, esp: int, ebp: int, s: Spec, t: int, d: int, image: seq<int>, t2: int,
                    d2: int)
    requires |m| == |m'| == MEMORY && Good(s) && StartCase(s, t, d) && |image| <= USER_MEM_SIZE - LOAD_OFFSET
    requires LowOf(s) <= esp <= HighOf(s) && Started(m, m', LowOf(s), esp, ebp, Slot(t, d), image)
    requires 0 <= t2 < NUM_TERMINALS && 0 <= d2 < s.depth[t2] && ParentAt(m, s, t2, d2)
    ensures ParentAt(m', s, t2, d2)
  {
    hide Started, ParentAt;
    var k, j, c := Slot(t, d), Slot(t2, d2), Slot(t2, d2 + 1);
    SlotInjective(t2, d2, s.run, s.depth[s.run]);
    SlotInjective(t2, d2 + 1, t, d);
    OwnStackApart(s, j);
    OwnStackApart(s, c);
    SlotsApart(c, k);
    KindsApart(k, j);
    KindsApart(k, c);
    StartedRange(m, m', LowOf(s), esp, ebp, k, image, StackLow(j), StackTop(j));
    StartedRange(m, m', LowOf(s), esp, ebp, k, image, PcbAt(c), PcbAt(c) + PCB_SIZE);
    ParentKept(m, m', s, t2, d2);
  }

  lemma SameSaved(m: seq<int>, s: Spec, r: Spec, t: int, d: int)
    requires |m| == MEMORY && WellFormed(s) && WellFormed(r) && 0 <= t < NUM_TERMINALS && 0 <= d < 3
    requires r.saved[Slot(t, d)] == s.saved[Slot(t, d)] && ParentAt(m, s, t, d)
    ensures ParentAt(m, r, t, d)
  {
  }

  lemma NewParent(m: seq<int>, m': seq<int>, esp: int, ebp: int, s: Spec, t: int, d: int, image: seq<int>)
    requires |m| == |m'| == MEMORY && Good(s) && StartCase(s, t, d) && |image| <= USER_MEM_SIZE - LOAD_OFFSET
    requires d > 0 && LowOf(s) <= esp <= HighOf(s) && Started(m, m', LowOf(s), esp, ebp, Slot(t, d), image)
    requires Running(m, esp, ebp, s) && s.depth[t] >= 0
    ensures ParentAt(m', Start(SetAside(s), t, d, image), t, d - 1)
  {
    hide Started;
    var k, j := Slot(t, d), Slot(t, d - 1);
    KindsApart(k, j);
    StartedRange(m, m', LowOf(s), esp, ebp, k, image, esp, StackTop(j));
    SameContext(m, m', j, esp, ebp, s.current);
    StartedSlot(m, m', LowOf(s), esp, ebp, k, image);
  }

  // What the scheduler's arrays must hold for the terminal that loses the processor.
  predicate SavedInArrays(s: Spec, t: int, esp: int, ebp: int, tEsp: seq<int>, tEbp: seq<int>, tEsp': seq<int>,
                          tEbp': seq<int>)
    requires WellFormed(s) && |tEsp| == |tEbp| == |tEsp'| == |tEbp'| == NUM_TERMINALS
  {
    forall u :: 0 <= u < NUM_TERMINALS && u != t ==>
      if u == s.run then tEsp'[u] == esp && tEbp'[u] == ebp else tEsp'[u] == tEsp[u] && tEbp'[u] == tEbp[u]
  }

  lemma StartPreempted(m: seq<int>, m': seq<int>, esp: int, ebp: int, tEsp: seq<int>, tEbp: seq<int>,
                       tEsp': seq<int>, tEbp': seq<int>, s: Spec, t: int, d: int, image: seq<int>)
    requires |m| == |m'| == MEMORY && Good(s) && StartCase(s, t, d) && |image| <= USER_MEM_SIZE - LOAD_OFFSET
    requires |tEsp| == |tEbp| == |tEsp'| == |tEbp'| == NUM_TERMINALS
    requires SavedInArrays(s, t, esp, ebp, tEsp, tEbp, tEsp', tEbp')
    requires LowOf(s) <= esp <= HighOf(s) && Started(m, m', LowOf(s), esp, ebp, Slot(t, d), image)
    requires Preempted(m, tEsp, tEbp, s) && Running(m, esp, ebp, s)
    ensures Preempted(m', tEsp', tEbp', Start(SetAside(s), t, d, image))
  {
    hide Started, PreemptedAt;
    var k, r := Slot(t, d), Start(SetAside(s), t, d, image);
    forall u | 0 <= u < NUM_TERMINALS && u != r.run && r.depth[u] >= 0
      ensures PreemptedAt(m', tEsp', tEbp', r, u)
    {
      var j := Slot(u, s.depth[u]);
      SlotInjective(u, s.depth[u], s.run, s.depth[s.run]);
      KindsApart(k, j);
      OwnStackApart(s, j);
      if u == s.run {
        StartedRange(m, m', LowOf(s), esp, ebp, k, image, esp, StackTop(j));
        SameContext(m, m', j, esp, ebp, s.current);
      } else {
        StartedRange(m, m', LowOf(s), esp, ebp, k, image, StackLow(j), StackTop(j));
        PreemptedKept(m, m', tEsp, tEbp, s, u);
      }
      PreemptedIs(m', tEsp', tEbp', r, u);
    }
  }

  lemma PreemptedIs(m: seq<int>, tEsp: seq<int>, tEbp: seq<int>, r: Spec, u: int)
    requires |m| == MEMORY && WellFormed(r) && |tEsp| == |tEbp| == NUM_TERMINALS
    requires 0 <= u < NUM_TERMINALS && r.depth[u] >= 0
    requires ContextAt(m, Slot(u, r.depth[u]), tEsp[u], tEbp[u], r.saved[Slot(u, r.depth[u])])
    ensures PreemptedAt(m, tEsp, tEbp, r, u)
  {
  }

  // Starting a process keeps everything in order.
  lemma StartHolds(m: seq<int>, m': seq<int>, esp: int, ebp: int, tEsp: seq<int>, tEbp: seq<int>,
                   tEsp': seq<int>, tEbp': seq<int>, s: Spec, t: int, d: int, image: seq<int>)
    requires |m| == |m'| == MEMORY && Good(s) && StartCase(s, t, d) && |image| <= USER_MEM_SIZE - LOAD_OFFSET
    requires |tEsp| == |tEbp| == |tEsp'| == |tEbp'| == NUM_TERMINALS
    requires SavedInArrays(s, t, esp, ebp, tEsp, tEbp, tEsp', tEbp')
    requires Started(m, m', LowOf(s), esp, ebp, Slot(t, d), image)
    requires Holds(m, tEsp, tEbp, s) && Running(m, esp, ebp, s)
    ensures var r := Start(SetAside(s), t, d, image);
      Holds(m', tEsp', tEbp', r) && Running(m', StackTop(Slot(t, d)), ebp, r)
  {
    hide Started, Stores, Parents, Preempted, SavedInArrays;
    StartStores(m, m', esp, ebp, s, t, d, image);
    StartParents(m, m', esp, ebp, s, t, d, image);
    StartPreempted(m, m', esp, ebp, tEsp, tEbp, tEsp', tEbp', s, t, d, image);
  }

  // ----- Switching, halting and storing -----

  // Nothing a context is described by has changed: neither a kernel stack nor a saved stack or frame pointer.
  ghost predicate ContextsAlone(m: seq<int>, m': seq<int>)
    requires |m| == |m'| == MEMORY
  {
    forall k :: 0 <= k < SLOTS ==> SlotContextAlone(m, m', k)
  }

  ghost predicate SlotContextAlone(m: seq<int>, m': seq<int>, k: int)
    requires |m| == |m'| == MEMORY && 0 <= k < SLOTS
  {
    && Unchanged(m, m', StackLow(k), StackTop(k))
    && m'[PcbAt(k) + PARENT_ESP] == m[PcbAt(k) + PARENT_ESP]
    && m'[PcbAt(k) + PARENT_EBP] == m[PcbAt(k) + PARENT_EBP]
  }

  lemma ContextsKept(m: seq<int>, m': seq<int>, tEsp: seq<int>, tEbp: seq<int>, s: Spec, esp: int, ebp: int)
    requires |m| == |m'| == MEMORY && Good(s) && |tEsp| == |tEbp| == NUM_TERMINALS && ContextsAlone(m, m')
    requires Parents(m, s) && Preempted(m, tEsp, tEbp, s) && Running(m, esp, ebp, s)
    ensures Parents(m', s) && Preempted(m', tEsp, tEbp, s) && Running(m', esp, ebp, s)
  {
    hide ContextsAlone, PreemptedAt, ContextAt;
    forall t, d | 0 <= t < NUM_TERMINALS && 0 <= d < s.depth[t]
      ensures ParentAt(m', s, t, d)
    {
      assert ParentAt(m, s, t, d);
      AloneAt(m, m', Slot(t, d));
      AloneAt(m, m', Slot(t, d + 1));
      var child := PcbAt(Slot(t, d + 1));
      ContextAlone(m, m', Slot(t, d), m[child + PARENT_ESP], m[child + PARENT_EBP], s.saved[Slot(t, d)]);
    }
    forall t | 0 <= t < NUM_TERMINALS && t != s.run && s.depth[t] >= 0
      ensures PreemptedAt(m', tEsp, tEbp, s, t)
    {
      AloneAt(m, m', Slot(t, s.depth[t]));
      PreemptedKept(m, m', tEsp, tEbp, s, t);
    }
    if s.depth[s.run] >= 0 {
      AloneAt(m, m', Top(s));
      ContextAlone(m, m', Top(s), esp, ebp, s.current);
    }
  }

  lemma AloneAt(m: seq<int>, m': seq<int>, k: int)
    requires |m| == |m'| == MEMORY && ContextsAlone(m, m') && 0 <= k < SLOTS
    ensures SlotContextAlone(m, m', k)
  {
  }

  lemma ContextAlone(m: seq<int>, m': seq<int>, k: int, esp: int, ebp: int, c: Context)
    requires |m| == |m'| == MEMORY && 0 <= k < SLOTS && SlotContextAlone(m, m', k) && ContextAt(m, k, esp, ebp, c)
    ensures ContextAt(m', k, esp, ebp, c)
  {
    SameContext(m, m', k, esp, ebp, c);
  }

  // Contexts depend on the depths, the running terminal, the saved and the current contexts only.
  lemma ContextsTransfer(m: seq<int>, tEsp: seq<int>, tEbp: seq<int>, s: Spec, r: Spec, esp: int, ebp: int)
    requires |m| == MEMORY && Good(s) && Good(r) && |tEsp| == |tEbp| == NUM_TERMINALS
    requires r.depth == s.depth && r.run == s.run && r.saved == s.saved && r.current == s.current
    requires Parents(m, s) && Preempted(m, tEsp, tEbp, s) && Running(m, esp, ebp, s)
    ensures Parents(m, r) && Preempted(m, tEsp, tEbp, r) && Running(m, esp, ebp, r)
  {
    forall t, d | 0 <= t < NUM_TERMINALS && 0 <= d < r.depth[t]
      ensures ParentAt(m, r, t, d)
    {
      assert ParentAt(m, s, t, d);
    }
    forall t | 0 <= t < NUM_TERMINALS && t != r.run && r.depth[t] >= 0
      ensures PreemptedAt(m, tEsp, tEbp, r, t)
    {
      assert PreemptedAt(m, tEsp, tEbp, s, t);
    }
  }

  // The round robin switch: the arrays take the context of the terminal that loses the processor and give the next one.
  lemma SwitchHolds(m: seq<int>, tEsp: seq<int>, tEbp: seq<int>, s: Spec, esp: int, ebp: int, shell: Program)
    requires Good(s) && Booted(s) && |tEsp| == |tEbp| == NUM_TERMINALS
    requires Holds(m, tEsp, tEbp, s) && Running(m, esp, ebp, s)
    ensures var r := Tick(s, shell);
      && Holds(m, tEsp[s.run := esp], tEbp[s.run := ebp], r)
      && Running(m, tEsp[s.run := esp][r.run], tEbp[s.run := ebp][r.run], r)
  {
    hide ParentAt, PreemptedAt, ContextAt, UserAt, FdsAt, SetAside, BootOrder;
    var r, tEsp', tEbp' := Tick(s, shell), tEsp[s.run := esp], tEbp[s.run := ebp];
    SwitchSaves(s, shell);
    forall t, d | 0 <= t < NUM_TERMINALS && 0 <= d < r.depth[t]
      ensures ParentAt(m, r, t, d)
    {
      SlotInjective(t, d, s.run, s.depth[s.run]);
      SameSaved(m, s, r, t, d);
    }
    forall t | 0 <= t < NUM_TERMINALS
      ensures PreemptedAt(m, tEsp', tEbp', r, t)
    {
      SwitchedOut(m, tEsp, tEbp, s, esp, ebp, shell, t);
    }
    NextRunning(m, tEsp', tEbp', r);
  }

  // The context of the terminal that loses the processor is saved, and no other.
  lemma SwitchSaves(s: Spec, shell: Program)
    requires Good(s) && Booted(s)
    ensures var r := Tick(s, shell);
      && r.depth == s.depth && r.run != s.run && r.saved == s.saved[Top(s) := s.current]
      && r.current == r.saved[Top(r)] && r.user == s.user && r.fds == s.fds
  {
  }

  lemma SwitchedOut(m: seq<int>, tEsp: seq<int>, tEbp: seq<int>, s: Spec, esp: int, ebp: int, shell: Program, t: int)
    requires Good(s) && Booted(s) && |tEsp| == |tEbp| == NUM_TERMINALS && 0 <= t < NUM_TERMINALS
    requires |m| == MEMORY && Preempted(m, tEsp, tEbp, s) && Running(m, esp, ebp, s)
    ensures PreemptedAt(m, tEsp[s.run := esp], tEbp[s.run := ebp], Tick(s, shell), t)
  {
    hide ContextAt, SetAside, BootOrder, Tick;
    SwitchSaves(s, shell);
    if t != s.run {
      assert PreemptedAt(m, tEsp, tEbp, s, t);
      SlotInjective(t, s.depth[t], s.run, s.depth[s.run]);
    }
  }

  lemma NextRunning(m: seq<int>, tEsp: seq<int>, tEbp: seq<int>, r: Spec)
    requires |m| == MEMORY && Good(r) && Booted(r) && |tEsp| == |tEbp| == NUM_TERMINALS
    requires PreemptedAt(m, tEsp, tEbp, r, r.run) && r.current == r.saved[Top(r)]
    ensures Running(m, tEsp[r.run], tEbp[r.run], r)
  {
    hide ContextAt;
  }

  // The memory effect of halting the process in slot child: the open descriptors of its parent are closed, and its own
  // control block is reset.
  ghost predicate Halted(m: seq<int>, m': seq<int>, child: int, parent: int)
    requires |m| == |m'| == MEMORY && 0 <= child < SLOTS && 0 <= parent < SLOTS
  {
    && (forall a | 0 <= a < MEMORY && !(PcbAt(child) <= a < PcbAt(child) + PCB_SIZE)
                   && !(PcbAt(parent) <= a < PcbAt(parent) + 128) :: m'[a] == m[a])
    && FdsAt(m', PcbAt(parent)) == CloseOpen(FdsAt(m, PcbAt(parent)))
    && FdsAt(m', PcbAt(child)) == CloseAll(FdsAt(m, PcbAt(child)))
  }

  lemma HaltedRange(m: seq<int>, m': seq<int>, child: int, parent: int, lo: int, hi: int)
    requires |m| == |m'| == MEMORY && 0 <= child < SLOTS && 0 <= parent < SLOTS && Halted(m, m', child, parent)
    requires 0 <= lo && hi <= MEMORY && Apart(PcbAt(child), PcbAt(child) + PCB_SIZE, lo, hi)
    requires Apart(PcbAt(parent), PcbAt(parent) + 128, lo, hi)
    ensures Unchanged(m, m', lo, hi)
  {
  }

  lemma HaltStores(m: seq<int>, m': seq<int>, s: Spec, shell: Program)
    requires |m| == |m'| == MEMORY && Good(s) && s.depth[s.run] >= 1 && Stores(m, s)
    requires Halted(m, m', Top(s), Slot(s.run, s.depth[s.run] - 1))
    ensures Stores(m', Halt(s, shell))
  {
    var child, parent, r := Top(s), Slot(s.run, s.depth[s.run] - 1), Halt(s, shell);
    forall j | 0 <= j < SLOTS
      ensures r.user[j] == UserAt(m', j) && r.fds[j] == FdsAt(m', PcbAt(j))
    {
      HaltSlot(m, m', s, child, parent, j);
    }
  }

  lemma HaltSlot(m: seq<int>, m': seq<int>, s: Spec, child: int, parent: int, j: int)
    requires |m| == |m'| == MEMORY && WellFormed(s) && Stores(m, s) && 0 <= j < SLOTS
    requires 0 <= child < SLOTS && 0 <= parent < SLOTS && child != parent && Halted(m, m', child, parent)
    ensures s.user[j] == UserAt(m', j)
    ensures FdsAt(m', PcbAt(j)) ==
      if j == child then CloseAll(s.fds[j]) else if j == parent then CloseOpen(s.fds[j]) else s.fds[j]
  {
    hide FdsAt, UserAt, CloseAll, CloseOpen;
    KindsApart(j, child);
    KindsApart(j, parent);
    HaltedRange(m, m', child, parent, Frame(j), Frame(j) + USER_MEM_SIZE);
    SameUser(m, m', j);
    if j != child && j != parent {
      SlotsApart(j, child);
      SlotsApart(j, parent);
      HaltedRange(m, m', child, parent, PcbAt(j), PcbAt(j) + PCB_SIZE);
      SameFds(m, m', j);
    }
  }

  lemma HaltContexts(m: seq<int>, m': seq<int>, tEsp: seq<int>, tEbp: seq<int>, s: Spec, shell: Program)
    requires |m| == |m'| == MEMORY && Good(s) && s.depth[s.run] >= 1 && |tEsp| == |tEbp| == NUM_TERMINALS
    requires Halted(m, m', Top(s), Slot(s.run, s.depth[s.run] - 1))
    requires Parents(m, s) && Preempted(m, tEsp, tEbp, s)
    ensures var r := Halt(s, shell);
      && Parents(m', r) && Preempted(m', tEsp, tEbp, r)
      && Running(m', m[PcbAt(Top(s)) + PARENT_ESP], m[PcbAt(Top(s)) + PARENT_EBP], r)
  {
    hide Halted, ContextAt;
    var t, d := s.run, s.depth[s.run];
    var child, parent, r := Top(s), Slot(t, d - 1), Halt(s, shell);
    assert ParentAt(m, s, t, d - 1);
    HaltedContext(m, m', child, parent, parent, m[PcbAt(child) + PARENT_ESP], m[PcbAt(child) + PARENT_EBP],
                  s.saved[parent]);
    forall t2, d2 | 0 <= t2 < NUM_TERMINALS && 0 <= d2 < r.depth[t2]
      ensures ParentAt(m', r, t2, d2)
    {
      assert ParentAt(m, s, t2, d2);
      var c := Slot(t2, d2 + 1);
      SlotInjective(t2, d2 + 1, t, d);
      HaltedCells(m, m', child, parent, c);
      HaltedContext(m, m', child, parent, Slot(t2, d2), m[PcbAt(c) + PARENT_ESP], m[PcbAt(c) + PARENT_EBP],
                    s.saved[Slot(t2, d2)]);
    }
    forall u | 0 <= u < NUM_TERMINALS && u != r.run && r.depth[u] >= 0
      ensures PreemptedAt(m', tEsp, tEbp, r, u)
    {
      assert PreemptedAt(m, tEsp, tEbp, s, u);
      HaltedContext(m, m', child, parent, Slot(u, s.depth[u]), tEsp[u], tEbp[u], s.saved[Slot(u, s.depth[u])]);
    }
  }

  lemma HaltedContext(m: seq<int>, m': seq<int>, child: int, parent: int, k: int, esp: int, ebp: int, c: Context)
    requires |m| == |m'| == MEMORY && 0 <= child < SLOTS && 0 <= parent < SLOTS && Halted(m, m', child, parent)
    requires 0 <= k < SLOTS && ContextAt(m, k, esp, ebp, c)
    ensures ContextAt(m', k, esp, ebp, c)
  {
    hide Halted;
    KindsApart(child, k);
    KindsApart(parent, k);
    HaltedRange(m, m', child, parent, StackLow(k), StackTop(k));
    SameContext(m, m', k, esp, ebp, c);
  }

  // The saved pointers of every control block but the halted process's own survive.
  lemma HaltedCells(m: seq<int>, m': seq<int>, child: int, parent: int, c: int)
    requires |m| == |m'| == MEMORY && 0 <= child < SLOTS && 0 <= parent < SLOTS && Halted(m, m', child, parent)
    requires 0 <= c < SLOTS && c != child
    ensures m'[PcbAt(c) + PARENT_ESP] == m[PcbAt(c) + PARENT_ESP]
    ensures m'[PcbAt(c) + PARENT_EBP] == m[PcbAt(c) + PARENT_EBP]
  {
    SlotsApart(c, child);
    if c != parent {
      SlotsApart(c, parent);
    }
    HaltedRange(m, m', child, parent, PcbAt(c) + 128, PcbAt(c) + PCB_SIZE);
  }

  // Halting a child keeps everything in order and puts its parent back where it was.
  lemma HaltHolds(m: seq<int>, m': seq<int>, tEsp: seq<int>, tEbp: seq<int>, s: Spec, shell: Program)
    requires |m| == |m'| == MEMORY && Good(s) && s.depth[s.run] >= 1 && |tEsp| == |tEbp| == NUM_TERMINALS
    requires Halted(m, m', Top(s), Slot(s.run, s.depth[s.run] - 1)) && Holds(m, tEsp, tEbp, s)
    ensures var r := Halt(s, shell);
      && Holds(m', tEsp, tEbp, r)
      && Running(m', m[PcbAt(Top(s)) + PARENT_ESP], m[PcbAt(Top(s)) + PARENT_EBP], r)
  {
    hide Halted, Stores, Parents, Preempted, Running;
    HaltStores(m, m', s, shell);
    HaltContexts(m, m', tEsp, tEbp, s, shell);
  }

  // A change to the descriptors of one control block.
  ghost predicate FdsWritten(m: seq<int>, m': seq<int>, k: int, fds: seq<Fd>)
    requires |m| == |m'| == MEMORY && 0 <= k < SLOTS
  {
    Outside(m, m', PcbAt(k), PcbAt(k) + 128) && FdsAt(m', PcbAt(k)) == fds
  }

  lemma FdsHold(m: seq<int>, m': seq<int>, tEsp: seq<int>, tEbp: seq<int>, s: Spec, esp: int, ebp: int, fds: seq<Fd>)
    requires |m| == |m'| == MEMORY && Good(s) && s.depth[s.run] >= 0 && |tEsp| == |tEbp| == NUM_TERMINALS && |fds| == 8
    requires Holds(m, tEsp, tEbp, s) && Running(m, esp, ebp, s) && FdsWritten(m, m', Top(s), fds)
    ensures Holds(m', tEsp, tEbp, SetFds(s, fds)) && Running(m', esp, ebp, SetFds(s, fds))
  {
    hide FdsAt, UserAt, ContextAt, Outside, FdsWritten, SlotContextAlone;
    forall j | 0 <= j < SLOTS
      ensures SetFds(s, fds).user[j] == UserAt(m', j) && SetFds(s, fds).fds[j] == FdsAt(m', PcbAt(j))
      ensures SlotContextAlone(m, m', j)
    {
      FdsSlot(m, m', Top(s), fds, j);
    }
    ContextsKept(m, m', tEsp, tEbp, s, esp, ebp);
    ContextsTransfer(m', tEsp, tEbp, s, SetFds(s, fds), esp, ebp);
  }

  lemma FdsSlot(m: seq<int>, m': seq<int>, k: int, fds: seq<Fd>, j: int)
    requires |m| == |m'| == MEMORY && 0 <= k < SLOTS && 0 <= j < SLOTS && FdsWritten(m, m', k, fds)
    ensures UserAt(m', j) == UserAt(m, j) && SlotContextAlone(m, m', j)
    ensures FdsAt(m', PcbAt(j)) == if j == k then fds else FdsAt(m, PcbAt(j))
  {
    hide FdsAt, UserAt, Outside;
    KindsApart(k, j);
    KindsApart(j, k);
    OutsideRange(m, m', PcbAt(k), PcbAt(k) + 128, Frame(j), Frame(j) + USER_MEM_SIZE);
    OutsideRange(m, m', PcbAt(k), PcbAt(k) + 128, StackLow(j), StackTop(j));
    SameUser(m, m', j);
    if j != k {
      SlotsApart(j, k);
      OutsideRange(m, m', PcbAt(k), PcbAt(k) + 128, PcbAt(j), PcbAt(j) + PCB_SIZE);
      SameFds(m, m', j);
    } else {
      OutsideRange(m, m', PcbAt(k), PcbAt(k) + 128, PcbAt(k) + 128, PcbAt(k) + PCB_SIZE);
    }
  }

  lemma UserStored(m: seq<int>, k: int, offset: int, v: int)
    requires |m| == MEMORY && 0 <= k < SLOTS && 0 <= offset < USER_MEM_SIZE
    ensures UserAt(m[Frame(k) + offset := v], k) == UserAt(m, k)[offset := v]
  {
  }

  // A user store into the running process's own frame, and one into a video page.
  lemma StoreHolds(m: seq<int>, tEsp: seq<int>, tEbp: seq<int>, s: Spec, esp: int, ebp: int, va: int, v: int)
    requires |m| == MEMORY && Good(s) && s.depth[s.run] >= 0 && |tEsp| == |tEbp| == NUM_TERMINALS
    requires USER_MEM_START <= va < USER_MEM_START + USER_MEM_SIZE
    requires Holds(m, tEsp, tEbp, s) && Running(m, esp, ebp, s)
    ensures var m' := m[Frame(Top(s)) + (va - USER_MEM_START) := v];
      Holds(m', tEsp, tEbp, Store(s, va, v)) && Running(m', esp, ebp, Store(s, va, v))
  {
    hide FdsAt, UserAt, ContextAt, SlotContextAlone;
    var k, a := Top(s), Frame(Top(s)) + (va - USER_MEM_START);
    var m' := m[a := v];
    forall j | 0 <= j < SLOTS
      ensures Store(s, va, v).user[j] == UserAt(m', j) && s.fds[j] == FdsAt(m', PcbAt(j))
      ensures SlotContextAlone(m, m', j)
    {
      StoreSlot(m, k, va - USER_MEM_START, v, j);
    }
    ContextsKept(m, m', tEsp, tEbp, s, esp, ebp);
    ContextsTransfer(m', tEsp, tEbp, s, Store(s, va, v), esp, ebp);
  }

  lemma StoreSlot(m: seq<int>, k: int, offset: int, v: int, j: int)
    requires |m| == MEMORY && 0 <= k < SLOTS && 0 <= j < SLOTS && 0 <= offset < USER_MEM_SIZE
    ensures var m' := m[Frame(k) + offset := v];
      && UserAt(m', j) == (if j == k then UserAt(m, k)[offset := v] else UserAt(m, j))
      && FdsAt(m', PcbAt(j)) == FdsAt(m, PcbAt(j)) && SlotContextAlone(m, m', j)
  {
    hide FdsAt, UserAt, Outside;
    var a, m' := Frame(k) + offset, m[Frame(k) + offset := v];
    OneCell(m, a, v);
    UserStored(m, k, offset, v);
    KindsApart(k, j);
    OutsideRange(m, m', a, a + 1, StackLow(j), StackTop(j));
    OutsideRange(m, m', a, a + 1, PcbAt(j), PcbAt(j) + PCB_SIZE);
    SameFds(m, m', j);
    if j != k {
      SlotsApart(j, k);
      OutsideRange(m, m', a, a + 1, Frame(j), Frame(j) + USER_MEM_SIZE);
      SameUser(m, m', j);
    }
  }

  lemma OneCell(m: seq<int>, a: int, v: int)
    requires 0 <= a < |m|
    ensures Outside(m, m[a := v], a, a + 1)
  {
  }

  lemma VideoHolds(m: seq<int>, tEsp: seq<int>, tEbp: seq<int>, s: Spec, esp: int, ebp: int, a: int, v: int)
    requires |m| == MEMORY && Good(s) && |tEsp| == |tEbp| == NUM_TERMINALS && 0 <= a < 0x400000
    requires Holds(m, tEsp, tEbp, s) && Running(m, esp, ebp, s)
    ensures Holds(m[a := v], tEsp, tEbp, s) && Running(m[a := v], esp, ebp, s)
  {
    hide FdsAt, UserAt, ContextAt, Outside;
    var m' := m[a := v];
    OneCell(m, a, v);
    forall j | 0 <= j < SLOTS
      ensures s.user[j] == UserAt(m', j) && s.fds[j] == FdsAt(m', PcbAt(j))
      ensures SlotContextAlone(m, m', j)
    {
      OutsideRange(m, m', a, a + 1, StackLow(j), StackTop(j));
      OutsideRange(m, m', a, a + 1, PcbAt(j), PcbAt(j) + PCB_SIZE);
      OutsideRange(m, m', a, a + 1, Frame(j), Frame(j) + USER_MEM_SIZE);
      SameFds(m, m', j);
      SameUser(m, m', j);
    }
    ContextsKept(m, m', tEsp, tEbp, s, esp, ebp);
  }

  // ----- The steps the kernel's methods are made of -----

  lemma Wider(m: seq<int>, m': seq<int>, lo: int, hi: int, lo': int)
    requires |m| == |m'| && lo' <= lo && Outside(m, m', lo, hi)
    ensures Outside(m, m', lo', hi)
  {
  }

  // m' is m with the words stored from at on.
  ghost predicate Written(m: seq<int>, m': seq<int>, at: int, words: seq<int>)
    requires |m| == |m'|
  {
    Outside(m, m', at, at + |words|) && 0 <= at && at + |words| <= |m| && m'[at..at + |words|] == words
  }

  lemma RunningBounds(m: seq<int>, esp: int, ebp: int, s: Spec)
    requires |m| == MEMORY && Good(s) && Running(m, esp, ebp, s)
    ensures 0 <= LowOf(s) <= esp <= HighOf(s) <= USER_PHYS_MEM_START
    ensures s.current.esp == esp && s.current.ebp == ebp
  {
  }

  lemma StackBounds(m: seq<int>, esp: int, ebp: int, s: Spec, at: int, n: int)
    requires |m| == MEMORY && Good(s) && Running(m, esp, ebp, s) && LowOf(s) <= at - n && at <= HighOf(s) && n >= 0
    ensures 0 <= at - n && HighOf(s) <= MEMORY
  {
  }

  lemma FdStored(m: seq<int>, pcb: int, i: int, fd: Fd)
    requires 0 <= pcb && pcb + PCB_SIZE <= |m| && 0 <= i < 8
    ensures FdsAt(m[pcb + 16 * i := fd.fops][pcb + 16 * i + 4 := fd.inode][pcb + 16 * i + 8 := fd.position]
                   [pcb + 16 * i + 12 := fd.flags], pcb)
      == FdsAt(m, pcb)[i := fd]
  {
  }

  lemma FdsElsewhere(m: seq<int>, m': seq<int>, pcb: int)
    requires 0 <= pcb && pcb + PCB_SIZE <= |m| == |m'| && Unchanged(m, m', pcb, pcb + 128)
    ensures FdsAt(m', pcb) == FdsAt(m, pcb)
  {
  }

  lemma FlagsAt(m: seq<int>, pcb: int, i: int)
    requires 0 <= pcb && pcb + PCB_SIZE <= |m| && 0 <= i < 8
    ensures FdsAt(m, pcb)[i].flags == m[pcb + 16 * i + 12]
  {
  }

  lemma SameFdsSet(s: Spec)
    requires Good(s) && s.depth[s.run] >= 0
    ensures SetFds(s, s.fds[Top(s)]) == s
  {
  }

  lemma FdsHeld(m: seq<int>, tEsp: seq<int>, tEbp: seq<int>, s: Spec)
    requires Good(s) && s.depth[s.run] >= 0 && |tEsp| == |tEbp| == NUM_TERMINALS && Holds(m, tEsp, tEbp, s)
    ensures |m| == MEMORY && s.fds[Top(s)] == FdsAt(m, PcbAt(Top(s)))
  {
  }

  // Standard input and output in a control block, word by word.
  ghost predicate StdioCells(m: seq<int>, pcb: int)
    requires 0 <= pcb && pcb + PCB_SIZE <= |m|
  {
    forall i :: 0 <= i < 2 ==>
      && m[pcb + 16 * i] == TERMINAL && m[pcb + 16 * i + 4] == 0
      && m[pcb + 16 * i + 8] == 0 && m[pcb + 16 * i + 12] == 1
  }

  lemma StdioHeld(m: seq<int>, pcb: int)
    requires 0 <= pcb && pcb + PCB_SIZE <= |m|
    ensures HasStdio(FdsAt(m, pcb)) <==> StdioCells(m, pcb)
  {
    var fds := FdsAt(m, pcb);
    assert fds[0] == FdAt(m, pcb, 0) && fds[1] == FdAt(m, pcb, 1);
  }

  lemma FdsWrittenBy(m: seq<int>, m': seq<int>, k: int, fds: seq<Fd>)
    requires |m| == |m'| == MEMORY && 0 <= k < SLOTS
    requires Outside(m, m', PcbAt(k), PcbAt(k) + 128) && FdsAt(m', PcbAt(k)) == fds
    ensures FdsWritten(m, m', k, fds)
  {
  }

  lemma LoadNothing(user: seq<int>)
    requires |user| == USER_MEM_SIZE
    ensures Loaded(user, []) == user
  {
  }

  lemma LoadOne(user: seq<int>, image: seq<int>, b: int)
    requires |user| == USER_MEM_SIZE && |image| < USER_MEM_SIZE - LOAD_OFFSET
    ensures Loaded(user, image + [b]) == Loaded(user, image)[LOAD_OFFSET + |image| := b]
  {
  }

  // Loading, filling the control block and pushing, one after the other, is what starting a process means.
  lemma StartedBy(m0: seq<int>, m1: seq<int>, m2: seq<int>, m3: seq<int>, low: int, esp: int, ebp: int, k: int,
                  image: seq<int>, n: int)
    requires |m0| == |m1| == |m2| == |m3| == MEMORY && 0 <= k < SLOTS && |image| <= USER_MEM_SIZE - LOAD_OFFSET
    requires Outside(m0, m1, Frame(k), Frame(k) + USER_MEM_SIZE) && UserAt(m1, k) == Loaded(UserAt(m0, k), image)
    requires Outside(m1, m2, PcbAt(k), PcbAt(k) + PCB_SIZE) && FdsAt(m2, PcbAt(k)) == WithStdio(FdsAt(m1, PcbAt(k)))
    requires m2[PcbAt(k) + PARENT_ESP] == esp && m2[PcbAt(k) + PARENT_EBP] == ebp
    requires 0 <= n && low <= esp - n && esp <= USER_PHYS_MEM_START && Outside(m2, m3, esp - n, esp)
    requires Apart(low, esp, PcbAt(k), PcbAt(k) + PCB_SIZE)
    ensures Started(m0, m3, low, esp, ebp, k, image)
  {
    hide FdsAt, UserAt, Outside, Loaded, WithStdio;
    KindsApart(k, k);
    OutsideRange(m0, m1, Frame(k), Frame(k) + USER_MEM_SIZE, PcbAt(k), PcbAt(k) + PCB_SIZE);
    OutsideRange(m1, m2, PcbAt(k), PcbAt(k) + PCB_SIZE, Frame(k), Frame(k) + USER_MEM_SIZE);
    OutsideRange(m2, m3, esp - n, esp, Frame(k), Frame(k) + USER_MEM_SIZE);
    OutsideRange(m2, m3, esp - n, esp, PcbAt(k), PcbAt(k) + PCB_SIZE);
    SameFds(m0, m1, k);
    SameUser(m1, m2, k);
    SameUser(m2, m3, k);
    SameFds(m2, m3, k);
    forall a | 0 <= a < MEMORY && !(low <= a < esp) && !(PcbAt(k) <= a < PcbAt(k) + PCB_SIZE)
                 && !(Frame(k) <= a < Frame(k) + USER_MEM_SIZE)
      ensures m3[a] == m0[a]
    {
      OutsideRange(m0, m1, Frame(k), Frame(k) + USER_MEM_SIZE, a, a + 1);
      OutsideRange(m1, m2, PcbAt(k), PcbAt(k) + PCB_SIZE, a, a + 1);
      OutsideRange(m2, m3, esp - n, esp, a, a + 1);
    }
  }

  // Pushes below the stack pointer disturb neither what is kept nor the running context.
  lemma PushHolds(m: seq<int>, m': seq<int>, tEsp: seq<int>, tEbp: seq<int>, s: Spec, esp: int, ebp: int, n: int)
    requires |m| == |m'| == MEMORY && Good(s) && |tEsp| == |tEbp| == NUM_TERMINALS
    requires Holds(m, tEsp, tEbp, s) && Running(m, esp, ebp, s)
    requires 0 <= n <= esp - LowOf(s) && Outside(m, m', esp - n, esp)
    ensures Holds(m', tEsp, tEbp, s) && Running(m', esp, ebp, s)
  {
    hide Holds;
    OwnStackWrites(m, m', tEsp, tEbp, s);
    if s.depth[s.run] >= 0 {
      OutsideRange(m, m', esp - n, esp, esp, StackTop(Top(s)));
      SameContext(m, m', Top(s), esp, ebp, s.current);
    }
  }

  // The memory of halt's loop before iteration i.
  ghost predicate Torn(m: seq<int>, m': seq<int>, child: int, parent: int, i: int)
    requires |m| == MEMORY && 0 <= child < SLOTS && 0 <= parent < SLOTS
  {
    && |m'| == MEMORY
    && (forall a | 0 <= a < MEMORY && !(PcbAt(child) <= a < PcbAt(child) + 128)
                   && !(PcbAt(parent) <= a < PcbAt(parent) + 128) :: m'[a] == m[a])
    && (forall j | 0 <= j < 8 :: FdsAt(m', PcbAt(parent))[j]
          == if j < i then CloseOpen(FdsAt(m, PcbAt(parent)))[j] else FdsAt(m, PcbAt(parent))[j])
    && (forall j | 0 <= j < 8 :: FdsAt(m', PcbAt(child))[j]
          == if j < i then CloseAll(FdsAt(m, PcbAt(child)))[j] else FdsAt(m, PcbAt(child))[j])
  }

  lemma TornStart(m: seq<int>, child: int, parent: int)
    requires |m| == MEMORY && 0 <= child < SLOTS && 0 <= parent < SLOTS
    ensures Torn(m, m, child, parent, 2)
  {
    hide FdsAt;
  }

  lemma TornNext(m: seq<int>, m1: seq<int>, m2: seq<int>, m3: seq<int>, child: int, parent: int, i: int)
    requires |m| == |m1| == |m2| == |m3| == MEMORY && 0 <= child < SLOTS && 0 <= parent < SLOTS && child != parent
    requires 2 <= i < 8 && Torn(m, m1, child, parent, i)
    requires Outside(m1, m2, PcbAt(parent), PcbAt(parent) + 128)
    requires FdsAt(m2, PcbAt(parent)) == CloseFds(FdsAt(m1, PcbAt(parent)), i)
    requires Outside(m2, m3, PcbAt(child) + 16 * i, PcbAt(child) + 16 * i + 16)
    requires FdsAt(m3, PcbAt(child)) == FdsAt(m2, PcbAt(child))[i := CLOSED]
    ensures Torn(m, m3, child, parent, i + 1)
  {
    hide FdsAt;
    SlotsApart(child, parent);
    FdsElsewhere(m1, m2, PcbAt(child));
    FdsElsewhere(m2, m3, PcbAt(parent));
  }

  lemma TornAll(m: seq<int>, m': seq<int>, child: int, parent: int)
    requires |m| == MEMORY && 0 <= child < SLOTS && 0 <= parent < SLOTS && child != parent
    requires Torn(m, m', child, parent, 8)
    ensures Halted(m, m', child, parent)
    ensures m'[PcbAt(child) + PARENT_ESP] == m[PcbAt(child) + PARENT_ESP]
    ensures m'[PcbAt(child) + PARENT_EBP] == m[PcbAt(child) + PARENT_EBP]
  {
    hide FdsAt;
    SlotsApart(child, parent);
    assert FdsAt(m', PcbAt(parent)) == CloseOpen(FdsAt(m, PcbAt(parent)));
    assert FdsAt(m', PcbAt(child)) == CloseAll(FdsAt(m, PcbAt(child)));
  }

  // Resetting the rest of the halted process's control block.
  lemma HaltedReset(m: seq<int>, m1: seq<int>, m2: seq<int>, child: int, parent: int)
    requires |m| == |m1| == |m2| == MEMORY && 0 <= child < SLOTS && 0 <= parent < SLOTS && child != parent
    requires Halted(m, m1, child, parent) && Outside(m1, m2, PcbAt(child) + 128, PcbAt(child) + PCB_SIZE)
    ensures Halted(m, m2, child, parent)
  {
    hide FdsAt;
    SlotsApart(child, parent);
    FdsElsewhere(m1, m2, PcbAt(child));
    FdsElsewhere(m1, m2, PcbAt(parent));
  }

  lemma MoveTransfer(m: seq<int>, tEsp: seq<int>, tEbp: seq<int>, s: Spec, c: Context)
    requires |m| == MEMORY && Good(s) && |tEsp| == |tEbp| == NUM_TERMINALS && Holds(m, tEsp, tEbp, s)
    ensures Holds(m, tEsp, tEbp, Move(s, c))
  {
    hide UserAt, FdsAt, ContextAt;
    var r := Move(s, c);
    forall t, d | 0 <= t < NUM_TERMINALS && 0 <= d < r.depth[t]
      ensures ParentAt(m, r, t, d)
    {
      assert ParentAt(m, s, t, d);
    }
    forall t | 0 <= t < NUM_TERMINALS && t != r.run && r.depth[t] >= 0
      ensures PreemptedAt(m, tEsp, tEbp, r, t)
    {
      assert PreemptedAt(m, tEsp, tEbp, s, t);
    }
  }

  // Nothing in memory depends on the exception flag.
  lemma RaiseHolds(m: seq<int>, tEsp: seq<int>, tEbp: seq<int>, s: Spec, esp: int, ebp: int)
    requires |m| == MEMORY && Good(s) && |tEsp| == |tEbp| == NUM_TERMINALS
    requires Holds(m, tEsp, tEbp, s) && Running(m, esp, ebp, s)
    ensures Holds(m, tEsp, tEbp, Raise(s, true)) && Running(m, esp, ebp, Raise(s, true))
  {
    hide UserAt, FdsAt, ContextAt;
    ContextsTransfer(m, tEsp, tEbp, s, Raise(s, true), esp, ebp);
  }

  lemma MoveHolds(m: seq<int>, m': seq<int>, tEsp: seq<int>, tEbp: seq<int>, s: Spec, esp: int, ebp: int,
                  c: Context, below: seq<int>)
    requires |m| == |m'| == MEMORY && Good(s) && |tEsp| == |tEbp| == NUM_TERMINALS
    requires Holds(m, tEsp, tEbp, s) && Running(m, esp, ebp, s)
    requires |c.stack| == HighOf(s) - c.esp && LowOf(s) <= c.esp - |below|
    requires Written(m, m', c.esp - |below|, below + c.stack)
    ensures Holds(m', tEsp, tEbp, Move(s, c)) && Running(m', c.esp, c.ebp, Move(s, c))
  {
    hide Stores, Parents, Preempted, Outside;
    assert Outside(m, m', LowOf(s), HighOf(s)) by {
      Wider(m, m', c.esp - |below|, HighOf(s), LowOf(s));
    }
    OwnStackWrites(m, m', tEsp, tEbp, s);
    MoveTransfer(m', tEsp, tEbp, s, c);
    var at := c.esp - |below|;
    assert m'[c.esp..HighOf(s)] == m'[at..at + |below + c.stack|][|below|..] == c.stack;
  }
}
