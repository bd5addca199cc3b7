// Where the kernel keeps the frame, the process control block and the kernel stack of each process
// (student-distrib/system_call.h and the address computations in system_call.c and scheduler.c).
module Layout {
  const USER_MEM_START: nat := 0x8000000
  const USER_PHYS_MEM_START: nat := 0x800000
  const USER_MEM_SIZE: nat := 0x400000
  const KERNEL_STACK_SIZE: nat := 0x2000
  const NUM_TERMINALS: nat := 3
  const PCB_SIZE: nat := 152
  const MAX_PID: nat := 5
  const VIDEO: nat := 0xB8000
  const TERMINAL_1_VIDMEM: nat := 0xB9000
  const TERMINAL_2_VIDMEM: nat := 0xBA000
  const TERMINAL_3_VIDMEM: nat := 0xBB000

  // terminal_vidmem: the page that holds a terminal's screen while it is not displayed.
  function Backing(t: int): (b: nat)
    requires 0 <= t < NUM_TERMINALS
    ensures b == TERMINAL_1_VIDMEM + 0x1000 * t
  {
    if t == 0 then TERMINAL_1_VIDMEM else if t == 1 then TERMINAL_2_VIDMEM else TERMINAL_3_VIDMEM
  }

  // The page a terminal's screen is in.
  function ScreenPage(display: int, t: int): (b: nat)
    requires 0 <= t < NUM_TERMINALS
    ensures VIDEO <= b && b + 0x1000 <= 0xBC000
  {
    if t == display then VIDEO else Backing(t)
  }

  // Processes are numbered by terminal and depth in the terminal's stack of processes.
  function Slot(terminal: int, depth: int): int {
    terminal + NUM_TERMINALS * depth
  }

  function Frame(k: int): int {
    USER_PHYS_MEM_START + USER_MEM_SIZE * k
  }

  function PcbAt(k: int): int {
    USER_PHYS_MEM_START - KERNEL_STACK_SIZE * (k + 1)
  }

  // tss.esp0 while the process runs: its kernel stack grows down from here.
  function StackTop(k: int): int {
    PcbAt(k) - 4
  }

  // The lowest address of the stack: the end of the next slot's process control block.
  function StackLow(k: int): int {
    PcbAt(k) - KERNEL_STACK_SIZE + PCB_SIZE
  }

  // The four places that compute these addresses agree.
  lemma AddressFormulas(t: int, d: int)
    ensures USER_PHYS_MEM_START + t * USER_MEM_SIZE + d * NUM_TERMINALS * USER_MEM_SIZE == Frame(Slot(t, d))
    ensures USER_PHYS_MEM_START - KERNEL_STACK_SIZE * (t + 1) - d * NUM_TERMINALS * KERNEL_STACK_SIZE
      == PcbAt(Slot(t, d))
  {
  }

  // Where each process is: frames of 4MB from 8MB up, control blocks every 8KB from 8MB down, the stack below its
  // block.
  lemma Addresses(t: int, d: int)
    requires 0 <= t < 3
    ensures Frame(Slot(t, d)) == 0x80_0000 + 0x40_0000 * (t + 3 * d)
    ensures PcbAt(Slot(t, d)) == 0x80_0000 - 0x2000 * (t + 3 * d + 1)
    ensures StackTop(Slot(t, d)) == PcbAt(Slot(t, d)) - 4
    ensures StackLow(Slot(t, d)) == PcbAt(Slot(t + 1, d)) + 152
    ensures Backing(t) == 0xB9000 + 0x1000 * t && VIDEO == 0xB8000 && NUM_TERMINALS == 3
    ensures USER_MEM_START == 0x800_0000 && USER_MEM_SIZE == 0x40_0000 && MAX_PID == 5
  {
  }

  lemma SlotInjective(t: int, d: int, t': int, d': int)
    requires 0 <= t < NUM_TERMINALS && 0 <= t' < NUM_TERMINALS
    ensures Slot(t, d) == Slot(t', d') <==> t == t' && d == d'
  {
  }

  predicate Apart(lo: int, hi: int, lo': int, hi': int) {
    hi <= lo' || hi' <= lo
  }

  // Regions of distinct processes never meet, however deep the process stacks are.
  lemma SlotsApart(k: nat, j: nat)
    requires k != j
    ensures Apart(Frame(k), Frame(k) + USER_MEM_SIZE, Frame(j), Frame(j) + USER_MEM_SIZE)
    ensures Apart(PcbAt(k), PcbAt(k) + PCB_SIZE, PcbAt(j), PcbAt(j) + PCB_SIZE)
    ensures Apart(StackLow(k), StackTop(k), StackLow(j), StackTop(j))
  {
    assert k < j ==> KERNEL_STACK_SIZE * (k + 1) + KERNEL_STACK_SIZE <= KERNEL_STACK_SIZE * (j + 1);
    assert j < k ==> KERNEL_STACK_SIZE * (j + 1) + KERNEL_STACK_SIZE <= KERNEL_STACK_SIZE * (k + 1);
  }

  // Neither do regions of different kinds, of the same process or of two.
  lemma KindsApart(k: nat, j: nat)
    ensures Apart(PcbAt(k), PcbAt(k) + PCB_SIZE, StackLow(j), StackTop(j))
    ensures Frame(k) >= 2 * USER_MEM_SIZE && PcbAt(j) + PCB_SIZE <= Frame(k) && StackTop(j) <= Frame(k)
    ensures StackLow(k) < StackTop(k)
  {
  }

  // Two processes named by terminal and depth occupy disjoint frames, control blocks and kernel stacks.
  lemma ProcessesApart(t: int, d: nat, t': int, d': nat)
    requires 0 <= t < NUM_TERMINALS && 0 <= t' < NUM_TERMINALS && (t != t' || d != d')
    ensures var k, j := Slot(t, d), Slot(t', d');
      && Apart(Frame(k), Frame(k) + USER_MEM_SIZE, Frame(j), Frame(j) + USER_MEM_SIZE)
      && Apart(PcbAt(k), PcbAt(k) + PCB_SIZE, PcbAt(j), PcbAt(j) + PCB_SIZE)
      && Apart(StackLow(k), StackTop(k), StackLow(j), StackTop(j))
      && Apart(PcbAt(k), PcbAt(k) + PCB_SIZE, StackLow(j), StackTop(j))
      && PcbAt(j) + PCB_SIZE <= Frame(k) && StackTop(j) <= Frame(k)
  {
    SlotInjective(t, d, t', d');
    SlotsApart(Slot(t, d), Slot(t', d'));
    KindsApart(Slot(t, d), Slot(t', d'));
  }

  // With at most six processes, one at least in each terminal, no depth exceeds 3: all frames end by 56MB and all
  // stacks lie inside the kernel page.
  lemma ReachableDepth(d0: int, d1: int, d2: int)
    requires d0 >= 0 && d1 >= 0 && d2 >= 0 && (d0 + 1) + (d1 + 1) + (d2 + 1) <= MAX_PID + 1
    ensures d0 <= 3 && d1 <= 3 && d2 <= 3
    ensures forall t, d :: 0 <= t < NUM_TERMINALS && 0 <= d <= 3 ==>
      0 <= Slot(t, d) < 12 && Frame(Slot(t, d)) + USER_MEM_SIZE <= 0x3800000 && StackLow(Slot(t, d)) >= 0x400000
  {
  }
}
