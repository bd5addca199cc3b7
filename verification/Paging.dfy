// Bit operations on 32-bit words held as integers.
module Words {
  // Bitwise or.
  function Or(a: nat, b: nat): (r: nat) {
    if a == 0 && b == 0 then 0
    else 2 * Or(a / 2, b / 2) + if a % 2 == 1 || b % 2 == 1 then 1 else 0
  }

  function Pow2(k: nat): (p: nat)
    ensures p > 0
  {
    if k == 0 then 1 else 2 * Pow2(k - 1)
  }

  lemma {:induction false} OrZero(a: nat)
    ensures Or(a, 0) == a
  {
    if a > 0 {
      OrZero(a / 2);
    }
  }

  // Or-ing in a bit that is clear adds it.
  lemma {:induction false} OrBit(x: nat, k: nat)
    requires x / Pow2(k) % 2 == 0
    ensures Or(x, Pow2(k)) == x + Pow2(k)
  {
    if k == 0 {
      OrZero(x / 2);
    } else {
      HalfBit(x, k);
      OrBit(x / 2, k - 1);
    }
  }

  lemma HalfBit(x: nat, k: nat)
    requires k > 0
    ensures x / Pow2(k) == x / 2 / Pow2(k - 1)
  {
    var p := Pow2(k - 1);
    var q, r := x / 2 / p, x / 2 % p;
    assert x / 2 == q * p + r;
    assert x == q * (2 * p) + (2 * r + x % 2);
    Quotient(x, q, 2 * r + x % 2, 2 * p);
  }

  lemma Quotient(x: nat, q: nat, r: nat, d: nat)
    requires r < d && x == q * d + r
    ensures x / d == q
  {
    var e := q - x / d;
    assert e * d == x % d - r;
    assert e >= 1 ==> e * d >= d;
    assert e <= -1 ==> e * d <= 0 - d;
  }

  lemma Powers()
    ensures Pow2(0) == 1 && Pow2(1) == 2 && Pow2(2) == 4 && Pow2(4) == 16 && Pow2(7) == 128 && Pow2(8) == 256
  {
    assert Pow2(3) == 8 && Pow2(5) == 32 && Pow2(6) == 64;
  }
}

// The page directory, the one page table, the page walk and the TLB (student-distrib/paging.c).
// The walk follows sections 4.3 and 4.6 of the Intel SDM Vol. 3A, the TLB section 4.10.
module Paging {
  import opened Layout
  import opened Options
  import opened Words

  const ENTRIES: int := 1024
  const KB4: int := 0x1000
  const MB4: int := 0x400000

  const P: nat := 0x1
  const RW: nat := 0x2
  const US: nat := 0x4
  const PCD: nat := 0x10
  const PS: nat := 0x80
  const G: nat := 0x100

  // Bit tests on an entry; the literals are powers of two.
  predicate Has(w: nat, flag: nat)
    requires flag > 0
  {
    w / flag % 2 == 1
  }

  // The low flag bits of an entry do not depend on its page address. One lemma per bit keeps the divisions apart.
  lemma Bit0(q: nat, f: nat)
    ensures (4096 * q + f) % 2 == f % 2
  {
  }

  lemma Bit1(q: nat, f: nat)
    ensures (4096 * q + f) / 2 % 2 == f / 2 % 2
  {
    var a, r := f / 2, f % 2;
    assert 4096 * q + f == 2 * (2048 * q + a) + r;
    assert (4096 * q + f) / 2 == 2048 * q + a;
  }

  lemma Bit2(q: nat, f: nat)
    ensures (4096 * q + f) / 4 % 2 == f / 4 % 2
  {
    var a, r := f / 4, f % 4;
    assert 4096 * q + f == 4 * (1024 * q + a) + r;
    assert (4096 * q + f) / 4 == 1024 * q + a;
  }

  lemma Bit4(q: nat, f: nat)
    ensures (4096 * q + f) / 16 % 2 == f / 16 % 2
  {
    var a, r := f / 16, f % 16;
    assert 4096 * q + f == 16 * (256 * q + a) + r;
    assert (4096 * q + f) / 16 == 256 * q + a;
  }

  lemma Bit7(q: nat, f: nat)
    ensures (4096 * q + f) / 128 % 2 == f / 128 % 2
  {
    var a, r := f / 128, f % 128;
    assert 4096 * q + f == 128 * (32 * q + a) + r;
    assert (4096 * q + f) / 128 == 32 * q + a;
  }

  lemma Bit8(q: nat, f: nat)
    ensures (4096 * q + f) / 256 % 2 == f / 256 % 2
  {
    var a, r := f / 256, f % 256;
    assert 4096 * q + f == 256 * (16 * q + a) + r;
    assert (4096 * q + f) / 256 == 16 * q + a;
  }

  lemma EntryBits(page: nat, flags: nat)
    requires page % KB4 == 0 && flags < KB4
    ensures Has(page + flags, P) == Has(flags, P) && Has(page + flags, RW) == Has(flags, RW)
    ensures Has(page + flags, US) == Has(flags, US) && Has(page + flags, PCD) == Has(flags, PCD)
    ensures Has(page + flags, PS) == Has(flags, PS) && Has(page + flags, G) == Has(flags, G)
    ensures (page + flags) / KB4 * KB4 == page
  {
    var q := page / KB4;
    assert page == 4096 * q;
    Bit0(q, flags);
    Bit1(q, flags);
    Bit2(q, flags);
    Bit4(q, flags);
    Bit7(q, flags);
    Bit8(q, flags);
  }

  lemma OrFlag(page: nat, flags: nat, k: nat, flag: nat)
    requires flag == Pow2(k) && !Has(page + flags, flag)
    ensures Or(page + flags, flag) == page + flags + flag
  {
    OrBit(page + flags, k);
  }

  // The four kinds of entries the code builds.
  lemma FlagsOf(page: nat)
    requires page % KB4 == 0
    ensures Or(Or(page, RW), P) == page + 0x3
    ensures Or(Or(Or(page, RW), P), US) == page + 0x7
    ensures Or(Or(Or(Or(Or(page, PS), RW), P), PCD), US) == page + 0x97
    ensures Or(Or(Or(Or(Or(page, PS), RW), P), G), PCD) == page + 0x193
  {
    hide Or, Pow2, Has;
    Powers();
    EntryBits(page, 0);
    EntryBits(page, 0x2);
    EntryBits(page, 0x3);
    EntryBits(page, 0x80);
    EntryBits(page, 0x82);
    EntryBits(page, 0x83);
    EntryBits(page, 0x93);
    EntryBits(page, 0x183);
    FlagValues();
    OrFlag(page, 0, 1, RW);
    OrFlag(page, 0x2, 0, P);
    OrFlag(page, 0x3, 2, US);
    OrFlag(page, 0, 7, PS);
    OrFlag(page, 0x80, 1, RW);
    OrFlag(page, 0x82, 0, P);
    OrFlag(page, 0x83, 4, PCD);
    OrFlag(page, 0x93, 2, US);
    OrFlag(page, 0x83, 8, G);
    OrFlag(page, 0x183, 4, PCD);
  }

  lemma FlagValues()
    ensures !Has(0, RW) && !Has(0x2, P) && !Has(0x3, US) && !Has(0, PS) && !Has(0x80, RW) && !Has(0x82, P)
    ensures !Has(0x83, PCD) && !Has(0x93, US) && !Has(0x83, G) && !Has(0x183, PCD)
    ensures Has(0x3, P) && Has(0x3, RW) && !Has(0x3, PS) && !Has(0x3, G)
    ensures Has(0x7, P) && Has(0x7, RW) && Has(0x7, US) && !Has(0x7, PS) && !Has(0x7, G)
    ensures Has(0x97, P) && Has(0x97, RW) && Has(0x97, US) && Has(0x97, PS) && !Has(0x97, G)
    ensures Has(0x193, P) && Has(0x193, RW) && !Has(0x193, US) && Has(0x193, PS) && Has(0x193, G)
    ensures !Has(0, P)
  {
  }

  // ----- The page walk -----

  datatype Translation =
    | NotPresent
    | Stray                             // a page table other than the kernel's, or reserved bits set
    | Page(base: nat, big: bool, user: bool, write: bool, global: bool)

  // A 32-bit page walk from the directory pd; the only page table is pt, at physical address table.
  function Walk(pd: seq<nat>, pt: seq<nat>, table: nat, va: nat): (t: Translation)
    requires |pd| == |pt| == ENTRIES && va < 0x1_0000_0000
  {
    var pde := pd[va / MB4];
    if !Has(pde, P) then NotPresent
    else if Has(pde, PS) then
      if pde / 0x2000 % 512 != 0 then Stray
      else Page(pde / MB4 * MB4, true, Has(pde, US), Has(pde, RW), Has(pde, G))
    else if pde / KB4 * KB4 != table then Stray
    else
      var pte := pt[va / KB4 % ENTRIES];
      if !Has(pte, P) then NotPresent
      else Page(pte / KB4 * KB4, false, Has(pde, US) && Has(pte, US), Has(pde, RW) && Has(pte, RW), Has(pte, G))
  }

  function Size(t: Translation): nat
    requires t.Page?
  {
    if t.big then MB4 else KB4
  }

  // The physical address a user-mode access to va reaches, if any; a write also needs the R/W flags.
  function UserReach(t: Translation, va: nat, write: bool): Option<nat> {
    if t.Page? && t.user && (write ==> t.write) then Some(t.base + va % Size(t)) else None
  }

  // The physical address a supervisor access to va reaches, if any.
  function KernelReach(t: Translation, va: nat): Option<nat> {
    if t.Page? then Some(t.base + va % Size(t)) else None
  }

  const KERNEL_ENTRY: nat := 0x400193

  // The shape of the paging structures in every reachable state: a kernel page, one user page (or none) and one
  // user video page (or none).
  ghost predicate Shape(pd: seq<nat>, pt: seq<nat>, table: nat, frame: Option<nat>, video: Option<nat>) {
    && |pd| == |pt| == ENTRIES
    && table % KB4 == 0 && table < 0x1_0000_0000
    && pd[0] == table + 0x3
    && pd[1] == KERNEL_ENTRY
    && pd[32] == (if frame.Some? then frame.value + 0x97 else 0)
    && (pd[33] == table + 0x7 || (pd[33] == 0 && video == None))
    && (forall i :: 2 <= i < ENTRIES && i != 32 && i != 33 ==> pd[i] == 0)
    && pt[0] == (if video.Some? then video.value + 0x7 else 0)
    && (forall k :: 0xB8 <= k <= 0xBB ==> pt[k] == k * KB4 + 0x3)
    && (forall k :: 1 <= k < ENTRIES && !(0xB8 <= k <= 0xBB) ==> pt[k] == 0)
    && (frame.Some? ==> frame.value % MB4 == 0 && frame.value < 0x1_0000_0000)
    && (video.Some? ==> video.value % KB4 == 0 && video.value < MB4)
  }

  lemma BigEntry(page: nat, flags: nat)
    requires page % MB4 == 0 && flags < KB4
    ensures (page + flags) / MB4 * MB4 == page && (page + flags) / 0x2000 % 512 == 0
  {
    var q := page / MB4;
    assert page == 0x400000 * q;
    assert (0x400000 * q + flags) / 0x2000 == 512 * q + flags / 0x2000;
  }

  // The walk through a 4MB entry, a table entry, and an empty entry.
  lemma BigWalk(pd: seq<nat>, pt: seq<nat>, table: nat, va: nat, page: nat, user: bool)
    requires |pd| == |pt| == ENTRIES && va < 0x1_0000_0000 && page % MB4 == 0
    requires pd[va / MB4] == page + if user then 0x97 else 0x193
    ensures Walk(pd, pt, table, va) == Page(page, true, user, true, !user)
  {
    FlagValues();
    EntryBits(page, 0x97);
    EntryBits(page, 0x193);
    BigEntry(page, 0x97);
    BigEntry(page, 0x193);
    hide Has;
  }

  lemma SmallWalk(pd: seq<nat>, pt: seq<nat>, table: nat, va: nat, user: bool, page: nat, userPage: bool)
    requires |pd| == |pt| == ENTRIES && va < 0x1_0000_0000 && table % KB4 == 0 && page % KB4 == 0
    requires pd[va / MB4] == table + if user then 0x7 else 0x3
    requires pt[va / KB4 % ENTRIES] == (page + if userPage then 0x7 else 0x3) || pt[va / KB4 % ENTRIES] == 0
    ensures Walk(pd, pt, table, va) ==
      if pt[va / KB4 % ENTRIES] == 0 then NotPresent else Page(page, false, user && userPage, true, false)
  {
    FlagValues();
    EntryBits(table, 0x3);
    EntryBits(table, 0x7);
    EntryBits(page, 0x3);
    EntryBits(page, 0x7);
    hide Has;
  }

  lemma NoWalk(pd: seq<nat>, pt: seq<nat>, table: nat, va: nat)
    requires |pd| == |pt| == ENTRIES && va < 0x1_0000_0000 && pd[va / MB4] == 0
    ensures Walk(pd, pt, table, va) == NotPresent
  {
    FlagValues();
    hide Has;
  }

  // The walk of every address in a state of the right shape.
  function ShapeWalk(table33: bool, frame: Option<nat>, video: Option<nat>, va: nat): Translation {
    var i, j := va / MB4, va / KB4 % ENTRIES;
    if i == 1 then Page(MB4, true, false, true, true)
    else if i == 32 then (if frame.Some? then Page(frame.value, true, true, true, false) else NotPresent)
    else if i == 0 || (i == 33 && table33) then
      if 0xB8 <= j <= 0xBB then Page(j * KB4, false, false, true, false)
      else if j == 0 && video.Some? then Page(video.value, false, i == 33, true, false)
      else NotPresent
    else NotPresent
  }

  lemma WalkOfShape(pd: seq<nat>, pt: seq<nat>, table: nat, frame: Option<nat>, video: Option<nat>, va: nat)
    requires Shape(pd, pt, table, frame, video) && va < 0x1_0000_0000
    ensures Walk(pd, pt, table, va) == ShapeWalk(pd[33] != 0, frame, video, va)
  {
    hide Walk;
    var i, j := va / MB4, va / KB4 % ENTRIES;
    if pd[i] == 0 {
      NoWalk(pd, pt, table, va);
    } else if i == 1 {
      BigWalk(pd, pt, table, va, MB4, false);
    } else if i == 32 {
      BigWalk(pd, pt, table, va, frame.value, true);
    } else {
      SmallWalk(pd, pt, table, va, i == 33,
                if j == 0 && video.Some? then video.value else j * KB4, j == 0 && video.Some?);
    }
  }

  // Isolation: a user-mode read or write reaches exactly the process's own 4MB frame and its one video page.
  lemma UserReaches(pd: seq<nat>, pt: seq<nat>, table: nat, frame: Option<nat>, video: Option<nat>, va: nat,
                    write: bool)
    requires Shape(pd, pt, table, frame, video) && va < 0x1_0000_0000
    ensures UserReach(Walk(pd, pt, table, va), va, write) ==
      if USER_MEM_START <= va < USER_MEM_START + USER_MEM_SIZE && frame.Some?
        then Some(frame.value + (va - USER_MEM_START))
      else if USER_MEM_START + USER_MEM_SIZE <= va < USER_MEM_START + USER_MEM_SIZE + KB4 && video.Some?
        then Some(video.value + (va - USER_MEM_START - USER_MEM_SIZE))
      else None
  {
    hide Walk, Shape;
    WalkOfShape(pd, pt, table, frame, video, va);
    assert pd[33] != 0 || video == None by {
      TablePresent(pd, pt, table, frame, video);
    }
  }

  lemma TablePresent(pd: seq<nat>, pt: seq<nat>, table: nat, frame: Option<nat>, video: Option<nat>)
    requires Shape(pd, pt, table, frame, video)
    ensures |pd| == |pt| == ENTRIES && (pd[33] != 0 || video == None)
  {
  }

  // The kernel reaches the running process's frame through the same page.
  lemma KernelReachesUser(pd: seq<nat>, pt: seq<nat>, table: nat, frame: nat, video: Option<nat>, va: nat)
    requires Shape(pd, pt, table, Some(frame), video) && USER_MEM_START <= va < USER_MEM_START + USER_MEM_SIZE
    ensures KernelReach(Walk(pd, pt, table, va), va) == Some(frame + (va - USER_MEM_START))
  {
    hide Walk, Shape;
    WalkOfShape(pd, pt, table, Some(frame), video, va);
  }

  // One byte past the user page the kernel reaches the user video page.
  lemma KernelReachesVideo(pd: seq<nat>, pt: seq<nat>, table: nat, frame: Option<nat>, video: Option<nat>)
    requires Shape(pd, pt, table, frame, video)
    ensures KernelReach(Walk(pd, pt, table, USER_MEM_START + USER_MEM_SIZE), USER_MEM_START + USER_MEM_SIZE) == video
  {
    hide Walk, Shape;
    TablePresent(pd, pt, table, frame, video);
    WalkOfShape(pd, pt, table, frame, video, USER_MEM_START + USER_MEM_SIZE);
  }

  // The kernel page and the four video pages stay mapped to themselves, for the supervisor only.
  lemma KernelIdentity(pd: seq<nat>, pt: seq<nat>, table: nat, frame: Option<nat>, video: Option<nat>, va: nat)
    requires Shape(pd, pt, table, frame, video)
    requires MB4 <= va < 2 * MB4 || VIDEO <= va < TERMINAL_3_VIDMEM + KB4
    ensures var t := Walk(pd, pt, table, va);
      KernelReach(t, va) == Some(va) && forall write :: UserReach(t, va, write) == None
  {
    hide Walk, Shape;
    WalkOfShape(pd, pt, table, frame, video, va);
  }

  // ----- The TLB -----

  const PAGES: nat := 0x100000

  // Every cached translation is what a walk of the current structures would give.
  ghost predicate Coherent(tlb: map<nat, Translation>, pd: seq<nat>, pt: seq<nat>, table: nat)
    requires |pd| == |pt| == ENTRIES
  {
    forall p :: p in tlb ==> p < PAGES && tlb[p] == Walk(pd, pt, table, p * KB4)
  }

  // Addresses of one page have one translation.
  lemma SamePage(pd: seq<nat>, pt: seq<nat>, table: nat, va: nat)
    requires |pd| == |pt| == ENTRIES && va < 0x1_0000_0000
    ensures Walk(pd, pt, table, va / KB4 * KB4) == Walk(pd, pt, table, va)
  {
    hide Has;
    var q, r := va / KB4, va % KB4;
    assert va == 4096 * q + r;
    assert va / MB4 == q / 1024;
    assert 4096 * q / MB4 == q / 1024;
  }

  // Reloading CR3 drops every translation that is not global.
  function Flushed(tlb: map<nat, Translation>): (r: map<nat, Translation>)
    ensures forall p :: p in r <==> p in tlb && tlb[p].Page? && tlb[p].global
    ensures forall p :: p in r ==> r[p] == tlb[p]
  {
    map p | p in tlb && tlb[p].Page? && tlb[p].global :: tlb[p]
  }

  // The processor may cache the walk of any page at any time.
  function Filled(tlb: map<nat, Translation>, pages: set<nat>, pd: seq<nat>, pt: seq<nat>, table: nat)
    : (r: map<nat, Translation>)
    requires |pd| == |pt| == ENTRIES
    ensures forall p :: p in r ==> (p in tlb && r[p] == tlb[p]) || (p < PAGES && r[p] == Walk(pd, pt, table, p * KB4))
  {
    tlb + map p | p in pages && p < PAGES && Walk(pd, pt, table, p * KB4).Page? :: Walk(pd, pt, table, p * KB4)
  }

  // The only translations a coherent TLB keeps across a flush are the kernel page's.
  ghost predicate KernelGlobals(tlb: map<nat, Translation>) {
    forall p :: p in tlb && tlb[p].Page? && tlb[p].global ==>
      p < PAGES && p / ENTRIES == 1 && tlb[p] == Page(MB4, true, false, true, true)
  }

  lemma FilledGlobals(tlb: map<nat, Translation>, pages: set<nat>, pd: seq<nat>, pt: seq<nat>, table: nat,
                      frame: Option<nat>, video: Option<nat>)
    requires Shape(pd, pt, table, frame, video) && KernelGlobals(tlb)
    ensures KernelGlobals(Filled(tlb, pages, pd, pt, table))
  {
    TablePresent(pd, pt, table, frame, video);
    hide Walk, Shape;
    var r := Filled(tlb, pages, pd, pt, table);
    forall p | p in r && r[p].Page? && r[p].global
      ensures p < PAGES && p / ENTRIES == 1 && r[p] == Page(MB4, true, false, true, true)
    {
      if !(p in tlb && r[p] == tlb[p]) {
        WalkOfShape(pd, pt, table, frame, video, p * KB4);
      }
    }
  }

  lemma CoherentGlobals(tlb: map<nat, Translation>, pd: seq<nat>, pt: seq<nat>, table: nat,
                        frame: Option<nat>, video: Option<nat>)
    requires Shape(pd, pt, table, frame, video) && Coherent(tlb, pd, pt, table)
    ensures KernelGlobals(tlb)
  {
    hide Walk, Shape;
    forall p | p in tlb && tlb[p].Page? && tlb[p].global
      ensures p < PAGES && p / ENTRIES == 1 && tlb[p] == Page(MB4, true, false, true, true)
    {
      WalkOfShape(pd, pt, table, frame, video, p * KB4);
    }
  }

  ghost predicate OnlyGlobals(tlb: map<nat, Translation>) {
    forall p :: p in tlb ==> tlb[p].Page? && tlb[p].global
  }

  lemma FlushedGlobals(tlb: map<nat, Translation>)
    ensures KernelGlobals(tlb) ==> KernelGlobals(Flushed(tlb))
  {
  }

  lemma NoGlobals()
    ensures KernelGlobals(map[])
  {
  }

  lemma FlushedTwice(tlb: map<nat, Translation>)
    requires OnlyGlobals(tlb)
    ensures Flushed(tlb) == tlb
  {
  }

  // After a flush the TLB is coherent with any structures of the right shape.
  lemma FlushedCoherent(tlb: map<nat, Translation>, pd: seq<nat>, pt: seq<nat>, table: nat,
                        frame: Option<nat>, video: Option<nat>)
    requires Shape(pd, pt, table, frame, video) && KernelGlobals(tlb)
    ensures Coherent(Flushed(tlb), pd, pt, table)
  {
    TablePresent(pd, pt, table, frame, video);
    hide Walk, Shape;
    var r := Flushed(tlb);
    forall p | p in r
      ensures p < PAGES && r[p] == Walk(pd, pt, table, p * KB4)
    {
      WalkOfShape(pd, pt, table, frame, video, p * KB4);
    }
  }

  // The effect on the shape of each of the stores the kernel makes after initialization.
  lemma ShapeMaps(pd: seq<nat>, pt: seq<nat>, table: nat, frame: Option<nat>, video: Option<nat>, pa: nat)
    requires Shape(pd, pt, table, frame, video)
    ensures pa % MB4 == 0 && pa < 0x1_0000_0000 ==> Shape(pd[32 := pa + 0x97], pt, table, Some(pa), video)
    ensures Shape(pd[32 := 0], pt, table, None, video)
    ensures Shape(pd[33 := table + 0x7], pt, table, frame, video)
    ensures pa % KB4 == 0 && pa < MB4 ==> Shape(pd[33 := table + 0x7], pt[0 := pa + 0x7], table, frame, Some(pa))
    ensures Shape(pd[33 := table + 0x7], pt[0 := 0], table, frame, None)
  {
  }

  // The structures between the clearing loop of init_paging and its end: some low pages are mapped to themselves.
  ghost predicate Early(pd: seq<nat>, pt: seq<nat>, table: nat) {
    && |pd| == |pt| == ENTRIES && table % KB4 == 0
    && pd[0] == table + 0x3 && pd[1] == KERNEL_ENTRY && (forall k :: 2 <= k < ENTRIES ==> pd[k] == 0)
    && forall k :: 0 <= k < ENTRIES ==> pt[k] == 0 || pt[k] == k * KB4 + 0x3
  }

  // The only global translation of such structures is the kernel page's.
  lemma EarlyGlobals(tlb: map<nat, Translation>, pages: set<nat>, pd: seq<nat>, pt: seq<nat>, table: nat)
    requires Early(pd, pt, table) && KernelGlobals(tlb)
    ensures KernelGlobals(Filled(tlb, pages, pd, pt, table))
  {
    hide Walk;
    var r := Filled(tlb, pages, pd, pt, table);
    forall p | p in r && r[p].Page? && r[p].global
      ensures p < PAGES && p / ENTRIES == 1 && r[p] == Page(MB4, true, false, true, true)
    {
      if !(p in tlb && r[p] == tlb[p]) {
        EarlyWalk(pd, pt, table, p * KB4);
      }
    }
  }

  lemma EarlyWalk(pd: seq<nat>, pt: seq<nat>, table: nat, va: nat)
    requires Early(pd, pt, table) && va < 0x1_0000_0000
    ensures var t := Walk(pd, pt, table, va);
      t.Page? && t.global ==> va / MB4 == 1 && t == Page(MB4, true, false, true, true)
  {
    hide Walk;
    var i, j := va / MB4, va / KB4 % ENTRIES;
    if i == 0 {
      SmallWalk(pd, pt, table, va, false, j * KB4, false);
    } else if i == 1 {
      BigWalk(pd, pt, table, va, MB4, false);
    } else {
      NoWalk(pd, pt, table, va);
    }
  }

  // The stores of init_paging after its clearing loop build the initial shape.
  lemma InitShape(d: seq<nat>, t: seq<nat>, table: nat)
    requires |d| == |t| == ENTRIES && table % KB4 == 0 && table < 0x1_0000_0000
    requires d[0] == table + 0x3 && d[1] == KERNEL_ENTRY && (forall k :: 2 <= k < ENTRIES ==> d[k] == 0)
    requires forall k :: 0 <= k < ENTRIES ==> t[k] == 0
    ensures Shape(d[0 := table + 0x3][0 := table + 0x3][0 := table + 0x3],
                  t[0xB8 := VIDEO + 0x3][0xB9 := TERMINAL_1_VIDMEM + 0x3][0xBA := TERMINAL_2_VIDMEM + 0x3]
                   [0xBB := TERMINAL_3_VIDMEM + 0x3], table, None, None)
  {
  }

  class Mmu {
    const pd: array<nat>   // page_directory
    const pt: array<nat>   // video_page_table
    const table: nat       // physical address of video_page_table
    var tlb: map<nat, Translation>

    ghost predicate Built()
      reads this
    {
      pd.Length == ENTRIES && pt.Length == ENTRIES && pd != pt && table % KB4 == 0 && table < 0x1_0000_0000
    }

    // The user frame and the user video page are mapped as given, and the TLB agrees with the structures.
    ghost predicate Maps(frame: Option<nat>, video: Option<nat>)
      reads this, pd, pt
    {
      Built() && Shape(pd[..], pt[..], table, frame, video) && Coherent(tlb, pd[..], pt[..], table)
    }

    constructor (table: nat)
      requires table % KB4 == 0 && table < 0x1_0000_0000
      ensures Built() && fresh(pd) && fresh(pt) && this.table == table
    {
      this.table, tlb := table, map[];
      pd := new nat[ENTRIES];
      pt := new nat[ENTRIES];
    }

    // The clearing loop of init_paging.
    method ClearTables()
      requires Built()
      modifies pd, pt
      ensures pd[0] == old(pd[0]) && pd[1] == old(pd[1]) && forall k :: 2 <= k < ENTRIES ==> pd[k] == 0
      ensures forall k :: 0 <= k < ENTRIES ==> pt[k] == 0
    {
      for i := 0 to ENTRIES
        invariant pd[0] == old(pd[0]) && pd[1] == old(pd[1])
        invariant forall k :: 2 <= k < i ==> pd[k] == 0
        invariant forall k :: 0 <= k < i ==> pt[k] == 0
      {
        if i > 1 {
          pd[i] := 0;
        }
        pt[i] := 0;
      }
    }

    // init_paging. Nothing is cached before paging is switched on.
    method InitPaging(between: set<nat>)
      requires Built()
      modifies this`tlb, pd, pt
      ensures Maps(None, None)
    {
      hide Or, Walk, Shape, Has, Coherent, KernelGlobals;
      FlagsOf(table);
      FlagsOf(0x400000);
      FlagsOf(VIDEO);
      pd[0] := Or(Or(table, RW), P);
      pd[1] := Or(Or(Or(Or(Or(0x400000, PS), RW), P), G), PCD);
      ClearTables();
      InitShape(pd[..], pt[..], table);
      pt[VIDEO / 0x1000] := Or(Or(VIDEO, RW), P);
      // set_paging_registers
      tlb := map[];
      NoGlobals();
      MapTerminalVidmem(TERMINAL_1_VIDMEM, TERMINAL_1_VIDMEM, between);
      MapTerminalVidmem(TERMINAL_2_VIDMEM, TERMINAL_2_VIDMEM, between);
      MapTerminalVidmem(TERMINAL_3_VIDMEM, TERMINAL_3_VIDMEM, between);
      FlushedCoherent(tlb, pd[..], pt[..], table, None, None);
      FlushedTwice(tlb);
    }

    method FlushTlb()
      modifies this`tlb
      ensures tlb == Flushed(old(tlb))
    {
      tlb := Flushed(tlb);
    }

    // The processor caches translations of the structures as they are.
    method Fill(pages: set<nat>)
      requires Built()
      modifies this`tlb
      ensures tlb == Filled(old(tlb), pages, pd[..], pt[..], table)
    {
      tlb := Filled(tlb, pages, pd[..], pt[..], table);
    }

    // The four mapping functions and the one used at boot. between is what the processor happens to cache after a store
    // and before the flush. Every translation still cached at the end is a global one.
    method MapTerminalVidmem(va: nat, pa: nat, between: set<nat>)
      requires Built() && va < 0x1_0000_0000 && pa % KB4 == 0
      modifies this`tlb, pd, pt
      ensures pd[..] == old(pd[..])[va / MB4 := table + 0x3]
      ensures pt[..] == old(pt[..])[va / KB4 % ENTRIES := pa + 0x3]
      ensures OnlyGlobals(tlb)
      ensures old(Early(pd[..], pt[..], table)) && old(KernelGlobals(tlb)) && va == pa < MB4 ==>
        Early(pd[..], pt[..], table) && KernelGlobals(tlb)
    {
      hide Or, Walk, KernelGlobals;
      ghost var early := Early(pd[..], pt[..], table) && KernelGlobals(tlb) && va == pa < MB4;
      FlagsOf(table);
      FlagsOf(pa);
      pd[va / MB4] := Or(Or(table, RW), P);
      if early {
        EarlyGlobals(tlb, between, pd[..], pt[..], table);
      }
      Fill(between);
      pt[va / KB4 % ENTRIES] := Or(Or(pa, RW), P);
      if early {
        EarlyGlobals(tlb, between, pd[..], pt[..], table);
      }
      Fill(between);
      FlushedGlobals(tlb);
      FlushTlb();
    }

    method MapVirtualAddrToPhysical(va: nat, pa: nat, between: set<nat>, ghost frame: Option<nat>,
                                    ghost video: Option<nat>)
      requires Built() && va < 0x1_0000_0000 && pa % MB4 == 0 && pa < 0x1_0000_0000
      modifies this`tlb, pd
      ensures pd[..] == old(pd[..])[va / MB4 := pa + 0x97] && OnlyGlobals(tlb)
      ensures va == USER_MEM_START && old(Maps(frame, video)) ==> Maps(Some(pa), video)
    {
      hide Shape, Coherent, Walk, Or, KernelGlobals;
      ghost var d: seq<nat>, t: seq<nat> := pd[..], pt[..];
      ghost var user := va == USER_MEM_START && Maps(frame, video);
      if user {
        CoherentGlobals(tlb, d, t, table, frame, video);
        ShapeMaps(d, t, table, frame, video, pa);
      }
      FlagsOf(pa);
      pd[va / 0x400000] := Or(Or(Or(Or(Or(pa, PS), RW), P), PCD), US);
      assert pd[..] == d[va / MB4 := pa + 0x97];
      if user {
        FilledGlobals(tlb, between, pd[..], t, table, Some(pa), video);
      }
      Fill(between);
      if user {
        FlushedCoherent(tlb, pd[..], t, table, Some(pa), video);
      }
      FlushTlb();
    }

    method RemovePage(va: nat, between: set<nat>, ghost frame: Option<nat>, ghost video: Option<nat>)
      requires Built() && va < 0x1_0000_0000
      modifies this`tlb, pd
      ensures pd[..] == old(pd[..])[va / MB4 := 0] && OnlyGlobals(tlb)
      ensures va == USER_MEM_START && old(Maps(frame, video)) ==> Maps(None, video)
    {
      hide Shape, Coherent, Walk, KernelGlobals;
      ghost var d: seq<nat>, t: seq<nat> := pd[..], pt[..];
      ghost var user := va == USER_MEM_START && Maps(frame, video);
      if user {
        CoherentGlobals(tlb, d, t, table, frame, video);
        ShapeMaps(d, t, table, frame, video, 0);
      }
      pd[va / 0x400000] := 0;
      assert pd[..] == d[va / MB4 := 0];
      if user {
        FilledGlobals(tlb, between, pd[..], t, table, None, video);
      }
      Fill(between);
      if user {
        FlushedCoherent(tlb, pd[..], t, table, None, video);
      }
      FlushTlb();
    }

    method Map4kbPage(va: nat, pa: nat, between: set<nat>, ghost frame: Option<nat>, ghost video: Option<nat>)
      requires Built() && va < 0x1_0000_0000 && pa % KB4 == 0
      modifies this`tlb, pd, pt
      ensures pd[..] == old(pd[..])[va / MB4 := table + 0x7]
      ensures pt[..] == old(pt[..])[va / KB4 % ENTRIES := pa + 0x7] && OnlyGlobals(tlb)
      ensures va == USER_MEM_START + USER_MEM_SIZE && pa < MB4 && old(Maps(frame, video)) ==> Maps(frame, Some(pa))
    {
      hide Or;
      FlagsOf(table);
      FlagsOf(pa);
      Set4kbPage(va, Or(Or(Or(table, RW), P), US), Or(Or(Or(pa, RW), P), US), between, frame, video, Some(pa));
    }

    method Remove4kbPage(va: nat, between: set<nat>, ghost frame: Option<nat>, ghost video: Option<nat>)
      requires Built() && va < 0x1_0000_0000
      modifies this`tlb, pd, pt
      ensures pd[..] == old(pd[..])[va / MB4 := table + 0x7]
      ensures pt[..] == old(pt[..])[va / KB4 % ENTRIES := 0] && OnlyGlobals(tlb)
      ensures va == USER_MEM_START + USER_MEM_SIZE && old(Maps(frame, video)) ==> Maps(frame, None)
    {
      hide Or;
      FlagsOf(table);
      Set4kbPage(va, Or(Or(Or(table, RW), P), US), 0, between, frame, video, None);
    }

    // The two stores and the flush that mapping and removing a 4KB page have in common.
    method Set4kbPage(va: nat, pde: nat, pte: nat, between: set<nat>, ghost frame: Option<nat>,
                      ghost video: Option<nat>, ghost next: Option<nat>)
      requires Built() && va < 0x1_0000_0000
      requires pde == table + 0x7 && pte == (if next.Some? then next.value + 0x7 else 0)
      requires next.Some? ==> next.value % KB4 == 0
      modifies this`tlb, pd, pt
      ensures pd[..] == old(pd[..])[va / MB4 := pde] && pt[..] == old(pt[..])[va / KB4 % ENTRIES := pte]
      ensures OnlyGlobals(tlb)
      ensures va == USER_MEM_START + USER_MEM_SIZE && (next.Some? ==> next.value < MB4) && old(Maps(frame, video)) ==>
        Maps(frame, next)
    {
      hide Shape, Coherent, Walk, KernelGlobals;
      ghost var d: seq<nat>, t: seq<nat> := pd[..], pt[..];
      ghost var user := va == USER_MEM_START + USER_MEM_SIZE && (next.Some? ==> next.value < MB4) && Maps(frame, video);
      if user {
        CoherentGlobals(tlb, d, t, table, frame, video);
        ShapeMaps(d, t, table, frame, video, if next.Some? then next.value else 0);
      }
      pd[va / 0x400000] := pde;
      assert pd[..] == d[va / MB4 := pde] && pt[..] == t;
      if user {
        FilledGlobals(tlb, between, pd[..], t, table, frame, video);
      }
      Fill(between);
      pt[va / 0x1000 % 0x400] := pte;
      assert pt[..] == t[va / KB4 % ENTRIES := pte] && pd[..] == d[va / MB4 := pde];
      if user {
        FilledGlobals(tlb, between, pd[..], pt[..], table, frame, next);
      }
      Fill(between);
      if user {
        FlushedCoherent(tlb, pd[..], pt[..], table, frame, next);
      }
      FlushTlb();
    }

    // flush_tlb called with nothing changed.
    method FlushTlbAgain(ghost frame: Option<nat>, ghost video: Option<nat>)
      requires Maps(frame, video)
      modifies this`tlb
      ensures Maps(frame, video)
    {
      FlushTlb();
    }

    // Address translation as the processor does it: from the TLB when the page is cached there, else by a walk.
    method Translate(va: nat) returns (t: Translation)
      requires Built() && va < 0x1_0000_0000
      ensures t == if va / KB4 in tlb then tlb[va / KB4] else Walk(pd[..], pt[..], table, va)
      ensures Coherent(tlb, pd[..], pt[..], table) ==> t == Walk(pd[..], pt[..], table, va)
    {
      hide Walk;
      SamePage(pd[..], pt[..], table, va);
      if va / KB4 in tlb {
        t := tlb[va / KB4];
      } else {
        t := Walk(pd[..], pt[..], table, va);
      }
    }
  }
}
