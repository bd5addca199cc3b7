// The blinking-character list of the fish program: an intrusive linked list over a fixed pool of slots,
// driven by a timer tasklet (fish/blink.S, with its pool in fish/fish.c).
module Blink {
  import opened Bytes

  const CELLS: int := 2000

  type half = h: int | 0 <= h < 0x1_0000

  // A pointer into the pool: 0 is NULL, i + 1 is the address of slot i.
  type pointer = nat

  datatype Slot = Slot(location: half, onChar: byte, offChar: byte, onLength: half, offLength: half,
                       countdown: half, status: half, next: pointer)

  const CLEARED := Slot(0, 0, 0, 0, 0, 0, 0, 0)

  // What an item of the list holds, without the pointer.
  datatype Item = Item(location: half, onChar: byte, offChar: byte, onLength: half, offLength: half,
                       countdown: half, status: half)

  // ----- The timer of one item -----

  function IsOn(s: Item): bool {
    s.status % 2 == 1
  }

  // decw / cmpw / jg: the decremented 16-bit countdown is still positive as a signed number.
  predicate StillCounting(s: Item) {
    0 < (s.countdown - 1) % 0x1_0000 < 0x8000
  }

  // One tasklet step for one item.
  function Tick(s: Item): Item {
    if StillCounting(s) then s.(countdown := (s.countdown - 1) % 0x1_0000)
    else if IsOn(s) then s.(countdown := s.offLength, status := s.status - 1)
    else s.(countdown := s.onLength, status := s.status + 1)
  }

  function Ticks(s: Item, k: nat): Item {
    if k == 0 then s else Tick(Ticks(s, k - 1))
  }

  // How many ticks a length lasts: a zero length, or one above 32768, expires at the first tick.
  function Lasts(length: half): (n: nat)
    ensures n >= 1
  {
    if 1 <= length <= 0x8000 then length else 1
  }

  function Period(s: Item): nat {
    Lasts(s.onLength) + Lasts(s.offLength)
  }

  // s is r ticks into its period, which starts with the on part.
  predicate AtPhase(s: Item, r: nat) {
    && r < Period(s)
    && (IsOn(s) <==> r < Lasts(s.onLength))
    && Lasts(s.countdown) == if IsOn(s) then Lasts(s.onLength) - r else Period(s) - r
  }

  // s with the same lengths as t.
  predicate SameLengths(s: Item, t: Item) {
    s.onLength == t.onLength && s.offLength == t.offLength
  }

  function NextPhase(r: nat, period: nat): nat {
    if r + 1 == period then 0 else r + 1
  }

  lemma TickPhase(s: Item, r: nat)
    requires AtPhase(s, r)
    ensures SameLengths(Tick(s), s) && AtPhase(Tick(s), NextPhase(r, Period(s)))
  {
  }

  lemma ModNext(r: nat, k: nat, p: nat)
    requires p > 0 && k > 0
    ensures NextPhase((r + (k - 1)) % p, p) == (r + k) % p
  {
    var n := r + (k - 1);
    assert n == n / p * p + n % p;
    if n % p + 1 < p {
      RemainderIs(n + 1, n / p, n % p + 1, p);
    } else {
      RemainderIs(n + 1, n / p + 1, 0, p);
    }
  }

  lemma RemainderIs(n: nat, q: nat, r: nat, p: nat)
    requires p > 0 && r < p && n == q * p + r
    ensures n % p == r
  {
    var d := q - n / p;
    assert d * p == n % p - r;
    assert d >= 1 ==> d * p >= p;
    assert d <= -1 ==> d * p <= 0 - p;
  }

  lemma {:induction false} TicksPhase(s: Item, r: nat, k: nat)
    requires AtPhase(s, r)
    ensures SameLengths(Ticks(s, k), s) && AtPhase(Ticks(s, k), (r + k) % Period(s))
  {
    if k == 0 {
      RemainderIs(r, 0, r, Period(s));
    } else {
      TicksPhase(s, r, k - 1);
      TickPhase(Ticks(s, k - 1), (r + (k - 1)) % Period(s));
      ModNext(r, k, Period(s));
    }
  }

  // Closed form: k ticks after it was added an item is on exactly in the on part of its period.
  lemma BlinksOnSchedule(s: Item, k: nat)
    requires s.status == 1 && s.countdown == s.onLength
    ensures IsOn(Ticks(s, k)) <==> k % Period(s) < Lasts(s.onLength)
  {
    assert AtPhase(s, 0);
    TicksPhase(s, 0, k);
  }

  predicate SameTimer(s: Item, t: Item) {
    SameLengths(s, t) && s.countdown == t.countdown && s.status == t.status
  }

  // Two items with the same timer, as a sync leaves them, stay in step for ever.
  lemma {:induction false} Lockstep(s: Item, t: Item, k: nat)
    requires SameTimer(s, t)
    ensures SameTimer(Ticks(s, k), Ticks(t, k))
  {
    if k > 0 {
      Lockstep(s, t, k - 1);
    }
  }

  // ----- The list over the pool -----

  function Ptr(items: seq<nat>, j: nat): pointer {
    if j < |items| then items[j] + 1 else 0
  }

  ghost predicate Distinct(items: seq<nat>) {
    forall j, k :: 0 <= j < k < |items| ==> items[j] != items[k]
  }

  // The next pointers run through exactly the slots items.
  ghost predicate Chained(p: seq<Slot>, items: seq<nat>) {
    forall j :: 0 <= j < |items| ==> items[j] < |p| && p[items[j]].next == Ptr(items, j + 1)
  }

  // The slots on the list are in use, and no others are.
  ghost predicate InUse(p: seq<Slot>, items: seq<nat>) {
    && (forall j :: 0 <= j < |items| ==> items[j] < |p| && 0 < p[items[j]].location < CELLS)
    && (forall i :: 0 <= i < |p| && p[i].location != 0 ==> i in items)
  }

  ghost predicate Linked(p: seq<Slot>, head: pointer, items: seq<nat>) {
    |p| == CELLS && head == Ptr(items, 0) && Distinct(items) && Chained(p, items) && InUse(p, items)
  }

  // A new item s in the free slot i becomes the front of the list.
  lemma LinkFront(p: seq<Slot>, head: pointer, items: seq<nat>, i: nat, s: Slot)
    requires Linked(p, head, items) && i < CELLS && p[i].location == 0
    requires 0 < s.location < CELLS && s.next == head
    ensures Linked(p[i := s], i + 1, [i] + items)
  {
    hide Chained, InUse;
    NotOnList(p, items, i);
    FrontChained(p, items, i, s);
    FrontInUse(p, items, i, s);
  }

  lemma FrontChained(p: seq<Slot>, items: seq<nat>, i: nat, s: Slot)
    requires Chained(p, items) && i < |p| && s.next == Ptr(items, 0)
    requires forall j :: 0 <= j < |items| ==> items[j] != i
    ensures Chained(p[i := s], [i] + items)
  {
    var all := [i] + items;
    forall j | 0 <= j < |all|
      ensures all[j] < |p| && p[i := s][all[j]].next == Ptr(all, j + 1)
    {
      assert j > 0 ==> all[j] == items[j - 1];
    }
  }

  lemma FrontInUse(p: seq<Slot>, items: seq<nat>, i: nat, s: Slot)
    requires InUse(p, items) && i < |p| && 0 < s.location < CELLS
    requires forall j :: 0 <= j < |items| ==> items[j] != i
    ensures InUse(p[i := s], [i] + items)
  {
    var q, all := p[i := s], [i] + items;
    forall j | 0 <= j < |all|
      ensures all[j] < |q| && 0 < q[all[j]].location < CELLS
    {
      assert j > 0 ==> all[j] == items[j - 1];
    }
    forall k | 0 <= k < |q| && q[k].location != 0
      ensures k in all
    {
      assert k != i ==> k in items;
    }
  }

  lemma NotOnList(p: seq<Slot>, items: seq<nat>, i: nat)
    requires InUse(p, items) && i < |p| && p[i].location == 0
    ensures forall j :: 0 <= j < |items| ==> items[j] != i
  {
  }

  function Without(items: seq<nat>, j: nat): (r: seq<nat>)
    requires j < |items|
    ensures |r| == |items| - 1
    ensures forall m :: 0 <= m < |r| ==> r[m] == items[if m < j then m else m + 1]
  {
    items[..j] + items[j + 1..]
  }

  // The pool after the predecessor's pointer skips item j and the slot is cleared.
  function Unlinked(p: seq<Slot>, items: seq<nat>, j: nat): (q: seq<Slot>)
    requires j < |items| && forall k :: 0 <= k < |items| ==> items[k] < |p|
    ensures |q| == |p|
  {
    var x := items[j];
    (if j == 0 then p else p[items[j - 1] := p[items[j - 1]].(next := p[x].next)])[x := CLEARED]
  }

  lemma DistinctFrom(items: seq<nat>, j: nat)
    requires Distinct(items) && j < |items|
    ensures forall n :: 0 <= n < |items| && n != j ==> items[n] != items[j]
  {
  }

  lemma UnlinkedChain(p: seq<Slot>, items: seq<nat>, j: nat)
    requires Distinct(items) && Chained(p, items) && j < |items|
    ensures Chained(Unlinked(p, items, j), Without(items, j))
  {
    hide Distinct;
    var q, rest := Unlinked(p, items, j), Without(items, j);
    DistinctFrom(items, j);
    forall m | 0 <= m < |rest|
      ensures rest[m] < |q| && q[rest[m]].next == Ptr(rest, m + 1)
    {
      var n := if m < j then m else m + 1;
      assert rest[m] == items[n] != items[j];
      if j > 0 {
        DistinctFrom(items, j - 1);
      }
    }
  }

  lemma UnlinkedInUse(p: seq<Slot>, items: seq<nat>, j: nat)
    requires Distinct(items) && InUse(p, items) && j < |items|
    ensures InUse(Unlinked(p, items, j), Without(items, j))
  {
    var q, rest := Unlinked(p, items, j), Without(items, j);
    forall i | 0 <= i < |p| && i != items[j]
      ensures q[i].location == p[i].location
    {
    }
    forall m | 0 <= m < |rest|
      ensures rest[m] < |q| && 0 < q[rest[m]].location < CELLS
    {
      assert rest[m] != items[j];
    }
    forall i | 0 <= i < |q| && q[i].location != 0
      ensures i in rest
    {
      assert i in items;
      var n :| 0 <= n < |items| && items[n] == i;
      assert rest[if n < j then n else n - 1] == i;
    }
  }

  lemma UnlinkItem(p: seq<Slot>, head: pointer, items: seq<nat>, j: nat)
    requires Linked(p, head, items) && j < |items|
    ensures Linked(Unlinked(p, items, j), if j == 0 then p[items[0]].next else head, Without(items, j))
  {
    assert Distinct(Without(items, j));
    UnlinkedChain(p, items, j);
    UnlinkedInUse(p, items, j);
  }

  // Free slots and list items always add up to the whole pool.
  ghost function FreeSlots(p: seq<Slot>): set<int> {
    set i | 0 <= i < |p| && p[i].location == 0
  }

  function Elements(items: seq<nat>): set<int> {
    set j | 0 <= j < |items| :: items[j] as int
  }

  lemma {:induction false} DistinctSize(items: seq<nat>)
    requires Distinct(items)
    ensures |Elements(items)| == |items|
  {
    if items != [] {
      var n := |items| - 1;
      DistinctSize(items[..n]);
      assert items[n] !in Elements(items[..n]);
      assert Elements(items) == Elements(items[..n]) + {items[n] as int};
    }
  }

  lemma PoolConserved(p: seq<Slot>, head: pointer, items: seq<nat>)
    requires Linked(p, head, items)
    ensures |FreeSlots(p)| + |items| == CELLS
  {
    var all := seq(CELLS, i requires 0 <= i < CELLS => i);
    DistinctSize(items);
    DistinctSize(all);
    forall i | i in Elements(all)
      ensures i in FreeSlots(p) || i in Elements(items)
    {
      if p[i].location != 0 {
        assert i in items;
      }
    }
    forall i | i in FreeSlots(p)
      ensures i in Elements(all)
    {
      assert all[i] == i;
    }
    forall j | 0 <= j < |items|
      ensures items[j] in Elements(all)
    {
      assert all[items[j]] == items[j];
    }
    assert FreeSlots(p) !! Elements(items);
    assert FreeSlots(p) + Elements(items) == Elements(all);
  }

  function ItemOf(s: Slot): Item {
    Item(s.location, s.onChar, s.offChar, s.onLength, s.offLength, s.countdown, s.status)
  }

  ghost function ItemsOf(p: seq<Slot>, items: seq<nat>): (c: seq<Item>)
    requires forall j :: 0 <= j < |items| ==> items[j] < |p|
    ensures |c| == |items|
  {
    seq(|items|, j requires 0 <= j < |items| => ItemOf(p[items[j]]))
  }

  // Position j is the first in the list with this location; |c| when there is none.
  ghost predicate FirstAt(c: seq<Item>, location: half, j: nat) {
    && j <= |c|
    && (forall k :: 0 <= k < j ==> c[k].location != location)
    && (j < |c| ==> c[j].location == location)
  }

  ghost predicate Present(c: seq<Item>, location: half) {
    exists k :: 0 <= k < |c| && c[k].location == location
  }

  // The item an add creates from the user's structure.
  function NewItem(user: Slot): Item {
    Item(user.location, user.onChar, user.offChar, user.onLength, user.offLength, user.onLength, 1)
  }

  function WithTimerOf(t: Item, s: Item): Item {
    t.(onLength := s.onLength, offLength := s.offLength, countdown := s.countdown, status := s.status)
  }

  lemma ItemsFront(p: seq<Slot>, items: seq<nat>, i: nat, s: Slot)
    requires InUse(p, items) && i < |p| && p[i].location == 0
    ensures ItemsOf(p[i := s], [i] + items) == [ItemOf(s)] + ItemsOf(p, items)
  {
    NotOnList(p, items, i);
    var all := [i] + items;
    forall j | 0 < j < |all|
      ensures ItemOf(p[i := s][all[j]]) == ItemsOf(p, items)[j - 1]
    {
      assert all[j] == items[j - 1];
    }
  }

  lemma ItemsWithout(p: seq<Slot>, items: seq<nat>, j: nat)
    requires Distinct(items) && j < |items| && forall k :: 0 <= k < |items| ==> items[k] < |p|
    ensures ItemsOf(Unlinked(p, items, j), Without(items, j)) == ItemsOf(p, items)[..j] + ItemsOf(p, items)[j + 1..]
  {
    DistinctFrom(items, j);
  }

  lemma FreeExists(p: seq<Slot>, head: pointer, items: seq<nat>)
    requires Linked(p, head, items)
    ensures |items| < CELLS <==> exists i :: 0 <= i < CELLS && p[i].location == 0
  {
    PoolConserved(p, head, items);
    if i :| 0 <= i < CELLS && p[i].location == 0 {
      assert i in FreeSlots(p);
    } else {
      assert FreeSlots(p) == {};
    }
  }

  // One step along the list.
  lemma Follow(p: seq<Slot>, head: pointer, items: seq<nat>, j: nat)
    requires Linked(p, head, items) && j <= |items|
    ensures Ptr(items, j) != 0 <==> j < |items|
    ensures j < |items| ==>
      && Ptr(items, j) <= CELLS && p[Ptr(items, j) - 1].next == Ptr(items, j + 1)
      && p[Ptr(items, j) - 1].location == ItemsOf(p, items)[j].location
  {
    if j < |items| {
      assert p[items[j]].next == Ptr(items, j + 1);
    }
  }

  // Some list starts at head.
  ghost predicate HasList(p: seq<Slot>, head: pointer) {
    exists items: seq<nat> :: Linked(p, head, items)
  }

  // No list can start at a slot that looks free.
  lemma ZeroFront(p: seq<Slot>, head: pointer, items: seq<nat>)
    requires 0 < head <= |p| && p[head - 1].location == 0
    ensures !Linked(p, head, items)
  {
    if items != [] {
      var i := items[0];
      assert i + 1 == head ==> p[i].location == 0;
    }
  }

  lemma NoListAtZero(p: seq<Slot>, head: pointer)
    requires 0 < head <= |p| && p[head - 1].location == 0
    ensures !HasList(p, head)
  {
    hide Linked;
    if HasList(p, head) {
      var items: seq<nat> :| Linked(p, head, items);
      ZeroFront(p, head, items);
    }
  }

  // Adding the item s through the free slot i.
  lemma AddStep(p: seq<Slot>, head: pointer, items: seq<nat>, i: nat, s: Slot)
    requires Linked(p, head, items) && i < CELLS && p[i].location == 0
    requires s.location < CELLS && s.next == head
    ensures s.location != 0 ==>
      && Linked(p[i := s], i + 1, [i] + items)
      && ItemsOf(p[i := s], [i] + items) == [ItemOf(s)] + ItemsOf(p, items)
    ensures s.location == 0 ==> !HasList(p[i := s], i + 1)
  {
    hide Linked, ItemsOf;
    UsedSlots(p, head, items);
    if s.location != 0 {
      LinkFront(p, head, items, i, s);
      ItemsFront(p, items, i, s);
    } else {
      NoListAtZero(p[i := s], i + 1);
    }
  }

  lemma UsedSlots(p: seq<Slot>, head: pointer, items: seq<nat>)
    requires Linked(p, head, items)
    ensures InUse(p, items) && |p| == CELLS && Distinct(items) && head == Ptr(items, 0)
    ensures forall j :: 0 <= j < |items| ==> items[j] < CELLS
  {
  }

  // x is the first item at the location.
  ghost predicate FirstItem(c: seq<Item>, location: half, x: Item) {
    exists j: nat :: j < |c| && FirstAt(c, location, j) && x == c[j]
  }

  // The effect of a sync: the first item at the destination takes over the timer of the first item at the source,
  // and its cell shows its off character whatever its new status is.
  ghost predicate Synced(before: seq<Item>, source: half, destination: half, after: seq<Item>,
                         vmBefore: seq<byte>, vmAfter: seq<byte>) {
    exists j: nat, k: nat ::
      (j < |before| && k < |before| && FirstAt(before, source, j) && FirstAt(before, destination, k)
       && after == before[k := WithTimerOf(before[k], before[j])]
       && 2 * destination < |vmBefore| && vmAfter == vmBefore[2 * destination := before[k].offChar])
  }

  // after is before without its first item at the location.
  ghost predicate RemovedFirst(before: seq<Item>, location: half, after: seq<Item>) {
    exists j: nat :: j < |before| && FirstAt(before, location, j) && after == before[..j] + before[j + 1..]
  }

  // link is the address of the m-th pointer of the list.
  ghost predicate IsLink(items: seq<nat>, m: nat, link: nat)
    requires m <= |items|
  {
    link == if m == 0 then 0 else items[m - 1] + 1
  }

  lemma LinkFollow(p: seq<Slot>, head: pointer, items: seq<nat>, m: nat, link: nat)
    requires Linked(p, head, items) && m <= |items| && IsLink(items, m, link)
    ensures link <= CELLS && (if link == 0 then head else p[link - 1].next) == Ptr(items, m)
    ensures m < |items| ==> IsLink(items, m + 1, Ptr(items, m))
  {
  }

  // The walk over the links stops at the pointer to item j itself, not at an earlier equal one.
  lemma LinkFound(items: seq<nat>, j: nat, m: nat)
    requires Distinct(items) && j < |items| && m <= j && Ptr(items, m) == Ptr(items, j)
    ensures m == j
  {
  }

  // Taking item j out through the pointer at link.
  lemma RemoveStep(p: seq<Slot>, head: pointer, items: seq<nat>, j: nat, link: nat, location: half)
    requires Linked(p, head, items) && j < |items| && IsLink(items, j, link)
    requires FirstAt(ItemsOf(p, items), location, j)
    ensures link <= CELLS && 0 < Ptr(items, j) <= CELLS
    ensures var ptr := Ptr(items, j);
      var q := (if link == 0 then p else p[link - 1 := p[link - 1].(next := p[ptr - 1].next)])[ptr - 1 := CLEARED];
      && Linked(q, if link == 0 then p[ptr - 1].next else head, Without(items, j))
      && RemovedFirst(ItemsOf(p, items), location, ItemsOf(q, Without(items, j)))
  {
    hide Linked, ItemsOf;
    UsedSlots(p, head, items);
    UnlinkItem(p, head, items, j);
    ItemsWithout(p, items, j);
  }

  lemma ItemAt(p: seq<Slot>, items: seq<nat>, j: nat)
    requires j < |items| && forall k :: 0 <= k < |items| ==> items[k] < |p|
    ensures Ptr(items, j) == items[j] + 1 && ItemsOf(p, items)[j] == ItemOf(p[items[j]])
  {
  }

  lemma FoundPresent(c: seq<Item>, location: half, j: nat)
    requires FirstAt(c, location, j)
    ensures j <= |c| && (j < |c| <==> Present(c, location))
  {
    assert j < |c| ==> c[j].location == location;
  }

  lemma SyncStep(p: seq<Slot>, head: pointer, items: seq<nat>, j: nat, k: nat, source: half, destination: half,
                 vm: seq<byte>)
    requires Linked(p, head, items) && j < |items| && k < |items| && |vm| == 4096
    requires FirstAt(ItemsOf(p, items), source, j) && FirstAt(ItemsOf(p, items), destination, k)
    ensures items[j] < |p| && items[k] < |p|
    ensures var s, t := p[items[j]], p[items[k]];
      var u := t.(onLength := s.onLength, offLength := s.offLength, countdown := s.countdown, status := s.status);
      && items[k] < |p| && Linked(p[items[k] := u], head, items)
      && u.location == destination && 2 * destination < |vm|
      && Synced(ItemsOf(p, items), source, destination, ItemsOf(p[items[k] := u], items),
                vm, vm[2 * destination := u.offChar])
  {
    hide Linked, ItemsOf;
    UsedSlots(p, head, items);
    ItemLocations(p, head, items);
    ItemAt(p, items, j);
    ItemAt(p, items, k);
    var s, t := p[items[j]], p[items[k]];
    var u := t.(onLength := s.onLength, offLength := s.offLength, countdown := s.countdown, status := s.status);
    SameLinks(p, head, items, p[items[k] := u]);
    ItemsUpdate(p, items, k, u);
  }

  lemma ItemLocations(p: seq<Slot>, head: pointer, items: seq<nat>)
    requires Linked(p, head, items)
    ensures forall k :: 0 <= k < |items| ==> ItemsOf(p, items)[k].location < CELLS
  {
  }

  lemma SameLinks(p: seq<Slot>, head: pointer, items: seq<nat>, q: seq<Slot>)
    requires Linked(p, head, items) && |q| == |p|
    requires forall i :: 0 <= i < |p| ==> q[i].next == p[i].next && q[i].location == p[i].location
    ensures Linked(q, head, items)
  {
  }

  lemma ItemsUpdate(p: seq<Slot>, items: seq<nat>, k: nat, u: Slot)
    requires Distinct(items) && k < |items| && forall j :: 0 <= j < |items| ==> items[j] < |p|
    ensures ItemsOf(p[items[k] := u], items) == ItemsOf(p, items)[k := ItemOf(u)]
  {
    DistinctFrom(items, k);
  }

  ghost function TickEach(c: seq<Item>): (d: seq<Item>) {
    seq(|c|, j requires 0 <= j < |c| => Tick(c[j]))
  }

  ghost function TicksEach(c: seq<Item>, n: nat): (d: seq<Item>) {
    seq(|c|, j requires 0 <= j < |c| => Ticks(c[j], n))
  }

  function Ticked(s: Slot): Slot {
    s.(countdown := Tick(ItemOf(s)).countdown, status := Tick(ItemOf(s)).status)
  }

  lemma TickSlot(s: Slot)
    ensures ItemOf(Ticked(s)) == Tick(ItemOf(s)) && Ticked(s).next == s.next
  {
  }

  // The pool after the first j items of the list had their tick.
  ghost function TickedTo(p: seq<Slot>, items: seq<nat>, j: nat): (q: seq<Slot>)
    requires j <= |items| && forall k :: 0 <= k < |items| ==> items[k] < |p|
    ensures |q| == |p|
  {
    if j == 0 then p else TickedTo(p, items, j - 1)[items[j - 1] := Ticked(p[items[j - 1]])]
  }

  lemma {:induction false} TickedSlots(p: seq<Slot>, items: seq<nat>, j: nat)
    requires Distinct(items) && j <= |items| && forall k :: 0 <= k < |items| ==> items[k] < |p|
    ensures forall k :: 0 <= k < |items| ==>
      TickedTo(p, items, j)[items[k]] == if k < j then Ticked(p[items[k]]) else p[items[k]]
    ensures forall i :: 0 <= i < |p| ==>
      TickedTo(p, items, j)[i].next == p[i].next && TickedTo(p, items, j)[i].location == p[i].location
  {
    hide Tick;
    if j > 0 {
      TickedSlots(p, items, j - 1);
      DistinctFrom(items, j - 1);
    }
  }

  lemma NotYetTicked(p: seq<Slot>, items: seq<nat>, j: nat)
    requires Distinct(items) && j < |items| && forall k :: 0 <= k < |items| ==> items[k] < |p|
    ensures TickedTo(p, items, j)[items[j]] == p[items[j]]
  {
    TickedSlots(p, items, j);
  }

  // The tasklet has ticked the first j items, and ebx points to the next one.
  ghost predicate Swept(p: seq<Slot>, vm: seq<byte>, c: seq<Item>, items: seq<nat>, j: nat, ebx: pointer,
                        q: seq<Slot>, v: seq<byte>)
    requires j <= |items| == |c| && forall k :: 0 <= k < |items| ==> items[k] < |p| && 2 * c[k].location < |vm|
  {
    ebx == Ptr(items, j) && q == TickedTo(p, items, j) && v == Repaint(vm, c, j)
  }

  lemma SweptStart(p: seq<Slot>, head: pointer, items: seq<nat>, vm: seq<byte>)
    requires Linked(p, head, items) && |vm| == 4096
    ensures forall k :: 0 <= k < |items| ==> items[k] < |p| && 2 * ItemsOf(p, items)[k].location < |vm|
    ensures Swept(p, vm, ItemsOf(p, items), items, 0, head, p, vm)
  {
    ItemLocations(p, head, items);
  }

  lemma SweepStep(p: seq<Slot>, head: pointer, vm: seq<byte>, c: seq<Item>, items: seq<nat>, j: nat, ebx: pointer,
                  q: seq<Slot>, v: seq<byte>)
    requires Linked(p, head, items) && |vm| == 4096 && c == ItemsOf(p, items) && j <= |items|
    requires forall k :: 0 <= k < |items| ==> items[k] < |p| && 2 * c[k].location < |vm|
    requires Swept(p, vm, c, items, j, ebx, q, v) && ebx != 0
    ensures j < |items| && |q| == |p| && |v| == 4096 && ebx <= |q| && 2 * q[ebx - 1].location < |v|
    ensures Swept(p, vm, c, items, j + 1, Ticked(q[ebx - 1]).next, q[ebx - 1 := Ticked(q[ebx - 1])],
                  RepaintOne(v, ItemOf(q[ebx - 1])))
  {
    hide Linked, ItemsOf, Ticked, RepaintOne;
    UsedSlots(p, head, items);
    Follow(p, head, items, j);
    ItemAt(p, items, j);
    NotYetTicked(p, items, j);
    TickSlot(p[ebx - 1]);
  }

  lemma SweptEnd(p: seq<Slot>, head: pointer, vm: seq<byte>, c: seq<Item>, items: seq<nat>, j: nat,
                 q: seq<Slot>, v: seq<byte>)
    requires Linked(p, head, items) && c == ItemsOf(p, items) && j <= |items|
    requires forall k :: 0 <= k < |items| ==> items[k] < |p| && 2 * c[k].location < |vm|
    requires Swept(p, vm, c, items, j, 0, q, v)
    ensures Linked(q, head, items) && ItemsOf(q, items) == TickEach(c) && v == Repaint(vm, c, |c|)
  {
    hide Linked, ItemsOf, Repaint;
    Follow(p, head, items, j);
    AllTicked(p, head, items);
  }

  lemma AllTicked(p: seq<Slot>, head: pointer, items: seq<nat>)
    requires Linked(p, head, items)
    ensures Linked(TickedTo(p, items, |items|), head, items)
    ensures ItemsOf(TickedTo(p, items, |items|), items) == TickEach(ItemsOf(p, items))
  {
    hide Tick;
    TickedSlots(p, items, |items|);
    SameLinks(p, head, items, TickedTo(p, items, |items|));
    forall k | 0 <= k < |items|
      ensures ItemsOf(TickedTo(p, items, |items|), items)[k] == Tick(ItemsOf(p, items)[k])
    {
      TickSlot(p[items[k]]);
    }
  }

  // The character the screen cell of an item ought to show.
  function Shown(x: Item): byte {
    if IsOn(x) then x.onChar else x.offChar
  }

  // Screen memory after the first j items of c were ticked: the ones that switched were painted.
  ghost function Repaint(vm: seq<byte>, c: seq<Item>, j: nat): (r: seq<byte>)
    requires j <= |c| && forall k :: 0 <= k < |c| ==> 2 * c[k].location < |vm|
    ensures |r| == |vm|
  {
    if j == 0 then vm else RepaintOne(Repaint(vm, c, j - 1), c[j - 1])
  }

  ghost function RepaintOne(vm: seq<byte>, x: Item): (r: seq<byte>)
    requires 2 * x.location < |vm|
    ensures |r| == |vm|
  {
    if StillCounting(x) then vm else vm[2 * x.location := if IsOn(x) then x.offChar else x.onChar]
  }

  // An item that has its location to itself and whose cell is right keeps its cell right through every tick.
  lemma {:induction false} CellFollowsStatus(vm: seq<byte>, c: seq<Item>, j: nat, n: nat)
    requires forall k :: 0 <= k < |c| ==> 2 * c[k].location < |vm|
    requires j < |c| && n <= |c| && forall k :: 0 <= k < |c| && k != j ==> c[k].location != c[j].location
    requires vm[2 * c[j].location] == Shown(c[j])
    ensures Repaint(vm, c, n)[2 * c[j].location] == if j < n then Shown(Tick(c[j])) else Shown(c[j])
  {
    if n > 0 {
      CellFollowsStatus(vm, c, j, n - 1);
    }
  }

  // The cell of an item alone at its location changes exactly when the item switches.
  lemma {:induction false} RepaintCell(vm: seq<byte>, c: seq<Item>, j: nat, n: nat)
    requires forall k :: 0 <= k < |c| ==> 2 * c[k].location < |vm|
    requires j < |c| && n <= |c| && forall k :: 0 <= k < |c| && k != j ==> c[k].location != c[j].location
    ensures Repaint(vm, c, n)[2 * c[j].location]
      == if j < n && !StillCounting(c[j]) then Shown(Tick(c[j])) else vm[2 * c[j].location]
  {
    if n > 0 {
      RepaintCell(vm, c, j, n - 1);
    }
  }

  // Screen memory after n tasklets.
  ghost function RepaintTicks(vm: seq<byte>, c: seq<Item>, n: nat): (r: seq<byte>)
    requires forall k :: 0 <= k < |c| ==> 2 * c[k].location < |vm|
    ensures |r| == |vm|
  {
    if n == 0 then vm
    else
      SamePlaces(c, n - 1);
      Repaint(RepaintTicks(vm, c, n - 1), TicksEach(c, n - 1), |c|)
  }

  lemma {:induction false} SamePlace(s: Item, n: nat)
    ensures Ticks(s, n).location == s.location && Ticks(s, n).onChar == s.onChar && Ticks(s, n).offChar == s.offChar
  {
    if n > 0 {
      SamePlace(s, n - 1);
    }
  }

  lemma SamePlaces(c: seq<Item>, n: nat)
    ensures forall k :: 0 <= k < |c| ==> TicksEach(c, n)[k].location == c[k].location
  {
    forall k | 0 <= k < |c|
      ensures TicksEach(c, n)[k].location == c[k].location
    {
      SamePlace(c[k], n);
    }
  }

  // Until its countdown has run out an item only counts.
  lemma {:induction false} CountsDown(s: Item, n: nat)
    requires n < Lasts(s.countdown)
    ensures Ticks(s, n) == s.(countdown := Ticks(s, n).countdown)
    ensures StillCounting(Ticks(s, n)) <==> n + 1 < Lasts(s.countdown)
    ensures n > 0 ==> Ticks(s, n).countdown == s.countdown - n
  {
    if n > 0 {
      CountsDown(s, n - 1);
    }
  }

  // Whatever the cell shows at first, it stays until the countdown has run out and is right from then on.
  lemma {:induction false} CellAfterTicks(vm: seq<byte>, c: seq<Item>, j: nat, n: nat)
    requires forall k :: 0 <= k < |c| ==> 2 * c[k].location < |vm|
    requires j < |c| && forall k :: 0 <= k < |c| && k != j ==> c[k].location != c[j].location
    ensures var x := Ticks(c[j], n);
      RepaintTicks(vm, c, n)[2 * c[j].location]
      == if n < Lasts(c[j].countdown) then vm[2 * c[j].location]
         else if x.status % 2 == 1 then x.onChar else x.offChar
  {
    hide Repaint, Lasts;
    if n > 0 {
      CellAfterTicks(vm, c, j, n - 1);
      SamePlaces(c, n - 1);
      var d := TicksEach(c, n - 1);
      RepaintCell(RepaintTicks(vm, c, n - 1), d, j, |c|);
      if n - 1 < Lasts(c[j].countdown) {
        CountsDown(c[j], n - 1);
      }
    } else {
      LastsSome(c[j].countdown);
    }
  }

  lemma LastsSome(length: half)
    ensures Lasts(length) >= 1
  {
  }

  // A sync paints the destination's cell right exactly when the source is off or the destination looks the same on and
  // off.
  lemma SyncedCell(before: seq<Item>, source: half, destination: half, after: seq<Item>, vm: seq<byte>, vm': seq<byte>,
                   j: nat, k: nat)
    requires Synced(before, source, destination, after, vm, vm')
    requires j < |before| && FirstAt(before, source, j) && k < |before| && FirstAt(before, destination, k)
    ensures after == before[k := WithTimerOf(before[k], before[j])] && 2 * destination < |vm'|
    ensures vm'[2 * destination] == Shown(after[k]) <==> !IsOn(before[j]) || before[k].onChar == before[k].offChar
  {
  }

  // For instance: a source that is on, and a destination that is off.
  lemma SyncMispaints(vm: seq<byte>)
    requires |vm| == 4096
    ensures var x, y := Item(1, 65, 66, 5, 5, 5, 1), Item(2, 67, 68, 5, 5, 3, 0);
      var after := [x, WithTimerOf(y, x)];
      Synced([x, y], 1, 2, after, vm, vm[4 := 68]) && vm[4 := 68][4] != Shown(after[1])
  {
    var x, y := Item(1, 65, 66, 5, 5, 5, 1), Item(2, 67, 68, 5, 5, 3, 0);
    assert FirstAt([x, y], 1, 0) && FirstAt([x, y], 2, 1);
  }

  // A destination alone at its location shows its status again from the tick on which its new countdown runs out, and
  // no sooner if it was painted wrong.
  lemma SyncedCellLater(before: seq<Item>, source: half, destination: half, after: seq<Item>,
                        vm: seq<byte>, vm': seq<byte>, j: nat, k: nat, n: nat)
    requires Synced(before, source, destination, after, vm, vm')
    requires j < |before| && FirstAt(before, source, j) && k < |before| && FirstAt(before, destination, k)
    requires |after| == |before| && forall m :: 0 <= m < |after| ==> 2 * after[m].location < |vm'|
    requires forall m :: 0 <= m < |after| && m != k ==> after[m].location != destination
    ensures RepaintTicks(vm', after, n)[2 * destination] == Shown(TicksEach(after, n)[k])
      <==> !IsOn(before[j]) || before[k].onChar == before[k].offChar || n >= Lasts(before[j].countdown)
  {
    hide RepaintTicks, Lasts;
    SyncedCell(before, source, destination, after, vm, vm', j, k);
    CellAfterTicks(vm', after, k, n);
    if n < Lasts(after[k].countdown) {
      CountsDown(after[k], n);
    }
  }

  // ----- Runs of the list -----

  // The first items at the two locations have the same timer.
  ghost predicate InStep(c: seq<Item>, source: half, destination: half) {
    exists j: nat, k: nat ::
      (j < |c| && k < |c| && FirstAt(c, source, j) && FirstAt(c, destination, k) && SameTimer(c[j], c[k]))
  }

  // The commands a program can give, and the timer.
  datatype Command = Tasklet | Add(user: Slot) | Remove(location: half) | Sync(source: half, destination: half)
                   | Find(location: half)

  // What a command does to the list; commands that fail do nothing.
  ghost predicate Changes(before: seq<Item>, command: Command, after: seq<Item>) {
    match command
    case Tasklet => after == TickEach(before)
    case Add(user) =>
      after == if user.location < CELLS && |before| < CELLS then [NewItem(user)] + before else before
    case Remove(l) => if Present(before, l) then RemovedFirst(before, l, after) else after == before
    case Sync(s, d) =>
      if Present(before, s) && Present(before, d) then exists vm, vm' :: Synced(before, s, d, after, vm, vm')
      else after == before
    case Find(_) => after == before
  }

  // The commands turn one list into the other.
  ghost predicate Turns(before: seq<Item>, commands: seq<Command>, after: seq<Item>)
    decreases |commands|
  {
    if commands == [] then after == before
    else
      var n := |commands| - 1;
      exists c :: Turns(before, commands[..n], c) && Changes(c, commands[n], after)
  }

  // It is not an add, a remove or a sync of an item at this location.
  predicate SparesLocation(command: Command, location: half) {
    match command
    case Tasklet => true
    case Add(user) => user.location != location
    case Remove(l) => l != location
    case Sync(_, destination) => destination != location
    case Find(_) => true
  }

  ghost predicate Spares(commands: seq<Command>, location: half) {
    forall i :: 0 <= i < |commands| ==> SparesLocation(commands[i], location)
  }

  function Tasklets(commands: seq<Command>): nat {
    if commands == [] then 0
    else Tasklets(commands[..|commands| - 1]) + if commands[|commands| - 1].Tasklet? then 1 else 0
  }

  // Where the first item at a location is afterwards, and what has become of it.
  lemma FirstSpared(before: seq<Item>, command: Command, after: seq<Item>, location: half, j: nat) returns (k: nat)
    requires Changes(before, command, after) && SparesLocation(command, location)
    requires j < |before| && FirstAt(before, location, j)
    ensures k < |after| && FirstAt(after, location, k)
    ensures after[k] == if command.Tasklet? then Tick(before[j]) else before[j]
  {
    k := j;
    match command
    case Tasklet =>
    case Add(user) =>
      if after != before {
        k := j + 1;
      }
    case Remove(l) =>
      if Present(before, l) {
        var m: nat :| m < |before| && FirstAt(before, l, m) && after == before[..m] + before[m + 1..];
        k := if m < j then j - 1 else j;
      }
    case Sync(source, destination) =>
    case Find(_) =>
  }

  // Through any run that spares its location, the first item there has done as many ticks as the timer.
  lemma {:induction false} ItemTicks(before: seq<Item>, commands: seq<Command>, after: seq<Item>, location: half,
                                     j: nat)
      returns (k: nat)
    requires Turns(before, commands, after) && Spares(commands, location)
    requires j < |before| && FirstAt(before, location, j)
    ensures k < |after| && FirstAt(after, location, k) && after[k] == Ticks(before[j], Tasklets(commands))
    decreases |commands|
  {
    hide Changes, SparesLocation, FirstAt, Tick;
    if commands == [] {
      k := j;
    } else {
      var n := |commands| - 1;
      var c :| Turns(before, commands[..n], c) && Changes(c, commands[n], after);
      var m := ItemTicks(before, commands[..n], c, location, j);
      k := FirstSpared(c, commands[n], after, location, m);
    }
  }

  // The first item at the location is a new one, or one like it: on, with its whole on length to go.
  ghost predicate Fresh(c: seq<Item>, location: half, j: nat) {
    j < |c| && FirstAt(c, location, j) && c[j].status == 1 && c[j].countdown == c[j].onLength
  }

  // Item j blinks on through the commands: it is now the first at its location, and on exactly when the number of
  // tasklets among them falls in the on part of its period.
  ghost predicate BlinksOn(before: seq<Item>, location: half, j: nat, commands: seq<Command>, after: seq<Item>)
    requires j < |before|
  {
    exists k: nat ::
      (k < |after| && FirstAt(after, location, k)
       && (IsOn(after[k]) <==> Tasklets(commands) % Period(before[j]) < Lasts(before[j].onLength)))
  }

  lemma BlinksThrough(before: seq<Item>, commands: seq<Command>, after: seq<Item>, location: half, j: nat)
    requires Turns(before, commands, after) && Spares(commands, location) && Fresh(before, location, j)
    ensures BlinksOn(before, location, j, commands, after)
  {
    hide FirstAt, Turns, Spares;
    var k := ItemTicks(before, commands, after, location, j);
    BlinksOnSchedule(before[j], Tasklets(commands));
  }

  // After a sync source and destination are in step, and they stay in step through any run that spares both.
  lemma StaysInStep(before: seq<Item>, commands: seq<Command>, after: seq<Item>, source: half, destination: half)
    requires Turns(before, commands, after) && InStep(before, source, destination)
    requires Spares(commands, source) && Spares(commands, destination)
    ensures InStep(after, source, destination)
  {
    hide Turns, Spares, FirstAt;
    var j: nat, k: nat :| j < |before| && k < |before|
      && FirstAt(before, source, j) && FirstAt(before, destination, k) && SameTimer(before[j], before[k]);
    var j' := ItemTicks(before, commands, after, source, j);
    var k' := ItemTicks(before, commands, after, destination, k);
    Lockstep(before[j], before[k], Tasklets(commands));
  }

  lemma TurnsNext(c: seq<Item>, commands: seq<Command>, i: nat)
    requires i < |commands|
    ensures forall d, e :: Turns(c, commands[..i], d) && Changes(d, commands[i], e) ==> Turns(c, commands[..i + 1], e)
  {
    assert commands[..i + 1][..i] == commands[..i];
  }

  lemma RunKeeps(c: seq<Item>, commands: seq<Command>, d: seq<Item>)
    requires Turns(c, commands, d)
    ensures forall location: half, j: nat :: Fresh(c, location, j) && Spares(commands, location) ==>
      BlinksOn(c, location, j, commands, d)
    ensures forall source: half, destination: half ::
      (InStep(c, source, destination) && Spares(commands, source) && Spares(commands, destination) ==>
        InStep(d, source, destination))
  {
    hide Turns, BlinksOn, InStep, Spares;
    forall location: half, j: nat | Fresh(c, location, j) && Spares(commands, location)
      ensures BlinksOn(c, location, j, commands, d)
    {
      BlinksThrough(c, commands, d, location, j);
    }
    forall source: half, destination: half |
      InStep(c, source, destination) && Spares(commands, source) && Spares(commands, destination)
      ensures InStep(d, source, destination)
    {
      StaysInStep(c, commands, d, source, destination);
    }
  }

  lemma SyncedInStep(before: seq<Item>, source: half, destination: half, after: seq<Item>, vm: seq<byte>,
                     vm': seq<byte>)
    requires Synced(before, source, destination, after, vm, vm')
    ensures InStep(after, source, destination)
  {
    var j: nat, k: nat :| j < |before| && k < |before|
      && FirstAt(before, source, j) && FirstAt(before, destination, k)
      && after == before[k := WithTimerOf(before[k], before[j])];
    assert FirstAt(after, source, j) && FirstAt(after, destination, k);
  }

  class BlinkList {
    const pool: array<Slot>
    const vmem: array<byte>
    var head: pointer
    // the slots on the list, front first
    ghost var items: seq<nat>

    ghost predicate Valid()
      reads this, pool
    {
      pool.Length == CELLS && vmem.Length == 4096 && Linked(pool[..], head, items)
    }

    ghost function Contents(): (c: seq<Item>)
      requires Valid()
      reads this, pool
    {
      ItemsOf(pool[..], items)
    }

    // main: the pool is zeroed and the list is empty.
    constructor (vmem: array<byte>)
      requires vmem.Length == 4096
      ensures Valid() && fresh(pool) && this.vmem == vmem
      ensures Contents() == []
    {
      this.vmem := vmem;
      head, items := 0, [];
      pool := new Slot[CELLS](_ => CLEARED);
    }

    method Malloc() returns (ptr: pointer)
      requires pool.Length == CELLS
      ensures ptr == 0 ==> forall i :: 0 <= i < CELLS ==> pool[i].location != 0
      ensures ptr != 0 ==> ptr <= CELLS && pool[ptr - 1].location == 0
      ensures ptr != 0 ==> forall i :: 0 <= i < ptr - 1 ==> pool[i].location != 0
    {
      for i := 0 to CELLS
        invariant forall k :: 0 <= k < i ==> pool[k].location != 0
      {
        if pool[i].location == 0 {
          return i + 1;
        }
      }
      return 0;
    }

    method Add(user: Slot) returns (ret: int)
      requires Valid()
      modifies this, pool, vmem
      ensures ret == if user.location < 2000 && |old(items)| < 2000 then 0 else -1
      ensures ret == -1 ==> Valid() && items == old(items) && pool[..] == old(pool[..]) && vmem[..] == old(vmem[..])
      ensures ret == 0 ==> vmem[..] == old(vmem[..])[2 * user.location := user.onChar]
      ensures ret == 0 && user.location != 0 ==>
        && Valid() && Contents() == [NewItem(user)] + old(Contents()) && Fresh(Contents(), user.location, 0)
        && var new_ := Contents()[0];
        && new_.onChar == user.onChar && new_.offChar == user.offChar
        && new_.onLength == user.onLength && new_.offLength == user.offLength
      // an item at location 0 looks like a free slot, and no list invariant can hold any more
      ensures ret == 0 && user.location == 0 ==> !HasList(pool[..], head)
    {
      hide Linked, ItemsOf, HasList;
      UsedSlots(pool[..], head, items);
      var item := user;
      if item.location >= CELLS {
        return -1;
      }
      item := item.(status := 1, countdown := item.onLength);
      FreeExists(pool[..], head, items);
      var ptr := Malloc();
      if ptr == 0 {
        assert forall i :: 0 <= i < CELLS ==> pool[..][i].location != 0;
        return -1;
      }
      assert pool[..][ptr - 1].location == 0;
      AddStep(pool[..], head, items, ptr - 1, item.(next := head));
      pool[ptr - 1] := item;
      pool[ptr - 1] := pool[ptr - 1].(next := head);
      assert pool[..] == old(pool[..])[ptr - 1 := item.(next := head)];
      head := ptr;
      items := [ptr - 1] + items;
      vmem[2 * item.location] := item.onChar;
      return 0;
    }

    // mp1_find_helper compares the low 16 bits of its argument.
    method FindHelper(arg: word) returns (ptr: pointer, ghost j: nat)
      requires Valid()
      ensures FirstAt(Contents(), arg % 0x1_0000, j) && ptr == Ptr(items, j)
    {
      hide Linked, ItemsOf, Ptr;
      UsedSlots(pool[..], head, items);
      var ax := arg % 0x1_0000;
      ptr, j := head, 0;
      ghost var c := Contents();
      while ptr != 0
        invariant j <= |items| && ptr == Ptr(items, j)
        invariant forall k :: 0 <= k < j ==> c[k].location != ax
        decreases |items| - j
      {
        Follow(pool[..], head, items, j);
        if pool[ptr - 1].location == ax {
          return;
        }
        ptr, j := pool[ptr - 1].next, j + 1;
      }
      Follow(pool[..], head, items, j);
    }

    method Remove(arg: word) returns (ret: int)
      requires Valid()
      modifies this, pool
      ensures Valid()
      ensures ret == if Present(old(Contents()), arg % 0x1_0000) then 0 else -1
      ensures ret == -1 ==> items == old(items) && pool[..] == old(pool[..])
      ensures ret == 0 ==> RemovedFirst(old(Contents()), arg % 0x1_0000, Contents())
      ensures ret == 0 ==> exists j: nat ::
        (j < |old(items)| && old(items)[j] < pool.Length && pool[..][old(items)[j]] == Slot(0, 0, 0, 0, 0, 0, 0, 0))
    {
      hide Linked, ItemsOf, Ptr, RemovedFirst, FirstAt, Present;
      var ptr, j := FindHelper(arg);
      UsedSlots(pool[..], head, items);
      FoundPresent(Contents(), arg % 0x1_0000, j);
      Follow(pool[..], head, items, j);
      if ptr == 0 {
        return -1;
      }
      // link is the address of the pointer under inspection: 0 for the list head, i + 1 for slot i's next field
      var link: nat := 0;
      ghost var m := 0;
      ghost var p := pool[..];
      while (if link == 0 then head else pool[link - 1].next) != ptr
        invariant pool[..] == p && head == old(head) && items == old(items)
        invariant m <= j && IsLink(items, m, link)
        decreases j - m
      {
        LinkFollow(pool[..], head, items, m, link);
        link := if link == 0 then head else pool[link - 1].next;
        m := m + 1;
      }
      LinkFollow(pool[..], head, items, m, link);
      LinkFound(items, j, m);
      RemoveStep(pool[..], head, items, j, link, arg % 0x1_0000);
      if link == 0 {
        head := pool[ptr - 1].next;
      } else {
        pool[link - 1] := pool[link - 1].(next := pool[ptr - 1].next);
      }
      // mp1_free
      pool[ptr - 1] := CLEARED;
      assert old(items)[j] == ptr - 1;
      items := Without(items, j);
      return 0;
    }

    // mp1_ioctl_find: copy out the first item at the location.
    method Find(location: half) returns (found: seq<Slot>)
      requires Valid()
      ensures if Present(Contents(), location)
        then |found| == 1 && FirstItem(Contents(), location, ItemOf(found[0]))
        else found == []
    {
      hide Linked, ItemsOf;
      UsedSlots(pool[..], head, items);
      var ptr, j := FindHelper(location);
      Follow(pool[..], head, items, j);
      if ptr == 0 {
        return [];
      }
      ItemAt(pool[..], items, j);
      return [pool[ptr - 1]];
    }

    // mp1_ioctl_sync: source location in the high half of the argument, destination in the low half.
    method Sync(arg: word) returns (ret: int)
      requires Valid()
      modifies pool, vmem
      ensures Valid()
      ensures ret
        == if Present(old(Contents()), arg / 0x1_0000) && Present(old(Contents()), arg % 0x1_0000) then 0 else -1
      ensures ret == -1 ==> pool[..] == old(pool[..]) && vmem[..] == old(vmem[..])
      ensures ret == 0 ==> Synced(old(Contents()), arg / 0x1_0000, arg % 0x1_0000, Contents(), old(vmem[..]), vmem[..])
    {
      hide Linked, ItemsOf, Synced, FirstAt, Present, Ptr;
      UsedSlots(pool[..], head, items);
      var esi, j := FindHelper(arg / 0x1_0000);
      FoundPresent(Contents(), arg / 0x1_0000, j);
      Follow(pool[..], head, items, j);
      if esi == 0 {
        return -1;
      }
      var edi, k := FindHelper(arg % 0x1_0000);
      FoundPresent(Contents(), arg % 0x1_0000, k);
      Follow(pool[..], head, items, k);
      if edi == 0 {
        return -1;
      }
      ItemAt(pool[..], items, j);
      ItemAt(pool[..], items, k);
      var s, t := pool[esi - 1], pool[edi - 1];
      var u := t.(onLength := s.onLength, offLength := s.offLength, countdown := s.countdown, status := s.status);
      SyncStep(pool[..], head, items, j, k, arg / 0x1_0000, arg % 0x1_0000, vmem[..]);
      pool[edi - 1] := u;
      // testb clears the overflow flag and its result has no sign bit, so the cmovl to the on character never happens
      vmem[2 * u.location] := u.offChar;
      return 0;
    }

    // The body of the tasklet's loop, for the item in slot i.
    method TickInPlace(i: nat)
      requires i < pool.Length && 2 * pool[i].location < vmem.Length
      modifies pool, vmem
      ensures pool[..] == old(pool[..])[i := Ticked(old(pool[i]))]
      ensures vmem[..] == RepaintOne(old(vmem[..]), ItemOf(old(pool[i])))
    {
      var s := pool[i];
      s := s.(countdown := (s.countdown - 1) % 0x1_0000);
      if !(0 < s.countdown < 0x8000) {
        if s.status % 2 == 1 {
          vmem[2 * s.location] := s.offChar;
          s := s.(countdown := s.offLength, status := s.status - 1);
        } else {
          vmem[2 * s.location] := s.onChar;
          s := s.(countdown := s.onLength, status := s.status + 1);
        }
      }
      pool[i] := s;
    }

    // mp1_rtc_tasklet: one tick for every item of the list, front to back.
    method Tasklet()
      requires Valid()
      modifies pool, vmem
      ensures Valid()
      ensures Contents() == TickEach(old(Contents()))
      ensures vmem[..] == Repaint(old(vmem[..]), old(Contents()), |old(Contents())|)
    {
      hide Linked, ItemsOf, Ticked, RepaintOne, Swept, Ptr;
      ghost var p, vm, c := pool[..], vmem[..], Contents();
      UsedSlots(p, head, items);
      ItemLocations(p, head, items);
      var ebx := head;
      ghost var j := 0;
      SweptStart(p, head, items, vm);
      while ebx != 0
        invariant j <= |items| && Swept(p, vm, c, items, j, ebx, pool[..], vmem[..])
        decreases |items| - j
      {
        SweepStep(p, head, vm, c, items, j, ebx, pool[..], vmem[..]);
        TickInPlace(ebx - 1);
        ebx, j := pool[..][ebx - 1].next, j + 1;
      }
      SweptEnd(p, head, vm, c, items, j, pool[..], vmem[..]);
    }

    // The waiting loops of main: n ticks in a row.
    method Wait(n: nat)
      requires Valid()
      modifies pool, vmem
      ensures Valid()
      ensures Contents() == TicksEach(old(Contents()), n)
      ensures vmem[..] == RepaintTicks(old(vmem[..]), old(Contents()), n)
    {
      hide Linked, ItemsOf, Tick, Repaint;
      ghost var c, vm := Contents(), vmem[..];
      ItemLocations(pool[..], head, items);
      for i := 0 to n
        invariant Valid() && Contents() == TicksEach(c, i) && vmem[..] == RepaintTicks(vm, c, i)
      {
        Tasklet();
      }
    }

    // An add of location 0 is left out: it has no list to go on from.
    method Do(command: Command)
      requires Valid() && (command.Add? ==> command.user.location != 0)
      modifies this, pool, vmem
      ensures Valid() && Changes(old(Contents()), command, Contents())
    {
      hide Linked, ItemsOf, Synced, RemovedFirst, FirstAt, Present;
      match command {
        case Tasklet => Tasklet();
        case Add(user) =>
          ContentsLength();
          var _ := Add(user);
        case Remove(location) =>
          var _ := Remove(location);
        case Sync(source, destination) =>
          ghost var vm := vmem[..];
          var _ := Sync(source * 0x1_0000 + destination);
        case Find(location) =>
          var _ := Find(location);
      }
    }

    lemma ContentsLength()
      requires Valid()
      ensures |Contents()| == |items|
    {
    }

    // In any run of commands and ticks, a first item that the commands spare goes on blinking on schedule, and two
    // first items in step stay in step.
    method Run(commands: seq<Command>)
      requires Valid() && forall i :: 0 <= i < |commands| && commands[i].Add? ==> commands[i].user.location != 0
      modifies this, pool, vmem
      ensures Valid() && Turns(old(Contents()), commands, Contents())
      ensures forall location: half, j: nat :: Fresh(old(Contents()), location, j) && Spares(commands, location) ==>
        BlinksOn(old(Contents()), location, j, commands, Contents())
      ensures forall source: half, destination: half ::
        (InStep(old(Contents()), source, destination) && Spares(commands, source) && Spares(commands, destination) ==>
          InStep(Contents(), source, destination))
    {
      hide Linked, ItemsOf, Changes, InStep, Fresh, FirstAt, Spares, BlinksOn;
      ghost var c := Contents();
      for i := 0 to |commands|
        invariant Valid() && Turns(c, commands[..i], Contents())
      {
        TurnsNext(c, commands, i);
        Do(commands[i]);
      }
      assert commands[..|commands|] == commands;
      RunKeeps(c, commands, Contents());
    }
  }
}
