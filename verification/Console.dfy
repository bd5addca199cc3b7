// The three terminals over one video memory: the displayed terminal lives in VIDEO, the others in backing pages
// (student-distrib/lib.c, Terminal.c, and change_display_terminal in system_call.c).
module Consoles {
  import opened Bytes
  import opened Layout
  import opened Memory
  import opened Wrapping
  import opened Screens

  const MEMORY: int := 0xBC000

  function Colour(t: int): byte
    requires 0 <= t < NUM_TERMINALS
  {
    if t == 0 then 0x17 else if t == 1 then 0x4E else 0x9F
  }

  // struct terminal_t
  datatype TermData = TermData(x: int, y: int, saveY: int, keyboard: seq<byte>, caps: bool)

  predicate SoundData(d: TermData) {
    |d.keyboard| == 127 && 0 <= d.x < NUM_COLS && 0 <= d.y < NUM_ROWS && 0 <= d.saveY < NUM_ROWS
  }

  function PageAt(mem: seq<byte>, b: int): (p: seq<byte>)
    requires 0 <= b && b + PAGE <= |mem|
    ensures |p| == PAGE
  {
    mem[b..b + PAGE]
  }

  // The terminal a user of terminal t sees: its live copy if it is displayed, its saved copy otherwise.
  function Logical(mem: seq<byte>, data: seq<TermData>, keyboard: seq<byte>, caps: bool, display: int, t: int): Terminal
    requires |mem| == MEMORY && |data| == NUM_TERMINALS && 0 <= t < NUM_TERMINALS
  {
    var d := data[t];
    Terminal(PageAt(mem, ScreenPage(display, t)), d.x, d.y, d.saveY,
             if t == display then keyboard else d.keyboard, if t == display then caps else d.caps)
  }

  lemma PagesApart(display: int, t: int, u: int)
    requires 0 <= t < NUM_TERMINALS && 0 <= u < NUM_TERMINALS && t != u
    ensures
      || ScreenPage(display, t) + PAGE <= ScreenPage(display, u)
      || ScreenPage(display, u) + PAGE <= ScreenPage(display, t)
  {
  }

  // Replacing one page leaves every page apart from it alone.
  lemma PageReplaced(mem: seq<byte>, b: int, page: seq<byte>)
    requires 0 <= b && b + PAGE <= |mem| && |page| == PAGE
    ensures PageAt(Splice(mem, b, page), b) == page
    ensures forall a :: 0 <= a && a + PAGE <= |mem| && (a + PAGE <= b || b + PAGE <= a) ==>
      PageAt(Splice(mem, b, page), a) == PageAt(mem, a)
  {
  }

  lemma CellWritten(mem: seq<byte>, b: int, k: int, c: byte)
    requires 0 <= b && b + PAGE <= |mem| && 0 <= k < PAGE
    ensures mem[b + k := c] == Splice(mem, b, PageAt(mem, b)[k := c])
  {
  }

  lemma SpliceTwice(mem: seq<byte>, b: int, p: seq<byte>, q: seq<byte>)
    requires 0 <= b && b + PAGE <= |mem| && |p| == |q| == PAGE
    ensures Splice(Splice(mem, b, p), b, q) == Splice(mem, b, q)
  {
  }

  // All three terminals.
  function Logicals(mem: seq<byte>, data: seq<TermData>, keyboard: seq<byte>, caps: bool,
                    display: int): (s: seq<Terminal>)
    requires |mem| == MEMORY && |data| == NUM_TERMINALS
    ensures |s| == NUM_TERMINALS
  {
    seq(NUM_TERMINALS, t requires 0 <= t < NUM_TERMINALS => Logical(mem, data, keyboard, caps, display, t))
  }

  lemma LogicalIs(mem: seq<byte>, data: seq<TermData>, keyboard: seq<byte>, caps: bool, display: int, t: int)
    requires |mem| == MEMORY && |data| == NUM_TERMINALS && 0 <= t < NUM_TERMINALS
    ensures var s := Logicals(mem, data, keyboard, caps, display)[t];
      s.page == PageAt(mem, ScreenPage(display, t)) && s.x == data[t].x && s.y == data[t].y && s.saveY == data[t].saveY
  {
  }

  // A change to the page and the cursor fields of one terminal changes that terminal only.
  lemma OneTerminal(mem: seq<byte>, data: seq<TermData>, keyboard: seq<byte>, caps: bool, display: int,
                    t: int, page: seq<byte>, x: int, y: int, saveY: int)
    requires |mem| == MEMORY && |data| == NUM_TERMINALS && 0 <= t < NUM_TERMINALS && |page| == PAGE
    ensures var was := Logicals(mem, data, keyboard, caps, display);
      Logicals(Splice(mem, ScreenPage(display, t), page), data[t := data[t].(x := x, y := y, saveY := saveY)],
               keyboard, caps, display)
      == was[t := was[t].(page := page, x := x, y := y, saveY := saveY)]
  {
    hide Splice, ScreenPage;
    PageReplaced(mem, ScreenPage(display, t), page);
    forall u | 0 <= u < NUM_TERMINALS && u != t
      ensures
        || ScreenPage(display, t) + PAGE <= ScreenPage(display, u)
        || ScreenPage(display, u) + PAGE <= ScreenPage(display, t)
    {
      PagesApart(display, t, u);
    }
  }

  // The page of a scroll in progress: rows moved up, the first i characters of the last row blanked.
  function PartScrolled(page: seq<byte>, i: int): (r: seq<byte>)
    requires |page| == PAGE
    ensures |r| == PAGE
  {
    seq(PAGE, k requires 0 <= k < PAGE =>
      if k < 3840 then page[k + 160] else if k < 3840 + 2 * i && k % 2 == 0 then BLANK else page[k])
  }

  lemma RowsCopied(mem: seq<byte>, b: int)
    requires 0 <= b && b + PAGE <= |mem|
    ensures Copied(mem, b, b + 160, 3840) == Splice(mem, b, PartScrolled(PageAt(mem, b), 0))
  {
  }

  lemma BlankNext(mem: seq<byte>, b: int, page: seq<byte>, i: int)
    requires 0 <= b && b + PAGE <= |mem| && |page| == PAGE && 0 <= i < NUM_COLS
    ensures Splice(mem, b, PartScrolled(page, i))[b + 2 * (NUM_COLS * 24 + i) := BLANK]
      == Splice(mem, b, PartScrolled(page, i + 1))
  {
  }

  // ----- Display switching -----

  // Memory after the displayed page was saved to its backing page and the new terminal's page was brought in.
  function Switched(mem: seq<byte>, display: int, new_: int): (r: seq<byte>)
    requires |mem| == MEMORY && 0 <= display < NUM_TERMINALS && 0 <= new_ < NUM_TERMINALS
    ensures |r| == MEMORY
  {
    Copied(Copied(mem, Backing(display), VIDEO, PAGE), VIDEO, Backing(new_), PAGE)
  }

  lemma PageCopied(mem: seq<byte>, dst: nat, src: nat, b: nat)
    requires dst + PAGE <= |mem| && src + PAGE <= |mem| && b + PAGE <= |mem|
    ensures b == dst ==> PageAt(Copied(mem, dst, src, PAGE), b) == PageAt(mem, src)
    ensures b + PAGE <= dst || dst + PAGE <= b ==> PageAt(Copied(mem, dst, src, PAGE), b) == PageAt(mem, b)
  {
  }

  // Every terminal's screen survives a switch of the display.
  lemma SwitchKeepsPages(mem: seq<byte>, display: int, new_: int, t: int)
    requires |mem| == MEMORY && 0 <= display < NUM_TERMINALS && 0 <= new_ < NUM_TERMINALS && 0 <= t < NUM_TERMINALS
    ensures PageAt(Switched(mem, display, new_), ScreenPage(new_, t)) == PageAt(mem, ScreenPage(display, t))
  {
    hide Copied, PageAt;
    var m := Copied(mem, Backing(display), VIDEO, PAGE);
    PageCopied(mem, Backing(display), VIDEO, Backing(t));
    PageCopied(m, VIDEO, Backing(new_), ScreenPage(new_, t));
  }

  lemma SwitchKeepsScreens(mem: seq<byte>, data: seq<TermData>, keyboard: seq<byte>, caps: bool, display: int,
                           new_: int)
    requires |mem| == MEMORY && |data| == NUM_TERMINALS && 0 <= display < NUM_TERMINALS && 0 <= new_ < NUM_TERMINALS
    ensures var saved := data[display := data[display].(keyboard := keyboard, caps := caps)];
      Logicals(Switched(mem, display, new_), saved, saved[new_].keyboard, saved[new_].caps, new_)
      == Logicals(mem, data, keyboard, caps, display)
  {
    hide Switched;
    var saved := data[display := data[display].(keyboard := keyboard, caps := caps)];
    forall t | 0 <= t < NUM_TERMINALS
      ensures Logical(Switched(mem, display, new_), saved, saved[new_].keyboard, saved[new_].caps, new_, t)
           == Logical(mem, data, keyboard, caps, display, t)
    {
      SwitchKeepsPages(mem, display, new_, t);
    }
  }

  // The page of a clear in progress: the first i cells blanked.
  function PartCleared(page: seq<byte>, colour: byte, i: int): (r: seq<byte>)
    requires |page| == PAGE
    ensures |r| == PAGE
  {
    seq(PAGE, k requires 0 <= k < PAGE => if k < 2 * i then (if k % 2 == 0 then BLANK else colour) else page[k])
  }

  lemma ClearedNext(mem: seq<byte>, b: int, page: seq<byte>, colour: byte, i: int)
    requires 0 <= b && b + PAGE <= |mem| && |page| == PAGE && 0 <= i < NUM_ROWS * NUM_COLS
    ensures Splice(mem, b, PartCleared(page, colour, i))[b + 2 * i := BLANK][b + 2 * i + 1 := colour]
      == Splice(mem, b, PartCleared(page, colour, i + 1))
  {
  }

  lemma ClearedEnds(mem: seq<byte>, b: int, colour: byte)
    requires 0 <= b && b + PAGE <= |mem|
    ensures Splice(mem, b, PartCleared(PageAt(mem, b), colour, 0)) == mem
    ensures PartCleared(PageAt(mem, b), colour, NUM_ROWS * NUM_COLS) == ClearedPage(PageAt(mem, b), colour)
  {
  }

  // ----- What an event means to each terminal -----

  datatype Event =
    | Write(t: int, text: seq<byte>)  // terminal_write by a process of terminal t
    | Echo(c: byte)                   // a typed character echoed by putc
    | Enter                           // a typed newline is echoed and protects the rows above
    | Backspace
    | FreeRows                        // the deletion limit goes back to row 0, as Ctrl+L does last
    | ClearScreen
    | Type(i: nat, b: byte)           // a store into the live keyboard buffer
    | CapsKey
    | Show(t: int)                    // Alt+F1, Alt+F2, Alt+F3

  predicate ValidEvent(ev: Event) {
    && (ev.Write? ==> 0 <= ev.t < NUM_TERMINALS)
    && (ev.Show? ==> 0 <= ev.t < NUM_TERMINALS)
    && (ev.Type? ==> ev.i < 127)
  }

  // The operations an event performs on terminal t. A write by any terminal moves the deletion limit of the displayed
  // one, and of no other.
  function OpsFor(ev: Event, display: int, t: int): seq<Op> {
    match ev
    case Write(u, text) => (if t == u then Prints(Expand(text)) else []) + if t == display then [Protect] else []
    case Echo(c) => if t == display then [Print(c)] else []
    case Enter => if t == display then [Print(10), Protect] else []
    case Backspace => if t == display then [Erase] else []
    case FreeRows => if t == display then [Unprotect] else []
    case ClearScreen => if t == display then [Op.Wipe] else []
    case Type(i, b) => if t == display then [Key(i, b)] else []
    case CapsKey => if t == display then [CapsLock] else []
    case Show(_) => []
  }

  function DisplayAfter(evs: seq<Event>, display: int): int {
    if evs == [] then display
    else if evs[|evs| - 1].Show? then evs[|evs| - 1].t
    else DisplayAfter(evs[..|evs| - 1], display)
  }

  // All operations a run performs on terminal t.
  function Routed(evs: seq<Event>, display: int, t: int): seq<Op> {
    if evs == [] then []
    else
      var front := evs[..|evs| - 1];
      Routed(front, display, t) + OpsFor(evs[|evs| - 1], DisplayAfter(front, display), t)
  }

  // The terminals s went through the run evs.
  ghost predicate RanTo(was: seq<Terminal>, evs: seq<Event>, display: int, s: seq<Terminal>)
    requires |was| == NUM_TERMINALS && forall t :: 0 <= t < NUM_TERMINALS ==> Sound(was[t])
  {
    |s| == NUM_TERMINALS && forall t :: 0 <= t < NUM_TERMINALS ==>
      s[t] == ApplyAll(was[t], Colour(t), Routed(evs, display, t))
  }

  lemma OneEvent(ev: Event, display: int)
    ensures forall t :: Routed([ev], display, t) == OpsFor(ev, display, t)
    ensures DisplayAfter([ev], display) == if ev.Show? then ev.t else display
  {
    forall t
      ensures Routed([ev], display, t) == OpsFor(ev, display, t)
    {
      assert [ev][..0] == [];
      assert [] + OpsFor(ev, display, t) == OpsFor(ev, display, t);
    }
  }

  lemma RunStart(was: seq<Terminal>, display: int)
    requires |was| == NUM_TERMINALS && forall t :: 0 <= t < NUM_TERMINALS ==> Sound(was[t])
    ensures RanTo(was, [], display, was) && DisplayAfter([], display) == display
  {
  }

  lemma RunStep(was: seq<Terminal>, evs: seq<Event>, ev: Event, display: int, s: seq<Terminal>)
    requires |was| == NUM_TERMINALS && forall t :: 0 <= t < NUM_TERMINALS ==> Sound(was[t])
    requires RanTo(was, evs, display, s)
    ensures forall t :: 0 <= t < NUM_TERMINALS ==> Sound(s[t])
    ensures DisplayAfter(evs + [ev], display) == DisplayAfter([ev], DisplayAfter(evs, display))
    ensures forall r: seq<Terminal> :: RanTo(s, [ev], DisplayAfter(evs, display), r) ==>
      RanTo(was, evs + [ev], display, r)
  {
    hide ApplyAll, OpsFor;
    OneEvent(ev, DisplayAfter(evs, display));
    var all := evs + [ev];
    assert all[..|all| - 1] == evs;
    forall t | 0 <= t < NUM_TERMINALS
      ensures ApplyAll(was[t], Colour(t), Routed(all, display, t))
           == ApplyAll(s[t], Colour(t), OpsFor(ev, DisplayAfter(evs, display), t))
    {
      ApplyAllConcat(was[t], Colour(t), Routed(evs, display, t), OpsFor(ev, DisplayAfter(evs, display), t));
    }
  }

  // An operation list that wipes and from then on only prints leaves the last 25 wrapped rows of what it printed.
  lemma WipedThenPrinted(t: Terminal, colour: byte, routed: seq<Op>, k: nat)
    requires Sound(t) && k < |routed| && routed[k].Wipe? && OnlyPrints(routed[k + 1..])
    ensures Showing(ApplyAll(t, colour, routed), Wrap(Printed(routed[k + 1..])))
  {
    hide Showing, Wiped, Put;
    var front, rest := routed[..k + 1], routed[k + 1..];
    assert routed == front + rest && front[..|front| - 1] == routed[..k];
    ApplyAllConcat(t, colour, front, rest);
    ShowsPrintedText(ApplyAll(t, colour, routed[..k]), colour, rest);
  }

  lemma {:induction false} RoutedConcat(a: seq<Event>, b: seq<Event>, display: int, t: int)
    ensures DisplayAfter(a + b, display) == DisplayAfter(b, DisplayAfter(a, display))
    ensures Routed(a + b, display, t) == Routed(a, display, t) + Routed(b, DisplayAfter(a, display), t)
    decreases |b|
  {
    hide OpsFor;
    if b == [] {
      assert a + b == a;
    } else {
      assert (a + b)[..|a + b| - 1] == a + b[..|b| - 1];
      RoutedConcat(a, b[..|b| - 1], display, t);
    }
  }

  // The event erases a character or the whole screen of terminal t.
  predicate Reaches(ev: Event, display: int, t: int) {
    (ev.Backspace? || ev.ClearScreen?) && t == display
  }

  // What terminal t prints in a run, hidden or displayed.
  function TextOf(evs: seq<Event>, display: int, t: int): seq<byte> {
    if evs == [] then []
    else
      var front, ev := evs[..|evs| - 1], evs[|evs| - 1];
      TextOf(front, display, t)
      + if ev.Write? && ev.t == t then Expand(ev.text)
        else if DisplayAfter(front, display) == t then Typing(ev) else []
  }

  // The character a key press echoes.
  function Typing(ev: Event): seq<byte> {
    if ev.Echo? then [ev.c] else if ev.Enter? then [10] else []
  }

  lemma {:induction false} PrintedConcat(a: seq<Op>, b: seq<Op>)
    ensures Printed(a + b) == Printed(a) + Printed(b)
    decreases |b|
  {
    if b == [] {
      assert a + b == a;
    } else {
      assert (a + b)[..|a + b| - 1] == a + b[..|b| - 1];
      PrintedConcat(a, b[..|b| - 1]);
    }
  }

  lemma {:induction false} PrintedPrints(text: seq<byte>)
    ensures Printed(Prints(text)) == text && OnlyPrints(Prints(text))
  {
    if text != [] {
      assert Prints(text)[..|text| - 1] == Prints(text[..|text| - 1]);
      PrintedPrints(text[..|text| - 1]);
    }
  }

  lemma OpsForText(ev: Event, display: int, t: int)
    requires !Reaches(ev, display, t)
    ensures OnlyPrints(OpsFor(ev, display, t))
    ensures Printed(OpsFor(ev, display, t)) ==
      if ev.Write? && ev.t == t then Expand(ev.text) else if display == t then Typing(ev) else []
  {
    hide Expand, Printed, Prints;
    var none: seq<Op> := [];
    PrintedNone();
    PrintedOne();
    if ev.Write? {
      PrintedPrints(Expand(ev.text));
      PrintedConcat(Prints(Expand(ev.text)), [Protect]);
      assert Prints(Expand(ev.text)) + none == Prints(Expand(ev.text)) && none + [Protect] == [Protect];
    }
    if ev.Enter? {
      PrintedConcat([Print(10)], [Protect]);
      assert [Print(10)] + [Protect] == [Print(10), Protect];
    }
  }

  lemma PrintedNone()
    ensures Printed([]) == []
  {
  }

  lemma PrintedOne()
    ensures forall op :: Printed([op]) == if op.Print? then [op.c] else []
  {
    forall op
      ensures Printed([op]) == if op.Print? then [op.c] else []
    {
      assert [op][..0] == [];
    }
  }

  lemma {:induction false} RoutedText(evs: seq<Event>, display: int, t: int)
    requires forall k :: 0 <= k < |evs| ==> !Reaches(evs[k], DisplayAfter(evs[..k], display), t)
    ensures OnlyPrints(Routed(evs, display, t)) && Printed(Routed(evs, display, t)) == TextOf(evs, display, t)
    decreases |evs|
  {
    hide OpsFor, Expand, Reaches;
    if evs != [] {
      var front, ev := evs[..|evs| - 1], evs[|evs| - 1];
      assert forall k :: 0 <= k < |front| ==> front[..k] == evs[..k];
      RoutedText(front, display, t);
      OpsForText(ev, DisplayAfter(front, display), t);
      PrintedConcat(Routed(front, display, t), OpsFor(ev, DisplayAfter(front, display), t));
    }
  }

  // Event k of a run clears the screen of terminal t.
  predicate Cleared(evs: seq<Event>, display: int, t: int, k: nat) {
    k < |evs| && evs[k].ClearScreen? && DisplayAfter(evs[..k], display) == t
  }

  // Nothing later clears it or erases on it.
  ghost predicate LastCleared(evs: seq<Event>, display: int, t: int, k: nat) {
    && Cleared(evs, display, t, k)
    && forall m :: k < m < |evs| ==> !Reaches(evs[m], DisplayAfter(evs[..m], display), t)
  }

  // In any run, a terminal shows the last 25 wrapped rows of all it printed since its screen was last cleared, whatever
  // the other terminals did and however often the display was switched.
  lemma InterleavedText(s: Terminal, evs: seq<Event>, display: int, t: int, k: nat)
    requires Sound(s) && 0 <= t < NUM_TERMINALS && LastCleared(evs, display, t, k)
    ensures Showing(ApplyAll(s, Colour(t), Routed(evs, display, t)), Wrap(TextOf(evs[k + 1..], t, t)))
  {
    hide Showing, OpsFor, ApplyAll, Routed, DisplayAfter, TextOf, Reaches;
    var front, rest := evs[..k], evs[k + 1..];
    var first := Routed(front, display, t);
    assert evs == (front + [evs[k]]) + rest;
    RoutedConcat(front, [evs[k]], display, t);
    OneEvent(evs[k], DisplayAfter(front, display));
    RoutedConcat(front + [evs[k]], rest, display, t);
    forall m | 0 <= m < |rest|
      ensures !Reaches(rest[m], DisplayAfter(rest[..m], t), t)
    {
      assert evs[..k + 1 + m] == (front + [evs[k]]) + rest[..m];
      RoutedConcat(front + [evs[k]], rest[..m], display, t);
    }
    RoutedText(rest, t, t);
    ClearIsWipe(evs[k], t);
    var routed := Routed(evs, display, t);
    assert routed == first + [Op.Wipe] + Routed(rest, t, t);
    assert routed[|first|] == Op.Wipe && routed[|first| + 1..] == Routed(rest, t, t);
    WipedThenPrinted(s, Colour(t), routed, |first|);
  }

  lemma ClearIsWipe(ev: Event, display: int)
    requires ev.ClearScreen?
    ensures OpsFor(ev, display, display) == [Op.Wipe]
  {
  }

  // The terminal as event k cleared it.
  function ClearedAt(s: Terminal, evs: seq<Event>, display: int, t: int, k: nat): (r: Terminal)
    requires Sound(s) && 0 <= t < NUM_TERMINALS && k < |evs|
    ensures Sound(r)
  {
    Wiped(ApplyAll(s, Colour(t), Routed(evs[..k], display, t)), Colour(t))
  }

  // In any run, with backspaces and further clears too, a terminal that was cleared goes from the cleared screen
  // through the operations that reached it since, and shows what they have printed and not erased, all along, if and
  // only if every backspace found its character where it could be followed.
  lemma TypedText(s: Terminal, evs: seq<Event>, display: int, t: int, k: nat)
    requires Sound(s) && 0 <= t < NUM_TERMINALS && Cleared(evs, display, t, k)
    ensures var u, since := ClearedAt(s, evs, display, t, k), Routed(evs[k + 1..], t, t);
      && ApplyAll(s, Colour(t), Routed(evs, display, t)) == ApplyAll(u, Colour(t), since)
      && (LooksTyped(u, Colour(t), since) <==> ErasesPlaced(u, Colour(t), since))
  {
    hide OpsFor, Routed, DisplayAfter, LooksTyped, ErasesPlaced, Wiped;
    var front, rest := evs[..k], evs[k + 1..];
    assert evs == (front + [evs[k]]) + rest;
    RoutedConcat(front, [evs[k]], display, t);
    OneEvent(evs[k], t);
    RoutedConcat(front + [evs[k]], rest, display, t);
    ClearIsWipe(evs[k], t);
    var first, since := Routed(front, display, t), Routed(rest, t, t);
    ApplyAllConcat(s, Colour(t), first + [Op.Wipe], since);
    assert (first + [Op.Wipe])[..|first|] == first;
    TypedShowsIff(ApplyAll(s, Colour(t), first), Colour(t), since);
  }

  // So the text typed since is on the screen after a run whose backspaces could all be followed.
  lemma TypedTextShown(s: Terminal, evs: seq<Event>, display: int, t: int, k: nat)
    requires Sound(s) && 0 <= t < NUM_TERMINALS && Cleared(evs, display, t, k)
    ensures var u, since := ClearedAt(s, evs, display, t, k), Routed(evs[k + 1..], t, t);
      ErasesPlaced(u, Colour(t), since) ==>
        Showing(ApplyAll(s, Colour(t), Routed(evs, display, t)), Wrap(Typed(u, Colour(t), since)))
  {
    hide Showing, Routed, Typed, ErasesPlaced, ClearedAt, ApplyAll;
    var since := Routed(evs[k + 1..], t, t);
    TypedText(s, evs, display, t, k);
    assert since[..|since|] == since;
  }

  // ----- Terminals of their own -----

  // What an event does to a terminal t that has a machine to itself: each of its own writes protects the row it ends
  // on, and other terminals' writes do nothing to it.
  function OwnOps(ev: Event, display: int, t: int): seq<Op> {
    if ev.Write? then (if ev.t == t then Prints(Expand(ev.text)) + [Protect] else []) else OpsFor(ev, display, t)
  }

  function OwnRouted(evs: seq<Event>, display: int, t: int): seq<Op> {
    if evs == [] then []
    else
      var front := evs[..|evs| - 1];
      OwnRouted(front, display, t) + OwnOps(evs[|evs| - 1], DisplayAfter(front, display), t)
  }

  // Terminal t after a run, on this machine and on one of its own.
  function Shared(s: Terminal, evs: seq<Event>, display: int, t: int): (r: Terminal)
    requires Sound(s) && 0 <= t < NUM_TERMINALS
    ensures Sound(r)
  {
    ApplyAll(s, Colour(t), Routed(evs, display, t))
  }

  function Private(s: Terminal, evs: seq<Event>, display: int, t: int): (r: Terminal)
    requires Sound(s) && 0 <= t < NUM_TERMINALS
    ensures Sound(r)
  {
    ApplyAll(s, Colour(t), OwnRouted(evs, display, t))
  }

  // Page, cursor, keyboard buffer and caps flag are the same; the limit of deletion may not be.
  ghost predicate SameButLimit(a: Terminal, b: Terminal) {
    a.(saveY := b.saveY) == b
  }

  // The two limits are on the same side of a cursor at the left margin.
  predicate LimitsAgree(a: Terminal, b: Terminal) {
    a.x > 0 || (a.y > a.saveY <==> b.y > b.saveY)
  }

  predicate Erases(ev: Event, display: int, t: int) {
    ev.Backspace? && t == display
  }

  // Other terminals do interfere: with the cursor at the start of its second row, unprotected, the displayed terminal
  // would go back to the end of its first row, but a background write that prints nothing keeps it from doing so.
  lemma WriteInterferes(s: Terminal)
    requires Sound(s) && s.x == 0 && s.y == 1 && s.saveY == 0
    ensures var evs := [Write(1, []), Backspace]; var a, b := Shared(s, evs, 0, 0), Private(s, evs, 0, 0);
      a.x == 0 && a.y == 1 && b.x == NUM_COLS - 1 && b.y == 0
  {
    hide Put, Routed, OwnRouted, ApplyAll;
    InterferingOps();
    ApplyAllConcat(s, Colour(0), [Protect], [Erase]);
    OnlyOp(s, Colour(0));
    OnlyOp(s.(saveY := s.y), Colour(0));
    assert [Protect] + [Erase] == [Protect, Erase];
  }

  lemma InterferingOps()
    ensures Routed([Write(1, []), Backspace], 0, 0) == [Protect, Erase]
    ensures OwnRouted([Write(1, []), Backspace], 0, 0) == [Erase]
  {
    var evs := [Write(1, []), Backspace];
    assert evs[..1] == [Write(1, [])] && evs[..1][..0] == [];
    assert Routed(evs[..1], 0, 0) == [] + [Protect];
    assert OwnRouted(evs[..1], 0, 0) == [] + [];
  }

  lemma DeleteAgrees(a: Terminal, b: Terminal)
    requires Sound(a) && Sound(b) && SameButLimit(a, b)
    ensures SameButLimit(Delete(a), Delete(b)) <==> LimitsAgree(a, b)
  {
  }

  lemma PutAgrees(a: Terminal, b: Terminal, colour: byte, c: byte)
    requires Sound(a) && Sound(b) && SameButLimit(a, b)
    ensures SameButLimit(Put(a, colour, c), Put(b, colour, c))
  {
  }

  lemma {:induction false} PrintsAgree(a: Terminal, b: Terminal, colour: byte, text: seq<byte>)
    requires Sound(a) && Sound(b) && SameButLimit(a, b)
    ensures SameButLimit(ApplyAll(a, colour, Prints(text)), ApplyAll(b, colour, Prints(text)))
    ensures ApplyAll(a, colour, Prints(text)).saveY == a.saveY
  {
    hide Put, SameButLimit;
    if text != [] {
      assert Prints(text)[..|text| - 1] == Prints(text[..|text| - 1]);
      PrintsAgree(a, b, colour, text[..|text| - 1]);
      PutAgrees(ApplyAll(a, colour, Prints(text[..|text| - 1])), ApplyAll(b, colour, Prints(text[..|text| - 1])),
                colour, text[|text| - 1]);
      PutKeepsLimit(ApplyAll(a, colour, Prints(text[..|text| - 1])), colour, text[|text| - 1]);
    }
  }

  lemma PutKeepsLimit(a: Terminal, colour: byte, c: byte)
    requires Sound(a)
    ensures Put(a, colour, c).saveY == a.saveY
  {
  }

  // One event keeps the two terminals alike but for the limit, unless it erases with the limits in disagreement.
  lemma EventAgrees(a: Terminal, b: Terminal, ev: Event, display: int, t: int)
    requires Sound(a) && Sound(b) && SameButLimit(a, b) && 0 <= t < NUM_TERMINALS
    ensures SameButLimit(ApplyAll(a, Colour(t), OpsFor(ev, display, t)), ApplyAll(b, Colour(t), OwnOps(ev, display, t)))
      <==> !Erases(ev, display, t) || LimitsAgree(a, b)
  {
    hide Put, Delete, Wiped, Expand, Prints;
    if ev.Write? {
      var text := Prints(Expand(ev.text));
      PrintsAgree(a, b, Colour(t), Expand(ev.text));
      ThenProtect(a, Colour(t), text);
      ThenProtect(b, Colour(t), text);
      ThenProtect(a, Colour(t), []);
    } else {
      OnlyOp(a, Colour(t));
      OnlyOp(b, Colour(t));
      ThenProtect(a, Colour(t), [Print(10)]);
      ThenProtect(b, Colour(t), [Print(10)]);
      assert [Print(10)] + [Protect] == [Print(10), Protect];
      if ev.Backspace? {
        DeleteAgrees(a, b);
      } else if ev.Echo? {
        PutAgrees(a, b, Colour(t), ev.c);
      } else if ev.Enter? {
        PutAgrees(a, b, Colour(t), 10);
      } else if ev.ClearScreen? {
        WipeAgrees(a, b, Colour(t));
      }
    }
  }

  lemma WipeAgrees(a: Terminal, b: Terminal, colour: byte)
    requires Sound(a) && Sound(b) && SameButLimit(a, b)
    ensures SameButLimit(Wiped(a, colour), Wiped(b, colour))
  {
  }

  lemma OnlyOp(a: Terminal, colour: byte)
    requires Sound(a)
    ensures ApplyAll(a, colour, []) == a && forall op :: ApplyAll(a, colour, [op]) == Apply(a, colour, op)
  {
    hide Apply;
    forall op
      ensures ApplyAll(a, colour, [op]) == Apply(a, colour, op)
    {
      assert [op][..0] == [];
    }
  }

  lemma ThenProtect(a: Terminal, colour: byte, ops: seq<Op>)
    requires Sound(a)
    ensures var r := ApplyAll(a, colour, ops); ApplyAll(a, colour, ops + [Protect]) == r.(saveY := r.y)
    ensures ops + [] == ops
  {
    assert (ops + [Protect])[..|ops|] == ops;
  }

  lemma RunNext(s: Terminal, evs: seq<Event>, display: int, t: int, k: nat)
    requires Sound(s) && 0 <= t < NUM_TERMINALS && k < |evs|
    ensures var d := DisplayAfter(evs[..k], display);
      && Shared(s, evs[..k + 1], display, t)
         == ApplyAll(Shared(s, evs[..k], display, t), Colour(t), OpsFor(evs[k], d, t))
      && Private(s, evs[..k + 1], display, t)
         == ApplyAll(Private(s, evs[..k], display, t), Colour(t), OwnOps(evs[k], d, t))
  {
    hide OpsFor, OwnOps, ApplyAll;
    var d := DisplayAfter(evs[..k], display);
    assert evs[..k + 1][..k] == evs[..k];
    ApplyAllConcat(s, Colour(t), Routed(evs[..k], display, t), OpsFor(evs[k], d, t));
    ApplyAllConcat(s, Colour(t), OwnRouted(evs[..k], display, t), OwnOps(evs[k], d, t));
  }

  // Up to every point of the run the terminal looks as on a machine of its own.
  ghost predicate LooksPrivate(s: Terminal, evs: seq<Event>, display: int, t: int)
    requires Sound(s) && 0 <= t < NUM_TERMINALS
  {
    forall k :: 0 <= k <= |evs| ==> SameButLimit(Shared(s, evs[..k], display, t), Private(s, evs[..k], display, t))
  }

  // Every backspace that reaches the terminal finds the two limits in agreement.
  ghost predicate ErasesAgree(s: Terminal, evs: seq<Event>, display: int, t: int)
    requires Sound(s) && 0 <= t < NUM_TERMINALS
  {
    forall k :: 0 <= k < |evs| && Erases(evs[k], DisplayAfter(evs[..k], display), t) ==>
      LimitsAgree(Shared(s, evs[..k], display, t), Private(s, evs[..k], display, t))
  }

  // All through a run a terminal looks exactly as on a machine of its own if and only if no backspace at its left
  // margin meets a limit that another terminal's write has moved, or that its own write has not.
  lemma PrivateIff(s: Terminal, evs: seq<Event>, display: int, t: int)
    requires Sound(s) && 0 <= t < NUM_TERMINALS
    ensures LooksPrivate(s, evs, display, t) <==> ErasesAgree(s, evs, display, t)
  {
    hide Shared, Private, SameButLimit, LimitsAgree, Erases;
    if ErasesAgree(s, evs, display, t) {
      forall k | 0 <= k <= |evs|
        ensures SameButLimit(Shared(s, evs[..k], display, t), Private(s, evs[..k], display, t))
      {
        AgreeUpTo(s, evs, display, t, k);
      }
    }
    if LooksPrivate(s, evs, display, t) {
      forall k | 0 <= k < |evs| && Erases(evs[k], DisplayAfter(evs[..k], display), t)
        ensures LimitsAgree(Shared(s, evs[..k], display, t), Private(s, evs[..k], display, t))
      {
        RunNext(s, evs, display, t, k);
        EventAgrees(Shared(s, evs[..k], display, t), Private(s, evs[..k], display, t), evs[k],
                    DisplayAfter(evs[..k], display), t);
      }
    }
  }

  lemma {:induction false} AgreeUpTo(s: Terminal, evs: seq<Event>, display: int, t: int, k: nat)
    requires Sound(s) && 0 <= t < NUM_TERMINALS && k <= |evs| && ErasesAgree(s, evs, display, t)
    ensures SameButLimit(Shared(s, evs[..k], display, t), Private(s, evs[..k], display, t))
  {
    hide SameButLimit, LimitsAgree, Erases;
    if k == 0 {
      SameLimit(s);
    } else {
      hide Shared, Private;
      AgreeUpTo(s, evs, display, t, k - 1);
      RunNext(s, evs, display, t, k - 1);
      EventAgrees(Shared(s, evs[..k - 1], display, t), Private(s, evs[..k - 1], display, t), evs[k - 1],
                  DisplayAfter(evs[..k - 1], display), t);
    }
  }

  lemma SameLimit(s: Terminal)
    ensures SameButLimit(s, s)
  {
  }

  // No backspace reaches the terminal in the run.
  ghost predicate NeverErases(evs: seq<Event>, display: int, t: int) {
    forall k :: 0 <= k < |evs| ==> !Erases(evs[k], DisplayAfter(evs[..k], display), t)
  }

  // So without backspaces a terminal always looks private.
  lemma PrivateWithoutErasing(s: Terminal, evs: seq<Event>, display: int, t: int)
    requires Sound(s) && 0 <= t < NUM_TERMINALS && NeverErases(evs, display, t)
    ensures SameButLimit(Shared(s, evs, display, t), Private(s, evs, display, t))
  {
    hide Shared, Private, SameButLimit, LimitsAgree;
    PrivateIff(s, evs, display, t);
    assert evs[..|evs|] == evs;
  }

  // Only the displayed terminal's processes write.
  ghost predicate WritersShown(evs: seq<Event>, display: int) {
    forall k :: 0 <= k < |evs| && evs[k].Write? ==> evs[k].t == DisplayAfter(evs[..k], display)
  }

  // Then every terminal is private altogether, its limit included.
  lemma {:induction false} PrivateWhenShown(evs: seq<Event>, display: int, t: int)
    requires WritersShown(evs, display)
    ensures Routed(evs, display, t) == OwnRouted(evs, display, t)
    decreases |evs|
  {
    hide Expand, Prints;
    if evs != [] {
      var front, ev := evs[..|evs| - 1], evs[|evs| - 1];
      assert forall k :: 0 <= k < |front| ==> front[..k] == evs[..k];
      PrivateWhenShown(front, display, t);
      if ev.Write? {
        var none: seq<Op> := [];
        assert none + none == none;
      }
    }
  }

  // One write leaves all three terminals private, limits included, exactly when the writer is displayed, or the
  // displayed terminal's limit is already at its row and the writer's at the row it ends on.
  lemma WritePrivateIff(s: seq<Terminal>, u: int, text: seq<byte>, display: int)
    requires |s| == NUM_TERMINALS && 0 <= u < NUM_TERMINALS && 0 <= display < NUM_TERMINALS
    requires forall t :: 0 <= t < NUM_TERMINALS ==> Sound(s[t])
    ensures (forall t :: 0 <= t < NUM_TERMINALS ==>
               ApplyAll(s[t], Colour(t), OpsFor(Write(u, text), display, t))
               == ApplyAll(s[t], Colour(t), OwnOps(Write(u, text), display, t)))
      <==>
        || u == display
        || (s[display].saveY == s[display].y
            && s[u].saveY == ApplyAll(s[u], Colour(u), Prints(Expand(text))).y)
  {
    hide Put, Expand, Prints, ApplyAll;
    var ops := Prints(Expand(text));
    forall t | 0 <= t < NUM_TERMINALS
      ensures ApplyAll(s[t], Colour(t), []) == s[t]
      ensures var r := ApplyAll(s[t], Colour(t), ops);
        ApplyAll(s[t], Colour(t), ops + [Protect]) == r.(saveY := r.y) && r.saveY == s[t].saveY
      ensures ApplyAll(s[t], Colour(t), [] + [Protect]) == s[t].(saveY := s[t].y)
    {
      OnlyOp(s[t], Colour(t));
      SameLimit(s[t]);
      PrintsAgree(s[t], s[t], Colour(t), Expand(text));
      ThenProtect(s[t], Colour(t), ops);
      ThenProtect(s[t], Colour(t), []);
    }
    assert ops + [] == ops;
    var none: seq<Op> := [];
    assert none + none == none;
    if u != display {
      assert OpsFor(Write(u, text), display, u) == ops && OwnOps(Write(u, text), display, u) == ops + [Protect];
      assert OpsFor(Write(u, text), display, display) == [] + [Protect];
      assert OwnOps(Write(u, text), display, display) == [];
    }
  }

  lemma RunMeans(was: seq<Terminal>, evs: seq<Event>, display: int, s: seq<Terminal>)
    requires |was| == NUM_TERMINALS && forall t :: 0 <= t < NUM_TERMINALS ==> Sound(was[t])
    requires RanTo(was, evs, display, s)
    ensures forall t, k: nat :: 0 <= t < NUM_TERMINALS && LastCleared(evs, display, t, k) ==>
      Showing(s[t], Wrap(TextOf(evs[k + 1..], t, t)))
    ensures forall t, k: nat :: 0 <= t < NUM_TERMINALS && Cleared(evs, display, t, k) ==>
      var u, since := ClearedAt(was[t], evs, display, t, k), Routed(evs[k + 1..], t, t);
      ErasesPlaced(u, Colour(t), since) ==> Showing(s[t], Wrap(Typed(u, Colour(t), since)))
    ensures forall t :: 0 <= t < NUM_TERMINALS && NeverErases(evs, display, t) ==>
      SameButLimit(s[t], Private(was[t], evs, display, t))
    ensures WritersShown(evs, display) ==>
      forall t :: 0 <= t < NUM_TERMINALS ==> s[t] == Private(was[t], evs, display, t)
  {
    hide Showing, NeverErases, SameButLimit, WritersShown, TextOf, ClearedAt, ErasesPlaced, Typed;
    forall t, k: nat | 0 <= t < NUM_TERMINALS && Cleared(evs, display, t, k)
      ensures var u, since := ClearedAt(was[t], evs, display, t, k), Routed(evs[k + 1..], t, t);
        ErasesPlaced(u, Colour(t), since) ==> Showing(s[t], Wrap(Typed(u, Colour(t), since)))
    {
      TypedTextShown(was[t], evs, display, t, k);
    }
    forall t, k: nat | 0 <= t < NUM_TERMINALS && LastCleared(evs, display, t, k)
      ensures Showing(s[t], Wrap(TextOf(evs[k + 1..], t, t)))
    {
      InterleavedText(was[t], evs, display, t, k);
    }
    forall t | 0 <= t < NUM_TERMINALS && NeverErases(evs, display, t)
      ensures SameButLimit(s[t], Private(was[t], evs, display, t))
    {
      PrivateWithoutErasing(was[t], evs, display, t);
    }
    if WritersShown(evs, display) {
      forall t | 0 <= t < NUM_TERMINALS
        ensures s[t] == Private(was[t], evs, display, t)
      {
        PrivateWhenShown(evs, display, t);
      }
    }
  }

  lemma EnterMeans(s: Terminal, colour: byte)
    requires Sound(s)
    ensures var u := Put(s, colour, 10);
      ApplyAll(s, colour, [Print(10), Protect]) == u.(saveY := u.y)
  {
    hide Put;
    OnlyOp(s, colour);
    ThenProtect(s, colour, [Print(10)]);
    assert [Print(10)] + [Protect] == [Print(10), Protect];
  }

  // The three terminals after terminal execute printed some characters.
  function Written(s: seq<Terminal>, execute: int, chars: seq<byte>): (r: seq<Terminal>)
    requires |s| == NUM_TERMINALS && 0 <= execute < NUM_TERMINALS && Sound(s[execute])
    ensures |r| == NUM_TERMINALS && Sound(r[execute])
  {
    s[execute := ApplyAll(s[execute], Colour(execute), Prints(chars))]
  }

  lemma WrittenNone(s: seq<Terminal>, execute: int)
    requires |s| == NUM_TERMINALS && 0 <= execute < NUM_TERMINALS && Sound(s[execute])
    ensures Written(s, execute, []) == s && Expand([]) == []
  {
  }

  lemma WrittenOne(s: seq<Terminal>, execute: int, chars: seq<byte>, c: byte)
    requires |s| == NUM_TERMINALS && 0 <= execute < NUM_TERMINALS && Sound(s[execute])
    ensures var w := Written(s, execute, chars);
      Written(s, execute, chars + [c]) == w[execute := Put(w[execute], Colour(execute), c)]
  {
    hide Put;
    var ops := Prints(chars + [c]);
    assert ops[..|ops| - 1] == Prints(chars);
  }

  lemma WrittenTab(s: seq<Terminal>, execute: int, chars: seq<byte>)
    requires |s| == NUM_TERMINALS && 0 <= execute < NUM_TERMINALS && Sound(s[execute])
    ensures Steps4(Written(s, execute, chars), execute, Written(s, execute, chars + [BLANK, BLANK, BLANK, BLANK]))
  {
    hide Put, Written;
    WrittenOne(s, execute, chars, BLANK);
    WrittenOne(s, execute, chars + [BLANK], BLANK);
    WrittenOne(s, execute, chars + [BLANK] + [BLANK], BLANK);
    WrittenOne(s, execute, chars + [BLANK] + [BLANK] + [BLANK], BLANK);
    assert chars + [BLANK] + [BLANK] + [BLANK] + [BLANK] == chars + [BLANK, BLANK, BLANK, BLANK];
  }

  // r is s after four blanks were printed on terminal execute.
  ghost predicate Steps4(s: seq<Terminal>, execute: int, r: seq<Terminal>)
    requires |s| == NUM_TERMINALS && 0 <= execute < NUM_TERMINALS && Sound(s[execute])
  {
    var colour := Colour(execute);
    var a := Put(s[execute], colour, BLANK);
    Sound(a) && var b := Put(a, colour, BLANK);
    Sound(b) && var c := Put(b, colour, BLANK);
    Sound(c) && r == s[execute := Put(c, colour, BLANK)]
  }

  lemma ExpandNext(text: seq<byte>, i: nat)
    requires i < |text|
    ensures Expand(text[..i + 1]) == Expand(text[..i])
      + if text[i] == 0 then [] else if text[i] == 9 then [BLANK, BLANK, BLANK, BLANK] else [text[i]]
  {
    assert text[..i + 1][..i] == text[..i];
  }

  // A whole terminal_write, terminal by terminal.
  lemma WriteMeans(s: seq<Terminal>, execute: int, text: seq<byte>, display: int, t: int)
    requires |s| == NUM_TERMINALS && 0 <= execute < NUM_TERMINALS && 0 <= display < NUM_TERMINALS
    requires 0 <= t < NUM_TERMINALS && forall u :: 0 <= u < NUM_TERMINALS ==> Sound(s[u])
    ensures var w := Written(s, execute, Expand(text));
      w[display := w[display].(saveY := w[display].y)][t]
      == ApplyAll(s[t], Colour(t), OpsFor(Write(execute, text), display, t))
  {
    hide Put, Expand;
    var prints := if t == execute then Prints(Expand(text)) else [];
    var u := ApplyAll(s[t], Colour(t), prints);
    if t == display {
      assert (prints + [Protect])[..|prints + [Protect]| - 1] == prints;
      assert ApplyAll(s[t], Colour(t), prints + [Protect]) == u.(saveY := u.y);
    } else {
      assert prints + [] == prints;
    }
  }

  lemma SpliceSame(mem: seq<byte>, b: int)
    requires 0 <= b && b + PAGE <= |mem|
    ensures Splice(mem, b, PageAt(mem, b)) == mem
  {
  }

  lemma CellsWritten(mem: seq<byte>, b: int, k: int, c: byte, a: byte)
    requires 0 <= b && b + PAGE <= |mem| && 0 <= k && k + 1 < PAGE
    ensures mem[b + k := c][b + k + 1 := a] == Splice(mem, b, PageAt(mem, b)[k := c][k + 1 := a])
  {
    CellWritten(mem, b, k, c);
    CellWritten(mem[b + k := c], b, k + 1, a);
    SpliceTwice(mem, b, PageAt(mem, b)[k := c], PageAt(mem, b)[k := c][k + 1 := a]);
    PageReplaced(mem, b, PageAt(mem, b)[k := c]);
  }

  lemma AllBlanked(page: seq<byte>)
    requires |page| == PAGE
    ensures PartScrolled(page, NUM_COLS) == ScrolledPage(page)
  {
  }

  lemma CursorInside(x: int, y: int)
    requires 0 <= x < NUM_COLS && 0 <= y < NUM_ROWS
    ensures x % NUM_COLS == x && (y + x / NUM_COLS) % NUM_ROWS == y
  {
  }

  class Console {
    const mem: array<byte>
    const data: array<TermData>
    const keyboard: array<byte>
    var caps: bool
    var display: int

    ghost predicate Valid()
      reads this, data
    {
      && mem.Length == MEMORY && data.Length == NUM_TERMINALS && keyboard.Length == 127 && mem != keyboard
      && 0 <= display < NUM_TERMINALS
      && forall t :: 0 <= t < NUM_TERMINALS ==> SoundData(data[t])
    }

    // The three terminals as their users see them.
    ghost function Screens(): (s: seq<Terminal>)
      requires Valid()
      reads this, mem, data, keyboard
      ensures |s| == NUM_TERMINALS && forall t :: 0 <= t < NUM_TERMINALS ==> Sound(s[t])
    {
      Logicals(mem[..], data[..], keyboard[..], caps, display)
    }

    // scroll_down for the terminal whose screen is at vidmem. (The global video_mem it also sets is never read
    // before it is set again.)
    method ScrollDown(flag: bool, execute: int, vidmem: int)
      requires mem.Length == MEMORY && data.Length == NUM_TERMINALS && mem != keyboard
      requires 0 <= display < NUM_TERMINALS && (!flag ==> 0 <= execute < NUM_TERMINALS)
      requires 0 <= vidmem && vidmem + PAGE <= MEMORY
      modifies mem, data
      ensures mem[..] == Splice(old(mem[..]), vidmem, ScrolledPage(PageAt(old(mem[..]), vidmem)))
      ensures var t := if flag then display else execute;
        data[..] == old(data[..])[t := old(data[t]).(x := 0, y := NUM_ROWS - 1)]
    {
      hide Splice, Copied, PartScrolled;
      ghost var was, page := mem[..], PageAt(mem[..], vidmem);
      Memcpy(mem, vidmem, vidmem + 160, NUM_COLS * 24 * 2);
      RowsCopied(was, vidmem);
      var t := if flag then display else execute;
      data[t] := data[t].(x := 0, y := NUM_ROWS - 1);
      for i := 0 to NUM_COLS
        invariant mem[..] == Splice(was, vidmem, PartScrolled(page, i))
        invariant data[..] == old(data[..])[t := old(data[t]).(x := 0, y := NUM_ROWS - 1)]
      {
        BlankNext(was, vidmem, page, i);
        mem[vidmem + 2 * (NUM_COLS * 24 + i)] := BLANK;
      }
      AllBlanked(page);
    }

    // The common body of putc and terminal_putc: print on terminal t, whose screen is at vidmem.
    method PutOn(t: int, flag: bool, execute: int, vidmem: int, c: byte)
      requires Valid() && 0 <= t < NUM_TERMINALS && vidmem == ScreenPage(display, t)
      requires if flag then t == display else t == execute
      modifies mem, data
      ensures Valid()
      ensures Screens() == old(Screens())[t := Put(old(Screens())[t], Colour(t), c)]
      ensures PutsAt(old(Screens())[t], [0x17, 0x4E, 0x9F][t], c, Screens()[t])
    {
      hide Splice, ScreenPage, Unscrolled, ScrolledPage, PageAt, PutsAt;
      ghost var m, ds, s := mem[..], data[..], Screens()[t];
      ghost var u := Unscrolled(s, Colour(t), c);
      LogicalIs(m, ds, keyboard[..], caps, display, t);
      Advance(t, vidmem, c, s);
      CursorStays(s, Colour(t), c);
      if data[t].y == NUM_ROWS {
        PageReplaced(m, vidmem, u.page);
        SpliceTwice(m, vidmem, u.page, ScrolledPage(u.page));
        ScrollDown(flag, execute, vidmem);
      }
      ghost var r := Put(s, Colour(t), c);
      PutPrints(s, Colour(t), c);
      assert data[..] == ds[t := ds[t].(x := r.x, y := r.y, saveY := ds[t].saveY)];
      OneTerminal(m, ds, keyboard[..], caps, display, t, r.page, r.x, r.y, ds[t].saveY);
    }

    // The two stores to a cell.
    method StoreCell(t: int, vidmem: int, x: int, y: int, c: byte)
      requires mem.Length == MEMORY && 0 <= t < NUM_TERMINALS && 0 <= vidmem && vidmem + PAGE <= MEMORY
      requires 0 <= x < NUM_COLS && 0 <= y < NUM_ROWS
      modifies mem
      ensures var page := PageAt(old(mem[..]), vidmem);
        mem[..] == Splice(old(mem[..]), vidmem, page[Cell(y, x) := c][Cell(y, x) + 1 := Colour(t)])
    {
      hide Splice, PageAt;
      CellsWritten(mem[..], vidmem, Cell(y, x), c, Colour(t));
      mem[vidmem + 2 * (NUM_COLS * y + x)] := c;
      mem[vidmem + 2 * (NUM_COLS * y + x) + 1] := Colour(t);
    }

    // Store the character and its colour and move the cursor, up to the test for the end of the screen.
    method Advance(t: int, vidmem: int, c: byte, ghost s: Terminal)
      requires mem.Length == MEMORY && data.Length == NUM_TERMINALS && 0 <= t < NUM_TERMINALS
      requires 0 <= vidmem && vidmem + PAGE <= MEMORY && Sound(s)
      requires s.page == PageAt(mem[..], vidmem) && s.x == data[t].x && s.y == data[t].y
      modifies mem, data
      ensures var u := Unscrolled(s, Colour(t), c);
        && mem[..] == Splice(old(mem[..]), vidmem, u.page)
        && data[..] == old(data[..])[t := old(data[t]).(x := u.x, y := u.y)]
    {
      hide Splice, PageAt, Colour;
      var d := data[t];
      if IsBreak(c) {
        SpliceSame(mem[..], vidmem);
        data[t] := d.(y := d.y + 1, x := 0);
      } else {
        StoreCell(t, vidmem, d.x, d.y, c);
        d := d.(x := d.x + 1);
        if d.x == NUM_COLS {
          d := d.(x := 0, y := d.y + 1);
        } else {
          CursorInside(d.x, d.y);
          d := d.(x := d.x % NUM_COLS);
          d := d.(y := (d.y + d.x / NUM_COLS) % NUM_ROWS);
        }
        data[t] := d;
      }
    }

    // putc: print on the displayed terminal.
    method Putc(c: byte)
      requires Valid()
      modifies mem, data
      ensures Valid()
      ensures Screens() == old(Screens())[display := Put(old(Screens())[display], Colour(display), c)]
      ensures PutsAt(old(Screens())[display], [0x17, 0x4E, 0x9F][display], c, Screens()[display])
    {
      hide PutsAt, Put, Logicals;
      PutOn(display, true, -1, VIDEO, c);
    }

    // terminal_putc: print on any terminal, in its backing page unless it is displayed.
    method TerminalPutc(c: byte, terminal: int)
      requires Valid() && 0 <= terminal < NUM_TERMINALS
      modifies mem, data
      ensures Valid()
      ensures Screens() == old(Screens())[terminal := Put(old(Screens())[terminal], Colour(terminal), c)]
      ensures PutsAt(old(Screens())[terminal], [0x17, 0x4E, 0x9F][terminal], c, Screens()[terminal])
    {
      hide PutsAt, Put, Logicals;
      var video := if terminal == display then 3 else terminal;
      var vidmem, flag := VIDEO, false;
      match video {
        case 0 => vidmem := 0xB9000;
        case 1 => vidmem := 0xBA000;
        case 2 => vidmem := 0xBB000;
        case _ => flag := true;
      }
      PutOn(terminal, flag, terminal, vidmem, c);
    }

    method Deletec()
      requires Valid()
      modifies mem, data
      ensures Valid()
      ensures Screens() == old(Screens())[display := Delete(old(Screens())[display])]
    {
      hide Splice, PageAt;
      ghost var m, ds, s := mem[..], data[..], Screens()[display];
      LogicalIs(m, ds, keyboard[..], caps, display, display);
      var d := data[display];
      d := d.(x := d.x - 1);
      if d.x < 0 && d.y > d.saveY {
        d := d.(x := d.x + NUM_COLS, y := d.y - 1);
      } else if d.x < 0 && d.y <= d.saveY {
        d := d.(x := 0);
      }
      data[display] := d;
      CellWritten(m, VIDEO, Cell(d.y, d.x), BLANK);
      mem[VIDEO + 2 * (NUM_COLS * d.y + d.x)] := BLANK;
      ghost var r := Delete(s);
      assert data[..] == ds[display := ds[display].(x := r.x, y := r.y, saveY := ds[display].saveY)];
      OneTerminal(m, ds, keyboard[..], caps, display, display, r.page, r.x, r.y, ds[display].saveY);
    }

    // clear() and reset_cursor(), which always go together.
    method Clear()
      requires Valid()
      modifies mem, data
      ensures Valid()
      ensures Screens() == old(Screens())[display := Wiped(old(Screens())[display], Colour(display))]
      ensures var s := Screens()[display];
        && s.x == s.y == 0 && s.saveY == old(Screens())[display].saveY
        && forall k :: 0 <= k < 2000 ==> s.page[2 * k] == 32 && s.page[2 * k + 1] == [0x17, 0x4E, 0x9F][display]
    {
      hide Splice, PartCleared, PageAt, ClearedPage;
      ghost var m, ds, s := mem[..], data[..], Screens()[display];
      LogicalIs(m, ds, keyboard[..], caps, display, display);
      ClearedEnds(m, VIDEO, Colour(display));
      for i := 0 to NUM_ROWS * NUM_COLS
        invariant mem[..] == Splice(m, VIDEO, PartCleared(s.page, Colour(display), i))
        invariant data[..] == ds
      {
        ClearedNext(m, VIDEO, s.page, Colour(display), i);
        mem[VIDEO + 2 * i] := BLANK;
        mem[VIDEO + 2 * i + 1] := Colour(display);
      }
      data[display] := data[display].(x := 0, y := 0);
      ghost var r := Wiped(s, Colour(display));
      ClearedCells(s.page, Colour(display));
      assert data[..] == ds[display := ds[display].(x := r.x, y := r.y, saveY := ds[display].saveY)];
      OneTerminal(m, ds, keyboard[..], caps, display, display, r.page, r.x, r.y, ds[display].saveY);
    }

    method StoreDeletedLine()
      requires Valid()
      modifies data
      ensures Valid()
      ensures Screens() == old(Screens())[display := old(Screens())[display].(saveY := old(Screens())[display].y)]
    {
      hide Splice, PageAt;
      ghost var m, ds, s := mem[..], data[..], Screens()[display];
      LogicalIs(m, ds, keyboard[..], caps, display, display);
      data[display] := data[display].(saveY := data[display].y);
      SpliceSame(m, VIDEO);
      assert data[..] == ds[display := ds[display].(x := s.x, y := s.y, saveY := s.y)];
      OneTerminal(m, ds, keyboard[..], caps, display, display, s.page, s.x, s.y, s.y);
    }

    // What Ctrl+L does last to the displayed terminal.
    method ForgetDeletedLine()
      requires Valid()
      modifies data
      ensures Valid()
      ensures Screens() == old(Screens())[display := old(Screens())[display].(saveY := 0)]
    {
      hide Splice, PageAt;
      ghost var m, ds, s := mem[..], data[..], Screens()[display];
      LogicalIs(m, ds, keyboard[..], caps, display, display);
      data[display] := data[display].(saveY := 0);
      SpliceSame(m, VIDEO);
      assert data[..] == ds[display := ds[display].(x := s.x, y := s.y, saveY := 0)];
      OneTerminal(m, ds, keyboard[..], caps, display, display, s.page, s.x, s.y, 0);
    }

    // change_display_terminal followed by setDisplayTerm, as every caller does.
    method ChangeDisplayTerminal(new_: int)
      requires Valid() && 0 <= new_ < NUM_TERMINALS
      modifies this, mem, data, keyboard
      ensures Valid() && display == new_
      ensures Screens() == old(Screens())
    {
      hide Splice, PageAt, Copied, Logical;
      SwitchKeepsScreens(mem[..], data[..], keyboard[..], caps, display, new_);
      // the two 127-byte copies of the keyboard buffer
      data[display] := data[display].(keyboard := keyboard[..], caps := caps);
      ghost var saved := data[..];
      var chars := data[new_].keyboard;
      forall i | 0 <= i < 127 {
        keyboard[i] := chars[i];
      }
      assert keyboard[..] == chars && mem[..] == old(mem[..]);
      caps := data[new_].caps;
      Memcpy(mem, Backing(display), VIDEO, PAGE);
      Memcpy(mem, VIDEO, Backing(new_), PAGE);
      assert data[..] == saved;
      assert keyboard[..] == saved[new_].keyboard && caps == saved[new_].caps;
      assert mem[..] == Switched(old(mem[..]), old(display), new_);
      display := new_;
    }

    // terminal_write by a process of terminal execute; -1 for a null buffer.
    method TerminalWrite(execute: int, buf: array?<byte>, nbytes: int) returns (count: int)
      requires Valid() && 0 <= execute < NUM_TERMINALS
      requires buf != null ==> nbytes <= buf.Length && buf != mem
      modifies mem, data
      ensures Valid()
      ensures buf == null ==> count == -1 && Screens() == old(Screens())
      ensures buf != null ==>
        var text := if nbytes < 0 then [] else old(buf[..nbytes]);
        count == |text| && forall t :: 0 <= t < NUM_TERMINALS ==>
          Screens()[t] == ApplyAll(old(Screens())[t], Colour(t), OpsFor(Write(execute, text), display, t))
    {
      hide Put, Expand, Logicals, Written, ApplyAll;
      if buf == null {
        return -1;
      }
      var n := if nbytes < 0 then 0 else nbytes;
      ghost var text, was := buf[..n], Screens();
      ghost var chars: seq<byte> := [];
      count := 0;
      WrittenNone(was, execute);
      assert text[..0] == [];
      for i := 0 to n
        invariant Valid() && count == i && buf[..n] == text && display == old(display)
        invariant chars == Expand(text[..i]) && Screens() == Written(was, execute, chars)
      {
        count := count + 1;
        ExpandNext(text, i);
        if buf[i] == 0 {
        } else if buf[i] == 9 {
          WrittenTab(was, execute, chars);
          TerminalPutc(BLANK, execute);
          TerminalPutc(BLANK, execute);
          TerminalPutc(BLANK, execute);
          TerminalPutc(BLANK, execute);
          chars := chars + [BLANK, BLANK, BLANK, BLANK];
        } else {
          WrittenOne(was, execute, chars, buf[i]);
          TerminalPutc(buf[i], execute);
          chars := chars + [text[i]];
        }
      }
      assert text[..n] == text;
      StoreDeletedLine();
      forall t | 0 <= t < NUM_TERMINALS
        ensures Screens()[t] == ApplyAll(was[t], Colour(t), OpsFor(Write(execute, text), display, t))
      {
        WriteMeans(was, execute, text, display, t);
      }
    }

    // A store into the live keyboard buffer.
    method TypeKey(i: nat, b: byte)
      requires Valid() && i < 127
      modifies keyboard
      ensures Valid()
      ensures Screens() == old(Screens())[display := Apply(old(Screens())[display], Colour(display), Key(i, b))]
      ensures var s := old(Screens())[display]; Screens()[display] == s.(keyboard := s.keyboard[i := b])
    {
      ghost var was := mem[..];
      keyboard[i] := b;
      assert mem[..] == was;
    }

    method ToggleCaps()
      requires Valid()
      modifies this
      ensures Valid() && display == old(display)
      ensures Screens() == old(Screens())[display := Apply(old(Screens())[display], Colour(display), CapsLock)]
      ensures var s := old(Screens())[display]; Screens()[display] == s.(caps := !s.caps)
    {
      caps := !caps;
    }

    // Every event performs its own operations on each terminal and nothing else.
    method Handle(ev: Event)
      requires Valid() && ValidEvent(ev)
      modifies this, mem, data, keyboard
      ensures Valid() && display == DisplayAfter([ev], old(display))
      ensures forall t :: 0 <= t < NUM_TERMINALS ==>
        Screens()[t] == ApplyAll(old(Screens())[t], Colour(t), OpsFor(ev, old(display), t))
    {
      hide Logicals, Put, Delete, Wiped;
      ghost var was := Screens();
      match ev {
        case Write(u, text) =>
          var buf := new byte[|text|](k requires 0 <= k < |text| => text[k]);
          assert buf[..|text|] == text;
          var _ := TerminalWrite(u, buf, |text|);
        case Echo(c) => Putc(c);
        case Enter =>
          Putc(10);
          StoreDeletedLine();
          EnterMeans(was[display], Colour(display));
        case Backspace => Deletec();
        case FreeRows => ForgetDeletedLine();
        case ClearScreen => Clear();
        case Type(i, b) => TypeKey(i, b);
        case CapsKey => ToggleCaps();
        case Show(u) =>
          if display != u {
            ChangeDisplayTerminal(u);
          }
      }
    }

    // After any run of writes, keystrokes and display switches each terminal is what the operations that reached it
    // have made of it, and it shows what it printed since it was last cleared, or what was printed and not erased since
    // it was cleared if every backspace could be followed. But for the limit of deletion it is as
    // on a machine of its own when no backspace reached it, and altogether so when only displayed terminals wrote.
    method Run(evs: seq<Event>)
      requires Valid() && forall k :: 0 <= k < |evs| ==> ValidEvent(evs[k])
      modifies this, mem, data, keyboard
      ensures Valid() && display == DisplayAfter(evs, old(display))
      ensures forall t :: 0 <= t < NUM_TERMINALS ==>
        Screens()[t] == ApplyAll(old(Screens())[t], Colour(t), Routed(evs, old(display), t))
      ensures forall t, k: nat :: 0 <= t < NUM_TERMINALS && LastCleared(evs, old(display), t, k) ==>
        Showing(Screens()[t], Wrap(TextOf(evs[k + 1..], t, t)))
      ensures forall t, k: nat :: 0 <= t < NUM_TERMINALS && Cleared(evs, old(display), t, k) ==>
        var u, since := ClearedAt(old(Screens())[t], evs, old(display), t, k), Routed(evs[k + 1..], t, t);
        ErasesPlaced(u, Colour(t), since) ==> Showing(Screens()[t], Wrap(Typed(u, Colour(t), since)))
      ensures forall t :: 0 <= t < NUM_TERMINALS && NeverErases(evs, old(display), t) ==>
        SameButLimit(Screens()[t], Private(old(Screens())[t], evs, old(display), t))
      ensures WritersShown(evs, old(display)) ==>
        forall t :: 0 <= t < NUM_TERMINALS ==> Screens()[t] == Private(old(Screens())[t], evs, old(display), t)
    {
      hide Logicals, ApplyAll, OpsFor, Routed, DisplayAfter, Cleared, ClearedAt, ErasesPlaced, Typed;
      ghost var was, d := Screens(), display;
      RunStart(was, d);
      assert evs[..0] == [];
      for i := 0 to |evs|
        invariant Valid() && display == DisplayAfter(evs[..i], d)
        invariant RanTo(was, evs[..i], d, Screens())
      {
        RunStep(was, evs[..i], evs[i], d, Screens());
        assert evs[..i + 1] == evs[..i] + [evs[i]];
        OneEvent(evs[i], display);
        Handle(evs[i]);
      }
      assert evs[..|evs|] == evs;
      RunMeans(was, evs, d, Screens());
    }
  }
}
