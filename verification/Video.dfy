// Which page the user video page of the running process is, and whether its terminal's screen is in it. The mapping is
// made by vidmap and by the scheduler, and neither vidmap nor a display switch asks whose turn it is
// (student-distrib/system_call.c, student-distrib/scheduler.c).
module VideoPages {
  import opened Layout
  import opened Options
  import opened Processes
  import Runs

  // The displayed terminal and the page the user video page is mapped to.
  datatype View = View(display: int, video: Option<nat>)

  // The user video page is VIDEO or the backing page of the running terminal.
  ghost predicate VideoPage(video: Option<nat>, s: Spec)
    requires WellFormed(s)
  {
    || video == None
    || video == Some(VIDEO)
    || (Booted(s) && video == Some(Backing(s.run)))
  }

  // vidmap gets as far as the mapping. It lets the end of the user page through, where the store of the result faults
  // without a video page.
  predicate Maps(v: View, screenStart: int) {
    || USER_MEM_START <= screenStart < USER_MEM_START + USER_MEM_SIZE
    || (screenStart == USER_MEM_START + USER_MEM_SIZE && v.video.Some?)
  }

  function TickView(s: Spec, v: View): View
    requires Good(s)
  {
    if Booted(s) then v.(video := Some(ScreenPage(v.display, (s.run + 1) % NUM_TERMINALS)))
    else v.(display := 1 - Pid(s.depth))
  }

  lemma TickShows(s: Spec, v: View, w: View, shell: Program)
    requires Good(s) && Loadable(shell)
    requires w.display == if Booted(s) then v.display else 1 - Pid(s.depth)
    requires w.video == if Booted(s) then Some(ScreenPage(w.display, Tick(s, shell).run)) else v.video
    ensures w == TickView(s, v)
  {
    if Booted(s) {
      TickRotates(s, shell);
    }
  }

  // A tick maps the next terminal's screen; a boot tick shows the new shell's terminal and leaves the mapping alone, as
  // do execute and the restart of a root shell; vidmap always maps VIDEO; a child's halt drops the page.
  function ViewAfter(s: Spec, v: View, ev: Event): View
    requires Good(s)
  {
    match ev
    case DoTick(_, _) => TickView(s, v)
    case DoHalt(_, _, _, _) => if s.depth[s.run] >= 1 then v.(video := None) else v
    case DoVidmap(screenStart, _) => if Maps(v, screenStart) then v.(video := Some(VIDEO)) else v
    case DoShow(t) => v.(display := t)
    case _ => v
  }

  lemma ViewKept(s: Spec, v: View, ev: Event)
    requires Good(s)
    ensures ev.DoTick? ==> ViewAfter(s, v, ev) == TickView(s, v)
    ensures ev.DoHalt? ==> ViewAfter(s, v, ev) == v.(video := if s.depth[s.run] >= 1 then None else v.video)
    ensures ev.DoVidmap? ==>
      ViewAfter(s, v, ev) == v.(video := if Maps(v, ev.screenStart) then Some(VIDEO) else v.video)
    ensures ev.DoShow? ==> ViewAfter(s, v, ev) == v.(display := ev.terminal)
    ensures !ev.DoTick? && !ev.DoHalt? && !ev.DoVidmap? && !ev.DoShow? ==> ViewAfter(s, v, ev) == v
  {
  }

  ghost function ViewOf(s: Spec, v: View, evs: seq<Event>, shell: Program): View
    requires Good(s) && Loadable(shell) && Runnable(s, evs, shell)
    decreases |evs|
  {
    if evs == [] then v else ViewOf(Step(s, evs[0], shell), ViewAfter(s, v, evs[0]), evs[1..], shell)
  }

  // What the running process writes to its video page, if it has one, appears on its own terminal's screen.
  ghost predicate OnScreen(s: Spec, v: View)
    requires WellFormed(s)
  {
    v.video == None || v.video == Some(ScreenPage(v.display, s.run))
  }

  // The event takes the page off the screen: a hidden process maps VIDEO, or the display switches to or away from the
  // terminal of a process that has a video page.
  predicate Strays(s: Spec, v: View, ev: Event) {
    || (ev.DoVidmap? && Maps(v, ev.screenStart) && v.display != s.run)
    || (ev.DoShow? && v.video.Some? && (v.display == s.run) != (ev.terminal == s.run))
  }

  // The page stays VIDEO or the running terminal's backing page.
  lemma StepVideoPage(s: Spec, v: View, ev: Event, shell: Program)
    requires Good(s) && Enabled(s, ev) && Loadable(shell) && VideoPage(v.video, s)
    ensures VideoPage(ViewAfter(s, v, ev).video, Step(s, ev, shell))
  {
    hide Step, Enabled, BootOrder;
    Runs.StepCounters(s, ev, shell);
  }

  // From a page that is on the screen, exactly those events lead to one that is not.
  lemma StepOnScreen(s: Spec, v: View, ev: Event, shell: Program)
    requires Good(s) && Enabled(s, ev) && Loadable(shell) && VideoPage(v.video, s) && OnScreen(s, v)
    ensures OnScreen(Step(s, ev, shell), ViewAfter(s, v, ev)) <==> !Strays(s, v, ev)
  {
    hide Step, BootOrder;
    if Booted(s) || !ev.DoTick? {
      StepRuns(s, ev, shell);
    } else {
      BootRuns(s, ev, shell);
    }
  }

  lemma StepRuns(s: Spec, ev: Event, shell: Program)
    requires Good(s) && Enabled(s, ev) && Loadable(shell) && (Booted(s) || !ev.DoTick?)
    ensures Step(s, ev, shell).run == if ev.DoTick? then (s.run + 1) % NUM_TERMINALS else s.run
  {
    hide Execute, Halt, Tick, OpenFds, CloseFds, BootOrder;
    match ev {
      case DoExecute(prog, _, _, _) => Runs.ExecuteMoves(s, prog);
      case DoHalt(_, exception, _, _) => Runs.HaltMoves(Raise(s, exception), shell);
      case DoTick(_, _) => TickRotates(s, shell);
      case _ =>
    }
  }

  lemma BootRuns(s: Spec, ev: Event, shell: Program)
    requires Good(s) && Enabled(s, ev) && Loadable(shell) && !Booted(s) && ev.DoTick?
    ensures Step(s, ev, shell).run == 1 - Pid(s.depth)
  {
    TickCounts(s, shell);
  }

  // After any tick the page is on the screen, whatever it was before.
  lemma TickOnScreen(s: Spec, v: View, tick: Event, shell: Program)
    requires Good(s) && Enabled(s, tick) && Loadable(shell) && VideoPage(v.video, s) && tick.DoTick?
    ensures OnScreen(Step(s, tick, shell), ViewAfter(s, v, tick))
  {
    hide Step, BootOrder;
    if Booted(s) {
      StepRuns(s, tick, shell);
    } else {
      BootRuns(s, tick, shell);
    }
  }

  // In every state of the run the page is on the screen.
  ghost predicate StaysOnScreen(s: Spec, v: View, evs: seq<Event>, shell: Program)
    requires Good(s) && Loadable(shell) && Runnable(s, evs, shell)
    decreases |evs|
  {
    && OnScreen(s, v)
    && (evs == [] || StaysOnScreen(Step(s, evs[0], shell), ViewAfter(s, v, evs[0]), evs[1..], shell))
  }

  // No event of the run takes it off the screen.
  ghost predicate NeverStrays(s: Spec, v: View, evs: seq<Event>, shell: Program)
    requires Good(s) && Loadable(shell) && Runnable(s, evs, shell)
    decreases |evs|
  {
    || evs == []
    || (!Strays(s, v, evs[0]) && NeverStrays(Step(s, evs[0], shell), ViewAfter(s, v, evs[0]), evs[1..], shell))
  }

  // From a tick on, through any run, the running process's video page is the one its terminal's screen is in, all
  // along, if and only if no hidden process calls vidmap and no display switch comes while the running process has a
  // video page and hides or shows its terminal.
  lemma OnScreenIff(s: Spec, v: View, tick: Event, evs: seq<Event>, shell: Program)
    requires Good(s) && Enabled(s, tick) && Loadable(shell) && VideoPage(v.video, s) && tick.DoTick?
    requires Runnable(Step(s, tick, shell), evs, shell)
    ensures var r, w := Step(s, tick, shell), ViewAfter(s, v, tick);
      StaysOnScreen(r, w, evs, shell) <==> NeverStrays(r, w, evs, shell)
  {
    hide Step, Good, ViewAfter, OnScreen, VideoPage, Enabled;
    TickOnScreen(s, v, tick, shell);
    StepVideoPage(s, v, tick, shell);
    StaysIff(Step(s, tick, shell), ViewAfter(s, v, tick), evs, shell);
  }

  lemma {:induction false} StaysIff(s: Spec, v: View, evs: seq<Event>, shell: Program)
    requires Good(s) && Loadable(shell) && Runnable(s, evs, shell) && VideoPage(v.video, s) && OnScreen(s, v)
    ensures StaysOnScreen(s, v, evs, shell) <==> NeverStrays(s, v, evs, shell)
    decreases |evs|
  {
    hide Step, BootOrder, Pid, ViewAfter, OnScreen, VideoPage, Strays, Enabled;
    if evs != [] {
      var r, w := Step(s, evs[0], shell), ViewAfter(s, v, evs[0]);
      StepOnScreen(s, v, evs[0], shell);
      StepVideoPage(s, v, evs[0], shell);
      if OnScreen(r, w) {
        StaysIff(r, w, evs[1..], shell);
      }
    }
  }

  lemma {:induction false} StaysAtEnd(s: Spec, v: View, evs: seq<Event>, shell: Program)
    requires Good(s) && Loadable(shell) && Runnable(s, evs, shell) && StaysOnScreen(s, v, evs, shell)
    ensures OnScreen(RunOf(s, evs, shell), ViewOf(s, v, evs, shell))
    decreases |evs|
  {
    hide Step, Good, ViewAfter, OnScreen, Enabled;
    if evs != [] {
      StaysAtEnd(Step(s, evs[0], shell), ViewAfter(s, v, evs[0]), evs[1..], shell);
    }
  }

  // A hidden process that calls vidmap is given the displayed terminal's screen. One whose terminal is hidden while it
  // has the page keeps the screen that another terminal is now shown on, and one that is shown keeps the page its
  // terminal had while it was hidden.
  lemma StrayPage(s: Spec, v: View, ev: Event, shell: Program)
    requires Good(s) && Enabled(s, ev) && Loadable(shell) && VideoPage(v.video, s) && OnScreen(s, v) && Strays(s, v, ev)
    requires 0 <= v.display < NUM_TERMINALS
    ensures var w := ViewAfter(s, v, ev);
      && 0 <= w.display < NUM_TERMINALS
      && w.video == if w.display == s.run then Some(Backing(s.run)) else Some(ScreenPage(w.display, w.display))
  {
    hide Good;
  }
}
