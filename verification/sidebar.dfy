/**
 * The sidebar state: whether it is open and whether it is collapsed. A
 * change of layout (mobile to desktop or back) opens or closes it; between
 * such changes the user's own toggles stand.
 */
module Sidebar {
  import opened Responsive

  /** `open`, `collapsed`, and the closure's `lastIsDesktop`. */
  datatype State = State(open: bool, collapsed: bool, lastIsDesktop: bool)

  /** Before the immediate watch runs: closed, expanded, last layout mobile. */
  const Initial: State := State(false, false, false)

  /** The watch callback for the layout `isDesktop` now reports. */
  function Watch(s: State, isDesktop: bool): (r: State)
    ensures r.lastIsDesktop == isDesktop && r.collapsed == s.collapsed
    ensures isDesktop != s.lastIsDesktop ==> r.open == isDesktop
    ensures isDesktop == s.lastIsDesktop ==> r == s
  {
    if isDesktop != s.lastIsDesktop then s.(open := isDesktop, lastIsDesktop := isDesktop) else s
  }

  /** `useSidebar` at a given viewport width: the watch is immediate. */
  function UseSidebar(width: int): (r: State)
    ensures r.open <==> width >= Breakpoint
    ensures !r.collapsed && r.lastIsDesktop == UseResponsive(width).isDesktop
  {
    Watch(Initial, UseResponsive(width).isDesktop)
  }

  /** `toggleOpen`. */
  function ToggleOpen(s: State): (r: State)
    ensures r.open != s.open && r.collapsed == s.collapsed && r.lastIsDesktop == s.lastIsDesktop
  {
    s.(open := !s.open)
  }

  /** `toggleCollapsed`. */
  function ToggleCollapsed(s: State): (r: State)
    ensures r.collapsed != s.collapsed && r.open == s.open && r.lastIsDesktop == s.lastIsDesktop
  {
    s.(collapsed := !s.collapsed)
  }

  /** What can happen to a mounted sidebar: a toggle, or a new viewport width. */
  datatype Event = OpenToggled | CollapseToggled | Resized(width: int)

  function Step(s: State, e: Event): State {
    match e
    case OpenToggled => ToggleOpen(s)
    case CollapseToggled => ToggleCollapsed(s)
    case Resized(w) => Watch(s, UseResponsive(w).isDesktop)
  }

  function Run(s: State, events: seq<Event>): State
    decreases |events|
  {
    if events == [] then s else Run(Step(s, events[0]), events[1..])
  }

  /** Whether `n` is odd: an odd number of toggles flips a flag. */
  predicate Odd(n: nat) {
    n % 2 == 1
  }

  /** The number of events in `events` of one kind. */
  function Toggles(events: seq<Event>, open: bool): (n: nat)
    ensures n <= |events|
    decreases |events|
  {
    if events == [] then 0
    else
      var counted := if open then events[0].OpenToggled? else events[0].CollapseToggled?;
      (if counted then 1 else 0) + Toggles(events[1..], open)
  }

  /** The layout of the last resize in `events`, or `last` if there is none. */
  function LastLayout(last: bool, events: seq<Event>): bool
    decreases |events|
  {
    if events == [] then last
    else LastLayout(if events[0].Resized? then UseResponsive(events[0].width).isDesktop else last, events[1..])
  }

  /** Every resize keeps the layout it starts from. */
  predicate SameLayout(last: bool, events: seq<Event>) {
    forall i :: 0 <= i < |events| && events[i].Resized? ==> UseResponsive(events[i].width).isDesktop == last
  }

  /** The watch's memory is always the layout of the latest width seen. */
  lemma {:induction false} RunTracksLayout(s: State, events: seq<Event>)
    ensures Run(s, events).lastIsDesktop == LastLayout(s.lastIsDesktop, events)
    decreases |events|
  {
    if events != [] {
      RunTracksLayout(Step(s, events[0]), events[1..]);
    }
  }

  /** Collapsing is the user's alone: it flips once per toggle, and resizes never touch it. */
  lemma {:induction false} CollapsedCountsToggles(s: State, events: seq<Event>)
    ensures Run(s, events).collapsed == (s.collapsed != Odd(Toggles(events, false)))
    decreases |events|
  {
    if events != [] {
      CollapsedCountsToggles(Step(s, events[0]), events[1..]);
    }
  }

  /**
   * While the layout does not change, resizes do nothing to `open`: it flips
   * once per toggle, so a manual choice stands.
   */
  lemma {:induction false} ManualToggleStands(s: State, events: seq<Event>)
    requires SameLayout(s.lastIsDesktop, events)
    ensures Run(s, events).open == (s.open != Odd(Toggles(events, true)))
    ensures Run(s, events).lastIsDesktop == s.lastIsDesktop
    decreases |events|
  {
    if events != [] {
      assert SameLayout(s.lastIsDesktop, events[1..]) by {
        forall i | 0 <= i < |events[1..]| && events[1..][i].Resized?
          ensures UseResponsive(events[1..][i].width).isDesktop == s.lastIsDesktop
        {
          assert events[1..][i] == events[i + 1];
        }
      }
      ManualToggleStands(Step(s, events[0]), events[1..]);
    }
  }

  /** Events split anywhere run as the two halves one after the other. */
  lemma {:induction false} RunAppend(s: State, a: seq<Event>, b: seq<Event>)
    ensures Run(s, a + b) == Run(Run(s, a), b)
    decreases |a|
  {
    if a != [] {
      assert (a + b)[1..] == a[1..] + b;
      RunAppend(Step(s, a[0]), a[1..], b);
    } else {
      assert a + b == b;
    }
  }

  /** A resize across the breakpoint overrides any manual toggle: the sidebar follows the layout. */
  lemma LayoutChangeWins(s: State, events: seq<Event>, width: int)
    requires UseResponsive(width).isDesktop != LastLayout(s.lastIsDesktop, events)
    ensures Run(s, events + [Resized(width)]).open == UseResponsive(width).isDesktop
  {
    RunAppend(s, events, [Resized(width)]);
    RunTracksLayout(s, events);
  }

  /** Opening on a phone, then rotating to a desktop width, leaves the sidebar open. */
  lemma PhoneThenDesktop()
    ensures Run(UseSidebar(400), [OpenToggled, Resized(500), Resized(1024)]).open
    ensures !Run(UseSidebar(1024), [Resized(400)]).open
  {
  }
}
