/**
 * The scroll threshold watcher: on every scroll of its target it works out
 * whether the target is scrolled past a threshold, and tells its callback
 * only when that answer changes. The callback's calls are the model's output.
 */
module ScrollHandler {
  import opened Common

  /** A scroll target, by the kind that decides where its offset is read. */
  datatype El = Win(scrollY: int) | Doc(rootScrollTop: int) | Elem(scrollTop: int)

  /** `getScrollTop`: a window's `scrollY`, a document's root element offset, an element's own. */
  function ScrollTop(el: El): int {
    match el
    case Win(y) => y
    case Doc(t) => t
    case Elem(t) => t
  }

  /** Where the target comes from: the window, or a given (possibly empty) target. */
  datatype Target = WindowTarget | Given

  /** The two call shapes: `(threshold, callback)` or `(target, threshold, callback)`. */
  datatype Args = ThresholdFirst(threshold: int) | TargetFirst(target: Target, threshold: int)

  /** The target and threshold the handler is set up with. */
  function Resolve(args: Args): (r: (Target, int))
    ensures args.ThresholdFirst? ==> r == (WindowTarget, args.threshold)
    ensures args.TargetFirst? ==> r == (args.target, args.threshold)
  {
    match args
    case ThresholdFirst(t) => (WindowTarget, t)
    case TargetFirst(g, t) => (g, t)
  }

  /** The handler's closure: its threshold and the state it last reported (`null` at first). */
  datatype Handler = Handler(threshold: int, lastState: Option<bool>)

  /** A handler fresh from `useScrollHandler`: nothing reported yet. */
  function NewHandler(args: Args): (h: Handler)
    ensures h.lastState == None && h.threshold == Resolve(args).1
  {
    Handler(Resolve(args).1, None)
  }

  /** Whether the target is scrolled past the threshold. */
  predicate Over(h: Handler, el: El) {
    ScrollTop(el) >= h.threshold
  }

  /**
   * `handler`, run with the target as it is now (`None` when the ref holds
   * nothing): the new closure and the callback's argument, if it was called.
   */
  function Handle(h: Handler, el: Option<El>): (r: (Handler, Option<bool>))
    ensures r.0.threshold == h.threshold
    ensures el.None? ==> r == (h, None)
    ensures el.Some? ==> r.0.lastState == Some(Over(h, el.value))
    ensures el.Some? ==> (r.1.Some? <==> h.lastState != Some(Over(h, el.value)))
    ensures r.1.Some? ==> r.0.lastState == r.1
  {
    match el
    case None => (h, None)
    case Some(e) =>
      var over := ScrollTop(e) >= h.threshold;
      if Some(over) != h.lastState then (h.(lastState := Some(over)), Some(over)) else (h, None)
  }

  /**
   * `register`: attach the listener and run the handler once at once. A
   * change of target runs the cleanup and registers again with the same
   * closure, so the state last reported carries over.
   */
  function Register(h: Handler, el: Option<El>): (r: (Handler, Option<bool>))
    ensures el.Some? && h.lastState.None? ==> r.1 == Some(Over(h, el.value))
    ensures el.Some? && h.lastState == Some(Over(h, el.value)) ==> r.1.None?
  {
    Handle(h, el)
  }

  /** The callback's calls, in order, over a run of scroll events. */
  datatype Trace = Trace(handler: Handler, calls: seq<bool>)

  function OptionSeq(c: Option<bool>): seq<bool> {
    if c.Some? then [c.value] else []
  }

  /** The handler run on each event's view of the target, in order. */
  function Run(h: Handler, events: seq<Option<El>>): (t: Trace)
    ensures |t.calls| <= |events| && t.handler.threshold == h.threshold
    decreases |events|
  {
    if events == [] then Trace(h, [])
    else
      var (h1, c) := Handle(h, events[0]);
      var rest := Run(h1, events[1..]);
      Trace(rest.handler, OptionSeq(c) + rest.calls)
  }

  /** No two calls in a row pass the same value, and the first differs from what was last reported. */
  predicate Alternates(last: Option<bool>, calls: seq<bool>) {
    (|calls| > 0 ==> last != Some(calls[0]))
    && forall i :: 0 <= i < |calls| - 1 ==> calls[i] != calls[i + 1]
  }

  /** The closure remembers the last value passed, or what it had if nothing was passed. */
  predicate Remembers(t: Trace, last: Option<bool>) {
    if t.calls == [] then t.handler.lastState == last
    else t.handler.lastState == Some(t.calls[|t.calls| - 1])
  }

  /** The callback is edge-triggered: its calls alternate, and the closure holds the latest. */
  lemma {:induction false} RunAlternates(h: Handler, events: seq<Option<El>>)
    ensures Alternates(h.lastState, Run(h, events).calls)
    ensures Remembers(Run(h, events), h.lastState)
    decreases |events|
  {
    if events != [] {
      var (h1, c) := Handle(h, events[0]);
      var rest := Run(h1, events[1..]);
      RunAlternates(h1, events[1..]);
      assert Run(h, events) == Trace(rest.handler, OptionSeq(c) + rest.calls);
      ConsAlternates(h.lastState, c, h1.lastState, rest.calls);
      ConsRemembers(h.lastState, c, h1.lastState, rest);
    }
  }

  /** One step's call in front of an alternating run still alternates. */
  lemma ConsAlternates(last: Option<bool>, c: Option<bool>, mid: Option<bool>, rest: seq<bool>)
    requires c.Some? ==> last != c && mid == c
    requires c.None? ==> mid == last
    requires Alternates(mid, rest)
    ensures Alternates(last, OptionSeq(c) + rest)
  {
    var calls := OptionSeq(c) + rest;
    if c.Some? {
      assert calls[0] == c.value;
      forall i | 0 <= i < |calls| - 1
        ensures calls[i] != calls[i + 1]
      {
        if i > 0 {
          assert calls[i] == rest[i - 1] && calls[i + 1] == rest[i];
        } else {
          assert calls[1] == rest[0];
        }
      }
    } else {
      assert calls == rest;
    }
  }

  /** One step's call in front of a run: the closure holds the latest call. */
  lemma ConsRemembers(last: Option<bool>, c: Option<bool>, mid: Option<bool>, rest: Trace)
    requires c.Some? ==> mid == c
    requires c.None? ==> mid == last
    requires Remembers(rest, mid)
    ensures Remembers(Trace(rest.handler, OptionSeq(c) + rest.calls), last)
  {
    var calls := OptionSeq(c) + rest.calls;
    if c.None? {
      assert calls == rest.calls;
    } else if rest.calls != [] {
      assert calls[|calls| - 1] == rest.calls[|rest.calls| - 1];
    } else {
      assert calls == [c.value];
    }
  }

  /** While every scroll lands on the same side of the threshold, the callback runs at most once. */
  lemma {:induction false} SameSideCallsOnce(h: Handler, events: seq<Option<El>>, over: bool)
    requires forall i :: 0 <= i < |events| && events[i].Some? ==> Over(h, events[i].value) == over
    ensures |Run(h, events).calls| <= 1
    ensures h.lastState == Some(over) ==> Run(h, events).calls == []
    ensures Run(h, events).calls != [] ==> Run(h, events).calls == [over]
    decreases |events|
  {
    if events != [] {
      var (h1, c) := Handle(h, events[0]);
      assert h1.threshold == h.threshold;
      assert forall i :: 0 <= i < |events[1..]| && events[1..][i].Some? ==> Over(h1, events[1..][i].value) == over by {
        forall i | 0 <= i < |events[1..]| && events[1..][i].Some?
          ensures Over(h1, events[1..][i].value) == over
        {
          assert events[1..][i] == events[i + 1];
        }
      }
      SameSideCallsOnce(h1, events[1..], over);
      if c.Some? {
        assert h1.lastState == Some(over);
      }
    }
  }

  /** The first evaluation on a present target always reports, whichever side it is on. */
  lemma FirstEvaluationReports(args: Args, el: El)
    ensures Register(NewHandler(args), Some(el)).1 == Some(ScrollTop(el) >= Resolve(args).1)
  {
  }

  /** Scrolling past the threshold and back reports twice; scrolling on below it adds nothing. */
  lemma ScrollExample()
    ensures Run(NewHandler(ThresholdFirst(100)), [Some(Win(0)), Some(Win(50)), Some(Win(150)), None, Some(Win(20))]).calls
         == [false, true, false]
  {
  }
}
