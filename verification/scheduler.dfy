/**
 * The hourly loop shared by the view-count flush job and the link-status
 * job: wait for the next whole hour, run one pass, repeat, and stop when the
 * context is cancelled.
 */
module Scheduler {

  /** One hour in nanoseconds, Go's `time.Hour`. */
  const Hour: nat := 3_600_000_000_000

  /** `now.Truncate(time.Hour).Add(time.Hour)`, with times as nanoseconds since Go's zero time. */
  function NextWake(now: nat): (next: nat)
    ensures next % Hour == 0
    ensures now < next <= now + Hour
  {
    now - now % Hour + Hour
  }

  /** The next wake is the first hour boundary strictly after `now`: no boundary lies between. */
  lemma NextWakeIsFirstBoundary(now: nat, b: nat)
    requires b % Hour == 0 && now < b
    ensures NextWake(now) <= b
  {
    var q := now / Hour;
    assert now == q * Hour + now % Hour;
    assert b == (b / Hour) * Hour;
  }

  /** One turn of the loop: the clock reading at its top, and whether `ctx.Done()` won the select. */
  datatype Turn = Turn(now: nat, cancelled: bool)

  /**
   * The start time of each pass. Every turn not cancelled waits for the
   * boundary after its own reading and runs exactly one pass, whatever the
   * pass returns; the first cancelled turn ends the loop.
   */
  function Schedule(turns: seq<Turn>): (passes: seq<nat>)
    ensures |passes| <= |turns|
    ensures forall i :: 0 <= i < |passes| ==> !turns[i].cancelled && passes[i] == NextWake(turns[i].now)
    ensures |passes| < |turns| ==> turns[|passes|].cancelled
    decreases |turns|
  {
    if |turns| == 0 || turns[0].cancelled then []
    else [NextWake(turns[0].now)] + Schedule(turns[1..])
  }

  /** The clock reading of each turn comes at or after the start of the previous pass. */
  predicate ClockConsistent(turns: seq<Turn>, passes: seq<nat>) {
    forall i :: 0 <= i < |passes| && i + 1 < |turns| ==> turns[i + 1].now >= passes[i]
  }

  /**
   * Passes fall on hour boundaries and strictly increase, so no boundary gets
   * two passes.
   */
  lemma PassesIncrease(turns: seq<Turn>)
    requires ClockConsistent(turns, Schedule(turns))
    ensures var p := Schedule(turns);
      && (forall i :: 0 <= i < |p| ==> p[i] % Hour == 0)
      && (forall i, j :: 0 <= i < j < |p| ==> p[i] < p[j])
  {
    var p := Schedule(turns);
    AdjacentPassesIncrease(turns);
    forall i, j | 0 <= i < j < |p| ensures p[i] < p[j] {
      StrictStep(p, i, j);
    }
  }

  /** Each pass starts strictly after the one before it. */
  lemma AdjacentPassesIncrease(turns: seq<Turn>)
    requires ClockConsistent(turns, Schedule(turns))
    ensures Adjacent(Schedule(turns))
  {
    var p := Schedule(turns);
    forall k | 0 <= k && k + 1 < |p| ensures p[k] < p[k + 1] {
      NextPassLater(turns, p, k);
    }
  }

  predicate Adjacent(p: seq<nat>) {
    forall k :: 0 <= k && k + 1 < |p| ==> p[k] < p[k + 1]
  }

  /** Steps that each go up make a chain that goes up. */
  lemma {:induction false} StrictStep(p: seq<nat>, i: nat, j: nat)
    requires Adjacent(p)
    requires i < j < |p|
    ensures p[i] < p[j]
    decreases j - i
  {
    assert p[i] < p[i + 1];
    if i + 1 < j {
      StrictStep(p, i + 1, j);
    }
  }

  /** A pass starts after the clock reading that follows the previous pass, so strictly later. */
  lemma NextPassLater(turns: seq<Turn>, p: seq<nat>, i: nat)
    requires p == Schedule(turns)
    requires ClockConsistent(turns, p)
    requires i + 1 < |p|
    ensures p[i] < p[i + 1]
  {
    var now := turns[i + 1].now;
    assert p[i] <= now;
    WakeAfter(now, p[i + 1]);
  }

  lemma WakeAfter(now: nat, next: nat)
    requires next == NextWake(now)
    ensures now < next
  {
  }

  /**
   * No catch-up: an hour boundary that passes while a pass is still running
   * (after that pass started, up to the next clock reading) gets no pass of
   * its own.
   */
  lemma NoCatchUp(turns: seq<Turn>, i: nat, b: nat)
    requires ClockConsistent(turns, Schedule(turns))
    requires i + 1 < |Schedule(turns)|
    requires b % Hour == 0 && Schedule(turns)[i] < b <= turns[i + 1].now
    ensures b !in Schedule(turns)
  {
    var p := Schedule(turns);
    AdjacentPassesIncrease(turns);
    WakeAfter(turns[i + 1].now, p[i + 1]);
    NotBetween(p, i, b);
  }

  /** In a chain that goes up, nothing strictly between two neighbours is in the chain. */
  lemma NotBetween(p: seq<nat>, i: nat, b: nat)
    requires Adjacent(p) && i + 1 < |p| && p[i] < b < p[i + 1]
    ensures b !in p
  {
    forall j | 0 <= j < |p| ensures p[j] != b {
      if j < i {
        StrictStep(p, j, i);
      } else if j > i + 1 {
        StrictStep(p, i + 1, j);
      }
    }
  }
}
