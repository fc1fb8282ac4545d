/**
 * The page loading bar: one counter of pending navigations, held at module
 * level so every caller of `useLoadingBar` drives the same bar. The bar shows
 * while the counter is positive.
 */
module LoadingBar {

  /** What a caller can do to the bar. */
  datatype Op = Start | Done | Reset

  /** `isVisible`: the bar shows while something is pending. */
  predicate IsVisible(count: int) {
    count > 0
  }

  /** `start`: one more pending navigation. */
  function StartBar(count: int): (r: int)
    ensures r > count && IsVisible(r) == (count >= 0)
  {
    count + 1
  }

  /** `done`: one fewer, unless nothing is pending. */
  function DoneBar(count: int): (r: int)
    ensures count > 0 ==> r == count - 1
    ensures count <= 0 ==> r == count
    ensures count >= 0 ==> r >= 0
  {
    if count > 0 then count - 1 else count
  }

  /** `reset`: nothing pending, whatever the counter was. */
  function ResetBar(count: int): (r: int)
    ensures !IsVisible(r) && r >= 0
  {
    0
  }

  function Apply(count: int, op: Op): int {
    match op
    case Start => StartBar(count)
    case Done => DoneBar(count)
    case Reset => ResetBar(count)
  }

  /** The counter after a sequence of calls, from any caller, in order. */
  function Run(count: int, ops: seq<Op>): int
    decreases |ops|
  {
    if ops == [] then count else Run(Apply(count, ops[0]), ops[1..])
  }

  /** The change a call would make if the counter were unbounded below. */
  function Delta(op: Op): int {
    match op
    case Start => 1
    case Done => -1
    case Reset => 0
  }

  /** The starts minus the dones of a sequence. */
  function Net(ops: seq<Op>): int
    decreases |ops|
  {
    if ops == [] then 0 else Delta(ops[0]) + Net(ops[1..])
  }

  predicate NoReset(ops: seq<Op>) {
    forall i :: 0 <= i < |ops| ==> ops[i] != Reset
  }

  /** No prefix of `ops` has more dones than `count` plus its starts. */
  predicate NeverUnderflows(count: int, ops: seq<Op>) {
    forall k :: 0 <= k <= |ops| ==> count + Net(ops[..k]) >= 0
  }

  /** A start undone by a done leaves the bar as it was. */
  lemma DoneUndoesStart(count: int)
    requires count >= 0
    ensures DoneBar(StartBar(count)) == count
  {
  }

  /** A done undone by a start only when the done had something to take away. */
  lemma StartUndoesDone(count: int)
    ensures StartBar(DoneBar(count)) == count <==> count > 0
  {
  }

  /** The counter never goes negative, whatever callers do. */
  lemma {:induction false} RunNeverNegative(count: int, ops: seq<Op>)
    requires count >= 0
    ensures Run(count, ops) >= 0
    decreases |ops|
  {
    if ops != [] {
      RunNeverNegative(Apply(count, ops[0]), ops[1..]);
    }
  }

  /** Without resets, extra dones are ignored, so the counter is at least the plain balance. */
  lemma {:induction false} RunAtLeastNet(count: int, ops: seq<Op>)
    requires count >= 0 && NoReset(ops)
    ensures Run(count, ops) >= count + Net(ops)
    decreases |ops|
  {
    if ops != [] {
      RunAtLeastNet(Apply(count, ops[0]), ops[1..]);
    }
  }

  lemma NetPrefix(ops: seq<Op>, k: nat)
    requires 1 <= k <= |ops|
    ensures Net(ops[..k]) == Delta(ops[0]) + Net(ops[1..][..k - 1])
  {
    assert ops[..k][0] == ops[0];
    assert ops[..k][1..] == ops[1..][..k - 1];
  }

  /**
   * When no prefix asks for more dones than were started, the counter is
   * exactly the balance: every `done` took one away.
   */
  lemma {:induction false} RunIsNet(count: int, ops: seq<Op>)
    requires NoReset(ops) && NeverUnderflows(count, ops)
    ensures Run(count, ops) == count + Net(ops)
    decreases |ops|
  {
    if ops != [] {
      assert ops[..0] == [];
      NetPrefix(ops, 1);
      assert ops[1..][..0] == [];
      var next := Apply(count, ops[0]);
      assert next == count + Delta(ops[0]);
      forall k | 0 <= k <= |ops[1..]|
        ensures next + Net(ops[1..][..k]) >= 0
      {
        NetPrefix(ops, k + 1);
      }
      RunIsNet(next, ops[1..]);
    }
  }

  /** Matched start/done pairs around a navigation hide the bar again. */
  lemma MatchedPairsHide(n: nat)
    ensures Run(0, Repeat(Start, n) + Repeat(Done, n)) == 0
  {
    var ops := Repeat(Start, n) + Repeat(Done, n);
    NetRepeat(Start, n);
    NetRepeat(Done, n);
    NetAppend(Repeat(Start, n), Repeat(Done, n));
    forall k | 0 <= k <= |ops|
      ensures 0 + Net(ops[..k]) >= 0
    {
      if k <= n {
        assert ops[..k] == Repeat(Start, k);
        NetRepeat(Start, k);
      } else {
        assert ops[..k] == Repeat(Start, n) + Repeat(Done, k - n);
        NetRepeat(Done, k - n);
        NetAppend(Repeat(Start, n), Repeat(Done, k - n));
      }
    }
    RunIsNet(0, ops);
  }

  function Repeat(op: Op, n: nat): (r: seq<Op>)
    ensures |r| == n && forall i :: 0 <= i < n ==> r[i] == op
  {
    if n == 0 then [] else [op] + Repeat(op, n - 1)
  }

  lemma {:induction false} NetRepeat(op: Op, n: nat)
    ensures Net(Repeat(op, n)) == n * Delta(op)
  {
    if n > 0 {
      NetRepeat(op, n - 1);
      assert Repeat(op, n)[1..] == Repeat(op, n - 1);
    }
  }

  lemma {:induction false} NetAppend(a: seq<Op>, b: seq<Op>)
    ensures Net(a + b) == Net(a) + Net(b)
    decreases |a|
  {
    if a != [] {
      assert (a + b)[1..] == a[1..] + b;
      NetAppend(a[1..], b);
    } else {
      assert a + b == b;
    }
  }

  /** Calls split anywhere run as the two halves one after the other. */
  lemma {:induction false} RunAppend(count: int, a: seq<Op>, b: seq<Op>)
    ensures Run(count, a + b) == Run(Run(count, a), b)
    decreases |a|
  {
    if a != [] {
      assert (a + b)[1..] == a[1..] + b;
      RunAppend(Apply(count, a[0]), a[1..], b);
    } else {
      assert a + b == b;
    }
  }

  /** After a reset the bar is hidden, whatever happened before. */
  lemma ResetHides(count: int, ops: seq<Op>)
    ensures !IsVisible(Run(count, ops + [Reset]))
  {
    RunAppend(count, ops, [Reset]);
  }

  /** A done with nothing pending is lost: a later start shows the bar. */
  lemma StrayDoneIgnored()
    ensures Run(0, [Done, Start]) == 1 && IsVisible(Run(0, [Done, Start]))
  {
  }
}
