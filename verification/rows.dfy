/**
 * Row selection shared by the repository queries: a `WHERE` clause as a
 * filter over the rows of a table, and `LIMIT`/`OFFSET` as a window over an
 * ordered result.
 */
module Rows {

  /** The rows satisfying `p`, in table order. */
  function Filter<T(!new)>(p: T -> bool, s: seq<T>): (r: seq<T>)
    ensures |r| <= |s|
    ensures forall i :: 0 <= i < |r| ==> p(r[i])
    ensures forall x :: multiset(r)[x] == if p(x) then multiset(s)[x] else 0
  {
    if |s| == 0 then []
    else
      assert s == [s[0]] + s[1..];
      if p(s[0]) then [s[0]] + Filter(p, s[1..]) else Filter(p, s[1..])
  }

  /** A row is selected exactly when it is in the table and satisfies `p`. */
  lemma FilterMembers<T(!new)>(p: T -> bool, s: seq<T>, x: T)
    ensures x in Filter(p, s) <==> x in s && p(x)
  {
    assert x in Filter(p, s) <==> multiset(Filter(p, s))[x] > 0;
    assert x in s <==> multiset(s)[x] > 0;
  }

  /** Filtering twice by the same condition selects nothing new. */
  lemma {:induction false} FilterIdempotent<T(!new)>(p: T -> bool, s: seq<T>)
    ensures Filter(p, Filter(p, s)) == Filter(p, s)
  {
    if |s| > 0 {
      FilterIdempotent(p, s[1..]);
    }
  }

  /** The first row `OFFSET offset` keeps; a non-positive offset is not applied. */
  function Start(len: nat, offset: int): (start: nat)
    ensures start <= len
    ensures offset <= 0 ==> start == 0
    ensures 0 < offset <= len ==> start == offset
  {
    if offset <= 0 then 0 else if offset <= len then offset else len
  }

  /**
   * `LIMIT limit OFFSET offset` over an ordered result; each clause is
   * added to the query only when its argument is positive.
   */
  function Window<T>(s: seq<T>, limit: int, offset: int): (r: seq<T>)
    ensures limit > 0 ==> |r| <= limit
    ensures |r| <= |s|
    ensures limit <= 0 ==> |r| == |s| - Start(|s|, offset)
    ensures limit > 0 ==> |r| == if limit < |s| - Start(|s|, offset) then limit else |s| - Start(|s|, offset)
    ensures forall i :: 0 <= i < |r| ==> r[i] == s[Start(|s|, offset) + i]
  {
    var start := Start(|s|, offset);
    var rest := s[start..];
    if limit > 0 && limit < |rest| then rest[..limit] else rest
  }

  /** Neither clause applied: the whole result. */
  lemma WindowAll<T>(s: seq<T>)
    ensures Window(s, 0, 0) == s
  {
  }

  /**
   * Paging: the page of `a` rows at `offset` followed by the page of `b`
   * rows right after it is the page of `a + b` rows at `offset`.
   */
  lemma WindowPages<T>(s: seq<T>, a: nat, b: nat, offset: nat)
    requires a > 0 && b > 0
    ensures Window(s, a, offset) + Window(s, b, offset + a) == Window(s, a + b, offset)
  {
    var p := Window(s, a, offset);
    var q := Window(s, b, offset + a);
    var w := Window(s, a + b, offset);
    var st := Start(|s|, offset);
    if offset + a <= |s| {
      assert |p| == a;
      assert Start(|s|, offset + a) == st + a;
      assert |p + q| == |w|;
      forall i | 0 <= i < |w| ensures (p + q)[i] == w[i] {
        if i < a {
          assert (p + q)[i] == p[i];
        } else {
          assert (p + q)[i] == q[i - a];
        }
      }
    } else {
      assert |q| == 0;
      assert p + q == p;
    }
  }

  /** `UPDATE .. SET .. WHERE p`: rows satisfying `p` are rewritten by `f`, the rest kept, in place. */
  function Update<T>(p: T -> bool, f: T -> T, s: seq<T>): (r: seq<T>)
    ensures |r| == |s|
    ensures forall i :: 0 <= i < |s| && !p(s[i]) ==> r[i] == s[i]
    ensures forall i :: 0 <= i < |s| && p(s[i]) ==> r[i] == f(s[i])
  {
    seq(|s|, i requires 0 <= i < |s| => if p(s[i]) then f(s[i]) else s[i])
  }
}
