/**
 * The hourly write-back of cached view counts into the `posts` table, in its
 * two versions: one takes each scanned page with an atomic `PopBatch`, the
 * other with a pipeline of `GETDEL` commands.
 *
 * The cache's replies are an input: one `Step` per loop iteration says what
 * the scan returned and how the page's take and write went, so every
 * interleaving Redis's non-snapshot `SCAN` allows is covered by some trace.
 */
module ViewFlush {
  import opened Common
  import opened ViewCount
  import PostRepo

  const ScanPattern: string := "blog:post:view_count:*"
  const ScanCount: nat := 100

  /**
   * What one iteration sees: a failed scan, or a page of keys with the next
   * cursor, the index from which taking the keys fails (if it does), and
   * whether the page's database write fails.
   */
  datatype Step =
    | ScanFailed
    | Page(keys: seq<string>, next: nat, fault: Option<nat>, dbFails: bool)

  /** The two versions of the pass. */
  datatype Variant = PopBatchVariant | GetDelVariant

  /** `nil`, the scan error, the error carrying how many failures were collected, or a trace too short to end the pass. */
  datatype FlushResult = Nil | CacheError | InternalError(count: nat) | TraceExhausted

  // ---------------------------------------------------------------------------
  // Entries taken out of the cache
  // ---------------------------------------------------------------------------

  function KeysOf(es: seq<Entry>): set<string> {
    set i | 0 <= i < |es| :: es[i].key
  }

  predicate DistinctKeys(es: seq<Entry>) {
    forall i, j :: 0 <= i < j < |es| ==> es[i].key != es[j].key
  }

  /** Entries taken from `cache`: one per key, each with the value the cache held. */
  predicate DrawnFrom(cache: Cache, es: seq<Entry>) {
    && DistinctKeys(es)
    && forall i :: 0 <= i < |es| ==> es[i].key in cache && cache[es[i].key] == es[i].value
  }

  function Without(cache: Cache, ks: set<string>): (r: Cache)
    ensures forall k :: k in r <==> k in cache && k !in ks
  {
    map k | k in cache && k !in ks :: cache[k]
  }

  lemma DrawnAppend(cache: Cache, a: seq<Entry>, b: seq<Entry>)
    requires DrawnFrom(cache, a)
    requires DrawnFrom(Without(cache, KeysOf(a)), b)
    ensures DrawnFrom(cache, a + b)
    ensures KeysOf(a + b) == KeysOf(a) + KeysOf(b)
    ensures Without(Without(cache, KeysOf(a)), KeysOf(b)) == Without(cache, KeysOf(a + b))
  {
    KeysOfAppend(a, b);
    DistinctAppend(cache, a, b);
  }

  lemma KeysOfAppend(a: seq<Entry>, b: seq<Entry>)
    ensures KeysOf(a + b) == KeysOf(a) + KeysOf(b)
  {
    var ab := a + b;
    forall x | x in KeysOf(ab) ensures x in KeysOf(a) + KeysOf(b) {
      var i :| 0 <= i < |ab| && ab[i].key == x;
      if i >= |a| { assert b[i - |a|].key == x; }
    }
    forall x | x in KeysOf(a) + KeysOf(b) ensures x in KeysOf(ab) {
      if x in KeysOf(a) {
        var i :| 0 <= i < |a| && a[i].key == x;
        assert ab[i].key == x;
      } else {
        var i :| 0 <= i < |b| && b[i].key == x;
        assert ab[|a| + i].key == x;
      }
    }
  }

  /** Entries drawn from the cache, then from what is left of it, are drawn from the cache. */
  lemma DistinctAppend(cache: Cache, a: seq<Entry>, b: seq<Entry>)
    requires DrawnFrom(cache, a)
    requires DrawnFrom(Without(cache, KeysOf(a)), b)
    ensures DrawnFrom(cache, a + b)
  {
    var ab := a + b;
    forall i, j | 0 <= i < j < |ab| ensures ab[i].key != ab[j].key {
      if i < |a| && j >= |a| {
        assert ab[i].key in KeysOf(a);
        assert ab[j] == b[j - |a|];
      }
    }
    forall i | 0 <= i < |ab| ensures ab[i].key in cache && cache[ab[i].key] == ab[i].value {
      if i >= |a| {
        assert ab[i] == b[i - |a|];
      }
    }
  }

  /** The listed keys the cache holds. */
  function Present(cache: Cache, keys: seq<string>): set<string> {
    set x | x in cache && x in keys
  }

  lemma KeysOfCons(e: Entry, es: seq<Entry>)
    ensures KeysOf([e] + es) == {e.key} + KeysOf(es)
  {
    var ees := [e] + es;
    assert ees[0].key == e.key;
    forall x | x in KeysOf(ees) ensures x in {e.key} + KeysOf(es) {
      var i :| 0 <= i < |ees| && ees[i].key == x;
      if i > 0 { assert es[i - 1].key == x; }
    }
    forall x | x in KeysOf(es) ensures x in KeysOf(ees) {
      var i :| 0 <= i < |es| && es[i].key == x;
      assert ees[i + 1].key == x;
    }
  }

  /** Taking the first key of a page out of the cache, then the rest. */
  lemma TakeFirst(cache: Cache, keys: seq<string>, e: Entry, es: seq<Entry>)
    requires |keys| > 0 && keys[0] in cache && e == Entry(keys[0], cache[keys[0]])
    requires DrawnFrom(cache - {keys[0]}, es)
    ensures DrawnFrom(cache, [e] + es)
    ensures KeysOf([e] + es) == {e.key} + KeysOf(es)
    ensures Without(cache - {keys[0]}, KeysOf(es)) == Without(cache, KeysOf([e] + es))
    ensures Present(cache, keys) == {keys[0]} + Present(cache - {keys[0]}, keys[1..])
  {
    KeysOfCons(e, es);
    var ees := [e] + es;
    forall i | 0 <= i < |ees| ensures ees[i].key in cache && cache[ees[i].key] == ees[i].value {
      if i > 0 { assert ees[i] == es[i - 1]; }
    }
    forall i, j | 0 <= i < j < |ees| ensures ees[i].key != ees[j].key {
      assert ees[j] == es[j - 1];
    }
    assert keys == [keys[0]] + keys[1..];
  }

  /** Skipping a first key the cache does not hold. */
  lemma SkipFirst(cache: Cache, keys: seq<string>)
    requires |keys| > 0 && keys[0] !in cache
    ensures Present(cache, keys) == Present(cache, keys[1..])
  {
    assert keys == [keys[0]] + keys[1..];
  }

  /** Pops the keys in order; a key already gone, or listed twice, yields nothing. */
  function PopKeys(cache: Cache, keys: seq<string>): (r: (Cache, seq<Entry>))
    ensures DrawnFrom(cache, r.1)
    ensures KeysOf(r.1) == Present(cache, keys)
    ensures r.0 == Without(cache, KeysOf(r.1))
    decreases |keys|
  {
    if |keys| == 0 then (cache, [])
    else
      var k := keys[0];
      if k in cache then
        var rest := PopKeys(cache - {k}, keys[1..]);
        var e := Entry(k, cache[k]);
        TakeFirst(cache, keys, e, rest.1);
        (rest.0, [e] + rest.1)
      else
        SkipFirst(cache, keys);
        PopKeys(cache, keys[1..])
  }

  /**
   * `PopBatch`: takes the page's keys atomically and returns what it took. A
   * fault at index `f` takes only the keys before `f` and reports an error
   * alongside the data it did return.
   */
  function PopBatch(cache: Cache, keys: seq<string>, fault: Option<nat>): (r: (Cache, seq<Entry>, bool))
    ensures DrawnFrom(cache, r.1)
    ensures r.0 == Without(cache, KeysOf(r.1))
    ensures KeysOf(r.1) <= Present(cache, keys)
    ensures r.2 <==> fault.Some?
    ensures fault.None? ==> KeysOf(r.1) == Present(cache, keys)
  {
    var n := match fault case None => |keys| case Some(f) => if f < |keys| then f else |keys|;
    var p := PopKeys(cache, keys[..n]);
    assert keys[..|keys|] == keys;
    assert forall x :: x in keys[..n] ==> x in keys;
    (p.0, p.1, fault.Some?)
  }

  /** What one `GETDEL` of the pipeline answered. */
  datatype Reply = Value(v: string) | NilReply | Failed

  /** The entries the pipeline removed: one per `Value` reply. */
  function ValueEntries(keys: seq<string>, replies: seq<Reply>): seq<Entry>
    requires |keys| == |replies|
    decreases |keys|
  {
    if |keys| == 0 then []
    else
      (match replies[0] case Value(v) => [Entry(keys[0], v)] case _ => [])
      + ValueEntries(keys[1..], replies[1..])
  }

  /**
   * The `(key, value)` pairs the parse loop sees: a `redis.Nil` reply reads
   * as the empty string, a failed command is skipped.
   */
  function ParsedEntries(keys: seq<string>, replies: seq<Reply>): seq<Entry>
    requires |keys| == |replies|
    decreases |keys|
  {
    if |keys| == 0 then []
    else
      (match replies[0] case Value(v) => [Entry(keys[0], v)] case NilReply => [Entry(keys[0], "")] case Failed => [])
      + ParsedEntries(keys[1..], replies[1..])
  }

  /**
   * Runs `GETDEL` for each key in order; commands from index `live` on fail
   * without running. A key present is returned and deleted; a missing key
   * answers `redis.Nil`.
   */
  function GetDelAll(cache: Cache, keys: seq<string>, live: nat): (r: (Cache, seq<Reply>))
    ensures |r.1| == |keys|
    ensures forall i :: 0 <= i < |keys| ==> (r.1[i] == Failed <==> i >= live)
    ensures DrawnFrom(cache, ValueEntries(keys, r.1))
    ensures r.0 == Without(cache, KeysOf(ValueEntries(keys, r.1)))
    ensures KeysOf(ValueEntries(keys, r.1)) <= Present(cache, keys)
    ensures live >= |keys| ==> KeysOf(ValueEntries(keys, r.1)) == Present(cache, keys)
    decreases |keys|
  {
    if |keys| == 0 then (cache, [])
    else
      var k := keys[0];
      assert keys == [k] + keys[1..];
      if live == 0 then
        var rest := GetDelAll(cache, keys[1..], 0);
        var replies := [Failed] + rest.1;
        assert replies[1..] == rest.1;
        assert ValueEntries(keys, replies) == ValueEntries(keys[1..], rest.1);
        assert Present(cache, keys[1..]) <= Present(cache, keys);
        (rest.0, replies)
      else if k in cache then
        var rest := GetDelAll(cache - {k}, keys[1..], live - 1);
        var replies := [Value(cache[k])] + rest.1;
        assert replies[1..] == rest.1;
        var e := Entry(k, cache[k]);
        assert ValueEntries(keys, replies) == [e] + ValueEntries(keys[1..], rest.1);
        TakeFirst(cache, keys, e, ValueEntries(keys[1..], rest.1));
        (rest.0, replies)
      else
        var rest := GetDelAll(cache, keys[1..], live - 1);
        var replies := [NilReply] + rest.1;
        assert replies[1..] == rest.1;
        assert ValueEntries(keys, replies) == ValueEntries(keys[1..], rest.1);
        SkipFirst(cache, keys);
        (rest.0, replies)
  }

  /** The empty string a missing key reads as is never a count. */
  lemma EmptyValueSkipped(key: string)
    ensures Contribution(Entry(key, "")).None?
  {
  }

  lemma AggregateIntoCons(acc: map<nat, int>, e: Entry, es: seq<Entry>)
    ensures AggregateInto(acc, [e] + es) == AggregateInto(AddEntry(acc, e), es)
  {
    assert ([e] + es)[1..] == es;
  }

  /** The parse loop sums exactly the values the pipeline removed. */
  lemma {:induction false} ParsedSumsValues(keys: seq<string>, replies: seq<Reply>, acc: map<nat, int>)
    requires |keys| == |replies|
    ensures AggregateInto(acc, ParsedEntries(keys, replies)) == AggregateInto(acc, ValueEntries(keys, replies))
    decreases |keys|
  {
    if |keys| > 0 {
      var p := ParsedEntries(keys[1..], replies[1..]);
      var v := ValueEntries(keys[1..], replies[1..]);
      match replies[0]
      case Value(x) =>
        ParsedSumsValues(keys[1..], replies[1..], AddEntry(acc, Entry(keys[0], x)));
        assert ParsedEntries(keys, replies) == [Entry(keys[0], x)] + p;
        assert ValueEntries(keys, replies) == [Entry(keys[0], x)] + v;
        AggregateIntoCons(acc, Entry(keys[0], x), p);
        AggregateIntoCons(acc, Entry(keys[0], x), v);
      case NilReply =>
        ParsedSumsValues(keys[1..], replies[1..], acc);
        EmptyValueSkipped(keys[0]);
        assert ParsedEntries(keys, replies) == [Entry(keys[0], "")] + p;
        assert ValueEntries(keys, replies) == v;
        AggregateIntoCons(acc, Entry(keys[0], ""), p);
      case Failed =>
        ParsedSumsValues(keys[1..], replies[1..], acc);
        assert ParsedEntries(keys, replies) == p;
        assert ValueEntries(keys, replies) == v;
    }
  }

  /** `Exec` reports the first command error; only a non-`redis.Nil` one fails the page. */
  predicate ExecFails(replies: seq<Reply>) {
    exists i :: 0 <= i < |replies| && replies[i] == Failed
              && forall j :: 0 <= j < i ==> replies[j].Value?
  }

  /** What taking one page out of the cache produced. */
  datatype Taken = Taken(cache: Cache, removed: seq<Entry>, counted: seq<Entry>, failed: bool, skip: bool)

  /**
   * Takes a page's keys. With `PopBatch`, the data returned is counted even
   * when an error is reported. With the pipeline, a failed `Exec` records an
   * error and skips the rest of the iteration, so values it already removed
   * are dropped.
   */
  function TakePage(variant: Variant, cache: Cache, keys: seq<string>, fault: Option<nat>): (t: Taken)
    ensures DrawnFrom(cache, t.removed)
    ensures t.cache == Without(cache, KeysOf(t.removed))
    ensures t.skip || Aggregate(t.counted) == Aggregate(t.removed)
    ensures t.skip ==> variant == GetDelVariant && t.failed && t.counted == []
    ensures t.failed ==> fault.Some?
    ensures variant == PopBatchVariant ==> (t.failed <==> fault.Some?)
    ensures variant == GetDelVariant ==> t.skip == t.failed
    ensures fault.None? ==> !t.failed && KeysOf(t.removed) == set k | k in cache && k in keys
  {
    match variant
    case PopBatchVariant =>
      var p := PopBatch(cache, keys, fault);
      Taken(p.0, p.1, p.1, p.2, false)
    case GetDelVariant =>
      var live := match fault case None => |keys| case Some(f) => f;
      var g := GetDelAll(cache, keys, live);
      var removed := ValueEntries(keys, g.1);
      ParsedSumsValues(keys, g.1, map[]);
      if ExecFails(g.1) then Taken(g.0, removed, [], true, true)
      else Taken(g.0, removed, ParsedEntries(keys, g.1), false, false)
  }

  // ---------------------------------------------------------------------------
  // The pass
  // ---------------------------------------------------------------------------

  /** What the pass has done so far. */
  datatype PassState = PassState(cache: Cache, posts: PostRepo.Posts, removed: seq<Entry>, written: seq<Entry>, errors: nat)

  /** Each live post holds its starting count plus the valid counts of the entries written. */
  predicate PostsAccount(posts0: PostRepo.Posts, posts: PostRepo.Posts, written: seq<Entry>) {
    && posts.Keys == posts0.Keys
    && forall k :: k in posts0 ==>
         posts[k] == posts0[k].(viewCount := posts0[k].viewCount + if posts0[k].deleted then 0 else SumFor(written, k))
  }

  /**
   * What holds between iterations: the cache lost exactly the removed keys,
   * the table gained exactly the written counts, and without a recorded
   * error everything removed was written.
   */
  predicate Accounted(cache0: Cache, posts0: PostRepo.Posts, st: PassState) {
    && DrawnFrom(cache0, st.removed)
    && st.cache == Without(cache0, KeysOf(st.removed))
    && PostsAccount(posts0, st.posts, st.written)
    && (st.errors == 0 ==> st.written == st.removed)
  }

  lemma WriteAccounts(posts0: PostRepo.Posts, posts: PostRepo.Posts, written: seq<Entry>, page: seq<Entry>)
    requires PostsAccount(posts0, posts, written)
    ensures PostsAccount(posts0, PostRepo.UpdateViewCounts(posts, Aggregate(page), false).0, written + page)
  {
    var u := PostRepo.UpdateViewCounts(posts, Aggregate(page), false).0;
    forall k | k in posts0
      ensures u[k] == posts0[k].(viewCount := posts0[k].viewCount + if posts0[k].deleted then 0 else SumFor(written + page, k))
    {
      AggregatePointwise(page, k);
      SumForAppend(written, page, k);
    }
  }

  /**
   * One non-empty page: take its keys, count what was taken, write the
   * per-post sums. Returns the new state and whether the rest of the
   * iteration (the write and the cursor check) was skipped.
   */
  function PageStep(variant: Variant, cache0: Cache, posts0: PostRepo.Posts, st: PassState,
                    keys: seq<string>, fault: Option<nat>, dbFails: bool): (r: (PassState, bool))
    requires Accounted(cache0, posts0, st)
    ensures Accounted(cache0, posts0, r.0)
    // A failed take records one error, and so does a write of a non-empty batch that fails.
    ensures var t := TakePage(variant, st.cache, keys, fault);
      r.0.errors == st.errors + (if t.failed then 1 else 0)
                    + (if !t.skip && dbFails && |Aggregate(t.counted)| > 0 then 1 else 0)
    ensures r.0.errors <= st.errors + (if fault.Some? then 1 else 0) + (if dbFails then 1 else 0)
    ensures variant == PopBatchVariant && fault.Some? ==> r.0.errors > st.errors
    ensures fault.None? && !dbFails ==> r.0.errors == st.errors && !r.1
    ensures r.1 ==> variant == GetDelVariant && fault.Some?
  {
    var t := TakePage(variant, st.cache, keys, fault);
    DrawnAppend(cache0, st.removed, t.removed);
    var removed := st.removed + t.removed;
    var errors := if t.failed then st.errors + 1 else st.errors;
    if t.skip then
      (PassState(t.cache, st.posts, removed, st.written, errors), true)
    else
      var u := PostRepo.UpdateViewCounts(st.posts, Aggregate(t.counted), dbFails);
      if u.1.Some? then
        (PassState(t.cache, u.0, removed, st.written, errors + 1), false)
      else
        WriteAccounts(posts0, st.posts, st.written, t.removed);
        (PassState(t.cache, u.0, removed, st.written + t.removed, errors), false)
  }

  /**
   * One iteration on a scanned page: an empty page only moves the cursor;
   * any other is taken and written. Returns the new state and whether the
   * pass ends here.
   */
  function PageIteration(variant: Variant, cache0: Cache, posts0: PostRepo.Posts, st: PassState, s: Step): (r: (PassState, bool))
    requires s.Page? && Accounted(cache0, posts0, st)
    ensures Accounted(cache0, posts0, r.0)
    ensures r.0.errors >= st.errors
    ensures r.0.errors <= st.errors + (if TakeFault(s) then 1 else 0) + (if WriteFault(s) then 1 else 0)
    ensures variant == PopBatchVariant && TakeFault(s) ==> r.0.errors > st.errors
    ensures r.1 ==> s.next == 0
    ensures !r.1 ==> Continues(variant, s)
  {
    if |s.keys| == 0 then (st, s.next == 0)
    else
      var p := PageStep(variant, cache0, posts0, st, s.keys, s.fault, s.dbFails);
      (p.0, !p.1 && s.next == 0)
  }

  /** A non-empty page whose take reports a fault. */
  predicate TakeFault(s: Step) {
    s.Page? && |s.keys| > 0 && s.fault.Some?
  }

  /** A non-empty page whose database write fails (if it is attempted). */
  predicate WriteFault(s: Step) {
    s.Page? && |s.keys| > 0 && s.dbFails
  }

  /** How many of the first `n` steps have a take fault. */
  function TakeFaults(steps: seq<Step>, n: nat): nat
    requires n <= |steps|
  {
    if n == 0 then 0 else TakeFaults(steps, n - 1) + if TakeFault(steps[n - 1]) then 1 else 0
  }

  /** How many of the first `n` steps have a write failure. */
  function WriteFaults(steps: seq<Step>, n: nat): nat
    requires n <= |steps|
  {
    if n == 0 then 0 else WriteFaults(steps, n - 1) + if WriteFault(steps[n - 1]) then 1 else 0
  }

  /**
   * What the errors recorded over the first `n` steps amount to: at most one
   * per take fault and one per write failure, every take fault with
   * `PopBatch`, and none exactly when those steps are clean.
   */
  predicate ErrorsBounded(variant: Variant, steps: seq<Step>, n: nat, errors: nat)
    requires n <= |steps|
  {
    && errors <= TakeFaults(steps, n) + WriteFaults(steps, n)
    && (variant == PopBatchVariant ==> errors >= TakeFaults(steps, n))
    && (Clean(steps, n) ==> errors == 0)
    && (errors > 0 ==> !Clean(steps, n))
  }

  /** One more iteration keeps the bound, given what `PageIteration` promises about it. */
  lemma ErrorsStep(variant: Variant, steps: seq<Step>, n: nat, e0: nat, e1: nat)
    requires n < |steps| && ErrorsBounded(variant, steps, n, e0)
    requires e0 <= e1 <= e0 + (if TakeFault(steps[n]) then 1 else 0) + (if WriteFault(steps[n]) then 1 else 0)
    requires variant == PopBatchVariant && TakeFault(steps[n]) ==> e1 > e0
    ensures ErrorsBounded(variant, steps, n + 1, e1)
  {
    CleanStep(steps, n);
  }

  /** The first `n + 1` steps are clean exactly when the first `n` are and step `n` is. */
  lemma CleanStep(steps: seq<Step>, n: nat)
    requires n < |steps|
    ensures Clean(steps, n + 1) <==> Clean(steps, n) && (steps[n].Page? ==> steps[n].fault.None? && !steps[n].dbFails)
  {
  }

  /** An iteration that does not end the pass: its page either has a next cursor or, in the pipeline version, failed. */
  predicate Continues(variant: Variant, s: Step) {
    s.Page? && (s.next == 0 ==> variant == GetDelVariant && |s.keys| > 0 && s.fault.Some?)
  }

  /** No take fault and no write failure in the first `n` steps. */
  predicate Clean(steps: seq<Step>, n: nat) {
    forall j :: 0 <= j < n && j < |steps| && steps[j].Page? ==> steps[j].fault.None? && !steps[j].dbFails
  }

  /**
   * What the loop of `Flush` keeps about the trace after `|scans|`
   * iterations: the cursors followed, why the pass goes on or why it ended.
   */
  predicate Traced(variant: Variant, steps: seq<Step>, scans: seq<nat>, cursor: nat, finished: bool, res: FlushResult) {
    && |scans| <= |steps|
    && (|scans| > 0 ==> scans[0] == 0)
    && (forall j :: 0 < j < |scans| ==> steps[j - 1].Page? && scans[j] == steps[j - 1].next)
    && (!finished ==> forall j :: 0 <= j < |scans| ==> Continues(variant, steps[j]))
    && (!finished && |scans| == 0 ==> cursor == 0)
    && (!finished && |scans| > 0 ==> steps[|scans| - 1].Page? && cursor == steps[|scans| - 1].next)
    && (finished ==> forall j :: 0 <= j < |scans| - 1 ==> Continues(variant, steps[j]))
    && (!finished ==> res == TraceExhausted)
    && (finished ==> |scans| > 0 && (res == CacheError || res == Nil))
    && (finished ==> (res == CacheError <==> steps[|scans| - 1].ScanFailed?))
    && (finished && res != CacheError ==> steps[|scans| - 1].Page? && steps[|scans| - 1].next == 0)
  }

  /** A failed scan ends the pass with the cache error. */
  lemma TraceScanFailed(variant: Variant, steps: seq<Step>, scans: seq<nat>, cursor: nat)
    requires Traced(variant, steps, scans, cursor, false, TraceExhausted)
    requires |scans| < |steps| && steps[|scans|].ScanFailed?
    ensures Traced(variant, steps, scans + [cursor], cursor, true, CacheError)
  {
    var s := scans + [cursor];
    forall j | 0 < j < |s| ensures steps[j - 1].Page? && s[j] == steps[j - 1].next {
      if j < |scans| {
        assert s[j] == scans[j];
      }
    }
    assert |scans| > 0 ==> s[0] == scans[0];
    assert forall j :: 0 <= j < |s| - 1 ==> Continues(variant, steps[j]);
  }

  /** A page either ends the pass with cursor 0, or continues it from its cursor. */
  lemma TracePage(variant: Variant, steps: seq<Step>, scans: seq<nat>, cursor: nat, ends: bool)
    requires Traced(variant, steps, scans, cursor, false, TraceExhausted)
    requires |scans| < |steps| && steps[|scans|].Page?
    requires ends ==> steps[|scans|].next == 0
    requires !ends ==> Continues(variant, steps[|scans|])
    ensures Traced(variant, steps, scans + [cursor], steps[|scans|].next, ends, if ends then Nil else TraceExhausted)
  {
    var s := scans + [cursor];
    forall j | 0 < j < |s| ensures steps[j - 1].Page? && s[j] == steps[j - 1].next {
      if j < |scans| {
        assert s[j] == scans[j];
      }
    }
    assert |scans| > 0 ==> s[0] == scans[0];
    assert forall j :: 0 <= j < |s| - 1 ==> Continues(variant, steps[j]);
    if !ends {
      assert forall j :: 0 <= j < |s| ==> Continues(variant, steps[j]);
    }
  }

  /** When the loop stops, the trace shows how the pass went. */
  lemma TraceEnds(variant: Variant, steps: seq<Step>, scans: seq<nat>, cursor: nat, finished: bool, res: FlushResult)
    requires Traced(variant, steps, scans, cursor, finished, res)
    requires |scans| == |steps| || finished
    ensures |steps| > 0 ==> |scans| > 0 && scans[0] == 0
    ensures forall j :: 0 <= j < |scans| - 1 ==> Continues(variant, steps[j])
    ensures res == CacheError ==> |scans| > 0 && steps[|scans| - 1].ScanFailed?
    ensures res.Nil? ==> |scans| > 0 && steps[|scans| - 1].Page? && steps[|scans| - 1].next == 0
    ensures res == TraceExhausted ==> |scans| == |steps|
  {
  }

  /**
   * One iteration of the loop on step `|scans|`: a failed scan ends the pass
   * with the cache error; a page is taken and written, and ends the pass
   * when its cursor is 0.
   */
  function Iterate(variant: Variant, cache0: Cache, posts0: PostRepo.Posts, steps: seq<Step>,
                   st: PassState, scans: seq<nat>, cursor: nat): (r: (PassState, seq<nat>, nat, bool, FlushResult))
    requires |scans| < |steps|
    requires Traced(variant, steps, scans, cursor, false, TraceExhausted)
    requires Accounted(cache0, posts0, st)
    requires ErrorsBounded(variant, steps, |scans|, st.errors)
    ensures |r.1| == |scans| + 1
    ensures Traced(variant, steps, r.1, r.2, r.3, r.4)
    ensures Accounted(cache0, posts0, r.0)
    ensures ErrorsBounded(variant, steps, |r.1|, r.0.errors)
  {
    if steps[|scans|].ScanFailed? then ScanFailedIteration(variant, cache0, posts0, steps, st, scans, cursor)
    else PageIterationStep(variant, cache0, posts0, steps, st, scans, cursor)
  }

  /** A failed scan: the state is kept and the pass ends with the cache error. */
  function ScanFailedIteration(variant: Variant, cache0: Cache, posts0: PostRepo.Posts, steps: seq<Step>,
                   st: PassState, scans: seq<nat>, cursor: nat): (r: (PassState, seq<nat>, nat, bool, FlushResult))
    requires |scans| < |steps|
    requires Traced(variant, steps, scans, cursor, false, TraceExhausted)
    requires Accounted(cache0, posts0, st)
    requires ErrorsBounded(variant, steps, |scans|, st.errors)
    requires steps[|scans|].ScanFailed?
    ensures |r.1| == |scans| + 1
    ensures Traced(variant, steps, r.1, r.2, r.3, r.4)
    ensures Accounted(cache0, posts0, r.0)
    ensures ErrorsBounded(variant, steps, |r.1|, r.0.errors)
    ensures r.3 && r.4 == CacheError && r.0 == st
  {
    ErrorsStep(variant, steps, |scans|, st.errors, st.errors);
    TraceScanFailed(variant, steps, scans, cursor);
    (st, scans + [cursor], cursor, true, CacheError)
  }

  /** A page: taken and written, ending the pass with `nil` when its cursor is 0 and it was not skipped. */
  function PageIterationStep(variant: Variant, cache0: Cache, posts0: PostRepo.Posts, steps: seq<Step>,
                   st: PassState, scans: seq<nat>, cursor: nat): (r: (PassState, seq<nat>, nat, bool, FlushResult))
    requires |scans| < |steps|
    requires Traced(variant, steps, scans, cursor, false, TraceExhausted)
    requires Accounted(cache0, posts0, st)
    requires ErrorsBounded(variant, steps, |scans|, st.errors)
    requires steps[|scans|].Page?
    ensures |r.1| == |scans| + 1
    ensures Traced(variant, steps, r.1, r.2, r.3, r.4)
    ensures Accounted(cache0, posts0, r.0)
    ensures ErrorsBounded(variant, steps, |r.1|, r.0.errors)
    ensures r.2 == steps[|scans|].next
  {
    var step := steps[|scans|];
    var p := PageIteration(variant, cache0, posts0, st, step);
    ErrorsStep(variant, steps, |scans|, st.errors, p.0.errors);
    TracePage(variant, steps, scans, cursor, p.1);
    (p.0, scans + [cursor], step.next, p.1, if p.1 then Nil else TraceExhausted)
  }

  /**
   * The loop of `FlushViewCountToDB`: one iteration per step until a failed
   * scan, a page with cursor 0, or the end of the trace. Returns the pass's
   * state, the cursors scanned, and how the loop ended.
   */
  method Pass(variant: Variant, cache0: Cache, posts0: PostRepo.Posts, steps: seq<Step>)
    returns (st: PassState, scans: seq<nat>, cursor: nat, finished: bool, res: FlushResult)
    ensures Traced(variant, steps, scans, cursor, finished, res)
    ensures Accounted(cache0, posts0, st)
    ensures ErrorsBounded(variant, steps, |scans|, st.errors)
    ensures |scans| == |steps| || finished
  {
    st := PassState(cache0, posts0, [], [], 0);
    scans := [];
    cursor := 0;
    finished := false;
    res := TraceExhausted;
    while |scans| < |steps| && !finished
      invariant Traced(variant, steps, scans, cursor, finished, res)
      invariant Accounted(cache0, posts0, st)
      invariant ErrorsBounded(variant, steps, |scans|, st.errors)
      decreases |steps| - |scans|
    {
      var r := Iterate(variant, cache0, posts0, steps, st, scans, cursor);
      st, scans, cursor, finished, res := r.0, r.1, r.2, r.3, r.4;
    }
  }

  /**
   * `FlushViewCountToDB`. Returns the outcome, the cache and table after the
   * pass, the entries removed from the cache, the entries whose page write
   * went through, and the cursor passed to each scan.
   */
  method Flush(variant: Variant, cache0: Cache, posts0: PostRepo.Posts, steps: seq<Step>)
    returns (res: FlushResult, cache: Cache, posts: PostRepo.Posts, removed: seq<Entry>, written: seq<Entry>, scans: seq<nat>, errors: nat)
    // Scans start at cursor 0 and follow the returned cursors.
    ensures |scans| <= |steps|
    ensures |steps| > 0 ==> |scans| > 0 && scans[0] == 0
    ensures forall j :: 0 < j < |scans| ==> steps[j - 1].Page? && scans[j] == steps[j - 1].next
    // Only a failed scan or a page with cursor 0 ends the pass.
    ensures forall j :: 0 <= j < |scans| - 1 ==> Continues(variant, steps[j])
    ensures res == CacheError ==> |scans| > 0 && steps[|scans| - 1].ScanFailed?
    ensures res.Nil? || res.InternalError? ==> |scans| > 0 && steps[|scans| - 1].Page? && steps[|scans| - 1].next == 0
    ensures res == TraceExhausted ==> |scans| == |steps|
    // Every removed key is removed once, with the value the cache held.
    ensures DrawnFrom(cache0, removed)
    ensures cache == Without(cache0, KeysOf(removed))
    // Each live post gains exactly the valid counts of the pages written for it.
    ensures PostsAccount(posts0, posts, written)
    // A pass that reaches cursor 0 returns `nil` exactly when no error was
    // recorded, and otherwise the error carrying how many were recorded.
    ensures res.Nil? || res.InternalError? ==> (res.Nil? <==> errors == 0)
    ensures res.InternalError? ==> res.count == errors
    // Each recorded error is a take fault or a write failure of some page,
    // and with `PopBatch` every take fault is recorded.
    ensures errors <= TakeFaults(steps, |scans|) + WriteFaults(steps, |scans|)
    ensures variant == PopBatchVariant ==> errors >= TakeFaults(steps, |scans|)
    // `nil` means nothing was lost.
    ensures errors == 0 ==> written == removed
    ensures res.Nil? ==> written == removed
    ensures res.InternalError? ==> res.count > 0 && !Clean(steps, |scans|)
    ensures Clean(steps, |scans|) ==> written == removed
  {
    var st, cursor, finished;
    st, scans, cursor, finished, res := Pass(variant, cache0, posts0, steps);
    TraceEnds(variant, steps, scans, cursor, finished, res);
    cache, posts, removed, written, errors := st.cache, st.posts, st.removed, st.written, st.errors;
    if res == Nil && st.errors > 0 {
      res := InternalError(st.errors);
    }
  }
}
