/**
 * The view counter held in the cache: the per-post key a read increments,
 * how the write-back parses keys and counts back, and how it sums the counts
 * of one page per post.
 */
module ViewCount {
  import opened Common
  import opened Text
  import PostRepo

  /** The cache, key to string value. */
  type Cache = map<string, string>

  const KeyPrefix: string := "blog:post:view_count:"

  /** `fmt.Sprintf("blog:post:view_count:%d", id)`. */
  function Key(id: nat): (k: string)
    ensures HasPrefix(k, KeyPrefix)
  {
    KeyPrefix + NatToString(id)
  }

  /**
   * The post ID a key names: its last `:`-separated part as an unsigned
   * 64-bit decimal, provided the key has at least four parts.
   */
  function ParseKeyId(key: string): (r: Option<nat>)
    ensures r.Some? ==> r.value <= MaxUint64
  {
    var parts := Split(key, ':');
    if |parts| < 4 then None else ParseUint64(parts[|parts| - 1])
  }

  /** A count the write-back keeps: a base-10 int64 other than zero. */
  function ParseCount(value: string): (r: Option<int>)
    ensures r.Some? ==> r.value != 0 && MinInt64 <= r.value <= MaxInt64
  {
    match ParseInt64(value)
    case Some(c) => if c == 0 then None else Some(c)
    case None => None
  }

  /** The key of every post ID in range is attributed back to that ID. */
  lemma ParseKeyIdOfKey(id: nat)
    requires id <= MaxUint64
    ensures ParseKeyId(Key(id)) == Some(id)
  {
    var digits := NatToString(id);
    assert ':' !in digits by {
      forall i | 0 <= i < |digits| ensures digits[i] != ':' {
        assert IsDigit(digits[i]);
      }
    }
    KeyPrefixParts();
    SplitFour("blog", "post", "view_count", digits, ':');
    ParseUint64OfNatToString(id);
  }

  /** The key prefix is three colon-free words, each followed by a colon. */
  lemma KeyPrefixParts()
    ensures KeyPrefix == "blog" + [':'] + "post" + [':'] + "view_count" + [':']
    ensures ':' !in "blog" && ':' !in "post" && ':' !in "view_count"
  {
  }

  /** Four separator-free words joined by the separator split back into the four. */
  lemma SplitFour(a: string, b: string, c: string, d: string, sep: char)
    requires sep !in a && sep !in b && sep !in c && sep !in d
    ensures Split(a + [sep] + b + [sep] + c + [sep] + d, sep) == [a, b, c, d]
  {
    var cd := c + [sep] + d;
    var bcd := b + [sep] + cd;
    SplitNoSep(d, sep);
    SplitPrefix(c, sep, d);
    SplitPrefix(b, sep, cd);
    SplitPrefix(a, sep, bcd);
    Regroup(a, b, c, d, [sep]);
    assert [a] + ([b] + ([c] + [d])) == [a, b, c, d];
  }

  lemma Regroup(a: string, b: string, c: string, d: string, x: string)
    ensures a + x + b + x + c + x + d == a + x + (b + x + (c + x + d))
  {
  }

  /** Keys with fewer than four parts are never attributed to a post. */
  lemma ShortKeyIgnored(key: string)
    requires |Split(key, ':')| < 4
    ensures ParseKeyId(key) == None
  {
  }

  // ---------------------------------------------------------------------------
  // Aggregation of one page
  // ---------------------------------------------------------------------------

  /** A key and the value the cache held for it. */
  datatype Entry = Entry(key: string, value: string)

  /** The (post ID, count) an entry contributes, if it passes both filters. */
  function Contribution(e: Entry): (r: Option<(nat, int)>)
    ensures r.Some? ==> r.value.1 != 0 && ParseCount(e.value) == Some(r.value.1) && ParseKeyId(e.key) == Some(r.value.0)
    ensures r.None? ==> ParseCount(e.value).None? || ParseKeyId(e.key).None?
  {
    match ParseCount(e.value)
    case None => None
    case Some(c) =>
      match ParseKeyId(e.key)
      case None => None
      case Some(id) => Some((id, c))
  }

  /** `updates[id] += count`. */
  function Add(m: map<nat, int>, id: nat, c: int): map<nat, int> {
    m[id := PostRepo.Delta(m, id) + c]
  }

  /** One iteration of the parse loop: adds the entry's count, if it has one. */
  function AddEntry(acc: map<nat, int>, e: Entry): map<nat, int> {
    match Contribution(e)
    case None => acc
    case Some((id, c)) => Add(acc, id, c)
  }

  /** Folds the entries into `acc` in order, skipping those that fail a filter. */
  function AggregateInto(acc: map<nat, int>, es: seq<Entry>): map<nat, int>
    decreases |es|
  {
    if |es| == 0 then acc else AggregateInto(AddEntry(acc, es[0]), es[1..])
  }

  /** The per-post update map built from one page of entries. */
  function Aggregate(es: seq<Entry>): map<nat, int> {
    AggregateInto(map[], es)
  }

  /** Reference definition: the sum of the valid counts that name `id`. */
  function SumFor(es: seq<Entry>, id: nat): int
    decreases |es|
  {
    if |es| == 0 then 0 else Share(es[0], id) + SumFor(es[1..], id)
  }

  /** What one entry adds to post `id`'s total. */
  function Share(e: Entry, id: nat): int {
    match Contribution(e)
    case Some((j, c)) => if j == id then c else 0
    case None => 0
  }

  /** Reference definition: the sum of every valid count. */
  function SumValid(es: seq<Entry>): int
    decreases |es|
  {
    if |es| == 0 then 0
    else
      (match Contribution(es[0])
       case Some((_, c)) => c
       case None => 0)
      + SumValid(es[1..])
  }

  /** Some entry passes both filters and names `id`. */
  predicate Names(es: seq<Entry>, id: nat) {
    exists i :: 0 <= i < |es| && Contribution(es[i]).Some? && Contribution(es[i]).value.0 == id
  }

  lemma {:induction false} AggregateIntoPointwise(acc: map<nat, int>, es: seq<Entry>, id: nat)
    ensures PostRepo.Delta(AggregateInto(acc, es), id) == PostRepo.Delta(acc, id) + SumFor(es, id)
    ensures id in AggregateInto(acc, es) <==> id in acc || Names(es, id)
    decreases |es|
  {
    if |es| > 0 {
      AggregateIntoPointwise(AddEntry(acc, es[0]), es[1..], id);
      NamesCons(es, id);
    }
  }

  /** An entry names the post in `es` when the first does or one of the rest does. */
  lemma NamesCons(es: seq<Entry>, id: nat)
    requires |es| > 0
    ensures Names(es, id) <==> (Contribution(es[0]).Some? && Contribution(es[0]).value.0 == id) || Names(es[1..], id)
  {
    if Names(es[1..], id) {
      var i :| 0 <= i < |es[1..]| && Contribution(es[1..][i]).Some? && Contribution(es[1..][i]).value.0 == id;
      assert es[i + 1] == es[1..][i];
    }
    if Names(es, id) && !(Contribution(es[0]).Some? && Contribution(es[0]).value.0 == id) {
      var i :| 0 <= i < |es| && Contribution(es[i]).Some? && Contribution(es[i]).value.0 == id;
      assert es[1..][i - 1] == es[i];
    }
  }

  /**
   * The update map of a page holds, for each post, exactly the sum of that
   * post's valid counts, and has an entry exactly for the posts some valid
   * entry names.
   */
  lemma AggregatePointwise(es: seq<Entry>, id: nat)
    ensures PostRepo.Delta(Aggregate(es), id) == SumFor(es, id)
    ensures id in Aggregate(es) <==> Names(es, id)
  {
    AggregateIntoPointwise(map[], es, id);
  }

  /** A page with no valid entry produces an empty update map, so no write. */
  lemma AggregateEmpty(es: seq<Entry>)
    ensures |Aggregate(es)| == 0 <==> forall i :: 0 <= i < |es| ==> Contribution(es[i]).None?
  {
    if exists i :: 0 <= i < |es| && Contribution(es[i]).Some? {
      var i :| 0 <= i < |es| && Contribution(es[i]).Some?;
      AggregatePointwise(es, Contribution(es[i]).value.0);
    }
    if |Aggregate(es)| > 0 {
      var id :| id in Aggregate(es);
      AggregatePointwise(es, id);
    }
  }

  lemma {:induction false} SumForAppend(a: seq<Entry>, b: seq<Entry>, id: nat)
    ensures SumFor(a + b, id) == SumFor(a, id) + SumFor(b, id)
    decreases |a|
  {
    if |a| > 0 {
      SumForAppend(a[1..], b, id);
      assert (a + b)[0] == a[0];
      assert (a + b)[1..] == a[1..] + b;
      calc {
        SumFor(a + b, id);
        Share(a[0], id) + SumFor(a[1..] + b, id);
        Share(a[0], id) + SumFor(a[1..], id) + SumFor(b, id);
      }
    } else {
      assert a + b == b;
    }
  }

  // ---------------------------------------------------------------------------
  // Conservation: the total of the update map is the total of valid counts
  // ---------------------------------------------------------------------------

  /** Some key of a non-empty map. */
  ghost function PickKey(m: map<nat, int>): (k: nat)
    requires |m| > 0
    ensures k in m
  {
    var k: nat :| k in m; k
  }

  /** The sum of the values of a map. */
  ghost function MapSum(m: map<nat, int>): int
    decreases |m|
  {
    if |m| == 0 then 0
    else
      var k := PickKey(m);
      m[k] + MapSum(m - {k})
  }

  lemma {:induction false} MapSumRemove(m: map<nat, int>, k: nat)
    requires k in m
    ensures MapSum(m) == m[k] + MapSum(m - {k})
    decreases |m|
  {
    var j: nat := PickKey(m);
    if j != k {
      var mj := m - {j};
      var mk := m - {k};
      assert k in mj && j in mk;
      assert |mj| < |m| && |mk| < |m|;
      MapSumRemove(mj, k);
      MapSumRemove(mk, j);
      assert mj - {k} == mk - {j};
      assert mj[k] == m[k] && mk[j] == m[j];
    }
  }

  lemma MapSumAdd(m: map<nat, int>, id: nat, c: int)
    ensures MapSum(Add(m, id, c)) == MapSum(m) + c
  {
    var m' := Add(m, id, c);
    MapSumRemove(m', id);
    if id in m {
      MapSumRemove(m, id);
      assert m' - {id} == m - {id};
    } else {
      assert m' - {id} == m;
    }
  }

  lemma {:induction false} AggregateIntoConserves(acc: map<nat, int>, es: seq<Entry>)
    ensures MapSum(AggregateInto(acc, es)) == MapSum(acc) + SumValid(es)
    decreases |es|
  {
    if |es| > 0 {
      match Contribution(es[0])
      case None =>
        AggregateIntoConserves(acc, es[1..]);
      case Some((id, c)) =>
        MapSumAdd(acc, id, c);
        AggregateIntoConserves(AddEntry(acc, es[0]), es[1..]);
    }
  }

  /** Conservation: the deltas written for a page add up to the page's valid counts. */
  lemma AggregateConserves(es: seq<Entry>)
    ensures MapSum(Aggregate(es)) == SumValid(es)
  {
    AggregateIntoConserves(map[], es);
    var empty: map<nat, int> := map[];
    assert |empty| == 0;
  }

  // ---------------------------------------------------------------------------
  // The increment on read
  // ---------------------------------------------------------------------------

  datatype IncrError = CacheUnavailable | NotAnInteger | Overflow

  /**
   * Redis `INCR`: a missing key becomes "1"; an integer value goes up by one;
   * a non-integer value, an int64 overflow or an unreachable cache is an error
   * that leaves the cache unchanged.
   */
  function Incr(cache: Cache, key: string, down: bool): (r: Result<(Cache, int), IncrError>)
    ensures r.Ok? ==> r.value.0.Keys == cache.Keys + {key}
    ensures r.Ok? ==> forall k :: k in cache && k != key ==> r.value.0[k] == cache[k]
    ensures r.Ok? && key !in cache ==> r.value.1 == 1
    ensures r.Ok? && key in cache ==> ParseInt64(cache[key]) == Some(r.value.1 - 1)
    ensures r.Ok? ==> ParseInt64(r.value.0[key]) == Some(r.value.1)
    ensures r.Err? ==> (r.error == CacheUnavailable <==> down)
  {
    if down then Err(CacheUnavailable)
    else if key !in cache then
      ParseInt64OfIntToString(1);
      Ok((cache[key := IntToString(1)], 1))
    else
      match ParseInt64(cache[key])
      case None => Err(NotAnInteger)
      case Some(v) =>
        if v == MaxInt64 then Err(Overflow)
        else
          ParseInt64OfIntToString(v + 1);
          Ok((cache[key := IntToString(v + 1)], v + 1))
  }

  /**
   * Reading one post: a lookup failure returns before touching the cache;
   * after a successful lookup the post's counter is incremented, and a failed
   * increment is only logged.
   */
  function GetPostByID(posts: PostRepo.Posts, cache: Cache, id: nat, dbFails: bool, cacheDown: bool)
    : (r: Result<(PostRepo.Post, Cache), PostRepo.RepoError>)
    ensures r.Err? ==> PostRepo.GetPostByID(posts, id, dbFails).Err?
    ensures r.Ok? ==> PostRepo.GetPostByID(posts, id, dbFails) == Ok(r.value.0)
    ensures r.Ok? ==> forall k :: k != Key(r.value.0.id) ==> (k in r.value.1 <==> k in cache)
    ensures r.Ok? ==> forall k :: k in cache && k != Key(r.value.0.id) ==> r.value.1[k] == cache[k]
    ensures r.Ok? && cacheDown ==> r.value.1 == cache
  {
    var post :- PostRepo.GetPostByID(posts, id, dbFails);
    match Incr(cache, Key(post.id), cacheDown)
    case Ok((cache', _)) => Ok((post, cache'))
    case Err(_) => Ok((post, cache))
  }

  /**
   * A read of a published post leaves a counter the write-back attributes to
   * that post, holding one more than before (starting from zero).
   */
  lemma ReadCountsForPost(posts: PostRepo.Posts, cache: Cache, id: nat)
    requires PostRepo.WellKeyed(posts)
    requires id in posts && PostRepo.Visible(posts[id]) && id <= MaxUint64
    requires Key(id) in cache ==> ParseCount(cache[Key(id)]).Some? && ParseCount(cache[Key(id)]).value < MaxInt64
    ensures GetPostByID(posts, cache, id, false, false).Ok?
    ensures var c := GetPostByID(posts, cache, id, false, false).value.1;
      && ParseKeyId(Key(id)) == Some(id)
      && ParseInt64(c[Key(id)]) == Some((if Key(id) in cache then ParseCount(cache[Key(id)]).value else 0) + 1)
  {
    ParseKeyIdOfKey(id);
  }
}
