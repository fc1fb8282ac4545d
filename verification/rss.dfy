/**
 * `GenerateRSSFeedXML`: the RSS 2.0 channel built from the published posts,
 * newest first. The XML encoding and the RFC 1123 date text are not part of
 * this model; dates stay timestamps.
 */
module Rss {
  import opened Common
  import opened Text
  import opened Sorting
  import opened Errs

  /** The fields of a post the feed reads. A post without a summary has a nil `Summary`. */
  datatype Entry = Entry(id: nat, title: string, summary: Option<string>, updatedAt: int)

  datatype Item = Item(title: string, link: string, guid: string, pubDate: int, description: Option<string>)

  datatype Channel = Channel(title: string, link: string, description: string, items: seq<Item>, lastBuild: int)

  datatype Feed = Feed(version: string, channel: Channel)

  const BlogPath: string := "/blog/"

  /** The public address of a post: the site domain, `/blog/`, the decimal ID. */
  function ItemLink(domain: string, id: nat): (link: string)
    ensures HasPrefix(link, domain + BlogPath)
  {
    domain + BlogPath + NatToString(id)
  }

  /** The post ID a feed link points at, when the link is one of the site's post addresses. */
  function LinkId(domain: string, link: string): (r: Option<nat>)
    ensures r.Some? ==> HasPrefix(link, domain + BlogPath)
  {
    var prefix := domain + BlogPath;
    if HasPrefix(link, prefix) then ParseUint64(link[|prefix|..]) else None
  }

  /** Every post address leads back to its post. */
  lemma LinkIdOfItemLink(domain: string, id: nat)
    requires id <= MaxUint64
    ensures LinkId(domain, ItemLink(domain, id)) == Some(id)
  {
    var link := ItemLink(domain, id);
    assert link[|domain + BlogPath|..] == NatToString(id);
    ParseUint64OfNatToString(id);
  }

  /** Distinct posts get distinct links, so the GUIDs of a feed are unique. */
  lemma ItemLinkInjective(domain: string, a: nat, b: nat)
    requires ItemLink(domain, a) == ItemLink(domain, b)
    ensures a == b
  {
    var n := |domain + BlogPath|;
    assert ItemLink(domain, a)[n..] == NatToString(a);
    assert ItemLink(domain, b)[n..] == NatToString(b);
    NatToStringInjective(a, b);
  }

  function ItemOf(domain: string, p: Entry): Item {
    var link := ItemLink(domain, p.id);
    Item(p.title, link, link, p.updatedAt, p.summary)
  }

  function UpdatedAt(p: Entry): int { p.updatedAt }

  /** `UpdatedAt.After`: newest first. */
  function NewestFirst(): (Entry, Entry) -> bool { IntKeyDesc(UpdatedAt) }

  /**
   * The posts newest first. `sort.Slice` leaves the order of equal
   * timestamps open; this is one admissible order.
   */
  function Ordered(posts: seq<Entry>): (r: seq<Entry>)
    ensures multiset(r) == multiset(posts)
    ensures forall i, j :: 0 <= i < j < |r| ==> r[i].updatedAt >= r[j].updatedAt
  {
    IntKeyDescPreorder(UpdatedAt);
    SortBySorted(NewestFirst(), posts);
    var r := SortBy(NewestFirst(), posts);
    forall i, j | 0 <= i < j < |r| ensures r[i].updatedAt >= r[j].updatedAt {
      assert NewestFirst()(r[i], r[j]);
      assert IntKeyDesc(UpdatedAt)(r[i], r[j]) == (UpdatedAt(r[j]) <= UpdatedAt(r[i]));
    }
    r
  }

  /** One item per post, in the order given. */
  function Items(domain: string, s: seq<Entry>): (r: seq<Item>)
    ensures |r| == |s|
  {
    if |s| == 0 then [] else [ItemOf(domain, s[0])] + Items(domain, s[1..])
  }

  lemma {:induction false} ItemsAt(domain: string, s: seq<Entry>)
    ensures forall i :: 0 <= i < |s| ==> Items(domain, s)[i] == ItemOf(domain, s[i])
  {
    if |s| > 0 {
      ItemsAt(domain, s[1..]);
      ItemsCons(domain, s[0], s[1..]);
      assert [s[0]] + s[1..] == s;
    }
  }

  lemma {:induction false} ItemsInsert(domain: string, le: (Entry, Entry) -> bool, x: Entry, s: seq<Entry>)
    ensures multiset(Items(domain, Insert(le, x, s))) == multiset(Items(domain, s)) + multiset{ItemOf(domain, x)}
  {
    if |s| == 0 {
    } else if le(x, s[0]) {
      assert Insert(le, x, s) == [x] + s;
      ItemsCons(domain, x, s);
    } else {
      ItemsInsert(domain, le, x, s[1..]);
      ItemsConsStep(domain, s, Insert(le, x, s[1..]), multiset{ItemOf(domain, x)});
    }
  }

  /** The head of `s` put in front of `r` keeps the items' balance with `s`. */
  lemma ItemsConsStep(domain: string, s: seq<Entry>, r: seq<Entry>, extra: multiset<Item>)
    requires |s| > 0 && multiset(Items(domain, r)) == multiset(Items(domain, s[1..])) + extra
    ensures multiset(Items(domain, [s[0]] + r)) == multiset(Items(domain, s)) + extra
  {
    ItemsCons(domain, s[0], r);
    ConsMultiset([ItemOf(domain, s[0])], Items(domain, r), Items(domain, s[1..]), extra);
  }

  lemma ConsMultiset<T>(h: seq<T>, a: seq<T>, b: seq<T>, extra: multiset<T>)
    requires multiset(a) == multiset(b) + extra
    ensures multiset(h + a) == multiset(h + b) + extra
  {
    assert multiset(h + a) == multiset(h) + multiset(a);
    assert multiset(h + b) == multiset(h) + multiset(b);
  }

  lemma ItemsCons(domain: string, x: Entry, s: seq<Entry>)
    ensures Items(domain, [x] + s) == [ItemOf(domain, x)] + Items(domain, s)
  {
    assert ([x] + s)[1..] == s;
  }

  /** Sorting the posts permutes their items. */
  lemma {:induction false} ItemsOrdered(domain: string, posts: seq<Entry>)
    ensures multiset(Items(domain, SortBy(NewestFirst(), posts))) == multiset(Items(domain, posts))
  {
    if |posts| > 0 {
      ItemsOrdered(domain, posts[1..]);
      ItemsInsert(domain, NewestFirst(), posts[0], SortBy(NewestFirst(), posts[1..]));
      assert Items(domain, posts) == [ItemOf(domain, posts[0])] + Items(domain, posts[1..]);
    }
  }

  /** The newest post heads the ordered posts, whose items are the posts' items. */
  lemma OrderedFacts(domain: string, ps: seq<Entry>)
    requires |ps| > 0
    ensures multiset(Items(domain, Ordered(ps))) == multiset(Items(domain, ps))
    ensures Ordered(ps)[0] in ps
    ensures forall p :: p in ps ==> p.updatedAt <= Ordered(ps)[0].updatedAt
  {
    assert Ordered(ps) == SortBy(NewestFirst(), ps);
    ItemsOrdered(domain, ps);
    NewestHeads(ps, Ordered(ps));
  }

  /** A permutation sorted newest first starts with a newest element of the original. */
  lemma NewestHeads(ps: seq<Entry>, sorted: seq<Entry>)
    requires |ps| > 0 && multiset(sorted) == multiset(ps)
    requires forall i, j :: 0 <= i < j < |sorted| ==> sorted[i].updatedAt >= sorted[j].updatedAt
    ensures |sorted| > 0 && sorted[0] in ps
    ensures forall p :: p in ps ==> p.updatedAt <= sorted[0].updatedAt
  {
    assert ps[0] in multiset(ps);
    assert |sorted| > 0;
    assert sorted[0] in multiset(sorted);
    forall p | p in ps ensures p.updatedAt <= sorted[0].updatedAt {
      assert p in multiset(ps);
      assert p in multiset(sorted);
      var k :| 0 <= k < |sorted| && sorted[k] == p;
      if k > 0 {
        assert sorted[0].updatedAt >= sorted[k].updatedAt;
      }
    }
  }

  /**
   * A repository error is passed on; no posts is `NoContent`; otherwise
   * the channel lists one item per post, newest first, and was last built
   * at the newest post's update time.
   */
  function GenerateFeed(appName: string, domain: string, posts: Result<seq<Entry>, Failure>): (r: Result<Feed, Failure>)
    ensures posts.Err? ==> r == Err(posts.error)
    ensures posts.Ok? && |posts.value| == 0 ==> r == Err(NoContent)
    ensures r.Ok? <==> posts.Ok? && |posts.value| > 0
    ensures r.Ok? ==> var c := r.value.channel;
      && r.value.version == "2.0"
      && c.title == appName && c.link == domain
      && multiset(c.items) == multiset(Items(domain, posts.value))
      && (forall i, j :: 0 <= i < j < |c.items| ==> c.items[i].pubDate >= c.items[j].pubDate)
      && (forall p :: p in posts.value ==> p.updatedAt <= c.lastBuild)
      && (exists p :: p in posts.value && p.updatedAt == c.lastBuild)
  {
    match posts
    case Err(e) => Err(e)
    case Ok(ps) =>
      if |ps| == 0 then Err(NoContent)
      else
        var sorted := Ordered(ps);
        OrderedFacts(domain, ps);
        ItemsAt(domain, sorted);
        Ok(Feed("2.0", Channel(appName, domain, "Latest posts", Items(domain, sorted), sorted[0].updatedAt)))
  }

  /** Where an item of the posts came from. */
  lemma ItemSource(domain: string, posts: seq<Entry>, it: Item) returns (i: nat)
    requires it in multiset(Items(domain, posts))
    ensures i < |posts| && it == ItemOf(domain, posts[i])
  {
    ItemsAt(domain, posts);
    var items := Items(domain, posts);
    assert it in items;
    i :| 0 <= i < |items| && items[i] == it;
  }

  /** Every item's GUID is its link, which names the post it came from. */
  lemma FeedItemsNamePosts(appName: string, domain: string, posts: seq<Entry>)
    requires GenerateFeed(appName, domain, Ok(posts)).Ok?
    requires forall p :: p in posts ==> p.id <= MaxUint64
    ensures var items := GenerateFeed(appName, domain, Ok(posts)).value.channel.items;
      forall it :: it in items ==> (it.guid == it.link
        && exists p :: p in posts && LinkId(domain, it.link) == Some(p.id) && it.title == p.title)
  {
    var items := GenerateFeed(appName, domain, Ok(posts)).value.channel.items;
    forall it | it in items
      ensures it.guid == it.link
      ensures exists p :: p in posts && LinkId(domain, it.link) == Some(p.id) && it.title == p.title
    {
      assert it in multiset(Items(domain, posts));
      var i := ItemSource(domain, posts, it);
      LinkIdOfItemLink(domain, posts[i].id);
      assert posts[i] in posts;
    }
  }
}
