/**
 * The friend-link table: listing, creation under a unique URL, the batched
 * status write of the hourly link check, and the dashboard overview.
 */
module LinkRepo {
  import opened Common
  import ErrCode

  const LinkNormal: int := 1
  const LinkAbnormal: int := 2

  datatype Link = Link(id: nat, url: string, enabled: bool, status: int, deleted: bool)

  /** The table, keyed by primary key; soft-deleted rows stay in it. */
  type Links = map<nat, Link>

  predicate WellKeyed(links: Links) {
    forall k :: k in links ==> links[k].id == k
  }

  /**
   * Every live link, or `CodeDatabaseError` when `Find` fails. The query has
   * no ORDER BY, so the listing is a set.
   */
  function GetAllLinks(links: Links, dbFails: bool): (r: Result<set<Link>, int>)
    ensures r.Err? <==> dbFails
    ensures r.Err? ==> r.error == ErrCode.CodeDatabaseError
    ensures r.Ok? ==> forall l :: l in r.value <==> exists k :: k in links && links[k] == l && !l.deleted
  {
    if dbFails then Err(ErrCode.CodeDatabaseError)
    else Ok(set k | k in links && !links[k].deleted :: links[k])
  }

  /** Live links with `enabled = true`, or `CodeDatabaseError` when `Find` fails. */
  function GetAllEnabledLinks(links: Links, dbFails: bool): (r: Result<set<Link>, int>)
    ensures r.Err? <==> dbFails
    ensures r.Err? ==> r.error == ErrCode.CodeDatabaseError
    ensures r.Ok? ==> r.value <= GetAllLinks(links, false).value
    ensures r.Ok? ==> forall l :: l in GetAllLinks(links, false).value ==> (l in r.value <==> l.enabled)
  {
    if dbFails then Err(ErrCode.CodeDatabaseError)
    else Ok(set k | k in links && !links[k].deleted && links[k].enabled :: links[k])
  }

  /**
   * Inserts a link. A zero ID takes the next identity value `freshId`. A
   * primary key already used, or a URL already used by any row (the unique
   * index also covers soft-deleted rows), is a duplicate key and reported as
   * `CodeConflict`; any other failure is `CodeDatabaseError`.
   */
  function CreateLink(links: Links, link: Link, freshId: nat, dbFails: bool): (r: Result<Links, int>)
    requires freshId > 0 && freshId !in links
    ensures r.Err? ==> r.error == ErrCode.CodeConflict || r.error == ErrCode.CodeDatabaseError
    ensures r.Err? && r.error == ErrCode.CodeConflict <==>
      (link.id != 0 && link.id in links) || exists k :: k in links && links[k].url == link.url
    ensures r.Ok? ==> exists id :: id !in links && r.value == links[id := link.(id := id, deleted := false)]
  {
    if (link.id != 0 && link.id in links) || exists k :: k in links && links[k].url == link.url then
      Err(ErrCode.CodeConflict)
    else if dbFails then Err(ErrCode.CodeDatabaseError)
    else
      var id := if link.id == 0 then freshId else link.id;
      Ok(links[id := link.(id := id, deleted := false)])
  }

  /** URLs stay unique across successful creations. */
  predicate UniqueUrls(links: Links) {
    forall a, b :: a in links && b in links && a != b ==> links[a].url != links[b].url
  }

  lemma CreateKeepsUrlsUnique(links: Links, link: Link, freshId: nat)
    requires freshId > 0 && freshId !in links
    requires WellKeyed(links) && UniqueUrls(links)
    requires CreateLink(links, link, freshId, false).Ok?
    ensures WellKeyed(CreateLink(links, link, freshId, false).value)
    ensures UniqueUrls(CreateLink(links, link, freshId, false).value)
  {
  }

  /**
   * `status = CASE id WHEN .. THEN .. ELSE status END WHERE id IN (..)` in
   * one statement. An empty map issues nothing; a failed statement changes
   * nothing and is `CodeDatabaseError`. Soft-deleted rows are outside the
   * update's scope.
   */
  function UpdateLinkStatusBatch(links: Links, updates: map<nat, int>, dbFails: bool): (r: (Links, Option<int>))
    ensures r.1.Some? <==> dbFails && |updates| > 0
    ensures r.1.Some? ==> r.1.value == ErrCode.CodeDatabaseError
    ensures r.0.Keys == links.Keys
    ensures forall k :: k in links ==>
      r.0[k] == if r.1.None? && k in updates && !links[k].deleted then links[k].(status := updates[k]) else links[k]
  {
    if |updates| == 0 then (links, None)
    else if dbFails then (links, Some(ErrCode.CodeDatabaseError))
    else
      (map k | k in links :: if k in updates && !links[k].deleted then links[k].(status := updates[k]) else links[k],
       None)
  }

  /** Applying the same batch twice is the same as applying it once. */
  lemma UpdateLinkStatusBatchIdempotent(links: Links, updates: map<nat, int>)
    ensures var once := UpdateLinkStatusBatch(links, updates, false).0;
            UpdateLinkStatusBatch(once, updates, false).0 == once
  {
    var once := UpdateLinkStatusBatch(links, updates, false).0;
    var twice := UpdateLinkStatusBatch(once, updates, false).0;
    assert forall k :: k in twice ==> twice[k] == once[k];
  }

  datatype LinkOverview = LinkOverview(total: int, normal: int, abnormal: int, pending: int)

  /** IDs of the rows with a given property; the overview query counts all rows, live or not. */
  function NormalIds(links: Links): set<nat> { set k | k in links && links[k].status == LinkNormal }
  function EnabledIds(links: Links): set<nat> { set k | k in links && links[k].enabled }

  /**
   * `GetOverview`: the total, the normal count and the enabled count come
   * from one aggregate query over the raw table; abnormal and pending are
   * derived by subtraction. A failed `Scan` is `CodeDatabaseError`.
   */
  function GetOverview(links: Links, dbFails: bool): (r: Result<LinkOverview, int>)
    ensures r.Err? <==> dbFails
    ensures r.Err? ==> r.error == ErrCode.CodeDatabaseError
    ensures r.Ok? ==> r.value.total == r.value.normal + r.value.abnormal
    ensures r.Ok? ==> r.value.total == |links|
  {
    if dbFails then Err(ErrCode.CodeDatabaseError)
    else
      var total := |links.Keys|;
      var normal := |NormalIds(links)|;
      var enabled := |EnabledIds(links)|;
      Ok(LinkOverview(total, normal, total - normal, total - enabled))
  }

  function AbnormalIds(links: Links): set<nat> { set k | k in links && links[k].status != LinkNormal }
  function PendingIds(links: Links): set<nat> { set k | k in links && !links[k].enabled }

  lemma PartitionCount(all: set<nat>, part: set<nat>, rest: set<nat>)
    requires part <= all && rest == all - part
    ensures |rest| == |all| - |part|
  {
    assert all == part + rest;
    assert part * rest == {};
  }

  /**
   * The subtractions count what they claim: abnormal is the number of rows
   * whose status is anything but normal (unknown statuses included), and
   * pending the number of rows not enabled; neither is negative.
   */
  lemma OverviewCounts(links: Links)
    ensures GetOverview(links, false).value.abnormal == |AbnormalIds(links)|
    ensures GetOverview(links, false).value.pending == |PendingIds(links)|
    ensures GetOverview(links, false).value.abnormal >= 0 && GetOverview(links, false).value.pending >= 0
  {
    assert AbnormalIds(links) == links.Keys - NormalIds(links);
    assert PendingIds(links) == links.Keys - EnabledIds(links);
    PartitionCount(links.Keys, NormalIds(links), AbnormalIds(links));
    PartitionCount(links.Keys, EnabledIds(links), PendingIds(links));
  }
}
