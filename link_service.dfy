/**
 * The link service: idempotent creation of short links, redirect with click
 * tracking, and per-link statistics, over the link store.
 *
 * What the service adds to the store's own constraints is kept in
 * `LinkService.Valid()`: every link's code is the base-62 encoding of its id,
 * and every click's earnings follow from its verdict.
 */
module LinkService {
  import opened Wrappers
  import opened Store
  import Base62

  /** The earnings of one valid click, in cents (0.05). */
  const UnitEarningsCents: nat := 5

  /** What a click earns: the unit when it is valid, nothing when it is fraudulent. */
  function EarningsFor(isValid: bool): (cents: nat)
    ensures cents == 0 <==> !isValid
  {
    if isValid then UnitEarningsCents else 0
  }

  datatype LinkResponse = LinkResponse(shortCode: Option<string>, shortUrl: string, targetUrl: string)

  /** One entry of a page of statistics; the breakdown is a LinkedHashMap, month to count, in insertion order. */
  datatype LinkStats = LinkStats(shortCode: Option<string>, targetUrl: string, totalClicks: nat,
                                 totalEarningsCents: nat, monthlyBreakdown: seq<(string, nat)>)

  datatype ServiceError = NotFound

  /** How string concatenation renders a code: a null code reads "null". */
  function CodeText(code: Option<string>): string
  {
    match code
    case Some(c) => c
    case None => "null"
  }

  /** toResponse */
  function ToResponse(baseUrl: string, link: Link): (r: LinkResponse)
    ensures r.shortCode == link.shortCode && r.targetUrl == link.targetUrl
    ensures |r.shortUrl| > |baseUrl| && r.shortUrl[..|baseUrl|] == baseUrl
  {
    LinkResponse(link.shortCode, baseUrl + "/" + CodeText(link.shortCode), link.targetUrl)
  }

  /** The code a URL under `baseUrl` names: the path segment the redirect endpoint reads. */
  function PathCode(baseUrl: string, url: string): Option<string>
  {
    if |url| > |baseUrl| && url[..|baseUrl| + 1] == baseUrl + "/" then Some(url[|baseUrl| + 1..]) else None
  }

  /** The short URL of a response leads back to its code and nothing else. */
  lemma ShortUrlNamesCode(baseUrl: string, link: Link)
    requires link.shortCode.Some?
    ensures ToResponse(baseUrl, link).shortCode == link.shortCode
    ensures ToResponse(baseUrl, link).targetUrl == link.targetUrl
    ensures PathCode(baseUrl, ToResponse(baseUrl, link).shortUrl) == link.shortCode
  {
    var url := ToResponse(baseUrl, link).shortUrl;
    assert url[..|baseUrl| + 1] == baseUrl + "/";
    assert url[|baseUrl| + 1..] == link.shortCode.value;
  }

  // ------------------------------------------------------ LinkedHashMap.put

  /** get: the value of the first entry with this key. */
  function Get(m: seq<(string, nat)>, key: string): Option<nat>
  {
    if m == [] then None else if m[0].0 == key then Some(m[0].1) else Get(m[1..], key)
  }

  /** put: replace the value of a present key in place, or append a new entry. */
  function Put(m: seq<(string, nat)>, key: string, value: nat): (r: seq<(string, nat)>)
    ensures |m| <= |r| <= |m| + 1
    ensures Get(r, key) == Some(value)
    ensures forall k :: k != key ==> Get(r, k) == Get(m, k)
  {
    if m == [] then [(key, value)]
    else if m[0].0 == key then [(key, value)] + m[1..]
    else [m[0]] + Put(m[1..], key, value)
  }

  /** The map the loop builds: every row put in order into an empty map. */
  function PutAll(rows: seq<MonthlyClickStats>): seq<(string, nat)>
  {
    if rows == [] then []
    else
      var last := rows[|rows| - 1];
      Put(PutAll(rows[..|rows| - 1]), last.month, last.clickCount)
  }

  /** The rows as map entries, in the same order. */
  function Entries(rows: seq<MonthlyClickStats>): (m: seq<(string, nat)>)
    ensures |m| == |rows|
    ensures forall i :: 0 <= i < |rows| ==> m[i] == (rows[i].month, rows[i].clickCount)
  {
    if rows == [] then [] else [(rows[0].month, rows[0].clickCount)] + Entries(rows[1..])
  }

  lemma {:induction false} PutNewKey(m: seq<(string, nat)>, key: string, value: nat)
    requires forall i :: 0 <= i < |m| ==> m[i].0 != key
    ensures Put(m, key, value) == m + [(key, value)]
  {
    if m != [] {
      PutNewKey(m[1..], key, value);
      assert [m[0]] + (m[1..] + [(key, value)]) == m + [(key, value)];
    }
  }

  /** Rows with distinct months go into the map unchanged and in order: the map keeps the query's order. */
  lemma {:induction false} PutAllKeepsOrder(rows: seq<MonthlyClickStats>)
    requires Descending(rows)
    ensures PutAll(rows) == Entries(rows)
    decreases |rows|
  {
    if rows != [] {
      var n := |rows| - 1;
      var init := rows[..n];
      assert Descending(init);
      PutAllKeepsOrder(init);
      forall i | 0 <= i < n ensures Entries(init)[i].0 != rows[n].month {
        assert Before(rows[n].month, rows[i].month);
        BeforeIrreflexive(rows[i].month);
      }
      PutNewKey(Entries(init), rows[n].month, rows[n].clickCount);
      assert PutAll(rows) == Put(PutAll(init), rows[n].month, rows[n].clickCount);
      assert Entries(rows) == Entries(init) + [(rows[n].month, rows[n].clickCount)];
    }
  }

  /** The inner loop of getStats: fill a LinkedHashMap from the monthly-stats rows. */
  method FillBreakdown(monthlyStats: seq<MonthlyClickStats>) returns (breakdown: seq<(string, nat)>)
    ensures breakdown == PutAll(monthlyStats)
  {
    breakdown := [];
    for i := 0 to |monthlyStats|
      invariant breakdown == PutAll(monthlyStats[..i])
    {
      var stat := monthlyStats[i];
      assert monthlyStats[..i + 1][..i] == monthlyStats[..i];
      breakdown := Put(breakdown, stat.month, stat.clickCount);
    }
    assert monthlyStats[..|monthlyStats|] == monthlyStats;
  }

  // -------------------------------------------------------------- getStats

  /** The statistics of one link as getStats reports them. */
  function StatsOf(clicks: seq<Click>, link: Link): (s: LinkStats)
    ensures s.shortCode == link.shortCode && s.targetUrl == link.targetUrl
    ensures s.totalClicks <= |clicks| && |s.monthlyBreakdown| <= s.totalClicks
  {
    var total := CountValid(clicks, link.id);
    MonthlyStatsInvariant(clicks, link.id);
    PositiveTotal(MonthlyStats(clicks, link.id));
    LinkStats(link.shortCode, link.targetUrl, total, UnitEarningsCents * total, Entries(MonthlyStats(clicks, link.id)))
  }

  /** The sum of the counts of a breakdown. */
  function BreakdownTotal(m: seq<(string, nat)>): nat
  {
    if m == [] then 0 else m[0].1 + BreakdownTotal(m[1..])
  }

  lemma {:induction false} BreakdownTotalOfEntries(rows: seq<MonthlyClickStats>)
    ensures BreakdownTotal(Entries(rows)) == Total(rows)
  {
    if rows != [] {
      BreakdownTotalOfEntries(rows[1..]);
      assert Entries(rows)[1..] == Entries(rows[1..]);
    }
  }

  /**
   * What one entry of the statistics means: the count of the link's valid
   * clicks; earnings of 5 cents per valid click, which is also the sum of the
   * earnings stored on its clicks; and a breakdown with one entry per month
   * that has valid clicks, most recent first, holding that month's count and
   * adding up to the total.
   */
  lemma StatsMeaning(clicks: seq<Click>, link: Link)
    requires forall k :: 0 <= k < |clicks| ==> clicks[k].earningsCents == EarningsFor(clicks[k].isValid)
    ensures var s := StatsOf(clicks, link);
      var b := s.monthlyBreakdown;
      && s.shortCode == link.shortCode && s.targetUrl == link.targetUrl
      && s.totalClicks == |ValidPositions(clicks, link.id)|
      && s.totalEarningsCents == UnitEarningsCents * s.totalClicks == EarningsOf(clicks, link.id)
      && (forall i, j :: 0 <= i < j < |b| ==> Before(b[j].0, b[i].0))
      && (forall i :: 0 <= i < |b| ==> b[i].1 == CountValidIn(clicks, link.id, b[i].0) > 0)
      && (forall m :: CountValidIn(clicks, link.id, m) > 0 ==> exists i :: 0 <= i < |b| && b[i].0 == m)
      && BreakdownTotal(b) == s.totalClicks
  {
    var rows := MonthlyStats(clicks, link.id);
    CountValidCounts(clicks, link.id);
    EarningsAgree(clicks, link.id, UnitEarningsCents);
    MonthlyStatsMeaning(clicks, link.id);
    BreakdownTotalOfEntries(rows);
    var b := Entries(rows);
    forall m | CountValidIn(clicks, link.id, m) > 0 ensures exists i :: 0 <= i < |b| && b[i].0 == m {
      assert m in Months(rows);
      var i :| 0 <= i < |rows| && rows[i].month == m;
      assert b[i].0 == m;
    }
  }

  // ----------------------------------------------------------------- state

  predicate CodesEncodeIds(links: seq<Link>)
  {
    forall i :: 0 <= i < |links| ==> links[i].shortCode == Some(Base62.Encoding(links[i].id))
  }

  predicate EarningsMatchVerdicts(clicks: seq<Click>)
  {
    forall k :: 0 <= k < |clicks| ==> clicks[k].earningsCents == EarningsFor(clicks[k].isValid)
  }

  class LinkService {
    const store: LinkStore
    const baseUrl: string

    ghost predicate Valid()
      reads this, store
    {
      && store.Valid()
      && CodesEncodeIds(store.links)
      && EarningsMatchVerdicts(store.clicks)
    }

    constructor (store: LinkStore, baseUrl: string)
      requires store.Valid() && CodesEncodeIds(store.links) && EarningsMatchVerdicts(store.clicks)
      ensures Valid()
      ensures this.store == store && this.baseUrl == baseUrl
    {
      this.store := store;
      this.baseUrl := baseUrl;
    }

    /**
     * The try block of createShortLink: insert the link, encode the id the
     * insert drew and save that code. None when the insert is rejected
     * because the target is already stored.
     */
    method SaveNewLink(targetUrl: string) returns (saved: Option<Link>)
      requires Valid()
      modifies store
      ensures Valid()
      ensures store.clicks == old(store.clicks)
      ensures old(FindByTargetUrl(store.links, targetUrl)).Some? ==>
        saved == None && store.links == old(store.links) && store.nextId == old(store.nextId)
      ensures old(FindByTargetUrl(store.links, targetUrl)).None? ==>
        && saved == Some(Link(old(store.nextId), Some(Base62.Encoding(old(store.nextId))), targetUrl))
        && store.links == old(store.links) + [saved.value]
        && store.nextId == old(store.nextId) + 1
    {
      ghost var before := store.links;
      var id := store.InsertLink(targetUrl);
      if id.None? {
        return None;
      }
      var code := Base62.Encode(id.value);
      // Earlier links carry the codes of smaller ids, so this code is new.
      forall j | 0 <= j < |before|
        ensures before[j].shortCode != Some(code)
      {
        Base62.EncodingInjective(before[j].id, id.value);
      }
      assert store.links[|before|].id == id.value;
      var ok := store.UpdateShortCode(id.value, code);
      assert ok;
      assert PositionOf(before + [Link(id.value, None, targetUrl)], id.value) == |before|;
      saved := Some(Link(id.value, Some(code), targetUrl));
      assert store.links == before + [saved.value];
    }

    /**
     * createShortLink. `raced` is the interleaving in which another caller,
     * asking for the same target, commits its link after this call's lookup
     * and before its insert; the insert is then rejected and the call answers
     * with the winner's link, read again by target.
     */
    method CreateShortLink(targetUrl: string, raced: bool) returns (response: LinkResponse)
      requires Valid()
      modifies store
      ensures Valid()
      ensures store.clicks == old(store.clicks)
      ensures old(FindByTargetUrl(store.links, targetUrl)).Some? ==>
        && store.links == old(store.links) && store.nextId == old(store.nextId)
        && response == ToResponse(baseUrl, old(FindByTargetUrl(store.links, targetUrl)).value)
      ensures old(FindByTargetUrl(store.links, targetUrl)).None? ==>
        var created := Link(old(store.nextId), Some(Base62.Encoding(old(store.nextId))), targetUrl);
        && store.links == old(store.links) + [created]
        && store.nextId == old(store.nextId) + 1
        && response == ToResponse(baseUrl, created)
      ensures FindByTargetUrl(store.links, targetUrl).Some?
      ensures response == ToResponse(baseUrl, FindByTargetUrl(store.links, targetUrl).value)
      ensures TargetCount(store.links, targetUrl) == 1
    {
      var existing := FindByTargetUrl(store.links, targetUrl);
      if existing.Some? {
        response := ToResponse(baseUrl, existing.value);
        ExactlyOneLinkPerTarget(store.links, targetUrl);
        return;
      }
      ghost var before := store.links;
      ghost var created := Link(store.nextId, Some(Base62.Encoding(store.nextId)), targetUrl);
      if raced {
        var winner := SaveNewLink(targetUrl);
      }
      FindAppended(before, created);
      assert raced ==> store.links == before + [created];
      var saved := SaveNewLink(targetUrl);
      assert store.links == before + [created];
      if saved.Some? {
        response := ToResponse(baseUrl, saved.value);
      } else {
        var reread := FindByTargetUrl(store.links, targetUrl);
        response := ToResponse(baseUrl, reread.value);
      }
    }

    /**
     * redirectAndTrack. `isValid` is the fraud check's verdict and `month`
     * the "YYYY-MM" label of the moment the click is stored.
     */
    method RedirectAndTrack(shortCode: string, isValid: bool, month: string) returns (r: Result<string, ServiceError>)
      requires Valid()
      modifies store
      ensures Valid()
      ensures store.links == old(store.links) && store.nextId == old(store.nextId)
      ensures old(FindByShortCode(store.links, shortCode)).None? ==>
        r == Failure(NotFound) && store.clicks == old(store.clicks)
      ensures old(FindByShortCode(store.links, shortCode)).Some? ==>
        var link := old(FindByShortCode(store.links, shortCode)).value;
        && r == Success(link.targetUrl)
        && store.clicks == old(store.clicks) + [Click(link.id, isValid, EarningsFor(isValid), month)]
    {
      var link := FindByShortCode(store.links, shortCode);
      if link.None? {
        return Failure(NotFound);
      }
      var click := Click(link.value.id, isValid, EarningsFor(isValid), month);
      var ok := store.InsertClick(click);
      assert ok;
      r := Success(link.value.targetUrl);
    }

    /** getStats: one page of links, each with its statistics. */
    method GetStats(page: nat, size: nat) returns (stats: Page<LinkStats>)
      requires size > 0
      ensures var links := FindAll(store.links, page, size);
        && stats.number == links.number && stats.size == links.size
        && stats.totalElements == links.totalElements && stats.totalPages == links.totalPages
        && stats.first == links.first && stats.last == links.last
        && |stats.content| == |links.content|
        && forall i :: 0 <= i < |links.content| ==> stats.content[i] == StatsOf(store.clicks, links.content[i])
    {
      var links := FindAll(store.links, page, size);
      var content: seq<LinkStats> := [];
      for i := 0 to |links.content|
        invariant |content| == i
        invariant forall k :: 0 <= k < i ==> content[k] == StatsOf(store.clicks, links.content[k])
      {
        var link := links.content[i];
        var totalClicks := CountValid(store.clicks, link.id);
        var totalEarnings := UnitEarningsCents * totalClicks;
        var monthlyStats := MonthlyStats(store.clicks, link.id);
        var breakdown := FillBreakdown(monthlyStats);
        var entry := LinkStats(link.shortCode, link.targetUrl, totalClicks, totalEarnings, breakdown);
        assert entry == StatsOf(store.clicks, link) by {
          MonthlyStatsInvariant(store.clicks, link.id);
          PutAllKeepsOrder(monthlyStats);
        }
        content := content + [entry];
      }
      stats := Page(content, links.number, links.size, links.totalElements, links.totalPages, links.first, links.last);
    }
  }

  // --------------------------------------------------------------- clients

  /** Asking twice for the same target gives the same answer and leaves one link for it. */
  method CreateIsIdempotent(service: LinkService, targetUrl: string, raced1: bool, raced2: bool)
    returns (first: LinkResponse, second: LinkResponse)
    requires service.Valid()
    modifies service.store
    ensures service.Valid()
    ensures first == second
    ensures first.targetUrl == targetUrl && first.shortCode.Some?
    ensures TargetCount(service.store.links, targetUrl) == 1
  {
    first := service.CreateShortLink(targetUrl, raced1);
    second := service.CreateShortLink(targetUrl, raced2);
  }

  /** The clicks a chain of redirects to link `linkId` stores, one per verdict, in order. */
  function RecordedClicks(linkId: nat, verdicts: seq<bool>, month: string): (r: seq<Click>)
    ensures |r| == |verdicts|
    ensures forall i :: 0 <= i < |verdicts| ==> r[i] == Click(linkId, verdicts[i], EarningsFor(verdicts[i]), month)
  {
    if verdicts == [] then []
    else
      var n := |verdicts| - 1;
      RecordedClicks(linkId, verdicts[..n], month) + [Click(linkId, verdicts[n], EarningsFor(verdicts[n]), month)]
  }

  /** A chain of redirects on one code records one click per redirect, or none at all for an unknown code. */
  method RedirectRepeatedly(service: LinkService, shortCode: string, verdicts: seq<bool>, month: string)
    returns (results: seq<Result<string, ServiceError>>)
    requires service.Valid()
    modifies service.store
    ensures service.Valid()
    ensures service.store.links == old(service.store.links)
    ensures |results| == |verdicts|
    ensures old(FindByShortCode(service.store.links, shortCode)).None? ==>
      service.store.clicks == old(service.store.clicks) && forall i :: 0 <= i < |results| ==> results[i] == Failure(NotFound)
    ensures old(FindByShortCode(service.store.links, shortCode)).Some? ==>
      var link := old(FindByShortCode(service.store.links, shortCode)).value;
      && service.store.clicks == old(service.store.clicks) + RecordedClicks(link.id, verdicts, month)
      && (forall i :: 0 <= i < |results| ==> results[i] == Success(link.targetUrl))
  {
    ghost var clicks0 := service.store.clicks;
    ghost var found := FindByShortCode(service.store.links, shortCode);
    results := [];
    for i := 0 to |verdicts|
      invariant service.Valid()
      invariant service.store.links == old(service.store.links)
      invariant |results| == i
      invariant found.None? ==> service.store.clicks == clicks0 && forall k :: 0 <= k < i ==> results[k] == Failure(NotFound)
      invariant found.Some? ==>
        && service.store.clicks == clicks0 + RecordedClicks(found.value.id, verdicts[..i], month)
        && (forall k :: 0 <= k < i ==> results[k] == Success(found.value.targetUrl))
    {
      assert verdicts[..i + 1][..i] == verdicts[..i];
      var r := service.RedirectAndTrack(shortCode, verdicts[i], month);
      results := results + [r];
    }
    assert verdicts[..|verdicts|] == verdicts;
  }

  /**
   * Create a link, then follow its code: the redirect sends the visitor to
   * the target and the link's valid count grows by one exactly when the
   * click is judged valid.
   */
  method CreateThenRedirect(service: LinkService, targetUrl: string, raced: bool, isValid: bool, month: string)
    returns (response: LinkResponse, redirect: Result<string, ServiceError>)
    requires service.Valid()
    modifies service.store
    ensures service.Valid()
    ensures response.shortCode.Some? && response.targetUrl == targetUrl
    ensures redirect == Success(targetUrl)
    ensures FindByTargetUrl(service.store.links, targetUrl).Some?
    ensures var link := FindByTargetUrl(service.store.links, targetUrl).value;
      && service.store.clicks == old(service.store.clicks) + [Click(link.id, isValid, EarningsFor(isValid), month)]
      && CountValid(service.store.clicks, link.id) ==
           CountValid(old(service.store.clicks), link.id) + (if isValid then 1 else 0)
  {
    response := service.CreateShortLink(targetUrl, raced);
    ghost var clicks0 := service.store.clicks;
    var link := FindByTargetUrl(service.store.links, targetUrl).value;
    var i :| 0 <= i < |service.store.links| && service.store.links[i] == link;
    FindByShortCodeUnique(service.store.links, i);
    redirect := service.RedirectAndTrack(response.shortCode.value, isValid, month);
    CountValidAppend(clicks0, Click(link.id, isValid, EarningsFor(isValid), month), link.id);
  }
}
