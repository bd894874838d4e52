/**
 * The link store: the rows of the shortened_links and clicks tables, the
 * repository queries the service issues (as functions over the rows), and
 * the store object whose saves enforce the tables' constraints.
 */
module Store {
  import opened Wrappers

  /** A shortened_links row. The code is null (None) between the insert and the update that sets it. */
  datatype Link = Link(id: nat, shortCode: Option<string>, targetUrl: string)

  /** A clicks row: the owning link's id, the verdict, the earnings in cents and the "YYYY-MM" label of clicked_at. */
  datatype Click = Click(linkId: nat, isValid: bool, earningsCents: nat, month: string)

  /** One row of the monthly-stats query. */
  datatype MonthlyClickStats = MonthlyClickStats(month: string, clickCount: nat)

  // ------------------------------------------------------------ constraints

  /** unique_target_url */
  predicate UniqueTargets(links: seq<Link>)
  {
    forall i, j :: 0 <= i < j < |links| ==> links[i].targetUrl != links[j].targetUrl
  }

  /** short_code is unique; null codes do not collide. */
  predicate UniqueCodes(links: seq<Link>)
  {
    forall i, j :: 0 <= i < j < |links| && links[i].shortCode.Some? ==> links[i].shortCode != links[j].shortCode
  }

  /** Identity values are handed out in increasing order and `nextId` is the next one. */
  predicate IdsIncreasing(links: seq<Link>, nextId: nat)
  {
    && (forall i, j :: 0 <= i < j < |links| ==> links[i].id < links[j].id)
    && (forall i :: 0 <= i < |links| ==> links[i].id < nextId)
  }

  predicate HasLink(links: seq<Link>, id: nat)
  {
    exists i :: 0 <= i < |links| && links[i].id == id
  }

  /** The link_id foreign key of clicks. */
  predicate ClicksReferenceLinks(links: seq<Link>, clicks: seq<Click>)
  {
    forall k :: 0 <= k < |clicks| ==> HasLink(links, clicks[k].linkId)
  }

  // ------------------------------------------------ ShortenedLinkRepository

  /** findByTargetUrl: the first link with that target, if any. */
  function FindByTargetUrl(links: seq<Link>, targetUrl: string): (r: Option<Link>)
    ensures r.Some? ==> r.value in links && r.value.targetUrl == targetUrl
    ensures r.None? <==> forall i :: 0 <= i < |links| ==> links[i].targetUrl != targetUrl
  {
    if links == [] then None
    else if links[0].targetUrl == targetUrl then Some(links[0])
    else FindByTargetUrl(links[1..], targetUrl)
  }

  /** findByShortCode: the first link with that code, if any. */
  function FindByShortCode(links: seq<Link>, shortCode: string): (r: Option<Link>)
    ensures r.Some? ==> r.value in links && r.value.shortCode == Some(shortCode)
    ensures r.None? <==> forall i :: 0 <= i < |links| ==> links[i].shortCode != Some(shortCode)
  {
    if links == [] then None
    else if links[0].shortCode == Some(shortCode) then Some(links[0])
    else FindByShortCode(links[1..], shortCode)
  }

  /** With target URLs unique, the lookup by target finds the one link that has it. */
  lemma {:induction false} FindByTargetUrlUnique(links: seq<Link>, i: nat)
    requires UniqueTargets(links) && i < |links|
    ensures FindByTargetUrl(links, links[i].targetUrl) == Some(links[i])
  {
    if i > 0 {
      FindByTargetUrlUnique(links[1..], i - 1);
    }
  }

  /** With codes unique, the lookup by code finds the one link that has it. */
  lemma {:induction false} FindByShortCodeUnique(links: seq<Link>, i: nat)
    requires UniqueCodes(links) && i < |links| && links[i].shortCode.Some?
    ensures FindByShortCode(links, links[i].shortCode.value) == Some(links[i])
  {
    if i > 0 {
      assert links[0].shortCode != links[i].shortCode;
      FindByShortCodeUnique(links[1..], i - 1);
    }
  }

  /** The number of links with the given target. */
  function TargetCount(links: seq<Link>, targetUrl: string): nat
  {
    if links == [] then 0
    else (if links[0].targetUrl == targetUrl then 1 else 0) + TargetCount(links[1..], targetUrl)
  }

  lemma {:induction false} TargetCountZero(links: seq<Link>, targetUrl: string)
    requires forall i :: 0 <= i < |links| ==> links[i].targetUrl != targetUrl
    ensures TargetCount(links, targetUrl) == 0
  {
    if links != [] {
      TargetCountZero(links[1..], targetUrl);
    }
  }

  /** Under unique_target_url a target that is present is present exactly once. */
  lemma {:induction false} ExactlyOneLinkPerTarget(links: seq<Link>, targetUrl: string)
    requires UniqueTargets(links) && FindByTargetUrl(links, targetUrl).Some?
    ensures TargetCount(links, targetUrl) == 1
  {
    if links[0].targetUrl == targetUrl {
      TargetCountZero(links[1..], targetUrl);
    } else {
      ExactlyOneLinkPerTarget(links[1..], targetUrl);
    }
  }

  /** A link appended for a target nobody had is what the lookup by that target finds, and its only link. */
  lemma FindAppended(links: seq<Link>, link: Link)
    requires UniqueTargets(links)
    requires forall i :: 0 <= i < |links| ==> links[i].targetUrl != link.targetUrl
    ensures UniqueTargets(links + [link])
    ensures FindByTargetUrl(links + [link], link.targetUrl) == Some(link)
    ensures TargetCount(links + [link], link.targetUrl) == 1
  {
    var all := links + [link];
    assert all[|links|] == link;
    FindByTargetUrlUnique(all, |links|);
    ExactlyOneLinkPerTarget(all, link.targetUrl);
  }

  /** The position of the link with identifier `id`, or |links| if there is none. */
  function PositionOf(links: seq<Link>, id: nat): (k: nat)
    ensures k <= |links|
    ensures k < |links| ==> links[k].id == id
    ensures k == |links| <==> !HasLink(links, id)
    ensures forall j :: 0 <= j < k ==> links[j].id != id
  {
    if links == [] then 0
    else if links[0].id == id then 0
    else 1 + PositionOf(links[1..], id)
  }

  // -------------------------------------------------------- ClickRepository

  /** countByLinkIdAndIsValidTrue */
  function CountValid(clicks: seq<Click>, linkId: nat): (n: nat)
    ensures n <= |clicks|
  {
    if clicks == [] then 0
    else
      var last := clicks[|clicks| - 1];
      CountValid(clicks[..|clicks| - 1], linkId) + (if last.linkId == linkId && last.isValid then 1 else 0)
  }

  /** The positions of the valid clicks of a link. */
  function ValidPositions(clicks: seq<Click>, linkId: nat): set<nat>
  {
    set k: nat | k < |clicks| && clicks[k].linkId == linkId && clicks[k].isValid
  }

  /** The count query counts exactly the valid clicks of the link. */
  lemma {:induction false} CountValidCounts(clicks: seq<Click>, linkId: nat)
    ensures CountValid(clicks, linkId) == |ValidPositions(clicks, linkId)|
    decreases |clicks|
  {
    if clicks != [] {
      var n := |clicks| - 1;
      var rest := clicks[..n];
      CountValidCounts(rest, linkId);
      var last := clicks[n];
      if last.linkId == linkId && last.isValid {
        assert ValidPositions(clicks, linkId) == ValidPositions(rest, linkId) + {n};
      } else {
        assert ValidPositions(clicks, linkId) == ValidPositions(rest, linkId);
      }
    }
  }

  /** A new click adds one to its own link's count when it is valid, and nothing elsewhere. */
  lemma CountValidAppend(clicks: seq<Click>, c: Click, linkId: nat)
    ensures CountValid(clicks + [c], linkId) == CountValid(clicks, linkId) + (if c.linkId == linkId && c.isValid then 1 else 0)
  {
    assert (clicks + [c])[..|clicks|] == clicks;
  }

  /** The sum of the earnings stored on a link's clicks. */
  function EarningsOf(clicks: seq<Click>, linkId: nat): nat
  {
    if clicks == [] then 0
    else
      var last := clicks[|clicks| - 1];
      EarningsOf(clicks[..|clicks| - 1], linkId) + (if last.linkId == linkId then last.earningsCents else 0)
  }

  /**
   * When every click carries `unit` if valid and nothing otherwise, multiplying
   * the valid count by `unit` gives the sum of the stored earnings.
   */
  lemma {:induction false} EarningsAgree(clicks: seq<Click>, linkId: nat, unit: nat)
    requires forall k :: 0 <= k < |clicks| ==> clicks[k].earningsCents == if clicks[k].isValid then unit else 0
    ensures EarningsOf(clicks, linkId) == unit * CountValid(clicks, linkId)
    decreases |clicks|
  {
    if clicks != [] {
      EarningsAgree(clicks[..|clicks| - 1], linkId, unit);
    }
  }

  /** The number of valid clicks of a link in one month. */
  function CountValidIn(clicks: seq<Click>, linkId: nat, month: string): nat
  {
    if clicks == [] then 0
    else
      var last := clicks[|clicks| - 1];
      CountValidIn(clicks[..|clicks| - 1], linkId, month)
        + (if last.linkId == linkId && last.isValid && last.month == month then 1 else 0)
  }

  /** Strict text order on labels; on "YYYY-MM" labels it is the order of the months. */
  predicate Before(a: string, b: string)
    decreases |a|
  {
    if a == [] then b != []
    else b != [] && (a[0] < b[0] || (a[0] == b[0] && Before(a[1..], b[1..])))
  }

  lemma {:induction false} BeforeIrreflexive(a: string)
    ensures !Before(a, a)
    decreases |a|
  {
    if a != [] {
      BeforeIrreflexive(a[1..]);
    }
  }

  lemma {:induction false} BeforeTransitive(a: string, b: string, c: string)
    requires Before(a, b) && Before(b, c)
    ensures Before(a, c)
    decreases |a|
  {
    if a != [] && a[0] == b[0] && b[0] == c[0] {
      BeforeTransitive(a[1..], b[1..], c[1..]);
    }
  }

  lemma {:induction false} BeforeTotal(a: string, b: string)
    ensures a == b || Before(a, b) || Before(b, a)
    decreases |a|
  {
    if a != [] && b != [] && a[0] == b[0] {
      BeforeTotal(a[1..], b[1..]);
      if a[1..] == b[1..] {
        assert a == [a[0]] + a[1..] && b == [b[0]] + b[1..];
      }
    }
  }

  /** Rows ordered by month, most recent first; so no month appears twice. */
  predicate Descending(rows: seq<MonthlyClickStats>)
  {
    forall i, j :: 0 <= i < j < |rows| ==> Before(rows[j].month, rows[i].month)
  }

  predicate Positive(rows: seq<MonthlyClickStats>)
  {
    forall i :: 0 <= i < |rows| ==> rows[i].clickCount > 0
  }

  function Months(rows: seq<MonthlyClickStats>): set<string>
  {
    set i | 0 <= i < |rows| :: rows[i].month
  }

  /** The count a row list gives a month, 0 when it has no row for it. */
  function CountOf(rows: seq<MonthlyClickStats>, month: string): nat
  {
    if rows == [] then 0
    else if rows[0].month == month then rows[0].clickCount
    else CountOf(rows[1..], month)
  }

  /** The sum of the counts of a row list. */
  function Total(rows: seq<MonthlyClickStats>): nat
  {
    if rows == [] then 0 else rows[0].clickCount + Total(rows[1..])
  }

  /** Groups of positive counts hold at least one click each. */
  lemma {:induction false} PositiveTotal(rows: seq<MonthlyClickStats>)
    requires Positive(rows)
    ensures |rows| <= Total(rows)
  {
    if rows != [] {
      PositiveTotal(rows[1..]);
    }
  }

  /** Count one more click in `month`, keeping the rows in descending order. */
  function Bump(rows: seq<MonthlyClickStats>, month: string): seq<MonthlyClickStats>
  {
    if rows == [] then [MonthlyClickStats(month, 1)]
    else if rows[0].month == month then [rows[0].(clickCount := rows[0].clickCount + 1)] + rows[1..]
    else if Before(rows[0].month, month) then [MonthlyClickStats(month, 1)] + rows
    else [rows[0]] + Bump(rows[1..], month)
  }

  lemma MonthsCons(x: MonthlyClickStats, rows: seq<MonthlyClickStats>)
    ensures Months([x] + rows) == {x.month} + Months(rows)
  {
    var r := [x] + rows;
    forall m | m in Months(r) ensures m in {x.month} + Months(rows) {
      var i :| 0 <= i < |r| && r[i].month == m;
      if i > 0 {
        assert rows[i - 1].month == m;
      }
    }
    forall m | m in {x.month} + Months(rows) ensures m in Months(r) {
      if m == x.month {
        assert r[0].month == m;
      } else {
        var i :| 0 <= i < |rows| && rows[i].month == m;
        assert r[i + 1].month == m;
      }
    }
  }

  lemma {:induction false} BumpMonths(rows: seq<MonthlyClickStats>, month: string)
    ensures Months(Bump(rows, month)) == Months(rows) + {month}
  {
    if rows != [] {
      MonthsCons(rows[0], rows[1..]);
      assert rows == [rows[0]] + rows[1..];
      if rows[0].month == month {
        var head := rows[0].(clickCount := rows[0].clickCount + 1);
        assert Bump(rows, month) == [head] + rows[1..];
        MonthsCons(head, rows[1..]);
      } else if Before(rows[0].month, month) {
        assert Bump(rows, month) == [MonthlyClickStats(month, 1)] + rows;
        MonthsCons(MonthlyClickStats(month, 1), rows);
      } else {
        assert Bump(rows, month) == [rows[0]] + Bump(rows[1..], month);
        BumpMonths(rows[1..], month);
        MonthsCons(rows[0], Bump(rows[1..], month));
      }
    } else {
      MonthsCons(MonthlyClickStats(month, 1), []);
      assert Months([]) == {};
    }
  }

  lemma {:induction false} BumpTotal(rows: seq<MonthlyClickStats>, month: string)
    ensures Total(Bump(rows, month)) == Total(rows) + 1
  {
    if rows != [] && rows[0].month != month && !Before(rows[0].month, month) {
      BumpTotal(rows[1..], month);
      assert ([rows[0]] + Bump(rows[1..], month))[1..] == Bump(rows[1..], month);
    } else if rows != [] && rows[0].month == month {
      assert ([rows[0].(clickCount := rows[0].clickCount + 1)] + rows[1..])[1..] == rows[1..];
    } else if rows != [] {
      assert ([MonthlyClickStats(month, 1)] + rows)[1..] == rows;
    }
  }

  lemma {:induction false} BumpCounts(rows: seq<MonthlyClickStats>, month: string)
    requires Descending(rows)
    ensures forall m :: CountOf(Bump(rows, month), m) == CountOf(rows, m) + (if m == month then 1 else 0)
  {
    if rows == [] {
    } else if rows[0].month == month {
      assert ([rows[0].(clickCount := rows[0].clickCount + 1)] + rows[1..])[1..] == rows[1..];
    } else if Before(rows[0].month, month) {
      assert ([MonthlyClickStats(month, 1)] + rows)[1..] == rows;
      forall j | 0 <= j < |rows| ensures Before(rows[j].month, month) {
        if j > 0 {
          BeforeTransitive(rows[j].month, rows[0].month, month);
        }
      }
      CountOfAbsent(rows, month);
    } else {
      BumpCounts(rows[1..], month);
      assert ([rows[0]] + Bump(rows[1..], month))[1..] == Bump(rows[1..], month);
    }
  }

  lemma {:induction false} BumpPositive(rows: seq<MonthlyClickStats>, month: string)
    requires Positive(rows)
    ensures Positive(Bump(rows, month))
  {
    if rows != [] && rows[0].month != month && !Before(rows[0].month, month) {
      BumpPositive(rows[1..], month);
      assert Bump(rows, month) == [rows[0]] + Bump(rows[1..], month);
    }
  }

  /** The months of bumping the tail all come before the head. */
  lemma BumpTailBelow(rows: seq<MonthlyClickStats>, month: string)
    requires Descending(rows) && rows != [] && rows[0].month != month && !Before(rows[0].month, month)
    ensures forall x :: x in Months(Bump(rows[1..], month)) ==> Before(x, rows[0].month)
  {
    var tail := rows[1..];
    BumpMonths(tail, month);
    BeforeTotal(rows[0].month, month);
    forall x | x in Months(Bump(tail, month)) ensures Before(x, rows[0].month) {
      if x != month {
        var k :| 0 <= k < |tail| && tail[k].month == x;
        assert tail[k] == rows[k + 1];
      }
    }
  }

  lemma {:induction false} BumpDescending(rows: seq<MonthlyClickStats>, month: string)
    requires Descending(rows)
    ensures Descending(Bump(rows, month))
  {
    var r := Bump(rows, month);
    if rows == [] {
    } else if rows[0].month == month {
      assert forall i :: 0 <= i < |r| ==> r[i].month == rows[i].month;
    } else if Before(rows[0].month, month) {
      assert r == [MonthlyClickStats(month, 1)] + rows;
      forall i, j | 0 <= i < j < |r| ensures Before(r[j].month, r[i].month) {
        if i == 0 && j > 1 {
          BeforeTransitive(rows[j - 1].month, rows[0].month, month);
        }
      }
    } else {
      var tail := rows[1..];
      var rt := Bump(tail, month);
      assert r == [rows[0]] + rt;
      BumpDescending(tail, month);
      BumpTailBelow(rows, month);
      forall i, j | 0 <= i < j < |r| ensures Before(r[j].month, r[i].month) {
        assert r[j] == rt[j - 1];
        if i == 0 {
          assert rt[j - 1].month in Months(rt);
        } else {
          assert r[i] == rt[i - 1];
        }
      }
    }
  }

  /** A month later than every row of a descending list counts 0. */
  lemma {:induction false} CountOfAbsent(rows: seq<MonthlyClickStats>, month: string)
    requires Descending(rows) && forall i :: 0 <= i < |rows| ==> Before(rows[i].month, month)
    ensures CountOf(rows, month) == 0
  {
    if rows != [] {
      BeforeIrreflexive(month);
      CountOfAbsent(rows[1..], month);
    }
  }

  /**
   * getMonthlyStats: per month, the number of the link's valid clicks, most
   * recent month first (GROUP BY month ORDER BY month DESC).
   */
  function MonthlyStats(clicks: seq<Click>, linkId: nat): (rows: seq<MonthlyClickStats>)
    ensures Total(rows) == CountValid(clicks, linkId)
  {
    if clicks == [] then []
    else
      var last := clicks[|clicks| - 1];
      var rows := MonthlyStats(clicks[..|clicks| - 1], linkId);
      if last.linkId == linkId && last.isValid then BumpTotal(rows, last.month); Bump(rows, last.month) else rows
  }

  lemma {:induction false} MonthlyStatsInvariant(clicks: seq<Click>, linkId: nat)
    ensures Descending(MonthlyStats(clicks, linkId)) && Positive(MonthlyStats(clicks, linkId))
    ensures forall m :: CountOf(MonthlyStats(clicks, linkId), m) == CountValidIn(clicks, linkId, m)
    ensures Total(MonthlyStats(clicks, linkId)) == CountValid(clicks, linkId)
    decreases |clicks|
  {
    if clicks != [] {
      var rest := clicks[..|clicks| - 1];
      var last := clicks[|clicks| - 1];
      MonthlyStatsInvariant(rest, linkId);
      if last.linkId == linkId && last.isValid {
        var rows := MonthlyStats(rest, linkId);
        BumpDescending(rows, last.month);
        BumpPositive(rows, last.month);
        BumpCounts(rows, last.month);
        BumpTotal(rows, last.month);
      }
    }
  }

  /** In rows without a repeated month, each row's count is the one `CountOf` gives its month. */
  lemma {:induction false} CountOfRow(rows: seq<MonthlyClickStats>, i: nat)
    requires Descending(rows) && i < |rows|
    ensures CountOf(rows, rows[i].month) == rows[i].clickCount
  {
    if i > 0 {
      BeforeIrreflexive(rows[0].month);
      CountOfRow(rows[1..], i - 1);
    }
  }

  lemma {:induction false} CountOfMissing(rows: seq<MonthlyClickStats>, month: string)
    requires month !in Months(rows)
    ensures CountOf(rows, month) == 0
  {
    if rows != [] {
      assert rows[0].month in Months(rows);
      assert Months(rows[1..]) <= Months(rows) by {
        forall x | x in Months(rows[1..]) ensures x in Months(rows) {
          var i :| 0 <= i < |rows[1..]| && rows[1..][i].month == x;
          assert rows[i + 1].month == x;
        }
      }
      CountOfMissing(rows[1..], month);
    }
  }

  /**
   * The monthly-stats rows of a link: most recent month first, one row per
   * month that has a valid click, each holding that month's valid count, and
   * together they add up to the link's valid count.
   */
  lemma MonthlyStatsMeaning(clicks: seq<Click>, linkId: nat)
    ensures var rows := MonthlyStats(clicks, linkId);
      && (forall i, j :: 0 <= i < j < |rows| ==> Before(rows[j].month, rows[i].month))
      && (forall i :: 0 <= i < |rows| ==> rows[i].clickCount == CountValidIn(clicks, linkId, rows[i].month) > 0)
      && (forall m :: m in Months(rows) <==> CountValidIn(clicks, linkId, m) > 0)
      && Total(rows) == CountValid(clicks, linkId)
  {
    var rows := MonthlyStats(clicks, linkId);
    MonthlyStatsInvariant(clicks, linkId);
    forall i | 0 <= i < |rows| ensures rows[i].clickCount == CountValidIn(clicks, linkId, rows[i].month) {
      CountOfRow(rows, i);
    }
    forall m ensures m in Months(rows) <==> CountValidIn(clicks, linkId, m) > 0 {
      if m in Months(rows) {
        var i :| 0 <= i < |rows| && rows[i].month == m;
        CountOfRow(rows, i);
      } else {
        CountOfMissing(rows, m);
      }
    }
  }

  // -------------------------------------------------------------- findAll

  /** A Spring Data page: the content slice and its metadata. */
  datatype Page<T> = Page(content: seq<T>, number: nat, size: nat, totalElements: nat,
                          totalPages: nat, first: bool, last: bool)

  function Min(a: nat, b: nat): nat
  {
    if a <= b then a else b
  }

  /** ceil(n / size) */
  function TotalPages(n: nat, size: nat): nat
    requires size > 0
  {
    (n + size - 1) / size
  }

  /** findAll(PageRequest.of(page, size)) over the rows in the store's order. */
  function FindAll<T>(items: seq<T>, page: nat, size: nat): (p: Page<T>)
    requires size > 0
    ensures |p.content| <= size
    ensures p.totalElements == |items| && (p.first <==> page == 0)
  {
    var n := |items|;
    var pages := TotalPages(n, size);
    Page(items[Min(page * size, n)..Min(page * size + size, n)], page, size, n, pages, page == 0, page + 1 >= pages)
  }

  /** The total page count is the ceiling of n / size. */
  lemma TotalPagesIsCeiling(n: nat, size: nat)
    requires size > 0
    ensures n == 0 <==> TotalPages(n, size) == 0
    ensures n > 0 ==> (TotalPages(n, size) - 1) * size < n <= TotalPages(n, size) * size
  {
    var q := TotalPages(n, size);
    assert (n + size - 1) == q * size + (n + size - 1) % size;
  }

  /** Page `page` holds the items from page * size on, at most `size` of them. */
  lemma PageContent<T>(items: seq<T>, page: nat, size: nat)
    requires size > 0
    ensures var p := FindAll(items, page, size);
      && |p.content| <= size
      && |p.content| == (if page * size < |items| then Min(size, |items| - page * size) else 0)
      && (|p.content| == size <==> page * size + size <= |items|)
      && (forall i :: 0 <= i < |p.content| ==> page * size + i < |items| && p.content[i] == items[page * size + i])
  {
  }

  /** The item at position k is on page k / size at position k % size. */
  lemma ItemOnItsPage<T>(items: seq<T>, size: nat, k: nat)
    requires size > 0 && k < |items|
    ensures var p := FindAll(items, k / size, size);
      k % size < |p.content| && p.content[k % size] == items[k]
  {
    var page := k / size;
    assert page * size + k % size == k;
    assert page * size <= k < page * size + size;
  }

  lemma MulMonotone(a: nat, b: nat, size: nat)
    requires a <= b
    ensures a * size <= b * size
  {}

  lemma PageNonEmpty<T>(items: seq<T>, page: nat, size: nat)
    requires size > 0
    ensures |FindAll(items, page, size).content| > 0 <==> page < TotalPages(|items|, size)
  {
    var n, q := |items|, TotalPages(|items|, size);
    TotalPagesIsCeiling(n, size);
    if page < q {
      MulMonotone(page, q - 1, size);
    } else if n > 0 {
      MulMonotone(q, page, size);
    }
  }

  /** A page has content exactly when its index is below the page count; `last` means no later page has content. */
  lemma PageBounds<T>(items: seq<T>, page: nat, size: nat)
    requires size > 0
    ensures var p := FindAll(items, page, size);
      && (|p.content| > 0 <==> page < p.totalPages)
      && (p.last <==> |FindAll(items, page + 1, size).content| == 0)
  {
    PageNonEmpty(items, page, size);
    PageNonEmpty(items, page + 1, size);
  }

  /** The pagination pinned by the tests: 15 links in pages of 5, and an empty store. */
  lemma PaginationExamples<T>(items: seq<T>)
    ensures |items| == 15 ==>
      var p0, p1, p2 := FindAll(items, 0, 5), FindAll(items, 1, 5), FindAll(items, 2, 5);
      && |p0.content| == 5 && p0.totalElements == 15 && p0.totalPages == 3 && p0.first && !p0.last
      && |p1.content| == 5 && !p1.first && !p1.last
      && |p2.content| == 5 && !p2.first && p2.last
    ensures |items| == 0 ==>
      var p := FindAll(items, 0, 10);
      p.content == [] && p.totalElements == 0 && p.totalPages == 0
  {
  }

  // ------------------------------------------------------------------ store

  /** The two tables; every save checks the constraints the schema declares. */
  class LinkStore {
    var links: seq<Link>
    var clicks: seq<Click>
    var nextId: nat

    ghost predicate Valid()
      reads this
    {
      && UniqueTargets(links)
      && UniqueCodes(links)
      && IdsIncreasing(links, nextId)
      && ClicksReferenceLinks(links, clicks)
    }

    /** Empty tables; identity values start at 1. */
    constructor ()
      ensures Valid()
      ensures links == [] && clicks == [] && nextId == 1
    {
      links, clicks, nextId := [], [], 1;
    }

    /**
     * save(new link): insert a row with only the target set and draw its id.
     * Rejected, changing nothing, when the target is already present.
     */
    method InsertLink(targetUrl: string) returns (id: Option<nat>)
      requires Valid()
      modifies this
      ensures Valid()
      ensures clicks == old(clicks)
      ensures old(FindByTargetUrl(links, targetUrl)).Some? ==>
        id == None && links == old(links) && nextId == old(nextId)
      ensures old(FindByTargetUrl(links, targetUrl)).None? ==>
        && id == Some(old(nextId))
        && links == old(links) + [Link(old(nextId), None, targetUrl)]
        && nextId == old(nextId) + 1
    {
      if FindByTargetUrl(links, targetUrl).Some? {
        return None;
      }
      links := links + [Link(nextId, None, targetUrl)];
      id := Some(nextId);
      nextId := nextId + 1;
      assert ClicksReferenceLinks(links, clicks) by {
        forall k | 0 <= k < |clicks| ensures HasLink(links, clicks[k].linkId) {
          var i :| 0 <= i < |old(links)| && old(links)[i].id == clicks[k].linkId;
          assert links[i].id == clicks[k].linkId;
        }
      }
    }

    /**
     * save(link with code): set the code of the link with identifier `id`.
     * Rejected, changing nothing, when there is no such link or another link has that code.
     */
    method UpdateShortCode(id: nat, code: string) returns (ok: bool)
      requires Valid()
      modifies this
      ensures Valid()
      ensures clicks == old(clicks) && nextId == old(nextId)
      ensures ok <==> (HasLink(old(links), id) &&
        forall j :: 0 <= j < |old(links)| && old(links)[j].id != id ==> old(links)[j].shortCode != Some(code))
      ensures ok ==>
        var k := PositionOf(old(links), id);
        links == old(links)[k := old(links)[k].(shortCode := Some(code))]
      ensures !ok ==> links == old(links)
    {
      var k := PositionOf(links, id);
      if k == |links| {
        return false;
      }
      ok := forall j :: 0 <= j < |links| && links[j].id != id ==> links[j].shortCode != Some(code);
      if !ok {
        return;
      }
      ghost var before := links;
      links := links[k := links[k].(shortCode := Some(code))];
      assert forall j :: 0 <= j < |links| ==> links[j].id == before[j].id && links[j].targetUrl == before[j].targetUrl;
      assert ClicksReferenceLinks(links, clicks) by {
        forall c | 0 <= c < |clicks| ensures HasLink(links, clicks[c].linkId) {
          var i :| 0 <= i < |before| && before[i].id == clicks[c].linkId;
          assert links[i].id == clicks[c].linkId;
        }
      }
    }

    /** save(click): append a click. Rejected, changing nothing, when its link does not exist. */
    method InsertClick(click: Click) returns (ok: bool)
      requires Valid()
      modifies this
      ensures Valid()
      ensures links == old(links) && nextId == old(nextId)
      ensures ok <==> HasLink(old(links), click.linkId)
      ensures clicks == if ok then old(clicks) + [click] else old(clicks)
    {
      ok := PositionOf(links, click.linkId) < |links|;
      if ok {
        clicks := clicks + [click];
      }
    }
  }
}
