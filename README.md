# URL shortener core in Dafny

A model of the core of a Spring Boot URL shortener. A caller submits a target
URL and gets a short code; the code is the base-62 encoding of the link's
database id. Following the code redirects to the target and records a click.
A fraud check judges each click valid or not; a valid click earns 0.05. The
statistics endpoint pages through the links and reports, for each one, its
valid clicks, its earnings and a breakdown of valid clicks by month.

The project has four modules:

- `Wrappers` (`wrappers.dfy`): `Option` and `Result`.
- `Base62` (`base62.dfy`): the codec. `Encode` and `Decode` are the source's
  loops, proved against the functions `Encoding` and `Decoding`. The lemmas
  prove the round trip, injectivity, canonical form, the alphabet, error
  reporting and code length.
- `Store` (`store.dfy`): the two tables and the repository queries the
  service issues. Queries are functions over rows: `findByTargetUrl`,
  `findByShortCode`, the valid-click count, the monthly GROUP BY query and
  `findAll` with paging. `LinkStore` is a class whose save operations check
  the schema's unique constraints. The `Valid()` invariant covers unique
  targets, unique codes, increasing ids and clicks that reference existing
  links.
- `LinkService` (`link_service.dfy`): the service class over a store.
  `CreateShortLink`, `RedirectAndTrack` and `GetStats` are modelled the way
  the source runs them, step by step. Beyond the store's invariant, the
  service keeps two facts: every link's code encodes its id, and every
  click's earnings follow from its verdict (5 cents when valid, 0 otherwise).

Modelling choices:

- Database ids are `nat`. The store's `nextId` is the next identity value.
- A link's code is `Option<string>` because, between the two saves of
  `createShortLink`, the row's code is null.
- Money is integer cents, so 0.05 is 5.
- Month labels are the "YYYY-MM" strings the query produces. "ORDER BY month
  DESC" is modelled as strict lexicographic order on those strings (`Before`).
- Inputs from outside the core are parameters:
  - the fraud verdict (`isValid`);
  - the month of the click;
  - the race `createShortLink` handles (`raced`). With `raced`, a competing
    caller's whole creation commits between this call's lookup and its
    insert.
- The service is modelled over a store whose every code is the base-62
  encoding of its link's id (`CodesEncodeIds`). The integration tests seed
  rows with decimal codes directly; such a store meets that requirement only
  while all ids are below 10, where decimal and base-62 codes agree, so the
  service constructor does not accept it once an id reaches 10.

## Model

| member | source | states |
|---|---|---|
| Base62.IndexOf | src/main/java/com/fiverr/demo/util/Base62Encoder.java:4-5 | the position of a character in the 62-symbol alphabet: -1 exactly for characters outside it, otherwise an index whose symbol is that character |
| Base62.SymbolsAreAlphabet | src/main/java/com/fiverr/demo/util/Base62Encoder.java:4 | a character is in the alphabet exactly when it is a digit, an upper-case or a lower-case ASCII letter |
| Base62.ValueOfSymbol | src/main/java/com/fiverr/demo/util/Base62Encoder.java:4 | the symbol of digit d is in the alphabet and indexOf maps it back to d |
| Base62.DigitValue | src/main/java/com/fiverr/demo/util/Base62Encoder.java:25 | a symbol's digit value is below 62 and names that symbol |
| Base62.SymbolAt | src/main/java/com/fiverr/demo/util/Base62Encoder.java:4 | the symbol of digit d is the d-th character of 0-9, A-Z, a-z |
| Base62.Encoding | src/main/java/com/fiverr/demo/util/Base62Encoder.java:7-19 | what encode returns is never empty; its meaning is carried by RoundTrip, EncodingInjective, NoLeadingZero and EncodingOfCanonical |
| Base62.Encode | src/main/java/com/fiverr/demo/util/Base62Encoder.java:7-19 | the encode loop produces the canonical base-62 numeral of the id, "0" for 0 |
| Base62.Decoding | src/main/java/com/fiverr/demo/util/Base62Encoder.java:21-32 | decode fails exactly when the code holds a character outside the alphabet, and then names such a character; DecodingRejects and DecodeFold give the rest |
| Base62.Value | src/main/java/com/fiverr/demo/util/Base62Encoder.java:29 | the fold value*62+digit over a k-character code is below 62^k |
| Base62.Decode | src/main/java/com/fiverr/demo/util/Base62Encoder.java:21-32 | the decode loop either folds value*62+digit over the whole code or stops with the first character outside the alphabet |
| Base62.FirstInvalid | src/main/java/com/fiverr/demo/util/Base62Encoder.java:23-28 | the position where decode stops: every earlier character is a symbol and the one there is not |
| Base62.EncodingInAlphabet | src/main/java/com/fiverr/demo/util/Base62Encoder.java:12-18 | every character of an encoding is in the alphabet |
| Base62.NoLeadingZero | src/main/java/com/fiverr/demo/util/Base62Encoder.java:8-18 | an encoding is never empty and starts with '0' exactly when the id is 0, which encodes to "0" |
| Base62.RoundTrip | src/main/java/com/fiverr/demo/util/Base62Encoder.java:7-32 | decoding the encoding of any id gives the id back, with no error |
| Base62.EncodingInjective | src/main/java/com/fiverr/demo/util/Base62Encoder.java:7-19 | distinct ids get distinct codes |
| Base62.EncodingIsCanonical | src/main/java/com/fiverr/demo/util/Base62Encoder.java:7-19 | every encoding is a canonical numeral: symbols only, and no leading '0' unless it is "0" |
| Base62.EncodingOfCanonical | src/main/java/com/fiverr/demo/util/Base62Encoder.java:7-32 | encoding the value of a canonical numeral gives back that numeral, so encode is onto the canonical codes |
| Base62.DecodeFold | src/main/java/com/fiverr/demo/util/Base62Encoder.java:22-31 | decode of the empty code is 0; appending a symbol multiplies by 62 and adds its digit, appending a non-symbol fails on it, and an earlier failure persists |
| Base62.DecodingRejects | src/main/java/com/fiverr/demo/util/Base62Encoder.java:23-28 | decode fails exactly when some character is outside the alphabet, reports the first such character, and succeeds with the numeral's value otherwise |
| Base62.Pow | src/main/java/com/fiverr/demo/util/Base62Encoder.java:5 | powers of the base are at least 1 |
| Base62.EncodingLength | src/main/java/com/fiverr/demo/util/Base62Encoder.java:12-18 | a positive id has a k-character code exactly when 62^(k-1) <= id < 62^k |
| Base62.FitsWidth | src/main/java/com/fiverr/demo/entity/ShortenedLink.java:21 | a positive id's code fits a column of the given width exactly when the id is below 62^width (width 10 for short_code) |
| Base62.LongRange | src/main/java/com/fiverr/demo/util/Base62Encoder.java:21-31 | the largest Java long id has an 11-character code, and the 11-character code of 11*62^10 decodes to a value above 2^63-1, where the Java accumulator wraps |
| Base62.EncodeExamples | src/test/java/com/fiverr/demo/util/Base62EncoderTest.java:8-35 | encodings of 0, 1, 9, 10, 35, 36, 61, 62 and 97 are "0", "1", "9", "A", "Z", "a", "z", "10" and "1Z" |
| Base62.DecodeExamples | src/test/java/com/fiverr/demo/util/Base62EncoderTest.java:46-62 | "0", "1", "A", "a", "10" and "1Z" decode to 0, 1, 10, 36, 62 and 97 |
| Base62.RejectExamples | src/test/java/com/fiverr/demo/util/Base62EncoderTest.java:74-86 | "!@#" is rejected on '!' and "A$B" on '$' |
| Store.FindByTargetUrl | src/main/java/com/fiverr/demo/repository/ShortenedLinkRepository.java:11 | the lookup finds a stored link with that target, and finds nothing exactly when no link has it |
| Store.FindByShortCode | src/main/java/com/fiverr/demo/repository/ShortenedLinkRepository.java:12 | the lookup finds a stored link with that code, and finds nothing exactly when no link has it |
| Store.FindByTargetUrlUnique | src/main/java/com/fiverr/demo/entity/ShortenedLink.java:12-14 | under the unique target constraint, the lookup by a link's target returns that link |
| Store.FindByShortCodeUnique | src/main/java/com/fiverr/demo/entity/ShortenedLink.java:21-22 | under the unique code constraint, the lookup by a link's code returns that link |
| Store.ExactlyOneLinkPerTarget | src/main/java/com/fiverr/demo/entity/ShortenedLink.java:24-25 | with unique targets, a target the lookup finds is held by exactly one row |
| Store.FindAppended | src/main/java/com/fiverr/demo/entity/ShortenedLink.java:12-14 | a link saved for a new target keeps targets unique and is the one row the lookup by that target finds |
| Store.PositionOf | src/main/java/com/fiverr/demo/entity/ShortenedLink.java:17-19 | the position of the row with an id: the first one with it, or past the end exactly when there is none |
| Store.CountValid | src/main/java/com/fiverr/demo/repository/ClickRepository.java:14 | a link's valid count is at most the number of clicks; CountValidCounts and CountValidAppend give its meaning |
| Store.CountValidCounts | src/main/java/com/fiverr/demo/repository/ClickRepository.java:14 | the valid-click count of a link is the number of its clicks that are valid |
| Store.CountValidAppend | src/main/java/com/fiverr/demo/repository/ClickRepository.java:14 | saving a click raises its link's valid count by one when it is valid and changes no other count |
| Store.EarningsAgree | src/main/java/com/fiverr/demo/service/LinkService.java:77-89 | when every click stores the unit for valid and 0 for invalid, the sum of a link's stored earnings is the unit times its valid count |
| Store.BeforeIrreflexive | src/main/java/com/fiverr/demo/repository/ClickRepository.java:21 | no month label sorts before itself |
| Store.BeforeTransitive | src/main/java/com/fiverr/demo/repository/ClickRepository.java:21 | the label order is transitive |
| Store.BeforeTotal | src/main/java/com/fiverr/demo/repository/ClickRepository.java:21 | any two distinct labels are ordered |
| Store.MonthsCons | src/main/java/com/fiverr/demo/repository/ClickRepository.java:17-23 | the months of a row list are the first row's month plus those of the rest |
| Store.BumpMonths | src/main/java/com/fiverr/demo/repository/ClickRepository.java:20 | counting one more click in a month adds that month to the groups |
| Store.BumpTotal | src/main/java/com/fiverr/demo/repository/ClickRepository.java:17 | counting one more click raises the sum of the group counts by one |
| Store.BumpCounts | src/main/java/com/fiverr/demo/repository/ClickRepository.java:17-20 | counting one more click in a month raises that month's count by one and no other |
| Store.BumpPositive | src/main/java/com/fiverr/demo/repository/ClickRepository.java:17-20 | every group keeps a positive count |
| Store.BumpTailBelow | src/main/java/com/fiverr/demo/repository/ClickRepository.java:21 | when a click's month is below the first group's, every later group stays below the first |
| Store.BumpDescending | src/main/java/com/fiverr/demo/repository/ClickRepository.java:21 | counting one more click keeps the groups in strictly descending month order |
| Store.CountOfAbsent | src/main/java/com/fiverr/demo/repository/ClickRepository.java:20 | a month later than every group of a descending list has count 0 |
| Store.MonthlyStats | src/main/java/com/fiverr/demo/repository/ClickRepository.java:16-23 | the query's counts add up to the link's valid count; MonthlyStatsMeaning gives the order and the per-month counts |
| Store.PositiveTotal | src/main/java/com/fiverr/demo/repository/ClickRepository.java:17-20 | groups with positive counts are no more than the clicks they count |
| Store.MonthlyStatsInvariant | src/main/java/com/fiverr/demo/repository/ClickRepository.java:16-23 | the query's rows are in strictly descending month order with positive counts |
| Store.CountOfRow | src/main/java/com/fiverr/demo/repository/ClickRepository.java:17-21 | in a descending row list, the count of a row's month is that row's count |
| Store.CountOfMissing | src/main/java/com/fiverr/demo/repository/ClickRepository.java:20 | a month with no group has count 0 |
| Store.MonthlyStatsMeaning | src/main/java/com/fiverr/demo/repository/ClickRepository.java:16-23 | one row per month that has valid clicks of the link, in descending order; each row's count is that month's valid clicks; the counts add up to the link's valid count |
| Store.FindAll | src/main/java/com/fiverr/demo/service/LinkService.java:85 | a page holds at most size links, reports the number of links stored and is first exactly at page 0; PageContent and PageBounds give its content and last flag |
| Store.TotalPagesIsCeiling | src/main/java/com/fiverr/demo/service/LinkService.java:85 | the page count is the ceiling of element count over page size, 0 for no elements |
| Store.PageContent | src/main/java/com/fiverr/demo/service/LinkService.java:85 | page p holds the rows from p*size on: min(size, n - p*size) of them when p*size < n and none otherwise, so it is full exactly when enough rows follow |
| Store.ItemOnItsPage | src/main/java/com/fiverr/demo/service/LinkService.java:85 | row k is on page k/size at position k%size |
| Store.PageNonEmpty | src/main/java/com/fiverr/demo/service/LinkService.java:85 | a page has rows exactly when its number is below the page count |
| Store.PageBounds | src/main/java/com/fiverr/demo/service/LinkService.java:85 | a page has rows exactly when its number is below the page count, and it is marked last exactly when the next page is empty |
| Store.PaginationExamples | src/test/java/com/fiverr/demo/controller/LinkControllerIntegrationTest.java:128-212 | 15 links in pages of 5 give three full pages with first and last set as the tests expect, and an empty store gives no pages |
| Store.LinkStore.constructor | src/main/java/com/fiverr/demo/entity/ShortenedLink.java:17-19 | empty tables that meet the invariant, identity starting at 1 |
| Store.LinkStore.InsertLink | src/main/java/com/fiverr/demo/entity/ShortenedLink.java:12-25 | saving a new link appends a row with no code and the next id, or is rejected with nothing changed when the target is taken |
| Store.LinkStore.UpdateShortCode | src/main/java/com/fiverr/demo/entity/ShortenedLink.java:21-22 | saving a code changes that link's code only, and is rejected with nothing changed when the link is missing or another link has the code |
| Store.LinkStore.InsertClick | src/main/java/com/fiverr/demo/entity/Click.java:19-21 | saving a click appends it, and is rejected with nothing changed when its link does not exist |
| LinkService.EarningsFor | src/main/java/com/fiverr/demo/service/LinkService.java:77 | a click earns nothing exactly when it is judged invalid |
| LinkService.ToResponse | src/main/java/com/fiverr/demo/service/LinkService.java:107-110 | the response carries the link's code and target, and its short URL starts with the base URL; ShortUrlNamesCode shows the URL names exactly that code |
| LinkService.ShortUrlNamesCode | src/main/java/com/fiverr/demo/service/LinkService.java:107-110 | the response carries the link's code and target, and its short URL is the base URL, a slash and exactly that code |
| LinkService.Put | src/main/java/com/fiverr/demo/service/LinkService.java:94 | put grows the map by at most one entry, maps the key to the new value and leaves every other key's value as it was; PutNewKey shows a new key is appended at the end |
| LinkService.PutNewKey | src/main/java/com/fiverr/demo/service/LinkService.java:94 | putting a key the map lacks appends it at the end |
| LinkService.PutAllKeepsOrder | src/main/java/com/fiverr/demo/service/LinkService.java:92-95 | filling the map from the descending monthly rows keeps every row, in the query's order |
| LinkService.FillBreakdown | src/main/java/com/fiverr/demo/service/LinkService.java:92-95 | the loop computes the map that puts each row's month and count in order |
| LinkService.BreakdownTotalOfEntries | src/main/java/com/fiverr/demo/service/LinkService.java:91-95 | the breakdown's counts add up to the rows' counts |
| LinkService.StatsOf | src/main/java/com/fiverr/demo/service/LinkService.java:87-103 | a link's entry carries its code and target, a total at most the number of clicks, and no more breakdown entries than valid clicks; StatsMeaning gives its meaning |
| LinkService.StatsMeaning | src/main/java/com/fiverr/demo/service/LinkService.java:88-103 | a link's statistics: its code and target; the number of its valid clicks; 5 cents per valid click, equal to the sum of its stored earnings; one breakdown entry per month with valid clicks, newest first, with that month's count and summing to the total |
| LinkService.LinkService.constructor | src/main/java/com/fiverr/demo/service/LinkService.java:36-42 | a service over a store that meets its invariant |
| LinkService.LinkService.SaveNewLink | src/main/java/com/fiverr/demo/service/LinkService.java:53-60 | the two saves store a new link whose code encodes its fresh id; the second save cannot be rejected, because earlier codes encode smaller ids; a taken target rejects the first save and nothing changes |
| LinkService.LinkService.CreateShortLink | src/main/java/com/fiverr/demo/service/LinkService.java:44-65 | an existing target's link is returned with nothing changed; otherwise one new link with the next id and its encoding is stored, also when a competing caller wins the race; in every case the response is the target's one stored link |
| LinkService.LinkService.RedirectAndTrack | src/main/java/com/fiverr/demo/service/LinkService.java:67-81 | an unknown code fails with not found and records nothing; a known code returns its target and appends one click with the verdict and its earnings |
| LinkService.LinkService.GetStats | src/main/java/com/fiverr/demo/service/LinkService.java:83-105 | the page of statistics has the link page's metadata, and each entry is the statistics of the link at that position |
| LinkService.CreateIsIdempotent | src/test/java/com/fiverr/demo/controller/LinkControllerIntegrationTest.java:68-93 | creating the same target twice, raced or not, answers the same and leaves one link for it |
| LinkService.RecordedClicks | src/main/java/com/fiverr/demo/service/LinkService.java:74-78 | one stored click per verdict, in order, each for the link with its verdict, its earnings and the month |
| LinkService.RedirectRepeatedly | src/test/java/com/fiverr/demo/controller/RedirectControllerIntegrationTest.java:76-96 | N redirects on a known code append N clicks in order, each with its verdict, and all return the target; on an unknown code nothing is recorded |
| LinkService.CreateThenRedirect | src/test/java/com/fiverr/demo/controller/RedirectControllerIntegrationTest.java:46-63 | following a freshly created code reaches the target and stores exactly one click, for that link, with the verdict, its earnings and the month, whatever the verdict; the link's valid count rises by one exactly when the click is valid |

## Left out

- FraudDetectionService (sleep and random verdict): the verdict is the `isValid` parameter of `RedirectAndTrack`.
- Transactions and concurrency: the one race `createShortLink` handles is the `raced` parameter, a competing creation committed in full before this call's insert. Other interleavings and row locks are not modelled. Nor is the rollback of a transaction after a constraint violation: in the source the rejected insert runs inside the service's transaction, which Spring may then mark rollback-only, so the `raced` branch models the intended behaviour (a re-read that returns the winner), not a path the Java code is known to complete.
- Identity values drawn by rejected inserts: a rejected insert does not advance `nextId` here, while a database sequence may skip that value. Ids are still distinct and increasing.
- Timestamps (`createdAt`, `clickedAt`) and click ids are not modelled. A click stores the month label it falls in, given as a parameter.
- TO_CHAR and the database's collation of the labels: months are compared as strings.
- BigDecimal: earnings are integer cents.
- Base62.Decode: does not model Java `long` overflow, because values are unbounded `nat`. Codes whose value exceeds 2^63-1 (the 11-character codes above "AzL8n0Y58m7", such as "B0000000000", and every longer code that does not start with '0') wrap silently in Java; the model keeps the exact value (`Base62.LongRange`).
- Base62.Decode: walks Unicode scalar values, while Java's charAt walks UTF-16 code units. Both accept and reject the same strings, but for a character outside the Basic Multilingual Plane Java reports its high surrogate and the model reports the whole character.
- Base62.Encode: takes a `nat` id, so Java's empty result for a negative `long` is not modelled. Database ids are positive.
- The short_code column's length limit of 10 is not enforced by `LinkStore`. `Base62.FitsWidth` states which ids fit it.
- LinkService.LinkService.constructor: requires that every stored code is the encoding of its link's id. A store seeded otherwise (for instance with decimal codes, where id 10 holds "10", the encoding of 62) can make createShortLink's second save hit the unique short_code constraint; that rejection is not modelled.
- findAll's natural order is taken to be insertion order.
- Bean validation of the request (CreateLinkRequest.java): enforced by the web layer before the service runs, so it is not modelled.
- Controllers, DTO getters and setters, Spring wiring and HelloApiApplication: framework code outside the core.
