# MalPeopleScraper core, modelled in Dafny

The script `scrape_mal_update_db.py` walks the MyAnimeList people ranking
50 people at a time. From each `tr.ranking-list` row it extracts the person id,
the links, the names and the favorites count. It inserts the named rows of
each page into the `people` table with `on conflict do nothing`. It stops when
a page's running minimum of favorites ends at 0, or when the offset reaches
100000. It then tries to rebuild three report tables. Each would rank every person by how
many favorites they gained between their earliest and latest snapshot in the
last 1, 7 or 30 days.

The model has one module per concern:

- `Text` (`text.dfy`): the Python string operations the extractor uses.
  These are `str.strip()`, `str.replace(c, "")`, `str.split(c)`, and `int()`
  on decimal digits, with the whitespace `int()` skips.
- `Fields` (`fields.dfy`): the per-row field expressions. They give the id
  (fifth `/` field of the link), the Japanese name with its parentheses removed,
  the favorites count and the `person_id_date` key.
- `Store` (`store.dfy`): the `people` table, a map keyed by `person_id_date`.
  `PeopleTable.SavePeople` inserts a batch with insert-if-absent.
- `Page` (`page.dfy`): the row loop of `search_page`. `CollectRows` builds
  `people_data` and the running minimum in a loop, proved against the
  functions `PeopleData` and `LeastFavorites`. `SearchPage` saves the page and
  returns whether the crawl goes on.
- `Driver` (`driver.dfy`): the `while limit < 100000 and search_page(...)`
  loop. `search_page`'s answers are an oracle `more: nat -> bool`.
- `FavoritesChange` (`window_diff.dfy`): the relational meaning of the
  `create table ... as select` query, as the pure function `WindowDiff`. The
  class `ReportTables` drops and recreates the named tables.

Behaviour of the script worth knowing:

- A page with no successfully extracted row does not stop the crawl. The
  minimum stays at its starting value 1000000000, so `search_page` returns
  True (lines 38-39, 71-74). The crawl stops only after a page whose running
  minimum ends at 0. With realistic counts, that is a page where some extracted
  row has 0 favorites, whether or not the row has a name.
- The bound is tested before each call (`and` short-circuits, line 168), so
  `search_page` is never called with `limit >= 100000`.
- The names and links of a report row come from `people p`, which is joined on
  `person_id` alone (lines 108, 129). They may come from any stored row of that
  person, of any date. They need not come from the earliest row in the window.

## Model

| member | source | states |
|---|---|---|
| `Text.Strip` | scrape_mal_update_db.py:50 | `strip()` returns a slice that neither starts nor ends with whitespace, and everything cut off on either side is whitespace |
| `Text.StripPadded` | scrape_mal_update_db.py:50 | stripping a text padded by whitespace gives back exactly the text |
| `Text.JoinSplit` | scrape_mal_update_db.py:44 | `split` loses nothing: joining its fields with the separator gives back the input |
| `Text.IntOf` | scrape_mal_update_db.py:58 | no contract of its own: `int(s)` on ASCII digits, `None` where it raises; described by `IntOfPadded`, `IntOfShape` and `IntOfDigits` |
| `Text.IntOfPadded` | scrape_mal_update_db.py:58 | a non-empty run of digits between whitespace `int` skips (`str.isspace` less U+001C-U+001F) parses to its value |
| `Text.IntOfShape` | scrape_mal_update_db.py:58 | conversely, a text `int` accepts is whitespace it skips, a non-empty run of digits, and whitespace it skips, and it parses to that run's value |
| `Text.Split` | scrape_mal_update_db.py:44 | `split(c)` has one more field than `c` occurs, and no field contains `c` |
| `Text.RemoveChar` | scrape_mal_update_db.py:54-58 | `replace(c, "")` leaves no `c`; with `RemoveCharAbsent` a text without `c` is unchanged, with `RemoveCharMembers` a character survives iff it was there and is not `c`, and with `RemoveCharConcat` it works piecewise on a concatenation |
| `Fields.PersonId` | scrape_mal_update_db.py:43-44 | `link.split("/")[4]` exists iff the link has at least four `/`; otherwise the row raises; the id has no `/` |
| `Fields.PersonIdOfProfileLink` | scrape_mal_update_db.py:44 | for any link `f0/f1/f2/f3/id`, optionally followed by `/rest`, whose first five fields hold no `/`, the extracted id is `id` (the listing's `https://myanimelist.net/people/<id>/<name>` is the case with `f1` empty) |
| `Fields.JapaneseName` | scrape_mal_update_db.py:52-56 | the Japanese name never contains `(` or `)`; a row without the span gets `""` |
| `Fields.JapaneseNameMembers` | scrape_mal_update_db.py:52-54 | a character is in the name taken from a span iff it is in the span's stripped text and is neither `(` nor `)` |
| `Fields.JapaneseNameOfParenthesized` | scrape_mal_update_db.py:52-56 | a whitespace-padded `(inner)` span yields `inner` |
| `Fields.ParseFavorites` | scrape_mal_update_db.py:58 | no contract of its own: `IntOf` of `text.strip().replace(",", "")`, `None` where `int` raises; described by `ParseFavoritesAccepts`, `ParseFavoritesOfListing` and `SeparatorBehindCommaRejected` |
| `Fields.ParseFavoritesAccepts` | scrape_mal_update_db.py:58 | a count is read only from a text of digits, commas and whitespace with at least one digit (whitespace next to a comma is accepted where `int` skips it around what `replace` leaves) |
| `Fields.ParseFavoritesOfListing` | scrape_mal_update_db.py:58 | a comma-grouped count, padded by whitespace, parses back to that count |
| `Fields.SeparatorBehindCommaRejected` | scrape_mal_update_db.py:58 | `",\x1c5"` makes the row raise: `strip()` keeps it, `replace` leaves `"\x1c5"`, and `int` does not skip U+001C |
| `Fields.RecordKey` | scrape_mal_update_db.py:61 | no contract of its own: the key `id + "_" + today`; described by `RecordKeyInjective` |
| `Fields.RecordKeyInjective` | scrape_mal_update_db.py:61 | `id + "_" + today` determines id and date (within one day always, across days when ids have no `_`) |
| `Store.FirstWithKey` | scrape_mal_update_db.py:17-19 | finds a record of the batch with the key iff one exists, and the one found comes before every other record with that key, as `on conflict do nothing` keeps the first of a batch's duplicates |
| `Store.InsertIfAbsent` | scrape_mal_update_db.py:18 | no contract of its own: one row of `on conflict do nothing`, which leaves a stored key alone; described by the contract of `InsertAll` and by `InsertAllIdempotent` and `InsertAllKeepsKeying` |
| `Store.InsertAll` | scrape_mal_update_db.py:17-19 | after `insert ... on conflict do nothing`, stored rows are unchanged, and each new key holds the first record of the batch with that key |
| `Store.InsertAllIdempotent` | scrape_mal_update_db.py:18 | inserting the same batch twice equals inserting it once |
| `Store.InsertAllConcat` | scrape_mal_update_db.py:17-19 | inserting two batches one after the other equals inserting their concatenation |
| `Store.InsertAllKeepsKeying` | scrape_mal_update_db.py:18 | every stored row stays under its own `person_id_date` |
| `Store.PeopleTable.SavePeople` | scrape_mal_update_db.py:9-26 | the table after the call is the insert-if-absent of the batch into the old table |
| `Page.Extract` | scrape_mal_update_db.py:42-58 | no contract of its own: a row raises (`None`) iff an element is missing, the link has fewer than four `/`, or the favorites text is not a count; described by the contracts of `PersonId`, `JapaneseName` and `PeopleData`, and by `ParseFavoritesAccepts` and `PageWithoutExtractedRowsContinues` |
| `Page.RecordOf` | scrape_mal_update_db.py:60-62 | no contract of its own: the tuple appended for an extracted row; described by the contract of `PeopleData` and by `RecordKeyInjective` |
| `Page.NamedRecord` | scrape_mal_update_db.py:60-62 | no contract of its own: a row's record, present iff it was extracted with a non-empty English name; described by `PeopleDataMembers`, `FailedRowAddsNoRecord` and `CollectRow` |
| `Page.LeastStep` | scrape_mal_update_db.py:64-66 | no contract of its own: one row's `min` and the reset of the sentinel to 0; described by `LeastFromClosedForm`, `FailedRowKeepsMinimum` and `CollectRow` |
| `Page.LeastFavorites` | scrape_mal_update_db.py:64-66 | no contract of its own: the running minimum over the page's rows; described by `LeastFromClosedForm`, `StopRule` and `CollectRows` |
| `Page.Continues` | scrape_mal_update_db.py:71-74 | no contract of its own: `search_page` returns True iff the final minimum is not 0; described by `StopRule`, `StopsIffSomeRowHasNoFavorites`, `PageWithoutExtractedRowsContinues` and `SearchPage` |
| `Page.PeopleData` | scrape_mal_update_db.py:36-62 | every record has key `id_today`, date `today`, a non-empty English name, a non-negative count, an id without `/` and a name without parentheses; there are no more records than rows |
| `Page.PeopleDataMembers` | scrape_mal_update_db.py:60-62 | a record is in `people_data` iff some row of the page was extracted with a non-empty English name and produced it |
| `Page.PeopleDataConcat` | scrape_mal_update_db.py:40-62 | records are produced row by row in page order: the records of `a + b` are those of `a` followed by those of `b` |
| `Page.MinOf` | scrape_mal_update_db.py:64 | the minimum is an element and no element is smaller |
| `Page.LeastFromClosedForm` | scrape_mal_update_db.py:38-39 | the final `least_favorites_on_page` is the sentinel if no row was extracted, 0 if the first extracted count is at least the sentinel, and otherwise the smallest extracted count |
| `Page.StopRule` | scrape_mal_update_db.py:64-74 | `search_page` returns False iff some row was extracted and either the first extracted count is at least 1000000000 or some extracted count is 0 |
| `Page.StopsIffSomeRowHasNoFavorites` | scrape_mal_update_db.py:58-74 | with counts below 1000000000, `search_page` returns False iff some extracted row, named or not, has 0 favorites |
| `Page.FailedRowIsSkipped` | scrape_mal_update_db.py:40-68 | a row whose extraction raises adds no record and leaves the minimum as it was; the later rows are processed as if it were absent |
| `Page.FailedRowAddsNoRecord` | scrape_mal_update_db.py:60-62 | a row that yields no record can be removed without changing `people_data` |
| `Page.FailedRowKeepsMinimum` | scrape_mal_update_db.py:64-68 | a row that yields no count can be removed without changing the final minimum |
| `Page.PageWithoutExtractedRowsContinues` | scrape_mal_update_db.py:36-39 | a page on which no row is extracted records nothing, keeps the sentinel, and `search_page` returns True |
| `Page.CollectRows` | scrape_mal_update_db.py:36-68 | the loop builds exactly `PeopleData(rows, today)` and ends with the minimum `LeastFavorites(rows)` |
| `Page.CollectRow` | scrape_mal_update_db.py:40-66 | one pass of the loop body appends exactly the row's `NamedRecord`, if any, and moves the minimum by `LeastStep` on the row's count |
| `Page.SearchPage` | scrape_mal_update_db.py:28-74 | the table gets the page's records inserted if absent, and the result is True iff the final minimum is not 0 |
| `Driver.CallsFrom` | scrape_mal_update_db.py:168 | no contract of its own: the offsets `search_page` is called with from `limit` on; described by `CallsShape`, `CallsStopAtFirstFalse` and `CallsWhenNeverStopped` |
| `Driver.Calls` | scrape_mal_update_db.py:168 | no contract of its own: the offsets of a whole run, from 0; described by `CallsShape`, `CallsStopAtFirstFalse`, `CallsWhenNeverStopped` and `Crawl` |
| `Driver.CallsShape` | scrape_mal_update_db.py:166-169 | `search_page` is called with 0, 50, 100, ...: strictly increasing, all below 100000; at least 1 and at most 2000 calls; every call but the last returned True; the last returned False unless the bound ended the loop |
| `Driver.CallsStopAtFirstFalse` | scrape_mal_update_db.py:166-169 | if call number `k` (`k < 2000`) is the first to return False, exactly `k + 1` calls are made, the last at offset `50k` |
| `Driver.CallsWhenNeverStopped` | scrape_mal_update_db.py:166-169 | if no call returns False, the bound stops the loop after exactly 2000 calls |
| `Driver.CrawlRecordsDated` | scrape_mal_update_db.py:164-168 | every record a run saves carries that run's single `today`, and its key is built from it |
| `Driver.CrawlPage` | scrape_mal_update_db.py:168-169 | one turn of the loop: the page at `limit` is saved, and the remaining calls follow only if `search_page` returned True |
| `Driver.Crawl` | scrape_mal_update_db.py:164-169 | the loop makes exactly the calls `Calls(more)`, and the table ends as the insert-if-absent of all their pages' records in call order |
| `FavoritesChange.Earliest` | scrape_mal_update_db.py:118-126 | `min(date)` over the person's rows between `start` and `end` inclusive: present iff such a row exists, attained by one, and not after any |
| `FavoritesChange.Latest` | scrape_mal_update_db.py:140-148 | `max(date)` over the same rows: present iff such a row exists, attained by one, and not before any |
| `FavoritesChange.RowOn` | scrape_mal_update_db.py:111-127 | the join on person and aggregated date finds a stored row of that person and date iff one exists |
| `FavoritesChange.AnyRow` | scrape_mal_update_db.py:100-129 | the join of `people p` on `person_id` finds some stored row of the person iff one exists |
| `FavoritesChange.PersonsIn` | scrape_mal_update_db.py:118-125 | the groups of `group by person_id` over the window: each person with an in-window row, once |
| `FavoritesChange.DiffOf` | scrape_mal_update_db.py:88-96 | no contract of its own: a person's report row; described by `WindowDiffRow`, `WindowDiffCounts` and `SingleSnapshotNoChange` |
| `FavoritesChange.Insert` | scrape_mal_update_db.py:153 | inserting a row into a ranked sequence keeps it ranked and adds exactly that row |
| `FavoritesChange.Rank` | scrape_mal_update_db.py:153 | the result is a permutation of the input ordered by change descending, then new count ascending |
| `FavoritesChange.WindowDiff` | scrape_mal_update_db.py:84-153 | the report is ordered by `change desc, new_favorite_count asc` |
| `FavoritesChange.WindowDiffMembers` | scrape_mal_update_db.py:84-153 | the rows of the report are exactly the report rows of the people with an in-window row |
| `FavoritesChange.WindowDiffPersons` | scrape_mal_update_db.py:88-149 | a person is in the report iff they have a row with `start <= date <= end`, and no person is in it twice |
| `FavoritesChange.WindowDiffRow` | scrape_mal_update_db.py:88-153 | each report row takes the old count from the person's earliest in-window row and the new count from their latest; `change = new - old`; names and links come from some stored row of the person |
| `FavoritesChange.WindowDiffCounts` | scrape_mal_update_db.py:111-149 | with one row per person and date, old and new are the counts of the person's rows on the earliest and latest in-window dates |
| `FavoritesChange.SingleSnapshotNoChange` | scrape_mal_update_db.py:94-149 | a person with a single in-window row is in the report with old = new = that row's count and change 0 |
| `FavoritesChange.OutOfWindowRowsIgnored` | scrape_mal_update_db.py:123-145 | appending rows dated outside the window to the table leaves the report unchanged, rows and order |
| `FavoritesChange.ReportTables.CreateFavoritesChangeTable` | scrape_mal_update_db.py:84-88 | `drop table if exists` plus `create table as`: the named table holds the new report, and no other table changes |
| `FavoritesChange.ReportTables.CreateAllReports` | scrape_mal_update_db.py:171-178 | the one-, seven- and thirty-day tables hold the reports for `[today-1, today]`, `[today-7, today]` and `[today-30, today]`; other tables are unchanged |

## Left out

- The HTTP fetch (`requests.get`, lines 29-30) and the BeautifulSoup navigation (lines 32-34, 42-58) are foreign libraries. A page is given as a sequence of abstract rows (`Page.RawRow`). `Missing` stands for any row in which a dereferenced element is absent.
- The listing is the parameter `site`, which gives the rows served at each offset. A response with an HTTP error status is a page without rows, which keeps the crawl going. A `requests.get` that raises (lines 29-30) is outside any `try` and ends the whole script: no further page is fetched and no report table is built. That case is left out.
- psycopg2 connections, cursors, commits and credentials from the environment are left out (lines 9-26, 77-83, 156-162). So are the printed error messages and the `UnboundLocalError` when `connect` fails. `save_people` is modelled as an insert that succeeds. The swallowed database error, which leaves the table unchanged, is not modelled.
- The SQL statement itself, its text built by interpolating table names and dates (lines 86-88, 123, 145), and its failure path are left out. PostgreSQL rejects the statement, because the `distinct on` expression `j1.person_id` is not among the leading `order by` expressions (line 153). So every call at lines 172-178 raises. The error is swallowed at lines 157-158, and the connection closes without a commit. The model gives the statement's relational meaning, as the report the script would build once the query is accepted, and not the failure.
- `date.today()`, `timedelta` and `str(date)` (lines 164-177) are left out. The report model uses integer day ordinals. The `people` table of `Store` keeps the date as the `today` string, as the insert does. Converting one date form into the other is not modelled.
- `Fields.ParseFavorites`: Python's `int()` also accepts a sign, `_` between digits, and non-ASCII decimal digits. The model reads only ASCII digits, with commas anywhere, `str.isspace` whitespace at either end of the text, and the whitespace `int` skips at either end of what is left once the commas are gone (so `", 5"` and `"5 ,"` read 5, while `",\x1c5"` fails, as with `int`). It treats every other text as a row failure.
- `Fields.ParseFavorites`: since Python 3.11, `int()` refuses a text of more than 4300 digits by default. The model reads digit runs of any length, since the limit depends on the interpreter's version and settings.
- `FavoritesChange.WindowDiff`: PostgreSQL leaves the order of rows with equal `change` and `new_favorite_count` unspecified. The model fixes one order.
- `FavoritesChange.WindowDiff`: `distinct on` keeps an unspecified row of a person's group. The model takes the person's first stored row for the names and links. Its contract only promises a row of that person.
- `FavoritesChange.WindowDiffCounts`: a table with two rows for one person and date would make the joins produce several candidate counts. This needs one row per person and date, the uniqueness of `person_id_date`. Without it, the model takes the first such row (`WindowDiffRow` still holds).
