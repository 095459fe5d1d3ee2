/**
 One page of the ranking as `search_page` handles it
 (scrape_mal_update_db.py:28-74): every row is extracted on its own, rows with
 a display name become records, and the smallest favorites count among the
 extracted rows decides whether the crawl goes on.
 */
module Page {
  import opened Wrappers
  import opened Text
  import opened Fields
  import opened Store

  /**
   One `tr.ranking-list` row as the extractor sees it. `Missing` is a row in
   which an element the extractor dereferences is absent (the profile anchor or
   its `href`, the image, the name anchor, the favorites cell), so Python
   raises before the row is used. A `Row` gives the texts found: `imageLink` is
   `None` when the image has no `data-src` (which does not raise), and
   `japaneseSpan` is `None` when the row has no Japanese-name span.
   */
  datatype RawRow =
    | Missing
    | Row(link: string, imageLink: Option<string>, englishText: string,
          japaneseSpan: Option<string>, favoritesText: string)

  /** The values lines 42-58 compute for a row that raises nothing. */
  datatype Extracted = Extracted(
    personId: string,
    link: string,
    imageLink: Option<string>,
    englishName: string,
    japaneseName: string,
    favorites: nat)

  /** `max_least_favorites`, the starting value of the running minimum. */
  const SENTINEL: int := 1000000000

  /** The body of the `try` up to line 58, or `None` where it raises. */
  function Extract(row: RawRow): Option<Extracted> {
    match row
    case Missing => None
    case Row(link, imageLink, englishText, japaneseSpan, favoritesText) =>
      match PersonId(link)
      case None => None
      case Some(id) =>
        match ParseFavorites(favoritesText)
        case None => None
        case Some(count) =>
          Some(Extracted(id, link, imageLink, Strip(englishText), JapaneseName(japaneseSpan), count))
  }

  /** The tuple appended at line 62. */
  function RecordOf(e: Extracted, today: string): Record {
    Record(RecordKey(e.personId, today), e.personId, today, e.englishName, e.japaneseName,
           e.link, e.imageLink, e.favorites)
  }

  /** What one row contributes to `people_data`. */
  function NamedRecord(row: RawRow, today: string): Option<Record> {
    match Extract(row)
    case None => None
    case Some(e) => if e.englishName != "" then Some(RecordOf(e, today)) else None
  }

  /** The values of the present elements of `s`, in order: what survives a filter on `None`. */
  function Present<T(!new)>(s: seq<Option<T>>): (values: seq<T>)
    ensures |values| <= |s|
    ensures forall v {:trigger v in values} {:trigger Some(v) in s} :: v in values <==> Some(v) in s
  {
    if s == [] then []
    else
      var init := s[..|s| - 1];
      assert s == init + [s[|s| - 1]];
      var before := Present(init);
      if s[|s| - 1].Some? then before + [s[|s| - 1].value] else before
  }

  lemma {:induction false} PresentOfNothing<T(!new)>(s: seq<Option<T>>)
    requires forall i :: 0 <= i < |s| ==> s[i].None?
    ensures Present(s) == []
  {
    if s != [] {
      PresentOfNothing(s[..|s| - 1]);
    }
  }

  lemma {:induction false} PresentConcat<T(!new)>(a: seq<Option<T>>, b: seq<Option<T>>)
    ensures Present(a + b) == Present(a) + Present(b)
  {
    if b == [] {
      assert a + b == a;
    } else {
      var b' := b[..|b| - 1];
      assert (a + b)[..|a + b| - 1] == a + b';
      assert (a + b)[|a + b| - 1] == b[|b| - 1];
      PresentConcat(a, b');
    }
  }

  /** `f` applied to every element of `s`. */
  function Map<A, B>(f: A -> B, s: seq<A>): (r: seq<B>)
    ensures |r| == |s|
    ensures forall i {:trigger r[i]} :: 0 <= i < |s| ==> r[i] == f(s[i])
  {
    seq(|s|, i requires 0 <= i < |s| => f(s[i]))
  }

  lemma MapConcat<A, B>(f: A -> B, a: seq<A>, b: seq<A>)
    ensures Map(f, a + b) == Map(f, a) + Map(f, b)
  {
    assert |Map(f, a + b)| == |Map(f, a) + Map(f, b)|;
  }

  /** What a row contributes to `people_data` on the day `today`. */
  function NamedOn(today: string): RawRow -> Option<Record> {
    row => NamedRecord(row, today)
  }

  /**
   `people_data` after the rows of the page: the records of the extracted rows
   with a non-empty english name, in page order.
   */
  function PeopleData(rows: seq<RawRow>, today: string): (data: seq<Record>)
    ensures |data| <= |rows|
    ensures forall r :: r in data ==>
              && r.personIdDate == RecordKey(r.personId, today)
              && r.date == today
              && r.englishName != ""
              && r.favorites >= 0
              && '/' !in r.personId
              && '(' !in r.japaneseName && ')' !in r.japaneseName
  {
    var outcomes := Map(NamedOn(today), rows);
    var data := Present(outcomes);
    assert forall r :: r in data ==> exists i :: 0 <= i < |rows| && NamedRecord(rows[i], today) == Some(r);
    data
  }

  /** The favorites count of a row that raises nothing. */
  function FavoritesOf(row: RawRow): Option<nat> {
    match Extract(row)
    case None => None
    case Some(e) => Some(e.favorites)
  }

  /** Lines 64-66 for one row: `min`, then the reset of the sentinel to 0. */
  function LeastStep(least: int, favorites: Option<nat>): int {
    match favorites
    case None => least
    case Some(f) =>
      var m := if f < least then f else least;
      if m == SENTINEL then 0 else m
  }

  function LeastFrom(least: int, obs: seq<Option<nat>>): int {
    if obs == [] then least else LeastStep(LeastFrom(least, obs[..|obs| - 1]), obs[|obs| - 1])
  }

  /** `least_favorites_on_page` at the end of the loop. */
  function LeastFavorites(rows: seq<RawRow>): int {
    LeastFrom(SENTINEL, Map(FavoritesOf, rows))
  }

  /** The value `search_page` returns: whether the crawl goes on after this page. */
  predicate Continues(rows: seq<RawRow>) {
    LeastFavorites(rows) != 0
  }

  /** The favorites counts of the rows that were extracted, in page order. */
  function ParsedCounts(rows: seq<RawRow>): seq<nat> {
    Present(Map(FavoritesOf, rows))
  }

  function MinOf(s: seq<nat>): (m: nat)
    requires s != []
    ensures m in s
    ensures forall x :: x in s ==> m <= x
  {
    if |s| == 1 then s[0]
    else
      var init := s[..|s| - 1];
      assert s == init + [s[|s| - 1]];
      var m := MinOf(init);
      if s[|s| - 1] < m then s[|s| - 1] else m
  }

  /**
   The running minimum in closed form: the starting value when no count was
   seen, 0 when the first count is at least `SENTINEL` (the reset at lines
   65-66), and the smallest count otherwise.
   */
  lemma {:induction false} LeastFromClosedForm(obs: seq<Option<nat>>)
    ensures var counts := Present(obs);
            LeastFrom(SENTINEL, obs) == if counts == [] then SENTINEL
                                        else if counts[0] >= SENTINEL then 0
                                        else MinOf(counts)
  {
    if obs != [] {
      var init, last := obs[..|obs| - 1], obs[|obs| - 1];
      assert obs == init + [last];
      LeastFromClosedForm(init);
      var before := Present(init);
      if last.Some? {
        var counts := before + [last.value];
        assert Present(obs) == counts;
        if before != [] {
          assert counts[0] == before[0];
          assert counts[..|counts| - 1] == before;
          assert before[0] in before;
        }
      }
    }
  }

  /**
   `search_page` returns False exactly when some row was extracted and either
   the first extracted row has at least `SENTINEL` favorites or some extracted
   row has none.
   */
  lemma StopRule(rows: seq<RawRow>)
    ensures var counts := ParsedCounts(rows);
            !Continues(rows) <==> counts != [] && (counts[0] >= SENTINEL || 0 in counts)
  {
    LeastFromClosedForm(Map(FavoritesOf, rows));
  }

  lemma StopsIffSomeZero(obs: seq<Option<nat>>)
    requires forall i :: 0 <= i < |obs| && obs[i].Some? ==> obs[i].value < SENTINEL
    ensures LeastFrom(SENTINEL, obs) == 0 <==> exists i :: 0 <= i < |obs| && obs[i] == Some(0)
  {
    LeastFromClosedForm(obs);
    var counts := Present(obs);
    if counts != [] {
      assert counts[0] in counts;
      var j :| 0 <= j < |obs| && obs[j] == Some(counts[0]);
    }
    forall i | 0 <= i < |obs| && obs[i] == Some(0)
      ensures 0 in counts
    {
      assert Some(0) in obs;
    }
    if 0 in counts {
      assert Some(0) in obs;
    }
  }

  /**
   With realistic counts (below the sentinel), the crawl stops after this page
   iff some extracted row, named or not, has 0 favorites.
   */
  lemma StopsIffSomeRowHasNoFavorites(rows: seq<RawRow>)
    requires forall i :: 0 <= i < |rows| && FavoritesOf(rows[i]).Some? ==> FavoritesOf(rows[i]).value < SENTINEL
    ensures !Continues(rows) <==> exists i :: 0 <= i < |rows| && FavoritesOf(rows[i]) == Some(0)
  {
    var obs := Map(FavoritesOf, rows);
    assert forall i :: 0 <= i < |obs| && obs[i].Some? ==> obs[i].value < SENTINEL;
    StopsIffSomeZero(obs);
    if exists i :: 0 <= i < |obs| && obs[i] == Some(0) {
      var i :| 0 <= i < |obs| && obs[i] == Some(0);
      assert FavoritesOf(rows[i]) == Some(0);
    }
    if exists i :: 0 <= i < |rows| && FavoritesOf(rows[i]) == Some(0) {
      var i :| 0 <= i < |rows| && FavoritesOf(rows[i]) == Some(0);
      assert obs[i] == Some(0);
    }
  }

  /** The records of a page are the records of its rows, concatenated in page order. */
  lemma PeopleDataConcat(a: seq<RawRow>, b: seq<RawRow>, today: string)
    ensures PeopleData(a + b, today) == PeopleData(a, today) + PeopleData(b, today)
  {
    MapConcat(NamedOn(today), a, b);
    PresentConcat(Map(NamedOn(today), a), Map(NamedOn(today), b));
  }

  /** A record is in `people_data` iff some row of the page produced it. */
  lemma PeopleDataMembers(rows: seq<RawRow>, today: string)
    ensures forall r :: r in PeopleData(rows, today) <==>
              exists i :: 0 <= i < |rows| && NamedRecord(rows[i], today) == Some(r)
  {
    var outcomes := Map(NamedOn(today), rows);
    forall r | Some(r) in outcomes
      ensures exists i :: 0 <= i < |rows| && NamedRecord(rows[i], today) == Some(r)
    {
      var i :| 0 <= i < |outcomes| && outcomes[i] == Some(r);
    }
    forall r, i | 0 <= i < |rows| && NamedRecord(rows[i], today) == Some(r)
      ensures Some(r) in outcomes
    {
      assert outcomes[i] == Some(r);
    }
  }

  lemma {:induction false} LeastFromConcat(least: int, a: seq<Option<nat>>, b: seq<Option<nat>>)
    ensures LeastFrom(least, a + b) == LeastFrom(LeastFrom(least, a), b)
  {
    if b == [] {
      assert a + b == a;
    } else {
      var b' := b[..|b| - 1];
      assert (a + b)[..|a + b| - 1] == a + b';
      assert (a + b)[|a + b| - 1] == b[|b| - 1];
      LeastFromConcat(least, a, b');
    }
  }

  /**
   A row whose extraction raises adds no record and leaves the minimum as it
   was; the rows after it are processed as if it were not there.
   */
  lemma FailedRowIsSkipped(pre: seq<RawRow>, row: RawRow, post: seq<RawRow>, today: string)
    requires Extract(row).None?
    ensures PeopleData(pre + [row] + post, today) == PeopleData(pre + post, today)
    ensures LeastFavorites(pre + [row] + post) == LeastFavorites(pre + post)
  {
    FailedRowAddsNoRecord(pre, row, post, today);
    FailedRowKeepsMinimum(pre, row, post);
  }

  lemma FailedRowAddsNoRecord(pre: seq<RawRow>, row: RawRow, post: seq<RawRow>, today: string)
    requires NamedRecord(row, today).None?
    ensures PeopleData(pre + [row] + post, today) == PeopleData(pre + post, today)
  {
    var f := NamedOn(today);
    var single := Map(f, [row]);
    assert single == [None];
    PresentOfNothing(single);
    MapConcat(f, pre + [row], post);
    MapConcat(f, pre, [row]);
    MapConcat(f, pre, post);
    PresentConcat(Map(f, pre) + single, Map(f, post));
    PresentConcat(Map(f, pre), single);
    PresentConcat(Map(f, pre), Map(f, post));
  }

  lemma FailedRowKeepsMinimum(pre: seq<RawRow>, row: RawRow, post: seq<RawRow>)
    requires FavoritesOf(row).None?
    ensures LeastFavorites(pre + [row] + post) == LeastFavorites(pre + post)
  {
    var obsPre, obsPost := Map(FavoritesOf, pre), Map(FavoritesOf, post);
    var skipped: seq<Option<nat>> := [None];
    MapConcat(FavoritesOf, pre + [row], post);
    MapConcat(FavoritesOf, pre, [row]);
    MapConcat(FavoritesOf, pre, post);
    assert Map(FavoritesOf, [row]) == skipped;
    LeastFromConcat(SENTINEL, obsPre + skipped, obsPost);
    LeastFromConcat(SENTINEL, obsPre, skipped);
    assert LeastFrom(LeastFrom(SENTINEL, obsPre), skipped) == LeastFrom(SENTINEL, obsPre) by {
      assert skipped[..0] == [];
    }
    LeastFromConcat(SENTINEL, obsPre, obsPost);
  }

  /** A page on which no row could be extracted records nothing and lets the crawl go on. */
  lemma PageWithoutExtractedRowsContinues(rows: seq<RawRow>, today: string)
    requires forall i :: 0 <= i < |rows| ==> Extract(rows[i]).None?
    ensures PeopleData(rows, today) == []
    ensures LeastFavorites(rows) == SENTINEL && Continues(rows)
  {
    LeastFromClosedForm(Map(FavoritesOf, rows));
    assert forall i :: 0 <= i < |rows| ==> Map(FavoritesOf, rows)[i].None?;
    PresentOfNothing(Map(FavoritesOf, rows));
    assert forall i :: 0 <= i < |rows| ==> Map(NamedOn(today), rows)[i].None?;
    PresentOfNothing(Map(NamedOn(today), rows));
  }

  /** The loop of lines 36-68: `people_data` and `least_favorites_on_page`. */
  method CollectRows(rows: seq<RawRow>, today: string) returns (peopleData: seq<Record>, least: int)
    ensures peopleData == PeopleData(rows, today)
    ensures least == LeastFavorites(rows)
  {
    peopleData := [];
    least := SENTINEL;
    for i := 0 to |rows|
      invariant peopleData == PeopleData(rows[..i], today)
      invariant least == LeastFavorites(rows[..i])
    {
      Step(rows, i, today);
      peopleData, least := CollectRow(rows[i], today, peopleData, least);
    }
    assert rows[..|rows|] == rows;
  }

  /** One pass of the loop body, lines 37-66: the row's record, if any, and the new minimum. */
  method CollectRow(row: RawRow, today: string, peopleData: seq<Record>, least: int)
    returns (data: seq<Record>, newLeast: int)
    ensures var named := NamedRecord(row, today);
            data == peopleData + (if named.Some? then [named.value] else [])
    ensures newLeast == LeastStep(least, FavoritesOf(row))
  {
    data, newLeast := peopleData, least;
    var extracted := Extract(row);
    if extracted.Some? {
      var e := extracted.value;
      if e.englishName != "" {
        data := peopleData + [RecordOf(e, today)];
      }
      newLeast := if e.favorites < least then e.favorites else least;
      if newLeast == SENTINEL {
        newLeast := 0;
      }
    }
  }

  lemma Step(rows: seq<RawRow>, i: nat, today: string)
    requires i < |rows|
    ensures var named := NamedRecord(rows[i], today);
            PeopleData(rows[..i + 1], today) ==
              PeopleData(rows[..i], today) + (if named.Some? then [named.value] else [])
    ensures LeastFavorites(rows[..i + 1]) == LeastStep(LeastFavorites(rows[..i]), FavoritesOf(rows[i]))
  {
    var init, last := rows[..i], [rows[i]];
    assert rows[..i + 1] == init + last;
    PeopleDataConcat(init, last, today);
    var single := Map(NamedOn(today), last);
    assert single == [NamedRecord(rows[i], today)];
    assert single[..0] == [];
    MapConcat(FavoritesOf, init, last);
    var obs := Map(FavoritesOf, init + last);
    assert obs[..i] == Map(FavoritesOf, init);
  }

  /**
   `search_page` on the rows of one page: the records are saved, and the
   result says whether the crawl goes on.
   */
  method SearchPage(table: PeopleTable, rows: seq<RawRow>, today: string) returns (more: bool)
    modifies table
    ensures table.rows == InsertAll(old(table.rows), PeopleData(rows, today))
    ensures more == Continues(rows)
  {
    var peopleData, least := CollectRows(rows, today);
    table.SavePeople(peopleData);
    if least == 0 {
      more := false;
    } else {
      more := true;
    }
  }
}
