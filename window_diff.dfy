/**
 The favorites-change report that `create_favorites_change_tables` builds in
 SQL (scrape_mal_update_db.py:76-162), as a function of the rows of the
 `people` table. For every person with a row dated inside the window it gives
 the favorites on the earliest and on the latest such date and their
 difference, and ranks the people by that difference. Dates are day ordinals.
 */
module FavoritesChange {
  import opened Wrappers

  /** One row of the `people` table, with its date as a day ordinal. */
  datatype Snapshot = Snapshot(
    personId: string,
    date: int,
    englishName: string,
    japaneseName: string,
    malLink: string,
    imageLink: Option<string>,
    favorites: int)

  /** One row of a report table, in the column order of the `select` at lines 88-96. */
  datatype DiffRow = DiffRow(
    personId: string,
    englishName: string,
    japaneseName: string,
    malLink: string,
    imageLink: Option<string>,
    oldFavoriteCount: int,
    newFavoriteCount: int,
    change: int)

  /** `date between start and end` (inclusive on both sides) for a row of person `p`. */
  predicate InWindowOf(s: Snapshot, p: string, start: int, end: int) {
    s.personId == p && start <= s.date <= end
  }

  /** Person `p` has some row inside the window. */
  predicate Appears(rows: seq<Snapshot>, p: string, start: int, end: int) {
    exists s :: s in rows && InWindowOf(s, p, start, end)
  }

  /** At most one row per person and date: the key `person_id_date` of the table. */
  predicate UniqueDates(rows: seq<Snapshot>) {
    forall i, j ::
      (0 <= i < |rows| && 0 <= j < |rows| && rows[i].personId == rows[j].personId && rows[i].date == rows[j].date)
      ==> rows[i] == rows[j]
  }

  lemma TailMembers(rows: seq<Snapshot>)
    requires rows != []
    ensures forall s :: s in rows <==> s == rows[0] || s in rows[1..]
  {
    assert rows == [rows[0]] + rows[1..];
  }

  /**
   `min(date)` of the rows of `p` inside the window (lines 118-125): `None`
   when there are none, otherwise a date that one of them has and that none
   of them is before.
   */
  function Earliest(rows: seq<Snapshot>, p: string, start: int, end: int): (d: Option<int>)
    ensures d.Some? <==> Appears(rows, p, start, end)
    ensures d.Some? ==> exists s :: s in rows && InWindowOf(s, p, start, end) && s.date == d.value
    ensures d.Some? ==> forall s :: s in rows && InWindowOf(s, p, start, end) ==> d.value <= s.date
  {
    if rows == [] then None
    else
      TailMembers(rows);
      var rest := Earliest(rows[1..], p, start, end);
      if !InWindowOf(rows[0], p, start, end) then rest
      else if rest.None? || rows[0].date <= rest.value then Some(rows[0].date)
      else rest
  }

  /**
   `max(date)` of the rows of `p` inside the window (lines 140-147): `None`
   when there are none, otherwise a date that one of them has and that none
   of them is after.
   */
  function Latest(rows: seq<Snapshot>, p: string, start: int, end: int): (d: Option<int>)
    ensures d.Some? <==> Appears(rows, p, start, end)
    ensures d.Some? ==> exists s :: s in rows && InWindowOf(s, p, start, end) && s.date == d.value
    ensures d.Some? ==> forall s :: s in rows && InWindowOf(s, p, start, end) ==> s.date <= d.value
  {
    if rows == [] then None
    else
      TailMembers(rows);
      var rest := Latest(rows[1..], p, start, end);
      if !InWindowOf(rows[0], p, start, end) then rest
      else if rest.None? || rows[0].date >= rest.value then Some(rows[0].date)
      else rest
  }

  /**
   The row of `p` dated `date` that the joins at lines 127 and 149 pair with
   the aggregated date (the first one, should the table hold several).
   */
  function RowOn(rows: seq<Snapshot>, p: string, date: int): (r: Option<Snapshot>)
    ensures r.Some? <==> exists s :: s in rows && s.personId == p && s.date == date
    ensures r.Some? ==> r.value in rows && r.value.personId == p && r.value.date == date
  {
    if rows == [] then None
    else
      TailMembers(rows);
      if rows[0].personId == p && rows[0].date == date then Some(rows[0])
      else RowOn(rows[1..], p, date)
  }

  /**
   A row of `p` of any date: the `people p` joined on `person_id` alone at
   lines 108-129 supplies the names and links.
   */
  function AnyRow(rows: seq<Snapshot>, p: string): (r: Option<Snapshot>)
    ensures r.Some? <==> exists s :: s in rows && s.personId == p
    ensures r.Some? ==> r.value in rows && r.value.personId == p
  {
    if rows == [] then None
    else
      TailMembers(rows);
      if rows[0].personId == p then Some(rows[0]) else AnyRow(rows[1..], p)
  }

  /**
   The people with a row inside the window, each once: the groups of the
   `group by person_id` at lines 125 and 147.
   */
  function PersonsIn(rows: seq<Snapshot>, start: int, end: int): (ps: seq<string>)
    ensures forall p :: p in ps <==> Appears(rows, p, start, end)
    ensures forall i, j :: 0 <= i < j < |ps| ==> ps[i] != ps[j]
  {
    if rows == [] then []
    else
      TailMembers(rows);
      var rest := PersonsIn(rows[1..], start, end);
      var p := rows[0].personId;
      if start <= rows[0].date <= end && p !in rest then
        assert rows[0] in rows && InWindowOf(rows[0], p, start, end);
        assert forall j :: 0 < j < |[p] + rest| ==> ([p] + rest)[j] == rest[j - 1];
        [p] + rest
      else rest
  }

  /** The report row of a person who appears in the window. */
  function DiffOf(rows: seq<Snapshot>, p: string, start: int, end: int): (d: DiffRow)
    requires Appears(rows, p, start, end)
  {
    var oldRow := RowOn(rows, p, Earliest(rows, p, start, end).value).value;
    var newRow := RowOn(rows, p, Latest(rows, p, start, end).value).value;
    var shown := AnyRow(rows, p).value;
    DiffRow(p, shown.englishName, shown.japaneseName, shown.malLink, shown.imageLink,
            oldRow.favorites, newRow.favorites, newRow.favorites - oldRow.favorites)
  }

  /** The report rows of the people `ps`, in that order. */
  function DiffsOf(rows: seq<Snapshot>, ps: seq<string>, start: int, end: int): (ds: seq<DiffRow>)
    requires forall p :: p in ps ==> Appears(rows, p, start, end)
    ensures |ds| == |ps|
  {
    if ps == [] then []
    else
      assert ps[0] in ps && forall p :: p in ps[1..] ==> p in ps;
      [DiffOf(rows, ps[0], start, end)] + DiffsOf(rows, ps[1..], start, end)
  }

  lemma {:induction false} DiffsOfAt(rows: seq<Snapshot>, ps: seq<string>, start: int, end: int, i: nat)
    requires forall p :: p in ps ==> Appears(rows, p, start, end)
    requires i < |ps|
    ensures DiffsOf(rows, ps, start, end)[i] == DiffOf(rows, ps[i], start, end)
  {
    if i > 0 {
      assert forall p :: p in ps[1..] ==> p in ps;
      DiffsOfAt(rows, ps[1..], start, end, i - 1);
    }
  }

  /** `order by change desc, new_favorite_count asc` (line 153): may `a` come before `b`? */
  predicate Before(a: DiffRow, b: DiffRow) {
    a.change > b.change || (a.change == b.change && a.newFavoriteCount <= b.newFavoriteCount)
  }

  predicate Ranked(ds: seq<DiffRow>) {
    forall i, j :: 0 <= i < j < |ds| ==> Before(ds[i], ds[j])
  }

  /** `d` placed into the ranked `ds`. */
  function Insert(d: DiffRow, ds: seq<DiffRow>): (r: seq<DiffRow>)
    requires Ranked(ds)
    ensures Ranked(r)
    ensures multiset(r) == multiset(ds) + multiset{d}
  {
    if ds == [] then [d]
    else if Before(d, ds[0]) then
      InsertFront(d, ds);
      [d] + ds
    else
      var rest := Insert(d, ds[1..]);
      assert ds == [ds[0]] + ds[1..];
      InsertBehind(d, ds, rest);
      [ds[0]] + rest
  }

  lemma InsertFront(d: DiffRow, ds: seq<DiffRow>)
    requires Ranked(ds) && ds != [] && Before(d, ds[0])
    ensures Ranked([d] + ds)
  {
    var r := [d] + ds;
    forall i, j | 0 <= i < j < |r| ensures Before(r[i], r[j]) {
      if i == 0 {
        assert r[j] == ds[j - 1];
        if j > 1 {
          assert Before(ds[0], ds[j - 1]);
        }
      } else {
        assert r[i] == ds[i - 1] && r[j] == ds[j - 1];
      }
    }
  }

  lemma InsertBehind(d: DiffRow, ds: seq<DiffRow>, rest: seq<DiffRow>)
    requires Ranked(ds) && ds != [] && !Before(d, ds[0])
    requires Ranked(rest) && multiset(rest) == multiset(ds[1..]) + multiset{d}
    ensures Ranked([ds[0]] + rest)
  {
    var r := [ds[0]] + rest;
    forall i, j | 0 <= i < j < |r| ensures Before(r[i], r[j]) {
      if i == 0 {
        var x := r[j];
        assert x == rest[j - 1];
        assert x in multiset(rest);
        if x != d {
          assert x in multiset(ds[1..]);
          var k :| 0 <= k < |ds[1..]| && ds[1..][k] == x;
          assert ds[k + 1] == x;
        }
      } else {
        assert r[i] == rest[i - 1] && r[j] == rest[j - 1];
      }
    }
  }

  /** The rows of `ds` in the order of line 153: a ranked permutation. */
  function Rank(ds: seq<DiffRow>): (r: seq<DiffRow>)
    ensures Ranked(r)
    ensures multiset(r) == multiset(ds)
  {
    if ds == [] then []
    else
      assert ds == [ds[0]] + ds[1..];
      Insert(ds[0], Rank(ds[1..]))
  }

  /** The rows of the report table for the window `[start, end]`. */
  function WindowDiff(rows: seq<Snapshot>, start: int, end: int): (ds: seq<DiffRow>)
    ensures Ranked(ds)
  {
    Rank(DiffsOf(rows, PersonsIn(rows, start, end), start, end))
  }

  /** No two rows of `ds` are about the same person: `distinct on (person_id)` at line 88. */
  predicate DistinctPersons(ds: seq<DiffRow>) {
    forall i, j :: 0 <= i < j < |ds| ==> ds[i].personId != ds[j].personId
  }

  lemma ConsDistinct(x: DiffRow, ds: seq<DiffRow>)
    requires DistinctPersons(ds)
    requires forall y :: y in ds ==> y.personId != x.personId
    ensures DistinctPersons([x] + ds)
  {
    var r := [x] + ds;
    forall i, j | 0 <= i < j < |r| ensures r[i].personId != r[j].personId {
      if i == 0 {
        assert r[j] in ds;
      } else {
        assert r[i] == ds[i - 1] && r[j] == ds[j - 1];
      }
    }
  }

  lemma {:induction false} InsertDistinct(d: DiffRow, ds: seq<DiffRow>)
    requires Ranked(ds) && DistinctPersons(ds)
    requires forall x :: x in ds ==> x.personId != d.personId
    ensures DistinctPersons(Insert(d, ds))
  {
    if ds == [] {
    } else if Before(d, ds[0]) {
      ConsDistinct(d, ds);
    } else {
      var rest := Insert(d, ds[1..]);
      assert ds == [ds[0]] + ds[1..];
      assert DistinctPersons(ds[1..]) by {
        forall i, j | 0 <= i < j < |ds[1..]| ensures ds[1..][i].personId != ds[1..][j].personId {
          assert ds[1..][i] == ds[i + 1] && ds[1..][j] == ds[j + 1];
        }
      }
      InsertDistinct(d, ds[1..]);
      forall x | x in rest ensures x.personId != ds[0].personId {
        assert x in multiset(rest);
        if x != d {
          assert x in ds[1..];
          var k :| 0 <= k < |ds[1..]| && ds[1..][k] == x;
          assert ds[k + 1] == x;
        }
      }
      ConsDistinct(ds[0], rest);
    }
  }

  lemma {:induction false} RankDistinct(ds: seq<DiffRow>)
    requires DistinctPersons(ds)
    ensures DistinctPersons(Rank(ds))
  {
    if ds != [] {
      var rest := Rank(ds[1..]);
      RankDistinct(ds[1..]);
      forall x | x in rest ensures x.personId != ds[0].personId {
        assert x in multiset(rest);
        var k :| 0 <= k < |ds[1..]| && ds[1..][k] == x;
        assert ds[k + 1] == x;
      }
      InsertDistinct(ds[0], rest);
    }
  }

  /** The rows of the report are the report rows of the people who appear in the window. */
  lemma WindowDiffMembers(rows: seq<Snapshot>, start: int, end: int, d: DiffRow)
    ensures d in WindowDiff(rows, start, end) <==>
              Appears(rows, d.personId, start, end) && d == DiffOf(rows, d.personId, start, end)
  {
    var ps := PersonsIn(rows, start, end);
    var ds := DiffsOf(rows, ps, start, end);
    assert d in WindowDiff(rows, start, end) <==> d in multiset(ds);
    if d in ds {
      var i :| 0 <= i < |ds| && ds[i] == d;
      DiffsOfAt(rows, ps, start, end, i);
      assert d.personId == ps[i];
    }
    if Appears(rows, d.personId, start, end) && d == DiffOf(rows, d.personId, start, end) {
      var i :| 0 <= i < |ps| && ps[i] == d.personId;
      DiffsOfAt(rows, ps, start, end, i);
      assert ds[i] == d;
    }
  }

  /**
   A person has a row in the report iff they have a row dated inside the
   window, and then exactly one.
   */
  lemma WindowDiffPersons(rows: seq<Snapshot>, start: int, end: int, p: string)
    ensures (exists d :: d in WindowDiff(rows, start, end) && d.personId == p) <==> Appears(rows, p, start, end)
    ensures DistinctPersons(WindowDiff(rows, start, end))
  {
    var ps := PersonsIn(rows, start, end);
    var ds := DiffsOf(rows, ps, start, end);
    forall i, j | 0 <= i < j < |ds| ensures ds[i].personId != ds[j].personId {
      DiffsOfAt(rows, ps, start, end, i);
      DiffsOfAt(rows, ps, start, end, j);
    }
    RankDistinct(ds);
    if Appears(rows, p, start, end) {
      WindowDiffMembers(rows, start, end, DiffOf(rows, p, start, end));
    }
    forall d | d in WindowDiff(rows, start, end) ensures Appears(rows, d.personId, start, end) {
      WindowDiffMembers(rows, start, end, d);
    }
  }

  /** `s` is a row of its person dated on the earliest date inside the window. */
  predicate IsEarliest(rows: seq<Snapshot>, s: Snapshot, start: int, end: int) {
    && s in rows && InWindowOf(s, s.personId, start, end)
    && forall t :: t in rows && InWindowOf(t, s.personId, start, end) ==> s.date <= t.date
  }

  /** `s` is a row of its person dated on the latest date inside the window. */
  predicate IsLatest(rows: seq<Snapshot>, s: Snapshot, start: int, end: int) {
    && s in rows && InWindowOf(s, s.personId, start, end)
    && forall t :: t in rows && InWindowOf(t, s.personId, start, end) ==> t.date <= s.date
  }

  /**
   Every report row takes `old_favorite_count` from a row of the person on
   the earliest date inside the window, `new_favorite_count` from one on the
   latest date inside the window, `change` as their difference, and the names
   and links from some row of that person, of any date.
   */
  lemma WindowDiffRow(rows: seq<Snapshot>, start: int, end: int, d: DiffRow)
    requires d in WindowDiff(rows, start, end)
    ensures exists s :: IsEarliest(rows, s, start, end) && s.personId == d.personId && s.favorites == d.oldFavoriteCount
    ensures exists s :: IsLatest(rows, s, start, end) && s.personId == d.personId && s.favorites == d.newFavoriteCount
    ensures d.change == d.newFavoriteCount - d.oldFavoriteCount
    ensures exists s :: s in rows && s.personId == d.personId && s.englishName == d.englishName
              && s.japaneseName == d.japaneseName && s.malLink == d.malLink && s.imageLink == d.imageLink
  {
    WindowDiffMembers(rows, start, end, d);
    var p := d.personId;
    var oldRow := RowOn(rows, p, Earliest(rows, p, start, end).value).value;
    var newRow := RowOn(rows, p, Latest(rows, p, start, end).value).value;
    assert IsEarliest(rows, oldRow, start, end);
    assert IsLatest(rows, newRow, start, end);
    assert AnyRow(rows, p).value in rows;
  }

  /**
   With at most one row per person and date, the counts are those of THE
   rows of the person on the earliest and on the latest date in the window.
   */
  lemma WindowDiffCounts(rows: seq<Snapshot>, start: int, end: int, d: DiffRow, s: Snapshot)
    requires UniqueDates(rows)
    requires d in WindowDiff(rows, start, end) && s.personId == d.personId
    ensures IsEarliest(rows, s, start, end) ==> s.favorites == d.oldFavoriteCount
    ensures IsLatest(rows, s, start, end) ==> s.favorites == d.newFavoriteCount
  {
    WindowDiffRow(rows, start, end, d);
    if IsEarliest(rows, s, start, end) {
      var t :| IsEarliest(rows, t, start, end) && t.personId == d.personId && t.favorites == d.oldFavoriteCount;
      SameKey(rows, s, t);
    }
    if IsLatest(rows, s, start, end) {
      var t :| IsLatest(rows, t, start, end) && t.personId == d.personId && t.favorites == d.newFavoriteCount;
      SameKey(rows, s, t);
    }
  }

  lemma SameKey(rows: seq<Snapshot>, s: Snapshot, t: Snapshot)
    requires UniqueDates(rows)
    requires s in rows && t in rows && s.personId == t.personId && s.date == t.date
    ensures s == t
  {
    var i :| 0 <= i < |rows| && rows[i] == s;
    var j :| 0 <= j < |rows| && rows[j] == t;
  }

  /** A person with a single row inside the window gets that row's count as old and new, and no change. */
  lemma SingleSnapshotNoChange(rows: seq<Snapshot>, start: int, end: int, s: Snapshot)
    requires s in rows && InWindowOf(s, s.personId, start, end)
    requires forall t :: t in rows && InWindowOf(t, s.personId, start, end) ==> t == s
    ensures exists d :: d in WindowDiff(rows, start, end) && d.personId == s.personId
    ensures forall d :: d in WindowDiff(rows, start, end) && d.personId == s.personId ==>
              d.oldFavoriteCount == s.favorites && d.newFavoriteCount == s.favorites && d.change == 0
  {
    var p := s.personId;
    WindowDiffPersons(rows, start, end, p);
    var e := Earliest(rows, p, start, end).value;
    var te :| te in rows && InWindowOf(te, p, start, end) && te.date == e;
    assert te == s;
    var l := Latest(rows, p, start, end).value;
    var tl :| tl in rows && InWindowOf(tl, p, start, end) && tl.date == l;
    assert tl == s;
    var r := RowOn(rows, p, s.date).value;
    assert InWindowOf(r, p, start, end);
    forall d | d in WindowDiff(rows, start, end) && d.personId == p
      ensures d.oldFavoriteCount == s.favorites && d.newFavoriteCount == s.favorites && d.change == 0
    {
      WindowDiffMembers(rows, start, end, d);
    }
  }

  lemma {:induction false} PersonsInOutside(rows: seq<Snapshot>, extra: seq<Snapshot>, start: int, end: int)
    requires forall s :: s in extra ==> !(start <= s.date <= end)
    ensures PersonsIn(rows + extra, start, end) == PersonsIn(rows, start, end)
  {
    if rows == [] {
      assert rows + extra == extra;
      NoPersonsOutside(extra, start, end);
    } else {
      assert (rows + extra)[1..] == rows[1..] + extra;
      PersonsInOutside(rows[1..], extra, start, end);
    }
  }

  lemma {:induction false} NoPersonsOutside(extra: seq<Snapshot>, start: int, end: int)
    requires forall s :: s in extra ==> !(start <= s.date <= end)
    ensures PersonsIn(extra, start, end) == []
  {
    if extra != [] {
      assert forall s :: s in extra[1..] ==> s in extra;
      NoPersonsOutside(extra[1..], start, end);
    }
  }

  lemma {:induction false} EarliestLatestOutside(rows: seq<Snapshot>, extra: seq<Snapshot>, p: string, start: int, end: int)
    requires forall s :: s in extra ==> !(start <= s.date <= end)
    ensures Earliest(rows + extra, p, start, end) == Earliest(rows, p, start, end)
    ensures Latest(rows + extra, p, start, end) == Latest(rows, p, start, end)
  {
    if rows == [] {
      assert rows + extra == extra;
      assert !Appears(extra, p, start, end);
    } else {
      assert (rows + extra)[1..] == rows[1..] + extra;
      EarliestLatestOutside(rows[1..], extra, p, start, end);
    }
  }

  lemma {:induction false} RowOnPrefix(rows: seq<Snapshot>, extra: seq<Snapshot>, p: string, date: int)
    requires RowOn(rows, p, date).Some?
    ensures RowOn(rows + extra, p, date) == RowOn(rows, p, date)
  {
    if !(rows[0].personId == p && rows[0].date == date) {
      assert (rows + extra)[1..] == rows[1..] + extra;
      RowOnPrefix(rows[1..], extra, p, date);
    }
  }

  lemma {:induction false} AnyRowPrefix(rows: seq<Snapshot>, extra: seq<Snapshot>, p: string)
    requires AnyRow(rows, p).Some?
    ensures AnyRow(rows + extra, p) == AnyRow(rows, p)
  {
    if rows[0].personId != p {
      assert (rows + extra)[1..] == rows[1..] + extra;
      AnyRowPrefix(rows[1..], extra, p);
    }
  }

  /**
   Rows dated outside the window change nothing in its report: appending
   them to the table gives the same rows in the same order.
   */
  lemma OutOfWindowRowsIgnored(rows: seq<Snapshot>, extra: seq<Snapshot>, start: int, end: int)
    requires forall s :: s in extra ==> !(start <= s.date <= end)
    ensures WindowDiff(rows + extra, start, end) == WindowDiff(rows, start, end)
  {
    PersonsInOutside(rows, extra, start, end);
    var ps := PersonsIn(rows, start, end);
    var all := rows + extra;
    forall p | p in ps ensures DiffOf(all, p, start, end) == DiffOf(rows, p, start, end) {
      EarliestLatestOutside(rows, extra, p, start, end);
      RowOnPrefix(rows, extra, p, Earliest(rows, p, start, end).value);
      RowOnPrefix(rows, extra, p, Latest(rows, p, start, end).value);
      AnyRowPrefix(rows, extra, p);
    }
    var a, b := DiffsOf(all, ps, start, end), DiffsOf(rows, ps, start, end);
    forall i | 0 <= i < |ps| ensures a[i] == b[i] {
      DiffsOfAt(all, ps, start, end, i);
      DiffsOfAt(rows, ps, start, end, i);
    }
    assert a == b;
  }

  /** The names of the three report tables the script rebuilds (lines 171-178). */
  const ONE_DAY := "one_day_favorite_diff"
  const SEVEN_DAY := "seven_day_favorite_diff"
  const THIRTY_DAY := "thirty_day_favorite_diff"

  /** The report tables of the database, by name. */
  class ReportTables {
    var tables: map<string, seq<DiffRow>>

    constructor ()
      ensures tables == map[]
    {
      tables := map[];
    }

    /**
     `create_favorites_change_tables`: `drop table if exists` and `create
     table as select`, so the named table holds the new report whatever it
     held before, and no other table changes.
     */
    method CreateFavoritesChangeTable(tableName: string, people: seq<Snapshot>, start: int, end: int)
      modifies this
      ensures tables == old(tables)[tableName := WindowDiff(people, start, end)]
    {
      tables := tables[tableName := WindowDiff(people, start, end)];
    }

    /** Lines 171-178: the one-, seven- and thirty-day reports ending on `today`. */
    method CreateAllReports(people: seq<Snapshot>, today: int)
      modifies this
      ensures tables == old(tables)
                [ONE_DAY := WindowDiff(people, today - 1, today)]
                [SEVEN_DAY := WindowDiff(people, today - 7, today)]
                [THIRTY_DAY := WindowDiff(people, today - 30, today)]
    {
      CreateFavoritesChangeTable(ONE_DAY, people, today - 1, today);
      CreateFavoritesChangeTable(SEVEN_DAY, people, today - 7, today);
      CreateFavoritesChangeTable(THIRTY_DAY, people, today - 30, today);
    }
  }
}
