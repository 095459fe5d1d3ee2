/**
 The `people` table as `save_people` writes it (scrape_mal_update_db.py:9-26):
 `insert ... on conflict do nothing` keyed by `person_id_date`, so a batch only
 adds records whose key is not stored yet and never changes a stored one.
 */
module Store {
  import opened Wrappers

  /** One tuple of `people_data`, in the column order of the insert. */
  datatype Record = Record(
    personIdDate: string,
    personId: string,
    date: string,
    englishName: string,
    japaneseName: string,
    malLink: string,
    imageLink: Option<string>,
    favorites: int)

  /** The first record of `batch` with key `key`, if any. */
  function FirstWithKey(batch: seq<Record>, key: string): (found: Option<Record>)
    ensures found.Some? <==> exists i :: 0 <= i < |batch| && batch[i].personIdDate == key
    ensures found.Some? ==> found.value in batch && found.value.personIdDate == key
    ensures found.Some? ==>
      exists i :: (0 <= i < |batch| && batch[i] == found.value && forall j :: 0 <= j < i ==> batch[j].personIdDate != key)
  {
    if batch == [] then None
    else if batch[0].personIdDate == key then Some(batch[0])
    else
      var found := FirstWithKey(batch[1..], key);
      assert forall i :: 1 <= i < |batch| ==> batch[i] == batch[1..][i - 1];
      if found.Some? then
        var i :| (0 <= i < |batch[1..]| && batch[1..][i] == found.value && forall j :: 0 <= j < i ==> batch[1..][j].personIdDate != key);
        assert batch[i + 1] == found.value;
        assert forall j :: 0 <= j < i + 1 ==> batch[j].personIdDate != key;
        found
      else
        found
  }

  function InsertIfAbsent(table: map<string, Record>, rec: Record): map<string, Record> {
    if rec.personIdDate in table then table else table[rec.personIdDate := rec]
  }

  /**
   The table after inserting `batch` in order with `on conflict do nothing`:
   stored rows are kept as they were, and a new key holds the first record
   of the batch that carries it.
   */
  function InsertAll(table: map<string, Record>, batch: seq<Record>): (after: map<string, Record>)
    ensures forall key :: key in after <==> key in table || FirstWithKey(batch, key).Some?
    ensures forall key :: key in table ==> after[key] == table[key]
    ensures forall key :: key in after && key !in table ==> after[key] == FirstWithKey(batch, key).value
    decreases batch
  {
    if batch == [] then table else InsertAll(InsertIfAbsent(table, batch[0]), batch[1..])
  }

  /** Inserting a batch a second time changes nothing. */
  lemma InsertAllIdempotent(table: map<string, Record>, batch: seq<Record>)
    ensures InsertAll(InsertAll(table, batch), batch) == InsertAll(table, batch)
  {
    var once := InsertAll(table, batch);
    var twice := InsertAll(once, batch);
    assert forall key :: key in twice <==> key in once;
    assert forall key :: key in once ==> twice[key] == once[key];
  }

  /** Inserting two batches one after the other is inserting them as one. */
  lemma {:induction false} InsertAllConcat(table: map<string, Record>, first: seq<Record>, second: seq<Record>)
    ensures InsertAll(table, first + second) == InsertAll(InsertAll(table, first), second)
    decreases first
  {
    if first != [] {
      assert (first + second)[0] == first[0];
      assert (first + second)[1..] == first[1..] + second;
      InsertAllConcat(InsertIfAbsent(table, first[0]), first[1..], second);
    } else {
      assert first + second == second;
    }
  }

  /** Every stored row sits under its own `person_id_date`. */
  predicate KeyedByPersonIdDate(table: map<string, Record>) {
    forall key :: key in table ==> table[key].personIdDate == key
  }

  lemma InsertAllKeepsKeying(table: map<string, Record>, batch: seq<Record>)
    requires KeyedByPersonIdDate(table)
    ensures KeyedByPersonIdDate(InsertAll(table, batch))
  {
  }

  /** The table behind the database connection. */
  class PeopleTable {
    var rows: map<string, Record>

    constructor ()
      ensures rows == map[]
    {
      rows := map[];
    }

    /** `save_people`: one `execute_values` insert of the whole batch. */
    method SavePeople(peopleData: seq<Record>)
      modifies this
      ensures rows == InsertAll(old(rows), peopleData)
    {
      rows := InsertAll(rows, peopleData);
    }
  }
}
