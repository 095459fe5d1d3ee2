/**
 The top-level pagination loop (scrape_mal_update_db.py:164-169): `search_page`
 is called with `limit` = 0, 50, 100, ... as long as the bound holds and the
 previous page said to go on. The listing itself is a parameter `site` that
 gives the rows served at each offset, and `search_page` is seen through the
 oracle `more`, its answer at each offset.
 */
module Driver {
  import opened Store
  import opened Fields
  import opened Page

  /** The precautionary bound on `limit`. */
  const LIMIT_BOUND: nat := 100000
  /** The page size the loop advances by. */
  const STRIDE: nat := 50
  /** The most calls the bound admits. */
  const MAX_CALLS: nat := 2000

  /**
   The offsets the loop passes to `search_page` from `limit` on, when the call
   at offset `l` returns `more(l)`. The bound is tested before each call, as
   `and` short-circuits.
   */
  function CallsFrom(more: nat -> bool, limit: nat): seq<nat>
    decreases LIMIT_BOUND - limit
  {
    if limit >= LIMIT_BOUND then []
    else if more(limit) then [limit] + CallsFrom(more, limit + STRIDE)
    else [limit]
  }

  function Calls(more: nat -> bool): seq<nat> {
    CallsFrom(more, 0)
  }

  /** The records the crawl hands to `save_people`, page after page. */
  function CrawlRecords(site: nat -> seq<RawRow>, calls: seq<nat>, today: string): seq<Record> {
    if calls == [] then []
    else CrawlRecords(site, calls[..|calls| - 1], today) + PeopleData(site(calls[|calls| - 1]), today)
  }

  lemma {:induction false} CallsFromShape(more: nat -> bool, k: nat)
    requires k <= MAX_CALLS
    ensures var c := CallsFrom(more, STRIDE * k);
            && k + |c| <= MAX_CALLS
            && (k < MAX_CALLS ==> |c| >= 1)
            && (forall i :: 0 <= i < |c| ==> c[i] == STRIDE * (k + i))
            && (forall i :: 0 <= i < |c| - 1 ==> more(c[i]))
            && (c != [] ==> !more(c[|c| - 1]) || k + |c| == MAX_CALLS)
    decreases MAX_CALLS - k
  {
    var c := CallsFrom(more, STRIDE * k);
    if k < MAX_CALLS && more(STRIDE * k) {
      assert STRIDE * k + STRIDE == STRIDE * (k + 1);
      CallsFromShape(more, k + 1);
      var rest := CallsFrom(more, STRIDE * (k + 1));
      assert c == [STRIDE * k] + rest;
      forall i | 1 <= i < |c|
        ensures c[i] == STRIDE * (k + i)
      {
        assert c[i] == rest[i - 1];
      }
    }
  }

  /**
   The crawl calls `search_page` at 0, 50, 100, ... (so strictly increasing
   offsets, all below the bound), at least once and at most 2000 times; every
   call but the last returned True, and the last returned False unless the
   bound ended the loop.
   */
  lemma CallsShape(more: nat -> bool)
    ensures var c := Calls(more);
            && 1 <= |c| <= MAX_CALLS
            && (forall i :: 0 <= i < |c| ==> c[i] == STRIDE * i && c[i] < LIMIT_BOUND)
            && (forall i, j :: 0 <= i < j < |c| ==> c[i] < c[j])
            && (forall i :: 0 <= i < |c| - 1 ==> more(c[i]))
            && (!more(c[|c| - 1]) || |c| == MAX_CALLS)
  {
    CallsFromShape(more, 0);
  }

  lemma {:induction false} CallsFromStop(more: nat -> bool, m: nat, k: nat)
    requires m <= k < MAX_CALLS
    requires forall j :: m <= j < k ==> more(STRIDE * j)
    requires !more(STRIDE * k)
    ensures |CallsFrom(more, STRIDE * m)| == k - m + 1
    decreases k - m
  {
    if m < k {
      assert more(STRIDE * m);
      assert STRIDE * m + STRIDE == STRIDE * (m + 1);
      CallsFromStop(more, m + 1, k);
    }
  }

  /** When the call at index `k` is the first to return False, exactly `k + 1` calls are made. */
  lemma CallsStopAtFirstFalse(more: nat -> bool, k: nat)
    requires k < MAX_CALLS
    requires forall j :: 0 <= j < k ==> more(STRIDE * j)
    requires !more(STRIDE * k)
    ensures |Calls(more)| == k + 1
    ensures Calls(more)[k] == STRIDE * k
  {
    CallsFromStop(more, 0, k);
    CallsShape(more);
  }

  lemma {:induction false} CallsFromNeverStopped(more: nat -> bool, m: nat)
    requires m <= MAX_CALLS
    requires forall j :: m <= j < MAX_CALLS ==> more(STRIDE * j)
    ensures |CallsFrom(more, STRIDE * m)| == MAX_CALLS - m
    decreases MAX_CALLS - m
  {
    if m < MAX_CALLS {
      assert more(STRIDE * m);
      assert STRIDE * m + STRIDE == STRIDE * (m + 1);
      CallsFromNeverStopped(more, m + 1);
    }
  }

  /** When every page says to go on, the bound stops the loop after 2000 calls. */
  lemma CallsWhenNeverStopped(more: nat -> bool)
    requires forall j :: 0 <= j < MAX_CALLS ==> more(STRIDE * j)
    ensures |Calls(more)| == MAX_CALLS
  {
    CallsFromNeverStopped(more, 0);
  }

  /** Every record a crawl saves carries that crawl's `today`, and its key is built from it. */
  lemma {:induction false} CrawlRecordsDated(site: nat -> seq<RawRow>, calls: seq<nat>, today: string)
    ensures forall r :: r in CrawlRecords(site, calls, today) ==>
              r.date == today && r.personIdDate == RecordKey(r.personId, today)
  {
    if calls != [] {
      CrawlRecordsDated(site, calls[..|calls| - 1], today);
    }
  }

  lemma SavedPage(table: map<string, Record>, site: nat -> seq<RawRow>, calls: seq<nat>, limit: nat, today: string)
    ensures InsertAll(InsertAll(table, CrawlRecords(site, calls, today)), PeopleData(site(limit), today))
         == InsertAll(table, CrawlRecords(site, calls + [limit], today))
  {
    InsertAllConcat(table, CrawlRecords(site, calls, today), PeopleData(site(limit), today));
    assert (calls + [limit])[..|calls|] == calls;
  }

  /**
   The state of the call sequence before the first turn and after the bound
   is passed. Like `NextCall`, these are single unfoldings of `CallsFrom`;
   they are lemmas so that `Crawl` does not unfold it beside the table.
   */
  lemma FirstCall(more: nat -> bool)
    ensures Calls(more) == [] + CallsFrom(more, 0)
  {
    assert [] + CallsFrom(more, 0) == CallsFrom(more, 0);
  }

  lemma LastCall(more: nat -> bool, calls: seq<nat>, limit: nat)
    requires limit >= LIMIT_BOUND
    requires Calls(more) == calls + CallsFrom(more, limit)
    ensures Calls(more) == calls
  {
    assert calls + [] == calls;
  }

  /**
   One turn of the loop: the call at `limit` is made, and the rest follow
   only if it said to go on. It is one unfolding of `CallsFrom`, kept as a
   lemma so that `CrawlPage` does not reason about it beside the table.
   */
  lemma NextCall(more: nat -> bool, calls: seq<nat>, limit: nat)
    requires limit < LIMIT_BOUND
    requires Calls(more) == calls + CallsFrom(more, limit)
    ensures more(limit) ==> Calls(more) == calls + [limit] + CallsFrom(more, limit + STRIDE)
    ensures !more(limit) ==> Calls(more) == calls + [limit]
  {
  }

  /**
   `more` is what `search_page` answers for the page `site` serves at each
   offset.
   */
  ghost predicate Answers(more: nat -> bool, site: nat -> seq<RawRow>) {
    forall limit: nat {:trigger Continues(site(limit))} :: more(limit) == Continues(site(limit))
  }

  /**
   One turn of the loop of lines 168-169: `search_page` at `limit` saves its
   page, `limit` joins the calls made, and the answer decides whether the
   calls go on after `limit`.
   */
  method CrawlPage(table: PeopleTable, site: nat -> seq<RawRow>, today: string, limit: nat, calls: seq<nat>,
                   ghost more: nat -> bool, ghost start: map<string, Record>)
    returns (goOn: bool, made: seq<nat>)
    requires limit < LIMIT_BOUND
    requires Answers(more, site)
    requires Calls(more) == calls + CallsFrom(more, limit)
    requires table.rows == InsertAll(start, CrawlRecords(site, calls, today))
    modifies table
    ensures made == calls + [limit]
    ensures goOn ==> Calls(more) == made + CallsFrom(more, limit + STRIDE)
    ensures !goOn ==> Calls(more) == made
    ensures table.rows == InsertAll(start, CrawlRecords(site, made, today))
  {
    goOn := SearchPage(table, site(limit), today);
    made := calls + [limit];
    NextCall(more, calls, limit);
    SavedPage(start, site, calls, limit, today);
  }

  /**
   The loop of lines 166-169 over the listing `site`, where `more(l)` is what
   `search_page` answers for the page at offset `l`: the offsets it calls
   `search_page` with, and the table after all the pages are saved.
   */
  method Crawl(table: PeopleTable, site: nat -> seq<RawRow>, today: string, ghost more: nat -> bool)
    returns (calls: seq<nat>)
    requires Answers(more, site)
    modifies table
    ensures calls == Calls(more)
    ensures table.rows == InsertAll(old(table.rows), CrawlRecords(site, calls, today))
  {
    ghost var start := table.rows;
    var limit: nat := 0;
    calls := [];
    FirstCall(more);
    while limit < LIMIT_BOUND
      invariant Calls(more) == calls + CallsFrom(more, limit)
      invariant table.rows == InsertAll(start, CrawlRecords(site, calls, today))
      decreases LIMIT_BOUND - limit
    {
      var goOn;
      goOn, calls := CrawlPage(table, site, today, limit, calls, more, start);
      if !goOn {
        return;
      }
      limit := limit + STRIDE;
    }
    LastCall(more, calls, limit);
  }
}
