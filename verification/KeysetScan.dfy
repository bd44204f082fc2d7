/**
 The two keyset-paginated scans of `backend/scripts`: pages ordered by id, each starting after the last
 id processed, with an optional limit on the rows processed.
 */
module KeysetScan {
  import opened Wrappers

  type Id = nat

  /** The matching ids of a fixed table, in index order. */
  ghost predicate Ascending(ids: seq<Id>) {
    forall i, j | 0 <= i < j < |ids| :: ids[i] < ids[j]
  }

  /** `WHERE id > last ORDER BY id`, without the condition when `last` is NULL. */
  function Above(ids: seq<Id>, last: Option<Id>): seq<Id> {
    if last.Some? && ids != [] && ids[0] <= last.value then Above(ids[1..], last) else ids
  }

  /** `LIMIT n` */
  function Take(ids: seq<Id>, n: nat): seq<Id> {
    if n < |ids| then ids[..n] else ids
  }

  /** What a scan should visit: everything after the start, cut at the limit. */
  function Expected(ids: seq<Id>, start: Option<Id>, limit: Option<int>): seq<Id> {
    var rest := Above(ids, start);
    if limit.None? then rest else Take(rest, if limit.value < 0 then 0 else limit.value)
  }

  function LastOf(visited: seq<Id>, start: Option<Id>): Option<Id> {
    if visited == [] then start else Some(visited[|visited| - 1])
  }

  /** The expected rows are the first ones beyond the start, as many as the limit allows. */
  lemma ExpectedIs(ids: seq<Id>, start: Option<Id>, limit: Option<int>)
    ensures Expected(ids, start, limit) <= Above(ids, start)
    ensures limit.None? ==> Expected(ids, start, limit) == Above(ids, start)
    ensures limit.Some? && limit.value < 0 ==> Expected(ids, start, limit) == []
    ensures limit.Some? && limit.value >= 0 ==>
              |Expected(ids, start, limit)| == limit.value ||
              (|Above(ids, start)| < limit.value && Expected(ids, start, limit) == Above(ids, start))
  {
    hide Above;
  }

  lemma {:induction false} AboveIsSuffix(ids: seq<Id>, last: Option<Id>) returns (k: nat)
    ensures k <= |ids| && Above(ids, last) == ids[k..]
    ensures last.Some? ==> (forall i | 0 <= i < k :: ids[i] <= last.value) && (k < |ids| ==> ids[k] > last.value)
    ensures last.None? ==> k == 0
    decreases |ids|
  {
    if last.Some? && ids != [] && ids[0] <= last.value {
      var m := AboveIsSuffix(ids[1..], last);
      k := m + 1;
      assert ids[1..][m..] == ids[k..];
      assert forall i | 0 < i < k :: ids[i] == ids[1..][i - 1];
    } else {
      k := 0;
      assert ids[0..] == ids;
    }
  }

  /** A page query sees exactly the ids beyond the cursor, in ascending order. */
  lemma AboveIsFilter(ids: seq<Id>, last: Option<Id>)
    requires Ascending(ids)
    ensures Ascending(Above(ids, last))
    ensures forall x :: x in Above(ids, last) <==> x in ids && (last.Some? ==> x > last.value)
    ensures exists k | 0 <= k <= |ids| :: Above(ids, last) == ids[k..]
  {
    var k := AboveIsSuffix(ids, last);
    hide Above;
    forall x ensures x in ids[k..] <==> x in ids && (last.Some? ==> x > last.value) {
      if x in ids && (last.Some? ==> x > last.value) {
        var i :| 0 <= i < |ids| && ids[i] == x;
        assert i >= k && ids[k..][i - k] == x;
      }
      if x in ids[k..] {
        var i :| 0 <= i < |ids[k..]| && ids[k..][i] == x;
        assert ids[k + i] == x;
      }
    }
  }

  lemma {:induction false} AboveDropsPrefix(ids: seq<Id>, n: nat)
    requires Ascending(ids) && 0 < n <= |ids|
    ensures Above(ids, Some(ids[n - 1])) == ids[n..]
    decreases n
  {
    if n == 1 {
      if |ids| > 1 { assert ids[1..][0] == ids[1] > ids[0]; }
    } else {
      assert ids[1..][n - 2] == ids[n - 1];
      AboveDropsPrefix(ids[1..], n - 1);
      assert ids[1..][n - 1..] == ids[n..];
    }
  }

  /** Moving the cursor to the n-th row beyond it drops exactly those n rows. */
  lemma CursorDropsPage(ids: seq<Id>, last: Option<Id>, n: nat)
    requires Ascending(ids) && 0 < n <= |Above(ids, last)|
    ensures Above(ids, Some(Above(ids, last)[n - 1])) == Above(ids, last)[n..]
  {
    hide Above;
    AboveIsFilter(ids, last);
    var rest := Above(ids, last);
    var k :| 0 <= k <= |ids| && rest == ids[k..];
    assert rest[n - 1] == ids[k + n - 1];
    AboveDropsPrefix(ids, k + n);
    assert ids[k..][n..] == ids[k + n..];
  }

  /** Where a scan stands: what was visited, and a cursor with exactly the rest beyond it. */
  ghost predicate Progress(ids: seq<Id>, start: Option<Id>, limit: Option<int>, visited: seq<Id>, last: Option<Id>) {
    && last == LastOf(visited, start)
    && Above(ids, start) == visited + Above(ids, last)
    && (limit.Some? ==> |visited| <= if limit.value < 0 then 0 else limit.value)
  }

  /** `page = min(batch, limit - scanned)` */
  function PageSize(limit: Option<int>, batch: int, scanned: nat): int {
    if limit.Some? && limit.value - scanned < batch then limit.value - scanned else batch
  }

  lemma PageKeepsProgress(
    ids: seq<Id>, start: Option<Id>, limit: Option<int>, batch: int, visited: seq<Id>, last: Option<Id>, page: seq<Id>)
    requires Ascending(ids) && Progress(ids, start, limit, visited, last)
    requires PageSize(limit, batch, |visited|) >= 0
    requires page == Take(Above(ids, last), PageSize(limit, batch, |visited|)) && page != []
    ensures Progress(ids, start, limit, visited + page, Some(page[|page| - 1]))
    ensures |Above(ids, Some(page[|page| - 1]))| < |Above(ids, last)|
    ensures limit.Some? ==> |visited| + |page| <= limit.value
  {
    hide Above, Ascending;
    var rest, n := Above(ids, last), |page|;
    assert page == rest[..n];
    CursorDropsPage(ids, last, n);
    assert rest == page + rest[n..];
    assert visited + rest == visited + page + rest[n..];
  }

  lemma NothingLeftToVisit(
    ids: seq<Id>, start: Option<Id>, limit: Option<int>, visited: seq<Id>, last: Option<Id>)
    requires Progress(ids, start, limit, visited, last)
    requires Above(ids, last) == [] || (limit.Some? && limit.value <= |visited|)
    ensures visited == Expected(ids, start, limit)
  {
    hide Above;
    var rest := Above(ids, last);
    assert visited + [] == visited;
    assert (visited + rest)[..|visited|] == visited;
  }

  /** The rows of one page; the cap inside the loop never strikes, because the page was clamped. */
  method ProcessPage(page: seq<Id>, visited: seq<Id>, last: Option<Id>, limit: Option<int>)
      returns (visited': seq<Id>, last': Option<Id>, done: bool)
    requires limit.Some? ==> |visited| + |page| <= limit.value
    ensures !done && visited' == visited + page
    ensures last' == if page == [] then last else Some(page[|page| - 1])
  {
    visited', last', done := visited, last, false;
    for n := 0 to |page|
      invariant !done && visited' == visited + page[..n]
      invariant last' == if n == 0 then last else Some(page[n - 1])
    {
      if limit.Some? && |visited'| >= limit.value {
        done := true;
        break;
      }
      last' := Some(page[n]);
      visited' := visited' + [page[n]];
    }
  }

  /**
   `backfill_entities_from_db._run`: visits exactly the expected rows, never fetching one it does not
   process. A batch size below one visits nothing, or is refused by the database when there is no
   limit to clamp it.
   */
  method BackfillScan(ids: seq<Id>, start: Option<Id>, limit: Option<int>, batch: int)
      returns (visited: seq<Id>, last: Option<Id>, fetched: nat, refused: bool)
    requires Ascending(ids)
    ensures refused <==> batch < 0 && limit.None?
    ensures visited == if batch >= 1 then Expected(ids, start, limit) else []
    ensures last == LastOf(visited, start)
    ensures fetched == |visited|
  {
    visited, last, fetched, refused := [], start, 0, false;
    hide Above, Ascending, Expected;
    var done := false;
    assert [] + Above(ids, start) == Above(ids, start);
    while !done
      invariant !refused && !done && (batch < 1 ==> visited == [])
      invariant Progress(ids, start, limit, visited, last) && fetched == |visited|
      decreases |Above(ids, last)|
    {
      var page := PageSize(limit, batch, |visited|);
      if limit.Some? && page <= 0 {
        if batch >= 1 { NothingLeftToVisit(ids, start, limit, visited, last); }
        break;
      }
      if page < 0 {
        refused := true;
        break;
      }
      var incidents := Take(Above(ids, last), page);
      fetched := fetched + |incidents|;
      if incidents == [] {
        if batch >= 1 { NothingLeftToVisit(ids, start, limit, visited, last); }
        break;
      }
      PageKeepsProgress(ids, start, limit, batch, visited, last, incidents);
      visited, last, done := ProcessPage(incidents, visited, last, limit);
    }
  }

  /** `recompute_entity_risk._run`: the same paging, one page at a time. */
  method RecomputeScan(ids: seq<Id>, limit: Option<int>, batch: int)
      returns (visited: seq<Id>, refused: bool)
    requires Ascending(ids)
    ensures refused <==> batch < 0 && limit.None?
    ensures visited == if batch >= 1 then Expected(ids, None, limit) else []
  {
    visited, refused := [], false;
    var last: Option<Id> := None;
    hide Above, Ascending, Expected;
    assert [] + Above(ids, None) == Above(ids, None);
    while true
      invariant !refused && (batch < 1 ==> visited == [])
      invariant Progress(ids, None, limit, visited, last)
      decreases |Above(ids, last)|
    {
      var page := PageSize(limit, batch, |visited|);
      if limit.Some? && page <= 0 {
        if batch >= 1 { NothingLeftToVisit(ids, None, limit, visited, last); }
        break;
      }
      if page < 0 {
        refused := true;
        break;
      }
      var found := Take(Above(ids, last), page);
      if found == [] {
        if batch >= 1 { NothingLeftToVisit(ids, None, limit, visited, last); }
        break;
      }
      PageKeepsProgress(ids, None, limit, batch, visited, last, found);
      visited := visited + found;
      last := Some(found[|found| - 1]);
    }
  }

  /** A limited run followed by a run from its `last_id` visits what one full run visits. */
  lemma ResumeLosesNothing(ids: seq<Id>, start: Option<Id>, limit: int)
    requires Ascending(ids)
    ensures var first := Expected(ids, start, Some(limit));
            first + Expected(ids, LastOf(first, start), None) == Expected(ids, start, None)
  {
    var first := Expected(ids, start, Some(limit));
    var rest := Above(ids, start);
    assert rest == rest[..|first|] + rest[|first|..];
    if first != [] {
      CursorDropsPage(ids, start, |first|);
    }
  }
}
