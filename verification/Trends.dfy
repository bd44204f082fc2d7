/**
 `analytics/trends.py`: the per-source volume trend with its "other" rollup, and the interpolated
 percentile.
 */
module Trends {
  import opened Wrappers
  import opened Sums

  /** One input row; a missing or empty source is "unknown". */
  datatype Row = Row(bucket: string, source: Option<string>, count: int)

  function NameOf(source: Option<string>): string {
    if source.None? || source.value == "" then "unknown" else source.value
  }

  /** A cell of an output row; the row also holds its date, under the key "date". */
  datatype Cell = Date(bucket: string) | Count(n: int)

  datatype Trend = Trend(sources: seq<string>, series: seq<map<string, Cell>>)

  // ---------------------------------------------------------------------------------------
  // Totals and cells
  // ---------------------------------------------------------------------------------------

  function TotalOf(rows: seq<Row>, name: string): int {
    if rows == [] then 0
    else
      var n := |rows| - 1;
      TotalOf(rows[..n], name) + if NameOf(rows[n].source) == name then rows[n].count else 0
  }

  function BucketTotal(rows: seq<Row>, bucket: string): int {
    if rows == [] then 0
    else
      var n := |rows| - 1;
      BucketTotal(rows[..n], bucket) + if rows[n].bucket == bucket then rows[n].count else 0
  }

  function Folded(name: string, top: set<string>): string {
    if name in top then name else "other"
  }

  /** What the rows of one bucket add up to under one output key. */
  function CellOf(rows: seq<Row>, top: set<string>, bucket: string, key: string): int {
    if rows == [] then 0
    else
      var n := |rows| - 1;
      CellOf(rows[..n], top, bucket, key) +
      if rows[n].bucket == bucket && Folded(NameOf(rows[n].source), top) == key then rows[n].count else 0
  }

  function SourcesOf(rows: seq<Row>): set<string> {
    set r | r in rows :: NameOf(r.source)
  }

  function BucketsOf(rows: seq<Row>): set<string> {
    set r | r in rows :: r.bucket
  }

  /** What one more row adds to a total, a cell and a bucket; a missing or empty source is "unknown". */
  lemma OneMoreRow(rows: seq<Row>, r: Row, top: set<string>, name: string, bucket: string, key: string)
    ensures TotalOf([], name) == CellOf([], top, bucket, key) == BucketTotal([], bucket) == 0 && SourcesOf([]) == {}
    ensures var source := if r.source == None || r.source == Some("") then "unknown" else r.source.value;
            && TotalOf(rows + [r], name) == TotalOf(rows, name) + (if source == name then r.count else 0)
            && SourcesOf(rows + [r]) == SourcesOf(rows) + {source}
            && BucketTotal(rows + [r], bucket) ==
                 BucketTotal(rows, bucket) + (if r.bucket == bucket then r.count else 0)
            && CellOf(rows + [r], top, bucket, key) == CellOf(rows, top, bucket, key) +
                 (if r.bucket == bucket && (if source in top then source else "other") == key then r.count else 0)
  {
    assert (rows + [r])[..|rows|] == rows;
  }

  // ---------------------------------------------------------------------------------------
  // The order of the sources
  // ---------------------------------------------------------------------------------------

  /** Python's `<` on strings: by code point. */
  predicate LexLess(a: string, b: string) {
    b != "" && (a == "" || a[0] < b[0] || (a[0] == b[0] && LexLess(a[1..], b[1..])))
  }

  lemma {:induction false} LexTotal(a: string, b: string)
    ensures LexLess(a, b) || LexLess(b, a) || a == b
    decreases |a|
  {
    if a != "" && b != "" && a[0] == b[0] {
      LexTotal(a[1..], b[1..]);
      assert a == [a[0]] + a[1..] && b == [b[0]] + b[1..];
    }
  }

  /** The order by code points: equal up to a place where one ends or has the smaller character. */
  lemma {:induction false} LexIff(a: string, b: string)
    ensures LexLess(a, b) <==>
            exists i | 0 <= i <= |a| && i < |b| :: a[..i] == b[..i] && (i == |a| || a[i] < b[i])
    decreases |a|
  {
    if a == "" {
      if b != "" { assert a[..0] == b[..0]; }
    } else if b != "" {
      if a[0] == b[0] {
        LexIff(a[1..], b[1..]);
        if LexLess(a[1..], b[1..]) {
          var j :| 0 <= j <= |a[1..]| && j < |b[1..]| && a[1..][..j] == b[1..][..j]
                   && (j == |a[1..]| || a[1..][j] < b[1..][j]);
          assert a[..j + 1] == [a[0]] + a[1..][..j] && b[..j + 1] == [b[0]] + b[1..][..j];
        }
        if i :| 0 <= i <= |a| && i < |b| && a[..i] == b[..i] && (i == |a| || a[i] < b[i]) {
          if i > 0 {
            assert a[1..][..i - 1] == a[..i][1..] && b[1..][..i - 1] == b[..i][1..];
          }
        }
      } else {
        assert a[..0] == b[..0];
        if i :| 0 < i <= |a| && i < |b| && a[..i] == b[..i] {
          assert a[..i][0] == b[..i][0];
        }
      }
    }
  }

  lemma {:induction false} LexTransitive(a: string, b: string, c: string)
    requires LexLess(a, b) && LexLess(b, c)
    ensures LexLess(a, c)
    decreases |a|
  {
    if a != "" && a[0] == b[0] && b[0] == c[0] {
      LexTransitive(a[1..], b[1..], c[1..]);
    }
  }

  /** The sort key `(-total, name)`. */
  predicate Ahead(totals: map<string, int>, a: string, b: string)
    requires a in totals && b in totals
  {
    totals[a] > totals[b] || (totals[a] == totals[b] && LexLess(a, b))
  }

  ghost predicate Ranked(totals: map<string, int>, order: seq<string>) {
    && (forall s | s in order :: s in totals)
    && (forall i, j | 0 <= i < j < |order| :: Ahead(totals, order[i], order[j]))
  }

  lemma AheadTransitive(totals: map<string, int>, a: string, b: string, c: string)
    requires a in totals && b in totals && c in totals
    requires Ahead(totals, a, b) && Ahead(totals, b, c)
    ensures Ahead(totals, a, c)
  {
    if LexLess(a, b) && LexLess(b, c) { LexTransitive(a, b, c); }
  }

  lemma {:induction false} LexIrreflexive(a: string)
    ensures !LexLess(a, a)
    decreases |a|
  {
    if a != "" { LexIrreflexive(a[1..]); }
  }

  method First(totals: map<string, int>, names: set<string>) returns (best: string)
    requires names != {} && names <= totals.Keys
    ensures best in names && forall s | s in names && s != best :: Ahead(totals, best, s)
  {
    best :| best in names;
    var todo := names - {best};
    while todo != {}
      invariant best in names && todo <= names
      invariant forall s | s in names - todo && s != best :: Ahead(totals, best, s)
    {
      var s :| s in todo;
      LexTotal(s, best);
      if Ahead(totals, s, best) {
        forall x | x in names - todo && x != best ensures Ahead(totals, s, x) {
          AheadTransitive(totals, s, best, x);
        }
        best := s;
      }
      todo := todo - {s};
    }
  }

  /** `sorted(totals.items(), key=...)`, names only. */
  method SortedSources(totals: map<string, int>) returns (order: seq<string>)
    ensures Ranked(totals, order) && (forall s :: s in order <==> s in totals)
    ensures |order| == |totals|
  {
    order := [];
    var todo := totals.Keys;
    while todo != {}
      invariant todo <= totals.Keys && |order| + |todo| == |totals|
      invariant forall s :: s in order <==> s in totals && s !in todo
      invariant Ranked(totals, order)
      invariant forall s, t | s in order && t in todo :: Ahead(totals, s, t)
    {
      var s := First(totals, todo);
      assert |todo - {s}| == |todo| - 1;
      order := order + [s];
      todo := todo - {s};
    }
    assert |totals.Keys| == |totals|;
  }

  lemma RankedIsDistinct(totals: map<string, int>, order: seq<string>)
    requires Ranked(totals, order)
    ensures Distinct(order)
  {
    forall i, j | 0 <= i < j < |order| ensures order[i] != order[j] {
      LexIrreflexive(order[i]);
      assert Ahead(totals, order[i], order[j]);
    }
  }

  /** Length of `s[:n]` for a sequence of length `len`; a negative `n` counts from the end. */
  function SliceLength(len: nat, n: int): nat {
    if n >= 0 then (if n < len then n else len) else if len + n > 0 then len + n else 0
  }

  // ---------------------------------------------------------------------------------------
  // The trend
  // ---------------------------------------------------------------------------------------

  /** The keys of the result, once each; "other" may occur in `sources` twice. */
  function KeysOnce(top: seq<string>, tail: bool): seq<string> {
    if tail && "other" !in top then top + ["other"] else top
  }

  function TopSet(top: seq<string>): set<string> { set s | s in top }

  /** `s` goes before `t`: a larger total, or the same total and the smaller name. */
  predicate Heavier(rows: seq<Row>, s: string, t: string) {
    TotalOf(rows, s) > TotalOf(rows, t) || (TotalOf(rows, s) == TotalOf(rows, t) && LexLess(s, t))
  }

  /** `top` is the prefix of the ranking and `sources` the result's key list. */
  ghost predicate TopOf(rows: seq<Row>, topN: int, top: seq<string>, tail: bool) {
    && |top| == SliceLength(|SourcesOf(rows)|, topN)
    && Distinct(top) && (forall s | s in top :: s in SourcesOf(rows))
    && (tail <==> exists s :: s in SourcesOf(rows) && s !in top)
    && (forall i, j | 0 <= i < j < |top| :: Heavier(rows, top[i], top[j]))
    && (forall s, t | s in top && t in SourcesOf(rows) && t !in top :: Heavier(rows, s, t))
  }

  /** One output row: the date first, then the counts, which overwrite it under a source named "date". */
  ghost predicate IsOutputRow(
    rows: seq<Row>, top: seq<string>, keys: seq<string>, bucket: string, out: map<string, Cell>)
  {
    && out.Keys == {"date"} + (set k | k in keys)
    && (forall k | k in keys :: out[k] == Count(CellOf(rows, TopSet(top), bucket, k)))
    && ("date" !in keys ==> out["date"] == Date(bucket))
  }

  /** `defaultdict(int)` */
  function ValueOr0(totals: map<string, int>, s: string): int {
    if s in totals then totals[s] else 0
  }

  lemma TotalsStep(rows: seq<Row>, n: nat, s: string)
    requires n < |rows| && s == NameOf(rows[n].source)
    ensures SourcesOf(rows[..n + 1]) == SourcesOf(rows[..n]) + {s}
    ensures forall t :: TotalOf(rows[..n + 1], t) == TotalOf(rows[..n], t) + if t == s then rows[n].count else 0
  {
    assert rows[..n + 1] == rows[..n] + [rows[n]] && rows[..n + 1][..n] == rows[..n];
  }

  method Totals(rows: seq<Row>) returns (totals: map<string, int>)
    ensures totals.Keys == SourcesOf(rows)
    ensures forall s | s in totals :: totals[s] == TotalOf(rows, s)
  {
    totals := map[];
    for n := 0 to |rows|
      invariant totals.Keys == SourcesOf(rows[..n])
      invariant forall s :: ValueOr0(totals, s) == TotalOf(rows[..n], s)
    {
      var s := NameOf(rows[n].source);
      ghost var before := totals;
      totals := totals[s := ValueOr0(totals, s) + rows[n].count];
      TotalsStep(rows, n, s);
      forall t ensures ValueOr0(totals, t) == TotalOf(rows[..n + 1], t) {
        assert ValueOr0(before, t) == TotalOf(rows[..n], t);
      }
    }
    assert rows[..|rows|] == rows;
  }

  lemma CellsStep(rows: seq<Row>, n: nat, top: set<string>)
    requires n < |rows|
    ensures BucketsOf(rows[..n + 1]) == BucketsOf(rows[..n]) + {rows[n].bucket}
    ensures forall b, k :: CellOf(rows[..n + 1], top, b, k) == CellOf(rows[..n], top, b, k) +
              if b == rows[n].bucket && k == Folded(NameOf(rows[n].source), top) then rows[n].count else 0
  {
    assert rows[..n + 1] == rows[..n] + [rows[n]] && rows[..n + 1][..n] == rows[..n];
  }

  /** `by_bucket[b].get(k, 0)` */
  function CellIn(cells: map<string, map<string, int>>, b: string, k: string): int {
    if b in cells then ValueOr0(cells[b], k) else 0
  }

  /** `by_bucket[b][k] += count` */
  function AddTo(
    cells: map<string, map<string, int>>, b: string, k: string, count: int): map<string, map<string, int>>
  {
    var counts := if b in cells then cells[b] else map[];
    cells[b := counts[k := ValueOr0(counts, k) + count]]
  }

  lemma AddToChangesOneCell(cells: map<string, map<string, int>>, b: string, k: string, count: int)
    ensures forall c, j ::
              CellIn(AddTo(cells, b, k, count), c, j) == CellIn(cells, c, j) + if c == b && j == k then count else 0
  {}

  /** `by_bucket`: one pass over the rows, with every source outside the top under "other". */
  method ByBucket(rows: seq<Row>, top: set<string>) returns (cells: map<string, map<string, int>>)
    ensures cells.Keys == BucketsOf(rows)
    ensures forall b, k :: CellIn(cells, b, k) == CellOf(rows, top, b, k)
  {
    cells := map[];
    for n := 0 to |rows|
      invariant cells.Keys == BucketsOf(rows[..n])
      invariant forall b, k :: CellIn(cells, b, k) == CellOf(rows[..n], top, b, k)
    {
      var bucket, key := rows[n].bucket, Folded(NameOf(rows[n].source), top);
      ghost var before := cells;
      CellsStep(rows, n, top);
      AddToChangesOneCell(cells, bucket, key, rows[n].count);
      cells := AddTo(cells, bucket, key, rows[n].count);
      hide CellIn, CellOf, AddTo;
      forall b, k ensures CellIn(cells, b, k) == CellOf(rows[..n + 1], top, b, k) {
        assert CellIn(before, b, k) == CellOf(rows[..n], top, b, k);
      }
      assert cells.Keys == before.Keys + {bucket} by { AddToKeys(before, bucket, key, rows[n].count); }
    }
    assert rows[..|rows|] == rows;
  }

  lemma AddToKeys(cells: map<string, map<string, int>>, b: string, k: string, count: int)
    ensures AddTo(cells, b, k, count).Keys == cells.Keys + {b}
  {}

  /** `sorted(by_bucket)` */
  method SortedBuckets(names: set<string>) returns (order: seq<string>)
    ensures forall b :: b in order <==> b in names
    ensures forall i, j | 0 <= i < j < |order| :: LexLess(order[i], order[j])
  {
    order := [];
    var todo := names;
    while todo != {}
      invariant todo <= names
      invariant forall b :: b in order <==> b in names && b !in todo
      invariant forall i, j | 0 <= i < j < |order| :: LexLess(order[i], order[j])
      invariant forall b, c | b in order && c in todo :: LexLess(b, c)
    {
      var zero := map b | b in todo :: 0;
      var b := First(zero, todo);
      assert forall c | c in todo && c != b :: LexLess(b, c);
      order := order + [b];
      todo := todo - {b};
    }
  }

  method OutputRow(rows: seq<Row>, top: seq<string>, keys: seq<string>, bucket: string, counts: map<string, int>)
      returns (out: map<string, Cell>)
    requires forall k :: ValueOr0(counts, k) == CellOf(rows, TopSet(top), bucket, k)
    ensures IsOutputRow(rows, top, keys, bucket, out)
  {
    out := map["date" := Date(bucket)];
    for n := 0 to |keys|
      invariant out.Keys == {"date"} + (set k | k in keys[..n])
      invariant forall k | k in keys[..n] :: out[k] == Count(CellOf(rows, TopSet(top), bucket, k))
      invariant "date" !in keys[..n] ==> out["date"] == Date(bucket)
    {
      assert keys[..n + 1] == keys[..n] + [keys[n]];
      out := out[keys[n] := Count(ValueOr0(counts, keys[n]))];
    }
    assert keys[..|keys|] == keys;
  }

  /** One output row per date. */
  method BuildSeries(
    rows: seq<Row>, top: seq<string>, keys: seq<string>, dates: seq<string>, cells: map<string, map<string, int>>)
      returns (series: seq<map<string, Cell>>)
    requires forall b | b in dates :: b in cells
    requires forall b, k :: CellIn(cells, b, k) == CellOf(rows, TopSet(top), b, k)
    ensures |series| == |dates|
    ensures forall i | 0 <= i < |dates| :: IsOutputRow(rows, top, keys, dates[i], series[i])
  {
    series := [];
    hide IsOutputRow, CellOf;
    for n := 0 to |dates|
      invariant |series| == n
      invariant forall i | 0 <= i < n :: IsOutputRow(rows, top, keys, dates[i], series[i])
    {
      forall k ensures ValueOr0(cells[dates[n]], k) == CellOf(rows, TopSet(top), dates[n], k) {
        assert CellIn(cells, dates[n], k) == ValueOr0(cells[dates[n]], k);
      }
      var out := OutputRow(rows, top, keys, dates[n], cells[dates[n]]);
      series := series + [out];
    }
  }

  /** Some source did not make it into the top. */
  ghost predicate HasTail(rows: seq<Row>, top: seq<string>) {
    exists s :: s in SourcesOf(rows) && s !in top
  }

  /** One output row per bucket of the input, by ascending date. */
  ghost predicate IsSeries(
    rows: seq<Row>, top: seq<string>, keys: seq<string>, dates: seq<string>, series: seq<map<string, Cell>>)
  {
    && |series| == |dates| && (forall b :: b in dates <==> b in BucketsOf(rows))
    && (forall i, j | 0 <= i < j < |dates| :: LexLess(dates[i], dates[j]))
    && (forall i | 0 <= i < |dates| :: IsOutputRow(rows, top, keys, dates[i], series[i]))
  }

  /** The top of the ranking, "other" if anything is rolled up, and the series. */
  ghost predicate IsTrend(rows: seq<Row>, topN: int, trend: Trend) {
    var m := SliceLength(|SourcesOf(rows)|, topN);
    && m <= |trend.sources|
    && var top := trend.sources[..m];
       && TopOf(rows, topN, top, HasTail(rows, top))
       && trend.sources == top + (if HasTail(rows, top) then ["other"] else [])
       && exists dates :: IsSeries(rows, top, trend.sources, dates, trend.series)
  }

  /** `source_volume_trend`. */
  method SourceVolumeTrend(rows: seq<Row>, topN: int) returns (trend: Trend)
    ensures IsTrend(rows, topN, trend)
  {
    var totals := Totals(rows);
    var order := SortedSources(totals);
    var top := order[..SliceLength(|order|, topN)];
    TopIsPrefix(rows, totals, order, topN);
    var tail := exists s :: s in totals && s !in top;
    var cells := ByBucket(rows, TopSet(top));
    var keys := top + if tail then ["other"] else [];
    var dates := SortedBuckets(cells.Keys);
    var series := BuildSeries(rows, top, keys, dates, cells);
    trend := Trend(keys, series);
    assert IsSeries(rows, top, keys, dates, series);
    hide IsSeries, TopOf;
    assert trend.sources[..|top|] == top;
  }

  lemma TopIsPrefix(rows: seq<Row>, totals: map<string, int>, order: seq<string>, topN: int)
    requires totals.Keys == SourcesOf(rows) && (forall s | s in totals :: totals[s] == TotalOf(rows, s))
    requires Ranked(totals, order) && (forall s :: s in order <==> s in totals) && |order| == |totals|
    ensures var top := order[..SliceLength(|order|, topN)];
            TopOf(rows, topN, top, HasTail(rows, top))
  {
    RankedIsDistinct(totals, order);
    assert |totals| == |totals.Keys|;
    var m := SliceLength(|order|, topN);
    forall s, t | s in order[..m] && t in SourcesOf(rows) && t !in order[..m]
      ensures Heavier(rows, s, t)
    {
      PrefixIsHeavier(totals, order, m, s, t);
    }
    forall i, j | 0 <= i < j < m ensures Heavier(rows, order[..m][i], order[..m][j]) {
      assert Ahead(totals, order[i], order[j]);
    }
    PrefixDistinct(order, m);
    hide Ranked, Distinct, SourcesOf, TotalOf, SliceLength, LexLess, Heavier;
  }

  lemma PrefixDistinct(order: seq<string>, m: nat)
    requires m <= |order| && Distinct(order)
    ensures Distinct(order[..m]) && forall s | s in order[..m] :: s in order
  {}

  lemma PrefixIsHeavier(totals: map<string, int>, order: seq<string>, m: nat, s: string, t: string)
    requires Ranked(totals, order) && m <= |order| && s in order[..m] && t in order && t !in order[..m]
    ensures s in totals && t in totals && Ahead(totals, s, t)
  {
    forall k | 0 <= k < m ensures order[k] in order[..m] {
      assert order[..m][k] == order[k];
    }
    var i :| 0 <= i < m && order[i] == s;
    var j :| 0 <= j < |order| && order[j] == t;
    assert Ahead(totals, order[i], order[j]);
  }

  /** In every bucket the counts over the distinct keys add up to the counts of the input. */
  lemma {:induction false} VolumeIsConserved(
    rows: seq<Row>, all: seq<Row>, topN: int, top: seq<string>, tail: bool, bucket: string)
    requires TopOf(all, topN, top, tail) && forall r | r in rows :: r in all
    ensures Distinct(KeysOnce(top, tail))
    ensures Sum(KeysOnce(top, tail), k => CellOf(rows, TopSet(top), bucket, k)) == BucketTotal(rows, bucket)
    decreases |rows|
  {
    var keys, set' := KeysOnce(top, tail), TopSet(top);
    var g := k => CellOf(rows, set', bucket, k);
    if rows == [] {
      SumZero(keys, g);
    } else {
      var n := |rows| - 1;
      var f := k => CellOf(rows[..n], set', bucket, k);
      assert forall r | r in rows[..n] :: r in rows;
      VolumeIsConserved(rows[..n], all, topN, top, tail, bucket);
      if rows[n].bucket == bucket {
        var key := Folded(NameOf(rows[n].source), set');
        assert rows[n] in all && NameOf(rows[n].source) in SourcesOf(all);
        assert key in keys;
        SumChangesAt(keys, f, g, key, rows[n].count);
      } else {
        SumSame(keys, f, g);
      }
    }
  }

  /** The number an output row shows under a key. */
  function Shown(out: map<string, Cell>, k: string): int {
    if k in out && out[k].Count? then out[k].n else 0
  }

  /** What one output row shows over its distinct keys is the volume of its bucket. */
  lemma OutputRowConservesVolume(
    rows: seq<Row>, topN: int, top: seq<string>, tail: bool, bucket: string, out: map<string, Cell>)
    requires TopOf(rows, topN, top, tail)
    requires IsOutputRow(rows, top, top + (if tail then ["other"] else []), bucket, out)
    ensures Distinct(KeysOnce(top, tail))
    ensures Sum(KeysOnce(top, tail), k => Shown(out, k)) == BucketTotal(rows, bucket)
  {
    VolumeIsConserved(rows, rows, topN, top, tail, bucket);
    SumSame(KeysOnce(top, tail), k => Shown(out, k), k => CellOf(rows, TopSet(top), bucket, k));
  }

  // ---------------------------------------------------------------------------------------
  // Sources that collide with keys of the output
  // ---------------------------------------------------------------------------------------

  /** How many sources are kept: `topN` or all of them, or all but the last ones for a negative number. */
  lemma KeptCount(rows: seq<Row>, topN: int, top: seq<string>, tail: bool)
    requires TopOf(rows, topN, top, tail)
    ensures topN >= 0 ==> |top| == topN || (|top| == |SourcesOf(rows)| && |top| < topN)
    ensures topN < 0 ==> |top| == |SourcesOf(rows)| + topN || (|top| == 0 && |SourcesOf(rows)| + topN < 0)
  {
    hide TotalOf, Heavier, SourcesOf;
  }

  /** The sources that go before `s`. */
  function HeavierSources(rows: seq<Row>, s: string): set<string> {
    set t | t in SourcesOf(rows) && Heavier(rows, t, s)
  }

  /** By the input alone: `s` is a source with fewer than the kept number of heavier ones. */
  predicate IsTopSource(rows: seq<Row>, topN: int, s: string) {
    s in SourcesOf(rows) && |HeavierSources(rows, s)| < SliceLength(|SourcesOf(rows)|, topN)
  }

  lemma HeavierIsAsymmetric(rows: seq<Row>, s: string, t: string)
    requires Heavier(rows, s, t)
    ensures !Heavier(rows, t, s)
  {
    if LexLess(s, t) && LexLess(t, s) {
      LexIrreflexive(s);
      LexTransitive(s, t, s);
    }
  }

  lemma HeavierThanTop(rows: seq<Row>, topN: int, top: seq<string>, tail: bool, i: nat)
    requires TopOf(rows, topN, top, tail) && i < |top|
    ensures HeavierSources(rows, top[i]) == set t | t in top[..i]
  {
    hide TotalOf, SourcesOf, Heavier, SliceLength;
    forall t ensures t in HeavierSources(rows, top[i]) <==> t in top[..i] {
      if t in HeavierSources(rows, top[i]) {
        HeavierIsAsymmetric(rows, t, top[i]);
        assert t in top;
        var j :| 0 <= j < |top| && top[j] == t;
        assert top[..i][j] == t;
      }
      if t in top[..i] {
        var j :| 0 <= j < i && top[..i][j] == t;
        assert Heavier(rows, top[j], top[i]) && top[j] in top;
      }
    }
  }

  /** The kept sources can be told from the input rows. */
  lemma InTopIff(rows: seq<Row>, topN: int, top: seq<string>, tail: bool, s: string)
    requires TopOf(rows, topN, top, tail)
    ensures s in top <==> IsTopSource(rows, topN, s)
  {
    hide TotalOf, Heavier, SliceLength;
    if s in top {
      var i :| 0 <= i < |top| && top[i] == s;
      HeavierThanTop(rows, topN, top, tail, i);
      assert Distinct(top[..i]);
      DistinctCount(top[..i]);
    } else if s in SourcesOf(rows) {
      DistinctCount(top);
      var kept := set t | t in top;
      assert kept <= HeavierSources(rows, s);
      assert |HeavierSources(rows, s)| >= |kept| by { SubsetCount(kept, HeavierSources(rows, s)); }
    }
  }

  lemma SubsetCount(a: set<string>, b: set<string>)
    requires a <= b
    ensures |a| <= |b| && (|a| == |b| ==> a == b)
  {
    assert b == a + (b - a);
    assert |b| == |a| + |b - a|;
  }

  lemma HasTailIff(rows: seq<Row>, topN: int, top: seq<string>, tail: bool)
    requires TopOf(rows, topN, top, tail)
    ensures HasTail(rows, top) <==> |SourcesOf(rows)| > SliceLength(|SourcesOf(rows)|, topN)
  {
    hide TotalOf, Heavier, SliceLength, SourcesOf;
    DistinctCount(top);
    var kept := set t | t in top;
    assert kept <= SourcesOf(rows);
    SubsetCount(kept, SourcesOf(rows));
    if !HasTail(rows, top) {
      assert kept == SourcesOf(rows);
    } else {
      var s :| s in SourcesOf(rows) && s !in top;
      assert s !in kept && kept != SourcesOf(rows);
    }
  }

  /** Every output row still shows its date. */
  ghost predicate ShowsDates(trend: Trend) {
    forall i | 0 <= i < |trend.series| :: "date" in trend.series[i] && trend.series[i]["date"].Date?
  }

  /** The output rows keep their dates exactly when "date" is not among the heaviest sources of the input. */
  lemma DatesSurviveIff(rows: seq<Row>, topN: int, trend: Trend)
    requires IsTrend(rows, topN, trend)
    ensures ShowsDates(trend) <==> !IsTopSource(rows, topN, "date")
  {
    hide TopOf, HasTail, IsTopSource, CellOf, LexLess, SliceLength;
    var top := trend.sources[..SliceLength(|SourcesOf(rows)|, topN)];
    InTopIff(rows, topN, top, HasTail(rows, top), "date");
    assert "other"[0] != "date"[0];
    assert "date" in trend.sources <==> "date" in top;
    var dates :| IsSeries(rows, top, trend.sources, dates, trend.series);
    if "date" in top {
      TopHasRows(rows, topN, top, HasTail(rows, top), "date");
      assert rows[0].bucket in BucketsOf(rows) && rows[0].bucket in dates;
      assert IsOutputRow(rows, top, trend.sources, dates[0], trend.series[0]);
    } else {
      forall i | 0 <= i < |dates| ensures trend.series[i]["date"] == Date(dates[i]) {
        assert IsOutputRow(rows, top, trend.sources, dates[i], trend.series[i]);
      }
    }
  }

  lemma TopHasRows(rows: seq<Row>, topN: int, top: seq<string>, tail: bool, s: string)
    requires TopOf(rows, topN, top, tail) && s in top
    ensures rows != [] && rows[0] in rows
  {
    assert s in SourcesOf(rows);
  }

  /** The output keys repeat exactly when "other" is among the heaviest sources and some source is not. */
  lemma KeysRepeatIff(rows: seq<Row>, topN: int, trend: Trend)
    requires IsTrend(rows, topN, trend)
    ensures !Distinct(trend.sources) <==>
            && IsTopSource(rows, topN, "other")
            && |SourcesOf(rows)| > SliceLength(|SourcesOf(rows)|, topN)
  {
    hide IsTopSource, IsSeries, SliceLength;
    var top := trend.sources[..SliceLength(|SourcesOf(rows)|, topN)];
    InTopIff(rows, topN, top, HasTail(rows, top), "other");
    HasTailIff(rows, topN, top, HasTail(rows, top));
    TopIsDistinct(rows, topN, top, HasTail(rows, top));
    hide TopOf, HasTail, SourcesOf;
    assert top + [] == top;
    if HasTail(rows, top) && "other" in top {
      var i :| 0 <= i < |top| && top[i] == "other";
      assert trend.sources[i] == trend.sources[|top|];
    }
  }

  lemma TopIsDistinct(rows: seq<Row>, topN: int, top: seq<string>, tail: bool)
    requires TopOf(rows, topN, top, tail)
    ensures Distinct(top)
  {}

  /** Both happen: one row from a source called "date"; two rows, the heavier from a source called "other". */
  lemma CollisionsHappen(trend1: Trend, trend2: Trend)
    requires IsTrend([Row("d", Some("date"), 1)], 1, trend1)
    requires IsTrend([Row("d", Some("other"), 2), Row("d", Some("x"), 1)], 1, trend2)
    ensures |trend1.series| == 1 && "date" in trend1.series[0] && trend1.series[0]["date"] == Count(1)
    ensures trend2.sources == ["other", "other"]
  {
    DateRow(trend1);
    OtherTwice(trend2);
  }

  lemma DateFacts(rows: seq<Row>)
    requires rows == [Row("d", Some("date"), 1)]
    ensures SourcesOf(rows) == {"date"} && BucketsOf(rows) == {"d"}
    ensures forall top | "date" in top :: CellOf(rows, top, "d", "date") == 1
  {
    assert rows[0] in rows && rows[..0] == [];
  }

  lemma DateRow(trend: Trend)
    requires IsTrend([Row("d", Some("date"), 1)], 1, trend)
    ensures |trend.series| == 1 && "date" in trend.series[0] && trend.series[0]["date"] == Count(1)
  {
    hide SourcesOf, BucketsOf, CellOf, TotalOf, Heavier, LexLess, Distinct;
    var rows := [Row("d", Some("date"), 1)];
    DateFacts(rows);
    var top := trend.sources[..1];
    assert top[0] in top && top[0] == "date";
    assert top == ["date"];
    assert trend.sources == top;
    var dates :| IsSeries(rows, top, trend.sources, dates, trend.series);
    OneDate(dates, "d");
    assert trend.sources[0] in trend.sources && "date" in TopSet(top);
  }

  lemma OneDate(dates: seq<string>, d: string)
    requires (forall b :: b in dates <==> b == d) && forall i, j | 0 <= i < j < |dates| :: LexLess(dates[i], dates[j])
    ensures dates == [d]
  {
    assert d in dates;
    if |dates| > 1 {
      var a, b := dates[0], dates[1];
      assert a in dates && b in dates && LexLess(a, b);
      LexIrreflexive(d);
    }
  }

  lemma OtherFacts(rows: seq<Row>)
    requires rows == [Row("d", Some("other"), 2), Row("d", Some("x"), 1)]
    ensures SourcesOf(rows) == {"other", "x"} && |SourcesOf(rows)| == 2 && "x" != "other"
    ensures TotalOf(rows, "other") == 2 && TotalOf(rows, "x") == 1
  {
    assert |"x"| == 1 && |"other"| == 5;
    assert rows[0] in rows && rows[1] in rows;
    assert NameOf(rows[0].source) == "other" && NameOf(rows[1].source) == "x";
    assert rows[..1] == [rows[0]] && [rows[0]][..0] == [];
    assert TotalOf([rows[0]], "other") == 2 && TotalOf([rows[0]], "x") == 0;
  }

  lemma OtherTwice(trend: Trend)
    requires IsTrend([Row("d", Some("other"), 2), Row("d", Some("x"), 1)], 1, trend)
    ensures trend.sources == ["other", "other"]
  {
    hide SourcesOf, BucketsOf, CellOf, TotalOf, LexLess, Distinct, IsSeries;
    var rows := [Row("d", Some("other"), 2), Row("d", Some("x"), 1)];
    OtherFacts(rows);
    var top := trend.sources[..1];
    assert top[0] in top && top == [top[0]];
    assert "other" in top || Heavier(rows, top[0], "other");
    assert top[0] == "other";
    assert "x" in SourcesOf(rows) && "x" !in top;
    assert HasTail(rows, top);
  }

  // ---------------------------------------------------------------------------------------
  // Percentiles
  // ---------------------------------------------------------------------------------------

  ghost predicate SortedReals(vals: seq<real>) {
    forall i, j | 0 <= i <= j < |vals| :: vals[i] <= vals[j]
  }

  function Interpolate(a: real, b: real, f: real): real {
    a + (b - a) * f
  }

  /** The value at a fractional rank. */
  function AtRank(vals: seq<real>, rank: real): real
    requires |vals| > 1 && 0.0 <= rank <= (|vals| - 1) as real
  {
    var lo := rank.Floor;
    var hi := if lo + 1 < |vals| - 1 then lo + 1 else |vals| - 1;
    Interpolate(vals[lo], vals[hi], rank - lo as real)
  }

  function RankOf(n: nat, p: real): real { n as real * p }

  /** `percentile`: linear interpolation at rank (n - 1) * p. */
  function Percentile(vals: seq<real>, p: real): real
    requires 0.0 <= p <= 1.0
  {
    if vals == [] then 0.0
    else if |vals| == 1 then vals[0]
    else
      RankBounds(|vals| - 1, p, p);
      AtRank(vals, RankOf(|vals| - 1, p))
  }

  lemma ScaleMonotone(d: real, f: real, g: real)
    requires d >= 0.0 && f <= g
    ensures d * f <= d * g
  {
    assert d * (g - f) >= 0.0;
  }

  lemma RankBounds(n: nat, p: real, q: real)
    requires 0.0 <= p <= q <= 1.0
    ensures 0.0 <= RankOf(n, p) <= RankOf(n, q) <= n as real
    ensures RankOf(n, 0.0) == 0.0 && RankOf(n, 1.0) == n as real
  {
    ScaleMonotone(n as real, 0.0, p);
    ScaleMonotone(n as real, p, q);
    ScaleMonotone(n as real, q, 1.0);
  }

  lemma InterpolateBounds(a: real, b: real, f: real, g: real)
    requires a <= b && 0.0 <= f <= g <= 1.0
    ensures a <= Interpolate(a, b, f) <= Interpolate(a, b, g) <= b
    ensures Interpolate(a, b, 0.0) == a
  {
    ScaleMonotone(b - a, 0.0, f);
    ScaleMonotone(b - a, f, g);
    ScaleMonotone(b - a, g, 1.0);
  }

  /** The interpolated value lies between the two values around its rank. */
  lemma AtRankIsBetween(vals: seq<real>, rank: real)
    requires SortedReals(vals) && |vals| > 1 && 0.0 <= rank <= (|vals| - 1) as real
    ensures var lo := rank.Floor;
            && vals[lo] <= AtRank(vals, rank) <= vals[if lo + 1 < |vals| - 1 then lo + 1 else |vals| - 1]
            && (rank == lo as real ==> AtRank(vals, rank) == vals[lo])
  {
    var lo := rank.Floor;
    var hi := if lo + 1 < |vals| - 1 then lo + 1 else |vals| - 1;
    InterpolateBounds(vals[lo], vals[hi], rank - lo as real, rank - lo as real);
    hide Interpolate;
  }

  lemma AtRankIsMonotone(vals: seq<real>, r: real, t: real)
    requires SortedReals(vals) && |vals| > 1 && 0.0 <= r <= t <= (|vals| - 1) as real
    ensures AtRank(vals, r) <= AtRank(vals, t)
  {
    AtRankIsBetween(vals, r);
    AtRankIsBetween(vals, t);
    if r.Floor == t.Floor {
      var lo := r.Floor;
      var hi := if lo + 1 < |vals| - 1 then lo + 1 else |vals| - 1;
      InterpolateBounds(vals[lo], vals[hi], r - lo as real, t - lo as real);
    }
    hide Interpolate;
  }

  /** A larger share never has a smaller percentile; the extremes are the first and the last value. */
  lemma PercentileIsMonotone(vals: seq<real>, p: real, q: real)
    requires SortedReals(vals) && vals != [] && 0.0 <= p <= q <= 1.0
    ensures vals[0] <= Percentile(vals, p) <= Percentile(vals, q) <= vals[|vals| - 1]
    ensures Percentile(vals, 0.0) == vals[0] && Percentile(vals, 1.0) == vals[|vals| - 1]
  {
    if |vals| > 1 {
      var n := |vals| - 1;
      RankBounds(n, p, q);
      hide RankOf;
      AtRankIsMonotone(vals, RankOf(n, p), RankOf(n, q));
      AtRankIsBetween(vals, RankOf(n, p));
      AtRankIsBetween(vals, RankOf(n, q));
      RankBounds(n, 0.0, 1.0);
      AtRankIsBetween(vals, 0.0);
      AtRankIsBetween(vals, n as real);
      hide AtRank;
    }
  }

  /** Between two neighbouring values the percentile is their weighted mean. */
  lemma PercentileIsLinear(vals: seq<real>, p: real, lo: nat, f: real)
    requires 0.0 <= p <= 1.0 && lo + 1 < |vals| && 0.0 <= f < 1.0
    requires (|vals| - 1) as real * p == lo as real + f
    ensures Percentile(vals, p) == (1.0 - f) * vals[lo] + f * vals[lo + 1]
  {
    var rank := RankOf(|vals| - 1, p);
    assert rank.Floor == lo;
    WeightedMean(vals[lo], vals[lo + 1], f);
  }

  lemma WeightedMean(a: real, b: real, f: real)
    ensures a + (b - a) * f == (1.0 - f) * a + f * b
  {}
}
