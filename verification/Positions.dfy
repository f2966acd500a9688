/**
  tracking/position.go: the sampled history and the cursor pages. A table is the sequence of its rows
  in id order; each SQL statement is one atomic reading of a table.
 */
module Positions {
  import opened Wrappers
  import opened Simplify

  datatype Row = Row(device: nat, timestamp: int, fromGps: bool, valid: Option<bool>, point: Position)

  type Table = seq<Row>

  // ---- History ----

  datatype HistoryQuery = HistoryQuery(
    device: nat, from: int, to: int, limit: int, onlyValid: bool, simplify: bool, tolerance: real)

  datatype HistoryResult = HistoryResult(
    positions: seq<Position>, total: nat, returned: nat, sampled: bool, sampleStep: nat, simplified: bool)

  predicate InHistory(q: HistoryQuery, r: Row) {
    r.device == q.device && q.from <= r.timestamp <= q.to && r.fromGps && (q.onlyValid ==> r.valid == Some(true))
  }

  function Filter(table: Table, q: HistoryQuery): Table {
    if table == [] then []
    else (if InHistory(q, table[0]) then [table[0]] else []) + Filter(table[1..], q)
  }

  /** ORDER BY gps_timestamp, id. */
  predicate InOrder(a: Row, b: Row) {
    a.timestamp < b.timestamp || (a.timestamp == b.timestamp && a.point.id <= b.point.id)
  }

  predicate Ordered(rows: Table) {
    forall i, j | 0 <= i < j < |rows| :: InOrder(rows[i], rows[j])
  }

  function Insert(r: Row, rows: Table): Table {
    if rows == [] || InOrder(r, rows[0]) then [r] + rows else [rows[0]] + Insert(r, rows[1..])
  }

  function ByTime(rows: Table): Table {
    if rows == [] then [] else Insert(rows[0], ByTime(rows[1..]))
  }

  function Limit(q: HistoryQuery): (limit: nat)
    ensures limit > 0
  {
    if q.limit <= 0 then 2000 else q.limit
  }

  /** math.Ceil(total / limit). */
  function CeilDiv(total: nat, limit: nat): nat
    requires limit > 0
  {
    (total + limit - 1) / limit
  }

  function StepFor(total: nat, limit: nat): (step: nat)
    requires limit > 0
    ensures step >= 1
  {
    if total > limit then CeilAtLeastOne(total, limit) else 1
  }

  function CeilAtLeastOne(total: nat, limit: nat): (step: nat)
    requires 0 < limit < total
    ensures step == CeilDiv(total, limit) && step >= 1
    ensures (step - 1) * limit < total <= step * limit
  {
    CeilIsLeast(total, limit);
    CeilDiv(total, limit)
  }

  lemma CeilIsLeast(total: nat, limit: nat)
    requires 0 < limit < total
    ensures var step := CeilDiv(total, limit); step >= 1 && (step - 1) * limit < total <= step * limit
  {
    var step := CeilDiv(total, limit);
    var rest := (total + limit - 1) % limit;
    assert step * limit + rest == total + limit - 1;
  }

  /** The WHERE of the sampling query for row `i` of `n`, whose row number is `i` + 1. */
  predicate Taken(i: nat, n: nat, step: nat)
    requires step >= 1
  {
    step == 1 || (i + 1) % step == 1 || i + 1 == n
  }

  /** The sampled indices below `k`, in order. */
  function Picks(k: nat, n: nat, step: nat): seq<nat>
    requires step >= 1
  {
    if k == 0 then [] else Picks(k - 1, n, step) + if Taken(k - 1, n, step) then [k - 1] else []
  }

  predicate Below(picks: seq<nat>, n: nat) {
    forall i | 0 <= i < |picks| :: picks[i] < n
  }

  lemma {:induction false} PicksBelow(k: nat, n: nat, step: nat)
    requires step >= 1
    ensures Below(Picks(k, n, step), k)
  {
    hide Taken;
    if k > 0 {
      PicksBelow(k - 1, n, step);
    }
  }

  function PointsAt(rows: Table, picks: seq<nat>): (points: seq<Position>)
    requires Below(picks, |rows|)
    ensures |points| == |picks|
  {
    seq(|picks|, i requires 0 <= i < |picks| => rows[picks[i]].point)
  }

  function SamplePoints(rows: Table, step: nat): seq<Position>
    requires step >= 1
  {
    PicksBelow(|rows|, |rows|, step);
    PointsAt(rows, Picks(|rows|, |rows|, step))
  }

  function Tolerance(q: HistoryQuery): (tolerance: real)
    ensures tolerance > 0.0
  {
    if q.tolerance <= 0.0 then 5.0 else q.tolerance
  }

  /** History: `counted` is the table the first statement saw, `listed` the one the second saw. */
  function HistoryOf(scale: Scale, counted: Table, listed: Table, q: HistoryQuery): HistoryResult {
    var total := |Filter(counted, q)|;
    if total == 0 then HistoryResult([], 0, 0, false, 0, false)
    else
      var step := StepFor(total, Limit(q));
      var points := SamplePoints(ByTime(Filter(listed, q)), step);
      var kept := if q.simplify && |points| > 2 then Simplified(scale, points, Tolerance(q)) else points;
      HistoryResult(kept, total, |kept|, total > Limit(q), step, |kept| < |points|)
  }

  method History(scale: Scale, counted: Table, listed: Table, q: HistoryQuery) returns (r: HistoryResult)
    ensures r == HistoryOf(scale, counted, listed, q)
  {
    hide Filter, ByTime, Simplified, StepFor, SamplePoints;
    var limit := q.limit;
    if limit <= 0 {
      limit := 2000;
    }
    var total := |Filter(counted, q)|;
    r := HistoryResult([], total, 0, false, 0, false);
    if total == 0 {
      return;
    }
    var step := 1;
    StepIs(total, limit);
    if total > limit {
      step := CeilDiv(total, limit);
      r := r.(sampled := true);
    }
    r := r.(sampleStep := step);
    var rows := SamplePoints(ByTime(Filter(listed, q)), step);
    var i := 0;
    while i < |rows|
      invariant 0 <= i <= |rows|
      invariant r == HistoryResult(rows[..i], total, 0, total > limit, step, false)
    {
      assert rows[..i + 1] == rows[..i] + [rows[i]];
      r := r.(positions := r.positions + [rows[i]]);
      i := i + 1;
    }
    assert rows[..|rows|] == rows;
    if q.simplify && |r.positions| > 2 {
      var tolerance := q.tolerance;
      if tolerance <= 0.0 {
        tolerance := 5.0;
      }
      var before := |r.positions|;
      var kept := SimplifyTrack(scale, r.positions, tolerance);
      r := r.(positions := kept);
      r := r.(simplified := |r.positions| < before);
    }
    r := r.(returned := |r.positions|);
  }

  lemma StepIs(total: nat, limit: nat)
    requires limit > 0
    ensures StepFor(total, limit) == if total > limit then CeilDiv(total, limit) else 1
  {
  }

  // ---- The sample ----

  /** What the query sorts is exactly what it filtered, in time order. */
  lemma {:induction false} ByTimeSorts(rows: Table)
    ensures Ordered(ByTime(rows)) && multiset(ByTime(rows)) == multiset(rows)
    ensures var sorted := ByTime(rows);
      forall i, j | 0 <= i < j < |sorted| ::
        || sorted[i].timestamp < sorted[j].timestamp
        || (sorted[i].timestamp == sorted[j].timestamp && sorted[i].point.id <= sorted[j].point.id)
  {
    if rows != [] {
      ByTimeSorts(rows[1..]);
      InsertSorts(rows[0], ByTime(rows[1..]));
      assert rows == [rows[0]] + rows[1..];
    }
  }

  /** The filter keeps each row of the device and period with a position, and a valid one if asked, as often as the table has it. */
  lemma {:induction false} FilterExactly(table: Table, q: HistoryQuery, r: Row)
    ensures multiset(Filter(table, q))[r] ==
      if r.device == q.device && r.timestamp >= q.from && r.timestamp <= q.to && r.fromGps && (!q.onlyValid || r.valid == Some(true))
      then multiset(table)[r] else 0
  {
    if table != [] {
      FilterExactly(table[1..], q, r);
      assert table == [table[0]] + table[1..];
    }
  }

  lemma {:induction false} InsertSorts(r: Row, rows: Table)
    requires Ordered(rows)
    ensures Ordered(Insert(r, rows)) && multiset(Insert(r, rows)) == multiset(rows) + multiset{r}
  {
    if rows != [] && !InOrder(r, rows[0]) {
      InsertSorts(r, rows[1..]);
      var rest := Insert(r, rows[1..]);
      assert rows == [rows[0]] + rows[1..];
      forall i | 0 <= i < |rest| ensures InOrder(rows[0], rest[i]) {
        assert rest[i] in multiset(rest);
        assert rest[i] == r || rest[i] in multiset(rows[1..]);
      }
    }
  }

  /** Row numbers equal to 1 modulo the step are the multiples of the step, counted from zero. */
  lemma TakenIff(i: nat, n: nat, step: nat)
    requires step >= 1
    ensures Taken(i, n, step) <==> i % step == 0 || i + 1 == n
  {
    if step > 1 {
      var q, r := i / step, i % step;
      assert i == q * step + r;
      if r + 1 < step {
        ModOf(q, r + 1, step);
      } else {
        assert i + 1 == (q + 1) * step + 0;
        ModOf(q + 1, 0, step);
      }
    }
  }

  lemma ModOf(q: nat, r: nat, step: nat)
    requires r < step
    ensures (q * step + r) % step == r
  {
    var x := q * step + r;
    Unique(x / step, x % step, q, r, step);
  }

  lemma Unique(a: nat, b: nat, q: nat, r: nat, step: nat)
    requires b < step && r < step && a * step + b == q * step + r
    ensures b == r
  {
    if a < q {
      Distribute(q, a, step);
    } else if q < a {
      Distribute(a, q, step);
    }
  }

  lemma Distribute(large: nat, small: nat, step: nat)
    requires small < large
    ensures large * step - small * step >= step
  {
    assert large * step - small * step == (large - small) * step;
    assert (large - small) * step == step + (large - small - 1) * step;
  }

  /** What a sample of `n` rows is: ascending, with both ends, and no gap above the step. */
  predicate Faithful(picks: seq<nat>, n: nat, step: nat) {
    && Below(picks, n)
    && (forall i, j | 0 <= i < j < |picks| :: picks[i] < picks[j])
    && (n > 0 ==> picks != [] && picks[0] == 0 && picks[|picks| - 1] == n - 1)
    && (forall i | 0 < i < |picks| :: picks[i] - picks[i - 1] <= step)
  }

  /** Short of the last row, the picks are exactly the multiples of the step. */
  predicate Multiples(picks: seq<nat>, k: nat, step: nat) {
    && Below(picks, k)
    && (forall i | 0 <= i < |picks| :: picks[i] == i * step)
    && k <= |picks| * step
  }

  lemma {:induction false} PicksAreMultiples(k: nat, n: nat, step: nat)
    requires step >= 1 && k < n
    ensures Multiples(Picks(k, n, step), k, step)
  {
    hide Taken;
    if k > 0 {
      var before := Picks(k - 1, n, step);
      PicksAreMultiples(k - 1, n, step);
      TakenIff(k - 1, n, step);
      assert before != [] ==> before[|before| - 1] < k - 1;
      NextMultiple(k - 1, |before|, step);
    }
  }

  /** The next row to pick is the next multiple. */
  lemma NextMultiple(i: nat, c: nat, step: nat)
    requires step >= 1 && i <= c * step && (c > 0 ==> (c - 1) * step < i)
    ensures i % step == 0 <==> i == c * step
    ensures i == c * step ==> i + 1 <= (c + 1) * step
  {
    if c == 0 {
      assert i == 0;
    } else if i == c * step {
      ModOf(c, 0, step);
    } else {
      var r := i - (c - 1) * step;
      assert c * step == (c - 1) * step + step;
      ModOf(c - 1, r, step);
    }
  }

  lemma StepsApart(picks: seq<nat>, k: nat, step: nat)
    requires step >= 1 && Multiples(picks, k, step)
    ensures forall i, j | 0 <= i < j < |picks| :: picks[i] < picks[j]
    ensures forall i | 0 < i < |picks| :: picks[i] - picks[i - 1] == step
  {
    forall i, j | 0 <= i < j < |picks| ensures picks[i] < picks[j] {
      Distribute(j, i, step);
    }
    forall i | 0 < i < |picks| ensures picks[i] - picks[i - 1] == step {
      assert i * step == (i - 1) * step + step;
    }
  }

  /** The sample is ordered, keeps the first and last rows, and skips fewer than `step` rows at a time. */
  lemma SampleIsFaithful(n: nat, step: nat)
    requires step >= 1
    ensures Faithful(Picks(n, n, step), n, step)
  {
    hide Taken;
    if n > 0 {
      var before := Picks(n - 1, n, step);
      PicksAreMultiples(n - 1, n, step);
      StepsApart(before, n - 1, step);
      LastTaken(n, step);
      if n > 1 {
        var c := |before|;
        assert c * step == (c - 1) * step + step;
      }
    }
  }

  lemma LastTaken(n: nat, step: nat)
    requires step >= 1 && n > 0
    ensures Picks(n, n, step) == Picks(n - 1, n, step) + [n - 1]
  {
  }

  /** A sample is every step-th row from the first on, short of the last, and then the last. */
  lemma SampleExactly(rows: Table, step: nat)
    requires rows != [] && step >= 1
    ensures var sample, n := SamplePoints(rows, step), |rows|;
      && sample != [] && sample[|sample| - 1] == rows[n - 1].point
      && n - 1 <= (|sample| - 1) * step && (|sample| > 1 ==> (|sample| - 2) * step < n - 1)
      && forall j | 0 <= j < |sample| - 1 :: 0 <= j * step < n && sample[j] == rows[j * step].point
  {
    hide Taken, Picks;
    var n := |rows|;
    PicksAreMultiples(n - 1, n, step);
    LastTaken(n, step);
    PicksBelow(n, n, step);
    var before := Picks(n - 1, n, step);
    if before != [] {
      assert before[|before| - 1] == (|before| - 1) * step;
    }
  }

  /** A sample of `n` rows exceeds a limit by the rows the step does not cover. */
  lemma SampleSizeIff(n: nat, step: nat, limit: nat)
    requires n > 0 && step >= 1 && limit > 0
    ensures |Picks(n, n, step)| <= limit + 1 <==> n - 1 <= limit * step
    ensures |Picks(n, n, step)| <= limit <==> n - 1 <= (limit - 1) * step
  {
    hide Taken;
    var c := |Picks(n - 1, n, step)|;
    PicksAreMultiples(n - 1, n, step);
    LastTaken(n, step);
    if c > 0 {
      assert Picks(n - 1, n, step)[c - 1] == (c - 1) * step < n - 1;
    }
    CountAgainst(c, n - 1, step, limit);
    CountAgainst(c, n - 1, step, limit - 1);
  }

  /** `c` multiples of `step` lie below `k`. */
  lemma CountAgainst(c: nat, k: nat, step: nat, limit: nat)
    requires k <= c * step && (c > 0 ==> (c - 1) * step < k)
    ensures c <= limit <==> k <= limit * step
  {
    if c <= limit {
      Grows(c, limit, step);
    } else {
      Grows(limit, c - 1, step);
    }
  }

  /**
    At most one row beyond the limit when the rows sampled are those counted, and exactly when the last
    row is not itself a multiple that was counted.
   */
  lemma SampleSize(total: nat, limit: nat)
    requires total > 0 && limit > 0
    ensures var step := StepFor(total, limit);
      var size := |Picks(total, total, step)|;
      && size <= limit + 1
      && (size == limit + 1 <==> total > limit && (limit - 1) * step < total - 1)
  {
    hide Picks;
    var step := StepFor(total, limit);
    SampleSizeIff(total, step, limit);
    if total <= limit {
      assert (limit - 1) * step == limit - 1 && limit * step == limit;
    }
  }

  lemma Grows(a: nat, b: nat, step: nat)
    requires a <= b
    ensures a * step <= b * step
  {
    assert b * step == a * step + (b - a) * step;
  }

  /** The documented limit is exceeded, for instance by four rows with a limit of two. */
  lemma LimitExceeded()
    ensures |Picks(4, 4, StepFor(4, 2))| == 3
  {
    SampleSize(4, 2);
    assert StepFor(4, 2) == 2;
  }

  /**
    The two statements may see different tables. Whatever the first counted, the sample of what the
    second lists is in time order and starts and ends at the true first and last rows; it has at most one
    row beyond the limit exactly when the step still covers the rows listed. Simplification, when asked
    for, keeps both ends and adds nothing.
   */
  lemma HistoryKeepsEnds(scale: Scale, counted: Table, listed: Table, q: HistoryQuery)
    requires Filter(counted, q) != [] && Filter(listed, q) != []
    ensures var rows, step := ByTime(Filter(listed, q)), StepFor(|Filter(counted, q)|, Limit(q));
      var sample, points := SamplePoints(rows, step), HistoryOf(scale, counted, listed, q).positions;
      && Ordered(rows) && multiset(rows) == multiset(Filter(listed, q)) && |rows| == |Filter(listed, q)| > 0
      && sample != [] && points != []
      && sample[0] == points[0] == rows[0].point
      && sample[|sample| - 1] == points[|points| - 1] == rows[|rows| - 1].point
      && |points| <= |sample| && (!q.simplify ==> points == sample)
      && (|sample| <= Limit(q) + 1 <==> |rows| - 1 <= Limit(q) * step)
  {
    hide Filter, ByTime, Picks, Reduce, StepFor, Ordered;
    var rows := ByTime(Filter(listed, q));
    ByTimeSorts(Filter(listed, q));
    SameSize(rows, Filter(listed, q));
    var step := StepFor(|Filter(counted, q)|, Limit(q));
    SampleIsFaithful(|rows|, step);
    SampleSizeIff(|rows|, step, Limit(q));
  }

  /** The figures beside the points, and the defaults: 2000 rows and 5 metres. */
  lemma HistoryFigures(scale: Scale, counted: Table, listed: Table, q: HistoryQuery)
    ensures var r, total := HistoryOf(scale, counted, listed, q), |Filter(counted, q)|;
      var limit := if q.limit <= 0 then 2000 else q.limit;
      && r.total == total && r.returned == |r.positions|
      && (r.sampled <==> total > limit)
      && (total == 0 <==> r.sampleStep == 0) && (0 < total <= limit ==> r.sampleStep == 1)
      && (total > limit ==> (r.sampleStep - 1) * limit < total <= r.sampleStep * limit)
      && (total == 0 ==> r.positions == [])
    ensures Filter(counted, q) != [] ==> HistoryOf(scale, counted, listed, q).sampleStep >= 1
    ensures Filter(counted, q) != [] ==>
      var r := HistoryOf(scale, counted, listed, q);
      var sample := SamplePoints(ByTime(Filter(listed, q)), r.sampleStep);
      && r.positions == (if q.simplify && |sample| > 2
           then Simplified(scale, sample, if q.tolerance <= 0.0 then 5.0 else q.tolerance) else sample)
      && (r.simplified <==> r.returned < |sample|)
  {
    hide Filter, ByTime, Simplified, CeilDiv, SamplePoints;
  }

  /** If both saw the same table, or the second saw no more rows, the history stays within the limit and one. */
  lemma HistoryWithinLimit(scale: Scale, counted: Table, listed: Table, q: HistoryQuery)
    requires 0 < |Filter(listed, q)| <= |Filter(counted, q)|
    ensures |HistoryOf(scale, counted, listed, q).positions| <= Limit(q) + 1
  {
    hide Filter, ByTime, SamplePoints, HistoryOf, Ordered, CeilDiv;
    var total, limit := |Filter(counted, q)|, Limit(q);
    HistoryKeepsEnds(scale, counted, listed, q);
    assert total <= limit * StepFor(total, limit);
  }

  function Sighting(id: nat): Row {
    Row(1, id, true, Some(true), Position(id, 0.0, 0.0))
  }

  /** Rows stored between the statements break it: one counted, four listed, limit two, four points. */
  lemma LateRowsExceedLimit(scale: Scale)
    ensures var q := HistoryQuery(1, 0, 9, 2, false, false, 0.0);
      var r := HistoryOf(scale, [Sighting(1)], [Sighting(1), Sighting(2), Sighting(3), Sighting(4)], q);
      r.total == 1 && !r.sampled && |r.positions| == 4
  {
    hide ByTime, Picks, Ordered;
    var q := HistoryQuery(1, 0, 9, 2, false, false, 0.0);
    var listed := [Sighting(1), Sighting(2), Sighting(3), Sighting(4)];
    AllInHistory(q, [Sighting(1)]);
    AllInHistory(q, listed);
    ByTimeSorts(listed);
    SameSize(ByTime(listed), listed);
    SampleSizeIff(4, 1, 3);
    SampleSizeIff(4, 1, 2);
  }

  lemma {:induction false} AllInHistory(q: HistoryQuery, rows: Table)
    requires forall i | 0 <= i < |rows| :: InHistory(q, rows[i])
    ensures Filter(rows, q) == rows
  {
    if rows != [] {
      AllInHistory(q, rows[1..]);
      assert rows == [rows[0]] + rows[1..];
    }
  }

  lemma SameSize(a: Table, b: Table)
    requires multiset(a) == multiset(b)
    ensures |a| == |b|
  {
    assert |multiset(a)| == |a| && |multiset(b)| == |b|;
  }

  // ---- Pages ----

  datatype PageQuery = PageQuery(device: nat, from: int, to: int, limit: int)

  datatype Page = Page(rows: Table, next: Option<int>)

  predicate InPage(q: PageQuery, r: Row) {
    r.device == q.device && q.from <= r.timestamp <= q.to
  }

  /** Rows in id order, ids positive and distinct. */
  predicate ById(table: Table) {
    && (forall i | 0 <= i < |table| :: table[i].point.id > 0)
    && (forall i, j | 0 <= i < j < |table| :: table[i].point.id < table[j].point.id)
  }

  /** WHERE ... AND id > after ORDER BY id. */
  function After(table: Table, q: PageQuery, after: int): (r: Table)
    ensures forall i | 0 <= i < |r| :: r[i] in table && InPage(q, r[i]) && r[i].point.id > after
  {
    if table == [] then []
    else (if InPage(q, table[0]) && table[0].point.id > after then [table[0]] else []) + After(table[1..], q, after)
  }

  function PageLimit(q: PageQuery): (limit: nat)
    ensures limit > 0
  {
    if q.limit <= 0 || q.limit > 1000 then 500 else q.limit
  }

  function PageOf(table: Table, q: PageQuery, after: int): Page {
    var rows := After(table, q, after);
    if |rows| > PageLimit(q) then Page(rows[..PageLimit(q)], Some(rows[PageLimit(q) - 1].point.id))
    else Page(rows, None)
  }

  function Take(rows: Table, n: nat): Table {
    if |rows| <= n then rows else rows[..n]
  }

  /** Page: one row more than the limit is asked for, to know whether there is a next page. */
  method ReadPage(table: Table, q: PageQuery, after: int) returns (page: Page)
    ensures page == PageOf(table, q, after)
  {
    hide After;
    var limit := q.limit;
    if limit <= 0 || limit > 1000 {
      limit := 500;
    }
    var rows := Take(After(table, q, after), limit + 1);
    var positions: Table := [];
    var i := 0;
    while i < |rows|
      invariant 0 <= i <= |rows| && positions == rows[..i]
    {
      positions := positions + [rows[i]];
      i := i + 1;
    }
    if |positions| > limit {
      assert positions[..limit] == After(table, q, after)[..limit];
      positions := positions[..limit];
      return Page(positions, Some(positions[|positions| - 1].point.id));
    }
    return Page(positions, None);
  }

  // ---- Following the cursor ----

  /** Each table a later reading sees only adds rows with larger ids. */
  predicate Growing(tables: seq<Table>) {
    && tables != []
    && (forall i | 0 <= i < |tables| :: ById(tables[i]))
    && (forall i | 0 < i < |tables| :: tables[i - 1] <= tables[i])
  }

  lemma {:induction false} AfterConcat(a: Table, b: Table, q: PageQuery, after: int)
    ensures After(a + b, q, after) == After(a, q, after) + After(b, q, after)
  {
    hide InPage;
    if a == [] {
      assert a + b == b;
    } else {
      assert (a + b)[1..] == a[1..] + b;
      AfterConcat(a[1..], b, q, after);
    }
  }

  lemma {:induction false} AfterById(table: Table, q: PageQuery, after: int)
    requires ById(table)
    ensures ById(After(table, q, after))
  {
    hide InPage;
    if table != [] {
      AfterById(table[1..], q, after);
      forall i | 0 <= i < |After(table[1..], q, after)| ensures table[0].point.id < After(table[1..], q, after)[i].point.id {
        assert After(table[1..], q, after)[i] in table[1..];
      }
    }
  }

  /** Filtering by a later cursor refines filtering by an earlier one. */
  lemma {:induction false} AfterTwice(table: Table, q: PageQuery, after: int, cursor: int)
    requires after <= cursor
    ensures After(After(table, q, after), q, cursor) == After(table, q, cursor)
  {
    if table != [] {
      var rest := After(table[1..], q, after);
      AfterTwice(table[1..], q, after, cursor);
      if InPage(q, table[0]) && table[0].point.id > after {
        assert After(table, q, after) == [table[0]] + rest;
        assert ([table[0]] + rest)[1..] == rest;
      } else {
        assert After(table, q, after) == rest;
        assert After(table, q, cursor) == After(table[1..], q, cursor);
      }
    }
  }

  lemma {:induction false} AfterNone(rows: Table, q: PageQuery, cursor: int)
    requires forall i | 0 <= i < |rows| :: rows[i].point.id <= cursor
    ensures After(rows, q, cursor) == []
  {
    if rows != [] {
      AfterNone(rows[1..], q, cursor);
    }
  }

  lemma {:induction false} AfterAll(rows: Table, q: PageQuery, cursor: int)
    requires forall i | 0 <= i < |rows| :: rows[i].point.id > cursor && InPage(q, rows[i])
    ensures After(rows, q, cursor) == rows
  {
    if rows != [] {
      AfterAll(rows[1..], q, cursor);
    }
  }

  /** In id order, the rows behind the `k`-th are those with larger ids. */
  lemma SortedSkips(rows: Table, q: PageQuery, k: nat)
    requires ById(rows) && k < |rows| && forall i | 0 <= i < |rows| :: InPage(q, rows[i])
    ensures After(rows, q, rows[k].point.id) == rows[k + 1..]
  {
    hide InPage, After;
    var front, back, cursor := rows[..k + 1], rows[k + 1..], rows[k].point.id;
    assert rows == front + back;
    AfterConcat(front, back, q, cursor);
    AfterNone(front, q, cursor);
    AfterAll(back, q, cursor);
  }

  /** The cursor of the `k`-th remaining row leaves exactly the rows behind it. */
  lemma CursorSkips(table: Table, q: PageQuery, after: int, k: nat)
    requires ById(table) && k < |After(table, q, after)|
    ensures var rows := After(table, q, after);
      rows[k].point.id > after && After(table, q, rows[k].point.id) == rows[k + 1..]
  {
    hide InPage, ById, After;
    var rows := After(table, q, after);
    AfterById(table, q, after);
    SortedSkips(rows, q, k);
    AfterTwice(table, q, after, rows[k].point.id);
  }

  /** Rows inserted with larger ids come behind everything already read. */
  lemma LaterRowsComeBehind(table: Table, grown: Table, q: PageQuery, after: int)
    requires ById(grown) && table <= grown
    ensures ById(table) && After(table, q, after) <= After(grown, q, after)
  {
    hide InPage;
    var added := grown[|table|..];
    assert grown == table + added;
    AfterConcat(table, added, q, after);
  }

  /** Follows NextCursor until it is null; the next reading sees the next table, the last one stays. */
  function Follow(tables: seq<Table>, q: PageQuery, after: int): (r: (Table, Table))
    requires Growing(tables)
    decreases |tables|, |After(tables[0], q, after)|
  {
    var page := PageOf(tables[0], q, after);
    if page.next.None? then (page.rows, tables[0])
    else
      CursorSkips(tables[0], q, after, PageLimit(q) - 1);
      var rest := Follow(if |tables| > 1 then tables[1..] else tables, q, page.next.value);
      (page.rows + rest.0, rest.1)
  }

  /**
    Following the cursor from anywhere yields, in id order and each once, every matching row beyond it of
    the table the last page was read from, however the table grew between the pages.
   */
  lemma {:induction false} PagesAreComplete(tables: seq<Table>, q: PageQuery, after: int)
    requires Growing(tables)
    ensures var r := Follow(tables, q, after);
      r.0 == After(r.1, q, after) && ById(r.0) && r.1 in tables && tables[0] <= r.1
    decreases |tables|, |After(tables[0], q, after)|
  {
    hide After, InPage, ById;
    var table, limit := tables[0], PageLimit(q);
    var page := PageOf(table, q, after);
    var r := Follow(tables, q, after);
    if page.next.Some? {
      var cursor := page.next.value;
      var remaining := if |tables| > 1 then tables[1..] else tables;
      CursorSkips(table, q, after, limit - 1);
      PagesAreComplete(remaining, q, cursor);
      var last := r.1;
      GrownFrom(tables, last);
      LaterRowsComeBehind(table, last, q, after);
      var rows := After(last, q, after);
      assert rows[limit - 1] == After(table, q, after)[limit - 1];
      CursorSkips(last, q, after, limit - 1);
      assert rows == rows[..limit] + rows[limit..];
      assert rows[..limit] == page.rows;
    }
    AfterById(r.1, q, after);
  }

  lemma GrownFrom(tables: seq<Table>, last: Table)
    requires Growing(tables) && last in tables
    requires |tables| > 1 ==> tables[1] <= last
    requires |tables| == 1 ==> tables[0] <= last
    ensures tables[0] <= last && ById(last)
  {
    hide ById;
    if |tables| > 1 {
      assert tables[1 - 1] <= tables[1];
    }
  }

  /** One page: the first rows behind the cursor, 500 of them by default, and a cursor exactly when more follow. */
  lemma PageHolds(table: Table, q: PageQuery, after: int)
    ensures var rows, page := After(table, q, after), PageOf(table, q, after);
      var limit := if 1 <= q.limit <= 1000 then q.limit else 500;
      && page.rows == (if |rows| <= limit then rows else rows[..limit])
      && page.next == (if |rows| <= limit then None else Some(rows[limit - 1].point.id))
  {
    hide After;
  }

  /** With no insertions, starting at zero yields every row of the device and period once, by ascending id. */
  lemma PagesYieldEverything(table: Table, q: PageQuery, r: Row)
    requires ById(table)
    ensures var rows := Follow([table], q, 0).0;
      && (forall i, j | 0 <= i < j < |rows| :: rows[i].point.id < rows[j].point.id)
      && (r in rows <==> r in table && r.device == q.device && r.timestamp >= q.from && r.timestamp <= q.to)
  {
    hide Follow;
    PagesAreComplete([table], q, 0);
    AfterMembers(table, q, 0, r);
    IdsPositive(table, r);
  }

  lemma IdsPositive(table: Table, r: Row)
    requires ById(table)
    ensures r in table ==> r.point.id > 0
  {
  }

  lemma {:induction false} AfterMembers(table: Table, q: PageQuery, after: int, r: Row)
    ensures r in After(table, q, after) <==> r in table && InPage(q, r) && r.point.id > after
  {
    hide InPage;
    if table != [] {
      AfterMembers(table[1..], q, after, r);
      assert r in table <==> r == table[0] || r in table[1..];
    }
  }
}
