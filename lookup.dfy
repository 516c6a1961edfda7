/**
 * Nearest-station resolution: a planar pre-filter over the catalog, geodesic refinement of the
 * candidates, removal of the 999999 placeholder, selection of the minimum-distance rows, and the
 * batch variant that labels every row of a table of points.
 */
module Lookup {
  import opened Wrappers
  import opened SeqUtil
  import opened Models

  /** The most candidates the planar pre-filter keeps. */
  const CANDIDATE_LIMIT: nat := 100
  /** A station is active when its END date is after today minus two weeks. */
  const ACTIVE_WINDOW_DAYS: int := 14
  /** The placeholder USAF identifier that is never returned as a match. */
  const SENTINEL_USAF: string := "999999"

  /** Errors the pipeline raises. */
  datatype LookupError =
    | NoLocatedStations     // the query found no record with a longitude (the result frame has no columns to rename)
    | MissingCoordinate     // a candidate without a latitude or longitude reached the geodesic distance
    | NoMatch               // single-match mode indexed into an empty result
    | MissingColumn         // the table of points lacks a Latitude or a Longitude column
    | NonNumericCoordinate  // a point's Latitude or Longitude cell is not a number
    | NoPointRows           // a table of points with no rows: the row-wise apply yields a frame, not a list

  /**
   * The geodesic distance in miles between (lat, lon) and (latTarget, lonTarget), and rounding
   * to three decimals; both come from numeric libraries outside this model.
   */
  datatype Measure = Measure(miles: (real, real, real, real) -> real, round3: real -> real)

  /** A candidate station with its refined distance to the target (the distance_miles column). */
  datatype Candidate = Candidate(station: StationRecord, distanceMiles: real)

  /** The single-match result: (USAF, WBAN, distance_miles). */
  datatype Match = Match(usaf: string, wban: string, distanceMiles: real)

  // ---------------------------------------------------------------------------------------
  // Candidate selection

  predicate HasLongitude(r: StationRecord) {
    r.lon.Some?
  }

  /** The WHERE clause: records whose LON is not NULL. */
  function WithLongitude(catalog: seq<StationRecord>): seq<StationRecord> {
    Filter(catalog, HasLongitude)
  }

  /**
   * The ORDER BY key (LON - lonT)^2 + (LAT - latT)^2; NULL when LAT is NULL, since arithmetic on
   * NULL yields NULL.
   */
  function PlanarKey(r: StationRecord, latT: real, lonT: real): Option<real> {
    if r.lat.Some? && r.lon.Some? then
      Some((r.lon.value - lonT) * (r.lon.value - lonT) + (r.lat.value - latT) * (r.lat.value - latT))
    else None
  }

  /** Ascending key order, NULL keys first. */
  predicate KeyLe(a: Option<real>, b: Option<real>) {
    a.None? || (b.Some? && a.value <= b.value)
  }

  /** `s` is in ascending order of `key`. */
  predicate SortedBy(s: seq<StationRecord>, key: StationRecord -> Option<real>) {
    forall i, j :: 0 <= i < j < |s| ==> KeyLe(key(s[i]), key(s[j]))
  }

  /** Prepending an element whose key is no greater than any other keeps a sequence sorted. */
  lemma PrependSorted(h: StationRecord, rest: seq<StationRecord>, key: StationRecord -> Option<real>)
    requires SortedBy(rest, key)
    requires forall y :: y in rest ==> KeyLe(key(h), key(y))
    ensures SortedBy([h] + rest, key)
  {
    var r := [h] + rest;
    forall i, j | 0 <= i < j < |r|
      ensures KeyLe(key(r[i]), key(r[j]))
    {
      assert r[j] == rest[j - 1];
      if i > 0 {
        assert r[i] == rest[i - 1];
      } else {
        assert rest[j - 1] in rest;
      }
    }
  }

  /**
   * When `x` goes after the head of a sorted `s`, every element of the insertion into the tail
   * has a key no smaller than the head's.
   */
  lemma HeadBelowInsertion(x: StationRecord, s: seq<StationRecord>, rest: seq<StationRecord>,
                           key: StationRecord -> Option<real>)
    requires SortedBy(s, key) && s != [] && !KeyLe(key(x), key(s[0]))
    requires multiset(rest) == multiset(s[1..]) + multiset{x}
    ensures forall y :: y in rest ==> KeyLe(key(s[0]), key(y))
  {
    forall y | y in rest
      ensures KeyLe(key(s[0]), key(y))
    {
      assert y in multiset(rest);
      if y != x {
        assert y in multiset(s[1..]);
        var j :| 0 <= j < |s[1..]| && s[1..][j] == y;
        assert s[j + 1] == y;
      }
    }
  }

  /** Inserts `x` before the first element whose key is not smaller. */
  function InsertBy(x: StationRecord, s: seq<StationRecord>, key: StationRecord -> Option<real>): (r: seq<StationRecord>)
    requires SortedBy(s, key)
    ensures SortedBy(r, key)
    ensures multiset(r) == multiset(s) + multiset{x}
  {
    if s == [] || KeyLe(key(x), key(s[0])) then
      PrependSorted(x, s, key);
      [x] + s
    else
      var rest := InsertBy(x, s[1..], key);
      assert s == [s[0]] + s[1..];
      HeadBelowInsertion(x, s, rest, key);
      PrependSorted(s[0], rest, key);
      [s[0]] + rest
  }

  /** A stable sort of the records on `key`. */
  function SortBy(s: seq<StationRecord>, key: StationRecord -> Option<real>): (r: seq<StationRecord>)
    ensures SortedBy(r, key)
    ensures multiset(r) == multiset(s)
  {
    if s == [] then []
    else
      assert s == [s[0]] + s[1..];
      InsertBy(s[0], SortBy(s[1..], key), key)
  }

  /** The ORDER BY on the planar key. */
  function PlanarOrder(latT: real, lonT: real): StationRecord -> Option<real> {
    (r: StationRecord) => PlanarKey(r, latT, lonT)
  }

  /** Cutting a permutation of `s` at k keeps a sub-multiset of `s`, so only records of `s`. */
  lemma CutKeepsRecords(s: seq<StationRecord>, sorted: seq<StationRecord>, k: nat)
    requires multiset(sorted) == multiset(s) && k <= |sorted|
    ensures |sorted| == |s|
    ensures multiset(sorted[..k]) <= multiset(s)
    ensures forall x :: x in sorted[..k] ==> x in s
  {
    assert |multiset(sorted)| == |multiset(s)|;
    var r := sorted[..k];
    assert sorted == r + sorted[k..];
    assert multiset(sorted) == multiset(r) + multiset(sorted[k..]);
    forall x | x in r ensures x in s {
      assert x in multiset(r);
      assert x in multiset(s);
    }
  }

  /**
   * Cutting a sorted permutation of `s` at k keeps a sorted prefix, and nothing it keeps is
   * farther than anything it drops.
   */
  lemma CutKeepsNearest(s: seq<StationRecord>, sorted: seq<StationRecord>, k: nat, key: StationRecord -> Option<real>)
    requires SortedBy(sorted, key) && multiset(sorted) == multiset(s) && k <= |sorted|
    ensures SortedBy(sorted[..k], key)
    ensures forall x, y :: x in multiset(s) - multiset(sorted[..k]) && y in sorted[..k] ==> KeyLe(key(y), key(x))
  {
    var r := sorted[..k];
    assert sorted == r + sorted[k..];
    assert multiset(sorted) == multiset(r) + multiset(sorted[k..]);
    forall x, y | x in multiset(s) - multiset(r) && y in r
      ensures KeyLe(key(y), key(x))
    {
      assert x in multiset(sorted[k..]);
      var j :| k <= j < |sorted| && sorted[j] == x;
      var i :| 0 <= i < k && sorted[i] == y;
    }
  }

  /**
   * The query's result: the records with a longitude, in ascending planar order, capped at
   * CANDIDATE_LIMIT.
   */
  function CappedCandidates(catalog: seq<StationRecord>, latT: real, lonT: real): (r: seq<StationRecord>)
    ensures |r| == Min(CANDIDATE_LIMIT, |WithLongitude(catalog)|)
    ensures forall x :: x in r ==> x in catalog && x.lon.Some?
    ensures multiset(r) <= multiset(WithLongitude(catalog))
    ensures |WithLongitude(catalog)| <= CANDIDATE_LIMIT ==> multiset(r) == multiset(WithLongitude(catalog))
    ensures SortedBy(r, PlanarOrder(latT, lonT))
    ensures forall x, y :: x in multiset(WithLongitude(catalog)) - multiset(r) && y in r ==>
              KeyLe(PlanarKey(y, latT, lonT), PlanarKey(x, latT, lonT))
  {
    var eligible := WithLongitude(catalog);
    var sorted := SortBy(eligible, PlanarOrder(latT, lonT));
    var k := Min(CANDIDATE_LIMIT, |sorted|);
    CutKeepsRecords(eligible, sorted, k);
    CutKeepsNearest(eligible, sorted, k, PlanarOrder(latT, lonT));
    assert k == |sorted| ==> sorted[..k] == sorted;
    sorted[..k]
  }

  /** The record's END date is later than today minus two weeks; a NULL END compares false. */
  predicate IsActive(r: StationRecord, today: Date) {
    r.end.Some? && r.end.value > today - ACTIVE_WINDOW_DAYS
  }

  /**
   * select_closest_stations. With activeOnly the capped candidates are restricted to the active
   * ones afterwards, so a dropped slot is not refilled.
   */
  function SelectClosestStations(catalog: seq<StationRecord>, latT: real, lonT: real,
                                 activeOnly: bool, today: Date): (r: Result<seq<StationRecord>, LookupError>)
    ensures r.Failure? <==> forall x :: x in catalog ==> x.lon.None?
    ensures r.Failure? ==> r.error == NoLocatedStations
    ensures r.Success? ==> |r.value| <= CANDIDATE_LIMIT
    ensures r.Success? ==> IsSubsequence(r.value, CappedCandidates(catalog, latT, lonT))
    ensures r.Success? ==> forall x :: x in r.value <==>
              x in CappedCandidates(catalog, latT, lonT) && (activeOnly ==> IsActive(x, today))
    ensures r.Success? && !activeOnly ==> r.value == CappedCandidates(catalog, latT, lonT)
  {
    if WithLongitude(catalog) == [] then
      assert forall x :: x in catalog ==> x.lon.None?;
      Failure(NoLocatedStations)
    else
      assert WithLongitude(catalog)[0] in catalog;
      var capped := CappedCandidates(catalog, latT, lonT);
      if activeOnly then Success(Filter(capped, (x: StationRecord) => IsActive(x, today)))
      else
        SubsequenceRefl(capped);
        Success(capped)
  }

  // ---------------------------------------------------------------------------------------
  // Refinement

  /** The rounded geodesic distance from a located record to the target. */
  function RowDistance(r: StationRecord, latT: real, lonT: real, m: Measure): real
    requires r.lat.Some? && r.lon.Some?
  {
    m.round3(m.miles(r.lat.value, r.lon.value, latT, lonT))
  }

  /**
   * calc_distance_actual: attaches distance_miles to every row. A row without a latitude or
   * longitude makes the geodesic computation raise.
   */
  function CalcDistanceActual(locations: seq<StationRecord>, latT: real, lonT: real, m: Measure)
    : (r: Result<seq<Candidate>, LookupError>)
    ensures r.Success? <==> forall x :: x in locations ==> x.lat.Some? && x.lon.Some?
    ensures r.Failure? ==> r.error == MissingCoordinate
    ensures r.Success? ==> |r.value| == |locations|
    ensures r.Success? ==> forall i :: 0 <= i < |locations| ==>
              r.value[i].station == locations[i]
              && r.value[i].distanceMiles == RowDistance(locations[i], latT, lonT, m)
  {
    if locations == [] then Success([])
    else
      var x := locations[0];
      if x.lat.None? || x.lon.None? then Failure(MissingCoordinate)
      else
        match CalcDistanceActual(locations[1..], latT, lonT, m)
        case Failure(e) =>
          assert exists y :: y in locations[1..] && (y.lat.None? || y.lon.None?);
          Failure(e)
        case Success(rest) =>
          assert forall y :: y in locations ==> y == x || y in locations[1..];
          Success([Candidate(x, RowDistance(x, latT, lonT, m))] + rest)
  }

  /** The candidates of a lookup before the placeholder filter: selection, then refinement. */
  function RefinedCandidates(catalog: seq<StationRecord>, latT: real, lonT: real,
                             activeOnly: bool, today: Date, m: Measure): Result<seq<Candidate>, LookupError>
  {
    var selected :- SelectClosestStations(catalog, latT, lonT, activeOnly, today);
    CalcDistanceActual(selected, latT, lonT, m)
  }

  // ---------------------------------------------------------------------------------------
  // Exclusion and minimum selection

  predicate NotSentinel(c: Candidate) {
    c.station.usaf != SENTINEL_USAF
  }

  /** Drops the rows whose USAF is the 999999 placeholder. */
  function DropSentinel(rows: seq<Candidate>): (r: seq<Candidate>)
    ensures forall c :: c in r <==> c in rows && c.station.usaf != SENTINEL_USAF
    ensures IsSubsequence(r, rows)
  {
    Filter(rows, NotSentinel)
  }

  /** No row of `rows` is closer than `c`. */
  predicate AtMinimum(c: Candidate, rows: seq<Candidate>) {
    forall o :: o in rows ==> c.distanceMiles <= o.distanceMiles
  }

  /** The smallest distance_miles of a non-empty table. */
  function MinDistance(rows: seq<Candidate>): (d: real)
    requires rows != []
    ensures exists c :: c in rows && c.distanceMiles == d
    ensures forall c :: c in rows ==> d <= c.distanceMiles
  {
    if |rows| == 1 then rows[0].distanceMiles
    else
      var d := MinDistance(rows[1..]);
      assert forall c :: c in rows ==> c == rows[0] || c in rows[1..];
      if rows[0].distanceMiles <= d then rows[0].distanceMiles else d
  }

  /**
   * The rows whose distance_miles equals the minimum. Over an empty table the minimum is NaN,
   * which equals nothing, so the result is empty.
   */
  function Closest(rows: seq<Candidate>): (r: seq<Candidate>)
    ensures forall c :: c in r <==> c in rows && AtMinimum(c, rows)
    ensures r == [] <==> rows == []
    ensures forall a, b :: a in r && b in r ==> a.distanceMiles == b.distanceMiles
    ensures IsSubsequence(r, rows)
  {
    if rows == [] then []
    else
      var d := MinDistance(rows);
      var r := Filter(rows, (c: Candidate) => c.distanceMiles == d);
      var w :| w in rows && w.distanceMiles == d;
      assert w in r;
      r
  }

  /**
   * find_closest in multi-match mode: every surviving candidate at the minimum rounded distance.
   */
  function FindClosest(catalog: seq<StationRecord>, latT: real, lonT: real,
                       activeOnly: bool, today: Date, m: Measure): (r: Result<seq<Candidate>, LookupError>)
    ensures r.Success? <==> RefinedCandidates(catalog, latT, lonT, activeOnly, today, m).Success?
    ensures r.Success? ==> forall c :: c in r.value ==> c.station.usaf != SENTINEL_USAF
    ensures r.Success? ==>
      var refined := RefinedCandidates(catalog, latT, lonT, activeOnly, today, m).value;
      forall c :: c in r.value <==> c in DropSentinel(refined) && AtMinimum(c, DropSentinel(refined))
    ensures r.Success? ==>
      var refined := RefinedCandidates(catalog, latT, lonT, activeOnly, today, m).value;
      (r.value == [] <==> forall c :: c in refined ==> c.station.usaf == SENTINEL_USAF)
    ensures r.Success? ==> forall a, b :: a in r.value && b in r.value ==> a.distanceMiles == b.distanceMiles
  {
    var refined :- RefinedCandidates(catalog, latT, lonT, activeOnly, today, m);
    var survivors := DropSentinel(refined);
    assert survivors == [] <==> forall c :: c in refined ==> c.station.usaf == SENTINEL_USAF by {
      if survivors != [] { assert survivors[0] in survivors; }
    }
    Success(Closest(survivors))
  }

  function ToMatch(c: Candidate): Match {
    Match(c.station.usaf, c.station.wban, c.distanceMiles)
  }

  /**
   * find_closest in single-match mode: (USAF, WBAN, distance_miles) of the first tied row;
   * indexing into an empty result raises.
   */
  function FindClosestTuple(catalog: seq<StationRecord>, latT: real, lonT: real,
                            activeOnly: bool, today: Date, m: Measure): (r: Result<Match, LookupError>)
    ensures FindClosest(catalog, latT, lonT, activeOnly, today, m).Failure? ==>
              r == Failure(FindClosest(catalog, latT, lonT, activeOnly, today, m).error)
    ensures FindClosest(catalog, latT, lonT, activeOnly, today, m) == Success([]) ==> r == Failure(NoMatch)
    ensures r.Success? <==> FindClosest(catalog, latT, lonT, activeOnly, today, m).Success?
                            && FindClosest(catalog, latT, lonT, activeOnly, today, m).value != []
    ensures r.Success? ==> r.value == ToMatch(FindClosest(catalog, latT, lonT, activeOnly, today, m).value[0])
    ensures r.Success? ==> r.value.usaf != SENTINEL_USAF
    ensures r.Success? ==> exists c :: c in FindClosest(catalog, latT, lonT, activeOnly, today, m).value
                                       && r.value == ToMatch(c)
  {
    var closest :- FindClosest(catalog, latT, lonT, activeOnly, today, m);
    if closest == [] then Failure(NoMatch)
    else
      assert closest[0] in closest;
      Success(ToMatch(closest[0]))
  }

  /**
   * Row k is at the minimum distance of `rows` and every row before it is strictly farther: it is
   * the row that `.values[0]` reads from the equality mask of the minimum.
   */
  predicate IsFirstMinimal(rows: seq<Candidate>, k: int) {
    0 <= k < |rows| && AtMinimum(rows[k], rows)
    && forall j :: 0 <= j < k ==> rows[j].distanceMiles > rows[k].distanceMiles
  }

  /** The first row kept by `Closest` is the first row at the minimum distance. */
  lemma ClosestHead(rows: seq<Candidate>)
    requires rows != []
    ensures exists k :: IsFirstMinimal(rows, k) && rows[k] == Closest(rows)[0]
  {
    var d := MinDistance(rows);
    var p := (c: Candidate) => c.distanceMiles == d;
    assert Closest(rows) == Filter(rows, p);
    FilterHead(rows, p);
    var k :| 0 <= k < |rows| && rows[k] == Filter(rows, p)[0] && p(rows[k])
             && forall j :: 0 <= j < k ==> !p(rows[j]);
    forall j | 0 <= j < k
      ensures rows[j].distanceMiles > rows[k].distanceMiles
    {
      assert rows[j] in rows;
    }
    assert IsFirstMinimal(rows, k);
  }

  /**
   * The single match is the first row, in candidate order, that survives the placeholder filter
   * and has the minimum distance; no earlier survivor is as close.
   */
  lemma TupleIsFirstMinimal(catalog: seq<StationRecord>, latT: real, lonT: real,
                            activeOnly: bool, today: Date, m: Measure)
    requires FindClosestTuple(catalog, latT, lonT, activeOnly, today, m).Success?
    ensures RefinedCandidates(catalog, latT, lonT, activeOnly, today, m).Success?
    ensures var survivors := DropSentinel(RefinedCandidates(catalog, latT, lonT, activeOnly, today, m).value);
      exists k :: IsFirstMinimal(survivors, k)
        && ToMatch(survivors[k]) == FindClosestTuple(catalog, latT, lonT, activeOnly, today, m).value
  {
    var refined := RefinedCandidates(catalog, latT, lonT, activeOnly, today, m);
    var closest := FindClosest(catalog, latT, lonT, activeOnly, today, m);
    assert closest.Success? && closest.value != [];
    var survivors := DropSentinel(refined.value);
    assert closest.value == Closest(survivors);
    ClosestHead(survivors);
    var k :| IsFirstMinimal(survivors, k) && survivors[k] == Closest(survivors)[0];
    assert ToMatch(survivors[k]) == FindClosestTuple(catalog, latT, lonT, activeOnly, today, m).value;
  }

  // ---------------------------------------------------------------------------------------
  // Batch resolution

  /** A cell of the table of points read from CSV. */
  datatype Cell = Num(x: real) | Text(s: string) | Empty

  /** A data frame: column labels and rows of cells. */
  datatype Table = Table(columns: seq<string>, rows: seq<seq<Cell>>)

  /** Every row has one cell per column, as in any data frame. */
  predicate Rectangular(t: Table) {
    forall i :: 0 <= i < |t.rows| ==> |t.rows[i]| == |t.columns|
  }

  const RESULT_COLUMNS: seq<string> := ["USAF", "WBAN", "distance_miles"]

  /** The position of the first column labelled `name`. */
  function ColumnIndex(columns: seq<string>, name: string): (r: Option<nat>)
    ensures r.Some? <==> name in columns
    ensures r.Some? ==> r.value < |columns| && columns[r.value] == name
  {
    if columns == [] then None
    else if columns[0] == name then Some(0)
    else match ColumnIndex(columns[1..], name)
      case None => None
      case Some(i) => Some(i + 1)
  }

  /** The resolution of one point, given as (latitude, longitude), to its single match. */
  type Resolver = (real, real) -> Result<Match, LookupError>

  /** The match for one row of points, from its Latitude and Longitude cells. */
  function CellMatch(row: seq<Cell>, latIdx: nat, lonIdx: nat, resolve: Resolver): Result<Match, LookupError>
    requires latIdx < |row| && lonIdx < |row|
  {
    if row[latIdx].Num? && row[lonIdx].Num? then resolve(row[latIdx].x, row[lonIdx].x)
    else Failure(NonNumericCoordinate)
  }

  function MatchCells(mt: Match): seq<Cell> {
    [Text(mt.usaf), Text(mt.wban), Num(mt.distanceMiles)]
  }

  /**
   * The row-wise apply: every row gets the three cells of its match appended; the first row
   * whose resolution fails aborts the whole batch, so no partial table is produced.
   */
  function LabelRows(rows: seq<seq<Cell>>, resolve: seq<Cell> --> Result<Match, LookupError>)
    : (r: Result<seq<seq<Cell>>, LookupError>)
    requires forall i :: 0 <= i < |rows| ==> resolve.requires(rows[i])
    ensures r.Success? <==> forall i :: 0 <= i < |rows| ==> resolve(rows[i]).Success?
    ensures r.Success? ==> |r.value| == |rows|
    ensures r.Success? ==> forall i :: 0 <= i < |rows| ==> r.value[i] == rows[i] + MatchCells(resolve(rows[i]).value)
    ensures r.Failure? ==> exists i :: (0 <= i < |rows| && resolve(rows[i]) == Failure(r.error)
              && forall j :: 0 <= j < i ==> resolve(rows[j]).Success?)
  {
    if rows == [] then Success([])
    else
      match resolve(rows[0])
      case Failure(e) =>
        assert resolve(rows[0]) == Failure(e);
        Failure(e)
      case Success(mt) =>
        match LabelRows(rows[1..], resolve)
        case Failure(e) =>
          var i :| 0 <= i < |rows[1..]| && resolve(rows[1..][i]) == Failure(e)
                   && forall j :: 0 <= j < i ==> resolve(rows[1..][j]).Success?;
          assert rows[i + 1] == rows[1..][i];
          assert forall j :: 0 <= j < i + 1 ==> resolve(rows[j]).Success? by {
            forall j | 0 <= j < i + 1
              ensures resolve(rows[j]).Success?
            {
              if j > 0 { assert rows[j] == rows[1..][j - 1]; }
            }
          }
          Failure(e)
        case Success(rest) =>
          assert forall i :: 1 <= i < |rows| ==> rows[i] == rows[1..][i - 1];
          Success([rows[0] + MatchCells(mt)] + rest)
  }

  /**
   * The intended table transformation of find_closest_csv: checks the two coordinate columns,
   * resolves every row with `resolve` and appends USAF, WBAN and distance_miles; a table with no
   * rows becomes a table with no rows and three more columns.
   */
  function LabelPoints(points: Table, resolve: Resolver): (r: Result<Table, LookupError>)
    requires Rectangular(points)
    ensures "Latitude" !in points.columns || "Longitude" !in points.columns ==> r == Failure(MissingColumn)
    ensures "Latitude" in points.columns && "Longitude" in points.columns ==>
              var latIdx := ColumnIndex(points.columns, "Latitude").value;
              var lonIdx := ColumnIndex(points.columns, "Longitude").value;
              (r.Success? <==> forall i :: 0 <= i < |points.rows| ==>
                 CellMatch(points.rows[i], latIdx, lonIdx, resolve).Success?)
    ensures r.Success? ==> "Latitude" in points.columns && "Longitude" in points.columns
    ensures r.Success? ==> r.value.columns == points.columns + RESULT_COLUMNS
    ensures r.Success? ==> |r.value.rows| == |points.rows| && Rectangular(r.value)
    ensures r.Success? ==> forall i :: 0 <= i < |points.rows| ==>
              r.value.rows[i][..|points.columns|] == points.rows[i]
    ensures r.Success? ==> forall i :: 0 <= i < |points.rows| ==>
              var lat := points.rows[i][ColumnIndex(points.columns, "Latitude").value];
              var lon := points.rows[i][ColumnIndex(points.columns, "Longitude").value];
              lat.Num? && lon.Num? && resolve(lat.x, lon.x).Success?
              && r.value.rows[i][|points.columns|..] == MatchCells(resolve(lat.x, lon.x).value)
  {
    var latIdx := ColumnIndex(points.columns, "Latitude");
    var lonIdx := ColumnIndex(points.columns, "Longitude");
    if latIdx.None? || lonIdx.None? then Failure(MissingColumn)
    else
      var rowMatch := (row: seq<Cell>) requires latIdx.value < |row| && lonIdx.value < |row| =>
        CellMatch(row, latIdx.value, lonIdx.value, resolve);
      var rows :- LabelRows(points.rows, rowMatch);
      assert forall i :: 0 <= i < |rows| ==> rows[i][..|points.columns|] == points.rows[i];
      Success(Table(points.columns + RESULT_COLUMNS, rows))
  }

  /**
   * The table transformation of find_closest_csv as the program performs it: the row-wise apply
   * over a table with both coordinate columns but no rows yields a frame, whose missing `tolist`
   * raises; otherwise the rows are labelled as `LabelPoints` does.
   */
  function LabelTable(points: Table, resolve: Resolver): (r: Result<Table, LookupError>)
    requires Rectangular(points)
    ensures "Latitude" !in points.columns || "Longitude" !in points.columns ==> r == Failure(MissingColumn)
    ensures "Latitude" in points.columns && "Longitude" in points.columns ==>
              var latIdx := ColumnIndex(points.columns, "Latitude").value;
              var lonIdx := ColumnIndex(points.columns, "Longitude").value;
              (r.Success? <==> points.rows != [] && forall i :: 0 <= i < |points.rows| ==>
                 CellMatch(points.rows[i], latIdx, lonIdx, resolve).Success?)
    ensures "Latitude" in points.columns && "Longitude" in points.columns && points.rows == [] ==>
              r == Failure(NoPointRows)
    ensures r.Success? ==> "Latitude" in points.columns && "Longitude" in points.columns
    ensures r.Success? ==> r.value.columns == points.columns + RESULT_COLUMNS
    ensures r.Success? ==> |r.value.rows| == |points.rows| && Rectangular(r.value)
    ensures r.Success? ==> forall i :: 0 <= i < |points.rows| ==>
              r.value.rows[i][..|points.columns|] == points.rows[i]
    ensures r.Success? ==> forall i :: 0 <= i < |points.rows| ==>
              var lat := points.rows[i][ColumnIndex(points.columns, "Latitude").value];
              var lon := points.rows[i][ColumnIndex(points.columns, "Longitude").value];
              lat.Num? && lon.Num? && resolve(lat.x, lon.x).Success?
              && r.value.rows[i][|points.columns|..] == MatchCells(resolve(lat.x, lon.x).value)
  {
    if "Latitude" in points.columns && "Longitude" in points.columns && points.rows == [] then
      Failure(NoPointRows)
    else
      LabelPoints(points, resolve)
  }

  /**
   * find_closest_csv on a table already read: every row is resolved in single-match mode against
   * the same catalog.
   */
  function FindClosestCsv(points: Table, catalog: seq<StationRecord>, activeOnly: bool,
                          today: Date, m: Measure): (r: Result<Table, LookupError>)
    requires Rectangular(points)
    ensures "Latitude" !in points.columns || "Longitude" !in points.columns ==> r == Failure(MissingColumn)
    ensures "Latitude" in points.columns && "Longitude" in points.columns && points.rows == [] ==>
              r == Failure(NoPointRows)
    ensures r.Success? ==> r.value.columns == points.columns + RESULT_COLUMNS
    ensures r.Success? ==> |r.value.rows| == |points.rows|
  {
    LabelTable(points, PointResolver(catalog, activeOnly, today, m))
  }

  /** The single-match lookup of find_closest, as the per-row resolver of find_closest_csv. */
  function PointResolver(catalog: seq<StationRecord>, activeOnly: bool, today: Date, m: Measure): Resolver
  {
    (lat: real, lon: real) => FindClosestTuple(catalog, lat, lon, activeOnly, today, m)
  }

  /**
   * Row i of a labelled table is row i of the input followed by the USAF, WBAN and distance of
   * the closest non-sentinel station to that row's coordinates.
   */
  lemma CsvRowIsClosestMatch(points: Table, catalog: seq<StationRecord>, activeOnly: bool,
                             today: Date, m: Measure, i: nat)
    requires Rectangular(points)
    requires FindClosestCsv(points, catalog, activeOnly, today, m).Success?
    requires i < |points.rows|
    ensures "Latitude" in points.columns && "Longitude" in points.columns
    ensures var lat := points.rows[i][ColumnIndex(points.columns, "Latitude").value];
            var lon := points.rows[i][ColumnIndex(points.columns, "Longitude").value];
            lat.Num? && lon.Num? && FindClosestTuple(catalog, lat.x, lon.x, activeOnly, today, m).Success?
            && FindClosestCsv(points, catalog, activeOnly, today, m).value.rows[i]
               == points.rows[i] + MatchCells(FindClosestTuple(catalog, lat.x, lon.x, activeOnly, today, m).value)
  {
    var row := FindClosestCsv(points, catalog, activeOnly, today, m).value.rows[i];
    assert row == row[..|points.columns|] + row[|points.columns|..];
  }

  /**
   * A table with both coordinate columns is labelled exactly when it has rows and, at every row,
   * both coordinates are numbers and the multi-match lookup there finds at least one station.
   */
  lemma CsvSucceedsIff(points: Table, catalog: seq<StationRecord>, activeOnly: bool, today: Date, m: Measure)
    requires Rectangular(points)
    requires "Latitude" in points.columns && "Longitude" in points.columns
    ensures FindClosestCsv(points, catalog, activeOnly, today, m).Success? <==>
      points.rows != [] && forall i :: 0 <= i < |points.rows| ==>
        var lat := points.rows[i][ColumnIndex(points.columns, "Latitude").value];
        var lon := points.rows[i][ColumnIndex(points.columns, "Longitude").value];
        lat.Num? && lon.Num? && FindClosest(catalog, lat.x, lon.x, activeOnly, today, m).Success?
        && FindClosest(catalog, lat.x, lon.x, activeOnly, today, m).value != []
  {
    var latIdx := ColumnIndex(points.columns, "Latitude").value;
    var lonIdx := ColumnIndex(points.columns, "Longitude").value;
    var resolve := PointResolver(catalog, activeOnly, today, m);
    forall i | 0 <= i < |points.rows|
      ensures CellMatch(points.rows[i], latIdx, lonIdx, resolve).Success? <==>
        var lat := points.rows[i][latIdx];
        var lon := points.rows[i][lonIdx];
        lat.Num? && lon.Num? && FindClosest(catalog, lat.x, lon.x, activeOnly, today, m).Success?
        && FindClosest(catalog, lat.x, lon.x, activeOnly, today, m).value != []
    {
    }
  }

  /**
   * A table of points that has both coordinate columns but no rows fails, where labelling it as
   * intended gives an empty table with the three result columns.
   */
  lemma HeaderOnlyTableFails(points: Table, catalog: seq<StationRecord>, activeOnly: bool, today: Date, m: Measure)
    requires Rectangular(points)
    requires "Latitude" in points.columns && "Longitude" in points.columns && points.rows == []
    ensures FindClosestCsv(points, catalog, activeOnly, today, m) == Failure(NoPointRows)
    ensures LabelPoints(points, PointResolver(catalog, activeOnly, today, m))
            == Success(Table(points.columns + RESULT_COLUMNS, []))
  {
  }
}
