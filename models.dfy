/**
 * The station catalog's schema and the store that holds it (the StationHistory table of the
 * SQLite database).
 */
module Models {
  import opened Wrappers

  /** A calendar date as a day number. */
  type Date = int

  /**
   * One row of the ISD station history. USAF and WBAN are NOT NULL; every other column
   * may be NULL.
   */
  datatype StationRecord = StationRecord(
    usaf: string,
    wban: string,
    stationName: Option<string>,
    ctry: Option<string>,
    state: Option<string>,
    icao: Option<string>,
    lat: Option<real>,
    lon: Option<real>,
    elev: Option<real>,
    begin: Option<Date>,
    end: Option<Date>)

  /** The number of columns an insert binds per record (every column except the row id). */
  const FIELD_COUNT: nat := 11

  /** The natural key of a record, indexed UNIQUE. */
  function Key(r: StationRecord): (string, string) {
    (r.usaf, r.wban)
  }

  /** No two rows share a (USAF, WBAN) pair. */
  predicate UniqueKeys(rows: seq<StationRecord>) {
    forall i, j :: 0 <= i < j < |rows| ==> Key(rows[i]) != Key(rows[j])
  }

  /** Errors the store raises on a bulk insert. */
  datatype StoreError =
    | OperationalError  // no such table, or more bound variables than the engine allows
    | IntegrityError    // the UNIQUE (USAF, WBAN) index is violated

  datatype InsertOutcome = Inserted(count: nat) | Failed(error: StoreError)

  /**
   * What one multi-row INSERT statement does. The statement is atomic: it either adds every
   * record of the chunk or none of them.
   */
  function InsertOutcomeOf(tableExists: bool, rows: seq<StationRecord>, maxVariables: nat,
                           chunk: seq<StationRecord>): InsertOutcome
  {
    if !tableExists || |chunk| * FIELD_COUNT > maxVariables then Failed(OperationalError)
    else if !UniqueKeys(rows + chunk) then Failed(IntegrityError)
    else Inserted(|chunk|)
  }

  /** A record whose (USAF, WBAN) pair is already stored cannot be inserted again. */
  lemma DuplicateKeyRejected(tableExists: bool, rows: seq<StationRecord>, maxVariables: nat,
                             chunk: seq<StationRecord>, i: nat, j: nat)
    requires i < |rows| && j < |chunk| && Key(rows[i]) == Key(chunk[j])
    ensures tableExists && |chunk| * FIELD_COUNT <= maxVariables ==>
              InsertOutcomeOf(tableExists, rows, maxVariables, chunk) == Failed(IntegrityError)
  {
    var all := rows + chunk;
    assert all[i] == rows[i] && all[|rows| + j] == chunk[j];
    assert !UniqueKeys(all);
  }

  /** The StationHistory table and the database file it lives in. */
  class StationStore {
    var tableExists: bool
    var rows: seq<StationRecord>
    /** The engine's limit on bound variables per statement (SQLITE_MAX_VARIABLE_NUMBER). */
    const maxVariables: nat

    ghost predicate Valid()
      reads this
    {
      (!tableExists ==> rows == []) && UniqueKeys(rows)
    }

    /** A database handle whose file holds no station table yet. */
    constructor (maxVariables: nat)
      ensures Valid() && !tableExists && rows == [] && this.maxVariables == maxVariables
    {
      tableExists := false;
      rows := [];
      this.maxVariables := maxVariables;
    }

    /** clear_db: delete the database file if present, then create an empty station table. */
    method ClearDb()
      modifies this
      ensures Valid() && tableExists && rows == []
    {
      tableExists := true;
      rows := [];
    }

    /** StationHistory.insert_many(chunk).execute() */
    method InsertMany(chunk: seq<StationRecord>) returns (outcome: InsertOutcome)
      requires Valid()
      modifies this
      ensures Valid() && tableExists == old(tableExists)
      ensures outcome == InsertOutcomeOf(old(tableExists), old(rows), maxVariables, chunk)
      ensures rows == if outcome.Inserted? then old(rows) + chunk else old(rows)
    {
      outcome := InsertOutcomeOf(tableExists, rows, maxVariables, chunk);
      if outcome.Inserted? {
        rows := rows + chunk;
      }
    }
  }
}
