/**
 * The bulk load of the station catalog (populate_db): the record list is inserted in
 * consecutive chunks of at most CHUNK_SIZE records, stopping at the first store error.
 */
module DbTools {
  import opened Wrappers
  import opened SeqUtil
  import opened Models

  /** Records per INSERT statement, to stay under the engine's bound-variable limit. */
  const CHUNK_SIZE: nat := 10000

  /**
   * The chunks the loop of populate_db visits from index `start`, with its guard as written:
   * a chunk starts only while `start < |list| - 1`.
   */
  function ChunksFrom<T>(list: seq<T>, start: nat): seq<seq<T>>
    decreases |list| - start
  {
    if start < |list| - 1 then
      [list[start..Min(start + CHUNK_SIZE, |list|)]] + ChunksFrom(list, start + CHUNK_SIZE)
    else []
  }

  function Chunks<T>(list: seq<T>): seq<seq<T>> {
    ChunksFrom(list, 0)
  }

  /**
   * How many leading records the chunks from `start` cover: none when at most one record is
   * left, all but the last when the distance to the last record is a multiple of CHUNK_SIZE,
   * and all of them otherwise.
   */
  function CoveredFrom(start: nat, n: nat): nat
    requires start <= n
  {
    if n - start <= 1 then start
    else if (n - 1 - start) % CHUNK_SIZE == 0 then n - 1
    else n
  }

  /** The number of records populate_db inserts from a list of `n` records when no insert fails. */
  function CoveredLength(n: nat): nat {
    CoveredFrom(0, n)
  }

  /** Each chunk is the contiguous slice list[start + i*CHUNK_SIZE .. min(start + (i+1)*CHUNK_SIZE, |list|)], never empty and never over CHUNK_SIZE. */
  lemma {:induction false} ChunkShape<T>(list: seq<T>, start: nat, i: nat)
    requires i < |ChunksFrom(list, start)|
    ensures start + i * CHUNK_SIZE < |list| - 1
    ensures ChunksFrom(list, start)[i]
         == list[start + i * CHUNK_SIZE .. Min(start + (i + 1) * CHUNK_SIZE, |list|)]
    ensures 1 <= |ChunksFrom(list, start)[i]| <= CHUNK_SIZE
    decreases i
  {
    if i > 0 {
      ChunkShape(list, start + CHUNK_SIZE, i - 1);
    }
  }

  /** The chunks after the first k are the chunks from index k*CHUNK_SIZE: the loop index advances by exactly CHUNK_SIZE. */
  lemma {:induction false} ChunksDrop<T>(list: seq<T>, start: nat, k: nat)
    requires k <= |ChunksFrom(list, start)|
    ensures ChunksFrom(list, start)[k..] == ChunksFrom(list, start + k * CHUNK_SIZE)
    decreases k
  {
    if k > 0 {
      ChunksDrop(list, start + CHUNK_SIZE, k - 1);
      assert ChunksFrom(list, start)[k..] == ChunksFrom(list, start + CHUNK_SIZE)[k - 1..];
    }
  }

  /** The first k chunks, put together, are exactly the records from `start` up to start + k*CHUNK_SIZE. */
  lemma {:induction false} ChunksPrefix<T>(list: seq<T>, start: nat, k: nat)
    requires start <= |list|
    requires k <= |ChunksFrom(list, start)|
    ensures Concat(ChunksFrom(list, start)[..k]) == list[start..Min(start + k * CHUNK_SIZE, |list|)]
    decreases k
  {
    if k > 0 {
      var cs := ChunksFrom(list, start);
      var next := Min(start + CHUNK_SIZE, |list|);
      assert cs[..k][1..] == ChunksFrom(list, start + CHUNK_SIZE)[..k - 1];
      if k == 1 {
        assert cs[..k][1..] == [];
      } else {
        assert next == start + CHUNK_SIZE;
        ChunksPrefix(list, next, k - 1);
        assert list[start..Min(start + k * CHUNK_SIZE, |list|)]
            == list[start..next] + list[next..Min(start + k * CHUNK_SIZE, |list|)];
      }
    }
  }

  /** A k-th chunk exists exactly when the loop guard holds at index k*CHUNK_SIZE. */
  lemma {:induction false} ChunkCount<T>(list: seq<T>, start: nat, k: nat)
    ensures k < |ChunksFrom(list, start)| <==> start + k * CHUNK_SIZE < |list| - 1
    decreases k
  {
    if k > 0 && start < |list| - 1 {
      ChunkCount(list, start + CHUNK_SIZE, k - 1);
    }
  }

  /** All chunks together cover exactly list[start..CoveredFrom(start, |list|)]. */
  lemma {:induction false} ChunksCoverFrom<T>(list: seq<T>, start: nat)
    requires start <= |list|
    ensures Concat(ChunksFrom(list, start)) == list[start..CoveredFrom(start, |list|)]
    decreases |list| - start
  {
    var n := |list|;
    if start < n - 1 {
      var next := start + CHUNK_SIZE;
      if next >= n {
        assert ChunksFrom(list, next) == [];
        assert (n - 1 - start) % CHUNK_SIZE != 0;
      } else {
        ChunksCoverFrom(list, next);
        if n - next > 1 {
          assert (n - 1 - next) % CHUNK_SIZE == (n - 1 - start) % CHUNK_SIZE;
        }
        assert list[start..CoveredFrom(start, n)] == list[start..next] + list[next..CoveredFrom(next, n)];
      }
    }
  }

  /** populate_db, when no insert fails, stores exactly the first CoveredLength(|list|) records. */
  lemma ChunksCover<T>(list: seq<T>)
    ensures Concat(Chunks(list)) == list[..CoveredLength(|list|)]
  {
    ChunksCoverFrom(list, 0);
  }

  /** An empty or one-record list inserts nothing. */
  lemma ShortListInsertsNothing<T>(list: seq<T>)
    requires |list| <= 1
    ensures Chunks(list) == [] && CoveredLength(|list|) == 0
  {
  }

  /**
   * The guard `current_index < len - 1` loses the last record whenever len - 1 is a multiple of
   * CHUNK_SIZE: the concatenated chunks stop one record short.
   */
  lemma LastRecordSkipped<T>(list: seq<T>)
    requires |list| >= 1 && (|list| - 1) % CHUNK_SIZE == 0
    ensures |Concat(Chunks(list))| == |list| - 1
  {
    ChunksCover(list);
  }

  /** The chunks the loop would visit with the guard `start < |list|`. */
  function FixedChunksFrom<T>(list: seq<T>, start: nat): seq<seq<T>>
    decreases |list| - start
  {
    if start < |list| then
      [list[start..Min(start + CHUNK_SIZE, |list|)]] + FixedChunksFrom(list, start + CHUNK_SIZE)
    else []
  }

  /** With the corrected guard every record from `start` on is inserted, each exactly once and in order. */
  lemma {:induction false} FixedChunksCoverAll<T>(list: seq<T>, start: nat)
    requires start <= |list|
    ensures Concat(FixedChunksFrom(list, start)) == list[start..]
    ensures forall c :: c in FixedChunksFrom(list, start) ==> 1 <= |c| <= CHUNK_SIZE
    decreases |list| - start
  {
    if start < |list| {
      var next := Min(start + CHUNK_SIZE, |list|);
      FixedChunksCoverAll(list, next);
      if next == |list| {
        assert FixedChunksFrom(list, start + CHUNK_SIZE) == [];
      }
      assert list[start..] == list[start..next] + list[next..];
    }
  }

  /**
   * One turn of populate_db's loop: while the cursor is below the last index, the slice taken at
   * it is the next chunk, and it extends the inserted prefix by exactly that chunk.
   */
  lemma ChunkStep<T>(list: seq<T>, done: nat)
    requires done * CHUNK_SIZE < |list| - 1
    ensures done < |Chunks(list)|
    ensures Chunks(list)[done]
            == if done * CHUNK_SIZE + CHUNK_SIZE > |list| - 1 then list[done * CHUNK_SIZE..]
               else list[done * CHUNK_SIZE..done * CHUNK_SIZE + CHUNK_SIZE]
    ensures list[..Min(done * CHUNK_SIZE + CHUNK_SIZE, |list|)] == list[..done * CHUNK_SIZE] + Chunks(list)[done]
  {
    ChunkCount(list, 0, done);
    ChunkShape(list, 0, done);
  }

  /** When populate_db's loop stops on its guard, every chunk has been taken. */
  lemma ChunksExhausted<T>(list: seq<T>, done: nat)
    requires |list| - 1 <= done * CHUNK_SIZE
    requires done <= |Chunks(list)|
    ensures done == |Chunks(list)|
    ensures list[..Min(done * CHUNK_SIZE, |list|)] == list[..CoveredLength(|list|)]
  {
    ChunkCount(list, 0, done);
    ChunksPrefix(list, 0, done);
    ChunksCover(list);
    assert Chunks(list)[..done] == Chunks(list);
  }

  /**
   * populate_db over an already-read record list. It returns how many chunks were inserted and
   * the store error it caught and logged, if any; the error is never raised to the caller.
   */
  method PopulateDb(store: StationStore, stationList: seq<StationRecord>)
    returns (done: nat, failure: Option<StoreError>)
    requires store.Valid()
    modifies store
    ensures store.Valid() && store.tableExists == old(store.tableExists)
    ensures done <= |Chunks(stationList)|
    ensures store.rows == old(store.rows) + stationList[..Min(done * CHUNK_SIZE, |stationList|)]
    ensures failure.None? <==> done == |Chunks(stationList)|
    ensures failure.None? ==> store.rows == old(store.rows) + stationList[..CoveredLength(|stationList|)]
    ensures failure.Some? ==>
      InsertOutcomeOf(store.tableExists, store.rows, store.maxVariables, Chunks(stationList)[done])
        == Failed(failure.value)
  {
    var currentIndex := 0;
    done, failure := 0, None;
    while currentIndex < |stationList| - 1
      invariant currentIndex == done * CHUNK_SIZE
      invariant done <= |Chunks(stationList)|
      invariant store.Valid() && store.tableExists == old(store.tableExists)
      invariant store.rows == old(store.rows) + stationList[..Min(currentIndex, |stationList|)]
      invariant failure == None
      decreases |stationList| - currentIndex
    {
      var endIndex := currentIndex + CHUNK_SIZE;
      var stationChunk;
      if endIndex > |stationList| - 1 {
        stationChunk := stationList[currentIndex..];
      } else {
        stationChunk := stationList[currentIndex..endIndex];
      }
      ChunkStep(stationList, done);
      var outcome := store.InsertMany(stationChunk);
      if outcome.Failed? {
        failure := Some(outcome.error);
        break;
      }
      done := done + 1;
      currentIndex := endIndex;
    }
    if failure.None? {
      ChunksExhausted(stationList, done);
    }
  }

}
