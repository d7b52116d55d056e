/** Storage of group snapshots and past epochs, mls-rs-provider-sqlite/src/group_state.rs. */
module GroupState {
  import opened Bytes

  /** Row identifiers are stored as signed 64-bit integers; a larger one does not convert. */
  const MAX_ROW_ID: nat := 0x7FFF_FFFF_FFFF_FFFF

  type GroupId = ByteSeq

  datatype EpochRecord = EpochRecord(id: nat, data: ByteSeq)

  type EpochTable = map<(GroupId, nat), ByteSeq>

  /** The tables `mls_group` and `epoch`, the latter with the primary key (group_id, epoch_id). */
  datatype Tables = Tables(groups: map<GroupId, ByteSeq>, epochs: EpochTable)

  datatype Write = Write(group: GroupId, snapshot: ByteSeq, inserts: seq<EpochRecord>, updates: seq<EpochRecord>)

  datatype StorageError = SqlEngineError

  // ----- The statements of the transaction -----

  /** `INSERT`: refused when the key exists or does not convert. */
  function InsertEpochs(t: EpochTable, g: GroupId, recs: seq<EpochRecord>): Option<EpochTable>
    decreases |recs|
  {
    if |recs| == 0 then Some(t)
    else if recs[0].id > MAX_ROW_ID || (g, recs[0].id) in t then None
    else InsertEpochs(t[(g, recs[0].id) := recs[0].data], g, recs[1..])
  }

  /** `UPDATE ... WHERE`: changes a row that exists and nothing otherwise. */
  function UpdateEpoch(t: EpochTable, g: GroupId, rec: EpochRecord): EpochTable {
    if (g, rec.id) in t then t[(g, rec.id) := rec.data] else t
  }

  function UpdateEpochs(t: EpochTable, g: GroupId, recs: seq<EpochRecord>): Option<EpochTable>
    decreases |recs|
  {
    if |recs| == 0 then Some(t)
    else if recs[0].id > MAX_ROW_ID then None
    else UpdateEpochs(UpdateEpoch(t, g, recs[0]), g, recs[1..])
  }

  /** `DELETE ... WHERE epoch_id <= last - retention`, with `last` the epoch inserted last. */
  function Prune(t: EpochTable, g: GroupId, inserts: seq<EpochRecord>, retention: nat): EpochTable {
    if |inserts| == 0 || inserts[|inserts| - 1].id < retention then t
    else
      var under := inserts[|inserts| - 1].id - retention;
      map k | k in t && !(k.0 == g && k.1 <= under) :: t[k]
  }

  /** The whole transaction; `None` when a statement is refused. */
  function Transact(t: Tables, retention: nat, w: Write): Option<Tables> {
    var inserted := InsertEpochs(t.epochs, w.group, w.inserts);
    if inserted.None? then None
    else
      var updated := UpdateEpochs(inserted.value, w.group, w.updates);
      if updated.None? then None
      else Some(Tables(t.groups[w.group := w.snapshot], Prune(updated.value, w.group, w.inserts, retention)))
  }

  function EpochLookup(t: EpochTable, g: GroupId, id: nat): Result<Option<ByteSeq>, StorageError> {
    if id > MAX_ROW_ID then Err(SqlEngineError) else Ok(if (g, id) in t then Some(t[(g, id)]) else None)
  }

  class Storage {
    const maxEpochRetention: nat
    var tables: Tables

    constructor (retention: nat)
      ensures maxEpochRetention == retention && tables == Tables(map[], map[])
    {
      maxEpochRetention := retention;
      tables := Tables(map[], map[]);
    }

    /**
     `update_group_state`. The engine may fail at any statement: `fails(n)` says whether the n-th one
     does. Statements work on the transaction; only the commit touches the tables.
     */
    method UpdateGroupState(w: Write, fails: nat -> bool) returns (res: Result<(), StorageError>)
      modifies this`tables
      ensures res.Ok? ==> Transact(old(tables), maxEpochRetention, w) == Some(tables)
      ensures res.Err? ==> tables == old(tables)
      ensures (forall n :: !fails(n)) ==> (res.Ok? <==> Transact(old(tables), maxEpochRetention, w).Some?)
    {
      var statement := 0;
      var maxEpochId: Option<nat> := None;
      if fails(statement) { return Err(SqlEngineError); }
      var groups := tables.groups[w.group := w.snapshot];
      var epochs: EpochTable := tables.epochs;

      var i := 0;
      assert w.inserts[0..] == w.inserts;
      while i < |w.inserts|
        invariant i <= |w.inserts|
        invariant InsertEpochs(epochs, w.group, w.inserts[i..]) == InsertEpochs(tables.epochs, w.group, w.inserts)
        invariant maxEpochId == if i == 0 then None else Some(w.inserts[i - 1].id)
      {
        var rec := w.inserts[i];
        assert w.inserts[i..][1..] == w.inserts[i + 1..];
        maxEpochId := Some(rec.id);
        statement := statement + 1;
        if fails(statement) { return Err(SqlEngineError); }
        if rec.id > MAX_ROW_ID || (w.group, rec.id) in epochs { return Err(SqlEngineError); }
        epochs := epochs[(w.group, rec.id) := rec.data];
        i := i + 1;
      }

      i := 0;
      ghost var inserted: EpochTable := epochs;
      assert w.updates[0..] == w.updates;
      while i < |w.updates|
        invariant i <= |w.updates|
        invariant UpdateEpochs(epochs, w.group, w.updates[i..]) == UpdateEpochs(inserted, w.group, w.updates)
      {
        assert w.updates[i..][1..] == w.updates[i + 1..];
        statement := statement + 1;
        if fails(statement) { return Err(SqlEngineError); }
        if w.updates[i].id > MAX_ROW_ID { return Err(SqlEngineError); }
        epochs := UpdateEpoch(epochs, w.group, w.updates[i]);
        i := i + 1;
      }

      if maxEpochId.Some? && maxEpochId.value >= maxEpochRetention {
        var deleteUnder := maxEpochId.value - maxEpochRetention;
        statement := statement + 1;
        if fails(statement) { return Err(SqlEngineError); }
        epochs := map k | k in epochs && !(k.0 == w.group && k.1 <= deleteUnder) :: epochs[k];
      }

      statement := statement + 1;
      if fails(statement) { return Err(SqlEngineError); }
      tables := Tables(groups, epochs);
      res := Ok(());
    }

    /** `get_epoch_data`. */
    method EpochData(g: GroupId, id: nat) returns (data: Result<Option<ByteSeq>, StorageError>)
      ensures data == EpochLookup(tables.epochs, g, id)
    {
      if id > MAX_ROW_ID { return Err(SqlEngineError); }
      data := Ok(if (g, id) in tables.epochs then Some(tables.epochs[(g, id)]) else None);
    }
  }

  // ----- What every write keeps -----

  lemma {:induction false} InsertEpochsLaw(t: EpochTable, g: GroupId, recs: seq<EpochRecord>, k: (GroupId, nat))
    requires InsertEpochs(t, g, recs).Some?
    ensures var r := InsertEpochs(t, g, recs).value;
            && (k in r <==> k in t || (k.0 == g && HasId(recs, k.1)))
            && (k in t ==> r[k] == t[k])
    decreases |recs|
  {
    if |recs| > 0 {
      InsertEpochsLaw(t[(g, recs[0].id) := recs[0].data], g, recs[1..], k);
      HasIdCons(recs, k.1);
    }
  }

  predicate HasId(recs: seq<EpochRecord>, id: nat) {
    exists i :: 0 <= i < |recs| && recs[i].id == id
  }

  lemma HasIdCons(recs: seq<EpochRecord>, id: nat)
    requires |recs| > 0
    ensures HasId(recs, id) <==> recs[0].id == id || HasId(recs[1..], id)
  {
    if i :| 0 <= i < |recs| && recs[i].id == id {
      if i > 0 { assert recs[1..][i - 1].id == id; }
    }
    if i :| 0 <= i < |recs[1..]| && recs[1..][i].id == id { assert recs[i + 1].id == id; }
  }

  lemma {:induction false} UpdateEpochsLaw(t: EpochTable, g: GroupId, recs: seq<EpochRecord>)
    requires UpdateEpochs(t, g, recs).Some?
    ensures UpdateEpochs(t, g, recs).value.Keys == t.Keys
    ensures forall k :: k in t && k.0 != g ==> UpdateEpochs(t, g, recs).value[k] == t[k]
    decreases |recs|
  {
    if |recs| > 0 { UpdateEpochsLaw(UpdateEpoch(t, g, recs[0]), g, recs[1..]); }
  }

  /** A write adds no epoch but the inserted ones, and touches no row of another group. */
  lemma {:induction false} WriteIsLocal(t: Tables, retention: nat, w: Write, k: (GroupId, nat))
    requires Transact(t, retention, w).Some?
    ensures var r := Transact(t, retention, w).value;
            && r.groups == t.groups[w.group := w.snapshot]
            && (k in r.epochs ==> k in t.epochs || (k.0 == w.group && HasId(w.inserts, k.1)))
            && (k.0 != w.group ==> (k in r.epochs <==> k in t.epochs))
            && (k.0 != w.group && k in t.epochs ==> r.epochs[k] == t.epochs[k])
  {
    InsertEpochsLaw(t.epochs, w.group, w.inserts, k);
    UpdateEpochsLaw(InsertEpochs(t.epochs, w.group, w.inserts).value, w.group, w.updates);
  }

  // ----- Whole runs against a store that forgets nothing -----

  /** Everything ever inserted, with its latest data, and the epoch each group inserted last. */
  datatype History = History(full: EpochTable, last: map<GroupId, nat>)

  function PutAll(t: EpochTable, g: GroupId, recs: seq<EpochRecord>): EpochTable
    decreases |recs|
  {
    if |recs| == 0 then t else PutAll(t[(g, recs[0].id) := recs[0].data], g, recs[1..])
  }

  function AmendAll(t: EpochTable, g: GroupId, recs: seq<EpochRecord>): EpochTable
    decreases |recs|
  {
    if |recs| == 0 then t else AmendAll(UpdateEpoch(t, g, recs[0]), g, recs[1..])
  }

  function Recorded(h: History, w: Write): History {
    History(AmendAll(PutAll(h.full, w.group, w.inserts), w.group, w.updates),
            if |w.inserts| == 0 then h.last else h.last[w.group := w.inserts[|w.inserts| - 1].id])
  }

  /** The inserted ids increase, within the write and beyond the last one of the group. */
  predicate Increasing(h: History, w: Write) {
    && (forall i, j :: 0 <= i < j < |w.inserts| ==> w.inserts[i].id < w.inserts[j].id)
    && (|w.inserts| > 0 && w.group in h.last ==> h.last[w.group] < w.inserts[0].id)
  }

  /** An epoch within `retention` of the last one its group inserted. */
  predicate InWindow(h: History, retention: nat, k: (GroupId, nat)) {
    k.0 in h.last && k.1 <= h.last[k.0] < k.1 + retention
  }

  /** The tables are the unforgetting store seen through the window. */
  ghost predicate Windowed(t: EpochTable, h: History, retention: nat) {
    && (forall k :: k in h.full ==> k.0 in h.last && k.1 <= h.last[k.0])
    && (forall g :: g in h.last ==> (g, h.last[g]) in h.full)
    && (forall k :: k in t <==> k in h.full && InWindow(h, retention, k))
    && (forall k :: k in t ==> t[k] == h.full[k])
  }

  /** One table is another one, less some rows. */
  ghost predicate Within(t: EpochTable, full: EpochTable) {
    forall k :: k in t ==> k in full && t[k] == full[k]
  }

  lemma {:induction false} PutAllWithin(t: EpochTable, full: EpochTable, g: GroupId, recs: seq<EpochRecord>)
    requires Within(t, full) && InsertEpochs(t, g, recs).Some?
    ensures Within(InsertEpochs(t, g, recs).value, PutAll(full, g, recs))
    decreases |recs|
  {
    if |recs| > 0 {
      PutAllWithin(t[(g, recs[0].id) := recs[0].data], full[(g, recs[0].id) := recs[0].data], g, recs[1..]);
    }
  }

  lemma {:induction false} AmendAllWithin(t: EpochTable, full: EpochTable, g: GroupId, recs: seq<EpochRecord>)
    requires Within(t, full) && UpdateEpochs(t, g, recs).Some?
    ensures Within(UpdateEpochs(t, g, recs).value, AmendAll(full, g, recs))
    decreases |recs|
  {
    if |recs| > 0 { AmendAllWithin(UpdateEpoch(t, g, recs[0]), UpdateEpoch(full, g, recs[0]), g, recs[1..]); }
  }

  lemma {:induction false} PutAllKeys(t: EpochTable, g: GroupId, recs: seq<EpochRecord>, k: (GroupId, nat))
    ensures k in PutAll(t, g, recs) <==> k in t || (k.0 == g && HasId(recs, k.1))
    decreases |recs|
  {
    if |recs| > 0 {
      PutAllKeys(t[(g, recs[0].id) := recs[0].data], g, recs[1..], k);
      HasIdCons(recs, k.1);
    }
  }

  lemma {:induction false} AmendAllKeys(t: EpochTable, g: GroupId, recs: seq<EpochRecord>)
    ensures AmendAll(t, g, recs).Keys == t.Keys
    decreases |recs|
  {
    if |recs| > 0 { AmendAllKeys(UpdateEpoch(t, g, recs[0]), g, recs[1..]); }
  }

  /** A successful write with increasing ids keeps the tables the window of the unforgetting store. */
  lemma {:induction false} WriteKeepsWindow(t: Tables, h: History, retention: nat, w: Write)
    requires Windowed(t.epochs, h, retention) && Increasing(h, w) && Transact(t, retention, w).Some?
    ensures Windowed(Transact(t, retention, w).value.epochs, Recorded(h, w), retention)
  {
    hide Transact, InsertEpochs, UpdateEpochs, PutAll, AmendAll;
    var h', t' := Recorded(h, w), Transact(t, retention, w).value.epochs;
    WriteWithin(t, h, retention, w);
    forall k ensures k in h'.full ==> k.0 in h'.last && k.1 <= h'.last[k.0] { WriteRow(t, h, retention, w, k); }
    forall g | g in h'.last ensures (g, h'.last[g]) in h'.full {
      WriteRow(t, h, retention, w, (g, h'.last[g]));
      LastIsRecorded(h, w, g);
    }
    forall k ensures k in t' <==> k in h'.full && InWindow(h', retention, k) { WriteRow(t, h, retention, w, k); }
  }

  lemma LastIsRecorded(h: History, w: Write, g: GroupId)
    requires g in Recorded(h, w).last && (g in h.last ==> (g, h.last[g]) in h.full)
    ensures (g, Recorded(h, w).last[g]) in Recorded(h, w).full
  {
    var k := (g, Recorded(h, w).last[g]);
    PutAllKeys(h.full, w.group, w.inserts, k);
    AmendAllKeys(PutAll(h.full, w.group, w.inserts), w.group, w.updates);
    if g == w.group && |w.inserts| > 0 { assert w.inserts[|w.inserts| - 1].id == k.1; }
  }

  lemma WriteWithin(t: Tables, h: History, retention: nat, w: Write)
    requires Windowed(t.epochs, h, retention) && Transact(t, retention, w).Some?
    ensures Within(Transact(t, retention, w).value.epochs, Recorded(h, w).full)
  {
    var inserted := InsertEpochs(t.epochs, w.group, w.inserts).value;
    PutAllWithin(t.epochs, h.full, w.group, w.inserts);
    AmendAllWithin(inserted, PutAll(h.full, w.group, w.inserts), w.group, w.updates);
  }

  /** One key of the epoch table, before and after a write. */
  lemma WriteRow(t: Tables, h: History, retention: nat, w: Write, k: (GroupId, nat))
    requires Windowed(t.epochs, h, retention) && Increasing(h, w) && Transact(t, retention, w).Some?
    ensures var h', t' := Recorded(h, w), Transact(t, retention, w).value.epochs;
            && (k in h'.full ==> k.0 in h'.last && k.1 <= h'.last[k.0])
            && (k in t' <==> k in h'.full && InWindow(h', retention, k))
  {
    hide InsertEpochs, UpdateEpochs, PutAll, AmendAll;
    var inserted := InsertEpochs(t.epochs, w.group, w.inserts).value;
    InsertEpochsLaw(t.epochs, w.group, w.inserts, k);
    UpdateEpochsLaw(inserted, w.group, w.updates);
    PutAllKeys(h.full, w.group, w.inserts, k);
    AmendAllKeys(PutAll(h.full, w.group, w.inserts), w.group, w.updates);
    if k.0 == w.group && HasId(w.inserts, k.1) {
      var i :| 0 <= i < |w.inserts| && w.inserts[i].id == k.1;
      assert i < |w.inserts| - 1 ==> w.inserts[i].id < w.inserts[|w.inserts| - 1].id;
    }
    if |w.inserts| > 1 { assert w.inserts[0].id < w.inserts[|w.inserts| - 1].id; }
  }

  /** A run: writes that the engine lets through or fails, in any order of groups. */
  datatype Attempt = Attempt(write: Write, fails: bool)

  function RunTables(t: Tables, retention: nat, run: seq<Attempt>): Tables
    decreases |run|
  {
    if |run| == 0 then t
    else
      var r := Transact(t, retention, run[0].write);
      RunTables(if run[0].fails || r.None? then t else r.value, retention, run[1..])
  }

  function RunHistory(t: Tables, h: History, retention: nat, run: seq<Attempt>): History
    decreases |run|
  {
    if |run| == 0 then h
    else
      var r := Transact(t, retention, run[0].write);
      if run[0].fails || r.None? then RunHistory(t, h, retention, run[1..])
      else RunHistory(r.value, Recorded(h, run[0].write), retention, run[1..])
  }

  /** Every write that goes through has increasing ids. */
  predicate IncreasingRun(t: Tables, h: History, retention: nat, run: seq<Attempt>)
    decreases |run|
  {
    |run| == 0 ||
    var r := Transact(t, retention, run[0].write);
    if run[0].fails || r.None? then IncreasingRun(t, h, retention, run[1..])
    else Increasing(h, run[0].write) && IncreasingRun(r.value, Recorded(h, run[0].write), retention, run[1..])
  }

  lemma {:induction false} RunKeepsWindow(t: Tables, h: History, retention: nat, run: seq<Attempt>)
    requires Windowed(t.epochs, h, retention) && IncreasingRun(t, h, retention, run)
    ensures Windowed(RunTables(t, retention, run).epochs, RunHistory(t, h, retention, run), retention)
    decreases |run|
  {
    hide Windowed, Transact, Recorded, Increasing;
    if |run| > 0 {
      var r := Transact(t, retention, run[0].write);
      if run[0].fails || r.None? {
        RunKeepsWindow(t, h, retention, run[1..]);
      } else {
        WriteKeepsWindow(t, h, retention, run[0].write);
        RunKeepsWindow(r.value, Recorded(h, run[0].write), retention, run[1..]);
      }
    }
  }

  // ----- Consequences for one group -----

  function Ids(t: EpochTable, g: GroupId): set<nat> {
    set k | k in t && k.0 == g :: k.1
  }

  /** The answer of `SELECT MAX(epoch_id)`. */
  ghost predicate IsMaxEpoch(t: EpochTable, g: GroupId, answer: Option<nat>) {
    match answer
    case None => Ids(t, g) == {}
    case Some(m) => m in Ids(t, g) && forall id :: id in Ids(t, g) ==> id <= m
  }

  lemma {:induction false} IntervalSize(s: set<nat>, lo: int, n: nat)
    requires forall x :: x in s ==> lo < x <= lo + n
    ensures |s| <= n
  {
    if n == 0 {
      assert s == {};
    } else if lo + n >= 0 {
      var s' := s - {lo + n};
      IntervalSize(s', lo, n - 1);
      assert s <= s' + {lo + n};
    } else {
      assert s == {};
    }
  }

  /**
   After every run from an empty store whose ids increase: each group holds at most `retention`
   epochs, all in the window that ends at the last inserted id, each with its latest data; and the
   largest stored id is the last inserted one whenever anything is retained at all.
   */
  lemma {:induction false} RetentionTheorem(retention: nat, run: seq<Attempt>, g: GroupId)
    requires IncreasingRun(Tables(map[], map[]), History(map[], map[]), retention, run)
    ensures var t := RunTables(Tables(map[], map[]), retention, run).epochs;
            var h := RunHistory(Tables(map[], map[]), History(map[], map[]), retention, run);
            && |Ids(t, g)| <= retention
            && (forall id :: id in Ids(t, g) <==> (g, id) in h.full && InWindow(h, retention, (g, id)))
            && (forall id :: id in Ids(t, g) ==> t[(g, id)] == h.full[(g, id)])
            && (g in h.last && retention >= 1 ==> IsMaxEpoch(t, g, Some(h.last[g])))
            && (g !in h.last || retention == 0 ==> IsMaxEpoch(t, g, None))
  {
    var t0, h0 := Tables(map[], map[]), History(map[], map[]);
    RunKeepsWindow(t0, h0, retention, run);
    var t, h := RunTables(t0, retention, run).epochs, RunHistory(t0, h0, retention, run);
    forall id ensures id in Ids(t, g) <==> (g, id) in t {}
    if g in h.last {
      IntervalSize(Ids(t, g), h.last[g] - retention, retention);
    } else {
      assert Ids(t, g) == {};
    }
  }

  /**
   What a caller reads after any such run: the latest data of every epoch the group inserted within the
   window, and nothing of the others.
   */
  lemma {:induction false} ReadAfterRun(retention: nat, run: seq<Attempt>, g: GroupId, id: nat)
    requires IncreasingRun(Tables(map[], map[]), History(map[], map[]), retention, run) && id <= MAX_ROW_ID
    ensures var h := RunHistory(Tables(map[], map[]), History(map[], map[]), retention, run);
            EpochLookup(RunTables(Tables(map[], map[]), retention, run).epochs, g, id)
            == Ok(if (g, id) in h.full && g in h.last && h.last[g] < id + retention then Some(h.full[(g, id)])
                  else None)
  {
    RunKeepsWindow(Tables(map[], map[]), History(map[], map[]), retention, run);
  }
}
