/** The database half of `SincronizadorGasolineras`: the transactional
    upsert of normalised stations into the `gasolineras` table, the run
    counters, and the audit row in `logs_sincronizacion`. */
module StationSync {
  import opened Common
  import opened StationFeed

  /** `fecha_actualizacion`: an INSERT leaves the column's default, an
      UPDATE sets `CURRENT_TIMESTAMP`. */
  datatype Stamp = ColumnDefault | CurrentTimestamp(at: int)

  datatype Row = Row(station: Station, fechaActualizacion: Stamp)

  /** The `gasolineras` table, keyed by `id_gasolinera`. */
  type Table = map<string, Row>

  /** Every row is stored under its own station id. */
  predicate WellKeyed(t: Table)
  {
    forall k :: k in t ==> t[k].station.id == k
  }

  datatype Counts = Counts(insertadas: nat, actualizadas: nat, errores: nat)

  datatype Status = Exito | Parcial

  /** One row of `logs_sincronizacion`. */
  datatype SyncLog = SyncLog(
    totalGasolineras: nat,
    nuevasGasolineras: nat,
    gasolinerasActualizadas: nat,
    duracionSegundos: real,
    estado: Status)

  /** How the surrounding transaction fares: it may fail to begin, or the
      final commit may fail; either escapes the per-record catch. */
  datatype Fault = NoFault | BeginFails | CommitFails

  /** One pass of the loop body: a record whose statement fails is counted
      as an error and changes nothing; otherwise the SELECT decides between
      INSERT and UPDATE against the table as it stands. */
  function Step(t: Table, c: Counts, s: Station, fails: bool, now: int): (Table, Counts)
  {
    if fails then (t, c.(errores := c.errores + 1))
    else if s.id in t then
      (t[s.id := Row(s, CurrentTimestamp(now))], c.(actualizadas := c.actualizadas + 1))
    else
      (t[s.id := Row(s, ColumnDefault)], c.(insertadas := c.insertadas + 1))
  }

  /** The table and the counters after the loop has run over `batch`, the
      records at the indices in `failures` failing. */
  function Replay(t: Table, batch: seq<Station>, failures: set<nat>, now: int): (Table, Counts)
    decreases |batch|
  {
    if batch == [] then (t, Counts(0, 0, 0))
    else
      var n := |batch| - 1;
      var prev := Replay(t, batch[..n], failures, now);
      Step(prev.0, prev.1, batch[n], n in failures, now)
  }

  /** The ids the batch writes: those of its records that do not fail. */
  function Written(batch: seq<Station>, failures: set<nat>): set<string>
  {
    set i | 0 <= i < |batch| && i !in failures :: batch[i].id
  }

  /** The ids the batch inserts: written ids absent from the table before. */
  function NewIds(t: Table, batch: seq<Station>, failures: set<nat>): set<string>
  {
    set i | 0 <= i < |batch| && i !in failures && batch[i].id !in t :: batch[i].id
  }

  /** The indices of the batch whose statement fails. */
  function FailedIndices(batch: seq<Station>, failures: set<nat>): set<nat>
  {
    set i | 0 <= i < |batch| && i in failures
  }

  lemma WrittenSnoc(batch: seq<Station>, failures: set<nat>)
    requires batch != []
    ensures var n := |batch| - 1;
      Written(batch, failures) ==
        Written(batch[..n], failures) + (if n in failures then {} else {batch[n].id})
  {
    var n := |batch| - 1;
    var lhs := Written(batch, failures);
    var rhs := Written(batch[..n], failures) + (if n in failures then {} else {batch[n].id});
    forall x | x in lhs ensures x in rhs {
      var i :| 0 <= i < |batch| && i !in failures && batch[i].id == x;
      if i < n {
        assert batch[..n][i] == batch[i];
      }
    }
    forall x | x in rhs ensures x in lhs {
      if x in Written(batch[..n], failures) {
        var i :| 0 <= i < n && i !in failures && batch[..n][i].id == x;
        assert batch[i].id == x;
      }
    }
  }

  lemma WrittenMember(batch: seq<Station>, failures: set<nat>, i: nat)
    requires i < |batch| && i !in failures
    ensures batch[i].id in Written(batch, failures)
  {
  }

  /** After the batch, the table holds exactly its old keys and every
      written id. */
  lemma {:induction false} ReplayKeys(t: Table, batch: seq<Station>, failures: set<nat>, now: int)
    ensures Replay(t, batch, failures, now).0.Keys == t.Keys + Written(batch, failures)
    decreases |batch|
  {
    if batch != [] {
      var n := |batch| - 1;
      ReplayKeys(t, batch[..n], failures, now);
      WrittenSnoc(batch, failures);
    }
  }

  /** Stations not written by the batch are left as they were. */
  lemma {:induction false} ReplayUntouched(t: Table, batch: seq<Station>, failures: set<nat>, now: int, k: string)
    requires k !in Written(batch, failures)
    ensures var t' := Replay(t, batch, failures, now).0;
      (k in t' <==> k in t) && (k in t ==> t'[k] == t[k])
    decreases |batch|
  {
    if batch != [] {
      var n := |batch| - 1;
      WrittenSnoc(batch, failures);
      ReplayUntouched(t, batch[..n], failures, now, k);
    }
  }

  /** Each record increments exactly one counter; the errors are the
      failing records. */
  lemma {:induction false} ReplayCounts(t: Table, batch: seq<Station>, failures: set<nat>, now: int)
    ensures var c := Replay(t, batch, failures, now).1;
      c.insertadas + c.actualizadas + c.errores == |batch|
      && c.errores == |FailedIndices(batch, failures)|
    decreases |batch|
  {
    if batch != [] {
      var n := |batch| - 1;
      ReplayCounts(t, batch[..n], failures, now);
      var before := FailedIndices(batch[..n], failures);
      var after := FailedIndices(batch, failures);
      if n in failures {
        assert after == before + {n};
        assert n !in before;
      } else {
        assert after == before;
      }
    }
  }

  lemma NewIdsSnoc(t: Table, batch: seq<Station>, failures: set<nat>)
    requires batch != []
    ensures var n := |batch| - 1;
      NewIds(t, batch, failures) ==
        NewIds(t, batch[..n], failures)
        + (if n in failures || batch[n].id in t then {} else {batch[n].id})
  {
    var n := |batch| - 1;
    var lhs := NewIds(t, batch, failures);
    var rhs := NewIds(t, batch[..n], failures)
      + (if n in failures || batch[n].id in t then {} else {batch[n].id});
    forall x | x in lhs ensures x in rhs {
      var i :| 0 <= i < |batch| && i !in failures && batch[i].id !in t && batch[i].id == x;
      if i < n {
        assert batch[..n][i] == batch[i];
      }
    }
    forall x | x in rhs ensures x in lhs {
      if x in NewIds(t, batch[..n], failures) {
        var i :| 0 <= i < n && i !in failures && batch[..n][i].id !in t && batch[..n][i].id == x;
        assert batch[i].id == x;
      }
    }
  }

  lemma NewIdsWithinWritten(t: Table, batch: seq<Station>, failures: set<nat>)
    ensures NewIds(t, batch, failures) <= Written(batch, failures)
    ensures NewIds(t, batch, failures) !! t.Keys
  {
  }

  /** The number of insertions is the number of distinct new ids: an id
      repeated within the batch is inserted once and then updated. */
  lemma {:induction false} ReplayInsertions(t: Table, batch: seq<Station>, failures: set<nat>, now: int)
    ensures Replay(t, batch, failures, now).1.insertadas == |NewIds(t, batch, failures)|
    decreases |batch|
  {
    if batch != [] {
      var n := |batch| - 1;
      var prev := Replay(t, batch[..n], failures, now);
      ReplayInsertions(t, batch[..n], failures, now);
      ReplayKeys(t, batch[..n], failures, now);
      NewIdsSnoc(t, batch, failures);
      NewIdsWithinWritten(t, batch[..n], failures);
      var id := batch[n].id;
      if n !in failures && id !in t {
        if id in prev.0 {
          assert id in Written(batch[..n], failures);
          var i :| 0 <= i < n && i !in failures && batch[..n][i].id == id;
          assert id in NewIds(t, batch[..n], failures);
        } else {
          assert id !in NewIds(t, batch[..n], failures);
        }
      }
    }
  }

  /** Syncing the same batch a second time inserts nothing, provided no
      record failed the first time. */
  lemma ResyncInsertsNothing(t: Table, batch: seq<Station>, failures: set<nat>, now: int, later: int)
    ensures var t1 := Replay(t, batch, {}, now).0;
      Replay(t1, batch, failures, later).1.insertadas == 0
  {
    var t1 := Replay(t, batch, {}, now).0;
    ReplayKeys(t, batch, {}, now);
    ReplayInsertions(t1, batch, failures, later);
    forall i | 0 <= i < |batch| ensures batch[i].id in t1 {
      WrittenMember(batch, {}, i);
    }
    assert NewIds(t1, batch, failures) == {};
  }

  /** Two records with the same new id in one batch: one insert, then one
      update, and the second record's data is what remains. */
  lemma DuplicateInBatch(t: Table, s1: Station, s2: Station, now: int)
    requires s1.id == s2.id && s1.id !in t
    ensures Replay(t, [s1, s2], {}, now)
      == (t[s1.id := Row(s2, CurrentTimestamp(now))], Counts(1, 1, 0))
  {
    var b := [s1, s2];
    assert b[..1] == [s1];
    assert b[..1][..0] == [];
    assert Replay(t, b[..1][..0], {}, now) == (t, Counts(0, 0, 0));
    var first := Replay(t, b[..1], {}, now);
    assert first == (t[s1.id := Row(s1, ColumnDefault)], Counts(1, 0, 0));
    assert first.0[s1.id := Row(s2, CurrentTimestamp(now))] == t[s1.id := Row(s2, CurrentTimestamp(now))];
  }

  /** Some record before index `i` writes the id of record `i`. */
  predicate EarlierWrite(batch: seq<Station>, failures: set<nat>, i: nat)
    requires i < |batch|
  {
    exists j :: 0 <= j < i && j !in failures && batch[j].id == batch[i].id
  }

  lemma EarlierWritePrefix(batch: seq<Station>, failures: set<nat>, i: nat, n: nat)
    requires i < n <= |batch|
    ensures EarlierWrite(batch[..n], failures, i) <==> EarlierWrite(batch, failures, i)
  {
    if EarlierWrite(batch, failures, i) {
      var j :| 0 <= j < i && j !in failures && batch[j].id == batch[i].id;
      assert batch[..n][j] == batch[j];
    }
    if EarlierWrite(batch[..n], failures, i) {
      var j :| 0 <= j < i && j !in failures && batch[..n][j].id == batch[..n][i].id;
      assert batch[j] == batch[..n][j];
    }
  }

  /** The last record of the batch, when it does not fail, decides its row. */
  lemma LastRecordWrite(t: Table, batch: seq<Station>, failures: set<nat>, now: int)
    requires batch != [] && |batch| - 1 !in failures
    ensures var n := |batch| - 1;
      var t' := Replay(t, batch, failures, now).0;
      && batch[n].id in t'
      && t'[batch[n].id].station == batch[n]
      && (t'[batch[n].id].fechaActualizacion == CurrentTimestamp(now) <==>
           (batch[n].id in t || EarlierWrite(batch, failures, n)))
  {
    var n := |batch| - 1;
    var prev := Replay(t, batch[..n], failures, now).0;
    var id := batch[n].id;
    ReplayKeys(t, batch[..n], failures, now);
    if id in prev && id !in t {
      var j :| 0 <= j < n && j !in failures && batch[..n][j].id == id;
      assert batch[j].id == id;
    }
    if EarlierWrite(batch, failures, n) {
      var j :| 0 <= j < n && j !in failures && batch[j].id == id;
      assert batch[..n][j].id == id;
      WrittenMember(batch[..n], failures, j);
    }
  }

  /** The last successful write of an id decides its row: the station data
      is that record's, and the timestamp is "now" unless the write was the
      first for an id absent from the table. */
  lemma {:induction false} ReplayLastWrite(t: Table, batch: seq<Station>, failures: set<nat>, now: int, i: nat)
    requires i < |batch| && i !in failures
    requires forall j :: i < j < |batch| && j !in failures ==> batch[j].id != batch[i].id
    ensures var t' := Replay(t, batch, failures, now).0;
      && batch[i].id in t'
      && t'[batch[i].id].station == batch[i]
      && (t'[batch[i].id].fechaActualizacion == CurrentTimestamp(now) <==>
           (batch[i].id in t || EarlierWrite(batch, failures, i)))
    decreases |batch|
  {
    var n := |batch| - 1;
    if i == n {
      LastRecordWrite(t, batch, failures, now);
    } else {
      var pre := batch[..n];
      assert pre[i] == batch[i];
      forall j | i < j < |pre| && j !in failures
        ensures pre[j].id != pre[i].id
      {
        assert pre[j] == batch[j];
      }
      ReplayLastWrite(t, pre, failures, now, i);
      EarlierWritePrefix(batch, failures, i, n);
    }
  }

  /** Replaying keeps every row under its own station id. */
  lemma {:induction false} ReplayWellKeyed(t: Table, batch: seq<Station>, failures: set<nat>, now: int)
    requires WellKeyed(t)
    ensures WellKeyed(Replay(t, batch, failures, now).0)
    decreases |batch|
  {
    if batch != [] {
      ReplayWellKeyed(t, batch[..|batch| - 1], failures, now);
    }
  }

  /** `registrarLog`'s status rule. */
  function LogStatus(errores: nat): (s: Status)
    ensures s == Exito <==> errores == 0
  {
    if errores == 0 then Exito else Parcial
  }

  /** The synchroniser object with its `estadisticas` counters, together
      with the two tables it writes. */
  class Synchronizer {
    var gasolineras: Table
    var logs: seq<SyncLog>
    var total: nat
    var insertadas: nat
    var actualizadas: nat
    var errores: nat
    var duracion: real

    ghost predicate Valid()
      reads this
    {
      WellKeyed(gasolineras)
    }

    /** `new SincronizadorGasolineras()` over the tables as they stand. */
    constructor (db: Table, dbLogs: seq<SyncLog>)
      requires WellKeyed(db)
      ensures Valid()
      ensures gasolineras == db && logs == dbLogs
      ensures total == 0 && insertadas == 0 && actualizadas == 0 && errores == 0
      ensures duracion == 0.0
    {
      gasolineras := db;
      logs := dbLogs;
      total, insertadas, actualizadas, errores := 0, 0, 0, 0;
      duracion := 0.0;
    }

    /** `sincronizarConBD`: the loop runs inside one transaction; a fault of
        the transaction itself rolls the table back and is reported as
        `ok == false`. The counters keep what the loop added even then. */
    method SyncWithDb(batch: seq<Station>, failures: set<nat>, fault: Fault, now: int, elapsed: real)
      returns (ok: bool)
      requires Valid()
      modifies this
      ensures Valid()
      ensures ok <==> fault == NoFault
      ensures logs == old(logs)
      ensures var r := Replay(old(gasolineras), batch, failures, now);
        && (ok ==> gasolineras == r.0 && total == |batch| && duracion == elapsed)
        && (!ok ==> gasolineras == old(gasolineras) && total == old(total) && duracion == old(duracion))
        && (fault == BeginFails ==>
              insertadas == old(insertadas) && actualizadas == old(actualizadas) && errores == old(errores))
        && (fault != BeginFails ==>
              && insertadas == old(insertadas) + r.1.insertadas
              && actualizadas == old(actualizadas) + r.1.actualizadas
              && errores == old(errores) + r.1.errores)
    {
      if fault == BeginFails {
        return false;
      }
      var snapshot := gasolineras;
      ghost var ins0, upd0, err0 := insertadas, actualizadas, errores;
      for i := 0 to |batch|
        invariant var r := Replay(snapshot, batch[..i], failures, now);
          && gasolineras == r.0
          && insertadas == ins0 + r.1.insertadas
          && actualizadas == upd0 + r.1.actualizadas
          && errores == err0 + r.1.errores
        invariant WellKeyed(gasolineras)
        invariant logs == old(logs) && total == old(total) && duracion == old(duracion)
      {
        assert batch[..i + 1][..i] == batch[..i];
        var s := batch[i];
        if i in failures {
          errores := errores + 1;
        } else if s.id !in gasolineras {
          gasolineras := gasolineras[s.id := Row(s, ColumnDefault)];
          insertadas := insertadas + 1;
        } else {
          gasolineras := gasolineras[s.id := Row(s, CurrentTimestamp(now))];
          actualizadas := actualizadas + 1;
        }
      }
      assert batch[..|batch|] == batch;
      if fault == CommitFails {
        gasolineras := snapshot;
        return false;
      }
      duracion := elapsed;
      total := |batch|;
      return true;
    }

    /** `registrarLog`: appends one audit row from the counters; a failing
        INSERT is swallowed. */
    method RegisterLog(logFails: bool)
      modifies this`logs
      ensures logs == if logFails then old(logs)
        else old(logs) + [SyncLog(total, insertadas, actualizadas, duracion, LogStatus(errores))]
    {
      if !logFails {
        logs := logs + [SyncLog(total, insertadas, actualizadas, duracion, LogStatus(errores))];
      }
    }

    /** `ejecutar`: fetch (`feed == None` when connecting or fetching
        fails), normalise, synchronise, and log only when the
        synchronisation did not throw. */
    method Run(feed: Option<Feed>, failures: set<nat>, fault: Fault, now: int, elapsed: real, logFails: bool)
      requires Valid()
      modifies this
      ensures Valid()
      ensures feed.None? ==>
        && gasolineras == old(gasolineras) && logs == old(logs) && total == old(total)
        && insertadas == old(insertadas) && actualizadas == old(actualizadas)
        && errores == old(errores) && duracion == old(duracion)
      ensures feed.Some? ==>
        var batch := ProcessFeed(feed.value);
        var r := Replay(old(gasolineras), batch, failures, now);
        && (fault == NoFault ==>
              && gasolineras == r.0 && total == |batch| && duracion == elapsed
              && insertadas == old(insertadas) + r.1.insertadas
              && actualizadas == old(actualizadas) + r.1.actualizadas
              && errores == old(errores) + r.1.errores
              && logs == if logFails then old(logs)
                 else old(logs) + [SyncLog(total, insertadas, actualizadas, duracion, LogStatus(errores))])
        && (fault != NoFault ==>
              && gasolineras == old(gasolineras) && logs == old(logs)
              && total == old(total) && duracion == old(duracion))
        && (fault == BeginFails ==>
              insertadas == old(insertadas) && actualizadas == old(actualizadas) && errores == old(errores))
        && (fault == CommitFails ==>
              && insertadas == old(insertadas) + r.1.insertadas
              && actualizadas == old(actualizadas) + r.1.actualizadas
              && errores == old(errores) + r.1.errores)
    {
      if feed.None? {
        return;
      }
      var batch := ProcessFeed(feed.value);
      var ok := SyncWithDb(batch, failures, fault, now, elapsed);
      if ok {
        RegisterLog(logFails);
      }
    }
  }
}
