/**
 * The `shell` migration driver over an abstract Postgres backend: the
 * handle's lock flag, the advisory locks held by its connection, the version
 * table and the schema reset. Every backend call is a step whose success or
 * failure is an argument of the method that makes it.
 */
module ShellDriver {
  import opened Wrappers
  import opened Store

  /** `DefaultMigrationsTable`. */
  const DefaultMigrationsTable: string := "schema_migrations"

  /** The driver's configuration (the statement timeout is not modelled). */
  datatype Config = Config(migrationsTable: string, databaseName: string, schemaName: string)

  /** `WithInstance` falls back to the default table name when none is configured. */
  function WithDefaultTable(config: Config): (r: Config)
    ensures r.migrationsTable != ""
    ensures config.migrationsTable != "" ==> r == config
    ensures config.migrationsTable == "" ==> r.migrationsTable == DefaultMigrationsTable
    ensures r.databaseName == config.databaseName && r.schemaName == config.schemaName
  {
    if |config.migrationsTable| == 0 then config.(migrationsTable := DefaultMigrationsTable) else config
  }

  /** How the backend answers the statements of one `SetVersion` transaction. */
  datatype TxReplies = TxReplies(beginOk: bool, truncateOk: bool, insertOk: bool, commitOk: bool, rollbackOk: bool)

  /** Combines the error of a body with that of its deferred cleanup, as `ensureVersionTable` does. */
  function WithCleanup(err: Option<Error>, cleanup: Option<Error>): (r: Option<Error>)
    ensures r.None? <==> err.None? && cleanup.None?
    ensures cleanup.None? ==> r == err
    ensures err.None? ==> r == cleanup
    ensures err.Some? && cleanup.Some? ==>
              && r.Some? && r.value.Multi? && |r.value.errors| > 0
              && r.value.errors[|r.value.errors| - 1] == cleanup.value
              && (!err.value.Multi? ==> r.value == Multi([err.value, cleanup.value]))
  {
    if cleanup.None? then err
    else if err.None? then cleanup
    else Some(Append(err, cleanup.value))
  }

  /** The server as seen through the driver's one connection. */
  class Database {
    /** The current schema. */
    var schema: Schema
    /** The session-level advisory locks the connection holds; they stack. */
    var advisoryLocks: multiset<int>

    constructor (schema: Schema)
      ensures this.schema == schema && advisoryLocks == multiset{}
    {
      this.schema := schema;
      advisoryLocks := multiset{};
    }
  }

  /** A `Shell` driver handle. */
  class Shell {
    const config: Config
    /** `database.GenerateAdvisoryLockId`: deterministic, possibly failing, otherwise opaque. */
    const lockIdOf: (string, string) -> Option<int>
    /** Lock, unlock and the version statements all go over this one connection. */
    const db: Database
    var isLocked: bool

    /** The advisory lock id of this handle; it depends only on the database and schema names. */
    function LockId(): Option<int>
    {
      lockIdOf(config.databaseName, config.schemaName)
    }

    /** The handle believes it holds the lock only when its connection really holds it. */
    ghost predicate Valid()
      reads this, db
    {
      && Coherent(db.schema)
      && config.migrationsTable != ""
      && (isLocked ==> LockId().Some? && LockId().value in db.advisoryLocks)
    }

    /** The handle `WithInstance` builds before ensuring the version table. */
    constructor (config: Config, lockIdOf: (string, string) -> Option<int>, db: Database)
      requires Coherent(db.schema)
      ensures Valid()
      ensures this.config == WithDefaultTable(config) && this.lockIdOf == lockIdOf && this.db == db
      ensures !isLocked
    {
      this.config := WithDefaultTable(config);
      this.lockIdOf := lockIdOf;
      this.db := db;
      isLocked := false;
    }

    /** `Lock`: refuses a second lock on this handle; the flag is set only once the lock is held. */
    method Lock(acquireOk: bool) returns (err: Option<Error>)
      requires Valid()
      modifies this`isLocked, db`advisoryLocks
      ensures Valid()
      ensures err.None? <==> !old(isLocked) && LockId().Some? && acquireOk
      ensures old(isLocked) ==> err == Some(ErrLocked)
      ensures !old(isLocked) && LockId().None? ==> err == Some(LockIdFailed)
      ensures !old(isLocked) && LockId().Some? && !acquireOk ==>
                err == Some(QueryFailed(AdvisoryLock(LockId().value), false))
      ensures isLocked == (old(isLocked) || err.None?)
      ensures db.advisoryLocks ==
                if err.None? then old(db.advisoryLocks) + multiset{LockId().value} else old(db.advisoryLocks)
    {
      if isLocked {
        return Some(ErrLocked);
      }
      var aid := lockIdOf(config.databaseName, config.schemaName);
      if aid.None? {
        return Some(LockIdFailed);
      }
      // pg_advisory_lock waits until the lock is free; only a backend error ends it early.
      if !acquireOk {
        return Some(QueryFailed(AdvisoryLock(aid.value), false));
      }
      db.advisoryLocks := db.advisoryLocks + multiset{aid.value};
      isLocked := true;
      return None;
    }

    /**
     * `Unlock`: nothing to do when not locked; otherwise it releases the id
     * `Lock` acquired and clears the flag only if the release succeeds.
     * Generating the id again cannot fail here: `Lock` generated it for the
     * same names, and `Valid` records that it succeeded.
     */
    method Unlock(releaseOk: bool) returns (err: Option<Error>)
      requires Valid()
      modifies this`isLocked, db`advisoryLocks
      ensures Valid()
      ensures !old(isLocked) ==> err.None? && !isLocked && db.advisoryLocks == old(db.advisoryLocks)
      ensures old(isLocked) && releaseOk ==>
                && err.None? && !isLocked
                && db.advisoryLocks == old(db.advisoryLocks) - multiset{LockId().value}
      ensures old(isLocked) && !releaseOk ==>
                && err == Some(QueryFailed(AdvisoryUnlock(LockId().value), false))
                && isLocked && db.advisoryLocks == old(db.advisoryLocks)
    {
      if !isLocked {
        return None;
      }
      var aid := lockIdOf(config.databaseName, config.schemaName).value;
      if !releaseOk {
        return Some(QueryFailed(AdvisoryUnlock(aid), false));
      }
      db.advisoryLocks := db.advisoryLocks - multiset{aid};
      isLocked := false;
      return None;
    }

    /**
     * `ensureVersionTable`: lock, create the migrations table if it is missing,
     * then unlock whatever happened to the create. A failed unlock leaves the
     * handle locked and its error is added to the create's.
     */
    method EnsureVersionTable(acquireOk: bool, createOk: bool, releaseOk: bool) returns (err: Option<Error>)
      requires Valid()
      modifies this`isLocked, db
      ensures Valid()
      ensures old(isLocked) ==>
                && err == Some(ErrLocked) && isLocked
                && db.schema == old(db.schema) && db.advisoryLocks == old(db.advisoryLocks)
      ensures !old(isLocked) && !(LockId().Some? && acquireOk) ==>
                && err.Some? && !isLocked
                && db.schema == old(db.schema) && db.advisoryLocks == old(db.advisoryLocks)
      ensures !old(isLocked) && LockId().Some? && acquireOk ==>
                && db.schema == (if createOk then CreateTable(old(db.schema), config.migrationsTable) else old(db.schema))
                && isLocked == !releaseOk
                && db.advisoryLocks ==
                     (if releaseOk then old(db.advisoryLocks) else old(db.advisoryLocks) + multiset{LockId().value})
                && err == WithCleanup(
                            if createOk then None else Some(QueryFailed(CreateVersionTable(config.migrationsTable), false)),
                            if releaseOk then None else Some(QueryFailed(AdvisoryUnlock(LockId().value), false)))
      ensures err.None? <==> !old(isLocked) && LockId().Some? && acquireOk && createOk && releaseOk
      ensures err.None? ==> config.migrationsTable in db.schema.tables
    {
      err := Lock(acquireOk);
      if err.Some? {
        return;
      }
      ghost var locked := db.advisoryLocks;
      var createErr: Option<Error> := None;
      if createOk {
        db.schema := CreateTable(db.schema, config.migrationsTable);
      } else {
        createErr := Some(QueryFailed(CreateVersionTable(config.migrationsTable), false));
      }
      var unlockErr := Unlock(releaseOk);
      assert releaseOk ==> db.advisoryLocks == locked - multiset{LockId().value};
      assert locked - multiset{LockId().value} == old(db.advisoryLocks);
      err := WithCleanup(createErr, unlockErr);
    }

    /**
     * `SetVersion`: in one transaction, empty the migrations table and insert
     * `(version, dirty)` when `ShouldInsert` holds. A failure at any step
     * rolls back and the table keeps its prior contents.
     */
    method SetVersion(version: int, dirty: bool, replies: TxReplies) returns (err: Option<Error>)
      requires Valid()
      modifies db`schema
      ensures Valid()
      ensures err.None? <==>
                && replies.beginOk
                && config.migrationsTable in old(db.schema).rows && replies.truncateOk
                && (ShouldInsert(version, dirty) ==> replies.insertOk)
                && replies.commitOk
      ensures err.None? ==> db.schema == WriteVersion(old(db.schema), config.migrationsTable, version, dirty)
      ensures err.Some? ==> db.schema == old(db.schema)
      ensures !replies.beginOk ==> err == Some(TxStartFailed)
    {
      if !replies.beginOk {
        return Some(TxStartFailed);
      }
      var t := config.migrationsTable;
      var tx := db.schema;  // what the transaction sees; published on commit
      // TRUNCATE of a missing table fails with undefined_table.
      if t !in tx.rows || !replies.truncateOk {
        return Some(QueryFailed(Truncate(t), !replies.rollbackOk));
      }
      tx := tx.(rows := tx.rows[t := []]);
      if ShouldInsert(version, dirty) {
        if !replies.insertOk {
          return Some(QueryFailed(InsertVersion(t, Row(version, dirty)), !replies.rollbackOk));
        }
        tx := tx.(rows := tx.rows[t := tx.rows[t] + [Row(version, dirty)]]);
      }
      if !replies.commitOk {
        return Some(TxCommitFailed);
      }
      assert tx.rows[t] == WriteVersion(old(db.schema), t, version, dirty).rows[t];
      assert tx.rows == WriteVersion(old(db.schema), t, version, dirty).rows;
      db.schema := tx;
      return None;
    }

    /** `Version`: reads the single row back; "no rows" and "undefined table" read as the nil row. */
    method Version(queryOk: bool) returns (r: Result<Row, Error>)
      requires Valid()
      ensures r == ReadVersion(db.schema, config.migrationsTable, queryOk)
    {
      return ReadVersion(db.schema, config.migrationsTable, queryOk);
    }

    /**
     * `Drop` as written: list the base tables, keep the non-empty names, then
     * drop them one by one in listing order, stopping at the first failed drop.
     * `delivered` is the number of catalog rows the cursor yields before an
     * error ends it (at least the number of tables when nothing goes wrong);
     * the cursor's error is never looked at, so a listing cut short is dropped
     * as if it were complete. Only a scan failure returns while the cursor is
     * still open, so only there can closing it add an error; after the loop
     * the cursor is already closed and closing it again reports nothing.
     */
    method Drop(listOk: bool, delivered: nat, scanOk: seq<bool>, dropOk: seq<bool>, closeOk: bool)
      returns (err: Option<Error>)
      requires Valid()
      modifies db`schema
      ensures Valid()
      ensures !listOk ==> err == Some(QueryFailed(ListTables, false)) && db.schema == old(db.schema)
      ensures var listed := Listing(old(db.schema).tables, delivered);
              listOk && SuccessPrefix(scanOk, |listed|) < |listed| ==>
                && err == Some(if closeOk then ScanFailed else Multi([ScanFailed, RowsCloseFailed]))
                && db.schema == old(db.schema)
      ensures var listed := Listing(old(db.schema).tables, delivered);
              listOk && SuccessPrefix(scanOk, |listed|) == |listed| ==>
                db.schema == DropEach(old(db.schema), Dropped(listed, dropOk))
      ensures var listed := Listing(old(db.schema).tables, delivered);
              err.None? <==>
                && listOk
                && SuccessPrefix(scanOk, |listed|) == |listed|
                && Dropped(listed, dropOk) == NonEmptyNames(listed)
    {
      if !listOk {
        return Some(QueryFailed(ListTables, false));
      }
      var listed := Listing(db.schema.tables, delivered);
      var names, scanned := CollectTableNames(listed, scanOk);
      if !scanned {
        err := Some(if closeOk then ScanFailed else Append(Some(ScanFailed), RowsCloseFailed));
      } else {
        err := DropTables(names, dropOk);
      }
    }

    /**
     * `Drop` with the cursor's error checked after the listing loop: a listing
     * cut short is reported and nothing is dropped. Success then means that
     * no named base table is left.
     */
    method DropCheckingCursor(listOk: bool, delivered: nat, scanOk: seq<bool>, dropOk: seq<bool>, closeOk: bool)
      returns (err: Option<Error>)
      requires Valid()
      modifies db`schema
      ensures Valid()
      ensures !listOk ==> err == Some(QueryFailed(ListTables, false)) && db.schema == old(db.schema)
      ensures var listed := Listing(old(db.schema).tables, delivered);
              listOk && SuccessPrefix(scanOk, |listed|) < |listed| ==>
                && err == Some(if closeOk then ScanFailed else Multi([ScanFailed, RowsCloseFailed]))
                && db.schema == old(db.schema)
      ensures var listed := Listing(old(db.schema).tables, delivered);
              listOk && SuccessPrefix(scanOk, |listed|) == |listed| && delivered < |old(db.schema).tables| ==>
                err == Some(CursorFailed) && db.schema == old(db.schema)
      ensures var tables := old(db.schema).tables;
              listOk && SuccessPrefix(scanOk, |tables|) == |tables| && delivered >= |tables| ==>
                db.schema == DropEach(old(db.schema), Dropped(tables, dropOk))
      ensures var tables := old(db.schema).tables;
              err.None? <==>
                && listOk
                && delivered >= |tables|
                && SuccessPrefix(scanOk, |tables|) == |tables|
                && Dropped(tables, dropOk) == NonEmptyNames(tables)
      ensures err.None? ==> forall u :: u in db.schema.tables ==> u == ""
    {
      if !listOk {
        return Some(QueryFailed(ListTables, false));
      }
      ghost var before := db.schema;
      var listed := Listing(db.schema.tables, delivered);
      var names, scanned := CollectTableNames(listed, scanOk);
      if !scanned {
        err := Some(if closeOk then ScanFailed else Append(Some(ScanFailed), RowsCloseFailed));
      } else if delivered < |db.schema.tables| {
        err := Some(CursorFailed);
      } else {
        err := DropTables(names, dropOk);
        if err.None? {
          DropAllClearsSchema(before, config.migrationsTable);
        }
      }
    }

    /**
     * The first loop of `Drop`: scan the listed names in order, keeping the
     * non-empty ones; a failed scan ends the listing.
     */
    static method CollectTableNames(listed: seq<string>, scanOk: seq<bool>) returns (names: seq<string>, scanned: bool)
      ensures scanned <==> SuccessPrefix(scanOk, |listed|) == |listed|
      ensures scanned ==> names == NonEmptyNames(listed)
    {
      names := [];
      var i := 0;
      while i < |listed|
        invariant 0 <= i <= |listed|
        invariant names == NonEmptyNames(listed[..i])
        invariant forall k :: 0 <= k < i ==> Succeeds(scanOk, k)
      {
        if !Succeeds(scanOk, i) {
          return names, false;
        }
        assert listed[..i + 1] == listed[..i] + [listed[i]];
        if listed[i] != "" {
          names := names + [listed[i]];
        }
        i := i + 1;
      }
      assert listed[..i] == listed;
      return names, true;
    }

    /**
     * The second loop of `Drop`: drop `names` in order and stop at the first
     * failure; the tables dropped before it stay dropped.
     */
    method DropTables(names: seq<string>, dropOk: seq<bool>) returns (err: Option<Error>)
      requires Valid()
      modifies db`schema
      ensures Valid()
      ensures db.schema == DropEach(old(db.schema), names[..SuccessPrefix(dropOk, |names|)])
      ensures err.None? <==> SuccessPrefix(dropOk, |names|) == |names|
      ensures err.Some? ==> err == Some(QueryFailed(DropTableCascade(names[SuccessPrefix(dropOk, |names|)]), false))
    {
      var j := 0;
      while j < |names|
        invariant 0 <= j <= |names|
        invariant Valid()
        invariant db.schema == DropEach(old(db.schema), names[..j])
        invariant forall k :: 0 <= k < j ==> Succeeds(dropOk, k)
      {
        if !Succeeds(dropOk, j) {
          assert SuccessPrefix(dropOk, |names|) == j;
          return Some(QueryFailed(DropTableCascade(names[j]), false));
        }
        assert names[..j + 1][..j] == names[..j];
        db.schema := DropTable(db.schema, names[j]);
        j := j + 1;
      }
      assert names[..j] == names;
      return None;
    }
  }

  /**
   * Two handles with the same generator and the same database and schema
   * names lock and unlock the same advisory lock id, whatever their table
   * names or lock flags.
   */
  lemma SameTargetSameLockId(a: Shell, b: Shell)
    requires a.lockIdOf == b.lockIdOf
    requires a.config.databaseName == b.config.databaseName
    requires a.config.schemaName == b.config.schemaName
    ensures a.LockId() == b.LockId()
  {
  }
}
