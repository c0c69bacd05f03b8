/**
 * The database as the driver sees it, as values: the base tables of the
 * current schema in the order the catalog lists them, the rows of each table
 * read as `(version, dirty)` pairs, the queries the driver issues and the
 * errors it returns. The effect of each statement is a function here; the
 * driver's methods are proved against these functions.
 */
module Store {
  import opened Wrappers

  /** `database.NilVersion`: no migration has been recorded. */
  const NilVersion: int := -1

  /** One row of the migrations table. */
  datatype Row = Row(version: int, dirty: bool)

  /** What `Version` reports when there is no record. */
  const NilRow: Row := Row(NilVersion, false)

  /**
   * The current schema: base tables in enumeration order, and the contents of
   * each. Only the migrations table's contents are ever read.
   */
  datatype Schema = Schema(tables: seq<string>, rows: map<string, seq<Row>>)

  /** Every listed table has contents and every table with contents is listed. */
  ghost predicate Coherent(s: Schema)
  {
    forall t :: t in s.rows <==> t in s.tables
  }

  /** The statements the driver sends; a failed one is named in the error. */
  datatype Query =
    | AdvisoryLock(id: int)
    | AdvisoryUnlock(id: int)
    | CreateVersionTable(table: string)
    | Truncate(table: string)
    | InsertVersion(table: string, row: Row)
    | SelectVersion(table: string)
    | ListTables
    | DropTableCascade(table: string)

  /** The errors the driver returns. */
  datatype Error =
    | ErrLocked                                        // `database.ErrLocked`
    | LockIdFailed                                     // the advisory lock id could not be generated
    | TxStartFailed                                    // "transaction start failed"
    | TxCommitFailed                                   // "transaction commit failed"
    | ScanFailed                                       // a catalog row could not be scanned
    | RowsCloseFailed                                  // closing the catalog cursor failed
    | CursorFailed                                     // the catalog cursor stopped on an error (`Rows.Err`)
    | QueryFailed(query: Query, rollbackFailed: bool)  // a statement failed; the rollback may have failed too
    | Multi(errors: seq<Error>)                        // several errors aggregated

  /** `multierror.Append`: a nested aggregate is extended, anything else is wrapped. */
  function Append(err: Option<Error>, e: Error): (r: Error)
    ensures r.Multi? && |r.errors| > 0 && r.errors[|r.errors| - 1] == e
    ensures err.Some? && !err.value.Multi? ==> r == Multi([err.value, e])
  {
    match err
    case None => Multi([e])
    case Some(Multi(es)) => Multi(es + [e])
    case Some(first) => Multi([first, e])
  }

  // ---------------------------------------------------------------------------
  // Version bookkeeping

  /** The insert of `SetVersion` happens only for a real version or a dirty nil version. */
  predicate ShouldInsert(version: int, dirty: bool)
    ensures ShouldInsert(version, dirty) ==> version >= NilVersion
    ensures !ShouldInsert(version, dirty) && version >= NilVersion ==> Row(version, dirty) == NilRow
  {
    version >= 0 || (version == NilVersion && dirty)
  }

  /**
   * The migrations table `t` after a committed `SetVersion(version, dirty)`:
   * its contents are replaced, nothing else changes.
   */
  function WriteVersion(s: Schema, t: string, version: int, dirty: bool): (r: Schema)
    requires t in s.rows
    ensures Coherent(s) ==> Coherent(r)
    ensures r.tables == s.tables && r.rows.Keys == s.rows.Keys
    ensures ShouldInsert(version, dirty) ==> r.rows[t] == [Row(version, dirty)]
    ensures !ShouldInsert(version, dirty) ==> r.rows[t] == []
    ensures forall u :: u in s.rows && u != t ==> r.rows[u] == s.rows[u]
  {
    s.(rows := s.rows[t := if ShouldInsert(version, dirty) then [Row(version, dirty)] else []])
  }

  /**
   * `Version`: `queryOk` is false when the select fails for a reason other
   * than the table being absent (a lost connection, say); that is an error.
   * Otherwise a missing table (undefined_table) or an empty one (no rows)
   * reads as the nil row, and a non-empty table gives one of its rows. The
   * select has `LIMIT 1` and no `ORDER BY`; returning the first row is this
   * model's choice. `SetVersion` never leaves more than one row.
   */
  function ReadVersion(s: Schema, t: string, queryOk: bool): (r: Result<Row, Error>)
    ensures r.Err? <==> !queryOk
    ensures r.Err? ==> r.error == QueryFailed(SelectVersion(t), false)
    ensures queryOk && (t !in s.rows || s.rows[t] == []) ==> r == Ok(NilRow)
    ensures queryOk && t in s.rows && s.rows[t] != [] ==> r == Ok(s.rows[t][0])
    ensures r.Ok? && r.value != NilRow ==> t in s.rows && r.value in s.rows[t]
  {
    if !queryOk then Err(QueryFailed(SelectVersion(t), false))
    else if t !in s.rows then Ok(NilRow)               // undefined_table
    else if s.rows[t] == [] then Ok(NilRow)            // sql.ErrNoRows
    else Ok(s.rows[t][0])
  }

  /**
   * Writing then reading gives back exactly the pairs with `version >= -1`;
   * a version below -1 reads back as the nil row.
   */
  lemma VersionRoundTrip(s: Schema, t: string, version: int, dirty: bool)
    requires t in s.rows
    ensures ReadVersion(WriteVersion(s, t, version, dirty), t, true) == Ok(Row(version, dirty))
            <==> version >= NilVersion
    ensures version < NilVersion ==> ReadVersion(WriteVersion(s, t, version, dirty), t, true) == Ok(NilRow)
  {
  }

  /** A dirty nil version survives the round trip; a clean nil version reads as "no record". */
  lemma DirtyNilIsKept(s: Schema, t: string)
    requires t in s.rows
    ensures ReadVersion(WriteVersion(s, t, NilVersion, true), t, true) == Ok(Row(NilVersion, true))
    ensures WriteVersion(s, t, NilVersion, false).rows[t] == []
  {
  }

  // ---------------------------------------------------------------------------
  // Creating and dropping tables

  /**
   * `CREATE TABLE IF NOT EXISTS t`: an existing table is kept, a missing one is
   * added empty. The catalog listing has no defined order; placing the new
   * table last is this model's choice.
   */
  function CreateTable(s: Schema, t: string): (r: Schema)
    ensures Coherent(s) ==> Coherent(r)
    ensures t in r.rows && (Coherent(s) ==> t in r.tables)
    ensures t in s.rows ==> r == s
    ensures t !in s.rows ==> r.rows[t] == [] && r.tables == s.tables + [t]
    ensures forall u :: u in s.rows ==> u in r.rows && r.rows[u] == s.rows[u]
  {
    if t in s.rows then s else Schema(s.tables + [t], s.rows[t := []])
  }

  /** A version table that was just created reads as "no record". */
  lemma FreshTableReadsNil(s: Schema, t: string)
    requires t !in s.rows
    ensures ReadVersion(CreateTable(s, t), t, true) == Ok(NilRow)
  {
  }

  /** `ts` without any occurrence of `t`, order kept. */
  function Remove(ts: seq<string>, t: string): (r: seq<string>)
    ensures forall u :: u in r <==> u in ts && u != t
    ensures |r| <= |ts|
  {
    if ts == [] then []
    else
      assert ts == [ts[0]] + ts[1..];
      (if ts[0] == t then [] else [ts[0]]) + Remove(ts[1..], t)
  }

  /** `DROP TABLE IF EXISTS t CASCADE`: an absent table is not an error. */
  function DropTable(s: Schema, t: string): (r: Schema)
    ensures Coherent(s) ==> Coherent(r)
    ensures forall u :: u in r.tables <==> u in s.tables && u != t
    ensures forall u :: u in r.rows <==> u in s.rows && u != t
    ensures forall u :: u in r.rows ==> r.rows[u] == s.rows[u]
  {
    Schema(Remove(s.tables, t), s.rows - {t})
  }

  /** Dropping the tables `names` one after another. */
  function DropEach(s: Schema, names: seq<string>): (r: Schema)
    ensures Coherent(s) ==> Coherent(r)
    ensures forall u :: u in r.tables <==> u in s.tables && u !in names
    ensures forall u :: u in r.rows <==> u in s.rows && u !in names
    ensures forall u :: u in r.rows ==> r.rows[u] == s.rows[u]
  {
    if names == [] then s
    else
      var init := names[..|names| - 1];
      assert names == init + [names[|names| - 1]];
      DropTable(DropEach(s, init), names[|names| - 1])
  }

  /** The table names the catalog listed, without the empty ones, order kept. */
  function NonEmptyNames(ts: seq<string>): (r: seq<string>)
    ensures forall u :: u in r <==> u in ts && u != ""
    ensures |r| <= |ts|
  {
    if ts == [] then []
    else
      var init := ts[..|ts| - 1];
      assert ts == init + [ts[|ts| - 1]];
      NonEmptyNames(init) + (if ts[|ts| - 1] != "" then [ts[|ts| - 1]] else [])
  }

  /** Whether the backend answers the `i`-th call of a series successfully; unlisted calls succeed. */
  predicate Succeeds(replies: seq<bool>, i: nat)
  {
    i >= |replies| || replies[i]
  }

  /** How many of `n` calls in a row succeed before the first failure. */
  function SuccessPrefix(replies: seq<bool>, n: nat): (k: nat)
    ensures k <= n
    ensures forall i :: 0 <= i < k ==> Succeeds(replies, i)
    ensures k < n ==> !Succeeds(replies, k)
  {
    if n == 0 then 0
    else
      var k := SuccessPrefix(replies, n - 1);
      if k < n - 1 then k
      else if Succeeds(replies, n - 1) then n
      else n - 1
  }

  /**
   * The catalog rows the cursor delivers: all of them, or only the first
   * `delivered` ones when a cursor error ends the listing early.
   */
  function Listing(tables: seq<string>, delivered: nat): (r: seq<string>)
    ensures r <= tables
    ensures |r| == |tables| <==> delivered >= |tables|
    ensures |r| < |tables| ==> |r| == delivered
  {
    if delivered < |tables| then tables[..delivered] else tables
  }

  /** The tables `Drop` manages to drop: the listed non-empty names up to the first failed drop. */
  function Dropped(tables: seq<string>, dropOk: seq<bool>): (r: seq<string>)
    ensures r <= NonEmptyNames(tables)
    ensures forall i :: 0 <= i < |r| ==> Succeeds(dropOk, i)
    ensures |r| < |NonEmptyNames(tables)| ==> !Succeeds(dropOk, |r|)
  {
    var names := NonEmptyNames(tables);
    names[..SuccessPrefix(dropOk, |names|)]
  }

  /**
   * A complete `Drop` leaves no named base table, and the version then reads
   * as "no record" without an error.
   */
  lemma DropAllClearsSchema(s: Schema, t: string)
    requires Coherent(s)
    requires t != ""
    ensures forall u :: u in DropEach(s, NonEmptyNames(s.tables)).tables ==> u == ""
    ensures ReadVersion(DropEach(s, NonEmptyNames(s.tables)), t, true) == Ok(NilRow)
  {
  }

  /**
   * A `Drop` that stops at a failed drop: the tables before it are gone, every
   * other table is still there with its contents.
   */
  lemma PartialDropKeepsTheRest(s: Schema, dropOk: seq<bool>, u: string)
    requires Coherent(s)
    requires u in s.tables
    ensures u in DropEach(s, Dropped(s.tables, dropOk)).tables
            <==> u !in Dropped(s.tables, dropOk)
    ensures u !in Dropped(s.tables, dropOk) ==>
              DropEach(s, Dropped(s.tables, dropOk)).rows[u] == s.rows[u]
  {
  }

  /**
   * A listing cut short by a cursor error: a table that the cursor did not
   * deliver survives the drops, even when every one of them succeeds.
   */
  lemma {:induction false} TruncatedListingSparesTheRest(s: Schema, delivered: nat, dropOk: seq<bool>, u: string)
    requires delivered < |s.tables|
    requires u in s.tables[delivered..] && u !in s.tables[..delivered]
    ensures u in DropEach(s, Dropped(Listing(s.tables, delivered), dropOk)).tables
  {
    var listed := Listing(s.tables, delivered);
    var names := Dropped(listed, dropOk);
    assert u in s.tables by {
      var k :| 0 <= k < |s.tables[delivered..]| && s.tables[delivered..][k] == u;
      assert s.tables[delivered + k] == u;
    }
    assert u !in names by {
      assert forall k :: 0 <= k < |names| ==> names[k] == NonEmptyNames(listed)[k];
    }
  }

  /**
   * The smallest case: tables `a` and `b`, a cursor error after `a`, and no
   * failed drop. Every collected name is dropped, so `Drop` reports success,
   * and `b` is still there.
   */
  lemma SuccessfulDropCanLeaveATable()
    ensures var s := Schema(["a", "b"], map["a" := [], "b" := []]);
            var listed := Listing(s.tables, 1);
            && Dropped(listed, []) == NonEmptyNames(listed)
            && "b" in DropEach(s, Dropped(listed, [])).tables
  {
    var s := Schema(["a", "b"], map["a" := [], "b" := []]);
    TruncatedListingSparesTheRest(s, 1, [], "b");
    assert s.tables[1..] == ["b"];
  }

  /** With no named table, `Drop` changes nothing. */
  lemma DropOfNothing(s: Schema, dropOk: seq<bool>)
    requires forall u :: u in s.tables ==> u == ""
    ensures DropEach(s, Dropped(s.tables, dropOk)) == s
  {
    var names := NonEmptyNames(s.tables);
    assert forall i :: 0 <= i < |names| ==> names[i] in names;
  }
}
