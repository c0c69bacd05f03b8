# Shell migration driver: verified model

This project models the core of the `shell` database driver of a migration
tool. The driver records the applied migration version and a dirty flag in a
single-row Postgres table. It serialises migrations with a session-level
advisory lock. It resets a schema by dropping its base tables. It also
translates a Postgres error position into a line and a column.

The database is abstracted as values in `store.dfy` (module `Store`):

- `Schema` holds the base tables of the current schema in the order the
  catalog lists them, and each table's rows read as `(version, dirty)` pairs.
- `Query` names the statements the driver sends.
- `Error` lists the errors it returns.

Each statement's effect is a function: `WriteVersion`, `ReadVersion`,
`CreateTable`, `DropTable` and `DropEach`.

`shell.dfy` (module `ShellDriver`) holds the stateful part:

- `Database` is the server as seen through the driver's one connection. It
  holds the current schema and the multiset of advisory locks the session holds.
- `Shell` is the driver handle. Its fields are the configuration, the lock id
  generator, the connection and the `isLocked` flag.
- Its methods `Lock`, `Unlock`, `EnsureVersionTable`, `SetVersion`, `Version`
  and `Drop` update that state step by step. Each is proved against the
  `Store` functions.
- `Valid()` is the handle invariant. The schema stays coherent, the table name
  is never empty, and `isLocked` implies that the connection really holds the
  handle's lock id.

Every backend call either succeeds or fails. Which one it does is an argument
of the method that makes the call: a `bool` per call, `TxReplies` for a
transaction, or a `seq<bool>` for a series of calls (a call beyond the end of
the sequence succeeds). The advisory lock id generator is a constant
arrow-typed field `lockIdOf` of the handle. It is deterministic and otherwise
opaque.

`positions.dfy` (module `Positions`) holds the pure error-position code. The
line and column are stated with independent definitions:

- the line is the newline count of the prefix as a multiset;
- the column is the length of the newline-free tail of the prefix.

`CountOf` and `LastIndexOf` specify the two loops, and `RunesCount` and
`RunesLastIndex` are those loops, proved equal to them.

Behaviour the code has that a reader might not expect:

- `TRUNCATE` of a missing migrations table fails, so `SetVersion` after a
  `Drop` returns an error and changes nothing.
- A failed release in `EnsureVersionTable` leaves the handle locked and the
  lock held.
- `Unlock` generates the id again, and the source checks that for an error.
  That error path cannot be taken: the handle is locked only after `Lock`
  generated the same id from the same names. `Valid()` records this, so the
  model's `Unlock` has no such branch.
- `Drop` can fail on closing the catalog cursor only after a failed scan.
  After the listing loop the cursor is already closed, and closing it again
  reports nothing.
- `Drop` never checks the cursor's error, so a listing cut short by it
  makes `Drop` succeed with tables left (see "## Findings").
  `DropCheckingCursor` is the corrected version.
- A CRLF pair counts as one character. Normalisation is a single left-to-right
  pass, so `"\r\r\n"` becomes `"\r\n"`, not `"\n"`.

## Model

| member | source | states |
|---|---|---|
| `ShellDriver.WithDefaultTable` | database/shell/shell.go:92-94 | the migrations table name is never empty; a configured name is kept, an empty one becomes `schema_migrations` |
| `ShellDriver.Shell.constructor` | database/shell/shell.go:102-106 | a new handle is unlocked, satisfies the handle invariant and uses the defaulted configuration |
| `ShellDriver.Shell.Lock` | database/shell/shell.go:161-179 | an already locked handle gets `ErrLocked` and nothing changes; a failed id generation or acquire leaves the flag false and the locks unchanged; success adds the handle's id to the session's locks and sets the flag |
| `ShellDriver.Shell.Unlock` | database/shell/shell.go:181-197 | unlocked: success and nothing changes; a successful release removes the same id `Lock` acquired and clears the flag; a failed release keeps both the flag and the lock |
| `ShellDriver.WithCleanup` | database/shell/shell.go:361-369 | the result is an error exactly when either step failed; a lone unlock error is returned as it is; when both failed, the result is an aggregate ending with the unlock error, `[create error, unlock error]` for a plain create error |
| `ShellDriver.Shell.EnsureVersionTable` | database/shell/shell.go:356-377 | lock, create if missing, unlock: success exactly when all three succeed, and then the migrations table exists and the locks are as before; a failed release leaves the handle locked; already locked gives `ErrLocked` with no change |
| `ShellDriver.Shell.SetVersion` | database/shell/shell.go:260-293 | succeeds exactly when begin, truncate (the table exists), the conditional insert and commit succeed; then the table holds `WriteVersion`'s contents; on any failure the schema is unchanged |
| `ShellDriver.Shell.Version` | database/shell/shell.go:295-313 | the result is `ReadVersion` of the current schema, so every property of `ReadVersion` holds of it |
| `ShellDriver.SameTargetSameLockId` | database/shell/shell.go:166-186 | the lock id (`Shell.LockId`) depends only on the generator and the database and schema names, so `Lock` and `Unlock` of any two handles on one target use the same id |
| `ShellDriver.Shell.Drop` | database/shell/shell.go:315-351 | as written: a failed listing changes nothing; a failed scan changes nothing and returns the scan error, joined by the close error when closing the still-open cursor fails; otherwise the schema becomes `DropEach` of the dropped prefix of the delivered (possibly cut short) listing; success exactly when every delivered row scans and every collected name drops, whether or not the cursor stopped on an error |
| `ShellDriver.Shell.DropCheckingCursor` | database/shell/shell.go:328-350 | corrected `Drop`: as above, but a listing cut short by a cursor error returns `CursorFailed` and changes nothing; success exactly when the listing is complete and every scan and drop succeeds, and then no named base table remains |
| `ShellDriver.Shell.CollectTableNames` | database/shell/shell.go:328-338 | a complete scan yields the non-empty listed names in order; it reports failure exactly when some scan fails |
| `ShellDriver.Shell.DropTables` | database/shell/shell.go:340-348 | drops the names in order up to the first failed drop; the error names that table; no error exactly when every drop succeeds |
| `Store.Append` | database/shell/shell.go:322-326 | the aggregate ends with the new error; a single earlier error is kept in front of it |
| `Store.ShouldInsert` | database/shell/shell.go:277 | an inserted version is never below -1; the only skipped pair with version at least -1 is `(-1, false)`, which is what an empty table reads as |
| `Store.WriteVersion` | database/shell/shell.go:266-291 | the migrations table holds exactly `[(v, d)]` when the insert condition holds and no rows otherwise; every other table, the table list and coherence are kept |
| `Store.ReadVersion` | database/shell/shell.go:295-313 | an error exactly when the select fails for a reason other than an absent table; otherwise a missing or empty table reads as `(-1, false)` and a non-empty table gives one of its stored rows (the first, by the model's choice) |
| `Store.VersionRoundTrip` | database/shell/shell.go:274-311 | writing `(v, d)` and reading it back gives `(v, d)` exactly when `v >= -1`; a version below -1 reads as `(-1, false)` |
| `Store.DirtyNilIsKept` | database/shell/shell.go:274-286 | `(-1, true)` is written and read back; `(-1, false)` leaves the table empty |
| `Store.CreateTable` | database/shell/shell.go:371 | an existing table is kept as it is; a missing one is added, empty (listing it last is the model's choice of order); other tables are untouched |
| `Store.FreshTableReadsNil` | database/shell/shell.go:371-375 | a just-created version table reads as `(-1, false)` |
| `Store.Remove` | database/shell/shell.go:343 | a name is in the result exactly when it was listed and is not the dropped name |
| `Store.DropTable` | database/shell/shell.go:343-346 | exactly the named table is gone; an absent table is no error; the remaining tables keep their contents |
| `Store.DropEach` | database/shell/shell.go:340-348 | after dropping a sequence of names, a table remains exactly when it was there and is not named; its contents are unchanged |
| `Store.NonEmptyNames` | database/shell/shell.go:329-338 | the collected names are exactly the listed non-empty names |
| `Store.SuccessPrefix` | database/shell/shell.go:342-347 | the number of calls made before the first failure: all earlier calls succeed and the next one fails |
| `Store.Listing` | database/shell/shell.go:330 | the rows the cursor delivers are a prefix of the listed tables; all of them exactly when no cursor error cut the listing short, otherwise the first `delivered` |
| `Store.TruncatedListingSparesTheRest` | database/shell/shell.go:330-348 | a table the cut-short cursor did not deliver survives the drops, whatever the drop replies |
| `Store.SuccessfulDropCanLeaveATable` | database/shell/shell.go:330-350 | tables `a`, `b`, a cursor error after `a`, no failed drop: every collected name is dropped (so `Drop` succeeds) and `b` remains |
| `Store.Dropped` | database/shell/shell.go:340-348 | the dropped names are a prefix of the collected names, every drop in it succeeded and the next one failed |
| `Store.DropAllClearsSchema` | database/shell/shell.go:329-350 | after a complete drop no named base table remains, and a successful select then reads the version as `(-1, false)` |
| `Store.PartialDropKeepsTheRest` | database/shell/shell.go:342-347 | after a drop that stopped early, a table remains exactly when it is not among the dropped names, and it keeps its contents |
| `Store.DropOfNothing` | database/shell/shell.go:340-348 | with no named tables, the drop changes nothing |
| `Positions.NormalizeNewlines` | database/shell/shell.go:227 | normalisation never lengthens the text |
| `Positions.NormalizeOnlyDropsCR` | database/shell/shell.go:227 | the characters other than carriage returns are kept, in order |
| `Positions.NormalizeSplit` | database/shell/shell.go:227 | normalising a concatenation normalises each part, unless a carriage return at the end of the first part meets a line feed at the start of the second |
| `Positions.CrlfBecomesLf` | database/shell/shell.go:226-227 | every CRLF pair, whatever surrounds it, becomes one line feed and the text on either side is normalised on its own |
| `Positions.NormalizeKeepsLineFeeds` | database/shell/shell.go:227 | normalisation keeps the number of line feeds |
| `Positions.NormalizeWithoutCrlf` | database/shell/shell.go:227 | text without a CRLF pair is unchanged |
| `Positions.CountOf` | database/shell/shell.go:241-249 | the count equals the target's multiplicity in the multiset of runes, and is at most the length |
| `Positions.LastIndexOf` | database/shell/shell.go:251-258 | -1 exactly when the target is absent; otherwise an index holding the target with no later one |
| `Positions.RunesCount` | database/shell/shell.go:241-249 | the loop computes `CountOf` |
| `Positions.RunesLastIndex` | database/shell/shell.go:251-258 | the backward loop computes `LastIndexOf` |
| `Positions.ComputeLineFromPos` | database/shell/shell.go:225-237 | no result exactly when `pos` exceeds the normalised length; otherwise the line is 1 plus the line feeds in the first `pos` runes; the column is at most `pos` and is the length of the newline-free tail of that prefix |
| `Positions.PositionInRange` | database/shell/shell.go:229-232 | for text without CRLF pairs a position has a result exactly when it is at most the length |
| `Positions.CrlfCountsOnce` | database/shell/shell.go:225-237 | `"a\r\nb"` at position 3 is line 2, column 1 |

## Findings

| source | as written | input that shows it | evidently intended | confidence | as-written member | corrected member |
|---|---|---|---|---|---|---|
| database/shell/shell.go:330-350 | the listing loop ends when `tables.Next()` returns false and `tables.Err()` is never checked, so a cursor error ends the listing silently and `Drop` drops only the delivered tables and returns nil | tables `a` and `b`, the cursor failing after delivering `a`, every drop succeeding: `Drop` returns nil and `b` remains | check `tables.Err()` after the loop and return it before dropping anything, so that success means the schema has no named base table left | not executed | `ShellDriver.Shell.Drop`, `Store.SuccessfulDropCanLeaveATable` | `ShellDriver.Shell.DropCheckingCursor` |

## Left out

- `Run` (database/shell/shell.go:199-223) writes a temporary executable and runs it as a child process. That is filesystem and process I/O. The source has no timeout or verbosity handling to model either.
- `Open` (database/shell/shell.go:115-149) parses a URL, opens the connection and parses the statement timeout with library calls. The statement timeout is not modelled.
- `WithInstance` (database/shell/shell.go:55-113) pings the server and queries the current database and schema names. Only the table-name default and the handle construction are modelled.
- `Close` (database/shell/shell.go:151-158) tears down the connection.
- The `init` registration (database/shell/shell.go:24-27) is a global side effect with nothing to state.
- Blocking and mutual exclusion of `pg_advisory_lock` across processes are not modelled. The model holds one handle's flag and its session's locks only.
- `GenerateAdvisoryLockId` and identifier quoting are library code; they are not part of this model. The id generator is an opaque total function.
- Error messages, wrapping and the exact shape of `multierror` values are simplified to the `Error` datatype.
- `DROP ... CASCADE` also drops dependent views and constraints. Only base tables are modelled. Every table's contents are modelled as rows; only the migrations table's are ever read.
- Store.DropTable: assumes that no base table depends on another. With inheritance children or partitions, `CASCADE` also removes those base tables, and a later drop in the loop finds its table gone, which `IF EXISTS` tolerates. The model removes exactly the named table.
- Store.PartialDropKeepsTheRest: "a table remains exactly when it is not among the dropped names" holds only under the assumption above. With dependent base tables, a table that was not named could also be gone.
- `ShellDriver.Shell.SetVersion`: versions are unbounded integers. The 64-bit range of Go's `int` and of the `bigint` column is not modelled.
- `Positions.ComputeLineFromPos`: text is a sequence of runes. The UTF-8 decoding of the Go string is not modelled. A negative position makes the source panic, so the position is a natural number. The conversions to `uint` never wrap, because line and column are shown non-negative.
