# Pin repository model

A Dafny model of the pin-record repository of the tf-pinning-service, an
IPFS pinning service. The repository stores one row per pin request: the
owner (`user_id`), the content identifier (`cid`), the externally visible
`uuid`, a display `name`, a `status` and a creation time. It offers six
operations:

- `InsertOrGet`: find-or-create keyed by (owner, CID).
- `Patch`: a partial column update scoped to (uuid, owner).
- `FindByID`: a lookup scoped to (uuid, owner).
- `Find`: a filtered, counted, limited, newest-first listing.
- `Delete`: a removal scoped to (uuid, owner).
- `CIDRefrenceCount`: a count of the rows that reference a CID, across all owners.

A seventh operation, `ProcessByStatus`, is a background scan by status.

The store is modelled as an in-memory table: a sequence of rows in
primary-key order, taken to be insertion order.

- `pins.dfy` (module `Pins`): the row (`Record`), the column map of a
  patch (`Update`, one optional value per column), errors and results.
- `table.dfy` (module `Table`): what the store's calls mean on the table.
  These are a WHERE selection (`Where`), `Count`, `First` (the first match by
  primary key), `FirstOrCreate`, `UpdateWhere` and `DeleteWhere`, with their
  lemmas.
- `query.dfy` (module `Query`): the listing's filters as one predicate,
  `Selects`, and the rest of the listing.
  - ORDER BY `created_at` DESC is `SortNewestFirst`.
  - LIMIT is `Take`; a negative limit means no limit.
  - Go's `int32` narrowing of the count is `Int32`.
  - The status scan of `ProcessByStatus` is `ScanByStatus`.
- `sql_like.dfy` (modules `SqlLike`, `NameStrategies`): two concrete
  instances of the SQL LIKE operator. `Like` compares characters exactly.
  `ILike` folds ASCII letters to lower case first. The file also proves what
  each name-matching strategy then means.
- `repository.dfy` (module `Repository`): the class `PinsRepository`. Its
  field `rows` is the table. `InsertOrGet`, `Patch` and `Delete` are methods
  that update `rows`. The constant field `columns` holds the table's further
  columns, besides the six the queries name. The invariant `Valid`, kept by
  every method that changes `rows`, says each row has only those columns. `FindByID`, `Find`, `CIDRefrenceCount` and
  `ProcessByStatus` only read it. Lemmas about sequences of operations follow
  the class.

Parameters stand for what the code does not decide itself:

- `like` is the database's LIKE operator. Its collation decides case
  sensitivity and is not visible in the code, so `Find` takes it as a
  parameter of type `(string, string) -> bool`.
- `freshId` is the UUID the store's column default generates. It is used
  when a row is created from a record whose UUID is empty.
- `fault` is the store's outcome for one call: `None` when the call
  succeeds, `Some(message)` when the store reports an error.

`Query.FiltersAreConjoined` and `Query.NameFilterByStrategy` follow
directly from the definitions of `Selects` and `NameSelects`. They restate
the query's `switch` and conjunction in the form of lemmas. What the
strategies mean is proved in `NameStrategies.UnderExactCollation` and
`NameStrategies.UnderFoldingCollation`.

Where the intended design and the code differ, the model follows the code:

- The name strategies go through LIKE, not through separate case-sensitive
  and case-insensitive comparisons.
  - `iexact` is `name LIKE <name>`. When LIKE compares exactly, this is plain
    equality (`NameStrategies.UnderExactCollation`).
  - `partial` falls through to `ipartial`, so the two are always identical.
  - The name is not escaped, so a `%` or `_` in it acts as a wildcard
    (`NameStrategies.WildcardsInNameAreLive`).
- `Patch` writes every column its map names, owner, CID and uuid included.
  The "owner and CID never change" invariant holds only for patches that
  name neither (`Repository.PatchKeepsPairs`). FindByID finds the patched
  row only when the patch keeps its uuid and owner
  (`Repository.PatchThenFindByID`).
- `FindByID` reports every failure as "id not exists", store failures
  included, because it tests only the number of rows read.
- The SQL gives no order among rows created in the same second. The model
  keeps table (primary-key) order among them.

## Model

| member | source | states |
|---|---|---|
| `Repository.PinsRepository.constructor` | database/pins-repository.go:23-28 | The repository starts on the given table and its column set. Every given row must have only the table's columns, and the invariant `Valid` (every row has only the table's columns) then holds. |
| `Repository.PinsRepository.InsertOrGet` | database/pins-repository.go:30-44 | If a row for (user_id, cid) exists, InsertOrGet returns the first such row and the table is unchanged. Otherwise it appends exactly one row and returns it. That row is the caller's record with `user_id` overriding the record's owner, the record's own UUID if non-empty, and the store default otherwise. A store error returns the error and leaves the table unchanged. The record has only the table's columns, as a value of the row type does, and `Valid` is kept. |
| `Repository.PinsRepository.Patch` | database/pins-repository.go:46-52 | Only rows with `uuid == id && user_id == user_id` change, and in them only the columns the map names. Every other row and column is unchanged. Matching no row is success. A map naming a column the table does not have fails with a store error, whether or not a row matches, and changes nothing. So does any other store error. `Valid` is kept. |
| `Repository.PinsRepository.FindByID` | database/pins-repository.go:54-61 | Succeeds exactly when the store call succeeds and some row has this uuid and owner. It then returns the first such row, so never another owner's row. Every failure is "id not exists". |
| `Repository.PinsRepository.Find` | database/pins-repository.go:63-119 | The count is the int32 narrowing of the number of rows the filters select. The results are the limited, newest-first page, copied row by row. Each result is a table row that passes every filter. There are at most `limit` results when `limit >= 0`. A store error returns the error. |
| `Repository.PinsRepository.Delete` | database/pins-repository.go:121-127 | The table becomes its rows without those matching (uuid, owner), and no matching row remains. A store error changes nothing. `Valid` is kept. |
| `Repository.PinsRepository.CIDRefrenceCount` | database/pins-repository.go:129-137 | Counts the rows with that CID across all owners. The count is at most the table size and is zero exactly when no row references the CID. A store error returns the error. |
| `Repository.PinsRepository.ProcessByStatus` | database/pins-repository.go:139-145 | The scanned rows are those whose status is listed, or every row when the list is empty, in table order. Every such row is scanned as often as it occurs. |
| `Repository.InsertOrGetTwice` | database/pins-repository.go:38 | Two InsertOrGet calls with the same (owner, CID) add at most one row. The second call returns the first call's row, and hence its UUID, and leaves the table unchanged, whatever its own record and default UUID are. |
| `Repository.InsertOrGetKeepsPairsUnique` | database/pins-repository.go:38 | When calls are made one at a time, InsertOrGet keeps at most one row per (owner, CID) pair. |
| `Repository.InsertOrGetReferencesCid` | database/pins-repository.go:38 | After InsertOrGet the CID's reference count is at least 1, and it has grown by at most 1. |
| `Repository.PatchThenFindByID` | database/pins-repository.go:47 | For a patch that keeps the row's id and owner, FindByID after Patch returns the patched row: its old values overwritten by exactly the patched columns. |
| `Repository.PatchKeepsPairs` | database/pins-repository.go:47 | A patch that names neither owner nor CID leaves every row's owner and CID as they were, and keeps (owner, CID) pairs unique. |
| `Repository.PatchKeepsColumns` | database/pins-repository.go:47 | A patch that names only columns the table has gives no row a column outside them. |
| `Repository.PatchWithoutMatch` | database/pins-repository.go:46-51 | A patch that matches no row leaves the table as it was (the call still succeeds). |
| `Repository.DeleteRemovesExactlyMatches` | database/pins-repository.go:122 | Delete removes every copy of the (id, owner) rows and keeps every copy of every other row, including another owner's row with the same id. A following FindByID finds nothing. |
| `Repository.DeleteKeepsColumns` | database/pins-repository.go:122 | Delete keeps only rows of the table, so every remaining row still has only the table's columns. |
| `Repository.DeleteWithoutMatch` | database/pins-repository.go:122-126 | Deleting an (id, owner) pair that matches nothing leaves the table unchanged (and succeeds). |
| `Repository.ReferenceCountZeroIffUnreferenced` | database/pins-repository.go:131 | The reference count is at most the table size, and it is zero exactly when no row has the CID. |
| `Repository.ReferenceCountIsGlobal` | database/pins-repository.go:131 | The reference count is never below any one owner's count for the CID. It equals the number of rows that an unscoped listing (owner 0) filtered by that CID alone matches. This is the number before the listing's int32 narrowing. |
| `Table.First` | database/pins-repository.go:56 | `First` finds nothing exactly when no row satisfies the condition. Otherwise it returns the first satisfying row, a row of the table. |
| `Table.WhereCounts` | database/pins-repository.go:76 | A WHERE selection keeps every copy of each row that satisfies the condition and nothing else. |
| `Table.FirstOrCreateIdempotent` | database/pins-repository.go:38 | When the row FirstOrCreate would create satisfies its condition, a second call returns the first call's row and leaves the table unchanged. The first call adds at most one row. |
| `Table.UpdateWhereFirst` | database/pins-repository.go:47 | When an update keeps matching rows matching, the first match after it is the update of the first match before it. |
| `Pins.ApplyKeepsUnnamedColumns` | database/pins-repository.go:47 | Updating with a column map overwrites the columns it names and leaves every other column as it was. |
| `Query.OffFiltersSelectEverything` | database/pins-repository.go:74-104 | With empty cids, statuses and name, owner 0 and no time bounds, the listing selects every row of the table. |
| `Query.FiltersAreConjoined` | database/pins-repository.go:75-104 | Each filter is a separate AND-ed conjunct. A row is selected iff it is selected with that filter off and, when the filter is set, it satisfies the filter. An unset filter imposes nothing. |
| `Query.NameFilterByStrategy` | database/pins-repository.go:78-90 | `iexact` selects by LIKE against the bare name. `partial` and `ipartial` both select by LIKE against `"%"+name+"%"`, and they always agree. Every other strategy, `exact` or unrecognised, selects by name equality. |
| `Query.PageRowsMatch` | database/pins-repository.go:108 | The page is a sub-multiset of the matching rows, and so of the table. Every page row is a table row that passes every filter. |
| `Query.PageIsNewestMatches` | database/pins-repository.go:108 | The page holds `min(limit, matches)` rows, or all matches when `limit` is negative, ordered by created_at non-increasing. Any matching row created later than a page row is on the page. |
| `Query.CountIgnoresLimit` | database/pins-repository.go:106-118 | The count is the same for every limit. While the matches fit in an int32, it equals their number and is at least the page length. |
| `Query.PageRespectsBoundsAndOwner` | database/pins-repository.go:92-104 | With `before` set, every result has created_at < before. With `after` set, every result has created_at > after. A non-zero owner, a non-empty CID list and a non-empty status list each constrain every result. |
| `Query.ScanAgreesWithListing` | database/pins-repository.go:143-145 | The rows the status scan visits equal, as a multiset, those of an unlimited listing with only the same status filter. |
| `Query.Int32` | database/pins-repository.go:118 | The narrowed count is within int32 range, congruent to the count modulo 2^32, and equal to it when it fits. |
| `Query.SortNewestFirst` | database/pins-repository.go:108 | ORDER BY created_at DESC yields a permutation of the matches, ordered newest first. |
| `Query.TakeIsPrefix` | database/pins-repository.go:108 | LIMIT keeps a prefix of the ordered rows, so a sub-multiset of them. |
| `SqlLike.LiteralMatchesItself` | database/pins-repository.go:81 | Under exact comparison, a LIKE pattern without wildcards matches only itself. |
| `SqlLike.ContainsPattern` | database/pins-repository.go:85-86 | Under exact comparison, the pattern `"%"+name+"%"` built for the partial strategies matches exactly the values that contain `name`, for a name without wildcards. |
| `NameStrategies.UnderExactCollation` | database/pins-repository.go:78-90 | When LIKE compares exactly, `iexact` is plain equality, and `partial` and `ipartial` are case-sensitive substring search. |
| `NameStrategies.UnderFoldingCollation` | database/pins-repository.go:78-90 | When LIKE folds case, `iexact` is equality after lower-casing, `partial` and `ipartial` are substring search after lower-casing, and every other strategy stays exact equality. |
| `NameStrategies.WildcardsInNameAreLive` | database/pins-repository.go:81 | The name is not escaped: `iexact "a_c"` selects a row named "abc". |

## Left out

- The per-CID lock registry (`LockByCID` and `UnlockByCID`, and the
  process-wide locker). It is a concurrency primitive of a library that is
  not part of this model. So are the race it guards against and the
  commented-out transaction and mutex code.
- `ProcessByStatus`'s goroutine, channel and `FindInBatches` batching of
  100. The scanned batch slice is reused across sends, and the final scan
  error is only printed. The model returns the concatenation of all batches.
- `context.Context` parameters, which the code never uses.
- The logger, which is I/O configuration only.
- The record mapper (`PinDTO`, `FromEntity`, `ToEntity`) is not part of this
  model. The API record and the table row are one datatype, and the mapping
  is taken to preserve fields.
- The collation of LIKE. `Find` is proved for every LIKE operator, and two
  concrete instances are given.
- gorm details the code does not show:
  - A zero `CreatedAt` may be stamped at insert. The created row keeps the
    input's time.
  - An `UpdatedAt` column may be touched by a patch.
  - Delete may be a soft delete. The model removes the row from the visible
    table.
  - Errors come from values of the wrong type in a patch map. The further
    columns all hold strings here, so that error is not modelled. A patch
    naming an unknown column is modelled: it fails.
- Go's `time.Time` zero value and `Unix()`. Time bounds are optional integer
  seconds, and `None` stands for the zero time.
- Integer widths of `user_id` (`uint`) and of the count (`int64`). They are
  unbounded here. Only the narrowing to `int32` in `Find` is written out.
- Which error a store failure carries, and at which step of a call it
  occurs. A failure is one `fault` value per call.
- The zero values returned beside an error: an empty `PinResults` from
  `Find`, an empty record from `InsertOrGet`, a count of 0 from
  `CIDRefrenceCount`. The model returns only the error.
- `Repository.PinsRepository.Find`: the ordering among rows created in the
  same second is fixed to table order. SQL leaves it to the database.
- `Repository.PinsRepository.Find`: a limit of 0 gives an empty page. That is
  how gorm releases behave whose limit clause writes `LIMIT n` for every
  n >= 0. Earlier gorm v2 releases leave out `LIMIT` at 0 and return every
  match. The gorm version is not part of this model. Under those releases,
  `|results| <= limit` would not hold at limit 0.
- The strategy names `exact`, `iexact`, `partial` and `ipartial`
  (`Query.Exact` and its siblings) are assumed values of the constants in
  the `models` package, which is not part of this model.
- `NameStrategies.UnderFoldingCollation`: only LIKE is a parameter. Every
  `=` and `IN` (the name filter's exact branch, `cid IN`, `status IN`, and
  the `uuid`, `user_id` and `cid` keys of every call) is exact, binary
  comparison. Under a case-folding collation of the database, `=` and `IN`
  would fold case too, and the exact strategy with them. The database and
  its collation are not part of this model.
- The row definition (`PinDTO`) is not part of this model. That its primary
  key grows with insertion, so that primary-key order is table order for
  `First`, `FirstOrCreate` and the batched scan, is an assumption.
- That the `created_at` column holds Unix seconds, comparable with the
  `Unix()` value of the time bounds, is an assumption.
- `Repository.PinsRepository.ProcessByStatus`: a store failure during the
  scan ends the stream after the batches already sent. The scan has no
  `fault` parameter, so the model always delivers every matching row.
