/**
 * The pins repository: the table of pin rows that every operation reads
 * and InsertOrGet, Patch and Delete change. Each operation takes the
 * store's outcome for its call as `fault` (None when the store call
 * succeeds, Some(message) when it fails).
 */
module Repository {
  import opened Pins
  import Table
  import Query

  /** The rows FindByID, Patch and Delete address: uuid `id` owned by `userId`. */
  function ById(userId: nat, id: string): Record -> bool
  {
    (r: Record) => r.uuid == id && r.userId == userId
  }

  /** The key InsertOrGet finds or creates by: (owner, CID). */
  function ByOwnerCid(userId: nat, cid: string): Record -> bool
  {
    (r: Record) => r.userId == userId && r.cid == cid
  }

  /** The rows that reference a CID, whoever owns them. */
  function ByCid(cid: string): Record -> bool
  {
    (r: Record) => r.cid == cid
  }

  function Patcher(fields: Update): Record -> Record
  {
    r => Apply(r, fields)
  }

  /**
   * The row InsertOrGet inserts when none exists for the key: the caller's
   * record owned by `userId`. Its UUID is blanked before the insert; the
   * caller's UUID comes back only through the create-time attributes, and
   * only when it is not empty; otherwise the store's default, `freshId`,
   * fills the column.
   */
  function Created(userId: nat, pin: Record, freshId: string): Record
  {
    var uuid := pin.uuid;
    var row := pin.(userId := userId, uuid := "");
    var row := if uuid != "" then row.(uuid := uuid) else row;
    if row.uuid == "" then row.(uuid := freshId) else row
  }

  /** At most one row per (owner, CID) pair. */
  predicate UniquePairs(rows: seq<Record>)
  {
    forall i, j :: 0 <= i < j < |rows| ==> !(rows[i].userId == rows[j].userId && rows[i].cid == rows[j].cid)
  }

  /** The message a patch naming a column the table does not have fails with. */
  const UnknownColumn := "unknown column"

  /** Every row keeps its further columns within the table's `columns`. */
  predicate Conforms(rows: seq<Record>, columns: set<string>)
  {
    forall i :: 0 <= i < |rows| ==> rows[i].others.Keys <= columns
  }

  class PinsRepository {
    /** The pins table, in primary-key (insertion) order. */
    var rows: seq<Record>
    /** The table's columns besides the six the queries name. */
    const columns: set<string>

    /** Every row has only the table's columns, as every row the store holds does. */
    predicate Valid()
      reads this
    {
      Conforms(rows, columns)
    }

    constructor (initial: seq<Record>, schema: set<string>)
      requires Conforms(initial, schema)
      ensures rows == initial && columns == schema
      ensures Valid()
    {
      rows := initial;
      columns := schema;
    }

    /**
     * Find-or-create keyed by (userId, pin.cid): the first such row, table
     * unchanged, or else the created row, appended. The record has the
     * table's columns, as every record of the row type does.
     */
    method InsertOrGet(userId: nat, pin: Record, freshId: string, fault: Option<string>) returns (r: Result<Record>)
      requires Valid() && pin.others.Keys <= columns
      modifies this
      ensures Valid()
      ensures fault.Some? ==> r == Failure(StoreError(fault.value)) && rows == old(rows)
      ensures fault.None? ==>
                r.Success? && (r.value, rows) == Table.FirstOrCreate(old(rows), ByOwnerCid(userId, pin.cid), Created(userId, pin, freshId))
      ensures r.Success? ==> r.value.userId == userId && r.value.cid == pin.cid
      ensures r.Success? && Table.First(old(rows), ByOwnerCid(userId, pin.cid)).Some? ==>
                rows == old(rows) && r.value == Table.First(old(rows), ByOwnerCid(userId, pin.cid)).value
      ensures r.Success? && Table.First(old(rows), ByOwnerCid(userId, pin.cid)).None? ==>
                && rows == old(rows) + [r.value]
                && r.value.uuid == (if pin.uuid != "" then pin.uuid else freshId)
                && r.value == pin.(userId := userId, uuid := r.value.uuid)
    {
      if fault.Some? {
        return Failure(StoreError(fault.value));
      }
      var created := Created(userId, pin, freshId);
      var (row, table) := Table.FirstOrCreate(rows, ByOwnerCid(userId, pin.cid), created);
      assert forall i :: 0 <= i < |table| ==> table[i] == created || table[i] == rows[i];
      rows := table;
      r := Success(row);
    }

    /**
     * Overwrites the columns named in `fields` in every row with uuid `id`
     * owned by `userId`; matching no row is success. A column the table
     * does not have makes the statement fail, whether or not a row matches.
     */
    method Patch(userId: nat, id: string, fields: Update, fault: Option<string>) returns (r: Outcome)
      requires Valid()
      modifies this
      ensures Valid()
      ensures fault.Some? ==> r == Fail(StoreError(fault.value)) && rows == old(rows)
      ensures fault.None? && !(fields.others.Keys <= columns) ==>
                r == Fail(StoreError(UnknownColumn)) && rows == old(rows)
      ensures fault.None? && fields.others.Keys <= columns ==>
                r == Pass && rows == Table.UpdateWhere(old(rows), ById(userId, id), Patcher(fields))
      ensures |rows| == |old(rows)|
      ensures forall i :: 0 <= i < |rows| ==>
                rows[i] == if r == Pass && old(rows)[i].uuid == id && old(rows)[i].userId == userId
                           then Apply(old(rows)[i], fields) else old(rows)[i]
    {
      if fault.Some? {
        return Fail(StoreError(fault.value));
      }
      if !(fields.others.Keys <= columns) {
        return Fail(StoreError(UnknownColumn));
      }
      PatchKeepsColumns(rows, userId, id, fields, columns);
      rows := Table.UpdateWhere(rows, ById(userId, id), Patcher(fields));
      r := Pass;
    }

    /**
     * The first row with uuid `id` owned by `userId`. Any failure, a store
     * failure included, reads as no row and is reported as IdNotExists.
     */
    method FindByID(userId: nat, id: string, fault: Option<string>) returns (r: Result<Record>)
      ensures r.Failure? ==> r.error == IdNotExists
      ensures r.Success? <==>
                fault.None? && exists i :: 0 <= i < |rows| && rows[i].uuid == id && rows[i].userId == userId
      ensures r.Success? ==> r.value in rows && r.value.uuid == id && r.value.userId == userId
      ensures r.Success? ==> Table.First(rows, ById(userId, id)) == Some(r.value)
    {
      if fault.Some? {
        return Failure(IdNotExists);
      }
      match Table.First(rows, ById(userId, id))
      case Some(row) =>
        r := Success(row);
      case None =>
        r := Failure(IdNotExists);
    }

    /**
     * The listing: the count of every row the filters select, narrowed to
     * an int32, and the page of at most `limit` of them, newest first,
     * copied out row by row.
     */
    method Find(userId: nat, cids: seq<string>, statuses: seq<string>, name: string,
                before: Option<int>, after: Option<int>, strategy: string, limit: int,
                like: Query.Like, fault: Option<string>)
      returns (r: Result<Query.PinResults>)
      ensures fault.Some? ==> r == Failure(StoreError(fault.value))
      ensures fault.None? ==>
                r == Success(Query.Run(rows, Query.Filter(userId, cids, statuses, name, before, after, strategy), like, limit))
      ensures r.Success? ==>
                var f := Query.Filter(userId, cids, statuses, name, before, after, strategy);
                && r.value.count == Query.Int32(Table.Count(rows, Query.Selector(f, like)))
                && (0 <= limit ==> |r.value.results| <= limit)
                && Query.NewestFirst(r.value.results)
                && forall i :: 0 <= i < |r.value.results| ==>
                     r.value.results[i] in rows && Query.Selects(f, like, r.value.results[i])
    {
      var f := Query.Filter(userId, cids, statuses, name, before, after, strategy);
      var count := Table.Count(rows, Query.Selector(f, like));
      if fault.Some? {
        return Failure(StoreError(fault.value));
      }
      var pins := Query.Page(rows, f, like, limit);
      var filtered: seq<Record> := [];
      for i := 0 to |pins|
        invariant filtered == pins[..i]
      {
        filtered := filtered + [pins[i]];
      }
      assert filtered == pins;
      Query.PageRowsMatch(rows, f, like, limit);
      Query.PageIsNewestMatches(rows, f, like, limit);
      r := Success(Query.PinResults(Query.Int32(count), filtered));
    }

    /** Removes every row with uuid `id` owned by `userId`; none is success. */
    method Delete(userId: nat, id: string, fault: Option<string>) returns (r: Outcome)
      requires Valid()
      modifies this
      ensures Valid()
      ensures fault.Some? ==> r == Fail(StoreError(fault.value)) && rows == old(rows)
      ensures fault.None? ==> r == Pass && rows == Table.DeleteWhere(old(rows), ById(userId, id))
      ensures fault.None? ==> forall i :: 0 <= i < |rows| ==> !(rows[i].uuid == id && rows[i].userId == userId)
    {
      if fault.Some? {
        return Fail(StoreError(fault.value));
      }
      DeleteKeepsColumns(rows, userId, id, columns);
      rows := Table.DeleteWhere(rows, ById(userId, id));
      r := Pass;
    }

    /** How many rows, of any owner, reference `cid`. */
    method CIDRefrenceCount(cid: string, fault: Option<string>) returns (r: Result<nat>)
      ensures fault.Some? ==> r == Failure(StoreError(fault.value))
      ensures fault.None? ==> r == Success(Table.Count(rows, ByCid(cid)))
      ensures r.Success? ==> r.value <= |rows|
      ensures r.Success? ==> (r.value == 0 <==> forall i :: 0 <= i < |rows| ==> rows[i].cid != cid)
    {
      if fault.Some? {
        return Failure(StoreError(fault.value));
      }
      ReferenceCountZeroIffUnreferenced(rows, cid);
      r := Success(Table.Count(rows, ByCid(cid)));
    }

    /**
     * The rows the background scan hands out, all batches concatenated: the
     * rows whose status is listed (every row when none is), in table order.
     */
    method ProcessByStatus(statuses: seq<string>) returns (scanned: seq<Record>)
      ensures scanned == Query.ScanByStatus(rows, statuses)
      ensures forall i :: 0 <= i < |scanned| ==> statuses == [] || scanned[i].status in statuses
      ensures forall x :: x in rows && (statuses == [] || x.status in statuses) ==>
                multiset(scanned)[x] == multiset(rows)[x]
    {
      scanned := Query.ScanByStatus(rows, statuses);
      Table.WhereCounts(rows, r => Query.StatusSelects(statuses, r));
    }
  }

  // ---------------------------------------------------------------------
  // Properties of sequences of operations, over the table

  /**
   * Two InsertOrGet calls for the same (owner, CID) add at most one row
   * between them and return the same row, hence the same UUID, whatever
   * the second caller's record and store-default UUID are.
   */
  lemma InsertOrGetTwice(rows: seq<Record>, userId: nat, pin: Record, pin': Record, freshId: string, freshId': string)
    requires pin'.cid == pin.cid
    ensures var (x, rows1) := Table.FirstOrCreate(rows, ByOwnerCid(userId, pin.cid), Created(userId, pin, freshId));
            && Table.FirstOrCreate(rows1, ByOwnerCid(userId, pin'.cid), Created(userId, pin', freshId')) == (x, rows1)
            && |rows1| <= |rows| + 1
            && x.userId == userId && x.cid == pin.cid
  {
    Table.FirstOrCreateIdempotent(rows, ByOwnerCid(userId, pin.cid), Created(userId, pin, freshId), Created(userId, pin', freshId'));
  }

  /** Run one call at a time, InsertOrGet never puts a second row under a key. */
  lemma InsertOrGetKeepsPairsUnique(rows: seq<Record>, userId: nat, pin: Record, freshId: string)
    requires UniquePairs(rows)
    ensures UniquePairs(Table.FirstOrCreate(rows, ByOwnerCid(userId, pin.cid), Created(userId, pin, freshId)).1)
  {
    var p := ByOwnerCid(userId, pin.cid);
    if Table.First(rows, p).None? {
      var created := Created(userId, pin, freshId);
      var rows1 := rows + [created];
      forall i, j | 0 <= i < j < |rows1|
        ensures !(rows1[i].userId == rows1[j].userId && rows1[i].cid == rows1[j].cid)
      {
        if j == |rows| {
          assert !p(rows[i]);
        }
      }
    }
  }

  /** After InsertOrGet the CID is referenced, by at most one more row than before. */
  lemma InsertOrGetReferencesCid(rows: seq<Record>, userId: nat, pin: Record, freshId: string)
    ensures var rows1 := Table.FirstOrCreate(rows, ByOwnerCid(userId, pin.cid), Created(userId, pin, freshId)).1;
            var before := Table.Count(rows, ByCid(pin.cid));
            var after := Table.Count(rows1, ByCid(pin.cid));
            after >= 1 && before <= after <= before + 1
  {
    var p := ByOwnerCid(userId, pin.cid);
    match Table.First(rows, p)
    case Some(x) =>
      Table.CountMonotone(rows, p, ByCid(pin.cid));
    case None =>
      Table.WhereAppend(rows, Created(userId, pin, freshId), ByCid(pin.cid));
  }

  /**
   * Patch followed by FindByID for the same (id, owner) finds the patched
   * row, provided the patch keeps the row's id and owner: the columns named
   * in the patch have their new values and every other column its old one.
   */
  lemma PatchThenFindByID(rows: seq<Record>, userId: nat, id: string, fields: Update)
    requires fields.uuid.None? || fields.uuid == Some(id)
    requires fields.userId.None? || fields.userId == Some(userId)
    ensures var rows1 := Table.UpdateWhere(rows, ById(userId, id), Patcher(fields));
            Table.First(rows1, ById(userId, id)) ==
              match Table.First(rows, ById(userId, id))
              case Some(x) => Some(Apply(x, fields))
              case None => None
  {
    Table.UpdateWhereFirst(rows, ById(userId, id), Patcher(fields));
  }

  /**
   * A patch that names neither owner nor CID moves no row to another
   * (owner, CID) pair, so it keeps the pairs unique.
   */
  lemma PatchKeepsPairs(rows: seq<Record>, userId: nat, id: string, fields: Update)
    requires fields.userId.None? && fields.cid.None?
    ensures var rows1 := Table.UpdateWhere(rows, ById(userId, id), Patcher(fields));
            && |rows1| == |rows|
            && (forall i :: 0 <= i < |rows| ==> rows1[i].userId == rows[i].userId && rows1[i].cid == rows[i].cid)
            && (UniquePairs(rows) ==> UniquePairs(rows1))
  {
  }

  /**
   * A patch that names only columns the table has gives no row a column
   * outside the table's columns.
   */
  lemma PatchKeepsColumns(rows: seq<Record>, userId: nat, id: string, fields: Update, columns: set<string>)
    requires Conforms(rows, columns) && fields.others.Keys <= columns
    ensures Conforms(Table.UpdateWhere(rows, ById(userId, id), Patcher(fields)), columns)
  {
    var rows1 := Table.UpdateWhere(rows, ById(userId, id), Patcher(fields));
    forall i | 0 <= i < |rows1|
      ensures rows1[i].others.Keys <= columns
    {
      ApplyKeepsUnnamedColumns(rows[i], fields);
    }
  }

  /** A patch that matches no row leaves the table as it was. */
  lemma PatchWithoutMatch(rows: seq<Record>, userId: nat, id: string, fields: Update)
    requires forall i :: 0 <= i < |rows| ==> !(rows[i].uuid == id && rows[i].userId == userId)
    ensures Table.UpdateWhere(rows, ById(userId, id), Patcher(fields)) == rows
  {
  }

  /**
   * Delete removes every copy of the (id, owner) rows and keeps every copy
   * of every other row, another owner's row with the same id included; a
   * following FindByID finds nothing.
   */
  lemma DeleteRemovesExactlyMatches(rows: seq<Record>, userId: nat, id: string)
    ensures var rows1 := Table.DeleteWhere(rows, ById(userId, id));
            && (forall x :: multiset(rows1)[x] == if x.uuid == id && x.userId == userId then 0 else multiset(rows)[x])
            && Table.First(rows1, ById(userId, id)).None?
  {
    var keep := Table.Not(ById(userId, id));
    Table.WhereCounts(rows, keep);
    var rows1 := Table.DeleteWhere(rows, ById(userId, id));
    assert forall i :: 0 <= i < |rows1| ==> keep(rows1[i]);
  }

  /** Delete keeps only rows of the table, so it keeps their columns. */
  lemma DeleteKeepsColumns(rows: seq<Record>, userId: nat, id: string, columns: set<string>)
    requires Conforms(rows, columns)
    ensures Conforms(Table.DeleteWhere(rows, ById(userId, id)), columns)
  {
    var rows1 := Table.DeleteWhere(rows, ById(userId, id));
    Table.WhereCounts(rows, Table.Not(ById(userId, id)));
    forall i | 0 <= i < |rows1|
      ensures rows1[i].others.Keys <= columns
    {
      assert rows1[i] in multiset(rows1);
      assert rows1[i] in rows;
    }
  }

  /** Deleting an (id, owner) pair that matches nothing changes nothing. */
  lemma DeleteWithoutMatch(rows: seq<Record>, userId: nat, id: string)
    requires forall i :: 0 <= i < |rows| ==> !(rows[i].uuid == id && rows[i].userId == userId)
    ensures Table.DeleteWhere(rows, ById(userId, id)) == rows
  {
    Table.WhereAll(rows, Table.Not(ById(userId, id)));
  }

  /** The reference count is zero exactly when no row references the CID. */
  lemma ReferenceCountZeroIffUnreferenced(rows: seq<Record>, cid: string)
    ensures Table.Count(rows, ByCid(cid)) <= |rows|
    ensures Table.Count(rows, ByCid(cid)) == 0 <==> forall i :: 0 <= i < |rows| ==> rows[i].cid != cid
  {
    var first := Table.First(rows, ByCid(cid));
  }

  /**
   * The reference count is global: it is never less than the count of any
   * one owner's rows for the CID, and it equals the number of rows an
   * unscoped listing (owner 0) filtered by that CID alone matches, before
   * the listing narrows that number to an int32.
   */
  lemma ReferenceCountIsGlobal(rows: seq<Record>, cid: string, userId: nat, like: Query.Like)
    ensures Table.Count(rows, ByOwnerCid(userId, cid)) <= Table.Count(rows, ByCid(cid))
    ensures Table.Count(rows, ByCid(cid)) == |Query.Matching(rows, Query.NoFilter(Query.Exact).(cids := [cid]), like)|
  {
    Table.CountMonotone(rows, ByOwnerCid(userId, cid), ByCid(cid));
    var f := Query.NoFilter(Query.Exact).(cids := [cid]);
    Table.WhereCongruent(rows, ByCid(cid), Query.Selector(f, like));
  }
}
