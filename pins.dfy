/**
 * Values of the pins table: one row per pin request, the partial update
 * that Patch applies, and the outcomes the repository hands back.
 */
module Pins {

  datatype Option<+T> = None | Some(value: T)

  /** What a repository operation can fail with. */
  datatype Error =
    | IdNotExists                  // FindByID: no row for (id, owner)
    | StoreError(message: string)  // any failure the store reports for the call

  datatype Result<+T> = Success(value: T) | Failure(error: Error)

  /** The result of an operation that returns only an error (Patch, Delete). */
  datatype Outcome = Pass | Fail(error: Error)

  /**
   * A persisted pin row. `createdAt` is in Unix seconds; `others` stands for
   * the columns of the row besides the six the queries name, keyed by column.
   */
  datatype Record = Record(
    userId: nat,
    cid: string,
    uuid: string,
    name: string,
    status: string,
    createdAt: int,
    others: map<string, string>)

  /**
   * The column map given to Patch: a column is updated exactly when the map
   * names it (`Some` here, or a key of `others`).
   */
  datatype Update = Update(
    userId: Option<nat>,
    cid: Option<string>,
    uuid: Option<string>,
    name: Option<string>,
    status: Option<string>,
    createdAt: Option<int>,
    others: map<string, string>)

  function Pick<T>(v: Option<T>, current: T): T
  {
    match v
    case Some(x) => x
    case None => current
  }

  /** The row after the columns named in `u` have been overwritten. */
  function Apply(r: Record, u: Update): Record
  {
    Record(
      Pick(u.userId, r.userId),
      Pick(u.cid, r.cid),
      Pick(u.uuid, r.uuid),
      Pick(u.name, r.name),
      Pick(u.status, r.status),
      Pick(u.createdAt, r.createdAt),
      r.others + u.others)
  }

  /** Applying an update leaves every column it does not name as it was. */
  lemma ApplyKeepsUnnamedColumns(r: Record, u: Update)
    ensures u.userId.None? ==> Apply(r, u).userId == r.userId
    ensures u.cid.None? ==> Apply(r, u).cid == r.cid
    ensures u.uuid.None? ==> Apply(r, u).uuid == r.uuid
    ensures u.name.None? ==> Apply(r, u).name == r.name
    ensures u.status.None? ==> Apply(r, u).status == r.status
    ensures u.createdAt.None? ==> Apply(r, u).createdAt == r.createdAt
    ensures forall k :: k in r.others && k !in u.others ==> k in Apply(r, u).others && Apply(r, u).others[k] == r.others[k]
    ensures forall k :: k in u.others ==> k in Apply(r, u).others && Apply(r, u).others[k] == u.others[k]
    ensures Apply(r, u).others.Keys == r.others.Keys + u.others.Keys
  {
  }
}
