/**
 * The store's primitives over an in-memory table: a sequence of rows in
 * primary-key (insertion) order. Each primitive is the meaning of one call
 * the repository makes on the store: a WHERE selection, First (the first
 * matching row by primary key), FirstOrCreate, Updates and Delete.
 */
module Table {
  import opened Pins

  /** The rows satisfying `p`, in table order. */
  function Where(rows: seq<Record>, p: Record -> bool): (r: seq<Record>)
    ensures |r| <= |rows|
    ensures forall i :: 0 <= i < |r| ==> p(r[i])
  {
    if rows == [] then []
    else if p(rows[0]) then [rows[0]] + Where(rows[1..], p) else Where(rows[1..], p)
  }

  /** The number of rows satisfying `p` (SELECT count(*) ... WHERE p). */
  function Count(rows: seq<Record>, p: Record -> bool): nat
  {
    |Where(rows, p)|
  }

  /** The first row, by primary key, satisfying `p`. */
  function First(rows: seq<Record>, p: Record -> bool): (r: Option<Record>)
    ensures r.None? <==> Where(rows, p) == []
    ensures r.None? <==> forall i :: 0 <= i < |rows| ==> !p(rows[i])
    ensures r.Some? ==> r.value == Where(rows, p)[0] && r.value in rows && p(r.value)
  {
    if rows == [] then None
    else if p(rows[0]) then Some(rows[0])
    else First(rows[1..], p)
  }

  /**
   * The first row satisfying `p` and the table unchanged, or, when there is
   * none, `created` and the table with `created` appended.
   */
  function FirstOrCreate(rows: seq<Record>, p: Record -> bool, created: Record): (Record, seq<Record>)
  {
    match First(rows, p)
    case Some(x) => (x, rows)
    case None => (created, rows + [created])
  }

  /** Every row satisfying `p` replaced by `f` of it; the others untouched. */
  function UpdateWhere(rows: seq<Record>, p: Record -> bool, f: Record -> Record): seq<Record>
  {
    seq(|rows|, i requires 0 <= i < |rows| => if p(rows[i]) then f(rows[i]) else rows[i])
  }

  function Not(p: Record -> bool): Record -> bool
  {
    x => !p(x)
  }

  /** The table without the rows satisfying `p`. */
  function DeleteWhere(rows: seq<Record>, p: Record -> bool): seq<Record>
  {
    Where(rows, Not(p))
  }

  /**
   * A selection keeps every copy of every row satisfying `p` and nothing
   * else: it is exactly the rows of the table that satisfy `p`.
   */
  lemma {:induction false} WhereCounts(rows: seq<Record>, p: Record -> bool)
    ensures forall x :: multiset(Where(rows, p))[x] == if p(x) then multiset(rows)[x] else 0
    ensures multiset(Where(rows, p)) <= multiset(rows)
  {
    if rows != [] {
      assert rows == [rows[0]] + rows[1..];
      WhereCounts(rows[1..], p);
    }
  }

  lemma {:induction false} WhereAppend(rows: seq<Record>, x: Record, p: Record -> bool)
    ensures Where(rows + [x], p) == Where(rows, p) + (if p(x) then [x] else [])
  {
    var tail := if p(x) then [x] else [];
    if rows == [] {
      assert Where([x], p) == tail + Where([], p);
    } else {
      assert (rows + [x])[0] == rows[0];
      assert (rows + [x])[1..] == rows[1..] + [x];
      WhereAppend(rows[1..], x, p);
      if p(rows[0]) {
        calc {
          Where(rows + [x], p);
          [rows[0]] + Where(rows[1..] + [x], p);
          [rows[0]] + (Where(rows[1..], p) + tail);
          ([rows[0]] + Where(rows[1..], p)) + tail;
        }
      }
    }
  }

  /** A selection that every row passes returns the table itself. */
  lemma {:induction false} WhereAll(rows: seq<Record>, p: Record -> bool)
    requires forall i :: 0 <= i < |rows| ==> p(rows[i])
    ensures Where(rows, p) == rows
  {
    if rows != [] {
      WhereAll(rows[1..], p);
    }
  }

  /** Two predicates that agree on every row select the same rows. */
  lemma {:induction false} WhereCongruent(rows: seq<Record>, p: Record -> bool, q: Record -> bool)
    requires forall i :: 0 <= i < |rows| ==> p(rows[i]) == q(rows[i])
    ensures Where(rows, p) == Where(rows, q)
  {
    if rows != [] {
      WhereCongruent(rows[1..], p, q);
    }
  }

  /** A weaker predicate never counts fewer rows. */
  lemma {:induction false} CountMonotone(rows: seq<Record>, p: Record -> bool, q: Record -> bool)
    requires forall i :: 0 <= i < |rows| ==> p(rows[i]) ==> q(rows[i])
    ensures Count(rows, p) <= Count(rows, q)
  {
    if rows != [] {
      CountMonotone(rows[1..], p, q);
    }
  }

  /**
   * FirstOrCreate keyed by `p` is idempotent once the row it would create
   * satisfies `p`: a second call returns the first call's row and leaves the
   * table as the first call left it, whatever row it would have created.
   */
  lemma FirstOrCreateIdempotent(rows: seq<Record>, p: Record -> bool, created: Record, created': Record)
    requires p(created)
    ensures var (x, rows1) := FirstOrCreate(rows, p, created);
            p(x) && FirstOrCreate(rows1, p, created') == (x, rows1) && |rows1| <= |rows| + 1
  {
    if First(rows, p).None? {
      WhereAppend(rows, created, p);
      assert Where(rows + [created], p) == [created];
    }
  }

  /**
   * When `f` keeps the rows selected by `p` selected, the first selected row
   * after the update is `f` of the first selected row before it.
   */
  lemma {:induction false} UpdateWhereFirst(rows: seq<Record>, p: Record -> bool, f: Record -> Record)
    requires forall x :: p(x) ==> p(f(x))
    ensures First(UpdateWhere(rows, p, f), p) ==
            match First(rows, p)
            case Some(x) => Some(f(x))
            case None => None
  {
    if rows != [] {
      assert UpdateWhere(rows, p, f)[1..] == UpdateWhere(rows[1..], p, f);
      UpdateWhereFirst(rows[1..], p, f);
    }
  }
}
