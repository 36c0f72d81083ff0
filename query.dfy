/**
 * The listing query of the pins repository: a conjunction of independently
 * toggled filters, a count taken over every matching row, and a page of at
 * most `limit` matching rows, newest first.
 */
module Query {
  import opened Pins
  import Table

  /** The text matching strategies the API accepts for the name filter. */
  const Exact := "exact"
  const Iexact := "iexact"
  const Partial := "partial"
  const Ipartial := "ipartial"

  /**
   * The store's `value LIKE pattern`. Which characters it treats as equal
   * depends on the database collation, so every query takes it as a
   * parameter.
   */
  type Like = (string, string) -> bool

  /**
   * The criteria of one listing. A criterion is off when it is at its zero
   * value: empty `cids`, `statuses` or `name`, `userId == 0`, or a time bound
   * that is `None` (the zero time).
   */
  datatype Filter = Filter(
    userId: nat,
    cids: seq<string>,
    statuses: seq<string>,
    name: string,
    before: Option<int>,
    after: Option<int>,
    strategy: string)

  /** What Find returns: the number of matches, as an int32, and the page. */
  datatype PinResults = PinResults(count: int, results: seq<Record>)

  predicate CidSelects(cids: seq<string>, r: Record)
  {
    |cids| == 0 || r.cid in cids
  }

  /** The pattern compared against with LIKE for the partial strategies. */
  function Surrounded(name: string): string
  {
    "%" + name + "%"
  }

  predicate NameSelects(name: string, strategy: string, like: Like, r: Record)
  {
    name == "" ||
    if strategy == Iexact then like(r.name, name)
    else if strategy == Partial || strategy == Ipartial then like(r.name, Surrounded(name))
    else r.name == name
  }

  predicate StatusSelects(statuses: seq<string>, r: Record)
  {
    |statuses| == 0 || r.status in statuses
  }

  predicate OwnerSelects(userId: nat, r: Record)
  {
    userId == 0 || r.userId == userId
  }

  predicate BeforeSelects(before: Option<int>, r: Record)
  {
    before.None? || r.createdAt < before.value
  }

  predicate AfterSelects(after: Option<int>, r: Record)
  {
    after.None? || r.createdAt > after.value
  }

  /** The whole WHERE clause of the listing query, for one row. */
  predicate Selects(f: Filter, like: Like, r: Record)
  {
    && CidSelects(f.cids, r)
    && NameSelects(f.name, f.strategy, like, r)
    && StatusSelects(f.statuses, r)
    && OwnerSelects(f.userId, r)
    && BeforeSelects(f.before, r)
    && AfterSelects(f.after, r)
  }

  function Selector(f: Filter, like: Like): Record -> bool
  {
    r => Selects(f, like, r)
  }

  /** The matching rows, in table order. */
  function Matching(rows: seq<Record>, f: Filter, like: Like): seq<Record>
  {
    Table.Where(rows, Selector(f, like))
  }

  /** Sorted by creation time, newest first. */
  predicate NewestFirst(s: seq<Record>)
  {
    forall i, j :: 0 <= i < j < |s| ==> s[j].createdAt <= s[i].createdAt
  }

  /**
   * `x` placed in a newest-first sequence, ahead of the rows created at the
   * same second.
   */
  function InsertByCreation(x: Record, s: seq<Record>): (r: seq<Record>)
    ensures |r| == |s| + 1
    ensures multiset(r) == multiset(s) + multiset{x}
    ensures r[0] == x || (s != [] && r[0] == s[0])
  {
    if s == [] || s[0].createdAt <= x.createdAt then [x] + s
    else
      assert s == [s[0]] + s[1..];
      [s[0]] + InsertByCreation(x, s[1..])
  }

  lemma {:induction false} InsertKeepsNewestFirst(x: Record, s: seq<Record>)
    requires NewestFirst(s)
    ensures NewestFirst(InsertByCreation(x, s))
  {
    var r := InsertByCreation(x, s);
    if s == [] || s[0].createdAt <= x.createdAt {
      assert r == [x] + s;
      forall i, j | 0 <= i < j < |r|
        ensures r[j].createdAt <= r[i].createdAt
      {
        if i == 0 && j > 1 {
          assert r[j] == s[j - 1] && s[j - 1].createdAt <= s[0].createdAt;
        }
      }
    } else {
      var rest := InsertByCreation(x, s[1..]);
      assert r == [s[0]] + rest;
      InsertKeepsNewestFirst(x, s[1..]);
      assert rest[0].createdAt <= s[0].createdAt;
      forall i, j | 0 <= i < j < |r|
        ensures r[j].createdAt <= r[i].createdAt
      {
        if i == 0 {
          assert r[j] == rest[j - 1];
          assert rest[j - 1].createdAt <= rest[0].createdAt;
        } else {
          assert r[i] == rest[i - 1] && r[j] == rest[j - 1];
        }
      }
    }
  }

  /**
   * ORDER BY created_at DESC. Rows created at the same second keep their
   * table order, so the order is a function of the table.
   */
  function SortNewestFirst(s: seq<Record>): (r: seq<Record>)
    ensures |r| == |s|
    ensures multiset(r) == multiset(s)
    ensures NewestFirst(r)
  {
    if s == [] then []
    else
      assert s == [s[0]] + s[1..];
      InsertKeepsNewestFirst(s[0], SortNewestFirst(s[1..]));
      InsertByCreation(s[0], SortNewestFirst(s[1..]))
  }

  /** LIMIT: a negative limit means no limit. */
  function Take(s: seq<Record>, limit: int): seq<Record>
  {
    if 0 <= limit < |s| then s[..limit] else s
  }

  /** The page Find returns: matching rows, newest first, at most `limit`. */
  function Page(rows: seq<Record>, f: Filter, like: Like, limit: int): seq<Record>
  {
    Take(SortNewestFirst(Matching(rows, f, like)), limit)
  }

  /** Go's int32(n): the two's-complement wrap of n into 32 bits. */
  function Int32(n: int): (r: int)
    ensures -0x8000_0000 <= r < 0x8000_0000
    ensures (n - r) % 0x1_0000_0000 == 0
    ensures -0x8000_0000 <= n < 0x8000_0000 ==> r == n
  {
    (n + 0x8000_0000) % 0x1_0000_0000 - 0x8000_0000
  }

  /** The listing: the narrowed count of all matches and one page of them. */
  function Run(rows: seq<Record>, f: Filter, like: Like, limit: int): PinResults
  {
    PinResults(Int32(|Matching(rows, f, like)|), Page(rows, f, like, limit))
  }

  /** The rows ProcessByStatus scans: those whose status is listed, or all. */
  function ScanByStatus(rows: seq<Record>, statuses: seq<string>): seq<Record>
  {
    Table.Where(rows, r => StatusSelects(statuses, r))
  }

  /** A filter with every criterion off. */
  function NoFilter(strategy: string): Filter
  {
    Filter(0, [], [], "", None, None, strategy)
  }

  // ---------------------------------------------------------------------
  // The filters

  /** With every criterion at its zero value the query selects every row. */
  lemma OffFiltersSelectEverything(rows: seq<Record>, strategy: string, like: Like)
    ensures Matching(rows, NoFilter(strategy), like) == rows
  {
    Table.WhereAll(rows, Selector(NoFilter(strategy), like));
  }

  /**
   * Each criterion is a separate conjunct: a row is selected exactly when it
   * is selected with that criterion switched off and, if the criterion is
   * on, it satisfies the criterion.
   */
  lemma FiltersAreConjoined(f: Filter, like: Like, r: Record)
    ensures Selects(f, like, r) <==>
            Selects(f.(cids := []), like, r) && (f.cids == [] || r.cid in f.cids)
    ensures Selects(f, like, r) <==>
            Selects(f.(statuses := []), like, r) && (f.statuses == [] || r.status in f.statuses)
    ensures Selects(f, like, r) <==>
            Selects(f.(userId := 0), like, r) && (f.userId == 0 || r.userId == f.userId)
    ensures Selects(f, like, r) <==>
            Selects(f.(name := ""), like, r) && NameSelects(f.name, f.strategy, like, r)
    ensures Selects(f, like, r) <==>
            Selects(f.(before := None), like, r) && (f.before.None? || r.createdAt < f.before.value)
    ensures Selects(f, like, r) <==>
            Selects(f.(after := None), like, r) && (f.after.None? || r.createdAt > f.after.value)
  {
  }

  /**
   * The name filter by strategy: iexact compares with LIKE against the bare
   * name, partial and ipartial both against "%name%", and every other
   * strategy (exact included) with equality.
   */
  lemma NameFilterByStrategy(name: string, strategy: string, like: Like, r: Record)
    requires name != ""
    ensures strategy == Iexact ==> (NameSelects(name, strategy, like, r) <==> like(r.name, name))
    ensures strategy == Partial || strategy == Ipartial ==>
              (NameSelects(name, strategy, like, r) <==> like(r.name, "%" + name + "%"))
    ensures NameSelects(name, Partial, like, r) == NameSelects(name, Ipartial, like, r)
    ensures strategy != Iexact && strategy != Partial && strategy != Ipartial ==>
              (NameSelects(name, strategy, like, r) <==> r.name == name)
    ensures strategy != Iexact && strategy != Partial && strategy != Ipartial ==>
              NameSelects(name, strategy, like, r) == NameSelects(name, Exact, like, r)
  {
  }

  // ---------------------------------------------------------------------
  // Ordering and limiting

  /** A limited sequence is a prefix of the sequence. */
  lemma TakeIsPrefix(s: seq<Record>, limit: int)
    ensures var t := Take(s, limit); |t| <= |s| && t == s[..|t|]
    ensures multiset(Take(s, limit)) <= multiset(s)
  {
    var t := Take(s, limit);
    assert s == t + s[|t|..];
    assert multiset(s) == multiset(t) + multiset(s[|t|..]);
  }

  /** Every row of the page is a matching row of the table. */
  lemma {:induction false} PageRowsMatch(rows: seq<Record>, f: Filter, like: Like, limit: int)
    ensures multiset(Page(rows, f, like, limit)) <= multiset(Matching(rows, f, like))
    ensures multiset(Page(rows, f, like, limit)) <= multiset(rows)
    ensures forall i :: 0 <= i < |Page(rows, f, like, limit)| ==>
              Page(rows, f, like, limit)[i] in rows && Selects(f, like, Page(rows, f, like, limit)[i])
  {
    var m := Matching(rows, f, like);
    var page := Page(rows, f, like, limit);
    TakeIsPrefix(SortNewestFirst(m), limit);
    Table.WhereCounts(rows, Selector(f, like));
    assert multiset(page) <= multiset(m);
    forall i | 0 <= i < |page|
      ensures page[i] in rows && Selects(f, like, page[i])
    {
      assert page[i] in multiset(m);
      var k :| 0 <= k < |m| && m[k] == page[i];
      assert Selector(f, like)(m[k]);
    }
  }

  /**
   * The page holds at most `limit` rows (all matches when `limit` is
   * negative), is ordered newest first, and, when the limit cuts it short,
   * holds the newest matches: a matching row created strictly later than
   * some row of the page is on the page.
   */
  lemma {:induction false} PageIsNewestMatches(rows: seq<Record>, f: Filter, like: Like, limit: int)
    ensures var page := Page(rows, f, like, limit);
            var n := |Matching(rows, f, like)|;
            && (0 <= limit ==> |page| == if limit < n then limit else n)
            && (limit < 0 ==> |page| == n)
            && NewestFirst(page)
    ensures var page := Page(rows, f, like, limit);
            forall x, i :: x in rows && Selects(f, like, x) && 0 <= i < |page| && page[i].createdAt < x.createdAt ==> x in page
  {
    var m := Matching(rows, f, like);
    var sorted := SortNewestFirst(m);
    var page := Page(rows, f, like, limit);
    TakeIsPrefix(sorted, limit);
    Table.WhereCounts(rows, Selector(f, like));
    forall x, i | x in rows && Selects(f, like, x) && 0 <= i < |page| && page[i].createdAt < x.createdAt
      ensures x in page
    {
      assert Selector(f, like)(x);
      assert x in multiset(m);
      assert x in multiset(sorted);
      var j :| 0 <= j < |sorted| && sorted[j] == x;
      assert sorted[i] == page[i];
      assert j < |page|;
      assert page[j] == x;
    }
  }

  /**
   * The count is taken before LIMIT: it is the same for every limit, and
   * as long as the matches fit in an int32 it equals their number and is
   * never less than the length of the page.
   */
  lemma CountIgnoresLimit(rows: seq<Record>, f: Filter, like: Like, limit: int, limit': int)
    ensures Run(rows, f, like, limit).count == Run(rows, f, like, limit').count
    ensures |Matching(rows, f, like)| < 0x8000_0000 ==>
              Run(rows, f, like, limit).count == |Matching(rows, f, like)| >= |Run(rows, f, like, limit).results|
  {
  }

  /** The time bounds are strict, and a non-zero owner scopes the page. */
  lemma {:induction false} PageRespectsBoundsAndOwner(rows: seq<Record>, f: Filter, like: Like, limit: int)
    ensures var page := Page(rows, f, like, limit);
            && (f.before.Some? ==> forall i :: 0 <= i < |page| ==> page[i].createdAt < f.before.value)
            && (f.after.Some? ==> forall i :: 0 <= i < |page| ==> page[i].createdAt > f.after.value)
            && (f.userId != 0 ==> forall i :: 0 <= i < |page| ==> page[i].userId == f.userId)
            && (f.cids != [] ==> forall i :: 0 <= i < |page| ==> page[i].cid in f.cids)
            && (f.statuses != [] ==> forall i :: 0 <= i < |page| ==> page[i].status in f.statuses)
  {
    PageRowsMatch(rows, f, like, limit);
  }

  /**
   * The rows ProcessByStatus scans are, counting repetitions, the rows an
   * unlimited listing with only the same status filter returns.
   */
  lemma {:induction false} ScanAgreesWithListing(rows: seq<Record>, statuses: seq<string>, strategy: string, like: Like)
    ensures multiset(ScanByStatus(rows, statuses)) ==
            multiset(Page(rows, NoFilter(strategy).(statuses := statuses), like, -1))
  {
    var f := NoFilter(strategy).(statuses := statuses);
    var scan := r => StatusSelects(statuses, r);
    forall i | 0 <= i < |rows|
      ensures scan(rows[i]) == Selector(f, like)(rows[i])
    {
    }
    Table.WhereCongruent(rows, scan, Selector(f, like));
    assert Page(rows, f, like, -1) == SortNewestFirst(Matching(rows, f, like));
  }
}
