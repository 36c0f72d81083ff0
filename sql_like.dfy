/**
 * Two instances of the store's LIKE operator: `Like`, which compares
 * characters exactly, and `ILike`, which first folds ASCII letters to lower
 * case. In a pattern '%' matches any run of characters and '_' any one
 * character; there is no escape character.
 */
module SqlLike {

  predicate Like(v: string, p: string)
    decreases |v| + |p|
  {
    if p == [] then v == []
    else if p[0] == '%' then Like(v, p[1..]) || (v != [] && Like(v[1..], p))
    else v != [] && (p[0] == '_' || p[0] == v[0]) && Like(v[1..], p[1..])
  }

  function LowerChar(c: char): char
  {
    if 'A' <= c <= 'Z' then (c as int - 'A' as int + 'a' as int) as char else c
  }

  function Lower(s: string): (r: string)
    ensures |r| == |s|
    ensures forall i :: 0 <= i < |s| ==> r[i] == LowerChar(s[i])
  {
    seq(|s|, i requires 0 <= i < |s| => LowerChar(s[i]))
  }

  predicate ILike(v: string, p: string)
  {
    Like(Lower(v), Lower(p))
  }

  /** A pattern with no wildcard in it. */
  predicate Literal(p: string)
  {
    forall i :: 0 <= i < |p| ==> p[i] != '%' && p[i] != '_'
  }

  predicate IsPrefix(n: string, v: string)
  {
    |n| <= |v| && v[..|n|] == n
  }

  /** `n` occurs in `v` at some position. */
  predicate Contains(v: string, n: string)
  {
    exists k :: 0 <= k <= |v| && IsPrefix(n, v[k..])
  }

  /** A pattern without wildcards matches only itself. */
  lemma {:induction false} LiteralMatchesItself(v: string, p: string)
    requires Literal(p)
    ensures Like(v, p) <==> v == p
  {
    if p != [] && v != [] {
      assert Literal(p[1..]);
      LiteralMatchesItself(v[1..], p[1..]);
      assert v == [v[0]] + v[1..] && p == [p[0]] + p[1..];
    }
  }

  /** '%' alone matches everything. */
  lemma {:induction false} PercentMatchesAll(v: string)
    ensures Like(v, "%")
  {
    assert "%"[1..] == [];
    if v != [] {
      PercentMatchesAll(v[1..]);
    }
  }

  /** A literal followed by '%' matches exactly the values it begins. */
  lemma {:induction false} LiteralThenPercent(v: string, n: string)
    requires Literal(n)
    ensures Like(v, n + "%") <==> IsPrefix(n, v)
  {
    if n == [] {
      assert n + "%" == "%";
      PercentMatchesAll(v);
    } else {
      assert (n + "%")[0] == n[0];
      assert (n + "%")[1..] == n[1..] + "%";
      assert Literal(n[1..]);
      if v != [] {
        LiteralThenPercent(v[1..], n[1..]);
        if IsPrefix(n, v) {
          assert v[1..][..|n| - 1] == v[..|n|][1..];
        }
      }
    }
  }

  /** A leading '%' lets the rest of the pattern match any suffix. */
  lemma {:induction false} LeadingPercent(v: string, q: string)
    ensures Like(v, "%" + q) <==> exists k :: 0 <= k <= |v| && Like(v[k..], q)
  {
    assert ("%" + q)[0] == '%' && ("%" + q)[1..] == q;
    if v == [] {
      assert Like(v, "%" + q) <==> Like(v[0..], q);
    } else {
      LeadingPercent(v[1..], q);
      if Like(v, "%" + q) {
        if !Like(v, q) {
          var k :| 0 <= k <= |v[1..]| && Like(v[1..][k..], q);
          assert v[1..][k..] == v[k + 1..];
        } else {
          assert v[0..] == v;
        }
      } else {
        forall k | 0 <= k <= |v|
          ensures !Like(v[k..], q)
        {
          if k == 0 {
            assert v[0..] == v;
          } else {
            assert v[1..][k - 1..] == v[k..];
          }
        }
      }
    }
  }

  /** "%n%" for a literal `n` matches exactly the values containing `n`. */
  lemma ContainsPattern(v: string, n: string)
    requires Literal(n)
    ensures Like(v, "%" + n + "%") <==> Contains(v, n)
  {
    assert "%" + n + "%" == "%" + (n + "%");
    LeadingPercent(v, n + "%");
    forall k | 0 <= k <= |v|
      ensures Like(v[k..], n + "%") <==> IsPrefix(n, v[k..])
    {
      LiteralThenPercent(v[k..], n);
    }
  }

  /** Lower-casing cannot create a wildcard. */
  lemma LowerKeepsLiteral(p: string)
    requires Literal(p)
    ensures Literal(Lower(p))
  {
  }
}

/**
 * What the name strategies of the listing query mean once a collation is
 * fixed, for a name with no wildcard in it.
 */
module NameStrategies {
  import opened Pins
  import opened Query
  import SqlLike

  /**
   * When LIKE compares characters exactly, iexact is plain equality (it is
   * no more lenient than exact), and partial and ipartial are both
   * case-sensitive substring search.
   */
  lemma UnderExactCollation(name: string, strategy: string, r: Record)
    requires name != "" && SqlLike.Literal(name)
    ensures strategy == Iexact ==> (NameSelects(name, strategy, SqlLike.Like, r) <==> r.name == name)
    ensures strategy == Partial || strategy == Ipartial ==>
              (NameSelects(name, strategy, SqlLike.Like, r) <==> SqlLike.Contains(r.name, name))
  {
    SqlLike.LiteralMatchesItself(r.name, name);
    SqlLike.ContainsPattern(r.name, name);
  }

  /**
   * When LIKE folds case, iexact is case-insensitive equality, and partial
   * and ipartial are both case-insensitive substring search; exact and
   * every unrecognised strategy still compare exactly.
   */
  lemma UnderFoldingCollation(name: string, strategy: string, r: Record)
    requires name != "" && SqlLike.Literal(name)
    ensures strategy == Iexact ==>
              (NameSelects(name, strategy, SqlLike.ILike, r) <==> SqlLike.Lower(r.name) == SqlLike.Lower(name))
    ensures strategy == Partial || strategy == Ipartial ==>
              (NameSelects(name, strategy, SqlLike.ILike, r) <==>
               SqlLike.Contains(SqlLike.Lower(r.name), SqlLike.Lower(name)))
    ensures strategy != Iexact && strategy != Partial && strategy != Ipartial ==>
              (NameSelects(name, strategy, SqlLike.ILike, r) <==> r.name == name)
  {
    var lname := SqlLike.Lower(name);
    SqlLike.LowerKeepsLiteral(name);
    SqlLike.LiteralMatchesItself(SqlLike.Lower(r.name), lname);
    assert SqlLike.Lower(Surrounded(name)) == "%" + lname + "%";
    SqlLike.ContainsPattern(SqlLike.Lower(r.name), lname);
  }

  /**
   * The name is not escaped: a wildcard in it acts as one, so iexact "a_c"
   * selects a row named "abc" even when LIKE compares characters exactly.
   */
  lemma WildcardsInNameAreLive(r: Record)
    requires r.name == "abc"
    ensures NameSelects("a_c", Iexact, SqlLike.Like, r)
  {
    assert "a_c"[1..] == "_c" && "_c"[1..] == "c" && "c"[1..] == [];
    assert "abc"[1..] == "bc" && "bc"[1..] == "c";
  }
}
