/**
 * The query rewriting `DBConnection` performs so that one SQL text, written for SQLite,
 * also runs on PostgreSQL.
 */
module DbConnection {
  import opened Strings

  /** Which driver the connection wraps (`is_postgres`). */
  datatype Dialect = Sqlite | Postgres

  /**
   * The text `execute` hands to the driver: unchanged for SQLite; for PostgreSQL every
   * `?` placeholder becomes `%s` and `AUTOINCREMENT` becomes `SERIAL`.
   */
  function Execute(d: Dialect, query: string): (r: string)
    ensures d == Sqlite ==> r == query
    ensures d == Postgres ==> '?' !in r && !IsInfix("AUTOINCREMENT", r)
  {
    match d
    case Sqlite => query
    case Postgres =>
      var placeholders := Replace(query, "?", "%s");
      ReplaceRemovesChar(query, '?', "%s");
      ReplaceKeepsAbsent(placeholders, "AUTOINCREMENT", "SERIAL", '?');
      SerialCannotStartAutoincrement();
      ReplaceRemovesAll(placeholders, "AUTOINCREMENT", "SERIAL");
      Replace(placeholders, "AUTOINCREMENT", "SERIAL")
  }

  /** `SERIAL` can neither hold nor begin an `AUTOINCREMENT`, so the rewrite cannot recreate one. */
  lemma SerialCannotStartAutoincrement()
    ensures NoOverlapTail("SERIAL", "AUTOINCREMENT") && 'S' !in "AUTOINCREMENT"
  {
    var a, p := "SERIAL", "AUTOINCREMENT";
    forall k | 0 <= k < |a|
      ensures !IsPrefix(a[k..], p) && !IsPrefix(p, a[k..])
    {
      assert a[k..][0] == a[k];
      if k == 4 {
        assert a[k..][1] != p[1];
      }
    }
  }

  /**
   * The text `insert_and_get_id` hands to the driver: for PostgreSQL the placeholders are
   * rewritten and ` RETURNING id` is appended so that the new id comes back as a row.
   */
  function InsertQuery(d: Dialect, query: string): (r: string)
    ensures d == Sqlite ==> r == query
    ensures d == Postgres ==>
      |r| >= |" RETURNING id"| && r[|r| - |" RETURNING id"|..] == " RETURNING id"
      && '?' !in r[..|r| - |" RETURNING id"|]
  {
    match d
    case Sqlite => query
    case Postgres =>
      ReplaceRemovesChar(query, '?', "%s");
      var body := Replace(query, "?", "%s");
      assert (body + " RETURNING id")[..|body|] == body;
      body + " RETURNING id"
  }

  /** A query with no placeholder and no `AUTOINCREMENT` runs verbatim on both drivers. */
  lemma CleanQueryUnchanged(d: Dialect, query: string)
    requires '?' !in query && !IsInfix("AUTOINCREMENT", query)
    ensures Execute(d, query) == query
  {
    CharInfix('?', query);
    ReplaceAbsentIdentity(query, "?", "%s");
    ReplaceAbsentIdentity(query, "AUTOINCREMENT", "SERIAL");
  }

  /**
   * For PostgreSQL the rewrite of `execute` loses nothing: turning each `%s` back into `?`
   * recovers the original query, as long as it had no `%s` and no `AUTOINCREMENT` of its own.
   */
  lemma ExecuteRoundTrip(query: string)
    requires !IsInfix("%s", query) && !IsInfix("AUTOINCREMENT", query)
    ensures Replace(Execute(Postgres, query), "%s", "?") == query
  {
    var placeholders := Replace(query, "?", "%s");
    ReplaceCharIsExpand(query, '?', "%s");
    ExpandKeepsNoInfix(query, '?', "%s", "AUTOINCREMENT");
    ReplaceAbsentIdentity(placeholders, "AUTOINCREMENT", "SERIAL");
    PlaceholderRoundTrip(query);
  }

  /** The schema keyword alone: `AUTOINCREMENT` reaches PostgreSQL as `SERIAL`. */
  lemma AutoincrementBecomesSerial()
    ensures Execute(Postgres, "AUTOINCREMENT") == "SERIAL"
  {
    var q := "AUTOINCREMENT";
    CharInfix('?', q);
    ReplaceAbsentIdentity(q, "?", "%s");
    ReplaceWhole(q, "SERIAL");
  }

  /**
   * For PostgreSQL both rewrites of `execute` are undone in reverse order: `SERIAL` back to
   * `AUTOINCREMENT`, then `%s` back to `?`, for any query that held neither `%s` nor
   * `SERIAL` of its own. So every `AUTOINCREMENT` became exactly one `SERIAL` and every `?`
   * exactly one `%s`, and nothing else changed.
   */
  lemma ExecuteUndo(query: string)
    requires !IsInfix("%s", query) && !IsInfix("SERIAL", query)
    ensures Replace(Replace(Execute(Postgres, query), "SERIAL", "AUTOINCREMENT"), "%s", "?") == query
  {
    var placeholders := Replace(query, "?", "%s");
    ReplaceCharIsExpand(query, '?', "%s");
    ExpandKeepsNoInfix(query, '?', "%s", "SERIAL");
    assert "SERIAL"[0] !in "SERIAL"[1..];
    ReplaceUndo(placeholders, "AUTOINCREMENT", "SERIAL");
    PlaceholderRoundTrip(query);
  }

  /** Likewise for `insert_and_get_id`: dropping the suffix and undoing `%s` gives the query back. */
  lemma InsertQueryRoundTrip(query: string)
    requires !IsInfix("%s", query)
    ensures var r := InsertQuery(Postgres, query);
      Replace(r[..|r| - |" RETURNING id"|], "%s", "?") == query
  {
    var body := Replace(query, "?", "%s");
    assert (body + " RETURNING id")[..|body|] == body;
    PlaceholderRoundTrip(query);
  }
}
