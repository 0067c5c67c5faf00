/** The catalog search of `GET /api/search` (app.py:112-164): a WHERE clause
    built from the title and year arguments over the read-only movies table,
    then `ORDER BY start_year DESC, title LIMIT n`. */
module Search {
  import opened Requests
  import opened Strings
  import opened Numbers
  import opened SqlLike
  import opened Sorting

  /** A row of the movies table, SQL NULL read as "". The WHERE clause tells
      the two apart only for a title made only of '%' given with a year:
      `LIKE` is never true of NULL, while "" matches such a pattern. */
  datatype Movie = Movie(id: string, title: string, startYear: string, genres: string, runtime: string)

  /** IMDb's marker for an unknown value: a backslash followed by N. */
  const NullMarker: string := "\\N"

  /** The two clauses every search carries: a start year that is present, not
      the marker and holds a digit, and a runtime that is present and not the marker. */
  predicate Listable(m: Movie) {
    && m.startYear != "" && m.startYear != NullMarker && HasDigit(m.startYear)
    && m.runtime != "" && m.runtime != NullMarker
  }

  /** The title clause: without a year, the stored title with runs of spaces
      shortened and spaces trimmed must equal the query with its white space
      collapsed, ignoring case; with a year, `LOWER(title) LIKE LOWER('%t%')`. */
  predicate TitleClause(title: string, year: string, m: Movie) {
    if year == "" then Lower(StoredTitleKey(m.title)) == Lower(Normalize(title))
    else Like(Lower("%" + title + "%"), Lower(m.title))
  }

  /** The year clause: a year that int() accepts matches its decimal text and
      the texts of the years either side; any other year must match verbatim. */
  predicate YearClause(year: string, m: Movie) {
    match ParseInt(year)
    case Some(y) => m.startYear == IntToString(y) || m.startYear == IntToString(y - 1) || m.startYear == IntToString(y + 1)
    case None => m.startYear == year
  }

  /** The whole WHERE clause for already-stripped arguments. */
  predicate Matches(title: string, year: string, m: Movie) {
    && Listable(m)
    && (title != "" ==> TitleClause(title, year, m))
    && (year != "" ==> YearClause(year, m))
  }

  /** LIMIT: 10 rows without a year, 25 with one. */
  function Limit(year: string): nat {
    if year == "" then 10 else 25
  }

  /** ORDER BY start_year DESC, title: a may be listed before b. */
  predicate ResultOrder(a: Movie, b: Movie) {
    LexLe(b.startYear, a.startYear) && (a.startYear == b.startYear ==> LexLe(a.title, b.title))
  }

  /** The rows of the movies table the WHERE clause selects, in table order. */
  function Selected(catalog: seq<Movie>, title: string, year: string): (r: seq<Movie>)
    ensures forall m :: m in r <==> m in catalog && Matches(title, year, m)
    ensures multiset(r) <= multiset(catalog)
  {
    if catalog == [] then []
    else
      assert catalog == [catalog[0]] + catalog[1..];
      (if Matches(title, year, catalog[0]) then [catalog[0]] else []) + Selected(catalog[1..], title, year)
  }

  function Take<T>(s: seq<T>, n: nat): (r: seq<T>)
    ensures |r| == if |s| < n then |s| else n
    ensures r <= s
  {
    if |s| < n then s else s[..n]
  }

  /** `GET /api/search?title=&year=`: both arguments are stripped; both empty
      is a 400, otherwise the selected rows in result order, cut to the limit. */
  function SearchCatalog(catalog: seq<Movie>, titleArg: string, yearArg: string): (r: Response<seq<Movie>>)
    ensures r.BadRequest? <==> Strip(titleArg) == "" && Strip(yearArg) == ""
    ensures !r.NotFound?
    ensures r.Ok? ==> |r.value| <= Limit(Strip(yearArg))
  {
    var title := Strip(titleArg);
    var year := Strip(yearArg);
    if title == "" && year == "" then BadRequest("provide title and/or year")
    else Ok(Take(Sort(Selected(catalog, title, year), ResultOrder), Limit(year)))
  }

  lemma ResultOrderIsTotalPreorder()
    ensures TotalPreorder(ResultOrder)
  {
    forall a, b
      ensures ResultOrder(a, b) || ResultOrder(b, a)
    {
      LexLeTotal(a.startYear, b.startYear);
      LexLeTotal(a.title, b.title);
      if LexLe(a.startYear, b.startYear) && LexLe(b.startYear, a.startYear) {
        LexLeAntisymmetric(a.startYear, b.startYear);
      }
    }
    forall a, b, c | ResultOrder(a, b) && ResultOrder(b, c)
      ensures ResultOrder(a, c)
    {
      LexLeTransitive(c.startYear, b.startYear, a.startYear);
      if a.startYear == c.startYear {
        LexLeAntisymmetric(a.startYear, b.startYear);
        LexLeTransitive(a.title, b.title, c.title);
      }
    }
  }

  /** What a successful search returns: rows of the catalog that satisfy the
      WHERE clause, in result order, as many as match up to the limit, and no
      matching row that was cut off comes before a returned one. */
  lemma {:induction false} SearchReturnsFirstMatches(catalog: seq<Movie>, titleArg: string, yearArg: string)
    requires SearchCatalog(catalog, titleArg, yearArg).Ok?
    ensures var title, year := Strip(titleArg), Strip(yearArg);
            var rows := SearchCatalog(catalog, titleArg, yearArg).value;
            var selected := Selected(catalog, title, year);
            && (forall m :: m in rows ==> m in catalog && Matches(title, year, m))
            && multiset(rows) <= multiset(catalog)
            && |rows| == (if |selected| < Limit(year) then |selected| else Limit(year))
            && Sorted(rows, ResultOrder)
            && (forall m, x :: m in multiset(selected) - multiset(rows) && x in rows ==> ResultOrder(x, m))
  {
    var title, year := Strip(titleArg), Strip(yearArg);
    var selected := Selected(catalog, title, year);
    var sorted := Sort(selected, ResultOrder);
    var n := if |sorted| < Limit(year) then |sorted| else Limit(year);
    assert SearchCatalog(catalog, titleArg, yearArg).value == sorted[..n];
    ResultOrderIsTotalPreorder();
    SortSorted(selected, ResultOrder);
    PrefixOfSorted(sorted, n, ResultOrder);
    forall m | m in sorted[..n]
      ensures m in selected
    {
      assert m in multiset(sorted);
    }
  }

  /** Cutting a sorted sequence keeps a sorted prefix none of whose elements
      comes after an element cut off. */
  lemma PrefixOfSorted<T>(sorted: seq<T>, n: nat, le: (T, T) -> bool)
    requires n <= |sorted| && Sorted(sorted, le)
    ensures multiset(sorted[..n]) <= multiset(sorted)
    ensures Sorted(sorted[..n], le)
    ensures forall m, x :: m in multiset(sorted) - multiset(sorted[..n]) && x in sorted[..n] ==> le(x, m)
  {
    var rows := sorted[..n];
    assert sorted == rows + sorted[n..];
    assert multiset(sorted) == multiset(rows) + multiset(sorted[n..]);
    forall m, x | m in multiset(sorted) - multiset(rows) && x in rows
      ensures le(x, m)
    {
      assert m in multiset(sorted[n..]);
      var j :| 0 <= j < |sorted[n..]| && sorted[n..][j] == m;
      var i :| 0 <= i < |rows| && rows[i] == x;
      assert sorted[i] == x && sorted[n + j] == m;
    }
  }

  /** A year that int() accepts selects exactly the movies whose start year is
      printed as that year or a year either side. */
  lemma YearWindow(year: string, y: int, m: Movie, n: int)
    requires ParseInt(year) == Some(y)
    requires m.startYear == IntToString(n)
    ensures YearClause(year, m) <==> y - 1 <= n <= y + 1
  {
    if m.startYear == IntToString(y) { IntToStringInjective(n, y); }
    if m.startYear == IntToString(y - 1) { IntToStringInjective(n, y - 1); }
    if m.startYear == IntToString(y + 1) { IntToStringInjective(n, y + 1); }
  }

  lemma {:induction false} LowerAppend(a: string, b: string)
    ensures Lower(a + b) == Lower(a) + Lower(b)
  {
  }

  /** With a year and a title free of LIKE wildcards, the title clause is
      case-insensitive substring containment. */
  lemma TitleWithYearIsSubstring(title: string, year: string, m: Movie)
    requires year != "" && NoWildcards(title)
    ensures TitleClause(title, year, m) <==> IsInfix(Lower(title), Lower(m.title))
  {
    LowerAppend("%" + title, "%");
    LowerAppend("%", title);
    assert Lower("%" + title + "%") == "%" + Lower(title) + "%";
    assert NoWildcards(Lower(title)) by {
      forall k | 0 <= k < |title|
        ensures Lower(title)[k] != '%' && Lower(title)[k] != '_'
      {
        assert title[k] != '%' && title[k] != '_';
      }
    }
    LikeContains(Lower(title), Lower(m.title));
  }

  /** Without a year, a stored title that has single spaces only and no space
      at either end matches exactly when it equals the query with its white
      space collapsed and trimmed, ignoring case. */
  lemma TitleWithoutYearOnTidyTitle(title: string, m: Movie)
    requires NoDoubleSpace(m.title)
    requires m.title == [] || (m.title[0] != ' ' && m.title[|m.title| - 1] != ' ')
    ensures TitleClause(title, "", m) <==> Lower(m.title) == Lower(Normalize(title))
  {
    StoredTitleKeyOfTidyTitle(m.title);
  }

  /** A stored title with a run of nine spaces is not found by the query that
      has one space in its place: three REPLACE passes leave two spaces. */
  lemma TitleWithoutYearMissesLongRun(m: Movie)
    requires m.title == "a" + Spaces(9) + "b"
    ensures !TitleClause("a b", "", m)
  {
    StoredTitleKeyOfLongRun();
    NormalizeNoLonger("a b");
    assert |StoredTitleKey(m.title)| == 4;
  }
}
