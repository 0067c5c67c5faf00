/** The saved-list store behind the mutating handlers of app.py: the `saved`
    table and the `lists` registry as the two fields of one object, each
    handler a method that runs its statements in order. A handler that fails
    before it commits leaves both fields as they were. */
module Store {
  import opened Requests
  import opened Strings
  import opened Search
  import opened Table
  import opened Listing
  import opened Stream

  /** `movie.get('runtime') or 'Unknown'` */
  const UnknownRuntime: string := "Unknown"

  /** The first piece of a comma-separated genre text that is not blank. */
  function FirstNonBlank(parts: seq<string>): (r: Option<string>)
    ensures r.None? <==> forall j :: 0 <= j < |parts| ==> Strip(parts[j]) == ""
    ensures r.Some? ==> exists k :: 0 <= k < |parts| && r.value == Strip(parts[k])
                                    && forall j :: 0 <= j < k ==> Strip(parts[j]) == ""
    ensures r.Some? ==> r.value != ""
  {
    if parts == [] then None
    else if Strip(parts[0]) != "" then Some(Strip(parts[0]))
    else
      var rest := FirstNonBlank(parts[1..]);
      if rest.Some? then
        var k :| 0 <= k < |parts[1..]| && rest.value == Strip(parts[1..][k])
                 && forall j :: 0 <= j < k ==> Strip(parts[1..][j]) == "";
        assert forall j :: 0 <= j < k + 1 ==> Strip(parts[j]) == "" by {
          forall j | 0 < j < k + 1
            ensures Strip(parts[j]) == ""
          {
            assert parts[j] == parts[1..][j - 1];
          }
        }
        rest
      else
        assert forall j :: 0 <= j < |parts| ==> Strip(parts[j]) == "" by {
          forall j | 0 < j < |parts|
            ensures Strip(parts[j]) == ""
          {
            assert parts[j] == parts[1..][j - 1];
          }
        }
        None
  }

  /** The one genre `api_add` files a movie under: the first comma-separated
      piece of the catalog's genres that is not blank, with white space
      stripped, or '(no genre)' when there is none (FirstGenreIsFirstNonBlank).
      It is never empty and never holds a comma. */
  function FirstGenre(raw: string): (g: string)
    ensures g != "" && ',' !in g
  {
    if raw == "" then NoGenre
    else
      match FirstNonBlank(Split(raw, ','))
      case None => NoGenre
      case Some(first) =>
        var k :| 0 <= k < |Split(raw, ',')| && first == Strip(Split(raw, ',')[k]);
        TrimIdempotent(Split(raw, ',')[k], PyWhitespace);
        TrimKeepsOthers(Split(raw, ',')[k], PyWhitespace, ',');
        Strip(first)
  }

  lemma FirstGenreIsFirstNonBlank(raw: string)
    ensures (forall j :: 0 <= j < |Split(raw, ',')| ==> Strip(Split(raw, ',')[j]) == "") ==> FirstGenre(raw) == NoGenre
    ensures (exists j :: 0 <= j < |Split(raw, ',')| && Strip(Split(raw, ',')[j]) != "") ==>
              exists k :: 0 <= k < |Split(raw, ',')| && FirstGenre(raw) == Strip(Split(raw, ',')[k])
                          && forall j :: 0 <= j < k ==> Strip(Split(raw, ',')[j]) == ""
  {
    var parts := Split(raw, ',');
    if j :| 0 <= j < |parts| && Strip(parts[j]) != "" {
      FirstGenreOfNonBlank(raw, parts, j);
    } else {
      FirstGenreOfBlank(raw, parts);
    }
  }

  lemma FirstGenreOfBlank(raw: string, parts: seq<string>)
    requires parts == Split(raw, ',')
    requires forall j :: 0 <= j < |parts| ==> Strip(parts[j]) == ""
    ensures FirstGenre(raw) == NoGenre
  {
    if raw != "" {
      assert FirstNonBlank(parts).None?;
    }
  }

  lemma FirstGenreOfNonBlank(raw: string, parts: seq<string>, j: nat)
    requires parts == Split(raw, ',')
    requires j < |parts| && Strip(parts[j]) != ""
    ensures exists k :: 0 <= k < |parts| && FirstGenre(raw) == Strip(parts[k])
                        && forall i :: 0 <= i < k ==> Strip(parts[i]) == ""
  {
    assert raw != "" by {
      assert Split("", ',') == [""] && Strip("") == "";
    }
    var first := FirstNonBlank(parts);
    assert first.Some?;
    var k :| 0 <= k < |parts| && first.value == Strip(parts[k]) && forall i :: 0 <= i < k ==> Strip(parts[i]) == "";
    TrimIdempotent(parts[k], PyWhitespace);
    assert FirstGenre(raw) == Strip(first.value) == Strip(parts[k]);
  }

  /** `SELECT ... FROM movies WHERE id = ?` with fetchone: the first movie with
      that id. */
  function Lookup(catalog: seq<Movie>, id: string): (r: Option<Movie>)
    ensures r.Some? ==> r.value in catalog && r.value.id == id
    ensures r.None? <==> forall m :: m in catalog ==> m.id != id
  {
    if catalog == [] then None
    else if catalog[0].id == id then Some(catalog[0])
    else
      assert forall m :: m in catalog <==> m == catalog[0] || m in catalog[1..];
      Lookup(catalog[1..], id)
  }

  /** The row `api_add` inserts for movie m in list l. */
  function SavedRow(l: string, m: Movie): Row {
    Row(l, m.id, m.title,
        if m.startYear == "" then UnknownYear else m.startYear,
        FirstGenre(m.genres),
        if m.runtime == "" then UnknownRuntime else m.runtime,
        "")
  }

  /** `if year and genre`: a remove names one exact placement, or else every
      placement of the movie in the list. */
  function RemoveWhere(l: string, id: string, year: Option<string>, genre: Option<string>): (w: Where)
    ensures w.AtPlacement? <==> Given(year) && Given(genre)
    ensures w.list == l && !w.InList?
    ensures forall x :: Selects(w, x) <==>
              x.listName == l && x.id == id &&
              (Given(year) && Given(genre) ==> x.year == year.value && x.genre == genre.value)
  {
    if Given(year) && Given(genre) then AtPlacement(l, id, year.value, genre.value)
    else OfMovie(l, id)
  }

  /** `new_title and not new_year and not new_genre` */
  predicate TitleOnly(newTitle: Option<string>, newYear: Option<string>, newGenre: Option<string>) {
    Given(newTitle) && !Given(newYear) && !Given(newGenre)
  }

  /** The years an update re-inserts the movie under: the new year if given,
      plus every original year (or 'Unknown') unless both a new year and a
      new genre are given. */
  function TargetYears(found: seq<Row>, newYear: Option<string>, newGenre: Option<string>): (ys: set<string>)
    ensures Given(newYear) ==> newYear.value in ys
    ensures forall y :: y in ys && !(Given(newYear) && y == newYear.value) ==>
              !(Given(newYear) && Given(newGenre)) && exists r :: r in found && YearBucket(r) == y
    ensures !(Given(newYear) && Given(newGenre)) ==> (set r | r in found :: YearBucket(r)) <= ys
  {
    (if Given(newYear) then {newYear.value} else {})
    + (if Given(newYear) && Given(newGenre) then {} else set r | r in found :: YearBucket(r))
  }

  /** The genres likewise, the new genre stripped of white space. */
  function TargetGenres(found: seq<Row>, newYear: Option<string>, newGenre: Option<string>): (gs: set<string>)
    ensures Given(newGenre) ==> Strip(newGenre.value) in gs
    ensures forall g :: g in gs && !(Given(newGenre) && g == Strip(newGenre.value)) ==>
              !(Given(newYear) && Given(newGenre)) && exists r :: r in found && GenreBucket(r) == g
    ensures !(Given(newYear) && Given(newGenre)) ==> (set r | r in found :: GenreBucket(r)) <= gs
  {
    (if Given(newGenre) then {Strip(newGenre.value)} else {})
    + (if Given(newYear) && Given(newGenre) then {} else set r | r in found :: GenreBucket(r))
  }

  /** What every re-inserted row of an update carries besides its placement. */
  datatype ReinsertFields = ReinsertFields(list: string, id: string, title: string, synopsis: string, runtime: string)

  /** Title, synopsis and runtime from the new values, or else from the first
      original row. */
  function ReinsertOf(found: seq<Row>, l: string, id: string, newTitle: Option<string>, newSynopsis: Option<string>): ReinsertFields
    requires found != []
  {
    ReinsertFields(l, id,
             if Given(newTitle) then newTitle.value else found[0].title,
             if newSynopsis.Some? then newSynopsis.value else found[0].synopsis,
             found[0].runtime)
  }

  function PlacedRow(p: ReinsertFields, y: string, g: string): Row {
    Row(p.list, p.id, p.title, y, g, p.runtime, p.synopsis)
  }

  predicate IsPlaced(p: ReinsertFields, x: Row) {
    x == PlacedRow(p, x.year, x.genre)
  }

  /** `INSERT INTO lists (name, created_at, updated_at)` at time t fails on an
      existing name. */
  function CreateEntry(lists: map<string, nat>, name: string, t: nat): (r: Option<map<string, nat>>)
    ensures r.None? <==> name in lists
    ensures r.Some? ==> r.value.Keys == lists.Keys + {name} && r.value[name] == t
    ensures r.Some? ==> forall n :: n in lists ==> r.value[n] == lists[n]
  {
    if name in lists then None else Some(lists[name := t])
  }

  /** `UPDATE lists SET name = new WHERE name = old`, its timestamp kept. */
  function RenameEntry(lists: map<string, nat>, from: string, to: string): (r: map<string, nat>)
    requires !(from != to && from in lists && to in lists)
    ensures from in lists ==> r.Keys == lists.Keys - {from} + {to} && r[to] == lists[from]
    ensures from !in lists ==> r == lists
    ensures forall n :: n in lists && n != from ==> n in r && r[n] == lists[n]
  {
    if from in lists then (lists - {from})[to := lists[from]] else lists
  }

  // ---------------------------------------------------------------- facts

  /** A list deleted and created again, or added to again, is stamped with a
      time later than any stamp before, so a stream watching it sees the change. */
  lemma RecreatedListIsObserved(lists: map<string, nat>, name: string, t: nat)
    requires t > 0 && forall n :: n in lists ==> lists[n] < t
    ensures var created := CreateEntry(lists - {name}, name, t);
            created.Some? && Observed(created.value, name) != Observed(lists, name)
    ensures Observed((lists - {name})[name := t], name) != Observed(lists, name)
  {
  }

  /** An add stores a complete row: a year and a runtime (the movie's own, or
      'Unknown' when it has none), the one genre FirstGenre picks, comma-free,
      and an empty synopsis. */
  lemma SavedRowShape(l: string, m: Movie)
    ensures var row := SavedRow(l, m);
            && row.listName == l && row.id == m.id && row.title == m.title
            && row.year != "" && (m.startYear != "" ==> row.year == m.startYear)
            && (m.startYear == "" ==> row.year == UnknownYear)
            && row.runtime != "" && (m.runtime != "" ==> row.runtime == m.runtime)
            && (m.runtime == "" ==> row.runtime == UnknownRuntime)
            && row.genre == FirstGenre(m.genres) && row.genre != "" && ',' !in row.genre
            && row.synopsis == ""
  {
  }

  /** Adding a movie twice to a list leaves exactly one row for its placement. */
  lemma AddTwiceKeepsOneRow(rows: seq<Row>, l: string, m: Movie)
    requires UniqueKeys(rows)
    ensures var row := SavedRow(l, m);
            var once := InsertOrIgnore(rows, row);
            && InsertOrIgnore(once, row) == once
            && KeyCount(once, KeyOf(row)) == 1
  {
    InsertOrIgnoreIdempotent(rows, SavedRow(l, m));
    ExactlyOneAfterInsert(rows, SavedRow(l, m));
  }

  /** An exact remove deletes the one row at that placement, if there is one;
      any other remove deletes every row of that movie in that list; nothing
      else is deleted. */
  lemma RemoveScope(rows: seq<Row>, l: string, id: string, year: Option<string>, genre: Option<string>)
    requires UniqueKeys(rows)
    ensures Given(year) && Given(genre) ==> |rows| - |Delete(rows, RemoveWhere(l, id, year, genre))| <= 1
    ensures Given(year) && Given(genre) ==> forall x :: x in rows ==>
              (x !in Delete(rows, RemoveWhere(l, id, year, genre)) <==> KeyOf(x) == Key(l, id, year.value, genre.value))
    ensures !(Given(year) && Given(genre)) ==> forall x :: x in rows ==>
              (x !in Delete(rows, RemoveWhere(l, id, year, genre)) <==> x.listName == l && x.id == id)
  {
    if Given(year) && Given(genre) {
      PlacementSelectsAtMostOne(rows, l, id, year.value, genre.value);
    }
  }

  /** A title-only update keeps every key (so every placement) and every
      runtime, and touches no other movie or list. */
  lemma TitleOnlyKeepsPlacements(rows: seq<Row>, l: string, id: string, title: string, synopsis: Option<string>)
    ensures var r := SetTitle(rows, OfMovie(l, id), title, synopsis);
            && (forall k :: HasKey(r, k) <==> HasKey(rows, k))
            && (forall x :: x in rows && (x.listName != l || x.id != id) ==> x in r)
            && (forall x :: x in r && x.listName == l && x.id == id ==> x.title == title)
  {
    var r := SetTitle(rows, OfMovie(l, id), title, synopsis);
    forall x | x in rows && (x.listName != l || x.id != id)
      ensures x in r
    {
      var i :| 0 <= i < |rows| && rows[i] == x;
      assert r[i] == x;
    }
    forall x | x in r && x.listName == l && x.id == id
      ensures x.title == title
    {
      var i :| 0 <= i < |r| && r[i] == x;
      assert KeyOf(r[i]) == KeyOf(rows[i]);
    }
    forall k
      ensures HasKey(r, k) <==> HasKey(rows, k)
    {
      if HasKey(r, k) {
        var i :| 0 <= i < |r| && KeyOf(r[i]) == k;
        assert KeyOf(rows[i]) == k;
      }
    }
  }

  /** After a re-inserting update, the movie's placements in the list are
      exactly the target years times the target genres. */
  lemma {:induction false} ReinsertedPlacements(before: seq<Row>, after: seq<Row>, p: ReinsertFields, years: set<string>, genres: set<string>)
    requires forall x :: x in after <==>
               x in Delete(before, OfMovie(p.list, p.id)) || (IsPlaced(p, x) && x.year in years && x.genre in genres)
    ensures forall y, g :: HasKey(after, Key(p.list, p.id, y, g)) <==> y in years && g in genres
  {
    forall y, g
      ensures HasKey(after, Key(p.list, p.id, y, g)) <==> y in years && g in genres
    {
      if HasKey(after, Key(p.list, p.id, y, g)) {
        var i :| 0 <= i < |after| && KeyOf(after[i]) == Key(p.list, p.id, y, g);
        assert after[i] in after;
      }
      if y in years && g in genres {
        var x := PlacedRow(p, y, g);
        assert x in after;
        var i :| 0 <= i < |after| && after[i] == x;
        assert KeyOf(after[i]) == Key(p.list, p.id, y, g);
      }
    }
  }

  /** A new year alone keeps the movie in every original year as well, and
      in its original genres only. */
  lemma NewYearAloneKeepsOriginalYears(found: seq<Row>, newYear: Option<string>, newGenre: Option<string>)
    requires Given(newYear) && !Given(newGenre)
    ensures TargetYears(found, newYear, newGenre) == {newYear.value} + set r | r in found :: YearBucket(r)
    ensures TargetGenres(found, newYear, newGenre) == set r | r in found :: GenreBucket(r)
  {
  }

  /** A new genre alone keeps the movie in every original genre as well, and
      in its original years only. */
  lemma NewGenreAloneKeepsOriginalGenres(found: seq<Row>, newYear: Option<string>, newGenre: Option<string>)
    requires !Given(newYear) && Given(newGenre)
    ensures TargetGenres(found, newYear, newGenre) == {Strip(newGenre.value)} + set r | r in found :: GenreBucket(r)
    ensures TargetYears(found, newYear, newGenre) == set r | r in found :: YearBucket(r)
  {
  }

  /** Without a new year or genre (a title or synopsis change) the movie keeps
      exactly its original years and genres. */
  lemma NoNewPlacementKeepsOriginals(found: seq<Row>, newYear: Option<string>, newGenre: Option<string>)
    requires !Given(newYear) && !Given(newGenre)
    ensures TargetYears(found, newYear, newGenre) == set r | r in found :: YearBucket(r)
    ensures TargetGenres(found, newYear, newGenre) == set r | r in found :: GenreBucket(r)
  {
  }

  /** A new year and a new genre together replace every original placement. */
  lemma NewYearAndGenreReplaceOriginals(found: seq<Row>, newYear: Option<string>, newGenre: Option<string>)
    requires Given(newYear) && Given(newGenre)
    ensures TargetYears(found, newYear, newGenre) == {newYear.value}
    ensures TargetGenres(found, newYear, newGenre) == {Strip(newGenre.value)}
  {
  }

  /** A cleared or deleted list shows an empty listing. */
  lemma {:induction false} ClearedListIsEmpty(rows: seq<Row>, l: string, view: seq<YearGroup>)
    requires IsListing(view, Select(Delete(rows, InList(l)), InList(l)))
    ensures view == []
  {
    assert Select(Delete(rows, InList(l)), InList(l)) == [];
    EmptyListing(view);
  }

  lemma EmptyListing(view: seq<YearGroup>)
    requires IsListing(view, [])
    ensures view == []
  {
    assert YearsOf([]) == {};
    ListingHasOneGroupPerYear(view, []);
  }

  /** After an add, the listing of the list shows the movie under the row's
      year and genre (the row already stored under that key, if any). */
  lemma AddedMovieIsListed(rows: seq<Row>, row: Row, view: seq<YearGroup>)
    requires IsListing(view, Select(InsertOrIgnore(rows, row), InList(row.listName)))
    ensures exists i, j :: 0 <= i < |view| && 0 <= j < |view[i].genres|
              && view[i].year == YearBucket(row) && view[i].genres[j].genre == GenreBucket(row)
              && exists e :: e in view[i].genres[j].entries && e.id == row.id
  {
    var after := InsertOrIgnore(rows, row);
    var k :| 0 <= k < |after| && KeyOf(after[k]) == KeyOf(row);
    var x := after[k];
    assert x in Select(after, InList(row.listName));
    ListingShowsEveryRow(view, Select(after, InList(row.listName)), x);
  }

  /** A rename that goes through leaves no row under the old name and moves
      every row of it, unchanged otherwise, under the new one. */
  lemma RenameMovesRows(rows: seq<Row>, from: string, to: string)
    requires from != to
    ensures Select(Relabel(rows, from, to), InList(from)) == []
    ensures forall x :: x in rows && x.listName == from ==> x.(listName := to) in Relabel(rows, from, to)
    ensures forall x :: x in rows && x.listName != from ==> x in Relabel(rows, from, to)
  {
    var r := Relabel(rows, from, to);
    forall x | x in rows
      ensures x.listName == from ==> x.(listName := to) in r
      ensures x.listName != from ==> x in r
    {
      var i :| 0 <= i < |rows| && rows[i] == x;
      assert r[i] == if x.listName == from then x.(listName := to) else x;
    }
  }

  /** One line of `GET /api/lists`. */
  datatype ListInfo = ListInfo(name: string, stamp: nat)

  class SavedStore {
    /** The saved table, in table order. */
    var rows: seq<Row>
    /** The lists table: each name's time of updated_at. */
    var lists: map<string, nat>
    /** `datetime('now')`: the time of the latest stamp, one clock for all lists. */
    var clock: nat

    /** The primary key holds, every row belongs to a registered list, and no
        stamp lies ahead of the clock. */
    ghost predicate Valid()
      reads this
    {
      && UniqueKeys(rows)
      && (forall r :: r in rows ==> r.listName in lists)
      && forall n :: n in lists ==> lists[n] <= clock
    }

    constructor ()
      ensures Valid() && rows == [] && lists == map[] && clock == 0
    {
      rows := [];
      lists := map[];
      clock := 0;
    }

    /** `POST /api/add` */
    method Add(catalog: seq<Movie>, id: Option<string>, listName: Option<string>) returns (r: Response<Movie>)
      requires Valid()
      modifies this
      ensures Valid()
      ensures !Given(id) ==> r == BadRequest("missing id") && unchanged(this)
      ensures Given(id) && Lookup(catalog, id.value).None? ==>
                r == NotFound("movie not found") && unchanged(this)
      ensures Given(id) && Lookup(catalog, id.value).Some? ==>
                var m, l := Lookup(catalog, id.value).value, ListNameOf(listName);
                && r == Ok(m)
                && rows == InsertOrIgnore(old(rows), SavedRow(l, m))
                && clock == old(clock) + 1 && lists == old(lists)[l := clock]
    {
      if !Given(id) {
        return BadRequest("missing id");
      }
      var l := ListNameOf(listName);
      var found := Lookup(catalog, id.value);
      if found.None? {
        return NotFound("movie not found");
      }
      var m := found.value;
      var row := SavedRow(l, m);
      Enroll(row);
      r := Ok(m);
    }

    /** The two statements of `api_add` after the lookup: INSERT OR IGNORE the
        list into the registry and stamp it, then INSERT OR IGNORE the row. */
    method Enroll(row: Row)
      requires Valid()
      modifies this
      ensures Valid()
      ensures rows == InsertOrIgnore(old(rows), row)
      ensures clock == old(clock) + 1 && lists == old(lists)[row.listName := clock]
    {
      var l := row.listName;
      if l !in lists {
        lists := lists[l := 0];
      }
      StampList(l);
      rows := InsertOrIgnore(rows, row);
    }

    /** `UPDATE lists SET updated_at = datetime('now') WHERE name = ?`: the
        clock advances, and the list, when it has a row, takes the new time. */
    method StampList(l: string)
      requires Valid()
      modifies this
      ensures Valid() && rows == old(rows)
      ensures clock == old(clock) + 1 && lists == Stamp(old(lists), l, clock)
    {
      clock := clock + 1;
      lists := Stamp(lists, l, clock);
    }

    /** `POST /api/remove` */
    method Remove(id: Option<string>, year: Option<string>, genre: Option<string>, listName: Option<string>)
      returns (r: Response<()>)
      requires Valid()
      modifies this
      ensures Valid()
      ensures !Given(id) ==> r == BadRequest("missing id") && unchanged(this)
      ensures Given(id) ==>
                var l := ListNameOf(listName);
                var w := RemoveWhere(l, id.value, year, genre);
                && rows == Delete(old(rows), w)
                && (r.Ok? <==> |rows| < |old(rows)|)
                && (r.Ok? ==> clock == old(clock) + 1 && lists == Stamp(old(lists), l, clock))
                && (!r.Ok? ==> r == NotFound("movie not found in list") && lists == old(lists) && clock == old(clock))
    {
      if !Given(id) {
        return BadRequest("missing id");
      }
      var l := ListNameOf(listName);
      var before := |rows|;
      rows := Delete(rows, RemoveWhere(l, id.value, year, genre));
      var affected := before - |rows|;
      if affected > 0 {
        StampList(l);
        r := Ok(());
      } else {
        r := NotFound("movie not found in list");
      }
    }

    /** `POST /api/update` */
    method Update(id: Option<string>, newTitle: Option<string>, newYear: Option<string>, newGenre: Option<string>,
                  newSynopsis: Option<string>, listName: Option<string>) returns (r: Response<()>)
      requires Valid()
      modifies this
      ensures Valid()
      ensures !Given(id) ==> r == BadRequest("missing id") && unchanged(this)
      ensures Given(id) && Select(old(rows), OfMovie(ListNameOf(listName), id.value)) == [] ==>
                r == NotFound("movie not found in list") && unchanged(this)
      ensures Given(id) && Select(old(rows), OfMovie(ListNameOf(listName), id.value)) != [] ==>
                && r == Ok(())
                && clock == old(clock) + 1 && lists == Stamp(old(lists), ListNameOf(listName), clock)
      ensures Given(id) && Select(old(rows), OfMovie(ListNameOf(listName), id.value)) != [] &&
              TitleOnly(newTitle, newYear, newGenre) ==>
                rows == SetTitle(old(rows), OfMovie(ListNameOf(listName), id.value), newTitle.value, newSynopsis)
      ensures Given(id) && Select(old(rows), OfMovie(ListNameOf(listName), id.value)) != [] &&
              !TitleOnly(newTitle, newYear, newGenre) ==>
                var l := ListNameOf(listName);
                var found := Select(old(rows), OfMovie(l, id.value));
                var p := ReinsertOf(found, l, id.value, newTitle, newSynopsis);
                forall x :: x in rows <==>
                  x in Delete(old(rows), OfMovie(l, id.value))
                  || (IsPlaced(p, x) && x.year in TargetYears(found, newYear, newGenre)
                      && x.genre in TargetGenres(found, newYear, newGenre))
    {
      if !Given(id) {
        return BadRequest("missing id");
      }
      var l := ListNameOf(listName);
      var w := OfMovie(l, id.value);
      var found := Select(rows, w);
      if found == [] {
        return NotFound("movie not found in list");
      }
      assert found[0] in rows;
      if TitleOnly(newTitle, newYear, newGenre) {
        rows := SetTitle(rows, w, newTitle.value, newSynopsis);
        StampList(l);
        return Ok(());
      }
      var p := ReinsertOf(found, l, id.value, newTitle, newSynopsis);
      var years, genres := TargetYears(found, newYear, newGenre), TargetGenres(found, newYear, newGenre);
      Replace(w, p, years, genres);
      assert lists == old(lists) && clock == old(clock);
      StampList(l);
      r := Ok(());
    }

    /** The update's DELETE of the movie's rows followed by its re-insertion
        loop. */
    method Replace(w: Where, p: ReinsertFields, years: set<string>, genres: set<string>)
      requires Valid() && w == OfMovie(p.list, p.id) && p.list in lists
      modifies this
      ensures Valid() && lists == old(lists) && clock == old(clock)
      ensures forall x :: x in rows <==>
                x in Delete(old(rows), w) || (IsPlaced(p, x) && x.year in years && x.genre in genres)
    {
      rows := Delete(rows, w);
      Reinsert(p, years, genres);
    }

    /** The Cartesian loop of `api_update`: for y in target_years: for g in
        target_genres: INSERT OR IGNORE, after the movie's rows were deleted. */
    method Reinsert(p: ReinsertFields, years: set<string>, genres: set<string>)
      requires UniqueKeys(rows) && p.list in lists
      requires forall x :: x in rows ==> x.listName in lists && !Selects(OfMovie(p.list, p.id), x)
      modifies this
      ensures UniqueKeys(rows) && lists == old(lists) && clock == old(clock)
      ensures forall x :: x in rows ==> x.listName in lists
      ensures forall x :: x in rows <==> x in old(rows) || (IsPlaced(p, x) && x.year in years && x.genre in genres)
    {
      var yearsLeft := years;
      while yearsLeft != {}
        invariant yearsLeft <= years && UniqueKeys(rows) && lists == old(lists) && clock == old(clock)
        invariant forall x :: x in rows ==> x.listName in lists
        invariant forall x :: x in rows <==> x in old(rows) || (IsPlaced(p, x) && x.year in years - yearsLeft && x.genre in genres)
        decreases yearsLeft
      {
        var y :| y in yearsLeft;
        var genresLeft := genres;
        while genresLeft != {}
          invariant genresLeft <= genres && UniqueKeys(rows) && lists == old(lists) && clock == old(clock)
          invariant forall x :: x in rows ==> x.listName in lists
          invariant forall x :: x in rows <==> (x in old(rows) ||
                      (IsPlaced(p, x) && ((x.year in years - yearsLeft && x.genre in genres)
                                          || (x.year == y && x.genre in genres - genresLeft))))
          decreases genresLeft
        {
          var g :| g in genresLeft;
          var row := PlacedRow(p, y, g);
          forall i | 0 <= i < |rows|
            ensures KeyOf(rows[i]) != KeyOf(row)
          {
            assert rows[i] in rows;
          }
          rows := InsertOrIgnore(rows, row);
          genresLeft := genresLeft - {g};
        }
        yearsLeft := yearsLeft - {y};
      }
    }

    /** `POST /api/clear`: empties one list and stamps it. */
    method Clear(listName: Option<string>) returns (r: Response<()>)
      requires Valid()
      modifies this
      ensures Valid() && r == Ok(())
      ensures rows == Delete(old(rows), InList(ListNameOf(listName)))
      ensures clock == old(clock) + 1 && lists == Stamp(old(lists), ListNameOf(listName), clock)
    {
      var l := ListNameOf(listName);
      rows := Delete(rows, InList(l));
      StampList(l);
      r := Ok(());
    }

    /** `POST /api/lists` */
    method CreateList(name: Option<string>) returns (r: Response<string>)
      requires Valid()
      modifies this
      ensures Valid() && rows == old(rows)
      ensures !Given(name) ==> r == BadRequest("missing name") && lists == old(lists) && clock == old(clock)
      ensures Given(name) && name.value in old(lists) ==>
                r == BadRequest("could not create list") && lists == old(lists) && clock == old(clock)
      ensures Given(name) && name.value !in old(lists) ==>
                r == Ok(name.value) && clock == old(clock) + 1 && lists == old(lists)[name.value := clock]
    {
      if !Given(name) {
        return BadRequest("missing name");
      }
      var created := CreateEntry(lists, name.value, clock + 1);
      if created.None? {
        return BadRequest("could not create list");
      }
      clock := clock + 1;
      lists := created.value;
      r := Ok(name.value);
    }

    /** `DELETE /api/lists`: the default list cannot be deleted. */
    method DeleteList(name: Option<string>) returns (r: Response<()>)
      requires Valid()
      modifies this
      ensures Valid()
      ensures !Given(name) ==> r == BadRequest("missing name") && unchanged(this)
      ensures Given(name) && name.value == DefaultList ==> r == BadRequest("cannot delete default list") && unchanged(this)
      ensures Given(name) && name.value != DefaultList ==>
                && r == Ok(())
                && rows == Delete(old(rows), InList(name.value))
                && lists == old(lists) - {name.value} && clock == old(clock)
    {
      if !Given(name) {
        return BadRequest("missing name");
      }
      if name.value == DefaultList {
        return BadRequest("cannot delete default list");
      }
      rows := Delete(rows, InList(name.value));
      lists := lists - {name.value};
      r := Ok(());
    }

    /** `POST /api/lists/rename`: relabels the rows and the registry entry in
        one transaction; a key clash in either table rolls both back. */
    method RenameList(from: Option<string>, to: Option<string>) returns (r: Response<string>)
      requires Valid()
      modifies this
      ensures Valid()
      ensures !Given(from) || !Given(to) ==> r == BadRequest("missing old or new name") && unchanged(this)
      ensures Given(from) && Given(to) && from.value == DefaultList ==>
                r == BadRequest("cannot rename default list") && unchanged(this)
      ensures Given(from) && Given(to) && from.value != DefaultList ==>
                var old', new' := from.value, to.value;
                if Collides(old(rows), old', new') || (old' != new' && old' in old(lists) && new' in old(lists)) then
                  r == BadRequest("rename failed") && unchanged(this)
                else
                  && r == Ok(new')
                  && rows == Relabel(old(rows), old', new')
                  && clock == old(clock) + 1 && lists == Stamp(RenameEntry(old(lists), old', new'), new', clock)
    {
      if !Given(from) || !Given(to) {
        return BadRequest("missing old or new name");
      }
      var old', new' := from.value, to.value;
      if old' == DefaultList {
        return BadRequest("cannot rename default list");
      }
      if Collides(rows, old', new') || (old' != new' && old' in lists && new' in lists) {
        return BadRequest("rename failed");
      }
      rows := Relabel(rows, old', new');
      lists := RenameEntry(lists, old', new');
      StampList(new');
      r := Ok(new');
    }

    /** `GET /api/list` */
    method List(listName: Option<string>) returns (view: seq<YearGroup>)
      ensures IsListing(view, Select(rows, InList(ListNameOf(listName))))
    {
      view := BuildListing(Select(rows, InList(ListNameOf(listName))));
    }

    /** `GET /api/lists`: every registered list, by name. */
    method Lists() returns (infos: seq<ListInfo>)
      ensures forall n :: n in lists <==> exists i :: 0 <= i < |infos| && infos[i].name == n
      ensures forall i :: 0 <= i < |infos| ==> infos[i].name in lists && infos[i].stamp == lists[infos[i].name]
      ensures forall i, j :: 0 <= i < j < |infos| ==> LexLe(infos[i].name, infos[j].name) && infos[i].name != infos[j].name
    {
      var names := SortedKeys(lists, false);
      infos := [];
      var k := 0;
      while k < |names|
        invariant 0 <= k <= |names| && |infos| == k
        invariant forall i :: 0 <= i < k ==> infos[i] == ListInfo(names[i], lists[names[i]])
      {
        infos := infos + [ListInfo(names[k], lists[names[k]])];
        k := k + 1;
      }
      forall n | n in lists
        ensures exists i :: 0 <= i < |infos| && infos[i].name == n
      {
        var i :| 0 <= i < |names| && names[i] == n;
        assert infos[i].name == n;
      }
    }
  }
}
