/** The grouped view `GET /api/list` returns (app.py:216-242): the rows of one
    list, bucketed by year (or 'Unknown') and genre (or '(no genre)'), years in
    descending and genres in ascending code-point order, the entries of a
    genre sorted by lower-cased title. */
module Listing {
  import opened Strings
  import opened Sorting
  import opened Table

  const UnknownYear: string := "Unknown"
  const NoGenre: string := "(no genre)"

  /** `r.get('year') or 'Unknown'` */
  function YearBucket(r: Row): (y: string)
    ensures y != ""
  {
    if r.year == "" then UnknownYear else r.year
  }

  /** `r.get('genre') or '(no genre)'` */
  function GenreBucket(r: Row): (g: string)
    ensures g != ""
  {
    if r.genre == "" then NoGenre else r.genre
  }

  /** What the view shows of a row. */
  datatype Entry = Entry(id: string, title: string, runtime: string, synopsis: string)

  function EntryOf(r: Row): Entry {
    Entry(r.id, r.title, r.runtime, r.synopsis)
  }

  datatype GenreGroup = GenreGroup(genre: string, entries: seq<Entry>)
  datatype YearGroup = YearGroup(year: string, genres: seq<GenreGroup>)

  /** `key=lambda x: x['title'].lower()` */
  predicate TitleOrder(a: Entry, b: Entry) {
    LexLe(Lower(a.title), Lower(b.title))
  }

  lemma TitleOrderIsTotalPreorder()
    ensures TotalPreorder(TitleOrder)
  {
    forall a, b
      ensures TitleOrder(a, b) || TitleOrder(b, a)
    {
      LexLeTotal(Lower(a.title), Lower(b.title));
    }
    forall a, b, c | TitleOrder(a, b) && TitleOrder(b, c)
      ensures TitleOrder(a, c)
    {
      LexLeTransitive(Lower(a.title), Lower(b.title), Lower(c.title));
    }
  }

  /** The entries the grouping loop appends to bucket (y, g), in fetch order. */
  function Bucket(rows: seq<Row>, y: string, g: string): (b: seq<Entry>)
    ensures forall e :: e in b <==> exists r :: r in rows && YearBucket(r) == y && GenreBucket(r) == g && EntryOf(r) == e
    ensures b == [] <==> g !in GenresOf(rows, y)
  {
    if rows == [] then []
    else
      var last := rows[|rows| - 1];
      assert forall r :: r in rows <==> r in rows[..|rows| - 1] || r == last;
      Bucket(rows[..|rows| - 1], y, g) + (if YearBucket(last) == y && GenreBucket(last) == g then [EntryOf(last)] else [])
  }

  function YearsOf(rows: seq<Row>): set<string> {
    set r | r in rows :: YearBucket(r)
  }

  function GenresOf(rows: seq<Row>, y: string): set<string> {
    set r | r in rows && YearBucket(r) == y :: GenreBucket(r)
  }

  /** The nested dictionary after the grouping loop has consumed `done`. */
  ghost predicate Grouped(listing: map<string, map<string, seq<Entry>>>, done: seq<Row>) {
    && listing.Keys == YearsOf(done)
    && forall y :: y in listing ==>
         && listing[y].Keys == GenresOf(done, y)
         && forall g :: g in listing[y] ==> listing[y][g] == Bucket(done, y, g)
  }

  /** The genre groups of one year built from its dictionary of buckets:
      genres strictly ascending, one group per bucket, entries title-sorted. */
  ghost predicate GenreGroupsOf(groups: seq<GenreGroup>, buckets: map<string, seq<Entry>>) {
    && (forall i, j :: 0 <= i < j < |groups| ==> LexLe(groups[i].genre, groups[j].genre) && groups[i].genre != groups[j].genre)
    && (forall g :: g in buckets <==> exists i :: 0 <= i < |groups| && groups[i].genre == g)
    && (forall i :: 0 <= i < |groups| ==> groups[i].genre in buckets && groups[i].entries == Sort(buckets[groups[i].genre], TitleOrder))
  }

  /** The year groups built from the whole dictionary: years strictly descending. */
  ghost predicate YearGroupsOf(view: seq<YearGroup>, listing: map<string, map<string, seq<Entry>>>) {
    && (forall i, j :: 0 <= i < j < |view| ==> LexLe(view[j].year, view[i].year) && view[i].year != view[j].year)
    && (forall y :: y in listing <==> exists i :: 0 <= i < |view| && view[i].year == y)
    && (forall i :: 0 <= i < |view| ==> view[i].year in listing && GenreGroupsOf(view[i].genres, listing[view[i].year]))
  }

  /** The listing of rows: one group per year present, in strictly descending
      year order; within it one group per genre present, in strictly ascending
      order; within that the entries of exactly the rows in that bucket, as a
      multiset, sorted by lower-cased title. */
  ghost predicate IsListing(view: seq<YearGroup>, rows: seq<Row>) {
    && (forall i, j :: 0 <= i < j < |view| ==> LexLe(view[j].year, view[i].year) && view[i].year != view[j].year)
    && (forall y :: y in YearsOf(rows) <==> exists i :: 0 <= i < |view| && view[i].year == y)
    && forall i :: 0 <= i < |view| ==> IsGenreListing(view[i].genres, rows, view[i].year)
  }

  ghost predicate IsGenreListing(groups: seq<GenreGroup>, rows: seq<Row>, y: string) {
    && (forall i, j :: 0 <= i < j < |groups| ==> LexLe(groups[i].genre, groups[j].genre) && groups[i].genre != groups[j].genre)
    && (forall g :: g in GenresOf(rows, y) <==> exists i :: 0 <= i < |groups| && groups[i].genre == g)
    && forall i :: 0 <= i < |groups| ==>
         Sorted(groups[i].entries, TitleOrder) && multiset(groups[i].entries) == multiset(Bucket(rows, y, groups[i].genre))
  }

  // ---------------------------------------------------------------- building

  /** `listing.setdefault(y, {}).setdefault(g, []).append(EntryOf(r))` on the
      dictionary as a value. */
  function AddEntry(listing: map<string, map<string, seq<Entry>>>, r: Row): (next: map<string, map<string, seq<Entry>>>)
    ensures next.Keys == listing.Keys + {YearBucket(r)}
    ensures GenreBucket(r) in next[YearBucket(r)]
    ensures var y, g := YearBucket(r), GenreBucket(r);
            var b := next[y][g];
            && |b| > 0 && b[|b| - 1] == EntryOf(r)
            && b[..|b| - 1] == (if y in listing && g in listing[y] then listing[y][g] else [])
    ensures forall y, g :: y in listing && g in listing[y] ==>
              g in next[y] && (y != YearBucket(r) || g != GenreBucket(r) ==> next[y][g] == listing[y][g])
  {
    var y, g := YearBucket(r), GenreBucket(r);
    var yearBucket := if y in listing then listing[y] else map[];
    var genreBucket := if g in yearBucket then yearBucket[g] else [];
    listing[y := yearBucket[g := genreBucket + [EntryOf(r)]]]
  }

  /** One more row through the grouping loop. */
  lemma GroupedStep(listing: map<string, map<string, seq<Entry>>>, done: seq<Row>, r: Row)
    requires Grouped(listing, done)
    ensures Grouped(AddEntry(listing, r), done + [r])
  {
    var next := AddEntry(listing, r);
    YearsStep(done, r);
    assert next.Keys == YearsOf(done + [r]);
    forall y' | y' in next
      ensures next[y'].Keys == GenresOf(done + [r], y')
      ensures forall g' :: g' in next[y'] ==> next[y'][g'] == Bucket(done + [r], y', g')
    {
      if y' == YearBucket(r) {
        if y' !in listing {
          NoYearNoGenres(done, y');
        }
        GroupedYearStep(if y' in listing then listing[y'] else map[], done, r);
      } else {
        GroupedOtherYear(listing, done, r, y');
      }
    }
  }

  /** The year buckets the new row does not land in keep their contents. */
  lemma GroupedOtherYear(listing: map<string, map<string, seq<Entry>>>, done: seq<Row>, r: Row, y: string)
    requires Grouped(listing, done) && y in listing && y != YearBucket(r)
    ensures listing[y].Keys == GenresOf(done + [r], y)
    ensures forall g :: g in listing[y] ==> listing[y][g] == Bucket(done + [r], y, g)
  {
    GenresStep(done, r, y);
    forall g | g in listing[y]
      ensures listing[y][g] == Bucket(done + [r], y, g)
    {
      BucketStep(done, r, y, g);
    }
  }

  /** The year bucket the new row lands in. */
  lemma GroupedYearStep(yearBucket: map<string, seq<Entry>>, done: seq<Row>, r: Row)
    requires yearBucket.Keys == GenresOf(done, YearBucket(r))
    requires forall g :: g in yearBucket ==> yearBucket[g] == Bucket(done, YearBucket(r), g)
    ensures var y, g := YearBucket(r), GenreBucket(r);
            var next := yearBucket[g := (if g in yearBucket then yearBucket[g] else []) + [EntryOf(r)]];
            && next.Keys == GenresOf(done + [r], y)
            && forall g' :: g' in next ==> next[g'] == Bucket(done + [r], y, g')
  {
    var y, g := YearBucket(r), GenreBucket(r);
    var next := yearBucket[g := (if g in yearBucket then yearBucket[g] else []) + [EntryOf(r)]];
    GenresStep(done, r, y);
    forall g' | g' in next
      ensures next[g'] == Bucket(done + [r], y, g')
    {
      BucketStep(done, r, y, g');
    }
  }

  lemma YearsStep(done: seq<Row>, r: Row)
    ensures YearsOf(done + [r]) == YearsOf(done) + {YearBucket(r)}
  {
    assert forall x :: x in done + [r] <==> x in done || x == r;
  }

  lemma NoYearNoGenres(done: seq<Row>, y: string)
    requires y !in YearsOf(done)
    ensures GenresOf(done, y) == {}
  {
  }

  lemma GenresStep(done: seq<Row>, r: Row, y: string)
    ensures GenresOf(done + [r], y) == GenresOf(done, y) + (if YearBucket(r) == y then {GenreBucket(r)} else {})
  {
    assert forall x :: x in done + [r] <==> x in done || x == r;
  }

  lemma BucketStep(done: seq<Row>, r: Row, y: string, g: string)
    ensures Bucket(done + [r], y, g) == Bucket(done, y, g) + (if YearBucket(r) == y && GenreBucket(r) == g then [EntryOf(r)] else [])
  {
    assert (done + [r])[..|done|] == done;
  }

  /** The keys of a dictionary as a list without repetitions (dict.keys()). */
  method KeysOf<V>(m: map<string, V>) returns (keys: seq<string>)
    ensures forall k :: k in keys <==> k in m
    ensures forall i, j :: 0 <= i < j < |keys| ==> keys[i] != keys[j]
  {
    keys := [];
    var rest := m.Keys;
    while rest != {}
      invariant rest <= m.Keys
      invariant forall k :: k in keys <==> k in m && k !in rest
      invariant forall i, j :: 0 <= i < j < |keys| ==> keys[i] != keys[j]
      decreases rest
    {
      var k :| k in rest;
      keys := keys + [k];
      rest := rest - {k};
    }
  }

  /** `sorted(d.keys())`, or with `reverse=True`: the keys in strict code-point
      order, ascending or descending. */
  method SortedKeys<V>(m: map<string, V>, descending: bool) returns (keys: seq<string>)
    ensures forall k :: k in keys <==> k in m
    ensures forall i, j :: 0 <= i < j < |keys| ==>
              keys[i] != keys[j] && (if descending then LexLe(keys[j], keys[i]) else LexLe(keys[i], keys[j]))
  {
    var unsorted := KeysOf(m);
    var le := if descending then LexGe else LexLe;
    keys := Sort(unsorted, le);
    LexLeIsTotalPreorder();
    SortSorted(unsorted, le);
    assert forall k :: k in keys <==> k in multiset(unsorted);
    DistinctMultiset(unsorted);
    MultisetDistinct(keys);
  }

  ghost predicate Distinct(s: seq<string>) {
    forall i, j :: 0 <= i < j < |s| ==> s[i] != s[j]
  }

  lemma {:induction false} DistinctMultiset(s: seq<string>)
    requires Distinct(s)
    ensures forall x :: multiset(s)[x] <= 1
  {
    if s != [] {
      DistinctMultiset(s[1..]);
      assert s == [s[0]] + s[1..];
      assert s[0] !in s[1..];
    }
  }

  lemma {:induction false} MultisetDistinct(s: seq<string>)
    requires forall x :: multiset(s)[x] <= 1
    ensures Distinct(s)
  {
    if s != [] {
      assert s == [s[0]] + s[1..];
      assert forall x :: multiset(s[1..])[x] <= multiset(s)[x];
      MultisetDistinct(s[1..]);
      assert multiset(s[1..])[s[0]] == 0;
      forall j | 0 < j < |s|
        ensures s[0] != s[j]
      {
        assert s[j] == s[1..][j - 1];
      }
    }
  }

  /** `for genre in sorted(listing[year].keys()): ... sorted(entries, key=title.lower())` */
  method GenreGroups(buckets: map<string, seq<Entry>>) returns (groups: seq<GenreGroup>)
    ensures GenreGroupsOf(groups, buckets)
  {
    var genres := SortedKeys(buckets, false);
    groups := [];
    var c := 0;
    while c < |genres|
      invariant 0 <= c <= |genres|
      invariant |groups| == c
      invariant forall d :: 0 <= d < c ==> groups[d].genre == genres[d]
      invariant forall d :: 0 <= d < c ==> groups[d].genre in buckets && groups[d].entries == Sort(buckets[genres[d]], TitleOrder)
    {
      groups := groups + [GenreGroup(genres[c], Sort(buckets[genres[c]], TitleOrder))];
      c := c + 1;
    }
    forall g | g in buckets
      ensures exists i :: 0 <= i < |groups| && groups[i].genre == g
    {
      var i :| 0 <= i < |genres| && genres[i] == g;
      assert groups[i].genre == g;
    }
  }

  /** `for year in sorted(listing.keys(), reverse=True): ...` */
  method YearGroups(listing: map<string, map<string, seq<Entry>>>) returns (view: seq<YearGroup>)
    ensures YearGroupsOf(view, listing)
  {
    var years := SortedKeys(listing, true);
    view := [];
    var a := 0;
    while a < |years|
      invariant 0 <= a <= |years|
      invariant |view| == a
      invariant forall b :: 0 <= b < a ==> view[b].year == years[b]
      invariant forall b :: 0 <= b < a ==> view[b].year in listing && GenreGroupsOf(view[b].genres, listing[years[b]])
    {
      var groups := GenreGroups(listing[years[a]]);
      view := view + [YearGroup(years[a], groups)];
      a := a + 1;
    }
    forall y | y in listing
      ensures exists i :: 0 <= i < |view| && view[i].year == y
    {
      var i :| 0 <= i < |years| && years[i] == y;
      assert view[i].year == y;
    }
  }

  /** The body of `api_list` after the SELECT: group the fetched rows into
      nested dictionaries, then sort years, genres and entries. */
  method BuildListing(rows: seq<Row>) returns (view: seq<YearGroup>)
    ensures IsListing(view, rows)
  {
    var listing: map<string, map<string, seq<Entry>>> := map[];
    var k := 0;
    while k < |rows|
      invariant 0 <= k <= |rows|
      invariant Grouped(listing, rows[..k])
    {
      assert rows[..k + 1] == rows[..k] + [rows[k]];
      GroupedStep(listing, rows[..k], rows[k]);
      listing := AddEntry(listing, rows[k]);
      k := k + 1;
    }
    assert rows[..k] == rows;
    view := YearGroups(listing);
    GroupedSortedIsListing(view, listing, rows);
  }

  /** Sorting the grouped dictionary yields the listing of the rows grouped. */
  lemma GroupedSortedIsListing(view: seq<YearGroup>, listing: map<string, map<string, seq<Entry>>>, rows: seq<Row>)
    requires Grouped(listing, rows) && YearGroupsOf(view, listing)
    ensures IsListing(view, rows)
  {
    forall i | 0 <= i < |view|
      ensures IsGenreListing(view[i].genres, rows, view[i].year)
    {
      GenreGroupsAreListing(view[i].genres, listing[view[i].year], rows, view[i].year);
    }
  }

  lemma GenreGroupsAreListing(groups: seq<GenreGroup>, buckets: map<string, seq<Entry>>, rows: seq<Row>, y: string)
    requires GenreGroupsOf(groups, buckets)
    requires buckets.Keys == GenresOf(rows, y)
    requires forall g :: g in buckets ==> buckets[g] == Bucket(rows, y, g)
    ensures IsGenreListing(groups, rows, y)
  {
    TitleOrderIsTotalPreorder();
    forall j | 0 <= j < |groups|
      ensures Sorted(groups[j].entries, TitleOrder)
      ensures multiset(groups[j].entries) == multiset(Bucket(rows, y, groups[j].genre))
    {
      SortSorted(buckets[groups[j].genre], TitleOrder);
    }
  }

  // ---------------------------------------------------------------- reading

  /** In a listing every row shows up: under its own year and genre, whose
      groups are the only ones with those names. */
  lemma ListingShowsEveryRow(view: seq<YearGroup>, rows: seq<Row>, r: Row)
    requires IsListing(view, rows) && r in rows
    ensures exists i, j :: 0 <= i < |view| && 0 <= j < |view[i].genres|
              && view[i].year == YearBucket(r) && view[i].genres[j].genre == GenreBucket(r)
              && EntryOf(r) in view[i].genres[j].entries
    ensures forall i, j :: 0 <= i < |view| && 0 <= j < |view[i].genres|
              && view[i].year == YearBucket(r) && view[i].genres[j].genre == GenreBucket(r)
              ==> forall i', j' :: 0 <= i' < |view| && 0 <= j' < |view[i'].genres|
                    && view[i'].year == YearBucket(r) && view[i'].genres[j'].genre == GenreBucket(r)
                    ==> i' == i && j' == j
  {
    var y, g := YearBucket(r), GenreBucket(r);
    assert y in YearsOf(rows);
    var i :| 0 <= i < |view| && view[i].year == y;
    assert g in GenresOf(rows, y);
    var groups := view[i].genres;
    var j :| 0 <= j < |groups| && groups[j].genre == g;
    assert EntryOf(r) in Bucket(rows, y, g);
    assert EntryOf(r) in multiset(groups[j].entries);
  }

  /** A listing has exactly one group per year present in the rows. */
  lemma ListingHasOneGroupPerYear(view: seq<YearGroup>, rows: seq<Row>)
    requires IsListing(view, rows)
    ensures |view| == |YearsOf(rows)|
  {
    var years := seq(|view|, i requires 0 <= i < |view| => view[i].year);
    forall y
      ensures y in years <==> y in YearsOf(rows)
    {
      if y in YearsOf(rows) {
        var i :| 0 <= i < |view| && view[i].year == y;
        assert years[i] == y;
      }
    }
    assert (set y | y in years) == YearsOf(rows);
    DistinctCardinality(years);
  }

  lemma {:induction false} DistinctCardinality(s: seq<string>)
    requires Distinct(s)
    ensures |set x | x in s| == |s|
  {
    if s != [] {
      assert Distinct(s[1..]) by {
        forall i, j | 0 <= i < j < |s[1..]|
          ensures s[1..][i] != s[1..][j]
        {
          assert s[1..][i] == s[i + 1] && s[1..][j] == s[j + 1];
        }
      }
      DistinctCardinality(s[1..]);
      assert (set x | x in s) == (set x | x in s[1..]) + {s[0]};
      assert s[0] !in s[1..];
    }
  }

  /** ... and nothing else does: each entry is that of a row of its bucket. */
  lemma ListingShowsOnlyRows(view: seq<YearGroup>, rows: seq<Row>, i: int, j: int, e: Entry)
    requires IsListing(view, rows)
    requires 0 <= i < |view| && 0 <= j < |view[i].genres| && e in view[i].genres[j].entries
    ensures exists r :: r in rows && YearBucket(r) == view[i].year
                        && GenreBucket(r) == view[i].genres[j].genre && EntryOf(r) == e
  {
    assert e in multiset(view[i].genres[j].entries);
    assert e in Bucket(rows, view[i].year, view[i].genres[j].genre);
  }
}
