/** The `saved` table (app.py:44-55) and the statements the handlers run on it.
    The table is a sequence of rows in insertion order, which stands in for
    the order SQLite happens to return them in; PRIMARY KEY(list_name, id,
    year, genre) is the UniqueKeys invariant. Each SQL statement is one
    function here: SELECT/DELETE ... WHERE, INSERT OR IGNORE, and the two
    UPDATEs. */
module Table {
  import opened Requests

  datatype Row = Row(listName: string, id: string, title: string, year: string, genre: string,
                     runtime: string, synopsis: string)

  /** The primary key of a row: the list, the movie and its placement. */
  datatype Key = Key(listName: string, id: string, year: string, genre: string)

  function KeyOf(r: Row): Key {
    Key(r.listName, r.id, r.year, r.genre)
  }

  ghost predicate UniqueKeys(rows: seq<Row>) {
    forall i, j :: 0 <= i < j < |rows| ==> KeyOf(rows[i]) != KeyOf(rows[j])
  }

  predicate HasKey(rows: seq<Row>, k: Key) {
    exists i :: 0 <= i < |rows| && KeyOf(rows[i]) == k
  }

  /** Number of rows carrying key k. */
  function KeyCount(rows: seq<Row>, k: Key): nat {
    if rows == [] then 0
    else KeyCount(rows[..|rows| - 1], k) + (if KeyOf(rows[|rows| - 1]) == k then 1 else 0)
  }

  /** The WHERE clauses the handlers put on the saved table. */
  datatype Where =
    | InList(list: string)
    | OfMovie(list: string, id: string)
    | AtPlacement(list: string, id: string, year: string, genre: string)

  predicate Selects(w: Where, r: Row) {
    match w
    case InList(l) => r.listName == l
    case OfMovie(l, id) => r.listName == l && r.id == id
    case AtPlacement(l, id, y, g) => r.listName == l && r.id == id && r.year == y && r.genre == g
  }

  /** `SELECT ... FROM saved WHERE w`, in table order. */
  function Select(rows: seq<Row>, w: Where): (r: seq<Row>)
    ensures forall x :: x in r <==> x in rows && Selects(w, x)
    ensures |r| <= |rows|
    ensures r == [] <==> forall x :: x in rows ==> !Selects(w, x)
  {
    if rows == [] then []
    else (if Selects(w, rows[0]) then [rows[0]] else []) + Select(rows[1..], w)
  }

  /** `DELETE FROM saved WHERE w`: the other rows, in their order. The number of
      rows it removes (the cursor's rowcount) is the number w selects. */
  function Delete(rows: seq<Row>, w: Where): (r: seq<Row>)
    ensures forall x :: x in r <==> x in rows && !Selects(w, x)
    ensures |rows| - |r| == |Select(rows, w)|
    ensures UniqueKeys(rows) ==> UniqueKeys(r)
  {
    if rows == [] then []
    else
      var rest := Delete(rows[1..], w);
      var r := (if Selects(w, rows[0]) then [] else [rows[0]]) + rest;
      assert UniqueKeys(rows) ==> UniqueKeys(r) by {
        if UniqueKeys(rows) {
          UniqueKeysTail(rows);
          if !Selects(w, rows[0]) {
            UniqueKeysCons(rows[0], rest);
          }
        }
      }
      r
  }

  lemma UniqueKeysTail(rows: seq<Row>)
    requires rows != [] && UniqueKeys(rows)
    ensures UniqueKeys(rows[1..])
    ensures forall x :: x in rows[1..] ==> KeyOf(x) != KeyOf(rows[0])
  {
    forall x | x in rows[1..]
      ensures KeyOf(x) != KeyOf(rows[0])
    {
      var j :| 0 <= j < |rows[1..]| && rows[1..][j] == x;
      assert rows[j + 1] == x;
    }
  }

  lemma UniqueKeysCons(x: Row, rest: seq<Row>)
    requires UniqueKeys(rest)
    requires forall y :: y in rest ==> KeyOf(y) != KeyOf(x)
    ensures UniqueKeys([x] + rest)
  {
    var r := [x] + rest;
    forall i, j | 0 <= i < j < |r|
      ensures KeyOf(r[i]) != KeyOf(r[j])
    {
      assert r[j] == rest[j - 1];
      if i > 0 {
        assert r[i] == rest[i - 1];
      } else {
        assert rest[j - 1] in rest;
      }
    }
  }

  /** `INSERT OR IGNORE INTO saved ...`: appended unless a row with its key is
      already there, in which case nothing changes. */
  function InsertOrIgnore(rows: seq<Row>, row: Row): (r: seq<Row>)
    ensures HasKey(r, KeyOf(row))
    ensures forall x :: x in r <==> x in rows || (x == row && !HasKey(rows, KeyOf(row)))
    ensures UniqueKeys(rows) ==> UniqueKeys(r)
  {
    if HasKey(rows, KeyOf(row)) then rows
    else
      assert forall i :: 0 <= i < |rows| ==> KeyOf(rows[i]) != KeyOf(row);
      assert KeyOf((rows + [row])[|rows|]) == KeyOf(row);
      rows + [row]
  }

  /** `UPDATE saved SET title = ?[, synopsis = ?] WHERE w`: the synopsis is
      written only when one is given. */
  function SetTitle(rows: seq<Row>, w: Where, title: string, synopsis: Option<string>): (r: seq<Row>)
    ensures |r| == |rows|
    ensures forall i :: 0 <= i < |rows| ==> KeyOf(r[i]) == KeyOf(rows[i]) && r[i].runtime == rows[i].runtime
    ensures forall i :: 0 <= i < |rows| && !Selects(w, rows[i]) ==> r[i] == rows[i]
    ensures forall i :: 0 <= i < |rows| && Selects(w, rows[i]) ==> r[i].title == title
    ensures forall i :: 0 <= i < |rows| && Selects(w, rows[i]) ==>
              r[i].synopsis == (if synopsis.Some? then synopsis.value else rows[i].synopsis)
    ensures UniqueKeys(rows) ==> UniqueKeys(r)
  {
    seq(|rows|, i requires 0 <= i < |rows| =>
      if Selects(w, rows[i]) then
        rows[i].(title := title, synopsis := if synopsis.Some? then synopsis.value else rows[i].synopsis)
      else rows[i])
  }

  /** Some row of list `from`, moved to list `to`, would take the key of a row
      already in `to`: SQLite refuses the UPDATE with a constraint error. */
  predicate Collides(rows: seq<Row>, from: string, to: string) {
    from != to &&
    exists i, j :: 0 <= i < |rows| && 0 <= j < |rows| && rows[i].listName == from &&
                   KeyOf(rows[i].(listName := to)) == KeyOf(rows[j])
  }

  /** `UPDATE saved SET list_name = to WHERE list_name = from`. */
  function Relabel(rows: seq<Row>, from: string, to: string): (r: seq<Row>)
    ensures |r| == |rows|
    ensures forall i :: 0 <= i < |rows| ==> r[i] == if rows[i].listName == from then rows[i].(listName := to) else rows[i]
    ensures UniqueKeys(rows) && !Collides(rows, from, to) ==> UniqueKeys(r)
  {
    seq(|rows|, i requires 0 <= i < |rows| => if rows[i].listName == from then rows[i].(listName := to) else rows[i])
  }

  // ---------------------------------------------------------------- facts

  /** The collision test is exact: a collision is precisely what would break
      the primary key, so refusing it refuses nothing the database would allow. */
  lemma CollisionBreaksKeys(rows: seq<Row>, from: string, to: string)
    requires Collides(rows, from, to)
    ensures !UniqueKeys(Relabel(rows, from, to))
  {
    var r := Relabel(rows, from, to);
    var i, j :| 0 <= i < |rows| && 0 <= j < |rows| && rows[i].listName == from &&
                KeyOf(rows[i].(listName := to)) == KeyOf(rows[j]);
    assert rows[j].listName == to;
    assert KeyOf(r[i]) == KeyOf(r[j]);
    if i < j {
      assert !(KeyOf(r[i]) != KeyOf(r[j]));
    } else {
      assert j < i;
      assert !(KeyOf(r[j]) != KeyOf(r[i]));
    }
  }


  /** Adding the same row twice is the same as adding it once. */
  lemma InsertOrIgnoreIdempotent(rows: seq<Row>, row: Row)
    ensures InsertOrIgnore(InsertOrIgnore(rows, row), row) == InsertOrIgnore(rows, row)
  {
  }

  lemma {:induction false} KeyCountZero(rows: seq<Row>, k: Key)
    ensures KeyCount(rows, k) == 0 <==> !HasKey(rows, k)
  {
    if rows != [] {
      var front := rows[..|rows| - 1];
      KeyCountZero(front, k);
      if HasKey(rows, k) && KeyOf(rows[|rows| - 1]) != k {
        var i :| 0 <= i < |rows| && KeyOf(rows[i]) == k;
        assert KeyOf(front[i]) == k;
      }
      if HasKey(front, k) {
        var i :| 0 <= i < |front| && KeyOf(front[i]) == k;
        assert KeyOf(rows[i]) == k;
      }
    }
  }

  /** Under the primary key, a key is carried by at most one row. */
  lemma {:induction false} KeyCountAtMostOne(rows: seq<Row>, k: Key)
    requires UniqueKeys(rows)
    ensures KeyCount(rows, k) <= 1
  {
    if rows != [] {
      var front := rows[..|rows| - 1];
      KeyCountAtMostOne(front, k);
      if KeyOf(rows[|rows| - 1]) == k {
        forall i | 0 <= i < |front|
          ensures KeyOf(front[i]) != k
        {
          assert front[i] == rows[i];
        }
        KeyCountZero(front, k);
      }
    }
  }

  /** After INSERT OR IGNORE, however often repeated, the table holds exactly
      one row with the inserted key. */
  lemma ExactlyOneAfterInsert(rows: seq<Row>, row: Row)
    requires UniqueKeys(rows)
    ensures KeyCount(InsertOrIgnore(rows, row), KeyOf(row)) == 1
  {
    var r := InsertOrIgnore(rows, row);
    KeyCountAtMostOne(r, KeyOf(row));
    KeyCountZero(r, KeyOf(row));
  }

  /** A WHERE on the whole key selects at most one row, so removing an exact
      placement removes at most one row. */
  lemma {:induction false} PlacementSelectsAtMostOne(rows: seq<Row>, l: string, id: string, y: string, g: string)
    requires UniqueKeys(rows)
    ensures |Select(rows, AtPlacement(l, id, y, g))| <= 1
  {
    if rows != [] {
      PlacementSelectsAtMostOne(rows[1..], l, id, y, g);
      var w := AtPlacement(l, id, y, g);
      if Selects(w, rows[0]) {
        forall x | x in rows[1..]
          ensures !Selects(w, x)
        {
          var j :| 0 <= j < |rows[1..]| && rows[1..][j] == x;
          assert KeyOf(rows[j + 1]) != KeyOf(rows[0]);
        }
      }
    }
  }

  // ---------------------------------------------------------------- registry

  /** The `lists` table: list name to the time of its latest `updated_at`
      stamp, times counted by one clock for all lists (0 is a row whose
      updated_at is still NULL). */
  function Version(lists: map<string, nat>, name: string): nat {
    if name in lists then lists[name] else 0
  }

  /** `UPDATE lists SET updated_at = datetime('now') WHERE name = ?` at time t:
      a no-op for a name that has no row. */
  function Stamp(lists: map<string, nat>, name: string, t: nat): (r: map<string, nat>)
    ensures r.Keys == lists.Keys
    ensures name in lists ==> r[name] == t
    ensures forall n :: n in lists && n != name ==> r[n] == lists[n]
  {
    if name in lists then lists[name := t] else lists
  }
}
