/** Text operations the handlers apply to titles, years and genres: Python's
    str.strip/str.split/str.lower and SQLite's TRIM/REPLACE/LOWER/GLOB, all on
    the ASCII range (Unicode case mapping and Unicode white space are left out). */
module Strings {

  /** The ASCII characters for which Python's str.isspace() holds. */
  const PyWhitespace: set<char> :=
    {' ', '\t', '\n', '\r', '\U{0B}', '\U{0C}', '\U{1C}', '\U{1D}', '\U{1E}', '\U{1F}'}

  /** The only character SQLite's one-argument TRIM removes. */
  const SqlBlank: set<char> := {' '}

  // ---------------------------------------------------------------- trimming

  function TrimLeft(s: string, cs: set<char>): (r: string)
    ensures |r| <= |s| && r == s[|s| - |r|..]
    ensures forall k :: 0 <= k < |s| - |r| ==> s[k] in cs
    ensures r == [] || r[0] !in cs
  {
    if s != [] && s[0] in cs then TrimLeft(s[1..], cs) else s
  }

  function TrimRight(s: string, cs: set<char>): (r: string)
    ensures |r| <= |s| && r == s[..|r|]
    ensures forall k :: |r| <= k < |s| ==> s[k] in cs
    ensures r == [] || r[|r| - 1] !in cs
  {
    if s != [] && s[|s| - 1] in cs then TrimRight(s[..|s| - 1], cs) else s
  }

  /** Removes the characters of cs from both ends: what is left neither starts
      nor ends with one of them (TrimIsPiece states what was cut). */
  function Trim(s: string, cs: set<char>): (r: string)
    ensures |r| <= |s|
    ensures r == [] || (r[0] !in cs && r[|r| - 1] !in cs)
  {
    var l := TrimLeft(s, cs);
    var r := TrimRight(l, cs);
    assert r != [] ==> r[0] == l[0];
    r
  }

  /** Trimming keeps a contiguous piece of s and cuts off only characters of
      cs on either side. */
  lemma TrimIsPiece(s: string, cs: set<char>)
    ensures exists a, b :: 0 <= a <= b <= |s| && Trim(s, cs) == s[a..b] &&
              forall k :: (0 <= k < a || b <= k < |s|) ==> s[k] in cs
  {
    var l := TrimLeft(s, cs);
    var r := TrimRight(l, cs);
    TrimBothEnds(s, cs, l, r, |s| - |l|, |s| - |l| + |r|);
  }

  /** Cutting a prefix of cs from s and then a suffix of cs leaves s[a..b]. */
  lemma TrimBothEnds(s: string, cs: set<char>, l: string, r: string, a: int, b: int)
    requires |l| <= |s| && l == s[|s| - |l|..] && (l == [] || l[0] !in cs)
    requires forall k :: 0 <= k < |s| - |l| ==> s[k] in cs
    requires |r| <= |l| && r == l[..|r|] && (r == [] || r[|r| - 1] !in cs)
    requires forall k :: |r| <= k < |l| ==> l[k] in cs
    requires a == |s| - |l| && b == a + |r|
    ensures r == [] || (r[0] !in cs && r[|r| - 1] !in cs)
    ensures 0 <= a <= b <= |s| && r == s[a..b]
    ensures forall k :: (0 <= k < a || b <= k < |s|) ==> s[k] in cs
  {
    assert l == s[a..] && r == l[..|r|];
    assert r != [] ==> r[0] == l[0];
    assert r == s[a..b];
    forall k | b <= k < |s|
      ensures s[k] in cs
    {
      assert s[k] == l[k - a];
    }
  }

  /** Python's s.strip(). */
  function Strip(s: string): string {
    Trim(s, PyWhitespace)
  }

  /** Trimming only removes characters. */
  lemma TrimKeepsOthers(s: string, cs: set<char>, c: char)
    requires c !in s
    ensures c !in Trim(s, cs)
  {
    var l := TrimLeft(s, cs);
    assert forall k :: 0 <= k < |l| ==> l[k] == s[|s| - |l| + k];
    var r := TrimRight(l, cs);
    assert forall k :: 0 <= k < |r| ==> r[k] == l[k];
  }

  lemma {:induction false} TrimIdempotent(s: string, cs: set<char>)
    ensures Trim(Trim(s, cs), cs) == Trim(s, cs)
  {
    var r := Trim(s, cs);
    if r != [] {
      assert TrimLeft(r, cs) == r;
      assert TrimRight(r, cs) == r;
    }
  }

  // ---------------------------------------------------------------- case

  /** ASCII lower-casing, which is what SQLite's LOWER does without ICU. */
  function LowerChar(c: char): char {
    if 'A' <= c <= 'Z' then (c as int + 32) as char else c
  }

  function Lower(s: string): (r: string)
    ensures |r| == |s|
    ensures forall i :: 0 <= i < |s| ==> r[i] == LowerChar(s[i])
  {
    if s == [] then [] else [LowerChar(s[0])] + Lower(s[1..])
  }

  lemma LowerIdempotent(s: string)
    ensures Lower(Lower(s)) == Lower(s)
  {
  }

  // ---------------------------------------------------------------- order

  /** Code-point lexicographic order: Python's string comparison and SQLite's
      BINARY collation on text. */
  predicate LexLe(a: string, b: string) {
    if a == [] then true
    else if b == [] then false
    else if a[0] != b[0] then a[0] < b[0]
    else LexLe(a[1..], b[1..])
  }

  lemma {:induction false} LexLeTotal(a: string, b: string)
    ensures LexLe(a, b) || LexLe(b, a)
  {
    if a != [] && b != [] && a[0] == b[0] {
      LexLeTotal(a[1..], b[1..]);
    }
  }

  lemma {:induction false} LexLeAntisymmetric(a: string, b: string)
    requires LexLe(a, b) && LexLe(b, a)
    ensures a == b
  {
    if a != [] && b != [] {
      LexLeAntisymmetric(a[1..], b[1..]);
      assert a == [a[0]] + a[1..];
      assert b == [b[0]] + b[1..];
    }
  }

  lemma {:induction false} LexLeTransitive(a: string, b: string, c: string)
    requires LexLe(a, b) && LexLe(b, c)
    ensures LexLe(a, c)
  {
    if a != [] && b != [] && c != [] && a[0] == b[0] && b[0] == c[0] {
      LexLeTransitive(a[1..], b[1..], c[1..]);
    }
  }

  // ---------------------------------------------------------------- splitting

  /** Python's s.split(sep) for a one-character separator: always at least one
      piece, pieces never contain sep. */
  function Split(s: string, sep: char): (parts: seq<string>)
    ensures |parts| >= 1
    ensures forall i :: 0 <= i < |parts| ==> sep !in parts[i]
  {
    if s == [] then [""]
    else
      var rest := Split(s[1..], sep);
      if s[0] == sep then [""] + rest else [[s[0]] + rest[0]] + rest[1..]
  }

  /** Python's sep.join(parts). */
  function Join(parts: seq<string>, sep: char): string {
    if parts == [] then ""
    else if |parts| == 1 then parts[0]
    else parts[0] + [sep] + Join(parts[1..], sep)
  }

  /** Splitting loses nothing: joining the pieces back gives the input. */
  lemma {:induction false} JoinSplit(s: string, sep: char)
    ensures Join(Split(s, sep), sep) == s
  {
    if s != [] {
      var rest := Split(s[1..], sep);
      JoinSplit(s[1..], sep);
      if s[0] == sep {
        assert Split(s, sep) == [""] + rest;
        assert ([""] + rest)[1..] == rest;
      } else {
        var parts := [[s[0]] + rest[0]] + rest[1..];
        assert parts[1..] == rest[1..];
        if |rest| > 1 {
          assert rest == [rest[0]] + rest[1..];
          assert Join(rest, sep) == rest[0] + [sep] + Join(rest[1..], sep);
        }
      }
    }
  }

  /** Length of the leading run of non-white-space characters. */
  function WordLength(s: string): (n: nat)
    ensures n <= |s|
    ensures forall k :: 0 <= k < n ==> s[k] !in PyWhitespace
    ensures n == |s| || s[n] in PyWhitespace
  {
    if s == [] || s[0] in PyWhitespace then 0 else 1 + WordLength(s[1..])
  }

  /** Python's s.split() with no argument: the maximal runs of non-white-space. */
  function Words(s: string): (ws: seq<string>)
    ensures forall i :: 0 <= i < |ws| ==> ws[i] != [] && forall k :: 0 <= k < |ws[i]| ==> ws[i][k] !in PyWhitespace
    decreases |s|
  {
    if s == [] then []
    else if s[0] in PyWhitespace then Words(s[1..])
    else
      var n := WordLength(s);
      [s[..n]] + Words(s[n..])
  }

  /** `' '.join(s.split())`: white space collapsed to single spaces, ends trimmed. */
  function Normalize(s: string): string {
    Join(Words(s), ' ')
  }

  lemma {:induction false} WordsOfWordPrefix(w: string, rest: string)
    requires w != [] && forall k :: 0 <= k < |w| ==> w[k] !in PyWhitespace
    requires rest == [] || rest[0] in PyWhitespace
    ensures Words(w + rest) == [w] + Words(rest)
  {
    var s := w + rest;
    WordLengthOf(w, rest);
    assert s[..|w|] == w;
    assert s[|w|..] == rest;
  }

  lemma {:induction false} WordLengthOf(w: string, rest: string)
    requires forall k :: 0 <= k < |w| ==> w[k] !in PyWhitespace
    requires rest == [] || rest[0] in PyWhitespace
    ensures WordLength(w + rest) == |w|
  {
    if w != [] {
      assert (w + rest)[1..] == w[1..] + rest;
      WordLengthOf(w[1..], rest);
    } else {
      assert w + rest == rest;
    }
  }

  /** Normalising keeps the words: the words of the normalised text are the
      words of the input (so normalising twice changes nothing). */
  lemma {:induction false} WordsOfNormalize(s: string)
    ensures Words(Normalize(s)) == Words(s)
  {
    WordsOfJoin(Words(s));
  }

  lemma {:induction false} WordsOfJoin(ws: seq<string>)
    requires forall i :: 0 <= i < |ws| ==> ws[i] != [] && forall k :: 0 <= k < |ws[i]| ==> ws[i][k] !in PyWhitespace
    ensures Words(Join(ws, ' ')) == ws
  {
    if ws == [] {
    } else if |ws| == 1 {
      WordsOfWordPrefix(ws[0], "");
      assert ws[0] + "" == ws[0];
    } else {
      var tail := [' '] + Join(ws[1..], ' ');
      assert Join(ws, ' ') == ws[0] + tail;
      WordsOfWordPrefix(ws[0], tail);
      assert Words(tail) == Words(Join(ws[1..], ' '));
      WordsOfJoin(ws[1..]);
      assert ws == [ws[0]] + ws[1..];
    }
  }

  /** The words laid end to end. */
  function Concat(ws: seq<string>): string {
    if ws == [] then "" else ws[0] + Concat(ws[1..])
  }

  /** s with every white-space character removed. */
  function NonWhite(s: string): (r: string)
    ensures forall k :: 0 <= k < |r| ==> r[k] !in PyWhitespace
  {
    if s == [] then ""
    else (if s[0] in PyWhitespace then "" else [s[0]]) + NonWhite(s[1..])
  }

  /** w sits in s at k with white space or an end on either side. */
  predicate WordAt(w: string, s: string, k: int) {
    OccursAt(w, s, k) &&
    (k == 0 || s[k - 1] in PyWhitespace) &&
    (k + |w| == |s| || s[k + |w|] in PyWhitespace)
  }

  ghost predicate StandsAlone(w: string, s: string) {
    exists k :: WordAt(w, s, k)
  }

  lemma {:induction false} NonWhiteAppend(a: string, b: string)
    ensures NonWhite(a + b) == NonWhite(a) + NonWhite(b)
  {
    if a != [] {
      assert (a + b)[1..] == a[1..] + b;
      NonWhiteAppend(a[1..], b);
    } else {
      assert a + b == b;
    }
  }

  lemma {:induction false} NonWhiteOfWord(w: string)
    requires forall k :: 0 <= k < |w| ==> w[k] !in PyWhitespace
    ensures NonWhite(w) == w
  {
    if w != [] {
      NonWhiteOfWord(w[1..]);
      assert w == [w[0]] + w[1..];
    }
  }

  /** Laid end to end, the words give s without its white space, and each one
      stands in s between white space or the ends of s. (Their number and
      order are fixed by WordsAreSplitPieces.) */
  lemma WordsAreMaximalRuns(s: string)
    ensures Concat(Words(s)) == NonWhite(s)
    ensures forall i :: 0 <= i < |Words(s)| ==> StandsAlone(Words(s)[i], s)
  {
    WordsConcat(s);
    WordsStandAlone(s);
  }

  lemma {:induction false} WordsConcat(s: string)
    ensures Concat(Words(s)) == NonWhite(s)
    decreases |s|
  {
    if s == [] {
    } else if s[0] in PyWhitespace {
      WordsConcat(s[1..]);
    } else {
      var n := WordLength(s);
      var w0, rest := s[..n], s[n..];
      WordsConcat(rest);
      var ws := Words(s);
      assert ws == [w0] + Words(rest);
      assert ws[1..] == Words(rest);
      assert s == w0 + rest;
      NonWhiteAppend(w0, rest);
      NonWhiteOfWord(w0);
    }
  }

  lemma {:induction false} WordsStandAlone(s: string)
    ensures forall i :: 0 <= i < |Words(s)| ==> StandsAlone(Words(s)[i], s)
    decreases |s|
  {
    if s == [] {
    } else if s[0] in PyWhitespace {
      var rest := s[1..];
      WordsStandAlone(rest);
      assert Words(s) == Words(rest);
      forall i | 0 <= i < |Words(rest)|
        ensures StandsAlone(Words(rest)[i], s)
      {
        var w := Words(rest)[i];
        var k' :| WordAt(w, rest, k');
        WordAtShift(w, s, 1, k');
      }
    } else {
      var n := WordLength(s);
      var rest := s[n..];
      WordsStandAlone(rest);
      var ws := Words(s);
      assert ws == [s[..n]] + Words(rest);
      assert WordAt(ws[0], s, 0);
      forall i | 1 <= i < |ws|
        ensures StandsAlone(ws[i], s)
      {
        var w := Words(rest)[i - 1];
        assert ws[i] == w;
        var k' :| WordAt(w, rest, k');
        assert rest[k'] == w[0];
        WordAtShift(w, s, n, k');
      }
    }
  }

  /** A word standing alone in a suffix of s, away from the suffix's start or
      right after white space, stands alone in s. */
  lemma WordAtShift(w: string, s: string, n: nat, k: nat)
    requires n <= |s| && w != []
    requires WordAt(w, s[n..], k)
    requires n == 0 || k > 0 || s[n - 1] in PyWhitespace
    ensures WordAt(w, s, n + k)
  {
    assert s[n + k..n + k + |w|] == s[n..][k..k + |w|];
  }

  /** The pieces between white-space characters: s cut at every one of them,
      so n white-space characters give n + 1 pieces, some of them empty. */
  function SplitAtWhite(s: string): (parts: seq<string>)
    ensures |parts| == |s| - |NonWhite(s)| + 1
  {
    if s == [] then [""]
    else
      var rest := SplitAtWhite(s[1..]);
      if s[0] in PyWhitespace then [""] + rest
      else [[s[0]] + rest[0]] + rest[1..]
  }

  /** The non-empty pieces, in order. */
  function DropEmpty(parts: seq<string>): (r: seq<string>)
    ensures forall i :: 0 <= i < |r| ==> r[i] != [] && r[i] in parts
    ensures forall p :: p in parts && p != [] ==> p in r
  {
    if parts == [] then []
    else (if parts[0] == [] then [] else [parts[0]]) + DropEmpty(parts[1..])
  }

  /** Python documents s.split() as splitting at white space and dropping the
      empty strings: Words is exactly that, so it fixes the words' number and
      their order, and which runs they are. */
  lemma {:induction false} WordsAreSplitPieces(s: string)
    ensures Words(s) == DropEmpty(SplitAtWhite(s))
    decreases |s|
  {
    if s == [] {
    } else if s[0] in PyWhitespace {
      WordsAreSplitPieces(s[1..]);
      assert ([""] + SplitAtWhite(s[1..]))[1..] == SplitAtWhite(s[1..]);
    } else {
      var n := WordLength(s);
      var w, rest := s[..n], s[n..];
      assert s == w + rest;
      WordsAreSplitPieces(rest);
      SplitAtWhiteOfWord(w, rest);
      var tail := SplitAtWhite(rest);
      assert tail == [""] + tail[1..];
      assert DropEmpty(tail) == DropEmpty(tail[1..]) by {
        assert tail[1..] == ([""] + tail[1..])[1..];
      }
      assert ([w] + tail[1..])[1..] == tail[1..];
    }
  }

  /** A word followed by white space or nothing opens the first piece, alone. */
  lemma {:induction false} SplitAtWhiteOfWord(w: string, rest: string)
    requires forall k :: 0 <= k < |w| ==> w[k] !in PyWhitespace
    requires rest == [] || rest[0] in PyWhitespace
    ensures SplitAtWhite(w + rest) == [w] + SplitAtWhite(rest)[1..]
    ensures SplitAtWhite(rest)[0] == ""
    decreases |w|
  {
    if w != [] {
      assert (w + rest)[1..] == w[1..] + rest;
      SplitAtWhiteOfWord(w[1..], rest);
      assert [w[0]] + w[1..] == w;
    } else {
      assert w + rest == rest;
    }
  }

  /** Collapsing white space never lengthens a text. */
  lemma NormalizeNoLonger(s: string)
    ensures |Normalize(s)| <= |s|
  {
    JoinWordsNoLonger(s);
  }

  lemma {:induction false} JoinWordsNoLonger(s: string)
    ensures |Join(Words(s), ' ')| <= |s|
    decreases |s|
  {
    if s == [] {
    } else if s[0] in PyWhitespace {
      JoinWordsNoLonger(s[1..]);
    } else {
      var n := WordLength(s);
      var rest := s[n..];
      var ws := Words(rest);
      assert Words(s) == [s[..n]] + ws;
      if ws != [] {
        assert rest != [] && rest[0] in PyWhitespace;
        assert Words(rest) == Words(rest[1..]);
        JoinWordsNoLonger(rest[1..]);
        assert ([s[..n]] + ws)[1..] == ws;
      }
    }
  }

  lemma NormalizeIdempotent(s: string)
    ensures Normalize(Normalize(s)) == Normalize(s)
  {
    WordsOfNormalize(s);
  }

  // ---------------------------------------------------------------- SQLite

  /** SQLite's REPLACE(s, '  ', ' '): every non-overlapping pair of spaces,
      scanning left to right, becomes one space. */
  function HalveSpaceRuns(s: string): (r: string)
    ensures |r| <= |s|
  {
    if |s| >= 2 && s[0] == ' ' && s[1] == ' ' then [' '] + HalveSpaceRuns(s[2..])
    else if s == [] then []
    else [s[0]] + HalveSpaceRuns(s[1..])
  }

  /** What the exact-title search does to a stored title before comparing:
      `TRIM(REPLACE(REPLACE(REPLACE(title, '  ', ' '), '  ', ' '), '  ', ' '))`. */
  function StoredTitleKey(title: string): (key: string)
    ensures |key| <= |title|
    ensures key == [] || (key[0] != ' ' && key[|key| - 1] != ' ')
  {
    Trim(HalveSpaceRuns(HalveSpaceRuns(HalveSpaceRuns(title))), SqlBlank)
  }

  /** No two spaces in a row. */
  predicate NoDoubleSpace(s: string) {
    forall i :: 0 <= i < |s| - 1 ==> !(s[i] == ' ' && s[i + 1] == ' ')
  }

  lemma {:induction false} HalveSpaceRunsKeepsSingleSpaces(s: string)
    requires NoDoubleSpace(s)
    ensures HalveSpaceRuns(s) == s
  {
    if s != [] {
      assert NoDoubleSpace(s[1..]);
      HalveSpaceRunsKeepsSingleSpaces(s[1..]);
      assert s == [s[0]] + s[1..];
    }
  }

  lemma TrimKeepsTrimmed(s: string, cs: set<char>)
    requires s == [] || (s[0] !in cs && s[|s| - 1] !in cs)
    ensures Trim(s, cs) == s
  {
  }

  /** A stored title with single spaces only and no space at either end is its
      own key. */
  lemma StoredTitleKeyOfTidyTitle(title: string)
    requires NoDoubleSpace(title)
    requires title == [] || (title[0] != ' ' && title[|title| - 1] != ' ')
    ensures StoredTitleKey(title) == title
  {
    HalveSpaceRunsKeepsSingleSpaces(title);
    TrimKeepsTrimmed(title, SqlBlank);
  }

  function Spaces(n: nat): (r: string)
    ensures |r| == n && forall k :: 0 <= k < n ==> r[k] == ' '
  {
    if n == 0 then "" else [' '] + Spaces(n - 1)
  }

  /** One REPLACE pass turns a run of n spaces into (n + 1) / 2 spaces. */
  lemma {:induction false} HalveSpaceRunsOfRun(n: nat, rest: string)
    requires rest == [] || rest[0] != ' '
    ensures HalveSpaceRuns(Spaces(n) + rest) == Spaces((n + 1) / 2) + HalveSpaceRuns(rest)
  {
    var s := Spaces(n) + rest;
    if n >= 2 {
      SpacesSplit(n, rest, HalveSpaceRuns(rest));
      HalveSpaceRunsOfRun(n - 2, rest);
      assert HalveSpaceRuns(s) == [' '] + HalveSpaceRuns(s[2..]);
    } else if n == 1 {
      assert s[1..] == rest;
      assert [' '] == Spaces(1);
    } else {
      assert s == rest;
    }
  }

  lemma SpacesSplit(n: nat, rest: string, tail: string)
    requires n >= 2
    ensures (Spaces(n) + rest)[2..] == Spaces(n - 2) + rest
    ensures (Spaces(n) + rest)[0] == ' ' && (Spaces(n) + rest)[1] == ' '
    ensures [' '] + (Spaces((n - 1) / 2) + tail) == Spaces((n + 1) / 2) + tail
  {
    assert [' '] + Spaces((n - 1) / 2) == Spaces((n + 1) / 2);
  }

  /** Three REPLACE passes shorten a run of nine spaces to two, not one: they
      do not collapse long runs. */
  lemma StoredTitleKeyOfLongRun()
    ensures StoredTitleKey("a" + Spaces(9) + "b") == "a  b"
  {
    var a, b := "a", "b";
    assert HalveSpaceRuns(b) == b;
    forall n: nat ensures HalveSpaceRuns(a + Spaces(n) + b) == a + Spaces((n + 1) / 2) + b {
      var s := a + Spaces(n) + b;
      assert s[1..] == Spaces(n) + b;
      HalveSpaceRunsOfRun(n, b);
    }
    assert HalveSpaceRuns(a + Spaces(9) + b) == a + Spaces(5) + b;
    assert HalveSpaceRuns(a + Spaces(5) + b) == a + Spaces(3) + b;
    assert HalveSpaceRuns(a + Spaces(3) + b) == a + Spaces(2) + b;
    TrimKeepsTrimmed(a + Spaces(2) + b, SqlBlank);
    assert a + Spaces(2) + b == "a  b";
  }

  /** SQLite's `GLOB '*[0-9]*'`: at least one ASCII digit. */
  predicate HasDigit(s: string) {
    exists i :: 0 <= i < |s| && '0' <= s[i] <= '9'
  }

  /** t occurs in s as a contiguous piece. */
  predicate IsInfix(t: string, s: string) {
    exists k :: 0 <= k <= |s| && OccursAt(t, s, k)
  }

  predicate OccursAt(t: string, s: string, k: int) {
    0 <= k <= |s| - |t| && s[k..k + |t|] == t
  }
}
