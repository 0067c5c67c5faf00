/** SQLite's LIKE operator without an ESCAPE clause: '%' matches any run of
    characters, '_' matches any one character, anything else matches itself.
    (SQLite also folds ASCII case; the search lower-cases both sides first,
    so plain equality is what remains.) */
module SqlLike {
  import opened Strings

  function Like(pattern: string, s: string): (b: bool)
    ensures NoWildcards(pattern) ==> (b <==> s == pattern)
    decreases |pattern| + |s|
  {
    if pattern == [] then s == []
    else if pattern[0] == '%' then Like(pattern[1..], s) || (s != [] && Like(pattern, s[1..]))
    else s != [] && (pattern[0] == '_' || pattern[0] == s[0]) && Like(pattern[1..], s[1..])
  }

  predicate NoWildcards(t: string) {
    '%' !in t && '_' !in t
  }

  /** The empty text matches exactly the patterns made only of '%'. */
  lemma {:induction false} LikeEmpty(pattern: string)
    ensures Like(pattern, "") <==> forall i :: 0 <= i < |pattern| ==> pattern[i] == '%'
  {
    if pattern != [] {
      LikeEmpty(pattern[1..]);
      assert forall i :: 1 <= i < |pattern| ==> pattern[i] == pattern[1..][i - 1];
    }
  }

  lemma {:induction false} PercentMatchesAll(s: string)
    ensures Like("%", s)
  {
    if s != [] {
      PercentMatchesAll(s[1..]);
    }
  }

  /** A wildcard-free text followed by '%' matches exactly the texts it begins. */
  lemma {:induction false} LikePrefix(t: string, s: string)
    requires NoWildcards(t)
    ensures Like(t + "%", s) <==> t <= s
  {
    if t == [] {
      assert t + "%" == "%";
      PercentMatchesAll(s);
    } else {
      assert (t + "%")[1..] == t[1..] + "%";
      assert (t + "%")[0] == t[0];
      if s != [] {
        LikePrefix(t[1..], s[1..]);
      }
    }
  }

  /** A leading '%' lets the rest of the pattern match any suffix. */
  lemma {:induction false} LikeLeadingPercent(q: string, s: string)
    ensures Like("%" + q, s) <==> exists k :: 0 <= k <= |s| && Like(q, s[k..])
  {
    assert ("%" + q)[1..] == q;
    if s == [] {
      assert s[0..] == s;
    } else {
      LikeLeadingPercent(q, s[1..]);
      if Like("%" + q, s) {
        if !Like(q, s) {
          var k :| 0 <= k <= |s[1..]| && Like(q, s[1..][k..]);
          assert s[1..][k..] == s[k + 1..];
        } else {
          assert s[0..] == s;
        }
      } else {
        forall k | 0 <= k <= |s|
          ensures !Like(q, s[k..])
        {
          if k > 0 {
            assert s[1..][k - 1..] == s[k..];
          }
        }
      }
    }
  }

  /** `LIKE '%t%'` with a wildcard-free t is substring containment. */
  lemma LikeContains(t: string, s: string)
    requires NoWildcards(t)
    ensures Like("%" + t + "%", s) <==> IsInfix(t, s)
  {
    assert "%" + t + "%" == "%" + (t + "%");
    LikeLeadingPercent(t + "%", s);
    if Like("%" + t + "%", s) {
      var k :| 0 <= k <= |s| && Like(t + "%", s[k..]);
      LikePrefix(t, s[k..]);
      assert OccursAt(t, s, k);
    }
    if IsInfix(t, s) {
      var k :| 0 <= k <= |s| && OccursAt(t, s, k);
      LikePrefix(t, s[k..]);
    }
  }
}
