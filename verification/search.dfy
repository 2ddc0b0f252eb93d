/** The free-text search of the task listing as the route writes it: the
    stripped term is wrapped as "%term%" and handed to ILIKE, which on SQLite
    is lower(column) LIKE lower(pattern) with no escape character. */
module Search {
  import opened Text

  /** The characters SQL LIKE gives a meaning of their own. */
  predicate IsWildcard(c: char)
  {
    c == '%' || c == '_'
  }

  /** A term with no LIKE wildcard in it. */
  predicate Literal(t: string)
  {
    forall i :: 0 <= i < |t| ==> !IsWildcard(t[i])
  }

  /** SQL LIKE without an escape character: '%' matches any run of
      characters (also the empty one), '_' matches exactly one character,
      every other pattern character matches itself. */
  function LikeMatch(p: string, s: string): bool
    decreases |p| + |s|
  {
    if p == [] then s == []
    else if p[0] == '%' then LikeMatch(p[1..], s) || (s != [] && LikeMatch(p, s[1..]))
    else s != [] && (p[0] == '_' || p[0] == s[0]) && LikeMatch(p[1..], s[1..])
  }

  /** column ILIKE pattern, rendered for SQLite. */
  function ILike(value: string, pattern: string): bool
  {
    LikeMatch(Lower(pattern), Lower(value))
  }

  /** The pattern built at app/routes.py:97. */
  function SearchPattern(term: string): string
  {
    "%" + term + "%"
  }

  /** A lone '%' matches every string. */
  lemma {:induction false} PercentMatchesAll(s: string)
    ensures LikeMatch("%", s)
  {
    if s != [] {
      PercentMatchesAll(s[1..]);
    }
  }

  /** A leading '%' lets the rest of the pattern match any suffix. */
  lemma {:induction false} LeadingPercent(q: string, s: string)
    ensures LikeMatch(['%'] + q, s) <==> exists k :: 0 <= k <= |s| && LikeMatch(q, s[k..])
  {
    var p := ['%'] + q;
    assert p[1..] == q;
    assert s[0..] == s;
    if s != [] {
      LeadingPercent(q, s[1..]);
      if LikeMatch(p, s[1..]) {
        var k :| 0 <= k <= |s| - 1 && LikeMatch(q, s[1..][k..]);
        assert s[1..][k..] == s[k + 1..];
      }
      if k :| 0 <= k <= |s| && LikeMatch(q, s[k..]) {
        if k > 0 {
          assert s[1..][k - 1..] == s[k..];
        }
      }
    }
  }

  /** A literal followed by '%' matches exactly the strings it begins. */
  lemma {:induction false} LiteralThenPercent(t: string, s: string)
    requires Literal(t)
    ensures LikeMatch(t + "%", s) <==> |t| <= |s| && s[..|t|] == t
  {
    if t == [] {
      assert t + "%" == "%";
      PercentMatchesAll(s);
    } else {
      var p := t + "%";
      assert p[0] == t[0] && p[1..] == t[1..] + "%";
      if s != [] {
        LiteralThenPercent(t[1..], s[1..]);
        if |t| <= |s| && s[..|t|] == t {
          assert s[1..][..|t| - 1] == t[1..];
        }
        if LikeMatch(p, s) {
          assert s[..|t|] == [s[0]] + s[1..][..|t| - 1];
          assert t == [t[0]] + t[1..];
        }
      }
    }
  }

  /** Without wildcards in the term, "%term%" is a substring test. */
  lemma LiteralSearchIsSubstring(t: string, s: string)
    requires Literal(t)
    ensures LikeMatch(SearchPattern(t), s) <==> IsSubstring(t, s)
  {
    assert SearchPattern(t) == ['%'] + (t + "%");
    LeadingPercent(t + "%", s);
    if LikeMatch(SearchPattern(t), s) {
      var k :| 0 <= k <= |s| && LikeMatch(t + "%", s[k..]);
      LiteralThenPercent(t, s[k..]);
      assert s[k..][..|t|] == s[k..k + |t|];
      assert OccursAt(t, s, k);
    }
    if IsSubstring(t, s) {
      var k :| 0 <= k <= |s| && OccursAt(t, s, k);
      LiteralThenPercent(t, s[k..]);
      assert s[k..][..|t|] == s[k..k + |t|];
    }
  }

  /** ILIKE '%term%' is the case-insensitive substring test exactly when the
      term holds no wildcard. */
  lemma ILikeAgreesWithoutWildcards(value: string, term: string)
    requires Literal(term)
    ensures ILike(value, SearchPattern(term)) <==> ContainsIgnoringCase(value, term)
  {
    LowerAppend("%", term);
    LowerAppend("%" + term, "%");
    assert Lower("%") == "%";
    assert Literal(Lower(term)) by {
      forall i | 0 <= i < |term| ensures !IsWildcard(Lower(term)[i]) {
        assert !IsWildcard(term[i]);
      }
    }
    LiteralSearchIsSubstring(Lower(term), Lower(value));
  }

  /** As written, '_' in the search term matches any character: searching
      "a_b" finds a task titled "axb", which does not contain "a_b". */
  lemma UnderscoreMatchesAnyChar()
    ensures ILike("axb", SearchPattern("a_b"))
    ensures !ContainsIgnoringCase("axb", "a_b")
  {
    assert Lower("axb") == "axb";
    assert Lower(SearchPattern("a_b")) == "%a_b%";
    assert LikeMatch("%", []);
    assert LikeMatch("b%", "b");
    assert LikeMatch("_b%", "xb");
    assert LikeMatch("a_b%", "axb");
    assert LikeMatch("%a_b%", "axb");
    assert Lower("a_b") == "a_b";
    forall k | 0 <= k <= 3 ensures !OccursAt("a_b", "axb", k) {
      if k == 0 {
        assert "axb"[1] != "a_b"[1];
      }
    }
  }

  /** As written, searching "%" matches every title. */
  lemma PercentSearchMatchesEverything(value: string)
    ensures ILike(value, SearchPattern("%"))
  {
    var l := Lower(value);
    assert Lower(SearchPattern("%")) == ['%'] + "%%";
    LeadingPercent("%%", l);
    assert "%%"[1..] == "%";
    PercentMatchesAll(l);
    assert LikeMatch("%%", l);
    assert l[0..] == l;
  }
}
