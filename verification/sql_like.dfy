/**
 * SQLite's LIKE operator as search_articles uses it: the pattern is
 * '%' + query + '%', matching is case-insensitive for ASCII letters only,
 * '%' matches any run of characters and '_' any single character (the query
 * is not escaped, so these keep their meaning when the user types them).
 */
module SqlLike {

  /** ASCII lower-casing, the only case folding LIKE does by default. */
  function Fold(c: char): (d: char)
    ensures !('A' <= d <= 'Z')
  {
    if 'A' <= c <= 'Z' then (c as int + 32) as char else c
  }

  /**
   * Two characters are equal under LIKE exactly when they are the same
   * character or one is an ASCII capital and the other its lower-case letter.
   */
  lemma FoldEqual(a: char, b: char)
    ensures Fold(a) == Fold(b) <==>
              a == b
              || ('A' <= a <= 'Z' && b as int == a as int + 32)
              || ('A' <= b <= 'Z' && a as int == b as int + 32)
  {
  }

  predicate IsWildcard(c: char) {
    c == '%' || c == '_'
  }

  predicate NoWildcards(q: string) {
    forall i :: 0 <= i < |q| ==> !IsWildcard(q[i])
  }

  /** text LIKE pattern. */
  predicate Like(pattern: string, text: string)
    decreases |pattern| + |text|
  {
    if pattern == [] then text == []
    else if pattern[0] == '%' then
      Like(pattern[1..], text) || (text != [] && Like(pattern, text[1..]))
    else if text == [] then false
    else if pattern[0] == '_' then Like(pattern[1..], text[1..])
    else Fold(pattern[0]) == Fold(text[0]) && Like(pattern[1..], text[1..])
  }

  /** text LIKE '%' || query || '%'. */
  predicate Matches(text: string, query: string) {
    Like("%" + query + "%", text)
  }

  /** query occurs in text at position i, up to ASCII case. */
  predicate MatchAt(text: string, query: string, i: int) {
    0 <= i && i + |query| <= |text| &&
    forall k :: 0 <= k < |query| ==> Fold(query[k]) == Fold(text[i + k])
  }

  /** query is a substring of text, up to ASCII case. */
  ghost predicate ContainsFolded(text: string, query: string) {
    exists i :: MatchAt(text, query, i)
  }

  lemma {:induction false} LikePercentMatchesAll(text: string)
    ensures Like("%", text)
    decreases |text|
  {
    if text != [] {
      LikePercentMatchesAll(text[1..]);
    }
  }

  /** A pattern made only of '%' characters, at least one, matches every text. */
  lemma {:induction false} LikeAllPercents(p: string, text: string)
    requires p != [] && forall i :: 0 <= i < |p| ==> p[i] == '%'
    ensures Like(p, text)
    decreases |p|
  {
    if |p| == 1 {
      assert p == "%";
      LikePercentMatchesAll(text);
    } else {
      LikeAllPercents(p[1..], text);
    }
  }

  /** A query made only of '%' characters (the empty query included) matches every text. */
  lemma PercentQueryMatchesAll(text: string, query: string)
    requires forall i :: 0 <= i < |query| ==> query[i] == '%'
    ensures Matches(text, query)
  {
    var p := "%" + query + "%";
    assert forall i :: 0 <= i < |p| ==> p[i] == '%';
    LikeAllPercents(p, text);
  }

  lemma MatchAtShift(text: string, query: string, i: int)
    requires text != [] && 0 <= i
    ensures MatchAt(text[1..], query, i) <==> MatchAt(text, query, i + 1)
  {
    if MatchAt(text, query, i + 1) {
      forall k | 0 <= k < |query| ensures Fold(query[k]) == Fold(text[1..][i + k]) {
        assert text[1..][i + k] == text[i + 1 + k];
      }
    }
  }

  lemma MatchAtFront(text: string, query: string)
    requires text != [] && query != []
    ensures MatchAt(text, query, 0) <==>
              Fold(query[0]) == Fold(text[0]) && MatchAt(text[1..], query[1..], 0)
  {
    if Fold(query[0]) == Fold(text[0]) && MatchAt(text[1..], query[1..], 0) {
      forall k | 0 <= k < |query| ensures Fold(query[k]) == Fold(text[k]) {
        if k > 0 {
          assert query[1..][k - 1] == query[k] && text[1..][k - 1] == text[k];
        }
      }
    }
  }

  /** A pattern made of a literal followed by '%' matches exactly the texts that start with the literal. */
  lemma {:induction false} LikeLiteralPrefix(p: string, text: string)
    requires NoWildcards(p)
    ensures Like(p + "%", text) <==> MatchAt(text, p, 0)
    decreases |p|
  {
    if p == [] {
      assert p + "%" == "%";
      LikePercentMatchesAll(text);
    } else {
      var pattern := p + "%";
      assert pattern[0] == p[0] && pattern[1..] == p[1..] + "%";
      assert !IsWildcard(p[0]);
      if text != [] {
        LikeLiteralPrefix(p[1..], text[1..]);
        MatchAtFront(text, p);
      }
    }
  }

  /**
   * For a query without wildcards, LIKE '%query%' is case-folded substring
   * search: a text matches exactly when the query occurs somewhere in it.
   */
  lemma {:induction false} MatchesIsSubstring(text: string, query: string)
    requires NoWildcards(query)
    ensures Matches(text, query) <==> ContainsFolded(text, query)
    decreases |text|
  {
    var pattern := "%" + query + "%";
    assert pattern[0] == '%' && pattern[1..] == query + "%";
    LikeLiteralPrefix(query, text);
    if text == [] {
      if ContainsFolded(text, query) {
        var i :| MatchAt(text, query, i);
        assert i == 0;
      }
    } else {
      MatchesIsSubstring(text[1..], query);
      if ContainsFolded(text, query) {
        var i :| MatchAt(text, query, i);
        if i > 0 {
          MatchAtShift(text, query, i - 1);
        }
      }
      if ContainsFolded(text[1..], query) {
        var i :| MatchAt(text[1..], query, i);
        MatchAtShift(text, query, i);
      }
    }
  }
}
