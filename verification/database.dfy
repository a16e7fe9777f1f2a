/**
 * The functions of database.py as operations on one store object whose
 * fields are the tables. Each write is proved to have exactly the effect of
 * its transition in Schema; each read is proved against the rows it returns.
 */
module Database {
  import opened Base
  import opened Text
  import opened SqlLike
  import opened Paging
  import opened Ranking
  import opened Schema

  /** get_article_by_id's result: every column of the row, and its tag names. */
  datatype ArticleView = ArticleView(id: int, article: Article, tags: seq<string>)

  /** One row of get_all_articles: a preview of an article. */
  datatype ListRow = ListRow(id: int, title: string, savedDate: int, wordCount: int, summary: string)

  /** One row of search_articles. */
  datatype SearchHit = SearchHit(
    id: int,
    title: string,
    summary: string,
    url: string,
    wordCount: int,
    savedDate: int,
    relevance: int)

  /** get_stats without the file size: dates are None when there are no articles. */
  datatype Stats = Stats(totalArticles: int, totalWords: int, oldestDate: Option<int>, newestDate: Option<int>)

  const PreviewLength := 100

  /** substr(summary, 1, 100): the first 100 characters. */
  function Preview(s: string): (r: string)
    ensures |r| == Min(|s|, PreviewLength)
    ensures r <= s
  {
    s[..Min(|s|, PreviewLength)]
  }

  function ListRowOf(id: int, a: Article): ListRow {
    ListRow(id, a.title, a.savedDate, a.wordCount, Preview(a.summary))
  }

  /** The WHERE clause of search_articles: the title or the content is LIKE '%query%'. */
  predicate IsHit(a: Article, query: string) {
    Matches(a.title, query) || Matches(a.content, query)
  }

  /** relevance_score: 2 for a title match, 1 otherwise. */
  function Relevance(a: Article, query: string): int {
    if Matches(a.title, query) then 2 else 1
  }

  function HitOf(id: int, a: Article, query: string): SearchHit {
    SearchHit(id, a.title, a.summary, a.url, a.wordCount, a.savedDate, Relevance(a, query))
  }

  /** h may come before g under ORDER BY relevance_score DESC, saved_date DESC. */
  predicate Precedes(h: SearchHit, g: SearchHit) {
    h.relevance > g.relevance || (h.relevance == g.relevance && h.savedDate >= g.savedDate)
  }

  /** The preview rows of the given articles, in the given order. */
  function ListRowsOf(ids: seq<int>, m: map<int, Article>): (rows: seq<ListRow>)
    requires forall i :: 0 <= i < |ids| ==> ids[i] in m
    ensures |rows| == |ids|
    ensures forall i :: 0 <= i < |ids| ==> rows[i] == ListRowOf(ids[i], m[ids[i]])
  {
    seq(|ids|, i requires 0 <= i < |ids| => ListRowOf(ids[i], m[ids[i]]))
  }

  /** The search rows of the given articles, in the given order. */
  function HitsOf(ids: seq<int>, m: map<int, Article>, query: string): (hits: seq<SearchHit>)
    requires forall i :: 0 <= i < |ids| ==> ids[i] in m
    ensures |hits| == |ids|
    ensures forall i :: 0 <= i < |ids| ==> hits[i] == HitOf(ids[i], m[ids[i]], query)
  {
    seq(|ids|, i requires 0 <= i < |ids| => HitOf(ids[i], m[ids[i]], query))
  }

  /** The sort key of ORDER BY saved_date DESC. */
  function DateRank(m: map<int, Article>): (rank: map<int, Rank>)
    ensures rank.Keys == m.Keys
    ensures forall id :: id in m ==> rank[id] == Rank(m[id].savedDate, 0)
  {
    map id | id in m :: Rank(m[id].savedDate, 0)
  }

  /** The sort key of ORDER BY relevance_score DESC, saved_date DESC over the matching rows. */
  function SearchRank(m: map<int, Article>, found: set<int>, query: string): (rank: map<int, Rank>)
    requires found <= m.Keys
    ensures rank.Keys == found
    ensures forall id :: id in found ==> rank[id] == Rank(Relevance(m[id], query), m[id].savedDate)
  {
    map id | id in found :: Rank(Relevance(m[id], query), m[id].savedDate)
  }

  /**
   * hits is what search_articles returns for the stripped, non-blank query
   * over the rows m: one hit per article whose title or content matches,
   * with that article's columns, and in ORDER BY relevance_score DESC,
   * saved_date DESC.
   */
  ghost predicate AnswersSearch(hits: seq<SearchHit>, m: map<int, Article>, query: string) {
    && (forall i :: 0 <= i < |hits| ==>
          hits[i].id in m && IsHit(m[hits[i].id], query) && hits[i] == HitOf(hits[i].id, m[hits[i].id], query))
    && (forall id :: id in m && IsHit(m[id], query) ==> exists i :: 0 <= i < |hits| && hits[i].id == id)
    && (forall i, j :: 0 <= i < j < |hits| ==> hits[i].id != hits[j].id)
    && (forall i, j :: 0 <= i < j < |hits| ==> Precedes(hits[i], hits[j]))
  }

  /** Ordering ids by DateRank puts them newest first. */
  lemma NewestFirst(ids: seq<int>, m: map<int, Article>)
    requires Ranked(ids, DateRank(m))
    ensures forall i :: 0 <= i < |ids| ==> ids[i] in m
    ensures forall i, j :: 0 <= i < j < |ids| ==> m[ids[i]].savedDate >= m[ids[j]].savedDate
  {
    var rank := DateRank(m);
    forall i, j | 0 <= i < j < |ids| ensures m[ids[i]].savedDate >= m[ids[j]].savedDate {
      assert AtLeast(rank[ids[i]], rank[ids[j]]);
    }
  }

  /** Ordering the matching ids by SearchRank yields hits in ORDER BY relevance_score DESC, saved_date DESC. */
  lemma HitsInOrder(ids: seq<int>, m: map<int, Article>, found: set<int>, query: string)
    requires found <= m.Keys && Elements(ids) == found
    requires Ranked(ids, SearchRank(m, found, query))
    ensures forall i :: 0 <= i < |ids| ==> ids[i] in m
    ensures var hits := HitsOf(ids, m, query);
      forall i, j :: 0 <= i < j < |hits| ==> Precedes(hits[i], hits[j])
  {
    var rank := SearchRank(m, found, query);
    assert forall i :: 0 <= i < |ids| ==> ids[i] in Elements(ids);
    var hits := HitsOf(ids, m, query);
    forall i, j | 0 <= i < j < |hits| ensures Precedes(hits[i], hits[j]) {
      assert AtLeast(rank[ids[i]], rank[ids[j]]);
    }
  }

  /** Listing each matching id once, ordered by SearchRank, answers the search. */
  lemma HitsAnswerSearch(ids: seq<int>, m: map<int, Article>, found: set<int>, query: string)
    requires found == set id | id in m && IsHit(m[id], query)
    requires Distinct(ids) && Elements(ids) == found
    requires Ranked(ids, SearchRank(m, found, query))
    ensures forall i :: 0 <= i < |ids| ==> ids[i] in m
    ensures AnswersSearch(HitsOf(ids, m, query), m, query)
  {
    HitsInOrder(ids, m, found, query);
    var hits := HitsOf(ids, m, query);
    forall id | id in m && IsHit(m[id], query) ensures exists i :: 0 <= i < |hits| && hits[i].id == id {
      assert id in Elements(ids);
      var i :| 0 <= i < |ids| && ids[i] == id;
      assert hits[i].id == id;
    }
  }

  /** In hits ordered by relevance, every title match comes before every content-only match. */
  lemma TitleMatchesFirst(hits: seq<SearchHit>)
    requires forall i, j :: 0 <= i < j < |hits| ==> Precedes(hits[i], hits[j])
    ensures forall i, j :: (0 <= i < |hits| && 0 <= j < |hits| && hits[i].relevance == 2 &&
              hits[j].relevance == 1) ==> i < j
  {
  }

  class ArticleStore {
    var articles: map<int, Article>
    var tags: map<string, int>
    var links: set<(int, int)>
    var nextArticleId: int
    var nextTagId: int

    /** The tables as one value. */
    function State(): Db
      reads this
    {
      Db(articles, tags, links, nextArticleId, nextTagId)
    }

    ghost predicate Valid()
      reads this
    {
      Wf(State())
    }

    /** init_db: the tables exist and are empty. */
    constructor ()
      ensures Valid()
      ensures State() == EmptyDb()
    {
      articles, tags, links := map[], map[], {};
      nextArticleId, nextTagId := 1, 1;
    }

    /**
     * add_tag: a blank name is ignored; otherwise the tag is created if
     * missing and linked to the article unless already linked.
     */
    method AddTag(articleId: int, name: string)
      modifies this
      ensures State() == LinkTag(old(State()), articleId, name)
      ensures old(Valid()) ==> Valid()
    {
      ghost var db := State();
      if Wf(db) {
        LinkTagEffect(db, articleId, name);
        LinkTagRowsWf(db, articleId, name);
      }
      var t := Strip(name);
      if t == [] {
        return;
      }
      if t !in tags {
        tags := tags[t := nextTagId];
        nextTagId := nextTagId + 1;
      }
      links := links + {(articleId, tags[t])};
    }

    /**
     * insert_article: the checks in order, then the row under the next id
     * and the tags one by one; a rejected call changes nothing.
     */
    method InsertArticle(title: string, content: string, url: string, wordCount: Option<int>,
                         charCount: Option<int>, tagNames: seq<string>, savedAt: int, fetchedAt: int)
      returns (r: Result<int, InsertError>)
      requires Valid()
      modifies this
      ensures Valid()
      ensures (State(), r) == Insert(old(State()), title, content, url, wordCount, charCount,
                                     tagNames, savedAt, fetchedAt)
    {
      ghost var db := State();
      InsertWf(db, title, content, url, wordCount, charCount, tagNames, savedAt, fetchedAt);
      if Strip(title) == [] {
        return Failure(TitleRequired);
      }
      if |content| < MinContentLength {
        return Failure(ContentTooShort);
      }
      if |title| > MaxTitleLength {
        return Failure(TitleTooLong);
      }
      var row := NewRow(title, content, url, wordCount, charCount, savedAt, fetchedAt);
      if TitleTaken(State(), row.title) {
        return Failure(AlreadySaved);
      }
      var id := nextArticleId;
      articles := articles[id := row];
      nextArticleId := nextArticleId + 1;
      ghost var added := State();
      for i := 0 to |tagNames|
        invariant State() == LinkAll(added, id, tagNames[..i])
      {
        assert tagNames[..i + 1][..i] == tagNames[..i];
        AddTag(id, tagNames[i]);
      }
      assert tagNames[..|tagNames|] == tagNames;
      return Success(id);
    }

    /** delete_article: the number of rows removed. */
    method DeleteArticle(id: int) returns (n: int)
      requires Valid()
      modifies this
      ensures Valid()
      ensures (State(), n) == Delete(old(State()), id)
    {
      DeleteEffect(State(), id);
      if id in articles {
        articles := articles - {id};
        return 1;
      }
      return 0;
    }

    /** get_article_tags: the names of the tags linked to the id, each once. */
    method GetArticleTags(articleId: int) returns (names: seq<string>)
      ensures Distinct(names)
      ensures forall n :: n in names <==> n in tags && (articleId, tags[n]) in links
    {
      var linked := set n | n in tags && (articleId, tags[n]) in links;
      names := SetToSeq(linked);
      assert forall n :: n in names <==> n in Elements(names);
    }

    /** get_article_by_id: None for a missing id, otherwise the row with its tag names. */
    method GetArticleById(id: int) returns (r: Option<ArticleView>)
      ensures r.None? <==> id !in articles
      ensures r.Some? ==> r.value.id == id && id in articles && r.value.article == articles[id]
      ensures r.Some? ==> Distinct(r.value.tags)
      ensures r.Some? ==> forall n :: n in r.value.tags <==> n in tags && (id, tags[n]) in links
    {
      if id !in articles {
        return None;
      }
      var names := GetArticleTags(id);
      return Some(ArticleView(id, articles[id], names));
    }

    /**
     * get_all_articles: the clamped page of the articles ordered newest first.
     * ordered is that whole ordering (rows with equal dates in some order).
     */
    method GetAllArticles(limit: Option<int>, offset: Option<int>)
      returns (rows: seq<ListRow>, ghost ordered: seq<int>)
      ensures Distinct(ordered) && Elements(ordered) == articles.Keys
      ensures forall i, j :: 0 <= i < j < |ordered| ==>
                articles[ordered[i]].savedDate >= articles[ordered[j]].savedDate
      ensures |rows| == Min(ClampLimit(limit), Max(0, |articles| - ClampOffset(offset)))
      ensures forall i :: 0 <= i < |rows| ==>
                ClampOffset(offset) + i < |ordered| &&
                rows[i] == ListRowOf(ordered[ClampOffset(offset) + i], articles[ordered[ClampOffset(offset) + i]])
      ensures forall i, j :: 0 <= i < j < |rows| ==> rows[i].savedDate >= rows[j].savedDate
    {
      var lim, off := ClampLimit(limit), ClampOffset(offset);
      var m := articles;
      var order := SortByRank(m.Keys, DateRank(m));
      NewestFirst(order, m);
      assert |m.Keys| == |m|;
      var page := Window(order, lim, off);
      rows := ListRowsOf(page, m);
      ordered := order;
    }

    /**
     * search_articles: nothing for a blank query; otherwise every article
     * whose title or content is LIKE '%query%' for the stripped query, once
     * each, title matches (relevance 2) before content-only matches
     * (relevance 1), newest first within each.
     */
    method SearchArticles(query: string) returns (hits: seq<SearchHit>)
      ensures Strip(query) == [] ==> hits == []
      ensures Strip(query) != [] ==> AnswersSearch(hits, articles, Strip(query))
      ensures forall i, j :: (0 <= i < |hits| && 0 <= j < |hits| &&
                hits[i].relevance == 2 && hits[j].relevance == 1) ==> i < j
    {
      var q := Strip(query);
      if q == [] {
        return [];
      }
      var m := articles;
      var found := set id | id in m && IsHit(m[id], q);
      var order := SortByRank(found, SearchRank(m, found, q));
      HitsAnswerSearch(order, m, found, q);
      hits := HitsOf(order, m, q);
      TitleMatchesFirst(hits);
    }

    /**
     * get_stats: the number of articles, the sum of their word counts, and
     * the oldest and newest saved dates (None when there are no articles).
     */
    method GetStats() returns (s: Stats)
      ensures s.totalArticles == |articles|
      ensures s.totalWords == TotalWords(articles)
      ensures s.oldestDate.None? <==> |articles| == 0
      ensures s.newestDate.None? <==> |articles| == 0
      ensures s.oldestDate.Some? ==>
                (exists id :: id in articles && articles[id].savedDate == s.oldestDate.value)
                && forall id :: id in articles ==> articles[id].savedDate >= s.oldestDate.value
      ensures s.newestDate.Some? ==>
                (exists id :: id in articles && articles[id].savedDate == s.newestDate.value)
                && forall id :: id in articles ==> articles[id].savedDate <= s.newestDate.value
    {
      var m := articles;
      var count, total := 0, 0;
      var oldest, newest: Option<int> := None, None;
      var rest := m.Keys;
      while rest != {}
        invariant rest <= m.Keys
        invariant count + |rest| == |m.Keys|
        invariant total + SumWords(m, rest) == TotalWords(m)
        invariant oldest.None? <==> rest == m.Keys
        invariant newest.None? <==> rest == m.Keys
        invariant oldest.Some? ==>
                    (exists id :: id in m && id !in rest && m[id].savedDate == oldest.value)
                    && forall id :: id in m && id !in rest ==> m[id].savedDate >= oldest.value
        invariant newest.Some? ==>
                    (exists id :: id in m && id !in rest && m[id].savedDate == newest.value)
                    && forall id :: id in m && id !in rest ==> m[id].savedDate <= newest.value
        decreases |rest|
      {
        var id := Pick(rest);
        SumWordsPick(m, rest, id);
        var saved := m[id].savedDate;
        count, total := count + 1, total + m[id].wordCount;
        if oldest.None? || saved < oldest.value {
          oldest := Some(saved);
        }
        if newest.None? || saved > newest.value {
          newest := Some(saved);
        }
        rest := rest - {id};
      }
      assert |m.Keys| == |m|;
      if count == 0 {
        oldest, newest := None, None;
      }
      return Stats(count, total, oldest, newest);
    }
  }
}
