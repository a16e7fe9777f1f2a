/**
 * The tables of the WikiFetch database as one value, and each write of
 * database.py (insert_article, add_tag, delete_article) as a function from the
 * tables before to the tables after, with the facts the code promises about
 * them.
 */
module Schema {
  import opened Base
  import opened Text

  /**
   * A row of the articles table; its id is its key in Db.articles.
   * Timestamps are opaque ordered values supplied by the caller.
   */
  datatype Article = Article(
    title: string,
    content: string,
    summary: string,
    url: string,
    savedDate: int,
    fetchedDate: int,
    wordCount: int,
    charCount: int)

  /**
   * The tables articles, tags and article_tags, with the next id that
   * AUTOINCREMENT hands out for articles and for tags.
   */
  datatype Db = Db(
    articles: map<int, Article>,
    tags: map<string, int>,
    links: set<(int, int)>,
    nextArticleId: int,
    nextTagId: int)

  const MinContentLength := 10
  const MaxTitleLength := 500

  /** Freshly created, empty tables. */
  function EmptyDb(): (db: Db)
    ensures Wf(db)
    ensures db.articles == map[] && db.tags == map[] && db.links == {}
  {
    Db(map[], map[], {}, 1, 1)
  }

  /** What every article row satisfies, since rows enter only through insert_article. */
  predicate StoredArticle(a: Article) {
    && a.title != []
    && Strip(a.title) == a.title
    && |a.title| <= MaxTitleLength
    && |a.content| >= MinContentLength
    && a.summary == Summary(a.content)
  }

  /**
   * The schema's key constraints: ids below the AUTOINCREMENT counter, titles
   * UNIQUE, tag names UNIQUE (they are map keys) and tag ids distinct.
   */
  predicate KeysWf(db: Db) {
    && 1 <= db.nextArticleId
    && 1 <= db.nextTagId
    && (forall id :: id in db.articles ==> 1 <= id < db.nextArticleId)
    && (forall i, j :: i in db.articles && j in db.articles && db.articles[i].title == db.articles[j].title ==> i == j)
    && (forall n :: n in db.tags ==> 1 <= db.tags[n] < db.nextTagId)
    && (forall n, m :: n in db.tags && m in db.tags && db.tags[n] == db.tags[m] ==> n == m)
  }

  /**
   * What the rows look like, given how they are written: articles as
   * insert_article stores them, tag names stripped and non-blank, every link
   * naming an existing tag. A link's article id is unconstrained: foreign
   * keys are never switched on.
   */
  predicate RowsWf(db: Db) {
    && (forall id :: id in db.articles ==> StoredArticle(db.articles[id]))
    && (forall n :: n in db.tags ==> n != [] && Strip(n) == n)
    && (forall l :: l in db.links ==> l.1 in db.tags.Values)
  }

  /** The invariant of the tables. */
  predicate Wf(db: Db) {
    KeysWf(db) && RowsWf(db)
  }

  /** The ways insert_article can fail; all leave the tables unchanged. */
  datatype InsertError = TitleRequired | ContentTooShort | TitleTooLong | AlreadySaved

  /** insert_article's input checks, in the order the code makes them. */
  function Validate(title: string, content: string): Option<InsertError> {
    if Strip(title) == [] then Some(TitleRequired)
    else if |content| < MinContentLength then Some(ContentTooShort)
    else if |title| > MaxTitleLength then Some(TitleTooLong)
    else None
  }

  /** The row insert_article writes, with its derived fields. */
  function NewRow(title: string, content: string, url: string, wordCount: Option<int>,
                  charCount: Option<int>, savedAt: int, fetchedAt: int): Article
  {
    Article(Strip(title), content, Summary(content), url, savedAt, fetchedAt,
            if wordCount.Some? then wordCount.value else WordCount(content),
            if charCount.Some? then charCount.value else |content|)
  }

  /** Some stored article already has this title (the UNIQUE constraint would fail). */
  predicate TitleTaken(db: Db, title: string) {
    exists id :: id in db.articles && db.articles[id].title == title
  }

  /** INSERT INTO articles with the next AUTOINCREMENT id. */
  function AddRow(db: Db, row: Article): Db {
    db.(articles := db.articles[db.nextArticleId := row], nextArticleId := db.nextArticleId + 1)
  }

  /**
   * add_tag: strip the name; for a blank name do nothing; otherwise INSERT OR
   * IGNORE the tag and then INSERT OR IGNORE the (article, tag) link.
   */
  function LinkTag(db: Db, articleId: int, name: string): Db {
    var t := Strip(name);
    if t == [] then db
    else
      var db1 := if t in db.tags then db
                 else db.(tags := db.tags[t := db.nextTagId], nextTagId := db.nextTagId + 1);
      db1.(links := db1.links + {(articleId, db1.tags[t])})
  }

  /** The tag loop of insert_article: LinkTag for each name in turn. */
  function LinkAll(db: Db, articleId: int, names: seq<string>): Db
    decreases |names|
  {
    if names == [] then db
    else LinkTag(LinkAll(db, articleId, names[..|names| - 1]), articleId, names[|names| - 1])
  }

  /** The stripped, non-blank tag names of a list. */
  function TagNames(names: seq<string>): set<string>
    decreases |names|
  {
    if names == [] then {}
    else
      var t := Strip(names[|names| - 1]);
      TagNames(names[..|names| - 1]) + (if t != [] then {t} else {})
  }

  /** TagNames holds exactly the non-blank results of stripping the names in the list. */
  lemma {:induction false} TagNamesMembers(names: seq<string>)
    ensures forall n :: n in TagNames(names) ==> n != [] && exists i :: 0 <= i < |names| && Strip(names[i]) == n
    ensures forall i :: 0 <= i < |names| && Strip(names[i]) != [] ==> Strip(names[i]) in TagNames(names)
    decreases |names|
  {
    if names != [] {
      var init := names[..|names| - 1];
      TagNamesMembers(init);
      assert forall i :: 0 <= i < |init| ==> init[i] == names[i];
    }
  }

  /** The links from one article to the tags named in a list, under a given tag table. */
  function LinksTo(articleId: int, tags: map<string, int>, names: seq<string>): set<(int, int)>
    requires TagNames(names) <= tags.Keys
    decreases |names|
  {
    if names == [] then {}
    else
      var init, t := names[..|names| - 1], Strip(names[|names| - 1]);
      LinksTo(articleId, tags, init) + (if t != [] then {(articleId, tags[t])} else {})
  }

  /**
   * insert_article: validate, derive the row, insert it (failing on a taken
   * title), link the tags, and commit; any failure rolls everything back.
   */
  function Insert(db: Db, title: string, content: string, url: string, wordCount: Option<int>,
                  charCount: Option<int>, tagNames: seq<string>, savedAt: int, fetchedAt: int)
    : (Db, Result<int, InsertError>)
  {
    match Validate(title, content)
    case Some(e) => (db, Failure(e))
    case None =>
      var row := NewRow(title, content, url, wordCount, charCount, savedAt, fetchedAt);
      if TitleTaken(db, row.title) then (db, Failure(AlreadySaved))
      else (LinkAll(AddRow(db, row), db.nextArticleId, tagNames), Success(db.nextArticleId))
  }

  /** delete_article: DELETE FROM articles WHERE id = ?, returning the row count. */
  function Delete(db: Db, id: int): (Db, int) {
    if id in db.articles then (db.(articles := db.articles - {id}), 1) else (db, 0)
  }

  /** The names get_article_tags returns: tags joined with article_tags on the article id. */
  function TagsOf(db: Db, articleId: int): set<string> {
    set n | n in db.tags && (articleId, db.tags[n]) in db.links
  }

  /** The sum of word_count over the rows with the given ids. */
  ghost function SumWords(m: map<int, Article>, ids: set<int>): int
    requires ids <= m.Keys
    decreases ids
  {
    if exists k :: k in ids then
      var k :| k in ids;
      m[k].wordCount + SumWords(m, ids - {k})
    else 0
  }

  /** SUM(word_count) over all rows, 0 when there are none. */
  ghost function TotalWords(m: map<int, Article>): int {
    SumWords(m, m.Keys)
  }

  // ---------------------------------------------------------------------
  // add_tag and the tag loop of insert_article

  /** What add_tag changes: at most one new tag with a fresh id, and one link. */
  lemma LinkTagEffect(db: Db, articleId: int, name: string)
    requires KeysWf(db)
    ensures var r := LinkTag(db, articleId, name);
      && KeysWf(r)
      && r.articles == db.articles
      && r.nextArticleId == db.nextArticleId
      && (Strip(name) == [] ==> r == db)
      && (Strip(name) != [] ==>
            && r.tags.Keys == db.tags.Keys + {Strip(name)}
            && (forall n :: n in db.tags ==> r.tags[n] == db.tags[n])
            && (Strip(name) !in db.tags ==> r.tags[Strip(name)] == db.nextTagId && r.nextTagId == db.nextTagId + 1)
            && (Strip(name) in db.tags ==> r.nextTagId == db.nextTagId)
            && r.links == db.links + {(articleId, r.tags[Strip(name)])})
  {
  }

  /** add_tag stores only stripped, non-blank names and links only to existing tags. */
  lemma LinkTagRowsWf(db: Db, articleId: int, name: string)
    requires RowsWf(db)
    ensures RowsWf(LinkTag(db, articleId, name))
  {
    var t := Strip(name);
    if t != [] {
      StripFacts(name);
      StripIdempotent(name);
      var r := LinkTag(db, articleId, name);
      assert r.tags[t] in r.tags.Values;
      assert forall n :: n in db.tags ==> n in r.tags && r.tags[n] == db.tags[n];
    }
  }

  /** Calling add_tag twice with the same arguments has the effect of calling it once. */
  lemma LinkTagIdempotent(db: Db, articleId: int, name: string)
    ensures LinkTag(LinkTag(db, articleId, name), articleId, name) == LinkTag(db, articleId, name)
  {
    var r := LinkTag(db, articleId, name);
    if Strip(name) != [] {
      assert (articleId, r.tags[Strip(name)]) in r.links;
    }
  }

  /** The links of a name list depend only on the ids of the names in it. */
  lemma {:induction false} LinksToAgree(articleId: int, tags1: map<string, int>, tags2: map<string, int>,
                                       names: seq<string>)
    requires TagNames(names) <= tags1.Keys && TagNames(names) <= tags2.Keys
    requires forall n :: n in TagNames(names) ==> tags1[n] == tags2[n]
    ensures LinksTo(articleId, tags1, names) == LinksTo(articleId, tags2, names)
    decreases |names|
  {
    if names != [] {
      LinksToAgree(articleId, tags1, tags2, names[..|names| - 1]);
    }
  }

  /** The tag names after the tag loop: exactly the stripped non-blank names are added. */
  lemma {:induction false} LinkAllTagNames(db: Db, articleId: int, names: seq<string>)
    ensures LinkAll(db, articleId, names).tags.Keys == db.tags.Keys + TagNames(names)
    decreases |names|
  {
    if names != [] {
      var init, last := names[..|names| - 1], names[|names| - 1];
      LinkAllTagNames(db, articleId, init);
    }
  }

  /** The tag loop keeps the key constraints, the articles and the ids of existing tags. */
  lemma {:induction false} LinkAllTags(db: Db, articleId: int, names: seq<string>)
    requires KeysWf(db)
    ensures var r := LinkAll(db, articleId, names);
      && KeysWf(r)
      && r.articles == db.articles
      && r.nextArticleId == db.nextArticleId
      && r.nextTagId >= db.nextTagId
      && db.tags.Keys <= r.tags.Keys
      && (forall n :: n in db.tags ==> r.tags[n] == db.tags[n])
      && (forall n :: n in r.tags && n !in db.tags ==> r.tags[n] >= db.nextTagId)
    decreases |names|
  {
    if names != [] {
      var init, last := names[..|names| - 1], names[|names| - 1];
      LinkAllTags(db, articleId, init);
      LinkTagEffect(LinkAll(db, articleId, init), articleId, last);
    }
  }

  /** The links after the tag loop: one per stripped non-blank name, to that name's id. */
  lemma {:induction false} LinkAllLinks(db: Db, articleId: int, names: seq<string>)
    requires KeysWf(db)
    ensures var r := LinkAll(db, articleId, names);
      && TagNames(names) <= r.tags.Keys
      && r.links == db.links + LinksTo(articleId, r.tags, names)
    decreases |names|
  {
    LinkAllTags(db, articleId, names);
    if names != [] {
      var init := names[..|names| - 1];
      LinkAllLinks(db, articleId, init);
      var p := LinkAll(db, articleId, init);
      var r := LinkTag(p, articleId, names[|names| - 1]);
      LinkAllTags(db, articleId, init);
      LinkTagEffect(p, articleId, names[|names| - 1]);
      LinksToAgree(articleId, p.tags, r.tags, init);
    }
  }

  /**
   * The tag loop of insert_article: the tag table gains exactly the stripped
   * non-blank names (existing tags keep their ids, new ones get fresh ids),
   * and the article is linked to each of them once.
   */
  lemma LinkAllEffect(db: Db, articleId: int, names: seq<string>)
    requires KeysWf(db)
    ensures var r := LinkAll(db, articleId, names);
      && KeysWf(r)
      && r.articles == db.articles
      && r.nextArticleId == db.nextArticleId
      && r.nextTagId >= db.nextTagId
      && r.tags.Keys == db.tags.Keys + TagNames(names)
      && (forall n :: n in db.tags ==> r.tags[n] == db.tags[n])
      && (forall n :: n in r.tags && n !in db.tags ==> r.tags[n] >= db.nextTagId)
      && r.links == db.links + LinksTo(articleId, r.tags, names)
  {
    LinkAllTagNames(db, articleId, names);
    LinkAllTags(db, articleId, names);
    LinkAllLinks(db, articleId, names);
  }

  /** The tag loop keeps the row constraints. */
  lemma {:induction false} LinkAllRowsWf(db: Db, articleId: int, names: seq<string>)
    requires RowsWf(db)
    ensures RowsWf(LinkAll(db, articleId, names))
    decreases |names|
  {
    if names != [] {
      LinkAllRowsWf(db, articleId, names[..|names| - 1]);
      LinkTagRowsWf(LinkAll(db, articleId, names[..|names| - 1]), articleId, names[|names| - 1]);
    }
  }

  lemma {:induction false} LinksToHas(articleId: int, tags: map<string, int>, names: seq<string>, i: int)
    requires TagNames(names) <= tags.Keys && 0 <= i < |names| && Strip(names[i]) != []
    ensures Strip(names[i]) in tags
    ensures (articleId, tags[Strip(names[i])]) in LinksTo(articleId, tags, names)
    decreases |names|
  {
    TagNamesMembers(names);
    if i < |names| - 1 {
      var init := names[..|names| - 1];
      assert init[i] == names[i];
      LinksToHas(articleId, tags, init, i);
    }
  }

  /** The links of a name list join the article to the id of each of its stripped non-blank names. */
  lemma {:induction false} LinksToMembers(articleId: int, tags: map<string, int>, names: seq<string>)
    requires TagNames(names) <= tags.Keys
    ensures forall l :: l in LinksTo(articleId, tags, names) <==>
              l.0 == articleId && exists t :: t in TagNames(names) && l.1 == tags[t]
    decreases |names|
  {
    if names != [] {
      LinksToMembers(articleId, tags, names[..|names| - 1]);
    }
  }

  /** After add_tag with a non-blank name, the article's tags are its old tags plus that name. */
  lemma LinkTagTagsOf(db: Db, articleId: int, name: string)
    requires Wf(db)
    ensures TagsOf(LinkTag(db, articleId, name), articleId) ==
              TagsOf(db, articleId) + (if Strip(name) != [] then {Strip(name)} else {})
  {
    var t := Strip(name);
    if t != [] {
      var r := LinkTag(db, articleId, name);
      LinkTagEffect(db, articleId, name);
      forall n | n in r.tags && (articleId, r.tags[n]) in r.links
        ensures n == t || n in TagsOf(db, articleId)
      {
        if n != t {
          assert (articleId, r.tags[n]) in db.links;
          var m :| m in db.tags && db.tags[m] == r.tags[n];
        }
      }
    }
  }

  /** A name repeated in the tag list adds nothing: no second tag and no second link. */
  lemma RepeatedTagNameIsNoOp(db: Db, articleId: int, names: seq<string>, i: int)
    requires KeysWf(db) && 0 <= i < |names|
    ensures LinkAll(db, articleId, names + [names[i]]) == LinkAll(db, articleId, names)
  {
    var ext := names + [names[i]];
    assert ext[..|ext| - 1] == names;
    var r := LinkAll(db, articleId, names);
    LinkAllEffect(db, articleId, names);
    var t := Strip(names[i]);
    if t != [] {
      LinksToHas(articleId, r.tags, names, i);
    }
  }

  // ---------------------------------------------------------------------
  // insert_article

  /** A row that passed validation satisfies the stored-row constraints. */
  lemma NewRowStored(title: string, content: string, url: string, wordCount: Option<int>,
                     charCount: Option<int>, savedAt: int, fetchedAt: int)
    requires Validate(title, content).None?
    ensures StoredArticle(NewRow(title, content, url, wordCount, charCount, savedAt, fetchedAt))
  {
    StripFacts(title);
    StripIdempotent(title);
  }

  /** Adding a row under a free title keeps the key constraints. */
  lemma AddRowKeysWf(db: Db, row: Article)
    requires KeysWf(db) && !TitleTaken(db, row.title)
    ensures KeysWf(AddRow(db, row))
  {
  }

  /** Adding a valid row keeps the row constraints. */
  lemma AddRowRowsWf(db: Db, row: Article)
    requires RowsWf(db) && StoredArticle(row)
    ensures RowsWf(AddRow(db, row))
  {
  }

  /**
   * insert_article rejects, in this order, a blank title, content under 10
   * characters, and an untrimmed title over 500 characters, then a trimmed
   * title that is already stored; every rejection leaves the tables as they
   * were.
   */
  lemma InsertRejects(db: Db, title: string, content: string, url: string, wordCount: Option<int>,
                      charCount: Option<int>, tagNames: seq<string>, savedAt: int, fetchedAt: int)
    ensures var out := Insert(db, title, content, url, wordCount, charCount, tagNames, savedAt, fetchedAt);
      && (out.1.Failure? <==>
            Strip(title) == [] || |content| < MinContentLength || |title| > MaxTitleLength
            || TitleTaken(db, Strip(title)))
      && (out.1.Failure? ==> out.0 == db)
      && (Strip(title) == [] ==> out.1 == Failure(TitleRequired))
      && (Strip(title) != [] && |content| < MinContentLength ==> out.1 == Failure(ContentTooShort))
      && (Strip(title) != [] && |content| >= MinContentLength && |title| > MaxTitleLength ==>
            out.1 == Failure(TitleTooLong))
      && (Validate(title, content).None? && TitleTaken(db, Strip(title)) ==> out.1 == Failure(AlreadySaved))
  {
  }

  /**
   * A successful insert_article returns the next AUTOINCREMENT id, which no
   * row has used, stores the trimmed title with the derived summary and
   * counts, and links the article to each stripped non-blank tag name.
   */
  lemma InsertSucceeds(db: Db, title: string, content: string, url: string, wordCount: Option<int>,
                       charCount: Option<int>, tagNames: seq<string>, savedAt: int, fetchedAt: int)
    requires KeysWf(db)
    requires Validate(title, content).None? && !TitleTaken(db, Strip(title))
    ensures var out := Insert(db, title, content, url, wordCount, charCount, tagNames, savedAt, fetchedAt);
      var id := db.nextArticleId;
      var r := out.0;
      && out.1 == Success(id)
      && id !in db.articles
      && (forall k :: k in db.articles ==> k < id)
      && KeysWf(r)
      && r.nextArticleId == id + 1
      && r.articles.Keys == db.articles.Keys + {id}
      && (forall k :: k in db.articles ==> r.articles[k] == db.articles[k])
      && r.articles[id] == Article(Strip(title), content, Summary(content), url, savedAt, fetchedAt,
                                   if wordCount.Some? then wordCount.value else WordCount(content),
                                   if charCount.Some? then charCount.value else |content|)
      && r.tags.Keys == db.tags.Keys + TagNames(tagNames)
      && (forall n :: n in db.tags ==> r.tags[n] == db.tags[n])
      && r.links == db.links + LinksTo(id, r.tags, tagNames)
  {
    var row := NewRow(title, content, url, wordCount, charCount, savedAt, fetchedAt);
    AddRowKeysWf(db, row);
    LinkAllEffect(AddRow(db, row), db.nextArticleId, tagNames);
  }

  /** Any outcome of insert_article keeps the tables well formed. */
  lemma InsertWf(db: Db, title: string, content: string, url: string, wordCount: Option<int>,
                 charCount: Option<int>, tagNames: seq<string>, savedAt: int, fetchedAt: int)
    requires Wf(db)
    ensures Wf(Insert(db, title, content, url, wordCount, charCount, tagNames, savedAt, fetchedAt).0)
  {
    if Validate(title, content).None? && !TitleTaken(db, Strip(title)) {
      var row := NewRow(title, content, url, wordCount, charCount, savedAt, fetchedAt);
      InsertSucceeds(db, title, content, url, wordCount, charCount, tagNames, savedAt, fetchedAt);
      NewRowStored(title, content, url, wordCount, charCount, savedAt, fetchedAt);
      AddRowRowsWf(db, row);
      LinkAllRowsWf(AddRow(db, row), db.nextArticleId, tagNames);
    }
  }

  /**
   * After a successful insert, get_article_tags for the new id reports the
   * stripped non-blank tag names, plus any tag that add_tag had already
   * linked to that id before the article existed.
   */
  lemma InsertedArticleTags(db: Db, title: string, content: string, url: string,
                            wordCount: Option<int>, charCount: Option<int>,
                            tagNames: seq<string>, savedAt: int, fetchedAt: int)
    requires Wf(db)
    requires Validate(title, content).None? && !TitleTaken(db, Strip(title))
    ensures var r := Insert(db, title, content, url, wordCount, charCount, tagNames, savedAt, fetchedAt).0;
      TagsOf(r, db.nextArticleId) == TagNames(tagNames) + TagsOf(db, db.nextArticleId)
  {
    var id := db.nextArticleId;
    var r := Insert(db, title, content, url, wordCount, charCount, tagNames, savedAt, fetchedAt).0;
    InsertSucceeds(db, title, content, url, wordCount, charCount, tagNames, savedAt, fetchedAt);
    LinksToMembers(id, r.tags, tagNames);
    TagNamesMembers(tagNames);
    forall n | n in r.tags && (id, r.tags[n]) in r.links
      ensures n in TagNames(tagNames) || n in TagsOf(db, id)
    {
      if (id, r.tags[n]) in db.links {
        var m :| m in db.tags && db.tags[m] == r.tags[n];
      } else {
        var t :| t in TagNames(tagNames) && r.tags[n] == r.tags[t];
      }
    }
    forall n | n in TagNames(tagNames) ensures (id, r.tags[n]) in r.links {
    }
  }

  /** Inserting a title that is already saved fails, and exactly one row keeps that title. */
  lemma DuplicateTitleKeepsOneRow(db: Db, title: string, content: string, url: string,
                                  wordCount: Option<int>, charCount: Option<int>,
                                  tagNames: seq<string>, savedAt: int, fetchedAt: int)
    requires KeysWf(db)
    requires Validate(title, content).None? && TitleTaken(db, Strip(title))
    ensures var out := Insert(db, title, content, url, wordCount, charCount, tagNames, savedAt, fetchedAt);
      && out.1 == Failure(AlreadySaved)
      && |set k | k in out.0.articles && out.0.articles[k].title == Strip(title)| == 1
  {
    var t := Strip(title);
    var k0 :| k0 in db.articles && db.articles[k0].title == t;
    var same := set k | k in db.articles && db.articles[k].title == t;
    forall k | k in same ensures k == k0 {
      assert db.articles[k].title == db.articles[k0].title;
    }
    assert same == {k0};
  }

  // ---------------------------------------------------------------------
  // delete_article

  /**
   * delete_article reports 1 and removes exactly that row when the id
   * exists, and reports 0 and changes nothing otherwise. Tags and links are
   * untouched, so the deleted article's tag names are still found by id.
   */
  lemma DeleteEffect(db: Db, id: int)
    ensures var out := Delete(db, id);
      && (out.1 == 1 <==> id in db.articles)
      && (out.1 == 0 <==> id !in db.articles)
      && (out.1 == 0 ==> out.0 == db)
      && id !in out.0.articles
      && out.0.articles.Keys == db.articles.Keys - {id}
      && (forall k :: k in out.0.articles ==> out.0.articles[k] == db.articles[k])
      && out.0.tags == db.tags && out.0.links == db.links
      && out.0.nextArticleId == db.nextArticleId && out.0.nextTagId == db.nextTagId
      && TagsOf(out.0, id) == TagsOf(db, id)
      && (Wf(db) ==> Wf(out.0))
  {
    var out := Delete(db, id);
    if id in db.articles {
      assert out.0.articles.Keys == db.articles.Keys - {id};
    }
  }

  // ---------------------------------------------------------------------
  // get_stats: SUM(word_count)

  /** The sum does not depend on which row is taken first. */
  lemma {:induction false} SumWordsPick(m: map<int, Article>, ids: set<int>, k: int)
    requires ids <= m.Keys && k in ids
    ensures SumWords(m, ids) == m[k].wordCount + SumWords(m, ids - {k})
    decreases ids
  {
    var j :| j in ids && SumWords(m, ids) == m[j].wordCount + SumWords(m, ids - {j});
    if j != k {
      SumWordsPick(m, ids - {j}, k);
      SumWordsPick(m, ids - {k}, j);
      assert ids - {j} - {k} == ids - {k} - {j};
    }
  }

  /** The sum reads only the rows it is asked about. */
  lemma {:induction false} SumWordsFrame(m1: map<int, Article>, m2: map<int, Article>, ids: set<int>)
    requires ids <= m1.Keys && ids <= m2.Keys
    requires forall k :: k in ids ==> m1[k] == m2[k]
    ensures SumWords(m1, ids) == SumWords(m2, ids)
    decreases ids
  {
    if exists k :: k in ids {
      var k :| k in ids && SumWords(m1, ids) == m1[k].wordCount + SumWords(m1, ids - {k});
      SumWordsFrame(m1, m2, ids - {k});
      SumWordsPick(m2, ids, k);
    }
  }

  /** A successful insert adds one row and its word count to the totals of get_stats. */
  lemma InsertAddsToTotals(db: Db, title: string, content: string, url: string,
                           wordCount: Option<int>, charCount: Option<int>,
                           tagNames: seq<string>, savedAt: int, fetchedAt: int)
    requires KeysWf(db)
    requires Validate(title, content).None? && !TitleTaken(db, Strip(title))
    ensures var r := Insert(db, title, content, url, wordCount, charCount, tagNames, savedAt, fetchedAt).0;
      && |r.articles| == |db.articles| + 1
      && TotalWords(r.articles) == TotalWords(db.articles)
                                   + (if wordCount.Some? then wordCount.value else WordCount(content))
  {
    InsertSucceeds(db, title, content, url, wordCount, charCount, tagNames, savedAt, fetchedAt);
    var id := db.nextArticleId;
    var m := Insert(db, title, content, url, wordCount, charCount, tagNames, savedAt, fetchedAt).0.articles;
    SumWordsPick(m, m.Keys, id);
    assert m.Keys - {id} == db.articles.Keys;
    SumWordsFrame(m, db.articles, db.articles.Keys);
  }

  /** A delete that removes a row takes its word count off the total of get_stats. */
  lemma DeleteSubtractsFromTotals(db: Db, id: int)
    requires id in db.articles
    ensures var r := Delete(db, id).0;
      && |r.articles| == |db.articles| - 1
      && TotalWords(r.articles) == TotalWords(db.articles) - db.articles[id].wordCount
  {
    var m := Delete(db, id).0.articles;
    SumWordsPick(db.articles, db.articles.Keys, id);
    assert m.Keys == db.articles.Keys - {id};
    SumWordsFrame(m, db.articles, m.Keys);
  }
}
