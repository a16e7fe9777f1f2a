# WikiFetch article store, modelled in Dafny

WikiFetch saves Wikipedia articles in a local SQLite database. Its
data-access layer, `database.py`, has three tables:

- `articles`: id, title, content, summary, url, saved and fetched dates, word
  and character counts;
- `tags`: id and unique name;
- `article_tags`: (article id, tag id) pairs.

It offers these operations:

- writes: `insert_article`, `add_tag` and `delete_article`;
- reads: `get_article_by_id`, `get_article_tags`, `get_all_articles`,
  `search_articles` and `get_stats`.

This project models that layer and proves what each operation does.

The model is split into modules:

- `base.dfy` (Base): optional values, results, distinct sequences, and listing
  a set in some order. An SQL result without ORDER BY is such a listing.
- `text.dfy` (Text): the string work insert_article does before touching
  the tables: `strip()`, `rfind(' ')`, the 200-character summary, and
  `len(content.split())`.
- `sql_like.dfy` (SqlLike): SQLite's `LIKE` as search_articles uses it, with
  `%` and `_` wildcards and ASCII-only case folding.
- `paging.dfy` (Paging): get_all_articles' argument clamping and
  `LIMIT ? OFFSET ?`.
- `ranking.dfy` (Ranking): `ORDER BY` on two descending keys, implemented as
  an insertion into a ranked sequence.
- `schema.dfy` (Schema): the three tables as one value `Db`, plus the table
  invariant.
  - The invariant covers AUTOINCREMENT ids below a counter, UNIQUE titles,
    UNIQUE tag names with distinct ids, rows shaped as insert_article stores
    them, and links naming existing tags.
  - Each write is a function from the tables before to the tables after:
    `Insert`, `LinkTag`, `LinkAll` and `Delete`.
  - The properties of those writes are lemmas.
- `database.dfy` (Database): class `ArticleStore`.
  - Its fields are the tables; `State()` reads them as a `Db`.
  - The write methods change the fields in place. Each is proved to produce
    exactly the state its Schema function describes, and to keep the
    invariant.
  - The read methods are proved against the rows they return.

Where the schema's declarations and the code disagree, the model follows the
code:

- A limit above 100 falls back to 50, not to 100.
- `ON DELETE CASCADE` is declared, but foreign keys are never enabled on the
  connection. So `delete_article` leaves the article's `article_tags` rows
  in place, and `get_article_tags` on the deleted id still reports its tags.
  For the same reason, `add_tag` links any article id, existing or not. If
  add_tag was called on an id before any article had it, an article later
  inserted under that id inherits those tags (`Schema.InsertedArticleTags`).
- The summary is at most 202 characters: 199 before the cut, plus `...`.

## Model

| member | source | states |
|---|---|---|
| Text.StripFacts | database.py:98-105 | `strip()` returns a contiguous run of its input and removes only whitespace before and after that run. It never lengthens a string, gives the empty string exactly for blank input, and leaves no whitespace at either end |
| Text.StripIdempotent | database.py:105 | stripping a stripped title or tag name changes nothing, so stored titles and tag names are in stripped form |
| Text.RFind | database.py:110 | `rfind(' ')` returns -1 or an index holding a space, with no space after it |
| Text.Summary | database.py:108-112 | content of at most 200 characters is its own summary. Otherwise the summary is the content up to the last space among the first 200 characters plus `...`, when that space is past position 0, or else the first 200 characters. The summary is at most 202 characters, and without its ellipsis it is a prefix of the content |
| Text.Split | database.py:116 | every token of `split()` is non-empty and free of whitespace |
| Text.SplitKeepsText | database.py:116 | the tokens of `split()` joined together are exactly the content's non-whitespace characters, in order |
| Text.SplitEmptyIffBlank | database.py:116 | the word count is 0 exactly when the content is blank |
| Text.SplitOfWord | database.py:116 | a single word counts as one |
| Text.SplitAtSpace | database.py:116 | splitting two texts joined by a whitespace character gives the words of the first followed by the words of the second |
| Text.WordCountAdds | database.py:116 | word counts of texts joined by whitespace add up |
| SqlLike.Fold | database.py:262-266 | a folded character is never an ASCII capital |
| SqlLike.FoldEqual | database.py:262-266 | LIKE treats two characters as equal exactly when they are the same character, or one is an ASCII capital and the other its lower-case letter |
| SqlLike.LikePercentMatchesAll | database.py:247 | the pattern `%` matches every text |
| SqlLike.LikeAllPercents | database.py:247 | any non-empty pattern made only of `%` matches every text |
| SqlLike.PercentQueryMatchesAll | database.py:246-247 | a stripped query made only of `%` characters, such as `%` itself, matches every title and content |
| SqlLike.LikeLiteralPrefix | database.py:247 | a wildcard-free literal followed by `%` matches exactly the texts that start with that literal, up to ASCII case |
| SqlLike.MatchesIsSubstring | database.py:246-247 | for a query without `%` or `_`, `LIKE '%query%'` holds exactly when the query occurs somewhere in the text, up to ASCII case |
| Paging.ClampLimit | database.py:211-214 | the limit used is always in 1..100. A missing limit or one above 100 becomes 50, one below 1 becomes 1, and any other is kept |
| Paging.ClampOffset | database.py:215-216 | a missing or negative offset becomes 0, and any other is kept |
| Paging.Window | database.py:225 | `LIMIT l OFFSET o` returns min(l, max(0, n - o)) rows: the rows from position o on, in order |
| Ranking.SortByRank | database.py:224 | ORDER BY returns every row exactly once, in descending order of its sort key |
| Schema.EmptyDb | database.py:19-50 | freshly created tables are empty and satisfy the table invariant |
| Schema.TagNamesMembers | database.py:133-135 | the tag names insert_article uses are exactly the stripped, non-blank entries of its list |
| Schema.LinkTagEffect | database.py:343-361 | add_tag with a blank name changes nothing. Otherwise it adds the stripped name if missing, under a fresh id above every existing tag id, keeps every existing tag's id, and adds exactly one link from the article to that name's id. The key constraints are kept |
| Schema.LinkTagRowsWf | database.py:343-361 | add_tag stores only stripped, non-blank tag names and links only to existing tags |
| Schema.LinkTagIdempotent | database.py:352-361 | calling add_tag twice with the same arguments has the effect of calling it once |
| Schema.LinkTagTagsOf | database.py:352-361 | after add_tag with a non-blank name, the article's tags are its previous tags plus that stripped name |
| Schema.LinksToAgree | database.py:140-146 | the links made for a list of names depend only on those names' tag ids |
| Schema.LinkAllTagNames | database.py:133-138 | after the tag loop, the tag table holds the old names plus exactly the list's stripped, non-blank names |
| Schema.LinkAllTags | database.py:133-146 | the tag loop keeps the key constraints, the articles, the ids of existing tags, and never reuses a tag id |
| Schema.LinkAllLinks | database.py:140-146 | the tag loop adds exactly one link from the article to the id of each stripped, non-blank name |
| Schema.LinkAllEffect | database.py:133-146 | the tag loop's whole effect on tags, ids and links |
| Schema.LinkAllRowsWf | database.py:133-146 | the tag loop keeps the row constraints |
| Schema.LinksToHas | database.py:145-146 | each stripped, non-blank name in the list is linked |
| Schema.LinksToMembers | database.py:140-146 | a link made by the tag loop goes from the article to the id of one of the list's tag names, and nothing else is linked |
| Schema.RepeatedTagNameIsNoOp | database.py:133-146 | repeating a name in the tag list adds no tag and no link |
| Schema.NewRowStored | database.py:98-118 | a row that passes validation has a stripped, non-blank title of at most 500 characters, content of at least 10 characters, and the derived summary |
| Schema.AddRowKeysWf | database.py:125-130 | inserting a row under a free title and the next id keeps ids below the counter and titles unique |
| Schema.AddRowRowsWf | database.py:125-130 | inserting a valid row keeps the row constraints |
| Schema.InsertRejects | database.py:98-103 | insert_article fails exactly when the stripped title is empty, the untrimmed content is under 10 characters, the untrimmed title is over 500 characters, or the stripped title is already stored. The error is the first of these that holds, and the tables are unchanged on failure |
| Schema.InsertSucceeds | database.py:105-146 | a successful insert returns the next AUTOINCREMENT id, which is above every id used so far. It stores the stripped title with the derived summary, and the supplied counts or else the word count and `len(content)`. It leaves other rows and tag ids unchanged and links the article to each stripped, non-blank tag name |
| Schema.InsertWf | database.py:75-160 | every outcome of insert_article keeps the table invariant |
| Schema.InsertedArticleTags | database.py:133-146 | after a successful insert, the new article's tags are the stripped, non-blank tag names, plus any tag add_tag had already linked to that id |
| Schema.DuplicateTitleKeepsOneRow | database.py:151-154 | inserting a title whose stripped form is already saved fails with AlreadySaved, and exactly one row has that title |
| Schema.DeleteEffect | database.py:288-294 | delete_article returns 1 exactly when the id existed and 0 otherwise. It removes exactly that row and leaves other rows, tags, links and counters alone; with no matching row the tables are unchanged. The deleted id's tags are still found, and the invariant is kept |
| Schema.SumWordsPick | database.py:310 | the sum of word counts does not depend on the order the rows are added |
| Schema.SumWordsFrame | database.py:310 | the sum of word counts over some rows depends only on those rows |
| Schema.InsertAddsToTotals | database.py:309-310 | a successful insert raises the article count by one and the word total by the stored word count |
| Schema.DeleteSubtractsFromTotals | database.py:309-310 | deleting an existing row lowers the article count by one and the word total by its word count |
| Database.Preview | database.py:222 | `substr(summary, 1, 100)` is the first min(100, length) characters of the summary |
| Database.NewestFirst | database.py:224 | rows ordered by the saved-date key are newest first |
| Database.HitsInOrder | database.py:261-267 | hits ordered by the search key are in relevance order, then newest first |
| Database.HitsAnswerSearch | database.py:253-268 | the sorted matching ids give one hit per matching article, with its columns and relevance, and nothing else |
| Database.TitleMatchesFirst | database.py:261-267 | in relevance order, every title match comes before every content-only match |
| Database.ArticleStore.constructor | database.py:19-50 | a new store holds the empty tables |
| Database.ArticleStore.AddTag | database.py:335-365 | add_tag changes the tables exactly as `Schema.LinkTag` says and keeps the invariant |
| Database.ArticleStore.InsertArticle | database.py:75-160 | the checks in order, then the row and the tag loop one name at a time. The result and the new tables are exactly `Schema.Insert`'s, so a rejected call leaves every table as it was, and the invariant is kept |
| Database.ArticleStore.DeleteArticle | database.py:275-294 | the tables and the row count are exactly `Schema.Delete`'s, and the invariant is kept |
| Database.ArticleStore.GetArticleTags | database.py:367-390 | returns each name of a tag linked to the article, exactly once |
| Database.ArticleStore.GetArticleById | database.py:162-198 | returns None exactly when the id has no row. Otherwise it returns that row unchanged with its tag names, each once |
| Database.ArticleStore.GetAllArticles | database.py:200-231 | returns min(limit, max(0, n - offset)) rows for the clamped limit and offset: the preview rows at positions offset onwards of an ordering of all articles newest first. The rows themselves are newest first |
| Database.ArticleStore.SearchArticles | database.py:233-273 | a blank query returns nothing. Otherwise it returns exactly one hit per article whose title or content is LIKE '%query%' for the stripped query, with relevance 2 for a title match and 1 otherwise. Hits are ordered by relevance and then newest first, so title matches come first |
| Database.ArticleStore.GetStats | database.py:296-333 | returns the number of rows, the sum of their word counts (0 for none), and the oldest and newest saved dates as the minimum and maximum over the rows, both None exactly when there are no rows |

## Left out

- app.py is not part of this model. It is Flask routing, templates,
  network calls to the Wikipedia library and file output.
- `init_db` and `get_db_connection` are not modelled: directory creation,
  connecting, and DDL. The schema survives only as the table invariant
  `Schema.Wf`, and `Database.ArticleStore.constructor` stands for the empty
  tables they create. Indexes do not change results and are not modelled.
- Connections, commits and rollbacks are not modelled as such. A failing
  insert_article is modelled by checking the UNIQUE title before writing
  anything, which has the same visible effect as inserting, failing and
  rolling back. The model does not include failures of SQLite itself (disk
  full, locked database).
- `database_size_mb` in get_stats is not modelled: it is a file-size query
  plus floating-point rounding.
- Timestamps are not read from a clock. `saved_date` (CURRENT_TIMESTAMP)
  and `fetched_date` (`datetime.now()`) are integer arguments of
  insert_article, standing for ordered time values. Ties in saved_date
  leave the order among those rows unspecified, and only sortedness is
  stated.
- Python's `None` for title, content or query is not modelled, because
  the arguments are strings. `tags=None` is the empty list, and a missing
  limit, offset, word count or character count is `None` of `Option`.
- Whitespace for `strip()` and `split()` is the six ASCII whitespace
  characters, not Python's full Unicode set.
- LIKE's case folding covers ASCII letters only, as SQLite does by default.
  Collations and `ESCAPE` are not modelled.
- The `favorites` table is created but never used by any function, and it
  is not modelled.
- Exception types and messages are not modelled. They are the typed error
  `Schema.InsertError`, so the match on "UNIQUE constraint failed" is
  modelled only through its outcome.
- Errors raised by Python's sqlite3 binding and by SQLite limits are not
  modelled. The three lines below name them and the members they affect.
- Paging.ClampOffset: an offset above the signed 64-bit range raises
  OverflowError when it is bound, because it is only clamped from below.
  The same holds for an article id outside that range in get_article_by_id,
  delete_article, add_tag and get_article_tags. For such arguments the model answers `[]`,
  `None` or `0` instead of failing.
- Database.ArticleStore.GetStats: `SUM(word_count)` raises "integer
  overflow" when the total leaves the 64-bit range. The model returns the
  unbounded sum.
- Database.ArticleStore.SearchArticles: SQLite refuses a LIKE pattern
  longer than 50000 bytes as too complex, so search_articles raises for a
  stripped query of more than 49998 UTF-8 bytes once a row exists. The
  model returns the hits instead.
- Tag ids are handed out consecutively by a counter. SQLite's AUTOINCREMENT
  promises only increasing ids (an ignored `INSERT OR IGNORE` may leave a
  gap). No operation returns a tag id, so no result depends on the
  difference.
- Column values are stored as given. SQLite's type affinity, and its
  integer width for word and character counts, are not modelled.
- The full newest-first ordering that get_all_articles pages through is a
  ghost result of the method, because the rows before the offset are not
  returned.
- The tag loop of insert_article calls AddTag, whose statements are the
  same as those of the loop body at lines 134-146. The model does not
  distinguish add_tag's separate connection from insert_article's single
  transaction.
