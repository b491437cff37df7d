# Book catalogue pipeline: a Dafny model

This project models the control logic of a book-recommendation back end. The
back end keeps books in two stores:

- a relational database with the tables `books`, `hashtags`,
  `book_hashtag_mappings`, `sub_categories`, `book_sub_category_mappings`,
  `member_sub_category_selections` and `daily_book_id_recommendations`;
- a vector collection in which every book is an embedded document keyed by isbn.

Two scheduled jobs work on the stores. The best-sellers task walks the
best-seller feed. For each entry whose isbn the database does not know, it
crawls the hashtags, classifies the book, and calls the relational insert and
the collection add. It collects one rank row per entry and saves the batch
once, at the end. Nothing in the task catches an exception, so any raising call
ends it before the save. Whether each call raises is an input of the model.
Read as written, the insert raises for every such entry, before the add is
reached (see "## Left out"), so a feed with an unknown isbn never reaches the
save. The
recommendation sweep recommends one book per member. It embeds the member's
preferred sub-category names, asks the collection for the single nearest
book, and records that book for tomorrow. An exception from the database layer
ends the sweep at that member.

Files and modules:

| file | module | what it holds |
|---|---|---|
| `wrappers.dfy` | `Wrappers` | `Option`, `Result` |
| `text.dfy` | `Text` | Python's `split`, `join`, `strip` (Python's whitespace set), `replace`, `s[:n]` and `in` on strings, with their laws |
| `book_info.dfy` | `BookInfo` | the `Book` record and the extraction of a `Book` from a decoded catalogue-API response |
| `category_classifier.dfy` | `CategoryClassifier` | parsing of the classifier's reply text into category names |
| `crawling.dfy` | `Crawling` | post-processing of the scraped hashtag list |
| `database_conn.dfy` | `DatabaseConn` | the tables as a value; the class `Database`, whose `tables` field the operations update; the upsert transaction with commit and rollback |
| `chroma_manager.dfy` | `ChromaStore` | the collection as a map from isbn to entry; the class `ChromaManager` with add, delete, get and recommend |
| `scheduler.dfy` | `Scheduler` | the recommendation sweep and the best-sellers task |

Three parts of the behaviour are modelled with stand-ins:

- **Nearest-neighbour search.** The embedding plus similarity search is a
  parameter `nearest: string -> Option<string>`. It maps the query text to no
  id or one stored id.
- **Clock.** The current day is a parameter `today`, an integer day number.
- **Best-sellers task.** The task's calls to the crawler, the classifier and
  the two stores are abstract. The task produces the trace of calls it makes.
  An environment `Env` supplies each call's answer per feed position:
  - whether the book id lookup raises, and otherwise the id it finds;
  - whether the crawler raises before its own handler, and otherwise its result;
  - the classifier's list of category names, or `None` when that call raises;
  - whether the relational insert raises;
  - whether the collection add raises.
- **Database faults.** `GetSubCategoryId`, `GetMemberPreferences` and
  `GetBookIdByIsbn` take a flag saying that their query raises.
  `SaveRecommendation` takes a flag saying that its insert raises.
  `InsertBookInfo` takes a flag saying that `ast.literal_eval` of a string
  `category_names` raises, before the transaction begins. One
  `recommend_book` call takes the `Fault` it meets, if any. The sweep takes
  `faults`, the fault met by the member at each position.

  The task unpacks exactly two names from the classifier's list, as the code
  does. Any other count raises and ends the task. How the classifier builds
  that list from its reply text is modelled separately, by `ParseReply`.

The relational transaction is modelled as a working copy of the tables. The
statements update the copy. A commit installs it; a rollback drops it. The
parameter `failAt` names the statement whose execution raises, if any: the
book upsert, the hashtag insert or mapping of the i-th hashtag, the
sub-category mapping of the j-th name, or the commit. `InsertBookInfo`
requires the tables to satisfy `Consistent`. That predicate holds when ids are
positive, below the next auto-increment value, and distinct per table. The
database keeps this invariant, and the transaction re-establishes it.
`Database` also counts the connections that `connect_to_db` opened and that
no `finally` has closed yet. Every method closes what it opens, except
`InsertBookInfo` when `ast.literal_eval` raises: that happens before the
`try`, so the connection and the tunnel stay open.

## Model

| member | source | states |
|---|---|---|
| Text.Split | category_classifier.py:53 | `s.split(sep)` always yields at least one piece |
| Text.Strip | category_classifier.py:53 | `s.strip()` has no leading or trailing whitespace, and it is the slice of `s` whose surrounding characters are all whitespace |
| Text.Take | book_info.py:47 | `s[:n]` has length min(len(s), n) and is a prefix of `s` |
| Text.JoinSplit | category_classifier.py:53 | joining the pieces of `s.split(sep)` with `sep` gives back `s` |
| Text.SplitPiecesFree | category_classifier.py:53 | no piece of `s.split(sep)` contains `sep` |
| Text.SplitLastAfterSeparator | category_classifier.py:53 | when `sep` occurs in `s`, the last piece is exactly what follows an occurrence of `sep` |
| Text.SplitJoin | chroma_manager.py:28-29 | splitting a join on its separator gives back the pieces, when no piece runs into the separator |
| Text.CommaSpaceSplitJoin | chroma_manager.py:28-29 | `", ".join(parts).split(", ") == parts` for a non-empty list whose items contain no `", "` |
| Text.Join | chroma_manager.py:28-29 | `sep.join(parts)` is empty for no parts and the part itself for one; with `Split` it round-trips (`JoinSplit`, `SplitJoin`) |
| Text.Replace | book_info.py:49 | `s.replace(pat, rep)` leaves a string without `pat` unchanged, puts `rep` into the result when `pat` occurs, and keeps the length when `rep` is as long as `pat` |
| Text.ReplaceJoinSplit | book_info.py:49 | `s.replace(pat, rep)` equals `rep.join(s.split(pat))`: the text between occurrences is kept and every occurrence becomes `rep` |
| Text.ReplaceLeavesNoPattern | book_info.py:49 | no `pat` is left after the rewrite when `rep` cannot take part in an occurrence of `pat` |
| Text.RemoveCharSpec | crawling.py:20 | `tag.replace("#", "")` contains no `#`, and every other character keeps its count |
| BookInfo.GetBookInfoByIsbn | book_info.py:38-59 | a `Book` exactly when the status is 200 and the `item` list is present and non-empty; an empty list is the distinct `data['item'][0]` failure; no `Book` otherwise; the isbn comes from `isbn13`, and title, author, description and publisher are copied unchanged |
| BookInfo.OnlyFirstItemUsed | book_info.py:43 | items after the first never influence the result |
| BookInfo.PublishYear | book_info.py:47 | `pubDate[:4]` is the first four characters of `pubDate`, or all of it when shorter |
| BookInfo.CoverUrl | book_info.py:49 | the address with every `coversum` replaced by `cover500` and the rest kept (`Join(Split(cover, "coversum"), "cover500")`); no `coversum` is left; `cover500` appears when `coversum` did; the length is kept; an address without `coversum` is unchanged |
| BookInfo.ItemToBook | book_info.py:46-55 | the book's isbn is the item's `isbn13`; its publish year is a prefix of `pubDate` of at most four characters; its cover address is as long as the item's |
| CategoryClassifier.ParseReply | category_classifier.py:53 | at least one name; joining the names with `", "` gives the reply tail; no name contains `", "` |
| CategoryClassifier.TailWithoutDash | category_classifier.py:53 | without `"- "` in the stripped reply, the whole stripped reply is split |
| CategoryClassifier.TailAfterLastDash | category_classifier.py:53 | with `"- "` present, the tail follows an occurrence of `"- "` and contains none itself, so it follows the last one |
| CategoryClassifier.ParseJoinRoundTrip | category_classifier.py:53 | splitting the joined names again gives the same names |
| Crawling.StripHashes | crawling.py:20 | one cleaned tag per scraped tag, in order: the i-th is the i-th tag with `#` removed, so it contains no `#` and keeps every other character as often as the tag had it |
| Crawling.DistinctCardinality | crawling.py:22 | a duplicate-free list has as many elements as its set |
| Crawling.PostProcessTags | crawling.py:18-28 | `(None, None)` exactly for an empty tag list; otherwise the category is the first tag with every `#` removed, no tag keeps a `#`, the hashtags are duplicate-free, each is one of the later tags, and there are max(distinct later tags − 1, 0) of them |
| DatabaseConn.FindSubCategory | database_conn.py:48-54 | the position of the first row with that name, or the row count when none has it |
| DatabaseConn.SubCategoryIdOf | database_conn.py:44-54 | `None` iff no sub-category row has the name; otherwise the id of the first row with that name |
| DatabaseConn.Resolves | database_conn.py:110-112 | a name is mapped iff its first matching row has a non-zero id, as `if sub_category_id` tests |
| DatabaseConn.NamesWithId | database_conn.py:139-141 | a name is listed iff some sub-category row with that id carries it |
| DatabaseConn.Preferences | database_conn.py:138-147 | a name is a preference iff some selection row of the member joins a sub-category row of that name |
| DatabaseConn.UpsertBook | database_conn.py:72-87 | after the upsert the isbn has a row |
| DatabaseConn.UpsertBookSpec | database_conn.py:72-87 | a new isbn adds one row with the next auto-increment id; an existing isbn keeps its id, gets the six new fields and no second row; every other row and table is unchanged |
| DatabaseConn.UpsertExisting | database_conn.py:75-77 | an existing isbn's row is overwritten in place; the key set and the row count stay the same |
| DatabaseConn.UpsertNew | database_conn.py:73-74 | a fresh isbn adds exactly one key, numbered with the next id |
| DatabaseConn.UpsertConsistent | database_conn.py:72-87 | the upsert keeps book ids positive, below the next auto-increment value, and distinct |
| DatabaseConn.KeepIdConsistent | database_conn.py:75-77 | rewriting a book row under its own id keeps the book ids consistent |
| DatabaseConn.FreshIdConsistent | database_conn.py:73-74 | a new row under the next id, with the counter bumped, keeps the book ids consistent |
| DatabaseConn.UpsertSameRow | database_conn.py:72-87 | upserting a book whose row already holds the same data changes nothing |
| DatabaseConn.InsertHashtag | database_conn.py:94-98 | after the insert-or-ignore the name is in the hashtag table |
| DatabaseConn.InsertHashtagKeys | database_conn.py:94-98 | the insert-or-ignore adds exactly that name to the hashtag table's names |
| DatabaseConn.InsertHashtagConsistent | database_conn.py:94-98 | the insert-or-ignore keeps hashtag ids positive, below the next value, and distinct |
| DatabaseConn.MapHashtag | database_conn.py:101-107 | afterwards the book is mapped to the hashtag's id; only the mapping table changes, and it only grows |
| DatabaseConn.AddHashtags | database_conn.py:93-107 | the hashtag loop only adds hashtag names and mappings; no other table changes |
| DatabaseConn.AddHashtagsSpec | database_conn.py:93-107 | the hashtag table gains exactly the new names, no existing id changes, and the book is mapped to the id of every name; nothing else changes |
| DatabaseConn.AddHashtagsKeys | database_conn.py:93-107 | the hashtag table gains exactly the new names, no existing id changes, and no table but the two hashtag tables changes |
| DatabaseConn.AddHashtagsKeySet | database_conn.py:93-98 | after the loop the hashtag table's names are the old ones and the loop's |
| DatabaseConn.AddHashtagsKeepsIds | database_conn.py:93-98 | a name already present keeps its id through the loop |
| DatabaseConn.AddHashtagsFrame | database_conn.py:93-107 | the loop changes no table other than `hashtags` and `book_hashtag_mappings` |
| DatabaseConn.AddHashtagsMapped | database_conn.py:99-107 | after the loop every name is in the hashtag table, and the mappings gained are exactly the book paired with each name's id |
| DatabaseConn.PairsAsSet | database_conn.py:99-107 | the mappings built name by name are the set of (book id, id of the name) over the names |
| DatabaseConn.AddHashtagsStep | database_conn.py:93-107 | the loop over the first i+1 names is the loop over the first i followed by one insert and one mapping |
| DatabaseConn.MapSubCategories | database_conn.py:110-120 | the category loop only adds mappings; no other table changes |
| DatabaseConn.MapSubCategoriesSpec | database_conn.py:110-120 | exactly the names that resolve to a non-zero id yield a (book_id, sub_category_id) mapping; the others are skipped; nothing else changes |
| DatabaseConn.ResolvedSnoc | database_conn.py:110-120 | one more name adds its (book_id, sub_category_id) pair exactly when it resolves |
| DatabaseConn.MapSubCategoriesStep | database_conn.py:110-120 | one more name maps its id when it resolves and changes nothing otherwise |
| DatabaseConn.Inserted | database_conn.py:69-123 | after a committed call the isbn has a row and the book keys gain exactly that isbn; the sub-category, selection and recommendation tables are unchanged |
| DatabaseConn.InsertedUpsertsBook | database_conn.py:72-87 | a committed call upserts the book row by isbn and leaves the other books and the selection, sub-category and recommendation tables unchanged |
| DatabaseConn.InsertedMappings | database_conn.py:93-120 | a committed call leaves every hashtag with its old id, adds the new names, maps the book to every hashtag, and maps it to every category name that resolves |
| DatabaseConn.IssuedCases | database_conn.py:69-123 | a statement is issued exactly when it is the upsert, the commit, a hashtag statement of an index below the name count, or a mapping of a name that resolves |
| DatabaseConn.SpecsOfInserted | database_conn.py:72-120 | each of the three steps of the transaction changes only its own tables |
| DatabaseConn.InsertedConsistent | database_conn.py:72-107 | ids stay positive and distinct: new ids are handed out above every existing one |
| DatabaseConn.AddHashtagsConsistent | database_conn.py:93-107 | the hashtag loop keeps hashtag ids positive and distinct |
| DatabaseConn.AddHashtagsPresent | database_conn.py:93-107 | re-running the hashtag loop with names already inserted and mapped adds nothing |
| DatabaseConn.MapSubCategoriesPresent | database_conn.py:110-120 | re-running the category loop with mappings already present adds nothing |
| DatabaseConn.InsertedIdempotent | database_conn.py:72-120 | running the same committed insert twice leaves the tables as one run does |
| DatabaseConn.Database.constructor | database_conn.py:9-42 | the database starts from the given tables, which satisfy the schema invariant `Consistent`, with no connection open |
| DatabaseConn.Database.GetSubCategoryId | database_conn.py:44-57 | `None` when the query raises or no row has the name; otherwise the id of the first row with that name |
| DatabaseConn.RunHashtagLoop | database_conn.py:93-107 | the loop raises iff the failing statement is one of its own for an existing index; otherwise the working copy ends as the hashtag loop's specification |
| DatabaseConn.RunCategoryLoop | database_conn.py:110-120 | the loop raises iff the failing statement is the mapping of a name that resolves; otherwise the working copy ends as the category loop's specification |
| DatabaseConn.Database.InsertBookInfo | database_conn.py:59-131 | raises before the `try` iff `ast.literal_eval` fails, and then the tables are unchanged and one more connection is left open; otherwise the connection is closed, and the call rolls back iff the failing statement is one the call issues; a commit installs upsert, hashtags and mappings all together; a rollback leaves every table as before; consistency is kept |
| DatabaseConn.Database.GetMemberPreferences | database_conn.py:133-149 | `None` iff the query raises, since the handler at :148-149 falls off the end; otherwise the preference names of the member, in selection row order |
| DatabaseConn.Database.GetBookIdByIsbn | database_conn.py:154-173 | the call raises iff the query fails, since the final `return` at :173 then reads a variable that was never bound; otherwise a book id iff the isbn has a row, and then that row's id |
| DatabaseConn.Database.SaveRecommendation | database_conn.py:176-189 | the call raises iff the insert fails, and then nothing is saved; otherwise exactly one (member_id, book_id, date) row is appended; nothing else changes, and the connection is closed on both paths |
| ChromaStore.NewEntry | chroma_manager.py:24-47 | the stored document is the description; the metadata carries the book's isbn and the main category; a missing list is stored as the empty string |
| ChromaStore.WithBook | chroma_manager.py:17-50 | the keys gain the book's isbn; every stored entry is kept as it was; a fresh isbn gets the new entry |
| ChromaStore.WithoutBook | chroma_manager.py:54-62 | the keys lose exactly the isbn, and every remaining entry is kept as it was |
| ChromaStore.Retrieve | chroma_manager.py:65-82 | the 404 error iff the isbn is absent; otherwise the view holds the entry's title, author, isbn, hashtags, main category and sub-category from its metadata, and its document as the description |
| ChromaStore.AddExistingUnchanged | chroma_manager.py:19-22 | adding an isbn already present leaves the collection unchanged |
| ChromaStore.AddFreshOneEntry | chroma_manager.py:38-50 | adding a fresh isbn adds exactly that key; every other entry stays as it was |
| ChromaStore.MissingListsStoredEmpty | chroma_manager.py:25-29 | missing sub-categories or hashtags are stored exactly as empty lists, as the empty string |
| ChromaStore.AddThenGet | chroma_manager.py:38-50 | round trip: reading a freshly added isbn returns title, author, isbn, description, the joined hashtags, the main category and the joined sub-categories |
| ChromaStore.StoredListsRecoverable | chroma_manager.py:28-29 | splitting the returned hashtag and sub-category strings on `", "` gives back the non-empty lists that were added, when no name contains `", "` |
| ChromaStore.DeleteThenGet | chroma_manager.py:62 | after deletion, reading that isbn raises the 404 error; reading any other isbn gives what it gave before |
| ChromaStore.AddThenDelete | chroma_manager.py:38-63 | deleting a freshly added isbn restores the collection |
| ChromaStore.KeysMatchPreserved | chroma_manager.py:38-62 | add and delete keep every entry filed under the isbn in its metadata |
| ChromaStore.Recommend | chroma_manager.py:84-111 | the "no preferences" answer comes exactly when no query is issued; a row is saved exactly when a book id is recommended, and it is then (member, that id, today + 1) with a non-zero id |
| ChromaStore.NoPreferencesNoEffect | chroma_manager.py:85-87 | the "no preferences" answer comes exactly when no query is issued, which is when the preference query failed or found no names; then nothing is saved |
| ChromaStore.QueryFromPreferences | chroma_manager.py:85-92 | a query is issued iff the preferences were read and are non-empty; it is exactly the names joined with one space, asking for one result; when no name contains a space, splitting its text on spaces gives the names back |
| ChromaStore.SavedOnlyWhenResolved | chroma_manager.py:94-109 | a row is saved iff a book id is recommended; it carries the member, tomorrow's date and the non-zero id that the books table holds for the matched entry's isbn |
| ChromaStore.RecommendOutcomes | chroma_manager.py:94-109 | once a query is issued: no match is "no book found"; a failing lookup raises; a match without a non-zero book id is "no book ID"; a failing save raises; otherwise that id is recommended and exactly the row (member, id, today + 1) is saved |
| ChromaStore.RaisedOnlyOnFault | chroma_manager.py:99-107 | the call raises only when the book id lookup or the save fails |
| ChromaStore.RecommendIgnoresHistory | chroma_manager.py:85-102 | the answer does not depend on earlier recommendation rows |
| ChromaStore.ChromaManager.constructor | chroma_manager.py:10-15 | the manager opens the persisted collection with no queries issued |
| ChromaStore.ChromaManager.AddBook | chroma_manager.py:17-51 | "already exists" iff the isbn is present; the new collection is the old one with exactly the new entry added, or unchanged; every entry stays filed under the isbn in its metadata; no query is issued |
| ChromaStore.ChromaManager.DeleteBook | chroma_manager.py:54-63 | "does not exist" iff the isbn is absent; the new collection is the old one without that isbn; every entry stays filed under the isbn in its metadata; no query is issued |
| ChromaStore.ChromaManager.GetBook | chroma_manager.py:65-82 | the 404 error iff the isbn is absent, otherwise the stored entry as a dictionary |
| ChromaStore.ChromaManager.RecommendBook | chroma_manager.py:84-111 | the collection is unchanged; the answer, the query issued and the row saved are those of `Recommend` on the tables before the call, with the fault the call meets; the count of open connections is the same afterwards |
| ChromaStore.AddThenGetBook | chroma_manager.py:17-82 | through the manager: a successful add followed by a get returns the added book; an add that found the isbn returns the stored entry |
| Scheduler.SweepQueries | scheduler.py:23-24 | the sweep issues at most one query per member |
| Scheduler.SweepRows | scheduler.py:23-24 | the sweep saves at most one row per member |
| Scheduler.SweepOutcomes | scheduler.py:23-24 | the sweep gives one answer per member |
| Scheduler.SweepOutcomesAt | scheduler.py:23-24 | the sweep's k-th answer is the one member k gets alone, with fault k |
| Scheduler.SweepStep | scheduler.py:23-24 | sweeping one more member appends that member's query and row |
| Scheduler.RunRecommendationsForAllMembers | scheduler.py:18-25 | members are processed in the order given; each answer is the one that member gets alone against the tables at the start, with its own fault; the sweep stops right after the first `Raised` answer and only there; the queries and rows are those of the processed members, in order, and nothing is saved for the members after a raise; no connection is left open |
| Scheduler.SweepStopsOnlyOnFault | scheduler.py:23-24 | when no member meets a failing lookup or save, a sweep that stops only after a raise processes every member |
| Scheduler.Extend | scheduler.py:23-24 | one more member adds its answer at the end, and only the recommendations table changes |
| Scheduler.SweepAfter | scheduler.py:23-24 | the state after sweeping n members holds n answers |
| Scheduler.SweepAfterStep | scheduler.py:23-24 | the state after i+1 members is the state after i, extended by member i's recommendation against the starting tables |
| Scheduler.SweptStep | scheduler.py:23-24 | answering the next member with what it gets against the starting tables keeps the loop invariant `Swept` |
| Scheduler.SweptFinal | scheduler.py:23-24 | the loop invariant gives each answer member by member, and the queries and tables of the processed members |
| Scheduler.SweepOne | scheduler.py:23-24 | one pass of the loop: the next member's answer, query and row extend the state of the sweep by one member; the collection and the count of open connections are unchanged |
| Scheduler.SweepRowsAppend | scheduler.py:23-24 | sweeping two member lists one after the other saves the rows of each, in that order |
| Scheduler.SweepCountsBounded | scheduler.py:23-24 | there are no more saved rows than issued queries, and no more queries than swept members |
| Scheduler.SweepRowsBounded | scheduler.py:23-24 | every saved row belongs to a swept member, is dated tomorrow and has a non-zero book id |
| Scheduler.EntryCalls | scheduler.py:33-55 | an entry starts with the lookup of its isbn; it goes on iff the lookup neither raised nor found an id; a raising lookup raises; an entry that goes on without raising issues five calls, ending with the insert and then the add |
| Scheduler.Steps | scheduler.py:33-62 | after n entries the batch has at most n rows, and exactly n while no entry has raised |
| Scheduler.TaskTrace | scheduler.py:33-68 | the trace ends with `insert_best_sellers` iff no entry raised |
| Scheduler.AbortedStays | scheduler.py:33-62 | once an entry has raised, no later entry is processed |
| Scheduler.SyncEntry | scheduler.py:34-55 | the loop body issues exactly the calls of the entry's specification, and says whether one raised |
| Scheduler.BestSellersUpdateTask | scheduler.py:28-69 | the calls issued are the task's trace; the task completes iff no entry raised |
| Scheduler.Ranks | scheduler.py:57-62 | one {isbn, best_rank} row per feed entry, in feed order |
| Scheduler.CompletesIffNothingRaised | scheduler.py:33-62 | the loop runs to its end iff no entry's calls raised |
| Scheduler.BatchIsFeedRanks | scheduler.py:57-62 | until the task stops, the batch holds the rank of every processed entry, in feed order, whether its book was new or already known |
| Scheduler.RanksSnoc | scheduler.py:57-62 | one more entry adds its rank row at the end |
| Scheduler.EntrySavesNothing | scheduler.py:33-62 | no entry saves the batch |
| Scheduler.StepsStep | scheduler.py:33-62 | one more entry appends that entry's calls unless the task has stopped |
| Scheduler.StepsSaveNothing | scheduler.py:33-62 | the loop itself never saves the batch |
| Scheduler.BestSellersSavedOnce | scheduler.py:64-68 | `insert_best_sellers` is called at most once, as the last call; it is called, with the rank of every feed entry, iff no entry raised |
| Scheduler.KnownEntryOnlyLooksUp | scheduler.py:35-55 | an entry whose lookup raises or finds a book id issues only the lookup, and raises exactly when the lookup did |
| Scheduler.EntrySyncsOnlyUnseen | scheduler.py:42-51 | within one entry, crawl, classify, insert and add concern that entry's isbn and happen only when its lookup returned `None` |
| Scheduler.SyncsOnlyUnseen | scheduler.py:35-51 | every crawl, classify, insert and add in the task concerns a feed entry whose lookup returned `None` |
| Scheduler.SyncedUnseenGrow | scheduler.py:33-51 | a trace whose synchronising calls concern unseen entries among the first n still does so among the first n+1 |
| Scheduler.SyncedUnseenSave | scheduler.py:64-68 | appending the batch save keeps every synchronising call about an unseen entry |
| Scheduler.TaskSyncsOnlyUnseen | scheduler.py:28-68 | in the whole task's trace, every crawl, classify, insert and add concerns a feed entry whose lookup returned `None` |
| Scheduler.SyncedUnseenAppend | scheduler.py:33-51 | appending one more entry's calls keeps every synchronising call about an entry whose lookup found nothing |
| Scheduler.EntryInsertBeforeAdd | scheduler.py:49-51 | within one entry, the collection add comes right after the relational insert of the same book |
| Scheduler.InsertPrecedesAddAppend | scheduler.py:33-51 | two call sequences in which each add follows its insert concatenate into one that has the same property |
| Scheduler.InsertBeforeAdd | scheduler.py:49-51 | every collection add is immediately preceded by the relational insert with the same book, sub-category and hashtags |
| Scheduler.TaskInsertBeforeAdd | scheduler.py:28-68 | in the whole task's trace, every collection add directly follows the relational insert of the same book |

## Left out

- Connection set-up: the SSH tunnel and MySQL connection at database_conn.py:9-42 are I/O. `Database` keeps only a count of open connections: the `finally` blocks at database_conn.py:129-131, 150-152, 169-171 and 187-189 close the connection on every path that enters their `try`. The source does not close it on every exit path: `ast.literal_eval` at database_conn.py:66-67 runs before the `try` at :69, and when it raises, the connection and the tunnel stay open. `InsertBookInfo` states this leak.
- A failed connection is not modelled. `connect_to_db` then returns `None`, and the tuple unpacking at database_conn.py:61, 135, 155 and 178 raises `TypeError`. So the early returns at database_conn.py:62-64 and 156-158 can never run, and they are not modelled either. The fault flags of the database methods stand for a failing query or insert once connected.
- `ast.literal_eval` of a string argument (database_conn.py:66-67) is Python literal parsing. `InsertBookInfo` takes the category names as a list, the result of a parse that succeeded, and a flag `literalFails` for a parse that raises.
- AUTO_INCREMENT gaps: in the model, a duplicate-key upsert and a rolled-back insert leave `nextBookId` and `nextHashtagId` where they were. InnoDB advances its counter in both cases and leaves gaps. So the counters in `InsertedIdempotent` and in the rollback clause of `InsertBookInfo` (`tables == old(tables)`) are the model's own. The rows of every table are as the source leaves them.
- Messages: the strings that `add_book`, `delete_book` and `recommend_book` return are modelled by the constructors of `AddOutcome`, `DeleteOutcome` and `RecommendOutcome`, and the book id inside the "Recommended book ID" text by `Recommended(bookId)`.
- `cursor.lastrowid` (database_conn.py:90, 99) follows MySQL driver behaviour. The model takes a book's or hashtag's id by looking up its key. For a new row, that is the next auto-increment value.
- DatabaseConn.Database.InsertBookInfo: the sub-category lookup inside the transaction never fails. Its own exception path (`None`, so the name is skipped) is modelled only in `GetSubCategoryId`.
- SQL result order: the preference query is taken in selection-row order, and the sub-category lookup takes the first matching row in table order.
- Embeddings and similarity search (chroma_manager.py:11-15, 35, 90-92) are foreign libraries and floating point. `nearest` stands in for them. The text that would be embedded is stored with each entry.
- ChromaStore.ChromaManager.RecommendBook: the result shape that chromadb returns for an empty collection is not modelled. `nearest` returning `None` stands for "no book found". In the source, an empty collection gives `[[]]`, which passes the test `results['documents'] and results['metadatas']` at chroma_manager.py:94, so `results['metadatas'][0][0]` at chroma_manager.py:96 raises `IndexError` and the uncaught raise ends the sweep. The model answers `NoBookFound` and the sweep goes on, so `SweepStopsOnlyOnFault` does not describe the source for an empty collection.
- `datetime.now()` (chroma_manager.py:104) is the parameter `today`, an integer day number. The date arithmetic is `today + 1`.
- Scheduler.BestSellersUpdateTask: the crawler, classifier, relational insert and collection add are abstract calls whose answers come from `Env`. The code passes the crawler's `(category, hashtags)` pair on unchanged and passes single category names where lists are expected. The model records these arguments as written, and leaves their effect inside the called operations to the `Env` raise flags. Read as written, `insertRaises` holds for every entry whose lookup found nothing. `insert_book_info_to_db` raises at database_conn.py:66-67, because `ast.literal_eval` of a single category name such as `SF` fails. The task therefore never reaches `add_book` for such an entry. Were it reached, `add_book` would raise at chroma_manager.py:29, where `', '.join` meets the crawler's `(category, list)` pair, unless the isbn is already in the collection: then it returns "already exists" at chroma_manager.py:19-22 before the join. The properties of the task are proved for every choice of the flags.
- `get_best_sellers`, `getBook`, `get_all_member_ids` and `insert_best_sellers` are not defined in the modelled files. The feed and the member ids are parameters, a feed entry's book is `getBook()`'s result, and `insert_best_sellers` is the last call of the trace.
- The log lines printed by the jobs (scheduler.py:21, 25, 55, 64-66, 69) are output only.
- `start_scheduler` (scheduler.py:73-85) is APScheduler timing and concurrency, not sequential logic.
- Selenium scraping (crawling.py:11-17, 30-36) and the whole of category_provider.py are I/O. main.py, the OpenAI call (category_classifier.py:43-51) and the HTTP request (book_info.py:35-38) are external calls. The scraped tags, the reply text and the decoded response are inputs.
- Crawling.PostProcessTags: the order of `list(set(...))` is arbitrary in Python. It is a parameter constrained to list exactly the distinct later tags once each.
