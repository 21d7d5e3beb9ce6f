# CrustSearch core in Dafny

CrustSearch is a small web search engine with four parts:

- A crawler (`main.py`) takes URLs from a queue. For each URL it checks robots.txt, fetches
  the page, records the page's links and indexes its words and images into SQLite.
- A ranking pass (`ranking/pagerank.py`) computes PageRank over the recorded links. It also
  computes a TF-IDF score for every (word, page) posting and blends the two into each page's
  `final_rank`.
- An indexer (`indexing/indexer.py`) turns a parsed page into a title, a description, stem
  counts and image records.
- A query layer (`server/searching.py`) answers word searches, ordered by `final_rank` and
  paged, and context searches over images.

This project models that core as pure Dafny functions over immutable values and proves what
the code promises. One module follows each concern of the source:

| module | file | models |
|---|---|---|
| `Wrappers` | wrappers.dfy | `Option` and `Result` |
| `Text` | text.dfy | the string helpers used by the source: `startswith`, `endswith`, slicing, ASCII `lower`, whitespace `split` |
| `Tables` | tables.dfy | the SQLite schema of `db_connect` as a `Store` value, and each statement the crawler issues |
| `Robots` | robots.dfy | `can_parse` |
| `Links` | links.dfy | `parse_links` |
| `Indexer` | indexer.dfy | `index` and `index_images` |
| `Crawler` | crawler.dfy | one step of `crawl`, a run of one worker, and the seeding and final flush of `spider_bot` |
| `PageRank` | pagerank.dfy | `ranking` |
| `Scoring` | scoring.dfy | `tf_idf` and `combine_scores` |
| `Searching` | searching.dfy | `search_api` and `search_images` |

Several things become parameters, and nothing is assumed about them:

- **The network and the parsers.** Per URL visit these are a `Visit`. It holds the
  `urlparse` parts of the URL, the robots.txt answer (the lines, or a transport failure) and
  the page response (a failure, or a content type and a `Document`).
- **Libraries.** The Porter stemmer, the stopword list and `str.isalpha` are the fields of an
  `Analyzer`. `word_tokenize`, `urljoin` and `math.log` are function parameters.
- **Table scan order.** SQLite's order of rows in a table scan is a `scan` sequence. In
  `search_api` it decides only the order among equally ranked rows. `search_images` has no
  ORDER BY (server/searching.py:76), so there the scan decides the whole row order, and with
  it which rows fall inside the LIMIT/OFFSET window.
- **Floats.** Floating-point values are exact reals.
- **Word-id bound.** `SUM(score) ... GROUP BY page_id` is a sum over word ids below a
  `bound`. `Totals` and `CombineScores` require the bound to lie above every word id in
  INVERTED_INDEX, which any store has, so each sum covers all of a page's postings.

The ranking pass is modelled exactly as written, including three departures from textbook
PageRank:

1. Each incoming link adds `damping * pagerank[node] / outdeg(source)`, which reads the
   node's own rank.
2. `dangling_sum` is computed once, before the loop.
3. After the first sweep `pagerank = updated_pagerank` aliases the two dicts, so every later
   change is measured between a dict and itself.

`PageRank.LoopSpec` states what these amount to: at most two effective sweeps when the
tolerance is positive.

## Model

| member | source | states |
|---|---|---|
| Tables.AddUrl | main.py:346 | INSERT OR IGNORE of a URL: afterwards the URL has a row. An existing row is kept as it was. A new row is uncrawled and takes a fresh id. No other table changes, and ids stay distinct. |
| Tables.AddUrls | main.py:400 | Batch INSERT OR IGNORE: the URL keys grow by exactly the given URLs, existing rows are unchanged, and new rows are uncrawled. |
| Tables.AddUrlsExisting | main.py:337-347 | Re-inserting URLs that already have rows leaves the store identical. |
| Tables.Block | main.py:236-237 | Blocking puts the URL on the block list, removes its row, and changes nothing else. |
| Tables.AddWord | main.py:323-326 | A word gets an id: an existing word keeps its id and the store is unchanged; a new word takes the next fresh id. Word ids stay distinct. |
| Tables.UpsertPosting | main.py:328 | After the upsert the posting exists with the given frequency. An existing posting keeps its score, and a new one has none. Every other posting is untouched. |
| Tables.AddImage | main.py:310 | INSERT OR IGNORE into IMAGES: the first row for an image URL wins, and existing rows are untouched. |
| Robots.DisallowedSpec | main.py:93-102 | Reading robots.txt raises exactly when some line raises (an agent line with no value, or a lower-case `disallow` line before any agent line), and then at the first such line. Otherwise it collects exactly the prefixes of `disallow` lines under the current `*` agent. |
| Robots.CanParseSpec | main.py:77-115 | A URL is permitted iff all four hold: it has an http or https scheme and a host; robots.txt was fetched; no robots line raises; and its path starts with no collected prefix. |
| Robots.NoRulesPermitsAll | main.py:95-108 | A robots.txt with no lower-case `disallow` line, whose agent lines all have values, permits every valid URL. This covers a file that spells its rules `Disallow:`. |
| Links.NormalizeSpec | main.py:139-147 | A link is skipped iff it is a fragment, or is neither root-relative nor `http`-prefixed. A kept link starts with `http` when the origin does. |
| Links.NormalizeIdempotent | main.py:139-147 | Normalising an already normalised link returns it unchanged. |
| Links.KeptSpec | main.py:136-153 | A URL is buffered iff some link normalises to it and it is not on the block list. |
| Links.ChunksSpec | main.py:154-193 | The flush batches partition the buffered URLs in order. Each batch is non-empty and holds at most 501 URLs, and every batch but the last holds exactly 501. |
| Links.FlushSpec | main.py:155-196 | One flush enqueues the batch and gives every URL in it a row. It keeps existing rows and the block list, adds exactly the batch's edges, and changes no other table. |
| Links.FlushAllSpec | main.py:154-196 | A run of flushes enqueues the batches in order and gives every URL in them a row. Existing rows and the block list stay, the edges grow by those of each batch, and ids stay distinct. |
| Links.ParseLinksBatches | main.py:136-196 | Parsing links is exactly flushing the buffered URLs in the batches `Chunks` gives: one flush whenever the buffer passes 501 URLs, then a final flush of the rest. |
| Links.ParseLinksSpec | main.py:117-197 | Parsing links does all of the following. The queue grows by exactly the buffered URLs, in link order, and each of them has a row and is not blocked. The URL keys grow by exactly those URLs, existing rows are kept, and the block list is unchanged. The edges grow by those of each flushed batch. Every other table is unchanged, and ids stay distinct. |
| Links.BatchEdgesOnePerTarget | main.py:159-168 | A flush adds exactly one edge from the current page to each distinct target id in its batch, and no other edge. |
| Indexer.StemsMembers | indexing/indexer.py:50-52 | A stem is produced iff some alphabetic non-stopword token stems to it. |
| Indexer.CountTermsSpec | indexing/indexer.py:48-57 | The counts are the histogram of the kept stems. A key is present iff some kept token has that stem, and every count is at least 1. The counts add up to the number of kept tokens. The insertion order lists each key exactly once. |
| Indexer.CountTermsOrderFree | indexing/indexer.py:48-57 | Permuting the tokens does not change the counts. |
| Indexer.Title | indexing/indexer.py:26-29 | The title is the `<title>` text when the element exists, even when that text is empty, and the URL otherwise. |
| Indexer.Description | indexing/indexer.py:35-43 | A meta description is cut to 200 characters and never gets an ellipsis. Without a meta description, text of at most 200 characters is kept whole, and longer text becomes its first 200 characters plus "...". |
| Indexer.Index | indexing/indexer.py:59-72 | Indexing returns the page's title and description (as `Title` and `Description` give them) and its term counts. It takes the next page id and maps that id to the URL. It adds the id to the page set of exactly the page's stems, and every other entry is unchanged. |
| Indexer.IndexKeepsConsistent | indexing/indexer.py:59-65 | Every page id in the word index has been handed out and mapped to a URL, and indexing preserves this. The new id appears in no earlier page set. |
| Indexer.ImageSource | indexing/indexer.py:83-85 | The source is the first non-empty value among `src`, `data-src` and `data-lazy-src`, in that order. It is absent iff all three are missing or empty. |
| Indexer.ImageRecordSpec | indexing/indexer.py:86-103 | An image gives a record iff its source starts with `//` and the joined `https:` URL ends in .jpg, .jpeg or .png. The record carries that URL, the title and alt (empty when missing), and the preceding paragraph's text cut to its first 200 characters (`[:200]`), or no context when there is no preceding paragraph. |
| Indexer.IndexImagesSpec | indexing/indexer.py:79-105 | Every record has an image extension, names the current page, and has a context of at most 200 characters. |
| Indexer.IndexImagesMembers | indexing/indexer.py:82-103 | A record is returned iff some input image produces it. |
| Indexer.IndexImagesAppend | indexing/indexer.py:82-105 | Records come out in image order: the records of a concatenation are the concatenation of the records. |
| Crawler.StepSkips | main.py:226-229 | A queued URL without an uncrawled row is dropped, and nothing else changes. |
| Crawler.StepBlocks | main.py:235-267 | A robots denial, or a failed fetch of a permitted URL, blocks the URL and deletes its row. Each happens exactly in its own case, and the queue loses only its head. |
| Crawler.StepNonHtml | main.py:269-281 | A fetched page whose lower-cased content type does not start with `text/html` is handled as follows, exactly in that case. Its row is marked crawled, with title "Non-HTML" and the content type as description. Its id, word count and rank stay, and nothing else changes. |
| Crawler.StepHtml | main.py:283-330 | On a permitted HTML page the counter rises by one and the links are recorded. Past the ceiling, the queue is emptied and the crawl stops without indexing. Otherwise the row gets the title, the description and the number of distinct stems, and is marked crawled; each stem gets a posting carrying its count; every accepted image is stored; and the in-memory index records the page. |
| Crawler.HtmlStepCommit | main.py:304-330 | Under the ceiling, the commit writes the page row, one posting per stem with its count, and every accepted image. |
| Crawler.CommitRowSpec | main.py:312-319 | The committed row keeps its id and gets the title, the description and the distinct-stem count. It is marked crawled. No other row changes. |
| Crawler.CommitPostings | main.py:321-328 | After the commit each stem has a word id, and a posting for the page carrying the stem's count. |
| Crawler.StepKeepsSound | main.py:223-330 | A step keeps the store sound: distinct fresh ids, and no blocked URL with a row. The block list only grows, and no row except the visited one is lost or renumbered. |
| Crawler.RunCeiling | main.py:295-302 | A single-worker run indexes at most `max_urls` pages. The commits are exactly the growth of `page_id`, and the ceiling invariant holds at the end. |
| Crawler.StepWithinCeiling | main.py:295-302 | Each step preserves the ceiling invariant, and `page_id` grows exactly on a commit. |
| Crawler.SeedSpec | main.py:337-352 | Seeding re-inserts picked URLs without change, and adds the three defaults only when no URL is pending. The queue holds at most three pending URLs. It is non-empty whenever some URL is pending after seeding, in particular when a default lacked a row. |
| Crawler.SeedIgnoresBlockList | main.py:339-347 | The default seeds are inserted even when blocked, which leaves a URL both blocked and with a row. |
| Crawler.Finish | main.py:393-401 | The final flush gives every queued URL a row and keeps existing rows. |
| Crawler.FinishAfterRun | main.py:381-401 | A single worker that ends by itself (stop flag or empty queue) leaves the queue empty, so the final flush changes nothing. |
| PageRank.OutDegreesSpec | ranking/pagerank.py:24-27 | A source's out-degree is its number of CONNECTIONS rows. Only sources with rows have an entry. |
| PageRank.IncomingSpec | ranking/pagerank.py:29-34 | A target's incoming list holds the source of each of its rows, duplicates kept, in row order. Only targets have a list. |
| PageRank.DanglingSpec | ranking/pagerank.py:35 | A node is dangling iff it is crawled and has no outgoing row. |
| PageRank.DanglingSumSpec | ranking/pagerank.py:19-38 | `dangling_sum` is damping × (number of dangling nodes / N) / N, computed from the uniform start vector. |
| PageRank.NodeValueSpec | ranking/pagerank.py:42-51 | A node's value is (1 − d)/N + dangling_sum + d × own rank × Σ 1/outdeg(source) over its incoming rows. |
| PageRank.SweepFromSpec | ranking/pagerank.py:42-51 | A sweep gives every node the value computed from its rank before the sweep, even while reading and writing the same dict. |
| PageRank.LoopAliased | ranking/pagerank.py:53-56 | Once aliased, the measured change is zero. With a positive tolerance the loop ends after one more sweep; otherwise it runs out its iterations. |
| PageRank.LoopSpec | ranking/pagerank.py:41-56 | The loop leaves in `pagerank` exactly k self-sweeps of the start vector. k is 0 if there are no iterations or the first change is below tolerance; otherwise at most 2 when the tolerance is positive, and all iterations when it is not. |
| PageRank.Ranking | ranking/pagerank.py:10-59 | Without crawled nodes RANKS is unchanged. Otherwise every crawled node gets a row, and other rows are unchanged. |
| PageRank.RankingSpec | ranking/pagerank.py:10-64 | Each crawled node's rank is the k-sweep value from `LoopSpec`: exactly 1/N when k = 0, and k ≤ 2 for a positive tolerance. |
| Scoring.TfIdf | ranking/pagerank.py:67-104 | TF-IDF keeps the set of postings and their frequencies. With no crawled page it changes nothing. Otherwise it scores every posting of a crawled page with positive word count, and touches no other posting. |
| Scoring.TfIdfScoreSpec | ranking/pagerank.py:86-92 | A scored posting gets (frequency / word_count) × log(crawled pages / pages containing the word). Both counts are positive and taken before the run. |
| Scoring.TfIdfIdempotent | ranking/pagerank.py:67-104 | Running TF-IDF twice gives the same index as running it once. |
| Scoring.SumNullIffNoScore | ranking/pagerank.py:115-116 | SQL `SUM(score)` is NULL iff none of the page's postings has a score. |
| Scoring.Totals | ranking/pagerank.py:115-117 | The page sums cover exactly the crawled pages with a positive word count that have a posting. Each sum runs over all of the page's postings and is NULL iff none of them has a score. |
| Scoring.TotalsAfterTfIdf | ranking/pagerank.py:115-117 | After TF-IDF every summed page has a non-NULL sum. |
| Scoring.Normalize | ranking/pagerank.py:118-124 | Normalisation raises on an empty result. It also raises when there are two or more sums and one is NULL. Otherwise the same pages get values in [0, 1]. |
| Scoring.NormalizeTies | ranking/pagerank.py:121-122 | A single sum, or all sums equal, normalises every page to 1.0. |
| Scoring.NormalizeSpread | ranking/pagerank.py:123-124 | Without a tie, the smallest sum maps to 0 and the largest to 1, and the order of the sums is kept. |
| Scoring.Combine | ranking/pagerank.py:113-142 | Combining succeeds iff normalisation does. Final ranks are written exactly for the pages with both a sum and a RANKS row. |
| Scoring.CombineBlend | ranking/pagerank.py:133-135 | Each final rank is alpha × normalised + (1 − alpha) × rank. For 0 ≤ alpha ≤ 1 it lies between the two. |
| Scoring.CombineAfterTfIdf | ranking/pagerank.py:113-118 | Run after TF-IDF, combining raises only when no scored page has a posting. |
| Scoring.SetFinalRanks | ranking/pagerank.py:137-142 | Exactly the pages given a value get that `final_rank`. Other rows are unchanged. |
| Scoring.CombineScores | ranking/pagerank.py:113-148 | When combining raises, no row changes. Otherwise each page with a sum and a RANKS row gets final_rank = α·(normalised sum) + (1−α)·rank, and every other row is unchanged. |
| Searching.Offset | server/searching.py:29 | The offset is non-negative for page ≥ 1, and ends where page `page` ends. `search_images` computes it the same way at line 74. |
| Searching.PageCountSpec | server/searching.py:45-46 | With a positive page size, the page count is ceiling division: the least number of pages holding every match. It is zero iff there are no matches. |
| Searching.PageCount | server/searching.py:46 | Computing the page count fails iff the page size is zero. |
| Searching.Window | server/searching.py:54 | LIMIT/OFFSET returns the run of rows starting at the offset (a negative offset counts as 0), at most `limit` of them (a negative limit means no limit). The image query at line 76 uses the same window. |
| Searching.WindowKeepsOrder | server/searching.py:50-54 | A LIMIT/OFFSET window of rank-ordered rows is still in rank order. |
| Searching.Pagination | server/searching.py:29-54 | Every ranked match appears on page i/n + 1 at position i mod n, and that page is within the page count. |
| Searching.PastLastPage | server/searching.py:29-54 | A page past the page count is empty. |
| Searching.QueryWordsAreTerms | server/searching.py:33-36 | The query words are exactly the terms the indexer would count for the query text. |
| Searching.MatchesSpec | server/searching.py:39-53 | A URL matches iff its page has a posting for one of the query words. |
| Searching.CandidatesMatchCount | server/searching.py:39-45 | The number of matching rows equals the COUNT the page count is computed from. |
| Searching.SortByRank | server/searching.py:54 | `ORDER BY final_rank DESC` returns a permutation of the matches, with ranks not increasing and NULL ranks last. |
| Searching.Ranked | server/searching.py:50-54 | The ranked rows are exactly the matching URLs, in rank order. |
| Searching.SearchApi | server/searching.py:27-60 | A search raises iff the page size is zero (ZeroDivisionError, which comes first) or the LIMIT or OFFSET value does not fit SQLite's signed 64-bit INTEGER (OverflowError when binding). |
| Searching.SearchSpec | server/searching.py:27-60 | With a positive page size, a search raises only when LIMIT or OFFSET cannot be bound. Otherwise it returns at most that many rows. Each row matches a query word, the rows are in rank order, and the page count is ceiling division of the match count. |
| Searching.LikePrefix | server/searching.py:76 | A wildcard-free `q%` matches exactly the texts that start with q, ignoring ASCII case. |
| Searching.LikeContains | server/searching.py:76 | A wildcard-free `%q%` matches exactly the texts in which q occurs, ignoring ASCII case. |
| Searching.SearchImages | server/searching.py:72-80 | An image search raises iff the LIMIT or OFFSET value does not fit SQLite's signed 64-bit INTEGER. Otherwise it returns at most the page size of rows, and each row's context contains the query as a LIKE pattern. |
| Searching.HugePageRaises | server/searching.py:29-76 | Page 10^18 with the default page size of 20 makes OFFSET overflow, so both searches raise. |

## Left out

- Threads, the lock and the shared queue are not modelled. A run is one worker taking URLs in
  order, and it ends when the queue is empty. That matches the source only through a
  crash. `from queue import Queue` (main.py:4) binds no module `queue`, and inside `crawl` the
  name `queue` is the Queue instance (main.py:200). So when `queue.get(timeout=1.0)` times out,
  evaluating `except queue.Empty` (main.py:213) raises AttributeError. Lines 214-221 never run,
  and the worker ends with an exception that the discarded `executor.submit` future swallows
  (main.py:381-383). Were those lines reached, a worker would `continue` forever while
  uncrawled rows exist that are not in the queue. The re-check for an already crawled page (main.py:289-294) can only fire under
  concurrency; `Crawler.StepHtml` proves it never fires in a sequential run.
- The per-domain delay (main.py:244-256), `time`, and the random User-Agent are left out.
  They do not affect what is stored.
- HTTP, BeautifulSoup, `urlparse`/`urljoin`, `word_tokenize`, the Porter stemmer and the
  stopword list are parameters. The model proves nothing about them.
- SQLite itself is not modelled. The order of scanned rows is a parameter. AUTOINCREMENT is a
  counter that never reuses ids. Of sqlite3's parameter binding, only the signed 64-bit range
  check on the searches' LIMIT and OFFSET is modelled; the crawler and ranking bind ids and
  counts that stay far inside that range.
- The `except Exception` handlers around each hyperlink (main.py:176-178) and each page
  (main.py:331-332) are left out. Only the error paths the code raises on purpose are
  modelled: a robots.txt agent line without a value, a `disallow` line before an agent line,
  a zero page size, and `max`/`min` of an empty or NULL-mixed result.
- `round(..., 6)` in `ranking` and `tf_idf` is not modelled. Values are exact reals.
- Update batching in `tf_idf` and `combine_scores` (BATCH_SIZE 5000 and 1000) is not
  modelled. Every update lands in the same final table either way.
- `random_api`, `download_nltk`, `db_connect`'s table creation, logging, `print` and the
  web layer (`server/search_api.py`) are not modelled.
- `Text.Lower` folds only ASCII letters. Python's `str.lower` folds all of Unicode.
- Crawler.Seed: the two `SELECT ... LIMIT 3` answers are parameters. They are constrained
  only to what SQLite may return, not to a specific row order.
- Searching.SearchImages: does not state that the rows are the matching images in scan
  order. It states the bound and that every row matches.
- Crawler.StepNonHtml: the source re-reads the row's id at main.py:274-276. The model uses
  the id it already holds, which is the same in a sequential run.

