/**
  The SQLite database of main.py (`db_connect`) as plain values: one field per table, and the
  few statements the crawler issues (INSERT OR IGNORE, DELETE, UPDATE, upsert) as functions.
  AUTOINCREMENT ids are drawn from counters that only grow, so an id is never reused.
*/
module Tables {
  import opened Wrappers

  /** A row of URLs, keyed in `Store.urls` by its unique `url` column. */
  datatype PageRow = PageRow(
    id: nat,
    title: Option<string>,
    description: Option<string>,
    wordCount: Option<nat>,
    finalRank: Option<real>,
    crawled: bool)

  /** A row of INVERTED_INDEX, keyed by `(word_id, page_id)`. */
  datatype Posting = Posting(frequency: nat, score: Option<real>)

  /** A row of IMAGES, keyed by its unique `image` column. `source` holds what the crawler
      binds to `source_url`, which is the page URL string. */
  datatype ImageRow = ImageRow(title: string, alt: string, source: string, context: Option<string>)

  datatype Store = Store(
    urls: map<string, PageRow>,
    nextUrlId: nat,
    words: map<string, nat>,
    nextWordId: nat,
    postings: map<(nat, nat), Posting>,
    edges: multiset<(nat, nat)>,
    blocked: set<string>,
    images: map<string, ImageRow>,
    ranks: map<nat, real>)

  /** The row `INSERT INTO URLs (url)` creates. */
  function NewRow(id: nat): PageRow {
    PageRow(id, None, None, None, None, false)
  }

  /** Every URL row of `s` is still in `t`, unchanged. */
  ghost predicate KeepsRows(s: Store, t: Store) {
    forall u :: u in s.urls ==> u in t.urls && t.urls[u] == s.urls[u]
  }

  /** URL ids are distinct and below the next id to hand out. */
  ghost predicate IdsFresh(s: Store) {
    && (forall u :: u in s.urls ==> s.urls[u].id < s.nextUrlId)
    && (forall u, v :: u in s.urls && v in s.urls && u != v ==> s.urls[u].id != s.urls[v].id)
  }

  /** Word ids are distinct and below the next id to hand out. */
  ghost predicate WordIdsFresh(s: Store) {
    && (forall w :: w in s.words ==> s.words[w] < s.nextWordId)
    && (forall w, v :: w in s.words && v in s.words && w != v ==> s.words[w] != s.words[v])
  }

  /** `INSERT OR IGNORE INTO URLs (url) VALUES (?)`. */
  function AddUrl(s: Store, url: string): (r: Store)
    ensures url in r.urls
    ensures r.urls.Keys == s.urls.Keys + {url}
    ensures KeepsRows(s, r)
    ensures url !in s.urls ==> !r.urls[url].crawled && r.urls[url].id == s.nextUrlId
    ensures s.nextUrlId <= r.nextUrlId
    ensures r.(urls := s.urls, nextUrlId := s.nextUrlId) == s
    ensures IdsFresh(s) ==> IdsFresh(r)
  {
    if url in s.urls then s
    else s.(urls := s.urls[url := NewRow(s.nextUrlId)], nextUrlId := s.nextUrlId + 1)
  }

  /** `executemany("INSERT OR IGNORE INTO URLs (url) ...", urls)`, in order. */
  function AddUrls(s: Store, urls: seq<string>): (r: Store)
    ensures forall u :: u in urls ==> u in r.urls
    ensures r.urls.Keys == s.urls.Keys + set u | u in urls
    ensures KeepsRows(s, r)
    ensures forall u :: u in r.urls && u !in s.urls ==> !r.urls[u].crawled
    ensures s.nextUrlId <= r.nextUrlId
    ensures r.(urls := s.urls, nextUrlId := s.nextUrlId) == s
    ensures IdsFresh(s) ==> IdsFresh(r)
    decreases |urls|
  {
    if |urls| == 0 then s
    else
      var r := AddUrls(AddUrl(s, urls[0]), urls[1..]);
      assert forall u :: u in urls ==> u == urls[0] || u in urls[1..];
      r
  }

  /** INSERT OR IGNORE into BLOCKED_URLs followed by DELETE of the URL row. */
  function Block(s: Store, url: string): (r: Store)
    ensures url in r.blocked && url !in r.urls
    ensures r.blocked == s.blocked + {url}
    ensures r.urls == s.urls - {url}
    ensures r.(urls := s.urls, blocked := s.blocked) == s
  {
    s.(blocked := s.blocked + {url}, urls := s.urls - {url})
  }

  /** `INSERT OR IGNORE INTO WORDS (word)`, then the id `SELECT id FROM WORDS` returns. */
  function AddWord(s: Store, word: string): (r: (Store, nat))
    ensures word in r.0.words && r.0.words[word] == r.1
    ensures word in s.words ==> r.0 == s
    ensures word !in s.words ==> r.1 == s.nextWordId && r.0.nextWordId == s.nextWordId + 1
    ensures r.0.words.Keys == s.words.Keys + {word}
    ensures forall w :: w in s.words ==> r.0.words[w] == s.words[w]
    ensures r.0.(words := s.words, nextWordId := s.nextWordId) == s
    ensures WordIdsFresh(s) ==> WordIdsFresh(r.0)
  {
    if word in s.words then (s, s.words[word])
    else (s.(words := s.words[word := s.nextWordId], nextWordId := s.nextWordId + 1), s.nextWordId)
  }

  /** `INSERT INTO INVERTED_INDEX ... ON CONFLICT DO UPDATE SET frequency = excluded.frequency`:
      a new posting has no score yet; an existing one keeps its score. */
  function UpsertPosting(s: Store, wordId: nat, pageId: nat, frequency: nat): (r: Store)
    ensures (wordId, pageId) in r.postings && r.postings[(wordId, pageId)].frequency == frequency
    ensures r.postings.Keys == s.postings.Keys + {(wordId, pageId)}
    ensures forall k :: k in s.postings && k != (wordId, pageId) ==> r.postings[k] == s.postings[k]
    ensures (wordId, pageId) in s.postings ==>
      r.postings[(wordId, pageId)].score == s.postings[(wordId, pageId)].score
    ensures (wordId, pageId) !in s.postings ==> r.postings[(wordId, pageId)].score.None?
    ensures r.(postings := s.postings) == s
  {
    var p := if (wordId, pageId) in s.postings
             then s.postings[(wordId, pageId)].(frequency := frequency)
             else Posting(frequency, None);
    s.(postings := s.postings[(wordId, pageId) := p])
  }

  /** `INSERT OR IGNORE INTO IMAGES`: the first row for an image URL wins. */
  function AddImage(s: Store, imageUrl: string, row: ImageRow): (r: Store)
    ensures imageUrl in r.images
    ensures imageUrl !in s.images ==> r.images[imageUrl] == row
    ensures forall k :: k in s.images ==> k in r.images && r.images[k] == s.images[k]
    ensures r.images.Keys == s.images.Keys + {imageUrl}
    ensures r.(images := s.images) == s
  {
    if imageUrl in s.images then s else s.(images := s.images[imageUrl := row])
  }

  /** Re-inserting URLs that all have rows changes nothing. */
  lemma {:induction false} AddUrlsExisting(s: Store, urls: seq<string>)
    requires forall u :: u in urls ==> u in s.urls
    ensures AddUrls(s, urls) == s
    decreases |urls|
  {
    if |urls| > 0 {
      assert urls[0] in urls;
      assert forall u :: u in urls[1..] ==> u in urls;
      AddUrlsExisting(s, urls[1..]);
    }
  }
}
