/**
  The per-URL decisions of `crawl` (main.py) as one sequential transition on the store, the
  frontier queue, the crawl counter, the stop flag and the in-memory index; the seeding and
  the end-of-session flush of `spider_bot`; and a single-worker run of many steps.

  What the network and the parsers answer while a URL is visited is the `Visit` given to a
  step: the `urlparse` parts of the URL, the robots.txt fetch, and the page response.
*/
module Crawler {
  import opened Wrappers
  import opened Text
  import opened Tables
  import opened Robots
  import opened Links
  import opened Indexer

  /** `MAX_URLS`. */
  const MaxUrls: nat := 10000

  /** The fixed starting points used when no uncrawled URL is left in the store. */
  const DefaultSeeds: seq<string> := [
    "https://en.wikipedia.org/wiki/Google",
    "https://www.bbc.com/news/world",
    "https://news.ycombinator.com/"
  ]

  /** The page GET: a `requests.RequestException` (including the one `raise_for_status`
      raises), or a response with its `Content-Type` header (None when absent) and its
      parsed body. */
  datatype Response = FetchFailed | Fetched(contentType: Option<string>, page: Document)

  datatype Visit = Visit(parsed: Url, robots: RobotsFetch, response: Response)

  /** The state the workers share: the database, the URL queue, `count[0]`, `stop_crawl`, and
      `page_id` / `word_index` / `page_index`. */
  datatype World = World(store: Store, frontier: seq<string>, count: nat, stop: bool, index: IndexState)

  /** How the handling of one queued URL ends. */
  datatype Outcome =
    | NotPending       // no uncrawled row for the URL (line 228)
    | Denied           // robots check failed: blocked (lines 235-239)
    | FetchError       // the GET failed: blocked (lines 261-267)
    | NonHtml          // placeholder row (lines 272-281)
    | AlreadyCrawled   // the re-check of lines 290-294
    | LimitReached     // the ceiling of lines 295-302
    | Committed        // indexed and stored (lines 306-330)

  /** The database keeps its keys apart: URL and word ids are fresh, and no blocked URL has a
      URL row. */
  ghost predicate Sound(s: Store) {
    && IdsFresh(s)
    && WordIdsFresh(s)
    && (forall u :: u in s.blocked ==> u !in s.urls)
  }

  /** The URL has a row that is not yet crawled. */
  predicate Pending(s: Store, url: string) {
    url in s.urls && !s.urls[url].crawled
  }

  /** `response.headers.get('Content-Type', '').lower()`. */
  function ContentType(header: Option<string>): string {
    Lower(header.GetOr(""))
  }

  /** The scheme-and-host prefix `parse_links` puts before root-relative links. */
  function Origin(u: Url): string {
    u.scheme + "://" + u.netloc
  }

  // ---------------------------------------------------------------------------------------
  // The commit of lines 308-330.

  /** `executemany("INSERT OR IGNORE INTO IMAGES ...", valid_images)`, in order. */
  function AddImages(s: Store, records: seq<ImageRecord>): (r: Store)
    ensures forall i :: 0 <= i < |records| ==> records[i].url in r.images
    ensures forall k :: k in s.images ==> k in r.images && r.images[k] == s.images[k]
    ensures r.(images := s.images) == s
    ensures r.urls == s.urls && r.words == s.words && r.blocked == s.blocked
    ensures r.nextUrlId == s.nextUrlId && r.nextWordId == s.nextWordId
    decreases |records|
  {
    if |records| == 0 then s
    else
      var rec := records[0];
      var r := AddImages(AddImage(s, rec.url, ImageRow(rec.title, rec.alt, rec.page, rec.context)), records[1..]);
      assert forall i :: 1 <= i < |records| ==> records[i] == records[1..][i - 1];
      r
  }

  /** The loop of lines 322-328: for each stem in dict order, make sure it has a word id and
      upsert its posting for page `pageId` with its count. */
  function StorePostings(s: Store, pageId: nat, stems: seq<string>, count: map<string, nat>): (r: Store)
    requires forall k :: k in stems ==> k in count
    ensures forall w :: w in s.words ==> w in r.words && r.words[w] == s.words[w]
    ensures r.words.Keys == s.words.Keys + set k | k in stems
    ensures WordIdsFresh(s) ==> WordIdsFresh(r)
    ensures r.(words := s.words, nextWordId := s.nextWordId, postings := s.postings) == s
    ensures r.urls == s.urls && r.blocked == s.blocked && r.images == s.images && r.nextUrlId == s.nextUrlId
    decreases |stems|
  {
    if |stems| == 0 then s
    else
      var k := stems[0];
      var (s1, wordId) := AddWord(s, k);
      var s2 := UpsertPosting(s1, wordId, pageId, count[k]);
      assert forall x :: x in stems <==> x == k || x in stems[1..];
      StorePostings(s2, pageId, stems[1..], count)
  }

  lemma DistinctTail(stems: seq<string>)
    requires |stems| > 0 && Distinct(stems)
    ensures Distinct(stems[1..]) && stems[0] !in stems[1..]
  {
    var tail := stems[1..];
    forall i, j | 0 <= i < j < |tail| ensures tail[i] != tail[j] {
      assert tail[i] == stems[i + 1] && tail[j] == stems[j + 1];
    }
    forall i | 0 <= i < |tail| ensures tail[i] != stems[0] {
      assert tail[i] == stems[i + 1];
    }
  }

  /** A posting that none of the loop's writes addresses keeps its value. */
  lemma {:induction false} StorePostingsFrame(s: Store, pageId: nat, stems: seq<string>, count: map<string, nat>, key: (nat, nat))
    requires forall k :: k in stems ==> k in count
    requires key in s.postings
    requires forall k :: k in stems ==> key != (StorePostings(s, pageId, stems, count).words[k], pageId)
    ensures var r := StorePostings(s, pageId, stems, count);
      key in r.postings && r.postings[key] == s.postings[key]
    decreases |stems|
  {
    if |stems| > 0 {
      var k := stems[0];
      var (s1, wordId) := AddWord(s, k);
      var s2 := UpsertPosting(s1, wordId, pageId, count[k]);
      var r := StorePostings(s2, pageId, stems[1..], count);
      assert r == StorePostings(s, pageId, stems, count);
      assert r.words[k] == wordId;
      assert key != (wordId, pageId);
      assert forall x :: x in stems[1..] ==> x in stems;
      StorePostingsFrame(s2, pageId, stems[1..], count, key);
    }
  }

  /** After the loop, each stem of the page has a posting for the page carrying its count. */
  lemma {:induction false} StorePostingsWritten(s: Store, pageId: nat, stems: seq<string>, count: map<string, nat>, k: string)
    requires forall x :: x in stems ==> x in count
    requires Distinct(stems)
    requires WordIdsFresh(s)
    requires k in stems
    ensures var r := StorePostings(s, pageId, stems, count);
      (r.words[k], pageId) in r.postings && r.postings[(r.words[k], pageId)].frequency == count[k]
    decreases |stems|
  {
    var head := stems[0];
    var (s1, wordId) := AddWord(s, head);
    var s2 := UpsertPosting(s1, wordId, pageId, count[head]);
    var tail := stems[1..];
    var r := StorePostings(s2, pageId, tail, count);
    assert r == StorePostings(s, pageId, stems, count);
    DistinctTail(stems);
    assert forall x :: x in tail ==> x in stems;
    if k == head {
      assert r.words[k] == wordId;
      forall x | x in tail ensures (wordId, pageId) != (r.words[x], pageId) {
        assert x != k;
      }
      StorePostingsFrame(s2, pageId, tail, count, (wordId, pageId));
    } else {
      StorePostingsWritten(s2, pageId, tail, count, k);
    }
  }

  /** Postings of other pages are untouched by the loop. */
  lemma StorePostingsOtherPages(s: Store, pageId: nat, stems: seq<string>, count: map<string, nat>, key: (nat, nat))
    requires forall k :: k in stems ==> k in count
    requires key in s.postings && key.1 != pageId
    ensures var r := StorePostings(s, pageId, stems, count);
      key in r.postings && r.postings[key] == s.postings[key]
  {
    StorePostingsFrame(s, pageId, stems, count, key);
  }

  /** The row update of line 319 followed by the postings of lines 322-328, with the images
      of line 310 stored first. */
  function Commit(s: Store, url: string, page: IndexedPage, images: seq<ImageRecord>): (r: Store)
    requires url in s.urls
    requires forall k :: k in page.terms.order ==> k in page.terms.count
    ensures url in r.urls
    ensures r.urls == s.urls[url := r.urls[url]]
  {
    var s1 := AddImages(s, images);
    var row := s1.urls[url];
    var row' := row.(title := Some(page.title), description := Some(page.description),
                     wordCount := Some(|page.terms.count|), crawled := true);
    var s2 := s1.(urls := s1.urls[url := row']);
    StorePostings(s2, row.id, page.terms.order, page.terms.count)
  }

  /** The store after the images and the row update, before the postings. */
  function CommitRow(s: Store, url: string, page: IndexedPage, images: seq<ImageRecord>): (r: Store)
    requires url in s.urls
    ensures url in r.urls
  {
    var s1 := AddImages(s, images);
    var row' := s1.urls[url].(title := Some(page.title), description := Some(page.description),
                              wordCount := Some(|page.terms.count|), crawled := true);
    s1.(urls := s1.urls[url := row'])
  }

  lemma CommitUnfold(s: Store, url: string, page: IndexedPage, images: seq<ImageRecord>)
    requires url in s.urls
    requires forall k :: k in page.terms.order ==> k in page.terms.count
    ensures Commit(s, url, page, images) ==
      StorePostings(CommitRow(s, url, page, images), s.urls[url].id, page.terms.order, page.terms.count)
  {
  }

  /** The commit marks the row crawled with the page's title, description and number of
      distinct stems, keeps its id, adds no URL and no block, and keeps the database sound. */
  lemma CommitRowSpec(s: Store, url: string, page: IndexedPage, images: seq<ImageRecord>)
    requires url in s.urls
    requires forall k :: k in page.terms.order ==> k in page.terms.count
    requires Sound(s)
    ensures var r := Commit(s, url, page, images);
      && url in r.urls
      && r.urls[url].crawled
      && r.urls[url].id == s.urls[url].id
      && r.urls[url].title == Some(page.title)
      && r.urls[url].description == Some(page.description)
      && r.urls[url].wordCount == Some(|page.terms.count|)
      && (forall u :: u in s.urls && u != url ==> u in r.urls && r.urls[u] == s.urls[u])
      && r.urls.Keys == s.urls.Keys
      && r.blocked == s.blocked
      && (forall i :: 0 <= i < |images| ==> images[i].url in r.images)
      && Sound(r)
  {
    CommitUnfold(s, url, page, images);
    var s2 := CommitRow(s, url, page, images);
    assert IdsFresh(s2);
    assert Sound(s2);
  }

  /** Each stem of the page gets a posting for the page carrying its count. */
  lemma CommitPostings(s: Store, url: string, page: IndexedPage, images: seq<ImageRecord>, k: string)
    requires url in s.urls
    requires forall x :: x in page.terms.order ==> x in page.terms.count
    requires Distinct(page.terms.order)
    requires WordIdsFresh(s)
    requires k in page.terms.order
    ensures var r := Commit(s, url, page, images);
      var id := s.urls[url].id;
      && k in r.words
      && (r.words[k], id) in r.postings
      && r.postings[(r.words[k], id)].frequency == page.terms.count[k]
  {
    CommitUnfold(s, url, page, images);
    var s2 := CommitRow(s, url, page, images);
    assert WordIdsFresh(s2);
    StorePostingsWritten(s2, s.urls[url].id, page.terms.order, page.terms.count, k);
  }

  // ---------------------------------------------------------------------------------------
  // One step of `crawl`.

  /** The handling of the URL at the head of the queue (lines 212-334). */
  function CrawlStep(a: Analyzer, join: (string, string) -> string, maxUrls: nat, w: World, v: Visit): (r: (World, Outcome))
    requires |w.frontier| > 0
  {
    var url := w.frontier[0];
    var w0 := w.(frontier := w.frontier[1..]);
    if !Pending(w0.store, url) then (w0, NotPending)
    else if !CanParse(v.parsed, v.robots) then (w0.(store := Block(w0.store, url)), Denied)
    else
      match v.response
      case FetchFailed => (w0.(store := Block(w0.store, url)), FetchError)
      case Fetched(header, doc) =>
        var contentType := ContentType(header);
        if !StartsWith(contentType, "text/html") then
          var row := w0.store.urls[url];
          var row' := row.(title := Some("Non-HTML"), description := Some(contentType), crawled := true);
          (w0.(store := w0.store.(urls := w0.store.urls[url := row'])), NonHtml)
        else
          HtmlStep(a, join, maxUrls, w0, url, Origin(v.parsed), doc)
  }

  /** Lines 283-330, for a permitted page served as HTML: record its links, re-check that it
      is still uncrawled, count it, and either stop at the ceiling or index and commit it. */
  function HtmlStep(a: Analyzer, join: (string, string) -> string, maxUrls: nat, w0: World,
                    url: string, origin: string, doc: Document): (r: (World, Outcome))
    requires Pending(w0.store, url)
  {
    var links := ParseLinks(LinkState(w0.store, w0.frontier), url, origin, doc.hrefs);
    ParseLinksSpec(LinkState(w0.store, w0.frontier), url, origin, doc.hrefs);
    var w1 := w0.(store := links.store, frontier := links.frontier);
    if url in w1.store.urls && w1.store.urls[url].crawled then (w1, AlreadyCrawled)
    else
      var count := w1.count + 1;
      if count > maxUrls then (w1.(count := count, frontier := [], stop := true), LimitReached)
      else (IndexPage(a, join, w1.(count := count), url, doc), Committed)
  }

  /** Lines 306-330: `index`, `index_images`, and the commit. */
  function IndexPage(a: Analyzer, join: (string, string) -> string, w: World, url: string, doc: Document): World
    requires url in w.store.urls
  {
    var (page, index') := Index(a, w.index, doc, url);
    CountTermsSpec(a, doc.tokens);
    var images := IndexImages(join, url, doc.images);
    w.(store := Commit(w.store, url, page, images), index := index')
  }

  // ---------------------------------------------------------------------------------------
  // What one step does, outcome by outcome.

  /** Lines 226-229: a URL without an uncrawled row is dropped from the queue and nothing
      else happens. */
  lemma StepSkips(a: Analyzer, join: (string, string) -> string, maxUrls: nat, w: World, v: Visit)
    requires |w.frontier| > 0
    ensures var r := CrawlStep(a, join, maxUrls, w, v);
      && (r.1 == NotPending <==> !Pending(w.store, w.frontier[0]))
      && (r.1 == NotPending ==> r.0 == w.(frontier := w.frontier[1..]))
  {
  }

  /** Lines 235-239 and 261-267: a robots denial, or a failed fetch of a permitted URL, moves
      the URL to the block list and deletes its row; nothing else changes. */
  lemma StepBlocks(a: Analyzer, join: (string, string) -> string, maxUrls: nat, w: World, v: Visit)
    requires |w.frontier| > 0 && Pending(w.store, w.frontier[0])
    ensures var r := CrawlStep(a, join, maxUrls, w, v);
      && (r.1 == Denied <==> !CanParse(v.parsed, v.robots))
      && (r.1 == FetchError <==> CanParse(v.parsed, v.robots) && v.response.FetchFailed?)
      && ((r.1 == Denied || r.1 == FetchError) ==>
            && w.frontier[0] in r.0.store.blocked
            && w.frontier[0] !in r.0.store.urls
            && r.0.store == Block(w.store, w.frontier[0])
            && r.0 == w.(store := r.0.store, frontier := w.frontier[1..]))
  {
  }

  /** Lines 270-281: a permitted, fetched page whose lower-cased content type does not start
      with `text/html` gets the placeholder title "Non-HTML", the content type as its
      description, and is marked crawled; its word count, id and rank stay as they were. */
  lemma StepNonHtml(a: Analyzer, join: (string, string) -> string, maxUrls: nat, w: World, v: Visit)
    requires |w.frontier| > 0 && Pending(w.store, w.frontier[0])
    requires CanParse(v.parsed, v.robots) && v.response.Fetched?
    ensures var r := CrawlStep(a, join, maxUrls, w, v);
      var url := w.frontier[0];
      var contentType := ContentType(v.response.contentType);
      && (r.1 == NonHtml <==> !StartsWith(contentType, "text/html"))
      && (r.1 == NonHtml ==>
            && url in r.0.store.urls
            && r.0.store.urls[url].title == Some("Non-HTML")
            && r.0.store.urls[url].description == Some(contentType)
            && r.0.store.urls[url].crawled
            && r.0.store.urls[url].id == w.store.urls[url].id
            && r.0.store.urls[url].wordCount == w.store.urls[url].wordCount
            && r.0.store.urls[url].finalRank == w.store.urls[url].finalRank
            && (forall u :: u in w.store.urls && u != url ==> u in r.0.store.urls && r.0.store.urls[u] == w.store.urls[u])
            && r.0.store.urls.Keys == w.store.urls.Keys
            && r.0.store.(urls := w.store.urls) == w.store
            && r.0 == w.(store := r.0.store, frontier := w.frontier[1..]))
  {
  }

  /** The keys of the count map are the distinct stems. */
  lemma TermKeys(a: Analyzer, tokens: seq<string>)
    ensures CountTerms(a, tokens).count.Keys == set k | k in Stems(a, tokens)
  {
    CountTermsSpec(a, tokens);
  }

  /** The control flow of an HTML page: the re-check never fires in a sequential run, the
      counter rises by one, the links are recorded, and the ceiling decides between stopping
      with an empty queue and committing. */
  lemma HtmlStepFlow(a: Analyzer, join: (string, string) -> string, maxUrls: nat, w0: World,
                     url: string, origin: string, doc: Document)
    requires Pending(w0.store, url)
    ensures var r := HtmlStep(a, join, maxUrls, w0, url, origin, doc);
      var kept := Kept(doc.hrefs, origin, w0.store.blocked);
      && r.1 != AlreadyCrawled
      && r.0.count == w0.count + 1
      && (r.1 == LimitReached <==> w0.count + 1 > maxUrls)
      && (r.1 == LimitReached ==> r.0.stop && r.0.frontier == [] && r.0.index == w0.index)
      && (r.1 == Committed ==> r.0.frontier == w0.frontier + kept && r.0.stop == w0.stop)
      && (forall u :: u in kept ==> u in r.0.store.urls)
  {
    var st := LinkState(w0.store, w0.frontier);
    ParseLinksSpec(st, url, origin, doc.hrefs);
  }

  /** What a commit leaves behind for an HTML page under the ceiling. */
  lemma HtmlStepCommit(a: Analyzer, join: (string, string) -> string, maxUrls: nat, w0: World,
                       url: string, origin: string, doc: Document)
    requires Pending(w0.store, url)
    requires Sound(w0.store)
    requires w0.count + 1 <= maxUrls
    ensures var r := HtmlStep(a, join, maxUrls, w0, url, origin, doc);
      var terms := CountTerms(a, doc.tokens);
      var id := w0.store.urls[url].id;
      && r.1 == Committed
      && url in r.0.store.urls
      && r.0.store.urls[url].crawled
      && r.0.store.urls[url].id == id
      && r.0.store.urls[url].title == Some(Title(doc.title, url))
      && r.0.store.urls[url].description == Some(Description(doc.metaDescription, doc.text))
      && r.0.store.urls[url].wordCount == Some(|set k | k in Stems(a, doc.tokens)|)
      && (forall k :: k in terms.count ==>
            && k in r.0.store.words
            && (r.0.store.words[k], id) in r.0.store.postings
            && r.0.store.postings[(r.0.store.words[k], id)].frequency == terms.count[k])
      && (forall i :: 0 <= i < |IndexImages(join, url, doc.images)| ==>
            IndexImages(join, url, doc.images)[i].url in r.0.store.images)
      && r.0.index == Index(a, w0.index, doc, url).1
  {
    var st := LinkState(w0.store, w0.frontier);
    ParseLinksSpec(st, url, origin, doc.hrefs);
    KeptSpec(doc.hrefs, origin, w0.store.blocked);
    var links := ParseLinks(st, url, origin, doc.hrefs);
    assert Sound(links.store);
    var w1 := w0.(store := links.store, frontier := links.frontier, count := w0.count + 1);
    CountTermsSpec(a, doc.tokens);
    TermKeys(a, doc.tokens);
    var terms := CountTerms(a, doc.tokens);
    assert |terms.count| == |terms.count.Keys|;
    var (page, _) := Index(a, w1.index, doc, url);
    var images := IndexImages(join, url, doc.images);
    assert HtmlStep(a, join, maxUrls, w0, url, origin, doc).0.store == Commit(w1.store, url, page, images);
    CommitRowSpec(w1.store, url, page, images);
    forall k | k in terms.count
      ensures var r := Commit(w1.store, url, page, images);
        && k in r.words
        && (r.words[k], w0.store.urls[url].id) in r.postings
        && r.postings[(r.words[k], w0.store.urls[url].id)].frequency == terms.count[k]
    {
      CommitPostings(w1.store, url, page, images, k);
    }
  }

  /** Lines 283-330, for a permitted HTML page: the links are recorded first; the re-check of
      line 292 never fires in a sequential run; the counter rises by exactly one; past the
      ceiling the queue is emptied and the stop flag set without indexing; otherwise the page
      is committed: its row gets the title, the description and the number of distinct stems
      and is marked crawled, each stem gets a posting for the page carrying its count, every
      accepted image is stored, and the in-memory index records the page. */
  lemma StepHtml(a: Analyzer, join: (string, string) -> string, maxUrls: nat, w: World, v: Visit)
    requires |w.frontier| > 0 && Pending(w.store, w.frontier[0])
    requires CanParse(v.parsed, v.robots) && v.response.Fetched?
    requires StartsWith(ContentType(v.response.contentType), "text/html")
    requires Sound(w.store)
    ensures var r := CrawlStep(a, join, maxUrls, w, v);
      var url := w.frontier[0];
      var doc := v.response.page;
      var kept := Kept(doc.hrefs, Origin(v.parsed), w.store.blocked);
      var terms := CountTerms(a, doc.tokens);
      var id := w.store.urls[url].id;
      && r.1 != AlreadyCrawled
      && r.0.count == w.count + 1
      && (r.1 == LimitReached <==> w.count + 1 > maxUrls)
      && (r.1 == LimitReached ==> r.0.stop && r.0.frontier == [] && r.0.index == w.index)
      && (r.1 == Committed ==> r.0.frontier == w.frontier[1..] + kept && r.0.stop == w.stop)
      && (forall u :: u in kept ==> u in r.0.store.urls)
      && (r.1 == Committed ==>
            && url in r.0.store.urls
            && r.0.store.urls[url].crawled
            && r.0.store.urls[url].id == id
            && r.0.store.urls[url].title == Some(Title(doc.title, url))
            && r.0.store.urls[url].description == Some(Description(doc.metaDescription, doc.text))
            && r.0.store.urls[url].wordCount == Some(|set k | k in Stems(a, doc.tokens)|)
            && (forall k :: k in terms.count ==>
                  && k in r.0.store.words
                  && (r.0.store.words[k], id) in r.0.store.postings
                  && r.0.store.postings[(r.0.store.words[k], id)].frequency == terms.count[k])
            && (forall i :: 0 <= i < |IndexImages(join, url, doc.images)| ==>
                  IndexImages(join, url, doc.images)[i].url in r.0.store.images)
            && r.0.index == Index(a, w.index, doc, url).1)
  {
    var url := w.frontier[0];
    var doc := v.response.page;
    var w0 := w.(frontier := w.frontier[1..]);
    assert CrawlStep(a, join, maxUrls, w, v) == HtmlStep(a, join, maxUrls, w0, url, Origin(v.parsed), doc);
    HtmlStepFlow(a, join, maxUrls, w0, url, Origin(v.parsed), doc);
    if w.count + 1 <= maxUrls {
      HtmlStepCommit(a, join, maxUrls, w0, url, Origin(v.parsed), doc);
    }
  }

  /** Recording links keeps the database sound: the new rows are exactly the kept URLs, and
      none of them is blocked. */
  lemma ParseLinksKeepsSound(st: LinkState, url: string, origin: string, hrefs: seq<string>)
    requires url in st.store.urls
    requires Sound(st.store)
    ensures var r := ParseLinks(st, url, origin, hrefs);
      && Sound(r.store)
      && r.store.blocked == st.store.blocked
      && KeepsRows(st.store, r.store)
  {
    ParseLinksSpec(st, url, origin, hrefs);
    KeptSpec(hrefs, origin, st.store.blocked);
    var r := ParseLinks(st, url, origin, hrefs);
    var kept := Kept(hrefs, origin, st.store.blocked);
    assert r.store.words == st.store.words && r.store.nextWordId == st.store.nextWordId;
    forall u | u in r.store.blocked ensures u !in r.store.urls {
      assert u !in st.store.urls;
      assert u !in kept;
    }
  }

  /** The store an HTML step leaves: the links recorded, then the commit unless the ceiling
      was crossed. */
  lemma HtmlStepStore(a: Analyzer, join: (string, string) -> string, maxUrls: nat, w0: World,
                      url: string, origin: string, doc: Document)
    requires Pending(w0.store, url)
    ensures var links := ParseLinks(LinkState(w0.store, w0.frontier), url, origin, doc.hrefs);
      && url in links.store.urls
      && (forall k :: k in Index(a, w0.index, doc, url).0.terms.order ==> k in Index(a, w0.index, doc, url).0.terms.count)
      && HtmlStep(a, join, maxUrls, w0, url, origin, doc).0.store ==
           if w0.count + 1 > maxUrls then links.store
           else Commit(links.store, url, Index(a, w0.index, doc, url).0, IndexImages(join, url, doc.images))
  {
    ParseLinksSpec(LinkState(w0.store, w0.frontier), url, origin, doc.hrefs);
    CountTermsSpec(a, doc.tokens);
  }

  lemma HtmlStepKeepsSound(a: Analyzer, join: (string, string) -> string, maxUrls: nat, w0: World,
                           url: string, origin: string, doc: Document)
    requires Pending(w0.store, url)
    requires Sound(w0.store)
    ensures var r := HtmlStep(a, join, maxUrls, w0, url, origin, doc);
      && Sound(r.0.store)
      && r.0.store.blocked == w0.store.blocked
      && (forall u :: u in w0.store.urls ==> u in r.0.store.urls && r.0.store.urls[u].id == w0.store.urls[u].id)
  {
    var st := LinkState(w0.store, w0.frontier);
    ParseLinksKeepsSound(st, url, origin, doc.hrefs);
    HtmlStepStore(a, join, maxUrls, w0, url, origin, doc);
    if w0.count + 1 <= maxUrls {
      var links := ParseLinks(st, url, origin, doc.hrefs);
      CommitRowSpec(links.store, url, Index(a, w0.index, doc, url).0, IndexImages(join, url, doc.images));
    }
  }

  /** Every step keeps the database sound, only ever adds to the block list, and never loses
      a URL row except the one it blocks. */
  lemma StepKeepsSound(a: Analyzer, join: (string, string) -> string, maxUrls: nat, w: World, v: Visit)
    requires |w.frontier| > 0
    requires Sound(w.store)
    ensures var r := CrawlStep(a, join, maxUrls, w, v);
      && Sound(r.0.store)
      && w.store.blocked <= r.0.store.blocked
      && (forall u :: u in w.store.urls && u != w.frontier[0] ==> u in r.0.store.urls && r.0.store.urls[u].id == w.store.urls[u].id)
  {
    var url := w.frontier[0];
    if Pending(w.store, url) && CanParse(v.parsed, v.robots) && v.response.Fetched?
      && StartsWith(ContentType(v.response.contentType), "text/html")
    {
      var w0 := w.(frontier := w.frontier[1..]);
      assert CrawlStep(a, join, maxUrls, w, v) == HtmlStep(a, join, maxUrls, w0, url, Origin(v.parsed), v.response.page);
      HtmlStepKeepsSound(a, join, maxUrls, w0, url, Origin(v.parsed), v.response.page);
    }
  }

  // ---------------------------------------------------------------------------------------
  // A run of one worker, and the crawl ceiling.

  /** `crawl(args)` for a single worker, handed one `Visit` per URL it takes from the queue;
      it stops when the stop flag is set, the queue is empty or the visits run out. Returns the
      final world and the outcome of each step. */
  function Run(a: Analyzer, join: (string, string) -> string, maxUrls: nat, w: World, visits: seq<Visit>)
    : (r: (World, seq<Outcome>))
    ensures |r.1| <= |visits|
    decreases |visits|
  {
    if w.stop || |w.frontier| == 0 || |visits| == 0 then (w, [])
    else
      var (w', o) := CrawlStep(a, join, maxUrls, w, visits[0]);
      var (final, os) := Run(a, join, maxUrls, w', visits[1..]);
      (final, [o] + os)
  }

  /** Number of committed pages among the outcomes. */
  function Commits(os: seq<Outcome>): nat {
    if |os| == 0 then 0 else (if os[0] == Committed then 1 else 0) + Commits(os[1..])
  }

  /** The counter matches the pages indexed so far and stays within the ceiling until the
      step that crosses it, which also stops the crawl with an empty queue. */
  ghost predicate WithinCeiling(w: World, maxUrls: nat) {
    && w.index.pageId <= w.count <= maxUrls + 1
    && w.index.pageId <= maxUrls
    && (!w.stop ==> w.index.pageId == w.count && w.count <= maxUrls)
    && (w.stop ==> w.frontier == [])
  }

  lemma StepWithinCeiling(a: Analyzer, join: (string, string) -> string, maxUrls: nat, w: World, v: Visit)
    requires |w.frontier| > 0 && !w.stop
    requires WithinCeiling(w, maxUrls)
    ensures var r := CrawlStep(a, join, maxUrls, w, v);
      && WithinCeiling(r.0, maxUrls)
      && r.0.index.pageId == w.index.pageId + (if r.1 == Committed then 1 else 0)
  {
    var url := w.frontier[0];
    if Pending(w.store, url) && CanParse(v.parsed, v.robots) && v.response.Fetched?
      && StartsWith(ContentType(v.response.contentType), "text/html")
    {
      var st := LinkState(w.store, w.frontier[1..]);
      ParseLinksSpec(st, url, Origin(v.parsed), v.response.page.hrefs);
    }
  }

  /** Line 296: however many URLs the queue offers, a session indexes at most `maxUrls`
      pages, and the number of commits is exactly the growth of `page_id`. */
  lemma {:induction false} RunCeiling(a: Analyzer, join: (string, string) -> string, maxUrls: nat, w: World, visits: seq<Visit>)
    requires WithinCeiling(w, maxUrls)
    ensures var r := Run(a, join, maxUrls, w, visits);
      && WithinCeiling(r.0, maxUrls)
      && r.0.index.pageId <= maxUrls
      && r.0.index.pageId == w.index.pageId + Commits(r.1)
    decreases |visits|
  {
    if !(w.stop || |w.frontier| == 0 || |visits| == 0) {
      StepWithinCeiling(a, join, maxUrls, w, visits[0]);
      var (w', o) := CrawlStep(a, join, maxUrls, w, visits[0]);
      RunCeiling(a, join, maxUrls, w', visits[1..]);
      var (final, os) := Run(a, join, maxUrls, w', visits[1..]);
      assert ([o] + os)[1..] == os;
    }
  }

  // ---------------------------------------------------------------------------------------
  // `spider_bot`: seeding and the end-of-session flush.

  /** `pick` is an answer SQLite may give to `SELECT url FROM URLs WHERE crawled = 0 LIMIT 3`:
      up to three distinct uncrawled URLs, and all of them when there are fewer than three. */
  ghost predicate PendingPick(s: Store, pick: seq<string>) {
    && |pick| <= 3
    && (forall i, j :: 0 <= i < j < |pick| ==> pick[i] != pick[j])
    && (forall i :: 0 <= i < |pick| ==> Pending(s, pick[i]))
    && (|pick| < 3 ==> forall u :: Pending(s, u) ==> u in pick)
  }

  /** The URLs inserted at lines 337-347: the picked ones, or the defaults when none is left. */
  function Starting(firstPick: seq<string>): seq<string> {
    if |firstPick| == 0 then DefaultSeeds else firstPick
  }

  /** Lines 337-352: the store after the seed inserts, and the initial queue. */
  function Seed(s: Store, firstPick: seq<string>, secondPick: seq<string>): (r: (Store, seq<string>))
    requires PendingPick(s, firstPick)
    requires PendingPick(AddUrls(s, Starting(firstPick)), secondPick)
  {
    (AddUrls(s, Starting(firstPick)), secondPick)
  }

  /** Seeding re-inserts picked rows without change; only when nothing is pending does it add
      the defaults, which then all have rows; the queue holds at most three uncrawled URLs, and
      it is empty only if nothing is pending after seeding, in particular never when a default
      seed lacked an uncrawled row before. */
  lemma SeedSpec(s: Store, firstPick: seq<string>, secondPick: seq<string>)
    requires PendingPick(s, firstPick)
    requires PendingPick(AddUrls(s, Starting(firstPick)), secondPick)
    ensures var r := Seed(s, firstPick, secondPick);
      && (|firstPick| > 0 ==> r.0 == s)
      && (|firstPick| == 0 ==> forall i :: 0 <= i < |DefaultSeeds| ==> DefaultSeeds[i] in r.0.urls)
      && KeepsRows(s, r.0)
      && |r.1| <= 3
      && (forall i :: 0 <= i < |r.1| ==> Pending(r.0, r.1[i]))
      && ((exists u :: Pending(r.0, u)) ==> |r.1| > 0)
      && (|firstPick| == 0 && (exists i :: 0 <= i < |DefaultSeeds| && DefaultSeeds[i] !in s.urls) ==> |r.1| > 0)
  {
    var seeded := AddUrls(s, Starting(firstPick));
    assert Seed(s, firstPick, secondPick) == (seeded, secondPick);
    if |firstPick| > 0 {
      AddUrlsExisting(s, firstPick);
    } else {
      forall i | 0 <= i < |DefaultSeeds| ensures DefaultSeeds[i] in seeded.urls {
        assert DefaultSeeds[i] in DefaultSeeds;
      }
      if exists i :: 0 <= i < |DefaultSeeds| && DefaultSeeds[i] !in s.urls {
        var i :| 0 <= i < |DefaultSeeds| && DefaultSeeds[i] !in s.urls;
        assert Pending(seeded, DefaultSeeds[i]);
      }
    }
  }

  /** The default seeds are inserted even when they are on the block list: after a session
      that blocked one and left nothing pending, the next seeding revives its row. */
  lemma SeedIgnoresBlockList(s: Store, secondPick: seq<string>)
    requires PendingPick(s, [])
    requires PendingPick(AddUrls(s, DefaultSeeds), secondPick)
    requires DefaultSeeds[0] in s.blocked
    ensures var r := Seed(s, [], secondPick);
      DefaultSeeds[0] in r.0.blocked && DefaultSeeds[0] in r.0.urls && !Sound(r.0)
  {
    assert DefaultSeeds[0] in DefaultSeeds;
  }

  /** Lines 393-401: whatever is left in the queue is inserted as URL rows. */
  function Finish(s: Store, frontier: seq<string>): (r: Store)
    ensures forall u :: u in frontier ==> u in r.urls
    ensures KeepsRows(s, r)
  {
    AddUrls(s, frontier)
  }

  /** A single worker's run that ended by itself (stop flag or empty queue) leaves nothing
      in the queue, so the final flush changes nothing. */
  lemma FinishAfterRun(a: Analyzer, join: (string, string) -> string, maxUrls: nat, w: World, visits: seq<Visit>)
    requires WithinCeiling(w, maxUrls)
    ensures var r := Run(a, join, maxUrls, w, visits);
      (r.0.stop || r.0.frontier == []) ==> r.0.frontier == [] && Finish(r.0.store, r.0.frontier) == r.0.store
  {
    RunCeiling(a, join, maxUrls, w, visits);
  }
}
