/**
  server/searching.py: `search_api` and `search_images`, the queries the web layer runs.

  SQLite is not part of this model; the two SELECTs are written out over the `Store` of the
  crawler. The order in which SQLite scans a table is a parameter (`scan`): it decides the
  order among rows of equal final_rank and the order of the image rows, which the source
  leaves unspecified. The tokenizer is a parameter; the other text functions are those of
  indexing.
*/
module Searching {
  import opened Wrappers
  import opened Text
  import opened Tables
  import Indexer

  const DefaultItemsPerPage: int := 20

  // ---------------------------------------------------------------------------------------
  // Page arithmetic

  /** `offset = (page - 1) * items_per_page`, lines 29 and 74. */
  function Offset(page: int, itemsPerPage: int): (o: int)
    ensures page >= 1 && itemsPerPage >= 0 ==> o >= 0
    ensures o + itemsPerPage == page * itemsPerPage
  {
    (page - 1) * itemsPerPage
  }

  /** `math.ceil` on the exact quotient. */
  function Ceil(x: real): (r: int)
    ensures (r - 1) as real < x <= r as real
  {
    -((-x).Floor)
  }

  /** `page_count = math.ceil(count / items_per_page)`, line 46; None is the
      ZeroDivisionError of a zero page size. */
  function PageCount(count: nat, itemsPerPage: int): (r: Option<int>)
    ensures r.None? <==> itemsPerPage == 0
  {
    if itemsPerPage == 0 then None else Some(Ceil(count as real / itemsPerPage as real))
  }

  lemma MulMonotone(a: int, b: int, c: int)
    requires a <= b && c > 0
    ensures a * c <= b * c
  {
  }

  /** With a positive page size the page count is the least number of pages that hold every
      match: integer ceiling division, and zero matches give zero pages. */
  lemma PageCountSpec(count: nat, itemsPerPage: int)
    requires itemsPerPage > 0
    ensures PageCount(count, itemsPerPage) == Some((count + itemsPerPage - 1) / itemsPerPage)
    ensures var pages := PageCount(count, itemsPerPage).value;
      && pages >= 0
      && (pages - 1) * itemsPerPage < count <= pages * itemsPerPage
      && (count == 0 <==> pages == 0)
  {
    var n := itemsPerPage;
    var r := PageCount(count, n).value;
    assert (r - 1) as real < count as real / n as real <= r as real;
    assert (r - 1) * n < count by {
      QuotientBelow(count, n, r - 1);
    }
    assert count <= r * n by {
      QuotientAbove(count, n, r);
    }
    CeilDivUnique(count, n, r);
  }

  /** The only `r` with `(r - 1) * n < count <= r * n` is the rounded-up quotient. */
  lemma CeilDivUnique(count: nat, n: int, r: int)
    requires n > 0 && (r - 1) * n < count <= r * n
    ensures r == (count + n - 1) / n
  {
    var q := (count + n - 1) / n;
    assert q * n <= count + n - 1 < (q + 1) * n;
    if r < q {
      MulMonotone(r, q - 1, n);
      assert false;
    } else if q < r {
      MulMonotone(q, r - 1, n);
      assert false;
    }
  }

  lemma QuotientBelow(count: nat, n: int, k: int)
    requires n > 0 && k as real < count as real / n as real
    ensures k * n < count
  {
    assert k as real * n as real < count as real;
  }

  lemma QuotientAbove(count: nat, n: int, k: int)
    requires n > 0 && count as real / n as real <= k as real
    ensures count <= k * n
  {
    assert count as real <= k as real * n as real;
  }

  /** `LIMIT limit OFFSET offset` in SQLite: a negative offset counts as zero and a negative
      limit as no limit. */
  function Window<T>(xs: seq<T>, limit: int, offset: int): (r: seq<T>)
    ensures var start := if offset < 0 then 0 else offset;
      && (limit >= 0 ==> |r| <= limit)
      && (start >= |xs| ==> r == [])
      && (start < |xs| ==> |r| == if limit < 0 || start + limit > |xs| then |xs| - start else limit)
      && forall i :: 0 <= i < |r| ==> start + i < |xs| && r[i] == xs[start + i]
  {
    var start := if offset < 0 then 0 else offset;
    var rest := if start >= |xs| then [] else xs[start..];
    if limit < 0 || limit >= |rest| then rest else rest[..limit]
  }

  /** Pages `1 .. page_count` of size `n` hold every item exactly where it belongs: item `i`
      is entry `i % n` of page `i / n + 1`, and any later page is empty. */
  lemma Pagination<T>(xs: seq<T>, n: int, i: nat)
    requires n > 0 && i < |xs|
    ensures var page := i / n + 1;
      && 1 <= page <= PageCount(|xs|, n).value
      && i % n < |Window(xs, n, Offset(page, n))|
      && Window(xs, n, Offset(page, n))[i % n] == xs[i]
  {
    var page := i / n + 1;
    assert Offset(page, n) == (i / n) * n;
    assert i == (i / n) * n + i % n;
    PageCountSpec(|xs|, n);
    var pages := PageCount(|xs|, n).value;
    if pages < page {
      MulMonotone(pages, i / n, n);
      assert false;
    }
  }

  /** A page past the page count is empty. */
  lemma PastLastPage<T>(xs: seq<T>, n: int, page: int)
    requires n > 0 && page > PageCount(|xs|, n).value
    ensures Window(xs, n, Offset(page, n)) == []
  {
    PageCountSpec(|xs|, n);
    var pages := PageCount(|xs|, n).value;
    MulMonotone(pages, page - 1, n);
  }

  // ---------------------------------------------------------------------------------------
  // Query words

  /** Lines 33-36: the stems of the tokens of the lower-cased query that are alphabetic and
      not stopwords, duplicates kept. */
  function QueryWords(a: Indexer.Analyzer, tokenize: string -> seq<string>, query: string): (words: seq<string>)
    ensures |words| <= |tokenize(Lower(query))|
  {
    StemsLength(a, tokenize(Lower(query)));
    Indexer.Stems(a, tokenize(Lower(query)))
  }

  lemma {:induction false} StemsLength(a: Indexer.Analyzer, tokens: seq<string>)
    ensures |Indexer.Stems(a, tokens)| <= |tokens|
    decreases |tokens|
  {
    if |tokens| > 0 {
      StemsLength(a, tokens[1..]);
    }
  }

  /** The query side uses the filter of the indexer: a query's words are exactly the terms
      `index` would count for a page with the query's text. */
  lemma QueryWordsAreTerms(a: Indexer.Analyzer, tokenize: string -> seq<string>, query: string)
    ensures var tokens := tokenize(Lower(query));
      forall w :: w in QueryWords(a, tokenize, query) <==> w in Indexer.CountTerms(a, tokens).count
  {
    var tokens := tokenize(Lower(query));
    Indexer.StemsMembers(a, tokens);
    Indexer.CountTermsSpec(a, tokens);
  }

  // ---------------------------------------------------------------------------------------
  // Matching pages

  /** `SELECT id FROM WORDS WHERE word IN (...)`. */
  function WordIds(s: Store, words: seq<string>): set<nat> {
    set w | w in words && w in s.words :: s.words[w]
  }

  /** `SELECT page_id FROM INVERTED_INDEX WHERE word_id IN (...)`. */
  function MatchingPages(s: Store, words: seq<string>): set<nat> {
    set k | k in s.postings && k.0 in WordIds(s, words) :: k.1
  }

  /** `WHERE id IN (...)` on a URL row. */
  predicate Matches(s: Store, words: seq<string>, url: string) {
    url in s.urls && s.urls[url].id in MatchingPages(s, words)
  }

  /** A URL matches exactly when its page has a posting for one of the query words. */
  lemma MatchesSpec(s: Store, words: seq<string>, url: string)
    ensures Matches(s, words, url) <==>
      url in s.urls && exists w :: w in words && w in s.words && (s.words[w], s.urls[url].id) in s.postings
  {
    if Matches(s, words, url) {
      var k :| k in s.postings && k.0 in WordIds(s, words) && k.1 == s.urls[url].id;
      var w :| w in words && w in s.words && s.words[w] == k.0;
      assert (s.words[w], s.urls[url].id) == k;
    }
    if url in s.urls && exists w :: w in words && w in s.words && (s.words[w], s.urls[url].id) in s.postings {
      var w :| w in words && w in s.words && (s.words[w], s.urls[url].id) in s.postings;
      assert s.words[w] in WordIds(s, words);
      var k := (s.words[w], s.urls[url].id);
      assert k.1 in MatchingPages(s, words);
    }
  }

  /** `SELECT COUNT(*) FROM URLs WHERE id IN (...)`, line 39. */
  function MatchCount(s: Store, words: seq<string>): nat {
    |set u | u in s.urls && Matches(s, words, u)|
  }

  /** The matching URLs in scan order. */
  function Candidates(s: Store, words: seq<string>, scan: seq<string>): (r: seq<string>)
    ensures forall u :: u in r <==> u in scan && Matches(s, words, u)
    ensures |r| <= |scan|
    decreases |scan|
  {
    if |scan| == 0 then []
    else
      var rest := Candidates(s, words, scan[1..]);
      assert forall u :: u in scan <==> u == scan[0] || u in scan[1..];
      if Matches(s, words, scan[0]) then [scan[0]] + rest else rest
  }

  predicate DistinctUrls(xs: seq<string>) {
    forall i, j :: 0 <= i < j < |xs| ==> xs[i] != xs[j]
  }

  /** A scan that visits every URL row once yields `count` candidates: the row count and the
      rows agree. */
  lemma {:induction false} CandidatesCount(s: Store, words: seq<string>, scan: seq<string>)
    requires DistinctUrls(scan)
    ensures |Candidates(s, words, scan)| == |set u | u in scan && Matches(s, words, u)|
    decreases |scan|
  {
    if |scan| > 0 {
      var tail := scan[1..];
      assert DistinctUrls(tail) by {
        forall i, j | 0 <= i < j < |tail| ensures tail[i] != tail[j] {
          assert tail[i] == scan[i + 1] && tail[j] == scan[j + 1];
        }
      }
      CandidatesCount(s, words, tail);
      var before := set u | u in tail && Matches(s, words, u);
      var after := set u | u in scan && Matches(s, words, u);
      assert scan[0] !in tail by {
        forall j | 0 <= j < |tail| ensures tail[j] != scan[0] {
          assert tail[j] == scan[j + 1];
        }
      }
      if Matches(s, words, scan[0]) {
        assert after == before + {scan[0]};
        assert scan[0] !in before;
      } else {
        assert after == before;
      }
    }
  }

  lemma CandidatesMatchCount(s: Store, words: seq<string>, scan: seq<string>)
    requires DistinctUrls(scan)
    requires forall u :: u in s.urls ==> u in scan
    ensures |Candidates(s, words, scan)| == MatchCount(s, words)
  {
    CandidatesCount(s, words, scan);
    assert (set u | u in scan && Matches(s, words, u)) == (set u | u in s.urls && Matches(s, words, u));
  }

  // ---------------------------------------------------------------------------------------
  // ORDER BY final_rank DESC

  function RankOf(s: Store, url: string): Option<real> {
    if url in s.urls then s.urls[url].finalRank else None
  }

  /** `a` may come before `b` under `ORDER BY final_rank DESC`: SQLite orders NULL below every
      number, so NULL ranks come last. */
  predicate AtLeast(a: Option<real>, b: Option<real>) {
    b.None? || (a.Some? && a.value >= b.value)
  }

  predicate SortedByRank(s: Store, xs: seq<string>) {
    forall i, j :: 0 <= i < j < |xs| ==> AtLeast(RankOf(s, xs[i]), RankOf(s, xs[j]))
  }

  function Insert(s: Store, url: string, xs: seq<string>): (r: seq<string>)
    ensures multiset(r) == multiset(xs) + multiset{url}
    ensures |r| == |xs| + 1
    ensures r[0] == url || (|xs| > 0 && r[0] == xs[0])
    decreases |xs|
  {
    if |xs| == 0 then [url]
    else if AtLeast(RankOf(s, url), RankOf(s, xs[0])) then [url] + xs
    else
      assert xs == [xs[0]] + xs[1..];
      [xs[0]] + Insert(s, url, xs[1..])
  }

  lemma {:induction false} InsertSorted(s: Store, url: string, xs: seq<string>)
    requires SortedByRank(s, xs)
    ensures SortedByRank(s, Insert(s, url, xs))
    decreases |xs|
  {
    if |xs| > 0 && !AtLeast(RankOf(s, url), RankOf(s, xs[0])) {
      var tail := xs[1..];
      assert SortedByRank(s, tail) by {
        forall i, j | 0 <= i < j < |tail| ensures AtLeast(RankOf(s, tail[i]), RankOf(s, tail[j])) {
          assert tail[i] == xs[i + 1] && tail[j] == xs[j + 1];
        }
      }
      InsertSorted(s, url, tail);
      var ins := Insert(s, url, tail);
      var r := Insert(s, url, xs);
      assert r == [xs[0]] + ins;
      forall j | 0 < j < |r|
        ensures AtLeast(RankOf(s, xs[0]), RankOf(s, r[j]))
      {
        assert r[j] == ins[j - 1];
        assert r[j] in multiset(ins);
        assert r[j] in multiset(tail) + multiset{url};
        if r[j] != url {
          assert r[j] in tail;
          var k :| 0 <= k < |tail| && tail[k] == r[j];
          assert xs[k + 1] == r[j];
        }
      }
      forall i, j | 0 <= i < j < |r|
        ensures AtLeast(RankOf(s, r[i]), RankOf(s, r[j]))
      {
        if i > 0 {
          assert r[i] == ins[i - 1] && r[j] == ins[j - 1];
        }
      }
    } else if |xs| > 0 {
      var r := Insert(s, url, xs);
      assert r == [url] + xs;
      forall i, j | 0 <= i < j < |r|
        ensures AtLeast(RankOf(s, r[i]), RankOf(s, r[j]))
      {
        if i == 0 {
          assert AtLeast(RankOf(s, xs[0]), RankOf(s, xs[j - 1])) || j == 1;
        } else {
          assert r[i] == xs[i - 1] && r[j] == xs[j - 1];
        }
      }
    }
  }

  /** The matches in `ORDER BY final_rank DESC` order: the same URLs, ranks not increasing. */
  function SortByRank(s: Store, xs: seq<string>): (r: seq<string>)
    ensures multiset(r) == multiset(xs)
    ensures SortedByRank(s, r)
    decreases |xs|
  {
    if |xs| == 0 then []
    else
      var rest := SortByRank(s, xs[1..]);
      InsertSorted(s, xs[0], rest);
      assert xs == [xs[0]] + xs[1..];
      Insert(s, xs[0], rest)
  }

  // ---------------------------------------------------------------------------------------
  // search_api

  /** One row of `SELECT title, url, description`. */
  datatype SearchRow = SearchRow(title: Option<string>, url: string, description: Option<string>)

  function Rows(s: Store, urls: seq<string>): (r: seq<SearchRow>)
    requires forall u :: u in urls ==> u in s.urls
    ensures |r| == |urls|
    ensures forall i :: 0 <= i < |urls| ==>
      r[i] == SearchRow(s.urls[urls[i]].title, urls[i], s.urls[urls[i]].description)
  {
    seq(|urls|, i requires 0 <= i < |urls| => SearchRow(s.urls[urls[i]].title, urls[i], s.urls[urls[i]].description))
  }

  /** The ranked matches of `words`, before LIMIT and OFFSET. */
  function Ranked(s: Store, words: seq<string>, scan: seq<string>): (r: seq<string>)
    ensures SortedByRank(s, r)
    ensures forall u :: u in r <==> u in scan && Matches(s, words, u)
    ensures multiset(r) == multiset(Candidates(s, words, scan))
  {
    var c := Candidates(s, words, scan);
    var r := SortByRank(s, c);
    assert forall u :: u in r <==> u in multiset(r);
    assert forall u :: u in c <==> u in multiset(c);
    r
  }

  /** Why a search raises: the ZeroDivisionError of `count / 0` (line 46), or the
      OverflowError of binding a LIMIT or OFFSET value outside SQLite's INTEGER range
      (lines 50-54 and 76). */
  datatype SearchError = ZeroPageSize | BindOverflow

  /** sqlite3 binds a Python int only when it fits SQLite's signed 64-bit INTEGER. */
  predicate FitsInteger(x: int) {
    -0x8000_0000_0000_0000 <= x < 0x8000_0000_0000_0000
  }

  /** Both values bound to `LIMIT ? OFFSET ?` fit. */
  predicate Bindable(page: int, itemsPerPage: int) {
    FitsInteger(itemsPerPage) && FitsInteger(Offset(page, itemsPerPage))
  }

  /** `search_api(user_search, page, items_per_page)`: one page of the ranked matches, and the
      page count. */
  function SearchApi(a: Indexer.Analyzer, tokenize: string -> seq<string>, s: Store, scan: seq<string>,
                     query: string, page: int, itemsPerPage: int)
    : (r: Result<(seq<SearchRow>, int), SearchError>)
    ensures r.Failure? <==> itemsPerPage == 0 || !Bindable(page, itemsPerPage)
    ensures r.Failure? ==> (r.error == ZeroPageSize <==> itemsPerPage == 0)
  {
    var words := QueryWords(a, tokenize, query);
    match PageCount(MatchCount(s, words), itemsPerPage)
    case None => Failure(ZeroPageSize)
    case Some(pageCount) =>
      if !Bindable(page, itemsPerPage) then Failure(BindOverflow)
      else
      var ranked := Ranked(s, words, scan);
      var shown := Window(ranked, itemsPerPage, Offset(page, itemsPerPage));
      assert forall u :: u in shown ==> u in ranked;
      Success((Rows(s, shown), pageCount))
  }

  /** A LIMIT/OFFSET window of rank-ordered rows is rank-ordered. */
  lemma WindowKeepsOrder(s: Store, xs: seq<string>, limit: int, offset: int)
    requires SortedByRank(s, xs)
    ensures SortedByRank(s, Window(xs, limit, offset))
  {
    var w := Window(xs, limit, offset);
    var first := if offset < 0 then 0 else offset;
    forall i, j | 0 <= i < j < |w|
      ensures AtLeast(RankOf(s, w[i]), RankOf(s, w[j]))
    {
      assert w[i] == xs[first + i];
      assert w[j] == xs[first + j];
    }
  }

  /** With a positive page size the search succeeds with the rows of its window and the
      ceiling-divided page count. */
  lemma SearchUnfold(a: Indexer.Analyzer, tokenize: string -> seq<string>, s: Store, scan: seq<string>,
                     query: string, page: int, itemsPerPage: int)
    requires itemsPerPage > 0
    ensures var words := QueryWords(a, tokenize, query);
      var shown := Window(Ranked(s, words, scan), itemsPerPage, Offset(page, itemsPerPage));
      && (forall u :: u in shown ==> Matches(s, words, u))
      && SearchApi(a, tokenize, s, scan, query, page, itemsPerPage) ==
           if Bindable(page, itemsPerPage)
           then Success((Rows(s, shown), (MatchCount(s, words) + itemsPerPage - 1) / itemsPerPage))
           else Failure(BindOverflow)
  {
    PageCountSpec(MatchCount(s, QueryWords(a, tokenize, query)), itemsPerPage);
  }

  /** With a positive page size a search raises only when LIMIT or OFFSET cannot be bound;
      otherwise it returns at most `items_per_page` rows, each for a URL that has a posting for
      a query word, in order of final_rank, and the page count of all the matches. */
  lemma SearchSpec(a: Indexer.Analyzer, tokenize: string -> seq<string>, s: Store, scan: seq<string>,
                   query: string, page: int, itemsPerPage: int)
    requires itemsPerPage > 0
    ensures var r := SearchApi(a, tokenize, s, scan, query, page, itemsPerPage);
      var words := QueryWords(a, tokenize, query);
      && (r.Failure? <==> !Bindable(page, itemsPerPage))
      && (r.Failure? ==> r.error == BindOverflow)
      && (r.Success? ==>
            && |r.value.0| <= itemsPerPage
            && r.value.1 == (MatchCount(s, words) + itemsPerPage - 1) / itemsPerPage
            && (forall i :: 0 <= i < |r.value.0| ==> Matches(s, words, r.value.0[i].url))
            && (forall i, j :: 0 <= i < j < |r.value.0| ==>
                  AtLeast(RankOf(s, r.value.0[i].url), RankOf(s, r.value.0[j].url))))
  {
    var words := QueryWords(a, tokenize, query);
    var ranked := Ranked(s, words, scan);
    SearchUnfold(a, tokenize, s, scan, query, page, itemsPerPage);
    WindowKeepsOrder(s, ranked, itemsPerPage, Offset(page, itemsPerPage));
  }

  /** A page number read from the request can push OFFSET past SQLite's INTEGER range: page
      10^18 with the default page size raises in both searches. */
  lemma HugePageRaises(a: Indexer.Analyzer, tokenize: string -> seq<string>, s: Store, scan: seq<string>,
                       query: string)
    ensures SearchApi(a, tokenize, s, scan, query, 1_000_000_000_000_000_000, 20) == Failure(BindOverflow)
    ensures SearchImages(s, scan, query, 1_000_000_000_000_000_000, 20) == Failure(BindOverflow)
  {
    assert Offset(1_000_000_000_000_000_000, 20) == 19_999_999_999_999_999_980;
  }

  // ---------------------------------------------------------------------------------------
  // search_images

  /** SQLite's `LIKE` without ESCAPE: `%` matches any run of characters, `_` any one
      character, and other characters match ignoring ASCII case. */
  function Like(pattern: string, text: string): bool
    decreases |pattern| + |text|
  {
    if |pattern| == 0 then |text| == 0
    else if pattern[0] == '%' then Like(pattern[1..], text) || (|text| > 0 && Like(pattern, text[1..]))
    else |text| > 0 && (pattern[0] == '_' || LowerChar(pattern[0]) == LowerChar(text[0]))
         && Like(pattern[1..], text[1..])
  }

  /** A pattern without wildcards. */
  predicate Literal(q: string) {
    forall i :: 0 <= i < |q| ==> q[i] != '%' && q[i] != '_'
  }

  /** A trailing `%` matches any rest. */
  lemma {:induction false} LikeAnything(text: string)
    ensures Like("%", text)
    decreases |text|
  {
    if |text| > 0 {
      LikeAnything(text[1..]);
    }
  }

  /** Two case-folded strings of one length agree exactly where every pair of characters
      folds to the same letter. */
  lemma LowerEq(x: string, y: string)
    requires |x| == |y|
    ensures Lower(x) == Lower(y) <==> forall i :: 0 <= i < |x| ==> LowerChar(x[i]) == LowerChar(y[i])
  {
    if forall i :: 0 <= i < |x| ==> LowerChar(x[i]) == LowerChar(y[i]) {
      assert forall i :: 0 <= i < |x| ==> Lower(x)[i] == Lower(y)[i];
    }
  }

  /** Comparing case-folded prefixes one character at a time. */
  lemma LowerPrefixStep(q: string, text: string)
    requires 0 < |q| <= |text|
    ensures Lower(text[..|q|]) == Lower(q) <==>
      LowerChar(text[0]) == LowerChar(q[0]) && Lower(text[1..][..|q| - 1]) == Lower(q[1..])
  {
    var x, y := text[..|q|], text[1..][..|q| - 1];
    assert forall j :: 0 <= j < |y| ==> y[j] == x[j + 1] && q[1..][j] == q[j + 1];
    LowerEq(x, q);
    LowerEq(y, q[1..]);
    if forall j :: 0 <= j < |y| ==> LowerChar(y[j]) == LowerChar(q[1..][j]) {
      if LowerChar(x[0]) == LowerChar(q[0]) {
        forall i | 0 <= i < |x| ensures LowerChar(x[i]) == LowerChar(q[i]) {
          if i > 0 {
            assert LowerChar(y[i - 1]) == LowerChar(q[1..][i - 1]);
          }
        }
      }
    }
  }

  /** `q%` with a literal `q` matches exactly the texts that start with `q`, ignoring case. */
  lemma {:induction false} LikePrefix(q: string, text: string)
    requires Literal(q)
    ensures Like(q + "%", text) <==> |q| <= |text| && Lower(text[..|q|]) == Lower(q)
    decreases |q|
  {
    var p := q + "%";
    if |q| == 0 {
      assert p == "%";
      LikeAnything(text);
    } else {
      assert p[0] == q[0] && p[1..] == q[1..] + "%";
      assert Literal(q[1..]) by {
        forall i | 0 <= i < |q[1..]| ensures q[1..][i] != '%' && q[1..][i] != '_' {
          assert q[1..][i] == q[i + 1];
        }
      }
      if |text| > 0 {
        LikePrefix(q[1..], text[1..]);
        if |q| <= |text| {
          LowerPrefixStep(q, text);
        }
      }
    }
  }

  /** `rest` matches the text from position `i` on. */
  predicate LikeFrom(rest: string, text: string, i: int) {
    0 <= i <= |text| && Like(rest, text[i..])
  }

  /** A leading `%` lets the rest of the pattern match any suffix. */
  lemma {:induction false} LikeSuffix(rest: string, text: string)
    ensures Like("%" + rest, text) <==> exists i :: LikeFrom(rest, text, i)
    decreases |text|
  {
    var p := "%" + rest;
    assert p[1..] == rest;
    assert text[0..] == text;
    assert LikeFrom(rest, text, 0) == Like(rest, text);
    if |text| > 0 {
      LikeSuffix(rest, text[1..]);
      assert Like(p, text) == (Like(rest, text) || Like(p, text[1..]));
      if exists i :: LikeFrom(rest, text, i) {
        var i :| LikeFrom(rest, text, i);
        if i > 0 {
          assert text[1..][i - 1..] == text[i..];
          assert LikeFrom(rest, text[1..], i - 1);
        }
      }
      if exists i :: LikeFrom(rest, text[1..], i) {
        var i :| LikeFrom(rest, text[1..], i);
        assert text[1..][i..] == text[i + 1..];
        assert LikeFrom(rest, text, i + 1);
      }
    } else {
      if exists i :: LikeFrom(rest, text, i) {
        var i :| LikeFrom(rest, text, i);
        assert i == 0;
      }
    }
  }

  /** The literal `q` occurs in `text` at position `i`, ignoring ASCII case. */
  predicate OccursAt(q: string, text: string, i: int) {
    0 <= i && i + |q| <= |text| && Lower(text[i..i + |q|]) == Lower(q)
  }

  /** `context LIKE '%query%'` with a query free of wildcards holds exactly when the query
      occurs in the context, ignoring ASCII case. */
  lemma LikeContains(q: string, text: string)
    requires Literal(q)
    ensures Like("%" + q + "%", text) <==> exists i :: OccursAt(q, text, i)
  {
    assert "%" + q + "%" == "%" + (q + "%");
    LikeSuffix(q + "%", text);
    forall i | 0 <= i <= |text|
      ensures LikeFrom(q + "%", text, i) <==> OccursAt(q, text, i)
    {
      LikePrefix(q, text[i..]);
      if i + |q| <= |text| {
        assert text[i..][..|q|] == text[i..i + |q|];
      }
    }
    if exists i :: OccursAt(q, text, i) {
      var i :| OccursAt(q, text, i);
      assert LikeFrom(q + "%", text, i);
    }
  }

  /** One row of `SELECT image, alt, source_url`. */
  datatype ImageHit = ImageHit(image: string, alt: string, source: string)

  /** `WHERE context LIKE '%user_search%'`: a NULL context never matches. */
  predicate ImageMatches(s: Store, query: string, image: string) {
    && image in s.images
    && s.images[image].context.Some?
    && Like("%" + query + "%", s.images[image].context.value)
  }

  /** The matching image rows in scan order. */
  function ImageCandidates(s: Store, query: string, scan: seq<string>): (r: seq<ImageHit>)
    ensures forall h :: h in r ==>
      (ImageMatches(s, query, h.image) && h.alt == s.images[h.image].alt && h.source == s.images[h.image].source)
    ensures |r| <= |scan|
    decreases |scan|
  {
    if |scan| == 0 then []
    else
      var rest := ImageCandidates(s, query, scan[1..]);
      var k := scan[0];
      if ImageMatches(s, query, k) then [ImageHit(k, s.images[k].alt, s.images[k].source)] + rest
      else rest
  }

  /** `search_images(user_search, page, items_per_page)`; it raises only when LIMIT or OFFSET
      cannot be bound. */
  function SearchImages(s: Store, scan: seq<string>, query: string, page: int, itemsPerPage: int)
    : (r: Result<seq<ImageHit>, SearchError>)
    ensures r.Failure? <==> !Bindable(page, itemsPerPage)
    ensures r.Failure? ==> r.error == BindOverflow
    ensures r.Success? && itemsPerPage >= 0 ==> |r.value| <= itemsPerPage
    ensures r.Success? ==> forall h :: h in r.value ==> ImageMatches(s, query, h.image)
  {
    if !Bindable(page, itemsPerPage) then Failure(BindOverflow)
    else
      var hits := ImageCandidates(s, query, scan);
      var shown := Window(hits, itemsPerPage, Offset(page, itemsPerPage));
      assert forall h :: h in shown ==> h in hits;
      Success(shown)
  }
}
