/**
  indexing/indexer.py: `index` (title, description, stem counts, the in-memory page/word
  index) and `index_images`.

  The HTML parse, the tokenizer, the Porter stemmer and the stopword list are not part of this
  model: a page arrives as a `Document` whose fields are what BeautifulSoup and
  `word_tokenize` return, and the stemmer, stopword test and letter test are the fields of an
  `Analyzer`, left unconstrained.
*/
module Indexer {
  import opened Wrappers
  import opened Text

  /** `ps.stem`, membership in `stopwords.words('english')`, and the per-character test of
      `str.isalpha`. */
  datatype Analyzer = Analyzer(stem: string -> string, isStopword: string -> bool, isLetter: char -> bool)

  /** The attributes of one `<img>` element that `index_images` reads, and the text of the
      nearest preceding `<p>` (None when there is none). */
  datatype ImageTag = ImageTag(
    src: Option<string>,
    dataSrc: Option<string>,
    dataLazySrc: Option<string>,
    title: Option<string>,
    alt: Option<string>,
    previousParagraph: Option<string>)

  /** A parsed page: the text of `<title>` (None without one), the `content` of
      `<meta name="description">` (None without the element or the attribute), the visible
      text `get_text(separator=" ", strip=True)`, the tokens of its lower-cased text, the
      `href` of every `a[href]`, and every `<img>`. */
  datatype Document = Document(
    title: Option<string>,
    metaDescription: Option<string>,
    text: string,
    tokens: seq<string>,
    hrefs: seq<string>,
    images: seq<ImageTag>)

  // ---------------------------------------------------------------------------------------
  // Term extraction, shared with the query side.

  /** `word.isalpha()`. */
  predicate IsAlpha(a: Analyzer, w: string) {
    |w| > 0 && forall i :: 0 <= i < |w| ==> a.isLetter(w[i])
  }

  /** The filter of indexer.py line 51 and searching.py line 35. */
  predicate Keeps(a: Analyzer, w: string) {
    IsAlpha(a, w) && !a.isStopword(w)
  }

  /** The stems of the kept tokens, one per kept token, in token order. */
  function Stems(a: Analyzer, tokens: seq<string>): seq<string>
    decreases |tokens|
  {
    if |tokens| == 0 then []
    else (if Keeps(a, tokens[0]) then [a.stem(tokens[0])] else []) + Stems(a, tokens[1..])
  }

  lemma {:induction false} StemsAppend(a: Analyzer, x: seq<string>, y: seq<string>)
    ensures Stems(a, x + y) == Stems(a, x) + Stems(a, y)
    decreases |x|
  {
    if |x| == 0 {
      assert x + y == y;
    } else {
      assert (x + y)[0] == x[0];
      assert (x + y)[1..] == x[1..] + y;
      StemsAppend(a, x[1..], y);
    }
  }

  lemma {:induction false} StemsMembers(a: Analyzer, tokens: seq<string>)
    ensures forall k :: k in Stems(a, tokens) <==>
      exists i :: 0 <= i < |tokens| && Keeps(a, tokens[i]) && a.stem(tokens[i]) == k
    decreases |tokens|
  {
    if |tokens| > 0 {
      StemsMembers(a, tokens[1..]);
      forall k | exists i :: 0 <= i < |tokens| && Keeps(a, tokens[i]) && a.stem(tokens[i]) == k
        ensures k in Stems(a, tokens)
      {
        var i :| 0 <= i < |tokens| && Keeps(a, tokens[i]) && a.stem(tokens[i]) == k;
        if i > 0 {
          assert tokens[1..][i - 1] == tokens[i];
        }
      }
      forall k | k in Stems(a, tokens[1..])
        ensures exists i :: 0 <= i < |tokens| && Keeps(a, tokens[i]) && a.stem(tokens[i]) == k
      {
        var i :| 0 <= i < |tokens| - 1 && Keeps(a, tokens[1..][i]) && a.stem(tokens[1..][i]) == k;
        assert tokens[i + 1] == tokens[1..][i];
      }
    }
  }

  /** Taking element `j` out of `xs` takes it out of the multiset. */
  lemma RemoveAt(xs: seq<string>, j: nat)
    requires j < |xs|
    ensures multiset(xs[..j] + xs[j + 1..]) == multiset(xs) - multiset{xs[j]}
  {
    assert xs == xs[..j] + [xs[j]] + xs[j + 1..];
  }

  /** The stems of `xs` are those of element `j` and those of the rest. */
  lemma StemsRemoveAt(a: Analyzer, xs: seq<string>, j: nat)
    requires j < |xs|
    ensures multiset(Stems(a, xs)) == multiset(Stems(a, [xs[j]])) + multiset(Stems(a, xs[..j] + xs[j + 1..]))
  {
    var left, right := xs[..j], xs[j + 1..];
    assert xs == left + [xs[j]] + right;
    StemsAppend(a, left + [xs[j]], right);
    StemsAppend(a, left, [xs[j]]);
    StemsAppend(a, left, right);
  }

  /** Reordering the tokens reorders the stems and nothing else. */
  lemma {:induction false} StemsPermutation(a: Analyzer, t1: seq<string>, t2: seq<string>)
    requires multiset(t1) == multiset(t2)
    ensures multiset(Stems(a, t1)) == multiset(Stems(a, t2))
    decreases |t1|
  {
    if |t1| == 0 {
      assert |t2| == |multiset(t2)| == 0;
    } else {
      var x := t1[0];
      assert x in multiset(t2);
      var j :| 0 <= j < |t2| && t2[j] == x;
      var rest1, rest2 := t1[1..], t2[..j] + t2[j + 1..];
      assert multiset(rest1) == multiset(t1) - multiset{x} by {
        RemoveAt(t1, 0);
        assert t1[..0] + t1[1..] == rest1;
      }
      assert multiset(rest2) == multiset(t2) - multiset{x} by {
        RemoveAt(t2, j);
      }
      StemsPermutation(a, rest1, rest2);
      assert multiset(Stems(a, t1)) == multiset(Stems(a, [x])) + multiset(Stems(a, rest1)) by {
        StemsRemoveAt(a, t1, 0);
        assert t1[..0] + t1[1..] == rest1;
      }
      assert multiset(Stems(a, t2)) == multiset(Stems(a, [x])) + multiset(Stems(a, rest2)) by {
        StemsRemoveAt(a, t2, j);
      }
    }
  }

  /** Python's insertion-ordered dict `valid_words`: its keys in insertion order, and the
      counts. */
  datatype Terms = Terms(order: seq<string>, count: map<string, nat>)

  /** The counting loop of lines 50-57 from token `i` on. */
  function CountFrom(a: Analyzer, tokens: seq<string>, i: nat, acc: Terms): Terms
    requires i <= |tokens|
    decreases |tokens| - i
  {
    if i == |tokens| then acc
    else if Keeps(a, tokens[i]) then
      var s := a.stem(tokens[i]);
      var acc' := if s in acc.count then Terms(acc.order, acc.count[s := acc.count[s] + 1])
                  else Terms(acc.order + [s], acc.count[s := 1]);
      CountFrom(a, tokens, i + 1, acc')
    else CountFrom(a, tokens, i + 1, acc)
  }

  /** `valid_words` for the tokens of one page. */
  function CountTerms(a: Analyzer, tokens: seq<string>): Terms {
    CountFrom(a, tokens, 0, Terms([], map[]))
  }

  /** Reference: how often each element occurs in `xs`. */
  function Histogram(xs: seq<string>): map<string, nat> {
    map k | k in xs :: multiset(xs)[k]
  }

  predicate Distinct(xs: seq<string>) {
    forall i, j :: 0 <= i < j < |xs| ==> xs[i] != xs[j]
  }

  /** Some key of a non-empty map. */
  ghost function AnyKey(m: map<string, nat>): (k: string)
    requires |m| > 0
    ensures k in m
  {
    assert |m.Keys| == |m|;
    var k :| k in m.Keys; k
  }

  /** The sum of the values of a count map. */
  ghost function SumCounts(m: map<string, nat>): nat
    decreases |m|
  {
    if |m| == 0 then 0
    else m[AnyKey(m)] + SumCounts(m - {AnyKey(m)})
  }

  lemma {:induction false} SumCountsRemove(m: map<string, nat>, k: string)
    requires k in m
    ensures SumCounts(m) == m[k] + SumCounts(m - {k})
    decreases |m|
  {
    var j := AnyKey(m);
    if j != k {
      var mj, mk := m - {j}, m - {k};
      assert k in mj && j in mk;
      SumCountsRemove(mj, k);
      SumCountsRemove(mk, j);
      assert mj - {k} == mk - {j};
    }
  }

  lemma SumCountsUpdate(m: map<string, nat>, k: string, v: nat)
    ensures SumCounts(m[k := v]) + (if k in m then m[k] else 0) == SumCounts(m) + v
  {
    SumCountsRemove(m[k := v], k);
    assert m[k := v] - {k} == m - {k};
    if k in m {
      SumCountsRemove(m, k);
    } else {
      assert m - {k} == m;
    }
  }

  lemma HistogramSnoc(xs: seq<string>, k: string)
    ensures Histogram(xs + [k]) ==
      if k in Histogram(xs) then Histogram(xs)[k := Histogram(xs)[k] + 1] else Histogram(xs)[k := 1]
  {
    assert multiset(xs + [k]) == multiset(xs) + multiset{k};
    assert forall x :: x in xs + [k] <==> x in xs || x == k;
  }

  lemma {:induction false} HistogramTotal(xs: seq<string>)
    ensures SumCounts(Histogram(xs)) == |xs|
    decreases |xs|
  {
    if |xs| == 0 {
      assert Histogram(xs) == map[];
    } else {
      var init, k := xs[..|xs| - 1], xs[|xs| - 1];
      assert xs == init + [k];
      HistogramTotal(init);
      HistogramSnoc(init, k);
      var h := Histogram(init);
      if k in h {
        SumCountsUpdate(h, k, h[k] + 1);
      } else {
        SumCountsUpdate(h, k, 1);
      }
    }
  }

  lemma HistogramOfPermutation(xs: seq<string>, ys: seq<string>)
    requires multiset(xs) == multiset(ys)
    ensures Histogram(xs) == Histogram(ys)
  {
    assert forall k :: k in xs <==> k in multiset(xs);
    assert forall k :: k in ys <==> k in multiset(ys);
  }

  lemma StemsSnoc(a: Analyzer, tokens: seq<string>, i: nat)
    requires i < |tokens|
    ensures Stems(a, tokens[..i + 1]) ==
      Stems(a, tokens[..i]) + (if Keeps(a, tokens[i]) then [a.stem(tokens[i])] else [])
  {
    assert tokens[..i + 1] == tokens[..i] + [tokens[i]];
    StemsAppend(a, tokens[..i], [tokens[i]]);
    assert [tokens[i]][1..] == [];
  }

  /** The invariant of the counting loop after `i` tokens. */
  ghost predicate Counted(a: Analyzer, tokens: seq<string>, i: nat, acc: Terms)
    requires i <= |tokens|
  {
    && acc.count == Histogram(Stems(a, tokens[..i]))
    && Distinct(acc.order)
    && (forall k :: k in acc.order <==> k in acc.count)
  }

  lemma CountStep(a: Analyzer, tokens: seq<string>, i: nat, acc: Terms)
    requires i < |tokens| && Keeps(a, tokens[i])
    requires Counted(a, tokens, i, acc)
    ensures var s := a.stem(tokens[i]);
      Counted(a, tokens, i + 1,
        if s in acc.count then Terms(acc.order, acc.count[s := acc.count[s] + 1])
        else Terms(acc.order + [s], acc.count[s := 1]))
  {
    StemsSnoc(a, tokens, i);
    HistogramSnoc(Stems(a, tokens[..i]), a.stem(tokens[i]));
  }

  lemma SkipStep(a: Analyzer, tokens: seq<string>, i: nat, acc: Terms)
    requires i < |tokens| && !Keeps(a, tokens[i])
    requires Counted(a, tokens, i, acc)
    ensures Counted(a, tokens, i + 1, acc)
  {
    StemsSnoc(a, tokens, i);
    assert Stems(a, tokens[..i + 1]) == Stems(a, tokens[..i]) + [];
  }

  lemma {:induction false} CountFromSpec(a: Analyzer, tokens: seq<string>, i: nat, acc: Terms)
    requires i <= |tokens|
    requires Counted(a, tokens, i, acc)
    ensures Counted(a, tokens, |tokens|, CountFrom(a, tokens, i, acc))
    decreases |tokens| - i
  {
    if i < |tokens| {
      if Keeps(a, tokens[i]) {
        CountStep(a, tokens, i, acc);
        var s := a.stem(tokens[i]);
        var acc' := if s in acc.count then Terms(acc.order, acc.count[s := acc.count[s] + 1])
                    else Terms(acc.order + [s], acc.count[s := 1]);
        CountFromSpec(a, tokens, i + 1, acc');
      } else {
        SkipStep(a, tokens, i, acc);
        CountFromSpec(a, tokens, i + 1, acc);
      }
    }
  }

  /** The count map of a page: its keys are exactly the stems of the kept tokens, every count
      is at least one and counts the kept tokens with that stem, the counts add up to the
      number of kept tokens, and the insertion order lists every key once. */
  lemma CountTermsSpec(a: Analyzer, tokens: seq<string>)
    ensures var t := CountTerms(a, tokens);
      && t.count == Histogram(Stems(a, tokens))
      && (forall k :: k in t.count <==>
            exists i :: 0 <= i < |tokens| && Keeps(a, tokens[i]) && a.stem(tokens[i]) == k)
      && (forall k :: k in t.count ==> t.count[k] >= 1)
      && SumCounts(t.count) == |Stems(a, tokens)|
      && Distinct(t.order)
      && (forall k :: k in t.order <==> k in t.count)
  {
    CountTermsCounted(a, tokens);
    StemsMembers(a, tokens);
    HistogramTotal(Stems(a, tokens));
  }

  /** The finished count is the histogram of all the stems, in first-seen order. */
  lemma CountTermsCounted(a: Analyzer, tokens: seq<string>)
    ensures var t := CountTerms(a, tokens);
      && t.count == Histogram(Stems(a, tokens))
      && Distinct(t.order)
      && (forall k :: k in t.order <==> k in t.count)
  {
    assert tokens[..0] == [];
    assert Histogram([]) == map[];
    CountFromSpec(a, tokens, 0, Terms([], map[]));
    assert tokens[..|tokens|] == tokens;
  }

  /** Counting does not depend on the order of the tokens. */
  lemma CountTermsOrderFree(a: Analyzer, t1: seq<string>, t2: seq<string>)
    requires multiset(t1) == multiset(t2)
    ensures CountTerms(a, t1).count == CountTerms(a, t2).count
  {
    CountTermsSpec(a, t1);
    CountTermsSpec(a, t2);
    StemsPermutation(a, t1, t2);
    HistogramOfPermutation(Stems(a, t1), Stems(a, t2));
  }

  // ---------------------------------------------------------------------------------------
  // Title and description.

  const DescriptionLimit: nat := 200
  const Ellipsis: string := "..."

  /** Lines 26-29: the `<title>` text when the element exists (even if empty), else the URL. */
  function Title(titleText: Option<string>, url: string): (r: string)
    ensures titleText.Some? ==> r == titleText.value
    ensures titleText.None? ==> r == url
  {
    titleText.GetOr(url)
  }

  /** Lines 35-43. A meta description is cut to 200 characters first, so the later `> 200`
      test never holds and it never gets an ellipsis; the fallback text gets one only when
      it is longer than 200 characters. */
  function Description(meta: Option<string>, text: string): (d: string)
    ensures |d| <= DescriptionLimit + |Ellipsis|
    ensures meta.Some? ==>
      |d| <= DescriptionLimit && |d| <= |meta.value| && d == meta.value[..|d|]
      && (|d| < DescriptionLimit ==> d == meta.value)
    ensures meta.None? && |text| <= DescriptionLimit ==> d == text
    ensures meta.None? && |text| > DescriptionLimit ==>
      |d| == DescriptionLimit + |Ellipsis| && d[..DescriptionLimit] == text[..DescriptionLimit]
      && d[DescriptionLimit..] == Ellipsis
  {
    if meta.Some? then
      var description := Take(meta.value, DescriptionLimit);
      if |description| > DescriptionLimit then Take(description, DescriptionLimit) + Ellipsis
      else description
    else if |text| > DescriptionLimit then Take(text, DescriptionLimit) + Ellipsis
    else text
  }

  // ---------------------------------------------------------------------------------------
  // The in-memory index shared by the crawl workers (`page_id`, `word_index`, `page_index`).

  datatype IndexState = IndexState(pageId: nat, wordIndex: map<string, set<nat>>, pageIndex: map<nat, string>)

  /** What `index` returns: the keys of `indexed_page`. */
  datatype IndexedPage = IndexedPage(url: string, title: string, description: string, terms: Terms)

  /** Lines 60-63 over the stems `stems`: add `id` to each stem's page set. */
  function AddToWordIndex(wordIndex: map<string, set<nat>>, stems: seq<string>, id: nat): (r: map<string, set<nat>>)
    ensures forall k :: k in r <==> k in wordIndex || k in stems
    ensures forall k :: k in r ==>
      r[k] == (if k in wordIndex then wordIndex[k] else {}) + (if k in stems then {id} else {})
    decreases |stems|
  {
    if |stems| == 0 then wordIndex
    else
      var k := stems[0];
      var w := wordIndex[k := (if k in wordIndex then wordIndex[k] else {}) + {id}];
      assert forall x :: x in stems <==> x == k || x in stems[1..];
      AddToWordIndex(w, stems[1..], id)
  }

  /** Every page id in the word index has been handed out and mapped to its URL. */
  ghost predicate Consistent(st: IndexState) {
    && (forall id :: id in st.pageIndex ==> id < st.pageId)
    && (forall k, id :: k in st.wordIndex && id in st.wordIndex[k] ==> id in st.pageIndex)
  }

  /** `index(args, page, url)`. */
  function Index(a: Analyzer, st: IndexState, doc: Document, url: string): (r: (IndexedPage, IndexState))
    ensures r.0.url == url
    ensures r.0.title == Title(doc.title, url)
    ensures r.0.description == Description(doc.metaDescription, doc.text)
    ensures r.0.terms == CountTerms(a, doc.tokens)
    ensures r.1.pageId == st.pageId + 1
    ensures r.1.pageIndex == st.pageIndex[st.pageId := url]
    ensures forall k :: k in r.1.wordIndex <==> k in st.wordIndex || k in r.0.terms.count
    ensures forall k :: k in r.1.wordIndex ==>
      r.1.wordIndex[k] ==
        (if k in st.wordIndex then st.wordIndex[k] else {}) + (if k in r.0.terms.count then {st.pageId} else {})
  {
    var terms := CountTerms(a, doc.tokens);
    CountTermsSpec(a, doc.tokens);
    var page := IndexedPage(url, Title(doc.title, url), Description(doc.metaDescription, doc.text), terms);
    var wordIndex := AddToWordIndex(st.wordIndex, terms.order, st.pageId);
    (page, IndexState(st.pageId + 1, wordIndex, st.pageIndex[st.pageId := url]))
  }

  /** Indexing keeps the in-memory index consistent, and the new page's id is fresh: no stem
      listed it before. */
  lemma IndexKeepsConsistent(a: Analyzer, st: IndexState, doc: Document, url: string)
    requires Consistent(st)
    ensures Consistent(Index(a, st, doc, url).1)
    ensures forall k :: k in st.wordIndex ==> st.pageId !in st.wordIndex[k]
  {
    forall k | k in st.wordIndex
      ensures st.pageId !in st.wordIndex[k]
    {
      assert st.pageId in st.wordIndex[k] ==> st.pageId in st.pageIndex;
    }
  }

  // ---------------------------------------------------------------------------------------
  // Images.

  /** One row of `valid_images_data`: `(img_url, title, alt, current_url, context)`. */
  datatype ImageRecord = ImageRecord(url: string, title: string, alt: string, page: string, context: Option<string>)

  /** `img.get('src') or img.get('data-src') or img.get('data-lazy-src')`, None when all
      three are missing or empty. */
  function ImageSource(img: ImageTag): (src: Option<string>)
    ensures src.Some? ==> src.value != ""
    ensures src.Some? ==> src == img.src || src == img.dataSrc || src == img.dataLazySrc
    ensures img.src.Some? && img.src.value != "" ==> src == img.src
    ensures (&& (img.src.None? || img.src == Some(""))
             && img.dataSrc.Some? && img.dataSrc.value != "") ==> src == img.dataSrc
    ensures (&& (img.src.None? || img.src == Some(""))
             && (img.dataSrc.None? || img.dataSrc == Some(""))
             && img.dataLazySrc.Some? && img.dataLazySrc.value != "") ==> src == img.dataLazySrc
    ensures src.None? <==>
      && (img.src.None? || img.src == Some(""))
      && (img.dataSrc.None? || img.dataSrc == Some(""))
      && (img.dataLazySrc.None? || img.dataLazySrc == Some(""))
  {
    if img.src.Some? && img.src.value != "" then img.src
    else if img.dataSrc.Some? && img.dataSrc.value != "" then img.dataSrc
    else if img.dataLazySrc.Some? && img.dataLazySrc.value != "" then img.dataLazySrc
    else None
  }

  predicate HasImageExtension(u: string) {
    EndsWith(u, ".jpg") || EndsWith(u, ".jpeg") || EndsWith(u, ".png")
  }

  /** Lines 83-103 for one image; `join` is `urljoin`. */
  function ImageRecordOf(join: (string, string) -> string, page: string, img: ImageTag): Option<ImageRecord> {
    match ImageSource(img)
    case None => None
    case Some(src) =>
      if !StartsWith(src, "//") then None
      else
        var imgUrl := join(page, "https:" + src);
        if !HasImageExtension(imgUrl) then None
        else
          var context := match img.previousParagraph
                         case Some(p) => Some(Take(p, DescriptionLimit))
                         case None => None;
          Some(ImageRecord(imgUrl, img.title.GetOr(""), img.alt.GetOr(""), page, context))
  }

  /** `index_images(args, current_url, images)`. */
  function IndexImages(join: (string, string) -> string, page: string, images: seq<ImageTag>): seq<ImageRecord>
    decreases |images|
  {
    if |images| == 0 then []
    else
      var here := match ImageRecordOf(join, page, images[0])
                  case Some(r) => [r]
                  case None => [];
      here + IndexImages(join, page, images[1..])
  }

  /** At most one record per image; every record has an image extension, names the current
      page, and keeps at most 200 characters of context. */
  lemma {:induction false} IndexImagesSpec(join: (string, string) -> string, page: string, images: seq<ImageTag>)
    ensures var out := IndexImages(join, page, images);
      && |out| <= |images|
      && forall i :: 0 <= i < |out| ==>
           && HasImageExtension(out[i].url)
           && out[i].page == page
           && (out[i].context.Some? ==> |out[i].context.value| <= DescriptionLimit)
    decreases |images|
  {
    if |images| > 0 {
      IndexImagesSpec(join, page, images[1..]);
    }
  }

  /** An image yields a record exactly when its source starts with `//` and the joined
      `https:` URL has a .jpg, .jpeg or .png ending; the record carries that URL, the title
      and alt (empty when missing) and the first 200 characters of the preceding paragraph. */
  lemma ImageRecordSpec(join: (string, string) -> string, page: string, img: ImageTag)
    ensures ImageRecordOf(join, page, img).Some? <==>
      && ImageSource(img).Some?
      && StartsWith(ImageSource(img).value, "//")
      && HasImageExtension(join(page, "https:" + ImageSource(img).value))
    ensures ImageRecordOf(join, page, img).Some? ==>
      var r := ImageRecordOf(join, page, img).value;
      && r.url == join(page, "https:" + ImageSource(img).value)
      && r.title == img.title.GetOr("") && r.alt == img.alt.GetOr("")
      && r.context == (if img.previousParagraph.Some? then Some(Take(img.previousParagraph.value, DescriptionLimit))
                       else None)
  {
  }

  /** Output order follows input order: the records of a concatenation are the concatenated
      records. */
  lemma {:induction false} IndexImagesAppend(join: (string, string) -> string, page: string, x: seq<ImageTag>, y: seq<ImageTag>)
    ensures IndexImages(join, page, x + y) == IndexImages(join, page, x) + IndexImages(join, page, y)
    decreases |x|
  {
    if |x| == 0 {
      assert x + y == y;
    } else {
      assert (x + y)[0] == x[0];
      assert (x + y)[1..] == x[1..] + y;
      IndexImagesAppend(join, page, x[1..], y);
    }
  }

  /** Every record comes from an input image, and every accepted input image gives one. */
  lemma {:induction false} IndexImagesMembers(join: (string, string) -> string, page: string, images: seq<ImageTag>)
    ensures forall r :: r in IndexImages(join, page, images) <==>
      exists i :: 0 <= i < |images| && ImageRecordOf(join, page, images[i]) == Some(r)
    decreases |images|
  {
    if |images| > 0 {
      IndexImagesMembers(join, page, images[1..]);
      forall r | exists i :: 0 <= i < |images| && ImageRecordOf(join, page, images[i]) == Some(r)
        ensures r in IndexImages(join, page, images)
      {
        var i :| 0 <= i < |images| && ImageRecordOf(join, page, images[i]) == Some(r);
        if i > 0 {
          assert images[1..][i - 1] == images[i];
        }
      }
      forall r | r in IndexImages(join, page, images[1..])
        ensures exists i :: 0 <= i < |images| && ImageRecordOf(join, page, images[i]) == Some(r)
      {
        var i :| 0 <= i < |images| - 1 && ImageRecordOf(join, page, images[1..][i]) == Some(r);
        assert images[i + 1] == images[1..][i];
      }
    }
  }
}
