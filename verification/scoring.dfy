/**
  `tf_idf` and `combine_scores` of ranking/pagerank.py: the score of every posting of a
  crawled page, the per-page sum of those scores, its min-max normalisation and the blend with
  the PageRank value into URLs.final_rank. Pages are the URL rows keyed by their id; postings
  are keyed by `(word_id, page_id)`; `math.log` is a parameter and `round` is not modelled.
*/
module Scoring {
  import opened Wrappers
  import opened Tables

  const DefaultAlpha: real := 0.7

  // ---------------------------------------------------------------------------------------
  // tf_idf

  /** The join condition `u.crawled = 1 AND u.word_count > 0` (a NULL word count fails it). */
  predicate Scored(pages: map<nat, PageRow>, pageId: nat) {
    && pageId in pages
    && pages[pageId].crawled
    && pages[pageId].wordCount.Some?
    && pages[pageId].wordCount.value > 0
  }

  /** `SELECT COUNT(*) FROM URLs WHERE crawled = 1`. */
  function CrawledCount(pages: map<nat, PageRow>): nat {
    |set id | id in pages && pages[id].crawled|
  }

  /** `SELECT COUNT(*) FROM INVERTED_INDEX WHERE word_id = ?`. */
  function Docs(postings: map<(nat, nat), Posting>, wordId: nat): nat {
    |set k | k in postings && k.0 == wordId|
  }

  /** A posting's word is contained in at least that posting's page. */
  lemma DocsPositive(postings: map<(nat, nat), Posting>, k: (nat, nat))
    requires k in postings
    ensures Docs(postings, k.0) >= 1
  {
    var s := set j | j in postings && j.0 == k.0;
    assert k in s;
    assert s != {};
  }

  /** A crawled page makes the crawled count positive. */
  lemma CrawledPositive(pages: map<nat, PageRow>, id: nat)
    requires id in pages && pages[id].crawled
    ensures CrawledCount(pages) >= 1
  {
    var s := set i | i in pages && pages[i].crawled;
    assert id in s;
    assert s != {};
  }

  /** `freq / word_count * log(count / docs_containing_word)` for one posting of a scored page. */
  function TfIdfScore(ln: real -> real, count: nat, frequency: nat, wordCount: nat, docs: nat): real
    requires wordCount > 0 && docs > 0
  {
    (frequency as real / wordCount as real) * ln(count as real / docs as real)
  }

  /** `tf_idf(...)`: the INVERTED_INDEX after the run. With no crawled page it returns at
      once; otherwise every posting of a scored page gets its score, and no other posting,
      and no frequency, changes. */
  function TfIdf(ln: real -> real, pages: map<nat, PageRow>, postings: map<(nat, nat), Posting>)
    : (r: map<(nat, nat), Posting>)
    ensures r.Keys == postings.Keys
    ensures CrawledCount(pages) == 0 ==> r == postings
    ensures forall k :: k in postings ==> r[k].frequency == postings[k].frequency
    ensures forall k :: k in postings && !Scored(pages, k.1) ==> r[k] == postings[k]
    ensures forall k :: k in postings && Scored(pages, k.1) && CrawledCount(pages) > 0 ==>
      r[k].score.Some?
  {
    var count := CrawledCount(pages);
    if count == 0 then postings
    else
      map k | k in postings ::
        if Scored(pages, k.1) then
          DocsPositive(postings, k);
          postings[k].(score := Some(TfIdfScore(ln, count, postings[k].frequency,
                                                pages[k.1].wordCount.value, Docs(postings, k.0))))
        else postings[k]
  }

  /** A scored posting's score is its term frequency times the log of crawled pages over the
      pages that contain the word, counted on the index before the run. */
  lemma TfIdfScoreSpec(ln: real -> real, pages: map<nat, PageRow>, postings: map<(nat, nat), Posting>, k: (nat, nat))
    requires k in postings && Scored(pages, k.1)
    ensures CrawledCount(pages) >= 1 && Docs(postings, k.0) >= 1
    ensures TfIdf(ln, pages, postings)[k].score ==
      Some((postings[k].frequency as real / pages[k.1].wordCount.value as real)
           * ln(CrawledCount(pages) as real / Docs(postings, k.0) as real))
  {
    CrawledPositive(pages, k.1);
    DocsPositive(postings, k);
    var score := TfIdfScore(ln, CrawledCount(pages), postings[k].frequency, pages[k.1].wordCount.value,
                            Docs(postings, k.0));
    assert TfIdf(ln, pages, postings)[k] == postings[k].(score := Some(score));
    assert score == (postings[k].frequency as real / pages[k.1].wordCount.value as real)
      * ln(CrawledCount(pages) as real / Docs(postings, k.0) as real);
  }

  /** The scores depend only on what the run does not write, so a second run changes nothing. */
  lemma TfIdfIdempotent(ln: real -> real, pages: map<nat, PageRow>, postings: map<(nat, nat), Posting>)
    ensures TfIdf(ln, pages, TfIdf(ln, pages, postings)) == TfIdf(ln, pages, postings)
  {
    var once := TfIdf(ln, pages, postings);
    if CrawledCount(pages) > 0 {
      forall w: nat
        ensures Docs(once, w) == Docs(postings, w)
      {
        assert (set k | k in once && k.0 == w) == (set k | k in postings && k.0 == w);
      }
      var twice := TfIdf(ln, pages, once);
      forall k | k in postings
        ensures twice[k] == once[k]
      {
        if Scored(pages, k.1) {
          TfIdfScoreSpec(ln, pages, once, k);
          TfIdfScoreSpec(ln, pages, postings, k);
        }
      }
    }
  }

  // ---------------------------------------------------------------------------------------
  // SUM(score) ... GROUP BY page_id

  /** SQL's `SUM(score)` over the postings `(w, pageId)` with `w < bound`: NULL scores are
      skipped, and the sum is NULL when no score is present. */
  function ScoreSum(postings: map<(nat, nat), Posting>, pageId: nat, bound: nat): (r: Option<real>)
    decreases bound
  {
    if bound == 0 then None
    else
      var rest := ScoreSum(postings, pageId, bound - 1);
      var k := (bound - 1, pageId);
      if k in postings && postings[k].score.Some? then Some(rest.GetOr(0.0) + postings[k].score.value)
      else rest
  }

  /** The sum is NULL exactly when none of the page's postings below the bound has a score. */
  lemma {:induction false} ScoreSumNull(postings: map<(nat, nat), Posting>, pageId: nat, bound: nat)
    ensures ScoreSum(postings, pageId, bound).None? <==>
      forall w: nat :: w < bound && (w, pageId) in postings ==> postings[(w, pageId)].score.None?
    decreases bound
  {
    if bound > 0 {
      ScoreSumNull(postings, pageId, bound - 1);
    }
  }

  /** With a bound above every word id, SQL's `SUM(score)` for a page is NULL exactly when none
      of the page's postings has a score. */
  lemma SumNullIffNoScore(postings: map<(nat, nat), Posting>, pageId: nat, bound: nat)
    requires forall k :: k in postings ==> k.0 < bound
    ensures ScoreSum(postings, pageId, bound).None? <==>
      forall k :: k in postings && k.1 == pageId ==> postings[k].score.None?
  {
    ScoreSumNull(postings, pageId, bound);
    if ScoreSum(postings, pageId, bound).None? {
      forall k | k in postings && k.1 == pageId
        ensures postings[k].score.None?
      {
        assert k == (k.0, pageId);
      }
    }
  }

  /** Word ids never handed out add nothing: past the largest word id the sum is fixed. */
  lemma {:induction false} ScoreSumBeyond(postings: map<(nat, nat), Posting>, pageId: nat, bound: nat, more: nat)
    requires forall k :: k in postings ==> k.0 < bound
    requires bound <= more
    ensures ScoreSum(postings, pageId, more) == ScoreSum(postings, pageId, bound)
    decreases more
  {
    if more > bound {
      assert (more - 1, pageId) !in postings;
      ScoreSumBeyond(postings, pageId, bound, more - 1);
    }
  }

  /** `{page_id: SUM(score)}` for the pages of the `IN (...)` subquery that have a posting;
      `bound` lies above every word id, so each sum runs over all of the page's postings. */
  function Totals(pages: map<nat, PageRow>, postings: map<(nat, nat), Posting>, bound: nat)
    : (t: map<nat, Option<real>>)
    requires forall k :: k in postings ==> k.0 < bound
    ensures forall id :: id in t <==> Scored(pages, id) && exists k :: k in postings && k.1 == id
    ensures forall id :: id in t ==>
      (t[id].None? <==> forall k :: k in postings && k.1 == id ==> postings[k].score.None?)
  {
    SumsNullIffNoScore(postings, bound);
    map id | id in pages && Scored(pages, id) && (exists k :: k in postings && k.1 == id) ::
      ScoreSum(postings, id, bound)
  }

  lemma SumsNullIffNoScore(postings: map<(nat, nat), Posting>, bound: nat)
    requires forall k :: k in postings ==> k.0 < bound
    ensures forall id: nat :: ScoreSum(postings, id, bound).None? <==>
      forall k :: k in postings && k.1 == id ==> postings[k].score.None?
  {
    forall id: nat
      ensures ScoreSum(postings, id, bound).None? <==>
        forall k :: k in postings && k.1 == id ==> postings[k].score.None?
    {
      SumNullIffNoScore(postings, id, bound);
    }
  }

  /** After `tf_idf`, every page that `combine_scores` sums has a non-NULL sum. */
  lemma TotalsAfterTfIdf(ln: real -> real, pages: map<nat, PageRow>, postings: map<(nat, nat), Posting>, bound: nat)
    requires forall k :: k in postings ==> k.0 < bound
    ensures var t := Totals(pages, TfIdf(ln, pages, postings), bound);
      forall id :: id in t ==> t[id].Some?
  {
    var scored := TfIdf(ln, pages, postings);
    forall id | id in Totals(pages, scored, bound)
      ensures ScoreSum(scored, id, bound).Some?
    {
      var k :| k in scored && k.1 == id;
      CrawledPositive(pages, id);
      ScoreSumNull(scored, id, bound);
      assert (k.0, id) == k;
    }
  }

  // ---------------------------------------------------------------------------------------
  // max / min of the sums

  /** A map with two distinct keys has at least two entries. */
  lemma TwoKeys<K, V>(m: map<K, V>, a: K, b: K)
    requires a in m && b in m && a != b
    ensures |m| >= 2
  {
    var rest := m.Keys - {a};
    assert b in rest;
    NonEmptyCard(rest, b);
    assert m.Keys == rest + {a};
    assert |m.Keys| == |rest| + 1;
  }

  lemma NonEmptyCard<T>(s: set<T>, x: T)
    requires x in s
    ensures |s| >= 1
  {
    assert s != {};
  }

  /** Set extensionality for the empty set. */
  lemma NoMember(s: set<real>)
    ensures (forall y :: y !in s) ==> s == {}
  {
    if forall y :: y !in s {
      var e: set<real> := {};
      assert forall y :: y in s <==> y in e;
      assert s == e;
    }
  }

  /** A non-empty finite set of reals has a largest element. */
  lemma {:induction false} Largest(s: set<real>) returns (m: real)
    requires s != {}
    ensures m in s && forall y :: y in s ==> y <= m
    decreases |s|
  {
    NoMember(s);
    var x :| x in s;
    if s - {x} == {} {
      m := x;
      forall y | y in s
        ensures y <= m
      {
        assert y !in s - {x};
      }
    } else {
      var rest := Largest(s - {x});
      m := if x <= rest then rest else x;
      forall y | y in s
        ensures y <= m
      {
        if y != x {
          assert y in s - {x};
        }
      }
    }
  }

  /** A non-empty finite set of reals has a smallest element. */
  lemma {:induction false} Smallest(s: set<real>) returns (m: real)
    requires s != {}
    ensures m in s && forall y :: y in s ==> m <= y
    decreases |s|
  {
    NoMember(s);
    var x :| x in s;
    if s - {x} == {} {
      m := x;
      forall y | y in s
        ensures m <= y
      {
        assert y !in s - {x};
      }
    } else {
      var rest := Smallest(s - {x});
      m := if rest <= x then rest else x;
      forall y | y in s
        ensures m <= y
      {
        if y != x {
          assert y in s - {x};
        }
      }
    }
  }

  lemma MaxExists(s: set<real>)
    requires s != {}
    ensures exists m :: m in s && forall y :: y in s ==> y <= m
  {
    var m := Largest(s);
  }

  lemma MinExists(s: set<real>)
    requires s != {}
    ensures exists m :: m in s && forall y :: y in s ==> m <= y
  {
    var m := Smallest(s);
  }

  /** Python's `max` over the sums. */
  function Max(s: set<real>): (m: real)
    requires s != {}
    ensures m in s && forall y :: y in s ==> y <= m
  {
    MaxExists(s);
    var m :| m in s && forall y :: y in s ==> y <= m;
    m
  }

  /** Python's `min` over the sums. */
  function Min(s: set<real>): (m: real)
    requires s != {}
    ensures m in s && forall y :: y in s ==> m <= y
  {
    MinExists(s);
    var m :| m in s && forall y :: y in s ==> m <= y;
    m
  }

  // ---------------------------------------------------------------------------------------
  // combine_scores

  /** Why `combine_scores` stops in its `except` branch and writes nothing. */
  datatype CombineError =
    | NoScores   // `max()` of an empty sequence
    | Unordered  // `max()` comparing a NULL sum with another sum

  predicate AllPresent(totals: map<nat, Option<real>>) {
    forall id :: id in totals ==> totals[id].Some?
  }

  function Values(totals: map<nat, Option<real>>): (s: set<real>)
    requires AllPresent(totals)
    ensures totals != map[] ==> s != {}
  {
    var s := set id | id in totals :: totals[id].value;
    assert totals != map[] ==> exists id :: id in totals && totals[id].value in s;
    s
  }

  /** Lines 119-125: the min-max normalised sums. A single page (whatever its sum) or a tie
      gives 1.0 to every page; an empty result or a NULL among several sums raises. */
  function Normalize(totals: map<nat, Option<real>>): (r: Result<map<nat, real>, CombineError>)
    ensures r == Failure(NoScores) <==> |totals| == 0
    ensures r == Failure(Unordered) <==> |totals| >= 2 && !AllPresent(totals)
    ensures r.Success? ==> r.value.Keys == totals.Keys
    ensures r.Success? ==> forall id :: id in r.value ==> 0.0 <= r.value[id] <= 1.0
  {
    if |totals| == 0 then Failure(NoScores)
    else if |totals| == 1 then Success(map id | id in totals :: 1.0)
    else if !AllPresent(totals) then Failure(Unordered)
    else
      var hi := Max(Values(totals));
      var lo := Min(Values(totals));
      if hi == lo then Success(map id | id in totals :: 1.0)
      else
        assert forall id :: id in totals ==> lo <= totals[id].value <= hi by {
          forall id | id in totals ensures lo <= totals[id].value <= hi {
            ValuesBetween(totals, id);
          }
        }
        Success(Spread(totals, lo, hi))
  }

  /** Every sum lies between the smallest and the largest. */
  lemma ValuesBetween(totals: map<nat, Option<real>>, id: nat)
    requires AllPresent(totals) && id in totals
    ensures Min(Values(totals)) <= totals[id].value <= Max(Values(totals))
  {
    assert totals[id].value in Values(totals);
  }

  /** `(score - min_score) / (max_score - min_score)`. */
  function Scale(v: real, lo: real, hi: real): (r: real)
    requires lo < hi
    ensures lo <= v <= hi ==> 0.0 <= r <= 1.0
    ensures v == lo ==> r == 0.0
    ensures v == hi ==> r == 1.0
  {
    var r := (v - lo) / (hi - lo);
    if lo <= v <= hi then UnitQuotient(v - lo, hi - lo); r else r
  }

  lemma UnitQuotient(x: real, d: real)
    requires 0.0 <= x <= d && d > 0.0
    ensures 0.0 <= x / d <= 1.0
    ensures x == d ==> x / d == 1.0
  {
  }

  /** The normalised sums of a non-tied result with bounds `lo < hi`. */
  function Spread(totals: map<nat, Option<real>>, lo: real, hi: real): (r: map<nat, real>)
    requires AllPresent(totals) && lo < hi
    requires forall id :: id in totals ==> lo <= totals[id].value <= hi
    ensures r.Keys == totals.Keys
    ensures forall id :: id in r ==> 0.0 <= r[id] <= 1.0
  {
    map id | id in totals :: Scale(totals[id].value, lo, hi)
  }

  /** When every sum is the same, every page normalises to 1.0. */
  lemma NormalizeTies(totals: map<nat, Option<real>>, v: Option<real>)
    requires |totals| > 0
    requires |totals| == 1 || v.Some?
    requires forall id :: id in totals ==> totals[id] == v
    ensures Normalize(totals).Success?
    ensures forall id :: id in totals ==> Normalize(totals).value[id] == 1.0
  {
    if |totals| >= 2 {
      assert Values(totals) == {v.value} by {
        var a :| a in totals;
        assert totals[a].value in Values(totals);
      }
    }
  }

  /** Without a tie, Normalize spreads the sums between the smallest and the largest. */
  lemma NormalizeUnfold(totals: map<nat, Option<real>>, lo: nat, hi: nat)
    requires AllPresent(totals)
    requires lo in totals && hi in totals
    requires forall id :: id in totals ==> totals[lo].value <= totals[id].value <= totals[hi].value
    requires totals[lo].value < totals[hi].value
    ensures |totals| >= 2
    ensures Max(Values(totals)) == totals[hi].value && Min(Values(totals)) == totals[lo].value
    ensures Normalize(totals) == Success(Spread(totals, totals[lo].value, totals[hi].value))
  {
    TwoKeys(totals, lo, hi);
    var vs := Values(totals);
    assert totals[lo].value in vs && totals[hi].value in vs;
  }

  /** Without a tie, the smallest sum normalises to 0, the largest to 1, and the order of
      the sums is kept. */
  lemma NormalizeSpread(totals: map<nat, Option<real>>, lo: nat, hi: nat)
    requires AllPresent(totals)
    requires lo in totals && hi in totals
    requires forall id :: id in totals ==> totals[lo].value <= totals[id].value <= totals[hi].value
    requires totals[lo].value < totals[hi].value
    ensures Normalize(totals).Success?
    ensures Normalize(totals).value[lo] == 0.0 && Normalize(totals).value[hi] == 1.0
    ensures forall a, b :: a in totals && b in totals && totals[a].value <= totals[b].value ==>
      Normalize(totals).value[a] <= Normalize(totals).value[b]
  {
    NormalizeUnfold(totals, lo, hi);
    var mn := totals[lo].value;
    var mx := totals[hi].value;
    var n := Spread(totals, mn, mx);
    forall a, b | a in totals && b in totals && totals[a].value <= totals[b].value
      ensures n[a] <= n[b]
    {
      DivideMonotone(totals[a].value - mn, totals[b].value - mn, mx - mn);
    }
  }

  lemma DivideMonotone(x: real, y: real, d: real)
    requires d > 0.0 && x <= y
    ensures x / d <= y / d
  {
  }

  /** `combine_scores(..., alpha)`: the final_rank written for each page, which is the blend
      of its normalised sum and its RANKS row, for the pages that have both. */
  function Combine(totals: map<nat, Option<real>>, ranks: map<nat, real>, alpha: real)
    : (r: Result<map<nat, real>, CombineError>)
    ensures r.Success? <==> Normalize(totals).Success?
    ensures r.Success? ==> forall id :: id in r.value <==> id in totals && id in ranks
  {
    match Normalize(totals)
    case Failure(e) => Failure(e)
    case Success(norm) => Success(Blend(norm, ranks, alpha))
  }

  /** `alpha * normalized + (1 - alpha) * rank`. */
  function Mix(alpha: real, normalized: real, rank: real): real {
    alpha * normalized + (1.0 - alpha) * rank
  }

  /** The blend for the pages with a RANKS row. */
  function Blend(norm: map<nat, real>, ranks: map<nat, real>, alpha: real): (r: map<nat, real>)
    ensures r.Keys == norm.Keys * ranks.Keys
  {
    map id | id in norm && id in ranks :: Mix(alpha, norm[id], ranks[id])
  }

  lemma CombineUnfold(totals: map<nat, Option<real>>, ranks: map<nat, real>, alpha: real)
    requires Normalize(totals).Success?
    ensures Combine(totals, ranks, alpha) == Success(Blend(Normalize(totals).value, ranks, alpha))
  {
  }

  /** Each written value is the blend of the page's normalised sum and its RANKS row, and
      lies between the two when `0 <= alpha <= 1`. */
  lemma CombineBlend(totals: map<nat, Option<real>>, ranks: map<nat, real>, alpha: real, id: nat)
    requires 0.0 <= alpha <= 1.0
    requires Combine(totals, ranks, alpha).Success? && id in Combine(totals, ranks, alpha).value
    ensures id in Normalize(totals).value && id in ranks
    ensures Combine(totals, ranks, alpha).value[id] == Mix(alpha, Normalize(totals).value[id], ranks[id])
    ensures var v := Combine(totals, ranks, alpha).value[id];
      var n := Normalize(totals).value[id];
      n <= v <= ranks[id] || ranks[id] <= v <= n
  {
    var norm := Normalize(totals).value;
    CombineUnfold(totals, ranks, alpha);
    MixBetween(alpha, norm[id], ranks[id]);
  }

  /** A convex combination lies between its two ends. */
  lemma MixBetween(alpha: real, a: real, b: real)
    requires 0.0 <= alpha <= 1.0
    ensures a <= Mix(alpha, a, b) <= b || b <= Mix(alpha, a, b) <= a
  {
    var v := Mix(alpha, a, b);
    assert v - a == (1.0 - alpha) * (b - a);
    assert v - b == alpha * (a - b);
    if a <= b {
      ProductNonNegative(1.0 - alpha, b - a);
      ProductNonNegative(alpha, b - a);
    } else {
      ProductNonNegative(1.0 - alpha, a - b);
      ProductNonNegative(alpha, a - b);
    }
  }

  lemma ProductNonNegative(x: real, y: real)
    requires x >= 0.0 && y >= 0.0
    ensures x * y >= 0.0
  {
  }

  /** Run right after `tf_idf`, `combine_scores` raises only when no scored page has a
      posting. */
  lemma CombineAfterTfIdf(ln: real -> real, pages: map<nat, PageRow>, postings: map<(nat, nat), Posting>,
                          bound: nat, ranks: map<nat, real>, alpha: real)
    requires forall k :: k in postings ==> k.0 < bound
    ensures var t := Totals(pages, TfIdf(ln, pages, postings), bound);
      Combine(t, ranks, alpha).Failure? <==> t == map[]
  {
    var t := Totals(pages, TfIdf(ln, pages, postings), bound);
    TotalsAfterTfIdf(ln, pages, postings, bound);
    assert AllPresent(t);
    assert |t| == 0 <==> t == map[];
  }

  /** `UPDATE URLs SET final_rank = ? WHERE id = ?` for every written value. */
  function SetFinalRanks(pages: map<nat, PageRow>, final: map<nat, real>): (r: map<nat, PageRow>)
    ensures r.Keys == pages.Keys
    ensures forall id :: id in pages && id in final ==> r[id] == pages[id].(finalRank := Some(final[id]))
    ensures forall id :: id in pages && id !in final ==> r[id] == pages[id]
  {
    map id | id in pages :: if id in final then pages[id].(finalRank := Some(final[id])) else pages[id]
  }

  /** The URL rows after `combine_scores`: unchanged when it raises; otherwise every scored page
      with a posting and a RANKS row gets the blend of its normalised sum and its rank as
      final_rank, and no other row changes. */
  function CombineScores(pages: map<nat, PageRow>, postings: map<(nat, nat), Posting>, bound: nat,
                         ranks: map<nat, real>, alpha: real): (r: map<nat, PageRow>)
    requires forall k :: k in postings ==> k.0 < bound
    ensures r.Keys == pages.Keys
    ensures forall id :: id in pages && !(Scored(pages, id) && id in ranks) ==> r[id] == pages[id]
    ensures var totals := Totals(pages, postings, bound);
      && (Normalize(totals).Failure? ==> r == pages)
      && (Normalize(totals).Success? ==>
            forall id :: id in pages ==>
              r[id] == if id in totals && id in ranks
                       then pages[id].(finalRank := Some(Mix(alpha, Normalize(totals).value[id], ranks[id])))
                       else pages[id])
  {
    var totals := Totals(pages, postings, bound);
    match Combine(totals, ranks, alpha)
    case Failure(_) => pages
    case Success(final) =>
      CombineUnfold(totals, ranks, alpha);
      SetFinalRanks(pages, final)
  }
}
