/**
  `parse_links` (main.py): hyperlink normalisation, the blocked-URL filter, and the batches in
  which discovered URLs are inserted, linked from the current page and enqueued.
*/
module Links {
  import opened Wrappers
  import opened Text
  import opened Tables

  /** BATCH_SIZE; a batch is flushed once the buffer holds more than this many URLs. */
  const BatchSize: nat := 500

  /** One hyperlink's `href` made absolute against `origin` (`<scheme>://<netloc>` of the
      current page), or None when the link is skipped. */
  function Normalize(href: string, origin: string): Option<string> {
    if StartsWith(href, "#") then None
    else if StartsWith(href, "//") then Some("https:" + href)
    else if StartsWith(href, "/") then Some(origin + href)
    else if !StartsWith(href, "http") then None
    else Some(href)
  }

  /** A link is skipped exactly when it is a fragment, or neither root-relative nor starting
      with `http`; a kept link starts with `http` whenever the origin does. */
  lemma NormalizeSpec(href: string, origin: string)
    ensures Normalize(href, origin).None? <==>
      StartsWith(href, "#") || (!StartsWith(href, "/") && !StartsWith(href, "http"))
    ensures StartsWith(origin, "http") && Normalize(href, origin).Some? ==>
      StartsWith(Normalize(href, origin).value, "http")
  {
    if StartsWith(href, "//") {
      assert href[0] == '/';
      assert StartsWith(href, "/");
    }
    if StartsWith(origin, "http") && StartsWith(href, "/") {
      assert (origin + href)[..4] == origin[..4];
    }
  }

  /** Normalising a normalised link changes nothing. */
  lemma NormalizeIdempotent(href: string, origin: string)
    requires StartsWith(origin, "http")
    requires Normalize(href, origin).Some?
    ensures Normalize(Normalize(href, origin).value, origin) == Normalize(href, origin)
  {
    NormalizeSpec(href, origin);
    var u := Normalize(href, origin).value;
    assert u[0] == 'h';
  }

  /** The URLs that enter the buffer, in link order: normalised links not in `blocked`. */
  function Kept(hrefs: seq<string>, origin: string, blocked: set<string>): (kept: seq<string>)
    ensures |kept| <= |hrefs|
    decreases |hrefs|
  {
    if |hrefs| == 0 then []
    else
      var here := match Normalize(hrefs[0], origin)
                  case Some(u) => if u !in blocked then [u] else []
                  case None => [];
      here + Kept(hrefs[1..], origin, blocked)
  }

  lemma {:induction false} KeptSpec(hrefs: seq<string>, origin: string, blocked: set<string>)
    ensures forall u :: u in Kept(hrefs, origin, blocked) <==>
      u !in blocked && exists i :: 0 <= i < |hrefs| && Normalize(hrefs[i], origin) == Some(u)
    decreases |hrefs|
  {
    if |hrefs| > 0 {
      KeptSpec(hrefs[1..], origin, blocked);
      forall u
        ensures u in Kept(hrefs, origin, blocked) <==>
          u !in blocked && exists i :: 0 <= i < |hrefs| && Normalize(hrefs[i], origin) == Some(u)
      {
        if u !in blocked && exists i :: 0 <= i < |hrefs| && Normalize(hrefs[i], origin) == Some(u) {
          var i :| 0 <= i < |hrefs| && Normalize(hrefs[i], origin) == Some(u);
          if i > 0 {
            assert hrefs[1..][i - 1] == hrefs[i];
          }
        }
        if u in Kept(hrefs[1..], origin, blocked) {
          var i :| 0 <= i < |hrefs| - 1 && Normalize(hrefs[1..][i], origin) == Some(u);
          assert hrefs[i + 1] == hrefs[1..][i];
        }
      }
    }
  }

  /** Consecutive pieces of `xs` of BatchSize + 1 URLs each, the last one possibly shorter:
      the batches the buffer is flushed in. */
  function Chunks(xs: seq<string>): seq<seq<string>>
    decreases |xs|
  {
    if |xs| == 0 then []
    else if |xs| <= BatchSize + 1 then [xs]
    else [xs[..BatchSize + 1]] + Chunks(xs[BatchSize + 1..])
  }

  function Flatten(batches: seq<seq<string>>): seq<string> {
    if |batches| == 0 then [] else batches[0] + Flatten(batches[1..])
  }

  /** The batches partition the kept URLs, in order; each is non-empty and holds at most
      BatchSize + 1 URLs, and all but the last hold exactly that many. */
  lemma {:induction false} ChunksSpec(xs: seq<string>)
    ensures Flatten(Chunks(xs)) == xs
    ensures forall i :: 0 <= i < |Chunks(xs)| ==> 1 <= |Chunks(xs)[i]| <= BatchSize + 1
    ensures forall i :: 0 <= i < |Chunks(xs)| - 1 ==> |Chunks(xs)[i]| == BatchSize + 1
    decreases |xs|
  {
    if |xs| > BatchSize + 1 {
      var rest := xs[BatchSize + 1..];
      ChunksSpec(rest);
      var cs := Chunks(xs);
      assert cs == [xs[..BatchSize + 1]] + Chunks(rest);
      assert cs[1..] == Chunks(rest);
      assert xs == xs[..BatchSize + 1] + rest;
      forall i | 0 < i < |cs|
        ensures cs[i] == Chunks(rest)[i - 1]
      {
      }
    } else if |xs| > 0 {
      assert Chunks(xs)[1..] == [];
    }
  }

  lemma ChunksSplit(xs: seq<string>)
    requires |xs| >= BatchSize + 1
    ensures Chunks(xs) == [xs[..BatchSize + 1]] + Chunks(xs[BatchSize + 1..])
  {
    if |xs| == BatchSize + 1 {
      assert xs[..BatchSize + 1] == xs;
    }
  }

  /** The store together with the frontier queue. */
  datatype LinkState = LinkState(store: Store, frontier: seq<string>)

  /** The CONNECTIONS rows one flush inserts: the `SELECT id FROM URLs WHERE url IN (...)`
      yields each target row once, so there is one edge per distinct target. */
  function BatchEdges(s: Store, current: nat, batch: seq<string>): multiset<(nat, nat)>
    requires forall u :: u in batch ==> u in s.urls
  {
    multiset(set u | u in batch :: (current, s.urls[u].id))
  }

  /** The edges a sequence of batches inserts, with ids read from store `s`. */
  function AllEdges(s: Store, current: nat, batches: seq<seq<string>>): multiset<(nat, nat)>
    requires forall b, u :: b in batches && u in b ==> u in s.urls
  {
    if |batches| == 0 then multiset{}
    else BatchEdges(s, current, batches[0]) + AllEdges(s, current, batches[1..])
  }

  /** One flush of lines 155-173 (or 180-196): insert the batch, link it from the current
      page, and enqueue it. */
  function Flush(st: LinkState, current: nat, batch: seq<string>): LinkState {
    var s1 := AddUrls(st.store, batch);
    LinkState(s1.(edges := s1.edges + BatchEdges(s1, current, batch)), st.frontier + batch)
  }

  /** A flush enqueues the batch, gives each of its URLs a row, keeps existing rows and the
      block list, adds the batch's edges, and changes no other table. */
  lemma FlushSpec(st: LinkState, current: nat, batch: seq<string>)
    ensures var r := Flush(st, current, batch);
      && r.frontier == st.frontier + batch
      && r.store.blocked == st.store.blocked
      && KeepsRows(st.store, r.store)
      && (forall u :: u in batch ==> u in r.store.urls)
      && r.store.urls.Keys == st.store.urls.Keys + (set u | u in batch)
      && r.store.edges == st.store.edges + BatchEdges(r.store, current, batch)
      && r.store.(urls := st.store.urls, nextUrlId := st.store.nextUrlId, edges := st.store.edges) == st.store
      && (IdsFresh(st.store) ==> IdsFresh(r.store))
  {
  }

  lemma FlushKeepsBlocked(st: LinkState, current: nat, batch: seq<string>)
    ensures Flush(st, current, batch).store.blocked == st.store.blocked
  {
    FlushSpec(st, current, batch);
  }

  lemma BatchEdgesStable(s: Store, t: Store, current: nat, batch: seq<string>)
    requires forall u :: u in batch ==> u in s.urls
    requires KeepsRows(s, t)
    ensures BatchEdges(s, current, batch) == BatchEdges(t, current, batch)
  {
    assert (set u | u in batch :: (current, s.urls[u].id)) == (set u | u in batch :: (current, t.urls[u].id));
  }

  /** All flushes, in order. */
  function FlushAll(st: LinkState, current: nat, batches: seq<seq<string>>): LinkState
    decreases |batches|
  {
    if |batches| == 0 then st else FlushAll(Flush(st, current, batches[0]), current, batches[1..])
  }

  /** What the flushes of `batches` do together: the frontier grows by the batches in order,
      every URL of them gets a row, existing rows and the block list stay, and the edges grow
      by those of each batch. */
  lemma {:induction false} FlushAllSpec(st: LinkState, current: nat, batches: seq<seq<string>>)
    ensures var r := FlushAll(st, current, batches);
      && r.frontier == st.frontier + Flatten(batches)
      && r.store.blocked == st.store.blocked
      && KeepsRows(st.store, r.store)
      && (forall b, u :: b in batches && u in b ==> u in r.store.urls)
      && r.store.urls.Keys == st.store.urls.Keys + (set u | u in Flatten(batches))
      && r.store.edges == st.store.edges + AllEdges(r.store, current, batches)
      && r.store.(urls := st.store.urls, nextUrlId := st.store.nextUrlId, edges := st.store.edges) == st.store
      && (IdsFresh(st.store) ==> IdsFresh(r.store))
    decreases |batches|
  {
    if |batches| > 0 {
      var mid := Flush(st, current, batches[0]);
      FlushSpec(st, current, batches[0]);
      FlushAllSpec(mid, current, batches[1..]);
      var r := FlushAll(mid, current, batches[1..]);
      assert Flatten(batches) == batches[0] + Flatten(batches[1..]);
      BatchEdgesStable(mid.store, r.store, current, batches[0]);
      assert forall b :: b in batches ==> b == batches[0] || b in batches[1..];
    }
  }

  /** The loop of lines 136-178 from link `i` on, then the final flush of lines 179-196;
      `buffer` holds the URLs not yet flushed. */
  function LinksFrom(hrefs: seq<string>, i: nat, origin: string, current: nat, buffer: seq<string>, st: LinkState)
    : LinkState
    requires i <= |hrefs|
    decreases |hrefs| - i
  {
    if i == |hrefs| then
      if |buffer| > 0 then Flush(st, current, buffer) else st
    else
      match Normalize(hrefs[i], origin)
      case None => LinksFrom(hrefs, i + 1, origin, current, buffer, st)
      case Some(u) =>
        var buffer' := if u !in st.store.blocked then buffer + [u] else buffer;
        if |buffer'| > BatchSize then LinksFrom(hrefs, i + 1, origin, current, [], Flush(st, current, buffer'))
        else LinksFrom(hrefs, i + 1, origin, current, buffer', st)
  }

  /** `parse_links(args, current_url, hyperlinks)`; nothing happens when the current URL has
      no row. */
  function ParseLinks(st: LinkState, currentUrl: string, origin: string, hrefs: seq<string>): (r: LinkState)
    ensures currentUrl !in st.store.urls ==> r == st
  {
    if currentUrl !in st.store.urls then st
    else LinksFrom(hrefs, 0, origin, st.store.urls[currentUrl].id, [], st)
  }

  lemma KeptStep(hrefs: seq<string>, i: nat, origin: string, blocked: set<string>)
    requires i < |hrefs|
    ensures Kept(hrefs[i..], origin, blocked) ==
      (match Normalize(hrefs[i], origin)
       case Some(u) => if u !in blocked then [u] else []
       case None => []) + Kept(hrefs[i + 1..], origin, blocked)
  {
    var tail := hrefs[i..];
    assert tail[0] == hrefs[i];
    assert tail[1..] == hrefs[i + 1..];
  }

  lemma FlushAllCons(st: LinkState, current: nat, batch: seq<string>, rest: seq<seq<string>>)
    ensures FlushAll(st, current, [batch] + rest) == FlushAll(Flush(st, current, batch), current, rest)
  {
    assert ([batch] + rest)[0] == batch;
    assert ([batch] + rest)[1..] == rest;
  }

  /** The step of the loop that fills the buffer to BatchSize + 1 and flushes it. */
  lemma FlushStep(st: LinkState, current: nat, full: seq<string>, rest: seq<string>)
    requires |full| == BatchSize + 1
    ensures FlushAll(st, current, Chunks(full + rest))
         == FlushAll(Flush(st, current, full), current, Chunks(rest))
  {
    ChunksSplit(full + rest);
    assert (full + rest)[..BatchSize + 1] == full;
    assert (full + rest)[BatchSize + 1..] == rest;
    FlushAllCons(st, current, full, Chunks(rest));
  }

  lemma {:induction false} LinksFromSpec(hrefs: seq<string>, i: nat, origin: string, current: nat,
                                         buffer: seq<string>, st: LinkState)
    requires i <= |hrefs|
    requires |buffer| <= BatchSize
    ensures LinksFrom(hrefs, i, origin, current, buffer, st)
         == FlushAll(st, current, Chunks(buffer + Kept(hrefs[i..], origin, st.store.blocked)))
    decreases |hrefs| - i
  {
    var blocked := st.store.blocked;
    if i == |hrefs| {
      assert hrefs[i..] == [];
      assert buffer + [] == buffer;
      if |buffer| > 0 {
        assert Chunks(buffer) == [buffer];
        FlushAllCons(st, current, buffer, []);
      }
    } else {
      KeptStep(hrefs, i, origin, blocked);
      var rest := Kept(hrefs[i + 1..], origin, blocked);
      match Normalize(hrefs[i], origin)
      case None =>
        LinksFromSpec(hrefs, i + 1, origin, current, buffer, st);
      case Some(u) =>
        if u in blocked {
          LinksFromSpec(hrefs, i + 1, origin, current, buffer, st);
        } else {
          var buffer' := buffer + [u];
          assert buffer + ([u] + rest) == buffer' + rest;
          if |buffer'| > BatchSize {
            FlushKeepsBlocked(st, current, buffer');
            LinksFromSpec(hrefs, i + 1, origin, current, [], Flush(st, current, buffer'));
            assert [] + rest == rest;
            FlushStep(st, current, buffer', rest);
          } else {
            LinksFromSpec(hrefs, i + 1, origin, current, buffer', st);
          }
        }
    }
  }

  /** `parse_links` flushes the kept URLs in the batches `Chunks` describes: the loop's
      flush whenever the buffer exceeds BatchSize, then the final flush of what is left. */
  lemma ParseLinksBatches(st: LinkState, currentUrl: string, origin: string, hrefs: seq<string>)
    requires currentUrl in st.store.urls
    ensures ParseLinks(st, currentUrl, origin, hrefs) ==
      FlushAll(st, st.store.urls[currentUrl].id, Chunks(Kept(hrefs, origin, st.store.blocked)))
  {
    var kept := Kept(hrefs, origin, st.store.blocked);
    assert hrefs[0..] == hrefs;
    assert [] + kept == kept;
    LinksFromSpec(hrefs, 0, origin, st.store.urls[currentUrl].id, [], st);
  }

  /** What one call of `parse_links` does, for a current page with id `current`:
      the frontier grows by exactly the kept URLs in link order, none of them blocked; every
      one has a URL row afterwards; existing rows, the blocked list and every other table are
      untouched, and the edges grow by one edge per distinct target of each batch. */
  lemma ParseLinksSpec(st: LinkState, currentUrl: string, origin: string, hrefs: seq<string>)
    requires currentUrl in st.store.urls
    ensures var r := ParseLinks(st, currentUrl, origin, hrefs);
      var kept := Kept(hrefs, origin, st.store.blocked);
      var current := st.store.urls[currentUrl].id;
      && r.frontier == st.frontier + kept
      && (forall u :: u in kept ==> u in r.store.urls && u !in r.store.blocked)
      && r.store.blocked == st.store.blocked
      && KeepsRows(st.store, r.store)
      && r.store.urls.Keys == st.store.urls.Keys + (set u | u in kept)
      && (forall b, u :: b in Chunks(kept) && u in b ==> u in r.store.urls)
      && r.store.edges == st.store.edges + AllEdges(r.store, current, Chunks(kept))
      && r.store.(urls := st.store.urls, nextUrlId := st.store.nextUrlId, edges := st.store.edges) == st.store
      && (IdsFresh(st.store) ==> IdsFresh(r.store))
  {
    var kept := Kept(hrefs, origin, st.store.blocked);
    ParseLinksBatches(st, currentUrl, origin, hrefs);
    FlushAllSpec(st, st.store.urls[currentUrl].id, Chunks(kept));
    ChunksSpec(kept);
    KeptSpec(hrefs, origin, st.store.blocked);
  }

  /** Each flush adds exactly one edge from the current page to each distinct target id of
      its batch, and no other edge. */
  lemma BatchEdgesOnePerTarget(s: Store, current: nat, batch: seq<string>, source: nat, target: nat)
    requires forall u :: u in batch ==> u in s.urls
    ensures BatchEdges(s, current, batch)[(source, target)] ==
      if source == current && exists u :: u in batch && s.urls[u].id == target then 1 else 0
  {
  }
}
