/**
  `ranking` (ranking/pagerank.py lines 10-64) exactly as written, over exact reals.

  The written sweep differs from textbook PageRank in three ways that the model keeps:
  a node's value adds `damping * pagerank[node] / outdeg(source)` for each incoming source,
  reading the node's OWN rank; `dangling_sum` is computed once, before the first sweep; and
  after the first sweep `pagerank = updated_pagerank` makes both names denote one dict, so
  the next change is measured between a dict and itself.

  The SQL queries are external: the crawled ids and the CONNECTIONS rows arrive as sequences
  in the order the cursor yields them. `round(..., 6)` is not modelled.
*/
module PageRank {
  import opened Wrappers

  /** The default arguments of `ranking`. */
  const Damping: real := 0.85
  const Iterations: nat := 20
  const Tolerance: real := 0.000001

  /** A CONNECTIONS row `(source_id, target_id)`. */
  type Edge = (nat, nat)

  predicate DistinctIds(xs: seq<nat>) {
    forall i, j :: 0 <= i < j < |xs| ==> xs[i] != xs[j]
  }

  // ---------------------------------------------------------------------------------------
  // Preprocessing (lines 21-35).

  /** Reference: the number of rows leaving `id`. */
  function EdgesFrom(edges: seq<Edge>, id: nat): nat {
    if |edges| == 0 then 0
    else (if edges[0].0 == id then 1 else 0) + EdgesFrom(edges[1..], id)
  }

  /** Reference: the sources of the rows entering `id`, in row order. */
  function SourcesInto(edges: seq<Edge>, id: nat): seq<nat> {
    if |edges| == 0 then []
    else (if edges[0].1 == id then [edges[0].0] else []) + SourcesInto(edges[1..], id)
  }

  /** Lines 24-27: `num_outgoing_links` from `GROUP BY source_id`, counted row by row. */
  function OutDegrees(edges: seq<Edge>): map<nat, nat>
    decreases |edges|
  {
    if |edges| == 0 then map[]
    else
      var out := OutDegrees(edges[..|edges| - 1]);
      var s := edges[|edges| - 1].0;
      out[s := (if s in out then out[s] else 0) + 1]
  }

  /** Lines 29-34: `incoming_links`, one appended source per row. */
  function Incoming(edges: seq<Edge>): map<nat, seq<nat>>
    decreases |edges|
  {
    if |edges| == 0 then map[]
    else
      var inc := Incoming(edges[..|edges| - 1]);
      var e := edges[|edges| - 1];
      inc[e.1 := (if e.1 in inc then inc[e.1] else []) + [e.0]]
  }

  /** `dict.get(key, default)` for the two count maps. */
  function Get(m: map<nat, nat>, k: nat): nat {
    if k in m then m[k] else 0
  }

  function GetList(m: map<nat, seq<nat>>, k: nat): seq<nat> {
    if k in m then m[k] else []
  }

  lemma EdgesFromSnoc(edges: seq<Edge>, e: Edge, id: nat)
    ensures EdgesFrom(edges + [e], id) == EdgesFrom(edges, id) + (if e.0 == id then 1 else 0)
  {
    if |edges| > 0 {
      assert (edges + [e])[1..] == edges[1..] + [e];
      EdgesFromSnoc(edges[1..], e, id);
    }
  }

  lemma SourcesIntoSnoc(edges: seq<Edge>, e: Edge, id: nat)
    ensures SourcesInto(edges + [e], id) == SourcesInto(edges, id) + (if e.1 == id then [e.0] else [])
  {
    if |edges| > 0 {
      assert (edges + [e])[1..] == edges[1..] + [e];
      SourcesIntoSnoc(edges[1..], e, id);
    }
  }

  /** A source's out-degree is the number of rows leaving it; a node with no such row has no
      entry. */
  lemma {:induction false} OutDegreesSpec(edges: seq<Edge>, id: nat)
    ensures Get(OutDegrees(edges), id) == EdgesFrom(edges, id)
    ensures id in OutDegrees(edges) <==> EdgesFrom(edges, id) > 0
    decreases |edges|
  {
    if |edges| > 0 {
      var init, e := edges[..|edges| - 1], edges[|edges| - 1];
      assert edges == init + [e];
      OutDegreesSpec(init, id);
      EdgesFromSnoc(init, e, id);
    }
  }

  /** A target's incoming list holds the source of every row entering it, duplicates kept,
      in row order; only targets of some row have a list. */
  lemma {:induction false} IncomingSpec(edges: seq<Edge>, id: nat)
    ensures GetList(Incoming(edges), id) == SourcesInto(edges, id)
    ensures id in Incoming(edges) <==> |SourcesInto(edges, id)| > 0
    decreases |edges|
  {
    if |edges| > 0 {
      var init, e := edges[..|edges| - 1], edges[|edges| - 1];
      assert edges == init + [e];
      IncomingSpec(init, id);
      SourcesIntoSnoc(init, e, id);
    }
  }

  /** Line 35: crawled nodes with no outgoing row. */
  function Dangling(nodes: seq<nat>, out: map<nat, nat>): set<nat> {
    set n | n in nodes && Get(out, n) == 0
  }

  lemma DanglingSpec(nodes: seq<nat>, edges: seq<Edge>, n: nat)
    ensures n in Dangling(nodes, OutDegrees(edges)) <==> n in nodes && EdgesFrom(edges, n) == 0
  {
    OutDegreesSpec(edges, n);
  }

  // ---------------------------------------------------------------------------------------
  // Sums.

  function Sum(nodes: seq<nat>, p: map<nat, real>): real
    requires forall n :: n in nodes ==> n in p
  {
    if |nodes| == 0 then 0.0 else p[nodes[0]] + Sum(nodes[1..], p)
  }

  function Abs(x: real): real {
    if x < 0.0 then -x else x
  }

  /** `sum(abs(a[n] - b[n]) for n in nodes)`. */
  function Distance(nodes: seq<nat>, a: map<nat, real>, b: map<nat, real>): (d: real)
    requires forall n :: n in nodes ==> n in a && n in b
    ensures d >= 0.0
  {
    if |nodes| == 0 then 0.0 else Abs(a[nodes[0]] - b[nodes[0]]) + Distance(nodes[1..], a, b)
  }

  function Filter(nodes: seq<nat>, keep: set<nat>): (r: seq<nat>)
    ensures forall n :: n in r <==> n in nodes && n in keep
  {
    if |nodes| == 0 then []
    else (if nodes[0] in keep then [nodes[0]] else []) + Filter(nodes[1..], keep)
  }

  lemma {:induction false} SumConstant(nodes: seq<nat>, p: map<nat, real>, c: real)
    requires forall n :: n in nodes ==> n in p && p[n] == c
    ensures Sum(nodes, p) == |nodes| as real * c
    decreases |nodes|
  {
    if |nodes| > 0 {
      assert forall n :: n in nodes[1..] ==> n in nodes;
      SumConstant(nodes[1..], p, c);
    }
  }

  lemma {:induction false} DistanceSelf(nodes: seq<nat>, a: map<nat, real>)
    requires forall n :: n in nodes ==> n in a
    ensures Distance(nodes, a, a) == 0.0
    decreases |nodes|
  {
    if |nodes| > 0 {
      assert forall n :: n in nodes[1..] ==> n in nodes;
      DistanceSelf(nodes[1..], a);
    }
  }

  // ---------------------------------------------------------------------------------------
  // The sweep (lines 41-56).

  /** What stays fixed during the sweeps: damping, node count, the two link maps and the
      dangling sum. */
  datatype Graph = Graph(damping: real, count: nat, out: map<nat, nat>, incoming: map<nat, seq<nat>>, danglingSum: real)

  /** Lines 47-49 over `sources`: each source with positive out-degree adds
      `damping * own / outdeg(source)`. */
  function LinkTerms(g: Graph, sources: seq<nat>, own: real): real {
    if |sources| == 0 then 0.0
    else
      var s := sources[0];
      (if Get(g.out, s) > 0 then g.damping * own / (Get(g.out, s) as real) else 0.0) + LinkTerms(g, sources[1..], own)
  }

  /** Reference: the total weight `sum(1 / outdeg(source))` of a node's incoming rows. */
  function Weight(g: Graph, sources: seq<nat>): real {
    if |sources| == 0 then 0.0
    else
      var s := sources[0];
      (if Get(g.out, s) > 0 then 1.0 / (Get(g.out, s) as real) else 0.0) + Weight(g, sources[1..])
  }

  /** Lines 43-49: the value computed for `node` when `pagerank[node]` is `own`. */
  function NodeValue(g: Graph, node: nat, own: real): real
    requires g.count > 0
  {
    (1.0 - g.damping) / (g.count as real) + g.danglingSum + LinkTerms(g, GetList(g.incoming, node), own)
  }

  /** The value is affine in the node's own previous rank: the links only scale it. */
  lemma {:induction false} LinkTermsLinear(g: Graph, sources: seq<nat>, own: real)
    ensures LinkTerms(g, sources, own) == g.damping * own * Weight(g, sources)
    decreases |sources|
  {
    if |sources| > 0 {
      LinkTermsLinear(g, sources[1..], own);
      var s := sources[0];
      if Get(g.out, s) > 0 {
        var o := Get(g.out, s) as real;
        assert g.damping * own / o == g.damping * own * (1.0 / o);
      }
    }
  }

  lemma NodeValueSpec(g: Graph, node: nat, own: real)
    requires g.count > 0
    ensures NodeValue(g, node, own) ==
      (1.0 - g.damping) / (g.count as real) + g.danglingSum + g.damping * own * Weight(g, GetList(g.incoming, node))
  {
    LinkTermsLinear(g, GetList(g.incoming, node), own);
  }

  /** The two dicts of the loop: the one first bound to `pagerank`, the one bound to
      `updated_pagerank`, and whether `pagerank` has been rebound to the latter (line 56). */
  datatype Ranks = Ranks(first: map<nat, real>, updated: map<nat, real>, aliased: bool)

  /** The dict the name `pagerank` denotes. */
  function Current(r: Ranks): map<nat, real> {
    if r.aliased then r.updated else r.first
  }

  predicate Covers(nodes: seq<nat>, m: map<nat, real>) {
    forall n :: n in nodes ==> n in m
  }

  /** Lines 42-51 from node `i` on, writing into `updated` while reading `pagerank`. */
  function SweepFrom(g: Graph, nodes: seq<nat>, i: nat, r: Ranks): (r': Ranks)
    requires g.count > 0 && i <= |nodes|
    requires Covers(nodes, Current(r))
    ensures Covers(nodes, Current(r')) && r'.first == r.first && r'.aliased == r.aliased
    ensures forall j :: i <= j < |nodes| ==> nodes[j] in r'.updated
    ensures forall k :: k in r.updated ==> k in r'.updated
    decreases |nodes| - i
  {
    if i == |nodes| then r
    else
      var n := nodes[i];
      var value := NodeValue(g, n, Current(r)[n]);
      SweepFrom(g, nodes, i + 1, r.(updated := r.updated[n := value]))
  }

  /** The loop of lines 41-56 with `left` iterations to go. */
  function Loop(g: Graph, nodes: seq<nat>, tolerance: real, left: nat, r: Ranks): (r': Ranks)
    requires g.count > 0
    requires Covers(nodes, Current(r))
    ensures Covers(nodes, Current(r'))
    decreases left
  {
    if left == 0 then r
    else
      var swept := SweepFrom(g, nodes, 0, r);
      assert Covers(nodes, swept.updated);
      if Distance(nodes, swept.updated, Current(swept)) < tolerance then swept
      else Loop(g, nodes, tolerance, left - 1, swept.(aliased := true))
  }

  function InitialRanks(nodes: seq<nat>): (p: map<nat, real>)
    requires |nodes| > 0
    ensures forall n :: n in nodes <==> n in p
    ensures forall n :: n in p ==> p[n] == 1.0 / (|nodes| as real)
  {
    map n | n in nodes :: 1.0 / (|nodes| as real)
  }

  /** The dangling nodes in crawl order. */
  function DanglingList(nodes: seq<nat>, edges: seq<Edge>): (ds: seq<nat>)
    ensures forall n :: n in ds ==> n in nodes
  {
    Filter(nodes, Dangling(nodes, OutDegrees(edges)))
  }

  /** Lines 11-38: the fixed part of the computation. */
  function Prepare(nodes: seq<nat>, edges: seq<Edge>, damping: real): (g: Graph)
    requires |nodes| > 0
    ensures g.count == |nodes|
  {
    Graph(damping, |nodes|, OutDegrees(edges), Incoming(edges), DanglingSum(nodes, edges, damping))
  }

  /** `dangling_sum = damping * sum(pagerank[n] for n in dangling_nodes) / num_nodes`, over the
      initial vector. */
  function DanglingSum(nodes: seq<nat>, edges: seq<Edge>, damping: real): real
    requires |nodes| > 0
  {
    Share(damping, Sum(DanglingList(nodes, edges), InitialRanks(nodes)), |nodes| as real)
  }

  /** `damping * mass / n`. */
  function Share(damping: real, mass: real, n: real): real
    requires n > 0.0
  {
    damping * mass / n
  }

  /** `ranking(...)`: the RANKS table after the run. With no crawled node nothing is
      written; otherwise every crawled node gets the value `pagerank` holds at the end. */
  function Ranking(ranks: map<nat, real>, nodes: seq<nat>, edges: seq<Edge>, damping: real, iterations: nat, tolerance: real)
    : (r: map<nat, real>)
    ensures |nodes| == 0 ==> r == ranks
    ensures forall n :: n in r <==> n in ranks || n in nodes
    ensures forall n :: n in ranks && n !in nodes ==> r[n] == ranks[n]
  {
    if |nodes| == 0 then ranks
    else
      var g := Prepare(nodes, edges, damping);
      var final := Current(Loop(g, nodes, tolerance, iterations, Ranks(InitialRanks(nodes), map[], false)));
      ranks + map n | n in nodes :: final[n]
  }

  // ---------------------------------------------------------------------------------------
  // What the loop amounts to.

  /** Reference: one sweep in which every node reads its own previous rank from `p`. */
  function SelfSweep(g: Graph, nodes: seq<nat>, p: map<nat, real>): (q: map<nat, real>)
    requires g.count > 0 && Covers(nodes, p)
    ensures forall n :: n in q <==> n in nodes
  {
    map n | n in nodes :: NodeValue(g, n, p[n])
  }

  /** Reference: `k` such sweeps. */
  function SelfSweeps(g: Graph, nodes: seq<nat>, k: nat, p: map<nat, real>): (q: map<nat, real>)
    requires g.count > 0 && Covers(nodes, p)
    ensures Covers(nodes, q)
  {
    if k == 0 then p else SelfSweeps(g, nodes, k - 1, SelfSweep(g, nodes, p))
  }

  /** A sweep writes each node once, after reading it: since ids are distinct, every node
      gets the value computed from its own rank before the sweep, whichever dict `pagerank`
      denotes. */
  lemma {:induction false} SweepFromSpec(g: Graph, nodes: seq<nat>, i: nat, r: Ranks)
    requires g.count > 0 && i <= |nodes| && DistinctIds(nodes)
    requires Covers(nodes, Current(r))
    ensures var r' := SweepFrom(g, nodes, i, r);
      && (forall j :: i <= j < |nodes| ==> r'.updated[nodes[j]] == NodeValue(g, nodes[j], Current(r)[nodes[j]]))
      && (forall k :: k in r.updated && k !in nodes[i..] ==> r'.updated[k] == r.updated[k])
      && (forall k :: k in r'.updated ==> k in r.updated || k in nodes[i..])
    decreases |nodes| - i
  {
    if i < |nodes| {
      var n := nodes[i];
      var value := NodeValue(g, n, Current(r)[n]);
      var r1 := r.(updated := r.updated[n := value]);
      assert forall j :: i + 1 <= j < |nodes| ==> Current(r1)[nodes[j]] == Current(r)[nodes[j]] by {
        forall j | i + 1 <= j < |nodes| ensures Current(r1)[nodes[j]] == Current(r)[nodes[j]] {
          assert nodes[j] != n;
        }
      }
      SweepFromSpec(g, nodes, i + 1, r1);
      assert forall k :: k in nodes[i + 1..] ==> k in nodes[i..];
      assert n !in nodes[i + 1..] by {
        forall j | i + 1 <= j < |nodes| ensures nodes[j] != n { }
      }
      assert forall k :: k in nodes[i..] ==> k == n || k in nodes[i + 1..];
    }
  }

  /** A whole sweep is a self-sweep of the dict `pagerank` denotes, provided `updated` holds
      no other key (true for the fresh dict and for the aliased one). */
  lemma SweepIsSelfSweep(g: Graph, nodes: seq<nat>, r: Ranks)
    requires g.count > 0 && DistinctIds(nodes)
    requires Covers(nodes, Current(r))
    requires forall k :: k in r.updated ==> k in nodes
    ensures SweepFrom(g, nodes, 0, r).updated == SelfSweep(g, nodes, Current(r))
  {
    SweepFromSpec(g, nodes, 0, r);
    assert nodes[0..] == nodes;
    var r' := SweepFrom(g, nodes, 0, r);
    forall n | n in nodes ensures r'.updated[n] == NodeValue(g, n, Current(r)[n]) {
      var j :| 0 <= j < |nodes| && nodes[j] == n;
    }
  }

  /** Once aliased, the measured change is zero; so with a positive tolerance the loop ends
      after the next sweep, and with a non-positive one it runs out its iterations. */
  lemma {:induction false} LoopAliased(g: Graph, nodes: seq<nat>, tolerance: real, left: nat, r: Ranks)
    requires g.count > 0 && DistinctIds(nodes)
    requires r.aliased && Covers(nodes, r.updated)
    requires forall k :: k in r.updated ==> k in nodes
    ensures Current(Loop(g, nodes, tolerance, left, r)) ==
      SelfSweeps(g, nodes, if tolerance > 0.0 then (if left == 0 then 0 else 1) else left, r.updated)
    decreases left
  {
    if left > 0 {
      var swept := SweepFrom(g, nodes, 0, r);
      SweepIsSelfSweep(g, nodes, r);
      DistanceSelf(nodes, swept.updated);
      assert Current(swept) == swept.updated;
      if tolerance <= 0.0 {
        LoopAliased(g, nodes, tolerance, left - 1, swept.(aliased := true));
      }
    }
  }

  /** The number of effective sweeps: none when there are no iterations or the first change
      is below the tolerance; otherwise two at most when the tolerance is positive (the
      second change is measured against itself), and every iteration when it is not. */
  function EffectiveSweeps(iterations: nat, tolerance: real, firstChange: real): nat {
    if iterations == 0 || firstChange < tolerance then 0
    else if tolerance > 0.0 then (if iterations < 2 then iterations else 2)
    else iterations
  }

  /** Lines 41-56: starting from the fresh `updated_pagerank`, the loop leaves in `pagerank`
      exactly `EffectiveSweeps` self-sweeps of the initial vector. */
  lemma LoopSpec(g: Graph, nodes: seq<nat>, tolerance: real, iterations: nat, p: map<nat, real>)
    requires g.count > 0 && DistinctIds(nodes)
    requires Covers(nodes, p)
    ensures var firstChange := Distance(nodes, SelfSweep(g, nodes, p), p);
      Current(Loop(g, nodes, tolerance, iterations, Ranks(p, map[], false))) ==
        SelfSweeps(g, nodes, EffectiveSweeps(iterations, tolerance, firstChange), p)
  {
    if iterations > 0 {
      var r := Ranks(p, map[], false);
      var swept := SweepFrom(g, nodes, 0, r);
      SweepIsSelfSweep(g, nodes, r);
      var q := SelfSweep(g, nodes, p);
      if Distance(nodes, q, p) >= tolerance {
        LoopAliased(g, nodes, tolerance, iterations - 1, swept.(aliased := true));
        assert SelfSweeps(g, nodes, 1, p) == q;
        var k := EffectiveSweeps(iterations, tolerance, Distance(nodes, q, p));
        assert SelfSweeps(g, nodes, k, p) == SelfSweeps(g, nodes, k - 1, q);
      }
    }
  }

  /** The initial vector gives any list of crawled nodes the mass `count / N`. */
  lemma {:induction false} UniformMass(nodes: seq<nat>, some: seq<nat>)
    requires |nodes| > 0
    requires forall n :: n in some ==> n in nodes
    ensures Sum(some, InitialRanks(nodes)) == (|some| as real) / (|nodes| as real)
  {
    var n := |nodes| as real;
    SumConstant(some, InitialRanks(nodes), 1.0 / n);
    TimesReciprocal(|some| as real, n);
  }

  lemma TimesReciprocal(c: real, n: real)
    requires n > 0.0
    ensures c * (1.0 / n) == c / n
  {
  }

  /** `dangling_sum` is computed once, from the initial vector: the damping share of the
      fraction of crawled nodes that are dangling. */
  lemma DanglingSumSpec(nodes: seq<nat>, edges: seq<Edge>, damping: real)
    requires |nodes| > 0
    ensures var n := |nodes| as real;
      DanglingSum(nodes, edges, damping) == Share(damping, (|DanglingList(nodes, edges)| as real) / n, n)
  {
    UniformMass(nodes, DanglingList(nodes, edges));
  }

  /** The RANKS rows written for a non-empty node list: every crawled node gets the value of
      `EffectiveSweeps` self-sweeps of the uniform vector `1/N`; in particular the uniform
      vector itself when the first change is below the tolerance. */
  lemma RankingSpec(ranks: map<nat, real>, nodes: seq<nat>, edges: seq<Edge>, damping: real, iterations: nat, tolerance: real)
    requires |nodes| > 0 && DistinctIds(nodes)
    ensures var g := Prepare(nodes, edges, damping);
      var p := InitialRanks(nodes);
      var k := EffectiveSweeps(iterations, tolerance, Distance(nodes, SelfSweep(g, nodes, p), p));
      var r := Ranking(ranks, nodes, edges, damping, iterations, tolerance);
      && (forall n :: n in nodes ==> r[n] == SelfSweeps(g, nodes, k, p)[n])
      && (k == 0 ==> forall n :: n in nodes ==> r[n] == 1.0 / (|nodes| as real))
      && (tolerance > 0.0 ==> k <= 2)
  {
    var g := Prepare(nodes, edges, damping);
    LoopSpec(g, nodes, tolerance, iterations, InitialRanks(nodes));
  }
}
