/** `RerankMMRRetriever` (`src/retrieval/retriever.py`): vector search, then cross-encoder
    reranking, then maximal marginal relevance over the reranked set, with each stage's size
    derived from the store size by `compute_k`. */
module Retriever {
  import opened Wrappers
  import opened Records
  import opened MainUtils
  import opened Reranker

  // ---------------------------------------------------------------------------
  // _apply_mmr

  /** The embedding geometry `_apply_mmr` consults: `relevance(t)` is the cosine between the
      query's and text `t`'s embeddings, `similarity(t, u)` the cosine between two texts'. */
  datatype Geometry = Geometry(relevance: string -> real, similarity: (string, string) -> real)

  /** `max(cosine(doc_vecs[i], doc_vecs[s]) for s in selected)`. */
  function MaxSim(cands: seq<Doc>, g: Geometry, i: nat, selected: seq<nat>): real
    requires i < |cands| && selected != []
    requires forall t :: 0 <= t < |selected| ==> selected[t] < |cands|
  {
    var here := g.similarity(cands[i].text, cands[selected[0]].text);
    if |selected| == 1 then here
    else
      var rest := MaxSim(cands, g, i, selected[1..]);
      if here >= rest then here else rest
  }

  /** The key `max` ranks candidate `i` by: its relevance while nothing is selected, then
      `lambdaMult * relevance - (1 - lambdaMult) * (highest similarity to a selected candidate)`. */
  function MmrScore(cands: seq<Doc>, g: Geometry, lambdaMult: real, selected: seq<nat>, i: nat): real
    requires i < |cands|
    requires forall t :: 0 <= t < |selected| ==> selected[t] < |cands|
  {
    var rel := g.relevance(cands[i].text);
    if selected == [] then rel
    else lambdaMult * rel - (1.0 - lambdaMult) * MaxSim(cands, g, i, selected)
  }

  predicate InRange(s: seq<nat>, n: nat) {
    forall t :: 0 <= t < |s| ==> s[t] < n
  }

  predicate Ascending(s: seq<nat>) {
    forall a, b :: 0 <= a < b < |s| ==> s[a] < s[b]
  }

  /** Python's `max(remaining, key=...)`: the position in `rem` of the first element with the
      greatest score. */
  function ArgMax(cands: seq<Doc>, g: Geometry, lambdaMult: real, selected: seq<nat>, rem: seq<nat>): (p: nat)
    requires rem != [] && InRange(rem, |cands|) && InRange(selected, |cands|)
    ensures p < |rem|
    ensures forall j :: 0 <= j < |rem| ==>
              MmrScore(cands, g, lambdaMult, selected, rem[j]) <= MmrScore(cands, g, lambdaMult, selected, rem[p])
    ensures forall j :: 0 <= j < p ==>
              MmrScore(cands, g, lambdaMult, selected, rem[j]) < MmrScore(cands, g, lambdaMult, selected, rem[p])
  {
    if |rem| == 1 then 0
    else
      var p := 1 + ArgMax(cands, g, lambdaMult, selected, rem[1..]);
      if MmrScore(cands, g, lambdaMult, selected, rem[0]) >= MmrScore(cands, g, lambdaMult, selected, rem[p])
      then 0 else p
  }

  /** `rem` lists, ascending, exactly the indices below `n` not yet selected. */
  ghost predicate Remaining(selected: seq<nat>, rem: seq<nat>, n: nat) {
    && Ascending(rem)
    && InRange(rem, n)
    && (forall j: nat :: j in rem <==> j < n && j !in selected)
  }

  /** The `while remaining and len(selected) < k` loop of `_apply_mmr`. */
  function Greedy(cands: seq<Doc>, g: Geometry, lambdaMult: real, k: int, selected: seq<nat>, rem: seq<nat>)
    : (r: seq<nat>)
    requires InRange(selected, |cands|) && InRange(rem, |cands|)
    ensures InRange(r, |cands|)
    decreases |rem|
  {
    if rem == [] || |selected| >= k then selected
    else
      var p := ArgMax(cands, g, lambdaMult, selected, rem);
      Greedy(cands, g, lambdaMult, k, selected + [rem[p]], rem[..p] + rem[p + 1..])
  }

  function Range(n: nat): (r: seq<nat>)
    ensures |r| == n
    ensures forall t :: 0 <= t < n ==> r[t] == t
  {
    seq(n, t requires 0 <= t < n => t as nat)
  }

  /** The indices `_apply_mmr` selects, in selection order. */
  function MmrIndices(cands: seq<Doc>, g: Geometry, k: int, lambdaMult: real): (r: seq<nat>)
    ensures InRange(r, |cands|)
  {
    if cands == [] || k <= 0 then [] else Greedy(cands, g, lambdaMult, k, [], Range(|cands|))
  }

  /** `_apply_mmr`: the selected candidates, in selection order. */
  function ApplyMmr(cands: seq<Doc>, g: Geometry, k: int, lambdaMult: real): (r: seq<Doc>)
    ensures |r| == |MmrIndices(cands, g, k, lambdaMult)|
    ensures forall t :: 0 <= t < |r| ==> r[t] == cands[MmrIndices(cands, g, k, lambdaMult)[t]]
  {
    var idx := MmrIndices(cands, g, k, lambdaMult);
    seq(|idx|, t requires 0 <= t < |idx| => cands[idx[t]])
  }

  lemma RemovedStillIn(rem: seq<nat>, p: nat, j: nat)
    requires p < |rem| && j in rem && j != rem[p]
    ensures j in rem[..p] + rem[p + 1..]
  {
    var t :| 0 <= t < |rem| && rem[t] == j;
    if t < p { assert (rem[..p] + rem[p + 1..])[t] == j; }
    else { assert (rem[..p] + rem[p + 1..])[t - 1] == j; }
  }

  /** Removing one element keeps `rem` the ascending list of what is left. */
  lemma RemainingStep(selected: seq<nat>, rem: seq<nat>, n: nat, p: nat)
    requires Remaining(selected, rem, n) && p < |rem|
    requires forall a, b :: 0 <= a < b < |selected| ==> selected[a] != selected[b]
    ensures Remaining(selected + [rem[p]], rem[..p] + rem[p + 1..], n)
    ensures forall a, b :: 0 <= a < b < |selected| + 1 ==> (selected + [rem[p]])[a] != (selected + [rem[p]])[b]
  {
    var rem' := rem[..p] + rem[p + 1..];
    var sel' := selected + [rem[p]];
    assert forall t :: 0 <= t < |rem'| ==> rem'[t] == (if t < p then rem[t] else rem[t + 1]);
    forall j: nat ensures j in rem' ==> j < n && j !in sel' {
      if j in rem' {
        var t :| 0 <= t < |rem'| && rem'[t] == j;
        assert j in rem && j != rem[p];
      }
    }
    forall j: nat | j < n && j !in sel' ensures j in rem' {
      RemovedStillIn(rem, p, j);
    }
    assert rem[p] !in selected;
  }

  /** The greedy loop's state: the selected indices are distinct, in range and the remaining
      ones are exactly the rest, ascending. */
  ghost predicate GreedyState(selected: seq<nat>, rem: seq<nat>, n: nat) {
    && InRange(selected, n)
    && (forall a, b :: 0 <= a < b < |selected| ==> selected[a] != selected[b])
    && Remaining(selected, rem, n)
  }

  /** One turn of the loop: it appends the best remaining candidate and keeps the state. */
  lemma GreedyStep(cands: seq<Doc>, g: Geometry, lambdaMult: real, k: int, selected: seq<nat>, rem: seq<nat>)
    returns (sel': seq<nat>, rem': seq<nat>)
    requires GreedyState(selected, rem, |cands|) && rem != [] && |selected| < k
    ensures sel' == selected + [rem[ArgMax(cands, g, lambdaMult, selected, rem)]]
    ensures GreedyState(sel', rem', |cands|) && |rem'| == |rem| - 1
    ensures Greedy(cands, g, lambdaMult, k, selected, rem) == Greedy(cands, g, lambdaMult, k, sel', rem')
    ensures BestPick(cands, g, lambdaMult, selected, rem[ArgMax(cands, g, lambdaMult, selected, rem)])
  {
    var p := ArgMax(cands, g, lambdaMult, selected, rem);
    ArgMaxIsBest(cands, g, lambdaMult, selected, rem);
    RemainingStep(selected, rem, |cands|, p);
    sel' := selected + [rem[p]];
    rem' := rem[..p] + rem[p + 1..];
  }

  lemma {:induction false} GreedyFacts(cands: seq<Doc>, g: Geometry, lambdaMult: real, k: int,
                                       selected: seq<nat>, rem: seq<nat>)
    requires GreedyState(selected, rem, |cands|) && |selected| <= k
    ensures var r := Greedy(cands, g, lambdaMult, k, selected, rem);
            && |r| == Min(k, |selected| + |rem|)
            && r[..|selected|] == selected
            && (forall a, b :: 0 <= a < b < |r| ==> r[a] != r[b])
    decreases |rem|
  {
    if rem != [] && |selected| < k {
      var sel', rem' := GreedyStep(cands, g, lambdaMult, k, selected, rem);
      GreedyFacts(cands, g, lambdaMult, k, sel', rem');
      var r := Greedy(cands, g, lambdaMult, k, sel', rem');
      assert r[..|selected|] == r[..|sel'|][..|selected|];
    } else if rem == [] {
      assert |selected| + |rem| == |selected|;
    }
  }

  /** `pick` is what `max(remaining, key=...)` may return after `prefix`: no candidate outside
      `prefix` scores higher, and every lower-indexed one scores strictly lower. */
  ghost predicate BestPick(cands: seq<Doc>, g: Geometry, lambdaMult: real, prefix: seq<nat>, pick: nat) {
    && pick < |cands| && InRange(prefix, |cands|)
    && forall j :: 0 <= j < |cands| && j !in prefix ==>
         && MmrScore(cands, g, lambdaMult, prefix, j) <= MmrScore(cands, g, lambdaMult, prefix, pick)
         && (j < pick ==> MmrScore(cands, g, lambdaMult, prefix, j) < MmrScore(cands, g, lambdaMult, prefix, pick))
  }

  lemma ArgMaxIsBest(cands: seq<Doc>, g: Geometry, lambdaMult: real, selected: seq<nat>, rem: seq<nat>)
    requires GreedyState(selected, rem, |cands|) && rem != []
    ensures BestPick(cands, g, lambdaMult, selected, rem[ArgMax(cands, g, lambdaMult, selected, rem)])
  {
    var p := ArgMax(cands, g, lambdaMult, selected, rem);
    forall j | 0 <= j < |cands| && j !in selected
      ensures MmrScore(cands, g, lambdaMult, selected, j) <= MmrScore(cands, g, lambdaMult, selected, rem[p])
      ensures j < rem[p] ==> MmrScore(cands, g, lambdaMult, selected, j) < MmrScore(cands, g, lambdaMult, selected, rem[p])
    {
      assert j in rem;
      var q :| 0 <= q < |rem| && rem[q] == j;
      if j < rem[p] {
        assert q < p;
      }
    }
  }

  /** Each pick of the loop is a best pick given the picks before it. */
  lemma {:induction false} GreedyChoices(cands: seq<Doc>, g: Geometry, lambdaMult: real, k: int,
                                         selected: seq<nat>, rem: seq<nat>)
    requires GreedyState(selected, rem, |cands|) && |selected| <= k
    ensures var r := Greedy(cands, g, lambdaMult, k, selected, rem);
            forall t :: |selected| <= t < |r| ==> BestPick(cands, g, lambdaMult, r[..t], r[t])
    decreases |rem|
  {
    if rem != [] && |selected| < k {
      var sel', rem' := GreedyStep(cands, g, lambdaMult, k, selected, rem);
      GreedyChoices(cands, g, lambdaMult, k, sel', rem');
      GreedyFacts(cands, g, lambdaMult, k, sel', rem');
      PickAtEnd(cands, g, lambdaMult, selected, sel'[|selected|], Greedy(cands, g, lambdaMult, k, sel', rem'));
    }
  }

  /** A best pick appended to `selected` stays one inside any extension of the list. */
  lemma PickAtEnd(cands: seq<Doc>, g: Geometry, lambdaMult: real, selected: seq<nat>, pick: nat, r: seq<nat>)
    requires BestPick(cands, g, lambdaMult, selected, pick)
    requires |selected| < |r| && r[..|selected| + 1] == selected + [pick]
    requires forall t :: |selected| + 1 <= t < |r| ==> BestPick(cands, g, lambdaMult, r[..t], r[t])
    ensures forall t :: |selected| <= t < |r| ==> BestPick(cands, g, lambdaMult, r[..t], r[t])
  {
    var t := |selected|;
    assert r[..t] == r[..t + 1][..t];
    assert r[t] == r[..t + 1][t];
  }

  lemma RangeRemaining(n: nat)
    ensures GreedyState([], Range(n), n)
  {
    var r := Range(n);
    forall j: nat ensures j in r <==> j < n && j !in [] {
      if j < n { assert r[j] == j; }
    }
    assert Ascending(r) && InRange(r, n);
    assert Remaining([], r, n);
    assert InRange([], n);
  }

  /** `_apply_mmr` returns `min(k, len(candidates))` distinct candidates (none when `k <= 0`),
      and each pick is a best pick: a first-maximal MMR choice among the candidates not yet
      picked. */
  lemma MmrSpec(cands: seq<Doc>, g: Geometry, k: int, lambdaMult: real)
    ensures var r := MmrIndices(cands, g, k, lambdaMult);
            && |r| == (if k <= 0 then 0 else Min(k, |cands|))
            && (forall a, b :: 0 <= a < b < |r| ==> r[a] != r[b])
            && (forall t :: 0 <= t < |r| ==> BestPick(cands, g, lambdaMult, r[..t], r[t]))
  {
    if cands != [] && k > 0 {
      RangeRemaining(|cands|);
      GreedyFacts(cands, g, lambdaMult, k, [], Range(|cands|));
      GreedyChoices(cands, g, lambdaMult, k, [], Range(|cands|));
    }
  }

  /** Candidate `a` ranks before `b` by relevance: higher, or equal with a lower index. */
  predicate RelevanceBefore(cands: seq<Doc>, g: Geometry, a: nat, b: nat)
    requires a < |cands| && b < |cands|
  {
    var ra := g.relevance(cands[a].text);
    var rb := g.relevance(cands[b].text);
    ra > rb || (ra == rb && a < b)
  }

  /** With `lambda_mult = 1.0` MMR ignores diversity: it returns the candidates in order of
      relevance (ties by index), and every candidate left out ranks after every one taken. */
  lemma MmrPureRelevance(cands: seq<Doc>, g: Geometry, k: int)
    ensures var r := MmrIndices(cands, g, k, 1.0);
            && (forall t :: 0 <= t < |r| - 1 ==> RelevanceBefore(cands, g, r[t], r[t + 1]))
            && (forall t, j :: 0 <= t < |r| && 0 <= j < |cands| && j !in r ==> RelevanceBefore(cands, g, r[t], j))
  {
    var r := MmrIndices(cands, g, k, 1.0);
    MmrSpec(cands, g, k, 1.0);
    forall t, j | 0 <= t < |r| && 0 <= j < |cands|
      ensures MmrScore(cands, g, 1.0, r[..t], j) == g.relevance(cands[j].text)
    {
    }
    forall t | 0 <= t < |r| - 1
      ensures RelevanceBefore(cands, g, r[t], r[t + 1])
    {
      assert r[t + 1] !in r[..t] by {
        forall u | 0 <= u < t ensures r[..t][u] != r[t + 1] { }
      }
      assert r[t] != r[t + 1];
    }
    forall t, j | 0 <= t < |r| && 0 <= j < |cands| && j !in r
      ensures RelevanceBefore(cands, g, r[t], j)
    {
      assert j !in r[..t] by {
        forall u | 0 <= u < t ensures r[..t][u] != j { assert r[u] in r; }
      }
      assert r[t] in r;
    }
  }

  // ---------------------------------------------------------------------------
  // retrieve

  /** The retriever's collaborators: the FAISS store's `similarity_search`, the
      cross-encoder's score and the embedding geometry. */
  datatype Env = Env(
    search: (seq<Doc>, string, nat) -> seq<Doc>,
    score: (string, string) -> real,
    geometry: Geometry)

  /** The keyword arguments of `retrieve`. */
  datatype Knobs = Knobs(
    initialPct: Option<real>,
    rerankPct: Option<real>,
    mmrPct: Option<real>,
    lambdaMult: real,
    minChunk: Option<int>)

  /** A stage the cascade ran, with the size it was given. */
  datatype Stage = SearchStage(k: nat) | RerankStage(k: nat) | MmrStage(k: nat)

  datatype Retrieval = Retrieval(docs: seq<Doc>, stages: seq<Stage>)

  /** The three stage sizes after the floors of lines 95-101 (meaningful when `initial > 0`). */
  datatype Sizes = Sizes(initial: int, rerank: int, mmr: int)

  /** The stage sizes: `initial` is `compute_k` of the store size; `rerank` is `compute_k` of
      `initial`, raised to 1 when that is 0; `mmr` is `compute_k` of the rerank size BEFORE that
      floor, raised to 1 when it is 0. So a rerank share that rounds to nothing gives 1 and 1. */
  function CascadeSizes(total: int, knobs: Knobs): (z: Sizes)
    ensures z.initial == ComputeK(total, knobs.initialPct, total)
    ensures z.initial > 0 ==> 1 <= z.mmr <= z.rerank <= z.initial <= total
    ensures z.initial > 0 ==>
              var rk := ComputeK(z.initial, knobs.rerankPct, z.initial);
              && z.rerank == (if rk == 0 then 1 else rk)
              && var mk := ComputeK(rk, knobs.mmrPct, rk);
                 z.mmr == (if mk == 0 then 1 else mk)
    ensures z.initial > 0 && ComputeK(z.initial, knobs.rerankPct, z.initial) == 0 ==> z.rerank == 1 && z.mmr == 1
  {
    var ik := ComputeK(total, knobs.initialPct, total);
    var rk := ComputeK(ik, knobs.rerankPct, ik);
    var mk := ComputeK(rk, knobs.mmrPct, rk);
    var rk' := if rk <= 0 then Min(1, ik) else rk;
    var mk' := if mk <= 0 then Min(1, rk') else mk;
    Sizes(ik, rk', mk')
  }

  /** `retrieve`: search → rerank → MMR over `store`, whose size is `count_documents`. */
  function Retrieve(store: seq<Doc>, env: Env, query: string, knobs: Knobs): (out: Retrieval)
    ensures store == [] ==> out == Retrieval([], [])
    ensures |out.stages| <= 3
  {
    var total := |store|;
    if total == 0 then Retrieval([], [])
    else if knobs.minChunk.Some? && total <= knobs.minChunk.value then
      Retrieval(env.search(store, query, total), [SearchStage(total)])
    else
      var z := CascadeSizes(total, knobs);
      if z.initial <= 0 then Retrieval([], [])
      else
        var initial := env.search(store, query, z.initial);
        var reranked := Rerank(query, initial, env.score, Some(z.rerank));
        var diversified := ApplyMmr(reranked, env.geometry, z.mmr, knobs.lambdaMult);
        Retrieval(diversified, [SearchStage(z.initial), RerankStage(z.rerank), MmrStage(z.mmr)])
  }

  /** The cascade's shape: small stores are returned whole by one search; otherwise either
      nothing runs (when `initial_k` comes out 0) or all three stages run with
      `1 <= mmr_k <= rerank_k <= initial_k <= total`, and the result holds at most `mmr_k`
      documents, each one the search returned. */
  lemma RetrieveShape(store: seq<Doc>, env: Env, query: string, knobs: Knobs)
    requires store != []
    ensures var out := Retrieve(store, env, query, knobs);
            var n := |store|;
            if knobs.minChunk.Some? && n <= knobs.minChunk.value then
              out == Retrieval(env.search(store, query, n), [SearchStage(n)])
            else if ComputeK(n, knobs.initialPct, n) == 0 then
              out == Retrieval([], [])
            else
              exists ik: nat, rk: nat, mk: nat ::
                && out.stages == [SearchStage(ik), RerankStage(rk), MmrStage(mk)]
                && 1 <= mk <= rk <= ik <= n
                && ik == ComputeK(n, knobs.initialPct, n)
                && |out.docs| <= mk
                && multiset(out.docs) <= multiset(env.search(store, query, ik))
  {
    var n := |store|;
    if !(knobs.minChunk.Some? && n <= knobs.minChunk.value) {
      var z := CascadeSizes(n, knobs);
      if z.initial > 0 {
        var initial := env.search(store, query, z.initial);
        var reranked := Rerank(query, initial, env.score, Some(z.rerank));
        var idx := MmrIndices(reranked, env.geometry, z.mmr, knobs.lambdaMult);
        var out := ApplyMmr(reranked, env.geometry, z.mmr, knobs.lambdaMult);
        MmrSpec(reranked, env.geometry, z.mmr, knobs.lambdaMult);
        SelectedSubMultiset(reranked, idx, out);
        assert Retrieve(store, env, query, knobs).docs == out;
        assert Retrieve(store, env, query, knobs).stages == [SearchStage(z.initial), RerankStage(z.rerank), MmrStage(z.mmr)];
      }
    }
  }

  /** Picking distinct positions of `s` yields a sub-multiset of `s`. */
  lemma {:induction false} SelectedSubMultiset(s: seq<Doc>, idx: seq<nat>, out: seq<Doc>)
    requires InRange(idx, |s|)
    requires forall a, b :: 0 <= a < b < |idx| ==> idx[a] != idx[b]
    requires |out| == |idx| && forall t :: 0 <= t < |out| ==> out[t] == s[idx[t]]
    ensures multiset(out) <= multiset(s)
    decreases |idx|
  {
    if idx != [] {
      var p := idx[0];
      var s' := s[..p] + s[p + 1..];
      assert s == s[..p] + [s[p]] + s[p + 1..];
      var idx' := seq(|idx| - 1, t requires 0 <= t < |idx| - 1 => if idx[t + 1] < p then idx[t + 1] else idx[t + 1] - 1);
      forall t | 0 <= t < |idx'| ensures out[t + 1] == s'[idx'[t]] {
        assert idx[t + 1] != p;
      }
      forall a, b | 0 <= a < b < |idx'| ensures idx'[a] != idx'[b] {
        assert idx[a + 1] != idx[b + 1];
      }
      SelectedSubMultiset(s', idx', out[1..]);
      assert out == [s[p]] + out[1..];
    }
  }

  /** With no `initial_pct`, `compute_k` yields 0 and a store above `min_chunk` returns nothing. */
  lemma RetrieveNeedsInitialPct(store: seq<Doc>, env: Env, query: string, knobs: Knobs)
    requires knobs.initialPct.None?
    requires knobs.minChunk.None? || |store| > knobs.minChunk.value
    ensures Retrieve(store, env, query, knobs) == Retrieval([], [])
  {
  }

  /** Ten chunks with every percentage at one half: `initial_k = 5`, `rerank_k = ceil(2.5) = 3`
      and `mmr_k = ceil(1.5) = 2`. */
  lemma CascadeTenHalves(lambdaMult: real)
    ensures CascadeSizes(10, Knobs(Some(0.5), Some(0.5), Some(0.5), lambdaMult, None)) == Sizes(5, 3, 2)
  {
    assert ComputeK(10, Some(0.5), 10) == 5;
    assert ComputeK(5, Some(0.5), 5) == 3;
    assert ComputeK(3, Some(0.5), 3) == 2;
  }

  /** When the search returns as many documents as asked, the cascade returns exactly `mmr_k`
      of them. */
  lemma RetrieveFullSearch(store: seq<Doc>, env: Env, query: string, knobs: Knobs)
    requires !(knobs.minChunk.Some? && |store| <= knobs.minChunk.value)
    requires var z := CascadeSizes(|store|, knobs);
             z.initial > 0 && |env.search(store, query, z.initial)| >= z.initial
    ensures |Retrieve(store, env, query, knobs).docs| == CascadeSizes(|store|, knobs).mmr
  {
    var z := CascadeSizes(|store|, knobs);
    var initial := env.search(store, query, z.initial);
    var reranked := Rerank(query, initial, env.score, Some(z.rerank));
    assert |reranked| == z.rerank;
    MmrSpec(reranked, env.geometry, z.mmr, knobs.lambdaMult);
  }
}
