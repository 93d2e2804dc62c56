/** `CrossEncoderReranker.rerank` (`src/retrieval/reranker.py`): score every candidate against
    the query, sort by score, highest first, ties in candidate order, and keep a prefix. The
    cross-encoder is the parameter `score`, applied to `(query, page_content)`. */
module Reranker {
  import opened Wrappers
  import opened Records
  import opened Sorting
  import opened MainUtils

  /** The key order of `sorted(..., key=score, reverse=True)`: `a` may precede `b`. */
  function ByScore(query: string, score: (string, string) -> real): (Doc, Doc) -> bool {
    (a: Doc, b: Doc) => score(query, a.text) >= score(query, b.text)
  }

  lemma ByScoreTotal(query: string, score: (string, string) -> real)
    ensures TotalPreorder(ByScore(query, score))
  {
  }

  /** The candidates in reranked order, each tagged with its position among the candidates. */
  function Ranking(query: string, docs: seq<Doc>, score: (string, string) -> real): (r: seq<Ranked<Doc>>)
    ensures |r| == |docs|
    ensures forall i :: 0 <= i < |r| ==> r[i].pos < |docs| && r[i].item == docs[r[i].pos]
    ensures forall i, j :: 0 <= i < j < |r| ==> r[i].pos != r[j].pos
  {
    ByScoreTotal(query, score);
    var r := StableSortRanked(docs, ByScore(query, score));
    DistinctPositions(docs, r);
    assert |multiset(r)| == |multiset(Enumerate(docs))|;
    r
  }

  /** The end of the Python slice `s[:k]` on a sequence of length `n`; a negative `k` counts
      from the end. */
  function SliceEnd(n: nat, k: int): (e: nat)
    ensures e <= n
    ensures k >= 0 ==> e == Min(k, n)
    ensures k < 0 ==> e == Max(0, n + k)
  {
    if k >= 0 then Min(k, n) else Max(0, n + k)
  }

  lemma PrefixSubMultiset<T>(s: seq<T>, m: nat)
    requires m <= |s|
    ensures multiset(s[..m]) <= multiset(s)
  {
    assert s == s[..m] + s[m..];
  }

  /** `rerank`: an empty candidate list gives `[]`; otherwise the candidates sorted by score,
      highest first, cut to `top_k` when it is given. */
  function Rerank(query: string, docs: seq<Doc>, score: (string, string) -> real, topK: Option<int>)
    : (r: seq<Doc>)
    ensures |r| == (if topK.Some? then SliceEnd(|docs|, topK.value) else |docs|)
    ensures forall i, j :: 0 <= i < j < |r| ==> score(query, r[i].text) >= score(query, r[j].text)
    ensures multiset(r) <= multiset(docs)
    ensures topK.None? ==> multiset(r) == multiset(docs)
  {
    if docs == [] then []
    else
      var ranked := Ranking(query, docs, score);
      var sorted := Items(ranked);
      ItemsPermutes(ranked, Enumerate(docs));
      assert Items(Enumerate(docs)) == docs;
      if topK.None? then sorted
      else
        var m := SliceEnd(|sorted|, topK.value);
        PrefixSubMultiset(sorted, m);
        sorted[..m]
  }

  /** Each reranked document is the candidate at its tag's position, no candidate is taken
      twice, and equal scores keep candidate order (Python's sort is stable). */
  lemma RerankStable(query: string, docs: seq<Doc>, score: (string, string) -> real, topK: Option<int>)
    requires docs != []
    ensures var ranked := Ranking(query, docs, score);
            var r := Rerank(query, docs, score, topK);
            && |r| <= |ranked|
            && (forall i :: 0 <= i < |r| ==> ranked[i].pos < |docs| && r[i] == docs[ranked[i].pos])
            && (forall i, j :: 0 <= i < j < |r| ==> ranked[i].pos != ranked[j].pos)
            && (forall i, j :: 0 <= i < j < |r| && score(query, r[i].text) == score(query, r[j].text)
                  ==> ranked[i].pos < ranked[j].pos)
  {
    ByScoreTotal(query, score);
  }

  /** The cut keeps the best: a candidate whose position is not among the kept tags scores no
      higher than the last kept document. */
  lemma RerankKeepsTop(query: string, docs: seq<Doc>, score: (string, string) -> real, k: int, p: nat)
    requires docs != [] && p < |docs|
    requires SliceEnd(|docs|, k) > 0
    requires forall i :: 0 <= i < SliceEnd(|docs|, k) ==> Ranking(query, docs, score)[i].pos != p
    ensures var r := Rerank(query, docs, score, Some(k));
            score(query, docs[p].text) <= score(query, r[|r| - 1].text)
  {
    var ranked := Ranking(query, docs, score);
    var m := SliceEnd(|docs|, k);
    var q := RankedIndexOf(query, docs, score, p);
    assert q >= m;
    RankingSorted(query, docs, score);
    assert score(query, ranked[m - 1].item.text) >= score(query, ranked[q].item.text);
    RerankIsPrefix(query, docs, score, k);
  }

  /** Every candidate carries a tag somewhere in the ranking. */
  lemma RankedIndexOf(query: string, docs: seq<Doc>, score: (string, string) -> real, p: nat)
    returns (q: nat)
    requires p < |docs|
    ensures q < |docs| && Ranking(query, docs, score)[q].pos == p
  {
    var ranked := Ranking(query, docs, score);
    ByScoreTotal(query, score);
    assert Ranked(docs[p], p) in multiset(Enumerate(docs));
    assert Ranked(docs[p], p) in multiset(ranked);
    q :| 0 <= q < |ranked| && ranked[q] == Ranked(docs[p], p);
  }

  /** The ranking is ordered by score, highest first. */
  lemma RankingSorted(query: string, docs: seq<Doc>, score: (string, string) -> real)
    ensures var ranked := Ranking(query, docs, score);
            forall i, j :: 0 <= i < j < |ranked| ==>
              score(query, ranked[i].item.text) >= score(query, ranked[j].item.text)
  {
    ByScoreTotal(query, score);
    var ranked := Ranking(query, docs, score);
    assert SortedBy(Items(ranked), ByScore(query, score));
    forall i, j | 0 <= i < j < |ranked|
      ensures score(query, ranked[i].item.text) >= score(query, ranked[j].item.text)
    {
      assert ByScore(query, score)(Items(ranked)[i], Items(ranked)[j]);
    }
  }

  /** A cut reranking is the prefix of the ranking's documents. */
  lemma RerankIsPrefix(query: string, docs: seq<Doc>, score: (string, string) -> real, k: int)
    requires docs != []
    ensures Rerank(query, docs, score, Some(k)) == Items(Ranking(query, docs, score))[..SliceEnd(|docs|, k)]
  {
  }
}
