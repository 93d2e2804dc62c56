/** `DocumentChunker` (`src/preprocessing/chunking.py`): a structural split into pieces of at
    most 2000 characters, then a token-based re-split of every piece above the target size. The
    LangChain `RecursiveCharacterTextSplitter` and the tokenizer are parameters. */
module Chunking {
  import opened Wrappers
  import opened Text
  import opened Records
  import opened Lists

  /** A `RecursiveCharacterTextSplitter` configuration. Both splitters of the chunker use the
      separators `["\n\n", "\n", " ", ""]`; `byTokens` selects `num_tokens_from_string` over
      `len` as the length function. */
  datatype SplitConfig = SplitConfig(chunkSize: int, chunkOverlap: int, byTokens: bool)

  /** A piece returned by a splitter: its text and its offset in the split text. */
  datatype Piece = Piece(text: string, start: int)

  /** The external splitter and the tokenizer (`num_tokens_from_string`). */
  datatype Splitters = Splitters(split: (SplitConfig, string) -> seq<Piece>, tokens: string -> nat)

  /** The structural splitter: 2000 characters, no overlap. */
  const StructuralConfig := SplitConfig(2000, 0, false)

  /** The defaults of `chunk_document`. */
  const DefaultTargetChunkSize := 500
  const DefaultChunkOverlap := 100

  /** The keys the chunker writes into a chunk's metadata. */
  const ChunkKeys: set<string> := {"start_index", "chunk_id"}

  /** `split_documents([Document(text, metadata)])` with `add_start_index=True`: each piece
      carries a copy of the metadata with its `start_index`. */
  function SplitDocument(env: Splitters, cfg: SplitConfig, text: string, metadata: Metadata): (r: seq<Doc>)
    ensures |r| == |env.split(cfg, text)|
    ensures forall k :: 0 <= k < |r| ==>
              && r[k].text == env.split(cfg, text)[k].text
              && r[k].metadata == metadata["start_index" := MInt(env.split(cfg, text)[k].start)]
  {
    var pieces := env.split(cfg, text);
    seq(|pieces|, k requires 0 <= k < |pieces| =>
      Doc(pieces[k].text, metadata["start_index" := MInt(pieces[k].start)]))
  }

  /** `m` agrees with `orig` on every key outside `changed`. */
  predicate SameOutside(m: Metadata, orig: Metadata, changed: set<string>) {
    m - changed == orig - changed
  }

  lemma SameOutsideUpdates(orig: Metadata, v: MetaValue, w: MetaValue)
    ensures SameOutside(orig["start_index" := v]["chunk_id" := w], orig, ChunkKeys)
  {
    var m := orig["start_index" := v]["chunk_id" := w];
    assert (m - ChunkKeys).Keys == (orig - ChunkKeys).Keys;
  }

  /** `structure_aware_splitter`: the error cases, then one chunk per structural piece, its
      metadata the input's plus `start_index` and `chunk_id = i`. */
  function StructuralSplit(env: Splitters, raw: RawDoc): (r: Result<seq<Doc>>)
    ensures r.Err? <==> raw.text.None? || raw.metadata.None? || "doc_type" !in raw.metadata.value
    ensures raw.text.None? || raw.metadata.None? ==>
              r == Err("Input dictionary must contain 'text' and 'metadata' keys.")
    ensures r.Ok? ==>
      var pieces := env.split(StructuralConfig, raw.text.value);
      && |r.value| == |pieces|
      && forall i :: 0 <= i < |pieces| ==>
           r.value[i] == Doc(pieces[i].text,
                             raw.metadata.value["start_index" := MInt(pieces[i].start)]["chunk_id" := MInt(i)])
  {
    if raw.text.None? || raw.metadata.None? then
      Err("Input dictionary must contain 'text' and 'metadata' keys.")
    else if "doc_type" !in raw.metadata.value then
      Err("'doc_type'")
    else
      var docs := SplitDocument(env, StructuralConfig, raw.text.value, raw.metadata.value);
      Ok(seq(|docs|, i requires 0 <= i < |docs| => Doc(docs[i].text, docs[i].metadata["chunk_id" := MInt(i)])))
  }

  /** A structural chunk keeps every metadata entry of its document except the two the
      chunker writes. */
  lemma StructuralKeepsMetadata(env: Splitters, raw: RawDoc, i: nat)
    requires StructuralSplit(env, raw).Ok? && i < |StructuralSplit(env, raw).value|
    ensures SameOutside(StructuralSplit(env, raw).value[i].metadata, raw.metadata.value, ChunkKeys)
  {
    var pieces := env.split(StructuralConfig, raw.text.value);
    SameOutsideUpdates(raw.metadata.value, MInt(pieces[i].start), MInt(i));
  }

  /** The parent id `metadata.get('chunk_id', i)` of chunk number `i`. */
  function ParentId(c: Doc, i: nat): MetaValue {
    if "chunk_id" in c.metadata then c.metadata["chunk_id"] else MInt(i)
  }

  /** The id `f"{parent}-{j}"` of sub-chunk `j`. */
  function SubChunkId(parent: MetaValue, j: nat): string {
    Render(parent) + "-" + IntToString(j)
  }

  /** The configuration of the token splitter built for an oversized chunk. */
  function SubConfig(target: int, overlap: int): SplitConfig {
    SplitConfig(target, overlap, true)
  }

  /** LangChain's `TextSplitter` constructor raises `ValueError` with this message when the
      overlap exceeds the chunk size. */
  function OverlapError(cfg: SplitConfig): string {
    "Got a larger chunk overlap (" + IntToString(cfg.chunkOverlap) + ") than chunk size ("
      + IntToString(cfg.chunkSize) + "), should be smaller."
  }

  /** One iteration of `length_based_refinement`, for chunk number `i` (see `RefineChunkSpec`):
      only a chunk above the target builds a splitter, so only such a chunk can meet the
      splitter's overlap check. */
  function RefineChunk(env: Splitters, target: int, overlap: int, c: Doc, i: nat): (r: Result<seq<Doc>>)
    ensures r.Err? <==> env.tokens(c.text) > target && overlap > target
    ensures r.Err? ==> r.error == OverlapError(SubConfig(target, overlap))
    ensures env.tokens(c.text) <= target ==> r == Ok([c])
  {
    if env.tokens(c.text) > target then
      if overlap > target then Err(OverlapError(SubConfig(target, overlap)))
      else
        var parent := ParentId(c, i);
        var subs := SplitDocument(env, SubConfig(target, overlap), c.text, c.metadata);
        Ok(seq(|subs|, j requires 0 <= j < |subs| =>
          Doc(subs[j].text, subs[j].metadata["chunk_id" := MStr(SubChunkId(parent, j))])))
    else
      Ok([c])
  }

  /** A chunk within the token target passes through unchanged; a larger one, when the overlap
      fits the target, becomes the token splitter's pieces, each with the chunk's metadata, its
      own `start_index` and the id `"{parent}-{j}"`, and nothing else of the metadata changed. */
  lemma RefineChunkSpec(env: Splitters, target: int, overlap: int, c: Doc, i: nat)
    ensures var r := RefineChunk(env, target, overlap, c, i);
      && (env.tokens(c.text) <= target ==> r == Ok([c]))
      && (env.tokens(c.text) > target && overlap <= target ==>
            var pieces := env.split(SubConfig(target, overlap), c.text);
            && r.Ok?
            && |r.value| == |pieces|
            && forall j :: 0 <= j < |r.value| ==>
                 && r.value[j].text == pieces[j].text
                 && r.value[j].metadata == c.metadata["start_index" := MInt(pieces[j].start)]
                                                     ["chunk_id" := MStr(SubChunkId(ParentId(c, i), j))]
                 && SameOutside(r.value[j].metadata, c.metadata, ChunkKeys))
  {
    if env.tokens(c.text) > target && overlap <= target {
      var pieces := env.split(SubConfig(target, overlap), c.text);
      forall j | 0 <= j < |pieces|
        ensures SameOutside(c.metadata["start_index" := MInt(pieces[j].start)]
                                      ["chunk_id" := MStr(SubChunkId(ParentId(c, i), j))], c.metadata, ChunkKeys)
      {
        SameOutsideUpdates(c.metadata, MInt(pieces[j].start), MStr(SubChunkId(ParentId(c, i), j)));
      }
    }
  }

  function RefineStep(env: Splitters, target: int, overlap: int): (Doc, nat) -> Result<seq<Doc>> {
    (c: Doc, i: nat) => RefineChunk(env, target, overlap, c, i)
  }

  /** The loop of `length_based_refinement` over `chunks`, numbered from `base`. */
  function RefineFrom(env: Splitters, chunks: seq<Doc>, target: int, overlap: int, base: nat): Result<seq<Doc>> {
    TryFlatMapFrom(RefineStep(env, target, overlap), chunks, base)
  }

  predicate WithinTarget(env: Splitters, chunks: seq<Doc>, target: int) {
    forall i :: 0 <= i < |chunks| ==> env.tokens(chunks[i].text) <= target
  }

  /** Refinement fails exactly when the overlap exceeds the target and some chunk is above it,
      and then with the splitter's overlap error. */
  lemma RefineFromOutcome(env: Splitters, chunks: seq<Doc>, target: int, overlap: int, base: nat)
    ensures var r := RefineFrom(env, chunks, target, overlap, base);
            && (r.Ok? <==> overlap <= target || WithinTarget(env, chunks, target))
            && (r.Err? ==> r.error == OverlapError(SubConfig(target, overlap)))
  {
    var f := RefineStep(env, target, overlap);
    assert forall k :: 0 <= k < |chunks| ==>
      (f(chunks[k], base + k).Ok? <==> overlap <= target || env.tokens(chunks[k].text) <= target);
    if RefineFrom(env, chunks, target, overlap, base).Err? {
      var k :| FirstFailure(f, chunks, base, k) && RefineFrom(env, chunks, target, overlap, base).error == f(chunks[k], base + k).error;
    }
  }

  /** `length_based_refinement`: it fails exactly when the overlap exceeds the target and some
      chunk is above the target, with the splitter's overlap error. */
  function LengthBasedRefinement(env: Splitters, chunks: seq<Doc>, target: int, overlap: int): (r: Result<seq<Doc>>)
    ensures r.Ok? <==> overlap <= target || WithinTarget(env, chunks, target)
    ensures r.Err? ==> r.error == OverlapError(SubConfig(target, overlap))
  {
    RefineFromOutcome(env, chunks, target, overlap, 0);
    RefineFrom(env, chunks, target, overlap, 0)
  }

  /** Refinement works chunk by chunk: refining `a + b` is refining `a`, then `b` numbered on,
      stopping at the first error. */
  lemma RefineAppend(env: Splitters, a: seq<Doc>, b: seq<Doc>, target: int, overlap: int, base: nat)
    ensures var ra := RefineFrom(env, a, target, overlap, base);
            var rb := RefineFrom(env, b, target, overlap, base + |a|);
            RefineFrom(env, a + b, target, overlap, base) == if ra.Err? then ra else if rb.Err? then rb else Ok(ra.value + rb.value)
  {
    TryFlatMapFromAppend(RefineStep(env, target, overlap), a, b, base);
  }

  /** When every chunk is within the target, refinement changes nothing. */
  lemma {:induction false} RefineWithinTarget(env: Splitters, chunks: seq<Doc>, target: int, overlap: int, base: nat)
    requires WithinTarget(env, chunks, target)
    ensures RefineFrom(env, chunks, target, overlap, base) == Ok(chunks)
  {
    if chunks != [] {
      RefineWithinTarget(env, chunks[1..], target, overlap, base + 1);
      assert chunks == [chunks[0]] + chunks[1..];
    }
  }

  /** The token splitter keeps its promise for this target: every piece it returns fits. */
  ghost predicate SplitterFits(env: Splitters, target: int, overlap: int) {
    forall t: string, k: int :: 0 <= k < |env.split(SubConfig(target, overlap), t)| ==>
      env.tokens(env.split(SubConfig(target, overlap), t)[k].text) <= target
  }

  lemma {:induction false} RefineFits(env: Splitters, chunks: seq<Doc>, target: int, overlap: int, base: nat)
    requires SplitterFits(env, target, overlap)
    ensures var r := RefineFrom(env, chunks, target, overlap, base);
            r.Ok? ==> WithinTarget(env, r.value, target)
  {
    if chunks != [] && RefineFrom(env, chunks, target, overlap, base).Ok? {
      RefineFits(env, chunks[1..], target, overlap, base + 1);
      var head := RefineChunk(env, target, overlap, chunks[0], base).value;
      var tail := RefineFrom(env, chunks[1..], target, overlap, base + 1).value;
      RefineChunkSpec(env, target, overlap, chunks[0], base);
      assert WithinTarget(env, head, target);
      assert forall i :: 0 <= i < |head + tail| ==> (head + tail)[i] == (if i < |head| then head[i] else tail[i - |head|]);
    }
  }

  /** If the token splitter's pieces fit the target, refining a successful refinement again
      returns it unchanged. */
  lemma RefineIdempotent(env: Splitters, chunks: seq<Doc>, target: int, overlap: int)
    requires SplitterFits(env, target, overlap)
    ensures var once := LengthBasedRefinement(env, chunks, target, overlap);
            once.Ok? ==> LengthBasedRefinement(env, once.value, target, overlap) == once
  {
    RefineFits(env, chunks, target, overlap, 0);
    var once := LengthBasedRefinement(env, chunks, target, overlap);
    if once.Ok? {
      RefineWithinTarget(env, once.value, target, overlap, 0);
    }
  }

  /** The sub-chunks of one parent get pairwise different ids. */
  lemma SubChunkIdsDistinct(parent: MetaValue, j: nat, j': nat)
    requires j != j'
    ensures SubChunkId(parent, j) != SubChunkId(parent, j')
  {
    var pre := Render(parent) + "-";
    assert SubChunkId(parent, j)[|pre|..] == NatToString(j);
    assert SubChunkId(parent, j')[|pre|..] == NatToString(j');
    assert ParseDigits(NatToString(j)) == j && ParseDigits(NatToString(j')) == j';
  }

  /** The structural split of `d` succeeds and leaves a chunk above the token target. */
  predicate NeedsResplit(env: Splitters, d: RawDoc, target: int) {
    StructuralSplit(env, d).Ok? && !WithinTarget(env, StructuralSplit(env, d).value, target)
  }

  /** One iteration of `chunk_document`: the structural split of `d`, then its refinement. It
      fails exactly when the structural split fails, with that error, or when the overlap
      exceeds the target and a structural chunk is above it, with the overlap error. */
  function ChunkOne(env: Splitters, target: int, overlap: int, d: RawDoc): (r: Result<seq<Doc>>)
    ensures r.Err? <==> StructuralSplit(env, d).Err? || (overlap > target && NeedsResplit(env, d, target))
    ensures StructuralSplit(env, d).Err? ==> r == StructuralSplit(env, d)
    ensures StructuralSplit(env, d).Ok? && r.Err? ==> r.error == OverlapError(SubConfig(target, overlap))
  {
    match StructuralSplit(env, d)
    case Err(e) => Err(e)
    case Ok(structural) => LengthBasedRefinement(env, structural, target, overlap)
  }

  function ChunkStep(env: Splitters, target: int, overlap: int): RawDoc -> Result<seq<Doc>> {
    d => ChunkOne(env, target, overlap, d)
  }

  /** `chunk_document`: every document split structurally then refined, in order; the first
      document that fails fails the whole call, with its error. */
  function ChunkDocument(env: Splitters, docs: seq<RawDoc>, target: int, overlap: int): (r: Result<seq<Doc>>)
    ensures docs == [] ==> r == Ok([])
    ensures r.Ok? <==> forall k :: 0 <= k < |docs| ==> ChunkOne(env, target, overlap, docs[k]).Ok?
    ensures r.Err? ==> exists k :: 0 <= k < |docs| && ChunkOne(env, target, overlap, docs[k]).Err?
                                   && r.error == ChunkOne(env, target, overlap, docs[k]).error
  {
    var f := ChunkStep(env, target, overlap);
    TryFlatMapOk(f, docs);
    if TryFlatMap(f, docs).Err? then
      TryFlatMapError(f, docs);
      TryFlatMap(f, docs)
    else
      TryFlatMap(f, docs)
  }

  /** Chunking a concatenation: it fails with the first failure of `a`, else with the first of
      `b`, and otherwise yields the chunks of `a` followed by those of `b`. */
  lemma ChunkDocumentAppend(env: Splitters, a: seq<RawDoc>, b: seq<RawDoc>, target: int, overlap: int)
    ensures var ra := ChunkDocument(env, a, target, overlap);
            var rb := ChunkDocument(env, b, target, overlap);
            ChunkDocument(env, a + b, target, overlap)
            == if ra.Err? then ra else if rb.Err? then rb else Ok(ra.value + rb.value)
  {
    TryFlatMapAppend(ChunkStep(env, target, overlap), a, b);
  }

  /** A single document: its structural split's error, or the refinement of its structural
      chunks. */
  lemma ChunkSingleDocument(env: Splitters, d: RawDoc, target: int, overlap: int)
    ensures var s := StructuralSplit(env, d);
            ChunkDocument(env, [d], target, overlap)
            == if s.Err? then Err(s.error) else LengthBasedRefinement(env, s.value, target, overlap)
  {
    assert [d][1..] == [];
    var s := StructuralSplit(env, d);
    if s.Ok? && LengthBasedRefinement(env, s.value, target, overlap).Ok? {
      var v := LengthBasedRefinement(env, s.value, target, overlap).value;
      assert v + [] == v;
    }
  }

  /** With the defaults of `chunk_document` (500 tokens, overlap 100) the overlap check never
      fires: chunking fails exactly when some document's structural split does. */
  lemma ChunkDefaultsOutcome(env: Splitters, docs: seq<RawDoc>)
    ensures ChunkDocument(env, docs, DefaultTargetChunkSize, DefaultChunkOverlap).Ok?
            <==> forall k :: 0 <= k < |docs| ==> StructuralSplit(env, docs[k]).Ok?
  {
  }
}
