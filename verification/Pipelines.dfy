/** `RAGPipeline` (`src/rag/pipelines.py`): ingestion of the configured documents into the vector
    store, retrieval with the configured knobs, and the choice between the Stuff and Map-Reduce
    prompting strategies. The loaders, cleaners, splitter, tokenizer, retrieval collaborators and
    the LLM are parameters; the FAISS store is the sequence of chunks it holds. */
module Pipelines {
  import opened Wrappers
  import opened Text
  import opened Records
  import opened Lists
  import opened Loaders
  import opened Extractor
  import opened CleanNormalize
  import opened Chunking
  import MainUtils
  import Retriever

  const NoDocumentsError := "No documents configured for processing."
  const NoChunksError := "No chunks generated; check document config and ensure documents are enabled."
  const NotInitializedError := "Retriever not initialized. Call prepare_vector_store()."
  const NoInformationAnswer := "I don't have enough information to answer this question based on the provided documents."

  /** The `lambda_mult` default of `RerankMMRRetriever.retrieve`. */
  const DefaultLambda: real := 0.5

  /** The keys of the `retrieval` configuration that `retrieve` forwards, each present or not. */
  datatype RetrievalConfig = RetrievalConfig(
    lambdaMult: Option<real>,
    initialK: Option<int>,
    rerankK: Option<int>,
    mmrK: Option<int>,
    initialPct: Option<real>,
    rerankPct: Option<real>,
    mmrPct: Option<real>,
    minChunk: Option<int>)

  /** `chunking.target_chunk_size` and `chunking.chunk_overlap`. */
  datatype ChunkingConfig = ChunkingConfig(targetChunkSize: int, chunkOverlap: int)

  /** The parts of the configuration the pipeline reads. */
  datatype Config = Config(
    documents: seq<DocEntry>,
    chunking: ChunkingConfig,
    retrieval: RetrievalConfig,
    stuffTokenLimit: int)

  /** The chat model and the three prompt templates, each filled with a context (or the map
      step's answer) and the question. */
  datatype Llm = Llm(
    invoke: string -> string,
    stuffPrompt: (string, string) -> string,
    mapPrompt: (string, string) -> string,
    reducePrompt: (string, string) -> string)

  datatype Services = Services(
    load: (LoaderKind, string) -> Result<seq<Doc>>,
    cleaners: Cleaners,
    splitters: Splitters,
    retrieval: Retriever.Env,
    llm: Llm)

  /** The pipeline's state: its configuration and, once prepared, the chunks of its vector
      store (the retriever exists exactly when the store does). */
  datatype Pipeline = Pipeline(config: Config, store: Option<seq<Doc>>)

  // ---------------------------------------------------------------------------
  // prepare_vector_store

  /** load → extract → clean → chunk, for one document. */
  function IngestDocument(svc: Services, cfg: ChunkingConfig, path: string): Result<seq<Doc>> {
    var loaded :- LoadDocument(path, svc.load);
    var extracted :- ExtractDocumentInfo(loaded, path);
    var cleaned :- InitializeDocumentNormalizer(svc.cleaners, ToRaws(extracted));
    ChunkDocument(svc.splitters, ToRaws(cleaned), cfg.targetChunkSize, cfg.chunkOverlap)
  }

  predicate TaggedMeta(m: Metadata, docType: string) {
    "doc_type" in m && m["doc_type"] == MStr(docType)
  }

  lemma SameOutsideKey(m: Metadata, orig: Metadata, changed: set<string>, key: string)
    requires SameOutside(m, orig, changed) && key !in changed && key in orig
    ensures key in m && m[key] == orig[key]
  {
    assert key in orig - changed;
    assert (m - changed)[key] == (orig - changed)[key];
  }

  /** Extracted records carry a `doc_type`, so cleaning them succeeds and keeps their
      metadata. */
  lemma ExtractedCleanable(svc: Services, loaded: seq<Doc>, path: string)
    requires ExtractDocumentInfo(loaded, path).Ok?
    ensures var extracted := ExtractDocumentInfo(loaded, path).value;
            var cleaned := InitializeDocumentNormalizer(svc.cleaners, ToRaws(extracted));
            && cleaned.Ok?
            && |cleaned.value| == |extracted|
            && forall k :: 0 <= k < |extracted| ==>
                 cleaned.value[k].metadata == extracted[k].metadata
                 && TaggedMeta(extracted[k].metadata, DocType(path))
  {
    var extracted := ExtractDocumentInfo(loaded, path).value;
    var raws := ToRaws(extracted);
    forall k | 0 <= k < |extracted|
      ensures TaggedMeta(extracted[k].metadata, DocType(path)) && Cleanable(raws[k])
    {
      assert extracted[k] == ExtractOne(DocType(path), path, loaded[k], k).value;
      assert raws[k] == ToRaw(extracted[k]);
    }
  }

  /** Cleaned records with a `doc_type` all pass the structural split, so chunking them fails
      only on the splitter's overlap check: exactly when the overlap exceeds the target and a
      structural chunk is above it, and then with the overlap error. */
  lemma CleanedChunkable(svc: Services, cfg: ChunkingConfig, cleaned: seq<Doc>)
    requires forall k :: 0 <= k < |cleaned| ==> "doc_type" in cleaned[k].metadata
    ensures var target := cfg.targetChunkSize;
            var r := ChunkDocument(svc.splitters, ToRaws(cleaned), target, cfg.chunkOverlap);
            && (r.Ok? <==> cfg.chunkOverlap <= target
                           || forall k :: 0 <= k < |cleaned| ==> !NeedsResplit(svc.splitters, ToRaw(cleaned[k]), target))
            && (r.Err? ==> r.error == OverlapError(SubConfig(target, cfg.chunkOverlap)))
  {
    var raws := ToRaws(cleaned);
    forall k | 0 <= k < |raws|
      ensures raws[k] == ToRaw(cleaned[k]) && StructuralSplit(svc.splitters, raws[k]).Ok?
    {
      assert raws[k] == ToRaw(cleaned[k]);
    }
  }

  /** Loading and extraction fail a document with their own errors; the records they produce
      always pass cleaning, and chunking them can fail only with the splitter's overlap error,
      never when the overlap is within the target. */
  lemma IngestOutcome(svc: Services, cfg: ChunkingConfig, path: string)
    ensures var loaded := LoadDocument(path, svc.load);
            var r := IngestDocument(svc, cfg, path);
            && (loaded.Err? ==> r == Err(loaded.error))
            && (loaded.Ok? ==>
                  var extracted := ExtractDocumentInfo(loaded.value, path);
                  && (extracted.Err? ==> r == Err(extracted.error))
                  && (extracted.Ok? && cfg.chunkOverlap <= cfg.targetChunkSize ==> r.Ok?)
                  && (extracted.Ok? && r.Err? ==>
                        r.error == OverlapError(SubConfig(cfg.targetChunkSize, cfg.chunkOverlap))))
  {
    var loaded := LoadDocument(path, svc.load);
    if loaded.Ok? && ExtractDocumentInfo(loaded.value, path).Ok? {
      ExtractedCleanable(svc, loaded.value, path);
      var cleaned := InitializeDocumentNormalizer(svc.cleaners, ToRaws(ExtractDocumentInfo(loaded.value, path).value)).value;
      CleanedChunkable(svc, cfg, cleaned);
    }
  }

  /** A chunk of a record tagged with a type is tagged with it too: neither the structural
      split nor the refinement touches `doc_type`. */
  lemma ChunkOneTagged(env: Splitters, target: int, overlap: int, raw: RawDoc, c: Doc, docType: string)
    requires ChunkOne(env, target, overlap, raw).Ok? && c in ChunkOne(env, target, overlap, raw).value
    requires raw.metadata.Some? && TaggedMeta(raw.metadata.value, docType)
    ensures TaggedMeta(c.metadata, docType)
  {
    var structural := StructuralSplit(env, raw).value;
    var f := RefineStep(env, target, overlap);
    TryFlatMapFromMembers(f, structural, 0, c);
    var i :| YieldedAt(f, structural, 0, c, i);
    var refined := RefineChunk(env, target, overlap, structural[i], i).value;
    assert c in refined;
    StructuralKeepsMetadata(env, raw, i);
    SameOutsideKey(structural[i].metadata, raw.metadata.value, ChunkKeys, "doc_type");
    RefineChunkSpec(env, target, overlap, structural[i], i);
    if env.tokens(structural[i].text) > target {
      var j :| 0 <= j < |refined| && refined[j] == c;
      SameOutsideKey(c.metadata, structural[i].metadata, ChunkKeys, "doc_type");
    }
  }

  /** Every chunk of a document carries the document type of its path. */
  lemma IngestTagged(svc: Services, cfg: ChunkingConfig, path: string, c: Doc)
    requires IngestDocument(svc, cfg, path).Ok? && c in IngestDocument(svc, cfg, path).value
    ensures TaggedMeta(c.metadata, DocType(path))
  {
    var loaded := LoadDocument(path, svc.load).value;
    var extracted := ExtractDocumentInfo(loaded, path).value;
    ExtractedCleanable(svc, loaded, path);
    var cleaned := InitializeDocumentNormalizer(svc.cleaners, ToRaws(extracted)).value;
    var raws := ToRaws(cleaned);
    var f := ChunkStep(svc.splitters, cfg.targetChunkSize, cfg.chunkOverlap);
    TryFlatMapMembers(f, raws, c);
    var k :| 0 <= k < |raws| && f(raws[k]).Ok? && c in f(raws[k]).value;
    assert raws[k] == ToRaw(cleaned[k]);
    ChunkOneTagged(svc.splitters, cfg.targetChunkSize, cfg.chunkOverlap, raws[k], c, DocType(path));
  }

  function ProcessingError(path: string, cause: string): string {
    "Error processing document " + path + ": " + cause
  }

  /** One iteration of the document loop: a disabled entry yields nothing; an enabled one its
      chunks, or the error re-raised with its path. */
  function ProcessEntry(svc: Services, cfg: ChunkingConfig, d: DocEntry): (r: Result<seq<Doc>>)
    ensures !d.enabled ==> r == Ok([])
    ensures d.enabled ==> (r.Ok? <==> IngestDocument(svc, cfg, d.path).Ok?)
    ensures d.enabled && r.Ok? ==> r.value == IngestDocument(svc, cfg, d.path).value
    ensures d.enabled && r.Err? ==> r.error == ProcessingError(d.path, IngestDocument(svc, cfg, d.path).error)
  {
    if !d.enabled then Ok([])
    else
      match IngestDocument(svc, cfg, d.path)
      case Err(e) => Err(ProcessingError(d.path, e))
      case Ok(chunks) => Ok(chunks)
  }

  function ProcessStep(svc: Services, cfg: ChunkingConfig): DocEntry -> Result<seq<Doc>> {
    d => ProcessEntry(svc, cfg, d)
  }

  /** `prepare_vector_store`: an empty document list, a failing enabled document and an empty
      result are errors; otherwise the store holds the chunks of the enabled documents, in
      order. A failure leaves the pipeline as it was. */
  function PrepareVectorStore(p: Pipeline, svc: Services): (r: Result<Pipeline>)
    ensures p.config.documents == [] ==> r == Err(NoDocumentsError)
    ensures r.Ok? ==> r.value == p.(store := r.value.store) && r.value.store.Some? && r.value.store.value != []
  {
    if p.config.documents == [] then Err(NoDocumentsError)
    else
      var chunks :- TryFlatMap(ProcessStep(svc, p.config.chunking), p.config.documents);
      if chunks == [] then Err(NoChunksError)
      else Ok(p.(store := Some(chunks)))
  }

  /** The documents of `p` yield chunks without failing. */
  predicate AllIngest(p: Pipeline, svc: Services) {
    forall k :: 0 <= k < |p.config.documents| && p.config.documents[k].enabled ==>
      IngestDocument(svc, p.config.chunking, p.config.documents[k].path).Ok?
  }

  /** Preparation succeeds exactly when there are documents, every enabled one is ingested and
      one of them yields a chunk. */
  lemma PrepareSucceeds(p: Pipeline, svc: Services)
    ensures var docs := p.config.documents;
            PrepareVectorStore(p, svc).Ok? <==>
              && docs != [] && AllIngest(p, svc)
              && exists k :: 0 <= k < |docs| && docs[k].enabled
                             && IngestDocument(svc, p.config.chunking, docs[k].path).Ok?
                             && IngestDocument(svc, p.config.chunking, docs[k].path).value != []
  {
    var f := ProcessStep(svc, p.config.chunking);
    var docs := p.config.documents;
    TryFlatMapOk(f, docs);
    assert TryFlatMap(f, docs).Ok? <==> AllIngest(p, svc) by {
      assert forall k :: 0 <= k < |docs| ==>
        (f(docs[k]).Ok? <==> !docs[k].enabled || IngestDocument(svc, p.config.chunking, docs[k].path).Ok?);
    }
    if TryFlatMap(f, docs).Ok? {
      TryFlatMapNonEmpty(f, docs);
      assert forall k :: 0 <= k < |docs| ==>
        (f(docs[k]).Ok? && f(docs[k]).value != [] <==>
           docs[k].enabled && IngestDocument(svc, p.config.chunking, docs[k].path).Ok?
           && IngestDocument(svc, p.config.chunking, docs[k].path).value != []);
    }
  }

  /** A prepared store holds exactly the chunks of the enabled documents. */
  lemma PrepareContents(p: Pipeline, svc: Services, c: Doc)
    requires PrepareVectorStore(p, svc).Ok?
    ensures var docs := p.config.documents;
            c in PrepareVectorStore(p, svc).value.store.value <==>
              exists k :: 0 <= k < |docs| && docs[k].enabled
                          && IngestDocument(svc, p.config.chunking, docs[k].path).Ok?
                          && c in IngestDocument(svc, p.config.chunking, docs[k].path).value
  {
    var f := ProcessStep(svc, p.config.chunking);
    var docs := p.config.documents;
    TryFlatMapMembers(f, docs, c);
    if c in PrepareVectorStore(p, svc).value.store.value {
      var k :| 0 <= k < |docs| && f(docs[k]).Ok? && c in f(docs[k]).value;
      assert docs[k].enabled;
    }
    if exists k :: 0 <= k < |docs| && docs[k].enabled && IngestDocument(svc, p.config.chunking, docs[k].path).Ok?
                   && c in IngestDocument(svc, p.config.chunking, docs[k].path).value {
      var k :| 0 <= k < |docs| && docs[k].enabled && IngestDocument(svc, p.config.chunking, docs[k].path).Ok?
               && c in IngestDocument(svc, p.config.chunking, docs[k].path).value;
      assert f(docs[k]).Ok? && c in f(docs[k]).value;
    }
  }

  /** The first enabled document that fails fails the preparation, with its path in the
      message. */
  lemma PrepareFirstFailure(p: Pipeline, svc: Services, k: nat)
    requires k < |p.config.documents|
    requires var d := p.config.documents[k]; d.enabled && IngestDocument(svc, p.config.chunking, d.path).Err?
    requires forall j :: 0 <= j < k && p.config.documents[j].enabled ==>
               IngestDocument(svc, p.config.chunking, p.config.documents[j].path).Ok?
    ensures var d := p.config.documents[k];
            PrepareVectorStore(p, svc) == Err(ProcessingError(d.path, IngestDocument(svc, p.config.chunking, d.path).error))
  {
    var f := ProcessStep(svc, p.config.chunking);
    var docs := p.config.documents;
    forall j | 0 <= j < k
      ensures f(docs[j]).Ok?
    {
    }
    TryFlatMapFirstError(f, docs, k);
  }

  /** Every chunk in a prepared store carries the document type of one of the enabled
      documents. */
  lemma PrepareTagged(p: Pipeline, svc: Services, c: Doc)
    requires PrepareVectorStore(p, svc).Ok? && c in PrepareVectorStore(p, svc).value.store.value
    ensures exists k :: 0 <= k < |p.config.documents| && p.config.documents[k].enabled
                        && TaggedMeta(c.metadata, DocType(p.config.documents[k].path))
  {
    PrepareContents(p, svc, c);
    var docs := p.config.documents;
    var k :| 0 <= k < |docs| && docs[k].enabled && IngestDocument(svc, p.config.chunking, docs[k].path).Ok?
             && c in IngestDocument(svc, p.config.chunking, docs[k].path).value;
    IngestTagged(svc, p.config.chunking, docs[k].path, c);
  }

  /** The enabled entries of a document list, in order. */
  function EnabledOnly(docs: seq<DocEntry>): (r: seq<DocEntry>)
    ensures forall d :: d in r <==> d in docs && d.enabled
  {
    if docs == [] then []
    else (if docs[0].enabled then [docs[0]] else []) + EnabledOnly(docs[1..])
  }

  lemma {:induction false} ProcessEnabledOnly(svc: Services, cfg: ChunkingConfig, docs: seq<DocEntry>)
    ensures TryFlatMap(ProcessStep(svc, cfg), EnabledOnly(docs)) == TryFlatMap(ProcessStep(svc, cfg), docs)
  {
    var f := ProcessStep(svc, cfg);
    if docs != [] {
      ProcessEnabledOnly(svc, cfg, docs[1..]);
      var head := if docs[0].enabled then [docs[0]] else [];
      TryFlatMapAppend(f, head, EnabledOnly(docs[1..]));
      assert docs == [docs[0]] + docs[1..];
      TryFlatMapAppend(f, [docs[0]], docs[1..]);
      assert [docs[0]][1..] == [];
      if !docs[0].enabled {
        assert [] + EnabledOnly(docs[1..]) == EnabledOnly(docs[1..]);
        var rest := TryFlatMap(f, docs[1..]);
        if rest.Ok? {
          assert [] + rest.value == rest.value;
        }
      }
    }
  }

  /** Disabled entries play no part: when some entry is enabled, dropping the disabled ones
      changes neither the outcome nor the store. */
  lemma PrepareOnlyEnabled(p: Pipeline, svc: Services)
    requires exists d :: d in p.config.documents && d.enabled
    ensures var q := p.(config := p.config.(documents := EnabledOnly(p.config.documents)));
            var r := PrepareVectorStore(p, svc);
            var r' := PrepareVectorStore(q, svc);
            && (r.Ok? <==> r'.Ok?)
            && (r.Ok? ==> r.value.store == r'.value.store)
            && (r.Err? ==> r.error == r'.error)
  {
    var d :| d in p.config.documents && d.enabled;
    assert d in EnabledOnly(p.config.documents);
    var q := p.(config := p.config.(documents := EnabledOnly(p.config.documents)));
    ProcessEnabledOnly(svc, p.config.chunking, p.config.documents);
    var t := TryFlatMap(ProcessStep(svc, p.config.chunking), p.config.documents);
    assert q.config.chunking == p.config.chunking;
    assert PrepareVectorStore(q, svc) ==
      if t.Err? then Err(t.error) else if t.value == [] then Err(NoChunksError) else Ok(q.(store := Some(t.value)));
  }

  // ---------------------------------------------------------------------------
  // retrieve

  function UnexpectedKeyword(key: string): string {
    "RerankMMRRetriever.retrieve() got an unexpected keyword argument '" + key + "'"
  }

  /** The keyword arguments `retrieve` passes on: `lambda_mult`, the three percentages and
      `min_chunk`; a configured `initial_k`, `rerank_k` or `mmr_k` is passed on too and is
      rejected by the retriever, the first one in the order of the key list. */
  function RetrieveKwargs(rc: RetrievalConfig): (r: Result<Retriever.Knobs>)
    ensures r.Err? <==> rc.initialK.Some? || rc.rerankK.Some? || rc.mmrK.Some?
    ensures rc.initialK.Some? ==> r == Err(UnexpectedKeyword("initial_k"))
    ensures r.Err? ==> r.error in {UnexpectedKeyword("initial_k"), UnexpectedKeyword("rerank_k"), UnexpectedKeyword("mmr_k")}
    ensures r.Ok? ==> && r.value.initialPct == rc.initialPct && r.value.rerankPct == rc.rerankPct
                      && r.value.mmrPct == rc.mmrPct && r.value.minChunk == rc.minChunk
                      && r.value.lambdaMult == (if rc.lambdaMult.Some? then rc.lambdaMult.value else DefaultLambda)
  {
    if rc.initialK.Some? then Err(UnexpectedKeyword("initial_k"))
    else if rc.rerankK.Some? then Err(UnexpectedKeyword("rerank_k"))
    else if rc.mmrK.Some? then Err(UnexpectedKeyword("mmr_k"))
    else
      var lambdaMult := if rc.lambdaMult.Some? then rc.lambdaMult.value else DefaultLambda;
      Ok(Retriever.Knobs(rc.initialPct, rc.rerankPct, rc.mmrPct, lambdaMult, rc.minChunk))
  }

  /** The retriever's complaint is not the missing-retriever error. */
  lemma UnexpectedKeywordDiffers(key: string)
    ensures UnexpectedKeyword(key) != NotInitializedError
  {
    assert |NotInitializedError| < |UnexpectedKeyword(key)|;
  }

  /** The configuration that spells out a set of knobs. */
  function ConfigOf(k: Retriever.Knobs): RetrievalConfig {
    RetrievalConfig(Some(k.lambdaMult), None, None, None, k.initialPct, k.rerankPct, k.mmrPct, k.minChunk)
  }

  /** Forwarding loses nothing: the knobs spelled out as configuration come back unchanged, and
      a configuration that is forwarded is the one its knobs spell out, up to the default
      `lambda_mult`. */
  lemma KwargsRoundTrip(k: Retriever.Knobs, rc: RetrievalConfig)
    ensures RetrieveKwargs(ConfigOf(k)) == Ok(k)
    ensures RetrieveKwargs(rc).Ok? ==>
              ConfigOf(RetrieveKwargs(rc).value) == rc.(lambdaMult := Some(RetrieveKwargs(rc).value.lambdaMult))
  {
  }

  /** `retrieve`: an unprepared pipeline raises; otherwise the cascade over the store with the
      forwarded knobs. */
  function PipelineRetrieve(p: Pipeline, svc: Services, query: string): (r: Result<seq<Doc>>)
    ensures p.store.None? ==> r == Err(NotInitializedError)
    ensures p.store.Some? ==> (r.Ok? <==> RetrieveKwargs(p.config.retrieval).Ok?)
    ensures p.store.Some? && r.Err? ==> r.error == RetrieveKwargs(p.config.retrieval).error
  {
    if p.store.None? then Err(NotInitializedError)
    else
      var knobs :- RetrieveKwargs(p.config.retrieval);
      Ok(Retriever.Retrieve(p.store.value, svc.retrieval, query, knobs).docs)
  }

  /** A prepared pipeline with forwardable knobs returns at most the documents the cascade
      keeps, each one the search returned. */
  lemma RetrievePrepared(p: Pipeline, svc: Services, query: string)
    requires p.store.Some? && p.store.value != [] && RetrieveKwargs(p.config.retrieval).Ok?
    ensures var r := PipelineRetrieve(p, svc, query);
            var knobs := RetrieveKwargs(p.config.retrieval).value;
            && r.Ok?
            && r.value == Retriever.Retrieve(p.store.value, svc.retrieval, query, knobs).docs
            && (knobs.minChunk.Some? && |p.store.value| <= knobs.minChunk.value ==>
                  r.value == svc.retrieval.search(p.store.value, query, |p.store.value|))
            && (!(knobs.minChunk.Some? && |p.store.value| <= knobs.minChunk.value) ==>
                  exists ik: nat :: ik <= |p.store.value|
                    && multiset(r.value) <= multiset(svc.retrieval.search(p.store.value, query, ik)))
  {
    var knobs := RetrieveKwargs(p.config.retrieval).value;
    Retriever.RetrieveShape(p.store.value, svc.retrieval, query, knobs);
    var n := |p.store.value|;
    if !(knobs.minChunk.Some? && n <= knobs.minChunk.value) && MainUtils.ComputeK(n, knobs.initialPct, n) == 0 {
      assert multiset(PipelineRetrieve(p, svc, query).value) <= multiset(svc.retrieval.search(p.store.value, query, 0));
    }
  }

  // ---------------------------------------------------------------------------
  // answer_with_sources

  datatype Strategy = Stuff | MapReduce

  /** `sum(num_tokens_from_string(doc.page_content) for doc in documents)`. */
  function TotalTokens(tokens: string -> nat, docs: seq<Doc>): (n: nat)
    ensures docs == [] ==> n == 0
    ensures forall k :: 0 <= k < |docs| ==> tokens(docs[k].text) <= n
  {
    if docs == [] then 0 else tokens(docs[0].text) + TotalTokens(tokens, docs[1..])
  }

  /** The total is a sum: over a concatenation it adds the parts' totals, and one document
      counts its own tokens. */
  lemma {:induction false} TotalTokensAppend(tokens: string -> nat, a: seq<Doc>, b: seq<Doc>)
    ensures TotalTokens(tokens, a + b) == TotalTokens(tokens, a) + TotalTokens(tokens, b)
  {
    if a != [] {
      assert (a + b)[0] == a[0] && (a + b)[1..] == a[1..] + b;
      TotalTokensAppend(tokens, a[1..], b);
    } else {
      assert a + b == b;
    }
  }

  lemma TotalTokensSingle(tokens: string -> nat, d: Doc)
    ensures TotalTokens(tokens, [d]) == tokens(d.text)
  {
    assert [d][1..] == [];
  }

  /** Stuff when the whole context fits the token limit, Map-Reduce otherwise. */
  function ChooseStrategy(total: nat, limit: int): (s: Strategy)
    ensures s == Stuff <==> total <= limit
  {
    if total <= limit then Stuff else MapReduce
  }

  /** An answer with the user prompts sent to the model, in order. */
  datatype Generation = Generation(answer: string, prompts: seq<string>)

  /** `_answer_with_stuff` and `_answer_with_map_reduce` over the citation-free context. */
  function Generate(llm: Llm, s: Strategy, context: string, query: string): (g: Generation)
    ensures |g.prompts| == (if s == Stuff then 1 else 2)
    ensures g.answer == llm.invoke(g.prompts[|g.prompts| - 1])
    ensures g.prompts[0] == (if s == Stuff then llm.stuffPrompt(context, query) else llm.mapPrompt(context, query))
    ensures s == MapReduce ==> g.prompts[1] == llm.reducePrompt(llm.invoke(g.prompts[0]), query)
  {
    match s
    case Stuff =>
      var prompt := llm.stuffPrompt(context, query);
      Generation(llm.invoke(prompt), [prompt])
    case MapReduce =>
      var mapPrompt := llm.mapPrompt(context, query);
      var reducePrompt := llm.reducePrompt(llm.invoke(mapPrompt), query);
      Generation(llm.invoke(reducePrompt), [mapPrompt, reducePrompt])
  }

  /** The returned `{"answer", "sources"}`, with the prompts sent to the model. */
  datatype Answered = Answered(answer: string, sources: seq<MainUtils.Source>, prompts: seq<string>)

  /** `answer_with_sources`. */
  function AnswerWithSources(p: Pipeline, svc: Services, query: string): (r: Result<Answered>)
    ensures r.Err? <==> PipelineRetrieve(p, svc, query).Err?
    ensures r.Err? ==> r.error == PipelineRetrieve(p, svc, query).error
  {
    var docs :- PipelineRetrieve(p, svc, query);
    if docs == [] then Ok(Answered(NoInformationAnswer, [], []))
    else
      var total := TotalTokens(svc.splitters.tokens, docs);
      var strategy := ChooseStrategy(total, p.config.stuffTokenLimit);
      var g := Generate(svc.llm, strategy, MainUtils.BuildContext(docs, false), query);
      Ok(Answered(g.answer, MainUtils.ExtractSources(docs, Some(g.answer)), g.prompts))
  }

  /** Nothing retrieved: the fixed answer, no sources and no call to the model, whatever the
      model would say. */
  lemma AnswerNothingRetrieved(p: Pipeline, svc: Services, query: string)
    requires PipelineRetrieve(p, svc, query) == Ok([])
    ensures AnswerWithSources(p, svc, query) == Ok(Answered(NoInformationAnswer, [], []))
  {
  }

  /** Something retrieved: one Stuff prompt when the retrieved texts fit the token limit, else a
      map prompt and a reduce prompt over the same context; the answer is the model's reply to
      the last prompt and the sources are those of the retrieved documents, highlighted against
      that answer. */
  lemma AnswerStrategy(p: Pipeline, svc: Services, query: string)
    requires PipelineRetrieve(p, svc, query).Ok? && PipelineRetrieve(p, svc, query).value != []
    ensures var docs := PipelineRetrieve(p, svc, query).value;
            var a := AnswerWithSources(p, svc, query).value;
            var context := MainUtils.BuildContext(docs, false);
            && (|a.prompts| == 1 <==> TotalTokens(svc.splitters.tokens, docs) <= p.config.stuffTokenLimit)
            && 1 <= |a.prompts| <= 2
            && a.answer == svc.llm.invoke(a.prompts[|a.prompts| - 1])
            && a.prompts[0] in {svc.llm.stuffPrompt(context, query), svc.llm.mapPrompt(context, query)}
            && a.sources == MainUtils.ExtractSources(docs, Some(a.answer))
  {
  }

  /** A pipeline that was never prepared answers nothing. */
  lemma AnswerUnprepared(p: Pipeline, svc: Services, query: string)
    requires p.store.None?
    ensures AnswerWithSources(p, svc, query) == Err(NotInitializedError)
  {
  }

  /** `answer`: the answer field of `answer_with_sources`. */
  function Answer(p: Pipeline, svc: Services, query: string): (r: Result<string>)
    ensures r.Ok? <==> AnswerWithSources(p, svc, query).Ok?
    ensures r.Ok? ==> r.value == AnswerWithSources(p, svc, query).value.answer
  {
    var a :- AnswerWithSources(p, svc, query);
    Ok(a.answer)
  }
}
