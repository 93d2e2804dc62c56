/** The FastAPI service's `PipelineState` (`src/api/app.py`): one pipeline, the fingerprint of
    the indexed document list, a processing status, and the endpoints that load, query and
    clear it. The file system, the hash and the pipeline's collaborators are the `Host`; upload
    persistence is not part of this model, so `/load` receives the saved paths. */
module App {
  import opened Wrappers
  import opened Text
  import opened Paths
  import opened Records
  import Pipelines
  import MainUtils
  import Fingerprint

  datatype Status = Idle | Processing | Ready | Error

  /** An entry of `loaded_documents`. */
  datatype LoadedDoc = LoadedDoc(name: string, path: string)

  datatype State = State(
    pipeline: Pipelines.Pipeline,
    fingerprint: Option<string>,
    status: Status,
    errorMessage: Option<string>,
    loaded: seq<LoadedDoc>,
    docsConfig: seq<DocEntry>)

  /** What the state machine runs against: file contents, `md5(...).hexdigest()`, and the
      pipeline's loaders, cleaners, splitter, retrieval collaborators and model. */
  datatype Host = Host(fs: Fingerprint.Files, md5: string -> string, svc: Pipelines.Services)

  /** A reply, or an `HTTPException` with its status code and detail. */
  datatype Response<T> = Success(body: T) | Failure(code: int, detail: string)

  /** `PipelineState()`: a pipeline with no store, nothing indexed, idle. */
  function Init(config: Pipelines.Config): State {
    State(Pipelines.Pipeline(config, None), None, Idle, None, [], [])
  }

  // ---------------------------------------------------------------------------
  // The state invariant

  /** A store, when there is one, is what preparing the recorded document list gives, under the
      configuration in place, and the fingerprint is that list's. */
  predicate Indexed(s: State, h: Host) {
    s.pipeline.store.Some? ==>
      && s.pipeline.config.documents == s.docsConfig
      && s.fingerprint == Some(Fingerprint.Fingerprint(h.fs, h.md5, s.docsConfig))
      && Pipelines.PrepareVectorStore(s.pipeline.(store := None), h.svc) == Ok(s.pipeline)
  }

  /** The service is ready exactly when a store exists; a ready service carries no error and a
      failed one carries its message. */
  predicate Inv(s: State, h: Host) {
    && (s.status == Ready <==> s.pipeline.store.Some?)
    && (s.status == Ready ==> s.errorMessage.None?)
    && (s.status == Error ==> s.errorMessage.Some?)
    && Indexed(s, h)
  }

  lemma InitInv(config: Pipelines.Config, h: Host)
    ensures Inv(Init(config), h)
    ensures Init(config).status == Idle && Init(config).pipeline.store.None?
  {
  }

  // ---------------------------------------------------------------------------
  // _prepare_docs_list

  function FileEntries(filePaths: seq<string>): (r: seq<DocEntry>)
    ensures |r| == |filePaths|
    ensures forall k :: 0 <= k < |r| ==> r[k] == DocEntry(filePaths[k], true)
  {
    seq(|filePaths|, k requires 0 <= k < |filePaths| => DocEntry(filePaths[k], true))
  }

  /** A URL form field counts when it is given and not the empty string (it is not stripped). */
  predicate HasUrl(url: Option<string>) {
    url.Some? && url.value != ""
  }

  /** `_prepare_docs_list`: the saved files in order, then the URL, all enabled. */
  function PrepareDocsList(filePaths: seq<string>, url: Option<string>): (r: seq<DocEntry>)
    ensures r == [] <==> filePaths == [] && !HasUrl(url)
    ensures forall d :: d in r ==> d.enabled
  {
    FileEntries(filePaths) + (if HasUrl(url) then [DocEntry(url.value, true)] else [])
  }

  function PathsOf(docs: seq<DocEntry>): (r: seq<string>)
    ensures |r| == |docs|
    ensures forall k :: 0 <= k < |docs| ==> r[k] == docs[k].path
  {
    seq(|docs|, k requires 0 <= k < |docs| => docs[k].path)
  }

  /** The listed paths are the files, then the URL when there is one. */
  lemma PrepareDocsPaths(filePaths: seq<string>, url: Option<string>)
    ensures PathsOf(PrepareDocsList(filePaths, url)) == filePaths + (if HasUrl(url) then [url.value] else [])
  {
  }

  // ---------------------------------------------------------------------------
  // _process_documents

  /** The `loaded_documents` of a successful rebuild: each document's basename and path. */
  function LoadedOf(docs: seq<DocEntry>): (r: seq<LoadedDoc>)
    ensures |r| == |docs|
    ensures forall k :: 0 <= k < |docs| ==>
              r[k].path == docs[k].path && '/' !in r[k].name && EndsWith(docs[k].path, r[k].name)
    ensures forall k :: 0 <= k < |docs| ==> r[k].name == Basename(docs[k].path)
  {
    seq(|docs|, k requires 0 <= k < |docs| => LoadedDoc(Basename(docs[k].path), docs[k].path))
  }

  /** The store matches `docs` by fingerprint, so it is reused. */
  predicate Reusable(s: State, h: Host, docs: seq<DocEntry>) {
    s.pipeline.store.Some? && s.fingerprint == Some(Fingerprint.Fingerprint(h.fs, h.md5, docs))
  }

  /** The pipeline a rebuild prepares: the old store dropped and `docs` configured. */
  function Rebuilt(s: State, docs: seq<DocEntry>): Pipelines.Pipeline {
    s.pipeline.(store := None, config := s.pipeline.config.(documents := docs))
  }

  /** `_process_documents`, run to completion. A store with a matching fingerprint is reused
      and only the status changes. Otherwise the store is dropped before preparing `docs`, and
      `docs` is recorded whatever the outcome: a success indexes `docs` under their fingerprint
      and lists them as loaded; a failure records its message, keeps the old fingerprint and
      loaded list, and leaves no store. */
  function ProcessDocuments(s: State, h: Host, docs: seq<DocEntry>): (r: State)
    ensures r.status == Ready || r.status == Error
    ensures Reusable(s, h, docs) ==> r == s.(status := Ready, errorMessage := None)
    ensures !Reusable(s, h, docs) ==>
              && r.docsConfig == docs
              && r.pipeline.config == s.pipeline.config.(documents := docs)
              && (r.status == Ready <==> Pipelines.PrepareVectorStore(Rebuilt(s, docs), h.svc).Ok?)
    ensures !Reusable(s, h, docs) && r.status == Ready ==>
              && r.pipeline == Pipelines.PrepareVectorStore(Rebuilt(s, docs), h.svc).value
              && r.fingerprint == Some(Fingerprint.Fingerprint(h.fs, h.md5, docs))
              && r.loaded == LoadedOf(docs)
              && r.errorMessage.None?
    ensures !Reusable(s, h, docs) && r.status == Error ==>
              && r.pipeline.store.None?
              && r.fingerprint == s.fingerprint
              && r.loaded == s.loaded
              && r.errorMessage == Some(Pipelines.PrepareVectorStore(Rebuilt(s, docs), h.svc).error)
  {
    if Reusable(s, h, docs) then s.(status := Ready, errorMessage := None)
    else
      var cleared := Rebuilt(s, docs);
      var started := s.(pipeline := cleared, docsConfig := docs, status := Processing, errorMessage := None);
      match Pipelines.PrepareVectorStore(cleared, h.svc)
      case Ok(p) =>
        started.(pipeline := p, fingerprint := Some(Fingerprint.Fingerprint(h.fs, h.md5, docs)),
                 status := Ready, loaded := LoadedOf(docs))
      case Err(e) => started.(status := Error, errorMessage := Some(e))
  }

  /** Processing establishes the invariant; on the reuse path it needs it beforehand. */
  lemma ProcessKeepsInv(s: State, h: Host, docs: seq<DocEntry>)
    requires Inv(s, h) || s.pipeline.store.None?
    ensures Inv(ProcessDocuments(s, h, docs), h)
  {
    if !Reusable(s, h, docs) {
      var cleared := Rebuilt(s, docs);
      var q := Pipelines.PrepareVectorStore(cleared, h.svc);
      if q.Ok? {
        assert q.value.(store := None) == cleared;
      }
    }
  }

  /** Nothing leaks from an earlier document set: every chunk in the store comes from an
      enabled document of the recorded list. */
  lemma StoreFromRecorded(s: State, h: Host, c: Doc)
    requires Inv(s, h) && s.pipeline.store.Some? && c in s.pipeline.store.value
    ensures exists k :: 0 <= k < |s.docsConfig| && s.docsConfig[k].enabled
                        && Pipelines.IngestDocument(h.svc, s.pipeline.config.chunking, s.docsConfig[k].path).Ok?
                        && c in Pipelines.IngestDocument(h.svc, s.pipeline.config.chunking, s.docsConfig[k].path).value
  {
    var p := s.pipeline.(store := None);
    Pipelines.PrepareContents(p, h.svc, c);
  }

  /** A failed rebuild leaves the service with no store, even though the old store matched
      another document list. */
  lemma FailedRebuildDropsStore(s: State, h: Host, docs: seq<DocEntry>)
    requires !Reusable(s, h, docs) && Pipelines.PrepareVectorStore(Rebuilt(s, docs), h.svc).Err?
    ensures ProcessDocuments(s, h, docs).pipeline.store.None?
    ensures ProcessDocuments(s, h, docs).status == Error
  {
  }

  /** Processing the indexed list again, in any order, is a no-op on an indexed service when no
      path repeats. */
  lemma ReprocessRearranged(s: State, h: Host, docs: seq<DocEntry>)
    requires Inv(s, h) && s.status == Ready
    requires multiset(docs) == multiset(s.docsConfig) && Fingerprint.UniquePaths(s.docsConfig)
    ensures ProcessDocuments(s, h, docs) == s
  {
    Fingerprint.FingerprintOrderFree(h.fs, h.md5, s.docsConfig, docs);
  }

  // ---------------------------------------------------------------------------
  // /load

  const LoadEmptyDetail := "Provide at least one file or URL."

  /** The two replies of `/load`: already indexed, or processing started in the background for
      the given list. */
  datatype LoadReply = AlreadyIndexed | Scheduled(docs: seq<DocEntry>)

  function LoadStatus(r: LoadReply): string {
    if r.AlreadyIndexed? then "ready" else "processing"
  }

  function LoadMessage(r: LoadReply): string {
    if r.AlreadyIndexed? then "Documents already indexed. Ready for queries."
    else "Document processing started. Check /status endpoint for progress."
  }

  /** `/load`, given the paths the uploads were saved to. The state is not changed; a
      `Scheduled` list is what the background task processes. */
  function Load(s: State, h: Host, filePaths: seq<string>, url: Option<string>): (r: Response<LoadReply>)
    ensures r.Failure? <==> filePaths == [] && !HasUrl(url)
    ensures r.Failure? ==> r.code == 400 && r.detail == LoadEmptyDetail
    ensures r.Success? && r.body.Scheduled? ==> r.body.docs == PrepareDocsList(filePaths, url)
  {
    var docs := PrepareDocsList(filePaths, url);
    if docs == [] then Failure(400, LoadEmptyDetail)
    else if Reusable(s, h, docs) then Success(AlreadyIndexed)
    else Success(Scheduled(docs))
  }

  /** `/load` and the background task agree: "already indexed" is answered exactly when the
      task would reuse the store, and then running it would change nothing. */
  lemma LoadAgreesWithProcess(s: State, h: Host, filePaths: seq<string>, url: Option<string>)
    requires Inv(s, h)
    requires Load(s, h, filePaths, url).Success?
    ensures var docs := PrepareDocsList(filePaths, url);
            && (Load(s, h, filePaths, url).body.AlreadyIndexed? <==> Reusable(s, h, docs))
            && (Load(s, h, filePaths, url).body.AlreadyIndexed? ==> ProcessDocuments(s, h, docs) == s)
            && (Load(s, h, filePaths, url).body.Scheduled? ==> ProcessDocuments(s, h, docs).docsConfig == docs)
  {
  }

  // ---------------------------------------------------------------------------
  // /query

  /** A source as the API returns it. */
  datatype ApiSource = ApiSource(name: string, path: string, pageInfo: string, snippet: string,
                                 chunk: string, highlightedChunk: string)

  datatype QueryReply = QueryReply(answer: string, sources: seq<ApiSource>)

  const SnippetLimit := 200

  /** The snippet cut to 200 characters, with `"..."` appended when it was longer. */
  function Snippet(s: string): (r: string)
    ensures |r| <= SnippetLimit + 3
    ensures |s| <= SnippetLimit ==> r == s
    ensures |s| > SnippetLimit ==> |r| == SnippetLimit + 3 && r[..SnippetLimit] == s[..SnippetLimit]
  {
    if |s| > SnippetLimit then s[..SnippetLimit] + "..." else s
  }

  /** Cutting a snippet twice is cutting it once. */
  lemma SnippetIdempotent(s: string)
    ensures Snippet(Snippet(s)) == Snippet(s)
  {
    if |s| > SnippetLimit {
      var r := Snippet(s);
      assert r[..SnippetLimit] == s[..SnippetLimit];
      assert r == s[..SnippetLimit] + "...";
    }
  }

  function ToApiSource(src: MainUtils.Source): (r: ApiSource)
    ensures r.path == src.path && r.snippet == Snippet(src.snippet)
    ensures r.chunk == src.chunk && r.highlightedChunk == src.highlightedChunk
    ensures r.name == Basename(src.path) && r.pageInfo == src.pageInfo
    ensures '/' !in r.name && EndsWith(src.path, r.name)
  {
    ApiSource(Basename(src.path), src.path, src.pageInfo, Snippet(src.snippet), src.chunk, src.highlightedChunk)
  }

  /** The pipeline's source paths are already basenames, so the name the API adds is the path. */
  lemma ApiSourceName(d: Doc, answer: Option<string>)
    ensures ToApiSource(MainUtils.MakeSource(d, answer)).name == MainUtils.MakeSource(d, answer).path
  {
    var p := MainUtils.SourcePath(d);
    assert '/' !in p;
    assert LastIndexOf(p, '/') == -1;
  }

  const ProcessingDetail := "Documents are still being processed. Please wait and check /status endpoint."
  const IdleDetail := "No documents loaded. Please load documents first using /load endpoint."

  /** `str(None)` or the message. */
  function ShowMessage(m: Option<string>): string {
    if m.Some? then m.value else "None"
  }

  function ErrorDetail(m: Option<string>): string {
    "Pipeline is in error state: " + ShowMessage(m)
  }

  function ApiSources(sources: seq<MainUtils.Source>): (r: seq<ApiSource>)
    ensures |r| == |sources|
    ensures forall k :: 0 <= k < |sources| ==> r[k] == ToApiSource(sources[k])
  {
    seq(|sources|, k requires 0 <= k < |sources| => ToApiSource(sources[k]))
  }

  /** `/query`: 503 unless ready, with a detail naming the status; 500 when answering raises;
      otherwise the answer with its sources in API form. */
  function Query(s: State, h: Host, query: string): (r: Response<QueryReply>)
    ensures s.status != Ready ==> r.Failure? && r.code == 503
    ensures s.status == Processing ==> r == Failure(503, ProcessingDetail)
    ensures s.status == Error ==> r == Failure(503, ErrorDetail(s.errorMessage))
    ensures s.status == Idle ==> r == Failure(503, IdleDetail)
    ensures s.status == Ready ==>
              (r.Success? <==> Pipelines.AnswerWithSources(s.pipeline, h.svc, query).Ok?)
    ensures s.status == Ready && r.Failure? ==>
              r == Failure(500, Pipelines.AnswerWithSources(s.pipeline, h.svc, query).error)
    ensures r.Success? ==> forall k :: 0 <= k < |r.body.sources| ==> |r.body.sources[k].snippet| <= SnippetLimit + 3
  {
    match s.status
    case Processing => Failure(503, ProcessingDetail)
    case Error => Failure(503, ErrorDetail(s.errorMessage))
    case Idle => Failure(503, IdleDetail)
    case Ready =>
      match Pipelines.AnswerWithSources(s.pipeline, h.svc, query)
      case Err(e) => Failure(500, e)
      case Ok(a) => Success(QueryReply(a.answer, ApiSources(a.sources)))
  }

  /** A ready service holds a non-empty store. */
  lemma ReadyStore(s: State, h: Host)
    requires Inv(s, h) && s.status == Ready
    ensures s.pipeline.store.Some? && s.pipeline.store.value != []
  {
    assert Pipelines.PrepareVectorStore(s.pipeline.(store := None), h.svc) == Ok(s.pipeline);
  }

  /** A ready service always has a retriever: its queries never fail for want of one. They are
      answered whenever the configured retrieval keys can be forwarded, with the pipeline's
      answer. */
  lemma QueryReady(s: State, h: Host, query: string)
    requires Inv(s, h) && s.status == Ready
    requires Pipelines.RetrieveKwargs(s.pipeline.config.retrieval).Ok?
    ensures Query(s, h, query).Success?
    ensures Query(s, h, query).body.answer == Pipelines.Answer(s.pipeline, h.svc, query).value
  {
    ReadyStore(s, h);
    Pipelines.RetrievePrepared(s.pipeline, h.svc, query);
  }

  /** ... and when a key cannot be forwarded, every query fails with the retriever's complaint,
      which is not the missing-retriever error. */
  lemma QueryReadyRejected(s: State, h: Host, query: string)
    requires s.status == Ready && s.pipeline.store.Some?
    requires Pipelines.RetrieveKwargs(s.pipeline.config.retrieval).Err?
    ensures Query(s, h, query) == Failure(500, Pipelines.RetrieveKwargs(s.pipeline.config.retrieval).error)
    ensures Query(s, h, query) != Failure(500, Pipelines.NotInitializedError)
  {
    Pipelines.UnexpectedKeywordDiffers("initial_k");
    Pipelines.UnexpectedKeywordDiffers("rerank_k");
    Pipelines.UnexpectedKeywordDiffers("mmr_k");
  }

  // ---------------------------------------------------------------------------
  // /cleanup and /cleanup_selected

  const CleanupMessage := "All indexed documents and context have been cleared."
  const NothingIndexedDetail := "No documents indexed to clear."
  const RebuiltMessage := "Selected sources cleared and context rebuilt."

  /** `/cleanup`: no store, no fingerprint, nothing recorded or loaded, idle, no error. The
      pipeline's configured document list is left as it was. */
  function Cleanup(s: State): (r: State)
    ensures r.pipeline.store.None? && r.pipeline.config == s.pipeline.config
    ensures r.fingerprint.None? && r.docsConfig == [] && r.loaded == []
    ensures r.status == Idle && r.errorMessage.None?
  {
    s.(pipeline := s.pipeline.(store := None), fingerprint := None, docsConfig := [], loaded := [],
       status := Idle, errorMessage := None)
  }

  lemma CleanupKeepsInv(s: State, h: Host)
    ensures Inv(Cleanup(s), h)
  {
  }

  /** The recorded documents whose path was not selected, in order. */
  function Remaining(docs: seq<DocEntry>, paths: set<string>): (r: seq<DocEntry>)
    ensures |r| <= |docs|
    ensures forall d :: d in r <==> d in docs && d.path !in paths
  {
    if docs == [] then []
    else (if docs[0].path in paths then [] else [docs[0]]) + Remaining(docs[1..], paths)
  }

  /** Selecting no recorded path removes nothing. */
  lemma {:induction false} RemainingNoneSelected(docs: seq<DocEntry>, paths: set<string>)
    requires forall k :: 0 <= k < |docs| ==> docs[k].path !in paths
    ensures Remaining(docs, paths) == docs
  {
    if docs != [] {
      RemainingNoneSelected(docs[1..], paths);
    }
  }

  /** The filter keeps order and repeats: filtering `a + b` is filtering `a`, then `b`. */
  lemma {:induction false} RemainingAppend(a: seq<DocEntry>, b: seq<DocEntry>, paths: set<string>)
    ensures Remaining(a + b, paths) == Remaining(a, paths) + Remaining(b, paths)
  {
    if a == [] {
      assert a + b == b;
    } else {
      assert (a + b)[0] == a[0];
      assert (a + b)[1..] == a[1..] + b;
      RemainingAppend(a[1..], b, paths);
    }
  }

  /** A single entry stays exactly when its path is not selected. */
  lemma RemainingSingle(d: DocEntry, paths: set<string>)
    ensures Remaining([d], paths) == if d.path in paths then [] else [d]
  {
    assert [d][1..] == [];
  }

  /** The reply of `/cleanup_selected`: the state after it and its message. */
  datatype Cleared = ClearedTo(state: State, message: string)

  /** `/cleanup_selected`: 400 when nothing is recorded; a full cleanup when every recorded
      document is selected; otherwise the store and fingerprint are dropped and the remaining
      documents processed again. In the full-cleanup reply the message of `/cleanup` replaces
      the endpoint's own, since the cleanup reply is spread into the dict last. */
  function CleanupSelected(s: State, h: Host, paths: seq<string>): (r: Response<Cleared>)
    ensures r.Failure? <==> s.docsConfig == []
    ensures r.Failure? ==> r == Failure(400, NothingIndexedDetail)
    ensures r.Success? && Remaining(s.docsConfig, set p | p in paths) == [] ==>
              r.body == ClearedTo(Cleanup(s), CleanupMessage)
    ensures r.Success? && Remaining(s.docsConfig, set p | p in paths) != [] ==>
              && r.body.message == RebuiltMessage
              && r.body.state.docsConfig == Remaining(s.docsConfig, set p | p in paths)
  {
    if s.docsConfig == [] then Failure(400, NothingIndexedDetail)
    else
      var remaining := Remaining(s.docsConfig, set p | p in paths);
      if remaining == [] then Success(ClearedTo(Cleanup(s), CleanupMessage))
      else
        var dropped := s.(pipeline := s.pipeline.(store := None), fingerprint := None);
        Success(ClearedTo(ProcessDocuments(dropped, h, remaining), RebuiltMessage))
  }

  /** After a partial cleanup no selected path is recorded, every recorded document was recorded
      before, and the service is rebuilt rather than reused. */
  lemma CleanupSelectedForgets(s: State, h: Host, paths: seq<string>)
    requires Inv(s, h) && CleanupSelected(s, h, paths).Success?
    ensures var t := CleanupSelected(s, h, paths).body.state;
            && Inv(t, h)
            && (forall d :: d in t.docsConfig ==> d in s.docsConfig && d.path !in paths)
            && (t.status == Ready ==> t.loaded == LoadedOf(t.docsConfig))
  {
    var remaining := Remaining(s.docsConfig, set p | p in paths);
    if remaining != [] {
      var dropped := s.(pipeline := s.pipeline.(store := None), fingerprint := None);
      ProcessKeepsInv(dropped, h, remaining);
    }
  }
}
