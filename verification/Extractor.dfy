/** `DocumentExtractor.extract_document_info` (`src/ingestion/extractor.py`): turns the parts a
    loader returned into records whose metadata holds exactly `doc_type`, `source`, `page` and
    `section`. */
module Extractor {
  import opened Wrappers
  import opened Text
  import opened Paths
  import opened Records
  import opened Lists

  /** The keys of an extracted record's metadata. */
  const ExtractedKeys: set<string> := {"doc_type", "source", "page", "section"}

  /** The `AttributeError` of calling `startswith` on an int `source`. */
  const IntSourceError := "'int' object has no attribute 'startswith'"

  /** The `TypeError` of adding 1 to a string `page`. */
  const StrPageError := "can only concatenate str (not \"int\") to str"

  /** Lower-casing neither creates nor removes a character that is not a letter. */
  lemma LowerAvoids(s: string, c: char)
    requires !('A' <= c <= 'Z') && !('a' <= c <= 'z') && c !in s
    ensures c !in Lower(s)
  {
    var r := Lower(s);
    forall i | 0 <= i < |r|
      ensures r[i] != c
    {
      assert r[i] == LowerChar(s[i]);
    }
  }

  /** The document type of a path: `"web"` for a URL; otherwise the lower-cased extension
      without its dot (`"docx"` for `"doc"`), or `"unknown"` when `os.path.splitext` finds none.
      An extension that is only a dot gives the empty type. */
  function DocType(path: string): (t: string)
    ensures IsUrl(path) ==> t == "web"
    ensures !IsUrl(path) && SplitExt(path) == "" ==> t == "unknown"
    ensures !IsUrl(path) && SplitExt(path) != "" ==>
              t == (var e := Lower(SplitExt(path)[1..]); if e == "doc" then "docx" else e)
    ensures '.' !in t && '/' !in t
    ensures forall i :: 0 <= i < |t| ==> !('A' <= t[i] <= 'Z')
    ensures t != "doc"
  {
    if IsUrl(path) then "web"
    else if SplitExt(path) == "" then "unknown"
    else
      var ext := SplitExt(path);
      ExtensionType(ext);
      var e := Lower(ext[1..]);
      if e == "doc" then "docx" else e
  }

  /** The type named by an extension has no dot, slash or upper-case letter, and is never
      `"doc"`. */
  lemma ExtensionType(ext: string)
    requires ext != [] && '.' !in ext[1..] && '/' !in ext
    ensures var e := Lower(ext[1..]); var t := if e == "doc" then "docx" else e;
            '.' !in t && '/' !in t && (forall i :: 0 <= i < |t| ==> !('A' <= t[i] <= 'Z')) && t != "doc"
  {
    var x := ext[1..];
    assert '/' !in x by {
      assert forall i :: 0 <= i < |x| ==> x[i] == ext[i + 1];
    }
    LowerAvoids(x, '.');
    LowerAvoids(x, '/');
  }

  /** The `source` entry: a non-empty string that is not a URL is cut to its basename; an empty
      string, a URL and the int 0 are kept; any other int has no `startswith` and raises. */
  function SourceEntry(v: MetaValue): (r: Result<MetaValue>)
    ensures r.Err? <==> v.MInt? && v.i != 0
    ensures r.Err? ==> r.error == IntSourceError
    ensures r.Ok? && v.MStr? && v.s != "" && !IsUrl(v.s) ==> r.value == MStr(Basename(v.s))
    ensures r.Ok? && v.MStr? && v.s != "" && !IsUrl(v.s) ==> '/' !in r.value.s && EndsWith(v.s, r.value.s)
    ensures r.Ok? && !(v.MStr? && v.s != "" && !IsUrl(v.s)) ==> r.value == v
  {
    match v
    case MStr(s) => if s != "" && !IsUrl(s) then Ok(MStr(Basename(s))) else Ok(v)
    case MInt(n) => if n != 0 then Err(IntSourceError) else Ok(v)
  }

  /** Normalizing a source twice is normalizing it once: a basename has no `/`, so it is its own
      basename and cannot start with a URL scheme. */
  lemma SourceEntryIdempotent(v: MetaValue)
    requires SourceEntry(v).Ok?
    ensures SourceEntry(SourceEntry(v).value) == SourceEntry(v)
  {
    var w := SourceEntry(v).value;
    if w.MStr? && w.s != "" && !IsUrl(w.s) && w != v {
      var b := w.s;
      assert '/' !in b;
      assert LastIndexOf(b, '/') == -1;
      assert Basename(b) == b;
    }
  }

  /** The `page` entry of part number `i`: one more than the loader's page when it has one,
      else `i + 1`. A string page cannot be added to 1 and raises. */
  function PageEntry(metadata: Metadata, i: nat): (r: Result<int>)
    ensures "page" !in metadata ==> r == Ok(i + 1)
    ensures "page" in metadata && metadata["page"].MInt? ==> r == Ok(metadata["page"].i + 1)
    ensures "page" in metadata && metadata["page"].MStr? ==> r == Err(StrPageError)
  {
    if "page" !in metadata then Ok(i + 1)
    else
      match metadata["page"]
      case MInt(p) => Ok(p + 1)
      case MStr(_) => Err(StrPageError)
  }

  /** `dict.get(key, default)`. */
  function Get(m: Metadata, key: string, default: MetaValue): MetaValue {
    if key in m then m[key] else default
  }

  /** The checks a part passes: its source is not a non-zero int and its page not a string. */
  predicate Extractable(docPath: string, part: Doc, i: nat) {
    SourceEntry(Get(part.metadata, "source", MStr(docPath))).Ok? && PageEntry(part.metadata, i).Ok?
  }

  /** One iteration of the extraction loop, for part number `i`: the text unchanged, and
      metadata holding exactly the derived `doc_type`, `source`, `page` and `section` (the
      loader's other metadata is dropped). */
  function ExtractOne(docType: string, docPath: string, part: Doc, i: nat): (r: Result<Doc>)
    ensures r.Ok? <==> Extractable(docPath, part, i)
    ensures r.Ok? ==>
              var m := r.value.metadata;
              && r.value.text == part.text
              && m.Keys == ExtractedKeys
              && m["doc_type"] == MStr(docType)
              && m["source"] == SourceEntry(Get(part.metadata, "source", MStr(docPath))).value
              && m["page"] == MInt(PageEntry(part.metadata, i).value)
              && m["section"] == Get(part.metadata, "section", MStr("N/A"))
  {
    var source :- SourceEntry(Get(part.metadata, "source", MStr(docPath)));
    var page :- PageEntry(part.metadata, i);
    var metadata := map["doc_type" := MStr(docType), "source" := source, "page" := MInt(page),
                        "section" := Get(part.metadata, "section", MStr("N/A"))];
    Ok(Doc(part.text, metadata))
  }

  function ExtractStep(docType: string, docPath: string): (Doc, nat) -> Result<Doc> {
    (part: Doc, i: nat) => ExtractOne(docType, docPath, part, i)
  }

  /** `extract_document_info`: the extraction of every part, in order, with the document type
      of `docPath`; the first part whose metadata cannot be handled raises. */
  function ExtractDocumentInfo(parts: seq<Doc>, docPath: string): (r: Result<seq<Doc>>)
    ensures r.Ok? <==> forall k :: 0 <= k < |parts| ==> Extractable(docPath, parts[k], k)
    ensures r.Ok? ==> |r.value| == |parts| && forall k :: 0 <= k < |parts| ==>
              r.value[k] == ExtractOne(DocType(docPath), docPath, parts[k], k).value
    ensures r.Err? ==> exists k :: 0 <= k < |parts| && !Extractable(docPath, parts[k], k)
                         && (forall j :: 0 <= j < k ==> Extractable(docPath, parts[j], j))
                         && r.error == ExtractOne(DocType(docPath), docPath, parts[k], k).error
  {
    TryMapFrom(ExtractStep(DocType(docPath), docPath), parts, 0)
  }

  /** The metadata a part without loader metadata receives. */
  function BareMetadata(docPath: string, i: nat): Metadata {
    map["doc_type" := MStr(DocType(docPath)),
        "source" := MStr(if docPath != "" && !IsUrl(docPath) then Basename(docPath) else docPath),
        "page" := MInt(i + 1), "section" := MStr("N/A")]
  }

  lemma ExtractOneBare(docPath: string, part: Doc, i: nat)
    requires part.metadata == map[]
    ensures ExtractOne(DocType(docPath), docPath, part, i) == Ok(Doc(part.text, BareMetadata(docPath, i)))
  {
    assert Get(part.metadata, "source", MStr(docPath)) == MStr(docPath);
    assert Get(part.metadata, "section", MStr("N/A")) == MStr("N/A");
  }

  /** A part without loader metadata is page `k + 1` of `docPath`, credited to its basename
      (or to the URL itself), in section `"N/A"`. */
  lemma ExtractBareParts(parts: seq<Doc>, docPath: string)
    requires forall k :: 0 <= k < |parts| ==> parts[k].metadata == map[]
    ensures var r := ExtractDocumentInfo(parts, docPath);
            && r.Ok?
            && forall k :: 0 <= k < |parts| ==> r.value[k] == Doc(parts[k].text, BareMetadata(docPath, k))
  {
    var f := ExtractStep(DocType(docPath), docPath);
    forall k | 0 <= k < |parts|
      ensures f(parts[k], 0 + k) == Ok(Doc(parts[k].text, BareMetadata(docPath, k)))
    {
      ExtractOneBare(docPath, parts[k], k);
    }
  }
}
