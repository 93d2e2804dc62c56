/** The document list the Streamlit sidebar builds (`src/ui/streamlit_app.py`): each upload is
    saved as `<uuid hex>_<original basename>` in the session's temporary directory and shown
    under its original name. The uuid is a parameter of each upload; writing the file is not
    part of this model. */
module StreamlitApp {
  import opened Wrappers
  import opened Text
  import opened Paths
  import opened Records
  import MainUtils
  import App

  /** The length of `uuid.uuid4().hex`. */
  const UuidHexLength := 32

  /** `display_name_from_path`: the basename, without the text before its first underscore
      when that text is exactly 32 characters long (whatever they are). */
  function DisplayName(p: string): (r: string)
    ensures '/' !in r && EndsWith(Basename(p), r)
    ensures '_' !in Basename(p) ==> r == Basename(p)
    ensures '_' in Basename(p) ==>
              var i := MainUtils.FirstIndex(Basename(p), '_');
              r == (if i == UuidHexLength then Basename(p)[i + 1..] else Basename(p))
  {
    var b := Basename(p);
    if '_' in b && MainUtils.FirstIndex(b, '_') == UuidHexLength then b[UuidHexLength + 1..] else b
  }

  predicate IsLowerHex(c: char) {
    '0' <= c <= '9' || 'a' <= c <= 'f'
  }

  /** A value of `uuid.uuid4().hex`. */
  predicate IsUuidHex(hex: string) {
    |hex| == UuidHexLength && forall i :: 0 <= i < |hex| ==> IsLowerHex(hex[i])
  }

  /** An uploaded file: the uuid drawn for it and the name the browser sent. */
  datatype Upload = Upload(hex: string, fileName: string)

  /** `os.path.join(tmp_dir, f"{uuid.uuid4().hex}_{basename}")`. */
  function UploadPath(tmpDir: string, u: Upload): string {
    PathJoin(tmpDir, u.hex + "_" + Basename(u.fileName))
  }

  /** The stored name's first underscore is the one after the uuid. */
  lemma FirstUnderscoreAfterUuid(hex: string, name: string)
    requires IsUuidHex(hex)
    ensures '_' in hex + "_" + name
    ensures MainUtils.FirstIndex(hex + "_" + name, '_') == UuidHexLength
  {
    var s := hex + "_" + name;
    assert s[UuidHexLength] == '_';
    assert forall j :: 0 <= j < UuidHexLength ==> s[j] == hex[j];
  }

  /** Saving and displaying round-trip: an upload is shown under the basename of the name it
      was sent with, underscores and all. */
  lemma DisplayUploadPath(tmpDir: string, u: Upload)
    requires IsUuidHex(u.hex)
    ensures DisplayName(UploadPath(tmpDir, u)) == Basename(u.fileName)
  {
    var stored := u.hex + "_" + Basename(u.fileName);
    assert '/' !in u.hex by {
      assert forall i :: 0 <= i < |u.hex| ==> u.hex[i] != '/';
    }
    assert '/' !in stored;
    BasenameOfJoin(tmpDir, stored);
    FirstUnderscoreAfterUuid(u.hex, Basename(u.fileName));
    assert stored[UuidHexLength + 1..] == Basename(u.fileName);
  }

  /** A path that is not such a stored name is shown as its basename: the prefix before the
      first underscore must be exactly 32 characters long. */
  lemma DisplayNameNoPrefix(p: string)
    requires '_' !in Basename(p) || MainUtils.FirstIndex(Basename(p), '_') != UuidHexLength
    ensures DisplayName(p) == Basename(p)
  {
  }

  /** An entry of the sidebar's document list. */
  datatype UiDoc = UiDoc(path: string, enabled: bool, name: string)

  function UploadEntries(tmpDir: string, uploads: seq<Upload>): (r: seq<UiDoc>)
    ensures |r| == |uploads|
    ensures forall k :: 0 <= k < |uploads| ==>
              var p := UploadPath(tmpDir, uploads[k]); r[k] == UiDoc(p, true, DisplayName(p))
  {
    seq(|uploads|, k requires 0 <= k < |uploads| =>
      var p := UploadPath(tmpDir, uploads[k]); UiDoc(p, true, DisplayName(p)))
  }

  /** The "Index Documents" action: nothing (a warning) when there is no upload and the URL is
      blank; otherwise the saved uploads in order, then the stripped URL if it is not blank, all
      enabled. */
  function IndexRequest(tmpDir: string, uploads: seq<Upload>, url: string): (r: Option<seq<UiDoc>>)
    ensures r.None? <==> uploads == [] && Strip(url) == ""
    ensures r.Some? ==> r.value != [] && forall d :: d in r.value ==> d.enabled
  {
    if uploads == [] && Strip(url) == "" then None
    else
      var u := Strip(url);
      Some(UploadEntries(tmpDir, uploads) + (if u != "" then [UiDoc(u, true, u)] else []))
  }

  /** The configuration entries of a list: the `name` key is not read by the pipeline. */
  function Entries(docs: seq<UiDoc>): (r: seq<DocEntry>)
    ensures |r| == |docs|
    ensures forall k :: 0 <= k < |docs| ==> r[k] == DocEntry(docs[k].path, docs[k].enabled)
  {
    seq(|docs|, k requires 0 <= k < |docs| => DocEntry(docs[k].path, docs[k].enabled))
  }

  function SavedPaths(tmpDir: string, uploads: seq<Upload>): (r: seq<string>)
    ensures |r| == |uploads|
    ensures forall k :: 0 <= k < |uploads| ==> r[k] == UploadPath(tmpDir, uploads[k])
  {
    seq(|uploads|, k requires 0 <= k < |uploads| => UploadPath(tmpDir, uploads[k]))
  }

  /** The sidebar and the API's `_prepare_docs_list` configure the same documents, once the
      URL is stripped; each upload is named by its original basename. */
  lemma IndexRequestMatchesApi(tmpDir: string, uploads: seq<Upload>, url: string)
    requires IndexRequest(tmpDir, uploads, url).Some?
    requires forall k :: 0 <= k < |uploads| ==> IsUuidHex(uploads[k].hex)
    ensures var docs := IndexRequest(tmpDir, uploads, url).value;
            && Entries(docs) == App.PrepareDocsList(SavedPaths(tmpDir, uploads), Some(Strip(url)))
            && forall k :: 0 <= k < |uploads| ==> docs[k].name == Basename(uploads[k].fileName)
  {
    var docs := IndexRequest(tmpDir, uploads, url).value;
    forall k | 0 <= k < |uploads|
      ensures docs[k].name == Basename(uploads[k].fileName)
    {
      DisplayUploadPath(tmpDir, uploads[k]);
    }
  }
}
