/** `DocumentLoader.load_document` (`src/ingestion/loaders.py`): the choice of a LangChain loader
    by URL scheme and file suffix. The loaders themselves are the parameter `load`. */
module Loaders {
  import opened Wrappers
  import opened Text
  import opened Paths
  import opened Records
  import opened Extractor

  datatype LoaderKind = WebLoader | PdfLoader | DocxLoader | TextLoader | MarkdownLoader

  /** The loader for a path, tested in the order `load_document` uses: URL scheme, then the suffixes
      `.pdf`, `.docx`/`.doc`, `.txt` and `.md`, case-sensitively. */
  function LoaderFor(path: string): (r: Option<LoaderKind>)
    ensures IsUrl(path) ==> r == Some(WebLoader)
    ensures r.None? <==> !IsUrl(path) && !EndsWith(path, ".pdf") && !EndsWith(path, ".docx")
                         && !EndsWith(path, ".doc") && !EndsWith(path, ".txt") && !EndsWith(path, ".md")
  {
    if IsUrl(path) then Some(WebLoader)
    else if EndsWith(path, ".pdf") then Some(PdfLoader)
    else if EndsWith(path, ".docx") || EndsWith(path, ".doc") then Some(DocxLoader)
    else if EndsWith(path, ".txt") then Some(TextLoader)
    else if EndsWith(path, ".md") then Some(MarkdownLoader)
    else None
  }

  function UnsupportedMessage(path: string): string {
    "Unsupported document type: " + path + ". Please provide a PDF, DOCX, TXT file, .MD file or a URL."
  }

  /** The message every failure of `load_document` is re-raised with. */
  function LoadError(path: string, cause: string): string {
    "Could not load document " + path + ". Error: " + cause
  }

  /** `load_document`: the chosen loader's parts; an unsupported path and a failing loader both
      surface as "Could not load document ...". */
  function LoadDocument(path: string, load: (LoaderKind, string) -> Result<seq<Doc>>): (r: Result<seq<Doc>>)
    ensures r.Err? ==> StartsWith(r.error, "Could not load document " + path + ". Error: ")
    ensures LoaderFor(path).None? ==> r == Err(LoadError(path, UnsupportedMessage(path)))
    ensures LoaderFor(path).Some? ==>
              (r.Ok? <==> load(LoaderFor(path).value, path).Ok?)
              && (r.Ok? ==> r.value == load(LoaderFor(path).value, path).value)
  {
    match LoaderFor(path)
    case None => Err(LoadError(path, UnsupportedMessage(path)))
    case Some(kind) =>
      match load(kind, path)
      case Ok(parts) => Ok(parts)
      case Err(e) => Err(LoadError(path, e))
  }

  /** The `doc_type` the extractor assigns to the documents of each loader. */
  function KindDocType(k: LoaderKind): string {
    match k
    case WebLoader => "web"
    case PdfLoader => "pdf"
    case DocxLoader => "docx"
    case TextLoader => "txt"
    case MarkdownLoader => "md"
  }

  /** A dot followed by characters that are neither dots nor slashes. */
  predicate PlainExtension(suf: string) {
    |suf| >= 1 && suf[0] == '.' && forall i :: 1 <= i < |suf| ==> suf[i] != '.' && suf[i] != '/'
  }

  /** A suffix without a slash survives `os.path.basename`. */
  lemma BasenameKeepsSuffix(path: string, suf: string)
    requires '/' !in suf && EndsWith(path, suf)
    ensures EndsWith(Basename(path), suf)
  {
    var b := Basename(path);
    var n := |path| - |suf|;
    assert |b| >= |suf|;
    SuffixOfSuffix(path, b, suf);
  }

  /** Of two suffixes of one string, the shorter is a suffix of the longer. */
  lemma SuffixOfSuffix(s: string, long: string, short: string)
    requires EndsWith(s, long) && EndsWith(s, short) && |short| <= |long|
    ensures EndsWith(long, short)
  {
    var n, m := |s| - |long|, |s| - |short|;
    forall k | 0 <= k < |short|
      ensures long[|long| - |short| + k] == short[k]
    {
      assert long[|long| - |short| + k] == s[m + k];
    }
  }

  /** A path ending in a plain extension has that extension, unless `os.path.splitext` finds
      none at all. */
  lemma ExtensionOfSuffix(path: string, suf: string)
    requires PlainExtension(suf) && EndsWith(path, suf)
    ensures SplitExt(path) != "" ==> SplitExt(path) == suf
  {
    PlainHasNoSlash(suf);
    BasenameKeepsSuffix(path, suf);
    ExtensionAtLastDot(path, suf);
  }

  lemma PlainHasNoSlash(suf: string)
    requires PlainExtension(suf)
    ensures '/' !in suf
  {
    assert forall i :: 0 <= i < |suf| ==> suf[i] != '/';
  }

  lemma ExtensionAtLastDot(path: string, suf: string)
    requires PlainExtension(suf) && EndsWith(Basename(path), suf)
    ensures SplitExt(path) != "" ==> SplitExt(path) == suf
  {
    if SplitExt(path) != "" {
      PlainTail(suf);
      DotSuffixUnique(Basename(path), SplitExt(path), suf);
    }
  }

  lemma PlainTail(suf: string)
    requires PlainExtension(suf)
    ensures '.' !in suf[1..]
  {
    assert forall i :: 0 <= i < |suf| - 1 ==> suf[1..][i] == suf[i + 1];
  }

  /** A string has at most one suffix that is a dot followed by no dot. */
  lemma DotSuffixUnique(b: string, e: string, f: string)
    requires EndsWith(b, e) && EndsWith(b, f) && e != [] && f != [] && e[0] == '.' && f[0] == '.'
    requires '.' !in e[1..] && '.' !in f[1..]
    ensures e == f
  {
    assert forall j :: |b| - |e| < j < |b| ==> b[j] == e[1..][j - (|b| - |e|) - 1] != '.';
    assert forall j :: |b| - |f| < j < |b| ==> b[j] == f[1..][j - (|b| - |f|) - 1] != '.';
    assert b[|b| - |f|] == f[0] && b[|b| - |e|] == e[0];
    assert |e| == |f|;
  }

  /** The document type of a path ending in a plain extension is that extension without its
      dot, lower-cased. */
  lemma DocTypeOfSuffix(path: string, suf: string)
    requires PlainExtension(suf) && EndsWith(path, suf) && !IsUrl(path)
    ensures SplitExt(path) != "" ==> DocType(path) == (var e := Lower(suf[1..]); if e == "doc" then "docx" else e)
  {
    ExtensionOfSuffix(path, suf);
  }

  lemma LoaderSuffixesPlain()
    ensures PlainExtension(".pdf") && PlainExtension(".docx") && PlainExtension(".doc")
    ensures PlainExtension(".txt") && PlainExtension(".md")
  {
  }

  /** A path the loader accepts is given the `doc_type` of its loader by the extractor, except
      when its basename is nothing but dots and the suffix (as in `".pdf"`), which
      `os.path.splitext` reads as having no extension: that path gets `"unknown"`. */
  lemma LoaderDocType(path: string)
    requires LoaderFor(path).Some?
    ensures var k := LoaderFor(path).value;
            DocType(path) == KindDocType(k)
            || (&& !IsUrl(path) && DocType(path) == "unknown"
                && var b := Basename(path); var d := LastIndexOf(b, '.'); 0 <= d && AllDots(b[..d]))
  {
    if !IsUrl(path) && SplitExt(path) == "" {
      LoaderNameHasDot(path);
    }
    if !IsUrl(path) && SplitExt(path) != "" {
      if EndsWith(path, ".pdf") {
        LowerPdf();
        SuffixDocType(path, ".pdf", "pdf");
      } else if EndsWith(path, ".docx") {
        LowerDocx();
        SuffixDocType(path, ".docx", "docx");
      } else if EndsWith(path, ".doc") {
        LowerDoc();
        SuffixDocType(path, ".doc", "doc");
      } else if EndsWith(path, ".txt") {
        LowerTxt();
        SuffixDocType(path, ".txt", "txt");
      } else {
        LowerMd();
        SuffixDocType(path, ".md", "md");
      }
    }
  }

  /** A local path some loader accepts has a dot in its basename, so when `os.path.splitext`
      finds no extension everything before the last dot is dots. */
  lemma LoaderNameHasDot(path: string)
    requires LoaderFor(path).Some? && !IsUrl(path)
    ensures var b := Basename(path); var d := LastIndexOf(b, '.');
            0 <= d && (SplitExt(path) == "" ==> AllDots(b[..d]))
  {
    LoaderSuffixesPlain();
    if EndsWith(path, ".pdf") {
      SuffixGivesDot(path, ".pdf");
    } else if EndsWith(path, ".docx") {
      SuffixGivesDot(path, ".docx");
    } else if EndsWith(path, ".doc") {
      SuffixGivesDot(path, ".doc");
    } else if EndsWith(path, ".txt") {
      SuffixGivesDot(path, ".txt");
    } else {
      SuffixGivesDot(path, ".md");
    }
  }

  /** A path ending in a plain extension has a dot in its basename. */
  lemma SuffixGivesDot(path: string, suf: string)
    requires PlainExtension(suf) && EndsWith(path, suf)
    ensures 0 <= LastIndexOf(Basename(path), '.')
  {
    PlainHasNoSlash(suf);
    BasenameKeepsSuffix(path, suf);
    var b := Basename(path);
    assert b[|b| - |suf|] == suf[0];
  }

  /** One loader suffix: the type is the suffix without its dot, `"doc"` read as `"docx"`. */
  lemma SuffixDocType(path: string, suf: string, name: string)
    requires suf in {".pdf", ".docx", ".doc", ".txt", ".md"} && name == suf[1..] && Lower(name) == name
    requires EndsWith(path, suf) && !IsUrl(path)
    ensures SplitExt(path) != "" ==> DocType(path) == if name == "doc" then "docx" else name
  {
    LoaderSuffixesPlain();
    DocTypeOfSuffix(path, suf);
  }

  lemma LowerPdf()
    ensures ".pdf"[1..] == "pdf" && Lower("pdf") == "pdf"
  {
    assert Lower("pdf") == [LowerChar('p')] + Lower("df");
  }

  lemma LowerDocx()
    ensures ".docx"[1..] == "docx" && Lower("docx") == "docx"
  {
    assert Lower("docx") == [LowerChar('d')] + Lower("ocx");
  }

  lemma LowerDoc()
    ensures ".doc"[1..] == "doc" && Lower("doc") == "doc"
  {
    assert Lower("doc") == [LowerChar('d')] + Lower("oc");
  }

  lemma LowerTxt()
    ensures ".txt"[1..] == "txt" && Lower("txt") == "txt"
  {
    assert Lower("txt") == [LowerChar('t')] + Lower("xt");
  }

  lemma LowerMd()
    ensures ".md"[1..] == "md" && Lower("md") == "md"
  {
    assert Lower("md") == [LowerChar('m')] + Lower("d");
  }

  /** The suffix test is case-sensitive: an upper-case `.PDF` file is rejected. */
  lemma UpperCaseSuffixRejected()
    ensures LoaderFor("report.PDF").None?
    ensures LoadDocument("report.PDF", (k: LoaderKind, p: string) => Ok([])).Err?
  {
    assert !EndsWith("report.PDF", ".pdf") by { assert "report.PDF"[6..] != ".pdf"; }
    assert !EndsWith("report.PDF", ".docx") by { assert "report.PDF"[5..] != ".docx"; }
    assert !EndsWith("report.PDF", ".doc") by { assert "report.PDF"[6..] != ".doc"; }
    assert !EndsWith("report.PDF", ".txt") by { assert "report.PDF"[6..] != ".txt"; }
    assert !EndsWith("report.PDF", ".md") by { assert "report.PDF"[7..] != ".md"; }
    assert !IsUrl("report.PDF") by {
      assert "report.PDF"[..7][0] != "http://"[0];
      assert "report.PDF"[..8][0] != "https://"[0];
    }
  }

  /** A name that is a dot followed by neither dots nor slashes has no extension. */
  lemma DotNameNoExtension(name: string)
    requires PlainExtension(name)
    ensures SplitExt(name) == ""
  {
    assert '/' !in name by {
      assert forall i :: 0 <= i < |name| ==> name[i] != '/';
    }
    assert LastIndexOf(name, '/') == -1;
    assert Basename(name) == name;
    assert LastIndexOf(name, '.') == 0;
    assert name[..0] == "";
  }

  lemma DotPdfNoExtension()
    ensures !IsUrl(".pdf") && SplitExt(".pdf") == ""
  {
    assert !IsUrl(".pdf") by {
      assert |".pdf"| < |"http://"|;
    }
    LoaderSuffixesPlain();
    DotNameNoExtension(".pdf");
  }

  /** An ordinary file name gets its loader's type: `"dir/report.pdf"` is read by the PDF
      loader and typed `"pdf"`. */
  lemma OrdinaryNameTyped()
    ensures LoaderFor("dir/report.pdf") == Some(PdfLoader)
    ensures DocType("dir/report.pdf") == "pdf"
  {
    var p := "dir/report.pdf";
    assert p == "dir/" + "report.pdf";
    assert EndsWith(p, ".pdf");
    assert !IsUrl(p) by {
      assert p[..7][0] != "http://"[0];
      assert p[..8][0] != "https://"[0];
    }
    ReportPdfHasExtension();
    LoaderSuffixesPlain();
    LowerPdf();
    SuffixDocType(p, ".pdf", "pdf");
  }

  lemma ReportPdfHasExtension()
    ensures SplitExt("dir/report.pdf") != ""
  {
    var p := "dir/report.pdf";
    assert p == "dir/" + "report.pdf";
    BasenameAfterSlash("dir/", "report.pdf");
    var b := Basename(p);
    assert b[0] != '.' && b[6] == '.';
  }

  /** `".pdf"` is loaded as a PDF but typed `"unknown"`: its basename has no extension. */
  lemma DotOnlyNameUnknown()
    ensures LoaderFor(".pdf") == Some(PdfLoader)
    ensures DocType(".pdf") == "unknown"
  {
    DotPdfNoExtension();
    assert EndsWith(".pdf", ".pdf");
  }
}
