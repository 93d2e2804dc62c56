/** `PipelineState._fingerprint` (`src/api/app.py`): a hash of the document list, sorted by
    path, where a readable file stands for the hash of its content and anything else for its
    path. The file system and `md5(...).hexdigest()` are parameters. */
module Fingerprint {
  import opened Text
  import opened Records
  import opened Sorting
  import opened Wrappers

  /** Python's `str` ordering: by code point, a prefix before its extensions. */
  predicate StrLeq(a: string, b: string) {
    if a == [] then true
    else if b == [] then false
    else if a[0] != b[0] then a[0] < b[0]
    else StrLeq(a[1..], b[1..])
  }

  lemma {:induction false} StrLeqTotal(a: string, b: string)
    ensures StrLeq(a, b) || StrLeq(b, a)
  {
    if a != [] && b != [] && a[0] == b[0] {
      StrLeqTotal(a[1..], b[1..]);
    }
  }

  lemma {:induction false} StrLeqTrans(a: string, b: string, c: string)
    requires StrLeq(a, b) && StrLeq(b, c)
    ensures StrLeq(a, c)
  {
    if a != [] && b != [] && c != [] && a[0] == b[0] && b[0] == c[0] {
      StrLeqTrans(a[1..], b[1..], c[1..]);
    }
  }

  lemma {:induction false} StrLeqAntisym(a: string, b: string)
    requires StrLeq(a, b) && StrLeq(b, a)
    ensures a == b
  {
    if a != [] && b != [] {
      StrLeqAntisym(a[1..], b[1..]);
      assert a == [a[0]] + a[1..] && b == [b[0]] + b[1..];
    }
  }

  /** The sort key `x.get('path', '')`. */
  function PathLeq(): (DocEntry, DocEntry) -> bool {
    (x: DocEntry, y: DocEntry) => StrLeq(x.path, y.path)
  }

  lemma PathLeqTotalPreorder()
    ensures TotalPreorder(PathLeq())
  {
    var leq := PathLeq();
    forall x: DocEntry, y: DocEntry
      ensures leq(x, y) || leq(y, x)
    {
      StrLeqTotal(x.path, y.path);
    }
    forall x: DocEntry, y: DocEntry, z: DocEntry | leq(x, y) && leq(y, z)
      ensures leq(x, z)
    {
      StrLeqTrans(x.path, y.path, z.path);
    }
  }

  /** `sorted(docs, key=lambda x: x.get('path', ''))`. */
  function SortByPath(docs: seq<DocEntry>): (r: seq<DocEntry>)
    ensures multiset(r) == multiset(docs)
    ensures SortedBy(r, PathLeq())
  {
    PathLeqTotalPreorder();
    StableSort(docs, PathLeq())
  }

  /** What a path's file reads as: `Some(content)` for an existing regular file that can be
      read, `None` otherwise (a URL, a missing file, a read error). */
  type Files = string -> Option<string>

  /** One key part, `f"{file_hash}|{enabled}"` or `f"{path}|{enabled}"`. */
  function KeyPart(fs: Files, md5: string -> string, d: DocEntry): string {
    (if fs(d.path).Some? then md5(fs(d.path).value) else d.path) + "|" + BoolToString(d.enabled)
  }

  function KeyParts(fs: Files, md5: string -> string, docs: seq<DocEntry>): (r: seq<string>)
    ensures |r| == |docs|
    ensures forall k :: 0 <= k < |docs| ==> r[k] == KeyPart(fs, md5, docs[k])
  {
    seq(|docs|, k requires 0 <= k < |docs| => KeyPart(fs, md5, docs[k]))
  }

  /** The string that is hashed: the key parts in path order, joined with `|`. */
  function KeyString(fs: Files, md5: string -> string, docs: seq<DocEntry>): string {
    Join(KeyParts(fs, md5, SortByPath(docs)), "|")
  }

  /** `_fingerprint`: the hash of the key string. No entries hash the empty string; a list
      already in path order, with no repeated path, is keyed in its own order. */
  function Fingerprint(fs: Files, md5: string -> string, docs: seq<DocEntry>): (r: string)
    ensures docs == [] ==> r == md5("")
    ensures SortedBy(docs, PathLeq()) && UniquePaths(docs) ==> r == md5(Join(KeyParts(fs, md5, docs), "|"))
  {
    SortByPathSorted(docs);
    md5(KeyString(fs, md5, docs))
  }

  /** No two different entries share a path. */
  predicate UniquePaths(docs: seq<DocEntry>) {
    forall i, j :: 0 <= i < |docs| && 0 <= j < |docs| && docs[i].path == docs[j].path ==> docs[i] == docs[j]
  }

  lemma SortedNoTies(docs: seq<DocEntry>, sorted: seq<DocEntry>)
    requires UniquePaths(docs) && multiset(sorted) == multiset(docs)
    ensures NoTies(sorted, PathLeq())
  {
    forall x, y | x in sorted && y in sorted && PathLeq()(x, y) && PathLeq()(y, x)
      ensures x == y
    {
      StrLeqAntisym(x.path, y.path);
      assert x in multiset(docs) && y in multiset(docs);
      var i :| 0 <= i < |docs| && docs[i] == x;
      var j :| 0 <= j < |docs| && docs[j] == y;
    }
  }

  /** The order of the list does not matter when no path repeats: any rearrangement of the
      entries has the same fingerprint. */
  lemma FingerprintOrderFree(fs: Files, md5: string -> string, a: seq<DocEntry>, b: seq<DocEntry>)
    requires multiset(a) == multiset(b) && UniquePaths(a)
    ensures Fingerprint(fs, md5, a) == Fingerprint(fs, md5, b)
  {
    FingerprintOrderFreeSorts(a, b);
  }

  /** A list already in path order, with no repeated path, is its own sorted list. */
  lemma SortByPathSorted(docs: seq<DocEntry>)
    ensures SortedBy(docs, PathLeq()) && UniquePaths(docs) ==> SortByPath(docs) == docs
  {
    if SortedBy(docs, PathLeq()) && UniquePaths(docs) {
      SortedNoTies(docs, SortByPath(docs));
      SortedUnique(SortByPath(docs), docs, PathLeq());
    }
  }

  /** The promise "same content, same fingerprint, whatever the paths" holds when the two path
      lists sort the same way: entries matched in path order that agree on their flag and are
      readable files with equal content give equal fingerprints. */
  lemma FingerprintSameContent(fs: Files, md5: string -> string, a: seq<DocEntry>, b: seq<DocEntry>)
    requires SortedBy(a, PathLeq()) && UniquePaths(a)
    requires SortedBy(b, PathLeq()) && UniquePaths(b)
    requires |a| == |b|
    requires forall k :: 0 <= k < |a| ==>
               a[k].enabled == b[k].enabled && fs(a[k].path).Some? && fs(a[k].path) == fs(b[k].path)
    ensures Fingerprint(fs, md5, a) == Fingerprint(fs, md5, b)
  {
    SortByPathSorted(a);
    SortByPathSorted(b);
    assert KeyParts(fs, md5, a) == KeyParts(fs, md5, b);
  }

  /** A single readable file: its fingerprint depends on its content and flag only. */
  lemma FingerprintSingleFile(fs: Files, md5: string -> string, p: string, q: string, enabled: bool)
    requires fs(p).Some? && fs(p) == fs(q)
    ensures Fingerprint(fs, md5, [DocEntry(p, enabled)]) == Fingerprint(fs, md5, [DocEntry(q, enabled)])
  {
    FingerprintSameContent(fs, md5, [DocEntry(p, enabled)], [DocEntry(q, enabled)]);
  }

  /** A shared prefix does not decide the order. */
  lemma {:induction false} StrLeqCommonPrefix(pre: string, a: string, b: string)
    ensures StrLeq(pre + a, pre + b) == StrLeq(a, b)
  {
    if pre != [] {
      assert (pre + a)[0] == pre[0] == (pre + b)[0];
      assert (pre + a)[1..] == pre[1..] + a && (pre + b)[1..] == pre[1..] + b;
      StrLeqCommonPrefix(pre[1..], a, b);
    } else {
      assert pre + a == a && pre + b == b;
    }
  }

  lemma PairFacts(x: DocEntry, y: DocEntry)
    requires StrLeq(x.path, y.path) && x.path != y.path
    ensures UniquePaths([x, y]) && SortedBy([x, y], PathLeq())
  {
    var xy := [x, y];
    forall i, j | 0 <= i < 2 && 0 <= j < 2 && xy[i].path == xy[j].path
      ensures xy[i] == xy[j]
    {
      assert i == j;
    }
    forall i, j | 0 <= i < j < 2
      ensures PathLeq()(xy[i], xy[j])
    {
      assert i == 0 && j == 1;
    }
  }

  /** Two entries with different paths are sorted into path order, whichever comes first. */
  lemma SortTwo(x: DocEntry, y: DocEntry)
    requires StrLeq(x.path, y.path) && x.path != y.path
    ensures SortByPath([x, y]) == [x, y] && SortByPath([y, x]) == [x, y]
  {
    PairFacts(x, y);
    SortByPathSorted([x, y]);
    assert multiset([y, x]) == multiset([x, y]);
    FingerprintOrderFreeSorts([x, y], [y, x]);
  }

  lemma FingerprintOrderFreeSorts(a: seq<DocEntry>, b: seq<DocEntry>)
    requires multiset(a) == multiset(b) && UniquePaths(a)
    ensures SortByPath(a) == SortByPath(b)
  {
    SortedNoTies(a, SortByPath(a));
    SortedUnique(SortByPath(a), SortByPath(b), PathLeq());
  }

  lemma JoinTwo(u: string, v: string, sep: string)
    ensures Join([u, v], sep) == u + sep + v
  {
    assert [u, v][1..] == [v];
  }

  /** The key string of a list that sorts into `[x, y]`. */
  lemma KeyStringPair(fs: Files, md5: string -> string, docs: seq<DocEntry>, x: DocEntry, y: DocEntry)
    requires SortByPath(docs) == [x, y]
    ensures KeyString(fs, md5, docs) == KeyPart(fs, md5, x) + "|" + KeyPart(fs, md5, y)
  {
    assert KeyParts(fs, md5, [x, y]) == [KeyPart(fs, md5, x), KeyPart(fs, md5, y)];
    JoinTwo(KeyPart(fs, md5, x), KeyPart(fs, md5, y), "|");
  }

  lemma KeyPartReadable(fs: Files, md5: string -> string, d: DocEntry)
    requires fs(d.path).Some? && d.enabled
    ensures KeyPart(fs, md5, d) == md5(fs(d.path).value) + ("|" + BoolToString(true))
  {
  }

  /** Keys that begin with different hashes of one length differ. */
  lemma KeysDiffer(hx: string, hy: string, flag: string, u: string, v: string)
    requires hx != hy && |hx| == |hy|
    ensures hx + flag + "|" + u != hy + flag + "|" + v
  {
    assert (hx + flag + "|" + u)[..|hx|] == hx by {
      assert hx + flag + "|" + u == hx + (flag + "|" + u);
    }
    assert (hy + flag + "|" + v)[..|hy|] == hy by {
      assert hy + flag + "|" + v == hy + (flag + "|" + v);
    }
  }

  /** ... but not in general: the same two files uploaded twice, under temporary names that sort
      the other way round the second time, give different keys whenever their content hashes
      differ (and have the same length, as hex digests do). */
  lemma FingerprintOrderDependent(fs: Files, md5: string -> string, a: DocEntry, b: DocEntry, c: DocEntry, d: DocEntry)
    requires StrLeq(a.path, b.path) && a.path != b.path
    requires StrLeq(c.path, d.path) && c.path != d.path
    requires fs(a.path).Some? && fs(a.path) == fs(d.path)
    requires fs(b.path).Some? && fs(b.path) == fs(c.path)
    requires md5(fs(a.path).value) != md5(fs(b.path).value)
    requires |md5(fs(a.path).value)| == |md5(fs(b.path).value)|
    requires a.enabled && b.enabled && c.enabled && d.enabled
    ensures KeyString(fs, md5, [a, b]) != KeyString(fs, md5, [d, c])
  {
    SortTwo(a, b);
    SortTwo(c, d);
    KeyStringPair(fs, md5, [a, b], a, b);
    KeyStringPair(fs, md5, [d, c], c, d);
    KeyPartReadable(fs, md5, a);
    KeyPartReadable(fs, md5, c);
    KeysDiffer(md5(fs(a.path).value), md5(fs(b.path).value), "|" + BoolToString(true),
               KeyPart(fs, md5, b), KeyPart(fs, md5, d));
  }
}
