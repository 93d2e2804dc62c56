/** The helpers of `src/utils/main_utils.py`: cascade sizes (`compute_k`), context joining,
    answer-keyword highlighting and source extraction. */
module MainUtils {
  import opened Wrappers
  import opened Text
  import opened Paths
  import opened Records

  function Min(a: int, b: int): int { if a <= b then a else b }

  function Max(a: int, b: int): int { if a >= b then a else b }

  /** `math.ceil` on an exact real: the least integer not below `x`. */
  function Ceil(x: real): (r: int)
    ensures (r as real) - 1.0 < x <= r as real
  {
    -((-x).Floor)
  }

  /** `compute_k`: a percentage of `total` rounded up, clamped to `[0, upperBound]`.
      `pct` is an exact real here (see README for the float caveat). */
  function ComputeK(total: int, pct: Option<real>, upperBound: int): (k: int)
    ensures 0 <= k && (upperBound > 0 ==> k <= upperBound)
    ensures total <= 0 || upperBound <= 0 || pct.None? ==> k == 0
    ensures total > 0 && upperBound > 0 && pct.Some? ==>
      var x := total as real * pct.value;
      && (x <= 0.0 ==> k == 0)
      && (x > upperBound as real ==> k == upperBound)
      && (0.0 < x <= upperBound as real ==> (k as real) - 1.0 < x <= k as real)
  {
    if total <= 0 || upperBound <= 0 then 0
    else if pct.None? then 0
    else
      var calculated := Ceil(total as real * pct.value);
      Max(0, Min(calculated, upperBound))
  }

  /** With `pct = 1.0` the whole of `total` is taken, up to the bound. */
  lemma ComputeKWhole(total: int, upperBound: int)
    requires total > 0 && upperBound > 0
    ensures ComputeK(total, Some(1.0), upperBound) == Min(total, upperBound)
  {
  }

  // ---------------------------------------------------------------------------
  // build_context

  /** `build_context`: the page contents joined by a blank line; `includeCitations` is unused.
      No document gives the empty context and a single one its own text. */
  function BuildContext(docs: seq<Doc>, includeCitations: bool): (r: string)
    ensures docs == [] ==> r == ""
    ensures |docs| == 1 ==> r == docs[0].text
  {
    Join(Texts(docs), "\n\n")
  }

  lemma {:induction false} JoinAppend(a: seq<string>, b: seq<string>, sep: string)
    requires |a| > 0 && |b| > 0
    ensures Join(a + b, sep) == Join(a, sep) + sep + Join(b, sep)
  {
    if |a| == 1 {
      assert (a + b)[1..] == b;
    } else {
      assert (a + b)[1..] == a[1..] + b;
      JoinAppend(a[1..], b, sep);
    }
  }

  /** The context keeps document order: the context of `a + b` is the context of `a`,
      a blank line, then the context of `b`. The citation flag changes nothing. */
  lemma BuildContextAppend(a: seq<Doc>, b: seq<Doc>, includeCitations: bool)
    requires |a| > 0 && |b| > 0
    ensures BuildContext(a + b, includeCitations)
            == BuildContext(a, false) + "\n\n" + BuildContext(b, false)
  {
    assert Texts(a + b) == Texts(a) + Texts(b);
    JoinAppend(Texts(a), Texts(b), "\n\n");
  }

  // ---------------------------------------------------------------------------
  // Highlighting

  predicate IsWord(w: string) {
    |w| > 0 && forall k :: 0 <= k < |w| ==> IsWordChar(w[k])
  }

  function WordRun(s: string): (n: nat)
    ensures n <= |s|
    ensures forall i :: 0 <= i < n ==> IsWordChar(s[i])
    ensures n == |s| || !IsWordChar(s[n])
  {
    if s == [] || !IsWordChar(s[0]) then 0 else 1 + WordRun(s[1..])
  }

  /** `re.findall(r"\b\w+\b", s)`: the maximal runs of word characters, in order. */
  function Words(s: string): (ws: seq<string>)
    ensures forall i :: 0 <= i < |ws| ==> IsWord(ws[i])
    decreases |s|
  {
    if s == [] then []
    else if !IsWordChar(s[0]) then Words(s[1..])
    else
      var n := WordRun(s);
      [s[..n]] + Words(s[n..])
  }

  /** The word characters of `s`, in order. */
  function WordChars(s: string): string {
    if s == [] then [] else (if IsWordChar(s[0]) then [s[0]] else []) + WordChars(s[1..])
  }

  lemma {:induction false} WordCharsAppend(a: string, b: string)
    ensures WordChars(a + b) == WordChars(a) + WordChars(b)
  {
    if a == [] {
      assert a + b == b;
    } else {
      var h := if IsWordChar(a[0]) then [a[0]] else [];
      assert (a + b)[0] == a[0] && (a + b)[1..] == a[1..] + b;
      assert WordChars(a + b) == h + WordChars(a[1..] + b);
      WordCharsAppend(a[1..], b);
      assert h + (WordChars(a[1..]) + WordChars(b)) == (h + WordChars(a[1..])) + WordChars(b);
    }
  }

  lemma {:induction false} WordCharsOfWord(w: string)
    requires forall k :: 0 <= k < |w| ==> IsWordChar(w[k])
    ensures WordChars(w) == w
  {
    if w != [] {
      WordCharsOfWord(w[1..]);
    }
  }

  /** No word character is lost or reordered: the words, concatenated, are exactly the word
      characters of `s`. */
  lemma {:induction false} WordsCover(s: string)
    ensures Concat(Words(s)) == WordChars(s)
    decreases |s|
  {
    if s == [] {
    } else if !IsWordChar(s[0]) {
      WordsCover(s[1..]);
    } else {
      var n := WordRun(s);
      WordsCover(s[n..]);
      assert s == s[..n] + s[n..];
      WordCharsAppend(s[..n], s[n..]);
      WordCharsOfWord(s[..n]);
      assert Words(s)[1..] == Words(s[n..]);
    }
  }

  /** A character that is not a word character only separates: it starts no word. */
  lemma WordsSkip(c: char, t: string)
    requires !IsWordChar(c)
    ensures Words([c] + t) == Words(t)
  {
    assert ([c] + t)[1..] == t;
  }

  /** The run at the start of `w + u` is all of `w` when `w` is word characters and `u` does
      not start with one. */
  lemma {:induction false} WordRunOf(w: string, u: string)
    requires forall k :: 0 <= k < |w| ==> IsWordChar(w[k])
    requires u == [] || !IsWordChar(u[0])
    ensures WordRun(w + u) == |w|
  {
    if w == [] {
      assert w + u == u;
    } else {
      assert (w + u)[0] == w[0] && (w + u)[1..] == w[1..] + u;
      WordRunOf(w[1..], u);
    }
  }

  /** A word followed by a separator is one whole word: the run does not stop inside it and
      does not reach past it. */
  lemma WordsWordThen(w: string, c: char, t: string)
    requires IsWord(w) && !IsWordChar(c)
    ensures Words(w + [c] + t) == [w] + Words(t)
  {
    var s := w + [c] + t;
    assert s == w + ([c] + t);
    WordRunOf(w, [c] + t);
    assert s[0] == w[0];
    assert s[..|w|] == w && s[|w|..] == [c] + t;
    WordsSkip(c, t);
  }

  /** A text that is one run of word characters is one word. */
  lemma WordsOfWord(w: string)
    requires IsWord(w)
    ensures Words(w) == [w]
  {
    WordRunOf(w, []);
    assert w + [] == w;
    assert w[..|w|] == w && w[|w|..] == [];
  }

  /** The words longer than three characters, in order. */
  function LongWords(ws: seq<string>): (r: seq<string>)
    ensures forall w :: w in r <==> w in ws && |w| > 3
  {
    if ws == [] then []
    else (if |ws[0]| > 3 then [ws[0]] else []) + LongWords(ws[1..])
  }

  /** The filter keeps order: over a concatenation it is the filter of each part, and one
      word is kept exactly when it is longer than three characters. */
  lemma {:induction false} LongWordsAppend(a: seq<string>, b: seq<string>)
    ensures LongWords(a + b) == LongWords(a) + LongWords(b)
  {
    if a != [] {
      assert (a + b)[0] == a[0] && (a + b)[1..] == a[1..] + b;
      LongWordsAppend(a[1..], b);
    } else {
      assert a + b == b;
    }
  }

  lemma LongWordsSingle(w: string)
    ensures LongWords([w]) == if |w| > 3 then [w] else []
  {
    assert [w][1..] == [];
  }

  /** Index of the first occurrence of `x` in `s`. */
  function FirstIndex<T(==)>(s: seq<T>, x: T): (i: nat)
    requires x in s
    ensures i < |s| && s[i] == x
    ensures forall j :: 0 <= j < i ==> s[j] != x
  {
    if s[0] == x then 0 else 1 + FirstIndex(s[1..], x)
  }

  lemma FirstIndexPrefix<T>(s: seq<T>, x: T)
    requires |s| > 0 && x in s[..|s| - 1]
    ensures FirstIndex(s, x) == FirstIndex(s[..|s| - 1], x)
  {
    var p := s[..|s| - 1];
    var i := FirstIndex(p, x);
    var k := FirstIndex(s, x);
    assert p[i] == s[i];
    assert k <= i;
    assert p[k] == s[k];
  }

  predicate Distinct<T(==)>(r: seq<T>) {
    forall i, j :: 0 <= i < j < |r| ==> r[i] != r[j]
  }

  /** Every element of `r` occurs in `s`, and `r` lists them in the order of their first
      occurrences in `s`. */
  predicate FirstOccurrenceOrder<T(==)>(s: seq<T>, r: seq<T>) {
    && (forall t :: 0 <= t < |r| ==> r[t] in s)
    && (forall i, j :: 0 <= i < j < |r| ==> FirstIndex(s, r[i]) < FirstIndex(s, r[j]))
  }

  /** `list(dict.fromkeys(s))`: each element once (see `DedupOrder` for the order). */
  function Dedup<T(==, !new)>(s: seq<T>): (r: seq<T>)
    ensures forall x :: x in r <==> x in s
    ensures Distinct(r)
  {
    if s == [] then []
    else
      var d := Dedup(s[..|s| - 1]);
      var x := s[|s| - 1];
      assert s == s[..|s| - 1] + [x];
      if x in d then d else d + [x]
  }

  /** `dict.fromkeys` keeps first-occurrence order. */
  lemma {:induction false} DedupOrder<T(!new)>(s: seq<T>)
    ensures FirstOccurrenceOrder(s, Dedup(s))
  {
    if s != [] {
      var p := s[..|s| - 1];
      var x := s[|s| - 1];
      DedupOrder(p);
      var d := Dedup(p);
      assert s == p + [x];
      forall y | y in p
        ensures FirstIndex(s, y) == FirstIndex(p, y) && FirstIndex(p, y) < |p|
      {
        FirstIndexPrefix(s, y);
      }
      if x in d {
        forall i, j | 0 <= i < j < |d|
          ensures FirstIndex(s, d[i]) < FirstIndex(s, d[j])
        {
          assert d[i] in p && d[j] in p;
        }
      } else {
        assert forall j :: 0 <= j < |p| ==> s[j] == p[j] && p[j] != x;
        assert FirstIndex(s, x) == |s| - 1;
        var r := d + [x];
        assert r == Dedup(s);
        forall i, j | 0 <= i < j < |r|
          ensures FirstIndex(s, r[i]) < FirstIndex(s, r[j])
        {
          assert r[i] == d[i] && d[i] in p;
          if j < |d| {
            assert r[j] == d[j] && d[j] in p;
          }
        }
      }
    }
  }

  const MaxKeywords: nat := 50

  /** `kws` are the keywords drawn from `long`: one to 50 distinct entries of it in
      first-occurrence order, and an entry is left out only when 50 were taken before its
      first occurrence. */
  predicate KeywordsOf(long: seq<string>, kws: seq<string>) {
    && 1 <= |kws| <= MaxKeywords
    && Distinct(kws)
    && FirstOccurrenceOrder(long, kws)
    && (forall w :: w in long && w !in kws ==>
          |kws| == MaxKeywords && FirstIndex(long, kws[|kws| - 1]) < FirstIndex(long, w))
  }

  /** The first 50 entries of the deduplicated list are the keywords of the list. */
  lemma DedupKeywords(long: seq<string>)
    requires long != []
    ensures KeywordsOf(long, Dedup(long)[..Min(MaxKeywords, |Dedup(long)|)])
  {
    var deduped := Dedup(long);
    assert long[0] in deduped;
    DedupOrder(long);
    var kws := deduped[..Min(MaxKeywords, |deduped|)];
    assert forall t :: 0 <= t < |kws| ==> kws[t] == deduped[t];
    assert FirstOccurrenceOrder(long, kws);
    forall w | w in long && w !in kws
      ensures |kws| == MaxKeywords && FirstIndex(long, kws[|kws| - 1]) < FirstIndex(long, w)
    {
      assert w in deduped;
      var m :| 0 <= m < |deduped| && deduped[m] == w;
      assert m >= |kws|;
    }
  }

  /** The keywords of `_build_highlight_pattern`: the lowercased words of the answer longer
      than three characters, deduplicated, at most 50; `None` for an empty answer or when no
      word qualifies. */
  function HighlightKeywords(answer: string): (r: Option<seq<string>>)
    ensures r.None? <==> answer == "" || LongWords(Words(Lower(answer))) == []
    ensures r.Some? ==> KeywordsOf(LongWords(Words(Lower(answer))), r.value)
  {
    if answer == "" then None
    else
      var long := LongWords(Words(Lower(answer)));
      if long == [] then None
      else
        var kws := Dedup(long)[..Min(MaxKeywords, |Dedup(long)|)];
        DedupKeywords(long);
        Some(kws)
  }

  predicate IsTerminal(c: char) {
    c == '.' || c == '!' || c == '?'
  }

  /** A split of `re.split(r'(?<=[.!?])\s+', s)` starts at `p`. */
  predicate BreakAt(s: string, p: int) {
    1 <= p < |s| && IsTerminal(s[p - 1]) && IsSpace(s[p])
  }

  function FirstBreakFrom(s: string, k: nat): (p: int)
    ensures p == -1 || (k <= p && BreakAt(s, p))
    ensures forall q :: k <= q < (if p == -1 then |s| else p) ==> !BreakAt(s, q)
    decreases |s| - k
  {
    if k >= |s| then -1 else if BreakAt(s, k) then k else FirstBreakFrom(s, k + 1)
  }

  lemma NoBreakAnywhere(s: string)
    requires FirstBreakFrom(s, 1) == -1
    ensures forall q :: !BreakAt(s, q)
  {
    forall q ensures !BreakAt(s, q) {
      if 1 <= q < |s| { }
    }
  }

  lemma NoBreakBefore(s: string, p: int)
    requires p == FirstBreakFrom(s, 1) && p != -1
    ensures s[..p] != [] && IsTerminal(s[..p][p - 1])
    ensures forall q :: !BreakAt(s[..p], q)
  {
    forall q ensures !BreakAt(s[..p], q) {
      if BreakAt(s[..p], q) { assert BreakAt(s, q); }
    }
  }

  /** Pieces of a split at sentence breaks: at least one, none holding a break, and all but
      the last ending a sentence. */
  ghost predicate SentencePieces(r: seq<string>) {
    && |r| >= 1
    && (forall t, q :: 0 <= t < |r| ==> !BreakAt(r[t], q))
    && (forall t :: 0 <= t < |r| - 1 ==> r[t] != [] && IsTerminal(r[t][|r[t]| - 1]))
  }

  /** The text up to its first break, followed by the pieces of what comes after the break. */
  lemma SentencesCons(s: string, p: int, rest: seq<string>)
    requires p == FirstBreakFrom(s, 1) && p != -1
    requires SentencePieces(rest)
    ensures SentencePieces([s[..p]] + rest)
    ensures !(forall q :: !BreakAt(s, q))
  {
    NoBreakBefore(s, p);
    var r := [s[..p]] + rest;
    forall t, q | 0 <= t < |r| ensures !BreakAt(r[t], q) {
      if t > 0 { assert r[t] == rest[t - 1]; }
    }
    forall t | 0 <= t < |r| - 1 ensures r[t] != [] && IsTerminal(r[t][|r[t]| - 1]) {
      if t > 0 { assert r[t] == rest[t - 1]; }
    }
  }

  /** `re.split(r'(?<=[.!?])\s+', s)`: the text is cut at every whitespace run that follows
      a `.`, `!` or `?`, and the run is dropped. */
  function Sentences(s: string): (r: seq<string>)
    ensures SentencePieces(r)
    ensures (forall q :: !BreakAt(s, q)) ==> r == [s]
    decreases |s|
  {
    var p := FirstBreakFrom(s, 1);
    if p == -1 then
      NoBreakAnywhere(s);
      [s]
    else
      var j := p + LeadingSpaces(s[p..]);
      var rest := Sentences(s[j..]);
      SentencesCons(s, p, rest);
      [s[..p]] + rest
  }

  /** The text with each maximal whitespace run after a `.`, `!` or `?` put as one space,
      read character by character from position `i`; `inRun` says that `i` lies inside such a
      run. */
  function CollapseFrom(s: string, i: nat, inRun: bool): string
    decreases |s| - i
  {
    if i >= |s| then ""
    else if inRun && IsSpace(s[i]) then CollapseFrom(s, i + 1, true)
    else if BreakAt(s, i) then " " + CollapseFrom(s, i + 1, true)
    else [s[i]] + CollapseFrom(s, i + 1, false)
  }

  function CollapseBreakRuns(s: string): string {
    CollapseFrom(s, 0, false)
  }

  /** The breaks at or after `i`. A whitespace run after a sentence end has exactly one, at its
      first character. */
  function BreakCount(s: string, i: nat): nat
    decreases |s| - i
  {
    if i >= |s| then 0 else (if BreakAt(s, i) then 1 else 0) + BreakCount(s, i + 1)
  }

  /** Without a break in `[k, p)` the characters there are copied. */
  lemma {:induction false} CollapseCopies(s: string, k: nat, p: nat)
    requires k <= p <= |s|
    requires forall q :: k <= q < p ==> !BreakAt(s, q)
    ensures CollapseFrom(s, k, false) == s[k..p] + CollapseFrom(s, p, false)
    ensures BreakCount(s, k) == BreakCount(s, p)
    decreases p - k
  {
    if k < p {
      CollapseCopies(s, k + 1, p);
      assert s[k..p] == [s[k]] + s[k + 1..p];
    } else {
      assert s[k..p] == [];
    }
  }

  /** Inside a run the whitespace up to `j` is skipped and holds no break. */
  lemma {:induction false} CollapseSkips(s: string, i: nat, j: nat)
    requires 1 <= i <= j <= |s|
    requires forall q :: i - 1 <= q < j ==> IsSpace(s[q])
    ensures CollapseFrom(s, i, true) == CollapseFrom(s, j, true)
    ensures BreakCount(s, i) == BreakCount(s, j)
    decreases j - i
  {
    if i < j {
      assert !IsTerminal(s[i - 1]);
      CollapseSkips(s, i + 1, j);
    }
  }

  /** From a position that is no break, reading `s` and reading its suffix from `j` agree. */
  lemma {:induction false} CollapseShift(s: string, j: nat, i: nat, inRun: bool)
    requires j <= i <= |s|
    requires !BreakAt(s, j)
    ensures CollapseFrom(s, i, inRun) == CollapseFrom(s[j..], i - j, inRun)
    ensures BreakCount(s, i) == BreakCount(s[j..], i - j)
    decreases |s| - i
  {
    if i < |s| {
      var t := s[j..];
      assert t[i - j] == s[i];
      if i > j {
        assert t[i - j - 1] == s[i - 1];
      }
      assert BreakAt(s, i) == BreakAt(t, i - j);
      CollapseShift(s, j, i + 1, true);
      CollapseShift(s, j, i + 1, false);
    }
  }

  /** The whitespace run that starts at a break ends at a position that is no break. */
  lemma RunAfterBreak(s: string, p: int, j: nat)
    requires BreakAt(s, p) && j == p + LeadingSpaces(s[p..])
    ensures p < j <= |s|
    ensures forall q :: p <= q < j ==> IsSpace(s[q])
    ensures j == |s| || !IsSpace(s[j])
  {
    var n := LeadingSpaces(s[p..]);
    assert s[p..][0] == s[p];
    assert forall q :: p <= q < j ==> s[q] == s[p..][q - p];
    if j < |s| {
      assert s[j] == s[p..][n];
    }
  }

  /** At a break: one space, then the reading of what follows the run. */
  lemma CollapseAtBreak(s: string, p: int, j: nat)
    requires BreakAt(s, p) && j == p + LeadingSpaces(s[p..])
    ensures p < j <= |s|
    ensures CollapseFrom(s, p, false) == " " + CollapseFrom(s[j..], 0, false)
    ensures BreakCount(s, p) == 1 + BreakCount(s[j..], 0)
  {
    RunAfterBreak(s, p, j);
    CollapseSkips(s, p + 1, j);
    CollapseShift(s, j, j, false);
    CollapseShift(s, j, j, true);
  }

  /** Reading up to the end of the first break's whitespace run: the text before the break,
      one space, then the reading of what follows the run. */
  lemma CollapseFirstRun(s: string, p: int, j: nat)
    requires p == FirstBreakFrom(s, 1) && p != -1
    requires j == p + LeadingSpaces(s[p..])
    ensures p < j <= |s|
    ensures CollapseFrom(s, 0, false) == s[..p] + " " + CollapseFrom(s[j..], 0, false)
    ensures BreakCount(s, 0) == 1 + BreakCount(s[j..], 0)
  {
    var x := CollapseFrom(s[j..], 0, false);
    NoBreakBeforeFirst(s, p);
    CollapseCopies(s, 0, p);
    CollapseAtBreak(s, p, j);
    assert s[0..p] == s[..p];
    assert CollapseFrom(s, 0, false) == s[..p] + (" " + x);
    assert s[..p] + (" " + x) == s[..p] + " " + x;
  }

  lemma NoBreakBeforeFirst(s: string, p: int)
    requires p == FirstBreakFrom(s, 1) && p != -1
    ensures BreakAt(s, p) && forall q :: 0 <= q < p ==> !BreakAt(s, q)
  {
  }

  /** The split inverts the collapse: joining the sentences with single spaces gives the text
      with every whitespace run after a sentence end put as one space, and there is one sentence
      more than there are such runs. */
  lemma {:induction false} SentencesRejoin(s: string)
    ensures Join(Sentences(s), " ") == CollapseBreakRuns(s)
    ensures |Sentences(s)| == BreakCount(s, 0) + 1
    decreases |s|
  {
    var p := FirstBreakFrom(s, 1);
    if p == -1 {
      CollapseCopies(s, 0, |s|);
      assert s[0..|s|] == s;
      assert Sentences(s) == [s];
    } else {
      var j := p + LeadingSpaces(s[p..]);
      CollapseFirstRun(s, p, j);
      SentencesRejoin(s[j..]);
      JoinCons(s[..p], Sentences(s[j..]));
    }
  }

  lemma JoinCons(x: string, rest: seq<string>)
    requires |rest| >= 1
    ensures Join([x] + rest, " ") == x + " " + Join(rest, " ")
  {
    assert ([x] + rest)[1..] == rest;
  }

  lemma SentencePiecesTail(r: seq<string>)
    requires SentencePieces(r) && |r| > 1
    ensures SentencePieces(r[1..])
  {
    forall t, q | 0 <= t < |r| - 1 ensures !BreakAt(r[1..][t], q) {
      assert r[1..][t] == r[t + 1];
    }
  }

  /** In the pieces joined by single spaces the first break is the space after the first
      piece; a single piece has none. */
  lemma JoinFirstBreak(r: seq<string>)
    requires SentencePieces(r)
    ensures var c := Join(r, " ");
            if |r| == 1 then FirstBreakFrom(c, 1) == -1
            else && FirstBreakFrom(c, 1) == |r[0]|
                 && c[..|r[0]|] == r[0]
                 && c[|r[0]| + 1..] == Join(r[1..], " ")
  {
    if |r| == 1 {
      assert forall q :: !BreakAt(r[0], q);
    } else {
      JoinFirstBreakMany(r[0], Join(r[1..], " "));
    }
  }

  /** A piece that ends a sentence and holds no break, a space, then anything: the first break
      is that space. */
  lemma JoinFirstBreakMany(x: string, tail: string)
    requires x != [] && IsTerminal(x[|x| - 1]) && forall q :: !BreakAt(x, q)
    ensures var c := x + " " + tail;
            FirstBreakFrom(c, 1) == |x| && c[..|x|] == x && c[|x| + 1..] == tail
  {
    var c := x + " " + tail;
    var m := |x|;
    assert c[..m] == x && c[m + 1..] == tail;
    forall q | 1 <= q < m
      ensures !BreakAt(c, q)
    {
      assert c[q] == x[q] && c[q - 1] == x[q - 1];
      assert !BreakAt(x, q);
    }
    assert c[m] == ' ' && c[m - 1] == x[m - 1];
    assert BreakAt(c, m);
  }

  /** The split at sentence breaks is the only one of its shape: pieces that all end a
      sentence but the last, hold no break, and rejoin to the same text, are the same pieces. */
  lemma {:induction false} PiecesUnique(r: seq<string>, r': seq<string>)
    requires SentencePieces(r) && SentencePieces(r')
    requires Join(r, " ") == Join(r', " ")
    ensures r == r'
    decreases |r|
  {
    JoinFirstBreak(r);
    JoinFirstBreak(r');
    if |r| > 1 && |r'| > 1 {
      SentencePiecesTail(r);
      SentencePiecesTail(r');
      PiecesUnique(r[1..], r'[1..]);
      assert r == [r[0]] + r[1..] && r' == [r'[0]] + r'[1..];
    }
  }

  /** So `Sentences` is determined by the text: any pieces of that shape that rejoin to the
      collapsed text are its sentences. */
  lemma SentencesUnique(s: string, r: seq<string>)
    requires SentencePieces(r) && Join(r, " ") == CollapseBreakRuns(s)
    ensures r == Sentences(s)
  {
    SentencesRejoin(s);
    PiecesUnique(r, Sentences(s));
  }

  /** `pattern.search(sentence)` for the pattern `\b(k1|k2|...)\b` with `re.IGNORECASE`:
      some whole word of the sentence equals a keyword, ignoring case. */
  predicate MentionsKeyword(sentence: string, keywords: seq<string>) {
    var ws := Words(Lower(sentence));
    exists i :: 0 <= i < |ws| && ws[i] in keywords
  }

  function Mark(s: string): string {
    "<mark>" + s + "</mark>"
  }

  /** Each sentence, wrapped in `<mark>` exactly when it mentions a keyword. */
  function MarkSentences(sentences: seq<string>, keywords: seq<string>): (r: seq<string>)
    ensures |r| == |sentences|
    ensures forall i :: 0 <= i < |r| ==>
      if MentionsKeyword(sentences[i], keywords) then r[i] == Mark(sentences[i]) else r[i] == sentences[i]
  {
    seq(|sentences|, i requires 0 <= i < |sentences| =>
      if MentionsKeyword(sentences[i], keywords) then Mark(sentences[i]) else sentences[i])
  }

  /** `highlight_overlap`: the text unchanged when the answer yields no keyword; otherwise
      its sentences, each marked when it mentions a keyword, joined by single spaces. */
  function HighlightOverlap(text: string, answer: string): (r: string)
    ensures answer == "" || LongWords(Words(Lower(answer))) == [] ==> r == text
    ensures HighlightKeywords(answer).Some? ==>
              exists pieces :: && SentencePieces(pieces)
                               && Join(pieces, " ") == CollapseBreakRuns(text)
                               && |pieces| == BreakCount(text, 0) + 1
                               && r == Join(MarkSentences(pieces, HighlightKeywords(answer).value), " ")
  {
    SentencesRejoin(text);
    match HighlightKeywords(answer)
    case None => text
    case Some(keywords) => Join(MarkSentences(Sentences(text), keywords), " ")
  }

  /** The highlighted text is fixed by the text alone: for any pieces that split the collapsed
      text at its sentence breaks, it is those pieces, each marked when it mentions a keyword,
      joined by single spaces. */
  lemma HighlightMarks(text: string, answer: string, pieces: seq<string>)
    requires HighlightKeywords(answer).Some?
    requires SentencePieces(pieces) && Join(pieces, " ") == CollapseBreakRuns(text)
    ensures HighlightOverlap(text, answer)
            == Join(MarkSentences(pieces, HighlightKeywords(answer).value), " ")
  {
    SentencesUnique(text, pieces);
  }

  /** When no sentence mentions a keyword, highlighting only normalises the whitespace after
      sentence ends to one space. */
  lemma HighlightUnmarked(text: string, answer: string)
    requires HighlightKeywords(answer).Some?
    requires forall t :: 0 <= t < |Sentences(text)| ==>
               !MentionsKeyword(Sentences(text)[t], HighlightKeywords(answer).value)
    ensures HighlightOverlap(text, answer) == Join(Sentences(text), " ")
    ensures HighlightOverlap(text, answer) == CollapseBreakRuns(text)
  {
    SentencesRejoin(text);
    var kws := HighlightKeywords(answer).value;
    assert MarkSentences(Sentences(text), kws) == Sentences(text);
  }

  /** A text without sentence break is one sentence, marked whole or left alone. */
  lemma HighlightSingleSentence(text: string, answer: string)
    requires HighlightKeywords(answer).Some?
    requires forall q :: !BreakAt(text, q)
    ensures var kws := HighlightKeywords(answer).value;
            HighlightOverlap(text, answer)
            == if MentionsKeyword(text, kws) then Mark(text) else text
  {
  }

  // ---------------------------------------------------------------------------
  // extract_sources

  datatype Source = Source(path: string, pageInfo: string, snippet: string, chunk: string,
                           highlightedChunk: string)

  function SourceValue(d: Doc): MetaValue {
    if "source" in d.metadata then d.metadata["source"] else MStr("unknown")
  }

  function PageValue(d: Doc): MetaValue {
    if "page" in d.metadata then d.metadata["page"] else MStr("N/A")
  }

  /** The file name shown for a document: the basename of its source, or `"unknown"`. For a
      truthy integer source `os.path.basename` would raise `TypeError`; here the integer is
      rendered instead. That case does not arise for retrieved chunks: extraction fails on a
      non-zero integer source (`Extractor.SourceEntry`), and the falsy 0 shows as `"unknown"`. */
  function SourcePath(d: Doc): string {
    var v := SourceValue(d);
    if Truthy(v) && v != MStr("unknown") then Basename(Render(v)) else "unknown"
  }

  /** The deduplication key `f"{normalized_path}|{page}"`. */
  function SourceKey(d: Doc): string {
    SourcePath(d) + "|" + Render(PageValue(d))
  }

  function PageInfo(page: MetaValue): string {
    if page == MStr("N/A") then "N/A" else "Page " + Render(page)
  }

  function MakeSource(d: Doc, answer: Option<string>): Source {
    var highlighted :=
      if answer.Some? && answer.value != "" then HighlightOverlap(d.text, answer.value) else d.text;
    Source(SourcePath(d), PageInfo(PageValue(d)), d.text, d.text, highlighted)
  }

  /** The loop of `extract_sources`, for any key and entry builder: walk `xs` in order, skip
      an element whose key is in `seen`, otherwise record its key and emit `make` of it. */
  function KeepFirst<T, K(==), U>(xs: seq<T>, key: T -> K, make: T -> U, seen: set<K>): (r: seq<U>)
    ensures |r| <= |xs|
  {
    if xs == [] then []
    else if key(xs[0]) in seen then KeepFirst(xs[1..], key, make, seen)
    else [make(xs[0])] + KeepFirst(xs[1..], key, make, seen + {key(xs[0])})
  }

  /** `extract_sources`: one `Source` per distinct `(basename, page)` key. */
  function ExtractSources(docs: seq<Doc>, answer: Option<string>): (r: seq<Source>)
    ensures |r| <= |docs|
  {
    KeepFirst(docs, SourceKey, SourceOf(answer), {})
  }

  function SourceOf(answer: Option<string>): Doc -> Source {
    d => MakeSource(d, answer)
  }

  /** The keys of `xs`, in order. */
  function KeysBy<T, K>(xs: seq<T>, key: T -> K): (keys: seq<K>)
    ensures |keys| == |xs|
    ensures forall i :: 0 <= i < |xs| ==> keys[i] == key(xs[i])
  {
    seq(|xs|, i requires 0 <= i < |xs| => key(xs[i]))
  }

  function Elements<K>(s: seq<K>): set<K> {
    set k | k in s
  }

  /** Entry `i` is the first with its key. */
  predicate FirstOf<K(==)>(keys: seq<K>, i: nat)
    requires i < |keys|
  {
    forall j :: 0 <= j < i ==> keys[j] != keys[i]
  }

  /** The indices, from `i` on and ascending, of entries that are first with their key. */
  function KeptFrom<K(==)>(keys: seq<K>, i: nat): (r: seq<nat>)
    requires i <= |keys|
    ensures forall t :: 0 <= t < |r| ==> i <= r[t] < |keys|
    decreases |keys| - i
  {
    if i == |keys| then []
    else (if FirstOf(keys, i) then [i] else []) + KeptFrom(keys, i + 1)
  }

  /** `KeptFrom` lists, ascending, exactly the first-with-their-key positions from `i` on. */
  lemma KeptFromSpec<K>(keys: seq<K>, i: nat)
    requires i <= |keys|
    ensures var r := KeptFrom(keys, i);
            && (forall t :: 0 <= t < |r| ==> FirstOf(keys, r[t]))
            && (forall t, u :: 0 <= t < u < |r| ==> r[t] < r[u])
            && (forall k :: i <= k < |keys| && FirstOf(keys, k) ==> k in r)
  {
    KeptFromFirst(keys, i);
    KeptFromAscending(keys, i);
    KeptFromComplete(keys, i);
  }

  lemma {:induction false} KeptFromFirst<K>(keys: seq<K>, i: nat)
    requires i <= |keys|
    ensures forall t :: 0 <= t < |KeptFrom(keys, i)| ==> FirstOf(keys, KeptFrom(keys, i)[t])
    decreases |keys| - i
  {
    if i < |keys| {
      KeptFromFirst(keys, i + 1);
      var r := KeptFrom(keys, i);
      var rest := KeptFrom(keys, i + 1);
      if FirstOf(keys, i) {
        assert r == [i] + rest;
        assert forall t :: 1 <= t < |r| ==> r[t] == rest[t - 1];
      }
    }
  }

  lemma {:induction false} KeptFromAscending<K>(keys: seq<K>, i: nat)
    requires i <= |keys|
    ensures forall t, u :: 0 <= t < u < |KeptFrom(keys, i)| ==> KeptFrom(keys, i)[t] < KeptFrom(keys, i)[u]
    decreases |keys| - i
  {
    if i < |keys| {
      KeptFromAscending(keys, i + 1);
      var r := KeptFrom(keys, i);
      var rest := KeptFrom(keys, i + 1);
      if FirstOf(keys, i) {
        assert r == [i] + rest;
        assert forall t :: 1 <= t < |r| ==> r[t] == rest[t - 1];
      }
    }
  }

  lemma {:induction false} KeptFromComplete<K>(keys: seq<K>, i: nat)
    requires i <= |keys|
    ensures forall k :: i <= k < |keys| && FirstOf(keys, k) ==> k in KeptFrom(keys, i)
    decreases |keys| - i
  {
    if i < |keys| {
      KeptFromComplete(keys, i + 1);
      var r := KeptFrom(keys, i);
      var rest := KeptFrom(keys, i + 1);
      forall k | i <= k < |keys| && FirstOf(keys, k) ensures k in r {
        if k == i {
          assert r == [i] + rest;
        } else {
          assert k in rest;
        }
      }
    }
  }

  /** The first index whose entry has the key of entry `i`. */
  ghost function FirstKeyIndex<K>(keys: seq<K>, i: nat): (f: nat)
    requires i < |keys|
    ensures f <= i && FirstOf(keys, f) && keys[f] == keys[i]
  {
    if FirstOf(keys, i) then i
    else
      var j :| 0 <= j < i && keys[j] == keys[i];
      FirstKeyIndex(keys, j)
  }

  /** `make` applied to the elements at positions `idx`, in that order. */
  function MapAt<T, U>(xs: seq<T>, idx: seq<nat>, make: T -> U): (r: seq<U>)
    requires forall t :: 0 <= t < |idx| ==> idx[t] < |xs|
    ensures |r| == |idx|
    ensures forall t :: 0 <= t < |idx| ==> r[t] == make(xs[idx[t]])
  {
    if idx == [] then [] else [make(xs[idx[0]])] + MapAt(xs, idx[1..], make)
  }

  /** One step of the loop: the element at `i` is emitted exactly when it is the first with
      its key, and either way the keys seen grow to those of `xs[..i + 1]`. */
  lemma KeepFirstStep<T, K, U>(xs: seq<T>, key: T -> K, make: T -> U, i: nat)
    requires i < |xs|
    ensures var keys := KeysBy(xs, key);
            KeepFirst(xs[i..], key, make, Elements(keys[..i]))
            == (if FirstOf(keys, i) then [make(xs[i])] else [])
               + KeepFirst(xs[i + 1..], key, make, Elements(keys[..i + 1]))
  {
    var keys := KeysBy(xs, key);
    assert xs[i..][1..] == xs[i + 1..];
    assert xs[i..][0] == xs[i];
    var seen := Elements(keys[..i]);
    assert keys[..i + 1] == keys[..i] + [keys[i]];
    assert Elements(keys[..i + 1]) == seen + {keys[i]};
    assert keys[i] in seen <==> !FirstOf(keys, i) by {
      assert forall j :: 0 <= j < i ==> keys[..i][j] == keys[j];
    }
    assert key(xs[i..][0]) == keys[i];
    if FirstOf(keys, i) {
      assert KeepFirst(xs[i..], key, make, seen)
             == [make(xs[i])] + KeepFirst(xs[i + 1..], key, make, seen + {keys[i]});
    } else {
      assert KeepFirst(xs[i..], key, make, seen) == KeepFirst(xs[i + 1..], key, make, seen);
      assert seen + {keys[i]} == seen;
      assert [] + KeepFirst(xs[i + 1..], key, make, seen) == KeepFirst(xs[i + 1..], key, make, seen);
    }
  }

  lemma {:induction false} KeepFirstKept<T, K, U>(xs: seq<T>, key: T -> K, make: T -> U, i: nat)
    requires i <= |xs|
    ensures var keys := KeysBy(xs, key);
            KeepFirst(xs[i..], key, make, Elements(keys[..i])) == MapAt(xs, KeptFrom(keys, i), make)
    decreases |xs| - i
  {
    if i < |xs| {
      KeepFirstKept(xs, key, make, i + 1);
      KeepFirstKeptStep(xs, key, make, KeysBy(xs, key), i);
    }
  }

  lemma KeepFirstKeptStep<T, K, U>(xs: seq<T>, key: T -> K, make: T -> U, keys: seq<K>, i: nat)
    requires i < |xs| && keys == KeysBy(xs, key)
    requires KeepFirst(xs[i + 1..], key, make, Elements(keys[..i + 1])) == MapAt(xs, KeptFrom(keys, i + 1), make)
    ensures KeepFirst(xs[i..], key, make, Elements(keys[..i])) == MapAt(xs, KeptFrom(keys, i), make)
  {
    KeepFirstStep(xs, key, make, i);
    var rest := KeptFrom(keys, i + 1);
    if FirstOf(keys, i) {
      assert KeptFrom(keys, i) == [i] + rest;
      MapAtCons(xs, i, rest, make);
    } else {
      assert KeptFrom(keys, i) == rest;
    }
  }

  lemma MapAtCons<T, U>(xs: seq<T>, i: nat, rest: seq<nat>, make: T -> U)
    requires i < |xs| && forall t :: 0 <= t < |rest| ==> rest[t] < |xs|
    ensures MapAt(xs, [i] + rest, make) == [make(xs[i])] + MapAt(xs, rest, make)
  {
    assert ([i] + rest)[0] == i && ([i] + rest)[1..] == rest;
  }

  /** The kept positions have pairwise different keys, and every key of the input is
      represented by a kept position at or before its first occurrence. */
  lemma KeptFirstKeys<K>(keys: seq<K>)
    ensures var kept := KeptFrom(keys, 0);
            && (forall t, u :: 0 <= t < u < |kept| ==> kept[t] < kept[u] && keys[kept[t]] != keys[kept[u]])
            && (forall i :: 0 <= i < |keys| ==>
                  exists t :: 0 <= t < |kept| && kept[t] <= i && keys[kept[t]] == keys[i])
  {
    var kept := KeptFrom(keys, 0);
    KeptFromSpec(keys, 0);
    forall t, u | 0 <= t < u < |kept| ensures keys[kept[t]] != keys[kept[u]] {
      assert FirstOf(keys, kept[u]);
    }
    forall i | 0 <= i < |keys|
      ensures exists t :: 0 <= t < |kept| && kept[t] <= i && keys[kept[t]] == keys[i]
    {
      var f := FirstKeyIndex(keys, i);
      assert f in kept;
      var t :| 0 <= t < |kept| && kept[t] == f;
    }
  }

  /** `extract_sources` keeps, in input order, exactly the first document of each
      `(basename, page)` key (see `KeptFirstKeys`). Each entry shows the basename and page
      label, with snippet and chunk equal to the page content and the highlighted chunk
      unchanged when the answer is empty or missing. */
  lemma ExtractSourcesSpec(docs: seq<Doc>, answer: Option<string>)
    ensures var kept := KeptFrom(KeysBy(docs, SourceKey), 0);
            var r := ExtractSources(docs, answer);
            && |r| == |kept|
            && (forall t :: 0 <= t < |r| ==>
                  var d := docs[kept[t]];
                  && r[t] == MakeSource(d, answer)
                  && r[t].path == SourcePath(d)
                  && r[t].pageInfo == PageInfo(PageValue(d))
                  && r[t].snippet == d.text && r[t].chunk == d.text
                  && (answer.None? || answer.value == "" ==> r[t].highlightedChunk == d.text))
  {
    var keys := KeysBy(docs, SourceKey);
    KeepFirstKept(docs, SourceKey, SourceOf(answer), 0);
    assert docs[0..] == docs;
    assert keys[..0] == [];
    assert Elements(keys[..0]) == {};
  }
}
