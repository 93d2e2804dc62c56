/** `DocumentNormalizationAndCleaning` (`src/preprocessing/clean_normalize.py`): a cleaning of
    each extracted record chosen by its `doc_type`, then a whitespace normalization of its text.
    Each `re.sub` of `normalize_text` is written out as a left-to-right scan that replaces the
    leftmost match and resumes after it, as `re.sub` does. */
module CleanNormalize {
  import opened Wrappers
  import opened Text
  import opened Records
  import opened Lists

  // ---------------------------------------------------------------------------------------
  // Character classes, runs and neighbouring pairs

  /** The class `[ \t]`. */
  predicate IsBlank(c: char) {
    c == ' ' || c == '\t'
  }

  predicate IsPlainSpace(c: char) {
    c == ' '
  }

  /** How much of the start of `s` a greedy `p*` consumes. */
  function LeadingWhile(p: char -> bool, s: string): (n: nat)
    ensures n <= |s|
    ensures forall i :: 0 <= i < n ==> p(s[i])
    ensures n == |s| || !p(s[n])
  {
    if s == [] || !p(s[0]) then 0 else 1 + LeadingWhile(p, s[1..])
  }

  /** No two neighbouring characters `a, b` of `s` satisfy `bad(a, b)`. */
  predicate AdjacentFree(s: string, bad: (char, char) -> bool) {
    forall i :: 0 <= i < |s| - 1 ==> !bad(s[i], s[i + 1])
  }

  predicate DoubleSpace(a: char, b: char) {
    a == ' ' && b == ' '
  }

  /** A space or tab next to a line break, on either side of it. */
  predicate BlankAtBreak(a: char, b: char) {
    (IsBlank(a) && b == '\n') || (a == '\n' && IsBlank(b))
  }

  lemma AdjacentFreeCons(c: char, t: string, bad: (char, char) -> bool)
    requires AdjacentFree(t, bad)
    requires t != [] ==> !bad(c, t[0])
    ensures AdjacentFree([c] + t, bad)
  {
    var s := [c] + t;
    forall i | 0 <= i < |s| - 1
      ensures !bad(s[i], s[i + 1])
    {
      if i > 0 {
        assert s[i] == t[i - 1] && s[i + 1] == t[i];
      }
    }
  }

  lemma AdjacentFreeSlice(s: string, a: nat, b: nat, bad: (char, char) -> bool)
    requires a <= b <= |s|
    requires AdjacentFree(s, bad)
    ensures AdjacentFree(s[a..b], bad)
  {
    var t := s[a..b];
    forall i | 0 <= i < |t| - 1
      ensures !bad(t[i], t[i + 1])
    {
      assert t[i] == s[a + i] && t[i + 1] == s[a + i + 1];
    }
  }

  // ---------------------------------------------------------------------------------------
  // Line breaks inside whitespace stretches

  /** The line breaks in the whitespace stretch (class `\s`) that starts `s`. */
  function Breaks(s: string): nat {
    if s == [] || !IsSpace(s[0]) then 0 else (if s[0] == '\n' then 1 else 0) + Breaks(s[1..])
  }

  /** Every whitespace stretch of `s` holds at most two line breaks, that is, at most one blank
      line separates two paragraphs. */
  predicate FewBreaks(s: string) {
    forall i :: 0 <= i <= |s| ==> Breaks(s[i..]) <= 2
  }

  lemma FewBreaksCons(c: char, t: string)
    requires FewBreaks(t) && Breaks([c] + t) <= 2
    ensures FewBreaks([c] + t)
  {
    var s := [c] + t;
    forall i | 0 <= i <= |s|
      ensures Breaks(s[i..]) <= 2
    {
      if i > 0 {
        assert s[i..] == t[i - 1..];
      }
    }
  }

  lemma FewBreaksSuffix(s: string, k: nat)
    requires k <= |s| && FewBreaks(s)
    ensures FewBreaks(s[k..])
  {
    var t := s[k..];
    forall i | 0 <= i <= |t|
      ensures Breaks(t[i..]) <= 2
    {
      assert t[i..] == s[k + i..];
    }
  }

  lemma {:induction false} BreaksPrefix(s: string, k: nat)
    requires k <= |s|
    ensures Breaks(s[..k]) <= Breaks(s)
  {
    if k > 0 && IsSpace(s[0]) {
      assert s[..k][1..] == s[1..][..k - 1];
      BreaksPrefix(s[1..], k - 1);
    }
  }

  lemma FewBreaksSlice(s: string, a: nat, b: nat)
    requires a <= b <= |s| && FewBreaks(s)
    ensures FewBreaks(s[a..b])
  {
    var t := s[a..b];
    forall i | 0 <= i <= |t|
      ensures Breaks(t[i..]) <= 2
    {
      assert t[i..] == s[a + i..][..b - a - i];
      BreaksPrefix(s[a + i..], b - a - i);
    }
  }

  /** Skipping whitespace that holds no line break leaves the count unchanged. */
  lemma {:induction false} BreaksSkip(s: string, k: nat)
    requires k <= |s|
    requires forall i :: 0 <= i < k ==> IsSpace(s[i]) && s[i] != '\n'
    ensures Breaks(s) == Breaks(s[k..])
  {
    if k > 0 {
      assert s[1..][k - 1..] == s[k..];
      BreaksSkip(s[1..], k - 1);
    }
  }

  /** No three line breaks in a row. */
  predicate NoTripleBreak(s: string) {
    forall i :: 0 <= i < |s| - 2 ==> !(s[i] == '\n' && s[i + 1] == '\n' && s[i + 2] == '\n')
  }

  lemma TripleBreak(t: string)
    requires |t| >= 3
    ensures t[0] == '\n' && t[1] == '\n' && t[2] == '\n' ==> Breaks(t) >= 3
  {
    if t[0] == '\n' && t[1] == '\n' && t[2] == '\n' {
      assert IsSpace('\n');
      assert t[1..][1..] == t[2..] && t[2..][0] == '\n';
      assert Breaks(t[2..]) >= 1;
      assert Breaks(t[1..]) >= 2;
    }
  }

  /** Three line breaks in a row would form a stretch with three breaks. */
  lemma FewBreaksNoTriple(s: string)
    requires FewBreaks(s)
    ensures NoTripleBreak(s)
  {
    forall i | 0 <= i < |s| - 2
      ensures !(s[i] == '\n' && s[i + 1] == '\n' && s[i + 2] == '\n')
    {
      TripleBreak(s[i..]);
    }
  }

  // ---------------------------------------------------------------------------------------
  // The steps of `normalize_text`

  /** `text.replace("\r\n", "\n")`: occurrences replaced left to right, without overlap. */
  function ReplaceCrLf(s: string): (r: string)
    ensures forall c :: c in r ==> c in s
    ensures s != [] ==> r != []
    ensures '\r' !in s ==> r == s
  {
    if s == [] then []
    else if |s| >= 2 && s[0] == '\r' && s[1] == '\n' then "\n" + ReplaceCrLf(s[2..])
    else [s[0]] + ReplaceCrLf(s[1..])
  }

  /** `.replace("\r", "\n")`. */
  function ReplaceCr(s: string): (r: string)
    ensures |r| == |s|
    ensures forall i :: 0 <= i < |s| ==> r[i] == if s[i] == '\r' then '\n' else s[i]
    ensures '\r' !in r
    ensures forall c :: c in r ==> c in s || c == '\n'
    ensures '\r' !in s ==> r == s
  {
    if s == [] then []
    else
      var rest := ReplaceCr(s[1..]);
      ReplaceCrCons(s, rest);
      [if s[0] == '\r' then '\n' else s[0]] + rest
  }

  lemma ReplaceCrCons(s: string, rest: string)
    requires s != [] && |rest| == |s| - 1
    requires forall i :: 0 <= i < |rest| ==> rest[i] == if s[i + 1] == '\r' then '\n' else s[i + 1]
    requires '\r' !in rest && forall c :: c in rest ==> c in s[1..] || c == '\n'
    requires '\r' !in s[1..] ==> rest == s[1..]
    ensures var r := [if s[0] == '\r' then '\n' else s[0]] + rest;
      && (forall i :: 0 <= i < |s| ==> r[i] == if s[i] == '\r' then '\n' else s[i])
      && '\r' !in r
      && (forall c :: c in r ==> c in s || c == '\n')
      && ('\r' !in s ==> r == s)
  {
    var r := [if s[0] == '\r' then '\n' else s[0]] + rest;
    assert s == [s[0]] + s[1..];
    forall c | c in r
      ensures c in s || c == '\n'
    {
      if c in rest {
        assert c in s[1..] || c == '\n';
      }
    }
  }

  /** `re.sub(r"[ \t]+", " ", text)`: every run of spaces and tabs becomes one space. It keeps
      the line breaks of every stretch. */
  function CollapseBlanks(s: string): (r: string)
    ensures '\t' !in r
    ensures forall c :: c in r ==> c in s || c == ' '
    ensures s != [] ==> r != []
    ensures Breaks(r) == Breaks(s)
  {
    if s == [] then []
    else if IsBlank(s[0]) then
      var k := LeadingWhile(IsBlank, s);
      var rest := CollapseBlanks(s[k..]);
      BlankRunBreaks(s, k, rest);
      " " + rest
    else
      var rest := CollapseBlanks(s[1..]);
      CopyBreaks(s, rest);
      [s[0]] + rest
  }

  lemma BlankRunBreaks(s: string, k: nat, rest: string)
    requires s != [] && IsBlank(s[0]) && k == LeadingWhile(IsBlank, s)
    requires Breaks(rest) == Breaks(s[k..])
    ensures Breaks(" " + rest) == Breaks(s)
  {
    BreaksSkip(s, k);
    assert (" " + rest)[1..] == rest;
  }

  lemma CopyBreaks(s: string, rest: string)
    requires s != [] && Breaks(rest) == Breaks(s[1..])
    ensures Breaks([s[0]] + rest) == Breaks(s)
  {
    assert ([s[0]] + rest)[1..] == rest;
  }

  lemma {:induction false} CollapseBlanksFixes(s: string)
    requires '\t' !in s && AdjacentFree(s, DoubleSpace)
    ensures CollapseBlanks(s) == s
  {
    if s != [] {
      AdjacentFreeSlice(s, 1, |s|, DoubleSpace);
      CollapseBlanksFixes(s[1..]);
      if IsBlank(s[0]) {
        assert |s| > 1 ==> !IsBlank(s[1..][0]);
        assert LeadingWhile(IsBlank, s) == 1;
      }
      assert s == [s[0]] + s[1..];
    }
  }

  /** The rest of `s` after the last line break of its leading whitespace stretch. */
  function AfterLastBreak(s: string): (r: string)
    ensures |r| <= |s| && r == s[|s| - |r|..]
    ensures Breaks(r) == 0
    ensures Breaks(s) > 0 ==> |r| < |s|
  {
    if Breaks(s) == 0 then s else AfterLastBreak(s[1..])
  }

  /** `re.sub(r"\n\s*\n\s*\n+", "\n\n", text)`. A match starts at a line break and stays within
      one whitespace stretch, so there is one exactly when the stretch from that break holds
      three or more breaks; backtracking from the greedy `\s*` then ends it just after the
      stretch's last break. Every stretch of the result holds at most two breaks. */
  function CollapseBlankLines(s: string): (r: string)
    ensures forall c :: c in r ==> c in s
    ensures s != [] ==> r != []
    ensures Breaks(r) == if Breaks(s) < 2 then Breaks(s) else 2
    ensures FewBreaks(r)
  {
    if s == [] then []
    else if s[0] == '\n' && Breaks(s) >= 3 then
      var rest := CollapseBlankLines(AfterLastBreak(s));
      BlankLinesRunFacts(s, rest);
      "\n\n" + rest
    else
      var rest := CollapseBlankLines(s[1..]);
      BlankLinesCopyFacts(s, rest);
      [s[0]] + rest
  }

  /** A stretch with three or more line breaks, from its first break on, becomes two breaks. */
  lemma BlankLinesRunFacts(s: string, rest: string)
    requires s != [] && s[0] == '\n'
    requires forall c :: c in rest ==> c in AfterLastBreak(s)
    requires Breaks(rest) == 0 && FewBreaks(rest)
    ensures forall c :: c in "\n\n" + rest ==> c in s
    ensures Breaks("\n\n" + rest) == 2
    ensures FewBreaks("\n\n" + rest)
  {
    BlankLinesRunChars(s, rest);
    TwoBreaksFew(rest);
  }

  lemma BlankLinesRunChars(s: string, rest: string)
    requires s != [] && s[0] == '\n'
    requires forall c :: c in rest ==> c in AfterLastBreak(s)
    ensures forall c :: c in "\n\n" + rest ==> c in s
  {
    var t := AfterLastBreak(s);
    assert forall c :: c in t ==> c in s;
  }

  /** Two line breaks in front of a text whose first stretch has none. */
  lemma TwoBreaksFew(rest: string)
    requires Breaks(rest) == 0 && FewBreaks(rest)
    ensures Breaks("\n\n" + rest) == 2
    ensures FewBreaks("\n\n" + rest)
  {
    var one := "\n" + rest;
    assert one[1..] == rest;
    FewBreaksCons('\n', rest);
    assert ['\n'] + one == "\n\n" + rest;
    assert (['\n'] + one)[1..] == one;
    FewBreaksCons('\n', one);
  }

  /** Any other character is copied. */
  lemma BlankLinesCopyFacts(s: string, rest: string)
    requires s != [] && !(s[0] == '\n' && Breaks(s) >= 3)
    requires forall c :: c in rest ==> c in s[1..]
    requires Breaks(rest) == (if Breaks(s[1..]) < 2 then Breaks(s[1..]) else 2) && FewBreaks(rest)
    ensures forall c :: c in [s[0]] + rest ==> c in s
    ensures Breaks([s[0]] + rest) == if Breaks(s) < 2 then Breaks(s) else 2
    ensures FewBreaks([s[0]] + rest)
  {
    assert ([s[0]] + rest)[1..] == rest;
    FewBreaksCons(s[0], rest);
  }

  lemma {:induction false} CollapseBlankLinesFixes(s: string)
    requires FewBreaks(s)
    ensures CollapseBlankLines(s) == s
  {
    if s != [] {
      assert Breaks(s[0..]) <= 2 by { assert s[0..] == s; }
      FewBreaksSuffix(s, 1);
      CollapseBlankLinesFixes(s[1..]);
      assert s == [s[0]] + s[1..];
    }
  }

  /** A line break lies ahead after nothing but spaces and tabs. */
  predicate BreakAhead(s: string) {
    var b := LeadingWhile(IsBlank, s);
    b < |s| && s[b] == '\n'
  }

  lemma BreakAheadCons(s: string)
    requires s != []
    ensures IsBlank(s[0]) && BreakAhead(s[1..]) ==> BreakAhead(s)
  {
    if IsBlank(s[0]) {
      assert LeadingWhile(IsBlank, s) == 1 + LeadingWhile(IsBlank, s[1..]);
    }
  }

  /** What remains after a match of `[ \t]*\n[ \t]*` at the start of `s`. */
  function SkipBreak(s: string): (u: string)
    requires BreakAhead(s)
    ensures |u| < |s| && u == s[|s| - |u|..]
    ensures Breaks(u) + 1 == Breaks(s)
    ensures u == [] || !IsBlank(u[0])
  {
    var b := LeadingWhile(IsBlank, s);
    var t := s[b + 1..];
    var n := LeadingWhile(IsBlank, t);
    SkipBreakFacts(s, b, t, n);
    t[n..]
  }

  lemma SkipBreakFacts(s: string, b: nat, t: string, n: nat)
    requires BreakAhead(s) && b == LeadingWhile(IsBlank, s)
    requires t == s[b + 1..] && n == LeadingWhile(IsBlank, t)
    ensures |t[n..]| < |s| && t[n..] == s[|s| - |t[n..]|..]
    ensures Breaks(t[n..]) + 1 == Breaks(s)
    ensures t[n..] == [] || !IsBlank(t[n..][0])
  {
    assert n < |t| ==> t[n..][0] == t[n];
    SkipBreakSlice(s, b, t, n);
    SkipBreakCount(s, b, t, n);
  }

  lemma SkipBreakSlice(s: string, b: nat, t: string, n: nat)
    requires b < |s| && t == s[b + 1..] && n <= |t|
    ensures |t[n..]| < |s| && t[n..] == s[|s| - |t[n..]|..]
  {
    var u := t[n..];
    assert u == s[b + 1 + n..];
    assert |s| - |u| == b + 1 + n;
  }

  lemma SkipBreakCount(s: string, b: nat, t: string, n: nat)
    requires BreakAhead(s) && b == LeadingWhile(IsBlank, s)
    requires t == s[b + 1..] && n == LeadingWhile(IsBlank, t)
    ensures Breaks(t[n..]) + 1 == Breaks(s)
  {
    BlanksSkip(s, b);
    BreaksAtBreak(s[b..]);
    assert s[b..][1..] == t;
    BlanksSkip(t, n);
  }

  /** Spaces and tabs hold no line break. */
  lemma BlanksSkip(s: string, k: nat)
    requires k == LeadingWhile(IsBlank, s)
    ensures Breaks(s) == Breaks(s[k..])
  {
    BreaksSkip(s, k);
  }

  lemma BreaksAtBreak(x: string)
    requires x != [] && x[0] == '\n'
    ensures Breaks(x) == 1 + Breaks(x[1..])
  {
  }

  /** `re.sub(r"[ \t]*\n[ \t]*", "\n", text)`: a match at a position needs spaces and tabs only
      up to a line break, and takes the spaces and tabs after it. */
  function StripAroundBreaks(s: string): (r: string)
    ensures forall c :: c in r ==> c in s
    ensures s != [] ==> r != [] && (r[0] == '\n' <==> BreakAhead(s)) && (!BreakAhead(s) ==> r[0] == s[0])
    decreases |s|
  {
    if s == [] then []
    else if BreakAhead(s) then
      var u := SkipBreak(s);
      assert forall c :: c in u ==> c in s;
      assert s[LeadingWhile(IsBlank, s)] == '\n';
      "\n" + StripAroundBreaks(u)
    else
      [s[0]] + StripAroundBreaks(s[1..])
  }

  /** The step leaves no space or tab next to a line break and keeps the breaks of every
      stretch. */
  lemma {:induction false} StripAroundBreaksSpec(s: string)
    ensures Breaks(StripAroundBreaks(s)) == Breaks(s)
    ensures AdjacentFree(StripAroundBreaks(s), BlankAtBreak)
    ensures FewBreaks(s) ==> FewBreaks(StripAroundBreaks(s))
    decreases |s|
  {
    if s != [] {
      var r := StripAroundBreaks(s);
      if FewBreaks(s) {
        assert Breaks(s[0..]) <= 2 by { assert s[0..] == s; }
      }
      if BreakAhead(s) {
        var u := SkipBreak(s);
        var rest := StripAroundBreaks(u);
        StripAroundBreaksSpec(u);
        assert r == "\n" + rest && r[1..] == rest;
        AdjacentFreeCons('\n', rest, BlankAtBreak);
        if FewBreaks(s) {
          FewBreaksSuffix(s, |s| - |u|);
          FewBreaksCons('\n', rest);
        }
      } else {
        var rest := StripAroundBreaks(s[1..]);
        StripAroundBreaksSpec(s[1..]);
        BreakAheadCons(s);
        assert r == [s[0]] + rest && r[1..] == rest;
        AdjacentFreeCons(s[0], rest, BlankAtBreak);
        if FewBreaks(s) {
          FewBreaksSuffix(s, 1);
          FewBreaksCons(s[0], rest);
        }
      }
    }
  }

  lemma {:induction false} StripAroundBreaksFixes(s: string)
    requires AdjacentFree(s, BlankAtBreak)
    ensures StripAroundBreaks(s) == s
    decreases |s|
  {
    if s != [] {
      AdjacentFreeSlice(s, 1, |s|, BlankAtBreak);
      StripAroundBreaksFixes(s[1..]);
      if BreakAhead(s) {
        var b := LeadingWhile(IsBlank, s);
        if b > 0 {
          assert BlankAtBreak(s[b - 1], s[b]);
        }
        assert b == 0;
        var t := s[1..];
        if t != [] {
          assert !BlankAtBreak(s[0], s[1]);
        }
        assert LeadingWhile(IsBlank, t) == 0;
        assert t[0..] == t;
      }
      assert s == [s[0]] + s[1..];
    }
  }

  /** `re.sub(r" {2,}", " ", text)`. Putting a space for a lone space changes nothing, so this
      is the same as putting one space for every run of spaces. */
  function CollapseSpaces(s: string): (r: string)
    ensures forall c :: c in r ==> c in s
    ensures s != [] ==> r != [] && r[0] == s[0]
    ensures Breaks(r) == Breaks(s)
    ensures AdjacentFree(r, DoubleSpace)
  {
    if s == [] then []
    else if s[0] == ' ' then
      var k := LeadingWhile(IsPlainSpace, s);
      var rest := CollapseSpaces(s[k..]);
      BreaksSkip(s, k);
      assert (" " + rest)[1..] == rest;
      AdjacentFreeCons(' ', rest, DoubleSpace);
      " " + rest
    else
      var rest := CollapseSpaces(s[1..]);
      assert ([s[0]] + rest)[1..] == rest;
      AdjacentFreeCons(s[0], rest, DoubleSpace);
      [s[0]] + rest
  }

  lemma CollapseSpacesKeeps(s: string)
    ensures FewBreaks(s) ==> FewBreaks(CollapseSpaces(s))
    ensures AdjacentFree(s, BlankAtBreak) ==> AdjacentFree(CollapseSpaces(s), BlankAtBreak)
  {
    if FewBreaks(s) {
      CollapseSpacesFewBreaks(s);
    }
    if AdjacentFree(s, BlankAtBreak) {
      CollapseSpacesBlankFree(s);
    }
  }

  /** The first step of `CollapseSpaces`: one character, then the rest from `k` on. */
  lemma CollapseSpacesStep(s: string) returns (k: nat, head: char)
    requires s != []
    ensures 1 <= k <= |s| && head == (if s[0] == ' ' then ' ' else s[0])
    ensures s[0] == ' ' ==> k == LeadingWhile(IsPlainSpace, s)
    ensures s[0] != ' ' ==> k == 1
    ensures CollapseSpaces(s) == [head] + CollapseSpaces(s[k..])
  {
    k := if s[0] == ' ' then LeadingWhile(IsPlainSpace, s) else 1;
    head := if s[0] == ' ' then ' ' else s[0];
  }

  lemma {:induction false} CollapseSpacesFewBreaks(s: string)
    requires FewBreaks(s)
    ensures FewBreaks(CollapseSpaces(s))
    decreases |s|
  {
    if s != [] {
      var k, head := CollapseSpacesStep(s);
      var rest := CollapseSpaces(s[k..]);
      FewBreaksSuffix(s, k);
      CollapseSpacesFewBreaks(s[k..]);
      assert Breaks(s[0..]) <= 2 by { assert s[0..] == s; }
      assert ([head] + rest)[1..] == rest;
      if s[0] == ' ' {
        BreaksSkip(s, k);
      }
      FewBreaksCons(head, rest);
    }
  }

  lemma {:induction false} CollapseSpacesBlankFree(s: string)
    requires AdjacentFree(s, BlankAtBreak)
    ensures AdjacentFree(CollapseSpaces(s), BlankAtBreak)
    decreases |s|
  {
    if s != [] {
      var k, head := CollapseSpacesStep(s);
      var rest := CollapseSpaces(s[k..]);
      AdjacentFreeSlice(s, k, |s|, BlankAtBreak);
      CollapseSpacesBlankFree(s[k..]);
      if rest != [] {
        assert rest[0] == s[k];
        assert !BlankAtBreak(s[k - 1], s[k]);
      }
      AdjacentFreeCons(head, rest, BlankAtBreak);
    }
  }

  lemma {:induction false} CollapseSpacesFixes(s: string)
    requires AdjacentFree(s, DoubleSpace)
    ensures CollapseSpaces(s) == s
  {
    if s != [] {
      AdjacentFreeSlice(s, 1, |s|, DoubleSpace);
      CollapseSpacesFixes(s[1..]);
      if s[0] == ' ' {
        assert |s| > 1 ==> !IsPlainSpace(s[1..][0]);
        assert LeadingWhile(IsPlainSpace, s) == 1;
      }
      assert s == [s[0]] + s[1..];
    }
  }

  /** What `str.strip` keeps of `s`: its characters and its stretches' breaks. */
  lemma StripKeeps(s: string)
    ensures forall c :: c in Strip(s) ==> c in s
    ensures FewBreaks(s) ==> FewBreaks(Strip(s))
  {
    var r := Strip(s);
    var i :| StrippedAt(s, r, i);
    if FewBreaks(s) {
      FewBreaksSlice(s, i, i + |r|);
    }
  }

  /** No pair of neighbours that `s` avoids appears after `str.strip`. */
  lemma StripKeepsAdjacent(s: string, bad: (char, char) -> bool)
    requires AdjacentFree(s, bad)
    ensures AdjacentFree(Strip(s), bad)
  {
    var r := Strip(s);
    var i :| StrippedAt(s, r, i);
    AdjacentFreeSlice(s, i, i + |r|, bad);
  }

  lemma StripFixes(s: string)
    requires s == [] || (!IsSpace(s[0]) && !IsSpace(s[|s| - 1]))
    ensures Strip(s) == s
  {
  }

  // ---------------------------------------------------------------------------------------
  // Only whitespace changes

  /** The characters of `s` that are not whitespace (class `\s`), in order. */
  function NonSpace(s: string): string {
    if s == [] then [] else (if IsSpace(s[0]) then [] else [s[0]]) + NonSpace(s[1..])
  }

  lemma {:induction false} NonSpaceAppend(a: string, b: string)
    ensures NonSpace(a + b) == NonSpace(a) + NonSpace(b)
  {
    if a != [] {
      assert (a + b)[0] == a[0] && (a + b)[1..] == a[1..] + b;
      NonSpaceAppend(a[1..], b);
    } else {
      assert a + b == b;
    }
  }

  lemma {:induction false} NonSpaceOfSpaces(s: string)
    requires forall k :: 0 <= k < |s| ==> IsSpace(s[k])
    ensures NonSpace(s) == []
  {
    if s != [] {
      NonSpaceOfSpaces(s[1..]);
    }
  }

  /** Dropping or adding whitespace in front leaves the non-whitespace characters. */
  lemma NonSpaceSkip(s: string, k: nat)
    requires k <= |s|
    requires forall i :: 0 <= i < k ==> IsSpace(s[i])
    ensures NonSpace(s) == NonSpace(s[k..])
  {
    assert s == s[..k] + s[k..];
    NonSpaceAppend(s[..k], s[k..]);
    NonSpaceOfSpaces(s[..k]);
  }

  lemma NonSpaceCons(c: char, t: string)
    ensures NonSpace([c] + t) == (if IsSpace(c) then [] else [c]) + NonSpace(t)
  {
    assert ([c] + t)[1..] == t;
  }

  lemma CrLfNonSpaceStep(s: string, t: string)
    requires |s| >= 2 && s[0] == '\r' && s[1] == '\n'
    requires NonSpace(t) == NonSpace(s[2..])
    ensures NonSpace("\n" + t) == NonSpace(s)
  {
    NonSpaceCons('\n', t);
    NonSpaceSkip(s, 2);
  }

  lemma CopyNonSpaceStep(s: string, t: string)
    requires s != [] && NonSpace(t) == NonSpace(s[1..])
    ensures NonSpace([s[0]] + t) == NonSpace(s)
  {
    NonSpaceCons(s[0], t);
    NonSpaceCons(s[0], s[1..]);
    assert s == [s[0]] + s[1..];
  }

  lemma {:induction false} ReplaceCrLfNonSpace(s: string)
    ensures NonSpace(ReplaceCrLf(s)) == NonSpace(s)
  {
    if s != [] {
      if |s| >= 2 && s[0] == '\r' && s[1] == '\n' {
        ReplaceCrLfNonSpace(s[2..]);
        CrLfNonSpaceStep(s, ReplaceCrLf(s[2..]));
      } else {
        ReplaceCrLfNonSpace(s[1..]);
        CopyNonSpaceStep(s, ReplaceCrLf(s[1..]));
      }
    }
  }

  lemma {:induction false} ReplaceCrNonSpace(s: string)
    ensures NonSpace(ReplaceCr(s)) == NonSpace(s)
  {
    if s != [] {
      var c := if s[0] == '\r' then '\n' else s[0];
      ReplaceCrNonSpace(s[1..]);
      NonSpaceCons(c, ReplaceCr(s[1..]));
      NonSpaceCons(s[0], s[1..]);
      assert s == [s[0]] + s[1..];
    }
  }

  lemma {:induction false} CollapseBlanksNonSpace(s: string)
    ensures NonSpace(CollapseBlanks(s)) == NonSpace(s)
    decreases |s|
  {
    if s != [] {
      if IsBlank(s[0]) {
        var k := LeadingWhile(IsBlank, s);
        CollapseBlanksNonSpace(s[k..]);
        NonSpaceCons(' ', CollapseBlanks(s[k..]));
        NonSpaceSkip(s, k);
      } else {
        CollapseBlanksNonSpace(s[1..]);
        NonSpaceCons(s[0], CollapseBlanks(s[1..]));
        NonSpaceCons(s[0], s[1..]);
        assert s == [s[0]] + s[1..];
      }
    }
  }

  /** What `AfterLastBreak` drops is whitespace. */
  lemma {:induction false} AfterLastBreakSpaces(s: string)
    ensures forall i :: 0 <= i < |s| - |AfterLastBreak(s)| ==> IsSpace(s[i])
  {
    if Breaks(s) > 0 {
      AfterLastBreakSpaces(s[1..]);
      assert forall i :: 1 <= i < |s| ==> s[i] == s[1..][i - 1];
    }
  }

  lemma {:induction false} CollapseBlankLinesNonSpace(s: string)
    ensures NonSpace(CollapseBlankLines(s)) == NonSpace(s)
    decreases |s|
  {
    if s != [] {
      if s[0] == '\n' && Breaks(s) >= 3 {
        CollapseBlankLinesNonSpace(AfterLastBreak(s));
        CollapseBlankLinesAtRun(s);
      } else {
        CollapseBlankLinesNonSpace(s[1..]);
        CollapseBlankLinesCopies(s);
      }
    }
  }

  lemma CollapseBlankLinesAtRun(s: string)
    requires s != [] && s[0] == '\n' && Breaks(s) >= 3
    requires NonSpace(CollapseBlankLines(AfterLastBreak(s))) == NonSpace(AfterLastBreak(s))
    ensures NonSpace(CollapseBlankLines(s)) == NonSpace(s)
  {
    var t := AfterLastBreak(s);
    var rest := CollapseBlankLines(t);
    assert CollapseBlankLines(s) == "\n\n" + rest;
    TwoBreaksNonSpace(rest);
    AfterLastBreakNonSpace(s);
  }

  lemma TwoBreaksNonSpace(rest: string)
    ensures NonSpace("\n\n" + rest) == NonSpace(rest)
  {
    assert "\n\n" + rest == ['\n'] + (['\n'] + rest);
    NonSpaceCons('\n', ['\n'] + rest);
    NonSpaceCons('\n', rest);
  }

  lemma AfterLastBreakNonSpace(s: string)
    ensures NonSpace(AfterLastBreak(s)) == NonSpace(s)
  {
    AfterLastBreakSpaces(s);
    NonSpaceSkip(s, |s| - |AfterLastBreak(s)|);
  }

  lemma CollapseBlankLinesCopies(s: string)
    requires s != [] && !(s[0] == '\n' && Breaks(s) >= 3)
    requires NonSpace(CollapseBlankLines(s[1..])) == NonSpace(s[1..])
    ensures NonSpace(CollapseBlankLines(s)) == NonSpace(s)
  {
    assert CollapseBlankLines(s) == [s[0]] + CollapseBlankLines(s[1..]);
    NonSpaceCons(s[0], CollapseBlankLines(s[1..]));
    NonSpaceCons(s[0], s[1..]);
    assert s == [s[0]] + s[1..];
  }

  /** What `SkipBreak` drops is whitespace. */
  lemma SkipBreakNonSpace(s: string)
    requires BreakAhead(s)
    ensures NonSpace(SkipBreak(s)) == NonSpace(s)
  {
    var b := LeadingWhile(IsBlank, s);
    var t := s[b + 1..];
    var n := LeadingWhile(IsBlank, t);
    assert s[b] == '\n';
    NonSpaceSkip(s, b + 1);
    NonSpaceSkip(t, n);
  }

  lemma {:induction false} StripAroundBreaksNonSpace(s: string)
    ensures NonSpace(StripAroundBreaks(s)) == NonSpace(s)
    decreases |s|
  {
    if s != [] {
      if BreakAhead(s) {
        var u := SkipBreak(s);
        StripAroundBreaksNonSpace(u);
        StripAroundBreaksAtBreak(s);
      } else {
        StripAroundBreaksNonSpace(s[1..]);
        StripAroundBreaksCopies(s);
      }
    }
  }

  lemma StripAroundBreaksAtBreak(s: string)
    requires BreakAhead(s)
    requires NonSpace(StripAroundBreaks(SkipBreak(s))) == NonSpace(SkipBreak(s))
    ensures NonSpace(StripAroundBreaks(s)) == NonSpace(s)
  {
    var u := SkipBreak(s);
    assert StripAroundBreaks(s) == "\n" + StripAroundBreaks(u);
    NonSpaceCons('\n', StripAroundBreaks(u));
    SkipBreakNonSpace(s);
  }

  lemma StripAroundBreaksCopies(s: string)
    requires s != [] && !BreakAhead(s)
    requires NonSpace(StripAroundBreaks(s[1..])) == NonSpace(s[1..])
    ensures NonSpace(StripAroundBreaks(s)) == NonSpace(s)
  {
    assert StripAroundBreaks(s) == [s[0]] + StripAroundBreaks(s[1..]);
    NonSpaceCons(s[0], StripAroundBreaks(s[1..]));
    NonSpaceCons(s[0], s[1..]);
    assert s == [s[0]] + s[1..];
  }

  lemma {:induction false} CollapseSpacesNonSpace(s: string)
    ensures NonSpace(CollapseSpaces(s)) == NonSpace(s)
    decreases |s|
  {
    if s != [] {
      if s[0] == ' ' {
        var k := LeadingWhile(IsPlainSpace, s);
        CollapseSpacesNonSpace(s[k..]);
        NonSpaceCons(' ', CollapseSpaces(s[k..]));
        NonSpaceSkip(s, k);
      } else {
        CollapseSpacesNonSpace(s[1..]);
        NonSpaceCons(s[0], CollapseSpaces(s[1..]));
        NonSpaceCons(s[0], s[1..]);
        assert s == [s[0]] + s[1..];
      }
    }
  }

  lemma StripNonSpace(s: string)
    ensures NonSpace(Strip(s)) == NonSpace(s)
  {
    var a := s[LeadingSpaces(s)..];
    calc {
      NonSpace(Strip(s));
      { StripSlices(s); }
      NonSpace(a[..|a| - TrailingSpaces(a)]);
      { TrailingNonSpace(a); }
      NonSpace(a);
      { NonSpaceSkip(s, LeadingSpaces(s)); }
      NonSpace(s);
    }
  }

  /** `Strip` cuts the leading and then the trailing whitespace. */
  lemma StripSlices(s: string)
    ensures var a := s[LeadingSpaces(s)..]; Strip(s) == a[..|a| - TrailingSpaces(a)]
  {
  }

  /** Dropping whitespace at the end leaves the non-whitespace characters. */
  lemma {:induction false} TrailingNonSpace(a: string)
    ensures NonSpace(a[..|a| - TrailingSpaces(a)]) == NonSpace(a)
    decreases |a|
  {
    if a != [] && IsSpace(a[|a| - 1]) {
      var init := a[..|a| - 1];
      var k := |init| - TrailingSpaces(init);
      assert TrailingSpaces(a) == 1 + TrailingSpaces(init);
      assert |a| - TrailingSpaces(a) == k;
      TrailingNonSpace(init);
      assert init[..k] == a[..k];
      NonSpaceDropLast(a);
    } else {
      assert TrailingSpaces(a) == 0;
      assert a[..|a|] == a;
    }
  }

  lemma NonSpaceDropLast(a: string)
    requires a != [] && IsSpace(a[|a| - 1])
    ensures NonSpace(a) == NonSpace(a[..|a| - 1])
  {
    NonSpaceSplit(a, |a| - 1);
    NonSpaceOfSpacesFrom(a, |a| - 1);
  }

  lemma NonSpaceSplit(a: string, m: nat)
    requires m <= |a|
    ensures NonSpace(a) == NonSpace(a[..m]) + NonSpace(a[m..])
  {
    assert a == a[..m] + a[m..];
    NonSpaceAppend(a[..m], a[m..]);
  }

  lemma {:induction false} NonSpaceOfSpacesFrom(a: string, m: nat)
    requires m <= |a|
    requires forall i :: m <= i < |a| ==> IsSpace(a[i])
    ensures NonSpace(a[m..]) == []
    decreases |a| - m
  {
    if m < |a| {
      assert a[m..][0] == a[m] && a[m..][1..] == a[m + 1..];
      NonSpaceOfSpacesFrom(a, m + 1);
    }
  }

  // ---------------------------------------------------------------------------------------
  // Whitespace stretches

  predicate AllSpace(s: string) {
    forall i :: 0 <= i < |s| ==> IsSpace(s[i])
  }

  /** The whitespace stretches of `s`: the one in front of each non-whitespace character, in
      order, and the one after the last. A stretch may be empty. */
  function Stretches(s: string): (ws: seq<string>)
    ensures |ws| == |NonSpace(s)| + 1
    ensures forall k :: 0 <= k < |ws| ==> AllSpace(ws[k])
  {
    if s == [] then [[]]
    else
      var t := Stretches(s[1..]);
      if IsSpace(s[0]) then
        assert AllSpace(t[0]);
        [[s[0]] + t[0]] + t[1..]
      else
        [[]] + t
  }

  /** `ws` and `cs` can be the stretches and the non-whitespace characters of one text. */
  predicate Woven(ws: seq<string>, cs: string) {
    && |ws| == |cs| + 1
    && (forall k :: 0 <= k < |ws| ==> AllSpace(ws[k]))
    && (forall k :: 0 <= k < |cs| ==> !IsSpace(cs[k]))
  }

  /** The text with the stretches `ws` around the characters `cs`. */
  function Weave(ws: seq<string>, cs: string): string
    requires |ws| == |cs| + 1
  {
    if cs == [] then ws[0] else ws[0] + [cs[0]] + Weave(ws[1..], cs[1..])
  }

  lemma WeaveHead(p: string, ws: seq<string>, cs: string)
    requires |ws| == |cs| + 1
    ensures Weave([p + ws[0]] + ws[1..], cs) == p + Weave(ws, cs)
  {
    var v := [p + ws[0]] + ws[1..];
    assert v[1..] == ws[1..];
    if cs != [] {
      assert (p + ws[0]) + [cs[0]] + Weave(ws[1..], cs[1..]) == p + (ws[0] + [cs[0]] + Weave(ws[1..], cs[1..]));
    }
  }

  lemma {:induction false} WeaveTail(ws: seq<string>, cs: string, q: string)
    requires |ws| == |cs| + 1
    ensures Weave(ws[..|cs|] + [ws[|cs|] + q], cs) == Weave(ws, cs) + q
  {
    var v := ws[..|cs|] + [ws[|cs|] + q];
    if cs != [] {
      var w1 := ws[1..];
      assert v[0] == ws[0];
      assert v[1..] == w1[..|cs| - 1] + [w1[|cs| - 1] + q];
      WeaveTail(w1, cs[1..], q);
      assert ws[0] + [cs[0]] + (Weave(w1, cs[1..]) + q) == (ws[0] + [cs[0]] + Weave(w1, cs[1..])) + q;
    }
  }

  /** Splitting a text into its stretches and its other characters and weaving them together
      again gives the text back. */
  lemma {:induction false} StretchesWeave(s: string)
    ensures Woven(Stretches(s), NonSpace(s))
    ensures Weave(Stretches(s), NonSpace(s)) == s
  {
    if s != [] {
      var t := Stretches(s[1..]);
      var cs := NonSpace(s[1..]);
      StretchesWeave(s[1..]);
      NonSpaceCons(s[0], s[1..]);
      assert s == [s[0]] + s[1..];
      if IsSpace(s[0]) {
        assert NonSpace(s) == cs;
        WeaveHead([s[0]], t, cs);
      } else {
        assert NonSpace(s) == [s[0]] + cs;
        var ws := [[]] + t;
        assert ws[1..] == t && ([s[0]] + cs)[1..] == cs;
        assert Weave(ws, [s[0]] + cs) == [] + [s[0]] + Weave(t, cs);
      }
    }
  }

  /** A stretch in front of a text joins the text's first stretch. */
  lemma {:induction false} StretchesPrepend(w: string, x: string)
    requires AllSpace(w)
    ensures Stretches(w + x) == [w + Stretches(x)[0]] + Stretches(x)[1..]
    ensures NonSpace(w + x) == NonSpace(x)
  {
    if w == [] {
      var t := Stretches(x);
      assert w + x == x && w + t[0] == t[0];
      assert [t[0]] + t[1..] == t;
    } else {
      var w' := w[1..];
      assert (w + x)[0] == w[0] && (w + x)[1..] == w' + x;
      StretchesPrepend(w', x);
      NonSpaceCons(w[0], w' + x);
      assert w + x == [w[0]] + (w' + x);
      assert [w[0]] + (w' + Stretches(x)[0]) == w + Stretches(x)[0];
    }
  }

  /** A non-whitespace character in front of a text starts a new, empty stretch. */
  lemma StretchesCons(c: char, x: string)
    requires !IsSpace(c)
    ensures Stretches([c] + x) == [[]] + Stretches(x)
    ensures NonSpace([c] + x) == [c] + NonSpace(x)
  {
    assert ([c] + x)[1..] == x;
  }

  /** Weaving and splitting are inverse: stretches and characters that fit together are read
      back from their text. */
  lemma {:induction false} StretchesOfWeave(ws: seq<string>, cs: string)
    requires Woven(ws, cs)
    ensures Stretches(Weave(ws, cs)) == ws
    ensures NonSpace(Weave(ws, cs)) == cs
  {
    if cs == [] {
      StretchesPrepend(ws[0], []);
      assert ws[0] + [] == ws[0];
    } else {
      var rest := Weave(ws[1..], cs[1..]);
      var x := [cs[0]] + rest;
      assert Woven(ws[1..], cs[1..]);
      StretchesOfWeave(ws[1..], cs[1..]);
      assert Weave(ws, cs) == ws[0] + x by {
        Assoc(ws[0], [cs[0]], rest);
      }
      calc {
        Stretches(ws[0] + x);
        { StretchesPrepend(ws[0], x); }
        [ws[0] + Stretches(x)[0]] + Stretches(x)[1..];
        { StretchesCons(cs[0], rest); }
        [ws[0] + ([[]] + ws[1..])[0]] + ([[]] + ws[1..])[1..];
        { EmptyHead(ws); }
        ws;
      }
      calc {
        NonSpace(ws[0] + x);
        { StretchesPrepend(ws[0], x); }
        NonSpace(x);
        { StretchesCons(cs[0], rest); }
        [cs[0]] + cs[1..];
        { assert [cs[0]] + cs[1..] == cs; }
        cs;
      }
    }
  }

  /** `step` applied to every stretch. */
  function Each(step: string -> string, ws: seq<string>): (r: seq<string>)
    ensures |r| == |ws| && forall k :: 0 <= k < |ws| ==> r[k] == step(ws[k])
  {
    seq(|ws|, k requires 0 <= k < |ws| => step(ws[k]))
  }

  /** `step` rewrites each whitespace stretch on its own: a non-whitespace character stays, the
      text in front of it is rewritten apart from the text after it, and whitespace becomes
      whitespace. */
  ghost predicate StretchWise(step: string -> string) {
    && (forall w, c, u :: AllSpace(w) && !IsSpace(c) ==> step(w + [c] + u) == step(w) + [c] + step(u))
    && (forall w :: AllSpace(w) ==> AllSpace(step(w)))
  }

  /** A stretch-wise step rewrites a text by rewriting each of its stretches. */
  lemma {:induction false} WeaveStretchWise(step: string -> string, ws: seq<string>, cs: string)
    requires StretchWise(step) && Woven(ws, cs)
    ensures Woven(Each(step, ws), cs)
    ensures step(Weave(ws, cs)) == Weave(Each(step, ws), cs)
  {
    var e := Each(step, ws);
    if cs != [] {
      var rest := Weave(ws[1..], cs[1..]);
      assert Woven(ws[1..], cs[1..]);
      WeaveStretchWise(step, ws[1..], cs[1..]);
      assert Each(step, ws[1..]) == e[1..];
      assert step(ws[0] + [cs[0]] + rest) == step(ws[0]) + [cs[0]] + step(rest);
    }
  }

  lemma AllSpaceFrom(r: string, s: string)
    requires AllSpace(s)
    requires forall c :: c in r ==> c in s || c == ' ' || c == '\n'
    ensures AllSpace(r)
  {
    forall i | 0 <= i < |r|
      ensures IsSpace(r[i])
    {
      assert r[i] in r;
      if r[i] in s {
        var j :| 0 <= j < |s| && s[j] == r[i];
      }
    }
  }

  /** Slicing `w + [c] + u` inside `w` or at `c`. */
  lemma SplitAt(w: string, c: char, u: string, k: nat)
    requires k <= |w|
    ensures (w + [c] + u)[k..] == w[k..] + [c] + u
    ensures k < |w| ==> (w + [c] + u)[k] == w[k]
    ensures k == |w| ==> (w + [c] + u)[k] == c
  {
  }

  lemma Assoc(a: string, b: string, c: string)
    ensures a + (b + c) == a + b + c
  {
  }

  lemma ConsAssoc(h: string, a: string, c: char, b: string)
    ensures h + (a + [c] + b) == h + a + [c] + b
  {
  }

  /** A character that stops `p*` stops it whatever follows. */
  lemma {:induction false} LeadingWhileSplit(p: char -> bool, w: string, c: char, u: string)
    requires !p(c)
    ensures LeadingWhile(p, w + [c] + u) == LeadingWhile(p, w)
  {
    var s := w + [c] + u;
    if w == [] {
      assert s[0] == c;
    } else {
      SplitAt(w, c, u, 0);
      SplitAt(w, c, u, 1);
      if p(w[0]) {
        LeadingWhileSplit(p, w[1..], c, u);
      }
    }
  }

  lemma {:induction false} ReplaceCrLfSplit(w: string, c: char, u: string)
    requires AllSpace(w) && !IsSpace(c)
    ensures ReplaceCrLf(w + [c] + u) == ReplaceCrLf(w) + [c] + ReplaceCrLf(u)
    decreases |w|
  {
    var s := w + [c] + u;
    assert IsSpace('\r') && IsSpace('\n');
    if w == [] {
      SplitAt(w, c, u, 0);
      assert s == [c] + u;
    } else if |w| >= 2 && w[0] == '\r' && w[1] == '\n' {
      SplitAt(w, c, u, 0);
      SplitAt(w, c, u, 1);
      SplitAt(w, c, u, 2);
      ReplaceCrLfSplit(w[2..], c, u);
      ConsAssoc("\n", ReplaceCrLf(w[2..]), c, ReplaceCrLf(u));
    } else {
      SplitAt(w, c, u, 0);
      SplitAt(w, c, u, 1);
      ReplaceCrLfSplit(w[1..], c, u);
      ConsAssoc([w[0]], ReplaceCrLf(w[1..]), c, ReplaceCrLf(u));
    }
  }

  lemma {:induction false} ReplaceCrSplit(w: string, c: char, u: string)
    requires !IsSpace(c)
    ensures ReplaceCr(w + [c] + u) == ReplaceCr(w) + [c] + ReplaceCr(u)
  {
    assert IsSpace('\r');
    var s := w + [c] + u;
    if w == [] {
      SplitAt(w, c, u, 0);
      assert s == [c] + u;
    } else {
      SplitAt(w, c, u, 0);
      SplitAt(w, c, u, 1);
      ReplaceCrSplit(w[1..], c, u);
      ConsAssoc([if w[0] == '\r' then '\n' else w[0]], ReplaceCr(w[1..]), c, ReplaceCr(u));
    }
  }

  lemma {:induction false} CollapseBlanksSplit(w: string, c: char, u: string)
    requires AllSpace(w) && !IsSpace(c)
    ensures CollapseBlanks(w + [c] + u) == CollapseBlanks(w) + [c] + CollapseBlanks(u)
    decreases |w|
  {
    var s := w + [c] + u;
    if w == [] {
      SplitAt(w, c, u, 0);
      assert s == [c] + u;
    } else if IsBlank(w[0]) {
      var k := LeadingWhile(IsBlank, w);
      LeadingWhileSplit(IsBlank, w, c, u);
      SplitAt(w, c, u, 0);
      SplitAt(w, c, u, k);
      CollapseBlanksSplit(w[k..], c, u);
      ConsAssoc(" ", CollapseBlanks(w[k..]), c, CollapseBlanks(u));
    } else {
      SplitAt(w, c, u, 0);
      SplitAt(w, c, u, 1);
      CollapseBlanksSplit(w[1..], c, u);
      ConsAssoc([w[0]], CollapseBlanks(w[1..]), c, CollapseBlanks(u));
    }
  }

  lemma {:induction false} BreaksSplit(w: string, c: char, u: string)
    requires AllSpace(w) && !IsSpace(c)
    ensures Breaks(w + [c] + u) == Breaks(w)
  {
    var s := w + [c] + u;
    if w == [] {
      assert s[0] == c;
    } else {
      SplitAt(w, c, u, 0);
      SplitAt(w, c, u, 1);
      BreaksSplit(w[1..], c, u);
    }
  }

  lemma {:induction false} AfterLastBreakSplit(w: string, c: char, u: string)
    requires AllSpace(w) && !IsSpace(c)
    ensures AfterLastBreak(w + [c] + u) == AfterLastBreak(w) + [c] + u
  {
    var s := w + [c] + u;
    BreaksSplit(w, c, u);
    if Breaks(w) > 0 {
      assert s[1..] == w[1..] + [c] + u;
      AfterLastBreakSplit(w[1..], c, u);
    }
  }

  lemma {:induction false} CollapseBlankLinesSplit(w: string, c: char, u: string)
    requires AllSpace(w) && !IsSpace(c)
    ensures CollapseBlankLines(w + [c] + u) == CollapseBlankLines(w) + [c] + CollapseBlankLines(u)
    decreases |w|
  {
    var s := w + [c] + u;
    BreaksSplit(w, c, u);
    if w == [] {
      SplitAt(w, c, u, 0);
      assert s == [c] + u;
      assert IsSpace('\n');
    } else if w[0] == '\n' && Breaks(w) >= 3 {
      var t := AfterLastBreak(w);
      AfterLastBreakSplit(w, c, u);
      assert s[0] == '\n';
      AllSpaceSuffix(w, t);
      CollapseBlankLinesSplit(t, c, u);
      ConsAssoc("\n\n", CollapseBlankLines(t), c, CollapseBlankLines(u));
    } else {
      SplitAt(w, c, u, 0);
      SplitAt(w, c, u, 1);
      CollapseBlankLinesSplit(w[1..], c, u);
      ConsAssoc([w[0]], CollapseBlankLines(w[1..]), c, CollapseBlankLines(u));
    }
  }

  lemma BreakAheadSplit(w: string, c: char, u: string)
    requires AllSpace(w) && !IsSpace(c)
    ensures BreakAhead(w + [c] + u) <==> BreakAhead(w)
  {
    var s := w + [c] + u;
    assert !IsBlank(c) && IsSpace('\n');
    LeadingWhileSplit(IsBlank, w, c, u);
    var b := LeadingWhile(IsBlank, w);
    if b < |w| {
      assert s[b] == w[b];
    } else {
      assert s[b] == c;
    }
  }

  lemma SkipBreakSplit(w: string, c: char, u: string)
    requires AllSpace(w) && !IsSpace(c) && BreakAhead(w)
    ensures BreakAhead(w + [c] + u)
    ensures SkipBreak(w + [c] + u) == SkipBreak(w) + [c] + u
  {
    BreakAheadSplit(w, c, u);
    var b := LeadingWhile(IsBlank, w);
    var t := w[b + 1..];
    SkipBreakSplitAt(w, c, u, b, t, LeadingWhile(IsBlank, t));
  }

  lemma SkipBreakSplitAt(w: string, c: char, u: string, b: nat, t: string, n: nat)
    requires !IsSpace(c) && BreakAhead(w) && BreakAhead(w + [c] + u)
    requires b == LeadingWhile(IsBlank, w) && t == w[b + 1..] && n == LeadingWhile(IsBlank, t)
    ensures SkipBreak(w) == t[n..]
    ensures SkipBreak(w + [c] + u) == t[n..] + [c] + u
  {
    assert !IsBlank(c);
    var s := w + [c] + u;
    var t2 := t + [c] + u;
    assert LeadingWhile(IsBlank, s) == b by {
      LeadingWhileSplit(IsBlank, w, c, u);
    }
    assert s[b + 1..] == t2 by {
      SplitAt(w, c, u, b + 1);
    }
    assert LeadingWhile(IsBlank, t2) == n by {
      LeadingWhileSplit(IsBlank, t, c, u);
    }
    assert t2[n..] == t[n..] + [c] + u by {
      SplitAt(t, c, u, n);
    }
    SkipBreakOf(w, b, t, n);
    SkipBreakOf(s, b, t2, n);
  }

  lemma SkipBreakOf(s: string, b: nat, t: string, n: nat)
    requires BreakAhead(s)
    requires b == LeadingWhile(IsBlank, s) && b < |s| && t == s[b + 1..] && n == LeadingWhile(IsBlank, t)
    ensures SkipBreak(s) == t[n..]
  {
  }

  /** A suffix of whitespace is whitespace. */
  lemma AllSpaceSuffix(w: string, t: string)
    requires AllSpace(w) && |t| <= |w| && t == w[|w| - |t|..]
    ensures AllSpace(t)
  {
    assert forall i :: 0 <= i < |t| ==> t[i] == w[|w| - |t| + i];
  }

  lemma {:induction false} StripAroundBreaksSplit(w: string, c: char, u: string)
    requires AllSpace(w) && !IsSpace(c)
    ensures StripAroundBreaks(w + [c] + u) == StripAroundBreaks(w) + [c] + StripAroundBreaks(u)
    decreases |w|
  {
    var s := w + [c] + u;
    BreakAheadSplit(w, c, u);
    if w == [] {
      SplitAt(w, c, u, 0);
      assert s == [c] + u;
    } else if BreakAhead(w) {
      var t := SkipBreak(w);
      SkipBreakSplit(w, c, u);
      AllSpaceSuffix(w, t);
      StripAroundBreaksSplit(t, c, u);
      ConsAssoc("\n", StripAroundBreaks(t), c, StripAroundBreaks(u));
    } else {
      SplitAt(w, c, u, 0);
      SplitAt(w, c, u, 1);
      StripAroundBreaksSplit(w[1..], c, u);
      ConsAssoc([w[0]], StripAroundBreaks(w[1..]), c, StripAroundBreaks(u));
    }
  }

  lemma {:induction false} CollapseSpacesSplit(w: string, c: char, u: string)
    requires AllSpace(w) && !IsSpace(c)
    ensures CollapseSpaces(w + [c] + u) == CollapseSpaces(w) + [c] + CollapseSpaces(u)
    decreases |w|
  {
    var s := w + [c] + u;
    if w == [] {
      SplitAt(w, c, u, 0);
      assert s == [c] + u;
    } else if w[0] == ' ' {
      var k := LeadingWhile(IsPlainSpace, w);
      LeadingWhileSplit(IsPlainSpace, w, c, u);
      SplitAt(w, c, u, 0);
      SplitAt(w, c, u, k);
      CollapseSpacesSplit(w[k..], c, u);
      ConsAssoc(" ", CollapseSpaces(w[k..]), c, CollapseSpaces(u));
    } else {
      SplitAt(w, c, u, 0);
      SplitAt(w, c, u, 1);
      CollapseSpacesSplit(w[1..], c, u);
      ConsAssoc([w[0]], CollapseSpaces(w[1..]), c, CollapseSpaces(u));
    }
  }

  // ---------------------------------------------------------------------------------------
  // `normalize_text`

  /** The shape `normalize_text` gives a text: no carriage return and no tab, no two spaces in a
      row, no space or tab next to a line break, at most one blank line between paragraphs, and
      no whitespace at either end. */
  predicate Normalized(s: string) {
    && '\r' !in s
    && '\t' !in s
    && AdjacentFree(s, DoubleSpace)
    && AdjacentFree(s, BlankAtBreak)
    && FewBreaks(s)
    && (s == [] || (!IsSpace(s[0]) && !IsSpace(s[|s| - 1])))
  }

  /** The first four steps: line endings, runs of blanks, blank lines, blanks at breaks. */
  function Steps1To4(text: string): string {
    StripAroundBreaks(CollapseBlankLines(CollapseBlanks(ReplaceCr(ReplaceCrLf(text)))))
  }

  /** After the first four steps: no carriage return, no tab, no blank next to a break, at most
      two breaks per stretch, and only characters of the text, breaks and spaces. */
  lemma Steps1To4Facts(text: string)
    ensures var s4 := Steps1To4(text);
            && '\r' !in s4 && '\t' !in s4
            && FewBreaks(s4) && AdjacentFree(s4, BlankAtBreak)
            && forall c :: c in s4 ==> c in text || c == '\n' || c == ' '
  {
    var s2 := CollapseBlanks(ReplaceCr(ReplaceCrLf(text)));
    var s3 := CollapseBlankLines(s2);
    StripAroundBreaksSpec(s3);
  }

  /** Every step only drops, adds or replaces whitespace. */
  lemma StepsNonSpace(text: string)
    ensures NonSpace(Strip(CollapseSpaces(Steps1To4(text)))) == NonSpace(text)
  {
    var s1 := ReplaceCrLf(text);
    var s2 := ReplaceCr(s1);
    var s3 := CollapseBlanks(s2);
    var s4 := CollapseBlankLines(s3);
    var s5 := StripAroundBreaks(s4);
    var s6 := CollapseSpaces(s5);
    ReplaceCrLfNonSpace(text);
    ReplaceCrNonSpace(s1);
    CollapseBlanksNonSpace(s2);
    CollapseBlankLinesNonSpace(s3);
    StripAroundBreaksNonSpace(s4);
    CollapseSpacesNonSpace(s5);
    StripNonSpace(s6);
  }

  // Each step of `normalize_text` before the final strip works stretch by stretch.

  lemma ReplaceCrLfStretchWise()
    ensures StretchWise(ReplaceCrLf)
  {
    forall w, c, u | AllSpace(w) && !IsSpace(c)
      ensures ReplaceCrLf(w + [c] + u) == ReplaceCrLf(w) + [c] + ReplaceCrLf(u)
    {
      ReplaceCrLfSplit(w, c, u);
    }
    forall w | AllSpace(w)
      ensures AllSpace(ReplaceCrLf(w))
    {
      AllSpaceFrom(ReplaceCrLf(w), w);
    }
  }

  lemma ReplaceCrStretchWise()
    ensures StretchWise(ReplaceCr)
  {
    forall w, c, u | AllSpace(w) && !IsSpace(c)
      ensures ReplaceCr(w + [c] + u) == ReplaceCr(w) + [c] + ReplaceCr(u)
    {
      ReplaceCrSplit(w, c, u);
    }
    forall w | AllSpace(w)
      ensures AllSpace(ReplaceCr(w))
    {
      AllSpaceFrom(ReplaceCr(w), w);
    }
  }

  lemma CollapseBlanksStretchWise()
    ensures StretchWise(CollapseBlanks)
  {
    forall w, c, u | AllSpace(w) && !IsSpace(c)
      ensures CollapseBlanks(w + [c] + u) == CollapseBlanks(w) + [c] + CollapseBlanks(u)
    {
      CollapseBlanksSplit(w, c, u);
    }
    forall w | AllSpace(w)
      ensures AllSpace(CollapseBlanks(w))
    {
      AllSpaceFrom(CollapseBlanks(w), w);
    }
  }

  lemma CollapseBlankLinesStretchWise()
    ensures StretchWise(CollapseBlankLines)
  {
    forall w, c, u | AllSpace(w) && !IsSpace(c)
      ensures CollapseBlankLines(w + [c] + u) == CollapseBlankLines(w) + [c] + CollapseBlankLines(u)
    {
      CollapseBlankLinesSplit(w, c, u);
    }
    forall w | AllSpace(w)
      ensures AllSpace(CollapseBlankLines(w))
    {
      AllSpaceFrom(CollapseBlankLines(w), w);
    }
  }

  lemma StripAroundBreaksStretchWise()
    ensures StretchWise(StripAroundBreaks)
  {
    forall w, c, u | AllSpace(w) && !IsSpace(c)
      ensures StripAroundBreaks(w + [c] + u) == StripAroundBreaks(w) + [c] + StripAroundBreaks(u)
    {
      StripAroundBreaksSplit(w, c, u);
    }
    forall w | AllSpace(w)
      ensures AllSpace(StripAroundBreaks(w))
    {
      AllSpaceFrom(StripAroundBreaks(w), w);
    }
  }

  lemma CollapseSpacesStretchWise()
    ensures StretchWise(CollapseSpaces)
  {
    forall w, c, u | AllSpace(w) && !IsSpace(c)
      ensures CollapseSpaces(w + [c] + u) == CollapseSpaces(w) + [c] + CollapseSpaces(u)
    {
      CollapseSpacesSplit(w, c, u);
    }
    forall w | AllSpace(w)
      ensures AllSpace(CollapseSpaces(w))
    {
      AllSpaceFrom(CollapseSpaces(w), w);
    }
  }

  // What the steps do to one stretch

  /** The number of line endings in `s`: `"\r\n"`, a lone `"\r"` and `"\n"` each end a line,
      as in Python's universal newlines. */
  function LineEnds(s: string): nat {
    if s == [] then 0
    else if |s| >= 2 && s[0] == '\r' && s[1] == '\n' then 1 + LineEnds(s[2..])
    else (if s[0] == '\n' || s[0] == '\r' then 1 else 0) + LineEnds(s[1..])
  }

  /** The number of carriage returns and line feeds in `s`. */
  function CrLfChars(s: string): nat {
    if s == [] then 0 else (if s[0] == '\n' || s[0] == '\r' then 1 else 0) + CrLfChars(s[1..])
  }

  /** After the CRLF replacement every line ending is a single character. */
  lemma {:induction false} ReplaceCrLfEnds(s: string)
    ensures CrLfChars(ReplaceCrLf(s)) == LineEnds(s)
  {
    if s != [] {
      if |s| >= 2 && s[0] == '\r' && s[1] == '\n' {
        var x := ReplaceCrLf(s[2..]);
        ReplaceCrLfEnds(s[2..]);
        assert ("\n" + x)[1..] == x;
      } else {
        var x := ReplaceCrLf(s[1..]);
        ReplaceCrLfEnds(s[1..]);
        assert ([s[0]] + x)[1..] == x;
      }
    }
  }

  /** After the CR replacement every line ending of a stretch is a line feed. */
  lemma {:induction false} ReplaceCrBreaks(x: string)
    requires AllSpace(x)
    ensures Breaks(ReplaceCr(x)) == CrLfChars(x)
  {
    if x != [] {
      var y := ReplaceCr(x);
      ReplaceCrBreaks(x[1..]);
      assert y[1..] == ReplaceCr(x[1..]);
      assert IsSpace(y[0]);
    }
  }

  /** Without carriage returns, the line endings of a stretch are its line feeds. */
  lemma {:induction false} LineEndsBreaks(y: string)
    requires AllSpace(y) && '\r' !in y
    ensures LineEnds(y) == Breaks(y)
  {
    if y != [] {
      assert y[0] != '\r' && IsSpace(y[0]);
      assert forall c :: c in y[1..] ==> c in y;
      LineEndsBreaks(y[1..]);
    }
  }

  /** What separates two neighbouring non-whitespace characters: -1 when nothing does,
      otherwise the number of line endings in the whitespace between them. */
  function Gap(w: string): int {
    if w == [] then -1 else LineEnds(w)
  }

  /** A separation with more than two line endings is cut to two. */
  function CapGap(g: int): int {
    if g > 2 then 2 else g
  }

  /** The separations between neighbouring non-whitespace characters of `s`, in order. */
  function Gaps(s: string): seq<int> {
    var ws := Stretches(s);
    seq(if |ws| < 2 then 0 else |ws| - 2, k requires 0 <= k < |ws| - 2 => Gap(ws[k + 1]))
  }

  function CapGaps(g: seq<int>): seq<int> {
    seq(|g|, k requires 0 <= k < |g| => CapGap(g[k]))
  }

  /** The steps before the strip keep a stretch empty or non-empty and cut its line endings to
      two. */
  lemma StretchGap(w: string)
    requires AllSpace(w)
    ensures Gap(CollapseSpaces(Steps1To4(w))) == CapGap(Gap(w))
  {
    if w != [] {
      var x1 := ReplaceCrLf(w);
      var x2 := ReplaceCr(x1);
      var x3 := CollapseBlanks(x2);
      var x4 := CollapseBlankLines(x3);
      var y := CollapseSpaces(StripAroundBreaks(x4));
      assert y != [];
      StretchBreaks(w);
      AllSpaceFrom(x1, w);
      ReplaceCrBreaks(x1);
      ReplaceCrLfEnds(w);
      LineEndsBreaks(y);
    }
  }

  /** The stretch facts `StretchGap` needs: the result is whitespace without carriage returns,
      and the line feeds are counted through each step. */
  lemma StretchBreaks(w: string)
    requires AllSpace(w)
    ensures var x2 := ReplaceCr(ReplaceCrLf(w));
            var x4 := CollapseBlankLines(CollapseBlanks(x2));
            var y := CollapseSpaces(StripAroundBreaks(x4));
            && AllSpace(y) && '\r' !in y
            && Breaks(y) == CapGap(Breaks(x2))
  {
    var x1 := ReplaceCrLf(w);
    var x2 := ReplaceCr(x1);
    var x3 := CollapseBlanks(x2);
    var x4 := CollapseBlankLines(x3);
    var x5 := StripAroundBreaks(x4);
    var y := CollapseSpaces(x5);
    AllSpaceFrom(x1, w);
    AllSpaceFrom(x2, x1);
    AllSpaceFrom(x3, x2);
    AllSpaceFrom(x4, x3);
    AllSpaceFrom(x5, x4);
    AllSpaceFrom(y, x5);
    Steps1To4Facts(w);
    StripAroundBreaksSpec(x4);
  }

  // Weaving the steps

  lemma ReplaceCrLfWeave(ws: seq<string>, cs: string)
    requires Woven(ws, cs)
    ensures Woven(Each(ReplaceCrLf, ws), cs) && ReplaceCrLf(Weave(ws, cs)) == Weave(Each(ReplaceCrLf, ws), cs)
  {
    ReplaceCrLfStretchWise();
    WeaveStretchWise(ReplaceCrLf, ws, cs);
  }

  lemma ReplaceCrWeave(ws: seq<string>, cs: string)
    requires Woven(ws, cs)
    ensures Woven(Each(ReplaceCr, ws), cs) && ReplaceCr(Weave(ws, cs)) == Weave(Each(ReplaceCr, ws), cs)
  {
    ReplaceCrStretchWise();
    WeaveStretchWise(ReplaceCr, ws, cs);
  }

  lemma CollapseBlanksWeave(ws: seq<string>, cs: string)
    requires Woven(ws, cs)
    ensures Woven(Each(CollapseBlanks, ws), cs) && CollapseBlanks(Weave(ws, cs)) == Weave(Each(CollapseBlanks, ws), cs)
  {
    CollapseBlanksStretchWise();
    WeaveStretchWise(CollapseBlanks, ws, cs);
  }

  lemma CollapseBlankLinesWeave(ws: seq<string>, cs: string)
    requires Woven(ws, cs)
    ensures Woven(Each(CollapseBlankLines, ws), cs) && CollapseBlankLines(Weave(ws, cs)) == Weave(Each(CollapseBlankLines, ws), cs)
  {
    CollapseBlankLinesStretchWise();
    WeaveStretchWise(CollapseBlankLines, ws, cs);
  }

  lemma StripAroundBreaksWeave(ws: seq<string>, cs: string)
    requires Woven(ws, cs)
    ensures Woven(Each(StripAroundBreaks, ws), cs) && StripAroundBreaks(Weave(ws, cs)) == Weave(Each(StripAroundBreaks, ws), cs)
  {
    StripAroundBreaksStretchWise();
    WeaveStretchWise(StripAroundBreaks, ws, cs);
  }

  lemma CollapseSpacesWeave(ws: seq<string>, cs: string)
    requires Woven(ws, cs)
    ensures Woven(Each(CollapseSpaces, ws), cs) && CollapseSpaces(Weave(ws, cs)) == Weave(Each(CollapseSpaces, ws), cs)
  {
    CollapseSpacesStretchWise();
    WeaveStretchWise(CollapseSpaces, ws, cs);
  }

  /** The steps before the strip rewrite the text stretch by stretch. */
  lemma StepsWeave(text: string) returns (e: seq<string>)
    ensures Woven(e, NonSpace(text))
    ensures CollapseSpaces(Steps1To4(text)) == Weave(e, NonSpace(text))
    ensures |e| == |Stretches(text)|
    ensures forall k :: 0 <= k < |e| ==> e[k] == CollapseSpaces(Steps1To4(Stretches(text)[k]))
  {
    var ws, cs := Stretches(text), NonSpace(text);
    StretchesWeave(text);
    ReplaceCrLfWeave(ws, cs);
    var e1 := Each(ReplaceCrLf, ws);
    ReplaceCrWeave(e1, cs);
    var e2 := Each(ReplaceCr, e1);
    CollapseBlanksWeave(e2, cs);
    var e3 := Each(CollapseBlanks, e2);
    CollapseBlankLinesWeave(e3, cs);
    var e4 := Each(CollapseBlankLines, e3);
    StripAroundBreaksWeave(e4, cs);
    var e5 := Each(StripAroundBreaks, e4);
    CollapseSpacesWeave(e5, cs);
    e := Each(CollapseSpaces, e5);
  }

  lemma {:induction false} WeaveLast(v: seq<string>, cs: string)
    requires |v| == |cs| + 1 && |cs| >= 1 && v[|cs|] == []
    ensures Weave(v, cs) != [] && Weave(v, cs)[|Weave(v, cs)| - 1] == cs[|cs| - 1]
  {
    if |cs| == 1 {
      assert Weave(v[1..], cs[1..]) == [];
    } else {
      WeaveLast(v[1..], cs[1..]);
    }
  }

  /** Indexing `p + m + q` inside each of its three parts. */
  lemma CatAt(p: string, m: string, q: string)
    ensures forall k :: 0 <= k < |p| ==> (p + m + q)[k] == p[k]
    ensures forall k :: 0 <= k < |m| ==> (p + m + q)[|p| + k] == m[k]
    ensures forall k :: 0 <= k < |q| ==> (p + m + q)[|p| + |m| + k] == q[k]
  {
  }

  /** `str.strip` of whitespace, a text with no whitespace at either end, and whitespace. */
  lemma StripMiddle(p: string, m: string, q: string)
    requires AllSpace(p) && AllSpace(q)
    requires m != [] && !IsSpace(m[0]) && !IsSpace(m[|m| - 1])
    ensures Strip(p + m + q) == m
  {
    var s := p + m + q;
    var r := Strip(s);
    var i :| StrippedAt(s, r, i);
    CatAt(p, m, q);
    var a, b := |p|, |p| + |m| - 1;
    assert !IsSpace(s[a]) && !IsSpace(s[b]);
    assert i <= a && b < i + |r|;
    assert r[0] == s[i] && r[|r| - 1] == s[i + |r| - 1];
    assert i == a;
    assert i + |r| - 1 == b;
    assert s[a..a + |m|] == m;
  }

  lemma EmptyHead(ws: seq<string>)
    requires |ws| >= 1
    ensures [ws[0] + ([[]] + ws[1..])[0]] + ([[]] + ws[1..])[1..] == ws
  {
    assert ws[0] + [] == ws[0];
    assert ([[]] + ws[1..])[1..] == ws[1..];
  }

  lemma EmptyEnds(ws: seq<string>, n: int)
    requires |ws| == n + 1 && n >= 1
    ensures ([[]] + ws[1..n] + [[]])[..n] + [ws[n]] == [[]] + ws[1..]
  {
    var a, b := ([[]] + ws[1..n] + [[]])[..n] + [ws[n]], [[]] + ws[1..];
    assert |a| == |b|;
    forall j | 0 <= j < |a|
      ensures a[j] == b[j]
    {
      if 0 < j < n {
        assert a[j] == ws[1..n][j - 1];
      }
    }
  }

  /** A text whose stretches are `ws` is its first stretch, the text with its first and last
      stretch emptied, and its last stretch. */
  lemma WeaveEnds(ws: seq<string>, cs: string)
    requires |ws| == |cs| + 1 && |cs| >= 1
    ensures Weave(ws, cs) == ws[0] + Weave([[]] + ws[1..|cs|] + [[]], cs) + ws[|cs|]
  {
    var n := |cs|;
    var m := Weave([[]] + ws[1..n] + [[]], cs);
    calc {
      Weave(ws, cs);
      { WeaveEmptyFirst(ws, cs); }
      ws[0] + Weave([[]] + ws[1..], cs);
      { WeaveEmptyLast(ws, cs); }
      ws[0] + (m + ws[n]);
      { Assoc(ws[0], m, ws[n]); }
      ws[0] + m + ws[n];
    }
  }

  lemma WeaveEmptyLast(ws: seq<string>, cs: string)
    requires |ws| == |cs| + 1 && |cs| >= 1
    ensures Weave([[]] + ws[1..], cs) == Weave([[]] + ws[1..|cs|] + [[]], cs) + ws[|cs|]
  {
    var n := |cs|;
    var v := [[]] + ws[1..n] + [[]];
    assert v[n] + ws[n] == ws[n];
    EmptyEnds(ws, n);
    WeaveTail(v, cs, ws[n]);
  }

  lemma WeaveEmptyFirst(ws: seq<string>, cs: string)
    requires |ws| == |cs| + 1
    ensures Weave(ws, cs) == ws[0] + Weave([[]] + ws[1..], cs)
  {
    WeaveHead(ws[0], [[]] + ws[1..], cs);
    EmptyHead(ws);
  }

  /** The strip empties the first and the last stretch and keeps the others. */
  lemma StripWeave(ws: seq<string>, cs: string)
    requires Woven(ws, cs) && |cs| >= 1
    ensures Woven([[]] + ws[1..|cs|] + [[]], cs)
    ensures Strip(Weave(ws, cs)) == Weave([[]] + ws[1..|cs|] + [[]], cs)
  {
    var n := |cs|;
    var v := [[]] + ws[1..n] + [[]];
    EmptyEndsWoven(ws, cs);
    WeaveEnds(ws, cs);
    WeaveLast(v, cs);
    WeaveFirst(v, cs);
    assert AllSpace(ws[0]) && AllSpace(ws[n]);
    StripMiddle(ws[0], Weave(v, cs), ws[n]);
  }

  lemma EmptyEndsWoven(ws: seq<string>, cs: string)
    requires Woven(ws, cs) && |cs| >= 1
    ensures Woven([[]] + ws[1..|cs|] + [[]], cs)
  {
    var v := [[]] + ws[1..|cs|] + [[]];
    forall k | 0 <= k < |v|
      ensures AllSpace(v[k])
    {
      if 0 < k < |cs| {
        assert v[k] == ws[k];
      }
    }
  }

  lemma WeaveFirst(v: seq<string>, cs: string)
    requires |v| == |cs| + 1 && |cs| >= 1 && v[0] == []
    ensures Weave(v, cs) != [] && Weave(v, cs)[0] == cs[0]
  {
    assert Weave(v, cs) == [] + [cs[0]] + Weave(v[1..], cs[1..]);
  }

  /** An entry of `Gaps` is the gap of the stretch after the matching character. */
  lemma GapsAt(s: string, k: int)
    requires 0 <= k < |NonSpace(s)| - 1
    ensures |Gaps(s)| == |NonSpace(s)| - 1
    ensures Gaps(s)[k] == Gap(Stretches(s)[k + 1])
  {
  }

  lemma GapsEmpty(s: string)
    requires |NonSpace(s)| <= 1
    ensures Gaps(s) == []
  {
  }

  /** The stretches kept by the strip are the stretches of the steps before it. */
  lemma InnerAt(e: seq<string>, n: int, k: int)
    requires 1 <= n < |e| && 0 <= k < n - 1
    ensures ([[]] + e[1..n] + [[]])[k + 1] == e[k + 1]
  {
  }

  /** One separation through the whole of `normalize_text`. */
  lemma GapStep(text: string, e: seq<string>, r: string, k: int)
    requires |e| == |Stretches(text)| == |NonSpace(text)| + 1
    requires 0 <= k < |NonSpace(text)| - 1
    requires forall j :: 0 <= j < |e| ==> e[j] == CollapseSpaces(Steps1To4(Stretches(text)[j]))
    requires Stretches(r) == [[]] + e[1..|NonSpace(text)|] + [[]]
    ensures Gap(Stretches(r)[k + 1]) == CapGap(Gaps(text)[k])
  {
    var ws := Stretches(text);
    InnerAt(e, |NonSpace(text)|, k);
    GapsAt(text, k);
    StretchGap(ws[k + 1]);
  }

  /** The whole of `normalize_text` keeps every separation, cut to two line endings. */
  lemma StepsGaps(text: string)
    ensures Gaps(Strip(CollapseSpaces(Steps1To4(text)))) == CapGaps(Gaps(text))
  {
    var cs := NonSpace(text);
    var r := Strip(CollapseSpaces(Steps1To4(text)));
    StepsNonSpace(text);
    if |cs| <= 1 {
      GapsEmpty(r);
      GapsEmpty(text);
    } else {
      var e := StepsWeave(text);
      assert Stretches(r) == [[]] + e[1..|cs|] + [[]] by {
        StripWeave(e, cs);
        StretchesOfWeave([[]] + e[1..|cs|] + [[]], cs);
      }
      GapsFrom(text, e, r);
    }
  }

  lemma GapsFrom(text: string, e: seq<string>, r: string)
    requires |e| == |Stretches(text)| == |NonSpace(text)| + 1 && |NonSpace(text)| >= 2
    requires forall j :: 0 <= j < |e| ==> e[j] == CollapseSpaces(Steps1To4(Stretches(text)[j]))
    requires Stretches(r) == [[]] + e[1..|NonSpace(text)|] + [[]]
    ensures Gaps(r) == CapGaps(Gaps(text))
  {
    var n := |NonSpace(text)|;
    GapsAt(text, 0);
    GapsAt(r, 0);
    forall k | 0 <= k < n - 1
      ensures Gaps(r)[k] == CapGaps(Gaps(text))[k]
    {
      GapsAt(r, k);
      GapsAt(text, k);
      GapStep(text, e, r, k);
    }
  }

  /** The last two steps keep those facts and add the rest of the normalized shape. */
  lemma LastStepsFacts(s4: string)
    requires '\r' !in s4 && '\t' !in s4 && FewBreaks(s4) && AdjacentFree(s4, BlankAtBreak)
    ensures var r := Strip(CollapseSpaces(s4));
            && Normalized(r) && NoTripleBreak(r)
            && forall c :: c in r ==> c in s4
  {
    var s5 := CollapseSpaces(s4);
    CollapseSpacesKeeps(s4);
    StripKeeps(s5);
    StripKeepsAdjacent(s5, DoubleSpace);
    StripKeepsAdjacent(s5, BlankAtBreak);
    FewBreaksNoTriple(Strip(s5));
  }

  /** `normalize_text`: the result is normalized, never holds three line breaks in a row, and
      takes its characters from the input, apart from the line breaks and spaces it puts for
      carriage returns and tabs. It keeps the non-whitespace characters in order, keeps two of
      them adjacent exactly when they were adjacent, and keeps the number of line endings
      between them, cut to two. */
  function NormalizeText(text: string): (r: string)
    ensures Normalized(r)
    ensures NoTripleBreak(r)
    ensures forall c :: c in r ==> c in text || c == '\n' || c == ' '
    ensures NonSpace(r) == NonSpace(text)
    ensures Gaps(r) == CapGaps(Gaps(text))
  {
    var s4 := Steps1To4(text);
    Steps1To4Facts(text);
    LastStepsFacts(s4);
    StepsNonSpace(text);
    StepsGaps(text);
    Strip(CollapseSpaces(s4))
  }

  /** A normalized text is left as it is. */
  lemma NormalizeFixes(s: string)
    requires Normalized(s)
    ensures NormalizeText(s) == s
  {
    CollapseBlanksFixes(s);
    CollapseBlankLinesFixes(s);
    StripAroundBreaksFixes(s);
    CollapseSpacesFixes(s);
    StripFixes(s);
  }

  /** Normalizing twice is normalizing once. */
  lemma NormalizeIdempotent(s: string)
    ensures NormalizeText(NormalizeText(s)) == NormalizeText(s)
  {
    NormalizeFixes(NormalizeText(s));
  }

  // Ordinary whitespace

  /** Spaces, tabs, line feeds and carriage returns: the whitespace of ordinary text. */
  predicate OrdinarySpace(c: char) {
    c == ' ' || c == '\t' || c == '\n' || c == '\r'
  }

  /** What normalizing puts between two non-whitespace characters `g` apart (see `Gap`):
      nothing, one space, one line break or one blank line. */
  function Joiner(g: int): string {
    if g < 0 then "" else if g == 0 then " " else if g == 1 then "\n" else "\n\n"
  }

  /** The characters `cs` with `Joiner(gs[k])` between `cs[k]` and `cs[k + 1]`. */
  function Rejoin(cs: string, gs: seq<int>): string
    requires |gs| == if cs == [] then 0 else |cs| - 1
  {
    if |cs| <= 1 then cs else [cs[0]] + Joiner(gs[0]) + Rejoin(cs[1..], gs[1..])
  }

  lemma {:induction false} AllBreaksLineEnds(y: string)
    requires forall i :: 0 <= i < |y| ==> y[i] == '\n'
    ensures LineEnds(y) == |y|
  {
    if y != [] {
      AllBreaksLineEnds(y[1..]);
    }
  }

  /** Non-empty whitespace made of spaces and line breaks, with no two spaces in a row and no
      space next to a line break, is one space or its line breaks alone. */
  lemma PlainShape(y: string)
    requires y != [] && forall c :: c in y ==> c == ' ' || c == '\n'
    requires AdjacentFree(y, DoubleSpace) && AdjacentFree(y, BlankAtBreak) && LineEnds(y) <= 2
    ensures y == Joiner(LineEnds(y))
  {
    assert forall i :: 0 <= i < |y| ==> y[i] in y;
    if '\n' in y {
      forall i | 0 <= i < |y|
        ensures y[i] == '\n'
      {
        var j :| 0 <= j < |y| && y[j] == '\n';
        if 0 < i {
          assert !DoubleSpace(y[i - 1], y[i]) && !BlankAtBreak(y[i - 1], y[i]);
        } else if i < j {
          assert !DoubleSpace(y[0], y[1]) && !BlankAtBreak(y[0], y[1]);
        }
      }
      AllBreaksLineEnds(y);
      assert |y| == 1 ==> y == [y[0]];
      assert |y| == 2 ==> y == [y[0], y[1]];
    } else {
      assert |y| >= 2 ==> DoubleSpace(y[0], y[1]);
      assert y == [y[0]] && y[0] == ' ';
      assert LineEnds(y) == LineEnds(y[1..]);
    }
  }

  /** On ordinary whitespace the steps before the strip leave exactly what `Joiner` puts. */
  lemma OrdinaryStretch(w: string)
    requires AllSpace(w) && forall c :: c in w ==> OrdinarySpace(c)
    ensures CollapseSpaces(Steps1To4(w)) == Joiner(Gap(w))
  {
    var s4 := Steps1To4(w);
    var y := CollapseSpaces(s4);
    if w != [] {
      StretchGap(w);
      Steps1To4Facts(w);
      CollapseSpacesKeeps(s4);
      assert y != [];
      forall c | c in y
        ensures c == ' ' || c == '\n'
      {
        assert c in s4;
      }
      PlainShape(y);
    }
  }

  /** Every character of a stretch is a character of the text. */
  lemma {:induction false} StretchChars(s: string, k: int)
    requires 0 <= k < |Stretches(s)|
    ensures forall c :: c in Stretches(s)[k] ==> c in s
  {
    if s != [] {
      var t := Stretches(s[1..]);
      if IsSpace(s[0]) {
        if k == 0 {
          StretchChars(s[1..], 0);
          assert forall c :: c in [s[0]] + t[0] ==> c == s[0] || c in t[0];
        } else {
          StretchChars(s[1..], k);
          assert Stretches(s)[k] == t[k];
        }
      } else if k > 0 {
        StretchChars(s[1..], k - 1);
        assert Stretches(s)[k] == t[k - 1];
      }
      assert forall c :: c in s[1..] ==> c in s;
    }
  }

  /** The stretches `[] , Joiner(gs[0]), …, Joiner(gs[n - 2]), []` around `cs` spell `Rejoin`. */
  lemma ShiftJoiners(v: seq<string>, gs: seq<int>)
    requires |v| == |gs| + 2 && |gs| >= 1 && v[|v| - 1] == []
    requires forall k :: 0 <= k < |gs| ==> v[k + 1] == Joiner(gs[k])
    ensures var u := [[]] + v[2..];
      && |u| == |gs| + 1 && u[0] == [] && u[|gs|] == []
      && forall k :: 0 <= k < |gs| - 1 ==> u[k + 1] == Joiner(gs[1..][k])
  {
    var u := [[]] + v[2..];
    forall k | 0 <= k < |gs| - 1
      ensures u[k + 1] == Joiner(gs[1..][k])
    {
      assert u[k + 1] == v[k + 2];
    }
  }

  lemma {:induction false} WeaveRejoin(v: seq<string>, cs: string, gs: seq<int>)
    requires |v| == |cs| + 1 && |cs| >= 1 && |gs| == |cs| - 1
    requires v[0] == [] && v[|cs|] == []
    requires forall k :: 0 <= k < |gs| ==> v[k + 1] == Joiner(gs[k])
    ensures Weave(v, cs) == Rejoin(cs, gs)
    decreases |cs|
  {
    if |cs| == 1 {
      assert Weave(v[1..], cs[1..]) == [];
      assert Weave(v, cs) == [] + [cs[0]] + [];
    } else {
      ShiftJoiners(v, gs);
      WeaveRejoin([[]] + v[2..], cs[1..], gs[1..]);
      WeaveRejoinStep(v, cs, gs);
    }
  }

  lemma WeaveRejoinStep(v: seq<string>, cs: string, gs: seq<int>)
    requires |v| == |cs| + 1 && |cs| >= 2 && |gs| == |cs| - 1
    requires v[0] == [] && v[1] == Joiner(gs[0])
    requires Weave([[]] + v[2..], cs[1..]) == Rejoin(cs[1..], gs[1..])
    ensures Weave(v, cs) == Rejoin(cs, gs)
  {
    var w := Weave([[]] + v[2..], cs[1..]);
    assert v[1..][1..] == v[2..];
    calc {
      Weave(v, cs);
      [] + [cs[0]] + Weave(v[1..], cs[1..]);
      { WeaveEmptyFirst(v[1..], cs[1..]); }
      [cs[0]] + (Joiner(gs[0]) + w);
      { Assoc([cs[0]], Joiner(gs[0]), w); }
      [cs[0]] + Joiner(gs[0]) + w;
    }
  }

  /** For a text whose whitespace is spaces, tabs, line feeds and carriage returns,
      `normalize_text` is exactly its non-whitespace characters, each neighbouring pair joined
      by nothing, one space, one line break or one blank line, as they were adjacent, separated
      without a line ending, by one line ending, or by more. */
  lemma NormalizeOrdinary(text: string)
    requires forall c :: c in text && IsSpace(c) ==> OrdinarySpace(c)
    ensures |Gaps(text)| == if NonSpace(text) == [] then 0 else |NonSpace(text)| - 1
    ensures NormalizeText(text) == Rejoin(NonSpace(text), Gaps(text))
  {
    var cs := NonSpace(text);
    if cs == [] {
      GapsEmpty(text);
      LeadingNonSpace(NormalizeText(text));
    } else {
      var e := StepsWeave(text);
      OrdinaryWeave(text, e);
      calc {
        NormalizeText(text);
        Strip(CollapseSpaces(Steps1To4(text)));
        Strip(Weave(e, cs));
        { StripWeave(e, cs); }
        Weave([[]] + e[1..|cs|] + [[]], cs);
        Rejoin(cs, Gaps(text));
      }
    }
  }

  /** A text that starts with a non-whitespace character has one. */
  lemma LeadingNonSpace(r: string)
    ensures r != [] && !IsSpace(r[0]) ==> NonSpace(r) != []
  {
    if r != [] {
      NonSpaceCons(r[0], r[1..]);
      assert r == [r[0]] + r[1..];
    }
  }

  lemma OrdinaryWeave(text: string, e: seq<string>)
    requires forall c :: c in text && IsSpace(c) ==> OrdinarySpace(c)
    requires |e| == |Stretches(text)| == |NonSpace(text)| + 1 && |NonSpace(text)| >= 1
    requires forall j :: 0 <= j < |e| ==> e[j] == CollapseSpaces(Steps1To4(Stretches(text)[j]))
    ensures |Gaps(text)| == |NonSpace(text)| - 1
    ensures Weave([[]] + e[1..|NonSpace(text)|] + [[]], NonSpace(text)) == Rejoin(NonSpace(text), Gaps(text))
  {
    var cs := NonSpace(text);
    var n := |cs|;
    var v := [[]] + e[1..n] + [[]];
    if n == 1 {
      GapsEmpty(text);
    } else {
      GapsAt(text, 0);
    }
    forall k | 0 <= k < n - 1
      ensures v[k + 1] == Joiner(Gaps(text)[k])
    {
      OrdinaryJoiner(text, e, k);
    }
    WeaveRejoin(v, cs, Gaps(text));
  }

  /** One stretch between two non-whitespace characters through the whole of normalizing. */
  lemma OrdinaryJoiner(text: string, e: seq<string>, k: int)
    requires forall c :: c in text && IsSpace(c) ==> OrdinarySpace(c)
    requires |e| == |Stretches(text)| == |NonSpace(text)| + 1
    requires 0 <= k < |NonSpace(text)| - 1
    requires forall j :: 0 <= j < |e| ==> e[j] == CollapseSpaces(Steps1To4(Stretches(text)[j]))
    ensures ([[]] + e[1..|NonSpace(text)|] + [[]])[k + 1] == Joiner(Gaps(text)[k])
  {
    var w := Stretches(text)[k + 1];
    calc {
      ([[]] + e[1..|NonSpace(text)|] + [[]])[k + 1];
      { InnerAt(e, |NonSpace(text)|, k); }
      e[k + 1];
      CollapseSpaces(Steps1To4(w));
      { OrdinaryStretchChars(text, k + 1); OrdinaryStretch(w); }
      Joiner(Gap(w));
      { GapsAt(text, k); }
      Joiner(Gaps(text)[k]);
    }
  }

  /** The stretches of a text with ordinary whitespace are ordinary whitespace. */
  lemma OrdinaryStretchChars(text: string, k: int)
    requires forall c :: c in text && IsSpace(c) ==> OrdinarySpace(c)
    requires 0 <= k < |Stretches(text)|
    ensures forall c :: c in Stretches(text)[k] ==> OrdinarySpace(c)
  {
    var w := Stretches(text)[k];
    StretchChars(text, k);
    forall c | c in w
      ensures OrdinarySpace(c)
    {
      var i :| 0 <= i < |w| && w[i] == c;
      assert IsSpace(w[i]);
    }
  }

  // ---------------------------------------------------------------------------------------
  // `clean_document_structure` and `initialize_document_normalizer`

  /** The two rewrites the model takes as given: the Markdown header, emphasis, link, inline
      code, block quote and list-marker substitutions, and BeautifulSoup's text of an HTML page
      with its `script` and `style` elements removed. */
  datatype Cleaners = Cleaners(markdown: string -> string, htmlText: string -> string)

  const MissingKeysError := "Each input dictionary must contain 'text' and 'metadata' keys."
  const MissingDocTypeError := "Metadata must contain 'doc_type' key."

  /** `re.sub(r'[^\x00-\x7F]+', '', text)`: the ASCII characters of `s`, in order. */
  function DropNonAscii(s: string): (r: string)
    ensures forall i :: 0 <= i < |r| ==> IsAscii(r[i])
    ensures forall c {:trigger multiset(s)[c]} :: IsAscii(c) ==> multiset(r)[c] == multiset(s)[c]
  {
    if s == [] then []
    else
      assert s == [s[0]] + s[1..];
      (if IsAscii(s[0]) then [s[0]] else []) + DropNonAscii(s[1..])
  }

  /** The removal works character by character: on a concatenation it is the removal on each
      part, and a single character is kept exactly when it is ASCII. So the kept characters stay
      in their order. */
  lemma {:induction false} DropNonAsciiAppend(a: string, b: string)
    ensures DropNonAscii(a + b) == DropNonAscii(a) + DropNonAscii(b)
  {
    if a != [] {
      var h := if IsAscii(a[0]) then [a[0]] else [];
      var x, y, z := DropNonAscii(a[1..] + b), DropNonAscii(a[1..]), DropNonAscii(b);
      assert (a + b)[0] == a[0] && (a + b)[1..] == a[1..] + b;
      assert DropNonAscii(a + b) == h + x;
      assert DropNonAscii(a) == h + y;
      DropNonAsciiAppend(a[1..], b);
      assert x == y + z;
      assert h + (y + z) == (h + y) + z;
    } else {
      assert a + b == b;
    }
  }

  lemma DropNonAsciiCons(c: char, t: string)
    ensures DropNonAscii([c] + t) == (if IsAscii(c) then [c] else []) + DropNonAscii(t)
  {
    assert ([c] + t)[0] == c && ([c] + t)[1..] == t;
  }

  lemma DropNonAsciiSingle(c: char)
    ensures DropNonAscii([c]) == if IsAscii(c) then [c] else []
  {
    assert [c][1..] == [];
  }

  /** The structural cleaning of one text, chosen by the `doc_type` value: Markdown rewrites
      followed by the removal of every non-ASCII character for `"md"`, HTML-to-text for
      `"web"`, and nothing for any other type. */
  function CleanText(env: Cleaners, docType: MetaValue, text: string): (r: string)
    ensures docType == MStr("md") ==> forall i :: 0 <= i < |r| ==> IsAscii(r[i])
    ensures docType != MStr("md") && docType != MStr("web") ==> r == text
  {
    if docType == MStr("md") then DropNonAscii(env.markdown(text))
    else if docType == MStr("web") then env.htmlText(text)
    else text
  }

  /** The checks one record must pass: both keys, and a `doc_type` in its metadata. */
  predicate Cleanable(raw: RawDoc) {
    raw.text.Some? && raw.metadata.Some? && "doc_type" in raw.metadata.value
  }

  /** One iteration of `clean_document_structure`. */
  function CleanOne(env: Cleaners, raw: RawDoc): (r: Result<Doc>)
    ensures r.Ok? <==> Cleanable(raw)
    ensures raw.text.None? || raw.metadata.None? ==> r == Err(MissingKeysError)
    ensures raw.text.Some? && raw.metadata.Some? && !Cleanable(raw) ==> r == Err(MissingDocTypeError)
    ensures r.Ok? ==> r.value.metadata == raw.metadata.value
  {
    if raw.text.None? || raw.metadata.None? then Err(MissingKeysError)
    else if "doc_type" !in raw.metadata.value then Err(MissingDocTypeError)
    else
      var md := raw.metadata.value;
      Ok(Doc(CleanText(env, md["doc_type"], raw.text.value), md))
  }

  function CleanStep(env: Cleaners): (RawDoc, nat) -> Result<Doc> {
    (raw: RawDoc, i: nat) => CleanOne(env, raw)
  }

  /** `clean_document_structure`: the first record that fails a check raises; otherwise one
      cleaned record per input record, in order, with its metadata as it was. */
  function CleanDocumentStructure(env: Cleaners, docs: seq<RawDoc>): (r: Result<seq<Doc>>)
    ensures r.Ok? <==> forall k :: 0 <= k < |docs| ==> Cleanable(docs[k])
    ensures r.Ok? ==> |r.value| == |docs| && forall k :: 0 <= k < |docs| ==>
              r.value[k] == Doc(CleanText(env, docs[k].metadata.value["doc_type"], docs[k].text.value),
                                docs[k].metadata.value)
    ensures r.Err? ==> exists k :: 0 <= k < |docs| && !Cleanable(docs[k])
                         && (forall j :: 0 <= j < k ==> Cleanable(docs[j]))
                         && CleanOne(env, docs[k]) == Err(r.error)
  {
    TryMapFrom(CleanStep(env), docs, 0)
  }

  /** Applies `normalize_text` to the text of every record. */
  function NormalizeAll(docs: seq<Doc>): (r: seq<Doc>)
    ensures |r| == |docs|
    ensures forall k :: 0 <= k < |docs| ==> r[k] == Doc(NormalizeText(docs[k].text), docs[k].metadata)
  {
    seq(|docs|, k requires 0 <= k < |docs| => Doc(NormalizeText(docs[k].text), docs[k].metadata))
  }

  /** `initialize_document_normalizer`: the cleaning, then `normalize_text` on every text. */
  function InitializeDocumentNormalizer(env: Cleaners, docs: seq<RawDoc>): (r: Result<seq<Doc>>)
    ensures r.Err? <==> CleanDocumentStructure(env, docs).Err?
    ensures r.Err? ==> r == CleanDocumentStructure(env, docs)
    ensures r.Ok? ==> |r.value| == |docs| && forall k :: 0 <= k < |docs| ==>
              && r.value[k].metadata == docs[k].metadata.value
              && r.value[k].text == NormalizeText(CleanText(env, docs[k].metadata.value["doc_type"], docs[k].text.value))
              && Normalized(r.value[k].text)
  {
    match CleanDocumentStructure(env, docs)
    case Err(e) => Err(e)
    case Ok(cleaned) => Ok(NormalizeAll(cleaned))
  }

  /** Records of a type other than `md` and `web` come out of the normalizer in a form it maps to
      itself: running it again on its own output changes nothing. */
  lemma InitializeStable(env: Cleaners, docs: seq<RawDoc>)
    requires InitializeDocumentNormalizer(env, docs).Ok?
    requires forall k :: 0 <= k < |docs| ==>
               docs[k].metadata.value["doc_type"] != MStr("md") && docs[k].metadata.value["doc_type"] != MStr("web")
    ensures var out := InitializeDocumentNormalizer(env, docs).value;
            InitializeDocumentNormalizer(env, ToRaws(out)) == Ok(out)
  {
    var out := InitializeDocumentNormalizer(env, docs).value;
    var again := ToRaws(out);
    forall k | 0 <= k < |again|
      ensures Cleanable(again[k]) && again[k].metadata.value["doc_type"] == docs[k].metadata.value["doc_type"]
    {
      assert again[k].metadata.value == docs[k].metadata.value;
    }
    var cleaned := CleanDocumentStructure(env, again);
    assert cleaned.Ok?;
    forall k | 0 <= k < |out|
      ensures cleaned.value[k] == out[k]
    {
      assert again[k].text.value == out[k].text;
    }
    assert cleaned.value == out;
    forall k | 0 <= k < |out|
      ensures NormalizeText(out[k].text) == out[k].text
    {
      NormalizeFixes(out[k].text);
    }
    assert NormalizeAll(out) == out;
  }
}
