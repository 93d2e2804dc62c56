/** Python's stable `sorted(xs, key=..., reverse=...)`, modelled as insertion sort over
    elements tagged with their original position. Comparing tags on ties makes the
    stability of Python's sort a plain sortedness fact. */
module Sorting {

  /** `leq` is total and transitive: an ordering by a key, ties allowed. */
  ghost predicate TotalPreorder<T(!new)>(leq: (T, T) -> bool) {
    && (forall a, b :: leq(a, b) || leq(b, a))
    && (forall a, b, c :: leq(a, b) && leq(b, c) ==> leq(a, c))
  }

  ghost predicate SortedBy<T>(s: seq<T>, leq: (T, T) -> bool) {
    forall i, j :: 0 <= i < j < |s| ==> leq(s[i], s[j])
  }

  /** Inserts `x` in front of the first element it does not come after. */
  function Insert<T>(x: T, s: seq<T>, leq: (T, T) -> bool): seq<T> {
    if s == [] || leq(x, s[0]) then [x] + s else [s[0]] + Insert(x, s[1..], leq)
  }

  function InsertionSort<T>(s: seq<T>, leq: (T, T) -> bool): seq<T> {
    if s == [] then [] else Insert(s[0], InsertionSort(s[1..], leq), leq)
  }

  lemma {:induction false} InsertPermutes<T>(x: T, s: seq<T>, leq: (T, T) -> bool)
    ensures multiset(Insert(x, s, leq)) == multiset(s) + multiset{x}
  {
    if s == [] || leq(x, s[0]) {
    } else {
      InsertPermutes(x, s[1..], leq);
      assert s == [s[0]] + s[1..];
    }
  }

  lemma {:induction false} InsertSorted<T(!new)>(x: T, s: seq<T>, leq: (T, T) -> bool)
    requires TotalPreorder(leq)
    requires SortedBy(s, leq)
    ensures SortedBy(Insert(x, s, leq), leq)
  {
    if s == [] || leq(x, s[0]) {
      if s != [] {
        BelowHead(x, s, leq);
      }
      ConsSorted(x, s, leq);
    } else {
      SortedTail(s, leq);
      InsertSorted(x, s[1..], leq);
      HeadBelowInsert(x, s, leq);
      ConsSorted(s[0], Insert(x, s[1..], leq), leq);
    }
  }

  /** The head of a sorted list that `x` goes after comes before everything `x` is inserted
      among. */
  lemma HeadBelowInsert<T(!new)>(x: T, s: seq<T>, leq: (T, T) -> bool)
    requires TotalPreorder(leq) && SortedBy(s, leq)
    requires s != [] && !leq(x, s[0])
    ensures forall y :: y in Insert(x, s[1..], leq) ==> leq(s[0], y)
  {
    var rest := Insert(x, s[1..], leq);
    InsertPermutes(x, s[1..], leq);
    forall y | y in rest
      ensures leq(s[0], y)
    {
      assert y in multiset(rest);
      if y != x {
        assert y in multiset(s[1..]);
        var j :| 0 <= j < |s[1..]| && s[1..][j] == y;
        assert s[j + 1] == y;
      }
    }
  }

  /** An element before everything in a sorted list can head it. */
  lemma ConsSorted<T>(h: T, rest: seq<T>, leq: (T, T) -> bool)
    requires SortedBy(rest, leq)
    requires forall y :: y in rest ==> leq(h, y)
    ensures SortedBy([h] + rest, leq)
  {
    var r := [h] + rest;
    forall i, j | 0 <= i < j < |r|
      ensures leq(r[i], r[j])
    {
      assert r[j] == rest[j - 1];
      if i == 0 {
        assert r[j] in rest;
      } else {
        assert r[i] == rest[i - 1];
      }
    }
  }

  /** What comes before the head of a sorted list comes before all of it. */
  lemma BelowHead<T(!new)>(x: T, s: seq<T>, leq: (T, T) -> bool)
    requires TotalPreorder(leq) && SortedBy(s, leq)
    requires s != [] && leq(x, s[0])
    ensures forall y :: y in s ==> leq(x, y)
  {
    forall y | y in s
      ensures leq(x, y)
    {
      var k :| 0 <= k < |s| && s[k] == y;
      if k > 0 {
        assert leq(s[0], s[k]);
      }
    }
  }

  /** The insertion sort permutes its input and orders it by `leq`. */
  lemma {:induction false} InsertionSortCorrect<T(!new)>(s: seq<T>, leq: (T, T) -> bool)
    requires TotalPreorder(leq)
    ensures multiset(InsertionSort(s, leq)) == multiset(s)
    ensures SortedBy(InsertionSort(s, leq), leq)
  {
    if s != [] {
      InsertionSortCorrect(s[1..], leq);
      InsertPermutes(s[0], InsertionSort(s[1..], leq), leq);
      InsertSorted(s[0], InsertionSort(s[1..], leq), leq);
      assert s == [s[0]] + s[1..];
    }
  }

  /** Two sorted arrangements of the same elements coincide, provided `leq` never ties two
      different elements among them. */
  lemma {:induction false} SortedUnique<T(!new)>(a: seq<T>, b: seq<T>, leq: (T, T) -> bool)
    requires SortedBy(a, leq) && SortedBy(b, leq)
    requires multiset(a) == multiset(b)
    requires NoTies(a, leq)
    ensures a == b
  {
    if a == [] {
      assert |b| == |multiset(b)| == 0;
    } else {
      assert |b| == |multiset(b)| == |multiset(a)| == |a|;
      SameHead(a, b, leq);
      TailsMatch(a, b);
      SortedTail(a, leq);
      SortedTail(b, leq);
      NoTiesTail(a, leq);
      SortedUnique(a[1..], b[1..], leq);
      assert a == [a[0]] + a[1..] && b == [b[0]] + b[1..];
    }
  }

  lemma TailsMatch<T>(a: seq<T>, b: seq<T>)
    requires multiset(a) == multiset(b) && |a| > 0 && |b| > 0 && a[0] == b[0]
    ensures multiset(a[1..]) == multiset(b[1..])
  {
    RemoveMatched(a, b, 0);
    assert b[..0] + b[1..] == b[1..];
  }

  /** `leq` ties no two different elements of `a`. */
  ghost predicate NoTies<T>(a: seq<T>, leq: (T, T) -> bool) {
    forall x, y :: x in a && y in a && leq(x, y) && leq(y, x) ==> x == y
  }

  lemma SortedTail<T>(a: seq<T>, leq: (T, T) -> bool)
    requires SortedBy(a, leq) && |a| > 0
    ensures SortedBy(a[1..], leq)
  {
    forall i, j | 0 <= i < j < |a[1..]|
      ensures leq(a[1..][i], a[1..][j])
    {
      assert a[1..][i] == a[i + 1] && a[1..][j] == a[j + 1];
    }
  }

  lemma NoTiesTail<T>(a: seq<T>, leq: (T, T) -> bool)
    requires NoTies(a, leq) && |a| > 0
    ensures NoTies(a[1..], leq)
  {
    forall x, y | x in a[1..] && y in a[1..]
      ensures x in a && y in a
    {
    }
  }

  lemma SameHead<T(!new)>(a: seq<T>, b: seq<T>, leq: (T, T) -> bool)
    requires SortedBy(a, leq) && SortedBy(b, leq)
    requires multiset(a) == multiset(b)
    requires NoTies(a, leq)
    requires |a| > 0 && |b| > 0
    ensures a[0] == b[0]
  {
    assert a[0] in multiset(b) && b[0] in multiset(a);
    var j :| 0 <= j < |b| && b[j] == a[0];
    var i :| 0 <= i < |a| && a[i] == b[0];
    assert i > 0 ==> leq(a[0], a[i]);
    assert j > 0 ==> leq(b[0], b[j]);
    assert b[0] in a && a[0] in a;
  }

  /** Removing the first element of `a` and its match `b[j]` keeps the two permutations of each other. */
  lemma RemoveMatched<T>(a: seq<T>, b: seq<T>, j: nat)
    requires multiset(a) == multiset(b)
    requires 0 < |a| && j < |b| && b[j] == a[0]
    ensures multiset(a[1..]) == multiset(b[..j] + b[j + 1..])
  {
    var b' := b[..j] + b[j + 1..];
    assert a == [a[0]] + a[1..];
    assert b == b[..j] + [b[j]] + b[j + 1..];
    forall v
      ensures multiset(a[1..])[v] == multiset(b')[v]
    {
      assert multiset(a)[v] == multiset([a[0]])[v] + multiset(a[1..])[v];
      assert multiset(b)[v] == multiset(b[..j])[v] + multiset([b[j]])[v] + multiset(b[j + 1..])[v];
      assert multiset(b')[v] == multiset(b[..j])[v] + multiset(b[j + 1..])[v];
    }
  }

  /** An element of a sequence, tagged with its index in that sequence. */
  datatype Ranked<T> = Ranked(item: T, pos: nat)

  function Enumerate<T>(s: seq<T>): (r: seq<Ranked<T>>)
    ensures |r| == |s|
    ensures forall i :: 0 <= i < |s| ==> r[i] == Ranked(s[i], i)
  {
    seq(|s|, i requires 0 <= i < |s| => Ranked(s[i], i))
  }

  function Items<T>(r: seq<Ranked<T>>): (s: seq<T>)
    ensures |s| == |r|
    ensures forall i :: 0 <= i < |r| ==> s[i] == r[i].item
  {
    seq(|r|, i requires 0 <= i < |r| => r[i].item)
  }

  /** The order Python's stable sort produces: by key, and by original position on ties. */
  function StableLeq<T>(keyLeq: (T, T) -> bool): (Ranked<T>, Ranked<T>) -> bool {
    (a: Ranked<T>, b: Ranked<T>) =>
      keyLeq(a.item, b.item) && (!keyLeq(b.item, a.item) || a.pos <= b.pos)
  }

  lemma StableLeqIsTotalPreorder<T(!new)>(keyLeq: (T, T) -> bool)
    requires TotalPreorder(keyLeq)
    ensures TotalPreorder(StableLeq(keyLeq))
  {
    var leq := StableLeq(keyLeq);
    forall a, b
      ensures leq(a, b) || leq(b, a)
    {
      assert keyLeq(a.item, b.item) || keyLeq(b.item, a.item);
    }
    forall a, b, c | leq(a, b) && leq(b, c)
      ensures leq(a, c)
    {
      assert keyLeq(a.item, b.item) && keyLeq(b.item, c.item);
      assert keyLeq(a.item, c.item);
      if keyLeq(c.item, a.item) {
        assert keyLeq(b.item, a.item) && keyLeq(c.item, b.item);
      }
    }
  }

  /** `sorted(s, key=...)`, keeping each element's original index. */
  function StableSortRanked<T(!new)>(s: seq<T>, keyLeq: (T, T) -> bool): (r: seq<Ranked<T>>)
    requires TotalPreorder(keyLeq)
    ensures multiset(r) == multiset(Enumerate(s))
    ensures SortedBy(Items(r), keyLeq)
    ensures forall i, j :: 0 <= i < j < |r| && keyLeq(r[j].item, r[i].item) ==> r[i].pos < r[j].pos
  {
    var leq := StableLeq(keyLeq);
    StableLeqIsTotalPreorder(keyLeq);
    var r := InsertionSort(Enumerate(s), leq);
    InsertionSortCorrect(Enumerate(s), leq);
    DistinctPositions(s, r);
    r
  }

  lemma DistinctPositions<T>(s: seq<T>, r: seq<Ranked<T>>)
    requires multiset(r) == multiset(Enumerate(s))
    ensures forall i, j :: 0 <= i < j < |r| ==> r[i].pos != r[j].pos
    ensures forall i :: 0 <= i < |r| ==> r[i].pos < |s| && r[i].item == s[r[i].pos]
  {
    forall i | 0 <= i < |r|
      ensures r[i].pos < |s| && r[i].item == s[r[i].pos]
    {
      assert r[i] in multiset(Enumerate(s));
    }
    forall i, j | 0 <= i < j < |r|
      ensures r[i].pos != r[j].pos
    {
      EnumerateOnce(s, r[i].pos);
      RepeatCounted(r, i, j);
    }
  }

  lemma RepeatCounted<T>(r: seq<T>, i: nat, j: nat)
    requires i < j < |r|
    ensures r[i] == r[j] ==> multiset(r)[r[i]] >= 2
  {
    assert r == r[..i] + [r[i]] + r[i + 1..j] + [r[j]] + r[j + 1..];
  }

  lemma EnumerateOnce<T>(s: seq<T>, p: nat)
    requires p < |s|
    ensures multiset(Enumerate(s))[Ranked(s[p], p)] == 1
  {
    var e := Enumerate(s);
    assert e == e[..p] + [e[p]] + e[p + 1..];
    assert Ranked(s[p], p) !in e[..p];
    assert Ranked(s[p], p) !in e[p + 1..];
  }

  /** Permuting a tagged sequence permutes its items. */
  lemma {:induction false} ItemsPermutes<T>(a: seq<Ranked<T>>, b: seq<Ranked<T>>)
    requires multiset(a) == multiset(b)
    ensures multiset(Items(a)) == multiset(Items(b))
  {
    if a == [] {
      assert |b| == |multiset(b)| == 0;
    } else {
      assert a[0] in multiset(b);
      var j :| 0 <= j < |b| && b[j] == a[0];
      var b' := b[..j] + b[j + 1..];
      RemoveMatched(a, b, j);
      ItemsPermutes(a[1..], b');
      ItemsRemove(b, j);
      assert Items(a) == [a[0].item] + Items(a[1..]);
    }
  }

  /** The items of a tagged sequence are those left after removing one, plus its item. */
  lemma ItemsRemove<T>(b: seq<Ranked<T>>, j: nat)
    requires j < |b|
    ensures multiset(Items(b)) == multiset(Items(b[..j] + b[j + 1..])) + multiset{b[j].item}
  {
    var u, v := b[..j], b[j + 1..];
    assert b == (u + [b[j]]) + v;
    ItemsAppend(u + [b[j]], v);
    ItemsAppend(u, [b[j]]);
    ItemsAppend(u, v);
    assert Items([b[j]]) == [b[j].item];
  }

  lemma ItemsAppend<T>(u: seq<Ranked<T>>, v: seq<Ranked<T>>)
    ensures Items(u + v) == Items(u) + Items(v)
  {
    var l, r := Items(u + v), Items(u) + Items(v);
    forall i | 0 <= i < |l|
      ensures l[i] == r[i]
    {
      if i < |u| {
        assert (u + v)[i] == u[i];
      } else {
        assert (u + v)[i] == v[i - |u|];
      }
    }
  }

  /** `sorted(s, key=...)`: a permutation of `s`, ordered by the key, ties in input order. */
  function StableSort<T(!new)>(s: seq<T>, keyLeq: (T, T) -> bool): (r: seq<T>)
    requires TotalPreorder(keyLeq)
    ensures multiset(r) == multiset(s)
    ensures SortedBy(r, keyLeq)
  {
    var ranked := StableSortRanked(s, keyLeq);
    ItemsPermutes(ranked, Enumerate(s));
    assert Items(Enumerate(s)) == s;
    Items(ranked)
  }
}
