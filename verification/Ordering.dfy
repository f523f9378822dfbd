/** Sorting by a key, as Python's `sorted` does it, and the order of strings. */
module Ordering {

  /** Python's order of strings: by the first character that differs. */
  predicate StringLe(a: string, b: string) {
    a == [] || (b != [] && (a[0] < b[0] || (a[0] == b[0] && StringLe(a[1..], b[1..]))))
  }

  /** The two strings are alike up to a place where the first ends or its character is the lesser. */
  ghost predicate Precedes(a: string, b: string, k: nat) {
    k <= |a| && k <= |b| && a[..k] == b[..k] && (k == |a| || (k < |b| && a[k] < b[k]))
  }

  lemma {:induction false} StringLeIff(a: string, b: string)
    ensures StringLe(a, b) <==> exists k: nat :: Precedes(a, b, k)
  {
    if a == [] {
      assert Precedes(a, b, 0);
    } else if b != [] && a[0] == b[0] {
      StringLeIff(a[1..], b[1..]);
      if k: nat :| Precedes(a[1..], b[1..], k) {
        assert a[..k + 1] == [a[0]] + a[1..][..k] && b[..k + 1] == [b[0]] + b[1..][..k];
        assert Precedes(a, b, k + 1);
      }
      if k: nat :| Precedes(a, b, k) {
        assert k > 0;
        assert a[1..][..k - 1] == a[..k][1..] && b[1..][..k - 1] == b[..k][1..];
        assert Precedes(a[1..], b[1..], k - 1);
      }
    } else {
      assert b != [] && a[0] < b[0] ==> Precedes(a, b, 0);
      if k: nat :| Precedes(a, b, k) {
        assert k > 0 ==> a[..k][0] == b[..k][0];
      }
    }
  }

  lemma {:induction false} StringLeIsTotal(a: string, b: string)
    ensures StringLe(a, b) || StringLe(b, a)
  {
    if a != [] && b != [] && a[0] == b[0] {
      StringLeIsTotal(a[1..], b[1..]);
    }
  }

  lemma {:induction false} StringLeIsAntisymmetric(a: string, b: string)
    requires StringLe(a, b) && StringLe(b, a)
    ensures a == b
  {
    if a != [] && b != [] {
      StringLeIsAntisymmetric(a[1..], b[1..]);
      assert a == [a[0]] + a[1..] && b == [b[0]] + b[1..];
    }
  }

  lemma {:induction false} StringLeIsTransitive(a: string, b: string, c: string)
    requires StringLe(a, b) && StringLe(b, c)
    ensures StringLe(a, c)
  {
    if a != [] && b != [] && c != [] && a[0] == b[0] == c[0] {
      StringLeIsTransitive(a[1..], b[1..], c[1..]);
    }
  }

  /** Any two values compare, and comparing is transitive; values may tie. */
  ghost predicate TotalPreorder<T(!new)>(le: (T, T) -> bool) {
    && (forall x, y :: le(x, y) || le(y, x))
    && (forall x, y, z :: le(x, y) && le(y, z) ==> le(x, z))
  }

  lemma {:induction false} StringLeIsPreorder()
    ensures TotalPreorder(StringLe)
  {
    forall x, y
      ensures StringLe(x, y) || StringLe(y, x)
    {
      StringLeIsTotal(x, y);
    }
    forall x, y, z | StringLe(x, y) && StringLe(y, z)
      ensures StringLe(x, z)
    {
      StringLeIsTransitive(x, y, z);
    }
  }

  predicate SortedBy<T>(s: seq<T>, le: (T, T) -> bool) {
    forall i, j | 0 <= i < j < |s| :: le(s[i], s[j])
  }

  /** `x` goes before the first element it does not exceed, so equal elements keep their order. */
  function Insert<T>(x: T, s: seq<T>, le: (T, T) -> bool): seq<T> {
    if s == [] || le(x, s[0]) then [x] + s else [s[0]] + Insert(x, s[1..], le)
  }

  /** `sorted(s, key=...)`. */
  function Sort<T>(s: seq<T>, le: (T, T) -> bool): seq<T> {
    if s == [] then [] else Insert(s[0], Sort(s[1..], le), le)
  }

  lemma {:induction false} InsertKeepsElements<T>(x: T, s: seq<T>, le: (T, T) -> bool)
    ensures multiset(Insert(x, s, le)) == multiset(s) + multiset{x}
  {
    if s != [] && !le(x, s[0]) {
      InsertKeepsElements(x, s[1..], le);
      assert s == [s[0]] + s[1..];
    }
  }

  lemma {:induction false} InsertKeepsSorted<T(!new)>(x: T, s: seq<T>, le: (T, T) -> bool)
    requires TotalPreorder(le) && SortedBy(s, le)
    ensures SortedBy(Insert(x, s, le), le)
  {
    if s != [] && !le(x, s[0]) {
      InsertKeepsSorted(x, s[1..], le);
      InsertKeepsElements(x, s[1..], le);
      var rest := Insert(x, s[1..], le);
      forall j | 0 <= j < |rest|
        ensures le(s[0], rest[j])
      {
        assert rest[j] in multiset(rest);
        assert rest[j] == x || rest[j] in s[1..];
      }
    }
  }

  /** Sorting orders the elements and loses none. */
  lemma {:induction false} SortSorts<T(!new)>(s: seq<T>, le: (T, T) -> bool)
    requires TotalPreorder(le)
    ensures SortedBy(Sort(s, le), le) && multiset(Sort(s, le)) == multiset(s)
  {
    if s != [] {
      SortSorts(s[1..], le);
      InsertKeepsSorted(s[0], Sort(s[1..], le), le);
      InsertKeepsElements(s[0], Sort(s[1..], le), le);
      assert s == [s[0]] + s[1..];
    }
  }

  /** Sorting keeps distinct elements distinct. */
  lemma {:induction false} SortKeepsDistinct<T(!new)>(s: seq<T>, le: (T, T) -> bool)
    requires TotalPreorder(le) && forall i, j | 0 <= i < j < |s| :: s[i] != s[j]
    ensures |Sort(s, le)| == |s| && forall i, j | 0 <= i < j < |s| :: Sort(s, le)[i] != Sort(s, le)[j]
    ensures forall x :: x in Sort(s, le) <==> x in s
  {
    SortSorts(s, le);
    var r := Sort(s, le);
    assert |multiset(r)| == |multiset(s)|;
    DistinctCounts(s);
    forall x
      ensures x in r <==> x in s
    {
      assert x in multiset(r) <==> x in multiset(s);
    }
    CountsDistinct(r);
  }

  lemma {:induction false} DistinctCounts<T>(s: seq<T>)
    requires forall i, j | 0 <= i < j < |s| :: s[i] != s[j]
    ensures forall x :: multiset(s)[x] <= 1
  {
    if s != [] {
      DistinctCounts(s[1..]);
      TailElements(s);
      assert s[0] !in s[1..];
    }
  }

  lemma {:induction false} CountsDistinct<T>(s: seq<T>)
    requires forall x :: multiset(s)[x] <= 1
    ensures forall i, j | 0 <= i < j < |s| :: s[i] != s[j]
  {
    if s != [] {
      TailElements(s);
      forall x
        ensures multiset(s[1..])[x] <= 1
      {
        assert multiset(s)[x] <= 1;
      }
      CountsDistinct(s[1..]);
      assert multiset(s)[s[0]] <= 1;
      assert s[0] !in multiset(s[1..]);
    }
  }

  /** Elements of `s` that tie are equal. */
  ghost predicate NoTies<T>(s: multiset<T>, le: (T, T) -> bool) {
    forall x, y | x in s && y in s && le(x, y) && le(y, x) :: x == y
  }

  lemma {:induction false} TailElements<T>(a: seq<T>)
    requires a != []
    ensures multiset(a) == multiset(a[1..]) + multiset{a[0]}
    ensures multiset(a[1..]) == multiset(a) - multiset{a[0]}
  {
    assert a == [a[0]] + a[1..];
  }

  lemma {:induction false} HeadIsLeast<T>(a: seq<T>, x: T, le: (T, T) -> bool)
    requires a != [] && SortedBy(a, le) && x in multiset(a) && le(x, x)
    ensures le(a[0], x)
  {
    var i :| 0 <= i < |a| && a[i] == x;
    if i > 0 {
      assert le(a[0], a[i]);
    }
  }

  lemma {:induction false} HeadsAgree<T>(a: seq<T>, b: seq<T>, le: (T, T) -> bool)
    requires SortedBy(a, le) && SortedBy(b, le) && multiset(a) == multiset(b) && NoTies(multiset(a), le)
    requires a != [] && forall x | x in a :: le(x, x)
    ensures b != [] && a[0] == b[0] && multiset(a[1..]) == multiset(b[1..])
  {
    assert |multiset(a)| == |multiset(b)|;
    assert a[0] in multiset(a) && b[0] in multiset(b);
    assert b[0] in a;
    HeadIsLeast(a, b[0], le);
    HeadIsLeast(b, a[0], le);
    TailElements(a);
    TailElements(b);
  }

  /** Without ties there is one sorted arrangement. */
  lemma {:induction false} SortedIsUnique<T>(a: seq<T>, b: seq<T>, le: (T, T) -> bool)
    requires SortedBy(a, le) && SortedBy(b, le) && multiset(a) == multiset(b) && NoTies(multiset(a), le)
    requires forall x | x in a :: le(x, x)
    ensures a == b
  {
    if a == [] {
      assert |multiset(b)| == 0;
    } else {
      HeadsAgree(a, b, le);
      assert a == [a[0]] + a[1..] && b == [b[0]] + b[1..];
      forall x | x in multiset(a[1..])
        ensures x in multiset(a)
      {
        assert x in a[1..];
      }
      SortedIsUnique(a[1..], b[1..], le);
    }
  }

  /** Sorting depends only on which elements there are, as long as none of them tie. */
  lemma {:induction false} SortForgetsOrder<T(!new)>(a: seq<T>, b: seq<T>, le: (T, T) -> bool)
    requires TotalPreorder(le) && multiset(a) == multiset(b) && NoTies(multiset(a), le)
    ensures Sort(a, le) == Sort(b, le)
  {
    SortSorts(a, le);
    SortSorts(b, le);
    SortedIsUnique(Sort(a, le), Sort(b, le), le);
  }

  lemma {:induction false} SortOfSorted<T(!new)>(a: seq<T>, le: (T, T) -> bool)
    requires TotalPreorder(le) && SortedBy(a, le) && NoTies(multiset(a), le)
    ensures Sort(a, le) == a
  {
    SortSorts(a, le);
    SortedIsUnique(Sort(a, le), a, le);
  }

  /** Of two elements that tie, the one that is sorted in first comes first. */
  lemma {:induction false} TiesKeepOrder<T(!new)>(a: T, b: T, s: seq<T>, le: (T, T) -> bool) returns (k: nat)
    requires TotalPreorder(le) && le(a, b) && le(b, a)
    ensures k < |Insert(a, Insert(b, s, le), le)| && Insert(a, Insert(b, s, le), le)[k] == a
    ensures k < |Insert(b, Insert(a, s, le), le)| && Insert(b, Insert(a, s, le), le)[k] == b
  {
    if s == [] || le(b, s[0]) {
      k := 0;
    } else {
      var j := TiesKeepOrder(a, b, s[1..], le);
      k := j + 1;
    }
  }

  lemma {:induction false} ElementsOfTwoMore<T>(a: T, b: T, rest: seq<T>)
    ensures multiset([a, b] + rest) == multiset{a} + (multiset{b} + multiset(rest))
  {
    assert [a, b] + rest == [a] + ([b] + rest);
    assert multiset([a] + ([b] + rest)) == multiset([a]) + multiset([b] + rest);
  }

  lemma {:induction false} WithoutOne<T>(s: seq<T>, a: T) returns (rest: seq<T>)
    requires a in multiset(s)
    ensures multiset(s) == multiset{a} + multiset(rest)
  {
    assert a in s;
    var i :| 0 <= i < |s| && s[i] == a;
    RemoveAtElements(s, i);
    rest := RemoveAt(s, i);
  }

  lemma {:induction false} TiesToTheFront<T>(s: seq<T>, a: T, b: T) returns (rest: seq<T>)
    requires a in multiset(s) && b in multiset(s) && a != b
    ensures multiset([a, b] + rest) == multiset(s) == multiset([b, a] + rest)
  {
    var most := WithoutOne(s, a);
    rest := WithoutOne(most, b);
    ElementsOfTwoMore(a, b, rest);
    ElementsOfTwoMore(b, a, rest);
  }

  lemma {:induction false} SortOfTwoMore<T>(a: T, b: T, rest: seq<T>, le: (T, T) -> bool)
    ensures Sort([a, b] + rest, le) == Insert(a, Insert(b, Sort(rest, le), le), le)
  {
    assert ([a, b] + rest)[1..] == [b] + rest && ([b] + rest)[1..] == rest;
  }

  /** Two arrangements of elements that tie sort differently. */
  lemma {:induction false} TiesSortApart<T(!new)>(s: seq<T>, a: T, b: T, le: (T, T) -> bool)
    returns (t: seq<T>, t': seq<T>)
    requires TotalPreorder(le) && a in multiset(s) && b in multiset(s) && le(a, b) && le(b, a) && a != b
    ensures multiset(t) == multiset(s) == multiset(t') && Sort(t, le) != Sort(t', le)
  {
    hide Sort, Insert;
    var rest := TiesToTheFront(s, a, b);
    t, t' := [a, b] + rest, [b, a] + rest;
    SortOfTwoMore(a, b, rest, le);
    SortOfTwoMore(b, a, rest, le);
    var k := TiesKeepOrder(a, b, Sort(rest, le), le);
  }

  /** And only then: every rearrangement sorts alike exactly when no elements tie. */
  lemma {:induction false} SortForgetsOrderIff<T(!new)>(s: seq<T>, le: (T, T) -> bool)
    requires TotalPreorder(le)
    ensures (forall t | multiset(t) == multiset(s) :: Sort(t, le) == Sort(s, le)) <==> NoTies(multiset(s), le)
  {
    hide Sort, TotalPreorder;
    if NoTies(multiset(s), le) {
      forall t | multiset(t) == multiset(s)
        ensures Sort(t, le) == Sort(s, le)
      {
        SortForgetsOrder(s, t, le);
      }
    } else {
      var a, b :| a in multiset(s) && b in multiset(s) && le(a, b) && le(b, a) && a != b;
      var t, t' := TiesSortApart(s, a, b, le);
    }
  }

  // ------------------------------------------------------------------ permutations

  ghost predicate IsPermutation(p: seq<nat>, n: nat) {
    && |p| == n
    && (forall i | 0 <= i < n :: p[i] < n)
    && (forall i, j | 0 <= i < j < n :: p[i] != p[j])
  }

  /** `q` is `p` with the value `k` taken out and everything above it moved down, or back. */
  function SkipUp(p: seq<nat>, k: nat): seq<nat> {
    seq(|p|, i requires 0 <= i < |p| => if p[i] < k then p[i] else p[i] + 1)
  }

  function RemoveAt<T>(s: seq<T>, k: nat): seq<T>
    requires k < |s|
  {
    s[..k] + s[k + 1..]
  }

  lemma {:induction false} RemoveAtElements<T>(s: seq<T>, k: nat)
    requires k < |s|
    ensures multiset(s) == multiset(RemoveAt(s, k)) + multiset{s[k]}
    ensures multiset(RemoveAt(s, k)) == multiset(s) - multiset{s[k]}
  {
    assert s == s[..k] + [s[k]] + s[k + 1..];
  }

  /** Equal multisets are rearrangements. */
  lemma {:induction false} RearrangementExists<T>(a: seq<T>, b: seq<T>) returns (p: seq<nat>)
    requires multiset(a) == multiset(b)
    ensures |a| == |b| && IsPermutation(p, |a|) && forall i | 0 <= i < |a| :: a[i] == b[p[i]]
  {
    assert |multiset(a)| == |multiset(b)|;
    if a == [] {
      p := [];
    } else {
      assert a[0] in multiset(b);
      var k :| 0 <= k < |b| && b[k] == a[0];
      RemoveAtElements(b, k);
      TailElements(a);
      assert multiset(RemoveAt(b, k)) == multiset(b) - multiset{b[k]};
      var q := RearrangementExists(a[1..], RemoveAt(b, k));
      ExtendRearrangement(a, b, k, q);
      p := [k] + SkipUp(q, k);
    }
  }

  lemma {:induction false} ExtendPermutation(k: nat, q: seq<nat>, n: nat)
    requires k < n && IsPermutation(q, n - 1)
    ensures IsPermutation([k] + SkipUp(q, k), n)
  {
    var up := SkipUp(q, k);
    forall i, j | 0 <= i < j < |up|
      ensures up[i] != up[j]
    {
      assert q[i] != q[j];
    }
  }

  lemma {:induction false} ExtendRearrangement<T>(a: seq<T>, b: seq<T>, k: nat, q: seq<nat>)
    requires 0 < |a| == |b| && k < |b| && a[0] == b[k] && IsPermutation(q, |a| - 1)
    requires forall i | 0 <= i < |a| - 1 :: a[1..][i] == RemoveAt(b, k)[q[i]]
    ensures IsPermutation([k] + SkipUp(q, k), |a|)
    ensures forall i | 0 <= i < |a| :: a[i] == b[([k] + SkipUp(q, k))[i]]
  {
    ExtendPermutation(k, q, |a|);
    forall i | 0 <= i < |a|
      ensures a[i] == b[([k] + SkipUp(q, k))[i]]
    {
      if i > 0 {
        assert a[i] == a[1..][i - 1] == RemoveAt(b, k)[q[i - 1]] == b[SkipUp(q, k)[i - 1]];
      }
    }
  }

  function SkipDown(p: seq<nat>, k: nat): seq<nat>
    requires forall i | 0 <= i < |p| :: p[i] != k
  {
    seq(|p|, i requires 0 <= i < |p| => if p[i] < k then p[i] else p[i] - 1)
  }

  lemma {:induction false} ShrinkPermutation(p: seq<nat>, n: nat)
    requires n > 0 && IsPermutation(p, n)
    ensures IsPermutation(SkipDown(p[1..], p[0]), n - 1)
  {
    var k, rest := p[0], p[1..];
    forall i, j | 0 <= i < j < |rest|
      ensures SkipDown(rest, k)[i] != SkipDown(rest, k)[j]
    {
      assert p[i + 1] != p[j + 1] && p[i + 1] != k && p[j + 1] != k;
    }
  }

  /** Rearrangements have equal multisets. */
  lemma {:induction false} RearrangementKeepsElements<T>(a: seq<T>, b: seq<T>, p: seq<nat>)
    requires |a| == |b| && IsPermutation(p, |a|) && forall i | 0 <= i < |a| :: a[i] == b[p[i]]
    ensures multiset(a) == multiset(b)
  {
    if a != [] {
      var k, rest := p[0], p[1..];
      var q := SkipDown(rest, k);
      ShrinkPermutation(p, |a|);
      forall i | 0 <= i < |q|
        ensures a[1..][i] == RemoveAt(b, k)[q[i]]
      {
        assert rest[i] == p[i + 1];
      }
      RearrangementKeepsElements(a[1..], RemoveAt(b, k), q);
      RemoveAtElements(b, k);
      TailElements(a);
    }
  }
}
