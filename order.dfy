// Orders on sequences: first-seen de-duplication (pandas `unique()`,
// `drop_duplicates()`, insertion order of a Python dict or a JavaScript Set)
// and the lexicographic order of strings used by Python's `sorted` and
// JavaScript's default `Array.prototype.sort`.
module Order {
  import opened Wrappers

  /** The first position whose element satisfies `p` (a loop with `break`). */
  function FirstWhere<T>(xs: seq<T>, p: T -> bool): (r: Option<nat>)
    ensures r.Some? ==> r.value < |xs| && p(xs[r.value])
    ensures r.Some? ==> forall k :: 0 <= k < r.value ==> !p(xs[k])
    ensures r.None? ==> forall k :: 0 <= k < |xs| ==> !p(xs[k])
  {
    if xs == [] then None
    else if p(xs[0]) then Some(0)
    else match FirstWhere(xs[1..], p)
      case None => None
      case Some(k) => Some(k + 1)
  }

  /** Some of the first `i` elements satisfies `p` (a flag set in a loop). */
  ghost predicate AnyUpTo<T>(xs: seq<T>, i: nat, p: T -> bool)
    requires i <= |xs|
  {
    i > 0 && (AnyUpTo(xs, i - 1, p) || p(xs[i - 1]))
  }

  /** All of the first `i` elements satisfy `p`. */
  ghost predicate AllUpTo<T>(xs: seq<T>, i: nat, p: T -> bool)
    requires i <= |xs|
  {
    i == 0 || (AllUpTo(xs, i - 1, p) && p(xs[i - 1]))
  }

  lemma {:induction false} AnyUpToExists<T>(xs: seq<T>, i: nat, p: T -> bool)
    requires i <= |xs|
    ensures AnyUpTo(xs, i, p) <==> exists k :: 0 <= k < i && p(xs[k])
  {
    if i > 0 {
      AnyUpToExists(xs, i - 1, p);
      if p(xs[i - 1]) {
        assert 0 <= i - 1 < i && p(xs[i - 1]);
      }
    }
  }

  lemma {:induction false} AllUpToForall<T>(xs: seq<T>, i: nat, p: T -> bool)
    requires i <= |xs|
    ensures AllUpTo(xs, i, p) <==> forall k :: 0 <= k < i ==> p(xs[k])
  {
    if i > 0 {
      AllUpToForall(xs, i - 1, p);
    }
  }

  /** The elements that satisfy `p`, in order (a list comprehension with `if`). */
  function Keep<T>(xs: seq<T>, p: T -> bool): (r: seq<T>)
    ensures |r| <= |xs|
    ensures forall k :: 0 <= k < |r| ==> p(r[k])
  {
    if xs == [] then [] else (if p(xs[0]) then [xs[0]] else []) + Keep(xs[1..], p)
  }

  /** The results of `f` on each element, concatenated in order (a loop that
      `extend`s a list, or `flatMap`). */
  function FlatMap<T, U>(f: T -> seq<U>, xs: seq<T>): seq<U>
  {
    if xs == [] then [] else FlatMap(f, xs[..|xs| - 1]) + f(xs[|xs| - 1])
  }

  /** Flat-mapping a concatenation concatenates the results. */
  lemma {:induction false} FlatMapAppend<T, U>(f: T -> seq<U>, a: seq<T>, b: seq<T>)
    ensures FlatMap(f, a + b) == FlatMap(f, a) + FlatMap(f, b)
    decreases |b|
  {
    if b == [] {
      assert a + b == a;
    } else {
      var n := |b| - 1;
      assert (a + b)[..|a + b| - 1] == a + b[..n];
      FlatMapAppend(f, a, b[..n]);
    }
  }

  /** One more element of a prefix. */
  lemma PrefixSnoc<T>(s: seq<T>, i: nat)
    requires i < |s|
    ensures s[..i + 1] == s[..i] + [s[i]] && s[..i + 1][..i] == s[..i]
  {
  }

  /** The results of `f` on `lo`, `lo + 1`, ..., `hi - 1`, concatenated (a
      counting loop that `push`es what each step gives). */
  function Joined<T>(f: nat -> seq<T>, lo: nat, hi: nat): seq<T>
    decreases hi - lo
  {
    if hi <= lo then [] else f(lo) + Joined(f, lo + 1, hi)
  }

  /** One more step appends its results. */
  lemma {:induction false} JoinedSnoc<T>(f: nat -> seq<T>, lo: nat, hi: nat)
    requires lo <= hi
    ensures Joined(f, lo, hi + 1) == Joined(f, lo, hi) + f(hi)
    decreases hi - lo
  {
    if lo < hi {
      JoinedSnoc(f, lo + 1, hi);
      assert f(lo) + (Joined(f, lo + 1, hi) + f(hi)) == (f(lo) + Joined(f, lo + 1, hi)) + f(hi);
    } else {
      assert Joined(f, lo, hi + 1) == f(lo) + [];
    }
  }

  lemma {:induction false} KeepMembers<T>(xs: seq<T>, p: T -> bool)
    ensures forall x :: x in Keep(xs, p) <==> x in xs && p(x)
    decreases |xs|
  {
    if xs != [] {
      KeepMembers(xs[1..], p);
      assert xs == [xs[0]] + xs[1..];
    }
  }

  lemma {:induction false} KeepAll<T>(xs: seq<T>, p: T -> bool)
    requires forall k :: 0 <= k < |xs| ==> p(xs[k])
    ensures Keep(xs, p) == xs
    decreases |xs|
  {
    if xs != [] {
      KeepAll(xs[1..], p);
    }
  }

  /** Leaving out one element makes the kept sequence shorter. */
  lemma {:induction false} KeepShorter<T>(xs: seq<T>, p: T -> bool, k: nat)
    requires k < |xs| && !p(xs[k])
    ensures |Keep(xs, p)| < |xs|
    decreases |xs|
  {
    if k > 0 {
      KeepShorter(xs[1..], p, k - 1);
    }
  }

  /** Keeping some elements of a sequence without repeats gives one without repeats. */
  lemma {:induction false} KeepNoDup<T>(xs: seq<T>, p: T -> bool)
    requires NoDup(xs)
    ensures NoDup(Keep(xs, p))
    decreases |xs|
  {
    if xs != [] {
      KeepNoDup(xs[1..], p);
      KeepMembers(xs[1..], p);
      assert xs[0] !in xs[1..];
    }
  }

  /** Two tests that agree on every element keep the same elements. */
  lemma {:induction false} KeepAgree<T>(xs: seq<T>, p: T -> bool, q: T -> bool)
    requires forall k :: 0 <= k < |xs| ==> p(xs[k]) == q(xs[k])
    ensures Keep(xs, p) == Keep(xs, q)
    decreases |xs|
  {
    if xs != [] {
      KeepAgree(xs[1..], p, q);
    }
  }

  predicate NoDup<T(==)>(s: seq<T>)
  {
    forall i, j :: 0 <= i < j < |s| ==> s[i] != s[j]
  }

  /** `xs.filter((y) => y !== x)`: every occurrence of `x` removed, the rest in
      order. */
  function Without<T(==,!new)>(xs: seq<T>, x: T): (r: seq<T>)
    ensures forall y :: y in r <==> y in xs && y != x
    ensures |r| <= |xs|
    ensures NoDup(xs) ==> NoDup(r)
  {
    if xs == [] then []
    else
      var rest := Without(xs[1..], x);
      assert NoDup(xs) ==> xs[0] !in xs[1..];
      (if xs[0] == x then [] else [xs[0]]) + rest
  }

  function Elements<T>(xs: seq<T>): set<T> { set x | x in xs }

  lemma {:induction false} NoDupCard<T>(xs: seq<T>)
    requires NoDup(xs)
    ensures |Elements(xs)| == |xs|
  {
    if xs != [] {
      NoDupCard(xs[1..]);
      assert Elements(xs) == {xs[0]} + Elements(xs[1..]);
      assert xs[0] !in Elements(xs[1..]);
    }
  }

  /** Of two sequences without repeats, the one whose elements all occur in
      the other is no longer, and as long only when both hold the same
      elements. */
  lemma NoDupWithin<T>(a: seq<T>, b: seq<T>)
    requires NoDup(a) && NoDup(b)
    requires forall x :: x in a ==> x in b
    ensures |a| <= |b|
    ensures |a| == |b| ==> forall x :: x in b ==> x in a
  {
    NoDupCard(a);
    NoDupCard(b);
    var A, B := Elements(a), Elements(b);
    assert A <= B;
    assert B == (B - A) + A;
    assert |B| == |B - A| + |A|;
    if |a| == |b| {
      assert B - A == {};
      forall x | x in b ensures x in a {
        assert x in B;
      }
    }
  }

  /** The position of the first occurrence of `x`. */
  function IndexOf<T(==)>(s: seq<T>, x: T): (r: nat)
    requires x in s
    ensures r < |s| && s[r] == x
    ensures forall j :: 0 <= j < r ==> s[j] != x
  {
    if s[0] == x then 0 else 1 + IndexOf(s[1..], x)
  }

  /** The elements of `xs` in order of first appearance, each once. */
  function Distinct<T(==,!new)>(xs: seq<T>): (r: seq<T>)
    ensures forall x :: x in r <==> x in xs
    ensures NoDup(r)
    ensures |r| <= |xs|
  {
    if xs == [] then []
    else
      var d := Distinct(xs[..|xs| - 1]);
      if xs[|xs| - 1] in d then d else d + [xs[|xs| - 1]]
  }

  /** In a sequence without repeats, positions identify elements. */
  lemma IndexOfNoDup<T>(s: seq<T>, x: T, y: T)
    requires NoDup(s) && x in s && y in s
    ensures IndexOf(s, x) == IndexOf(s, y) <==> x == y
  {
  }

  /** The de-duplicated prefix is a prefix of the de-duplicated whole. */
  lemma {:induction false} DistinctPrefix<T(!new)>(xs: seq<T>, n: nat)
    requires n <= |xs|
    ensures Distinct(xs[..n]) <= Distinct(xs)
    decreases |xs| - n
  {
    if n < |xs| {
      DistinctPrefix(xs, n + 1);
      assert xs[..n + 1][..n] == xs[..n];
    } else {
      assert xs[..n] == xs;
    }
  }

  /** Elements are numbered in the order in which they first appear: an element
      whose first occurrence comes earlier has the smaller position. */
  lemma DistinctFirstSeenOrder<T(!new)>(xs: seq<T>, i: nat, j: nat)
    requires i < j < |xs|
    requires forall k :: 0 <= k < j ==> xs[k] != xs[j]
    ensures IndexOf(Distinct(xs), xs[i]) < IndexOf(Distinct(xs), xs[j])
  {
    var d := Distinct(xs);
    var pre := Distinct(xs[..j]);
    DistinctPrefix(xs, j);
    assert xs[i] == xs[..j][i];
    assert xs[i] in pre;
    assert xs[j] !in xs[..j];
    assert xs[j] !in pre;
    var a := IndexOf(pre, xs[i]);
    assert d[a] == xs[i];
    assert forall k :: 0 <= k < |pre| ==> d[k] == pre[k];
  }

  /** The number of the i-th element: where it stands among the distinct
      elements in order of first appearance, counted from 1. */
  function Rank<T(==,!new)>(xs: seq<T>, i: nat): (r: nat)
    requires i < |xs|
    ensures 1 <= r <= |Distinct(xs)|
  {
    assert xs[i] in Distinct(xs);
    IndexOf(Distinct(xs), xs[i]) + 1
  }

  /** An element seen for the first time gets the next number. */
  lemma RankStep<T(!new)>(xs: seq<T>, i: nat)
    requires i < |xs| && xs[i] !in xs[..i]
    ensures IndexOf(Distinct(xs), xs[i]) == |Distinct(xs[..i])|
  {
    assert xs[..i + 1][..i] == xs[..i];
    assert Distinct(xs[..i + 1]) == Distinct(xs[..i]) + [xs[i]];
    DistinctPrefix(xs, i + 1);
    var d := Distinct(xs);
    assert d[|Distinct(xs[..i])|] == xs[i];
  }

  /** Numbers are shared exactly by equal elements, the first element gets 1,
      and an element seen for the first time gets a greater number than every
      earlier one. */
  lemma Ranks<T(!new)>(xs: seq<T>)
    ensures forall i, j :: 0 <= i < |xs| && 0 <= j < |xs| ==> (Rank(xs, i) == Rank(xs, j) <==> xs[i] == xs[j])
    ensures |xs| > 0 ==> Rank(xs, 0) == 1
    ensures forall i, j :: 0 <= i < j < |xs| && xs[j] !in xs[..j] ==> Rank(xs, i) < Rank(xs, j)
  {
    forall i, j | 0 <= i < |xs| && 0 <= j < |xs|
      ensures Rank(xs, i) == Rank(xs, j) <==> xs[i] == xs[j]
    {
      IndexOfNoDup(Distinct(xs), xs[i], xs[j]);
    }
    if |xs| > 0 {
      RankStep(xs, 0);
    }
    forall i, j | 0 <= i < j < |xs| && xs[j] !in xs[..j]
      ensures Rank(xs, i) < Rank(xs, j)
    {
      assert forall k :: 0 <= k < j ==> xs[k] == xs[..j][k];
      DistinctFirstSeenOrder(xs, i, j);
    }
  }

  // ---------------------------------------------------------------------
  // Lexicographic order on strings (code-point by code-point)

  predicate Less(a: string, b: string)
  {
    |b| > 0 && (|a| == 0 || a[0] < b[0] || (a[0] == b[0] && Less(a[1..], b[1..])))
  }

  lemma {:induction false} LessIrreflexive(a: string)
    ensures !Less(a, a)
  {
    if |a| > 0 {
      LessIrreflexive(a[1..]);
    }
  }

  lemma {:induction false} LessTransitive(a: string, b: string, c: string)
    requires Less(a, b) && Less(b, c)
    ensures Less(a, c)
  {
    if |a| > 0 && a[0] == b[0] && b[0] == c[0] {
      LessTransitive(a[1..], b[1..], c[1..]);
    }
  }

  lemma {:induction false} LessTotal(a: string, b: string)
    requires a != b
    ensures Less(a, b) || Less(b, a)
  {
    if |a| > 0 && |b| > 0 && a[0] == b[0] {
      assert a == [a[0]] + a[1..] && b == [b[0]] + b[1..];
      LessTotal(a[1..], b[1..]);
    }
  }

  lemma {:induction false} LessAsymmetric(a: string, b: string)
    requires Less(a, b)
    ensures !Less(b, a)
  {
    if Less(b, a) {
      LessTransitive(a, b, a);
      LessIrreflexive(a);
    }
  }

  predicate StrictlySorted(s: seq<string>)
  {
    forall i, j :: 0 <= i < j < |s| ==> Less(s[i], s[j])
  }

  /** Insertion into a strictly sorted sequence; an element already there is not repeated. */
  function Insert(x: string, s: seq<string>): (r: seq<string>)
    requires StrictlySorted(s)
    ensures StrictlySorted(r)
    ensures forall y :: y in r <==> y == x || y in s
  {
    if s == [] then [x]
    else if x == s[0] then s
    else if Less(x, s[0]) then
      assert forall j :: 0 < j < |s| ==> Less(x, s[j]) by {
        forall j | 0 < j < |s| ensures Less(x, s[j]) { LessTransitive(x, s[0], s[j]); }
      }
      [x] + s
    else
      LessTotal(x, s[0]);
      var t := Insert(x, s[1..]);
      assert forall y :: y in t ==> Less(s[0], y);
      [s[0]] + t
  }

  /** `sorted(set(xs))` / `Array.from(new Set(xs)).sort()`: the distinct elements in
      increasing order. */
  function SortedDistinct(xs: seq<string>): (r: seq<string>)
    ensures StrictlySorted(r)
    ensures forall y :: y in r <==> y in xs
  {
    if xs == [] then [] else Insert(xs[|xs| - 1], SortedDistinct(xs[..|xs| - 1]))
  }

  lemma StrictlySortedNoDup(s: seq<string>)
    requires StrictlySorted(s)
    ensures NoDup(s)
  {
    forall i, j | 0 <= i < j < |s|
      ensures s[i] != s[j]
    {
      if s[i] == s[j] {
        LessIrreflexive(s[i]);
      }
    }
  }

  /** Positions in a sorted sequence follow the order of the elements. */
  lemma SortedPositions(s: seq<string>, x: string, y: string)
    requires StrictlySorted(s) && x in s && y in s
    ensures Less(x, y) <==> IndexOf(s, x) < IndexOf(s, y)
  {
    var i, j := IndexOf(s, x), IndexOf(s, y);
    if i < j {
      assert Less(x, y);
    } else if j < i {
      assert Less(y, x);
      LessAsymmetric(y, x);
    } else {
      LessIrreflexive(x);
    }
  }

  // ---------------------------------------------------------------------
  // Editing a list by position

  /** Replacing the element at a position (`list[i] = x` on a copy). */
  function UpdateAt<T>(xs: seq<T>, i: nat, x: T): (r: seq<T>)
    requires i < |xs|
    ensures |r| == |xs| && r[i] == x && forall k :: 0 <= k < |xs| && k != i ==> r[k] == xs[k]
  {
    xs[i := x]
  }

  /** `filter((_, k) => k !== i)`: an index out of range removes nothing. */
  function RemoveAt<T>(xs: seq<T>, i: nat): (r: seq<T>)
    ensures i < |xs| ==> |r| == |xs| - 1 && forall k :: 0 <= k < |r| ==> r[k] == (if k < i then xs[k] else xs[k + 1])
    ensures i >= |xs| ==> r == xs
  {
    if i < |xs| then xs[..i] + xs[i + 1..] else xs
  }
}
