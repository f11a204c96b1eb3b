/** Sequences and finite sets: the few facts every other module needs. */
module Lists {

  datatype Option<+T> = None | Some(value: T)

  /** The elements of `s` that satisfy `p`, in order: `grep`, or a Python filter. */
  function Keep<T>(s: seq<T>, p: T -> bool): (r: seq<T>)
    ensures forall x :: x in r ==> x in s && p(x)
    ensures forall x :: x in s && p(x) ==> x in r
    ensures |r| <= |s|
  {
    if s == [] then []
    else
      var r := Keep(s[..|s| - 1], p);
      assert s == s[..|s| - 1] + [s[|s| - 1]];
      if p(s[|s| - 1]) then r + [s[|s| - 1]] else r
  }

  lemma KeepStep<T>(s: seq<T>, i: nat, p: T -> bool)
    requires i < |s|
    ensures Keep(s[..i + 1], p) == Keep(s[..i], p) + (if p(s[i]) then [s[i]] else [])
  {
    assert s[..i + 1][..i] == s[..i];
  }

  /** Two complementary filters split a sequence, counting repetitions. */
  lemma {:induction false} KeepSplits<T>(s: seq<T>, p: T -> bool, q: T -> bool)
    requires forall x :: x in s ==> (q(x) <==> !p(x))
    ensures multiset(Keep(s, p)) + multiset(Keep(s, q)) == multiset(s)
    ensures |Keep(s, p)| + |Keep(s, q)| == |s|
  {
    if s != [] {
      var t, x := s[..|s| - 1], s[|s| - 1];
      assert s == t + [x];
      assert Keep(s, p) == Keep(t, p) + if p(x) then [x] else [];
      assert Keep(s, q) == Keep(t, q) + if p(x) then [] else [x];
      KeepSplits(t, p, q);
      hide Keep;
    }
  }

  /** A filter keeps each of its elements as often as it occurs. */
  lemma {:induction false} KeepCount<T>(s: seq<T>, p: T -> bool, x: T)
    ensures multiset(Keep(s, p))[x] == if p(x) then multiset(s)[x] else 0
  {
    if s != [] {
      KeepCount(s[..|s| - 1], p, x);
      assert s == s[..|s| - 1] + [s[|s| - 1]];
    }
  }

  /** The image of `s` under `f`, in order: `cut -f`, or a comprehension. */
  function Map<T, U>(s: seq<T>, f: T -> U): (r: seq<U>)
    ensures |r| == |s|
    ensures forall i :: 0 <= i < |s| ==> r[i] == f(s[i])
  {
    seq(|s|, i requires 0 <= i < |s| => f(s[i]))
  }

  ghost predicate NoDup<T>(s: seq<T>) {
    forall i, j :: 0 <= i < j < |s| ==> s[i] != s[j]
  }

  /** The last element of `s` that satisfies `p`: what a loop that overwrites leaves. */
  function LastWhere<T>(s: seq<T>, p: T -> bool): (r: Option<T>)
    ensures r.None? <==> forall x :: x in s ==> !p(x)
    ensures r.Some? ==> r.value in s && p(r.value)
  {
    if s == [] then None
    else
      assert s == s[..|s| - 1] + [s[|s| - 1]];
      if p(s[|s| - 1]) then Some(s[|s| - 1]) else LastWhere(s[..|s| - 1], p)
  }

  ghost function Range<T>(s: seq<T>): set<T> { set x | x in s }

  lemma {:induction false} RangeSize<T>(s: seq<T>)
    ensures |Range(s)| <= |s|
    ensures NoDup(s) ==> |Range(s)| == |s|
  {
    if s != [] {
      var t, x := s[..|s| - 1], s[|s| - 1];
      RangeSize(t);
      assert s == t + [x];
      assert Range(s) == Range(t) + {x};
    } else {
      assert Range(s) == {};
    }
  }

  lemma SubsetSize<T>(a: set<T>, b: set<T>)
    requires a <= b
    ensures |a| <= |b|
    ensures |a| == |b| ==> a == b
  {
    assert b == a + (b - a);
  }

  /** More places than values: some value is taken twice. */
  lemma Pigeonhole<T>(s: seq<T>, values: set<T>) returns (i: nat, j: nat)
    requires forall x :: x in s ==> x in values
    requires |s| > |values|
    ensures i < j < |s| && s[i] == s[j]
  {
    RangeSize(s);
    SubsetSize(Range(s), values);
    i, j :| 0 <= i < j < |s| && s[i] == s[j];
  }

  ghost predicate Injective<K, V>(m: map<K, V>) {
    forall a, b :: a in m && b in m && m[a] == m[b] ==> a == b
  }
}
