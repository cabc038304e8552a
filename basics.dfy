/** Small generic building blocks shared by the whole model: an optional value,
    first-match lookup (a `SELECT ... fetchone()` or a `next(...)` over a list),
    and order-preserving filtering (a list comprehension with an `if`). */
module Basics {

  datatype Option<T> = None | Some(value: T)

  /** `sub` is obtained from `s` by deleting elements, without reordering. */
  predicate IsSubsequence<T(==)>(sub: seq<T>, s: seq<T>)
    decreases |s|
  {
    if sub == [] then true
    else if s == [] then false
    else if sub[0] == s[0] then IsSubsequence(sub[1..], s[1..])
    else IsSubsequence(sub, s[1..])
  }

  /** The index of the first element of `s` satisfying `p`, if any. */
  function FirstIndex<T>(s: seq<T>, p: T -> bool): (r: Option<nat>)
    ensures r.Some? ==> r.value < |s| && p(s[r.value])
    ensures r.Some? ==> forall j :: 0 <= j < r.value ==> !p(s[j])
    ensures r.None? <==> forall j :: 0 <= j < |s| ==> !p(s[j])
  {
    if s == [] then None
    else if p(s[0]) then Some(0)
    else
      match FirstIndex(s[1..], p)
      case None => None
      case Some(k) => Some(k + 1)
  }

  /** Appending elements does not move the first match of a prefix that already had one. */
  lemma {:induction false} FirstIndexPrefix<T>(a: seq<T>, b: seq<T>, p: T -> bool)
    requires a <= b && FirstIndex(a, p).Some?
    ensures FirstIndex(b, p) == FirstIndex(a, p)
  {
    var k := FirstIndex(a, p).value;
    assert b[k] == a[k];
    assert forall j :: 0 <= j < k ==> b[j] == a[j];
  }

  /** An element appended after elements that all fail the test is the first match. */
  lemma FirstIndexAppendFirst<T>(a: seq<T>, x: T, p: T -> bool)
    requires FirstIndex(a, p).None? && p(x)
    ensures FirstIndex(a + [x], p) == Some(|a|)
  {
    assert forall j :: 0 <= j < |a| ==> (a + [x])[j] == a[j];
    assert (a + [x])[|a|] == x;
  }

  /** Two tests that agree on every element find the same first match. */
  lemma FirstIndexAgree<T>(s: seq<T>, p: T -> bool, q: T -> bool)
    requires forall i :: 0 <= i < |s| ==> p(s[i]) == q(s[i])
    ensures FirstIndex(s, p) == FirstIndex(s, q)
  {
    var a, b := FirstIndex(s, p), FirstIndex(s, q);
    if a.Some? && b.Some? {
      assert !(a.value < b.value) && !(b.value < a.value);
    }
  }

  /** `[x for x in s if p(x)]`. */
  function Filter<T>(s: seq<T>, p: T -> bool): (r: seq<T>)
    ensures |r| <= |s|
  {
    if s == [] then []
    else
      var rest := Filter(s[1..], p);
      if p(s[0]) then [s[0]] + rest else rest
  }

  /** The filtered sequence holds exactly the elements of `s` that satisfy `p`. */
  lemma {:induction false} FilterMembers<T(!new)>(s: seq<T>, p: T -> bool)
    ensures forall x :: x in Filter(s, p) <==> x in s && p(x)
  {
    if s != [] {
      FilterMembers(s[1..], p);
      assert s == [s[0]] + s[1..];
    }
  }

  /** Filtering only deletes elements: the order of what is kept is the input order. */
  lemma {:induction false} FilterIsSubsequence<T(!new)>(s: seq<T>, p: T -> bool)
    ensures IsSubsequence(Filter(s, p), s)
  {
    if s != [] {
      FilterIsSubsequence(s[1..], p);
      FilterMembers(s[1..], p);
      var rest := Filter(s[1..], p);
      if p(s[0]) {
        assert ([s[0]] + rest)[1..] == rest;
      } else if rest != [] {
        assert p(rest[0]) && rest[0] in rest;
      }
    }
  }

  /** Filtering distributes over concatenation. */
  lemma {:induction false} FilterAppend<T(!new)>(a: seq<T>, b: seq<T>, p: T -> bool)
    ensures Filter(a + b, p) == Filter(a, p) + Filter(b, p)
  {
    if a != [] {
      var ab := a + b;
      assert ab[0] == a[0] && ab[1..] == a[1..] + b;
      FilterAppend(a[1..], b, p);
      var head := if p(a[0]) then [a[0]] else [];
      assert Filter(ab, p) == head + Filter(a[1..] + b, p);
      assert Filter(a, p) == head + Filter(a[1..], p);
    } else {
      assert a + b == b;
    }
  }

  /** Filtering a non-empty sequence: its front, then its last element. */
  lemma {:induction false} FilterSnoc<T(!new)>(s: seq<T>, p: T -> bool)
    requires s != []
    ensures Filter(s, p) == Filter(s[..|s| - 1], p) + Filter([s[|s| - 1]], p)
  {
    assert s == s[..|s| - 1] + [s[|s| - 1]];
    FilterAppend(s[..|s| - 1], [s[|s| - 1]], p);
  }

  lemma {:induction false} FilterKeepsAll<T(!new)>(s: seq<T>, p: T -> bool)
    requires forall i :: 0 <= i < |s| ==> p(s[i])
    ensures Filter(s, p) == s
  {
    if s != [] {
      FilterKeepsAll(s[1..], p);
    }
  }

  lemma {:induction false} FilterDropsAll<T(!new)>(s: seq<T>, p: T -> bool)
    requires forall i :: 0 <= i < |s| ==> !p(s[i])
    ensures Filter(s, p) == []
  {
    if s != [] {
      FilterDropsAll(s[1..], p);
    }
  }

  /** Filtering a run of kept elements followed by a run of dropped ones. */
  lemma {:induction false} FilterAround<T(!new)>(s: seq<T>, k: nat, w: nat, p: T -> bool)
    requires k + w <= |s|
    requires forall j :: 0 <= j < k ==> p(s[j])
    requires forall j :: k <= j < k + w ==> !p(s[j])
    ensures Filter(s, p) == s[..k] + Filter(s[k + w..], p)
    decreases k + w
  {
    if k > 0 {
      FilterAround(s[1..], k - 1, w, p);
      assert s[1..][k - 1 + w..] == s[k + w..];
      assert [s[0]] + s[1..][..k - 1] == s[..k];
      assert p(s[0]);
      assert Filter(s, p) == [s[0]] + Filter(s[1..], p);
      assert Filter(s, p) == s[..k] + Filter(s[k + w..], p);
    } else if w > 0 {
      FilterAround(s[1..], 0, w - 1, p);
      assert s[1..][w - 1..] == s[w..];
      assert !p(s[0]);
      assert Filter(s, p) == Filter(s[1..], p);
      assert Filter(s, p) == s[..k] + Filter(s[k + w..], p);
    } else {
      assert s[0..] == s;
      assert s[..0] == [];
    }
  }

  /** The keys of a Python dict filled from `xs` in order: each value at its first occurrence. */
  function Distinct<T(==)>(xs: seq<T>): seq<T> {
    if xs == [] then []
    else
      var d := Distinct(xs[..|xs| - 1]);
      if xs[|xs| - 1] in d then d else d + [xs[|xs| - 1]]
  }

  lemma {:induction false} DistinctElems<T(!new)>(xs: seq<T>)
    ensures forall x :: x in Distinct(xs) <==> x in xs
  {
    if xs != [] {
      DistinctElems(xs[..|xs| - 1]);
      assert xs == xs[..|xs| - 1] + [xs[|xs| - 1]];
    }
  }

  lemma {:induction false} DistinctNoDup<T>(xs: seq<T>)
    ensures forall i, j :: 0 <= i < j < |Distinct(xs)| ==> Distinct(xs)[i] != Distinct(xs)[j]
  {
    if xs != [] {
      DistinctNoDup(xs[..|xs| - 1]);
    }
  }

  /** Keys inserted first stay first: the dict built from `a + b` lists `a`'s keys before any
      key that only `b` brought. */
  lemma {:induction false} DistinctPrefix<T>(a: seq<T>, b: seq<T>)
    ensures |Distinct(a)| <= |Distinct(a + b)| && Distinct(a + b)[..|Distinct(a)|] == Distinct(a)
    decreases |b|
  {
    if b == [] {
      assert a + b == a;
    } else {
      var b' := b[..|b| - 1];
      DistinctPrefix(a, b');
      assert (a + b)[..|a + b| - 1] == a + b';
    }
  }

  lemma DistinctSnoc<T>(xs: seq<T>, x: T)
    ensures Distinct(xs + [x]) == if x in Distinct(xs) then Distinct(xs) else Distinct(xs) + [x]
  {
    assert (xs + [x])[..|xs|] == xs;
  }

  /** A prefix `r` of a suffix `l` of `s` is a slice of `s`. */
  lemma SuffixPrefixSlice<T>(s: seq<T>, l: seq<T>, r: seq<T>)
    requires |l| <= |s| && l == s[|s| - |l|..] && |r| <= |l| && r == l[..|r|]
    ensures r == s[|s| - |l|..|s| - |l| + |r|]
  {
  }

  /** `[f(x) for x in s]`. */
  function MapSeq<A, B>(s: seq<A>, f: A -> B): (r: seq<B>)
    ensures |r| == |s| && forall i :: 0 <= i < |s| ==> r[i] == f(s[i])
  {
    seq(|s|, i requires 0 <= i < |s| => f(s[i]))
  }

  lemma MapSeqAppend<A, B>(a: seq<A>, b: seq<A>, f: A -> B)
    ensures MapSeq(a + b, f) == MapSeq(a, f) + MapSeq(b, f)
  {
  }
}
