/** Option, and the iterator queries the daemon uses on vectors. */
module Wrappers {

  datatype Option<+T> = None | Some(value: T)

  /** The first element satisfying `p`, as `iter().find(p)`. */
  function Find<T>(s: seq<T>, p: T -> bool): (r: Option<T>)
    ensures r.None? <==> forall x | x in s :: !p(x)
    ensures r.Some? ==> r.value in s && p(r.value)
  {
    if s == [] then None
    else if p(s[0]) then Some(s[0])
    else Find(s[1..], p)
  }

  /** The index of the first element satisfying `p`, as `iter().position(p)`. */
  function Position<T>(s: seq<T>, p: T -> bool): (r: Option<nat>)
    ensures r.None? <==> forall i | 0 <= i < |s| :: !p(s[i])
    ensures r.Some? ==> r.value < |s| && p(s[r.value]) && forall j | 0 <= j < r.value :: !p(s[j])
  {
    if s == [] then None
    else if p(s[0]) then Some(0)
    else
      match Position(s[1..], p)
      case None => None
      case Some(i) => Some(i + 1)
  }

  /** The elements satisfying `p`, in order, as `iter().filter(p).collect()` and `retain`. */
  function Filter<T(!new)>(s: seq<T>, p: T -> bool): (r: seq<T>)
    ensures forall x :: x in r <==> x in s && p(x)
    ensures |r| <= |s|
  {
    if s == [] then []
    else (if p(s[0]) then [s[0]] else []) + Filter(s[1..], p)
  }

  function Elements<T(!new)>(s: seq<T>): set<T> {
    set x | x in s
  }

  lemma ElementsLast<T(!new)>(s: seq<T>)
    requires s != []
    ensures Elements(s) == Elements(s[..|s| - 1]) + {s[|s| - 1]}
  {
    assert s == s[..|s| - 1] + [s[|s| - 1]];
  }

  ghost predicate NoDup<T(!new)>(s: seq<T>) {
    forall i, j | 0 <= i < j < |s| :: s[i] != s[j]
  }

  /** `Find` is decided by the first satisfying position, whatever follows it. */
  lemma {:induction false} FindIsFirst<T>(s: seq<T>, p: T -> bool, i: nat)
    requires i < |s| && p(s[i])
    requires forall j | 0 <= j < i :: !p(s[j])
    ensures Find(s, p) == Some(s[i])
  {
    if i > 0 {
      assert !p(s[0]);
      FindIsFirst(s[1..], p, i - 1);
    }
  }

  /** What `Find` returns is the first satisfying element. */
  lemma {:induction false} FoundBeforeOthers<T>(s: seq<T>, p: T -> bool) returns (i: nat)
    requires Find(s, p).Some?
    ensures i < |s| && s[i] == Find(s, p).value && forall j | 0 <= j < i :: !p(s[j])
  {
    if p(s[0]) {
      i := 0;
    } else {
      var k := FoundBeforeOthers(s[1..], p);
      i := k + 1;
    }
  }

  /** Finding in a filtered list is finding among the kept elements of the whole list. */
  lemma {:induction false} FindInFilter<T(!new)>(s: seq<T>, q: T -> bool, p: T -> bool)
    ensures Find(Filter(s, q), p) == Find(s, (x: T) => q(x) && p(x))
  {
    if s != [] {
      FindInFilter(s[1..], q, p);
      var rest := Filter(s[1..], q);
      if q(s[0]) {
        assert ([s[0]] + rest)[1..] == rest;
      } else {
        assert Filter(s, q) == rest;
      }
    }
  }

  lemma FirstInFilter<T(!new)>(s: seq<T>, q: T -> bool, p: T -> bool, k: nat) returns (i: nat)
    requires k < |Filter(s, q)| && p(Filter(s, q)[k]) && forall j | 0 <= j < k :: !p(Filter(s, q)[j])
    ensures i < |s| && q(s[i]) && s[i] == Filter(s, q)[k]
    ensures forall j | 0 <= j < i :: !(q(s[j]) && p(s[j]))
  {
    var both := (x: T) => q(x) && p(x);
    FindIsFirst(Filter(s, q), p, k);
    FindInFilter(s, q, p);
    i := FoundBeforeOthers(s, both);
    assert forall j | 0 <= j < i :: !both(s[j]);
  }

  /** A filter of a concatenation splits at the seam. */
  lemma {:induction false} FilterAppend<T(!new)>(s: seq<T>, t: seq<T>, p: T -> bool)
    ensures Filter(s + t, p) == Filter(s, p) + Filter(t, p)
  {
    if s == [] {
      assert s + t == t;
    } else {
      assert (s + t)[1..] == s[1..] + t;
      FilterAppend(s[1..], t, p);
    }
  }

  lemma AppendAssociates<T>(a: seq<T>, b: seq<T>, c: seq<T>)
    ensures a + b + c == a + (b + c)
  {
  }
}
