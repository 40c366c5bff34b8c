/** Generic list operations that the UI code performs with JavaScript's
    Array.prototype.filter / find / indexOf / sort and with `[...new Set(xs)]`. */
module Seqs {

  datatype Option<+T> = None | Some(value: T)

  /** `r` occurs in `s` in the same relative order (not necessarily contiguously). */
  predicate Subsequence<T(==)>(r: seq<T>, s: seq<T>)
    decreases |s|
  {
    if r == [] then true
    else if s == [] then false
    else (r[0] == s[0] && Subsequence(r[1..], s[1..])) || Subsequence(r, s[1..])
  }

  predicate NoDuplicates<T(==)>(s: seq<T>)
  {
    forall i, j :: 0 <= i < j < |s| ==> s[i] != s[j]
  }

  /** `Array.prototype.filter`: keeps exactly the elements satisfying `p`,
      with their multiplicities, in their original order. */
  function Filter<T(==,!new)>(s: seq<T>, p: T -> bool): (r: seq<T>)
    ensures forall x :: multiset(r)[x] == if p(x) then multiset(s)[x] else 0
    ensures forall x :: x in r <==> x in s && p(x)
  {
    if s == [] then []
    else
      assert s == [s[0]] + s[1..];
      if p(s[0]) then [s[0]] + Filter(s[1..], p) else Filter(s[1..], p)
  }

  /** The kept elements stay in their original relative order. */
  lemma {:induction false} FilterIsSubsequence<T(!new)>(s: seq<T>, p: T -> bool)
    ensures Subsequence(Filter(s, p), s)
  {
    if s != [] {
      FilterIsSubsequence(s[1..], p);
    }
  }

  /** Filtering a list with a given first element. */
  lemma FilterCons<T(!new)>(x: T, s: seq<T>, p: T -> bool)
    ensures Filter([x] + s, p) == (if p(x) then [x] else []) + Filter(s, p)
  {
    assert ([x] + s)[0] == x && ([x] + s)[1..] == s;
  }

  /** `Array.prototype.map`. */
  function Map<T, U(!new)>(s: seq<T>, f: T -> U): (r: seq<U>)
    ensures |r| == |s| && forall i :: 0 <= i < |s| ==> r[i] == f(s[i])
  {
    if s == [] then [] else [f(s[0])] + Map(s[1..], f)
  }

  /** An element of a mapped list is the image of an element of the list. */
  lemma MapMembership<T, U(!new)>(s: seq<T>, f: T -> U, y: U)
    ensures y in Map(s, f) <==> exists x :: x in s && f(x) == y
  {
    var r := Map(s, f);
    if y in r {
      var i :| 0 <= i < |r| && r[i] == y;
      assert s[i] in s;
    }
    if exists x :: x in s && f(x) == y {
      var x :| x in s && f(x) == y;
      var i :| 0 <= i < |s| && s[i] == x;
      assert r[i] == y;
    }
  }

  lemma {:induction false} MapAppend<T, U(!new)>(a: seq<T>, b: seq<T>, f: T -> U)
    ensures Map(a + b, f) == Map(a, f) + Map(b, f)
  {
    var r := Map(a + b, f);
    assert |r| == |Map(a, f) + Map(b, f)|;
    forall i | 0 <= i < |r| ensures r[i] == (Map(a, f) + Map(b, f))[i] {
      if i < |a| {
        assert (a + b)[i] == a[i];
      } else {
        assert (a + b)[i] == b[i - |a|];
      }
    }
  }

  /** `Array.prototype.indexOf`: the first index holding `x`, or -1. */
  function IndexOf<T(==)>(s: seq<T>, x: T): (i: int)
    ensures -1 <= i < |s|
    ensures i == -1 <==> x !in s
    ensures 0 <= i ==> s[i] == x && forall k :: 0 <= k < i ==> s[k] != x
  {
    if s == [] then -1
    else if s[0] == x then 0
    else
      var k := IndexOf(s[1..], x);
      if k == -1 then -1 else k + 1
  }

  /** Appending never moves the first occurrence of an element already present. */
  lemma IndexOfAppend<T>(a: seq<T>, b: seq<T>, x: T)
    requires x in a
    ensures IndexOf(a + b, x) == IndexOf(a, x)
  {
    var i := IndexOf(a, x);
    assert (a + b)[i] == x;
    assert (a + b)[..i] == a[..i];
  }

  /** An element first appearing after `a` is first found right after `a`. */
  lemma IndexOfAppendNew<T>(a: seq<T>, x: T)
    requires x !in a
    ensures IndexOf(a + [x], x) == |a|
  {
    assert (a + [x])[..|a|] == a;
  }

  /** First-seen de-duplication, the order in which `[...new Set(xs)]` lists
      the elements of `xs`: the last element is appended unless already seen. */
  function Distinct<T(==,!new)>(s: seq<T>): (r: seq<T>)
    ensures forall x :: x in r <==> x in s
    ensures NoDuplicates(r)
  {
    if s == [] then []
    else
      var d := Distinct(s[..|s| - 1]);
      if s[|s| - 1] in d then d else d + [s[|s| - 1]]
  }

  /** One step of `Distinct`: a new last element is appended, a repeated
      one dropped. */
  lemma DistinctSnoc<T(!new)>(init: seq<T>, x: T)
    ensures Distinct(init + [x]) == if x in Distinct(init) then Distinct(init) else Distinct(init) + [x]
  {
    assert (init + [x])[..|init|] == init;
  }

  /** `Distinct` lists elements in the order of their first occurrence in `s`. */
  lemma {:induction false} DistinctFirstSeen<T(!new)>(s: seq<T>)
    ensures forall i, j :: 0 <= i < j < |Distinct(s)| ==>
      IndexOf(s, Distinct(s)[i]) < IndexOf(s, Distinct(s)[j])
  {
    if s != [] {
      var init, last := s[..|s| - 1], s[|s| - 1];
      assert s == init + [last];
      DistinctFirstSeen(init);
      var d := Distinct(init);
      forall x | x in d ensures IndexOf(s, x) == IndexOf(init, x) {
        IndexOfAppend(init, [last], x);
      }
      if last !in d {
        IndexOfAppendNew(init, last);
      }
    }
  }

  /** De-duplicating a list sorted by `le` keeps it sorted (first-seen
      de-duplication only drops elements). */
  lemma DistinctKeepsSorted<T(!new)>(s: seq<T>, le: (T, T) -> bool)
    requires SortedBy(s, le)
    ensures SortedBy(Distinct(s), le)
  {
    DistinctFirstSeen(s);
    var d := Distinct(s);
    forall i, j | 0 <= i < j < |d| ensures le(d[i], d[j]) {
      var a, b := IndexOf(s, d[i]), IndexOf(s, d[j]);
      assert s[a] == d[i] && s[b] == d[j];
    }
  }

  /** `Array.prototype.find` on a predicate, as an index: the first index
      whose element satisfies `p`, or -1. */
  function FindIndex<T>(s: seq<T>, p: T -> bool): (i: int)
    ensures -1 <= i < |s|
    ensures i == -1 <==> forall k :: 0 <= k < |s| ==> !p(s[k])
    ensures 0 <= i ==> p(s[i]) && forall k :: 0 <= k < i ==> !p(s[k])
  {
    if s == [] then -1
    else if p(s[0]) then 0
    else
      var k := FindIndex(s[1..], p);
      if k == -1 then -1 else k + 1
  }

  /** `Array.prototype.find`: the first element satisfying `p`, if any. */
  function Find<T>(s: seq<T>, p: T -> bool): (r: Option<T>)
    ensures r.None? <==> forall k :: 0 <= k < |s| ==> !p(s[k])
    ensures r.Some? ==> exists i :: 0 <= i < |s| && s[i] == r.value && p(s[i]) &&
                                      forall k :: 0 <= k < i ==> !p(s[k])
  {
    var i := FindIndex(s, p);
    if i == -1 then None else Some(s[i])
  }

  /** Finding in a list with a given first element. */
  lemma FindCons<T>(x: T, s: seq<T>, p: T -> bool)
    ensures Find([x] + s, p) == if p(x) then Some(x) else Find(s, p)
  {
    assert ([x] + s)[0] == x && ([x] + s)[1..] == s;
  }

  /** Finding in a filtered list is finding with both conditions in the whole list. */
  lemma {:induction false} FindAfterFilter<T(!new)>(s: seq<T>, p: T -> bool, q: T -> bool)
    ensures Find(Filter(s, p), q) == Find(s, x => p(x) && q(x))
  {
    if s != [] {
      var x, rest := s[0], s[1..];
      FindAfterFilter(rest, p, q);
      FilterCons(x, rest, p);
      assert s == [x] + rest;
      FindCons(x, rest, x => p(x) && q(x));
      if p(x) {
        FindCons(x, Filter(rest, p), q);
      }
    }
  }

  /** `le` is a total preorder: the contract a JavaScript sort comparator must meet. */
  ghost predicate TotalPreorder<T(!new)>(le: (T, T) -> bool)
  {
    (forall a, b :: le(a, b) || le(b, a)) &&
    (forall a, b, c :: le(a, b) && le(b, c) ==> le(a, c))
  }

  predicate SortedBy<T>(s: seq<T>, le: (T, T) -> bool)
  {
    forall i, j :: 0 <= i < j < |s| ==> le(s[i], s[j])
  }

  /** Places `x` before the first element it is `le` to; `x` goes before
      the equal elements that followed it, so sorting stays stable. */
  function Insert<T(!new)>(x: T, s: seq<T>, le: (T, T) -> bool): (r: seq<T>)
    requires TotalPreorder(le) && SortedBy(s, le)
    ensures multiset(r) == multiset(s) + multiset{x}
    ensures SortedBy(r, le)
  {
    if s == [] || le(x, s[0]) then [x] + s
    else
      var t := Insert(x, s[1..], le);
      assert s == [s[0]] + s[1..];
      InsertHeadBound(x, s, t, le);
      [s[0]] + t
  }

  lemma InsertHeadBound<T(!new)>(x: T, s: seq<T>, t: seq<T>, le: (T, T) -> bool)
    requires TotalPreorder(le) && SortedBy(s, le)
    requires s != [] && !le(x, s[0])
    requires multiset(t) == multiset(s[1..]) + multiset{x}
    ensures forall k :: 0 <= k < |t| ==> le(s[0], t[k])
  {
    forall k | 0 <= k < |t| ensures le(s[0], t[k]) {
      assert t[k] in multiset(t);
      if t[k] != x {
        assert t[k] in s[1..];
      }
    }
  }

  /** The elements `le` ranks equal to `k`. */
  function TiedWith<T>(le: (T, T) -> bool, k: T): T -> bool
  {
    x => le(x, k) && le(k, x)
  }

  /** Prepending an element that fails `p` when `x` passes it keeps `x` first among those that pass. */
  lemma FilterStep<T(!new)>(x: T, y: T, t: seq<T>, rest: seq<T>, p: T -> bool)
    requires Filter(t, p) == (if p(x) then [x] else []) + Filter(rest, p)
    requires p(x) ==> !p(y)
    ensures Filter([y] + t, p) == (if p(x) then [x] else []) + Filter([y] + rest, p)
  {
    FilterCons(y, t, p);
    FilterCons(y, rest, p);
  }

  /** Inserting `x` puts it before every element it ties with. */
  lemma {:induction false} InsertStable<T(!new)>(x: T, s: seq<T>, le: (T, T) -> bool, k: T)
    requires TotalPreorder(le) && SortedBy(s, le)
    ensures Filter(Insert(x, s, le), TiedWith(le, k)) ==
            (if TiedWith(le, k)(x) then [x] else []) + Filter(s, TiedWith(le, k))
  {
    var p := TiedWith(le, k);
    if s == [] || le(x, s[0]) {
      FilterCons(x, s, p);
    } else {
      var y, rest := s[0], s[1..];
      assert s == [y] + rest;
      var t := Insert(x, rest, le);
      assert Insert(x, s, le) == [y] + t;
      InsertStable(x, rest, le, k);
      // `y` ranks strictly above `x`, so it cannot tie with `k` when `x` does.
      assert p(x) ==> !p(y);
      FilterStep(x, y, t, rest, p);
    }
  }

  /** The stable sort performed by `Array.prototype.sort` with comparator `le`. */
  function SortBy<T(!new)>(s: seq<T>, le: (T, T) -> bool): (r: seq<T>)
    requires TotalPreorder(le)
    ensures multiset(r) == multiset(s)
    ensures SortedBy(r, le)
  {
    if s == [] then []
    else
      assert s == [s[0]] + s[1..];
      Insert(s[0], SortBy(s[1..], le), le)
  }

  /** The sort is stable: elements that tie keep their input order. */
  lemma {:induction false} SortByStable<T(!new)>(s: seq<T>, le: (T, T) -> bool, k: T)
    requires TotalPreorder(le)
    ensures Filter(SortBy(s, le), TiedWith(le, k)) == Filter(s, TiedWith(le, k))
  {
    if s != [] {
      var p := TiedWith(le, k);
      var y, rest := s[0], s[1..];
      assert s == [y] + rest;
      assert SortBy(s, le) == Insert(y, SortBy(rest, le), le);
      SortByStable(rest, le, k);
      InsertStable(y, SortBy(rest, le), le, k);
      assert Filter(s, p) == (if p(y) then [y] else []) + Filter(rest, p) by {
        FilterCons(y, rest, p);
      }
    }
  }
}
