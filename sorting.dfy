/** A stable insertion sort over any total preorder. DataConvert sorts twice: the snapshot
    paths with `Stream.sorted(comparator)` and the `levels` array with `Arrays.sort`. Under an
    antisymmetric order (strings) "sorted and a permutation" pins the result down
    (`SortedUnique`), so any sort gives the modelled `levels`. Under a preorder with ties
    (snapshots with equal times) it does not: `SortStable` proves this sort stable, as the JDK's
    sequential sort of the walked paths is, although `Stream.sorted` promises stability only for
    ordered streams and the walk's stream is not one. */
module Sorting {

  ghost predicate TotalPreorder<T(!new)>(le: (T, T) -> bool) {
    && (forall a, b :: le(a, b) || le(b, a))
    && (forall a, b, c :: le(a, b) && le(b, c) ==> le(a, c))
  }

  ghost predicate Antisymmetric<T(!new)>(le: (T, T) -> bool) {
    forall a, b :: le(a, b) && le(b, a) ==> a == b
  }

  predicate SortedBy<T>(s: seq<T>, le: (T, T) -> bool) {
    forall i, j :: 0 <= i < j < |s| ==> le(s[i], s[j])
  }

  /** Puts `x` in front of the first element it is not after; `x` goes before equal elements. */
  function Insert<T(!new)>(x: T, s: seq<T>, le: (T, T) -> bool): (r: seq<T>)
    requires TotalPreorder(le)
    requires SortedBy(s, le)
    ensures SortedBy(r, le)
    ensures multiset(r) == multiset(s) + multiset{x}
  {
    if |s| == 0 then [x]
    else if le(x, s[0]) then [x] + s
    else
      var rest := Insert(x, s[1..], le);
      assert s == [s[0]] + s[1..];
      BelowAll(s[0], x, s[1..], rest, le);
      [s[0]] + rest
  }

  /** An element at or before `x` and every element of `s` is at or before every element of a
      rearrangement of `s` with `x` added. */
  lemma BelowAll<T>(y: T, x: T, s: seq<T>, rest: seq<T>, le: (T, T) -> bool)
    requires le(y, x) && forall k :: 0 <= k < |s| ==> le(y, s[k])
    requires multiset(rest) == multiset(s) + multiset{x}
    ensures forall k :: 0 <= k < |rest| ==> le(y, rest[k])
  {
    forall k | 0 <= k < |rest|
      ensures le(y, rest[k])
    {
      assert rest[k] in multiset(rest);
      assert rest[k] == x || rest[k] in multiset(s);
    }
  }

  function SortBy<T(!new)>(s: seq<T>, le: (T, T) -> bool): (r: seq<T>)
    requires TotalPreorder(le)
    ensures SortedBy(r, le)
    ensures multiset(r) == multiset(s)
  {
    if |s| == 0 then []
    else
      assert s == [s[0]] + s[1..];
      Insert(s[0], SortBy(s[1..], le), le)
  }

  /** The first element of a sorted sequence is at or before every element of it. */
  lemma SortedHeadFirst<T>(a: seq<T>, x: T, le: (T, T) -> bool)
    requires SortedBy(a, le) && x in a
    ensures a[0] == x || le(a[0], x)
  {
    var k :| 0 <= k < |a| && a[k] == x;
    if k > 0 {
      assert le(a[0], a[k]);
    }
  }

  lemma TailMultiset<T>(a: seq<T>)
    requires |a| > 0
    ensures multiset(a[1..]) == multiset(a) - multiset{a[0]}
  {
    assert a == [a[0]] + a[1..];
  }

  lemma SortedTail<T>(a: seq<T>, le: (T, T) -> bool)
    requires |a| > 0 && SortedBy(a, le)
    ensures SortedBy(a[1..], le)
  {
  }

  /** Two sorted arrangements of one multiset start with the same element. */
  lemma SortedHeadsEqual<T(!new)>(a: seq<T>, b: seq<T>, le: (T, T) -> bool)
    requires Antisymmetric(le)
    requires SortedBy(a, le) && SortedBy(b, le)
    requires multiset(a) == multiset(b) && |a| > 0 && |b| > 0
    ensures a[0] == b[0]
  {
    assert a[0] in multiset(b) && b[0] in multiset(a);
    SortedHeadFirst(b, a[0], le);
    SortedHeadFirst(a, b[0], le);
  }

  /** Sequences with the same multiset have the same length. */
  lemma SameLength<T>(a: seq<T>, b: seq<T>)
    requires multiset(a) == multiset(b)
    ensures |a| == |b|
  {
    assert |a| == |multiset(a)| && |b| == |multiset(b)|;
  }

  lemma ConsEqual<T>(a: seq<T>, b: seq<T>)
    requires |a| > 0 && |b| > 0 && a[0] == b[0] && a[1..] == b[1..]
    ensures a == b
  {
    assert a == [a[0]] + a[1..] && b == [b[0]] + b[1..];
  }

  /** Under an antisymmetric order there is only one sorted arrangement of a multiset, so any
      correct sort algorithm (TimSort included) gives the same result as `SortBy`. */
  lemma {:induction false} SortedUnique<T(!new)>(a: seq<T>, b: seq<T>, le: (T, T) -> bool)
    requires Antisymmetric(le)
    requires SortedBy(a, le) && SortedBy(b, le)
    requires multiset(a) == multiset(b)
    ensures a == b
  {
    SameLength(a, b);
    if |a| > 0 {
      SortedHeadsEqual(a, b, le);
      TailMultiset(a);
      TailMultiset(b);
      SortedTail(a, le);
      SortedTail(b, le);
      SortedUnique(a[1..], b[1..], le);
      ConsEqual(a, b);
    }
  }

  /** The elements of `s` equivalent to `k` under `le`, in their order in `s`. */
  function Equivalents<T>(s: seq<T>, le: (T, T) -> bool, k: T): seq<T> {
    if |s| == 0 then []
    else (if le(k, s[0]) && le(s[0], k) then [s[0]] else []) + Equivalents(s[1..], le, k)
  }

  function EquivalentPart<T>(x: T, le: (T, T) -> bool, k: T): seq<T> {
    if le(k, x) && le(x, k) then [x] else []
  }

  lemma EquivalentsCons<T>(x: T, s: seq<T>, le: (T, T) -> bool, k: T)
    ensures Equivalents([x] + s, le, k) == EquivalentPart(x, le, k) + Equivalents(s, le, k)
  {
    assert ([x] + s)[1..] == s;
  }

  /** Past an element it is not at or before, `x` is inserted into the rest. */
  lemma InsertPast<T(!new)>(x: T, s: seq<T>, le: (T, T) -> bool)
    requires TotalPreorder(le) && SortedBy(s, le) && |s| > 0 && !le(x, s[0])
    ensures SortedBy(s[1..], le)
    ensures Insert(x, s, le) == [s[0]] + Insert(x, s[1..], le)
  {
  }

  /** An element not at or before another is not equivalent to what that other is. */
  lemma NotBothEquivalent<T(!new)>(x: T, y: T, le: (T, T) -> bool, k: T)
    requires TotalPreorder(le) && !le(x, y)
    ensures EquivalentPart(x, le, k) == [] || EquivalentPart(y, le, k) == []
  {
    if le(x, k) && le(k, y) {
      assert false;
    }
  }

  /** Moving `x` past `head` changes no class's order when they are not in the same class. */
  lemma StableStep<T>(x: T, head: T, tail: seq<T>, rest: seq<T>, le: (T, T) -> bool, k: T)
    requires Equivalents(rest, le, k) == Equivalents([x] + tail, le, k)
    requires EquivalentPart(x, le, k) == [] || EquivalentPart(head, le, k) == []
    ensures Equivalents([head] + rest, le, k) == Equivalents([x] + ([head] + tail), le, k)
  {
    var ex, eh, a := EquivalentPart(x, le, k), EquivalentPart(head, le, k), Equivalents(tail, le, k);
    EquivalentsCons(head, rest, le, k);
    EquivalentsCons(x, tail, le, k);
    EquivalentsCons(x, [head] + tail, le, k);
    EquivalentsCons(head, tail, le, k);
    if ex == [] {
      assert ex + a == a && ex + (eh + a) == eh + a;
    } else {
      assert eh + (ex + a) == ex + a && eh + a == a;
    }
  }

  /** `Insert` puts `x` before every element equivalent to it. */
  lemma {:induction false} InsertStable<T(!new)>(x: T, s: seq<T>, le: (T, T) -> bool, k: T)
    requires TotalPreorder(le) && SortedBy(s, le)
    ensures Equivalents(Insert(x, s, le), le, k) == Equivalents([x] + s, le, k)
  {
    if |s| > 0 && !le(x, s[0]) {
      InsertPast(x, s, le);
      NotBothEquivalent(x, s[0], le, k);
      InsertStable(x, s[1..], le, k);
      StableStep(x, s[0], s[1..], Insert(x, s[1..], le), le, k);
      assert s == [s[0]] + s[1..];
    }
  }

  /** The sort is stable: elements equivalent to one another keep their input order. */
  lemma {:induction false} SortStable<T(!new)>(s: seq<T>, le: (T, T) -> bool, k: T)
    requires TotalPreorder(le)
    ensures Equivalents(SortBy(s, le), le, k) == Equivalents(s, le, k)
  {
    if |s| > 0 {
      SortStable(s[1..], le, k);
      InsertStable(s[0], SortBy(s[1..], le), le, k);
      assert ([s[0]] + SortBy(s[1..], le))[1..] == SortBy(s[1..], le);
    }
  }
}
