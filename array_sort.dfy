/**
 * The three array operations the components rely on, `slice()`, `sort(cmp)`
 * and `reverse()`, applied to arrays of person records, with the two
 * comparators the components pass to `sort`.
 *
 * ECMAScript leaves the algorithm of `sort` to the engine. It promises a
 * permutation of the input, and an ordered result only for a consistent
 * comparator, which among other things must return 0 on `(a, a)`. Both
 * comparators here return -1 there (`CompareSelf`), so the standard leaves
 * the order implementation-defined on every non-empty array. The model sorts
 * by insertion, moving an element before its left neighbour while
 * `cmp(neighbour, element) > 0`. The lemmas below prove a permutation always
 * and, with pairwise-distinct keys, an ordered result. The second holds for
 * this engine and for any engine that never compares an element with itself;
 * it is not a consequence of the standard.
 */
module ArraySort {
  import opened Records

  /** The two comparators passed to `Array.prototype.sort`. */
  datatype Comparator =
    | Ascending(key: Field)   // (a, b) => a[key] > b[key] ? 1 : -1
    | Descending(key: Field)  // (a, b) => b[key] > a[key] ? 1 : -1

  /** The comparator's value on `(a, b)`. */
  function Compare(c: Comparator, a: Person, b: Person): (r: int)
    ensures r == 1 || r == -1
  {
    match c
    case Ascending(k) => if Gt(a, b, k) then 1 else -1
    case Descending(k) => if Gt(b, a, k) then 1 else -1
  }

  /** The comparator that orders the other way round. */
  function Flipped(c: Comparator): (r: Comparator)
    ensures r.key == c.key && r.Ascending? != c.Ascending?
  {
    match c
    case Ascending(k) => Descending(k)
    case Descending(k) => Ascending(k)
  }

  /** `a` belongs after `b`: the comparator's value on `(a, b)` is positive. */
  predicate After(c: Comparator, a: Person, b: Person)
  {
    Compare(c, a, b) > 0
  }

  /** Every element belongs after each element to its left. */
  predicate Ordered(s: seq<Person>, c: Comparator)
  {
    forall i, j :: 0 <= i < j < |s| ==> After(c, s[j], s[i])
  }

  /** A row compared with itself gives -1, where a consistent comparator would give 0. */
  lemma CompareSelf(c: Comparator, a: Person)
    ensures Compare(c, a, a) == -1
  {
    GtTie(a, a, c.key);
  }

  /**
   * The comparator is antisymmetric on a pair (its sign flips when the
   * arguments are swapped) exactly when the two keys differ: on a tie both
   * orders yield -1.
   */
  lemma CompareAntisymmetricIffDistinct(c: Comparator, a: Person, b: Person)
    ensures Compare(c, a, b) == -Compare(c, b, a) <==> KeyOf(a, c.key) != KeyOf(b, c.key)
    ensures KeyOf(a, c.key) == KeyOf(b, c.key) ==> Compare(c, a, b) == -1 && Compare(c, b, a) == -1
  {
    if KeyOf(a, c.key) == KeyOf(b, c.key) {
      GtTie(a, b, c.key);
    } else {
      GtTotal(a, b, c.key);
      if Gt(a, b, c.key) {
        GtAsymmetric(a, b, c.key);
      } else {
        GtAsymmetric(b, a, c.key);
      }
    }
  }

  lemma AfterAsymmetric(c: Comparator, a: Person, b: Person)
    requires After(c, a, b)
    ensures !After(c, b, a)
  {
    if c.Ascending? {
      GtAsymmetric(a, b, c.key);
    } else {
      GtAsymmetric(b, a, c.key);
    }
  }

  lemma AfterTransitive(c: Comparator, a: Person, b: Person, d: Person)
    requires After(c, a, b) && After(c, b, d)
    ensures After(c, a, d)
  {
    if c.Ascending? {
      GtTransitive(a, b, d, c.key);
    } else {
      GtTransitive(d, b, a, c.key);
    }
  }

  lemma AfterTotal(c: Comparator, a: Person, b: Person)
    requires KeyOf(a, c.key) != KeyOf(b, c.key)
    ensures After(c, a, b) || After(c, b, a)
  {
    GtTotal(a, b, c.key);
  }

  /** Ordered by an `Ascending` or `Descending` comparator means strictly ascending or descending. */
  lemma OrderedMeans(s: seq<Person>, c: Comparator)
    ensures c.Ascending? ==> (Ordered(s, c) <==> StrictlyAscending(s, c.key))
    ensures c.Descending? ==> (Ordered(s, c) <==> StrictlyDescending(s, c.key))
  {
  }

  /**
   * Insertion of `x` into `p` from the right: `x` moves left past every
   * element the comparator puts after it.
   */
  function Insert(p: seq<Person>, x: Person, c: Comparator): (r: seq<Person>)
    ensures |r| == |p| + 1
    decreases |p|
  {
    if |p| == 0 then [x]
    else if After(c, p[|p| - 1], x) then Insert(p[..|p| - 1], x, c) + [p[|p| - 1]]
    else p + [x]
  }

  /** The order the modelled engine gives `s` when sorted by `c`. */
  function Sorted(s: seq<Person>, c: Comparator): (r: seq<Person>)
    ensures |r| == |s|
  {
    if |s| == 0 then [] else Insert(Sorted(s[..|s| - 1], c), s[|s| - 1], c)
  }

  /** Insertion adds exactly `x`: nothing is dropped or duplicated. */
  lemma {:induction false} InsertMultiset(p: seq<Person>, x: Person, c: Comparator)
    ensures multiset(Insert(p, x, c)) == multiset(p) + multiset{x}
    decreases |p|
  {
    if |p| > 0 {
      assert p == p[..|p| - 1] + [p[|p| - 1]];
      if After(c, p[|p| - 1], x) {
        InsertMultiset(p[..|p| - 1], x, c);
      }
    }
  }

  /** ECMAScript's permutation promise: the sorted result holds the same elements, as often. */
  lemma {:induction false} SortedMultiset(s: seq<Person>, c: Comparator)
    ensures multiset(Sorted(s, c)) == multiset(s)
  {
    if |s| > 0 {
      assert s == s[..|s| - 1] + [s[|s| - 1]];
      SortedMultiset(s[..|s| - 1], c);
      InsertMultiset(Sorted(s[..|s| - 1], c), s[|s| - 1], c);
    }
  }

  /** `s` read back to front. */
  function Reversed<T>(s: seq<T>): (r: seq<T>)
    ensures |r| == |s|
    ensures forall i :: 0 <= i < |s| ==> r[i] == s[|s| - 1 - i]
  {
    if |s| == 0 then [] else [s[|s| - 1]] + Reversed(s[..|s| - 1])
  }

  lemma ReversedMultiset<T>(s: seq<T>)
    ensures multiset(Reversed(s)) == multiset(s)
  {
    var r := Reversed(s);
    if |s| > 0 {
      assert s == s[..|s| - 1] + [s[|s| - 1]];
      assert r == [s[|s| - 1]] + Reversed(s[..|s| - 1]);
      ReversedMultiset(s[..|s| - 1]);
    }
  }

  /** Reading a sorted sequence backwards orders it by the flipped comparator. */
  lemma ReversedOrdered(s: seq<Person>, c: Comparator)
    requires Ordered(s, c)
    ensures Ordered(Reversed(s), Flipped(c))
  {
    var r, n := Reversed(s), |s|;
    forall i, j | 0 <= i < j < n
      ensures After(Flipped(c), r[j], r[i])
    {
      assert After(c, s[n - 1 - i], s[n - 1 - j]);
    }
  }

  /** Appending an element that belongs after every element keeps a sequence ordered. */
  lemma AppendOrdered(q: seq<Person>, y: Person, c: Comparator)
    requires Ordered(q, c)
    requires forall i :: 0 <= i < |q| ==> After(c, y, q[i])
    ensures Ordered(q + [y], c)
  {
    var r := q + [y];
    forall i, j | 0 <= i < j < |r|
      ensures After(c, r[j], r[i])
    {
      if j < |q| {
        assert r[i] == q[i] && r[j] == q[j];
      }
    }
  }

  /** Every element of `Insert(p, x, c)` is `x` or an element of `p`. */
  lemma InsertElements(p: seq<Person>, x: Person, c: Comparator, i: nat)
    requires i < |p| + 1
    ensures Insert(p, x, c)[i] == x || Insert(p, x, c)[i] in p
  {
    var q := Insert(p, x, c);
    InsertMultiset(p, x, c);
    assert q[i] in multiset(q);
  }

  /** An element every other key differs from keeps a sorted sequence sorted. */
  lemma {:induction false} InsertOrdered(p: seq<Person>, x: Person, c: Comparator)
    requires Ordered(p, c)
    requires forall e :: e in p ==> KeyOf(e, c.key) != KeyOf(x, c.key)
    ensures Ordered(Insert(p, x, c), c)
  {
    if |p| > 0 {
      var init, last := p[..|p| - 1], p[|p| - 1];
      assert p == init + [last];
      if After(c, last, x) {
        InsertOrdered(init, x, c);
        var q := Insert(init, x, c);
        forall i | 0 <= i < |q|
          ensures After(c, last, q[i])
        {
          InsertElements(init, x, c, i);
          if q[i] != x {
            var k :| 0 <= k < |init| && init[k] == q[i];
            assert p[k] == q[i];
          }
        }
        AppendOrdered(q, last, c);
      } else {
        AfterTotal(c, last, x);
        forall i | 0 <= i < |p|
          ensures After(c, x, p[i])
        {
          if i < |p| - 1 {
            AfterTransitive(c, x, last, p[i]);
          }
        }
        AppendOrdered(p, x, c);
      }
    }
  }

  /**
   * With pairwise-distinct keys the modelled engine's result is ordered by the
   * comparator. The engine compares only rows at different positions, so with
   * distinct keys it never meets a tie and the -1 on `(a, a)` plays no part.
   */
  lemma {:induction false} SortedOrdered(s: seq<Person>, c: Comparator)
    requires DistinctKeys(s, c.key)
    ensures Ordered(Sorted(s, c), c)
  {
    if |s| > 0 {
      var init, x := s[..|s| - 1], s[|s| - 1];
      SortedOrdered(init, c);
      var q := Sorted(init, c);
      SortedMultiset(init, c);
      forall e | e in q
        ensures KeyOf(e, c.key) != KeyOf(x, c.key)
      {
        assert e in multiset(q);
        assert e in multiset(init);
        var k :| 0 <= k < |init| && init[k] == e;
        assert s[k] == e;
      }
      InsertOrdered(q, x, c);
    }
  }

  lemma MultisetTail(a: seq<Person>)
    requires |a| > 0
    ensures multiset(a[1..]) == multiset(a) - multiset{a[0]}
  {
    assert a == [a[0]] + a[1..];
  }

  /** There is only one way to order a multiset of elements strictly. */
  lemma {:induction false} OrderedUnique(a: seq<Person>, b: seq<Person>, c: Comparator)
    requires Ordered(a, c) && Ordered(b, c)
    requires multiset(a) == multiset(b)
    ensures a == b
  {
    assert |a| == |multiset(a)| == |multiset(b)| == |b|;
    if |a| > 0 {
      if a[0] != b[0] {
        assert a[0] in multiset(b);
        var j :| 0 <= j < |b| && b[j] == a[0];
        assert b[0] in multiset(a);
        var i :| 0 <= i < |a| && a[i] == b[0];
        assert After(c, a[0], b[0]) by { assert After(c, b[j], b[0]); }
        assert After(c, b[0], a[0]) by { assert After(c, a[i], a[0]); }
        AfterAsymmetric(c, a[0], b[0]);
        assert false;
      }
      MultisetTail(a);
      MultisetTail(b);
      OrderedUnique(a[1..], b[1..], c);
      assert a == [a[0]] + a[1..] && b == [b[0]] + b[1..];
    }
  }

  /** `a.slice()`: a fresh array with the same elements. */
  method Slice<T(0)>(a: array<T>) returns (b: array<T>)
    ensures fresh(b)
    ensures b[..] == a[..]
  {
    b := new T[a.Length];
    var i := 0;
    while i < a.Length
      invariant 0 <= i <= a.Length
      invariant forall k :: 0 <= k < i ==> b[k] == a[k]
    {
      b[i] := a[i];
      i := i + 1;
    }
  }

  /** One step of the inner loop of `SortInPlace`, in terms of `Insert`. */
  lemma InsertStep(p: seq<Person>, x: Person, c: Comparator, j: nat)
    requires 0 < j <= |p| && After(c, p[j - 1], x)
    ensures Insert(p[..j], x, c) + p[j..] == Insert(p[..j - 1], x, c) + p[j - 1..]
  {
    var q := p[..j];
    assert q[|q| - 1] == p[j - 1];
    assert q[..|q| - 1] == p[..j - 1];
    assert Insert(q, x, c) == Insert(p[..j - 1], x, c) + [p[j - 1]];
    assert p[j - 1..] == [p[j - 1]] + p[j..];
  }

  /** Where the inner loop of `SortInPlace` stops, `x` goes right after the prefix. */
  lemma InsertDone(p: seq<Person>, x: Person, c: Comparator, j: nat)
    requires j <= |p| && (j == 0 || !After(c, p[j - 1], x))
    ensures Insert(p[..j], x, c) == p[..j] + [x]
  {
    if j > 0 {
      var q := p[..j];
      assert q[|q| - 1] == p[j - 1];
    }
  }

  /** Sorting one more element inserts it into the sorted prefix. */
  lemma SortedStep(s: seq<Person>, c: Comparator, i: nat)
    requires i < |s|
    ensures Sorted(s[..i + 1], c) == Insert(Sorted(s[..i], c), s[i], c)
  {
    assert s[..i + 1][..i] == s[..i];
  }

  /** Swapping `x` with its left neighbour `p[j - 1]` moves the split point one to the left. */
  lemma SwapStep(t: seq<Person>, p: seq<Person>, x: Person, rest: seq<Person>, j: nat)
    requires 0 < j <= |p|
    requires t == p[..j] + [x] + p[j..] + rest
    ensures t[j - 1 := x][j := p[j - 1]] == p[..j - 1] + [x] + p[j - 1..] + rest
  {
    var u := t[j - 1 := x][j := p[j - 1]];
    var v := p[..j - 1] + [x] + p[j - 1..] + rest;
    assert |u| == |v|;
    forall k | 0 <= k < |u|
      ensures u[k] == v[k]
    {
      if k > j {
        assert u[k] == t[k];
      }
    }
  }

  /** One pass of `SortInPlace`: moves `a[i]` left into the sorted prefix `a[..i]`. */
  method InsertInPlace(a: array<Person>, i: nat, c: Comparator)
    requires i < a.Length
    modifies a
    ensures a[..] == Insert(old(a[..i]), old(a[i]), c) + old(a[i + 1..])
  {
    ghost var p, rest := a[..i], a[i + 1..];
    var x := a[i];
    var j := i;
    assert p[..j] == p && p[j..] == [];
    assert a[..] == p[..j] + [x] + p[j..] + rest;
    while j > 0 && After(c, a[j - 1], x)
      invariant 0 <= j <= i
      invariant a[..] == p[..j] + [x] + p[j..] + rest
      invariant Insert(p, x, c) == Insert(p[..j], x, c) + p[j..]
    {
      ghost var t := a[..];
      assert a[j - 1] == p[j - 1] && a[j] == x;
      InsertStep(p, x, c, j);
      SwapStep(t, p, x, rest, j);
      a[j - 1], a[j] := a[j], a[j - 1];
      assert a[..] == t[j - 1 := x][j := p[j - 1]];
      j := j - 1;
    }
    if j > 0 {
      assert a[j - 1] == a[..][j - 1] == p[j - 1];
    }
    InsertDone(p, x, c, j);
    assert a[..] == (p[..j] + [x]) + p[j..] + rest;
  }

  /** `a.sort(cmp)` on the model's insertion sort. */
  method SortInPlace(a: array<Person>, c: Comparator)
    modifies a
    ensures a[..] == Sorted(old(a[..]), c)
  {
    ghost var s := a[..];
    var i := 0;
    assert s[..0] == [] && s[0..] == s;
    while i < a.Length
      invariant 0 <= i <= a.Length
      invariant a[..] == Sorted(s[..i], c) + s[i..]
    {
      ghost var t := a[..];
      assert t[..i] == Sorted(s[..i], c) && t[i] == s[i] && t[i + 1..] == s[i + 1..];
      InsertInPlace(a, i, c);
      SortedStep(s, c, i);
      i := i + 1;
    }
    assert s[..a.Length] == s && s[a.Length..] == [];
  }

  /** `a.reverse()`: swaps the elements pairwise from both ends. */
  method ReverseInPlace<T>(a: array<T>)
    modifies a
    ensures a[..] == Reversed(old(a[..]))
  {
    ghost var s := a[..];
    var n := a.Length;
    var lo := 0;
    while lo < n - 1 - lo
      invariant 0 <= lo <= n - lo
      invariant forall k {:trigger a[k]} :: 0 <= k < n ==> a[k] == (if lo <= k < n - lo then s[k] else s[n - 1 - k])
    {
      a[lo], a[n - 1 - lo] := a[n - 1 - lo], a[lo];
      lo := lo + 1;
    }
    assert forall k :: 0 <= k < n ==> a[k] == Reversed(s)[k];
  }
}
