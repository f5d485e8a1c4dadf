/**
 * Orders and sorting as the option builder uses them: Python compares
 * strings and tuples lexicographically (the first differing element decides,
 * a proper prefix comes first), and `sorted` returns the unique ordered
 * permutation of its input. Sorting is modelled by insertion sort; for a
 * total order every correct sort returns the same sequence.
 */
module Ordering {

  /** `le` is reflexive-total, antisymmetric and transitive. */
  ghost predicate TotalOrder<T(!new)>(le: (T, T) -> bool)
  {
    && (forall a, b :: le(a, b) || le(b, a))
    && (forall a, b :: le(a, b) && le(b, a) ==> a == b)
    && (forall a, b, c :: le(a, b) && le(b, c) ==> le(a, c))
  }

  /** Python's sequence comparison `a <= b` over an element order `le`. */
  predicate LexLe<T(==)>(a: seq<T>, b: seq<T>, le: (T, T) -> bool)
  {
    if |a| == 0 then true
    else if |b| == 0 then false
    else if a[0] != b[0] then le(a[0], b[0])
    else LexLe(a[1..], b[1..], le)
  }

  /** Any two sequences are comparable. */
  lemma {:induction false} LexTotal<T(!new)>(a: seq<T>, b: seq<T>, le: (T, T) -> bool)
    requires TotalOrder(le)
    ensures LexLe(a, b, le) || LexLe(b, a, le)
  {
    if |a| > 0 && |b| > 0 && a[0] == b[0] {
      LexTotal(a[1..], b[1..], le);
    }
  }

  /** Sequences that are each at most the other are equal. */
  lemma {:induction false} LexAntisymmetric<T(!new)>(a: seq<T>, b: seq<T>, le: (T, T) -> bool)
    requires TotalOrder(le) && LexLe(a, b, le) && LexLe(b, a, le)
    ensures a == b
  {
    if |a| > 0 && |b| > 0 {
      LexAntisymmetric(a[1..], b[1..], le);
      assert a == [a[0]] + a[1..] && b == [b[0]] + b[1..];
    }
  }

  /** The lexicographic order is transitive. */
  lemma {:induction false} LexTransitive<T(!new)>(a: seq<T>, b: seq<T>, c: seq<T>, le: (T, T) -> bool)
    requires TotalOrder(le) && LexLe(a, b, le) && LexLe(b, c, le)
    ensures LexLe(a, c, le)
  {
    if |a| > 0 && |b| > 0 && |c| > 0 && a[0] == b[0] && b[0] == c[0] {
      LexTransitive(a[1..], b[1..], c[1..], le);
    }
  }

  /** Over a total order on elements, the lexicographic order is total. */
  lemma LexOrder<T(!new)>(le: (T, T) -> bool)
    requires TotalOrder(le)
    ensures forall a, b :: LexLe(a, b, le) || LexLe(b, a, le)
    ensures forall a, b :: LexLe(a, b, le) && LexLe(b, a, le) ==> a == b
    ensures forall a, b, c :: LexLe(a, b, le) && LexLe(b, c, le) ==> LexLe(a, c, le)
  {
    forall a, b ensures LexLe(a, b, le) || LexLe(b, a, le) {
      LexTotal(a, b, le);
    }
    forall a, b | LexLe(a, b, le) && LexLe(b, a, le) ensures a == b {
      LexAntisymmetric(a, b, le);
    }
    forall a, b, c | LexLe(a, b, le) && LexLe(b, c, le) ensures LexLe(a, c, le) {
      LexTransitive(a, b, c, le);
    }
  }

  // ---------------------------------------------------------------------
  // Sorting

  /** Every element is at most every later one. */
  ghost predicate Sorted<T>(s: seq<T>, le: (T, T) -> bool)
  {
    forall i, j :: 0 <= i < j < |s| ==> le(s[i], s[j])
  }

  /** Insert x before the first element it is at most. */
  function Insert<T>(x: T, s: seq<T>, le: (T, T) -> bool): (r: seq<T>)
    ensures |r| == |s| + 1
  {
    if |s| == 0 then [x]
    else if le(x, s[0]) then [x] + s
    else [s[0]] + Insert(x, s[1..], le)
  }

  /** `sorted(s)`. */
  function Sort<T>(s: seq<T>, le: (T, T) -> bool): (r: seq<T>)
    ensures |r| == |s|
  {
    if |s| == 0 then [] else Insert(s[0], Sort(s[1..], le), le)
  }

  /** Inserting adds exactly one copy of x. */
  lemma {:induction false} InsertPermutes<T>(x: T, s: seq<T>, le: (T, T) -> bool)
    ensures multiset(Insert(x, s, le)) == multiset(s) + multiset{x}
  {
    if |s| > 0 && !le(x, s[0]) {
      InsertPermutes(x, s[1..], le);
      assert s == [s[0]] + s[1..];
    }
  }

  /** Inserting into a sorted sequence keeps it sorted. */
  lemma {:induction false} InsertSorted<T(!new)>(x: T, s: seq<T>, le: (T, T) -> bool)
    requires TotalOrder(le) && Sorted(s, le)
    ensures Sorted(Insert(x, s, le), le)
  {
    if |s| > 0 && !le(x, s[0]) {
      var rest := Insert(x, s[1..], le);
      InsertSorted(x, s[1..], le);
      InsertPermutes(x, s[1..], le);
      forall k | 0 <= k < |rest| ensures le(s[0], rest[k]) {
        assert rest[k] in multiset(s[1..]) + multiset{x};
        if rest[k] != x {
          var m :| 0 <= m < |s[1..]| && s[1..][m] == rest[k];
          assert s[m + 1] == rest[k];
        }
      }
      var r := [s[0]] + rest;
      forall i, j | 0 <= i < j < |r| ensures le(r[i], r[j]) {
        if i > 0 {
          assert r[i] == rest[i - 1] && r[j] == rest[j - 1];
        } else {
          assert r[j] == rest[j - 1];
        }
      }
    }
  }

  /** `sorted` returns an ordered permutation of its input. */
  lemma {:induction false} SortSorted<T(!new)>(s: seq<T>, le: (T, T) -> bool)
    requires TotalOrder(le)
    ensures Sorted(Sort(s, le), le) && multiset(Sort(s, le)) == multiset(s)
  {
    if |s| > 0 {
      SortSorted(s[1..], le);
      InsertSorted(s[0], Sort(s[1..], le), le);
      InsertPermutes(s[0], Sort(s[1..], le), le);
      assert s == [s[0]] + s[1..];
    }
  }

  /** Two ordered sequences with the same elements are the same sequence. */
  lemma {:induction false} SortedUnique<T(!new)>(a: seq<T>, b: seq<T>, le: (T, T) -> bool)
    requires TotalOrder(le) && Sorted(a, le) && Sorted(b, le) && multiset(a) == multiset(b)
    ensures a == b
  {
    assert |a| == |multiset(a)| == |multiset(b)| == |b|;
    if |a| > 0 {
      assert a[0] == b[0] by {
        HeadIsLeast(a, b[0], le);
        HeadIsLeast(b, a[0], le);
      }
      RemoveHead(a);
      RemoveHead(b);
      assert multiset(a[1..]) == multiset(b[1..]);
      SortedTail(a, le);
      SortedTail(b, le);
      SortedUnique(a[1..], b[1..], le);
    }
  }

  /** The head of an ordered sequence is at most each of its elements. */
  lemma HeadIsLeast<T>(s: seq<T>, x: T, le: (T, T) -> bool)
    requires |s| > 0 && Sorted(s, le) && x in multiset(s)
    requires forall a :: le(a, a)
    ensures le(s[0], x)
  {
    var i :| 0 <= i < |s| && s[i] == x;
  }

  /** Sorting depends only on the elements: permutations sort alike. */
  lemma SortPermutation<T(!new)>(a: seq<T>, b: seq<T>, le: (T, T) -> bool)
    requires TotalOrder(le)
    ensures Sort(a, le) == Sort(b, le) <==> multiset(a) == multiset(b)
  {
    SortSorted(a, le);
    SortSorted(b, le);
    if multiset(a) == multiset(b) {
      SortedUnique(Sort(a, le), Sort(b, le), le);
    }
  }

  /** Removing the element at position i removes one copy of it. */
  lemma RemoveAt<T>(s: seq<T>, i: nat)
    requires i < |s|
    ensures multiset(s[..i] + s[i + 1..]) == multiset(s) - multiset{s[i]}
    ensures multiset(s) == multiset(s[..i] + s[i + 1..]) + multiset{s[i]}
  {
    assert s == s[..i] + [s[i]] + s[i + 1..];
  }

  /** Dropping the head removes one copy of it. */
  lemma RemoveHead<T>(s: seq<T>)
    requires |s| > 0
    ensures multiset(s[1..]) == multiset(s) - multiset{s[0]}
    ensures multiset(s) == multiset(s[1..]) + multiset{s[0]}
  {
    assert s == [s[0]] + s[1..];
  }

  /** The tail of an ordered sequence is ordered. */
  lemma SortedTail<T>(s: seq<T>, le: (T, T) -> bool)
    requires |s| > 0 && Sorted(s, le)
    ensures Sorted(s[1..], le)
  {
    forall i, j | 0 <= i < j < |s| - 1 ensures le(s[1..][i], s[1..][j]) {
      assert s[1..][i] == s[i + 1] && s[1..][j] == s[j + 1];
    }
  }

  // ---------------------------------------------------------------------
  // Mapping over sequences

  /** `[f(x) for x in s]`. */
  function MapSeq<A, B>(s: seq<A>, f: A -> B): (r: seq<B>)
    ensures |r| == |s| && forall i :: 0 <= i < |s| ==> r[i] == f(s[i])
  {
    if |s| == 0 then [] else [f(s[0])] + MapSeq(s[1..], f)
  }

  /**
   * If f's value is determined by g's, then two sequences whose g-images are
   * permutations of each other have f-images that are permutations too.
   */
  lemma {:induction false} MapFactor<A, B, C>(xs: seq<A>, ys: seq<A>, g: A -> C, f: A -> B)
    requires forall x, y :: g(x) == g(y) ==> f(x) == f(y)
    requires multiset(MapSeq(xs, g)) == multiset(MapSeq(ys, g))
    ensures multiset(MapSeq(xs, f)) == multiset(MapSeq(ys, f))
    decreases |xs|
  {
    if |xs| > 0 {
      var gx, gy := MapSeq(xs, g), MapSeq(ys, g);
      assert gx[0] in multiset(gy);
      var i :| 0 <= i < |gy| && gy[i] == gx[0];
      var ys' := ys[..i] + ys[i + 1..];
      MapRemoveAt(ys, i, g);
      MapRemoveAt(ys, i, f);
      RemoveHead(gx);
      RemoveHead(MapSeq(xs, f));
      assert gx[1..] == MapSeq(xs[1..], g);
      assert MapSeq(xs, f)[1..] == MapSeq(xs[1..], f);
      MapFactor(xs[1..], ys', g, f);
      assert f(xs[0]) == f(ys[i]);
    }
  }

  /** Mapping after removing position i removes one copy of the image. */
  lemma MapRemoveAt<A, B>(s: seq<A>, i: nat, f: A -> B)
    requires i < |s|
    ensures multiset(MapSeq(s[..i] + s[i + 1..], f)) == multiset(MapSeq(s, f)) - multiset{f(s[i])}
    ensures multiset(MapSeq(s, f)) == multiset(MapSeq(s[..i] + s[i + 1..], f)) + multiset{f(s[i])}
  {
    var m, t := MapSeq(s, f), s[..i] + s[i + 1..];
    var mt, r := MapSeq(t, f), m[..i] + m[i + 1..];
    assert |mt| == |r|;
    forall k | 0 <= k < |r| ensures mt[k] == r[k] {
      if k < i {
        assert t[k] == s[k] && r[k] == m[k];
      } else {
        assert t[k] == s[k + 1] && r[k] == m[k + 1];
      }
    }
    assert mt == r;
    RemoveAt(m, i);
  }
}
