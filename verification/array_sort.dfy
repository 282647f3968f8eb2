/**
 * The stable sort that `Array.prototype.sort(comparator)` performs on the
 * result list. A comparator returns a negative, zero or positive number; an
 * element is moved in front of another only when the comparator says the
 * other is strictly greater, so elements that compare equal keep their order.
 */
module ArraySort {

  /** A JavaScript comparator, with its number result modelled as an integer. */
  type Comparator<!T> = (T, T) -> int

  /** `a` may stand before `b`. */
  predicate Le<T>(cmp: Comparator<T>, a: T, b: T) {
    cmp(a, b) <= 0
  }

  /** `a` and `b` compare equal. */
  predicate Equiv<T>(cmp: Comparator<T>, a: T, b: T) {
    Le(cmp, a, b) && Le(cmp, b, a)
  }

  /**
   * The comparator is consistent on the elements of `u` in the sense of
   * ECMAScript's `Array.prototype.sort`: swapping the arguments flips the
   * sign (so `cmp(a, a) == 0`, and comparing equal is symmetric), and "may
   * stand before" is a total preorder.
   */
  ghost predicate ConsistentOn<T>(cmp: Comparator<T>, u: seq<T>) {
    && (forall a, b {:trigger a in u, b in u} | a in u && b in u :: cmp(a, b) < 0 <==> cmp(b, a) > 0)
    && (forall a, b {:trigger a in u, b in u} | a in u && b in u :: Le(cmp, a, b) || Le(cmp, b, a))
    && (forall a, b, c {:trigger a in u, b in u, c in u} | a in u && b in u && c in u ::
          Le(cmp, a, b) && Le(cmp, b, c) ==> Le(cmp, a, c))
  }

  ghost predicate Sorted<T>(cmp: Comparator<T>, s: seq<T>) {
    forall i, j | 0 <= i < j < |s| :: Le(cmp, s[i], s[j])
  }

  /** The elements of `s` that compare equal to `c`, in their order in `s`. */
  function Class<T>(cmp: Comparator<T>, s: seq<T>, c: T): (r: seq<T>)
    ensures |r| <= |s|
  {
    if s == [] then []
    else Class(cmp, s[..|s| - 1], c) + (if Equiv(cmp, s[|s| - 1], c) then [s[|s| - 1]] else [])
  }

  lemma ClassAppend<T>(cmp: Comparator<T>, s: seq<T>, y: T, c: T)
    ensures Class(cmp, s + [y], c) == Class(cmp, s, c) + Class(cmp, [y], c)
  {
    assert (s + [y])[..|s|] == s;
  }

  /** One step of a stable insertion sort: `x` goes behind every element of `s` that is not strictly greater. */
  function Insert<T>(cmp: Comparator<T>, s: seq<T>, x: T): (r: seq<T>)
    ensures multiset(r) == multiset(s) + multiset{x}
    ensures |r| == |s| + 1
  {
    if s == [] then [x]
    else
      assert s == s[..|s| - 1] + [s[|s| - 1]];
      if cmp(s[|s| - 1], x) > 0 then Insert(cmp, s[..|s| - 1], x) + [s[|s| - 1]]
      else s + [x]
  }

  /** The list `s` sorted by `cmp`; `Array.prototype.sort` is required to be stable. */
  function StableSort<T>(cmp: Comparator<T>, s: seq<T>): (r: seq<T>)
    ensures multiset(r) == multiset(s)
  {
    if s == [] then []
    else
      assert s == s[..|s| - 1] + [s[|s| - 1]];
      Insert(cmp, StableSort(cmp, s[..|s| - 1]), s[|s| - 1])
  }

  lemma {:induction false} InsertSorted<T>(cmp: Comparator<T>, s: seq<T>, x: T, u: seq<T>)
    requires ConsistentOn(cmp, u)
    requires x in u && forall y | y in s :: y in u
    requires Sorted(cmp, s)
    ensures Sorted(cmp, Insert(cmp, s, x))
  {
    if s != [] {
      var init, last := s[..|s| - 1], s[|s| - 1];
      assert s == init + [last];
      assert last in s;
      if cmp(last, x) > 0 {
        assert forall y | y in init :: y in s;
        InsertSorted(cmp, init, x, u);
        var t := Insert(cmp, init, x);
        forall y | y in t ensures Le(cmp, y, last) {
          assert y in multiset(t);
          if y != x {
            assert y in init;
            var k :| 0 <= k < |init| && init[k] == y;
            assert s[k] == y;
          }
        }
        var r := t + [last];
        assert Insert(cmp, s, x) == r;
        forall i, j | 0 <= i < j < |r| ensures Le(cmp, r[i], r[j]) {
          if j == |t| {
            assert r[i] in t;
          }
        }
      } else {
        var r := s + [x];
        assert Insert(cmp, s, x) == r;
        forall i, j | 0 <= i < j < |r| ensures Le(cmp, r[i], r[j]) {
          if j == |s| && i < |s| - 1 {
            assert r[i] in s;
            assert Le(cmp, r[i], last);
          }
        }
      }
    }
  }

  /** With a consistent comparator, the sorted list is ordered by the comparator. */
  lemma {:induction false} StableSortSorted<T>(cmp: Comparator<T>, s: seq<T>)
    requires ConsistentOn(cmp, s)
    ensures Sorted(cmp, StableSort(cmp, s))
  {
    SortedOnSub(cmp, s, s);
  }

  lemma {:induction false} SortedOnSub<T>(cmp: Comparator<T>, s: seq<T>, u: seq<T>)
    requires ConsistentOn(cmp, u)
    requires forall y | y in s :: y in u
    ensures Sorted(cmp, StableSort(cmp, s))
  {
    if s != [] {
      var init := s[..|s| - 1];
      assert forall y | y in init :: y in s;
      SortedOnSub(cmp, init, u);
      var t := StableSort(cmp, init);
      forall y | y in t ensures y in u {
        assert y in multiset(t);
        assert y in init;
      }
      InsertSorted(cmp, t, s[|s| - 1], u);
    }
  }

  lemma Transitive<T>(cmp: Comparator<T>, u: seq<T>, a: T, b: T, c: T)
    requires ConsistentOn(cmp, u)
    requires a in u && b in u && c in u
    ensures Le(cmp, a, b) && Le(cmp, b, c) ==> Le(cmp, a, c)
  {
  }

  lemma ClassOne<T>(cmp: Comparator<T>, y: T, c: T)
    ensures Class(cmp, [y], c) == if Equiv(cmp, y, c) then [y] else []
  {
    assert [y][..0] == [];
  }

  /** An element strictly greater than `x` is not equivalent to what `x` is equivalent to. */
  lemma NotBothEquiv<T>(cmp: Comparator<T>, u: seq<T>, y: T, x: T, c: T)
    requires ConsistentOn(cmp, u)
    requires y in u && x in u && c in u
    requires cmp(y, x) > 0
    ensures !(Equiv(cmp, y, c) && Equiv(cmp, x, c))
  {
    Transitive(cmp, u, y, c, x);
  }

  /** Two single elements that are not both equivalent to `c` add to `c`'s class in either order. */
  lemma ClassSwap<T>(cmp: Comparator<T>, a: seq<T>, x: T, y: T, c: T)
    requires !(Equiv(cmp, y, c) && Equiv(cmp, x, c))
    ensures a + Class(cmp, [x], c) + Class(cmp, [y], c) == a + Class(cmp, [y], c) + Class(cmp, [x], c)
  {
    ClassOne(cmp, x, c);
    ClassOne(cmp, y, c);
    var cx, cy := Class(cmp, [x], c), Class(cmp, [y], c);
    if cx == [] {
      assert a + cx == a && (a + cy) + cx == a + cy;
    } else {
      assert cy == [];
      assert (a + cx) + cy == a + cx && a + cy == a;
    }
  }

  lemma {:induction false} InsertClass<T>(cmp: Comparator<T>, s: seq<T>, x: T, c: T, u: seq<T>)
    requires ConsistentOn(cmp, u)
    requires x in u && c in u && forall y | y in s :: y in u
    ensures Class(cmp, Insert(cmp, s, x), c) == Class(cmp, s, c) + Class(cmp, [x], c)
  {
    if s == [] {
      assert Insert(cmp, s, x) == [x];
    } else {
      var init, last := s[..|s| - 1], s[|s| - 1];
      assert s == init + [last];
      ClassAppend(cmp, init, last, c);
      if cmp(last, x) > 0 {
        assert forall y | y in init :: y in s;
        InsertClass(cmp, init, x, c, u);
        var t := Insert(cmp, init, x);
        assert Insert(cmp, s, x) == t + [last];
        ClassAppend(cmp, t, last, c);
        assert last in s;
        NotBothEquiv(cmp, u, last, x, c);
        ClassSwap(cmp, Class(cmp, init, c), x, last, c);
      } else {
        assert Insert(cmp, s, x) == s + [x];
        ClassAppend(cmp, s, x, c);
      }
    }
  }

  lemma {:induction false} StableOnSub<T>(cmp: Comparator<T>, s: seq<T>, c: T, u: seq<T>)
    requires ConsistentOn(cmp, u)
    requires c in u && forall y | y in s :: y in u
    ensures Class(cmp, StableSort(cmp, s), c) == Class(cmp, s, c)
  {
    if s != [] {
      var init, last := s[..|s| - 1], s[|s| - 1];
      assert forall y | y in init :: y in s;
      StableOnSub(cmp, init, c, u);
      var t := StableSort(cmp, init);
      forall y | y in t ensures y in u {
        assert y in multiset(t);
        assert y in init;
      }
      InsertClass(cmp, t, last, c, u);
      assert Class(cmp, [last], c) == if Equiv(cmp, last, c) then [last] else [];
    }
  }

  /**
   * Stability: for every element `c`, the elements that compare equal to `c`
   * come out in the order they went in.
   */
  lemma StableSortStable<T>(cmp: Comparator<T>, s: seq<T>, c: T)
    requires ConsistentOn(cmp, s)
    requires c in s
    ensures Class(cmp, StableSort(cmp, s), c) == Class(cmp, s, c)
  {
    StableOnSub(cmp, s, c, s);
  }
}
