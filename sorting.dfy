/**
 * Stable sorting into descending order. Python's `list.sort(reverse=True)`
 * and `sorted(..., reverse=True)` order by a key from largest to smallest and
 * keep elements with equal keys in their original order; `le` compares keys.
 */
module Sorting {

  /** `le` is transitive. */
  ghost predicate Transitive<T(!new)>(le: (T, T) -> bool)
  {
    forall a, b, c :: le(a, b) && le(b, c) ==> le(a, c)
  }

  /** `le` is total and transitive: a total preorder, like `<=` on keys. */
  ghost predicate TotalPreorder<T(!new)>(le: (T, T) -> bool)
  {
    && (forall a, b :: le(a, b) || le(b, a))
    && Transitive(le)
  }

  /** Every element is below or equal to every element before it. */
  ghost predicate SortedDesc<T>(s: seq<T>, le: (T, T) -> bool)
  {
    forall i, j :: 0 <= i < j < |s| ==> le(s[j], s[i])
  }

  /** The elements of `s` whose key equals the key of `x`, in their order in `s`. */
  function Ties<T>(s: seq<T>, x: T, le: (T, T) -> bool): seq<T>
  {
    if s == [] then []
    else (if le(s[0], x) && le(x, s[0]) then [s[0]] else []) + Ties(s[1..], x, le)
  }

  /** Puts `x` in front of the first element whose key is not above the key of `x`. */
  function InsertDesc<T(==)>(x: T, s: seq<T>, le: (T, T) -> bool): (r: seq<T>)
    ensures multiset(r) == multiset(s) + multiset{x}
  {
    if s == [] || le(s[0], x) then [x] + s
    else
      assert s == [s[0]] + s[1..];
      [s[0]] + InsertDesc(x, s[1..], le)
  }

  /** Insertion sort from the back: each element goes in front of its equals. */
  function SortDesc<T(==)>(s: seq<T>, le: (T, T) -> bool): (r: seq<T>)
    ensures multiset(r) == multiset(s)
  {
    if s == [] then []
    else
      assert s == [s[0]] + s[1..];
      InsertDesc(s[0], SortDesc(s[1..], le), le)
  }

  lemma {:induction false} InsertDescSorted<T(!new)>(x: T, s: seq<T>, le: (T, T) -> bool)
    requires TotalPreorder(le) && SortedDesc(s, le)
    ensures SortedDesc(InsertDesc(x, s, le), le)
  {
    if s == [] || le(s[0], x) {
      var r := [x] + s;
      forall i, j | 0 <= i < j < |r| ensures le(r[j], r[i]) {
        if i == 0 && j > 1 {
          assert le(s[j - 1], s[0]);
        }
      }
    } else {
      InsertDescSorted(x, s[1..], le);
      var rest := InsertDesc(x, s[1..], le);
      forall j | 0 <= j < |rest| ensures le(rest[j], s[0]) {
        assert rest[j] in multiset(rest);
        if rest[j] != x {
          assert rest[j] in multiset(s[1..]);
          var k :| 0 <= k < |s[1..]| && s[1..][k] == rest[j];
          assert s[k + 1] == rest[j];
        }
      }
      var r := [s[0]] + rest;
      forall i, j | 0 <= i < j < |r| ensures le(r[j], r[i]) {
        if i == 0 {
          assert r[j] == rest[j - 1];
        }
      }
    }
  }

  /** The sort orders its result from the largest key down. */
  lemma {:induction false} SortDescSorted<T(!new)>(s: seq<T>, le: (T, T) -> bool)
    requires TotalPreorder(le)
    ensures SortedDesc(SortDesc(s, le), le)
  {
    if s != [] {
      SortDescSorted(s[1..], le);
      InsertDescSorted(s[0], SortDesc(s[1..], le), le);
    }
  }

  /** `Ties` of a list with a head. */
  lemma TiesOfCons<T>(h: T, t: seq<T>, x: T, le: (T, T) -> bool)
    ensures le(h, x) && le(x, h) ==> Ties([h] + t, x, le) == [h] + Ties(t, x, le)
    ensures !(le(h, x) && le(x, h)) ==> Ties([h] + t, x, le) == Ties(t, x, le)
  {
    assert ([h] + t)[0] == h && ([h] + t)[1..] == t;
  }

  lemma {:induction false} InsertDescTies<T(!new)>(y: T, s: seq<T>, x: T, le: (T, T) -> bool)
    requires Transitive(le)
    ensures Ties(InsertDesc(y, s, le), x, le)
         == (if le(y, x) && le(x, y) then [y] else []) + Ties(s, x, le)
  {
    if s == [] || le(s[0], y) {
      assert InsertDesc(y, s, le) == [y] + s;
      TiesOfCons(y, s, x, le);
    } else {
      var rest := InsertDesc(y, s[1..], le);
      assert InsertDesc(y, s, le) == [s[0]] + rest;
      assert s == [s[0]] + s[1..];
      InsertDescTies(y, s[1..], x, le);
      TiesOfCons(s[0], rest, x, le);
      TiesOfCons(s[0], s[1..], x, le);
      if le(y, x) && le(x, y) {
        // s[0] is strictly above y, so it is not tied with x
        assert !le(s[0], x);
        assert Ties(rest, x, le) == [y] + Ties(s[1..], x, le);
      } else {
        assert Ties(rest, x, le) == Ties(s[1..], x, le);
      }
    }
  }

  /** Stability: elements with equal keys keep their relative order. */
  lemma {:induction false} SortDescTies<T(!new)>(s: seq<T>, x: T, le: (T, T) -> bool)
    requires Transitive(le)
    ensures Ties(SortDesc(s, le), x, le) == Ties(s, x, le)
  {
    if s != [] {
      SortDescTies(s[1..], x, le);
      InsertDescTies(s[0], SortDesc(s[1..], le), x, le);
    }
  }
}
