/**
 * Python's `collections.Counter` over a list, and its `most_common(k)`.
 * A counter is an insertion-ordered dictionary: its entries are the distinct
 * elements in order of first occurrence, each with its number of occurrences.
 * `most_common(k)` sorts the entries by count, largest first, keeping tied
 * entries in first-occurrence order, and takes the first k.
 */
module Counting {
  import opened Sorting

  /** Number of occurrences of `x` in `s`. */
  function Count<T(==)>(s: seq<T>, x: T): (n: nat)
    ensures n <= |s|
    ensures n > 0 <==> x in s
  {
    if s == [] then 0
    else
      assert s == s[..|s| - 1] + [s[|s| - 1]];
      Count(s[..|s| - 1], x) + (if s[|s| - 1] == x then 1 else 0)
  }

  /** Index of the first occurrence of `x` in `s`. */
  function FirstIndex<T(==)>(s: seq<T>, x: T): (i: nat)
    requires x in s
    ensures i < |s| && s[i] == x && x !in s[..i]
  {
    if s[0] == x then 0
    else
      var j := FirstIndex(s[1..], x);
      assert s[..j + 1] == [s[0]] + s[1..][..j];
      j + 1
  }

  /** The keys of a list of (key, count) entries. */
  function Keys<T>(t: seq<(T, nat)>): (k: seq<T>)
    ensures |k| == |t| && forall i :: 0 <= i < |t| ==> k[i] == t[i].0
  {
    seq(|t|, i requires 0 <= i < |t| => t[i].0)
  }

  /** Sum of the counts of a list of entries. */
  function Total<T>(t: seq<(T, nat)>): nat
  {
    if t == [] then 0 else t[0].1 + Total(t[1..])
  }

  ghost predicate Distinct<T>(s: seq<T>)
  {
    forall i, j :: 0 <= i < j < |s| ==> s[i] != s[j]
  }

  /** `counter[x] = counter.get(x, 0) + 1` on an insertion-ordered dictionary. */
  function Bump<T(==)>(t: seq<(T, nat)>, x: T): seq<(T, nat)>
  {
    if t == [] then [(x, 1)]
    else if t[0].0 == x then [(x, t[0].1 + 1)] + t[1..]
    else [t[0]] + Bump(t[1..], x)
  }

  /** `Counter(s)`: the counter built by bumping each element in turn; no more entries than elements, and empty only for an empty list. */
  function Tally<T(==)>(s: seq<T>): (r: seq<(T, nat)>)
    ensures |r| <= |s|
    ensures r == [] <==> s == []
  {
    if s == [] then []
    else
      var t := Tally(s[..|s| - 1]);
      BumpLength(t, s[|s| - 1]);
      Bump(t, s[|s| - 1])
  }

  /**
   * `t` is the counter of `s`: distinct keys, exactly the elements of `s`,
   * each with its number of occurrences, in order of first occurrence.
   */
  ghost predicate IsCounterOf<T>(t: seq<(T, nat)>, s: seq<T>)
  {
    && Distinct(Keys(t))
    && (forall i :: 0 <= i < |s| ==> s[i] in Keys(t))
    && (forall i :: 0 <= i < |t| ==> t[i].0 in s && t[i].1 == Count(s, t[i].0))
    && InFirstOccurrenceOrder(t, s)
  }

  /** The keys of `t` occur in `s`, ordered by where they first occur in `s`. */
  ghost predicate InFirstOccurrenceOrder<T>(t: seq<(T, nat)>, s: seq<T>)
  {
    forall i, j :: 0 <= i < j < |t| ==> t[i].0 in s && t[j].0 in s &&
                                         FirstIndex(s, t[i].0) < FirstIndex(s, t[j].0)
  }

  lemma {:induction false} BumpKeys<T>(t: seq<(T, nat)>, x: T)
    ensures Keys(Bump(t, x)) == if x in Keys(t) then Keys(t) else Keys(t) + [x]
  {
    if t != [] && t[0].0 != x {
      BumpKeys(t[1..], x);
      assert Keys(t) == [t[0].0] + Keys(t[1..]);
      assert Keys(Bump(t, x)) == [t[0].0] + Keys(Bump(t[1..], x));
    } else if t != [] {
      assert Keys(Bump(t, x)) == [x] + Keys(t[1..]);
      assert Keys(t) == [t[0].0] + Keys(t[1..]);
    }
  }

  lemma {:induction false} BumpLength<T>(t: seq<(T, nat)>, x: T)
    ensures |Bump(t, x)| == if x in Keys(t) then |t| else |t| + 1
    ensures x !in Keys(t) ==> Bump(t, x)[|t|] == (x, 1)
  {
    if t != [] && t[0].0 != x {
      assert Keys(t[1..]) == Keys(t)[1..];
      BumpLength(t[1..], x);
    }
  }

  lemma {:induction false} BumpEntries<T>(t: seq<(T, nat)>, x: T)
    requires Distinct(Keys(t))
    ensures |Bump(t, x)| >= |t|
    ensures forall i :: 0 <= i < |t| ==>
      Bump(t, x)[i] == (t[i].0, t[i].1 + if t[i].0 == x then 1 else 0)
  {
    if t != [] {
      if t[0].0 != x {
        assert Keys(t[1..]) == Keys(t)[1..];
        BumpEntries(t[1..], x);
      } else {
        forall i | 1 <= i < |t| ensures t[i].0 != x {
          assert Keys(t)[0] != Keys(t)[i];
        }
      }
    }
  }

  lemma BumpCounts<T>(t: seq<(T, nat)>, x: T)
    requires Distinct(Keys(t))
    ensures |Bump(t, x)| == if x in Keys(t) then |t| else |t| + 1
    ensures forall i :: 0 <= i < |t| ==>
      Bump(t, x)[i] == (t[i].0, t[i].1 + if t[i].0 == x then 1 else 0)
    ensures x !in Keys(t) ==> Bump(t, x)[|t|] == (x, 1)
  {
    BumpLength(t, x);
    BumpEntries(t, x);
  }

  lemma {:induction false} BumpTotal<T>(t: seq<(T, nat)>, x: T)
    ensures Total(Bump(t, x)) == Total(t) + 1
  {
    if t == [] {
      assert Total([(x, 1)]) == 1 + Total<T>([]);
    } else if t[0].0 == x {
      assert ([(x, t[0].1 + 1)] + t[1..])[1..] == t[1..];
    } else {
      BumpTotal(t[1..], x);
      assert ([t[0]] + Bump(t[1..], x))[1..] == Bump(t[1..], x);
    }
  }

  lemma FirstIndexAppend<T>(s: seq<T>, x: T, y: T)
    requires y in s
    ensures y in s + [x] && FirstIndex(s + [x], y) == FirstIndex(s, y)
  {
    var i, j := FirstIndex(s, y), FirstIndex(s + [x], y);
    assert (s + [x])[i] == y;
  }

  lemma {:induction false} CountAppend<T>(s: seq<T>, x: T, y: T)
    ensures Count(s + [x], y) == Count(s, y) + if x == y then 1 else 0
  {
    assert (s + [x])[..|s|] == s;
  }

  /** Counting over a concatenation adds the counts of the parts. */
  lemma {:induction false} CountConcat<T>(a: seq<T>, b: seq<T>, y: T)
    ensures Count(a + b, y) == Count(a, y) + Count(b, y)
    decreases |b|
  {
    if b == [] {
      assert a + b == a;
    } else {
      var b', x := b[..|b| - 1], b[|b| - 1];
      assert b == b' + [x];
      assert a + b == (a + b') + [x];
      CountConcat(a, b', y);
      CountAppend(a + b', x, y);
      CountAppend(b', x, y);
    }
  }

  lemma BumpFirstIndex<T>(t: seq<(T, nat)>, p: seq<T>, x: T)
    requires IsCounterOf(t, p)
    ensures InFirstOccurrenceOrder(Bump(t, x), p + [x])
  {
    var u, s := Bump(t, x), p + [x];
    BumpKeys(t, x);
    BumpCounts(t, x);
    forall i, j | 0 <= i < j < |u|
      ensures u[i].0 in s && u[j].0 in s && FirstIndex(s, u[i].0) < FirstIndex(s, u[j].0)
    {
      FirstIndexAppend(p, x, u[i].0);
      if j < |t| {
        FirstIndexAppend(p, x, u[j].0);
      } else {
        assert u[j].0 == x && x !in p;
        assert s[|p|] == x && x !in s[..|p|];
        assert FirstIndex(s, x) == |p|;
      }
    }
  }

  /** After bumping by `x`, every element of `p + [x]` is a key. */
  lemma BumpCovers<T>(t: seq<(T, nat)>, p: seq<T>, x: T)
    requires forall i :: 0 <= i < |p| ==> p[i] in Keys(t)
    ensures forall i :: 0 <= i < |p + [x]| ==> (p + [x])[i] in Keys(Bump(t, x))
  {
    BumpKeys(t, x);
    var s := p + [x];
    forall i | 0 <= i < |s| ensures s[i] in Keys(Bump(t, x)) {
      if i < |p| { assert s[i] == p[i]; }
    }
  }

  /** After bumping by `x`, every entry holds the count of its key in `p + [x]`. */
  lemma BumpExact<T>(t: seq<(T, nat)>, p: seq<T>, x: T)
    requires Distinct(Keys(t))
    requires forall i :: 0 <= i < |p| ==> p[i] in Keys(t)
    requires forall i :: 0 <= i < |t| ==> t[i].0 in p && t[i].1 == Count(p, t[i].0)
    ensures forall i :: 0 <= i < |Bump(t, x)| ==>
      Bump(t, x)[i].0 in p + [x] && Bump(t, x)[i].1 == Count(p + [x], Bump(t, x)[i].0)
  {
    BumpCounts(t, x);
    var u := Bump(t, x);
    forall i | 0 <= i < |u| ensures u[i].0 in p + [x] && u[i].1 == Count(p + [x], u[i].0) {
      CountAppend(p, x, u[i].0);
      if i == |t| {
        assert x !in Keys(t);
        assert x !in p;
      }
    }
  }

  /** Bumping the counter of `p` by `x` gives the counter of `p + [x]`. */
  lemma BumpIsCounter<T>(t: seq<(T, nat)>, p: seq<T>, x: T)
    requires IsCounterOf(t, p)
    ensures IsCounterOf(Bump(t, x), p + [x])
  {
    BumpCounts(t, x);
    BumpKeys(t, x);
    assert Distinct(Keys(Bump(t, x)));
    BumpCovers(t, p, x);
    BumpExact(t, p, x);
    BumpFirstIndex(t, p, x);
  }

  /** The counter built by `Tally` counts exactly, in first-occurrence order. */
  lemma {:induction false} TallyIsCounter<T>(s: seq<T>)
    ensures IsCounterOf(Tally(s), s)
  {
    if s != [] {
      var p, x := s[..|s| - 1], s[|s| - 1];
      assert s == p + [x];
      TallyIsCounter(p);
      BumpIsCounter(Tally(p), p, x);
    }
  }

  /** The counter built by `Tally` has exact counts. */
  lemma TallyCounts<T>(s: seq<T>)
    ensures forall i :: 0 <= i < |Tally(s)| ==> Tally(s)[i].0 in s && Tally(s)[i].1 == Count(s, Tally(s)[i].0)
  {
    TallyIsCounter(s);
  }

  /** The counter built by `Tally` has every element of `s` as a key. */
  lemma TallyCovers<T>(s: seq<T>)
    ensures forall i :: 0 <= i < |s| ==> s[i] in Keys(Tally(s))
  {
    TallyIsCounter(s);
  }

  /** The counts of a counter add up to the length of the list it counts. */
  lemma {:induction false} TallyTotal<T>(s: seq<T>)
    ensures Total(Tally(s)) == |s|
  {
    if s != [] {
      TallyTotal(s[..|s| - 1]);
      BumpTotal(Tally(s[..|s| - 1]), s[|s| - 1]);
    }
  }

  /** Orders counter entries by count. */
  function ByCount<T>(p: (T, nat), q: (T, nat)): bool
  {
    p.1 <= q.1
  }

  lemma ByCountIsPreorder<T(!new)>()
    ensures TotalPreorder<(T, nat)>(ByCount)
  {
  }

  /** `Counter(s).most_common()`: the counter's entries, reordered. */
  function MostCommonAll<T(==)>(s: seq<T>): (r: seq<(T, nat)>)
    ensures multiset(r) == multiset(Tally(s))
  {
    SortDesc(Tally(s), ByCount)
  }

  /** `Counter(s).most_common(k)`: the first `k` entries of `MostCommonAll(s)`. */
  function MostCommon<T(==)>(s: seq<T>, k: nat): (r: seq<(T, nat)>)
    ensures |r| <= k
    ensures |r| <= |MostCommonAll(s)| && r == MostCommonAll(s)[..|r|]
  {
    var all := MostCommonAll(s);
    if k < |all| then all[..k] else all
  }

  /** Entries with equal counts are in order of first occurrence in `s`. */
  ghost predicate TiesInFirstOccurrenceOrder<T>(r: seq<(T, nat)>, s: seq<T>)
  {
    forall i, j :: 0 <= i < j < |r| && r[i].1 == r[j].1 ==>
      r[i].0 in s && r[j].0 in s && FirstIndex(s, r[i].0) < FirstIndex(s, r[j].0)
  }

  /** An entry after the head that ties with it came from the tail, so its key first occurs later. */
  lemma HeadTiesBeforeTail<T>(p: (T, nat), u: seq<(T, nat)>, s: seq<T>, j: nat)
    requires u != [] && !ByCount(u[0], p)
    requires TiesInFirstOccurrenceOrder(u, s)
    requires j < |InsertDesc(p, u[1..], ByCount)| && InsertDesc(p, u[1..], ByCount)[j].1 == u[0].1
    ensures u[0].0 in s && InsertDesc(p, u[1..], ByCount)[j].0 in s
    ensures FirstIndex(s, u[0].0) < FirstIndex(s, InsertDesc(p, u[1..], ByCount)[j].0)
  {
    var e := InsertDesc(p, u[1..], ByCount)[j];
    KeyOfInserted(p, u[1..], ByCount, j);
    var k :| 0 <= k < |u[1..]| && u[1..][k] == e;
    assert u[k + 1] == e;
  }

  lemma TiesTail<T>(u: seq<(T, nat)>, s: seq<T>)
    requires u != [] && TiesInFirstOccurrenceOrder(u, s)
    ensures TiesInFirstOccurrenceOrder(u[1..], s)
  {
    forall i, j | 0 <= i < j < |u[1..]| && u[1..][i].1 == u[1..][j].1
      ensures u[1..][i].0 in s && u[1..][j].0 in s && FirstIndex(s, u[1..][i].0) < FirstIndex(s, u[1..][j].0)
    {
      assert u[1..][i] == u[i + 1] && u[1..][j] == u[j + 1];
    }
  }

  /** Putting in front an entry whose key first occurs before those of the entries tying with it keeps ties in order. */
  lemma TiesCons<T>(h: (T, nat), rest: seq<(T, nat)>, s: seq<T>)
    requires h.0 in s && TiesInFirstOccurrenceOrder(rest, s)
    requires forall j :: 0 <= j < |rest| && rest[j].1 == h.1 ==>
      rest[j].0 in s && FirstIndex(s, h.0) < FirstIndex(s, rest[j].0)
    ensures TiesInFirstOccurrenceOrder([h] + rest, s)
  {
    var r := [h] + rest;
    forall i, j | 0 <= i < j < |r| && r[i].1 == r[j].1
      ensures r[i].0 in s && r[j].0 in s && FirstIndex(s, r[i].0) < FirstIndex(s, r[j].0)
    {
      assert r[j] == rest[j - 1];
      if i > 0 {
        assert r[i] == rest[i - 1];
      }
    }
  }

  lemma {:induction false} InsertByCountTies<T>(p: (T, nat), u: seq<(T, nat)>, s: seq<T>)
    requires p.0 in s
    requires forall k :: 0 <= k < |u| ==> u[k].0 in s && FirstIndex(s, p.0) < FirstIndex(s, u[k].0)
    requires TiesInFirstOccurrenceOrder(u, s)
    ensures TiesInFirstOccurrenceOrder(InsertDesc(p, u, ByCount), s)
  {
    if u == [] || ByCount(u[0], p) {
      TiesCons(p, u, s);
    } else {
      TiesTail(u, s);
      forall k | 0 <= k < |u[1..]| ensures u[1..][k].0 in s && FirstIndex(s, p.0) < FirstIndex(s, u[1..][k].0) {
        assert u[1..][k] == u[k + 1];
      }
      InsertByCountTies(p, u[1..], s);
      var rest := InsertDesc(p, u[1..], ByCount);
      forall j | 0 <= j < |rest| && rest[j].1 == u[0].1
        ensures rest[j].0 in s && FirstIndex(s, u[0].0) < FirstIndex(s, rest[j].0)
      {
        HeadTiesBeforeTail(p, u, s, j);
      }
      TiesCons(u[0], rest, s);
    }
  }

  lemma {:induction false} SortByCountTies<T>(t: seq<(T, nat)>, s: seq<T>)
    requires forall i :: 0 <= i < |t| ==> t[i].0 in s
    requires InFirstOccurrenceOrder(t, s)
    ensures TiesInFirstOccurrenceOrder(SortDesc(t, ByCount), s)
  {
    if t != [] {
      SortByCountTies(t[1..], s);
      var u := SortDesc(t[1..], ByCount);
      forall k | 0 <= k < |u| ensures u[k].0 in s && FirstIndex(s, t[0].0) < FirstIndex(s, u[k].0) {
        assert u[k] in multiset(t[1..]);
        var m :| 0 <= m < |t[1..]| && t[1..][m] == u[k];
        assert t[m + 1] == u[k];
      }
      InsertByCountTies(t[0], u, s);
    }
  }

  /** Two lists with the same elements have the same keys. */
  lemma SameElementsSameKeys<T>(r: seq<(T, nat)>, t: seq<(T, nat)>, i: nat)
    requires multiset(r) == multiset(t) && i < |r|
    ensures r[i] in t && r[i].0 in Keys(t)
  {
    assert r[i] in multiset(t);
    var k :| 0 <= k < |t| && t[k] == r[i];
    assert Keys(t)[k] == r[i].0;
  }

  /** Keys of a list with a head. */
  lemma DistinctKeysCons<T>(h: (T, nat), t: seq<(T, nat)>)
    requires Distinct(Keys(t)) && h.0 !in Keys(t)
    ensures Distinct(Keys([h] + t))
  {
    var k := Keys([h] + t);
    forall i, j | 0 <= i < j < |k| ensures k[i] != k[j] {
      assert k[j] == Keys(t)[j - 1];
      if i > 0 {
        assert k[i] == Keys(t)[i - 1];
      }
    }
  }

  /** An entry of `InsertDesc(p, u[1..], le)` does not have the key of `u[0]` when the keys of `p` and `u` are distinct. */
  lemma InsertedAvoidsHead<T>(p: (T, nat), u: seq<(T, nat)>, le: ((T, nat), (T, nat)) -> bool)
    requires u != [] && Distinct(Keys(u)) && p.0 !in Keys(u)
    ensures u[0].0 !in Keys(InsertDesc(p, u[1..], le))
  {
    var rest := InsertDesc(p, u[1..], le);
    forall k | 0 <= k < |rest| ensures rest[k].0 != u[0].0 {
      KeyOfInserted(p, u[1..], le, k);
      assert Keys(u)[0] == u[0].0;
      if rest[k] != p {
        var m :| 0 <= m < |u[1..]| && u[1..][m] == rest[k];
        assert Keys(u)[m + 1] == rest[k].0;
      }
    }
  }

  lemma {:induction false} InsertDescKeys<T>(p: (T, nat), u: seq<(T, nat)>, le: ((T, nat), (T, nat)) -> bool)
    requires Distinct(Keys(u)) && p.0 !in Keys(u)
    ensures Distinct(Keys(InsertDesc(p, u, le)))
  {
    if u == [] || le(u[0], p) {
      DistinctKeysCons(p, u);
    } else {
      assert Keys(u[1..]) == Keys(u)[1..];
      InsertDescKeys(p, u[1..], le);
      InsertedAvoidsHead(p, u, le);
      DistinctKeysCons(u[0], InsertDesc(p, u[1..], le));
    }
  }

  lemma KeyOfInserted<T>(p: (T, nat), u: seq<(T, nat)>, le: ((T, nat), (T, nat)) -> bool, k: nat)
    requires k < |InsertDesc(p, u, le)|
    ensures var x := InsertDesc(p, u, le)[k]; x == p || x in u
  {
    var r := InsertDesc(p, u, le);
    assert r[k] in multiset(r);
  }

  lemma {:induction false} SortDescKeys<T>(t: seq<(T, nat)>, le: ((T, nat), (T, nat)) -> bool)
    requires Distinct(Keys(t))
    ensures Distinct(Keys(SortDesc(t, le)))
  {
    if t != [] {
      assert Keys(t[1..]) == Keys(t)[1..];
      SortDescKeys(t[1..], le);
      var u := SortDesc(t[1..], le);
      forall k | 0 <= k < |u| ensures Keys(u)[k] != t[0].0 {
        SameElementsSameKeys(u, t[1..], k);
      }
      InsertDescKeys(t[0], u, le);
    }
  }

  /** `most_common()` lists each key once. */
  lemma MostCommonAllDistinct<T>(s: seq<T>)
    ensures Distinct(Keys(MostCommonAll(s)))
  {
    TallyIsCounter(s);
    SortDescKeys(Tally(s), ByCount);
  }

  /** `most_common()` lists every element of `s`. */
  lemma MostCommonAllCovers<T>(s: seq<T>)
    ensures forall i :: 0 <= i < |s| ==> s[i] in Keys(MostCommonAll(s))
  {
    var t, all := Tally(s), MostCommonAll(s);
    TallyCovers(s);
    forall i | 0 <= i < |s| ensures s[i] in Keys(all) {
      var k :| 0 <= k < |t| && Keys(t)[k] == s[i];
      SameElementsSameKeys(t, all, k);
    }
  }

  /** `most_common()` gives each element its exact count. */
  lemma MostCommonAllCounts<T>(s: seq<T>)
    ensures forall i :: 0 <= i < |MostCommonAll(s)| ==>
      MostCommonAll(s)[i].0 in s && MostCommonAll(s)[i].1 == Count(s, MostCommonAll(s)[i].0)
  {
    var t, all := Tally(s), MostCommonAll(s);
    TallyCounts(s);
    forall i | 0 <= i < |all| ensures all[i].0 in s && all[i].1 == Count(s, all[i].0) {
      assert all[i] in multiset(t);
      var k :| 0 <= k < |t| && t[k] == all[i];
    }
  }

  /** `most_common()` lists the largest count first. */
  lemma MostCommonAllSorted<T(!new)>(s: seq<T>)
    ensures forall i, j :: 0 <= i < j < |MostCommonAll(s)| ==> MostCommonAll(s)[j].1 <= MostCommonAll(s)[i].1
  {
    ByCountIsPreorder<T>();
    SortDescSorted(Tally(s), ByCount);
  }

  /**
   * `most_common()` lists every distinct element of `s` once, with its exact
   * count, largest count first, ties in order of first occurrence.
   */
  lemma MostCommonAllSpec<T(!new)>(s: seq<T>)
    ensures Distinct(Keys(MostCommonAll(s)))
    ensures forall i :: 0 <= i < |s| ==> s[i] in Keys(MostCommonAll(s))
    ensures forall i :: 0 <= i < |MostCommonAll(s)| ==>
      MostCommonAll(s)[i].0 in s && MostCommonAll(s)[i].1 == Count(s, MostCommonAll(s)[i].0)
    ensures forall i, j :: 0 <= i < j < |MostCommonAll(s)| ==> MostCommonAll(s)[j].1 <= MostCommonAll(s)[i].1
    ensures TiesInFirstOccurrenceOrder(MostCommonAll(s), s)
  {
    MostCommonAllDistinct(s);
    MostCommonAllCovers(s);
    MostCommonAllCounts(s);
    MostCommonAllSorted(s);
    TallyIsCounter(s);
    SortByCountTies(Tally(s), s);
  }

  /** An element that `most_common(k)` leaves out occurs no more often than the last one listed. */
  lemma MostCommonOmitted<T(!new)>(s: seq<T>, k: nat, x: T)
    requires x in s && x !in Keys(MostCommon(s, k))
    ensures |MostCommon(s, k)| == k && (0 < k ==> Count(s, x) <= MostCommon(s, k)[k - 1].1)
  {
    var all := MostCommonAll(s);
    var r := MostCommon(s, k);
    MostCommonAllCovers(s);
    MostCommonAllCounts(s);
    MostCommonAllSorted(s);
    var m :| 0 <= m < |s| && s[m] == x;
    assert x in Keys(all);
    var j :| 0 <= j < |all| && Keys(all)[j] == x;
    assert forall i :: 0 <= i < |r| ==> Keys(r)[i] == Keys(all)[i];
    assert |r| <= j;
    assert |r| == k;
    if 0 < k {
      assert all[j].1 <= all[k - 1].1;
    }
  }

  /** The entries of `most_common(k)`: distinct keys, exact counts, largest first. */
  lemma MostCommonEntries<T(!new)>(s: seq<T>, k: nat)
    ensures Distinct(Keys(MostCommon(s, k)))
    ensures forall i :: 0 <= i < |MostCommon(s, k)| ==>
      MostCommon(s, k)[i].0 in s && MostCommon(s, k)[i].1 == Count(s, MostCommon(s, k)[i].0)
    ensures forall i, j :: 0 <= i < j < |MostCommon(s, k)| ==> MostCommon(s, k)[j].1 <= MostCommon(s, k)[i].1
  {
    var all, r := MostCommonAll(s), MostCommon(s, k);
    MostCommonAllDistinct(s);
    MostCommonAllCounts(s);
    MostCommonAllSorted(s);
    assert Keys(r) == Keys(all)[..|r|];
  }

  /**
   * `most_common(k)` lists at most `k` distinct elements of `s` with their
   * exact counts, largest first; an element left out occurs no more often
   * than the last one listed, and is left out only when `k` entries are listed.
   */
  lemma MostCommonSpec<T(!new)>(s: seq<T>, k: nat)
    ensures |MostCommon(s, k)| <= k
    ensures Distinct(Keys(MostCommon(s, k)))
    ensures forall i :: 0 <= i < |MostCommon(s, k)| ==>
      MostCommon(s, k)[i].0 in s && MostCommon(s, k)[i].1 == Count(s, MostCommon(s, k)[i].0)
    ensures forall i, j :: 0 <= i < j < |MostCommon(s, k)| ==> MostCommon(s, k)[j].1 <= MostCommon(s, k)[i].1
    ensures forall x :: x in s && x !in Keys(MostCommon(s, k)) ==>
      |MostCommon(s, k)| == k && (0 < k ==> Count(s, x) <= MostCommon(s, k)[k - 1].1)
  {
    MostCommonEntries(s, k);
    forall x | x in s && x !in Keys(MostCommon(s, k))
      ensures |MostCommon(s, k)| == k && (0 < k ==> Count(s, x) <= MostCommon(s, k)[k - 1].1)
    {
      MostCommonOmitted(s, k, x);
    }
  }

  /** The first entry of `most_common(k)` has the largest count of all. */
  lemma MostCommonFirstIsMax<T(!new)>(s: seq<T>, k: nat)
    requires s != [] && k > 0
    ensures |MostCommon(s, k)| > 0 && MostCommon(s, k)[0].0 in s
    ensures MostCommon(s, k)[0].1 == Count(s, MostCommon(s, k)[0].0)
    ensures forall x :: Count(s, x) <= MostCommon(s, k)[0].1
  {
    MostCommonAllCovers(s);
    MostCommonAllCounts(s);
    MostCommonAllSorted(s);
    var all := MostCommonAll(s);
    assert s[0] in Keys(all);
    forall x ensures Count(s, x) <= all[0].1 {
      if x in s {
        var m :| 0 <= m < |s| && s[m] == x;
        assert x in Keys(all);
        var j :| 0 <= j < |all| && Keys(all)[j] == x;
        assert all[j].1 == Count(s, x) && all[j].1 <= all[0].1;
      }
    }
  }

  /** `most_common(1)[0][0]`: the element with the largest count, first seen among equals. */
  function TopKey<T(==,!new)>(s: seq<T>): (k: T)
    requires s != []
    ensures k in s && forall x :: Count(s, x) <= Count(s, k)
  {
    MostCommonFirstIsMax(s, 1);
    MostCommon(s, 1)[0].0
  }

  /** Inserting an entry adds its count to the total. */
  lemma {:induction false} InsertDescTotal<T>(p: (T, nat), u: seq<(T, nat)>, le: ((T, nat), (T, nat)) -> bool)
    ensures Total(InsertDesc(p, u, le)) == p.1 + Total(u)
  {
    if u != [] && !le(u[0], p) {
      InsertDescTotal(p, u[1..], le);
    }
  }

  /** Sorting entries keeps their total. */
  lemma {:induction false} SortDescTotal<T>(t: seq<(T, nat)>, le: ((T, nat), (T, nat)) -> bool)
    ensures Total(SortDesc(t, le)) == Total(t)
  {
    if t != [] {
      SortDescTotal(t[1..], le);
      InsertDescTotal(t[0], SortDesc(t[1..], le), le);
    }
  }

  /** `most_common()` with no bound: its counts add up to the number of elements counted. */
  lemma MostCommonAllTotal<T>(s: seq<T>)
    ensures Total(MostCommonAll(s)) == |s|
  {
    TallyTotal(s);
    SortDescTotal(Tally(s), ByCount);
  }

  /** `most_common(k)` is empty exactly when nothing was counted or `k` is 0. */
  lemma MostCommonEmpty<T(!new)>(s: seq<T>, k: nat)
    ensures MostCommon(s, k) == [] <==> s == [] || k == 0
  {
    MostCommonAllSpec(s);
    if s == [] {
      assert Tally(s) == [];
    } else if k > 0 {
      MostCommonFirstIsMax(s, k);
    }
  }
}
