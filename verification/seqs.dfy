/** The two shapes every query here takes: keep the rows a predicate selects,
    and order rows by a comparison (an SQL ORDER BY). */
module Seqs {
  import opened Wrappers

  /** Keeps, in their order, the elements that satisfy keep. */
  function Filter<T(!new)>(s: seq<T>, keep: T -> bool): (r: seq<T>)
    ensures forall x :: multiset(r)[x] == if keep(x) then multiset(s)[x] else 0
    ensures forall x :: x in r <==> x in s && keep(x)
    ensures |r| <= |s|
  {
    if s == [] then []
    else
      var rest := Filter(s[1..], keep);
      assert s == [s[0]] + s[1..];
      if keep(s[0]) then [s[0]] + rest else rest
  }

  /** le is a total preorder: every pair is comparable and le is transitive. */
  ghost predicate TotalPreorder<T(!new)>(le: (T, T) -> bool)
  {
    (forall a, b :: le(a, b) || le(b, a)) &&
    (forall a, b, c :: le(a, b) && le(b, c) ==> le(a, c))
  }

  /** Every element is le every element after it. */
  ghost predicate Sorted<T>(s: seq<T>, le: (T, T) -> bool)
  {
    forall i, j :: 0 <= i < j < |s| ==> le(s[i], s[j])
  }

  /** Puts x before the first element it is le, which keeps earlier equal
      elements ahead of it. */
  function Insert<T>(x: T, s: seq<T>, le: (T, T) -> bool): (r: seq<T>)
    ensures multiset(r) == multiset(s) + multiset{x}
    ensures |r| == |s| + 1
  {
    if s == [] || le(x, s[0]) then [x] + s
    else
      assert s == [s[0]] + s[1..];
      [s[0]] + Insert(x, s[1..], le)
  }

  /** Insertion sort: the rows in the order le gives, ties in input order. */
  function SortBy<T>(s: seq<T>, le: (T, T) -> bool): (r: seq<T>)
    ensures multiset(r) == multiset(s)
    ensures |r| == |s|
  {
    if s == [] then []
    else
      assert s == [s[0]] + s[1..];
      Insert(s[0], SortBy(s[1..], le), le)
  }

  lemma {:induction false} InsertSorted<T(!new)>(x: T, s: seq<T>, le: (T, T) -> bool)
    requires TotalPreorder(le) && Sorted(s, le)
    ensures Sorted(Insert(x, s, le), le)
  {
    if s == [] || le(x, s[0]) {
      var r := [x] + s;
      forall i, j | 0 <= i < j < |r| ensures le(r[i], r[j]) {
        if i == 0 && j > 1 {
          assert le(s[0], s[j - 1]);
        }
      }
    } else {
      var tail := Insert(x, s[1..], le);
      InsertSorted(x, s[1..], le);
      var r := [s[0]] + tail;
      assert le(s[0], x);
      forall i, j | 0 <= i < j < |r| ensures le(r[i], r[j]) {
        if i == 0 {
          var y := tail[j - 1];
          assert y in multiset(tail);
          assert y == x || y in multiset(s[1..]);
          if y != x {
            var k :| 0 <= k < |s[1..]| && s[1..][k] == y;
            assert le(s[0], s[k + 1]);
          }
        }
      }
    }
  }

  /** SortBy returns its input ordered by le. */
  lemma {:induction false} SortBySorted<T(!new)>(s: seq<T>, le: (T, T) -> bool)
    requires TotalPreorder(le)
    ensures Sorted(SortBy(s, le), le)
  {
    if s != [] {
      SortBySorted(s[1..], le);
      InsertSorted(s[0], SortBy(s[1..], le), le);
    }
  }

  /** The first n elements, or all of them when there are fewer: SQL LIMIT n. */
  function Take<T>(s: seq<T>, n: nat): (r: seq<T>)
    ensures |r| == if |s| < n then |s| else n
    ensures r == s[..|r|]
    ensures forall x :: x in r ==> x in s
    ensures multiset(r) <= multiset(s)
  {
    if |s| <= n then s
    else
      assert s == s[..n] + s[n..];
      s[..n]
  }

  /** A prefix of a sorted sequence is sorted. */
  lemma TakeSorted<T>(s: seq<T>, n: nat, le: (T, T) -> bool)
    requires Sorted(s, le)
    ensures Sorted(Take(s, n), le)
  {
  }

  /** An element of a sorted sequence that the first n leave out comes
      after all of them: then there are n of them, and each is le it. */
  lemma TakeSortedDominates<T>(s: seq<T>, n: nat, j: nat, le: (T, T) -> bool)
    requires Sorted(s, le) && j < |s| && s[j] !in Take(s, n)
    ensures |Take(s, n)| == n
    ensures forall i :: 0 <= i < |Take(s, n)| ==> le(Take(s, n)[i], s[j])
  {
  }

  /** The position of the first element hit selects (a lookup by key, as
      query.get and filter_by(...).first() do), or None. */
  function Find<T>(s: seq<T>, hit: T -> bool): (r: Option<nat>)
    ensures r.Some? ==> r.value < |s| && hit(s[r.value])
    ensures r.Some? ==> forall i :: 0 <= i < r.value ==> !hit(s[i])
    ensures r.None? ==> forall i :: 0 <= i < |s| ==> !hit(s[i])
  {
    if s == [] then None
    else if hit(s[0]) then Some(0)
    else match Find(s[1..], hit)
      case None => None
      case Some(k) => Some(k + 1)
  }

  /** The greatest key of the rows, 0 for none: what SQLite reads to give
      an INTEGER PRIMARY KEY its next value. */
  function MaxKey<T>(s: seq<T>, key: T -> nat): (m: nat)
    ensures forall i :: 0 <= i < |s| ==> key(s[i]) <= m
    ensures s == [] ==> m == 0
    ensures s != [] ==> exists i :: 0 <= i < |s| && key(s[i]) == m
  {
    if s == [] then 0
    else
      var m := MaxKey(s[..|s| - 1], key);
      if key(s[|s| - 1]) > m then key(s[|s| - 1]) else m
  }

  /** Rows the predicate rejects, put in front, change nothing. */
  lemma {:induction false} FilterSkip<T(!new)>(a: seq<T>, b: seq<T>, keep: T -> bool)
    requires forall i :: 0 <= i < |a| ==> !keep(a[i])
    ensures Filter(a + b, keep) == Filter(b, keep)
  {
    if a == [] {
      assert a + b == b;
    } else {
      assert a + b == [a[0]] + (a[1..] + b);
      FilterCons(a[0], a[1..] + b, keep);
      FilterSkip(a[1..], b, keep);
    }
  }

  /** One step of Filter's recursion. */
  lemma FilterCons<T(!new)>(x: T, s: seq<T>, keep: T -> bool)
    ensures Filter([x] + s, keep) == if keep(x) then [x] + Filter(s, keep) else Filter(s, keep)
  {
    assert ([x] + s)[1..] == s;
  }

  /** Everything selected, everything kept in order. */
  lemma {:induction false} FilterAll<T(!new)>(s: seq<T>, keep: T -> bool)
    requires forall i :: 0 <= i < |s| ==> keep(s[i])
    ensures Filter(s, keep) == s
  {
    if s != [] {
      FilterAll(s[1..], keep);
      assert s == [s[0]] + s[1..];
    }
  }
}
