/**
 * Ordering of query results: the `ORDER BY` clauses of the handlers and
 * Python's `sorted` over the set of online users. A result is specified by
 * being sorted by the comparison and a permutation of its input; ties are
 * left in insertion order, which the database does not promise.
 */
module Sorting {
  import opened Text

  /** `le` is total and transitive: a comparison one can sort by. */
  ghost predicate TotalPreorder<T(!new)>(le: (T, T) -> bool) {
    && (forall a, b :: le(a, b) || le(b, a))
    && (forall a, b, c :: le(a, b) && le(b, c) ==> le(a, c))
  }

  predicate Sorted<T>(s: seq<T>, le: (T, T) -> bool) {
    forall i, j :: 0 <= i < j < |s| ==> le(s[i], s[j])
  }

  /** A value below `x` and below every element of `rest` is below every element of a permutation of both. */
  lemma LowerBound<T>(lo: T, x: T, rest: seq<T>, t: seq<T>, le: (T, T) -> bool)
    requires multiset(t) == multiset(rest) + multiset{x}
    requires le(lo, x) && forall k :: 0 <= k < |rest| ==> le(lo, rest[k])
    ensures forall k :: 0 <= k < |t| ==> le(lo, t[k])
  {
    forall k | 0 <= k < |t|
      ensures le(lo, t[k])
    {
      assert t[k] in multiset(t);
      if t[k] != x {
        assert t[k] in multiset(rest);
        var j :| 0 <= j < |rest| && rest[j] == t[k];
      }
    }
  }

  /** A value below every element of a sorted list can be put in front of it. */
  lemma SortedCons<T>(lo: T, t: seq<T>, le: (T, T) -> bool)
    requires Sorted(t, le) && forall k :: 0 <= k < |t| ==> le(lo, t[k])
    ensures Sorted([lo] + t, le)
  {
    var r := [lo] + t;
    forall i, j | 0 <= i < j < |r| ensures le(r[i], r[j]) {
      if i == 0 {
        assert r[j] == t[j - 1];
      } else {
        assert r[i] == t[i - 1] && r[j] == t[j - 1];
      }
    }
  }

  /** A value below the head of a sorted list is below all of it. */
  lemma BelowHead<T(!new)>(x: T, s: seq<T>, le: (T, T) -> bool)
    requires TotalPreorder(le) && Sorted(s, le) && s != [] && le(x, s[0])
    ensures forall k :: 0 <= k < |s| ==> le(x, s[k])
  {
    forall k | 0 <= k < |s| ensures le(x, s[k]) {
      if k > 0 {
        assert le(s[0], s[k]);
      }
    }
  }

  /** Inserts `x` into the sorted `s` before the first element it precedes. */
  function Insert<T(!new)>(x: T, s: seq<T>, le: (T, T) -> bool): (r: seq<T>)
    requires TotalPreorder(le) && Sorted(s, le)
    ensures Sorted(r, le)
    ensures multiset(r) == multiset(s) + multiset{x}
  {
    if s == [] then
      [x]
    else if le(x, s[0]) then
      BelowHead(x, s, le);
      SortedCons(x, s, le);
      [x] + s
    else
      var rest := s[1..];
      var t := Insert(x, rest, le);
      assert s == [s[0]] + rest;
      assert forall k :: 0 <= k < |rest| ==> rest[k] == s[k + 1];
      LowerBound(s[0], x, rest, t, le);
      SortedCons(s[0], t, le);
      [s[0]] + t
  }

  /** Insertion sort: a sorted permutation of `s`. */
  function Sort<T(!new)>(s: seq<T>, le: (T, T) -> bool): (r: seq<T>)
    requires TotalPreorder(le)
    ensures Sorted(r, le)
    ensures multiset(r) == multiset(s)
    ensures |r| == |s|
  {
    if s == [] then []
    else
      assert s == [s[0]] + s[1..];
      Insert(s[0], Sort(s[1..], le), le)
  }

  ghost predicate NoDuplicates<T>(s: seq<T>) {
    forall i, j :: 0 <= i < j < |s| ==> s[i] != s[j]
  }

  lemma {:induction false} NoDuplicatesCount<T>(s: seq<T>, x: T)
    requires NoDuplicates(s)
    ensures multiset(s)[x] <= 1
  {
    if s != [] {
      assert s == [s[0]] + s[1..];
      NoDuplicatesCount(s[1..], x);
      if x == s[0] {
        assert x !in s[1..];
      }
    }
  }

  /** A permutation of a sequence without duplicates has none either. */
  lemma PermutationNoDuplicates<T>(a: seq<T>, b: seq<T>)
    requires multiset(a) == multiset(b) && NoDuplicates(a)
    ensures NoDuplicates(b)
  {
    forall i, j | 0 <= i < j < |b| ensures b[i] != b[j] {
      NoDuplicatesCount(a, b[i]);
      assert b == b[..j] + b[j..];
      assert multiset(b) == multiset(b[..j]) + multiset(b[j..]);
      assert b[..j][i] == b[i];
      assert b[i] in multiset(b[..j]);
      assert multiset(b[j..])[b[i]] == 0;
      assert b[j..][0] == b[j];
      assert b[j] in multiset(b[j..]);
    }
  }

  /** Ascending order of a string key, code point by code point. */
  function ByName<T>(key: T -> string): (le: (T, T) -> bool) {
    (a: T, b: T) => LexLe(key(a), key(b))
  }

  /** Two elements of a sequence sorted by name are in order of their keys. */
  lemma ByNameOrdered<T>(key: T -> string, s: seq<T>, i: nat, j: nat)
    requires Sorted(s, ByName(key)) && i < j < |s|
    ensures LexLe(key(s[i]), key(s[j]))
  {
    assert ByName(key)(s[i], s[j]);
  }

  lemma ByNameTotalPreorder<T(!new)>(key: T -> string)
    ensures TotalPreorder(ByName(key))
  {
    var le := ByName(key);
    forall a, b ensures le(a, b) || le(b, a) {
      LexLeTotal(key(a), key(b));
    }
    forall a, b, c | le(a, b) && le(b, c) ensures le(a, c) {
      LexLeTransitive(key(a), key(b), key(c));
    }
  }

  /** Descending order of a numeric rank (newest first, most first). */
  function ByRankDescending<T>(rank: T -> int): (le: (T, T) -> bool) {
    (a: T, b: T) => rank(a) >= rank(b)
  }

  /** Two elements of a sequence sorted by descending rank are in order of their ranks. */
  lemma ByRankDescendingOrdered<T>(rank: T -> int, s: seq<T>, i: nat, j: nat)
    requires Sorted(s, ByRankDescending(rank)) && i < j < |s|
    ensures rank(s[i]) >= rank(s[j])
  {
    assert ByRankDescending(rank)(s[i], s[j]);
  }

  lemma ByRankDescendingTotalPreorder<T(!new)>(rank: T -> int)
    ensures TotalPreorder(ByRankDescending(rank))
  {
  }

  /** The least string of a non-empty set exists. */
  lemma LeastExists(s: set<string>)
    requires s != {}
    ensures exists m :: m in s && forall x :: x in s ==> LexLe(m, x)
  {
    var y :| y in s;
    var rest := s - {y};
    LexLeReflexive(y);
    if rest == {} {
      assert s == {y};
      assert forall x :: x in s ==> LexLe(y, x);
    } else {
      LeastExists(rest);
      var m :| m in rest && forall x :: x in rest ==> LexLe(m, x);
      LexLeTotal(m, y);
      if LexLe(m, y) {
        forall x | x in s ensures LexLe(m, x) {
          if x != y { assert x in rest; }
        }
        assert m in s;
      } else {
        forall x | x in s ensures LexLe(y, x) {
          if x != y {
            assert x in rest;
            LexLeTransitive(y, m, x);
          }
        }
      }
    }
  }

  /** The least string of a non-empty set, which is unique. */
  function Least(s: set<string>): (m: string)
    requires s != {}
    ensures m in s
    ensures forall x :: x in s ==> LexLe(m, x)
  {
    LeastExists(s);
    assert forall a, b :: LexLe(a, b) && LexLe(b, a) ==> a == b by {
      forall a, b | LexLe(a, b) && LexLe(b, a) ensures a == b {
        LexLeAntisymmetric(a, b);
      }
    }
    var m :| m in s && forall x :: x in s ==> LexLe(m, x);
    m
  }

  predicate StrictlyAscending(r: seq<string>) {
    forall i, j :: 0 <= i < j < |r| ==> LexLe(r[i], r[j]) && r[i] != r[j]
  }

  /** Python's `sorted(list(s))` on a set of strings. */
  function SortedSet(s: set<string>): (r: seq<string>)
    ensures |r| == |s|
    ensures forall x :: x in r <==> x in s
    ensures StrictlyAscending(r)
  {
    if s == {} then []
    else
      var m := Least(s);
      var t := SortedSet(s - {m});
      [m] + t
  }
}
