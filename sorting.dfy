/**
 * Orderings as the renderer uses them: lexicographic comparison (Rust's
 * ordering of strings and of address octets), and sorting by a total
 * preorder, modelled by insertion sort and proved to give a sorted
 * permutation of its input.
 */
module Sorting {

  datatype Ordering = Less | Equal | Greater

  /**
   * Lexicographic order: the first differing element decides, and a proper
   * prefix comes first. Rust orders strings by their UTF-8 bytes, which
   * follow code point order, so comparing code points gives the same result.
   */
  function LexCmp(a: seq<int>, b: seq<int>): (r: Ordering)
  {
    if |a| == 0 then (if |b| == 0 then Equal else Less)
    else if |b| == 0 then Greater
    else if a[0] < b[0] then Less
    else if a[0] > b[0] then Greater
    else LexCmp(a[1..], b[1..])
  }

  /** Only equal sequences compare equal, and swapping the operands swaps Less and Greater. */
  lemma {:induction false} LexCmpProps(a: seq<int>, b: seq<int>)
    ensures LexCmp(a, b) == Equal <==> a == b
    ensures LexCmp(a, b) == Less <==> LexCmp(b, a) == Greater
  {
    if |a| > 0 && |b| > 0 && a[0] == b[0] {
      LexCmpProps(a[1..], b[1..]);
      if a[1..] == b[1..] {
        assert a == [a[0]] + a[1..] && b == [b[0]] + b[1..];
      }
    }
  }

  /** Less is transitive. */
  lemma {:induction false} LexCmpTrans(a: seq<int>, b: seq<int>, c: seq<int>)
    requires LexCmp(a, b) == Less && LexCmp(b, c) == Less
    ensures LexCmp(a, c) == Less
  {
    if |a| > 0 && |b| > 0 && |c| > 0 && a[0] == b[0] && b[0] == c[0] {
      LexCmpTrans(a[1..], b[1..], c[1..]);
    }
  }

  /** The code points of a string. */
  function Codes(s: string): (r: seq<int>)
    ensures |r| == |s| && forall i :: 0 <= i < |s| ==> r[i] == s[i] as int
  {
    seq(|s|, i requires 0 <= i < |s| => s[i] as int)
  }

  lemma {:induction false} CodesInjective(a: string, b: string)
    requires Codes(a) == Codes(b)
    ensures a == b
  {
    assert forall i :: 0 <= i < |a| ==> a[i] as int == b[i] as int;
  }

  /** `String::cmp`. */
  function StrCmp(a: string, b: string): (r: Ordering)
  {
    LexCmp(Codes(a), Codes(b))
  }

  /** String comparison is a total order: equal only on equal strings, antisymmetric, transitive. */
  lemma {:induction false} StrCmpProps(a: string, b: string, c: string)
    ensures StrCmp(a, b) == Equal <==> a == b
    ensures StrCmp(a, b) == Less <==> StrCmp(b, a) == Greater
    ensures StrCmp(a, b) == Less && StrCmp(b, c) == Less ==> StrCmp(a, c) == Less
  {
    LexCmpProps(Codes(a), Codes(b));
    if Codes(a) == Codes(b) {
      CodesInjective(a, b);
    }
    if StrCmp(a, b) == Less && StrCmp(b, c) == Less {
      LexCmpTrans(Codes(a), Codes(b), Codes(c));
    }
  }

  // ----------------------------------------------------------------- sorting

  /** Any two elements are related, and the relation is transitive. */
  ghost predicate TotalPreorder<T(!new)>(le: (T, T) -> bool) {
    && (forall a, b :: le(a, b) || le(b, a))
    && (forall a, b, c :: le(a, b) && le(b, c) ==> le(a, c))
  }

  predicate SortedBy<T>(xs: seq<T>, le: (T, T) -> bool) {
    forall i, j :: 0 <= i < j < |xs| ==> le(xs[i], xs[j])
  }

  /** `x` placed before the first element it is not after. */
  function InsertBy<T>(x: T, xs: seq<T>, le: (T, T) -> bool): (r: seq<T>)
    ensures multiset(r) == multiset(xs) + multiset{x}
  {
    if |xs| == 0 then [x]
    else if le(x, xs[0]) then [x] + xs
    else
      var rest := InsertBy(x, xs[1..], le);
      assert xs == [xs[0]] + xs[1..];
      [xs[0]] + rest
  }

  /** Sorting by insertion, last element first, so elements that compare equal keep their order. */
  function SortBy<T>(xs: seq<T>, le: (T, T) -> bool): (r: seq<T>)
    ensures multiset(r) == multiset(xs)
  {
    if |xs| == 0 then []
    else
      assert xs == [xs[0]] + xs[1..];
      InsertBy(xs[0], SortBy(xs[1..], le), le)
  }

  lemma {:induction false} InsertBySorted<T(!new)>(x: T, xs: seq<T>, le: (T, T) -> bool)
    requires TotalPreorder(le) && SortedBy(xs, le)
    ensures SortedBy(InsertBy(x, xs, le), le)
  {
    if |xs| > 0 {
      if le(x, xs[0]) {
        ConsSorted(x, xs, le);
      } else {
        var rest := InsertBy(x, xs[1..], le);
        InsertBySorted(x, xs[1..], le);
        forall j | 0 <= j < |rest|
          ensures le(xs[0], rest[j])
        {
          InsertByMember(x, xs[1..], le, rest[j]);
          if rest[j] != x {
            var k :| 0 <= k < |xs[1..]| && xs[1..][k] == rest[j];
            assert xs[k + 1] == rest[j];
          }
        }
        ConsSorted(xs[0], rest, le);
      }
    }
  }

  /** Putting in front an element related to everything keeps a sorted sequence sorted. */
  lemma {:induction false} ConsSorted<T(!new)>(x: T, xs: seq<T>, le: (T, T) -> bool)
    requires TotalPreorder(le) && SortedBy(xs, le)
    requires |xs| > 0 ==> le(x, xs[0])
    requires forall j :: 0 <= j < |xs| ==> le(x, xs[j]) || le(xs[0], xs[j])
    ensures SortedBy([x] + xs, le)
  {
    var r := [x] + xs;
    forall i, j | 0 <= i < j < |r|
      ensures le(r[i], r[j])
    {
      if i > 0 {
        assert r[i] == xs[i - 1] && r[j] == xs[j - 1];
      } else {
        assert r[j] == xs[j - 1];
      }
    }
  }

  /** Sorting gives a permutation of the input that is sorted by the order. */
  lemma {:induction false} SortBySorted<T(!new)>(xs: seq<T>, le: (T, T) -> bool)
    requires TotalPreorder(le)
    ensures SortedBy(SortBy(xs, le), le)
  {
    if |xs| > 0 {
      SortBySorted(xs[1..], le);
      InsertBySorted(xs[0], SortBy(xs[1..], le), le);
    }
  }

  /** No two elements share a key. */
  predicate DistinctBy<T, K(==)>(xs: seq<T>, key: T -> K) {
    forall i, j :: 0 <= i < j < |xs| ==> key(xs[i]) != key(xs[j])
  }

  lemma {:induction false} InsertByDistinct<T, K>(x: T, xs: seq<T>, le: (T, T) -> bool, key: T -> K)
    requires DistinctBy(xs, key) && forall y :: y in xs ==> key(y) != key(x)
    ensures DistinctBy(InsertBy(x, xs, le), key)
  {
    var r := InsertBy(x, xs, le);
    if |xs| > 0 {
      if le(x, xs[0]) {
        forall i, j | 0 <= i < j < |r|
          ensures key(r[i]) != key(r[j])
        {
          assert r[j] == xs[j - 1];
        }
      } else {
        var rest := InsertBy(x, xs[1..], le);
        InsertByDistinct(x, xs[1..], le, key);
        forall j | 0 <= j < |rest|
          ensures key(rest[j]) != key(xs[0])
        {
          InsertByMember(x, xs[1..], le, rest[j]);
        }
        forall i, j | 0 <= i < j < |r|
          ensures key(r[i]) != key(r[j])
        {
          assert r[j] == rest[j - 1];
          if i > 0 {
            assert r[i] == rest[i - 1];
          }
        }
      }
    }
  }

  /** Every element of the result is the inserted one or an element of the input. */
  lemma {:induction false} InsertByMember<T>(x: T, xs: seq<T>, le: (T, T) -> bool, y: T)
    requires y in InsertBy(x, xs, le)
    ensures y == x || y in xs
  {
    assert y in multiset(InsertBy(x, xs, le));
  }

  /** Sorting keeps keys that were distinct distinct. */
  lemma {:induction false} SortByDistinct<T, K>(xs: seq<T>, le: (T, T) -> bool, key: T -> K)
    requires DistinctBy(xs, key)
    ensures DistinctBy(SortBy(xs, le), key)
  {
    if |xs| > 0 {
      var sorted := SortBy(xs[1..], le);
      SortByDistinct(xs[1..], le, key);
      forall y | y in sorted
        ensures key(y) != key(xs[0])
      {
        assert y in multiset(sorted);
        assert y in multiset(xs[1..]);
        var k :| 0 <= k < |xs[1..]| && xs[1..][k] == y;
        assert xs[k + 1] == y;
      }
      InsertByDistinct(xs[0], sorted, le, key);
    }
  }
}
