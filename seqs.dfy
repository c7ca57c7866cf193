/** Generic sequence notions used by several components: `Array.prototype.reverse`,
    "is an order-preserving subsequence of", and splitting at a separator
    (`String.prototype.split` with a one-character separator, and the splitting
    of a byte sequence at a byte). */
module Seqs {

  /** The elements of `s` in the opposite order. */
  function Reverse<T>(s: seq<T>): (r: seq<T>)
    ensures |r| == |s|
  {
    seq(|s|, i requires 0 <= i < |s| => s[|s| - 1 - i])
  }

  /** `a` is obtained from `b` by dropping some elements and keeping the rest in order. */
  predicate IsSubsequence<T(==)>(a: seq<T>, b: seq<T>)
    decreases |b|
  {
    if a == [] then true
    else if b == [] then false
    else (a[0] == b[0] && IsSubsequence(a[1..], b[1..])) || IsSubsequence(a, b[1..])
  }

  /** Reversing twice gives the original order back. */
  lemma ReverseReverse<T>(s: seq<T>)
    ensures Reverse(Reverse(s)) == s
  {
  }

  /** Reversal keeps the elements and their multiplicities. */
  lemma {:induction false} ReverseMultiset<T>(s: seq<T>)
    ensures multiset(Reverse(s)) == multiset(s)
    decreases |s|
  {
    if s != [] {
      var t := s[1..];
      ReverseMultiset(t);
      assert Reverse(s) == Reverse(t) + [s[0]];
      assert s == [s[0]] + t;
    }
  }

  /** `s.map(f)`. */
  function Map<A, B>(s: seq<A>, f: A -> B): (r: seq<B>)
    ensures |r| == |s|
  {
    seq(|s|, i requires 0 <= i < |s| => f(s[i]))
  }

  /** `s.filter(p)`: the elements satisfying `p`, in their order. */
  function Filter<T>(s: seq<T>, p: T -> bool): (r: seq<T>)
    ensures |r| <= |s|
    decreases |s|
  {
    if s == [] then []
    else if p(s[0]) then [s[0]] + Filter(s[1..], p)
    else Filter(s[1..], p)
  }

  /** The filter keeps an element as many times as it occurs when it satisfies `p`, and drops it otherwise. */
  lemma {:induction false} FilterMultiset<T>(s: seq<T>, p: T -> bool, x: T)
    ensures multiset(Filter(s, p))[x] == if p(x) then multiset(s)[x] else 0
    decreases |s|
  {
    if s != [] {
      FilterMultiset(s[1..], p, x);
      assert s == [s[0]] + s[1..];
    }
  }

  /** An element is kept exactly when it occurs and satisfies `p`. */
  lemma FilterMembers<T>(s: seq<T>, p: T -> bool, x: T)
    ensures x in Filter(s, p) <==> x in s && p(x)
  {
    FilterMultiset(s, p, x);
  }

  /** The filter keeps the order. */
  lemma {:induction false} FilterIsSubsequence<T>(s: seq<T>, p: T -> bool)
    ensures IsSubsequence(Filter(s, p), s)
    decreases |s|
  {
    if s != [] {
      FilterIsSubsequence(s[1..], p);
      var r := Filter(s, p);
      if !p(s[0]) {
        if r != [] {
          assert IsSubsequence(r, s[1..]);
        }
      } else {
        assert r[1..] == Filter(s[1..], p);
      }
    }
  }

  /** Every element the filter keeps satisfies `p`. */
  lemma FilterSatisfies<T>(s: seq<T>, p: T -> bool)
    ensures forall i | 0 <= i < |Filter(s, p)| :: p(Filter(s, p)[i])
  {
    forall i | 0 <= i < |Filter(s, p)|
      ensures p(Filter(s, p)[i])
    {
      FilterMembers(s, p, Filter(s, p)[i]);
    }
  }

  /** A sequence whose every element satisfies `p` is kept whole. */
  lemma {:induction false} FilterKeepsAll<T>(s: seq<T>, p: T -> bool)
    requires forall i | 0 <= i < |s| :: p(s[i])
    ensures Filter(s, p) == s
    decreases |s|
  {
    if s != [] {
      FilterKeepsAll(s[1..], p);
      assert [s[0]] + s[1..] == s;
    }
  }

  /** Filtering twice with the same predicate is filtering once. */
  lemma FilterIdempotent<T>(s: seq<T>, p: T -> bool)
    ensures Filter(Filter(s, p), p) == Filter(s, p)
  {
    FilterSatisfies(s, p);
    FilterKeepsAll(Filter(s, p), p);
  }

  /** Two predicates that agree on every element of `s` filter it alike. */
  lemma {:induction false} FilterAgree<T>(s: seq<T>, p: T -> bool, q: T -> bool)
    requires forall i | 0 <= i < |s| :: p(s[i]) == q(s[i])
    ensures Filter(s, p) == Filter(s, q)
    decreases |s|
  {
    if s != [] {
      FilterAgree(s[1..], p, q);
    }
  }

  /** Position `i` of the reversed map is `f` of the element `i` places from the end. */
  lemma ReverseMapAt<A, B>(s: seq<A>, f: A -> B, i: nat)
    requires i < |s|
    ensures |Reverse(Map(s, f))| == |s|
    ensures Reverse(Map(s, f))[i] == f(s[|s| - 1 - i])
  {
  }

  /** Every element of `s` has its image in the reversed map. */
  lemma MapReverseHas<A, B>(s: seq<A>, f: A -> B, x: A)
    requires x in s
    ensures f(x) in Reverse(Map(s, f))
  {
    var j :| 0 <= j < |s| && s[j] == x;
    ReverseMapAt(s, f, |s| - 1 - j);
  }

  /** Every element of the reversed map is the image of an element of `s`. */
  lemma MapReverseSource<A, B>(s: seq<A>, f: A -> B, y: B) returns (x: A)
    requires y in Reverse(Map(s, f))
    ensures x in s && y == f(x)
  {
    var r := Reverse(Map(s, f));
    var i :| 0 <= i < |r| && r[i] == y;
    ReverseMapAt(s, f, i);
    x := s[|s| - 1 - i];
  }

  /** The first position whose element satisfies `p`, or -1, as `find` and
      `findIndex` scan. */
  function FirstWhere<T>(s: seq<T>, p: T -> bool): (k: int)
    ensures -1 <= k < |s|
    ensures k >= 0 ==> p(s[k])
    ensures forall j | 0 <= j < |s| && (k < 0 || j < k) :: !p(s[j])
    decreases |s|
  {
    if s == [] then -1
    else if p(s[0]) then 0
    else var k := FirstWhere(s[1..], p); if k < 0 then -1 else k + 1
  }

  /** The first position holding `x`, or -1. */
  function IndexOf<T(==)>(s: seq<T>, x: T): (r: int)
    ensures -1 <= r < |s|
    ensures r >= 0 ==> s[r] == x
    ensures forall j | 0 <= j < |s| && (r < 0 || j < r) :: s[j] != x
  {
    FirstWhere(s, EqualTo(x))
  }

  /** The elements equal to `x`. */
  function EqualTo<T(==)>(x: T): T -> bool {
    (y: T) => y == x
  }

  /** The pieces between the occurrences of `sep`, empty ones included. */
  function Split<T(==)>(s: seq<T>, sep: T): (parts: seq<seq<T>>)
    ensures |parts| >= 1
    decreases |s|
  {
    if s == [] then [[]]
    else
      var rest := Split(s[1..], sep);
      if s[0] == sep then [[]] + rest else [[s[0]] + rest[0]] + rest[1..]
  }

  /** The pieces with `sep` between each two neighbours. */
  function Join<T>(parts: seq<seq<T>>, sep: T): seq<T>
    decreases |parts|
  {
    if parts == [] then []
    else if |parts| == 1 then parts[0]
    else parts[0] + [sep] + Join(parts[1..], sep)
  }

  /** The first piece is everything before the first separator, and the
      remaining pieces are the split of what follows it. */
  lemma {:induction false} SplitFirst<T>(s: seq<T>, sep: T)
    ensures var k := IndexOf(s, sep);
            if k < 0 then Split(s, sep) == [s]
            else Split(s, sep) == [s[..k]] + Split(s[k + 1..], sep)
    decreases |s|
  {
    if s != [] && s[0] != sep {
      SplitFirst(s[1..], sep);
      var k := IndexOf(s[1..], sep);
      assert [s[0]] + s[1..] == s;
      if k >= 0 {
        assert [s[0]] + s[1..][..k] == s[..k + 1];
        assert s[1..][k + 1..] == s[k + 2..];
      }
    }
  }

  /** A piece without the separator, followed by the separator and more, is
      split off first. */
  lemma PieceThenSeparator<T>(a: seq<T>, sep: T, b: seq<T>)
    requires sep !in a
    ensures IndexOf(a + [sep] + b, sep) == |a|
    ensures (a + [sep] + b)[..|a|] == a && (a + [sep] + b)[|a| + 1..] == b
  {
    var s := a + [sep] + b;
    assert s[|a|] == sep;
    assert forall j | 0 <= j < |a| :: s[j] == a[j];
  }

  /** Splitting undoes joining when no piece holds the separator. */
  lemma {:induction false} SplitJoin<T>(parts: seq<seq<T>>, sep: T)
    requires parts != []
    requires forall i | 0 <= i < |parts| :: sep !in parts[i]
    ensures Split(Join(parts, sep), sep) == parts
    decreases |parts|
  {
    if |parts| == 1 {
      SplitFirst(parts[0], sep);
    } else {
      var rest := Join(parts[1..], sep);
      SplitJoin(parts[1..], sep);
      PieceThenSeparator(parts[0], sep, rest);
      SplitFirst(parts[0] + [sep] + rest, sep);
      assert parts == [parts[0]] + parts[1..];
    }
  }
}
