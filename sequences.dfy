/**
 * Sequence, set and map helpers shared by the model: an order-preserving
 * filter, Python's `list.remove`, enumerations of a set in some order, and
 * per-value tallies (the counting dictionaries of the statistics).
 */
module Sequences {

  /** The order-preserving sub-sequence of `s` whose elements satisfy `p`. */
  function Filter<T(!new)>(p: T -> bool, s: seq<T>): (r: seq<T>)
    ensures |r| <= |s|
    ensures forall x :: x in r <==> x in s && p(x)
  {
    if s == [] then [] else (if p(s[0]) then [s[0]] else []) + Filter(p, s[1..])
  }

  /** Filtering a sequence with one more element at the end. */
  lemma {:induction false} FilterSnoc<T(!new)>(p: T -> bool, s: seq<T>, x: T)
    ensures Filter(p, s + [x]) == Filter(p, s) + (if p(x) then [x] else [])
  {
    if s != [] {
      assert (s + [x])[1..] == s[1..] + [x];
      FilterSnoc(p, s[1..], x);
    }
  }

  /** The position of the first element equal to `x`. */
  function FirstIndex<T(==)>(s: seq<T>, x: T): (i: nat)
    requires x in s
    ensures i < |s| && s[i] == x && x !in s[..i]
  {
    if s[0] == x then 0
    else
      var j := FirstIndex(s[1..], x);
      assert s[..j + 1] == [s[0]] + s[1..][..j];
      j + 1
  }

  /**
   * Python's `list.remove(x)`: drops the first element equal to `x`, and
   * keeps the others in their order.
   */
  function RemoveFirst<T(==)>(s: seq<T>, x: T): (r: seq<T>)
    requires x in s
    ensures |r| == |s| - 1
    ensures r == s[..FirstIndex(s, x)] + s[FirstIndex(s, x) + 1..]
  {
    if s[0] == x then s[1..]
    else
      var t := s[1..];
      var j := FirstIndex(t, x);
      assert s[..j + 1] == [s[0]] + t[..j];
      assert s[j + 2..] == t[j + 1..];
      [s[0]] + RemoveFirst(t, x)
  }

  /** Position `i` of `s` is the only one whose element satisfies `p`. */
  ghost predicate OnlyWith<T>(s: seq<T>, i: int, p: T -> bool)
  {
    0 <= i < |s| && p(s[i]) && forall j | 0 <= j < |s| && p(s[j]) :: j == i
  }

  /**
   * A filter keeps exactly one element exactly when exactly one position of
   * the sequence satisfies the predicate; the element kept is the one there.
   */
  lemma {:induction false} FilterSingleton<T(!new)>(p: T -> bool, s: seq<T>)
    ensures |Filter(p, s)| == 1 <==> exists i | 0 <= i < |s| :: OnlyWith(s, i, p)
    ensures forall i | 0 <= i < |s| && OnlyWith(s, i, p) :: Filter(p, s) == [s[i]]
  {
    if s != [] {
      var t := s[1..];
      FilterSingleton(p, t);
      FilterNone(p, t);
      assert forall j | 0 < j < |s| :: s[j] == t[j - 1];
      if p(s[0]) {
        assert forall i | 0 <= i < |s| && OnlyWith(s, i, p) :: i == 0;
        assert OnlyWith(s, 0, p) <==> forall j | 0 <= j < |t| :: !p(t[j]);
      } else {
        forall i | 0 < i < |s|
          ensures OnlyWith(s, i, p) <==> OnlyWith(t, i - 1, p)
        {
          if OnlyWith(t, i - 1, p) {
            forall j | 0 <= j < |s| && p(s[j]) ensures j == i {
              assert j > 0 && p(t[j - 1]);
            }
          }
        }
        if |Filter(p, s)| == 1 {
          var i :| 0 <= i < |t| && OnlyWith(t, i, p);
          assert OnlyWith(s, i + 1, p);
        }
      }
    }
  }

  /** A filter keeps nothing exactly when no element satisfies the predicate. */
  lemma {:induction false} FilterNone<T(!new)>(p: T -> bool, s: seq<T>)
    ensures Filter(p, s) == [] <==> forall j | 0 <= j < |s| :: !p(s[j])
  {
    if Filter(p, s) != [] {
      assert Filter(p, s)[0] in Filter(p, s);
    }
  }

  /** `s` after its first `k` elements satisfying `p` are taken out. */
  function DropFirstMatching<T>(p: T -> bool, s: seq<T>, k: nat): seq<T>
  {
    if s == [] then []
    else if p(s[0]) && k > 0 then DropFirstMatching(p, s[1..], k - 1)
    else [s[0]] + DropFirstMatching(p, s[1..], k)
  }

  lemma {:induction false} DropNoneMatching<T>(p: T -> bool, s: seq<T>)
    ensures DropFirstMatching(p, s, 0) == s
  {
    if s != [] {
      DropNoneMatching(p, s[1..]);
    }
  }

  /**
   * Removing (by value, first occurrence) the `k`-th element that satisfies
   * `p` from `s` with its first `k` such elements gone takes out exactly
   * the next one: no earlier survivor can equal it, since survivors before
   * it all fail `p`.
   */
  lemma {:induction false} RemoveNextMatching<T(!new)>(p: T -> bool, s: seq<T>, k: nat)
    requires k < |Filter(p, s)|
    ensures Filter(p, s)[k] in DropFirstMatching(p, s, k)
    ensures RemoveFirst(DropFirstMatching(p, s, k), Filter(p, s)[k]) == DropFirstMatching(p, s, k + 1)
  {
    assert s != [];
    if p(s[0]) {
      assert Filter(p, s) == [s[0]] + Filter(p, s[1..]);
      if k == 0 {
        DropNoneMatching(p, s);
        DropNoneMatching(p, s[1..]);
      } else {
        RemoveNextMatching(p, s[1..], k - 1);
      }
    } else {
      assert Filter(p, s) == Filter(p, s[1..]);
      RemoveNextMatching(p, s[1..], k);
      var x := Filter(p, s)[k];
      assert x in Filter(p, s);
      assert x != s[0];
    }
  }

  /** Filtering depends only on the values the predicate takes. */
  lemma {:induction false} FilterExtensional<T(!new)>(p: T -> bool, q: T -> bool, s: seq<T>)
    requires forall x :: p(x) == q(x)
    ensures Filter(p, s) == Filter(q, s)
  {
    if s != [] {
      FilterExtensional(p, q, s[1..]);
    }
  }

  /** Once every element satisfying `p` is dropped, what is left is the filter by `keep`, the negation of `p`. */
  lemma {:induction false} DropAllMatching<T(!new)>(p: T -> bool, keep: T -> bool, s: seq<T>)
    requires forall x :: keep(x) == !p(x)
    ensures DropFirstMatching(p, s, |Filter(p, s)|) == Filter(keep, s)
  {
    if s != [] {
      DropAllMatching(p, keep, s[1..]);
      if p(s[0]) {
        assert Filter(p, s) == [s[0]] + Filter(p, s[1..]);
      } else {
        assert Filter(p, s) == Filter(p, s[1..]);
      }
    }
  }

  /** No element occurs twice. */
  ghost predicate Distinct<T>(s: seq<T>)
  {
    forall i, j | 0 <= i < j < |s| :: s[i] != s[j]
  }

  /** `s` lists every element of `xs` exactly once, in some order. */
  ghost predicate IsEnumeration<T(!new)>(s: seq<T>, xs: set<T>)
  {
    Distinct(s) && forall x :: x in s <==> x in xs
  }

  lemma {:induction false} EnumerationSize<T(!new)>(s: seq<T>, xs: set<T>)
    requires IsEnumeration(s, xs)
    ensures |s| == |xs|
  {
    if s != [] {
      var last := s[|s| - 1];
      var init := s[..|s| - 1];
      forall x ensures x in init <==> x in xs - {last} {
        if x in init {
          var i :| 0 <= i < |init| && init[i] == x;
          assert s[i] == x;
          assert i < |s| - 1;
        }
        if x in xs - {last} {
          assert x in s;
          var i :| 0 <= i < |s| && s[i] == x;
          assert i != |s| - 1;
          assert init[i] == x;
        }
      }
      EnumerationSize(init, xs - {last});
    } else {
      assert forall x :: x !in xs;
      assert xs == {};
    }
  }

  /** The elements of `d` at the indices `o`, in the order of `o`. */
  function Select<T>(d: seq<T>, o: seq<nat>): (r: seq<T>)
    requires forall k | 0 <= k < |o| :: o[k] < |d|
    ensures |r| == |o|
    ensures forall k | 0 <= k < |o| :: r[k] == d[o[k]]
  {
    seq(|o|, k requires 0 <= k < |o| => d[o[k]])
  }

  /** The indices below `n` that do not occur in `c`. */
  function IndicesNotIn(n: nat, c: seq<nat>): (r: set<nat>)
    ensures forall i: nat :: i in r <==> i < n && i !in c
  {
    set i: nat | i < n && i !in c
  }

  /** The indices `0 .. n-1` as a set. */
  function IndexSet(n: nat): (r: set<nat>)
    ensures forall i: nat :: i in r <==> i < n
  {
    IndicesNotIn(n, [])
  }

  /** Every element of an enumeration of `0 .. n-1` is below `n`. */
  lemma EnumerationInRange(o: seq<nat>, n: nat)
    requires IsEnumeration(o, IndexSet(n))
    ensures forall k | 0 <= k < |o| :: o[k] < n
  {
    forall k | 0 <= k < |o| ensures o[k] < n {
      assert o[k] in o;
    }
  }

  /** Taking the largest index out of an enumeration of `0 .. n` leaves one of `0 .. n-1`. */
  lemma RemoveLargestIndex(o: seq<nat>, n: nat, p: nat)
    requires IsEnumeration(o, IndexSet(n + 1))
    requires p < |o| && o[p] == n
    ensures IsEnumeration(o[..p] + o[p + 1..], IndexSet(n))
  {
    var rest := o[..p] + o[p + 1..];
    assert forall i | 0 <= i < |rest| :: rest[i] == o[if i < p then i else i + 1];
    forall x ensures x in rest <==> x in IndexSet(n) {
      if x in rest {
        var j :| 0 <= j < |rest| && rest[j] == x;
        var i := if j < p then j else j + 1;
        assert o[i] == x && i != p;
        assert x in IndexSet(n + 1);
      }
      if x in IndexSet(n) {
        assert x in IndexSet(n + 1);
        assert x in o;
        var i :| 0 <= i < |o| && o[i] == x;
        assert i != p;
        assert rest[if i < p then i else i - 1] == x;
      }
    }
  }

  lemma SelectConcat<T>(d: seq<T>, a: seq<nat>, b: seq<nat>)
    requires forall k | 0 <= k < |a| :: a[k] < |d|
    requires forall k | 0 <= k < |b| :: b[k] < |d|
    ensures Select(d, a + b) == Select(d, a) + Select(d, b)
  {
  }

  lemma LastSplit<T>(d: seq<T>)
    requires d != []
    ensures multiset(d) == multiset(d[..|d| - 1]) + multiset{d[|d| - 1]}
  {
    assert d == d[..|d| - 1] + [d[|d| - 1]];
  }

  /** Selecting with the last index of `d` taken out of `o` loses exactly that element. */
  lemma SelectWithoutLast<T>(d: seq<T>, o: seq<nat>, p: nat, rest: seq<nat>)
    requires d != [] && p < |o| && o[p] == |d| - 1
    requires forall k | 0 <= k < |o| :: o[k] < |d|
    requires rest == o[..p] + o[p + 1..]
    requires forall k | 0 <= k < |rest| :: rest[k] < |d| - 1
    ensures multiset(Select(d, o)) == multiset(Select(d[..|d| - 1], rest)) + multiset{d[|d| - 1]}
  {
    var n := |d| - 1;
    var a, b := o[..p], o[p + 1..];
    assert Select(d[..n], a + b) == Select(d, a + b);
    assert o == a + [n] + b;
    SelectConcat(d, a + [n], b);
    SelectConcat(d, a, [n]);
    SelectConcat(d, a, b);
    assert Select(d, [n]) == [d[n]];
    var sa, sb := Select(d, a), Select(d, b);
    calc {
      multiset(Select(d, o));
      multiset(sa + [d[n]] + sb);
      multiset(sa + sb) + multiset{d[n]};
    }
  }

  /**
   * Selecting every index of `d` once, in any order, yields a permutation
   * of `d`.
   */
  lemma {:induction false} SelectAllIsPermutation<T>(d: seq<T>, o: seq<nat>)
    requires IsEnumeration(o, IndexSet(|d|))
    ensures forall k | 0 <= k < |o| :: o[k] < |d|
    ensures multiset(Select(d, o)) == multiset(d)
  {
    EnumerationInRange(o, |d|);
    if |d| == 0 {
      EnumerationSize(o, IndexSet(0));
      assert IndexSet(0) == {};
    } else {
      var n := |d| - 1;
      assert n in IndexSet(|d|);
      var p :| 0 <= p < |o| && o[p] == n;
      var rest := o[..p] + o[p + 1..];
      RemoveLargestIndex(o, n, p);
      EnumerationInRange(rest, n);
      SelectWithoutLast(d, o, p, rest);
      SelectAllIsPermutation(d[..n], rest);
      LastSplit(d);
    }
  }

  /** How many times each value occurs in `s` (Python's counting dictionary). */
  function Tally<T>(s: seq<T>): map<T, nat>
  {
    if s == [] then map[] else Bump(Tally(s[..|s| - 1]), s[|s| - 1])
  }

  /** The counter update `m[x] += 1`, starting a missing key at 1. */
  function Bump<T>(m: map<T, nat>, x: T): map<T, nat>
  {
    if x in m then m[x := m[x] + 1] else m[x := 1]
  }

  /** Bumping adds `x` as a key, raises its count by one, and leaves every other count alone. */
  lemma BumpCounts<T>(m: map<T, nat>, x: T)
    ensures Bump(m, x).Keys == m.Keys + {x}
    ensures Bump(m, x)[x] == (if x in m then m[x] else 0) + 1
    ensures forall y | y in m && y != x :: Bump(m, x)[y] == m[y]
  {
  }

  /** The number of elements of `s` equal to `x`. */
  function Occurrences<T(==)>(s: seq<T>, x: T): nat
  {
    if s == [] then 0 else Occurrences(s[..|s| - 1], x) + (if s[|s| - 1] == x then 1 else 0)
  }

  /** A tally holds, for each value, its number of occurrences; absent values do not occur. */
  lemma {:induction false} TallyCounts<T>(s: seq<T>, x: T)
    ensures x in Tally(s) <==> x in s
    ensures x in Tally(s) ==> Tally(s)[x] == Occurrences(s, x)
    ensures x !in Tally(s) ==> Occurrences(s, x) == 0
  {
    if s != [] {
      var init := s[..|s| - 1];
      TallyCounts(init, x);
      assert s == init + [s[|s| - 1]];
      assert x in s <==> x in init || x == s[|s| - 1];
    }
  }

  /** The sum of the values of a counting map. */
  ghost function SumValues<T>(m: map<T, nat>): nat
    decreases |m.Keys|
  {
    if m.Keys == {} then 0
    else
      var k :| k in m;
      assert |(m - {k}).Keys| < |m.Keys| by {
        assert (m - {k}).Keys == m.Keys - {k};
      }
      m[k] + SumValues(m - {k})
  }

  /** The sum does not depend on which key `SumValues` picks first. */
  lemma {:induction false} SumValuesWithout<T>(m: map<T, nat>, x: T)
    requires x in m
    ensures SumValues(m) == m[x] + SumValues(m - {x})
    decreases |m.Keys|
  {
    var k :| k in m && SumValues(m) == m[k] + SumValues(m - {k});
    assert (m - {k}).Keys == m.Keys - {k};
    if k != x {
      assert (m - {x}).Keys == m.Keys - {x};
      SumValuesWithout(m - {k}, x);
      SumValuesWithout(m - {x}, k);
      assert m - {k} - {x} == m - {x} - {k};
    }
  }

  /** Bumping one counter raises the sum by exactly one. */
  lemma BumpSum<T>(m: map<T, nat>, x: T)
    ensures SumValues(Bump(m, x)) == SumValues(m) + 1
  {
    var r := Bump(m, x);
    SumValuesWithout(r, x);
    assert r - {x} == m - {x};
    if x in m {
      SumValuesWithout(m, x);
    } else {
      assert m - {x} == m;
    }
  }

  /** The counters of a tally add up to the length of the tallied sequence. */
  lemma {:induction false} TallySum<T>(s: seq<T>)
    ensures SumValues(Tally(s)) == |s|
  {
    if s == [] {
      assert Tally(s).Keys == {};
    } else {
      TallySum(s[..|s| - 1]);
      BumpSum(Tally(s[..|s| - 1]), s[|s| - 1]);
    }
  }
}
