/**
 * The JavaScript array operations the card scanner's logic is written with
 * (`filter`, `map`, `find`, `findIndex`, and `[...new Set(xs)]`), as functions
 * on sequences, each with the property that makes it what it is.
 */
module Seqs {
  import opened Wrappers

  /** `xs.map(f)`. */
  function Map<T, U>(s: seq<T>, f: T -> U): (r: seq<U>)
    ensures |r| == |s|
  {
    seq(|s|, i requires 0 <= i < |s| => f(s[i]))
  }

  /** `xs.filter(p)`: the elements that satisfy `p`, in their original order. */
  function Filter<T(!new)>(s: seq<T>, p: T -> bool): (r: seq<T>)
    ensures |r| <= |s|
  {
    if s == [] then [] else (if p(s[0]) then [s[0]] else []) + Filter(s[1..], p)
  }

  /** An element is kept by `Filter` exactly when it is in `s` and passes the test. */
  lemma {:induction false} FilterMembers<T(!new)>(s: seq<T>, p: T -> bool)
    ensures forall x :: x in Filter(s, p) <==> x in s && p(x)
  {
    if s != [] {
      FilterMembers(s[1..], p);
      assert s == [s[0]] + s[1..];
    }
  }

  /** Adds one to every index (the positions of `s[1..]` seen from `s`). */
  function Shifted(idx: seq<nat>): (r: seq<nat>)
    ensures |r| == |idx|
  {
    seq(|idx|, k requires 0 <= k < |idx| => idx[k] + 1)
  }

  /** The indices of the elements of `s` that satisfy `p`, ascending. */
  function Positions<T(!new)>(s: seq<T>, p: T -> bool): seq<nat>
  {
    if s == [] then []
    else (if p(s[0]) then [0] else []) + Shifted(Positions(s[1..], p))
  }

  /** Each position names the element `Filter` keeps at the same rank. */
  lemma {:induction false} PositionsPick<T(!new)>(s: seq<T>, p: T -> bool)
    ensures |Positions(s, p)| == |Filter(s, p)|
    ensures forall k :: 0 <= k < |Positions(s, p)| ==>
      Positions(s, p)[k] < |s| && Filter(s, p)[k] == s[Positions(s, p)[k]]
  {
    if s != [] {
      PositionsPick(s[1..], p);
      var rest, r' := Positions(s[1..], p), Filter(s[1..], p);
      var h := if p(s[0]) then 1 else 0;
      var idx, r := Positions(s, p), Filter(s, p);
      assert idx == (if p(s[0]) then [0] else []) + Shifted(rest);
      assert r == (if p(s[0]) then [s[0]] else []) + r';
      forall k | 0 <= k < |idx| ensures idx[k] < |s| && r[k] == s[idx[k]] {
        if k >= h {
          assert idx[k] == rest[k - h] + 1;
          assert r[k] == r'[k - h];
        }
      }
    }
  }

  /** Every position is an index of `s`. */
  lemma {:induction false} PositionsInRange<T(!new)>(s: seq<T>, p: T -> bool)
    ensures forall i :: i in Positions(s, p) ==> i < |s|
  {
    if s != [] {
      PositionsInRange(s[1..], p);
      var rest := Positions(s[1..], p);
      var head: seq<nat> := if p(s[0]) then [0] else [];
      assert Positions(s, p) == head + Shifted(rest);
      forall i | i in Shifted(rest) ensures i < |s| {
        var k :| 0 <= k < |rest| && Shifted(rest)[k] == i;
        assert rest[k] in rest;
      }
    }
  }

  /** The positions ascend strictly. */
  lemma {:induction false} PositionsAscend<T(!new)>(s: seq<T>, p: T -> bool)
    ensures forall k, l :: 0 <= k < l < |Positions(s, p)| ==> Positions(s, p)[k] < Positions(s, p)[l]
  {
    if s != [] {
      PositionsAscend(s[1..], p);
      var rest := Positions(s[1..], p);
      var head: seq<nat> := if p(s[0]) then [0] else [];
      var idx := head + Shifted(rest);
      assert Positions(s, p) == idx;
      forall k, l | 0 <= k < l < |idx| ensures idx[k] < idx[l] {
        assert idx[l] == rest[l - |head|] + 1;
        if k >= |head| {
          assert idx[k] == rest[k - |head|] + 1;
        }
      }
    }
  }

  /** An index is a position exactly when its element passes the test. */
  lemma {:induction false} PositionsCover<T(!new)>(s: seq<T>, p: T -> bool)
    ensures forall i :: 0 <= i < |s| ==> (p(s[i]) <==> i in Positions(s, p))
  {
    if s != [] {
      PositionsCover(s[1..], p);
      var rest := Positions(s[1..], p);
      var idx := Positions(s, p);
      var h := if p(s[0]) then 1 else 0;
      assert idx == (if p(s[0]) then [0] else []) + Shifted(rest);
      forall i | 0 < i < |s| ensures p(s[i]) <==> i in idx {
        assert s[i] == s[1..][i - 1];
        if i - 1 in rest {
          var k :| 0 <= k < |rest| && rest[k] == i - 1;
          assert idx[h + k] == i;
        }
        if i in idx {
          var k :| 0 <= k < |idx| && idx[k] == i;
          assert idx[k] == rest[k - h] + 1;
        }
      }
      assert p(s[0]) <==> 0 in idx;
    }
  }

  /**
   * `Filter` is stable: it keeps exactly the elements at the indices where
   * `p` holds, and keeps them in their original relative order.
   */
  lemma FilterKeepsOrder<T(!new)>(s: seq<T>, p: T -> bool)
    ensures var idx := Positions(s, p);
      && |idx| == |Filter(s, p)|
      && (forall k :: 0 <= k < |idx| ==> idx[k] < |s| && Filter(s, p)[k] == s[idx[k]])
      && (forall k, l :: 0 <= k < l < |idx| ==> idx[k] < idx[l])
      && (forall i :: 0 <= i < |s| ==> (p(s[i]) <==> i in idx))
  {
    PositionsPick(s, p);
    PositionsInRange(s, p);
    PositionsAscend(s, p);
    PositionsCover(s, p);
  }

  /** `xs.findIndex(p)`, with `None` for JavaScript's -1. */
  function FindIndex<T(!new)>(s: seq<T>, p: T -> bool): (r: Option<nat>)
    ensures r.Some? ==> r.value < |s| && p(s[r.value]) && forall j :: 0 <= j < r.value ==> !p(s[j])
    ensures r.None? ==> forall j :: 0 <= j < |s| ==> !p(s[j])
  {
    if s == [] then None
    else if p(s[0]) then Some(0)
    else
      match FindIndex(s[1..], p)
      case None => None
      case Some(i) => Some(i + 1)
  }

  /** `xs.find(p)`: the first element that satisfies `p`, `None` for `undefined`. */
  function Find<T(!new)>(s: seq<T>, p: T -> bool): (r: Option<T>)
    ensures r.None? <==> forall x :: x in s ==> !p(x)
    ensures r.Some? ==> exists i :: 0 <= i < |s| && s[i] == r.value && p(s[i]) && forall j :: 0 <= j < i ==> !p(s[j])
  {
    match FindIndex(s, p)
    case None => None
    case Some(i) => Some(s[i])
  }

  /** The first element of a filtered sequence is what `find` with the same test returns. */
  lemma {:induction false} FilterHeadIsFind<T(!new)>(s: seq<T>, p: T -> bool)
    ensures Filter(s, p) != [] <==> Find(s, p).Some?
    ensures Filter(s, p) != [] ==> Filter(s, p)[0] == Find(s, p).value
  {
    if s != [] && !p(s[0]) {
      FilterHeadIsFind(s[1..], p);
      FindSkipsHead(s, p);
      assert Filter(s, p) == Filter(s[1..], p);
    }
  }

  /** An element that fails the test is passed over by `find`. */
  lemma FindSkipsHead<T(!new)>(s: seq<T>, p: T -> bool)
    requires s != [] && !p(s[0])
    ensures Find(s, p) == Find(s[1..], p)
  {
    match FindIndex(s[1..], p)
    case None =>
    case Some(i) => assert s[i + 1] == s[1..][i];
  }

  /** Filtering twice is filtering once by a test that asks both questions. */
  lemma {:induction false} FilterFilter<T(!new)>(s: seq<T>, p: T -> bool, q: T -> bool, both: T -> bool)
    requires forall x :: both(x) == (p(x) && q(x))
    ensures Filter(Filter(s, p), q) == Filter(s, both)
  {
    if s != [] {
      FilterFilter(s[1..], p, q, both);
      var head: seq<T> := if p(s[0]) then [s[0]] else [];
      assert Filter(s, p) == head + Filter(s[1..], p);
      FilterAppend(head, Filter(s[1..], p), q);
    }
  }

  /** `filter` distributes over concatenation. */
  lemma {:induction false} FilterAppend<T(!new)>(a: seq<T>, b: seq<T>, p: T -> bool)
    ensures Filter(a + b, p) == Filter(a, p) + Filter(b, p)
  {
    if a == [] {
      assert a + b == b;
    } else {
      var head: seq<T> := if p(a[0]) then [a[0]] else [];
      FilterAppend(a[1..], b, p);
      assert (a + b)[0] == a[0] && (a + b)[1..] == a[1..] + b;
      assert Filter(a + b, p) == head + Filter(a[1..] + b, p);
      assert Filter(a, p) == head + Filter(a[1..], p);
    }
  }

  /** Filtering out the one element at `i` when the runs before and after it are kept whole. */
  lemma FilterSkipsAt<T(!new)>(s: seq<T>, i: nat, p: T -> bool)
    requires i < |s| && !p(s[i])
    requires Filter(s[..i], p) == s[..i] && Filter(s[i + 1..], p) == s[i + 1..]
    ensures Filter(s, p) == s[..i] + s[i + 1..]
  {
    var before, x, after := s[..i], s[i], s[i + 1..];
    CutAt(s, i);
    FilterAppend(before, [x], p);
    FilterDropsOne(x, p);
    assert Filter(before + [x], p) == before + [];
    assert before + [] == before;
    FilterAppend(before + [x], after, p);
  }

  /** A sequence is what comes before index `i`, its element there, and what follows. */
  lemma CutAt<T>(s: seq<T>, i: nat)
    requires i < |s|
    ensures s == s[..i] + [s[i]] + s[i + 1..]
  {
  }

  /** A sequence is its two pieces cut at `i`. */
  lemma TwoParts<T>(s: seq<T>, i: nat)
    requires i <= |s|
    ensures s == s[..i] + s[i..]
  {
  }

  /** A sequence is its three pieces cut at `i` and `j`. */
  lemma ThreeParts<T>(s: seq<T>, i: nat, j: nat)
    requires i <= j <= |s|
    ensures s == s[..i] + s[i..j] + s[j..]
  {
  }

  /** Appending three sequences does not depend on the grouping. */
  lemma Regroup<T>(a: seq<T>, b: seq<T>, c: seq<T>)
    ensures a + b + c == a + (b + c)
  {
  }

  /** An element in front of three appended sequences, regrouped. */
  lemma ConsRegroup<T>(x: T, a: seq<T>, b: seq<T>, c: seq<T>)
    ensures [x] + (a + b + c) == [x] + a + b + c
  {
  }

  /** A single element that fails the test is filtered out. */
  lemma FilterDropsOne<T(!new)>(x: T, p: T -> bool)
    requires !p(x)
    ensures Filter([x], p) == []
  {
    assert [x][1..] == [];
  }

  /** Filtering depends only on what the test answers. */
  lemma {:induction false} FilterCongruent<T(!new)>(s: seq<T>, p: T -> bool, q: T -> bool)
    requires forall x :: x in s ==> p(x) == q(x)
    ensures Filter(s, p) == Filter(s, q)
  {
    if s != [] {
      FilterCongruent(s[1..], p, q);
    }
  }

  /**
   * Filtering keeps the order of first occurrences among the elements it
   * keeps: `x` first occurs before `y` in the filtered sequence exactly when
   * it does in the original.
   */
  lemma {:induction false} IndexOfFilter<T(!new)>(s: seq<T>, p: T -> bool, x: T, y: T)
    requires x in s && y in s && p(x) && p(y)
    ensures x in Filter(s, p) && y in Filter(s, p)
    ensures IndexOf(Filter(s, p), x) < IndexOf(Filter(s, p), y) <==> IndexOf(s, x) < IndexOf(s, y)
  {
    var r := Filter(s, p);
    FilterMembers(s, p);
    if s[0] != x && s[0] != y {
      IndexOfFilter(s[1..], p, x, y);
      if p(s[0]) {
        assert r == [s[0]] + Filter(s[1..], p);
      } else {
        assert r == Filter(s[1..], p);
      }
    } else if p(s[0]) {
      assert r == [s[0]] + Filter(s[1..], p);
    }
  }

  /** Filtering by a test that every element passes changes nothing. */
  lemma {:induction false} FilterAll<T(!new)>(s: seq<T>, p: T -> bool)
    requires forall x :: x in s ==> p(x)
    ensures Filter(s, p) == s
  {
    if s != [] {
      FilterAll(s[1..], p);
    }
  }

  /** Filtering by the same test twice is filtering once. */
  lemma FilterIdempotent<T(!new)>(s: seq<T>, p: T -> bool)
    ensures Filter(Filter(s, p), p) == Filter(s, p)
  {
    FilterMembers(s, p);
    FilterAll(Filter(s, p), p);
  }

  /** The index of the first occurrence of `x` in `s` (`s.indexOf(x)`). */
  function IndexOf<T(==)>(s: seq<T>, x: T): (i: nat)
    requires x in s
    ensures i < |s| && s[i] == x && x !in s[..i]
  {
    if s[0] == x then 0
    else
      var i := 1 + IndexOf(s[1..], x);
      assert s[..i] == [s[0]] + s[1..][..i - 1];
      i
  }

  /** A first occurrence is unique: it is the only index with `x` and no `x` before it. */
  lemma IndexOfUnique<T(!new)>(s: seq<T>, x: T, i: nat)
    requires i < |s| && s[i] == x && x !in s[..i]
    ensures IndexOf(s, x) == i
  {
  }

  /** No element occurs twice (what a JavaScript `Set` guarantees of its entries). */
  ghost predicate NoDuplicates<T(!new)>(s: seq<T>) {
    forall i, j :: 0 <= i < j < |s| ==> s[i] != s[j]
  }

  /**
   * `[...new Set(xs)]`: the distinct elements of `xs` in the order a `Set`
   * iterates them, which is the order they were first inserted.
   */
  function Distinct<T(==)>(s: seq<T>): (r: seq<T>)
  {
    if s == [] then []
    else
      var r := Distinct(s[..|s| - 1]);
      if s[|s| - 1] in r then r else r + [s[|s| - 1]]
  }

  /**
   * `Distinct` keeps each element of `s` exactly once, and lists the elements
   * in the order of their first occurrence in `s`.
   */
  lemma {:induction false} DistinctSpec<T(!new)>(s: seq<T>)
    ensures NoDuplicates(Distinct(s))
    ensures forall x :: x in Distinct(s) <==> x in s
    ensures forall i, j :: 0 <= i < j < |Distinct(s)| ==>
      Distinct(s)[i] in s && Distinct(s)[j] in s && IndexOf(s, Distinct(s)[i]) < IndexOf(s, Distinct(s)[j])
  {
    if s != [] {
      var pre, y := s[..|s| - 1], s[|s| - 1];
      assert s == pre + [y];
      DistinctSpec(pre);
      var r := Distinct(pre);
      forall x | x in pre ensures IndexOf(s, x) == IndexOf(pre, x) {
        var i := IndexOf(pre, x);
        assert s[..i] == pre[..i];
        IndexOfUnique(s, x, i);
      }
      if y !in r {
        assert y !in pre;
        assert s[..|pre|] == pre;
        IndexOfUnique(s, y, |pre|);
      }
    }
  }

  /** The elements of `a`, all in `s`, listed strictly by the index of their first occurrence in `s`. */
  ghost predicate InFirstSeenOrder<T(!new)>(s: seq<T>, a: seq<T>) {
    && (forall x :: x in a ==> x in s)
    && (forall i, j :: 0 <= i < j < |a| ==> a[i] in s && a[j] in s && IndexOf(s, a[i]) < IndexOf(s, a[j]))
  }

  /** The head of a list in first-seen order comes before every other element. */
  lemma HeadSeenFirst<T(!new)>(s: seq<T>, a: seq<T>, x: T)
    requires InFirstSeenOrder(s, a) && a != [] && x in a[1..]
    ensures x in s && a[0] in s && x != a[0] && IndexOf(s, a[0]) < IndexOf(s, x)
  {
    var k :| 0 <= k < |a| - 1 && a[1..][k] == x;
    assert a[k + 1] == x;
  }

  /** Membership in the tail: anything in `a` other than its head. */
  lemma InTail<T>(a: seq<T>, x: T)
    requires x in a && x != a[0]
    ensures x in a[1..]
  {
    var m :| 0 <= m < |a| && a[m] == x;
    assert a[1..][m - 1] == x;
  }

  /** A sequence with no members is empty. */
  lemma NoMembersEmpty<T>(b: seq<T>)
    requires forall x :: x !in b
    ensures b == []
  {
    if b != [] {
      HeadIsMember(b);
      assert false;
    }
  }

  lemma HeadIsMember<T>(b: seq<T>)
    requires b != []
    ensures b[0] in b
  {
  }

  /**
   * The first-seen order determines a list: two lists with the same elements,
   * both in first-seen order of `s`, are equal.
   */
  lemma {:induction false} FirstSeenOrderUnique<T(!new)>(s: seq<T>, a: seq<T>, b: seq<T>)
    requires InFirstSeenOrder(s, a) && InFirstSeenOrder(s, b)
    requires forall x :: x in a <==> x in b
    ensures a == b
    decreases |a|
  {
    if a == [] {
      NoMembersEmpty(b);
    } else {
      assert a[0] in b;
      assert b[0] in a;
      if a[0] != b[0] {
        InTail(a, b[0]);
        InTail(b, a[0]);
        HeadSeenFirst(s, a, b[0]);
        HeadSeenFirst(s, b, a[0]);
      }
      forall x ensures x in a[1..] <==> x in b[1..] {
        if x in a[1..] {
          HeadSeenFirst(s, a, x);
          assert x in a;
          InTail(b, x);
        }
        if x in b[1..] {
          HeadSeenFirst(s, b, x);
          assert x in b;
          InTail(a, x);
        }
      }
      FirstSeenOrderUnique(s, a[1..], b[1..]);
    }
  }

  /** `Distinct(s)` is the only duplicate-free list of the elements of `s` in first-seen order. */
  lemma DistinctUnique<T(!new)>(s: seq<T>, a: seq<T>)
    requires InFirstSeenOrder(s, a)
    requires forall x :: x in a <==> x in s
    ensures a == Distinct(s)
  {
    DistinctSpec(s);
    FirstSeenOrderUnique(s, a, Distinct(s));
  }
}
