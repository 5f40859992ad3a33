/**
 The recursive merge sort of `q_sort`, on the sequence of string values held
 by a node chain. `Merge` and `MergeSort` are the functional definitions;
 `MergeLinks`, `SplitHalves` and `MergeSortLinks` follow the loops of
 `merge` and `merge_sort` step by step and are proved to compute them.
 */
module Sorting {
  import opened CStrings

  /** Every value is no greater than every value after it, in `strcmp` order. */
  predicate Sorted(s: seq<CStr>) {
    forall i, j | 0 <= i < j < |s| :: StrLe(s[i], s[j])
  }

  /** `x` is no greater than any value of `s`. */
  predicate AtMost(x: CStr, s: seq<CStr>) {
    forall y | y in s :: StrLe(x, y)
  }

  /**
   `merge`: repeatedly take the smaller head of the two chains. The test is a
   strict `strcmp(l1, l2) < 0`, so on equal heads the node of `l2` is taken
   first. When one chain runs out, the rest of the other is linked on.
   */
  function Merge(l1: seq<CStr>, l2: seq<CStr>): (r: seq<CStr>)
    ensures multiset(r) == multiset(l1) + multiset(l2)
    decreases |l1| + |l2|
  {
    if |l1| == 0 then l2
    else if |l2| == 0 then l1
    else if StrCmp(l1[0], l2[0]) < 0 then
      var rest := Merge(l1[1..], l2);
      assert l1 == [l1[0]] + l1[1..];
      [l1[0]] + rest
    else
      var rest := Merge(l1, l2[1..]);
      assert l2 == [l2[0]] + l2[1..];
      [l2[0]] + rest
  }

  /** The number of nodes `merge_sort` leaves in the first half: ceil(n/2). */
  function FrontLength(n: nat): nat {
    (n + 1) / 2
  }


  /** A sorted chain whose values all stay at or above `x` remains sorted with `x` in front. */
  lemma ConsSorted(x: CStr, s: seq<CStr>)
    requires Sorted(s) && AtMost(x, s)
    ensures Sorted([x] + s)
  {
  }

  /** The head of a sorted chain is no greater than anything in it. */
  lemma SortedHead(s: seq<CStr>)
    requires Sorted(s) && |s| > 0
    ensures AtMost(s[0], s)
  {
  }

  /** A lower bound of a sorted chain's head bounds the whole chain. */
  lemma BelowHead(x: CStr, s: seq<CStr>)
    requires Sorted(s) && |s| > 0 && StrLe(x, s[0])
    ensures AtMost(x, s)
  {
    SortedHead(s);
    forall y | y in s
      ensures StrLe(x, y)
    {
      StrLeTrans(x, s[0], y);
    }
  }

  /** Merging two sorted chains gives a sorted chain. */
  lemma {:induction false} MergeSorted(l1: seq<CStr>, l2: seq<CStr>)
    requires Sorted(l1) && Sorted(l2)
    ensures Sorted(Merge(l1, l2))
    decreases |l1| + |l2|
  {
    if |l1| == 0 || |l2| == 0 {
    } else if StrCmp(l1[0], l2[0]) < 0 {
      var x, l1' := l1[0], l1[1..];
      var rest := Merge(l1', l2);
      MergeSorted(l1', l2);
      SortedHead(l1);
      BelowHead(x, l2);
      forall y | y in rest
        ensures StrLe(x, y)
      {
        assert y in multiset(l1') + multiset(l2);
        assert y in l1' ==> y in l1;
      }
      ConsSorted(x, rest);
    } else {
      var x, l2' := l2[0], l2[1..];
      var rest := Merge(l1, l2');
      MergeSorted(l1, l2');
      StrCmpFlip(l1[0], x);
      SortedHead(l2);
      BelowHead(x, l1);
      forall y | y in rest
        ensures StrLe(x, y)
      {
        assert y in multiset(l1) + multiset(l2');
        assert y in l2' ==> y in l2;
      }
      ConsSorted(x, rest);
    }
  }

  /**
   `merge_sort`: chains of fewer than two nodes are returned as they are;
   otherwise the chain is cut after its first ceil(n/2) nodes, both halves are
   sorted, and the results are merged. The result is the input's values in
   ascending `strcmp` order.
   */
  function MergeSort(s: seq<CStr>): (r: seq<CStr>)
    ensures multiset(r) == multiset(s)
    ensures Sorted(r)
    decreases |s|
  {
    if |s| <= 1 then s
    else
      var k := FrontLength(|s|);
      assert s == s[..k] + s[k..];
      var front, back := MergeSort(s[..k]), MergeSort(s[k..]);
      MergeSorted(front, back);
      Merge(front, back)
  }

  /** Dropping the head of a sorted chain leaves a sorted chain with one copy of the head fewer. */
  lemma DropHead(s: seq<CStr>)
    requires Sorted(s) && |s| > 0
    ensures Sorted(s[1..])
    ensures multiset(s[1..]) == multiset(s) - multiset{s[0]}
  {
    assert s == [s[0]] + s[1..];
  }

  /** Two sorted arrangements of the same non-empty multiset start with the same string. */
  lemma SameHead(a: seq<CStr>, b: seq<CStr>)
    requires Sorted(a) && Sorted(b) && multiset(a) == multiset(b) && |a| > 0
    ensures |b| > 0 && a[0] == b[0]
  {
    assert a[0] in multiset(b);
    assert b[0] in multiset(a);
    SortedHead(a);
    SortedHead(b);
    StrLeAntisymmetric(a[0], b[0]);
  }

  /**
   There is only one sorted arrangement of a multiset of strings: equal
   strings are indistinguishable, so `strcmp` order leaves no choice.
   */
  lemma {:induction false} SortedUnique(a: seq<CStr>, b: seq<CStr>)
    requires Sorted(a) && Sorted(b) && multiset(a) == multiset(b)
    ensures a == b
    decreases |a|
  {
    if |a| == 0 {
      assert |b| == |multiset(b)| == 0;
    } else {
      SameHead(a, b);
      DropHead(a);
      DropHead(b);
      SortedUnique(a[1..], b[1..]);
      assert a == [a[0]] + a[1..] && b == [b[0]] + b[1..];
    }
  }

  /** The sort leaves an already sorted chain as it is. */
  lemma MergeSortOfSorted(s: seq<CStr>)
    requires Sorted(s)
    ensures MergeSort(s) == s
  {
    SortedUnique(MergeSort(s), s);
  }

  /** One pass of `merge`'s loop: linking the smaller head onto `acc` keeps the overall result. */
  lemma MergeStep(acc: seq<CStr>, a: seq<CStr>, b: seq<CStr>)
    requires |a| > 0 && |b| > 0
    ensures StrCmp(a[0], b[0]) < 0 ==> (acc + [a[0]]) + Merge(a[1..], b) == acc + Merge(a, b)
    ensures StrCmp(a[0], b[0]) >= 0 ==> (acc + [b[0]]) + Merge(a, b[1..]) == acc + Merge(a, b)
  {
  }

  /** Once either chain is used up, `merge` links on the other one whole. */
  lemma MergeRest(a: seq<CStr>, b: seq<CStr>)
    requires |a| == 0 || |b| == 0
    ensures Merge(a, b) == if |a| > 0 then a else b
  {
  }

  /**
   The loop of `merge`: `acc` is the chain linked so far, `a` and `b` the
   unconsumed parts of the two inputs. After the loop the non-empty rest is
   linked on whole.
   */
  method MergeLinks(l1: seq<CStr>, l2: seq<CStr>) returns (r: seq<CStr>)
    ensures r == Merge(l1, l2)
  {
    var a, b := l1, l2;
    var acc: seq<CStr> := [];
    while |a| > 0 && |b| > 0
      invariant acc + Merge(a, b) == Merge(l1, l2)
      decreases |a| + |b|
    {
      MergeStep(acc, a, b);
      if StrCmp(a[0], b[0]) < 0 {
        acc, a := acc + [a[0]], a[1..];
      } else {
        acc, b := acc + [b[0]], b[1..];
      }
    }
    MergeRest(a, b);
    if |a| > 0 {
      acc := acc + a;
    }
    if |b| > 0 {
      acc := acc + b;
    }
    r := acc;
  }

  /**
   The slow/fast pointer walk of `merge_sort`: `fast` starts one node ahead of
   `slow` and moves two nodes per step while it and its successor exist; the
   chain is then cut just after `slow`.
   */
  method SplitHalves(s: seq<CStr>) returns (front: seq<CStr>, back: seq<CStr>)
    requires |s| >= 2
    ensures front + back == s
    ensures |front| == FrontLength(|s|) && |back| == |s| / 2
  {
    var slow, fast := 0, 1;
    while fast < |s| && fast + 1 < |s|
      invariant fast == 2 * slow + 1 && fast <= |s|
      decreases |s| - fast
    {
      slow := slow + 1;
      fast := fast + 2;
    }
    front, back := s[..slow + 1], s[slow + 1..];
  }

  /** `merge_sort` with its split and merge loops, recursing on both halves. */
  method MergeSortLinks(s: seq<CStr>) returns (r: seq<CStr>)
    ensures r == MergeSort(s)
    ensures Sorted(r) && multiset(r) == multiset(s)
    decreases |s|
  {
    if |s| <= 1 {
      return s;
    }
    var front, back := SplitHalves(s);
    assert front == s[..FrontLength(|s|)] && back == s[FrontLength(|s|)..];
    var l1 := MergeSortLinks(front);
    var l2 := MergeSortLinks(back);
    r := MergeLinks(l1, l2);
  }
}
