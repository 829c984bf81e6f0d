/** The filter that every `query.filter(...).all()` of the handlers amounts to. */
module Seqs {

  /** The elements of `s` that satisfy `p`, in their original order. */
  function Filter<T(!new)>(s: seq<T>, p: T -> bool): (r: seq<T>)
    ensures |r| <= |s|
    ensures forall x :: x in r <==> x in s && p(x)
  {
    if s == [] then []
    else
      (if p(s[0]) then [s[0]] else []) + Filter(s[1..], p)
  }

  /** Each element is kept exactly as often as it occurs in `s` when it
      satisfies `p`, and dropped otherwise. */
  lemma {:induction false} FilterMultiset<T(!new)>(s: seq<T>, p: T -> bool, x: T)
    ensures multiset(Filter(s, p))[x] == if p(x) then multiset(s)[x] else 0
  {
    if s != [] {
      FilterMultiset(s[1..], p, x);
      assert s == [s[0]] + s[1..];
    }
  }

  lemma {:induction false} FilterConcat<T(!new)>(a: seq<T>, b: seq<T>, p: T -> bool)
    ensures Filter(a + b, p) == Filter(a, p) + Filter(b, p)
  {
    if a == [] {
      assert a + b == b;
    } else {
      assert (a + b)[1..] == a[1..] + b;
      FilterConcat(a[1..], b, p);
    }
  }

  /** Filtering by a predicate every element meets keeps the sequence as it is. */
  lemma {:induction false} FilterKeepsAll<T(!new)>(s: seq<T>, p: T -> bool)
    requires forall i :: 0 <= i < |s| ==> p(s[i])
    ensures Filter(s, p) == s
  {
    if s != [] {
      FilterKeepsAll(s[1..], p);
    }
  }

  /** Two predicates that agree on every element of `s` keep the same elements. */
  lemma {:induction false} FilterAgree<T(!new)>(s: seq<T>, p: T -> bool, q: T -> bool)
    requires forall x :: x in s ==> p(x) == q(x)
    ensures Filter(s, p) == Filter(s, q)
  {
    if s != [] {
      FilterAgree(s[1..], p, q);
    }
  }

  /** Filtering out a single element that alone fails the predicate cuts it out. */
  lemma {:induction false} FilterDropsOne<T(!new)>(s: seq<T>, i: nat, p: T -> bool)
    requires i < |s| && !p(s[i])
    requires forall k :: 0 <= k < |s| && k != i ==> p(s[k])
    ensures Filter(s, p) == s[..i] + s[i + 1..]
  {
    var tail := s[1..];
    if i == 0 {
      assert forall k :: 0 <= k < |tail| ==> p(tail[k]) by {
        forall k | 0 <= k < |tail| ensures p(tail[k]) {
          assert tail[k] == s[k + 1];
        }
      }
      FilterKeepsAll(tail, p);
    } else {
      assert forall k :: 0 <= k < |tail| && k != i - 1 ==> p(tail[k]) by {
        forall k | 0 <= k < |tail| && k != i - 1 ensures p(tail[k]) {
          assert tail[k] == s[k + 1];
        }
      }
      FilterDropsOne(tail, i - 1, p);
      assert p(s[0]);
      assert s[..i] + s[i + 1..] == [s[0]] + (tail[..i - 1] + tail[i..]);
    }
  }
}
