/** `Question.query.order_by(Question.id)`: the question rows sorted by id. */
module Ordering {
  import opened TriviaTypes

  ghost predicate IdsAscending(s: seq<Question>) {
    forall i, j :: 0 <= i < j < |s| ==> s[i].id <= s[j].id
  }

  /** Strictly increasing ids: the order in which auto-assigned keys are handed out. */
  ghost predicate IdsIncreasing(s: seq<Question>) {
    forall i, j :: 0 <= i < j < |s| ==> s[i].id < s[j].id
  }

  function InsertById(x: Question, s: seq<Question>): (r: seq<Question>)
    requires IdsAscending(s)
    ensures IdsAscending(r)
    ensures multiset(r) == multiset(s) + multiset{x}
  {
    if s == [] then [x]
    else if x.id <= s[0].id then [x] + s
    else
      var rest := InsertById(x, s[1..]);
      assert s == [s[0]] + s[1..];
      LowerBoundKept(s[0].id, x, s[1..], rest);
      [s[0]] + rest
  }

  /** A lower bound on the ids of `s` and of `x` bounds the ids of any
      rearrangement of `s` with `x` added. */
  lemma LowerBoundKept(bound: int, x: Question, s: seq<Question>, r: seq<Question>)
    requires bound <= x.id
    requires forall k :: 0 <= k < |s| ==> bound <= s[k].id
    requires multiset(r) == multiset(s) + multiset{x}
    ensures forall k :: 0 <= k < |r| ==> bound <= r[k].id
  {
    forall k | 0 <= k < |r|
      ensures bound <= r[k].id
    {
      assert r[k] in multiset(r);
      if r[k] != x {
        assert r[k] in multiset(s);
        var j :| 0 <= j < |s| && s[j] == r[k];
      }
    }
  }

  /** The rows in ascending id order (an insertion sort). */
  function SortById(s: seq<Question>): (r: seq<Question>)
    ensures IdsAscending(r)
    ensures multiset(r) == multiset(s)
  {
    if s == [] then []
    else
      assert s == [s[0]] + s[1..];
      InsertById(s[0], SortById(s[1..]))
  }

  /** Rows already in increasing id order come back from the query unchanged. */
  lemma {:induction false} SortedIsUnchanged(s: seq<Question>)
    requires IdsIncreasing(s)
    ensures SortById(s) == s
  {
    if s != [] {
      SortedIsUnchanged(s[1..]);
      assert s == [s[0]] + s[1..];
    }
  }
}
