/** The persistent store and the two handlers that change it:
    DELETE /questions/<id> and POST /questions with the four question fields. */
module QuestionStore {
  import opened TriviaTypes
  import opened Seqs
  import opened Ordering
  import opened Pagination

  predicate HasId(qs: seq<Question>, id: int) {
    exists i :: 0 <= i < |qs| && qs[i].id == id
  }

  /** `filter_by(id=...).one_or_none()`: where the row with key `id` is, if any. */
  function IndexOfId(qs: seq<Question>, id: int): (r: Option<nat>)
    ensures r.Some? ==> r.value < |qs| && qs[r.value].id == id
    ensures r.None? <==> !HasId(qs, id)
  {
    if qs == [] then None
    else if qs[0].id == id then Some(0)
    else
      match IndexOfId(qs[1..], id)
      case None => None
      case Some(k) => Some(k + 1)
  }

  function NotId(id: int): Question -> bool {
    (q: Question) => q.id != id
  }

  /** The Question table once the row with key `id` is gone. */
  function RemoveId(qs: seq<Question>, id: int): (r: seq<Question>)
    ensures forall q :: q in r <==> q in qs && q.id != id
  {
    Filter(qs, NotId(id))
  }

  /** With unique keys, cutting out the row at `i` removes exactly its key. */
  lemma RemoveAtIndex(qs: seq<Question>, i: nat)
    requires IdsIncreasing(qs) && i < |qs|
    ensures qs[..i] + qs[i + 1..] == RemoveId(qs, qs[i].id)
  {
    var p := NotId(qs[i].id);
    forall k | 0 <= k < |qs| && k != i
      ensures p(qs[k])
    {
      assert k < i || i < k;
    }
    FilterDropsOne(qs, i, p);
  }

  /** Deleting an absent key leaves the table as it was. */
  lemma RemoveAbsentId(qs: seq<Question>, id: int)
    requires !HasId(qs, id)
    ensures RemoveId(qs, id) == qs
  {
    FilterKeepsAll(qs, NotId(id));
  }

  /** Deleting the question just posted gives back the table before the post. */
  lemma DeleteUndoesPost(qs: seq<Question>, q: Question)
    requires !HasId(qs, q.id)
    ensures RemoveId(qs + [q], q.id) == qs
  {
    FilterConcat(qs, [q], NotId(q.id));
    RemoveAbsentId(qs, q.id);
  }

  /** A question whose key exceeds every existing one is the last item of
      the last page of the id-ordered listing. */
  lemma NewQuestionOnLastPage(qs: seq<Question>, q: Question)
    requires IdsIncreasing(qs)
    requires forall i :: 0 <= i < |qs| ==> qs[i].id < q.id
    ensures var all := qs + [q];
            var last := Paginate(SortById(all), PageCount(|all|));
            last != [] && last[|last| - 1] == q
  {
    var all := qs + [q];
    assert IdsIncreasing(all);
    SortedIsUnchanged(all);
    var n := |qs|;
    var p := PageCount(n + 1);
    assert p == n / QuestionsPerPage + 1;
    var start := (p - 1) * QuestionsPerPage;
    assert start <= n < start + QuestionsPerPage;
    var last := Paginate(all, p);
    assert |last| == n + 1 - start;
    assert last[|last| - 1] == all[n];
  }

  class Store {
    /** The Question table, in the order its keys were handed out. */
    var questions: seq<Question>
    /** The Category table, which no handler changes. */
    var categories: seq<Category>
    /** The next key the Question table's auto-increment hands out. */
    var nextId: int

    ghost predicate Valid()
      reads this
    {
      && IdsIncreasing(questions)
      && forall i :: 0 <= i < |questions| ==> questions[i].id < nextId
    }

    constructor (categories: seq<Category>)
      ensures Valid()
      ensures this.questions == [] && this.categories == categories && nextId == 1
    {
      this.questions := [];
      this.categories := categories;
      this.nextId := 1;
    }

    /** DELETE /questions/<id>: 404 when no row has the key, else the row is
        removed and the key echoed back. */
    method DeleteQuestion(id: int) returns (r: Result<int>)
      requires Valid()
      modifies this
      ensures Valid()
      ensures categories == old(categories) && nextId == old(nextId)
      ensures r == if HasId(old(questions), id) then Ok(id) else Err(NotFound)
      ensures questions == RemoveId(old(questions), id)
      ensures r.Err? ==> questions == old(questions)
      ensures r.Ok? ==> |questions| == |old(questions)| - 1
      ensures !HasId(questions, id)
    {
      var found := IndexOfId(questions, id);
      if found.None? {
        RemoveAbsentId(questions, id);
        return Err(NotFound);
      }
      var i := found.value;
      RemoveAtIndex(questions, i);
      questions := questions[..i] + questions[i + 1..];
      r := Ok(id);
    }

    /** POST /questions: 422 unless all four fields are present, else a new
        row with a fresh key and those values is appended and the key returned. */
    method PostQuestion(body: NewQuestionBody) returns (r: Result<int>)
      requires Valid()
      modifies this
      ensures Valid()
      ensures categories == old(categories)
      ensures r.Err? <==> !body.HasAllFields()
      ensures r.Err? ==> r.status == Unprocessable && questions == old(questions) && nextId == old(nextId)
      ensures r.Ok? ==>
        && r.value == old(nextId)
        && !HasId(old(questions), r.value)
        && nextId == old(nextId) + 1
        && questions == old(questions) + [Question(r.value, body.question.value, body.answer.value,
                                                   body.category.value, body.difficulty.value)]
    {
      if !body.HasAllFields() {
        return Err(Unprocessable);
      }
      var q := Question(nextId, body.question.value, body.answer.value, body.category.value, body.difficulty.value);
      questions := questions + [q];
      nextId := nextId + 1;
      r := Ok(q.id);
    }
  }

  /** Deleting the same key twice: the first request succeeds, the second
      finds nothing. */
  method DeleteTwice(store: Store, id: int) returns (first: Result<int>, second: Result<int>)
    requires store.Valid() && HasId(store.questions, id)
    modifies store
    ensures first == Ok(id) && second == Err(NotFound)
  {
    first := store.DeleteQuestion(id);
    second := store.DeleteQuestion(id);
  }

  /** Posting a question and then listing the last page shows it there. */
  method PostThenList(store: Store, body: NewQuestionBody) returns (posted: Result<int>)
    requires store.Valid() && body.HasAllFields()
    modifies store
    ensures posted.Ok?
    ensures var last := Paginate(SortById(store.questions), PageCount(|store.questions|));
            last != [] && last[|last| - 1].id == posted.value
  {
    ghost var before := store.questions;
    ghost var key := store.nextId;
    posted := store.PostQuestion(body);
    ghost var q := Question(key, body.question.value, body.answer.value, body.category.value, body.difficulty.value);
    assert posted == Ok(key) && store.questions == before + [q];
    ghost var all := store.questions;
    assert var last := Paginate(SortById(all), PageCount(|all|));
           last != [] && last[|last| - 1].id == key by {
      NewQuestionOnLastPage(before, q);
    }
  }
}
