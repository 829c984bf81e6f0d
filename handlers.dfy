/** The read-only request handlers of the trivia API. Each takes the whole
    Question table `qs` and Category table `cats`, in the order the store
    keeps them, and applies its query's filter and ordering itself
    (`Filter`, `SortById`). */
module Handlers {
  import opened TriviaTypes
  import opened Seqs
  import opened Text
  import opened Pagination
  import opened Ordering

  // ---------------------------------------------------------------------
  // GET /categories

  /** Row `i` is the last row before `bound` that carries its id. */
  ghost predicate LastWithId(cats: seq<Category>, i: int, bound: int) {
    0 <= i < bound <= |cats| && forall j :: i < j < bound ==> cats[j].id != cats[i].id
  }

  /** `m` is the id -> type dictionary that a Python loop assigning
      `m[c.id] = c.type` over the first `k` rows ends with: every id of those
      rows is a key, and each key holds the type of the last row carrying it. */
  ghost predicate IsCategoryMapUpTo(cats: seq<Category>, k: nat, m: map<int, string>)
    requires k <= |cats|
  {
    && m.Keys == (set j | 0 <= j < k :: cats[j].id)
    && forall i :: LastWithId(cats, i, k) ==> m[cats[i].id] == cats[i].kind
  }

  /** `m` is the dictionary built from all the rows. */
  ghost predicate IsCategoryMap(cats: seq<Category>, m: map<int, string>) {
    IsCategoryMapUpTo(cats, |cats|, m)
  }

  /** One turn of the loop: assigning row `k` extends the dictionary of the
      first `k` rows to that of the first `k + 1`. */
  lemma CategoryMapStep(cats: seq<Category>, k: nat, m: map<int, string>)
    requires k < |cats| && IsCategoryMapUpTo(cats, k, m)
    ensures IsCategoryMapUpTo(cats, k + 1, m[cats[k].id := cats[k].kind])
  {
    var m' := m[cats[k].id := cats[k].kind];
    assert m'.Keys == m.Keys + {cats[k].id};
    forall i | LastWithId(cats, i, k + 1)
      ensures m'[cats[i].id] == cats[i].kind
    {
      if i < k {
        assert LastWithId(cats, i, k);
      }
    }
  }

  /** The dictionary-building loop over the category rows. */
  method BuildCategoryMap(cats: seq<Category>) returns (m: map<int, string>)
    ensures IsCategoryMap(cats, m)
  {
    m := map[];
    for k := 0 to |cats|
      invariant IsCategoryMapUpTo(cats, k, m)
    {
      CategoryMapStep(cats, k, m);
      m := m[cats[k].id := cats[k].kind];
    }
  }

  method GetCategories(cats: seq<Category>) returns (r: Result<map<int, string>>)
    ensures r.Err? <==> cats == []
    ensures r.Err? ==> r.status == NotFound
    ensures r.Ok? ==> IsCategoryMap(cats, r.value)
  {
    var m := BuildCategoryMap(cats);
    if cats != [] {
      assert cats[0].id in m;
    }
    if |m| == 0 {
      return Err(NotFound);
    }
    return Ok(m);
  }

  /** Every id that occurs has a last row carrying it. */
  lemma {:induction false} LastRowWithId(cats: seq<Category>, id: int) returns (i: int)
    requires exists c :: c in cats && c.id == id
    ensures LastWithId(cats, i, |cats|) && cats[i].id == id
  {
    var n := |cats|;
    if cats[n - 1].id == id {
      i := n - 1;
    } else {
      var init := cats[..n - 1];
      assert cats == init + [cats[n - 1]];
      var c :| c in cats && c.id == id;
      assert c in init;
      i := LastRowWithId(init, id);
    }
  }

  /** The category payload is a function of the rows alone, so two requests
      with no change in between answer alike. */
  lemma CategoryMapDetermined(cats: seq<Category>, m1: map<int, string>, m2: map<int, string>)
    requires IsCategoryMap(cats, m1) && IsCategoryMap(cats, m2)
    ensures m1 == m2
  {
    forall id | id in m1
      ensures m1[id] == m2[id]
    {
      var i := LastRowWithId(cats, id);
    }
  }

  // ---------------------------------------------------------------------
  // GET /questions?page=N

  /** The `page` query argument; `None` stands for absent or not an integer,
      where the lookup falls back to its default of 1. */
  function PageArgument(page: Option<int>): int {
    if page.Some? then page.value else 1
  }

  /** Without a usable `page` argument the listing shows its first ten questions. */
  lemma AbsentPageListsFirstPage(selection: seq<Question>)
    ensures Paginate(selection, PageArgument(None)) == selection[..Min(QuestionsPerPage, |selection|)]
  {
  }

  /** The listing handler as it is meant to be: the current page of the
      id-ordered questions, the unpaginated count, and the category map. */
  method GetQuestions(qs: seq<Question>, cats: seq<Category>, page: Option<int>) returns (r: Result<QuestionsPage>)
    ensures var current := Paginate(SortById(qs), PageArgument(page));
      && (r.Err? <==> current == [])
      && (r.Err? ==> r.status == NotFound)
      && (r.Ok? ==> && r.value.questions == current
                    && r.value.totalQuestions == |qs|
                    && r.value.currentCategory == None
                    && IsCategoryMap(cats, r.value.categories))
  {
    var current := Paginate(SortById(qs), PageArgument(page));
    var categories := BuildCategoryMap(cats);
    if |current| == 0 {
      return Err(NotFound);
    }
    return Ok(QuestionsPage(current, |qs|, None, categories));
  }

  /** The listing handler as written: it assigns into an empty Python list
      by category id, which raises on the first category row, so the
      request ends in an internal error whenever any category exists. */
  function GetQuestionsAsWritten(qs: seq<Question>, cats: seq<Category>, page: Option<int>): (r: Result<QuestionsPage>)
    ensures cats != [] <==> r == Err(InternalServerError)
    ensures cats == [] ==>
      var current := Paginate(SortById(qs), PageArgument(page));
      && (r.Err? <==> current == [])
      && (r.Err? ==> r.status == NotFound)
      && (r.Ok? ==> && r.value.questions == current
                    && r.value.totalQuestions == |qs|
                    && r.value.currentCategory == None
                    && r.value.categories == map[])
  {
    var current := Paginate(SortById(qs), PageArgument(page));
    if cats != [] then Err(InternalServerError)
    else if current == [] then Err(NotFound)
    else Ok(QuestionsPage(current, |qs|, None, map[]))
  }

  /** One question and one category: the written handler fails, while the
      first page is non-empty, so the intended handler answers with it. */
  lemma GetQuestionsAsWrittenCounterexample()
    ensures var qs := [Question(1, "Who?", "Me", "1", 1)];
            var cats := [Category(1, "Science")];
            && GetQuestionsAsWritten(qs, cats, None) == Err(InternalServerError)
            && Paginate(SortById(qs), PageArgument(None)) == qs
  {
  }

  // ---------------------------------------------------------------------
  // POST /questions with {searchTerm}

  /** The `ilike '%term%'` test on the question text. */
  function MatchesSearch(term: string): Question -> bool {
    (q: Question) => Contains(Lower(q.question), Lower(term))
  }

  lemma SearchMeansSubstring(term: string)
    ensures forall q: Question :: MatchesSearch(term)(q) <==> OccursIn(Lower(term), Lower(q.question))
  {
    forall q: Question
      ensures MatchesSearch(term)(q) <==> OccursIn(Lower(term), Lower(q.question))
    {
      ContainsMeansOccurs(Lower(q.question), Lower(term));
    }
  }

  function SearchQuestions(qs: seq<Question>, searchTerm: Option<string>): (r: Result<seq<Question>>)
    ensures r.Err? <==> searchTerm.None? || searchTerm.value == ""
    ensures r.Err? ==> r.status == NotFound
    ensures r.Ok? ==> forall q :: q in r.value <==> q in qs && OccursIn(Lower(searchTerm.value), Lower(q.question))
  {
    if searchTerm.None? || searchTerm.value == "" then Err(NotFound)
    else
      SearchMeansSubstring(searchTerm.value);
      Ok(Filter(qs, MatchesSearch(searchTerm.value)))
  }

  /** Each matching question is returned as often as it is stored. */
  lemma SearchQuestionsCounts(qs: seq<Question>, term: string, q: Question)
    requires term != ""
    ensures var r := SearchQuestions(qs, Some(term));
            && r.Ok?
            && multiset(r.value)[q] == if OccursIn(Lower(term), Lower(q.question)) then multiset(qs)[q] else 0
  {
    SearchMeansSubstring(term);
    FilterMultiset(qs, MatchesSearch(term), q);
  }

  /** Searching for a term or for its lower-case form finds the same questions. */
  lemma SearchIgnoresCase(qs: seq<Question>, term: string)
    ensures SearchQuestions(qs, Some(term)) == SearchQuestions(qs, Some(Lower(term)))
  {
    LowerIdempotent(term);
    if term != [] {
      assert Lower(term) != [];
      FilterAgree(qs, MatchesSearch(term), MatchesSearch(Lower(term)));
    }
  }

  // ---------------------------------------------------------------------
  // GET /categories/<category_id>/questions

  function InCategory(name: string): Question -> bool {
    (q: Question) => q.category == name
  }

  /** The route's converter admits only non-negative ids; the rows are
      compared with the id's decimal text. */
  function QuestionsByCategory(qs: seq<Question>, categoryId: nat): (r: CategoryListing)
    ensures forall q :: q in r.questions <==> q in qs && q.category == IntToString(categoryId)
    ensures r.totalQuestions == |r.questions| <= |qs|
    ensures r.currentCategory == categoryId
  {
    var matching := Filter(qs, InCategory(IntToString(categoryId)));
    CategoryListing(matching, |matching|, categoryId)
  }

  /** Each matching row is listed as often as it is stored, so the count
      is the number of matching rows. */
  lemma QuestionsByCategoryCounts(qs: seq<Question>, categoryId: nat, q: Question)
    ensures multiset(QuestionsByCategory(qs, categoryId).questions)[q]
         == if q.category == IntToString(categoryId) then multiset(qs)[q] else 0
  {
    FilterMultiset(qs, InCategory(IntToString(categoryId)), q);
  }

  /** No question is listed under two different categories. */
  lemma CategoryListingsDisjoint(qs: seq<Question>, a: nat, b: nat, q: Question)
    requires a != b
    requires q in QuestionsByCategory(qs, a).questions
    ensures q !in QuestionsByCategory(qs, b).questions
  {
    IntToStringInjective(a, b);
  }

  // ---------------------------------------------------------------------
  // POST /quizzes

  /** The sentinel category type meaning "all categories". */
  const AllCategories := "click"

  /** The body has both keys, the category has a `type`, and it has an `id`
      wherever that is read; anything else raises and is answered with 422. */
  predicate WellFormedQuizBody(body: QuizBody) {
    && body.quizCategory.Some?
    && body.previousQuestions.Some?
    && body.quizCategory.value.kind.Some?
    && (body.quizCategory.value.kind.value != AllCategories ==> body.quizCategory.value.id.Some?)
  }

  /** `q` may come next: it was not asked yet, and it is in the chosen
      category unless all categories were chosen. */
  ghost predicate Askable(q: Question, body: QuizBody)
    requires WellFormedQuizBody(body)
  {
    var cat := body.quizCategory.value;
    && q.id !in body.previousQuestions.value
    && (cat.kind.value != AllCategories ==> q.category == IntToString(cat.id.value))
  }

  /** The filter the quiz query applies. */
  function QuizFilter(body: QuizBody): Question -> bool
    requires WellFormedQuizBody(body)
  {
    var cat := body.quizCategory.value;
    var previous := body.previousQuestions.value;
    if cat.kind.value == AllCategories then
      (q: Question) => q.id !in previous
    else
      var wanted := IntToString(cat.id.value);
      (q: Question) => q.category == wanted && q.id !in previous
  }

  function QuizCandidates(qs: seq<Question>, body: QuizBody): (r: seq<Question>)
    requires WellFormedQuizBody(body)
    ensures forall q :: q in r <==> q in qs && Askable(q, body)
  {
    Filter(qs, QuizFilter(body))
  }

  /** Each askable question is a candidate as often as it is stored. */
  lemma QuizCandidatesCounts(qs: seq<Question>, body: QuizBody, q: Question)
    requires WellFormedQuizBody(body)
    ensures multiset(QuizCandidates(qs, body))[q] == if Askable(q, body) then multiset(qs)[q] else 0
  {
    FilterMultiset(qs, QuizFilter(body), q);
    assert QuizFilter(body)(q) <==> Askable(q, body);
  }

  /** The quiz handler; `pick` stands for the random draw, which takes
      candidate `pick % n` out of the `n` candidates. */
  function NextQuizQuestion(qs: seq<Question>, body: QuizBody, pick: nat): (r: Result<Option<Question>>)
    ensures r.Err? <==> !WellFormedQuizBody(body)
    ensures r.Err? ==> r.status == Unprocessable
    ensures r.Ok? ==> (r.value.None? <==> forall q :: q in qs ==> !Askable(q, body))
    ensures r.Ok? && r.value.Some? ==> r.value.value in qs && Askable(r.value.value, body)
  {
    if !WellFormedQuizBody(body) then Err(Unprocessable)
    else
      var candidates := QuizCandidates(qs, body);
      if |candidates| == 0 then Ok(None)
      else
        var chosen := candidates[pick % |candidates|];
        assert chosen in candidates;
        Ok(Some(chosen))
  }

  function IndexOf(s: seq<Question>, x: Question): (k: nat)
    requires x in s
    ensures k < |s| && s[k] == x
  {
    if s[0] == x then 0 else 1 + IndexOf(s[1..], x)
  }

  /** Every askable question is returned for some outcome of the draw. */
  lemma QuizCanPickAnyCandidate(qs: seq<Question>, body: QuizBody, q: Question) returns (pick: nat)
    requires WellFormedQuizBody(body)
    requires q in qs && Askable(q, body)
    ensures NextQuizQuestion(qs, body, pick) == Ok(Some(q))
  {
    var candidates := QuizCandidates(qs, body);
    assert q in candidates;
    pick := IndexOf(candidates, q);
    assert pick % |candidates| == pick;
  }

  /** A question the client adds to `previous_questions` is never served again. */
  lemma QuizNeverRepeats(qs: seq<Question>, body: QuizBody, pick: nat, q: Question, later: nat)
    requires NextQuizQuestion(qs, body, pick) == Ok(Some(q))
    ensures var next := QuizBody(body.quizCategory, Some(body.previousQuestions.value + [q.id]));
            NextQuizQuestion(qs, next, later) != Ok(Some(q))
  {
  }

  /** Once every question has been asked the quiz answers with no question. */
  lemma QuizEndsWhenAllAsked(qs: seq<Question>, body: QuizBody, pick: nat)
    requires WellFormedQuizBody(body)
    requires forall i :: 0 <= i < |qs| ==> qs[i].id in body.previousQuestions.value
    ensures NextQuizQuestion(qs, body, pick) == Ok(None)
  {
  }
}
