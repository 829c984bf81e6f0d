# Trivia API question bank — a verified model

This project models the question-bank logic of a small Flask trivia API: the handlers in
`backend/flaskr/__init__.py` that list categories, list questions ten to a page, delete a
question, create a question, search question texts, list the questions of one category, and
pick the next unseen question for a quiz. The relational store behind them becomes an
in-memory Question table (`seq<Question>`) and Category table (`seq<Category>`). Each handler
either answers with a payload or aborts with one of the error statuses the application renders
(`TriviaTypes.Status`: 400, 404, 422, 500).

Layout, one module per concern:

- `types.dfy` (`TriviaTypes`): rows, request bodies, responses, `Result`, the error table.
- `seqs.dfy` (`Seqs`): the filter every `query.filter(...).all()` amounts to, with its lemmas.
- `text.dfy` (`Text`): case folding and substring search for `ilike`, and `str` on integers.
- `pagination.dfy` (`Pagination`): `paginate_questions` with Python's slice rules.
- `ordering.dfy` (`Ordering`): `order_by(Question.id)` as an insertion sort on ids.
- `handlers.dfy` (`Handlers`): the read-only handlers. Each takes the whole Question and
  Category tables and applies its query's filter and ordering itself (`Seqs.Filter`,
  `Ordering.SortById`).
- `store.dfy` (`QuestionStore`): class `Store` holds the two tables and the next auto-increment
  key. Its methods `DeleteQuestion` and `PostQuestion` update the tables in place and state the
  whole new state.

Modelling choices:

- The `category` of a question is a string. Category ids are integers. The by-category listing
  compares a question's category with `str(category_id)` (backend/flaskr/__init__.py:192), that
  is, with the decimal text of the id (`Text.IntToString`). The quiz's
  `filter_by(category=category['id'])` (line 230) hands the raw JSON id to the database. The
  model chooses to compare it by the same decimal text.
- A `None` field in a request body stands for a key absent from the JSON body.
- `random.randrange(0, n)` becomes a caller-supplied `pick`, and the handler takes candidate
  `pick % n`. `Handlers.QuizCanPickAnyCandidate` shows that every candidate can be drawn.
- Python's slice rules are modelled in full. A page number of 0 or below is not rejected: page
  0 is empty, and a negative page is counted back from the end of the listing.
- `Store.Valid` keeps question keys strictly increasing, as auto-increment hands them out. So
  the id-ordered query returns the table as stored (`Ordering.SortedIsUnchanged`).
- The comment above the question listing (backend/flaskr/__init__.py:62-66) says it returns
  the categories, and `get_categories` (lines 45-57) builds them as an id → type dictionary.
  The listing's own loop instead crashes whenever any category exists (see Findings). `Handlers.GetQuestions`
  models the intended map. `Handlers.GetQuestionsAsWritten` models the code as written.

## Model

| member | source | states |
|---|---|---|
| `Pagination.Slice` | backend/flaskr/__init__.py:16 | never longer than the list; bounds inside the list cut exactly that range; two negative bounds count from the end; a range that ends before it starts is empty |
| `Handlers.AbsentPageListsFirstPage` | backend/flaskr/__init__.py:12 | without a `page` argument the lookup defaults to 1, so the listing shows the first ten questions |
| `Pagination.Paginate` | backend/flaskr/__init__.py:11-17 | a page never holds more than 10 items; for page p ≥ 1 it holds the items at indices (p-1)*10 up to min(p*10, n)-1, in order |
| `Pagination.PageNonEmptyIff` | backend/flaskr/__init__.py:11-17 | a positive page is non-empty exactly when p ≤ ⌈n/10⌉; every page past the last is empty |
| `Pagination.PagesArePrefix` | backend/flaskr/__init__.py:11-17 | pages 1..k concatenated are the first min(10k, n) items |
| `Pagination.AllPagesRebuildSelection` | backend/flaskr/__init__.py:11-17 | pages 1..⌈n/10⌉ concatenated reproduce the whole listing |
| `Pagination.PageZeroIsEmpty` | backend/flaskr/__init__.py:12-16 | page 0 is always empty, so it is answered with 404 |
| `Pagination.NegativePageCountsFromEnd` | backend/flaskr/__init__.py:12-16 | a negative page p selects the items from n+(p-1)*10 up to n+p*10, counted from the end |
| `Ordering.InsertById` | backend/flaskr/__init__.py:75 | inserting a row into an id-ascending list keeps it ascending and adds exactly that row |
| `Ordering.SortById` | backend/flaskr/__init__.py:75 | the id-ordered query result is ascending by id and a permutation of the table |
| `Ordering.SortedIsUnchanged` | backend/flaskr/__init__.py:75 | a table whose keys increase comes back from the ordered query unchanged |
| `Seqs.Filter` | backend/flaskr/__init__.py:170 | a filtered query returns exactly the rows satisfying its condition, never more rows than the table |
| `Seqs.FilterMultiset` | backend/flaskr/__init__.py:170 | a filtered query returns each satisfying row exactly as often as the table holds it, and no other row |
| `Seqs.FilterAgree` | backend/flaskr/__init__.py:170 | two conditions that agree on every row select the same rows |
| `Text.Lower` | backend/flaskr/__init__.py:170 | case folding keeps the length and folds each character on its own |
| `Text.LowerIdempotent` | backend/flaskr/__init__.py:170 | folding case twice equals folding it once |
| `Text.ContainsMeansOccurs` | backend/flaskr/__init__.py:170 | the scanning substring test holds exactly when the pattern occurs at some offset of the text |
| `Text.NatToString` | backend/flaskr/__init__.py:192 | `str` of a natural number is a non-empty string of decimal digits |
| `Text.NatToStringValue` | backend/flaskr/__init__.py:192 | the digits of `str(n)` denote n in decimal, and a positive n has no leading zero |
| `Text.IntToString` | backend/flaskr/__init__.py:192 | `str` of an integer starts with a minus sign exactly when it is negative, followed by the numeral of its magnitude |
| `Text.NatToStringInjective` | backend/flaskr/__init__.py:192 | distinct natural numbers print differently |
| `Text.IntToStringInjective` | backend/flaskr/__init__.py:192 | distinct integers print differently, so a category string names at most one id |
| `Handlers.BuildCategoryMap` | backend/flaskr/__init__.py:46-49 | the loop's dictionary has exactly the row ids as keys, each holding the type of the last row with that id |
| `Handlers.CategoryMapStep` | backend/flaskr/__init__.py:48-49 | one loop turn extends the dictionary of the first k rows to that of the first k+1 |
| `Handlers.GetCategories` | backend/flaskr/__init__.py:45-57 | 404 exactly when there are no category rows; otherwise the id → type map of all rows |
| `Handlers.CategoryMapDetermined` | backend/flaskr/__init__.py:45-57 | the category payload is determined by the rows, so repeated requests answer alike |
| `Handlers.GetQuestions` | backend/flaskr/__init__.py:74-93 | 404 exactly when the requested page of the id-ordered questions is empty; otherwise that page, the unpaginated count, no current category, and the category map |
| `Handlers.GetQuestionsAsWritten` | backend/flaskr/__init__.py:74-93 | as written, the listing answers 500 exactly when some category row exists; with none, it answers 404 exactly when the requested page is empty, and otherwise that page, the unpaginated count, no current category and an empty category collection |
| `Handlers.GetQuestionsAsWrittenCounterexample` | backend/flaskr/__init__.py:79-82 | with one question and one category the written handler fails with 500 although page 1 is non-empty |
| `Handlers.SearchMeansSubstring` | backend/flaskr/__init__.py:170 | the search condition holds exactly when the folded term occurs in the folded question text |
| `Handlers.SearchQuestions` | backend/flaskr/__init__.py:165-176 | 404 exactly when the term is absent or empty; otherwise exactly the questions whose text contains the term, ignoring case |
| `Handlers.SearchQuestionsCounts` | backend/flaskr/__init__.py:165-176 | for a non-empty term, each question whose text contains the term, ignoring case, is returned as often as it is stored, and no other question is |
| `Handlers.SearchIgnoresCase` | backend/flaskr/__init__.py:170 | a term and its lower-case form give the same answer |
| `Handlers.QuestionsByCategory` | backend/flaskr/__init__.py:190-201 | exactly the questions whose category equals str(category_id); the count is the length of that list; the current category echoes the id |
| `Handlers.QuestionsByCategoryCounts` | backend/flaskr/__init__.py:190-201 | each question of the category is listed as often as it is stored, so the total counts the matching rows |
| `Handlers.CategoryListingsDisjoint` | backend/flaskr/__init__.py:192 | no question is listed under two different category ids |
| `Handlers.QuizCandidates` | backend/flaskr/__init__.py:227-230 | the candidates are exactly the questions not asked yet and, unless the type is 'click', in the chosen category |
| `Handlers.QuizCandidatesCounts` | backend/flaskr/__init__.py:224-230 | each askable question is a candidate as often as it is stored, and no other question is |
| `Handlers.NextQuizQuestion` | backend/flaskr/__init__.py:216-239 | 422 exactly when a key the handler reads is missing (`WellFormedQuizBody`: both body keys, the category's `type`, and its `id` unless the type is 'click'); otherwise a returned question is unasked and in the chosen category unless 'click', and it is null exactly when no question is askable |
| `Handlers.QuizCanPickAnyCandidate` | backend/flaskr/__init__.py:232 | every askable question is returned for some outcome of the random draw |
| `Handlers.QuizNeverRepeats` | backend/flaskr/__init__.py:224-232 | a question added to previous_questions is never served again |
| `Handlers.QuizEndsWhenAllAsked` | backend/flaskr/__init__.py:228-232 | once every question's id was asked, the quiz answers with a null question |
| `QuestionStore.IndexOfId` | backend/flaskr/__init__.py:106 | the lookup finds a row with the key, and finds none exactly when no row has it |
| `QuestionStore.RemoveId` | backend/flaskr/__init__.py:110 | after deletion the table holds exactly the rows with another key |
| `QuestionStore.RemoveAtIndex` | backend/flaskr/__init__.py:106-110 | with unique keys, cutting out the found row removes exactly its key and nothing else |
| `QuestionStore.RemoveAbsentId` | backend/flaskr/__init__.py:106-108 | deleting an absent key leaves the table unchanged |
| `QuestionStore.DeleteUndoesPost` | backend/flaskr/__init__.py:110 | deleting the question just posted restores the table as it was before the post |
| `QuestionStore.NewQuestionOnLastPage` | backend/flaskr/__init__.py:124-126 | a newly posted question is the last item of the last page of the listing |
| `QuestionStore.Store.DeleteQuestion` | backend/flaskr/__init__.py:105-115 | 404 and no change when the key is absent; otherwise exactly that row is removed, every other row and the categories are kept, and the key is echoed |
| `QuestionStore.Store.PostQuestion` | backend/flaskr/__init__.py:129-151 | 422 and no change unless all four fields are present; otherwise one row with a fresh key and those four values is appended, and its key is returned |
| `QuestionStore.DeleteTwice` | backend/flaskr/__init__.py:105-115 | deleting the same key twice succeeds first and answers 404 second |
| `QuestionStore.PostThenList` | backend/flaskr/__init__.py:124-148 | after a successful post, the last page of the listing ends with the posted key |
| `TriviaTypes.RenderError` | backend/flaskr/__init__.py:247-277 | every error body has success false and an HTTP error code |
| `TriviaTypes.ErrorCodeIdentifiesStatus` | backend/flaskr/__init__.py:247-277 | the error code of a body tells which of the four conditions raised it |

## Left out

- Flask application setup, route registration, `request`, `jsonify`, the `success: true` field and the `after_request` CORS headers: framework plumbing with no logic of its own.
- SQLAlchemy, `setup_db` and the `models` module are not part of this model. Their tables are the sequences above, and `format()` is the identity on a row.
- Store operations never fail here. So the catch-all 422 around the insert in `post_question` and the catch-all 404 in `get_question_by_category` are never reached.
- JSON values of unexpected types are not modelled: a non-string category or search term, a non-integer difficulty, a non-list `previous_questions`. A key that is present with a null value is not told apart from an absent key.
- Both `post_question` and `search_question` are registered on `POST /questions`. They are modelled as two operations, and which one the dispatcher reaches is left out.
- `Handlers.SearchQuestions`: `%`, `_` and `\` in the search term are matched literally. `ilike` treats `%` and `_` as wildcards. Depending on the database, `\` is the default escape character of the pattern, since line 170 gives no ESCAPE clause: the term `a\b` would then match texts containing `ab`. Case folding covers ASCII letters only, not the database's locale rules.
- `Handlers.SearchQuestions`, `Handlers.QuestionsByCategory`, `Handlers.QuizCandidates`: the database returns rows of an unordered query in no promised order. The model returns them in table order. The contracts promise no order, but they state how often each row appears (`Seqs.FilterMultiset` and the `...Counts` lemmas).
- `QuestionStore.IndexOfId`: `one_or_none()` raises when two rows share a key. `Store.Valid` keeps keys unique, so that case is left out.
- `Handlers.NextQuizQuestion`: the quiz compares the JSON category id with the String `category` column as the database does. Depending on the database, an integer compared with a varchar may raise an error, which lines 238-239 would answer with 422. The model always compares by decimal text and never takes that path.
- The random source itself: the draw is the parameter `pick`, and uniformity is not modelled.
- Concurrency and transactions: each handler is one atomic step over the tables.
- The 400 and 500 handlers exist only in the error table (`TriviaTypes.RenderError`). The model raises 500 only in `Handlers.GetQuestionsAsWritten`.

## Findings

| source | as written | input that shows it | evidently intended | confidence | as-written member | corrected member |
|---|---|---|---|---|---|---|
| backend/flaskr/__init__.py:79-82 | `categories = []` and then `categories[category.id] = category.type` for each category row, which raises IndexError on the first row, so `GET /questions` answers 500 whenever any category exists | one category (id 1) and one question, page 1: the first page is non-empty, yet the handler fails | the id → type map of all categories, as `get_categories` builds it, in a 200 answer | high; not executed | `Handlers.GetQuestionsAsWrittenCounterexample` | `Handlers.GetQuestions` |
