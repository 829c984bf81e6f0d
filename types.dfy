/** Rows, request bodies and responses of the trivia API, shared by every handler. */
module TriviaTypes {

  datatype Option<+T> = None | Some(value: T)

  /** The four error conditions the application registers a JSON handler for. */
  datatype Status = MalformedRequest | NotFound | Unprocessable | InternalServerError {

    /** The HTTP status code, which is also the `error` field of the body. */
    function Code(): int {
      match this
      case MalformedRequest => 400
      case NotFound => 404
      case Unprocessable => 422
      case InternalServerError => 500
    }

    /** The `message` field of the error body. */
    function Message(): string {
      match this
      case MalformedRequest => "Malformed request"
      case NotFound => "Page not Found"
      case Unprocessable => "Unprocessable entity"
      case InternalServerError => "Internal Server Error"
    }
  }

  /** A handler either answers with a success payload or aborts with a status. */
  datatype Result<+T> = Ok(value: T) | Err(status: Status)

  /** The JSON body every error handler renders: `success` is always false. */
  datatype ErrorBody = ErrorBody(success: bool, error: int, message: string)

  function RenderError(s: Status): (b: ErrorBody)
    ensures !b.success && 400 <= b.error < 600
  {
    ErrorBody(false, s.Code(), s.Message())
  }

  /** The `error` code of a rendered body tells which condition raised it. */
  lemma ErrorCodeIdentifiesStatus(s: Status, t: Status)
    ensures RenderError(s).error == RenderError(t).error <==> s == t
  {
  }

  /** A row of the Question table; `format()` is the identity on it. */
  datatype Question = Question(id: int, question: string, answer: string, category: string, difficulty: int)

  /** A row of the Category table; `kind` holds the column named `type`. */
  datatype Category = Category(id: int, kind: string)

  /** The JSON body of a create request; `None` is a key absent from the body. */
  datatype NewQuestionBody = NewQuestionBody(
    question: Option<string>,
    answer: Option<string>,
    category: Option<string>,
    difficulty: Option<int>)
  {
    predicate HasAllFields() {
      category.Some? && question.Some? && difficulty.Some? && answer.Some?
    }
  }

  /** The `quiz_category` object of a quiz request; `kind` is its `type` key. */
  datatype QuizCategory = QuizCategory(id: Option<int>, kind: Option<string>)

  /** The JSON body of a quiz request; `None` is a key absent from the body. */
  datatype QuizBody = QuizBody(quizCategory: Option<QuizCategory>, previousQuestions: Option<seq<int>>)

  /** Success payload of the paginated question listing. */
  datatype QuestionsPage = QuestionsPage(
    questions: seq<Question>,
    totalQuestions: nat,
    currentCategory: Option<int>,
    categories: map<int, string>)

  /** Success payload of the per-category question listing. */
  datatype CategoryListing = CategoryListing(questions: seq<Question>, totalQuestions: nat, currentCategory: int)
}
