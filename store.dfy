/** The question store behind the route handlers of backend/flaskr/__init__.py.
    The database is abstracted as the rows of the two tables; the handlers
    that change it are methods with `modifies this`, the others only read. */
module Store {
  import opened Wrappers
  import opened Models
  import opened Replies
  import Seqs
  import Pagination
  import Categories
  import Quiz

  /** The body of a successful `GET /questions`. */
  datatype QuestionsPage = QuestionsPage(questions: seq<Question>, totalQuestions: nat, categories: map<int, string>)

  /** The fields of a `POST /questions` body that the handler reads; an absent
      key is `None`. */
  datatype PostBody = PostBody(
    searchTerm: Option<string>,
    question: Option<string>,
    answer: Option<string>,
    difficulty: Option<int>,
    category: Option<int>)

  /** The body of a successful `POST /questions`: a search result or a creation. */
  datatype PostResult =
    | Found(questions: seq<Question>, totalQuestions: nat)
    | Created(created: int, questionCreated: string, questions: seq<Question>, totalQuestions: nat)

  /** The body of a successful `POST /quizzes`: no question once the quiz is over. */
  datatype QuizBody = NoQuestion | Next(question: Question)

  /** Python falsiness of a text field: absent (`None`) or empty. */
  predicate BlankText(v: Option<string>) { v.None? || v.value == "" }

  /** Python falsiness of a number field: absent (`None`) or zero. */
  predicate BlankNumber(v: Option<int>) { v.None? || v.value == 0 }

  /** `any(not item for item in [new_question, new_answer, new_difficulty, new_category])` */
  predicate HasBlankField(body: PostBody)
    ensures !HasBlankField(body) <==>
      && body.question.Some? && body.question.value != ""
      && body.answer.Some? && body.answer.value != ""
      && body.difficulty.Some? && body.difficulty.value != 0
      && body.category.Some? && body.category.value != 0
  {
    BlankText(body.question) || BlankText(body.answer) || BlankNumber(body.difficulty) || BlankNumber(body.category)
  }

  class QuestionStore {
    var questions: seq<Question>
    var categories: seq<Category>
    /** The id the store assigns to the next inserted question. */
    var nextId: int

    ghost predicate Valid()
      reads this
    {
      && IdsIncreasing(questions)
      && forall q :: q in questions ==> q.id < nextId
    }

    constructor (rows: seq<Question>, cats: seq<Category>)
      requires IdsIncreasing(rows)
      ensures Valid()
      ensures questions == rows && categories == cats
    {
      questions := rows;
      categories := cats;
      nextId := if rows == [] then 1 else rows[|rows| - 1].id + 1;
    }

    /** `GET /categories`: the id-to-type dictionary, 404 when it is empty. */
    method ListCategories() returns (r: Reply<map<int, string>>)
      ensures r.Error? <==> categories == []
      ensures r.Error? ==> r.code == NotFound
      ensures r.Status() == (if categories == [] then 404 else 200)
      ensures r.Ok? ==> r.body == Categories.CategoryMap(categories)
      ensures r.Ok? ==> r.body.Keys == Categories.CategoryIds(categories)
    {
      var m := Categories.BuildCategoryMap(categories);
      Categories.CategoryMapEmpty(categories);
      if |m| == 0 {
        r := Error(NotFound);
      } else {
        r := Ok(m);
      }
    }

    /** `GET /questions?page=N`: one page of questions, the total and the
        category dictionary; 404 when the page is empty. */
    method ListQuestions(page: int) returns (r: Reply<QuestionsPage>)
      ensures r.Error? <==> Pagination.Paginate(questions, page, Format) == []
      ensures page >= 1 ==> (r.Error? <==> (page - 1) * Pagination.QuestionsPerPage >= |questions|)
      ensures page == 0 ==> r.Error?
      ensures r.Error? ==> r.code == NotFound
      ensures r.Status() == (if Pagination.Paginate(questions, page, Format) == [] then 404 else 200)
      ensures r.Ok? ==> r.body == QuestionsPage(Pagination.Paginate(questions, page, Format), |questions|,
                                                Categories.CategoryMap(categories))
    {
      var total := |questions|;
      var current := Pagination.Paginate(questions, page, Format);
      var dict := Categories.BuildCategoryMap(categories);
      Pagination.EmptyPage(questions, page, Format);
      if |current| == 0 {
        r := Error(NotFound);
      } else {
        r := Ok(QuestionsPage(current, total, dict));
      }
    }

    /** `DELETE /questions/<id>`. A missing id aborts with 404 inside the
        bare `try`, whose `except` turns it into 422. */
    method DeleteQuestion(id: int) returns (r: Reply<int>)
      requires Valid()
      modifies this
      ensures Valid()
      ensures categories == old(categories) && nextId == old(nextId)
      ensures r.Status() == (if Lookup(old(questions), id).None? then 422 else 200)
      ensures Lookup(old(questions), id).None? ==> r == Error(Unprocessable) && questions == old(questions)
      ensures Lookup(old(questions), id).Some? ==>
                && r == Ok(id)
                && questions == WithoutId(old(questions), id)
                && |questions| == |old(questions)| - 1
      ensures forall q :: q in old(questions) && q.id != id ==> q in questions
      ensures Lookup(questions, id).None?
    {
      var question := Lookup(questions, id);
      if question.None? {
        r := Error(Unprocessable);
      } else {
        DeleteRemovesExactlyOne(questions, id);
        questions := WithoutId(questions, id);
        r := Ok(id);
      }
    }

    /** The search branch of `POST /questions`, after the query: `matches`
        stands for the database's evaluation of `question ILIKE '%term%'`.
        404 when nothing matches, else one page of the matches. */
    method SearchQuestions(matches: Question -> bool, page: int) returns (r: Reply<PostResult>)
      ensures var hits := Seqs.Filter(questions, matches);
        && (r.Error? <==> hits == [])
        && (r.Error? ==> r.code == NotFound)
        && (r.Ok? ==> r == Ok(Found(Pagination.Paginate(hits, page, Format), |questions|)))
      ensures r.Ok? ==> forall q :: q in r.body.questions ==> q in questions && matches(q)
    {
      var selection := Seqs.Filter(questions, matches);
      if |selection| == 0 {
        r := Error(NotFound);
      } else {
        var paginated := Pagination.Paginate(selection, page, Format);
        Pagination.PageDrawsFromSelection(selection, page, Format);
        r := Ok(Found(paginated, |questions|));
      }
    }

    /** The create branch of `POST /questions`: 422 and no change when a field
        is falsy, else exactly one new question, listed last in id order. */
    method CreateQuestion(body: PostBody, page: int) returns (r: Reply<PostResult>)
      requires Valid()
      modifies this
      ensures Valid()
      ensures categories == old(categories)
      ensures HasBlankField(body) ==>
                r == Error(Unprocessable) && questions == old(questions) && nextId == old(nextId)
      ensures !HasBlankField(body) ==>
                var q := Question(old(nextId), body.question.value, body.answer.value,
                                  body.difficulty.value, body.category.value);
                && q !in old(questions)
                && questions == old(questions) + [q]
                && |questions| == |old(questions)| + 1
                && nextId == old(nextId) + 1
                && r == Ok(Created(q.id, q.question, Pagination.Paginate(questions, page, Format), |questions|))
    {
      if HasBlankField(body) {
        r := Error(Unprocessable);
        return;
      }
      var question := Question(nextId, body.question.value, body.answer.value,
                               body.difficulty.value, body.category.value);
      AppendKeepsIdsIncreasing(questions, question);
      questions := questions + [question];
      nextId := nextId + 1;
      // `Question.query.order_by(Question.id)` is the stored order, since ids increase.
      var current := Pagination.Paginate(questions, page, Format);
      r := Ok(Created(question.id, question.question, current, |questions|));
    }

    /** `POST /questions`: a non-empty `searchTerm` searches, anything else creates. */
    method PostQuestion(body: PostBody, matches: Question -> bool, page: int) returns (r: Reply<PostResult>)
      requires Valid()
      modifies this
      ensures Valid()
      ensures categories == old(categories)
      ensures !BlankText(body.searchTerm) ==>
                && questions == old(questions)
                && nextId == old(nextId)
                && (r.Error? <==> Seqs.Filter(questions, matches) == [])
                && (r.Error? ==> r.code == NotFound)
                && (r.Ok? ==> r.body.Found?)
      ensures BlankText(body.searchTerm) ==>
                && (r.Error? <==> HasBlankField(body))
                && (r.Error? ==> r.code == Unprocessable && questions == old(questions) && nextId == old(nextId))
                && (r.Ok? ==> r.body.Created? && |questions| == |old(questions)| + 1)
                && (r.Ok? ==>
                      && questions == old(questions) + [Question(old(nextId), body.question.value, body.answer.value,
                                                                 body.difficulty.value, body.category.value)]
                      && nextId == old(nextId) + 1)
    {
      if !BlankText(body.searchTerm) {
        r := SearchQuestions(matches, page);
      } else {
        r := CreateQuestion(body, page);
      }
    }

    /** `POST /quizzes`: the decision of `Quiz.PlanFor` on the stored rows,
        then `random.choice` as a free choice from the pool. */
    method Quizzes(req: Quiz.QuizRequest) returns (r: Reply<QuizBody>)
      ensures r == Error(BadRequest) <==> req.previous.None? || req.category.None?
      ensures match Quiz.PlanFor(questions, req)
        case Reject => r == Error(BadRequest)
        case MissingId => r == Error(InternalError)
        case Exhausted => r == Ok(NoQuestion)
        case ChooseFrom(pool) =>
          if pool == [] then r == Error(InternalError) else r.Ok? && r.body.Next? && r.body.question in pool
      ensures r.Ok? && r.body.Next? ==>
                && req.previous.Some? && req.category.Some? && req.category.value.id.Some?
                && r.body.question in questions
                && r.body.question.id !in req.previous.value
                && (req.category.value.id.value != 0 ==> r.body.question.category == req.category.value.id.value)
    {
      var plan := Quiz.PlanFor(questions, req);
      match plan {
        case Reject =>
          r := Error(BadRequest);
        case MissingId =>
          r := Error(InternalError);
        case Exhausted =>
          r := Ok(NoQuestion);
        case ChooseFrom(pool) =>
          if pool == [] {
            r := Error(InternalError);
          } else {
            Quiz.PoolIsUnseenCandidates(questions, req);
            var q :| q in pool;
            r := Ok(Next(Format(q)));
          }
      }
    }
  }
}
