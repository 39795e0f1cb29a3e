# Trivia API decision rules, modelled in Dafny

The trivia backend (`backend/flaskr/__init__.py`) is a Flask application over
two tables: questions (id, question text, answer, difficulty, category) and
categories (id, type). Under its routing and JSON plumbing sit a few rules
that this project states and proves:

- **Pagination** (`pagination`): format every record and take the Python
  slice `[(page - 1) * 10 : (page - 1) * 10 + 10]`, with Python's resolution
  of negative and out-of-range bounds (`pagination.dfy`).
- **Quiz selection** (`get_random_quiz_question`): 400 when
  `previous_questions` or `quiz_category` is missing; candidates are all
  questions for category id 0, else those of that category; the quiz is
  over when there are as many previous ids as candidates; otherwise any
  unseen candidate may be picked (`quiz.dfy`; `random.choice` is a free
  choice `:|` in `Store.QuestionStore.Quizzes`).
- **Handlers over the store** (`store.dfy`): the class `QuestionStore`
  holds the question rows (kept in ascending id order), the category rows
  and the next id to assign. `ListCategories` and `ListQuestions` answer 404
  on an empty dictionary or page; `DeleteQuestion` removes exactly the
  question with the id, or answers 422 for a missing id; `CreateQuestion`
  answers 422 and changes nothing when a field is falsy, else appends
  exactly one question; `SearchQuestions` answers 404 on no match.
- The category dictionary both listings build in a loop is
  `Categories.BuildCategoryMap`, a method with a loop invariant, specified
  by the function `Categories.CategoryMap`.

Status codes are the `ErrorCode` values of `replies.dfy` (400, 404, 422,
500); a successful answer is `Ok(body)` (200).

Three behaviours of the code worth knowing, all modelled as written:

- the quiz rejects with 400 when either field is missing: `None in [previous, category]` (backend/flaskr/__init__.py:267);
- deleting a missing id answers 422, not 404: `abort(404)` is raised inside the bare `try`, and its `except` turns it into `abort(422)` (backend/flaskr/__init__.py:113-127);
- an empty pool after filtering out the previous ids does not end the quiz: `random.choice([])` raises and the request fails with 500 (backend/flaskr/__init__.py:288-290; see Findings).

## Model

| member | source | states |
|---|---|---|
| Pagination.Paginate | backend/flaskr/__init__.py:12-22 | a page never holds more than 10 records, for every page number |
| Pagination.PositivePageIsWindow | backend/flaskr/__init__.py:15-20 | page `p >= 1` holds exactly the formatted records at indices `(p-1)*10` up to `min(len, p*10)`, in the original order |
| Pagination.PageDrawsFromSelection | backend/flaskr/__init__.py:18-20 | every record on a page is the formatted form of a record of the selection |
| Pagination.EmptyPage | backend/flaskr/__init__.py:15-20 | a positive page is empty iff it starts at or past the end; page 0 is always empty; a negative page is empty iff `len + page*10 <= 0` |
| Pagination.PageZeroIsEmpty | backend/flaskr/__init__.py:13-20 | page 0 is the slice `[-10:0]`, empty for every selection |
| Pagination.NegativePageCountsFromEnd | backend/flaskr/__init__.py:15-20 | a negative page is not rejected: its bounds count back from the end of the list and are clamped at 0 |
| Pagination.NegativePageAliasesPositive | backend/flaskr/__init__.py:15-20 | when the selection fills exactly `k` pages, negative page `p` shows the same records as page `k + p` |
| Pagination.FirstPagesArePrefix | backend/flaskr/__init__.py:15-20 | pages 1 to `k` laid end to end are the first `min(len, 10k)` formatted records: no record is skipped or repeated |
| Pagination.PagesCoverSelection | backend/flaskr/__init__.py:15-20 | pages 1 to `ceil(len/10)` together show the whole selection in order |
| Seqs.Filter | backend/flaskr/__init__.py:288 | `list(filter(...))`: an element is in the result iff it is in the input and satisfies the predicate; never longer than the input; the input itself when every element is kept |
| Seqs.FilterKeepsOrderAndCounts | backend/flaskr/__init__.py:288 | the result is a subsequence of the input (original order), and each kept value occurs exactly as often as in the input, every other value not at all |
| Models.WithoutId | backend/flaskr/__init__.py:120 | after `question.delete()` the rows are exactly the former rows whose id differs; no row has the id; a missing id changes nothing |
| Models.Lookup | backend/flaskr/__init__.py:114 | `one_or_none()` by id: a found question is stored and has the id; nothing is found iff no stored question has the id |
| Models.FilterKeepsIdsIncreasing | backend/flaskr/__init__.py:114-120 | removing rows keeps the stored rows in ascending id order |
| Models.DeleteRemovesExactlyOne | backend/flaskr/__init__.py:114-120 | deleting an existing id leaves one row fewer: the deleted row is gone, no row has the id, every other row stays, order is kept |
| Models.AppendKeepsIdsIncreasing | backend/flaskr/__init__.py:190-195 | inserting a question with a fresh, larger id keeps the rows in id order, so `order_by(Question.id)` is the stored order |
| Categories.CategoryMap | backend/flaskr/__init__.py:52-55 | the dictionary built by the loop has at most one entry per category, and at least one when there is a category |
| Categories.BuildCategoryMap | backend/flaskr/__init__.py:52-55 | the loop builds `CategoryMap`: one key per category id, each mapped to the type of the last category with that id |
| Categories.CategoryMapKeys | backend/flaskr/__init__.py:87-90 | the dictionary's keys are exactly the category ids |
| Categories.CategoryMapLastWins | backend/flaskr/__init__.py:54-55 | an id maps to the type of the last category carrying it, as repeated dict assignment does |
| Categories.CategoryMapEmpty | backend/flaskr/__init__.py:57-58 | the dictionary is empty iff there is no category |
| Quiz.Candidates | backend/flaskr/__init__.py:271-275 | id 0 gives all questions; any other id gives exactly the stored questions of that category |
| Quiz.Unseen | backend/flaskr/__init__.py:288 | exactly the candidates whose id is not in `previous` |
| Quiz.PlanFor | backend/flaskr/__init__.py:261-290 | the quiz rule: 400 iff a field is missing; 500 iff `quiz_category` has no `id`; over (no question) iff both are present and there are as many previous ids as candidates; otherwise a pick from the unseen candidates |
| Quiz.RejectIffFieldMissing | backend/flaskr/__init__.py:261-268 | the plan is 400 iff `previous_questions` or `quiz_category` is missing, and then whatever the store holds |
| Quiz.ExhaustedWhenLengthsMatch | backend/flaskr/__init__.py:277-285 | as many previous ids as candidates ends the quiz with success and no question, whatever the ids are |
| Quiz.PoolIsUnseenCandidates | backend/flaskr/__init__.py:287-290 | a question may be picked iff it is stored, of the requested category when the id is nonzero, and not among the previous ids |
| Quiz.LengthCheckEndsQuizEarly | backend/flaskr/__init__.py:282-285 | as written, previous ids [7, 8] end a quiz over category 1 (questions 1 and 2) with both questions unseen |
| Quiz.LengthCheckChoosesFromEmpty | backend/flaskr/__init__.py:282-290 | as written, previous ids [1, 7] over a one-question category lead to `random.choice` on an empty pool |
| Quiz.IntendedPlan | backend/flaskr/__init__.py:280-290 | corrected rule: never picks from an empty pool, and the quiz is over iff every candidate's id is among the previous ids |
| Quiz.IdSetSize | backend/flaskr/__init__.py:271-278 | rows in ascending id order have as many distinct ids as rows |
| Quiz.CountingSeenCandidates | backend/flaskr/__init__.py:278-288 | for distinct previous ids that are all candidate ids, the counts are equal iff no candidate is left unseen |
| Quiz.LengthCheckAgreesOnCandidateIds | backend/flaskr/__init__.py:278-290 | for distinct previous ids that are all candidate ids (what a client sends that returns the ids it was served), the rule as written equals the intended one |
| Store.QuestionStore.ListCategories | backend/flaskr/__init__.py:49-63 | `GET /categories` answers 404 iff there is no category, else the id-to-type dictionary with one key per category id |
| Store.QuestionStore.ListQuestions | backend/flaskr/__init__.py:76-100 | `GET /questions` answers 404 iff the page is empty (for page `p >= 1`: iff `(p-1)*10 >= total`; always for page 0), else the page, the total and the category dictionary |
| Store.QuestionStore.DeleteQuestion | backend/flaskr/__init__.py:111-127 | an existing id is removed with no other row touched and answered with `deleted: id`; a missing id answers 422 and changes nothing; afterwards no row has the id, so a second delete answers 422 |
| Store.QuestionStore.SearchQuestions | backend/flaskr/__init__.py:155-175 | 404 iff nothing matches; else a page of the matches, every one a stored matching question, and the total number of questions |
| Store.QuestionStore.CreateQuestion | backend/flaskr/__init__.py:177-209 | any falsy field (None, "" or 0) answers 422 with the store unchanged; otherwise exactly one new question with the four values and a fresh id is appended after the kept rows, the next id advances by one, and the question is reported as `created` |
| Store.QuestionStore.PostQuestion | backend/flaskr/__init__.py:150-209 | a non-empty `searchTerm` searches, leaves the store and the next id unchanged and answers 404 iff nothing matches; otherwise the body appends exactly the question with the four values and the old next id after the kept rows and advances the next id, or answers 422 with the store and the next id unchanged |
| Store.QuestionStore.Quizzes | backend/flaskr/__init__.py:251-296 | 400 iff a field is missing; no question when the counts match; otherwise a stored, unseen question of the category, or 500 when the pool is empty or `quiz_category` has no `id` |

## Left out

- Flask routing, `request.get_json`, `jsonify`, the `after_request` CORS headers and the JSON error envelopes (lines 33-43, 302-332): only their status codes are kept.
- The `page` query argument is a parameter of the handlers; how `request.args.get('page', 1, type=int)` falls back to 1 on a missing or non-integer value is not modelled.
- SQLAlchemy and models.py are not part of this model: the tables are the sequences of rows in `QuestionStore`, `Question.format()` is `Models.Format`, which renders a question as the record itself with its five columns unchanged, and the insert assigns `nextId`, one more than the largest id ever assigned (a database sequence may skip ids).
- Exceptions raised by the database during `insert()` or `delete()`, which the bare `except` clauses turn into 422, are not modelled; only the `abort` paths are.
- The search query `Question.question.ilike(f'%{search_term}%')` is the parameter `matches` of `SearchQuestions`; collation and LIKE wildcards belong to the database.
- `GET /categories/<id>/questions` (`get_category_questions`, lines 221-237) is not part of this model.
- The `/categories` dictionary has string keys (`f"{categorie.id}"`) and the `/questions` one integer keys; both are modelled with integer keys.
- Request bodies are typed: text fields are strings, `difficulty`, `category` and the quiz category `id` are integers. Other JSON values (booleans, lists, numbers sent as strings and coerced by the database) and a body that is not JSON at all are not modelled.
- The distribution of `random.choice`: the model states which questions may be picked, not that the pick is uniform.
- Store.QuestionStore.PostQuestion: states which branch is taken, its status and the store change; the bodies it returns are stated by SearchQuestions and CreateQuestion.
- `Question.query.all()` and the filtered queries (lines 79, 160-161, 272, 275) have no `ORDER BY`; the model takes them to return the rows in ascending id order, the order that `order_by(Question.id)` (line 195) gives. A database that returns rows in another order would show other records on a page than `ListQuestions` and `SearchQuestions` state; the set of records and the counts are unaffected.

## Findings

| source | as written | input that shows it | evidently intended | confidence | as-written member | corrected member |
|---|---|---|---|---|---|---|
| backend/flaskr/__init__.py:282-285 | the quiz ends when `len(previous) == len(candidates)` | category 1 holds questions 1 and 2, `previous_questions` is [7, 8]: the answer has no question although neither was asked | the quiz ends when every candidate has been asked | medium, not executed | Quiz.LengthCheckEndsQuizEarly | Quiz.IntendedPlan |
| backend/flaskr/__init__.py:282-290 | the pool after filtering is passed to `random.choice` even when empty | category 1 holds question 1, `previous_questions` is [1, 7]: `random.choice([])` raises and the answer is 500 | an empty pool ends the quiz with success and no question | medium, not executed | Quiz.LengthCheckChoosesFromEmpty | Quiz.IntendedPlan |

`Quiz.LengthCheckAgreesOnCandidateIds` proves that the two rules agree
whenever the previous ids are distinct ids of candidates, which is what a
client sends within one quiz when it returns the ids it was served; `Store.QuestionStore.Quizzes` models the
rule as written.
