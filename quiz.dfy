/** The decision rule of the `/quizzes` handler (`get_random_quiz_question`),
    over the rows of the question store. The random pick itself is made by
    `Store.QuestionStore.Quizzes`; here is what it may pick from. */
module Quiz {
  import opened Wrappers
  import opened Models
  import Seqs

  /** The `quiz_category` object of the request body; its `id` key may be absent. */
  datatype QuizCategory = QuizCategory(id: Option<int>)

  /** The request body: `previous_questions` and `quiz_category`, each possibly absent. */
  datatype QuizRequest = QuizRequest(previous: Option<seq<int>>, category: Option<QuizCategory>)

  /** What the handler does before the random choice. */
  datatype Plan =
    | Reject                          // abort(400): a field is missing
    | MissingId                       // `category['id']` raises KeyError: 500
    | Exhausted                       // `{'success': True}` with no question
    | ChooseFrom(pool: seq<Question>) // `random.choice(pool)`; an empty pool raises: 500

  /** `Question.query.all()` for id 0, else `Question.query.filter_by(category=id).all()`. */
  function Candidates(qs: seq<Question>, categoryId: int): (r: seq<Question>)
    ensures categoryId == 0 ==> r == qs
    ensures categoryId != 0 ==> forall q :: q in r <==> q in qs && q.category == categoryId
  {
    if categoryId == 0 then qs else Seqs.Filter(qs, (q: Question) => q.category == categoryId)
  }

  /** `filter(lambda question: question.id not in previous, questions)` */
  function Unseen(candidates: seq<Question>, previous: seq<int>): (r: seq<Question>)
    ensures forall q :: q in r <==> q in candidates && q.id !in previous
  {
    Seqs.Filter(candidates, (q: Question) => q.id !in previous)
  }

  /** The rule as the source writes it: exhaustion is decided by comparing
      the number of previous ids with the number of candidates. */
  function PlanFor(qs: seq<Question>, req: QuizRequest): (p: Plan)
    ensures p == Reject <==> req.previous.None? || req.category.None?
    ensures p == MissingId <==> req.previous.Some? && req.category.Some? && req.category.value.id.None?
    ensures p == Exhausted <==>
      && req.previous.Some? && req.category.Some? && req.category.value.id.Some?
      && |req.previous.value| == |Candidates(qs, req.category.value.id.value)|
  {
    if req.previous.None? || req.category.None? then Reject
    else if req.category.value.id.None? then MissingId
    else
      var previous := req.previous.value;
      var candidates := Candidates(qs, req.category.value.id.value);
      if |previous| == |candidates| then Exhausted
      else ChooseFrom(Unseen(candidates, previous))
  }

  /** The handler answers 400 exactly when `previous_questions` or
      `quiz_category` is missing, before any question is loaded. */
  lemma RejectIffFieldMissing(qs: seq<Question>, req: QuizRequest)
    ensures PlanFor(qs, req) == Reject <==> req.previous.None? || req.category.None?
    ensures req.previous.None? || req.category.None? ==> forall qs' :: PlanFor(qs', req) == Reject
  {
  }

  /** Whenever there are as many previous ids as candidates, the quiz is over,
      whatever those ids are. */
  lemma ExhaustedWhenLengthsMatch(qs: seq<Question>, previous: seq<int>, categoryId: int, kind: QuizCategory)
    requires kind.id == Some(categoryId)
    requires |previous| == |Candidates(qs, categoryId)|
    ensures PlanFor(qs, QuizRequest(Some(previous), Some(kind))) == Exhausted
  {
  }

  /** The questions the handler may pick are exactly the stored questions of
      the requested category (any category for id 0) whose id is not among
      the previous ones. */
  lemma PoolIsUnseenCandidates(qs: seq<Question>, req: QuizRequest)
    ensures PlanFor(qs, req).ChooseFrom? ==>
      && req.previous.Some? && req.category.Some? && req.category.value.id.Some?
      && var id := req.category.value.id.value;
         forall q :: q in PlanFor(qs, req).pool <==>
           q in qs && q.id !in req.previous.value && (id != 0 ==> q.category == id)
  {
  }

  // ---------------------------------------------------------------------
  // Findings: the length comparison of line 282.

  /** As written, two previous ids that are not in category 1 end a quiz over
      category 1 before either of its two questions was asked. */
  lemma LengthCheckEndsQuizEarly()
    ensures var qs := [Question(1, "q1", "a1", 1, 1), Question(2, "q2", "a2", 1, 1)];
      var req := QuizRequest(Some([7, 8]), Some(QuizCategory(Some(1))));
      && PlanFor(qs, req) == Exhausted
      && Unseen(Candidates(qs, 1), [7, 8]) == qs
  {
    var qs := [Question(1, "q1", "a1", 1, 1), Question(2, "q2", "a2", 1, 1)];
    assert forall q :: q in qs ==> q.category == 1;
    assert Candidates(qs, 1) == qs;
    assert forall q :: q in qs ==> q.id !in [7, 8];
    assert Unseen(qs, [7, 8]) == qs;
  }

  /** As written, a previous list longer than the category with every question
      already seen leads to `random.choice([])`, which raises (status 500). */
  lemma LengthCheckChoosesFromEmpty()
    ensures var qs := [Question(1, "q1", "a1", 1, 1)];
      PlanFor(qs, QuizRequest(Some([1, 7]), Some(QuizCategory(Some(1))))) == ChooseFrom([])
  {
    var qs := [Question(1, "q1", "a1", 1, 1)];
    assert Candidates(qs, 1) == qs;
    assert Unseen(qs, [1, 7]) == [];
  }

  /** The evidently intended rule: the quiz is over when no candidate is left unseen. */
  function IntendedPlan(qs: seq<Question>, req: QuizRequest): (p: Plan)
    ensures p.ChooseFrom? ==> p.pool != []
    ensures p == Exhausted <==>
      && req.previous.Some? && req.category.Some? && req.category.value.id.Some?
      && forall q :: q in Candidates(qs, req.category.value.id.value) ==> q.id in req.previous.value
  {
    if req.previous.None? || req.category.None? then Reject
    else if req.category.value.id.None? then MissingId
    else
      var previous := req.previous.value;
      var unseen := Unseen(Candidates(qs, req.category.value.id.value), previous);
      if unseen == [] then Exhausted
      else
        assert unseen[0] in unseen;
        ChooseFrom(unseen)
  }

  /** The set of ids of a sequence of questions. */
  function IdSet(qs: seq<Question>): set<int>
  {
    set q | q in qs :: q.id
  }

  /** Rows in ascending id order have as many ids as rows. */
  lemma {:induction false} IdSetSize(qs: seq<Question>)
    requires IdsIncreasing(qs)
    ensures |IdSet(qs)| == |qs|
  {
    if qs != [] {
      IdSetSize(qs[1..]);
      assert IdSet(qs) == {qs[0].id} + IdSet(qs[1..]);
      assert qs[0].id !in IdSet(qs[1..]);
    }
  }

  /** When the previous ids are distinct ids of candidates, there are at most
      as many of them as candidates, and as many exactly when no candidate is
      left unseen. */
  lemma CountingSeenCandidates(candidates: seq<Question>, previous: seq<int>)
    requires IdsIncreasing(candidates)
    requires Seqs.Distinct(previous)
    requires forall x :: x in previous ==> x in IdSet(candidates)
    ensures |previous| <= |candidates|
    ensures |previous| == |candidates| <==> Unseen(candidates, previous) == []
  {
    var seenSet := set x | x in previous;
    var idSet := IdSet(candidates);
    Seqs.DistinctCardinality(previous);
    IdSetSize(candidates);
    assert seenSet <= idSet;
    assert |idSet - seenSet| + |seenSet| == |idSet|;
    if |previous| == |candidates| {
      assert seenSet == idSet;
      forall q | q in Unseen(candidates, previous) ensures q.id in seenSet {
        assert q.id in idSet;
      }
      Seqs.EmptyIffNoMember(Unseen(candidates, previous));
    } else {
      var y :| y in idSet - seenSet;
      var q :| q in candidates && q.id == y;
      assert q in Unseen(candidates, previous);
    }
  }

  /** The length check is right for a client that returns the ids it was served: previous
      ids without repetition, each the id of a candidate. Then the source's rule
      and the intended one agree. */
  lemma LengthCheckAgreesOnCandidateIds(qs: seq<Question>, req: QuizRequest)
    requires IdsIncreasing(qs)
    requires req.previous.Some? && req.category.Some? && req.category.value.id.Some?
    requires Seqs.Distinct(req.previous.value)
    requires forall x :: x in req.previous.value ==> x in IdSet(Candidates(qs, req.category.value.id.value))
    ensures PlanFor(qs, req) == IntendedPlan(qs, req)
  {
    var id := req.category.value.id.value;
    if id != 0 {
      FilterKeepsIdsIncreasing(qs, (q: Question) => q.category == id);
    }
    CountingSeenCandidates(Candidates(qs, id), req.previous.value);
  }
}
