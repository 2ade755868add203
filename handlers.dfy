/**
 * The read-only endpoints of the trivia backend, over an in-memory store:
 * the stored questions and categories in the order the unordered queries
 * return them. Each handler returns its JSON payload or the failure it
 * aborts with.
 */
module Handlers {
  import opened Errors
  import opened Models
  import opened Slicing
  import opened Filtering
  import opened Text

  /** `{success: true, categories: [...]}` of GET /categories. */
  datatype CategoriesReply = CategoriesReply(success: bool, categories: seq<string>)

  /** The payload of GET /questions and GET /categories/<id>/questions. */
  datatype QuestionsReply = QuestionsReply(
    questions: seq<Question>, totalQuestions: int, categories: seq<string>, currentCategory: int)

  /** The payload of a search through POST /questions. */
  datatype SearchReply = SearchReply(questions: seq<Question>, totalQuestions: int, currentCategory: int)

  /** The payload of POST /quizzes: the next question, or `{question: false, answer: false}`. */
  datatype QuizReply = NoMoreQuestions | Next(question: Question, answer: string)

  /** GET /categories: every category's type, in store order; never fails, even when empty. */
  function GetCategories(cats: seq<Category>): (r: CategoriesReply)
    ensures r.success
    ensures |r.categories| == |cats|
    ensures forall i :: 0 <= i < |cats| ==> r.categories[i] == cats[i].kind
  {
    CategoriesReply(true, CategoryTypes(cats))
  }

  /** GET /questions?page=N: one page of ten questions, or 404 when that page is empty. */
  function ListQuestions(qs: seq<Question>, cats: seq<Category>, page: int): (r: Result<QuestionsReply>)
    ensures r.Failure? ==> r.error == NotFound
    ensures page >= 1 ==> (r.Success? <==> (page - 1) * PerPage < |qs|)
    ensures page == 0 || qs == [] ==> r.Failure?
    ensures page >= 1 && r.Success? ==>
      r.value.questions == qs[(page - 1) * PerPage..Min(page * PerPage, |qs|)]
    ensures page < 0 ==>
      (r.Success? <==> |qs| + page * PerPage > 0)
    ensures page < 0 && r.Success? ==>
      r.value.questions == qs[Max(|qs| + (page - 1) * PerPage, 0)..|qs| + page * PerPage]
    ensures r.Success? ==>
      && 0 < |r.value.questions| <= PerPage
      && r.value.totalQuestions == |qs|
      && r.value.categories == CategoryTypes(cats)
      && r.value.currentCategory == 0
  {
    var window := Page(qs, page);
    if |window| == 0 then Failure(NotFound)
    else Success(QuestionsReply(window, |qs|, CategoryTypes(cats), 0))
  }

  /** Whether a question's text contains the search term, ignoring case. */
  function Matching(term: string): Question -> bool
  {
    (q: Question) => ContainsIgnoringCase(q.question, term)
  }

  /** `Question.query.filter(Question.question.ilike('%term%')).all()`. */
  function Hits(qs: seq<Question>, term: string): (r: seq<Question>)
    ensures |r| <= |qs|
    ensures forall q :: q in r <==> q in qs && ContainsIgnoringCase(q.question, term)
  {
    Filter(qs, Matching(term))
  }

  /** A search through POST /questions: one page of the matches, or 404 when that page is empty. */
  function SearchQuestions(qs: seq<Question>, term: string, page: int): (r: Result<SearchReply>)
    ensures r.Failure? ==> r.error == NotFound
    ensures page >= 1 ==> (r.Success? <==> (page - 1) * PerPage < |Hits(qs, term)|)
    ensures (forall q :: q in qs ==> !ContainsIgnoringCase(q.question, term)) ==> r.Failure?
    ensures r.Success? ==> forall q :: q in r.value.questions ==> q in qs && ContainsIgnoringCase(q.question, term)
    ensures page >= 1 && r.Success? ==>
      r.value.questions == Hits(qs, term)[(page - 1) * PerPage..Min(page * PerPage, |Hits(qs, term)|)]
    ensures page == 0 ==> r.Failure?
    ensures page < 0 ==>
      (r.Success? <==> |Hits(qs, term)| + page * PerPage > 0)
    ensures page < 0 && r.Success? ==>
      r.value.questions == Hits(qs, term)[Max(|Hits(qs, term)| + (page - 1) * PerPage, 0)..|Hits(qs, term)| + page * PerPage]
    ensures r.Success? ==>
      && 0 < |r.value.questions| <= PerPage
      && r.value.totalQuestions == |Hits(qs, term)|
      && r.value.currentCategory == 0
  {
    var hits := Hits(qs, term);
    var window := Page(hits, page);
    if |window| == 0 then Failure(NotFound)
    else
      assert forall q :: q in window ==> q in hits;
      assert window[0] in qs && Matching(term)(window[0]);
      Success(SearchReply(window, |hits|, 0))
  }

  /** Every stored question that matches the term is returned on some page of the search. */
  lemma SearchFindsEveryMatch(qs: seq<Question>, term: string, q: Question)
    requires q in qs && ContainsIgnoringCase(q.question, term)
    ensures exists page :: page >= 1 && SearchQuestions(qs, term, page).Success?
                           && q in SearchQuestions(qs, term, page).value.questions
  {
    var hits := Hits(qs, term);
    assert Matching(term)(q);
    var i :| 0 <= i < |hits| && hits[i] == q;
    PageOf(hits, i);
    var page := i / PerPage + 1;
    assert Page(hits, page)[i % PerPage] == q;
    assert SearchQuestions(qs, term, page).Success?;
  }

  /** Searching for the empty term pages through the whole store, like the listing does. */
  lemma EmptySearchIsListing(qs: seq<Question>, cats: seq<Category>, page: int)
    ensures SearchQuestions(qs, "", page).Success? <==> ListQuestions(qs, cats, page).Success?
    ensures SearchQuestions(qs, "", page).Success? ==>
      && SearchQuestions(qs, "", page).value.questions == ListQuestions(qs, cats, page).value.questions
      && SearchQuestions(qs, "", page).value.totalQuestions == ListQuestions(qs, cats, page).value.totalQuestions
  {
    forall q | q in qs
      ensures Matching("")(q)
    {
      EmptyTermMatchesAll(q.question);
    }
    FilterKeepsAll(qs, Matching(""));
  }

  /** Whether a question belongs to the given category. */
  function InCategory(categoryId: int): Question -> bool
  {
    (q: Question) => q.category == categoryId
  }

  /** Whether a category row has the given id. */
  function HasCategoryId(categoryId: int): Category -> bool
  {
    (c: Category) => c.id == categoryId
  }

  /**
   * GET /categories/<id>/questions: every question of that category, in store
   * order, with the global question count; 404 when the category does not
   * exist or has no questions.
   */
  function QuestionsByCategory(qs: seq<Question>, cats: seq<Category>, categoryId: int): (r: Result<QuestionsReply>)
    ensures r.Failure? <==>
      (forall c :: c in cats ==> c.id != categoryId) || (forall q :: q in qs ==> q.category != categoryId)
    ensures r.Failure? ==> r.error == NotFound
    ensures r.Success? ==> forall q :: q in r.value.questions <==> q in qs && q.category == categoryId
    ensures r.Success? ==>
      && r.value.questions == Filter(qs, InCategory(categoryId))
      && r.value.totalQuestions == |qs|
      && r.value.categories == CategoryTypes(cats)
      && r.value.currentCategory == categoryId
  {
    var categories := Filter(cats, HasCategoryId(categoryId));
    var questions := Filter(qs, InCategory(categoryId));
    if |questions| == 0 || |categories| == 0 then
      assert forall q :: q in qs ==> (q in questions <==> InCategory(categoryId)(q));
      assert forall c :: c in cats ==> (c in categories <==> HasCategoryId(categoryId)(c));
      Failure(NotFound)
    else
      assert questions[0] in qs && questions[0].category == categoryId;
      assert categories[0] in cats && categories[0].id == categoryId;
      Success(QuestionsReply(questions, |qs|, CategoryTypes(cats), categoryId))
  }

  /** Whether a question may be asked next: not asked before, and in the quiz's category unless that is 0. */
  function Eligible(previous: seq<int>, quizCategory: int): (e: Question -> bool)
    ensures forall q: Question :: e(q) ==> q.id !in previous
    ensures quizCategory != 0 ==> forall q: Question :: e(q) ==> q.category == quizCategory
    ensures forall q: Question :: q.id !in previous && (quizCategory == 0 || q.category == quizCategory) ==> e(q)
  {
    (q: Question) => q.id !in previous && (quizCategory == 0 || q.category == quizCategory)
  }

  /** The questions a quiz may still ask. */
  function Pool(qs: seq<Question>, previous: seq<int>, quizCategory: int): (r: seq<Question>)
    ensures |r| <= |qs|
    ensures forall q :: q in r <==>
      q in qs && q.id !in previous && (quizCategory == 0 || q.category == quizCategory)
  {
    Filter(qs, Eligible(previous, quizCategory))
  }

  /**
   * POST /quizzes: a question picked at random among those not yet asked (in
   * the chosen category, or any when it is 0). The random order of the query
   * is a nondeterministic choice. An unknown category is 404; a category id
   * held by several rows makes `one_or_none()` raise, which is 500.
   */
  method Play(qs: seq<Question>, cats: seq<Category>, previous: seq<int>, quizCategory: int)
    returns (r: Result<QuizReply>)
    ensures r.Failure? <==> quizCategory != 0 && |Filter(cats, HasCategoryId(quizCategory))| != 1
    ensures r.Failure? ==>
      r.error == if forall c :: c in cats ==> c.id != quizCategory then NotFound else InternalServerError
    ensures r.Success? ==>
      (r.value.NoMoreQuestions? <==>
        forall q :: q in qs ==> q.id in previous || (quizCategory != 0 && q.category != quizCategory))
    ensures r.Success? && r.value.Next? ==>
      && r.value.question in qs
      && r.value.question.id !in previous
      && (quizCategory != 0 ==> r.value.question.category == quizCategory)
      && r.value.answer == r.value.question.answer
  {
    if quizCategory != 0 {
      var found := Filter(cats, HasCategoryId(quizCategory));
      if |found| == 0 {
        assert forall c :: c in cats ==> (c in found <==> HasCategoryId(quizCategory)(c));
        return Failure(NotFound);
      }
      if |found| > 1 {
        assert found[0] in cats && found[0].id == quizCategory;
        return Failure(InternalServerError);
      }
    }
    var pool := Pool(qs, previous, quizCategory);
    if pool == [] {
      assert forall q :: q in qs ==> (q in pool <==> Eligible(previous, quizCategory)(q));
      r := Success(NoMoreQuestions);
    } else {
      assert pool[0] in pool;
      var q :| q in pool;
      r := Success(Next(q, q.answer));
    }
  }

  /**
   * Feeding the returned question's id back into `previous_questions` strictly
   * shrinks the pool, so a quiz that does so ends with `NoMoreQuestions`
   * after at most |qs| questions.
   */
  lemma QuizProgress(qs: seq<Question>, previous: seq<int>, quizCategory: int, q: Question)
    requires q in Pool(qs, previous, quizCategory)
    ensures |Pool(qs, previous + [q.id], quizCategory)| < |Pool(qs, previous, quizCategory)|
    ensures |Pool(qs, previous, quizCategory)| <= |qs|
  {
    var p, p' := Eligible(previous, quizCategory), Eligible(previous + [q.id], quizCategory);
    forall x | p'(x) ensures p(x) {
      assert x.id !in previous + [q.id];
    }
    assert q.id in previous + [q.id];
    FilterShrinks(qs, p, p', q);
  }

  /** Once every stored id has been asked, the pool is empty. */
  lemma QuizExhausted(qs: seq<Question>, previous: seq<int>, quizCategory: int)
    requires forall q :: q in qs ==> q.id in previous
    ensures Pool(qs, previous, quizCategory) == []
  {
    forall q | q in qs
      ensures !Eligible(previous, quizCategory)(q)
    {
    }
    FilterKeepsNone(qs, Eligible(previous, quizCategory));
  }
}
