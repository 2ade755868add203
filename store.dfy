/**
 * The two endpoints that change the database: DELETE /questions/<id> and the
 * create branch of POST /questions. The question table is a sequence field
 * of a store object that these methods reassign.
 */
module Store {
  import opened Errors
  import opened Models
  import opened Filtering
  import opened Handlers

  /**
   * The body of POST /questions, which carries either a `searchTerm` (with
   * the `page` query argument) or the four fields of a new question.
   */
  datatype PostBody =
    | SearchRequest(searchTerm: string, page: int)
    | CreateRequest(question: string, answer: string, difficulty: Field, category: Field)

  /** The payload of POST /questions: a search page, or `{success: true, created: id}`. */
  datatype PostReply = Searched(search: SearchReply) | Created(success: bool, created: int)

  /** The payload of DELETE /questions/<id>. */
  datatype DeleteReply = DeleteReply(success: bool, deleted: int)

  /** The create request has a field equal to the empty string. */
  predicate HasBlankField(body: PostBody)
    requires body.CreateRequest?
    ensures !HasBlankField(body) <==>
      |body.question| > 0 && |body.answer| > 0 && body.difficulty.Number? && body.category.Number?
  {
    body.question == "" || body.answer == "" || body.difficulty == Blank || body.category == Blank
  }

  /** Whether a question does not have the given id. */
  function WithoutId(id: int): Question -> bool
  {
    (q: Question) => q.id != id
  }

  /** The largest id among the questions, or 0 when there are none. */
  function MaxId(qs: seq<Question>): (m: int)
    ensures forall q :: q in qs ==> q.id <= m
  {
    if qs == [] then 0
    else
      var rest := MaxId(qs[1..]);
      assert forall q :: q in qs && q != qs[0] ==> q in qs[1..];
      if qs[0].id > rest then qs[0].id else rest
  }

  /** When no other position holds the id found at position i, filtering that id out removes exactly position i. */
  lemma RemoveById(qs: seq<Question>, i: int)
    requires 0 <= i < |qs|
    requires forall k :: 0 <= k < |qs| && k != i ==> qs[k].id != qs[i].id
    ensures Filter(qs, WithoutId(qs[i].id)) == qs[..i] + qs[i + 1..]
  {
    var p := WithoutId(qs[i].id);
    var front, back := qs[..i], qs[i + 1..];
    forall q | q in front ensures p(q) {
      var k :| 0 <= k < |front| && front[k] == q;
      assert qs[k] == q;
    }
    forall q | q in back ensures p(q) {
      var k :| 0 <= k < |back| && back[k] == q;
      assert qs[i + 1 + k] == q;
    }
    assert qs == front + [qs[i]] + back;
    FilterDropsOne(front, qs[i], back, p);
  }

  class QuestionStore {
    var questions: seq<Question>
    var categories: seq<Category>
    /** The id the table's serial id sequence hands out next. */
    var nextId: int

    ghost predicate Valid()
      reads this
    {
      && UniqueIds(questions)
      && UniqueCategoryIds(categories)
      && forall q :: q in questions ==> q.id < nextId
    }

    /** A store seeded with the given rows. */
    constructor (categories: seq<Category>, questions: seq<Question>)
      requires UniqueIds(questions) && UniqueCategoryIds(categories)
      ensures Valid()
      ensures this.questions == questions && this.categories == categories
    {
      this.questions := questions;
      this.categories := categories;
      this.nextId := MaxId(questions) + 1;
    }

    /**
     * DELETE /questions/<id>: removes the question with that id, keeping the
     * others in order; 422 and no change when there is none.
     */
    method DeleteQuestion(id: int) returns (r: Result<DeleteReply>)
      requires Valid()
      modifies this
      ensures Valid()
      ensures categories == old(categories) && nextId == old(nextId)
      ensures r.Failure? <==> !HasId(old(questions), id)
      ensures r.Failure? ==> r.error == Unprocessable && questions == old(questions)
      ensures r.Success? ==> r.value == DeleteReply(true, id) && |questions| == |old(questions)| - 1
      ensures questions == Filter(old(questions), WithoutId(id))
      ensures !HasId(questions, id)
    {
      var found := FirstWithId(questions, id);
      if found.None? {
        forall q | q in questions ensures WithoutId(id)(q) { }
        FilterKeepsAll(questions, WithoutId(id));
        return Failure(Unprocessable);
      }
      var i := found.value;
      RemoveById(questions, i);
      questions := questions[..i] + questions[i + 1..];
      r := Success(DeleteReply(true, id));
    }

    /**
     * POST /questions. With a search term it answers the search and changes
     * nothing. Otherwise it is 400 if a field is the empty string or the
     * database refuses the insert (`dbAccepts` stands for the database's
     * verdict, a foreign-key violation among others); else the new question
     * is appended under a fresh id, which is returned.
     */
    method AddQuestion(body: PostBody, dbAccepts: bool) returns (r: Result<PostReply>)
      requires Valid()
      modifies this
      ensures Valid()
      ensures categories == old(categories)
      ensures body.SearchRequest? ==>
        && questions == old(questions)
        && r == match SearchQuestions(old(questions), body.searchTerm, body.page)
                case Success(page) => Success(Searched(page))
                case Failure(e) => Failure(e)
      ensures body.SearchRequest? ==> nextId == old(nextId)
      ensures body.CreateRequest? && (HasBlankField(body) || !dbAccepts) ==>
        r == Failure(BadRequest) && questions == old(questions) && nextId == old(nextId)
      ensures body.CreateRequest? && !HasBlankField(body) && dbAccepts ==>
        && r.Success? && r.value.Created? && r.value.success
        && r.value.created == old(nextId) && nextId == old(nextId) + 1
        && !HasId(old(questions), r.value.created)
        && questions == old(questions) +
             [Question(r.value.created, body.question, body.answer, body.category.n, body.difficulty.n)]
    {
      match body
      case SearchRequest(term, page) =>
        var found := SearchQuestions(questions, term, page);
        r := match found
             case Success(p) => Success(Searched(p))
             case Failure(e) => Failure(e);
      case CreateRequest(question, answer, difficulty, category) =>
        if HasBlankField(body) {
          return Failure(BadRequest);
        }
        if !dbAccepts {
          return Failure(BadRequest);
        }
        var id := nextId;
        questions := questions + [Question(id, question, answer, category.n, difficulty.n)];
        nextId := nextId + 1;
        r := Success(Created(true, id));
    }
  }
}
