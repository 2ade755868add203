/**
 * Request sequences against one store, as a client of the handlers sees
 * them; each method's postcondition follows from the handlers' contracts
 * alone.
 */
module Scenarios {
  import opened Errors
  import opened Models
  import opened Filtering
  import opened Store

  /** Deleting the same id twice: the first call succeeds, the second is 422. */
  method DeleteTwice(s: QuestionStore, id: int) returns (first: Result<DeleteReply>, second: Result<DeleteReply>)
    requires s.Valid() && HasId(s.questions, id)
    modifies s
    ensures s.Valid()
    ensures first == Success(DeleteReply(true, id))
    ensures second == Failure(Unprocessable)
    ensures |s.questions| == |old(s.questions)| - 1
  {
    first := s.DeleteQuestion(id);
    second := s.DeleteQuestion(id);
  }

  /**
   * Creating a question and then deleting the id it was created under
   * deletes exactly that question and restores the question table.
   */
  method CreateThenDelete(s: QuestionStore, question: string, answer: string, difficulty: int, category: int)
    returns (created: Result<PostReply>, deleted: Result<DeleteReply>)
    requires s.Valid() && question != "" && answer != ""
    modifies s
    ensures s.Valid()
    ensures created.Success? && created.value.Created?
    ensures deleted == Success(DeleteReply(true, created.value.created))
    ensures s.questions == old(s.questions)
  {
    ghost var before := s.questions;
    created := s.AddQuestion(CreateRequest(question, answer, Number(difficulty), Number(category)), true);
    var id := created.value.created;
    ghost var added := s.questions[|before|];
    assert s.questions == before + [added];
    assert added in s.questions;
    deleted := s.DeleteQuestion(id);
    forall q | q in before ensures WithoutId(id)(q) { }
    FilterDropsOne(before, added, [], WithoutId(id));
    assert before + [added] + [] == before + [added];
  }

  /**
   * A question created after a delete never gets the deleted question's id:
   * ids come from a serial sequence that deletes do not rewind.
   */
  method DeleteThenCreate(s: QuestionStore, id: int, question: string, answer: string, difficulty: int, category: int)
    returns (deleted: Result<DeleteReply>, created: Result<PostReply>)
    requires s.Valid() && HasId(s.questions, id) && question != "" && answer != ""
    modifies s
    ensures s.Valid()
    ensures deleted == Success(DeleteReply(true, id))
    ensures created.Success? && created.value.Created? && created.value.created != id
  {
    deleted := s.DeleteQuestion(id);
    created := s.AddQuestion(CreateRequest(question, answer, Number(difficulty), Number(category)), true);
  }
}
