/**
 * The two stored entities and the shape of a create request, with the
 * identity helpers the handlers rely on.
 */
module Models {
  import opened Wrappers

  /** A category row; `kind` holds the column the source calls `type`. */
  datatype Category = Category(id: int, kind: string)

  /** A question row, as `format()` renders it. */
  datatype Question = Question(id: int, question: string, answer: string, category: int, difficulty: int)

  /**
   * A numeric request field (`difficulty`, `category`): either the empty
   * string a blank form sends, or a number.
   */
  datatype Field = Blank | Number(n: int)

  predicate HasId(qs: seq<Question>, id: int)
  {
    exists q :: q in qs && q.id == id
  }

  /** No two stored questions share an id (the primary key). */
  ghost predicate UniqueIds(qs: seq<Question>)
  {
    forall i, j :: 0 <= i < j < |qs| ==> qs[i].id != qs[j].id
  }

  /** No two categories share an id (the primary key). */
  ghost predicate UniqueCategoryIds(cats: seq<Category>)
  {
    forall i, j :: 0 <= i < j < |cats| ==> cats[i].id != cats[j].id
  }

  /** `Question.query.filter(Question.id == id).first()`: the first position holding id. */
  function FirstWithId(qs: seq<Question>, id: int): (r: Option<nat>)
    ensures r.None? <==> !HasId(qs, id)
    ensures r.Some? ==> r.value < |qs| && qs[r.value].id == id
    ensures r.Some? ==> forall k :: 0 <= k < r.value ==> qs[k].id != id
  {
    if qs == [] then None
    else if qs[0].id == id then Some(0)
    else
      var rest := FirstWithId(qs[1..], id);
      assert forall q :: q in qs && q != qs[0] ==> q in qs[1..];
      match rest
      case None => None
      case Some(k) => Some(k + 1)
  }

  /** The categories' `type` strings, in store order. */
  function CategoryTypes(cats: seq<Category>): (r: seq<string>)
    ensures |r| == |cats|
    ensures forall i :: 0 <= i < |cats| ==> r[i] == cats[i].kind
  {
    seq(|cats|, i requires 0 <= i < |cats| => cats[i].kind)
  }
}
