/**
 * The two stored entities of the polls application and the lookup of a
 * question by its primary key. Timestamps are plain integers; the current
 * time is always passed in by the caller.
 */
module Models {

  import opened Wrappers

  /** A poll question: its primary key and its publication timestamp. */
  datatype Question = Question(id: int, pubDate: int)

  /** One answer to a question, with the number of votes it has received. */
  datatype Choice = Choice(id: int, questionId: int, votes: nat)

  /** No two stored questions share a primary key. */
  ghost predicate UniqueIds(qs: seq<Question>)
  {
    forall i, j :: 0 <= i < j < |qs| ==> qs[i].id != qs[j].id
  }

  /** The question with primary key `id`, the first one in store order. */
  function FindQuestion(qs: seq<Question>, id: int): (r: Option<Question>)
    ensures r.Some? ==> r.value in qs && r.value.id == id
    ensures r.None? <==> forall q :: q in qs ==> q.id != id
  {
    if qs == [] then None
    else if qs[0].id == id then Some(qs[0])
    else FindQuestion(qs[1..], id)
  }

  /** With unique primary keys, two stored questions with the same key are the same question. */
  lemma SameIdSameQuestion(qs: seq<Question>, a: Question, b: Question)
    requires UniqueIds(qs)
    requires a in qs && b in qs && a.id == b.id
    ensures a == b
  {
    var i :| 0 <= i < |qs| && qs[i] == a;
    var j :| 0 <= j < |qs| && qs[j] == b;
  }

  /** With unique primary keys the lookup finds exactly the question carrying that key. */
  lemma FindQuestionExact(qs: seq<Question>, id: int, q: Question)
    requires UniqueIds(qs)
    ensures FindQuestion(qs, id) == Some(q) <==> q in qs && q.id == id
  {
    var r := FindQuestion(qs, id);
    if q in qs && q.id == id {
      SameIdSameQuestion(qs, r.value, q);
    }
  }

  /**
   * A store the application can be in: question keys are unique, every
   * choice is filed under its own key, and every choice belongs to a
   * stored question.
   */
  ghost predicate WellFormed(questions: seq<Question>, choices: map<int, Choice>)
  {
    && UniqueIds(questions)
    && forall k :: k in choices ==>
         choices[k].id == k && FindQuestion(questions, choices[k].questionId).Some?
  }

}
