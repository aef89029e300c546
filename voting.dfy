/**
 * The vote view: it resolves the question, validates the submitted choice
 * against that question's choices and, when the choice is valid, adds one
 * vote to it in the store.
 */
module Voting {

  import opened Wrappers
  import opened Models
  import Views

  /** The message shown when the submission names no choice of the question. */
  const NoChoiceMessage: string := "You didn't select a choice."

  /** What the vote view answers with. */
  datatype Outcome =
    | NotFound                                          // the 404 response
    | ErrorRerender(question: Question, message: string) // the detail page again, with an error
    | Redirect(questionId: int)                         // to the results page of that question

  /** The submitted choice names a choice filed under `question`. */
  predicate BelongsTo(choices: map<int, Choice>, question: Question, submitted: Option<int>)
  {
    submitted.Some? && submitted.value in choices && choices[submitted.value].questionId == question.id
  }

  /**
   * The key of the selected choice among the question's choices; None when
   * the form field is missing or names no choice of this question.
   */
  function SelectedChoice(choices: map<int, Choice>, question: Question, submitted: Option<int>): (r: Option<int>)
    ensures r.Some? <==> BelongsTo(choices, question, submitted)
    ensures r.Some? ==> r == submitted && choices[r.value].questionId == question.id
  {
    match submitted
    case None => None
    case Some(id) => if id in choices && choices[id].questionId == question.id then Some(id) else None
  }

  /** The store after one vote for choice `id`: that counter is one higher, nothing else differs. */
  function AddVote(choices: map<int, Choice>, id: int): (r: map<int, Choice>)
    requires id in choices
    ensures r.Keys == choices.Keys
    ensures r[id].votes == choices[id].votes + 1
    ensures r[id].id == choices[id].id && r[id].questionId == choices[id].questionId
    ensures forall k :: k in choices && k != id ==> r[k] == choices[k]
  {
    choices[id := choices[id].(votes := choices[id].votes + 1)]
  }

  /**
   * A vote for question `pk` with the submitted choice field: the answer
   * and the choices afterwards.
   */
  function VoteOn(questions: seq<Question>, choices: map<int, Choice>, pk: int, submitted: Option<int>)
    : (r: (Outcome, map<int, Choice>))
    ensures r.0.NotFound? <==> forall q :: q in questions ==> q.id != pk
    ensures r.0.ErrorRerender? <==>
              FindQuestion(questions, pk).Some? && !BelongsTo(choices, FindQuestion(questions, pk).value, submitted)
    ensures r.0.ErrorRerender? ==>
              r.0.message == NoChoiceMessage && r.0.question in questions && r.0.question.id == pk
    ensures !r.0.Redirect? ==> r.1 == choices
    ensures r.0.Redirect? ==>
              && r.0.questionId == pk
              && submitted.Some? && submitted.value in choices
              && choices[submitted.value].questionId == pk
              && r.1 == AddVote(choices, submitted.value)
  {
    match FindQuestion(questions, pk)
    case None => (NotFound, choices)
    case Some(question) =>
      match SelectedChoice(choices, question, submitted)
      case None => (ErrorRerender(question, NoChoiceMessage), choices)
      case Some(id) => (Redirect(question.id), AddVote(choices, id))
  }

  /** A vote changes the store exactly when it succeeds. */
  lemma VoteChangesIffRedirect(questions: seq<Question>, choices: map<int, Choice>, pk: int, submitted: Option<int>)
    ensures VoteOn(questions, choices, pk, submitted).1 != choices <==> VoteOn(questions, choices, pk, submitted).0.Redirect?
  {
    var r := VoteOn(questions, choices, pk, submitted);
    if r.0.Redirect? {
      assert r.1[submitted.value].votes != choices[submitted.value].votes;
    }
  }

  /** A vote keeps the store well formed. */
  lemma VotePreservesWellFormed(questions: seq<Question>, choices: map<int, Choice>, pk: int, submitted: Option<int>)
    requires WellFormed(questions, choices)
    ensures WellFormed(questions, VoteOn(questions, choices, pk, submitted).1)
  {
  }

  /**
   * Voting does not look at the publication timestamp: a question whose
   * detail page is a 404 because it is not yet published still takes votes.
   */
  lemma VoteIgnoresPublication(questions: seq<Question>, choices: map<int, Choice>, q: Question, c: int, now: int)
    requires UniqueIds(questions)
    requires q in questions && q.pubDate >= now
    requires c in choices && choices[c].questionId == q.id
    ensures Views.Detail(questions, q.id, now) == None
    ensures VoteOn(questions, choices, q.id, Some(c)).0 == Redirect(q.id)
  {
    FindQuestionExact(questions, q.id, q);
    forall p | p in questions && p.id == q.id ensures p.pubDate >= now {
      SameIdSameQuestion(questions, p, q);
    }
  }

  /**
   * The stored questions and choices. Questions never change at run time;
   * of the choices only the vote counters do.
   */
  class Store {
    const questions: seq<Question>
    var choices: map<int, Choice>

    ghost predicate Valid()
      reads this
    {
      WellFormed(questions, choices)
    }

    constructor (questions: seq<Question>, choices: map<int, Choice>)
      requires WellFormed(questions, choices)
      ensures Valid()
      ensures this.questions == questions && this.choices == choices
    {
      this.questions := questions;
      this.choices := choices;
    }

    /** The store's atomic relative update: one more vote on choice `id`, in one step. */
    method IncrementVotes(id: int)
      requires Valid()
      requires id in choices
      modifies this`choices
      ensures Valid()
      ensures choices == AddVote(old(choices), id)
    {
      choices := choices[id := choices[id].(votes := choices[id].votes + 1)];
    }

    /**
     * The vote view: 404 for an unknown question, the detail page with an
     * error for a missing or foreign choice, otherwise one more vote and a
     * redirect to the results page.
     */
    method Vote(pk: int, submitted: Option<int>) returns (outcome: Outcome)
      requires Valid()
      modifies this`choices
      ensures Valid()
      ensures (outcome, choices) == VoteOn(questions, old(choices), pk, submitted)
      ensures outcome.Redirect? ==> choices[submitted.value].votes == old(choices)[submitted.value].votes + 1
      ensures outcome.ErrorRerender? ==> forall q :: q in questions && q.id == pk ==> q == outcome.question
      ensures forall k :: k in old(choices) && (!outcome.Redirect? || Some(k) != submitted) ==>
                k in choices && choices[k] == old(choices)[k]
    {
      var question := FindQuestion(questions, pk);
      if question.None? {
        return NotFound;
      }
      var selected := SelectedChoice(choices, question.value, submitted);
      if selected.None? {
        FindQuestionExact(questions, pk, question.value);
        return ErrorRerender(question.value, NoChoiceMessage);
      }
      IncrementVotes(selected.value);
      return Redirect(question.value.id);
    }
  }

}
