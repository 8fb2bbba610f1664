/** The question page: its trimmed answer schema, the view counter, answering, and the
    owner's choice of the accepted answer. */
module QuestionDetail {
  import opened Tables
  import Text
  import Validations

  /** The page's answer schema: the content is trimmed first, and the trimmed text must
      have 10 to 5000 characters; it is that trimmed text that is stored. */
  function AnswerSchema(content: string): (r: Option<string>)
    ensures r.Some? ==> Text.IsTrimmed(r.value) && 10 <= |r.value| <= 5000
    ensures r.Some? ==> exists lo :: Text.CutAt(content, lo, r.value)
    ensures r.None? <==> Validations.AnswerIssues(Text.Trim(content)) != []
  {
    var t := Text.Trim(content);
    Text.TrimCutsSpace(content);
    if 10 <= |t| <= 5000 then Some(t) else None
  }

  /** Unlike the shared schema, this one cannot be passed by padding with spaces. */
  lemma AnswerSchemaIgnoresPadding(c: char, content: string)
    requires Text.IsSpace(c)
    ensures AnswerSchema([c] + content) == AnswerSchema(content)
  {
    Text.TrimIgnoresLeadingSpace(c, content);
  }

  /** The number of question rows with id `id`. */
  function CountWithId(questions: seq<Question>, id: Id): (n: nat)
    ensures n <= |questions|
    ensures n == 0 <==> forall i :: 0 <= i < |questions| ==> questions[i].id != id
  {
    if questions == [] then 0
    else (if questions[0].id == id then 1 else 0) + CountWithId(questions[1..], id)
  }

  /** The first row with id `id`. */
  function FirstWithId(questions: seq<Question>, id: Id): (k: nat)
    requires CountWithId(questions, id) > 0
    ensures k < |questions| && questions[k].id == id
    ensures forall i :: 0 <= i < k ==> questions[i].id != id
  {
    if questions[0].id == id then 0 else 1 + FirstWithId(questions[1..], id)
  }

  /** A `.single()` lookup by id: the row when exactly one row has that id, else nothing. */
  function SingleQuestion(questions: seq<Question>, id: Id): (r: Option<Question>)
    ensures r.Some? <==> CountWithId(questions, id) == 1
    ensures r.Some? ==> r.value in questions && r.value.id == id
  {
    if CountWithId(questions, id) == 1 then Some(questions[FirstWithId(questions, id)]) else None
  }

  /** `views || 0`: a missing count reads as zero. */
  function ViewCount(views: Option<nat>): nat {
    if views.Some? then views.value else 0
  }

  /** Sets the view count of every row with id `id`. */
  function SetViews(questions: seq<Question>, id: Id, views: nat): (r: seq<Question>)
    ensures |r| == |questions|
    ensures forall i :: 0 <= i < |questions| ==>
      r[i] == if questions[i].id == id then questions[i].(views := Some(views)) else questions[i]
  {
    seq(|questions|, i requires 0 <= i < |questions| =>
      if questions[i].id == id then questions[i].(views := Some(views)) else questions[i])
  }

  /** The questions table after counting one view of question `id`. */
  function ViewsAfterIncrement(questions: seq<Question>, id: Id): seq<Question> {
    match SingleQuestion(questions, id)
    case None => questions
    case Some(q) => SetViews(questions, id, ViewCount(q.views) + 1)
  }

  /** One more view: the only row with that id has its count raised by exactly one, a
      missing count counting as zero, and nothing else changes; when no single row has
      that id the table is unchanged. */
  lemma {:induction false} IncrementCountsOneView(questions: seq<Question>, id: Id)
    ensures |ViewsAfterIncrement(questions, id)| == |questions|
    ensures CountWithId(questions, id) != 1 ==> ViewsAfterIncrement(questions, id) == questions
    ensures CountWithId(questions, id) == 1 ==>
      exists k :: 0 <= k < |questions| && questions[k].id == id
        && ViewsAfterIncrement(questions, id)[k] == questions[k].(views := Some(ViewCount(questions[k].views) + 1))
        && forall i :: 0 <= i < |questions| && i != k ==> ViewsAfterIncrement(questions, id)[i] == questions[i]
  {
    if CountWithId(questions, id) == 1 {
      var k := FirstWithId(questions, id);
      OnlyRowWithId(questions, id, k);
      assert ViewsAfterIncrement(questions, id)[k] == questions[k].(views := Some(ViewCount(questions[k].views) + 1));
    }
  }

  /** When exactly one row has id `id`, the row at `k` with that id is the only one. */
  lemma {:induction false} OnlyRowWithId(questions: seq<Question>, id: Id, k: nat)
    requires CountWithId(questions, id) == 1
    requires k < |questions| && questions[k].id == id
    ensures forall i :: 0 <= i < |questions| && i != k ==> questions[i].id != id
  {
    if questions[0].id == id {
      assert CountWithId(questions[1..], id) == 0;
      assert forall i :: 1 <= i < |questions| ==> questions[i] == questions[1..][i - 1];
    } else {
      assert questions[1..][k - 1] == questions[k];
      OnlyRowWithId(questions[1..], id, k - 1);
      assert forall i :: 1 <= i < |questions| ==> questions[i] == questions[1..][i - 1];
    }
  }

  /** Clears the accepted flag on every answer of question `questionId`. */
  function ClearAccepted(answers: seq<Answer>, questionId: Id): (r: seq<Answer>)
    ensures |r| == |answers|
    ensures forall i :: 0 <= i < |answers| ==>
      r[i] == if answers[i].questionId == questionId then answers[i].(isAccepted := false) else answers[i]
  {
    seq(|answers|, i requires 0 <= i < |answers| =>
      if answers[i].questionId == questionId then answers[i].(isAccepted := false) else answers[i])
  }

  /** Sets the accepted flag on every answer with id `answerId`, whatever its question. */
  function SetAccepted(answers: seq<Answer>, answerId: Id): (r: seq<Answer>)
    ensures |r| == |answers|
    ensures forall i :: 0 <= i < |answers| ==>
      r[i] == if answers[i].id == answerId then answers[i].(isAccepted := true) else answers[i]
  {
    seq(|answers|, i requires 0 <= i < |answers| =>
      if answers[i].id == answerId then answers[i].(isAccepted := true) else answers[i])
  }

  /** Both writes of accepting answer `answerId` on question `questionId`. */
  function AcceptAnswer(answers: seq<Answer>, questionId: Id, answerId: Id): seq<Answer> {
    SetAccepted(ClearAccepted(answers, questionId), answerId)
  }

  /** No two answers of question `questionId` are both accepted. */
  predicate AtMostOneAccepted(answers: seq<Answer>, questionId: Id) {
    forall i, j :: 0 <= i < j < |answers| && answers[i].questionId == questionId && answers[j].questionId == questionId
      ==> !(answers[i].isAccepted && answers[j].isAccepted)
  }

  predicate AnswerIdsDistinct(answers: seq<Answer>) {
    forall i, j :: 0 <= i < j < |answers| ==> answers[i].id != answers[j].id
  }

  /** After accepting: among the question's answers exactly those with the chosen id are
      accepted; an answer of another question that is not the chosen one is untouched;
      and no row changes in anything but its flag. */
  lemma AcceptChoosesOne(answers: seq<Answer>, questionId: Id, answerId: Id)
    ensures |AcceptAnswer(answers, questionId, answerId)| == |answers|
    ensures forall i :: 0 <= i < |answers| && answers[i].questionId == questionId ==>
      (AcceptAnswer(answers, questionId, answerId)[i].isAccepted <==> answers[i].id == answerId)
    ensures forall i :: 0 <= i < |answers| && answers[i].questionId != questionId && answers[i].id != answerId ==>
      AcceptAnswer(answers, questionId, answerId)[i] == answers[i]
    ensures forall i :: 0 <= i < |answers| ==>
      AcceptAnswer(answers, questionId, answerId)[i] == answers[i].(isAccepted := AcceptAnswer(answers, questionId, answerId)[i].isAccepted)
  {
  }

  /** Accepting an answer of the question keeps "at most one accepted answer" for every
      question, and leaves the question with exactly one accepted answer. */
  lemma AcceptKeepsAtMostOne(answers: seq<Answer>, questionId: Id, answerId: Id)
    requires AnswerIdsDistinct(answers)
    requires forall q :: AtMostOneAccepted(answers, q)
    requires forall i :: 0 <= i < |answers| && answers[i].id == answerId ==> answers[i].questionId == questionId
    ensures forall q :: AtMostOneAccepted(AcceptAnswer(answers, questionId, answerId), q)
    ensures forall i :: 0 <= i < |answers| && answers[i].id == answerId ==>
      AcceptAnswer(answers, questionId, answerId)[i].isAccepted
  {
    var r := AcceptAnswer(answers, questionId, answerId);
    forall q
      ensures AtMostOneAccepted(r, q)
    {
      if q != questionId {
        forall i, j | 0 <= i < j < |r| && r[i].questionId == q && r[j].questionId == q
          ensures !(r[i].isAccepted && r[j].isAccepted)
        {
          assert r[i] == answers[i] && r[j] == answers[j];
          assert AtMostOneAccepted(answers, q);
        }
      }
    }
  }

  /** The second write selects by answer id alone: accepting, from one question, an
      answer that belongs to another question which already has an accepted answer
      leaves that other question with two. */
  lemma AcceptOfForeignAnswerBreaksInvariant()
    ensures var before := [Answer(1, 20, 7, "primeira resposta", true), Answer(2, 20, 8, "segunda resposta", false)];
      AtMostOneAccepted(before, 20) && !AtMostOneAccepted(AcceptAnswer(before, 10, 2), 20)
  {
    var before := [Answer(1, 20, 7, "primeira resposta", true), Answer(2, 20, 8, "segunda resposta", false)];
    var after := AcceptAnswer(before, 10, 2);
    assert after[0].isAccepted && after[1].isAccepted;
  }

  /** Accepting the same answer twice gives the same table as accepting it once. */
  lemma AcceptIdempotent(answers: seq<Answer>, questionId: Id, answerId: Id)
    ensures AcceptAnswer(AcceptAnswer(answers, questionId, answerId), questionId, answerId)
         == AcceptAnswer(answers, questionId, answerId)
  {
  }

  /** The page for question `id`, with the question row it loaded (if any) and the
      draft of a new answer. */
  class QuestionDetailPage {
    const id: Id
    var question: Option<Question>
    var newAnswer: string

    constructor (id: Id, question: Option<Question>)
      ensures this.id == id && this.question == question && newAnswer == ""
    {
      this.id := id;
      this.question := question;
      newAnswer := "";
    }

    /** Whether `user` is signed in and owns the loaded question. */
    predicate IsOwner(user: Option<Id>)
      reads this
    {
      user.Some? && question.Some? && question.value.userId == user.value
    }

    /** Reads the question's view count with a single-row lookup and writes it back one
        higher; nothing is written when no single row is found. */
    method IncrementViews(db: Store)
      requires db.Valid()
      modifies db`questions
      ensures db.Valid()
      ensures db.questions == ViewsAfterIncrement(old(db.questions), id)
    {
      var current := SingleQuestion(db.questions, id);
      if current.Some? {
        db.questions := SetViews(db.questions, id, ViewCount(current.value.views) + 1);
      }
    }

    /** Posts the draft as an answer by the signed-in user: refused when signed out or
        when the trimmed draft is out of bounds; on success the trimmed text is stored,
        unaccepted, under a fresh id, and the draft is cleared. A failed insert keeps
        the draft. */
    method HandleSubmitAnswer(db: Store, user: Option<Id>, insertFails: bool) returns (outcome: Outcome)
      requires db.Valid()
      modifies this`newAnswer, db`answers, db`nextId
      ensures db.Valid()
      ensures user.None? ==> outcome == AuthRequired
      ensures user.Some? && AnswerSchema(old(newAnswer)).None? ==> outcome == Invalid
      ensures user.Some? && AnswerSchema(old(newAnswer)).Some? ==> outcome == (if insertFails then StoreFailed else Done)
      ensures outcome != Done ==>
        db.answers == old(db.answers) && db.nextId == old(db.nextId) && newAnswer == old(newAnswer)
      ensures outcome == Done ==>
        && db.answers == old(db.answers) + [Answer(old(db.nextId), id, user.value, Text.Trim(old(newAnswer)), false)]
        && db.nextId == old(db.nextId) + 1
        && newAnswer == ""
    {
      if user.None? {
        return AuthRequired;
      }
      var validated := AnswerSchema(newAnswer);
      if validated.None? {
        return Invalid;
      }
      if insertFails {
        return StoreFailed;
      }
      var _ := db.InsertAnswer(id, user.value, validated.value);
      newAnswer := "";
      outcome := Done;
    }

    /** The owner marks answer `answerId` as the accepted one: first every answer of
        this question is unmarked, then every row with that answer id is marked. Each
        write may fail on its own; a failed first write is ignored. Anyone but the
        signed-in owner changes nothing. */
    method HandleAcceptAnswer(db: Store, user: Option<Id>, answerId: Id, clearFails: bool, setFails: bool)
      modifies db`answers
      ensures !old(IsOwner(user)) ==> db.answers == old(db.answers)
      ensures old(IsOwner(user)) ==>
        var cleared := if clearFails then old(db.answers) else ClearAccepted(old(db.answers), id);
        db.answers == if setFails then cleared else SetAccepted(cleared, answerId)
      ensures old(IsOwner(user)) && !clearFails && !setFails ==> db.answers == AcceptAnswer(old(db.answers), id, answerId)
    {
      if !IsOwner(user) {
        return;
      }
      if !clearFails {
        db.answers := ClearAccepted(db.answers, id);
      }
      if !setFails {
        db.answers := SetAccepted(db.answers, answerId);
      }
    }
  }
}
