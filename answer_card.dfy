/** One answer on the question page: who may reply to it, when the accept button shows,
    and posting a reply. */
module AnswerCard {
  import opened Tables
  import Text
  import QuestionDetail

  /** Replying is open to the author of the question and to the author of the answer;
      a signed-out visitor matches neither. */
  function CanReply(currentUserId: Option<Id>, questionUserId: Id, answer: Answer): (r: bool)
    ensures currentUserId.None? ==> !r
    ensures currentUserId.Some? ==> (r <==> currentUserId.value in {questionUserId, answer.userId})
  {
    currentUserId == Some(questionUserId) || currentUserId == Some(answer.userId)
  }

  /** The accept button shows to the question's author, on an answer not yet accepted. */
  function ShowAcceptButton(currentUserId: Option<Id>, questionUserId: Id, answer: Answer): (r: bool)
    ensures r ==> currentUserId == Some(questionUserId) && !answer.isAccepted
    ensures currentUserId == Some(questionUserId) && !answer.isAccepted ==> r
  {
    currentUserId == Some(questionUserId) && !answer.isAccepted
  }

  /** Whoever sees the accept button may also reply. */
  lemma AcceptButtonImpliesCanReply(currentUserId: Option<Id>, questionUserId: Id, answer: Answer)
    requires ShowAcceptButton(currentUserId, questionUserId, answer)
    ensures CanReply(currentUserId, questionUserId, answer)
  {
  }

  /** Once the owner has accepted an answer, the button is gone from the chosen answer
      and shows on every other answer of the question. */
  lemma AcceptButtonAfterAccept(answers: seq<Answer>, questionId: Id, owner: Id, answerId: Id, i: nat)
    requires i < |answers| && answers[i].questionId == questionId
    ensures ShowAcceptButton(Some(owner), owner, QuestionDetail.AcceptAnswer(answers, questionId, answerId)[i])
        <==> answers[i].id != answerId
  {
    QuestionDetail.AcceptChoosesOne(answers, questionId, answerId);
  }

  /** The least trimmed length of a reply. */
  const MinReplyLength: nat := 10

  /** The card of `answer`, shown on the page of a question by `questionUserId` to
      `currentUserId`, with its reply form. */
  class AnswerCard {
    const answer: Answer
    const questionUserId: Id
    const currentUserId: Option<Id>
    var showReplyForm: bool
    var replyContent: string

    constructor (answer: Answer, questionUserId: Id, currentUserId: Option<Id>)
      ensures this.answer == answer && this.questionUserId == questionUserId && this.currentUserId == currentUserId
      ensures !showReplyForm && replyContent == ""
    {
      this.answer := answer;
      this.questionUserId := questionUserId;
      this.currentUserId := currentUserId;
      showReplyForm := false;
      replyContent := "";
    }

    /** Posts the draft as a reply: refused when signed out or when the trimmed draft is
        shorter than 10 characters; on success the trimmed text is stored under a fresh
        id, the draft is cleared and the form closed. A failed insert keeps the form as
        it was. */
    method HandleSubmitReply(db: Store, insertFails: bool) returns (outcome: Outcome)
      requires db.Valid()
      modifies this`showReplyForm, this`replyContent, db`replies, db`nextId
      ensures db.Valid()
      ensures currentUserId.None? ==> outcome == AuthRequired
      ensures currentUserId.Some? && |Text.Trim(old(replyContent))| < MinReplyLength ==> outcome == Invalid
      ensures currentUserId.Some? && |Text.Trim(old(replyContent))| >= MinReplyLength ==>
        outcome == (if insertFails then StoreFailed else Done)
      ensures outcome != Done ==>
        && db.replies == old(db.replies) && db.nextId == old(db.nextId)
        && replyContent == old(replyContent) && showReplyForm == old(showReplyForm)
      ensures outcome == Done ==>
        && db.replies == old(db.replies) + [Reply(old(db.nextId), answer.id, currentUserId.value, Text.Trim(old(replyContent)))]
        && db.nextId == old(db.nextId) + 1
        && replyContent == "" && !showReplyForm
    {
      if currentUserId.None? {
        return AuthRequired;
      }
      var content := Text.Trim(replyContent);
      if |content| < MinReplyLength {
        return Invalid;
      }
      if insertFails {
        return StoreFailed;
      }
      var _ := db.InsertReply(answer.id, currentUserId.value, content);
      replyContent := "";
      showReplyForm := false;
      outcome := Done;
    }
  }
}
