/** The remote data store the pages read and write, held in memory: one sequence of
    records per table, and a counter the store draws fresh row ids from. Every write of
    the application is one atomic step on these sequences. */
module Tables {

  datatype Option<+T> = None | Some(value: T)

  /** Row ids and user ids are opaque identities. */
  type Id = nat

  /** What a vote is about: a question or an answer, never both. */
  datatype Target = QuestionTarget(questionId: Id) | AnswerTarget(answerId: Id)

  /** The two buttons of a vote: `vote_type` 1 and -1. */
  datatype VoteKind = Up | Down

  datatype Vote = Vote(id: Id, userId: Id, target: Target, kind: VoteKind)

  /** A question row; `views` is null until first counted. */
  datatype Question = Question(id: Id, userId: Id, categoryId: string, title: string, content: string, views: Option<nat>)

  datatype Answer = Answer(id: Id, questionId: Id, userId: Id, content: string, isAccepted: bool)

  datatype Reply = Reply(id: Id, answerId: Id, userId: Id, content: string)

  /** A profile row; the optional text fields are null when empty. */
  datatype Profile = Profile(
    id: Id, fullName: string,
    headline: Option<string>, bio: Option<string>, university: Option<string>, course: Option<string>)

  datatype UserBadge = UserBadge(userId: Id, badgeId: Id)

  /** How a user action ends: refused for want of a signed-in user, refused by a
      validation rule, failed in the store, or done. */
  datatype Outcome = AuthRequired | Invalid | StoreFailed | Done

  class Store {
    var profiles: seq<Profile>
    var questions: seq<Question>
    var answers: seq<Answer>
    var replies: seq<Reply>
    var votes: seq<Vote>
    var userBadges: seq<UserBadge>
    var nextId: nat

    /** Every row id the store has handed out is below `nextId`, so `nextId` is fresh. */
    ghost predicate Valid()
      reads this
    {
      && (forall i :: 0 <= i < |questions| ==> questions[i].id < nextId)
      && (forall i :: 0 <= i < |answers| ==> answers[i].id < nextId)
      && (forall i :: 0 <= i < |replies| ==> replies[i].id < nextId)
      && (forall i :: 0 <= i < |votes| ==> votes[i].id < nextId)
    }

    constructor ()
      ensures Valid()
      ensures profiles == [] && questions == [] && answers == [] && replies == []
      ensures votes == [] && userBadges == [] && nextId == 0
    {
      profiles, questions, answers, replies := [], [], [], [];
      votes, userBadges, nextId := [], [], 0;
    }

    /** Inserts a question, not yet viewed, under a fresh id. */
    method InsertQuestion(userId: Id, categoryId: string, title: string, content: string) returns (id: Id)
      requires Valid()
      modifies this`questions, this`nextId
      ensures Valid()
      ensures id == old(nextId) && nextId == old(nextId) + 1
      ensures questions == old(questions) + [Question(id, userId, categoryId, title, content, None)]
    {
      id := nextId;
      questions := questions + [Question(id, userId, categoryId, title, content, None)];
      nextId := nextId + 1;
    }

    /** Inserts an answer, not accepted, under a fresh id. */
    method InsertAnswer(questionId: Id, userId: Id, content: string) returns (id: Id)
      requires Valid()
      modifies this`answers, this`nextId
      ensures Valid()
      ensures id == old(nextId) && nextId == old(nextId) + 1
      ensures answers == old(answers) + [Answer(id, questionId, userId, content, false)]
    {
      id := nextId;
      answers := answers + [Answer(id, questionId, userId, content, false)];
      nextId := nextId + 1;
    }

    /** Inserts a reply under a fresh id. */
    method InsertReply(answerId: Id, userId: Id, content: string) returns (id: Id)
      requires Valid()
      modifies this`replies, this`nextId
      ensures Valid()
      ensures id == old(nextId) && nextId == old(nextId) + 1
      ensures replies == old(replies) + [Reply(id, answerId, userId, content)]
    {
      id := nextId;
      replies := replies + [Reply(id, answerId, userId, content)];
      nextId := nextId + 1;
    }
  }
}
