/** The profile page's gamification logic: aggregating a user's activity counts from
    the tables, awarding the catalog badges whose requirement the counts meet, and
    choosing a badge's icon. */
module Profile {
  import opened Tables
  import VoteButtons

  /** The counts shown on the profile and checked by the badge requirements. */
  datatype Stats = Stats(questions: nat, answers: nat, helpfulVotes: nat, acceptedAnswers: nat, wellRatedQuestions: nat)

  /** A catalog badge: its requirement is a kind name and a threshold. */
  datatype Badge = Badge(id: Id, name: string, requirementType: string, requirementCount: int)

  /** A question is well rated when it has strictly more upvotes than this. */
  const WellRatedThreshold: nat := 5

  // ---------------------------------------------------------------------------------
  // Stats aggregation

  function CountQuestionsBy(questions: seq<Question>, user: Id): (n: nat)
    ensures n <= |questions|
  {
    if questions == [] then 0
    else (if questions[0].userId == user then 1 else 0) + CountQuestionsBy(questions[1..], user)
  }

  function CountAnswersBy(answers: seq<Answer>, user: Id, acceptedOnly: bool): (n: nat)
    ensures n <= |answers|
  {
    if answers == [] then 0
    else (if answers[0].userId == user && (answers[0].isAccepted || !acceptedOnly) then 1 else 0)
         + CountAnswersBy(answers[1..], user, acceptedOnly)
  }

  /** The ids of the user's questions, in table order. */
  function QuestionIdsOf(questions: seq<Question>, user: Id): (ids: seq<Id>)
    ensures |ids| == CountQuestionsBy(questions, user)
    ensures forall id :: id in ids <==> exists q :: q in questions && q.userId == user && q.id == id
  {
    if questions == [] then []
    else (if questions[0].userId == user then [questions[0].id] else []) + QuestionIdsOf(questions[1..], user)
  }

  /** The ids of the user's answers. */
  function AnswerIdsOf(answers: seq<Answer>, user: Id): set<Id> {
    set a | a in answers && a.userId == user :: a.id
  }

  /** Upvotes on the answers whose ids are in `ids`. */
  function HelpfulVoteCount(votes: seq<Vote>, ids: set<Id>): (n: nat)
    ensures ids == {} ==> n == 0
  {
    if votes == [] then 0
    else (if votes[0].target.AnswerTarget? && votes[0].target.answerId in ids && votes[0].kind == Up then 1 else 0)
         + HelpfulVoteCount(votes[1..], ids)
  }

  predicate IsWellRated(votes: seq<Vote>, questionId: Id) {
    VoteButtons.Tally(votes, QuestionTarget(questionId), Up) > WellRatedThreshold
  }

  /** How many of the questions `ids` are well rated. */
  function CountWellRated(ids: seq<Id>, votes: seq<Vote>): (n: nat)
    ensures n <= |ids|
  {
    if ids == [] then 0
    else CountWellRated(ids[..|ids| - 1], votes) + (if IsWellRated(votes, ids[|ids| - 1]) then 1 else 0)
  }

  /** The user's questions with strictly more than `WellRatedThreshold` upvotes, counted
      directly over the questions table. */
  function WellRatedBy(questions: seq<Question>, user: Id, votes: seq<Vote>): (n: nat)
    ensures n <= CountQuestionsBy(questions, user)
  {
    if questions == [] then 0
    else (if questions[0].userId == user && IsWellRated(votes, questions[0].id) then 1 else 0)
         + WellRatedBy(questions[1..], user, votes)
  }

  /** Inspecting the ids of the user's questions one by one counts exactly the user's
      well-rated questions. */
  lemma {:induction false} WellRatedCountsOwnQuestions(questions: seq<Question>, user: Id, votes: seq<Vote>)
    ensures CountWellRated(QuestionIdsOf(questions, user), votes) == WellRatedBy(questions, user, votes)
  {
    if questions != [] {
      var q := questions[0];
      var head := if q.userId == user then [q.id] else [];
      var rest := QuestionIdsOf(questions[1..], user);
      WellRatedCountsOwnQuestions(questions[1..], user, votes);
      CountWellRatedAppend(head, rest, votes);
      if q.userId == user {
        assert head[..0] == [];
      }
    }
  }

  lemma {:induction false} CountWellRatedAppend(a: seq<Id>, b: seq<Id>, votes: seq<Vote>)
    ensures CountWellRated(a + b, votes) == CountWellRated(a, votes) + CountWellRated(b, votes)
    decreases |b|
  {
    if b == [] {
      assert a + b == a;
    } else {
      var b' := b[..|b| - 1];
      assert (a + b)[..|a + b| - 1] == a + b';
      assert (a + b)[|a + b| - 1] == b[|b| - 1];
      CountWellRatedAppend(a, b', votes);
    }
  }

  /** A user's stats, read from the tables. */
  function StatsOf(db: Store, user: Id): (s: Stats)
    reads db
    ensures s.wellRatedQuestions <= s.questions
    ensures s.acceptedAnswers <= s.answers
    ensures s.wellRatedQuestions == WellRatedBy(db.questions, user, db.votes)
  {
    WellRatedCountsOwnQuestions(db.questions, user, db.votes);
    var helpful := if AnswerIdsOf(db.answers, user) == {} then 0 else HelpfulVoteCount(db.votes, AnswerIdsOf(db.answers, user));
    CountAcceptedAtMostAll(db.answers, user);
    Stats(
      CountQuestionsBy(db.questions, user),
      CountAnswersBy(db.answers, user, false),
      helpful,
      CountAnswersBy(db.answers, user, true),
      CountWellRated(QuestionIdsOf(db.questions, user), db.votes))
  }

  lemma {:induction false} CountAcceptedAtMostAll(answers: seq<Answer>, user: Id)
    ensures CountAnswersBy(answers, user, true) <= CountAnswersBy(answers, user, false)
  {
    if answers != [] {
      CountAcceptedAtMostAll(answers[1..], user);
    }
  }

  /** A user with no rows in any table has all-zero stats. */
  lemma {:induction false} NewUserStats(db: Store, user: Id)
    requires forall q :: q in db.questions ==> q.userId != user
    requires forall a :: a in db.answers ==> a.userId != user
    ensures StatsOf(db, user) == Stats(0, 0, 0, 0, 0)
  {
    NoQuestionsBy(db.questions, user);
    NoAnswersBy(db.answers, user, false);
    NoAnswersBy(db.answers, user, true);
  }

  lemma {:induction false} NoQuestionsBy(questions: seq<Question>, user: Id)
    requires forall q :: q in questions ==> q.userId != user
    ensures CountQuestionsBy(questions, user) == 0
  {
    if questions != [] {
      assert questions[0] in questions;
      NoQuestionsBy(questions[1..], user);
    }
  }

  lemma {:induction false} NoAnswersBy(answers: seq<Answer>, user: Id, acceptedOnly: bool)
    requires forall a :: a in answers ==> a.userId != user
    ensures CountAnswersBy(answers, user, acceptedOnly) == 0
  {
    if answers != [] {
      assert answers[0] in answers;
      NoAnswersBy(answers[1..], user, acceptedOnly);
    }
  }

  /** `fetchStats`: nothing without a signed-in user; otherwise the five counts, the
      well-rated ones counted question by question. */
  method FetchStats(db: Store, authUser: Option<Id>) returns (stats: Option<Stats>)
    ensures authUser.None? ==> stats.None?
    ensures authUser.Some? ==> stats == Some(StatsOf(db, authUser.value))
  {
    if authUser.None? {
      return None;
    }
    var user := authUser.value;
    var questionsCount := CountQuestionsBy(db.questions, user);
    var answersCount := CountAnswersBy(db.answers, user, false);
    var answerIds := AnswerIdsOf(db.answers, user);
    var helpfulVotesCount := 0;
    if answerIds != {} {
      helpfulVotesCount := HelpfulVoteCount(db.votes, answerIds);
    }
    var acceptedCount := CountAnswersBy(db.answers, user, true);
    var questionIds := QuestionIdsOf(db.questions, user);
    var wellRatedCount := 0;
    for i := 0 to |questionIds|
      invariant wellRatedCount == CountWellRated(questionIds[..i], db.votes)
    {
      var count := VoteButtons.Tally(db.votes, QuestionTarget(questionIds[i]), Up);
      if count > WellRatedThreshold {
        wellRatedCount := wellRatedCount + 1;
      }
      assert questionIds[..i + 1][..i] == questionIds[..i];
    }
    assert questionIds[..|questionIds|] == questionIds;
    stats := Some(Stats(questionsCount, answersCount, helpfulVotesCount, acceptedCount, wellRatedCount));
  }

  // ---------------------------------------------------------------------------------
  // Badge awarding

  /** The requirement check: the four known kinds compare their stat with the threshold;
      any other kind never qualifies. */
  function ShouldAward(badge: Badge, stats: Stats): (r: bool)
    ensures badge.requirementType == "questions" ==> (r <==> stats.questions >= badge.requirementCount)
    ensures badge.requirementType == "answers" ==> (r <==> stats.answers >= badge.requirementCount)
    ensures badge.requirementType == "helpful_votes" ==> (r <==> stats.helpfulVotes >= badge.requirementCount)
    ensures badge.requirementType == "accepted_answers" ==> (r <==> stats.acceptedAnswers >= badge.requirementCount)
    ensures badge.requirementType !in {"questions", "answers", "helpful_votes", "accepted_answers"} ==> !r
  {
    if badge.requirementType == "questions" then stats.questions >= badge.requirementCount
    else if badge.requirementType == "answers" then stats.answers >= badge.requirementCount
    else if badge.requirementType == "helpful_votes" then stats.helpfulVotes >= badge.requirementCount
    else if badge.requirementType == "accepted_answers" then stats.acceptedAnswers >= badge.requirementCount
    else false
  }

  /** The badge ids the user already holds. */
  function EarnedIds(rows: seq<UserBadge>, user: Id): set<Id> {
    set r | r in rows && r.userId == user :: r.badgeId
  }

  /** The rows one pass over the catalog inserts: one per badge, in catalog order, that is
      not in `earned` and whose requirement the stats meet. */
  function NewAwards(user: Id, catalog: seq<Badge>, earned: set<Id>, stats: Stats): seq<UserBadge> {
    if catalog == [] then []
    else NewAwards(user, catalog[..|catalog| - 1], earned, stats) + AwardOne(user, catalog[|catalog| - 1], earned, stats)
  }

  function AwardOne(user: Id, badge: Badge, earned: set<Id>, stats: Stats): seq<UserBadge> {
    if badge.id !in earned && ShouldAward(badge, stats) then [UserBadge(user, badge.id)] else []
  }

  /** Every inserted row is for the current user, for a catalog badge the user did not
      hold and whose requirement is met; there is at most one per catalog entry. */
  lemma {:induction false} AwardsAreNew(user: Id, catalog: seq<Badge>, earned: set<Id>, stats: Stats)
    ensures var rows := NewAwards(user, catalog, earned, stats);
      && |rows| <= |catalog|
      && forall r :: r in rows ==>
           && r.userId == user && r.badgeId !in earned
           && exists b :: b in catalog && b.id == r.badgeId && ShouldAward(b, stats)
  {
    if catalog != [] {
      var init := catalog[..|catalog| - 1];
      AwardsAreNew(user, init, earned, stats);
      forall b | b in init ensures b in catalog {
      }
    }
  }

  /** A catalog badge the user does not hold and whose requirement is met is awarded. */
  lemma {:induction false} QualifyingBadgeIsAwarded(user: Id, catalog: seq<Badge>, earned: set<Id>, stats: Stats, b: Badge)
    requires b in catalog && b.id !in earned && ShouldAward(b, stats)
    ensures UserBadge(user, b.id) in NewAwards(user, catalog, earned, stats)
  {
    var init := catalog[..|catalog| - 1];
    if b != catalog[|catalog| - 1] {
      assert b in init by {
        assert catalog == init + [catalog[|catalog| - 1]];
      }
      QualifyingBadgeIsAwarded(user, init, earned, stats, b);
    }
  }

  /** A badge id is awarded exactly when some catalog badge with that id qualifies and is
      not yet held. */
  lemma AwardedIff(user: Id, catalog: seq<Badge>, earned: set<Id>, stats: Stats, id: Id)
    ensures UserBadge(user, id) in NewAwards(user, catalog, earned, stats)
            <==> id !in earned && exists b :: b in catalog && b.id == id && ShouldAward(b, stats)
  {
    AwardsAreNew(user, catalog, earned, stats);
    if b :| b in catalog && b.id == id && ShouldAward(b, stats) {
      if id !in earned {
        QualifyingBadgeIsAwarded(user, catalog, earned, stats, b);
      }
    }
  }

  predicate DistinctBadgeIds(catalog: seq<Badge>) {
    forall i, j :: 0 <= i < j < |catalog| ==> catalog[i].id != catalog[j].id
  }

  /** With distinct catalog ids, no badge id is inserted twice in one pass. */
  lemma {:induction false} AwardsDistinct(user: Id, catalog: seq<Badge>, earned: set<Id>, stats: Stats)
    requires DistinctBadgeIds(catalog)
    ensures var rows := NewAwards(user, catalog, earned, stats);
      forall i, j :: 0 <= i < j < |rows| ==> rows[i].badgeId != rows[j].badgeId
  {
    if catalog != [] {
      var init := catalog[..|catalog| - 1];
      var last := catalog[|catalog| - 1];
      AwardsDistinct(user, init, earned, stats);
      AwardsAreNew(user, init, earned, stats);
      var rows := NewAwards(user, init, earned, stats);
      forall r | r in rows ensures r.badgeId != last.id {
        var b :| b in init && b.id == r.badgeId && ShouldAward(b, stats);
        var k :| 0 <= k < |init| && init[k] == b;
      }
    }
  }

  /** No badge requirement met and not yet held means nothing is inserted. */
  lemma {:induction false} NothingToAward(user: Id, catalog: seq<Badge>, earned: set<Id>, stats: Stats)
    requires forall b :: b in catalog ==> b.id in earned || !ShouldAward(b, stats)
    ensures NewAwards(user, catalog, earned, stats) == []
  {
    if catalog != [] {
      var init := catalog[..|catalog| - 1];
      assert catalog[|catalog| - 1] in catalog;
      forall b | b in init ensures b in catalog {
      }
      NothingToAward(user, init, earned, stats);
    }
  }

  /** Running the awarder a second time with unchanged stats, once the first run's rows
      are in the table, inserts nothing. */
  lemma AwardIdempotent(rows: seq<UserBadge>, user: Id, catalog: seq<Badge>, stats: Stats)
    ensures var after := rows + NewAwards(user, catalog, EarnedIds(rows, user), stats);
      NewAwards(user, catalog, EarnedIds(after, user), stats) == []
  {
    var earned := EarnedIds(rows, user);
    var added := NewAwards(user, catalog, earned, stats);
    var after := rows + added;
    forall b | b in catalog && b.id !in EarnedIds(after, user) ensures !ShouldAward(b, stats) {
      assert b.id !in earned;
      if ShouldAward(b, stats) {
        QualifyingBadgeIsAwarded(user, catalog, earned, stats, b);
      }
    }
    NothingToAward(user, catalog, EarnedIds(after, user), stats);
  }

  /** No (user, badge) pair occurs twice. */
  predicate UniqueAwards(rows: seq<UserBadge>) {
    forall i, j :: 0 <= i < j < |rows| ==> rows[i] != rows[j]
  }

  /** With distinct catalog ids, a pass keeps every (user, badge) pair unique. */
  lemma AwardKeepsUnique(rows: seq<UserBadge>, user: Id, catalog: seq<Badge>, stats: Stats)
    requires UniqueAwards(rows) && DistinctBadgeIds(catalog)
    ensures UniqueAwards(rows + NewAwards(user, catalog, EarnedIds(rows, user), stats))
  {
    var earned := EarnedIds(rows, user);
    var added := NewAwards(user, catalog, earned, stats);
    var after := rows + added;
    AwardsAreNew(user, catalog, earned, stats);
    AwardsDistinct(user, catalog, earned, stats);
    forall i, j | 0 <= i < j < |after| ensures after[i] != after[j] {
      if i < |rows| && j >= |rows| {
        assert after[j] in added;
        assert after[i] in rows;
      }
    }
  }

  lemma {:induction false} NewAwardsStep(user: Id, catalog: seq<Badge>, earned: set<Id>, stats: Stats, i: nat)
    requires i < |catalog|
    ensures NewAwards(user, catalog[..i + 1], earned, stats)
            == NewAwards(user, catalog[..i], earned, stats) + AwardOne(user, catalog[i], earned, stats)
  {
    assert catalog[..i + 1][..i] == catalog[..i];
  }

  /** `checkAndAwardBadges`: without a signed-in user or a catalog nothing changes;
      otherwise one row is appended per qualifying badge not yet held, judged against the
      ids held when the pass started. Rows are only ever added. */
  method CheckAndAwardBadges(db: Store, authUser: Option<Id>, allBadges: Option<seq<Badge>>, stats: Stats)
    modifies db`userBadges
    ensures authUser.None? || allBadges.None? ==> db.userBadges == old(db.userBadges)
    ensures authUser.Some? && allBadges.Some? ==>
            db.userBadges == old(db.userBadges) + NewAwards(authUser.value, allBadges.value, EarnedIds(old(db.userBadges), authUser.value), stats)
  {
    if authUser.None? {
      return;
    }
    var user := authUser.value;
    var earnedBadgeIds := EarnedIds(db.userBadges, user);
    if allBadges.None? {
      return;
    }
    var catalog := allBadges.value;
    for i := 0 to |catalog|
      invariant db.userBadges == old(db.userBadges) + NewAwards(user, catalog[..i], earnedBadgeIds, stats)
    {
      NewAwardsStep(user, catalog, earnedBadgeIds, stats, i);
      var badge := catalog[i];
      if badge.id in earnedBadgeIds {
        continue;
      }
      var shouldAward := ShouldAward(badge, stats);
      if shouldAward {
        db.userBadges := db.userBadges + [UserBadge(user, badge.id)];
      }
    }
    assert catalog[..|catalog|] == catalog;
  }

  /** A user who has just posted a first answer earns the one-answer badge and no badge
      whose threshold is higher. */
  lemma FirstAnswerScenario(user: Id)
    ensures var catalog := [Badge(1, "Primeira Resposta", "answers", 1), Badge(2, "Colaborador", "answers", 10)];
      NewAwards(user, catalog, {}, Stats(0, 1, 0, 0, 0)) == [UserBadge(user, 1)]
  {
    var catalog := [Badge(1, "Primeira Resposta", "answers", 1), Badge(2, "Colaborador", "answers", 10)];
    var stats := Stats(0, 1, 0, 0, 0);
    assert catalog[..1][..0] == [];
    assert NewAwards(user, catalog[..1], {}, stats) == [UserBadge(user, 1)];
    assert catalog[..|catalog| - 1] == catalog[..1];
  }

  // ---------------------------------------------------------------------------------
  // Badge icons

  datatype Icon = MessageSquare | Award | ThumbsUp | CheckCircle | Trophy

  function IconName(icon: Icon): string {
    match icon
    case MessageSquare => "MessageSquare"
    case Award => "Award"
    case ThumbsUp => "ThumbsUp"
    case CheckCircle => "CheckCircle"
    case Trophy => "Trophy"
  }

  /** `getIconComponent`: the icon of that name, and the message icon for any other name. */
  function GetIconComponent(iconName: string): (r: Icon)
    ensures r != MessageSquare ==> IconName(r) == iconName
  {
    if iconName == "Award" then Award
    else if iconName == "ThumbsUp" then ThumbsUp
    else if iconName == "CheckCircle" then CheckCircle
    else if iconName == "Trophy" then Trophy
    else MessageSquare
  }

  /** Each of the five icons is found by its own name, and an unknown name falls back to
      the message icon. */
  lemma IconLookup(icon: Icon, other: string)
    ensures GetIconComponent(IconName(icon)) == icon
    ensures (forall i: Icon :: IconName(i) != other) ==> GetIconComponent(other) == MessageSquare
  {
  }
}
