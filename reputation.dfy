/** Reputation scoring: a linear score over three activity counts, and two threshold
    ladders that turn a score into a level name and a colour class. */
module Reputation {

  /** The three counts the score is computed from. */
  datatype ReputationStats = ReputationStats(acceptedAnswers: nat, helpfulVotes: nat, wellRatedQuestions: nat)

  /** Points per accepted answer, per helpful vote and per well-rated question. */
  const AcceptedAnswerPoints: nat := 15
  const HelpfulVotePoints: nat := 5
  const WellRatedQuestionPoints: nat := 10

  function CalculateReputation(stats: ReputationStats): (r: nat)
    ensures r == 15 * stats.acceptedAnswers + 5 * stats.helpfulVotes + 10 * stats.wellRatedQuestions
    ensures r % 5 == 0
  {
    var acceptedPoints := stats.acceptedAnswers * AcceptedAnswerPoints;
    var votesPoints := stats.helpfulVotes * HelpfulVotePoints;
    var questionsPoints := stats.wellRatedQuestions * WellRatedQuestionPoints;
    acceptedPoints + votesPoints + questionsPoints
  }

  /** `b` has each count at least as large as `a`. */
  predicate Dominates(b: ReputationStats, a: ReputationStats) {
    a.acceptedAnswers <= b.acceptedAnswers && a.helpfulVotes <= b.helpfulVotes
    && a.wellRatedQuestions <= b.wellRatedQuestions
  }

  /** More activity in any count never lowers the score. */
  lemma ScoreMonotone(a: ReputationStats, b: ReputationStats)
    requires Dominates(b, a)
    ensures CalculateReputation(a) <= CalculateReputation(b)
  {
  }

  /** A new user scores zero, and one more unit of a count adds exactly its points. */
  lemma ScoreIncrements(s: ReputationStats)
    ensures CalculateReputation(ReputationStats(0, 0, 0)) == 0
    ensures CalculateReputation(s.(acceptedAnswers := s.acceptedAnswers + 1)) == CalculateReputation(s) + 15
    ensures CalculateReputation(s.(helpfulVotes := s.helpfulVotes + 1)) == CalculateReputation(s) + 5
    ensures CalculateReputation(s.(wellRatedQuestions := s.wellRatedQuestions + 1)) == CalculateReputation(s) + 10
  {
  }

  /** The level names from the lowest tier to the highest, and the inclusive lower
      bound of each tier. */
  const Tiers: seq<string> := ["Novato", "Iniciante", "Intermediário", "Avançado", "Expert", "Mestre"]
  const Thresholds: seq<nat> := [0, 50, 100, 250, 500, 1000]

  function GetReputationLevel(points: nat): (r: string)
    ensures r in Tiers
  {
    if points >= 1000 then "Mestre"
    else if points >= 500 then "Expert"
    else if points >= 250 then "Avançado"
    else if points >= 100 then "Intermediário"
    else if points >= 50 then "Iniciante"
    else "Novato"
  }

  /** The index of the highest tier whose threshold `points` meets, found by scanning the
      threshold table from the top. */
  function TierIndex(points: nat): (k: nat)
    ensures k < |Tiers| && Thresholds[k] <= points
    ensures k + 1 < |Tiers| ==> points < Thresholds[k + 1]
  {
    TierIndexFrom(points, |Thresholds| - 1)
  }

  function TierIndexFrom(points: nat, k: nat): (r: nat)
    requires k < |Thresholds|
    ensures r <= k && Thresholds[r] <= points
    ensures forall j :: r < j <= k ==> points < Thresholds[j]
  {
    if k == 0 || Thresholds[k] <= points then k else TierIndexFrom(points, k - 1)
  }

  /** The level is the name of the highest tier whose threshold is met, as the tier table
      describes it. */
  lemma {:induction false} LevelIsHighestTierMet(points: nat)
    ensures GetReputationLevel(points) == Tiers[TierIndex(points)]
  {
    var k := TierIndex(points);
    assert Thresholds == [0, 50, 100, 250, 500, 1000];
    if k < 5 { assert points < Thresholds[k + 1]; }
  }

  /** The level boundaries named by the scoring policy. */
  lemma LevelBoundaries()
    ensures GetReputationLevel(0) == "Novato" && GetReputationLevel(49) == "Novato"
    ensures GetReputationLevel(50) == "Iniciante" && GetReputationLevel(99) == "Iniciante"
    ensures GetReputationLevel(100) == "Intermediário" && GetReputationLevel(249) == "Intermediário"
    ensures GetReputationLevel(250) == "Avançado" && GetReputationLevel(499) == "Avançado"
    ensures GetReputationLevel(500) == "Expert" && GetReputationLevel(999) == "Expert"
    ensures GetReputationLevel(1000) == "Mestre"
  {
  }

  /** A higher score never yields a lower tier. */
  lemma {:induction false} LevelMonotone(p: nat, q: nat)
    requires p <= q
    ensures TierIndex(p) <= TierIndex(q)
    ensures GetReputationLevel(p) == Tiers[TierIndex(p)] && GetReputationLevel(q) == Tiers[TierIndex(q)]
  {
    LevelIsHighestTierMet(p);
    LevelIsHighestTierMet(q);
    assert Thresholds == [0, 50, 100, 250, 500, 1000];
  }

  function GetReputationColor(points: nat): (r: string)
    ensures points < 100 <==> r == "text-muted-foreground"
  {
    if points >= 1000 then "text-gold"
    else if points >= 500 then "text-primary"
    else if points >= 250 then "text-blue-500"
    else if points >= 100 then "text-green-500"
    else "text-muted-foreground"
  }

  /** The colour of each tier, lowest first: the two lowest tiers share the muted colour,
      then green, blue, the primary colour and gold. */
  const Colors: seq<string> := ["text-muted-foreground", "text-muted-foreground", "text-green-500", "text-blue-500", "text-primary", "text-gold"]

  /** The colour is the one the colour table gives the highest tier met. */
  lemma {:induction false} ColorIsTierColor(points: nat)
    ensures GetReputationColor(points) == Colors[TierIndex(points)]
  {
    var k := TierIndex(points);
    assert Thresholds == [0, 50, 100, 250, 500, 1000];
    if k < 5 { assert points < Thresholds[k + 1]; }
  }

  /** The colour boundaries named by the scoring policy. */
  lemma ColorBoundaries()
    ensures GetReputationColor(99) == "text-muted-foreground" && GetReputationColor(100) == "text-green-500"
    ensures GetReputationColor(249) == "text-green-500" && GetReputationColor(250) == "text-blue-500"
    ensures GetReputationColor(499) == "text-blue-500" && GetReputationColor(500) == "text-primary"
    ensures GetReputationColor(999) == "text-primary" && GetReputationColor(1000) == "text-gold"
  {
  }

  /** The colour ladder follows the level ladder from Intermediário upwards, while the two
      lowest tiers, Novato and Iniciante, share one colour. */
  lemma {:induction false} ColorFollowsLevel(p: nat, q: nat)
    ensures GetReputationLevel(p) == GetReputationLevel(q) ==> GetReputationColor(p) == GetReputationColor(q)
    ensures p >= 100 && q >= 100 ==> (GetReputationColor(p) == GetReputationColor(q) <==> GetReputationLevel(p) == GetReputationLevel(q))
    ensures p < 100 && q < 100 ==> GetReputationColor(p) == GetReputationColor(q)
  {
  }

  /** A user with 2 accepted answers, 3 helpful votes and 1 well-rated question scores 55
      and is an Iniciante. */
  lemma ExampleScore()
    ensures CalculateReputation(ReputationStats(2, 3, 1)) == 55
    ensures GetReputationLevel(CalculateReputation(ReputationStats(2, 3, 1))) == "Iniciante"
  {
  }
}
