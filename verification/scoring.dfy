/** Scoring a finished quiz: every question is worth the points of its
    difficulty, a correct answer earns them, and the review screen shows
    the earned points against the total possible. */
module Scoring {
  import opened Wrappers
  import Json
  import Distribution
  import opened Generation

  /** The `SCORING` table. */
  function LevelPoints(d: Distribution.Difficulty): (p: nat) {
    match d
    case Easy => 1
    case Medium => 2
    case Hard => 4
  }

  /** A quiz question as the quiz screens use it: an object with an
      integer answer index, which is what `GenerateQuestions` returns. */
  predicate Gradable(q: Json.Value) {
    AnswerOf(q).Some?
  }

  predicate Quiz(qs: seq<Json.Value>) {
    forall i :: 0 <= i < |qs| ==> Gradable(qs[i])
  }

  /** Every list `GenerateQuestions` returns can be scored. */
  lemma GeneratedIsQuiz(apiKeySet: bool, n: int, reply: Reply, decode: string -> Option<Json.Value>)
    ensures Quiz(GenerateQuestions(apiKeySet, n, reply, decode))
  {
  }

  /** `SCORING.get(q.get("difficulty", "Easy"), 1)`: a question without a
      difficulty counts as Easy, one with an unknown difficulty scores 1. */
  function Weight(q: Json.Value): (w: nat)
    requires Gradable(q)
    ensures 1 <= w <= 4
  {
    match Json.Get(q.fields, "difficulty")
    case None => LevelPoints(Distribution.Easy)
    case Some(Str(s)) =>
      (match Distribution.ParseDifficulty(s)
       case Some(d) => LevelPoints(d)
       case None => 1)
    case Some(_) => 1
  }

  /** A question whose difficulty names a level is worth that level's
      points; one without a difficulty is worth one point, like Easy, and
      so is one whose difficulty is anything else. */
  lemma WeightOfLevel(q: Json.Value, d: Distribution.Difficulty)
    requires Gradable(q)
    ensures Json.Get(q.fields, "difficulty") == Some(Json.Str(Distribution.Name(d))) ==> Weight(q) == LevelPoints(d)
    ensures Json.Get(q.fields, "difficulty").None? ==> Weight(q) == 1
    ensures Json.Get(q.fields, "difficulty").Some?
            && (forall e: Distribution.Difficulty :: Json.Get(q.fields, "difficulty") != Some(Json.Str(Distribution.Name(e))))
            ==> Weight(q) == 1
  {
    Distribution.ParseName(d);
  }

  /** The points one answer earns: the question's weight when the answer
      is the correct index, otherwise nothing. */
  function Points(q: Json.Value, answer: int): (p: nat)
    requires Gradable(q)
    ensures p > 0 <==> answer == AnswerOf(q).value
    ensures p == 0 || p == Weight(q)
  {
    if answer == AnswerOf(q).value then Weight(q) else 0
  }

  /** The most a quiz can score. */
  function TotalPossible(qs: seq<Json.Value>): (t: nat)
    requires Quiz(qs)
    ensures |qs| <= t <= 4 * |qs|
  {
    if |qs| == 0 then 0 else Weight(qs[0]) + TotalPossible(qs[1..])
  }

  /** The earned points, pairing questions with answers as `zip` does. */
  function Score(qs: seq<Json.Value>, answers: seq<int>): (s: nat)
    requires Quiz(qs)
    ensures s <= TotalPossible(qs)
  {
    if |qs| == 0 || |answers| == 0 then 0
    else Points(qs[0], answers[0]) + Score(qs[1..], answers[1..])
  }

  /** Every answer is the correct index of its question. */
  predicate AllCorrect(qs: seq<Json.Value>, answers: seq<int>)
    requires Quiz(qs) && |answers| == |qs|
  {
    forall i :: 0 <= i < |qs| ==> answers[i] == AnswerOf(qs[i]).value
  }

  /** With one answer per question, the score reaches the total exactly
      when every answer is correct. */
  lemma {:induction false} PerfectScore(qs: seq<Json.Value>, answers: seq<int>)
    requires Quiz(qs) && |answers| == |qs|
    ensures Score(qs, answers) == TotalPossible(qs) <==> AllCorrect(qs, answers)
  {
    if |qs| > 0 {
      PerfectScore(qs[1..], answers[1..]);
      assert forall i :: 1 <= i < |qs| ==> qs[i] == qs[1..][i - 1] && answers[i] == answers[1..][i - 1];
      if AllCorrect(qs[1..], answers[1..]) && answers[0] == AnswerOf(qs[0]).value {
        assert AllCorrect(qs, answers);
      }
    }
  }

  /** Answering every question wrongly scores nothing. */
  lemma {:induction false} AllWrongScoresZero(qs: seq<Json.Value>, answers: seq<int>)
    requires Quiz(qs)
    requires forall i :: 0 <= i < |qs| && i < |answers| ==> answers[i] != AnswerOf(qs[i]).value
    ensures Score(qs, answers) == 0
  {
    if |qs| > 0 && |answers| > 0 {
      assert forall i :: 1 <= i < |qs| && i < |answers| ==> qs[i] == qs[1..][i - 1] && answers[i] == answers[1..][i - 1];
      AllWrongScoresZero(qs[1..], answers[1..]);
    }
  }

  function Question(answer: int, difficulty: string): Json.Value {
    Json.Obj(map["question" := Json.Str("Q"), AnswerKey := Json.Num(answer), "difficulty" := Json.Str(difficulty)])
  }

  /** An Easy, a Medium and a Hard question, all answered correctly,
      score 1 + 2 + 4 = 7. */
  lemma AllLevelsCorrect()
    ensures var qs := [Question(0, "Easy"), Question(1, "Medium"), Question(2, "Hard")];
      Quiz(qs) && Score(qs, [0, 1, 2]) == 7 && TotalPossible(qs) == 7
  {
    var qs := [Question(0, "Easy"), Question(1, "Medium"), Question(2, "Hard")];
    assert qs[1..] == [Question(1, "Medium"), Question(2, "Hard")];
    assert qs[2..] == [Question(2, "Hard")];
    assert [0, 1, 2][1..] == [1, 2];
    assert [1, 2][1..] == [2];
  }

  /** The running score kept while the quiz is taken: moving past a
      question adds its weight whether the answer was right or wrong, so
      once every question is answered it is the total possible. */
  function SessionScore(qs: seq<Json.Value>, answers: seq<int>): (s: nat)
    requires Quiz(qs)
    ensures |answers| >= |qs| ==> s == TotalPossible(qs)
  {
    if |qs| == 0 || |answers| == 0 then 0
    else Weight(qs[0]) + SessionScore(qs[1..], answers[1..])
  }

  /** One Easy question answered wrongly: the review earns 0 points while
      the running score shows 1. */
  lemma SessionScoreCountsWrongAnswer()
    ensures Quiz([Question(0, "Easy")])
    ensures SessionScore([Question(0, "Easy")], [1]) == 1
    ensures Score([Question(0, "Easy")], [1]) == 0
  {
    assert [Question(0, "Easy")][1..] == [];
  }
}
