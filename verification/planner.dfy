/** Assembling a quiz from stored questions: the per-difficulty targets
    are filled from the store level by level (Easy, Medium, Hard), either
    all-or-nothing or as far as the stock goes with a note of what is
    missing. Each level's random retrieval uses its own choices. */
module Planner {
  import opened Wrappers
  import opened Distribution
  import opened QuestionStore
  import Sampling

  function Max0(x: int): nat {
    if x > 0 then x else 0
  }

  /** The rows of one level, in order. */
  function OfLevel(rows: seq<Row>, d: Difficulty): (r: seq<Row>)
    ensures |r| <= |rows|
    ensures forall x :: x in r <==> x in rows && x.difficulty == d
  {
    if |rows| == 0 then []
    else (if rows[0].difficulty == d then [rows[0]] else []) + OfLevel(rows[1..], d)
  }

  lemma {:induction false} OfLevelAppend(a: seq<Row>, b: seq<Row>, d: Difficulty)
    ensures OfLevel(a + b, d) == OfLevel(a, d) + OfLevel(b, d)
  {
    if |a| > 0 {
      assert (a + b)[1..] == a[1..] + b;
      OfLevelAppend(a[1..], b, d);
    } else {
      assert a + b == b;
    }
  }

  /** Rows all of level `e` contribute all of themselves to `e` and nothing
      to any other level. */
  lemma {:induction false} OfLevelUniform(rows: seq<Row>, e: Difficulty, d: Difficulty)
    requires forall x :: x in rows ==> x.difficulty == e
    ensures OfLevel(rows, d) == if d == e then rows else []
  {
    if |rows| > 0 {
      var t := rows[1..];
      assert rows[0] in rows;
      forall x | x in t ensures x.difficulty == e {
        assert x in rows;
      }
      OfLevelUniform(t, e, d);
      assert rows == [rows[0]] + t;
    }
  }

  /** How many valid questions of one level the store holds for the
      grade, board and topic. */
  function Available(s: Store, grade: int, board: string, topic: string, d: Difficulty): nat {
    CountQuestions(s, grade, board, topic, Some(Name(d)))
  }

  /** The stock of every level. */
  function Stock(s: Store, grade: int, board: string, topic: string): PerDifficulty<nat> {
    PerDifficulty(Available(s, grade, board, topic, Easy), Available(s, grade, board, topic, Medium),
                  Available(s, grade, board, topic, Hard))
  }

  /** Valid rows of the store with the given grade, board and topic. */
  predicate FromStore(rows: seq<Row>, s: Store, grade: int, board: string, topic: string) {
    forall x :: x in rows ==>
      x in s.rows && x.valid && x.grade == grade && x.board == board && x.topic == topic
  }

  /** What one level contributes: its rows and how many it lacks. */
  datatype Bucket = Bucket(rows: seq<Row>, missing: nat)

  /** A bucket meets a target from a stock of `available` questions: it
      holds as many rows as the target asks for when the stock suffices,
      otherwise the whole stock plus a note of the shortfall. */
  predicate Meets(b: Bucket, target: int, available: nat) {
    && |b.rows| + b.missing == Max0(target)
    && |b.rows| <= available
    && (b.missing > 0 ==> |b.rows| == available)
    && (b.missing == 0 <==> target <= available)
  }

  /** One pass of the loop in `get_partial_questions_and_missing_counts`:
      a positive target is met from stock when there is enough, otherwise
      the whole stock is taken and the shortfall recorded. */
  function Fetch(s: Store, grade: int, board: string, topic: string, d: Difficulty,
                 target: int, choices: seq<nat>): (b: Bucket)
    ensures Meets(b, target, Available(s, grade, board, topic, d))
    ensures forall x :: x in b.rows ==>
              x in s.rows && x.valid && x.grade == grade && x.board == board
              && x.topic == topic && x.difficulty == d
    ensures WellFormed(s) ==> Sampling.Distinct(b.rows)
  {
    if target <= 0 then Bucket([], 0)
    else
      var available := Available(s, grade, board, topic, d);
      var limit := if available >= target then target else available;
      var rows := GetQuestions(s, grade, board, topic, Name(d), Some(limit), Random(choices));
      FetchedRows(s, grade, board, topic, d, limit, choices);
      Bucket(rows, target - limit)
  }

  /** A draw of `limit` rows of level `d`, where `limit` is positive or the
      whole stock, yields exactly `limit` distinct rows of that level. */
  lemma FetchedRows(s: Store, grade: int, board: string, topic: string, d: Difficulty,
                    limit: int, choices: seq<nat>)
    requires 0 <= limit <= Available(s, grade, board, topic, d)
    requires limit > 0 || limit == Available(s, grade, board, topic, d)
    ensures var rows := GetQuestions(s, grade, board, topic, Name(d), Some(limit), Random(choices));
      && |rows| == limit
      && (forall x :: x in rows ==>
            x in s.rows && x.valid && x.grade == grade && x.board == board
            && x.topic == topic && x.difficulty == d)
      && (WellFormed(s) ==> Sampling.Distinct(rows))
  {
    CountIsRetrievalSize(s, grade, board, topic, Name(d));
    var rows := GetQuestions(s, grade, board, topic, Name(d), Some(limit), Random(choices));
    NamesAgree(rows, d);
  }

  /** Rows whose level has the name of `d` are rows of level `d`. */
  lemma NamesAgree(rows: seq<Row>, d: Difficulty)
    requires forall x :: x in rows ==> Name(x.difficulty) == Name(d)
    ensures forall x :: x in rows ==> x.difficulty == d
  {
    forall x | x in rows ensures x.difficulty == d {
      ParseName(x.difficulty);
      ParseName(d);
    }
  }

  /** The three buckets in level order. */
  function Buckets(s: Store, grade: int, board: string, topic: string, mix: Mix, n: int,
                   choices: PerDifficulty<seq<nat>>): (b: PerDifficulty<Bucket>)
    ensures LevelBuckets(b)
    ensures forall d: Difficulty :: Meets(b.At(d), Targets(n, mix).At(d), Stock(s, grade, board, topic).At(d))
    ensures FromStore(b.easy.rows, s, grade, board, topic) && FromStore(b.medium.rows, s, grade, board, topic)
    ensures FromStore(b.hard.rows, s, grade, board, topic)
    ensures WellFormed(s) ==>
              Sampling.Distinct(b.easy.rows) && Sampling.Distinct(b.medium.rows) && Sampling.Distinct(b.hard.rows)
  {
    var t := Targets(n, mix);
    var e := Fetch(s, grade, board, topic, Easy, t.easy, choices.easy);
    var m := Fetch(s, grade, board, topic, Medium, t.medium, choices.medium);
    var h := Fetch(s, grade, board, topic, Hard, t.hard, choices.hard);
    var b := PerDifficulty(e, m, h);
    PerLevel(b, t, Stock(s, grade, board, topic));
    b
  }

  /** A property of each of the three entries is a property of every level. */
  lemma PerLevel(b: PerDifficulty<Bucket>, t: PerDifficulty<int>, stock: PerDifficulty<nat>)
    requires Meets(b.easy, t.easy, stock.easy) && Meets(b.medium, t.medium, stock.medium)
    requires Meets(b.hard, t.hard, stock.hard)
    ensures forall d: Difficulty :: Meets(b.At(d), t.At(d), stock.At(d))
  {
    forall d: Difficulty ensures Meets(b.At(d), t.At(d), stock.At(d)) {
      match d
      case Easy =>
      case Medium =>
      case Hard =>
    }
  }

  function Concat(b: PerDifficulty<Bucket>): seq<Row> {
    b.easy.rows + b.medium.rows + b.hard.rows
  }

  function Shortfalls(b: PerDifficulty<Bucket>): PerDifficulty<nat> {
    PerDifficulty(b.easy.missing, b.medium.missing, b.hard.missing)
  }

  /** Every row of level `d` comes before every row of a later level. */
  predicate LevelOrdered(rows: seq<Row>) {
    forall i, j :: 0 <= i < j < |rows| ==> Rank(rows[i].difficulty) <= Rank(rows[j].difficulty)
  }

  /** The rows and shortfalls meet every level's target from its stock. */
  predicate Fills(rows: seq<Row>, missing: PerDifficulty<nat>, target: PerDifficulty<int>, stock: PerDifficulty<nat>) {
    forall d: Difficulty :: Meets(Bucket(OfLevel(rows, d), missing.At(d)), target.At(d), stock.At(d))
  }

  /** Buckets that meet their targets assemble into rows that fill them. */
  lemma FillsFromBuckets(b: PerDifficulty<Bucket>, target: PerDifficulty<int>, stock: PerDifficulty<nat>)
    requires LevelBuckets(b)
    requires forall d: Difficulty :: Meets(b.At(d), target.At(d), stock.At(d))
    ensures Fills(Concat(b), Shortfalls(b), target, stock)
  {
    Assembled(b);
    forall d: Difficulty ensures Bucket(OfLevel(Concat(b), d), Shortfalls(b).At(d)) == b.At(d) {
    }
  }

  /** `get_partial_questions_and_missing_counts`: the stored questions that
      fill the targets as far as stock allows, and the number still missing
      per level. */
  function PartialAndMissing(s: Store, grade: int, board: string, topic: string, mix: Mix, n: int,
                             choices: PerDifficulty<seq<nat>>): (r: (seq<Row>, PerDifficulty<nat>))
    ensures Fills(r.0, r.1, Targets(n, mix), Stock(s, grade, board, topic))
    ensures FromStore(r.0, s, grade, board, topic)
    ensures LevelOrdered(r.0)
    ensures WellFormed(s) ==> Sampling.Distinct(r.0)
  {
    var b := Buckets(s, grade, board, topic, mix, n, choices);
    Assembled(b);
    FillsFromBuckets(b, Targets(n, mix), Stock(s, grade, board, topic));
    ConcatFromStore(b, s, grade, board, topic);
    (Concat(b), Shortfalls(b))
  }

  /** Rows drawn from the store stay rows of the store when concatenated. */
  lemma ConcatFromStore(b: PerDifficulty<Bucket>, s: Store, grade: int, board: string, topic: string)
    requires FromStore(b.easy.rows, s, grade, board, topic) && FromStore(b.medium.rows, s, grade, board, topic)
    requires FromStore(b.hard.rows, s, grade, board, topic)
    ensures FromStore(Concat(b), s, grade, board, topic)
  {
  }

  /** The buckets of a planner run, each holding rows of its own level. */
  predicate LevelBuckets(b: PerDifficulty<Bucket>) {
    && (forall x :: x in b.easy.rows ==> x.difficulty == Easy)
    && (forall x :: x in b.medium.rows ==> x.difficulty == Medium)
    && (forall x :: x in b.hard.rows ==> x.difficulty == Hard)
  }

  /** Concatenating the buckets keeps each level's rows apart, in level
      order, without repetition. */
  lemma Assembled(b: PerDifficulty<Bucket>)
    requires LevelBuckets(b)
    ensures var rows := b.easy.rows + b.medium.rows + b.hard.rows;
      && (forall d: Difficulty :: OfLevel(rows, d) == b.At(d).rows)
      && LevelOrdered(rows)
      && (Sampling.Distinct(b.easy.rows) && Sampling.Distinct(b.medium.rows) && Sampling.Distinct(b.hard.rows)
          ==> Sampling.Distinct(rows))
  {
    forall d: Difficulty ensures OfLevel(b.easy.rows + b.medium.rows + b.hard.rows, d) == b.At(d).rows {
      AssembledLevel(b, d);
    }
    AssembledOrdered(b);
    AssembledDistinct(b);
  }

  lemma AssembledLevel(b: PerDifficulty<Bucket>, d: Difficulty)
    requires LevelBuckets(b)
    ensures OfLevel(b.easy.rows + b.medium.rows + b.hard.rows, d) == b.At(d).rows
  {
    var e, m, h := b.easy.rows, b.medium.rows, b.hard.rows;
    OfLevelAppend(e + m, h, d);
    OfLevelAppend(e, m, d);
    OfLevelUniform(e, Easy, d);
    OfLevelUniform(m, Medium, d);
    OfLevelUniform(h, Hard, d);
    match d
    case Easy =>
      assert OfLevel(e + m, d) == e + [] == e;
      assert OfLevel(e + m + h, d) == e + [] == e;
    case Medium =>
      assert OfLevel(e + m, d) == [] + m == m;
      assert OfLevel(e + m + h, d) == m + [] == m;
    case Hard =>
      assert OfLevel(e + m, d) == [] + [] == [];
      assert OfLevel(e + m + h, d) == [] + h == h;
  }

  lemma AssembledOrdered(b: PerDifficulty<Bucket>)
    requires LevelBuckets(b)
    ensures LevelOrdered(b.easy.rows + b.medium.rows + b.hard.rows)
  {
    var rows := b.easy.rows + b.medium.rows + b.hard.rows;
    forall i, j | 0 <= i < j < |rows| ensures Rank(rows[i].difficulty) <= Rank(rows[j].difficulty) {
      LevelOfIndex(b, i);
      LevelOfIndex(b, j);
    }
  }

  lemma AssembledDistinct(b: PerDifficulty<Bucket>)
    requires LevelBuckets(b)
    ensures Sampling.Distinct(b.easy.rows) && Sampling.Distinct(b.medium.rows) && Sampling.Distinct(b.hard.rows)
            ==> Sampling.Distinct(b.easy.rows + b.medium.rows + b.hard.rows)
  {
    var rows := b.easy.rows + b.medium.rows + b.hard.rows;
    if Sampling.Distinct(b.easy.rows) && Sampling.Distinct(b.medium.rows) && Sampling.Distinct(b.hard.rows) {
      forall i, j | 0 <= i < j < |rows| ensures rows[i] != rows[j] {
        LevelOfIndex(b, i);
        LevelOfIndex(b, j);
      }
    }
  }

  /** The level of the row at index `i` of the concatenation, read off the
      bucket the index falls in. */
  lemma LevelOfIndex(b: PerDifficulty<Bucket>, i: nat)
    requires LevelBuckets(b)
    requires i < |b.easy.rows + b.medium.rows + b.hard.rows|
    ensures var rows := b.easy.rows + b.medium.rows + b.hard.rows;
      var e, m := |b.easy.rows|, |b.medium.rows|;
      && (i < e ==> rows[i] == b.easy.rows[i] && rows[i].difficulty == Easy)
      && (e <= i < e + m ==> rows[i] == b.medium.rows[i - e] && rows[i].difficulty == Medium)
      && (e + m <= i ==> rows[i] == b.hard.rows[i - e - m] && rows[i].difficulty == Hard)
  {
    var e, m := |b.easy.rows|, |b.medium.rows|;
    if i < e {
      assert b.easy.rows[i] in b.easy.rows;
    } else if i < e + m {
      assert b.medium.rows[i - e] in b.medium.rows;
    } else {
      assert b.hard.rows[i - e - m] in b.hard.rows;
    }
  }

  /** Every positive target is covered by stock. */
  predicate Sufficient(target: PerDifficulty<int>, stock: PerDifficulty<nat>) {
    forall d: Difficulty :: target.At(d) > 0 ==> target.At(d) <= stock.At(d)
  }

  /** Buckets that meet their targets lack nothing exactly when the stock
      suffices. */
  lemma SufficientIffNoShortfall(b: PerDifficulty<Bucket>, target: PerDifficulty<int>, stock: PerDifficulty<nat>)
    requires forall d: Difficulty :: Meets(b.At(d), target.At(d), stock.At(d))
    ensures Sufficient(target, stock) <==> Shortfalls(b) == PerDifficulty(0, 0, 0)
  {
    assert Meets(b.At(Easy), target.At(Easy), stock.At(Easy));
    assert Meets(b.At(Medium), target.At(Medium), stock.At(Medium));
    assert Meets(b.At(Hard), target.At(Hard), stock.At(Hard));
  }

  /** `get_questions_by_difficulty_distribution`: the full quiz when every
      level can be filled, otherwise nothing. */
  function ByDistribution(s: Store, grade: int, board: string, topic: string, mix: Mix, n: int,
                          choices: PerDifficulty<seq<nat>>): (r: seq<Row>)
    ensures !Sufficient(Targets(n, mix), Stock(s, grade, board, topic)) ==> r == []
    ensures Sufficient(Targets(n, mix), Stock(s, grade, board, topic)) ==>
              Fills(r, PerDifficulty(0, 0, 0), Targets(n, mix), Stock(s, grade, board, topic))
    ensures FromStore(r, s, grade, board, topic)
    ensures LevelOrdered(r)
    ensures WellFormed(s) ==> Sampling.Distinct(r)
  {
    var b := Buckets(s, grade, board, topic, mix, n, choices);
    SufficientIffNoShortfall(b, Targets(n, mix), Stock(s, grade, board, topic));
    if Shortfalls(b) != PerDifficulty(0, 0, 0) then []
    else
      Assembled(b);
      FillsFromBuckets(b, Targets(n, mix), Stock(s, grade, board, topic));
      ConcatFromStore(b, s, grade, board, topic);
      Concat(b)
  }

  /** With enough stock the two retrievals agree and nothing is missing;
      otherwise some level reports a shortfall. */
  lemma ByDistributionIsPartial(s: Store, grade: int, board: string, topic: string, mix: Mix, n: int,
                                choices: PerDifficulty<seq<nat>>)
    ensures var (rows, missing) := PartialAndMissing(s, grade, board, topic, mix, n, choices);
      && (Sufficient(Targets(n, mix), Stock(s, grade, board, topic)) <==> missing == PerDifficulty(0, 0, 0))
      && (Sufficient(Targets(n, mix), Stock(s, grade, board, topic))
          ==> ByDistribution(s, grade, board, topic, mix, n, choices) == rows)
  {
    var b := Buckets(s, grade, board, topic, mix, n, choices);
    SufficientIffNoShortfall(b, Targets(n, mix), Stock(s, grade, board, topic));
  }

  /** Every row belongs to exactly one level. */
  lemma {:induction false} LevelsCover(rows: seq<Row>)
    ensures |rows| == |OfLevel(rows, Easy)| + |OfLevel(rows, Medium)| + |OfLevel(rows, Hard)|
  {
    if |rows| > 0 {
      LevelsCover(rows[1..]);
    }
  }

  /** Rows that fill non-negative targets, together with the shortfalls,
      account for the whole request. */
  lemma FillsTotal(rows: seq<Row>, missing: PerDifficulty<nat>, target: PerDifficulty<int>, stock: PerDifficulty<nat>)
    requires Fills(rows, missing, target, stock)
    requires target.easy >= 0 && target.medium >= 0 && target.hard >= 0
    ensures |rows| + missing.easy + missing.medium + missing.hard == Total(target)
  {
    LevelsCover(rows);
    assert Meets(Bucket(OfLevel(rows, Easy), missing.At(Easy)), target.At(Easy), stock.At(Easy));
    assert Meets(Bucket(OfLevel(rows, Medium), missing.At(Medium)), target.At(Medium), stock.At(Medium));
    assert Meets(Bucket(OfLevel(rows, Hard), missing.At(Hard)), target.At(Hard), stock.At(Hard));
  }

  /** When every target is non-negative, the questions found and the
      questions missing add up to the requested number. */
  lemma FoundPlusMissing(s: Store, grade: int, board: string, topic: string, mix: Mix, n: int,
                         choices: PerDifficulty<seq<nat>>)
    requires n >= 0 && mix.easyPct >= 0 && mix.mediumPct >= 0 && mix.easyPct + mix.mediumPct <= 100
    ensures var (rows, missing) := PartialAndMissing(s, grade, board, topic, mix, n, choices);
      |rows| + missing.easy + missing.medium + missing.hard == n
  {
    var (rows, missing) := PartialAndMissing(s, grade, board, topic, mix, n, choices);
    HardNonNegative(n, mix);
    FillsTotal(rows, missing, Targets(n, mix), Stock(s, grade, board, topic));
  }

  /** Ten questions at 50/30/20 from a store holding 5 Easy, 3 Medium and
      no Hard questions: eight are found and two Hard ones are missing. */
  lemma PartialScenario(s: Store, grade: int, board: string, topic: string, choices: PerDifficulty<seq<nat>>)
    requires Stock(s, grade, board, topic) == PerDifficulty(5, 3, 0)
    ensures var (rows, missing) := PartialAndMissing(s, grade, board, topic, Mix(50, 30, 20), 10, choices);
      |rows| == 8 && missing == PerDifficulty(0, 0, 2)
      && |OfLevel(rows, Easy)| == 5 && |OfLevel(rows, Medium)| == 3 && |OfLevel(rows, Hard)| == 0
  {
    var (rows, missing) := PartialAndMissing(s, grade, board, topic, Mix(50, 30, 20), 10, choices);
    var target := Targets(10, Mix(50, 30, 20));
    assert target == PerDifficulty(5, 3, 2);
    ScenarioCounts(rows, missing, target, PerDifficulty(5, 3, 0));
  }

  lemma ScenarioCounts(rows: seq<Row>, missing: PerDifficulty<nat>, target: PerDifficulty<int>, stock: PerDifficulty<nat>)
    requires Fills(rows, missing, target, stock)
    requires target == PerDifficulty(5, 3, 2) && stock == PerDifficulty(5, 3, 0)
    ensures |rows| == 8 && missing == PerDifficulty(0, 0, 2)
    ensures |OfLevel(rows, Easy)| == 5 && |OfLevel(rows, Medium)| == 3 && |OfLevel(rows, Hard)| == 0
  {
    FillsTotal(rows, missing, target, stock);
    assert Meets(Bucket(OfLevel(rows, Easy), missing.At(Easy)), target.At(Easy), stock.At(Easy));
    assert Meets(Bucket(OfLevel(rows, Medium), missing.At(Medium)), target.At(Medium), stock.At(Medium));
    assert Meets(Bucket(OfLevel(rows, Hard), missing.At(Hard)), target.At(Hard), stock.At(Hard));
  }

  /** With enough stock and non-negative targets the all-or-nothing
      retrieval returns exactly the requested number of questions. */
  lemma ByDistributionTotal(s: Store, grade: int, board: string, topic: string, mix: Mix, n: int,
                            choices: PerDifficulty<seq<nat>>)
    requires n >= 0 && mix.easyPct >= 0 && mix.mediumPct >= 0 && mix.easyPct + mix.mediumPct <= 100
    requires Sufficient(Targets(n, mix), Stock(s, grade, board, topic))
    ensures |ByDistribution(s, grade, board, topic, mix, n, choices)| == n
  {
    HardNonNegative(n, mix);
    FillsTotal(ByDistribution(s, grade, board, topic, mix, n, choices), PerDifficulty(0, 0, 0),
               Targets(n, mix), Stock(s, grade, board, topic));
  }

  /** Ten questions at 50/30/20 from a store holding 5 Easy, 3 Medium and
      2 Hard questions: all ten come back, five, three and two per level. */
  lemma FullScenario(s: Store, grade: int, board: string, topic: string, choices: PerDifficulty<seq<nat>>)
    requires Stock(s, grade, board, topic) == PerDifficulty(5, 3, 2)
    ensures var r := ByDistribution(s, grade, board, topic, Mix(50, 30, 20), 10, choices);
      |r| == 10 && |OfLevel(r, Easy)| == 5 && |OfLevel(r, Medium)| == 3 && |OfLevel(r, Hard)| == 2
  {
    var r := ByDistribution(s, grade, board, topic, Mix(50, 30, 20), 10, choices);
    var target := Targets(10, Mix(50, 30, 20));
    assert target == PerDifficulty(5, 3, 2);
    assert Sufficient(target, PerDifficulty(5, 3, 2));
    ByDistributionTotal(s, grade, board, topic, Mix(50, 30, 20), 10, choices);
    FullCounts(r, target, PerDifficulty(5, 3, 2));
  }

  lemma FullCounts(r: seq<Row>, target: PerDifficulty<int>, stock: PerDifficulty<nat>)
    requires Fills(r, PerDifficulty(0, 0, 0), target, stock) && target == PerDifficulty(5, 3, 2)
    ensures |OfLevel(r, Easy)| == 5 && |OfLevel(r, Medium)| == 3 && |OfLevel(r, Hard)| == 2
  {
    assert Meets(Bucket(OfLevel(r, Easy), 0), target.At(Easy), stock.At(Easy));
    assert Meets(Bucket(OfLevel(r, Medium), 0), target.At(Medium), stock.At(Medium));
    assert Meets(Bucket(OfLevel(r, Hard), 0), target.At(Hard), stock.At(Hard));
  }

  /** Ten questions at 50/30/20 from a store holding 2 Easy and 1 Medium
      question: the all-or-nothing retrieval returns nothing. */
  lemma InsufficientScenario(s: Store, grade: int, board: string, topic: string, choices: PerDifficulty<seq<nat>>)
    requires Stock(s, grade, board, topic).easy == 2 && Stock(s, grade, board, topic).medium == 1
    ensures ByDistribution(s, grade, board, topic, Mix(50, 30, 20), 10, choices) == []
  {
    assert Targets(10, Mix(50, 30, 20)).At(Easy) == 5;
  }
}
