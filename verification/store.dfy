/** The `questions` table and the operations of the question database:
    insert-if-absent, counting and retrieval of valid questions, the
    one-way valid-to-invalid transition and the report of invalid
    questions. The table is a sequence of rows in insertion (id) order;
    rows are never removed. */
module QuestionStore {
  import opened Wrappers
  import Json
  import opened Distribution
  import Sampling
  import Sorting

  /** One row of the table. `valid` is the `is_valid` column (1 or 0);
      `reportedAt` is `NULL` until the question is reported. Timestamps
      are readings of a logical clock supplied by the caller. */
  datatype Row = Row(
    id: nat,
    grade: int,
    board: string,
    topic: string,
    difficulty: Difficulty,
    question: string,
    options: Json.Value,
    correctAnswer: int,
    valid: bool,
    reportedAt: Option<nat>,
    createdAt: nat)

  /** The `UNIQUE(grade, board, topic, question)` key. */
  datatype Key = Key(grade: int, board: string, topic: string, question: string)

  function KeyOf(r: Row): Key {
    Key(r.grade, r.board, r.topic, r.question)
  }

  /** The table and the next `AUTOINCREMENT` id. */
  datatype Store = Store(rows: seq<Row>, nextId: nat)

  /** The freshly initialised, empty table. */
  const Empty: Store := Store([], 1)

  /** The column `CHECK`s plus the link between the validity flag and the
      report timestamp. */
  predicate RowChecks(r: Row) {
    0 <= r.correctAnswer <= 3 && (r.valid <==> r.reportedAt.None?)
  }

  predicate UniqueKeys(rows: seq<Row>) {
    forall i, j :: 0 <= i < j < |rows| ==> KeyOf(rows[i]) != KeyOf(rows[j])
  }

  predicate IdsIncreasing(rows: seq<Row>) {
    forall i, j :: 0 <= i < j < |rows| ==> rows[i].id < rows[j].id
  }

  /** The table invariant: unique keys, ids in insertion order and below
      the next id, and every row within the column checks. */
  predicate WellFormed(s: Store) {
    && UniqueKeys(s.rows)
    && IdsIncreasing(s.rows)
    && s.nextId >= 1
    && (forall i :: 0 <= i < |s.rows| ==> 1 <= s.rows[i].id < s.nextId && RowChecks(s.rows[i]))
  }

  lemma EmptyWellFormed()
    ensures WellFormed(Empty)
  {
  }

  predicate HasKey(rows: seq<Row>, k: Key) {
    exists i :: 0 <= i < |rows| && KeyOf(rows[i]) == k
  }

  // ---------------------------------------------------------------------
  // Filters

  /** A `WHERE` clause: each present component must match, and the row's
      validity must equal `valid`. */
  datatype Filter = Filter(
    grade: Option<int>,
    board: Option<string>,
    topic: Option<string>,
    difficulty: Option<string>,
    valid: bool)

  predicate Matches(f: Filter, r: Row) {
    && (f.grade.None? || r.grade == f.grade.value)
    && (f.board.None? || r.board == f.board.value)
    && (f.topic.None? || r.topic == f.topic.value)
    && (f.difficulty.None? || Name(r.difficulty) == f.difficulty.value)
    && r.valid == f.valid
  }

  /** The rows a `WHERE` clause selects, in table order. */
  function Select(rows: seq<Row>, f: Filter): (r: seq<Row>)
    ensures |r| <= |rows|
    ensures forall x :: x in r <==> x in rows && Matches(f, x)
    ensures multiset(r) <= multiset(rows)
    ensures IdsIncreasing(rows) ==> IdsIncreasing(r)
  {
    if |rows| == 0 then []
    else
      var tail := Select(rows[1..], f);
      assert rows == [rows[0]] + rows[1..];
      SelectHeadFirst(rows, tail);
      (if Matches(f, rows[0]) then [rows[0]] else []) + tail
  }

  /** The first row keeps its place ahead of rows selected after it. */
  lemma SelectHeadFirst(rows: seq<Row>, tail: seq<Row>)
    requires |rows| > 0
    requires forall x :: x in tail ==> x in rows[1..]
    requires IdsIncreasing(rows) ==> IdsIncreasing(tail)
    ensures IdsIncreasing(rows) ==> IdsIncreasing([rows[0]] + tail)
  {
    if IdsIncreasing(rows) {
      var r := [rows[0]] + tail;
      forall i, j | 0 <= i < j < |r| ensures r[i].id < r[j].id {
        if i == 0 {
          assert r[j] in rows[1..];
          var k :| 0 <= k < |rows[1..]| && rows[1..][k] == r[j];
          assert rows[k + 1] == r[j];
        } else {
          assert r[i] == tail[i - 1] && r[j] == tail[j - 1];
        }
      }
    }
  }

  /** The number of rows a filter matches. */
  function Tally(rows: seq<Row>, f: Filter): nat {
    if |rows| == 0 then 0 else (if Matches(f, rows[0]) then 1 else 0) + Tally(rows[1..], f)
  }

  lemma {:induction false} TallyIsSelectSize(rows: seq<Row>, f: Filter)
    ensures |Select(rows, f)| == Tally(rows, f)
  {
    if |rows| > 0 {
      TallyIsSelectSize(rows[1..], f);
    }
  }

  /** Replacing one row changes a count by what the old and new row
      contribute. */
  lemma SelectUpdate(rows: seq<Row>, k: nat, x: Row, f: Filter)
    requires k < |rows|
    ensures |Select(rows[k := x], f)|
            == |Select(rows, f)| - (if Matches(f, rows[k]) then 1 else 0) + (if Matches(f, x) then 1 else 0)
  {
    TallyIsSelectSize(rows, f);
    TallyIsSelectSize(rows[k := x], f);
    TallyUpdate(rows, k, x, f);
  }

  lemma {:induction false} TallyUpdate(rows: seq<Row>, k: nat, x: Row, f: Filter)
    requires k < |rows|
    ensures Tally(rows[k := x], f)
            == Tally(rows, f) - (if Matches(f, rows[k]) then 1 else 0) + (if Matches(f, x) then 1 else 0)
  {
    var u := rows[k := x];
    if k == 0 {
      assert u[1..] == rows[1..];
    } else {
      assert u[0] == rows[0];
      assert u[1..] == rows[1..][k - 1 := x];
      TallyUpdate(rows[1..], k - 1, x, f);
    }
  }

  // ---------------------------------------------------------------------
  // save_questions

  /** The columns a question record supplies, after defaults and `int()`. */
  datatype Candidate = Candidate(
    difficulty: Difficulty,
    question: string,
    options: Json.Value,
    correctAnswer: int)

  /** `q.get("difficulty", "Easy")` as the `CHECK` and `NOT NULL`
      constraints see it: only the three level names are admitted. */
  function DifficultyField(fields: map<string, Json.Value>): Option<Difficulty> {
    match Json.Get(fields, "difficulty")
    case None => Some(Easy)
    case Some(Str(s)) => ParseDifficulty(s)
    case Some(_) => None
  }

  /** `q.get("question", "")`: a string, `""` when absent. */
  function QuestionField(fields: map<string, Json.Value>): Option<string> {
    match Json.Get(fields, "question")
    case None => Some("")
    case Some(Str(s)) => Some(s)
    case Some(_) => None
  }

  /** `int(q.get("correct_answer", 0))`. */
  function AnswerField(fields: map<string, Json.Value>): Option<int> {
    match Json.Get(fields, "correct_answer")
    case None => Some(0)
    case Some(v) => Json.ToInt(v)
  }

  /** `q.get("options", [])`. */
  function OptionsField(fields: map<string, Json.Value>): Json.Value {
    Json.Get(fields, "options").GetOr(Json.Arr([]))
  }

  /** The row contents a record yields, or `None` when inserting it raises
      or is ignored for violating a column constraint. */
  function ToCandidate(q: Json.Value): (r: Option<Candidate>)
    ensures r.Some? ==> q.Obj? && 0 <= r.value.correctAnswer <= 3
    ensures r.Some? ==> r.value.options == OptionsField(q.fields)
    ensures r.Some? <==>
      q.Obj? && DifficultyField(q.fields).Some? && QuestionField(q.fields).Some?
      && AnswerField(q.fields).Some? && 0 <= AnswerField(q.fields).value <= 3
    ensures r.Some? ==>
      if "question" in q.fields then q.fields["question"] == Json.Str(r.value.question)
      else r.value.question == ""
    ensures r.Some? ==>
      if "difficulty" in q.fields then q.fields["difficulty"] == Json.Str(Name(r.value.difficulty))
      else r.value.difficulty == Easy
    ensures r.Some? ==>
      if "correct_answer" in q.fields then Json.ToInt(q.fields["correct_answer"]) == Some(r.value.correctAnswer)
      else r.value.correctAnswer == 0
    ensures q.Obj? && "correct_answer" in q.fields && q.fields["correct_answer"].Num? && r.Some? ==>
      r.value.correctAnswer == q.fields["correct_answer"].n
  {
    match q
    case Obj(fields) =>
      var d := DifficultyField(fields);
      var text := QuestionField(fields);
      var answer := AnswerField(fields);
      if d.Some? && text.Some? && answer.Some? && 0 <= answer.value <= 3 then
        Some(Candidate(d.value, text.value, OptionsField(fields), answer.value))
      else None
    case _ => None
  }

  /** A record without `difficulty`, `question` and `correct_answer` keys
      is stored as an Easy question with empty text and answer 0. */
  lemma MissingFieldsDefault(fields: map<string, Json.Value>)
    requires "difficulty" !in fields && "question" !in fields && "correct_answer" !in fields
    ensures ToCandidate(Json.Obj(fields)) == Some(Candidate(Easy, "", OptionsField(fields), 0))
  {
  }

  /** A record whose difficulty is not one of the three names, or whose
      answer is an integer outside 0..3, is rejected. */
  lemma ConstraintViolationsRejected(fields: map<string, Json.Value>)
    ensures "difficulty" in fields && fields["difficulty"].Str?
            && ParseDifficulty(fields["difficulty"].s).None?
            ==> ToCandidate(Json.Obj(fields)).None?
    ensures "correct_answer" in fields && fields["correct_answer"].Num?
            && !(0 <= fields["correct_answer"].n <= 3)
            ==> ToCandidate(Json.Obj(fields)).None?
  {
  }

  /** The row a fresh insert adds. */
  function NewRow(s: Store, c: Candidate, grade: int, board: string, topic: string, now: nat): Row {
    Row(s.nextId, grade, board, topic, c.difficulty, c.question, c.options, c.correctAnswer,
        true, None, now)
  }

  /** One `INSERT OR IGNORE`: returns the new table and whether a row was
      added. */
  function SaveOne(s: Store, q: Json.Value, grade: int, board: string, topic: string, now: nat)
    : (r: (Store, bool))
    ensures !r.1 ==> r.0 == s
    ensures r.1 <==> (ToCandidate(q).Some?
                     && !HasKey(s.rows, Key(grade, board, topic, ToCandidate(q).value.question)))
    ensures r.1 ==> r.0 == Store(s.rows + [NewRow(s, ToCandidate(q).value, grade, board, topic, now)], s.nextId + 1)
    ensures WellFormed(s) ==> WellFormed(r.0)
  {
    match ToCandidate(q)
    case None => (s, false)
    case Some(c) =>
      if HasKey(s.rows, Key(grade, board, topic, c.question)) then (s, false)
      else
        var s' := Store(s.rows + [NewRow(s, c, grade, board, topic, now)], s.nextId + 1);
        AppendWellFormed(s, NewRow(s, c, grade, board, topic, now));
        (s', true)
  }

  /** Appending a row with a fresh key and the next id keeps the invariant. */
  lemma AppendWellFormed(s: Store, x: Row)
    requires !HasKey(s.rows, KeyOf(x)) && x.id == s.nextId && RowChecks(x)
    ensures WellFormed(s) ==> WellFormed(Store(s.rows + [x], s.nextId + 1))
  {
    if WellFormed(s) {
      var rows := s.rows + [x];
      forall i, j | 0 <= i < j < |rows| ensures KeyOf(rows[i]) != KeyOf(rows[j]) {
        if j == |s.rows| {
          assert rows[i] == s.rows[i];
        }
      }
    }
  }

  datatype SaveResult = SaveResult(store: Store, saved: nat, skipped: nat)

  /** `save_questions`: inserts each record unless it is rejected or its
      key is already present, counting the inserted and the skipped ones. */
  function SaveQuestions(s: Store, qs: seq<Json.Value>, grade: int, board: string, topic: string, now: nat)
    : (r: SaveResult)
    decreases |qs|
    ensures r.saved + r.skipped == |qs|
    ensures |r.store.rows| == |s.rows| + r.saved
    ensures r.store.rows[..|s.rows|] == s.rows
    ensures r.store.nextId == s.nextId + r.saved
    ensures Stamped(r.store.rows, |s.rows|, grade, board, topic, now)
    ensures forall k :: HasKey(s.rows, k) ==> HasKey(r.store.rows, k)
    ensures forall j :: 0 <= j < |qs| && ToCandidate(qs[j]).Some? ==>
              HasKey(r.store.rows, Key(grade, board, topic, ToCandidate(qs[j]).value.question))
    ensures WellFormed(s) ==> WellFormed(r.store)
    ensures AllFromBatch(r.store.rows, |s.rows|, qs)
    ensures (forall j :: 0 <= j < |qs| ==> ToCandidate(qs[j]).None?) ==> r.saved == 0
  {
    if |qs| == 0 then SaveResult(s, 0, 0)
    else
      var (s1, added) := SaveOne(s, qs[0], grade, board, topic, now);
      var rest := SaveQuestions(s1, qs[1..], grade, board, topic, now);
      SaveKeepsKeys(s, s1, rest.store, qs[0], grade, board, topic, now);
      assert forall j :: 1 <= j < |qs| ==> qs[j] == qs[1..][j - 1];
      NewRowsFromBatch(s, s1, rest.store, qs, grade, board, topic, now);
      NewRowsStamped(s, s1, rest.store, qs[0], grade, board, topic, now);
      SaveResult(rest.store, rest.saved + (if added then 1 else 0), rest.skipped + (if added then 0 else 1))
  }

  /** Every row from index `from` on carries the call's grade, board,
      topic and time, and is valid and unreported. */
  predicate Stamped(rows: seq<Row>, from: nat, grade: int, board: string, topic: string, now: nat) {
    forall i :: from <= i < |rows| ==>
      rows[i].grade == grade && rows[i].board == board && rows[i].topic == topic
      && rows[i].valid && rows[i].reportedAt.None? && rows[i].createdAt == now
  }

  /** Every row from index `from` on holds what a record of `qs` supplies. */
  predicate AllFromBatch(rows: seq<Row>, from: nat, qs: seq<Json.Value>) {
    forall i :: from <= i < |rows| ==> FromBatch(rows[i], qs)
  }

  /** The row added for the first record, if any, is stamped like the rows
      added for the rest of the batch. */
  lemma NewRowsStamped(s: Store, s1: Store, s2: Store, q: Json.Value,
                       grade: int, board: string, topic: string, now: nat)
    requires s1 == SaveOne(s, q, grade, board, topic, now).0
    requires |s1.rows| <= |s2.rows| && s2.rows[..|s1.rows|] == s1.rows
    requires Stamped(s2.rows, |s1.rows|, grade, board, topic, now)
    ensures Stamped(s2.rows, |s.rows|, grade, board, topic, now)
  {
    forall i | |s.rows| <= i < |s1.rows| ensures s2.rows[i] == s1.rows[i] == NewRow(s, ToCandidate(q).value, grade, board, topic, now) {
      assert s1 != s;
    }
  }

  /** The columns of a stored row that come from its record. */
  function ContentOf(x: Row): Candidate {
    Candidate(x.difficulty, x.question, x.options, x.correctAnswer)
  }

  /** `x` holds exactly what some accepted record of `qs` supplies. */
  predicate FromBatch(x: Row, qs: seq<Json.Value>) {
    exists j :: 0 <= j < |qs| && ToCandidate(qs[j]) == Some(ContentOf(x))
  }

  /** Rows added for the first record or for the rest of the batch carry
      the contents of a record of the batch. */
  lemma NewRowsFromBatch(s: Store, s1: Store, s2: Store, qs: seq<Json.Value>,
                         grade: int, board: string, topic: string, now: nat)
    requires |qs| > 0 && s1 == SaveOne(s, qs[0], grade, board, topic, now).0
    requires |s1.rows| <= |s2.rows|
    requires AllFromBatch(s2.rows, |s1.rows|, qs[1..])
    requires s2.rows[..|s1.rows|] == s1.rows
    ensures AllFromBatch(s2.rows, |s.rows|, qs)
  {
    forall i | |s.rows| <= i < |s2.rows| ensures FromBatch(s2.rows[i], qs) {
      if i < |s1.rows| {
        assert s1 != s;
        assert s2.rows[i] == s1.rows[i] == NewRow(s, ToCandidate(qs[0]).value, grade, board, topic, now);
        assert ToCandidate(qs[0]) == Some(ContentOf(s2.rows[i]));
      } else {
        var j :| 0 <= j < |qs[1..]| && ToCandidate(qs[1..][j]) == Some(ContentOf(s2.rows[i]));
        assert qs[1..][j] == qs[j + 1];
      }
    }
  }

  /** Keys survive later inserts, and the first record's key is present
      after its own insert (it was added or already there). */
  lemma SaveKeepsKeys(s: Store, s1: Store, s2: Store, q: Json.Value,
                      grade: int, board: string, topic: string, now: nat)
    requires s1 == SaveOne(s, q, grade, board, topic, now).0
    requires |s1.rows| <= |s2.rows| && s2.rows[..|s1.rows|] == s1.rows
    ensures forall k :: HasKey(s.rows, k) ==> HasKey(s2.rows, k)
    ensures ToCandidate(q).Some? ==> HasKey(s2.rows, Key(grade, board, topic, ToCandidate(q).value.question))
    ensures |s.rows| <= |s2.rows| && s2.rows[..|s.rows|] == s.rows
  {
    assert |s.rows| <= |s1.rows| && s1.rows[..|s.rows|] == s.rows;
    forall k | HasKey(s1.rows, k) ensures HasKey(s2.rows, k) {
      var i :| 0 <= i < |s1.rows| && KeyOf(s1.rows[i]) == k;
      assert s2.rows[i] == s1.rows[i];
    }
    forall k | HasKey(s.rows, k) ensures HasKey(s1.rows, k) {
      var i :| 0 <= i < |s.rows| && KeyOf(s.rows[i]) == k;
      assert s1.rows[i] == s.rows[i];
    }
    if ToCandidate(q).Some? && s1 != s {
      assert KeyOf(s1.rows[|s.rows|]) == Key(grade, board, topic, ToCandidate(q).value.question);
    }
  }

  /** Saving a batch is saving its first part and then its second part
      into the table that results: the records go in one after another,
      in batch order, and the counts add up. */
  lemma {:induction false} SaveConcat(s: Store, a: seq<Json.Value>, b: seq<Json.Value>,
                                      grade: int, board: string, topic: string, now: nat)
    decreases |a|
    ensures var x := SaveQuestions(s, a, grade, board, topic, now);
      var y := SaveQuestions(x.store, b, grade, board, topic, now);
      SaveQuestions(s, a + b, grade, board, topic, now)
        == SaveResult(y.store, x.saved + y.saved, x.skipped + y.skipped)
  {
    if |a| == 0 {
      assert a + b == b;
    } else {
      assert (a + b)[0] == a[0];
      assert (a + b)[1..] == a[1..] + b;
      var s1 := SaveOne(s, a[0], grade, board, topic, now).0;
      SaveConcat(s1, a[1..], b, grade, board, topic, now);
    }
  }

  /** A batch of one record is one `INSERT OR IGNORE`. */
  lemma SaveSingle(s: Store, q: Json.Value, grade: int, board: string, topic: string, now: nat)
    ensures var (s1, added) := SaveOne(s, q, grade, board, topic, now);
      SaveQuestions(s, [q], grade, board, topic, now)
        == SaveResult(s1, if added then 1 else 0, if added then 0 else 1)
  {
    assert [q][1..] == [];
  }

  /** Of two records with the same question in one batch, the first is
      stored and the second skipped, whatever else the second holds. */
  lemma FirstDuplicateKept(s: Store, q1: Json.Value, q2: Json.Value,
                           grade: int, board: string, topic: string, now: nat)
    requires ToCandidate(q1).Some? && ToCandidate(q2).Some?
    requires ToCandidate(q1).value.question == ToCandidate(q2).value.question
    requires !HasKey(s.rows, Key(grade, board, topic, ToCandidate(q1).value.question))
    ensures SaveQuestions(s, [q1, q2], grade, board, topic, now)
            == SaveResult(Store(s.rows + [NewRow(s, ToCandidate(q1).value, grade, board, topic, now)], s.nextId + 1), 1, 1)
  {
    var s1 := SaveOne(s, q1, grade, board, topic, now).0;
    var k := Key(grade, board, topic, ToCandidate(q1).value.question);
    assert KeyOf(s1.rows[|s.rows|]) == k;
    assert HasKey(s1.rows, k);
    assert SaveOne(s1, q2, grade, board, topic, now) == (s1, false);
    SaveSingle(s1, q2, grade, board, topic, now);
    assert [q1, q2][1..] == [q2];
  }

  /** Saving a batch whose acceptable records are all present already
      changes nothing and skips every record. */
  lemma {:induction false} SaveAllPresent(s: Store, qs: seq<Json.Value>, grade: int, board: string, topic: string, now: nat)
    requires forall j :: 0 <= j < |qs| && ToCandidate(qs[j]).Some? ==>
               HasKey(s.rows, Key(grade, board, topic, ToCandidate(qs[j]).value.question))
    ensures SaveQuestions(s, qs, grade, board, topic, now) == SaveResult(s, 0, |qs|)
  {
    if |qs| > 0 {
      assert SaveOne(s, qs[0], grade, board, topic, now) == (s, false);
      assert forall j :: 1 <= j < |qs| ==> qs[1..][j - 1] == qs[j];
      SaveAllPresent(s, qs[1..], grade, board, topic, now);
    }
  }

  /** Saving the same batch twice: the second call stores nothing and
      reports every record as skipped. */
  lemma SaveTwiceSavesNothing(s: Store, qs: seq<Json.Value>, grade: int, board: string, topic: string, now: nat, later: nat)
    ensures var first := SaveQuestions(s, qs, grade, board, topic, now);
      SaveQuestions(first.store, qs, grade, board, topic, later) == SaveResult(first.store, 0, |qs|)
  {
    var first := SaveQuestions(s, qs, grade, board, topic, now);
    SaveAllPresent(first.store, qs, grade, board, topic, later);
  }

  /** A record whose key is already stored is skipped whether that row is
      valid or invalid: an invalidated question is never revived. */
  lemma DuplicateKeySkipped(s: Store, q: Json.Value, grade: int, board: string, topic: string, now: nat, i: nat)
    requires i < |s.rows| && ToCandidate(q).Some?
    requires KeyOf(s.rows[i]) == Key(grade, board, topic, ToCandidate(q).value.question)
    ensures SaveQuestions(s, [q], grade, board, topic, now) == SaveResult(s, 0, 1)
  {
    assert SaveOne(s, q, grade, board, topic, now) == (s, false);
    assert [q][1..] == [];
  }

  // ---------------------------------------------------------------------
  // count_questions and get_questions

  /** The filter of `count_questions`: a missing or empty difficulty
      counts every level. */
  function CountFilter(grade: int, board: string, topic: string, difficulty: Option<string>): Filter {
    Filter(Some(grade), Some(board), Some(topic),
           if difficulty.Some? && difficulty.value != "" then difficulty else None, true)
  }

  /** `count_questions`: the number of valid rows matching the filter. */
  function CountQuestions(s: Store, grade: int, board: string, topic: string, difficulty: Option<string>)
    : (n: nat)
    ensures n <= |s.rows|
    ensures n == Tally(s.rows, CountFilter(grade, board, topic, difficulty))
  {
    TallyIsSelectSize(s.rows, CountFilter(grade, board, topic, difficulty));
    |Select(s.rows, CountFilter(grade, board, topic, difficulty))|
  }

  /** The valid rows `get_questions` chooses from, in id order. */
  function Pool(s: Store, grade: int, board: string, topic: string, difficulty: string): seq<Row> {
    Select(s.rows, Filter(Some(grade), Some(board), Some(topic), Some(difficulty), true))
  }

  /** How many rows `LIMIT` lets through: a missing or zero limit adds no
      clause, and SQLite reads a negative limit as no bound. */
  function LimitOf(limit: Option<int>, available: nat): (k: nat)
    ensures k <= available
    ensures limit.Some? && limit.value > 0 ==> k == if limit.value < available then limit.value else available
  {
    if limit.None? || limit.value <= 0 then available
    else if limit.value < available then limit.value
    else available
  }

  /** The row order: `ORDER BY id`, or `ORDER BY RANDOM()` driven by the
      given choices. */
  datatype Order = ById | Random(choices: seq<nat>)

  /** The first `k` rows of `pool` in the requested order. */
  function Arrange(pool: seq<Row>, k: nat, order: Order): (r: seq<Row>)
    requires k <= |pool|
    ensures |r| == k
    ensures multiset(r) <= multiset(pool)
    ensures order.ById? ==> r == pool[..k]
    ensures Sampling.Distinct(pool) ==> Sampling.Distinct(r)
    ensures order.ById? && IdsIncreasing(pool) ==> IdsIncreasing(r)
  {
    match order
    case ById =>
      assert pool == pool[..k] + pool[k..];
      pool[..k]
    case Random(choices) =>
      Sampling.DrawDistinct(pool, choices, k);
      Sampling.Draw(pool, choices, k)
  }

  /** Whatever a sub-multiset holds, the whole holds. */
  lemma SubMembers(r: seq<Row>, pool: seq<Row>)
    requires multiset(r) <= multiset(pool)
    ensures forall x :: x in r ==> x in pool
  {
    forall x | x in r ensures x in pool {
      assert x in multiset(r);
    }
  }

  /** `get_questions`: valid rows of one grade, board, topic and
      difficulty, at most `limit` of them. The source returns each row's
      question, options, correct answer and difficulty. */
  function GetQuestions(s: Store, grade: int, board: string, topic: string, difficulty: string,
                        limit: Option<int>, order: Order): (r: seq<Row>)
    ensures limit.None? || limit.value <= 0 ==> |r| == |Pool(s, grade, board, topic, difficulty)|
    ensures limit.Some? && limit.value > 0 ==>
              |r| == if limit.value < |Pool(s, grade, board, topic, difficulty)|
                     then limit.value else |Pool(s, grade, board, topic, difficulty)|
    ensures forall x :: x in r ==>
              x in s.rows && x.valid && x.grade == grade && x.board == board
              && x.topic == topic && Name(x.difficulty) == difficulty
    ensures multiset(r) <= multiset(Pool(s, grade, board, topic, difficulty))
    ensures order.ById? ==> r == Pool(s, grade, board, topic, difficulty)[..|r|]
    ensures order.ById? && WellFormed(s) ==> IdsIncreasing(r)
    ensures WellFormed(s) ==> Sampling.Distinct(r)
  {
    var pool := Pool(s, grade, board, topic, difficulty);
    PoolDistinct(s, grade, board, topic, difficulty);
    var r := Arrange(pool, LimitOf(limit, |pool|), order);
    SubMembers(r, pool);
    r
  }

  /** The rows of a well-formed table are pairwise different (their ids
      differ), and so are the rows any filter selects. */
  lemma PoolDistinct(s: Store, grade: int, board: string, topic: string, difficulty: string)
    ensures WellFormed(s) ==> Sampling.Distinct(Pool(s, grade, board, topic, difficulty))
    ensures WellFormed(s) ==> IdsIncreasing(Pool(s, grade, board, topic, difficulty))
  {
  }

  /** Without a limit, retrieval in id order returns exactly the rows
      `count_questions` counts. */
  lemma CountIsRetrievalSize(s: Store, grade: int, board: string, topic: string, difficulty: string)
    requires difficulty != ""
    ensures CountQuestions(s, grade, board, topic, Some(difficulty))
            == |GetQuestions(s, grade, board, topic, difficulty, None, ById)|
  {
  }

  /** A difficulty that is not one of the three names matches no row. */
  lemma UnknownDifficultyCountsNothing(s: Store, grade: int, board: string, topic: string, difficulty: string)
    requires difficulty != "" && ParseDifficulty(difficulty).None?
    ensures CountQuestions(s, grade, board, topic, Some(difficulty)) == 0
  {
    var sel := Select(s.rows, CountFilter(grade, board, topic, Some(difficulty)));
    if |sel| > 0 {
      assert sel[0] in sel;
      ParseName(sel[0].difficulty);
    }
  }

  /** Without a difficulty, the count is the sum of the three per-level
      counts. */
  lemma CountIsSumOfLevels(s: Store, grade: int, board: string, topic: string)
    ensures CountQuestions(s, grade, board, topic, None)
            == CountQuestions(s, grade, board, topic, Some("Easy"))
             + CountQuestions(s, grade, board, topic, Some("Medium"))
             + CountQuestions(s, grade, board, topic, Some("Hard"))
  {
    LevelsPartition(s.rows, CountFilter(grade, board, topic, None));
  }

  /** Every row has exactly one of the three level names. */
  lemma LevelsPartition(rows: seq<Row>, f: Filter)
    requires f.difficulty.None?
    ensures |Select(rows, f)|
            == |Select(rows, f.(difficulty := Some("Easy")))|
             + |Select(rows, f.(difficulty := Some("Medium")))|
             + |Select(rows, f.(difficulty := Some("Hard")))|
  {
    var e, m, h := f.(difficulty := Some("Easy")), f.(difficulty := Some("Medium")), f.(difficulty := Some("Hard"));
    TallyIsSelectSize(rows, f);
    TallyIsSelectSize(rows, e);
    TallyIsSelectSize(rows, m);
    TallyIsSelectSize(rows, h);
    TallyLevels(rows, f);
  }

  lemma {:induction false} TallyLevels(rows: seq<Row>, f: Filter)
    requires f.difficulty.None?
    ensures Tally(rows, f)
            == Tally(rows, f.(difficulty := Some("Easy")))
             + Tally(rows, f.(difficulty := Some("Medium")))
             + Tally(rows, f.(difficulty := Some("Hard")))
  {
    if |rows| > 0 {
      TallyLevels(rows[1..], f);
      var x := rows[0];
      var e, m, h := f.(difficulty := Some("Easy")), f.(difficulty := Some("Medium")), f.(difficulty := Some("Hard"));
      assert Matches(f, x) <==> Matches(e, x) || Matches(m, x) || Matches(h, x);
      assert !(Matches(e, x) && Matches(m, x)) && !(Matches(e, x) && Matches(h, x)) && !(Matches(m, x) && Matches(h, x));
    }
  }

  // ---------------------------------------------------------------------
  // mark_question_invalid

  /** The row the `UPDATE` touches: the exact key, still valid. */
  predicate IsTarget(r: Row, k: Key) {
    r.valid && KeyOf(r) == k
  }

  function Invalidated(r: Row, now: nat): Row {
    r.(valid := false, reportedAt := Some(now))
  }

  /** `mark_question_invalid`: flags the valid row with the exact key as
      invalid, stamps it, and reports whether a row changed. */
  function MarkInvalid(s: Store, grade: int, board: string, topic: string, text: string, now: nat)
    : (r: (Store, bool))
    ensures |r.0.rows| == |s.rows| && r.0.nextId == s.nextId
    ensures r.1 <==> exists i :: 0 <= i < |s.rows| && IsTarget(s.rows[i], Key(grade, board, topic, text))
    ensures forall i :: 0 <= i < |s.rows| ==>
              KeyOf(r.0.rows[i]) == KeyOf(s.rows[i]) && r.0.rows[i].id == s.rows[i].id
              && (r.0.rows[i].valid ==> s.rows[i].valid)
              && (!s.rows[i].valid ==> r.0.rows[i] == s.rows[i])
    ensures !r.1 ==> r.0 == s
    ensures WellFormed(s) ==> WellFormed(r.0)
  {
    var k := Key(grade, board, topic, text);
    var rows := seq(|s.rows|, i requires 0 <= i < |s.rows| =>
                      if IsTarget(s.rows[i], k) then Invalidated(s.rows[i], now) else s.rows[i]);
    var changed := exists i :: 0 <= i < |s.rows| && IsTarget(s.rows[i], k);
    assert !changed ==> rows == s.rows;
    (Store(rows, s.nextId), changed)
  }

  /** In a well-formed table at most one row is a target, so a successful
      call changes exactly that row. */
  lemma MarkInvalidChangesOneRow(s: Store, grade: int, board: string, topic: string, text: string, now: nat, i: nat)
    requires WellFormed(s) && i < |s.rows| && IsTarget(s.rows[i], Key(grade, board, topic, text))
    ensures MarkInvalid(s, grade, board, topic, text, now).0.rows == s.rows[i := Invalidated(s.rows[i], now)]
  {
  }

  /** A second report of the same question changes nothing and returns
      false. */
  lemma MarkInvalidIdempotent(s: Store, grade: int, board: string, topic: string, text: string, now: nat, later: nat)
    ensures var first := MarkInvalid(s, grade, board, topic, text, now).0;
      MarkInvalid(first, grade, board, topic, text, later) == (first, false)
  {
    var first := MarkInvalid(s, grade, board, topic, text, now).0;
    forall i | 0 <= i < |first.rows| ensures !IsTarget(first.rows[i], Key(grade, board, topic, text)) {
    }
  }

  /** After a successful report the question leaves every count of valid
      questions it belonged to, and no other count changes. */
  lemma MarkInvalidCounts(s: Store, grade: int, board: string, topic: string, text: string, now: nat,
                          f: Filter)
    requires WellFormed(s)
    requires MarkInvalid(s, grade, board, topic, text, now).1
    ensures var s' := MarkInvalid(s, grade, board, topic, text, now).0;
      var i :| 0 <= i < |s.rows| && IsTarget(s.rows[i], Key(grade, board, topic, text));
      && |Select(s'.rows, f)| == |Select(s.rows, f)|
           - (if Matches(f, s.rows[i]) then 1 else 0)
           + (if Matches(f, Invalidated(s.rows[i], now)) then 1 else 0)
  {
    var i :| 0 <= i < |s.rows| && IsTarget(s.rows[i], Key(grade, board, topic, text));
    MarkInvalidChangesOneRow(s, grade, board, topic, text, now, i);
    SelectUpdate(s.rows, i, Invalidated(s.rows[i], now), f);
  }

  /** The scenario of the tests: after a successful report the valid count
      for its grade, board and topic drops by one and the invalid count for
      the same filters rises by one. */
  lemma MarkInvalidMovesQuestion(s: Store, grade: int, board: string, topic: string, text: string, now: nat)
    requires WellFormed(s)
    requires MarkInvalid(s, grade, board, topic, text, now).1
    ensures var s' := MarkInvalid(s, grade, board, topic, text, now).0;
      && CountQuestions(s', grade, board, topic, None) == CountQuestions(s, grade, board, topic, None) - 1
      && CountInvalid(s', Some(grade), Some(board), Some(topic))
         == CountInvalid(s, Some(grade), Some(board), Some(topic)) + 1
  {
    var s' := MarkInvalid(s, grade, board, topic, text, now).0;
    var i :| 0 <= i < |s.rows| && IsTarget(s.rows[i], Key(grade, board, topic, text));
    MarkInvalidChangesOneRow(s, grade, board, topic, text, now, i);
    assert s'.rows == s.rows[i := Invalidated(s.rows[i], now)];
    FlipMovesRow(s.rows, i, Invalidated(s.rows[i], now), CountFilter(grade, board, topic, None),
                 ReportFilter(Some(grade), Some(board), Some(topic)));
  }

  /** Replacing a row that one filter selects, by one that it does not and
      a second filter does, moves one row from the first selection to the
      second. */
  lemma FlipMovesRow(rows: seq<Row>, i: nat, x: Row, from: Filter, to: Filter)
    requires i < |rows| && Matches(from, rows[i]) && !Matches(from, x)
    requires !Matches(to, rows[i]) && Matches(to, x)
    ensures |Select(rows[i := x], from)| == |Select(rows, from)| - 1
    ensures |Select(rows[i := x], to)| == |Select(rows, to)| + 1
  {
    SelectUpdate(rows, i, x, from);
    SelectUpdate(rows, i, x, to);
  }

  // ---------------------------------------------------------------------
  // get_invalid_questions_report and count_invalid_questions

  /** The report filters: a grade of 0 or an empty board or topic is
      falsy in Python and adds no condition. */
  function ReportFilter(grade: Option<int>, board: Option<string>, topic: Option<string>): Filter {
    Filter(if grade.Some? && grade.value != 0 then grade else None,
           if board.Some? && board.value != "" then board else None,
           if topic.Some? && topic.value != "" then topic else None,
           None, false)
  }

  /** The `reported_at` sort key; `NULL` sorts last under `DESC`. */
  function ReportKey(r: Row): int {
    match r.reportedAt
    case Some(t) => t
    case None => -1
  }

  /** `get_invalid_questions_report`: the invalid rows matching the
      optional filters, most recently reported first. */
  function InvalidReport(s: Store, grade: Option<int>, board: Option<string>, topic: Option<string>)
    : (r: seq<Row>)
    ensures Sorting.SortedDesc(r, ReportKey)
    ensures multiset(r) == multiset(Select(s.rows, ReportFilter(grade, board, topic)))
    ensures forall x :: x in r <==> x in s.rows && !x.valid && Matches(ReportFilter(grade, board, topic), x)
  {
    var sel := Select(s.rows, ReportFilter(grade, board, topic));
    var r := Sorting.SortDesc(sel, ReportKey);
    Sorting.SameMembers(r, sel);
    r
  }

  /** `count_invalid_questions`. */
  function CountInvalid(s: Store, grade: Option<int>, board: Option<string>, topic: Option<string>): (n: nat)
    ensures n <= |s.rows|
    ensures n == Tally(s.rows, ReportFilter(grade, board, topic))
  {
    TallyIsSelectSize(s.rows, ReportFilter(grade, board, topic));
    |Select(s.rows, ReportFilter(grade, board, topic))|
  }

  /** The count and the report agree for every choice of filters. */
  lemma CountInvalidIsReportLength(s: Store, grade: Option<int>, board: Option<string>, topic: Option<string>)
    ensures CountInvalid(s, grade, board, topic) == |InvalidReport(s, grade, board, topic)|
  {
    var sel := Select(s.rows, ReportFilter(grade, board, topic));
    assert |InvalidReport(s, grade, board, topic)| == |multiset(sel)| == |sel|;
  }

  /** With a clock that never runs backwards, a row reported at `now`
      heads the report for the reported question's grade, board and topic.
      It need not be the question just reported: a row reported earlier
      with the same stamp may come first. */
  lemma NewestReportFirst(s: Store, grade: int, board: string, topic: string, text: string, now: nat)
    requires forall i :: 0 <= i < |s.rows| && s.rows[i].reportedAt.Some? ==> s.rows[i].reportedAt.value <= now
    requires MarkInvalid(s, grade, board, topic, text, now).1
    ensures var report := InvalidReport(MarkInvalid(s, grade, board, topic, text, now).0,
                                        Some(grade), Some(board), Some(topic));
      |report| > 0 && report[0].reportedAt == Some(now)
  {
    var s' := MarkInvalid(s, grade, board, topic, text, now).0;
    var report := InvalidReport(s', Some(grade), Some(board), Some(topic));
    var i :| 0 <= i < |s.rows| && IsTarget(s.rows[i], Key(grade, board, topic, text));
    ReportedNoLaterThan(s, grade, board, topic, text, now);
    assert s'.rows[i] == Invalidated(s.rows[i], now);
    assert s'.rows[i] in report;
    HeadIsNewest(report, s'.rows, s'.rows[i], now);
  }

  /** With every earlier stamp strictly before `now`, the question just
      reported is the row that heads the report. */
  lemma JustReportedHeadsReport(s: Store, grade: int, board: string, topic: string, text: string,
                                now: nat, i: nat)
    requires WellFormed(s)
    requires forall j :: 0 <= j < |s.rows| && s.rows[j].reportedAt.Some? ==> s.rows[j].reportedAt.value < now
    requires i < |s.rows| && IsTarget(s.rows[i], Key(grade, board, topic, text))
    ensures var report := InvalidReport(MarkInvalid(s, grade, board, topic, text, now).0,
                                        Some(grade), Some(board), Some(topic));
      |report| > 0 && report[0] == Invalidated(s.rows[i], now)
  {
    var s' := MarkInvalid(s, grade, board, topic, text, now).0;
    var report := InvalidReport(s', Some(grade), Some(board), Some(topic));
    MarkInvalidChangesOneRow(s, grade, board, topic, text, now, i);
    NewestReportFirst(s, grade, board, topic, text, now);
    assert report[0] in s'.rows;
    var m :| 0 <= m < |s'.rows| && s'.rows[m] == report[0];
    assert s'.rows[m].reportedAt == Some(now);
    assert m == i;
  }

  /** A report sorted newest first, drawn from rows reported no later than
      `now`, that holds a row reported at `now` starts with such a row. */
  lemma HeadIsNewest(report: seq<Row>, rows: seq<Row>, y: Row, now: nat)
    requires Sorting.SortedDesc(report, ReportKey)
    requires y in report && y.reportedAt == Some(now)
    requires forall x :: x in report ==> x in rows
    requires forall x :: x in rows ==> ReportKey(x) <= now
    ensures |report| > 0 && report[0].reportedAt == Some(now)
  {
    var j :| 0 <= j < |report| && report[j] == y;
    assert ReportKey(report[0]) >= ReportKey(report[j]);
    assert report[0] in rows;
  }

  /** Marking at time `now` keeps every report timestamp at most `now`. */
  lemma ReportedNoLaterThan(s: Store, grade: int, board: string, topic: string, text: string, now: nat)
    requires forall i :: 0 <= i < |s.rows| && s.rows[i].reportedAt.Some? ==> s.rows[i].reportedAt.value <= now
    ensures var s' := MarkInvalid(s, grade, board, topic, text, now).0;
      forall x :: x in s'.rows ==> ReportKey(x) <= now
  {
    var s' := MarkInvalid(s, grade, board, topic, text, now).0;
    forall x | x in s'.rows ensures ReportKey(x) <= now {
      var m :| 0 <= m < |s'.rows| && s'.rows[m] == x;
    }
  }
}
