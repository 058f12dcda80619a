/** Difficulty levels and the split of a requested question count into
    per-difficulty targets, shared by the generator and the store. */
module Distribution {
  import opened Wrappers

  /** The three values the `difficulty` column admits. */
  datatype Difficulty = Easy | Medium | Hard

  /** The order in which every caller walks the levels. */
  const Levels: seq<Difficulty> := [Easy, Medium, Hard]

  /** The stored text of a level. */
  function Name(d: Difficulty): string {
    match d
    case Easy => "Easy"
    case Medium => "Medium"
    case Hard => "Hard"
  }

  /** Position of a level in `Levels`. */
  function Rank(d: Difficulty): (k: nat)
    ensures k < |Levels| && Levels[k] == d
  {
    match d
    case Easy => 0
    case Medium => 1
    case Hard => 2
  }

  /** The `difficulty IN ('Easy', 'Medium', 'Hard')` check: the level a
      string names, if any. */
  function ParseDifficulty(s: string): (r: Option<Difficulty>)
    ensures r.Some? <==> s == "Easy" || s == "Medium" || s == "Hard"
    ensures r.Some? ==> Name(r.value) == s
  {
    if s == "Easy" then Some(Easy)
    else if s == "Medium" then Some(Medium)
    else if s == "Hard" then Some(Hard)
    else None
  }

  /** Parsing inverts `Name`: every level is stored and read back as itself. */
  lemma ParseName(d: Difficulty)
    ensures ParseDifficulty(Name(d)) == Some(d)
  {
  }

  /** One value per level, the shape of `missing_counts`. */
  datatype PerDifficulty<T> = PerDifficulty(easy: T, medium: T, hard: T) {
    function At(d: Difficulty): T {
      match d
      case Easy => easy
      case Medium => medium
      case Hard => hard
    }
  }

  /** The percentages of the difficulty sliders. */
  datatype Mix = Mix(easyPct: int, mediumPct: int, hardPct: int)

  /** Python's `int(a / 100)`: division truncated toward zero. */
  function TruncDiv100(a: int): (q: int)
    ensures a >= 0 ==> 0 <= q && q * 100 <= a < q * 100 + 100
    ensures a < 0 ==> q <= 0 && q * 100 - 100 < a <= q * 100
  {
    if a >= 0 then a / 100 else -((-a) / 100)
  }

  /** Per-difficulty targets for `n` questions: Easy and Medium are the
      truncated shares of `n`, Hard takes whatever remains. The Hard
      percentage is never read. */
  function Targets(n: int, mix: Mix): (t: PerDifficulty<int>)
    ensures t.easy + t.medium + t.hard == n
    ensures n >= 0 && mix.easyPct >= 0 ==> t.easy * 100 <= n * mix.easyPct < t.easy * 100 + 100
    ensures n >= 0 && mix.mediumPct >= 0 ==> t.medium * 100 <= n * mix.mediumPct < t.medium * 100 + 100
  {
    var easy := TruncDiv100(n * mix.easyPct);
    var medium := TruncDiv100(n * mix.mediumPct);
    PerDifficulty(easy, medium, n - easy - medium)
  }

  /** Sum of the three entries. */
  function Total(t: PerDifficulty<int>): int {
    t.easy + t.medium + t.hard
  }

  /** The Hard target is never negative once the Easy and Medium
      percentages leave room for it. */
  lemma {:induction false} HardNonNegative(n: int, mix: Mix)
    requires n >= 0 && mix.easyPct >= 0 && mix.mediumPct >= 0
    requires mix.easyPct + mix.mediumPct <= 100
    ensures 0 <= Targets(n, mix).easy && 0 <= Targets(n, mix).medium
    ensures Targets(n, mix).hard >= 0
  {
    var t := Targets(n, mix);
    MulBound(n, mix.easyPct, mix.mediumPct, 0, 100);
    assert (t.easy + t.medium) * 100 <= n * 100;
  }

  /** With percentages that add up to 100, Hard receives at least its own
      truncated share and at most two more than it: the remainder of the
      two truncations goes to Hard. */
  lemma {:induction false} HardGetsRemainder(n: int, mix: Mix)
    requires n >= 0 && mix.easyPct >= 0 && mix.mediumPct >= 0 && mix.hardPct >= 0
    requires mix.easyPct + mix.mediumPct + mix.hardPct == 100
    ensures TruncDiv100(n * mix.hardPct) <= Targets(n, mix).hard <= TruncDiv100(n * mix.hardPct) + 2
  {
    var t := Targets(n, mix);
    var h := TruncDiv100(n * mix.hardPct);
    MulBound(n, mix.easyPct, mix.mediumPct, mix.hardPct, 100);
    assert (t.easy + t.medium + h) * 100 <= n * 100;
    assert n * 100 < (t.easy + t.medium + h) * 100 + 300;
  }

  /** Distributivity of `n` over three shares whose sum is at most `cap`. */
  lemma MulBound(n: int, a: int, b: int, c: int, cap: int)
    requires n >= 0 && a + b + c <= cap
    ensures n * a + n * b + n * c == n * (a + b + c) <= n * cap
  {
  }

  /** The "Generate Quiz" button is enabled only when the three sliders add
      up to exactly 100 and a topic has been entered. */
  predicate CanGenerate(mix: Mix, topic: string) {
    mix.easyPct + mix.mediumPct + mix.hardPct == 100 && topic != ""
  }

  /** The ranges the sidebar widgets allow: percentages 0..100 and between
      1 and 50 questions. */
  predicate WidgetRanges(n: int, mix: Mix) {
    1 <= n <= 50
    && 0 <= mix.easyPct <= 100 && 0 <= mix.mediumPct <= 100 && 0 <= mix.hardPct <= 100
  }

  /** Every request the sidebar can submit yields three targets between 0
      and `n` that add up to `n`. */
  lemma UiTargetsInRange(n: int, mix: Mix, topic: string)
    requires WidgetRanges(n, mix) && CanGenerate(mix, topic)
    ensures var t := Targets(n, mix);
      && 0 <= t.easy <= n && 0 <= t.medium <= n && 0 <= t.hard <= n
      && Total(t) == n
  {
    HardNonNegative(n, mix);
  }
}
