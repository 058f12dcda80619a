/** Random selection without replacement, the meaning given here to
    `ORDER BY RANDOM() LIMIT k`. The random source is a caller-supplied
    sequence of choices: the i-th draw takes the element at position
    `choices[i] % (remaining pool size)` out of the pool (0 once the
    choices run out). */
module Sampling {

  /** The first `k` draws from `pool` (fewer when the pool runs dry). */
  function Draw<T(==)>(pool: seq<T>, choices: seq<nat>, k: nat): (r: seq<T>)
    decreases k
    ensures |r| == if k <= |pool| then k else |pool|
    ensures multiset(r) <= multiset(pool)
  {
    if k == 0 || |pool| == 0 then []
    else
      var c := if |choices| > 0 then choices[0] else 0;
      var i := c % |pool|;
      var rest := pool[..i] + pool[i + 1..];
      assert pool == pool[..i] + [pool[i]] + pool[i + 1..];
      [pool[i]] + Draw(rest, if |choices| > 0 then choices[1..] else [], k - 1)
  }

  /** Position of the first occurrence of `x` in `s`. */
  function IndexOf<T(==)>(s: seq<T>, x: T): (i: nat)
    requires x in s
    ensures i < |s| && s[i] == x
  {
    if s[0] == x then 0 else 1 + IndexOf(s[1..], x)
  }

  /** Choices that make the draw reproduce the sample `s`. */
  function ChoicesFor<T(==)>(pool: seq<T>, s: seq<T>): seq<nat>
    requires multiset(s) <= multiset(pool)
    decreases |s|
  {
    if |s| == 0 then []
    else
      assert s[0] in multiset(s);
      var i := IndexOf(pool, s[0]);
      RemoveDrawn(pool, i, s);
      [i] + ChoicesFor(pool[..i] + pool[i + 1..], s[1..])
  }

  /** Every ordered selection of distinct pool elements is the outcome of
      some sequence of choices: the draw can produce any sample. */
  lemma {:induction false} DrawReachesEverySample<T>(pool: seq<T>, s: seq<T>)
    requires multiset(s) <= multiset(pool)
    ensures Draw(pool, ChoicesFor(pool, s), |s|) == s
  {
    if |s| > 0 {
      assert s[0] in multiset(s);
      var i := IndexOf(pool, s[0]);
      var rest := pool[..i] + pool[i + 1..];
      RemoveDrawn(pool, i, s);
      DrawReachesEverySample(rest, s[1..]);
      DrawStep(pool, i, ChoicesFor(rest, s[1..]), |s| - 1);
      HeadTail(s);
    }
  }

  lemma HeadTail<T>(s: seq<T>)
    requires |s| > 0
    ensures s == [s[0]] + s[1..]
  {
  }

  /** One draw: a choice below the pool size picks exactly that element. */
  lemma DrawStep<T>(pool: seq<T>, i: nat, tail: seq<nat>, k: nat)
    requires i < |pool|
    ensures Draw(pool, [i] + tail, k + 1) == [pool[i]] + Draw(pool[..i] + pool[i + 1..], tail, k)
  {
    assert i % |pool| == i;
    assert ([i] + tail)[1..] == tail;
  }

  /** Taking the first sampled element out of the pool leaves room for the
      rest of the sample. */
  lemma RemoveDrawn<T>(pool: seq<T>, i: nat, s: seq<T>)
    requires i < |pool| && |s| > 0 && pool[i] == s[0]
    requires multiset(s) <= multiset(pool)
    ensures multiset(s[1..]) <= multiset(pool[..i] + pool[i + 1..])
  {
    assert s == [s[0]] + s[1..];
    assert pool == pool[..i] + [pool[i]] + pool[i + 1..];
    assert multiset(s) == multiset{s[0]} + multiset(s[1..]);
    assert multiset(pool) == multiset(pool[..i] + pool[i + 1..]) + multiset{pool[i]};
    forall x ensures multiset(s[1..])[x] <= multiset(pool[..i] + pool[i + 1..])[x] {
      assert multiset(s)[x] <= multiset(pool)[x];
    }
  }

  /** No element occurs twice. */
  predicate Distinct<T(==)>(s: seq<T>) {
    forall i, j :: 0 <= i < j < |s| ==> s[i] != s[j]
  }

  /** A draw from a pool without repetitions has none either. */
  lemma DrawDistinct<T>(pool: seq<T>, choices: seq<nat>, k: nat)
    ensures Distinct(pool) ==> Distinct(Draw(pool, choices, k))
  {
    if Distinct(pool) {
      var r := Draw(pool, choices, k);
      MultiplicityAtMostOne(pool);
      forall i, j | 0 <= i < j < |r| ensures r[i] != r[j] {
        RepeatMultiplicity(r, i, j);
      }
    }
  }

  /** In a sequence without repetitions every value occurs at most once. */
  lemma {:induction false} MultiplicityAtMostOne<T>(s: seq<T>)
    requires Distinct(s)
    ensures forall x :: multiset(s)[x] <= 1
  {
    if |s| > 0 {
      assert s == [s[0]] + s[1..];
      MultiplicityAtMostOne(s[1..]);
      assert s[0] !in s[1..];
    }
  }

  /** Two equal entries give their value multiplicity at least two. */
  lemma RepeatMultiplicity<T>(r: seq<T>, i: nat, j: nat)
    requires i < j < |r|
    ensures r[i] == r[j] ==> multiset(r)[r[i]] >= 2
  {
    assert r == r[..i] + [r[i]] + r[i + 1..j] + [r[j]] + r[j + 1..];
  }
}
