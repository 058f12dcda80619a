/** The small part of Python's string library that the question pipeline
    uses: substring search, `str.split`, `str.strip`, ASCII `str.upper`
    and `int(str)`. */
module Text {
  import opened Wrappers

  /** `pat` occurs in `s` starting at index `i`. */
  predicate OccursAt(s: string, pat: string, i: int) {
    0 <= i && i + |pat| <= |s| && s[i..i + |pat|] == pat
  }

  /** Python's `pat in s`. */
  predicate Contains(s: string, pat: string) {
    exists i :: 0 <= i <= |s| && OccursAt(s, pat, i)
  }

  /** The first index at or after `from` where `pat` occurs in `s`. */
  function Find(s: string, pat: string, from: nat := 0): (r: Option<nat>)
    decreases |s| - from
    ensures r.Some? ==> from <= r.value && OccursAt(s, pat, r.value)
    ensures r.Some? ==> forall i :: from <= i < r.value ==> !OccursAt(s, pat, i)
    ensures r.None? ==> forall i :: from <= i ==> !OccursAt(s, pat, i)
  {
    if from + |pat| > |s| then None
    else if s[from..from + |pat|] == pat then Some(from)
    else Find(s, pat, from + 1)
  }

  lemma FindIsContains(s: string, pat: string)
    ensures Find(s, pat).Some? <==> Contains(s, pat)
  {
    if Find(s, pat).Some? {
      assert OccursAt(s, pat, Find(s, pat).value);
    }
  }

  /** An occurrence inside a prefix of `s` is an occurrence in `s`. */
  lemma OccursInPrefix(s: string, pat: string, n: nat, i: int)
    requires n <= |s|
    ensures OccursAt(s[..n], pat, i) ==> OccursAt(s, pat, i)
  {
    if OccursAt(s[..n], pat, i) {
      assert s[..n][i..i + |pat|] == s[i..i + |pat|];
    }
  }

  /** The text of `s` before the first occurrence of `sep` (all of `s` when
      there is none). */
  function UpTo(s: string, sep: string): (r: string)
    ensures |r| <= |s| && r == s[..|r|]
    ensures Contains(s, sep) ==> OccursAt(s, sep, |r|)
    ensures !Contains(s, sep) ==> r == s
  {
    FindIsContains(s, sep);
    match Find(s, sep)
    case Some(i) => s[..i]
    case None => s
  }

  /** Python's `s.split(sep)` for a non-empty separator. */
  function Split(s: string, sep: string): (r: seq<string>)
    requires |sep| > 0
    decreases |s|
    ensures |r| >= 1
    ensures r[0] == UpTo(s, sep)
    ensures |r| >= 2 <==> Contains(s, sep)
    ensures forall k :: 0 <= k < |r| ==> !Contains(r[k], sep)
    ensures Join(r, sep) == s
  {
    FindIsContains(s, sep);
    match Find(s, sep)
    case None => [s]
    case Some(i) =>
      var rest := Split(s[i + |sep|..], sep);
      BeforeFirst(s, sep, i, i);
      SplitStep(s, sep, i, rest);
      [s[..i]] + rest
  }

  /** A prefix that ends before the first occurrence is complete holds no
      occurrence. */
  lemma BeforeFirst(s: string, pat: string, k: nat, n: nat)
    requires Find(s, pat) == Some(k) && n <= |s| && n < k + |pat|
    ensures !Contains(s[..n], pat)
  {
    forall j | OccursAt(s[..n], pat, j)
      ensures false
    {
      OccursInPrefix(s, pat, n, j);
    }
  }

  /** A prefix that contains the first occurrence finds it at the same
      place. */
  lemma FindInPrefix(s: string, pat: string, k: nat, n: nat)
    requires Find(s, pat) == Some(k) && k + |pat| <= n <= |s|
    ensures Find(s[..n], pat) == Some(k)
  {
    var t := s[..n];
    assert OccursAt(t, pat, k) by {
      assert t[k..k + |pat|] == s[k..k + |pat|];
    }
    forall i | 0 <= i < k ensures !OccursAt(t, pat, i) {
      assert !OccursAt(s, pat, i);
      OccursInPrefix(s, pat, n, i);
    }
    FindFirst(t, pat, 0, k);
  }

  /** `Find` from `from` stops at the first occurrence. */
  lemma {:induction false} FindFirst(s: string, pat: string, from: nat, k: nat)
    requires from <= k && OccursAt(s, pat, k)
    requires forall i :: from <= i < k ==> !OccursAt(s, pat, i)
    ensures Find(s, pat, from) == Some(k)
    decreases k - from
  {
    if from < k {
      assert !OccursAt(s, pat, from);
      FindFirst(s, pat, from + 1, k);
    }
  }

  /** Cutting at an occurrence and splitting the rest joins back to the
      whole text, piece by piece. */
  lemma SplitStep(s: string, sep: string, i: nat, rest: seq<string>)
    requires OccursAt(s, sep, i) && |rest| >= 1 && Join(rest, sep) == s[i + |sep|..]
    ensures var r := [s[..i]] + rest;
      && Join(r, sep) == s
      && forall k :: 1 <= k < |r| ==> r[k] == rest[k - 1]
  {
    JoinCons(s[..i], rest, sep);
    CutAt(s, sep, i);
  }

  lemma JoinCons(a: string, rest: seq<string>, sep: string)
    requires |rest| >= 1
    ensures Join([a] + rest, sep) == a + sep + Join(rest, sep)
  {
    assert ([a] + rest)[1..] == rest;
  }

  /** Text is the part before an occurrence, the occurrence, and the rest. */
  lemma CutAt(s: string, sep: string, i: nat)
    requires OccursAt(s, sep, i)
    ensures s == s[..i] + sep + s[i + |sep|..]
  {
    assert s == s[..i] + s[i..i + |sep|] + s[i + |sep|..];
  }

  /** The second piece of a split is the text between the first and the
      second separator. */
  lemma SplitSecond(s: string, sep: string)
    requires |sep| > 0 && Contains(s, sep)
    ensures Find(s, sep).Some?
    ensures |Split(s, sep)| >= 2
    ensures Split(s, sep)[1] == UpTo(s[Find(s, sep).value + |sep|..], sep)
  {
    FindIsContains(s, sep);
  }

  /** An occurrence of a pattern contains an occurrence of its prefix. */
  lemma ContainsPrefix(s: string, pat: string, n: nat)
    requires n <= |pat|
    ensures Contains(s, pat) ==> Contains(s, pat[..n])
  {
    if Contains(s, pat) {
      var i :| 0 <= i <= |s| && OccursAt(s, pat, i);
      assert s[i..i + n] == pat[..n];
      assert OccursAt(s, pat[..n], i);
    }
  }

  /** Python's `sep.join(parts)`. */
  function Join(parts: seq<string>, sep: string): string
    requires |parts| >= 1
  {
    if |parts| == 1 then parts[0] else parts[0] + sep + Join(parts[1..], sep)
  }

  /** Python's `str.isspace` for one character. */
  predicate IsSpace(c: char) {
    var n := c as int;
    (9 <= n <= 13) || (28 <= n <= 32) || n == 0x85 || n == 0xA0 || n == 0x1680
    || (0x2000 <= n <= 0x200A) || n == 0x2028 || n == 0x2029 || n == 0x202F
    || n == 0x205F || n == 0x3000
  }

  predicate AllSpace(s: string) {
    forall i :: 0 <= i < |s| ==> IsSpace(s[i])
  }

  /** The first index at or after `i` that is not whitespace (`|s|` when
      there is none). */
  function SkipSpace(s: string, i: nat): (j: nat)
    requires i <= |s|
    decreases |s| - i
    ensures i <= j <= |s|
    ensures forall k :: i <= k < j ==> IsSpace(s[k])
    ensures j < |s| ==> !IsSpace(s[j])
  {
    if i == |s| || !IsSpace(s[i]) then i else SkipSpace(s, i + 1)
  }

  /** The end of `s[lo..hi]` once trailing whitespace is dropped. */
  function TrimEnd(s: string, lo: nat, hi: nat): (j: nat)
    requires lo <= hi <= |s|
    decreases hi - lo
    ensures lo <= j <= hi
    ensures forall k :: j <= k < hi ==> IsSpace(s[k])
    ensures j > lo ==> !IsSpace(s[j - 1])
  {
    if hi == lo || !IsSpace(s[hi - 1]) then hi else TrimEnd(s, lo, hi - 1)
  }

  /** `r` sits in `s` at index `i` with only whitespace around it. */
  predicate StrippedAt(s: string, r: string, i: int) {
    && 0 <= i && i + |r| <= |s| && r == s[i..i + |r|]
    && (forall k :: 0 <= k < i ==> IsSpace(s[k]))
    && (forall k :: i + |r| <= k < |s| ==> IsSpace(s[k]))
  }

  /** Python's `s.strip()`: the infix of `s` left after removing whitespace
      from both ends. */
  function Strip(s: string): (r: string)
    ensures |r| <= |s|
    ensures exists i :: StrippedAt(s, r, i)
    ensures |r| > 0 ==> !IsSpace(r[0]) && !IsSpace(r[|r| - 1])
    ensures AllSpace(s) <==> r == []
  {
    var a := SkipSpace(s, 0);
    var e := TrimEnd(s, a, |s|);
    assert StrippedAt(s, s[a..e], a);
    assert a < e ==> !AllSpace(s);
    s[a..e]
  }

  /** Python's `c.upper()` restricted to ASCII letters. */
  function UpperChar(c: char): (u: char)
    ensures 'a' <= c <= 'z' ==> u as int == c as int - 32
    ensures !('a' <= c <= 'z') ==> u == c
  {
    if 'a' <= c <= 'z' then (c as int - 32) as char else c
  }

  function Upper(s: string): (r: string)
    ensures |r| == |s|
    ensures forall i :: 0 <= i < |s| ==> r[i] == UpperChar(s[i])
  {
    seq(|s|, i requires 0 <= i < |s| => UpperChar(s[i]))
  }

  predicate IsDigit(c: char) {
    '0' <= c <= '9'
  }

  /** The value of a non-empty run of decimal digits. */
  function DigitsValue(s: string): (n: nat)
    requires forall i :: 0 <= i < |s| ==> IsDigit(s[i])
  {
    if |s| == 0 then 0
    else
      assert IsDigit(s[|s| - 1]);
      DigitsValue(s[..|s| - 1]) * 10 + (s[|s| - 1] as int - '0' as int)
  }

  /** Python's `int(s)` on a string: optional surrounding whitespace, an
      optional sign and at least one ASCII digit; `None` where Python raises
      `ValueError`. */
  function ParseInt(s: string): (r: Option<int>)
    ensures |s| == 1 && IsDigit(s[0]) ==> r == Some(s[0] as int - '0' as int)
    ensures AllSpace(s) ==> r.None?
    ensures (exists i :: 0 <= i < |s| && Foreign(s[i])) ==> r.None?
  {
    ParseIntCases(s);
    ParseSigned(Strip(s))
  }

  /** A character `int()` never accepts: not a digit, not whitespace and
      not a sign. */
  predicate Foreign(c: char) {
    !IsDigit(c) && !IsSpace(c) && c != '+' && c != '-'
  }

  /** `int()` once surrounding whitespace is gone: an optional sign, then
      digits only. */
  function ParseSigned(t: string): Option<int> {
    if |t| > 0 && (t[0] == '-' || t[0] == '+') then
      match ParseDigits(t[1..])
      case None => None
      case Some(v) => Some(if t[0] == '-' then -(v as int) else v)
    else ParseDigits(t)
  }

  /** A non-empty run of ASCII digits and its value. */
  function ParseDigits(d: string): (r: Option<nat>)
    ensures r.Some? <==> |d| > 0 && forall i :: 0 <= i < |d| ==> IsDigit(d[i])
  {
    if |d| == 0 || exists i :: 0 <= i < |d| && !IsDigit(d[i]) then None
    else Some(DigitsValue(d))
  }

  lemma ParseIntCases(s: string)
    ensures |s| == 1 && IsDigit(s[0]) ==> ParseSigned(Strip(s)) == Some(s[0] as int - '0' as int)
    ensures AllSpace(s) ==> ParseSigned(Strip(s)).None?
    ensures (exists i :: 0 <= i < |s| && Foreign(s[i])) ==> ParseSigned(Strip(s)).None?
  {
    StripSingle(s);
    if |s| == 1 && IsDigit(s[0]) {
      ParseDigit(s);
    }
    if AllSpace(s) {
      assert Strip(s) == [];
    }
    if exists i :: 0 <= i < |s| && Foreign(s[i]) {
      var i :| 0 <= i < |s| && Foreign(s[i]);
      ParseRejects(s, i);
    }
  }

  /** A foreign character survives `strip`, and lands among the digits. */
  lemma ParseRejects(s: string, i: nat)
    requires i < |s| && Foreign(s[i])
    ensures ParseSigned(Strip(s)).None?
  {
    var t := Strip(s);
    var a :| StrippedAt(s, t, a);
    assert !IsSpace(s[i]);
    assert a <= i < a + |t|;
    assert t[i - a] == s[i];
    SignedRejects(t, i - a);
  }

  lemma SignedRejects(t: string, k: nat)
    requires k < |t| && Foreign(t[k])
    ensures ParseSigned(t).None?
  {
    if t[0] == '-' || t[0] == '+' {
      assert k > 0 && t[1..][k - 1] == t[k];
    }
  }

  /** Digits with an optional sign and whitespace around them read as their
      signed decimal value: `int(" +02 ")` is 2, `int("-3")` is -3. */
  lemma ParseIntPadded(pre: string, sign: string, d: string, post: string)
    requires AllSpace(pre) && AllSpace(post)
    requires sign == "" || sign == "+" || sign == "-"
    requires |d| > 0 && forall i :: 0 <= i < |d| ==> IsDigit(d[i])
    ensures ParseInt(pre + (sign + d) + post) == Some(if sign == "-" then -(DigitsValue(d) as int) else DigitsValue(d))
  {
    var core := sign + d;
    var s := pre + core + post;
    SignedDigits(sign, d);
    StripPadded(pre, core, post);
    assert ParseInt(s) == ParseSigned(core);
  }

  /** Whitespace around text that neither starts nor ends with whitespace
      is exactly what `strip` removes. */
  lemma StripPadded(pre: string, core: string, post: string)
    requires AllSpace(pre) && AllSpace(post)
    requires |core| > 0 && !IsSpace(core[0]) && !IsSpace(core[|core| - 1])
    ensures Strip(pre + core + post) == core
  {
    var s := pre + core + post;
    var a, e := |pre|, |pre| + |core|;
    assert s[a] == core[0];
    assert s[e - 1] == core[|core| - 1];
    forall k | 0 <= k < a ensures IsSpace(s[k]) {
      assert s[k] == pre[k];
    }
    forall k | e <= k < |s| ensures IsSpace(s[k]) {
      assert s[k] == post[k - e];
    }
    SkipTo(s, 0, a);
    TrimTo(s, a, |s|, e);
    assert s[a..e] == core;
  }

  lemma SignedDigits(sign: string, d: string)
    requires sign == "" || sign == "+" || sign == "-"
    requires |d| > 0 && forall i :: 0 <= i < |d| ==> IsDigit(d[i])
    ensures |sign + d| > 0 && !IsSpace((sign + d)[0]) && !IsSpace((sign + d)[|sign + d| - 1])
    ensures ParseSigned(sign + d) == Some(if sign == "-" then -(DigitsValue(d) as int) else DigitsValue(d))
  {
    var t := sign + d;
    assert t[|t| - 1] == d[|d| - 1];
    if sign == "" {
      assert t == d;
    } else {
      assert t[0] == sign[0];
      assert t[1..] == d;
    }
  }

  lemma {:induction false} SkipTo(s: string, i: nat, j: nat)
    requires i <= j <= |s|
    requires forall k :: i <= k < j ==> IsSpace(s[k])
    requires j < |s| ==> !IsSpace(s[j])
    ensures SkipSpace(s, i) == j
    decreases j - i
  {
    if i < j {
      SkipTo(s, i + 1, j);
    }
  }

  lemma {:induction false} TrimTo(s: string, lo: nat, hi: nat, e: nat)
    requires lo <= e <= hi <= |s|
    requires forall k :: e <= k < hi ==> IsSpace(s[k])
    requires e > lo ==> !IsSpace(s[e - 1])
    ensures TrimEnd(s, lo, hi) == e
    decreases hi - e
  {
    if e < hi {
      TrimTo(s, lo, hi - 1, e);
    }
  }

  lemma ParseDigit(d: string)
    requires |d| == 1 && IsDigit(d[0])
    ensures ParseSigned(d) == Some(d[0] as int - '0' as int)
  {
    DigitsSingle(d);
  }

  lemma DigitsSingle(d: string)
    requires forall i :: 0 <= i < |d| ==> IsDigit(d[i])
    ensures |d| == 1 ==> DigitsValue(d) == d[0] as int - '0' as int
  {
    if |d| == 1 {
      assert d[..0] == [];
    }
  }

  /** A single non-space character survives `strip` unchanged. */
  lemma StripSingle(s: string)
    ensures |s| == 1 && !IsSpace(s[0]) ==> Strip(s) == s
  {
  }
}
