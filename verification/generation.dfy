/** The pure part of question generation: pulling the JSON out of the
    model's reply, wrapping a single object into a list, turning letter
    answers into indices and cutting the list to the requested length.
    Any failure along the way yields the empty list. The language model
    and the JSON parser are parameters. */
module Generation {
  import opened Wrappers
  import opened Text
  import Json

  const Fence: string := "```"
  const JsonFence: string := "```json"

  /** The text handed to the JSON parser: the body of the first
      "```json" block, else of the first "```" block, else the reply as
      it is. With a fence, the result is a stretch of the reply that
      starts after the first fence and holds no fence itself. */
  function ExtractJson(text: string): (r: string)
    ensures Contains(text, Fence) ==>
              Find(text, Fence).Some? && InfixFrom(text, r, Find(text, Fence).value + |Fence|)
    ensures Contains(text, Fence) ==> !Contains(r, Fence)
  {
    FindIsContains(text, Fence);
    if Contains(text, JsonFence) then
      var after := Split(text, JsonFence);
      BlockInfix(text, JsonFence);
      FenceNoLater(text);
      InfixLater(text, Strip(Split(after[1], Fence)[0]), Find(text, Fence).value + |Fence|,
                 Find(text, JsonFence).value + |JsonFence|);
      Strip(Split(after[1], Fence)[0])
    else if Contains(text, Fence) then
      var after := Split(text, Fence);
      BlockInfix(text, Fence);
      Strip(Split(after[1], Fence)[0])
    else text
  }

  /** `r` occurs in `text` at some index `lo` or later. */
  predicate InfixFrom(text: string, r: string, lo: nat) {
    exists a :: lo <= a <= |text| && OccursAt(text, r, a)
  }

  /** An occurrence at `hi` or later is one at `lo` or later. */
  lemma InfixLater(text: string, r: string, lo: nat, hi: nat)
    requires lo <= hi && InfixFrom(text, r, hi)
    ensures InfixFrom(text, r, lo)
  {
    var a :| hi <= a <= |text| && OccursAt(text, r, a);
    assert lo <= a <= |text| && OccursAt(text, r, a);
  }

  /** The first "```" comes no later than the first "```json". */
  lemma FenceNoLater(text: string)
    requires Contains(text, JsonFence)
    ensures Find(text, JsonFence).Some? && Find(text, Fence).Some?
    ensures Find(text, Fence).value <= Find(text, JsonFence).value
  {
    FindIsContains(text, JsonFence);
    var f := Find(text, JsonFence).value;
    assert text[f..f + |Fence|] == JsonFence[..3] == Fence;
    assert OccursAt(text, Fence, f);
    FindIsContains(text, Fence);
  }

  /** The stripped first piece of the text after the first `open` lies in
      the reply after that `open`, and holds no fence. */
  lemma BlockInfix(text: string, open: string)
    requires |open| >= |Fence| && Contains(text, open)
    ensures |Split(text, open)| >= 2 && Find(text, open).Some?
    ensures InfixFrom(text, Strip(Split(Split(text, open)[1], Fence)[0]), Find(text, open).value + |open|)
    ensures !Contains(Strip(Split(Split(text, open)[1], Fence)[0]), Fence)
  {
    SplitSecond(text, open);
    var a := Find(text, open).value + |open|;
    CutInfix(text, a, open, a);
    StripKeepsOut(Split(Split(text, open)[1], Fence)[0], Fence);
  }

  /** Text free of `pat` stays free of it once stripped. */
  lemma StripKeepsOut(q: string, pat: string)
    requires !Contains(q, pat)
    ensures !Contains(Strip(q), pat)
  {
    var r := Strip(q);
    var b :| StrippedAt(q, r, b);
    assert OccursAt(q, r, b);
    forall c | 0 <= c <= |r| && OccursAt(r, pat, c) ensures false {
      InfixStep(q, r, pat, b, c);
    }
  }

  /** The stripped text before the first fence, within the text before the
      first `sep`, within the suffix of the reply from `a`, lies in the
      reply at `a` or later. */
  lemma CutInfix(text: string, a: nat, sep: string, lo: nat)
    requires lo <= a <= |text|
    ensures InfixFrom(text, Strip(UpTo(UpTo(text[a..], sep), Fence)), lo)
  {
    var rest := text[a..];
    var p := UpTo(rest, sep);
    var q := UpTo(p, Fence);
    var r := Strip(q);
    var b :| StrippedAt(q, r, b);
    assert OccursAt(text, rest, a);
    assert OccursAt(rest, p, 0);
    assert OccursAt(p, q, 0);
    assert OccursAt(q, r, b);
    InfixStep(text, rest, p, a, 0);
    InfixStep(text, p, q, a, 0);
    InfixStep(text, q, r, a, b);
  }

  /** An occurrence inside an occurrence is an occurrence. */
  lemma InfixStep(s: string, p: string, q: string, a: nat, b: nat)
    requires OccursAt(s, p, a) && OccursAt(p, q, b)
    ensures OccursAt(s, q, a + b)
  {
    forall i | 0 <= i < |q| ensures s[a + b + i] == q[i] {
      assert s[a..a + |p|][b + i] == p[b + i];
    }
  }

  /** A reply without any fence reaches the parser unchanged. */
  lemma UnfencedUnchanged(text: string)
    requires !Contains(text, Fence)
    ensures ExtractJson(text) == text
  {
    assert JsonFence[..3] == Fence;
    ContainsPrefix(text, JsonFence, 3);
  }

  /** The "```json" case. With `rest` the text after the first "```json",
      the body ends at the first "```" of `rest`. When a further "```json"
      starts one or two characters after that fence (a run of four or five
      backticks before "json"), the body ends at that "```json" instead,
      keeping the extra backticks. Without a closing fence the body is all
      of `rest`. */
  lemma JsonBlockExtracted(text: string)
    requires Contains(text, JsonFence)
    ensures Find(text, JsonFence).Some?
    ensures var rest := text[Find(text, JsonFence).value + |JsonFence|..];
      var k, j := Find(rest, Fence), Find(rest, JsonFence);
      && (j.Some? ==> k.Some? && k.value <= j.value)
      && (k.None? ==> ExtractJson(text) == Strip(rest))
      && (k.Some? && (j.None? || j.value == k.value || k.value + |Fence| <= j.value)
          ==> ExtractJson(text) == Strip(rest[..k.value]))
      && (k.Some? && j.Some? && k.value < j.value < k.value + |Fence|
          ==> ExtractJson(text) == Strip(rest[..j.value]))
  {
    JsonCase(text);
    var rest := text[Find(text, JsonFence).value + |JsonFence|..];
    BodyEnd(rest);
  }

  /** In the "```json" case the body is the part of `rest` before the next
      "```json", cut at its first "```". */
  lemma JsonCase(text: string)
    requires Contains(text, JsonFence)
    ensures Find(text, JsonFence).Some?
    ensures ExtractJson(text)
            == Strip(UpTo(UpTo(text[Find(text, JsonFence).value + |JsonFence|..], JsonFence), Fence))
  {
    FindIsContains(text, JsonFence);
    SplitSecond(text, JsonFence);
  }

  /** Where the body of a "```json" block ends within `rest`. */
  lemma BodyEnd(rest: string)
    ensures var k, j := Find(rest, Fence), Find(rest, JsonFence);
      var body := UpTo(UpTo(rest, JsonFence), Fence);
      && (j.Some? ==> k.Some? && k.value <= j.value)
      && (k.None? ==> body == rest)
      && (k.Some? && (j.None? || j.value == k.value || k.value + |Fence| <= j.value) ==> body == rest[..k.value])
      && (k.Some? && j.Some? && k.value < j.value < k.value + |Fence| ==> body == rest[..j.value])
  {
    var p := UpTo(rest, JsonFence);
    var k, j := Find(rest, Fence), Find(rest, JsonFence);
    FindIsContains(rest, JsonFence);
    if j.Some? {
      assert rest[j.value..j.value + |Fence|] == JsonFence[..3] == Fence;
      assert OccursAt(rest, Fence, j.value);
      assert p == rest[..j.value];
      var kv := k.value;
      if kv + |Fence| <= j.value {
        FindInPrefix(rest, Fence, kv, j.value);
      } else {
        BeforeFirst(rest, Fence, kv, j.value);
        FindIsContains(p, Fence);
      }
    } else {
      assert p == rest;
    }
  }

  /** The plain "```" case, in a reply with no "```json": the body is the
      text after the first fence up to the next one, or to the end when
      there is none. */
  lemma PlainBlockExtracted(text: string)
    requires !Contains(text, JsonFence) && Contains(text, Fence)
    ensures Find(text, Fence).Some?
    ensures var rest := text[Find(text, Fence).value + |Fence|..];
      var k := Find(rest, Fence);
      && (k.None? ==> ExtractJson(text) == Strip(rest))
      && (k.Some? ==> ExtractJson(text) == Strip(rest[..k.value]))
  {
    FindIsContains(text, Fence);
    SplitSecond(text, Fence);
    var rest := text[Find(text, Fence).value + |Fence|..];
    var p := UpTo(rest, Fence);
    assert !Contains(p, Fence);
    assert ExtractJson(text) == Strip(p);
  }

  /** `json.loads` may return a single object; it is wrapped into a list. */
  function AsList(v: Json.Value): (r: seq<Json.Value>)
    ensures v.Arr? ==> r == v.items
    ensures !v.Arr? ==> r == [v]
  {
    if v.Arr? then v.items else [v]
  }

  const AnswerKey: string := "correct_answer"

  /** The index a one-letter answer names: `ord(c.upper()) - ord("A")`. */
  function LetterIndex(c: char): int {
    UpperChar(c) as int - 'A' as int
  }

  /** Answers `int()` accepts once a string answer has become an index:
      integers, booleans and strings of one character (after upper-casing,
      which keeps the length of ASCII text). */
  predicate Normalizable(v: Json.Value) {
    match v
    case Num(_) => true
    case Bool(_) => true
    case Str(s) => |s| == 1
    case _ => false
  }

  /** The answer-normalising step for one question: a string answer must
      upper-case to a single character and becomes its distance from "A";
      integers stay, booleans become 0 or 1; a missing answer, a null, a
      list or an object, or a question that is not an object, raises. */
  function Normalize(q: Json.Value): (r: Option<Json.Value>)
    ensures r.Some? ==> q.Obj? && r.value.Obj? && AnswerKey in r.value.fields
                        && r.value.fields[AnswerKey].Num?
    ensures r.Some? ==> r.value.fields.Keys == q.fields.Keys
    ensures r.Some? ==> forall k :: k in q.fields && k != AnswerKey ==> r.value.fields[k] == q.fields[k]
    ensures r.Some? <==> q.Obj? && AnswerKey in q.fields && Normalizable(q.fields[AnswerKey])
  {
    match q
    case Obj(fields) =>
      if AnswerKey !in fields then None
      else
        (match fields[AnswerKey]
         case Str(s) =>
           var u := Upper(s);
           if |u| == 1 then Some(Json.Obj(fields[AnswerKey := Json.Num(LetterIndex(s[0]))]))
           else None
         case Num(_) => Some(q)
         case Bool(b) => Some(Json.Obj(fields[AnswerKey := Json.Num(if b then 1 else 0)]))
         case _ => None)
    case _ => None
  }

  /** The index a normalised question carries. */
  function AnswerOf(q: Json.Value): Option<int> {
    if q.Obj? && AnswerKey in q.fields && q.fields[AnswerKey].Num? then Some(q.fields[AnswerKey].n)
    else None
  }

  /** Letter answers in either case map to their alphabet position: "B"
      and "b" both become 1. */
  lemma LetterAnswer(fields: map<string, Json.Value>, c: char)
    requires AnswerKey in fields && fields[AnswerKey] == Json.Str([c])
    ensures Normalize(Json.Obj(fields)).Some?
    ensures AnswerOf(Normalize(Json.Obj(fields)).value) == Some(LetterIndex(c))
    ensures 'A' <= c <= 'Z' ==> LetterIndex(c) == c as int - 'A' as int
    ensures 'a' <= c <= 'z' ==> LetterIndex(c) == c as int - 'a' as int
  {
  }

  /** Normalising twice changes nothing further. */
  lemma NormalizeIdempotent(q: Json.Value)
    requires Normalize(q).Some?
    ensures Normalize(Normalize(q).value) == Normalize(q)
  {
  }

  /** An integer answer is kept as it is. */
  lemma IntegerAnswerKept(q: Json.Value)
    requires q.Obj? && AnswerKey in q.fields && q.fields[AnswerKey].Num?
    ensures Normalize(q) == Some(q)
  {
  }

  /** The loop over all questions: one failure anywhere fails the batch. */
  function NormalizeAll(qs: seq<Json.Value>): (r: Option<seq<Json.Value>>)
    ensures r.Some? <==> forall i :: 0 <= i < |qs| ==> Normalize(qs[i]).Some?
    ensures r.Some? ==> |r.value| == |qs| && forall i :: 0 <= i < |qs| ==> r.value[i] == Normalize(qs[i]).value
  {
    if |qs| == 0 then Some([])
    else
      match (Normalize(qs[0]), NormalizeAll(qs[1..]))
      case (Some(q), Some(rest)) =>
        assert forall i :: 1 <= i < |qs| ==> qs[i] == qs[1..][i - 1];
        Some([q] + rest)
      case (None, _) => None
      case (_, None) =>
        assert forall i :: 1 <= i < |qs| ==> qs[i] == qs[1..][i - 1];
        None
  }

  /** Python's `xs[:n]`: a negative `n` drops that many from the end. */
  function Slice<T>(xs: seq<T>, n: int): (r: seq<T>)
    ensures n >= 0 ==> |r| == (if n < |xs| then n else |xs|)
    ensures n < 0 ==> |r| == (if -n < |xs| then |xs| + n else 0)
    ensures r == xs[..|r|]
  {
    if n >= 0 then (if n < |xs| then xs[..n] else xs)
    else if -n < |xs| then xs[..|xs| + n]
    else []
  }

  /** What the model call produced: an exception, or a reply text. */
  datatype Reply = Raised | Replied(text: string)

  /** `generate_questions` after the prompt is sent: the questions of the
      reply, answers normalised, at most `n` of them; the empty list when
      the API key is missing, the call raises, the JSON does not parse or
      an answer cannot be normalised. */
  function GenerateQuestions(apiKeySet: bool, n: int, reply: Reply,
                             decode: string -> Option<Json.Value>): (r: seq<Json.Value>)
    ensures !apiKeySet || reply.Raised? ==> r == []
    ensures apiKeySet && reply.Replied? && decode(ExtractJson(reply.text)).None? ==> r == []
    ensures forall i :: 0 <= i < |r| ==> AnswerOf(r[i]).Some?
    ensures n >= 0 ==> |r| <= n
  {
    if !apiKeySet then []
    else
      match reply
      case Raised => []
      case Replied(text) =>
        match decode(ExtractJson(text))
        case None => []
        case Some(v) =>
          match NormalizeAll(AsList(v))
          case None => []
          case Some(qs) =>
            SliceAnswered(AsList(v), n);
            Slice(qs, n)
  }

  /** Every question of a normalised batch, and so of any prefix of it,
      carries an integer answer. */
  lemma SliceAnswered(xs: seq<Json.Value>, n: int)
    requires NormalizeAll(xs).Some?
    ensures forall i :: 0 <= i < |Slice(NormalizeAll(xs).value, n)| ==> AnswerOf(Slice(NormalizeAll(xs).value, n)[i]).Some?
  {
    var qs := NormalizeAll(xs).value;
    var r := Slice(qs, n);
    forall i | 0 <= i < |r| ensures AnswerOf(r[i]).Some? {
      assert r[i] == qs[i] == Normalize(xs[i]).value;
    }
  }

  /** A reply whose questions all normalise gives their first `n`, in
      order; one question that does not normalise, even beyond the first
      `n`, empties the result. */
  lemma GenerateIsPrefix(n: int, text: string, decode: string -> Option<Json.Value>)
    requires decode(ExtractJson(text)).Some?
    ensures var qs := AsList(decode(ExtractJson(text)).value);
      var r := GenerateQuestions(true, n, Replied(text), decode);
      && ((exists i :: 0 <= i < |qs| && Normalize(qs[i]).None?) ==> r == [])
      && ((forall i :: 0 <= i < |qs| ==> Normalize(qs[i]).Some?) ==>
            |r| == |Slice(qs, n)| && forall i :: 0 <= i < |r| ==> r[i] == Normalize(qs[i]).value)
  {
  }

  /** A reply holding one question object, not a list, yields that one
      question whenever at least one is requested. */
  lemma SingleObjectWrapped(n: int, text: string, decode: string -> Option<Json.Value>)
    requires n >= 1
    requires decode(ExtractJson(text)).Some? && decode(ExtractJson(text)).value.Obj?
    requires Normalize(decode(ExtractJson(text)).value).Some?
    ensures GenerateQuestions(true, n, Replied(text), decode) == [Normalize(decode(ExtractJson(text)).value).value]
  {
    var v := decode(ExtractJson(text)).value;
    assert AsList(v) == [v];
    GenerateIsPrefix(n, text, decode);
  }
}
