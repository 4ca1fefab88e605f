/**
 The translation wrapper (`Translator`, translator.py).

 The language model is an oracle: for one input text, what the primary model
 and the fallback model would produce, each either a response text or the
 message of the exception the call raised. The model records which models it
 queried, so that "the fallback is tried only when ..." can be stated.
 */
module Translator {

  /** What one `generate_content(...).text` call produced: the response text,
      or the message (`str(e)`) of the exception it raised. */
  datatype Reply = Answer(text: string) | Raised(message: string)

  datatype ModelId = Primary | Fallback

  /** The translated text and the models queried, in order. */
  datatype Outcome = Outcome(text: string, queried: seq<ModelId>)

  /** The style description `analyze_and_translate` always returns. */
  const StylePrompt := "High quality text, clean font, professional design"

  datatype Analysis = Analysis(translatedText: string, stylePrompt: string)

  // ---------------------------------------------------------------------
  // Cleaning a response

  /** The characters Python's `str.strip()` removes (`str.isspace`). */
  predicate IsSpace(c: char) {
    var n := c as int;
    || n == 0x20 || 0x09 <= n <= 0x0D || 0x1C <= n <= 0x1F || n == 0x85 || n == 0xA0
    || n == 0x1680 || 0x2000 <= n <= 0x200A || n == 0x2028 || n == 0x2029
    || n == 0x202F || n == 0x205F || n == 0x3000
  }

  /** The number of leading whitespace characters from `i` on. */
  function LeadLen(s: string, i: nat): (k: nat)
    requires i <= |s|
    ensures i + k <= |s|
    ensures forall j :: i <= j < i + k ==> IsSpace(s[j])
    ensures i + k == |s| || !IsSpace(s[i + k])
    decreases |s| - i
  {
    if i < |s| && IsSpace(s[i]) then 1 + LeadLen(s, i + 1) else 0
  }

  /** The index after the last non-whitespace character at or after `lo`. */
  function TrailEnd(s: string, lo: nat, hi: nat): (e: nat)
    requires lo <= hi <= |s|
    ensures lo <= e <= hi
    ensures forall j :: e <= j < hi ==> IsSpace(s[j])
    ensures e == lo || !IsSpace(s[e - 1])
    decreases hi
  {
    if lo < hi && IsSpace(s[hi - 1]) then TrailEnd(s, lo, hi - 1) else hi
  }

  /** `str.strip()`: the longest run left after removing whitespace from both
      ends. Everything removed is whitespace, and the result neither starts
      nor ends with whitespace. */
  function Strip(s: string): (r: string)
    ensures exists lo, hi :: 0 <= lo <= hi <= |s| && r == s[lo..hi]
              && (forall j :: 0 <= j < lo ==> IsSpace(s[j]))
              && (forall j :: hi <= j < |s| ==> IsSpace(s[j]))
    ensures |r| > 0 ==> !IsSpace(r[0]) && !IsSpace(r[|r| - 1])
  {
    var lo := LeadLen(s, 0);
    var hi := TrailEnd(s, lo, |s|);
    assert lo < hi ==> s[lo..hi][0] == s[lo] && s[lo..hi][hi - lo - 1] == s[hi - 1];
    s[lo..hi]
  }

  /** `a` can be obtained from `b` by deleting characters. */
  predicate IsSubsequence(a: string, b: string)
    decreases |b|
  {
    if |a| == 0 then true
    else if |b| == 0 then false
    else if a[0] == b[0] then IsSubsequence(a[1..], b[1..])
    else IsSubsequence(a, b[1..])
  }

  /** `s.replace(c, '')`: every `c` removed, every other character kept in order. */
  function Remove(s: string, c: char): (r: string)
    ensures c !in r
    ensures multiset(r) == multiset(s)[c := 0]
    ensures IsSubsequence(r, s)
    decreases |s|
  {
    if |s| == 0 then []
    else
      var rest := Remove(s[1..], c);
      assert s == [s[0]] + s[1..];
      if s[0] == c then
        SubsequenceSkip(rest, s);
        rest
      else
        [s[0]] + rest
  }

  /** Dropping the first character of the longer string keeps a subsequence one. */
  lemma {:induction false} SubsequenceSkip(a: string, b: string)
    requires |b| > 0 && IsSubsequence(a, b[1..])
    ensures IsSubsequence(a, b)
    decreases |a| + |b|
  {
    if |a| > 0 && a[0] == b[0] {
      SubsequenceDropHead(a, b[1..]);
    }
  }

  /** A subsequence without its first character is still a subsequence. */
  lemma {:induction false} SubsequenceDropHead(a: string, b: string)
    requires |a| > 0 && IsSubsequence(a, b)
    ensures IsSubsequence(a[1..], b)
    decreases |a| + |b|
  {
    if a[0] == b[0] {
      SubsequenceSkip(a[1..], b);
    } else {
      SubsequenceDropHead(a, b[1..]);
      SubsequenceSkip(a[1..], b);
    }
  }

  /** Being a subsequence is transitive. */
  lemma {:induction false} SubsequenceTrans(a: string, b: string, c: string)
    requires IsSubsequence(a, b) && IsSubsequence(b, c)
    ensures IsSubsequence(a, c)
    decreases |c|
  {
    if |a| > 0 {
      if b[0] == c[0] {
        if a[0] == b[0] {
          SubsequenceTrans(a[1..], b[1..], c[1..]);
        } else {
          SubsequenceTrans(a, b[1..], c[1..]);
        }
      } else {
        SubsequenceTrans(a, b, c[1..]);
        if a[0] == c[0] {
          SubsequenceDropHead(a, c[1..]);
        }
      }
    }
  }

  /** A subsequence is never longer. */
  lemma {:induction false} SubsequenceShorter(a: string, b: string)
    requires IsSubsequence(a, b)
    ensures |a| <= |b|
    decreases |b|
  {
    if |a| > 0 {
      if a[0] == b[0] {
        SubsequenceShorter(a[1..], b[1..]);
      } else {
        SubsequenceShorter(a, b[1..]);
      }
    }
  }

  predicate IsQuote(c: char) {
    c == '`' || c == '"' || c == '\''
  }

  /** The three `replace` calls, in source order. */
  function RemoveQuotes(s: string): (r: string)
    ensures '`' !in r && '"' !in r && '\'' !in r
    ensures IsSubsequence(r, s)
    ensures forall c :: !IsQuote(c) ==> multiset(r)[c] == multiset(s)[c]
  {
    var a := Remove(s, '`');
    var b := Remove(a, '"');
    var r := Remove(b, '\'');
    SubsequenceTrans(b, a, s);
    SubsequenceTrans(r, b, s);
    assert '"' !in r by {
      assert multiset(r)['"'] == multiset(b)['"'] == 0;
    }
    assert '`' !in r by {
      assert multiset(r)['`'] == multiset(b)['`'] == multiset(a)['`'] == 0;
    }
    r
  }

  /** The cleaning applied to every model reply: strip surrounding whitespace,
      then delete backticks, double quotes and single quotes. */
  function Clean(response: string): (r: string)
    ensures forall i :: 0 <= i < |r| ==> !IsQuote(r[i])
    ensures IsSubsequence(r, Strip(response)) && |r| <= |Strip(response)|
    ensures forall c :: !IsQuote(c) ==> multiset(r)[c] == multiset(Strip(response))[c]
  {
    var r := RemoveQuotes(Strip(response));
    SubsequenceShorter(r, Strip(response));
    assert forall i :: 0 <= i < |r| ==> r[i] in r;
    r
  }

  /** A response that is already clean (no quotes, no surrounding whitespace)
      comes back unchanged. */
  lemma CleanKeepsCleanText(t: string)
    requires forall i :: 0 <= i < |t| ==> !IsQuote(t[i])
    requires |t| > 0 ==> !IsSpace(t[0]) && !IsSpace(t[|t| - 1])
    ensures Clean(t) == t
  {
    assert Strip(t) == t by {
      if |t| > 0 {
        assert LeadLen(t, 0) == 0;
        assert TrailEnd(t, 0, |t|) == |t|;
      }
    }
    RemoveAbsent(t, '`');
    RemoveAbsent(t, '"');
    RemoveAbsent(t, '\'');
  }

  /** Removing a character that does not occur changes nothing. */
  lemma {:induction false} RemoveAbsent(s: string, c: char)
    requires c !in s
    ensures Remove(s, c) == s
    decreases |s|
  {
    if |s| > 0 {
      RemoveAbsent(s[1..], c);
    }
  }

  // ---------------------------------------------------------------------
  // Translation with fallback

  /** `s` contains `sub` somewhere (Python's `sub in s`). */
  predicate Contains(s: string, sub: string) {
    exists i :: 0 <= i <= |s| && OccursAt(s, sub, i)
  }

  predicate OccursAt(s: string, sub: string, i: nat) {
    i + |sub| <= |s| && s[i..i + |sub|] == sub
  }

  /** The fallback model is tried only after a "model not found" error. */
  predicate ShouldFallback(message: string) {
    Contains(message, "NOT_FOUND") || Contains(message, "404")
  }

  /** `Translator.translate`. `hasModel` says whether an API key configured a
      model; `primary` and `fallback` are what each model does with the prompt
      built from `text`. */
  function Translate(text: string, hasModel: bool, primary: Reply, fallback: Reply): (o: Outcome)
    ensures !hasModel ==> o == Outcome(text, [])
    ensures hasModel ==> |o.queried| >= 1 && o.queried[0] == Primary
    ensures Fallback in o.queried <==> hasModel && primary.Raised? && ShouldFallback(primary.message)
    ensures hasModel && primary.Answer? ==> o.text == Clean(primary.text)
    ensures o.text == text || (exists t :: (primary == Answer(t) || fallback == Answer(t)) && o.text == Clean(t))
  {
    if !hasModel then Outcome(text, [])
    else
      match primary
      case Answer(t) => Outcome(Clean(t), [Primary])
      case Raised(m) =>
        if ShouldFallback(m) then
          match fallback
          case Answer(t) => Outcome(Clean(t), [Primary, Fallback])
          case Raised(_) => Outcome(text, [Primary, Fallback])
        else Outcome(text, [Primary])
  }

  /** Any failure the fallback does not recover returns the input unchanged. */
  lemma UnrecoveredFailureKeepsText(text: string, primary: Reply, fallback: Reply)
    requires primary.Raised?
    requires !ShouldFallback(primary.message) || fallback.Raised?
    ensures Translate(text, true, primary, fallback).text == text
  {
  }

  /** A "not found" error recovered by the fallback gives the fallback's
      cleaned answer. */
  lemma FallbackRecovers(text: string, message: string, answer: string)
    requires ShouldFallback(message)
    ensures Translate(text, true, Raised(message), Answer(answer)) == Outcome(Clean(answer), [Primary, Fallback])
  {
  }

  /** Example messages: a 404 falls back, a quota error does not. */
  lemma FallbackDecisionExamples()
    ensures ShouldFallback("404 model not found")
    ensures ShouldFallback("model NOT_FOUND")
    ensures !ShouldFallback("quota exceeded")
  {
    assert OccursAt("404 model not found", "404", 0);
    assert OccursAt("model NOT_FOUND", "NOT_FOUND", 6);
    var m := "quota exceeded";
    assert '4' !in m && 'N' !in m;
    forall i: nat | i < |m|
      ensures !OccursAt(m, "404", i) && !OccursAt(m, "NOT_FOUND", i)
    {
      assert m[i] in m;
      if i + 3 <= |m| { assert m[i..i + 3][0] == m[i]; }
      if i + 9 <= |m| { assert m[i..i + 9][0] == m[i]; }
    }
  }

  /** `analyze_and_translate`: the translation of `text` and the fixed style. */
  function AnalyzeAndTranslate(text: string, hasModel: bool, primary: Reply, fallback: Reply): (a: Analysis)
    ensures a.translatedText == Translate(text, hasModel, primary, fallback).text
    ensures a.stylePrompt == StylePrompt
    ensures !hasModel ==> a.translatedText == text
  {
    Analysis(Translate(text, hasModel, primary, fallback).text, StylePrompt)
  }
}
