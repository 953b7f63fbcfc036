/**
 * The passcode detector `findOTPInText` (OTPExtractor.swift).
 *
 * The source finds the matches of the regular expression `\b\d{3,9}\b`,
 * scores each by its length and by keywords of the whole lower-cased text,
 * and returns the first match whose score is above 2. Characters are
 * modelled as ASCII: `\d` is `0`-`9` and a word character (`\w`, which
 * decides `\b`) is a letter, a digit or `_`.
 */
module Detector {
  import opened Wrappers

  predicate IsDigit(c: char) { '0' <= c <= '9' }

  predicate IsWordChar(c: char) { IsDigit(c) || 'a' <= c <= 'z' || 'A' <= c <= 'Z' || c == '_' }

  /** The bounds of the quantifier `{3,9}`. */
  const MinDigits: nat := 3
  const MaxDigits: nat := 9

  /** A code is returned only when its score is strictly above this. */
  const Threshold: int := 2

  const OtpKeywords: seq<string> := ["code", "verify", "verification", "otp", "login", "security", "confirm", "access"]
  const BadKeywords: seq<string> := ["price", "total", "phone", "year", "$"]

  /** The number of consecutive digits of `t` from position `i`: the maximal digit run there. */
  function DigitRun(t: string, i: nat): (n: nat)
    requires i <= |t|
    ensures i + n <= |t|
    ensures forall k :: i <= k < i + n ==> IsDigit(t[k])
    ensures i + n == |t| || !IsDigit(t[i + n])
    decreases |t| - i
  {
    if i < |t| && IsDigit(t[i]) then 1 + DigitRun(t, i + 1) else 0
  }

  /** `\b` in front of a digit at `i`: the text starts there or the character before is not a word character. */
  predicate BoundaryBefore(t: string, i: nat)
    requires i <= |t|
  {
    i == 0 || !IsWordChar(t[i - 1])
  }

  /** `\b` after a digit ending at `j`: the text ends there or the next character is not a word character. */
  predicate BoundaryAfter(t: string, j: nat)
    requires j <= |t|
  {
    j == |t| || !IsWordChar(t[j])
  }

  /** A stretch `t[start..start + len]` of the text. */
  datatype Span = Span(start: nat, len: nat)

  /**
   * `t[s..s + n]` is a match of `\b\d{3,9}\b`, described without any scan
   * order: 3 to 9 digits with a word boundary on each side.
   */
  ghost predicate IsMatch(t: string, s: nat, n: nat) {
    && s + n <= |t|
    && MinDigits <= n <= MaxDigits
    && (forall k :: s <= k < s + n ==> IsDigit(t[k]))
    && BoundaryBefore(t, s)
    && BoundaryAfter(t, s + n)
  }

  /**
   * The matches the regular-expression engine reports from position `i` on:
   * it tries `i`; on a match it resumes after it, otherwise at `i + 1`.
   * At `i` the greedy `\d{3,9}` can only end its match where `\b` holds, and
   * inside a digit run it never does, so the whole run is the only candidate.
   */
  function MatchesFrom(t: string, i: nat): (ms: seq<Span>)
    requires i <= |t|
    ensures forall m :: m in ms ==> i <= m.start && m.start + m.len <= |t|
    decreases |t| - i
  {
    if i == |t| then []
    else
      var n := DigitRun(t, i);
      if BoundaryBefore(t, i) && MinDigits <= n <= MaxDigits && BoundaryAfter(t, i + n) then
        [Span(i, n)] + MatchesFrom(t, i + n)
      else
        MatchesFrom(t, i + 1)
  }

  /** All matches of `\b\d{3,9}\b` in `t`, left to right (`regex.matches`). */
  function Matches(t: string): (ms: seq<Span>)
    ensures forall m :: m in ms ==> m.start + m.len <= |t|
  {
    MatchesFrom(t, 0)
  }

  /** A match is unique given its start: the digit run there fixes its length. */
  lemma MatchLengthIsRun(t: string, s: nat, n: nat)
    requires IsMatch(t, s, n)
    ensures n == DigitRun(t, s)
  {
    var r := DigitRun(t, s);
    assert s + n == |t| || !IsDigit(t[s + n]);
    assert s + r == |t| || !IsDigit(t[s + r]);
  }

  /** The engine reports only matches. */
  lemma {:induction false} MatchesFromSound(t: string, i: nat)
    requires i <= |t|
    ensures forall m :: m in MatchesFrom(t, i) ==> IsMatch(t, m.start, m.len)
    decreases |t| - i
  {
    if i < |t| {
      var n := DigitRun(t, i);
      if BoundaryBefore(t, i) && MinDigits <= n <= MaxDigits && BoundaryAfter(t, i + n) {
        MatchesFromSound(t, i + n);
        assert IsMatch(t, i, n);
        assert MatchesFrom(t, i) == [Span(i, n)] + MatchesFrom(t, i + n);
      } else {
        MatchesFromSound(t, i + 1);
        assert MatchesFrom(t, i) == MatchesFrom(t, i + 1);
      }
    }
  }

  /** The engine reports matches left to right, each after the end of the one before. */
  lemma {:induction false} MatchesFromOrdered(t: string, i: nat)
    requires i <= |t|
    ensures forall a, b :: 0 <= a < b < |MatchesFrom(t, i)| ==>
      MatchesFrom(t, i)[a].start + MatchesFrom(t, i)[a].len <= MatchesFrom(t, i)[b].start
    decreases |t| - i
  {
    if i < |t| {
      var n := DigitRun(t, i);
      if BoundaryBefore(t, i) && MinDigits <= n <= MaxDigits && BoundaryAfter(t, i + n) {
        MatchesFromOrdered(t, i + n);
        var rest := MatchesFrom(t, i + n);
        var ms := [Span(i, n)] + rest;
        assert MatchesFrom(t, i) == ms;
        forall a, b | 0 <= a < b < |ms| ensures ms[a].start + ms[a].len <= ms[b].start {
          var y := rest[b - 1];
          assert y in rest && ms[b] == y;
          if a > 0 {
            assert ms[a] == rest[a - 1];
          }
        }
      } else {
        MatchesFromOrdered(t, i + 1);
        assert MatchesFrom(t, i) == MatchesFrom(t, i + 1);
      }
    }
  }

  /** The engine misses no match: every match from `i` on is reported. */
  lemma {:induction false} MatchesFromComplete(t: string, i: nat, s: nat, n: nat)
    requires i <= s && IsMatch(t, s, n)
    ensures Span(s, n) in MatchesFrom(t, i)
    decreases |t| - i
  {
    var r := DigitRun(t, i);
    if BoundaryBefore(t, i) && MinDigits <= r <= MaxDigits && BoundaryAfter(t, i + r) {
      assert MatchesFrom(t, i) == [Span(i, r)] + MatchesFrom(t, i + r);
      if s == i {
        MatchLengthIsRun(t, s, n);
      } else {
        // A match cannot start inside the digit run that begins at i.
        assert !IsDigit(t[s - 1]);
        assert i + r <= s;
        MatchesFromComplete(t, i + r, s, n);
      }
    } else {
      assert MatchesFrom(t, i) == MatchesFrom(t, i + 1);
      if s == i {
        MatchLengthIsRun(t, s, n);
        assert false;
      }
      MatchesFromComplete(t, i + 1, s, n);
    }
  }

  /** `Matches(t)` holds exactly the matches of `t`, in increasing, non-overlapping order. */
  lemma MatchesExactly(t: string)
    ensures forall s, n :: Span(s, n) in Matches(t) <==> IsMatch(t, s, n)
    ensures forall a, b :: 0 <= a < b < |Matches(t)| ==> Matches(t)[a].start + Matches(t)[a].len <= Matches(t)[b].start
  {
    assert Matches(t) == MatchesFrom(t, 0);
    MatchesFromSound(t, 0);
    MatchesFromOrdered(t, 0);
    forall s, n | IsMatch(t, s, n) ensures Span(s, n) in Matches(t) {
      MatchesFromComplete(t, 0, s, n);
    }
  }

  /** ASCII `lowercased()`. */
  function ToLower(c: char): char {
    if 'A' <= c <= 'Z' then (c as int + 32) as char else c
  }

  function Lowercase(s: string): string {
    seq(|s|, i requires 0 <= i < |s| => ToLower(s[i]))
  }

  /** `s.contains(k)`. */
  predicate Contains(s: string, k: string) {
    exists i :: 0 <= i <= |s| && k <= s[i..]
  }

  /** Some context keyword occurs in the lower-cased text. */
  predicate HasOtpKeyword(lower: string) {
    exists j :: 0 <= j < |OtpKeywords| && Contains(lower, OtpKeywords[j])
  }

  /** How many of the keywords `kws` occur in the lower-cased text. */
  function KeywordCount(lower: string, kws: seq<string>): (c: nat)
    ensures c <= |kws|
  {
    if kws == [] then 0
    else KeywordCount(lower, kws[..|kws| - 1]) + (if Contains(lower, kws[|kws| - 1]) then 1 else 0)
  }

  /** The count is 0 exactly when no keyword occurs, and `|kws|` exactly when every keyword occurs. */
  lemma {:induction false} KeywordCountMeaning(lower: string, kws: seq<string>)
    ensures KeywordCount(lower, kws) == 0 <==> forall j :: 0 <= j < |kws| ==> !Contains(lower, kws[j])
    ensures KeywordCount(lower, kws) == |kws| <==> forall j :: 0 <= j < |kws| ==> Contains(lower, kws[j])
  {
    if kws != [] {
      var init := kws[..|kws| - 1];
      KeywordCountMeaning(lower, init);
      assert forall j :: 0 <= j < |init| ==> init[j] == kws[j];
    }
  }

  /** The part of the score that depends on the match: 3 for 4 to 6 digits, 1 otherwise. */
  function LengthScore(n: nat): int {
    if 4 <= n <= 6 then 3 else 1
  }

  /**
   * The part of the score that depends on the whole text: 2 once when any
   * context keyword occurs, and 2 less for each bad keyword that occurs.
   */
  function ContextScore(text: string): int {
    var lower := Lowercase(text);
    (if HasOtpKeyword(lower) then 2 else 0) - 2 * KeywordCount(lower, BadKeywords)
  }

  /** The score of an `n`-digit match in `text`. */
  function Score(text: string, n: nat): int {
    LengthScore(n) + ContextScore(text)
  }

  /** The index of the first span in `ms` whose length score plus `context` is above the threshold, or `|ms|`. */
  function FirstAbove(context: int, ms: seq<Span>): (j: nat)
    ensures j <= |ms|
    ensures j < |ms| ==> LengthScore(ms[j].len) + context > Threshold
    ensures forall k :: 0 <= k < j ==> LengthScore(ms[k].len) + context <= Threshold
  {
    if ms == [] then 0
    else if LengthScore(ms[0].len) + context > Threshold then 0
    else 1 + FirstAbove(context, ms[1..])
  }

  /** `findOTPInText` as a function of the text. */
  function Detect(text: string): Option<string> {
    var ms := Matches(text);
    var j := FirstAbove(ContextScore(text), ms);
    if j < |ms| then
      assert ms[j] in ms;
      Some(text[ms[j].start..ms[j].start + ms[j].len])
    else None
  }

  /** A match whose score is above the threshold. */
  ghost predicate Qualifies(t: string, s: nat, n: nat) {
    IsMatch(t, s, n) && Score(t, n) > Threshold
  }

  /** The detector returns nothing exactly when no match of the text scores above 2. */
  lemma DetectNoneIffNoneQualifies(t: string)
    ensures Detect(t).None? <==> forall s: nat, n: nat :: IsMatch(t, s, n) ==> Score(t, n) <= Threshold
  {
    var ms := Matches(t);
    MatchesExactly(t);
    var j := FirstAbove(ContextScore(t), ms);
    if j == |ms| {
      forall s: nat, n: nat | IsMatch(t, s, n) ensures Score(t, n) <= Threshold {
        var k :| 0 <= k < |ms| && ms[k] == Span(s, n);
      }
    } else {
      assert ms[j] in ms;
    }
  }

  /**
   * What the detector returns, stated without the scan: the text of the
   * leftmost match that scores above 2; every match to its left scores at
   * most 2.
   */
  lemma DetectIsLeftmostQualifying(t: string)
    requires Detect(t).Some?
    ensures exists s: nat, n: nat :: (Qualifies(t, s, n) && Detect(t).value == t[s..s + n]
      && forall s': nat, n': nat :: IsMatch(t, s', n') && s' < s ==> Score(t, n') <= Threshold)
  {
    var ms := Matches(t);
    var context := ContextScore(t);
    var j := FirstAbove(context, ms);
    DetectAt(t);
    var s, n := FirstAboveIsLeftmost(t, context);
    assert Qualifies(t, s, n);
  }

  /** A returned code is the text of the first match whose score is above 2. */
  lemma DetectAt(t: string)
    requires Detect(t).Some?
    ensures FirstAbove(ContextScore(t), Matches(t)) < |Matches(t)|
    ensures var ms := Matches(t); var j := FirstAbove(ContextScore(t), ms);
      Detect(t).value == t[ms[j].start..ms[j].start + ms[j].len]
  {
  }

  /**
   * For any context score, the first span above the threshold is a match,
   * and every match to its left is at or below the threshold.
   */
  lemma FirstAboveIsLeftmost(t: string, context: int) returns (s: nat, n: nat)
    requires FirstAbove(context, Matches(t)) < |Matches(t)|
    ensures Matches(t)[FirstAbove(context, Matches(t))] == Span(s, n)
    ensures IsMatch(t, s, n) && LengthScore(n) + context > Threshold
    ensures forall s': nat, n': nat :: IsMatch(t, s', n') && s' < s ==> LengthScore(n') + context <= Threshold
  {
    var ms := Matches(t);
    var j := FirstAbove(context, ms);
    s, n := ms[j].start, ms[j].len;
    MatchAt(t, j);
    forall s': nat, n': nat | IsMatch(t, s', n') && s' < s ensures LengthScore(n') + context <= Threshold {
      MatchesFromComplete(t, 0, s', n');
      var k :| 0 <= k < |ms| && ms[k] == Span(s', n');
      if j < k {
        MatchesOrderedAt(t, j, k);
      }
      assert k < j;
    }
  }

  /** Each reported span is a match. */
  lemma MatchAt(t: string, j: nat)
    requires j < |Matches(t)|
    ensures IsMatch(t, Matches(t)[j].start, Matches(t)[j].len)
  {
    MatchesFromSound(t, 0);
    assert Matches(t)[j] in Matches(t);
  }

  /** Reported spans come left to right. */
  lemma MatchesOrderedAt(t: string, a: nat, b: nat)
    requires a < b < |Matches(t)|
    ensures Matches(t)[a].start + Matches(t)[a].len <= Matches(t)[b].start
  {
    MatchesFromOrdered(t, 0);
  }

  /** The text of a match is 3 to 9 digits with a word boundary on each side. */
  lemma MatchTextShape(t: string, s: nat, n: nat) returns (c: string)
    requires IsMatch(t, s, n)
    ensures c == t[s..s + n]
    ensures MinDigits <= |c| <= MaxDigits
    ensures forall k :: 0 <= k < |c| ==> IsDigit(c[k])
  {
    c := t[s..s + n];
    forall k | 0 <= k < n ensures IsDigit(c[k]) {
      assert c[k] == t[s + k];
    }
  }

  /** A returned code is 3 to 9 digits, word-bounded on both sides, lifted out of the text. */
  lemma DetectedCodeShape(t: string)
    requires Detect(t).Some?
    ensures MinDigits <= |Detect(t).value| <= MaxDigits
    ensures forall k :: 0 <= k < |Detect(t).value| ==> IsDigit(Detect(t).value[k])
    ensures exists s: nat :: (s + |Detect(t).value| <= |t| && t[s..s + |Detect(t).value|] == Detect(t).value
      && BoundaryBefore(t, s) && BoundaryAfter(t, s + |Detect(t).value|))
  {
    var ms := Matches(t);
    var context := ContextScore(t);
    var j := FirstAbove(context, ms);
    DetectAt(t);
    var s, n := FirstAboveIsLeftmost(t, context);
    var c := MatchTextShape(t, s, n);
    assert Detect(t).value == c;
  }

  /**
   * A run of ten or more digits takes part in no match: no match covers
   * any position of it.
   */
  lemma LongRunNeverMatches(t: string, a: nat, b: nat, s: nat, n: nat)
    requires a <= b <= |t| && b - a > MaxDigits
    requires forall k :: a <= k < b ==> IsDigit(t[k])
    requires IsMatch(t, s, n)
    ensures s + n <= a || b <= s
  {
    assert s == 0 || !IsDigit(t[s - 1]);
    assert s + n == |t| || !IsDigit(t[s + n]);
  }

  /**
   * Digits glued to a letter or an underscore take part in no match: a
   * match never covers the position on either side of such a character.
   */
  lemma GluedDigitsNeverMatch(t: string, j: nat, s: nat, n: nat)
    requires j < |t| && IsWordChar(t[j]) && !IsDigit(t[j])
    requires IsMatch(t, s, n)
    ensures j + 1 < s || s + n < j
  {
  }

  /**
   * Without a context keyword, or with a bad keyword, only 4 to 6 digit
   * codes can come out: a 3-digit or 7 to 9 digit code is returned only
   * when a context keyword occurs and no bad keyword does.
   */
  lemma OddLengthCodeNeedsCleanKeyword(t: string)
    requires Detect(t).Some? && !(4 <= |Detect(t).value| <= 6)
    ensures HasOtpKeyword(Lowercase(t)) && KeywordCount(Lowercase(t), BadKeywords) == 0
    ensures forall j :: 0 <= j < |BadKeywords| ==> !Contains(Lowercase(t), BadKeywords[j])
  {
    DetectIsLeftmostQualifying(t);
    var s: nat, n: nat :| Qualifies(t, s, n) && Detect(t).value == t[s..s + n];
    KeywordCountMeaning(Lowercase(t), BadKeywords);
  }

  /**
   * Penalties that no match can outscore: two or more bad keywords, or one
   * bad keyword without a context keyword, and the text yields no code.
   */
  lemma PenalisedTextYieldsNothing(t: string)
    requires var lower := Lowercase(t);
      KeywordCount(lower, BadKeywords) >= 2 || (!HasOtpKeyword(lower) && KeywordCount(lower, BadKeywords) >= 1)
    ensures Detect(t) == None
  {
    DetectNoneIffNoneQualifies(t);
  }

  /** With a context keyword and no bad keyword, every match qualifies, so the first match is returned. */
  lemma CleanKeywordReturnsFirstMatch(t: string)
    requires HasOtpKeyword(Lowercase(t)) && KeywordCount(Lowercase(t), BadKeywords) == 0
    requires Matches(t) != []
    ensures Detect(t) == Some(t[Matches(t)[0].start..Matches(t)[0].start + Matches(t)[0].len])
  {
    var ms := Matches(t);
    var context := ContextScore(t);
    assert context == 2;
    assert LengthScore(ms[0].len) + context > Threshold;
    DetectFirst(t);
  }

  /** When the first match qualifies, its text is returned. */
  lemma DetectFirst(t: string)
    requires Matches(t) != [] && FirstAbove(ContextScore(t), Matches(t)) == 0
    ensures Detect(t) == Some(t[Matches(t)[0].start..Matches(t)[0].start + Matches(t)[0].len])
  {
  }

  /** The context-keyword loop: 2 as soon as one keyword occurs (the loop breaks there), else 0. */
  method ContextKeywordBonus(lowercaseText: string) returns (bonus: int)
    ensures bonus == if HasOtpKeyword(lowercaseText) then 2 else 0
  {
    bonus := 0;
    var k := 0;
    while k < |OtpKeywords|
      invariant 0 <= k <= |OtpKeywords|
      invariant forall j :: 0 <= j < k ==> !Contains(lowercaseText, OtpKeywords[j])
    {
      if Contains(lowercaseText, OtpKeywords[k]) {
        bonus := 2;
        break;
      }
      k := k + 1;
    }
  }

  /** The bad-keyword loop: 2 for every bad keyword that occurs. */
  method BadKeywordPenalty(lowercaseText: string) returns (penalty: int)
    ensures penalty == 2 * KeywordCount(lowercaseText, BadKeywords)
  {
    penalty := 0;
    var k := 0;
    while k < |BadKeywords|
      invariant 0 <= k <= |BadKeywords|
      invariant penalty == 2 * KeywordCount(lowercaseText, BadKeywords[..k])
    {
      assert BadKeywords[..k + 1][..k] == BadKeywords[..k];
      if Contains(lowercaseText, BadKeywords[k]) {
        penalty := penalty + 2;
      }
      k := k + 1;
    }
    assert BadKeywords[..k] == BadKeywords;
  }

  /** The scan of `findOTPInText`: score each match in turn, return the first above the threshold. */
  method FindOTPInText(text: string) returns (code: Option<string>)
    ensures code == Detect(text)
  {
    var lowercaseText := Lowercase(text);
    var matches := Matches(text);
    ghost var context := ContextScore(text);
    ghost var first := FirstAbove(context, matches);
    var m := 0;
    while m < |matches|
      invariant 0 <= m <= first
    {
      var span := matches[m];
      assert span in matches;
      var candidate := text[span.start..span.start + span.len];
      var score := 0;
      if 4 <= |candidate| <= 6 {
        score := score + 3;
      } else {
        score := score + 1;
      }
      var bonus := ContextKeywordBonus(lowercaseText);
      score := score + bonus;
      var penalty := BadKeywordPenalty(lowercaseText);
      score := score - penalty;
      assert score == LengthScore(span.len) + context;
      if score > Threshold {
        assert first == m;
        return Some(candidate);
      }
      m := m + 1;
    }
    return None;
  }
}
