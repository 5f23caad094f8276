/**
 The answer tests of the detective game (`isCorrectLocation`, `isCorrectPassword`,
 `isEasterEgg`, `getSpecificLocationHint` and the progressive hint choice in
 scripts/detective.js), over the fixed tables.
 */
module Classifier {
  import opened Wrappers
  import opened Text
  import opened Levenshtein
  import opened Tables

  /** `s.includes(t) || s === t`, the test used for easter eggs and known mistakes. */
  predicate Mentions(s: string, t: string) {
    Contains(s, t) || s == t
  }

  /** One accepted location against the normalised guess: equal, contained, or a fuzzy match. */
  predicate LocationMatches(normalized: string, answer: string) {
    normalized == answer || Contains(normalized, answer) || FuzzyMatch(normalized, answer)
  }

  /** `isCorrectLocation`: some accepted location matches the normalised guess. */
  predicate IsCorrectLocation(normalized: string) {
    exists k :: 0 <= k < |LocationAnswers| && LocationMatches(normalized, LocationAnswers[k])
  }

  /** `isCorrectPassword`: the guess is an accepted spelling, or equals one once both are lower-cased. */
  predicate IsCorrectPassword(input: string) {
    exists k :: 0 <= k < |PasswordAnswers| && (input == PasswordAnswers[k] || Lower(input) == Lower(PasswordAnswers[k]))
  }

  /** `isEasterEgg`: some egg of the stage's list is mentioned by the guess. */
  predicate IsEasterEgg(eggs: seq<string>, normalized: string) {
    exists k :: 0 <= k < |eggs| && Mentions(normalized, eggs[k])
  }

  /** The position of the first known mistake, in definition order, that the guess mentions;
      `None` where `getSpecificLocationHint` returns `null`. */
  function FirstMistake(normalized: string, mistakes: seq<string>): (r: Option<nat>)
    ensures r.Some? ==> r.value < |mistakes| && Mentions(normalized, mistakes[r.value])
    ensures r.Some? ==> forall j :: 0 <= j < r.value ==> !Mentions(normalized, mistakes[j])
    ensures r.None? <==> forall j :: 0 <= j < |mistakes| ==> !Mentions(normalized, mistakes[j])
  {
    if |mistakes| == 0 then None
    else if Mentions(normalized, mistakes[0]) then Some(0)
    else match FirstMistake(normalized, mistakes[1..])
      case None => None
      case Some(k) => Some(k + 1)
  }

  /** `getSpecificLocationHint` over the game's table of location mistakes. */
  function SpecificLocationHint(normalized: string): Option<nat> {
    FirstMistake(normalized, LocationMistakes)
  }

  /** The progressive hint for the `attempts`-th try in a list of `count` hints,
      `Math.min(attempts - 1, count - 1)`; `None` where that index would be -1 and the
      lookup would give `undefined`. The hints advance one per try and then stay on the last. */
  function ProgressiveHintIndex(attempts: nat, count: nat): (r: Option<nat>)
    ensures r.Some? <==> attempts >= 1 && count >= 1
    ensures r.Some? ==> r.value < count
    ensures r.Some? && attempts <= count ==> r.value == attempts - 1
    ensures r.Some? && attempts >= count ==> r.value == count - 1
  {
    if attempts == 0 || count == 0 then None
    else if attempts <= count then Some(attempts - 1)
    else Some(count - 1)
  }

  /** Every accepted location spelling has at least four characters. */
  lemma LocationAnswersLength()
    ensures forall k :: 0 <= k < |LocationAnswers| ==> |LocationAnswers[k]| >= 4
  {
  }

  /** A guess that mentions an accepted location in full is correct. */
  lemma ContainsAnswerIsCorrect(normalized: string, k: nat)
    requires k < |LocationAnswers| && Mentions(normalized, LocationAnswers[k])
    ensures IsCorrectLocation(normalized)
  {
  }

  /** A normalised guess of at most three characters is never a correct location, an easter egg
      or a known mistake: every table entry it could match has at least four characters. */
  lemma ShortGuessMatchesNothing(normalized: string)
    requires |normalized| <= 3
    ensures !IsCorrectLocation(normalized)
    ensures !IsEasterEgg(LocationEasterEggs, normalized)
    ensures SpecificLocationHint(normalized).None?
  {
    LocationAnswersLength();
    forall k | 0 <= k < |LocationAnswers|
      ensures !LocationMatches(normalized, LocationAnswers[k])
    {
      ContainsLength(normalized, LocationAnswers[k]);
      FuzzyMatchNeedsCloseLengths(normalized, LocationAnswers[k]);
    }
    forall k | 0 <= k < |LocationEasterEggs|
      ensures !Mentions(normalized, LocationEasterEggs[k])
    {
      ContainsLength(normalized, LocationEasterEggs[k]);
    }
    forall k | 0 <= k < |LocationMistakes|
      ensures !Mentions(normalized, LocationMistakes[k])
    {
      ContainsLength(normalized, LocationMistakes[k]);
    }
  }

  /** Every accepted password spelling lower-cases to "video". */
  lemma PasswordAnswersLower()
    ensures forall k :: 0 <= k < |PasswordAnswers| ==> Lower(PasswordAnswers[k]) == "video"
  {
  }

  /** A password is correct exactly when it lower-cases to "video". */
  lemma PasswordCorrectIff(input: string)
    ensures IsCorrectPassword(input) <==> Lower(input) == "video"
  {
    PasswordAnswersLower();
    if Lower(input) == "video" {
      assert Lower(input) == Lower(PasswordAnswers[0]);
    }
  }
}
