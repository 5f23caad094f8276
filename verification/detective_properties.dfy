/**
 Properties of the detective game's transitions: the priority chains of both
 validators, the counter and flag discipline over whole sessions, the hint
 clamping, the password rules and the rank table.
 */
module DetectiveProperties {
  import opened Wrappers
  import opened Text
  import opened Levenshtein
  import opened Tables
  import opened Classifier
  import opened Detective

  /** Empty input, and only empty input, yields `empty_input`, for both stages; a string is
      empty input exactly when all its characters are whitespace. */
  lemma EmptyInputIffBlank(g: Game, input: Option<string>)
    ensures ValidateLocation(g, input).result.kind == EmptyInput <==> IsBlank(input)
    ensures ValidatePassword(g, input).result.kind == EmptyInput <==> IsBlank(input)
    ensures input.Some? ==> (IsBlank(input) <==> forall i :: 0 <= i < |input.value| ==> IsSpace(input.value[i]))
  {
    if input.Some? {
      BlankIff(input.value);
      if !IsBlank(input) {
        LocationPriorityChain(g, input.value);
        PasswordPriorityChain(g, input.value);
      }
    }
  }

  /** `validateLocation` on a non-empty guess: correct beats easter egg, which beats the first
      known mistake in definition order, which beats the progressive hint. */
  lemma LocationPriorityChain(g: Game, s: string)
    requires !IsBlank(Some(s))
    ensures var n := Normalize(s);
      var kind := ValidateLocation(g, Some(s)).result.kind;
      && (kind == Correct <==> IsCorrectLocation(n))
      && (kind == EasterEgg <==> !IsCorrectLocation(n) && IsEasterEgg(LocationEasterEggs, n))
      && (kind.SpecificHint? <==>
            && !IsCorrectLocation(n) && !IsEasterEgg(LocationEasterEggs, n)
            && exists j :: 0 <= j < |LocationMistakes| && Mentions(n, LocationMistakes[j]))
      && (kind.SpecificHint? ==>
            && kind.mistake < |LocationMistakes| && Mentions(n, LocationMistakes[kind.mistake])
            && forall j :: 0 <= j < kind.mistake ==> !Mentions(n, LocationMistakes[j]))
      && (kind.ProgressiveHint? <==>
            && !IsCorrectLocation(n) && !IsEasterEgg(LocationEasterEggs, n)
            && forall j :: 0 <= j < |LocationMistakes| ==> !Mentions(n, LocationMistakes[j]))
  {
    var n := Normalize(s);
    if IsCorrectLocation(n) {
    } else if IsEasterEgg(LocationEasterEggs, n) {
    } else if SpecificLocationHint(n).Some? {
    } else {
    }
  }

  /** `validatePassword` on a non-empty guess: correct beats easter egg, which beats the security
      warning, which beats the progressive hint. */
  lemma PasswordPriorityChain(g: Game, s: string)
    requires !IsBlank(Some(s))
    ensures var kind := ValidatePassword(g, Some(s)).result.kind;
      var correct := IsCorrectPassword(Trim(s));
      var egg := IsEasterEgg(PasswordEasterEggs, Trim(Lower(s)));
      && (kind == Correct <==> correct)
      && (kind == EasterEgg <==> !correct && egg)
      && (kind == SecurityWarning <==> !correct && !egg && g.attempts.password + 1 >= SecurityThreshold)
      && (kind.ProgressiveHint? <==> !correct && !egg && g.attempts.password + 1 < SecurityThreshold)
  {
    if IsCorrectPassword(Trim(s)) {
    } else if IsEasterEgg(PasswordEasterEggs, Trim(Lower(s))) {
    } else {
    }
  }

  /** A guess whose normalised form equals or contains any accepted location is correct. */
  lemma ContainedAnswerIsCorrect(g: Game, s: string, k: nat)
    requires k < |LocationAnswers| && Mentions(Normalize(s), LocationAnswers[k])
    ensures ValidateLocation(g, Some(s)).result.kind == Correct
    ensures ValidateLocation(g, Some(s)).game.solved.location
  {
    assert !IsBlank(Some(s)) by {
      LocationAnswersLength();
      ContainsLength(Normalize(s), LocationAnswers[k]);
      if |Trim(s)| == 0 {
        BlankNormalizesEmpty(s);
        assert false;
      }
    }
    ContainsAnswerIsCorrect(Normalize(s), k);
  }

  // Normal shape of the listed spellings. The check of a literal string is a case split
  // over its characters, and checking many table entries in one proof is costly, so the
  // table is covered a few entries at a time, one small case split per lemma.

  /** The spellings built on "pc" without `#` are normal-shaped. */
  lemma PcAnswersNormal(k: nat)
    requires k == 0 || k == 1 || k == 2
    ensures IsNormal(LocationAnswers[k])
  {
    if k == 0 {
    } else if k == 1 {
    } else {
    }
  }

  /** The spellings built on "computer" without `#` are normal-shaped. */
  lemma ComputerAnswersNormal(k: nat)
    requires k == 4 || k == 5 || k == 6
    ensures IsNormal(LocationAnswers[k])
  {
    if k == 4 {
    } else if k == 5 {
    } else {
    }
  }

  /** The first demo spellings are normal-shaped. */
  lemma DemoPcAnswersNormal(k: nat)
    requires k == 8 || k == 9 || k == 10
    ensures IsNormal(LocationAnswers[k])
  {
    if k == 8 {
    } else if k == 9 {
    } else {
    }
  }

  /** The remaining demo spellings are normal-shaped. */
  lemma DemoSetupAnswersNormal(k: nat)
    requires k == 11 || k == 12 || k == 13
    ensures IsNormal(LocationAnswers[k])
  {
    if k == 11 {
    } else if k == 12 {
    } else {
    }
  }

  /** The setup spellings without `#` are normal-shaped. */
  lemma SetupAnswersNormal(k: nat)
    requires k == 14 || k == 15 || k == 17
    ensures IsNormal(LocationAnswers[k])
  {
    if k == 14 {
    } else if k == 15 {
    } else {
    }
  }

  /** The last setup spelling and the spelled-out numbers are normal-shaped. */
  lemma WordNumberAnswersNormal(k: nat)
    requires k == 18 || k == 19 || k == 20
    ensures IsNormal(LocationAnswers[k])
  {
    if k == 18 {
    } else if k == 19 {
    } else {
    }
  }

  /** The spellings with an article are normal-shaped. */
  lemma ArticleAnswersNormal(k: nat)
    requires k == 21 || k == 22
    ensures IsNormal(LocationAnswers[k])
  {
    if k == 21 {
    } else {
    }
  }

  /** The spellings with the long word "demonstration" are normal-shaped. */
  lemma DemonstrationAnswersNormal(k: nat)
    requires k == 23 || k == 24
    ensures IsNormal(LocationAnswers[k])
  {
    if k == 23 {
    } else {
    }
  }

  /** A guess whose first character is not whitespace is not empty input. */
  lemma StartsWithWordNotBlank(s: string)
    requires |s| > 0 && !IsSpace(s[0])
    ensures !IsBlank(Some(s))
  {
    BlankIff(s);
  }

  /** A non-empty normal-shaped guess that matches an accepted location solves the stage. */
  lemma NormalGuessAccepted(g: Game, s: string, k: nat)
    requires IsNormal(s) && |s| > 0
    requires k < |LocationAnswers| && LocationMatches(s, LocationAnswers[k])
    ensures ValidateLocation(g, Some(s)).result.kind == Correct
  {
    NormalizeFixed(s);
    assert !IsSpace(s[0]);
    BlankIff(s);
    LocationPriorityChain(g, s);
  }

  /** Typing an accepted spelling with `#` is the same as typing its sibling without it. */
  lemma HashSpellingAccepted(g: Game, p: string, q: string, j: nat)
    requires IsNormal(p) && IsNormal(q) && |p| > 0 && |q| > 0
    requires j < |LocationAnswers| && LocationAnswers[j] == p + " " + q
    ensures ValidateLocation(g, Some(p + " #" + q)).result.kind == Correct
  {
    var s := p + " #" + q;
    assert !IsBlank(Some(s)) by {
      assert s[0] == p[0];
      StartsWithWordNotBlank(s);
    }
    assert Normalize(s) == LocationAnswers[j] by {
      HashAfterSpaceVanishes(p, q);
    }
    ContainedAnswerIsCorrect(g, s, j);
  }

  /** Typing any accepted location verbatim solves the location stage. The three spellings with
      `#` normalise to their `#`-less siblings, which are also in the table. */
  lemma EveryLocationAnswerAccepted(g: Game, k: nat)
    requires k < |LocationAnswers|
    ensures ValidateLocation(g, Some(LocationAnswers[k])).result.kind == Correct
  {
    if k == 3 {
      assert LocationAnswers[3] == "pc" + " #" + "4";
      HashSpellingAccepted(g, "pc", "4", 2);
    } else if k == 7 {
      assert LocationAnswers[7] == "computer" + " #" + "4";
      HashSpellingAccepted(g, "computer", "4", 6);
    } else if k == 16 {
      assert LocationAnswers[16] == "setup" + " #" + "4";
      HashSpellingAccepted(g, "setup", "4", 15);
    } else {
      if k < 3 {
        PcAnswersNormal(k);
      } else if k < 8 {
        ComputerAnswersNormal(k);
      } else if k < 11 {
        DemoPcAnswersNormal(k);
      } else if k < 14 {
        DemoSetupAnswersNormal(k);
      } else if k < 18 {
        SetupAnswersNormal(k);
      } else if k < 21 {
        WordNumberAnswersNormal(k);
      } else if k < 23 {
        ArticleAnswersNormal(k);
      } else {
        DemonstrationAnswersNormal(k);
      }
      LocationAnswersLength();
      ContainsLength(LocationAnswers[k], LocationAnswers[k]);
      NormalGuessAccepted(g, LocationAnswers[k], k);
    }
  }

  /** A guess that misses one letter of an accepted spelling of at least five characters is
      still accepted, since one edit in five keeps the similarity at 4/5 or more. */
  lemma MissingLetterAccepted(g: Game, p: string, c: char, q: string, k: nat)
    requires IsNormal(p + q) && |p + q| >= 4
    requires k < |LocationAnswers| && p + [c] + q == LocationAnswers[k]
    ensures ValidateLocation(g, Some(p + q)).result.kind == Correct
  {
    InsertOne(p, c, q);
    assert FuzzyMatch(p + q, LocationAnswers[k]);
    NormalGuessAccepted(g, p + q, k);
  }

  /** "forth pc", one letter short of "fourth pc", is accepted. */
  lemma OneTypoAccepted(g: Game)
    ensures ValidateLocation(g, Some("forth pc")).result.kind == Correct
  {
    var p, q := "fo", "rth pc";
    assert p + q == "forth pc";
    assert p + ['u'] + q == LocationAnswers[1];
    MissingLetterAccepted(g, p, 'u', q, 1);
  }

  /** A guess of at most three characters that is not blank, even one such as "!!!" that
      normalises to nothing, gets a progressive hint: nothing in the tables is that short. */
  lemma ShortGuessGetsProgressiveHint(g: Game, s: string)
    requires !IsBlank(Some(s)) && |s| <= 3
    ensures ValidateLocation(g, Some(s)).result.kind.ProgressiveHint?
  {
    NormalizeShrinks(s);
    ShortGuessMatchesNothing(Normalize(s));
  }

  /** The progressive location hint is `min(attempts - 1, 4)` for the incremented counter: it always
      exists, is within the five hints, and is the last one from the fifth attempt on. */
  lemma LocationHintClamped(g: Game, input: Option<string>)
    ensures var kind := ValidateLocation(g, input).result.kind;
      kind.ProgressiveHint? ==>
        && kind.hint.Some? && kind.hint.value < LocationHintCount
        && (g.attempts.location < 4 ==> kind.hint.value == g.attempts.location)
        && (g.attempts.location >= 4 ==> kind.hint.value == LocationHintCount - 1)
  {
    if input.Some? && !IsBlank(input) {
      LocationPriorityChain(g, input.value);
    }
  }

  /** A password guess is correct exactly when, trimmed, it equals "video" ignoring case. */
  lemma PasswordCorrectIff(g: Game, input: Option<string>)
    ensures ValidatePassword(g, input).result.kind == Correct <==>
      input.Some? && Lower(Trim(input.value)) == "video"
  {
    if input.Some? {
      var t := Trim(input.value);
      Classifier.PasswordCorrectIff(t);
      if Lower(t) == "video" {
        assert |t| == 5;
        PasswordPriorityChain(g, input.value);
      } else if !IsBlank(input) {
        PasswordPriorityChain(g, input.value);
      }
    }
  }

  /** Any casing of "video", listed in the table or not, opens the lock. */
  lemma PasswordCaseIgnored(g: Game, s: string)
    requires Lower(s) == "video"
    ensures ValidatePassword(g, Some(s)).result.success
  {
    assert |s| == 5;
    assert Lower(s)[0] == 'v' && Lower(s)[4] == 'o';
    assert LowerChar(s[0]) == 'v' && LowerChar(s[4]) == 'o';
    TrimFixed(s);
    PasswordCorrectIff(g, Some(s));
  }

  /** Every accepted spelling in the table, "VIDEO" and "ViDeO" among them, opens the lock. */
  lemma EveryPasswordAnswerAccepted(g: Game, k: nat)
    requires k < |PasswordAnswers|
    ensures ValidatePassword(g, Some(PasswordAnswers[k])).result.success
  {
    Classifier.PasswordAnswersLower();
    PasswordCaseIgnored(g, PasswordAnswers[k]);
  }

  /** Whitespace around the password is ignored: " video " and " ViDeO " open the lock too. */
  lemma PasswordTrimmed(g: Game, s: string)
    requires Lower(s) == "video"
    ensures ValidatePassword(g, Some(" " + s + " ")).result.success
  {
    assert |s| == 5;
    assert Lower(s)[0] == 'v' && Lower(s)[4] == 'o';
    assert LowerChar(s[0]) == 'v' && LowerChar(s[4]) == 'o';
    TrimSurrounded(s);
    PasswordCorrectIff(g, Some(" " + s + " "));
  }

  /** The password must be matched whole: a guess whose trimmed length is not five, such as
      "Videos", is refused. */
  lemma PasswordNotSubstring(g: Game, s: string)
    requires |Trim(s)| != 5
    ensures !ValidatePassword(g, Some(s)).result.success
  {
    PasswordCorrectIff(g, Some(s));
  }

  /** For a non-empty password that is neither correct nor an easter egg, the security warning
      comes exactly from the fifth attempt on; before that the hint follows the attempt number,
      so the fifth password hint is never shown. */
  lemma SecurityWarningIff(g: Game, s: string)
    requires !IsBlank(Some(s))
    requires !IsCorrectPassword(Trim(s)) && !IsEasterEgg(PasswordEasterEggs, Trim(Lower(s)))
    ensures var kind := ValidatePassword(g, Some(s)).result.kind;
      && (kind == SecurityWarning <==> g.attempts.password + 1 >= SecurityThreshold)
      && (kind != SecurityWarning ==> kind == ProgressiveHint(Some(g.attempts.password)))
      && (kind.ProgressiveHint? ==> kind.hint.value < PasswordHintCount - 1)
  {
    var attempts := g.attempts.password + 1;
    if attempts >= SecurityThreshold {
      assert ValidatePassword(g, Some(s)).result.kind == SecurityWarning;
    } else {
      assert ValidatePassword(g, Some(s)).result.kind ==
        ProgressiveHint(ProgressiveHintIndex(attempts, PasswordHintCount));
    }
  }

  /** The victory summary is only ever scheduled by a correct password with the location
      already solved: solving the password first and then the location schedules nothing,
      although both stages end up solved. */
  lemma PasswordFirstNeverCelebrates(g: Game)
    requires g.attempts == Attempts(0, 0) && g.solved == Solved(false, false)
    ensures var p := ValidatePassword(g, Some("video"));
      var l := ValidateLocation(p.game, Some("4th pc"));
      && p.result.success && !p.victory
      && l.result.success && !l.victory
      && l.game.solved == Solved(true, true)
  {
    EveryPasswordAnswerAccepted(g, 0);
    var p := ValidatePassword(g, Some("video"));
    EveryLocationAnswerAccepted(p.game, 0);
  }

  /** Over the rank table, more time or more attempts never earn a better rank. */
  lemma RankMonotone(t1: nat, a1: nat, t2: nat, a2: nat)
    requires t1 <= t2 && a1 <= a2
    ensures Level(CalculateRank(t1, a1)) <= Level(CalculateRank(t2, a2))
  {
  }

  /** What a caller can do to the game. */
  datatype Action = GuessLocation(input: Option<string>) | GuessPassword(input: Option<string>) | Reset(now: int)

  function Apply(g: Game, a: Action): Game {
    match a
    case GuessLocation(input) => ValidateLocation(g, input).game
    case GuessPassword(input) => ValidatePassword(g, input).game
    case Reset(now) => ResetGame(g, now)
  }

  /** The game after a session of actions, applied first to last. */
  function Run(g: Game, actions: seq<Action>): Game
    decreases |actions|
  {
    if |actions| == 0 then g else Run(Apply(g, actions[0]), actions[1..])
  }

  /** The number of guesses at the location stage (`location`) or at the password stage in a session. */
  function CountGuesses(actions: seq<Action>, location: bool): nat
    decreases |actions|
  {
    if |actions| == 0 then 0
    else
      var counted := if location then actions[0].GuessLocation? else actions[0].GuessPassword?;
      (if counted then 1 else 0) + CountGuesses(actions[1..], location)
  }

  predicate NoReset(actions: seq<Action>) {
    forall i :: 0 <= i < |actions| ==> !actions[i].Reset?
  }

  /** Without a reset, each stage's counter grows by exactly the number of guesses at that stage,
      whatever they were, a solved flag never goes back to false, and the clock is not restarted. */
  lemma {:induction false} RunCountsEveryGuess(g: Game, actions: seq<Action>)
    requires NoReset(actions)
    ensures Run(g, actions).attempts == Attempts(g.attempts.location + CountGuesses(actions, true),
                                                 g.attempts.password + CountGuesses(actions, false))
    ensures g.solved.location ==> Run(g, actions).solved.location
    ensures g.solved.password ==> Run(g, actions).solved.password
    ensures Run(g, actions).startTime == g.startTime
    decreases |actions|
  {
    if |actions| > 0 {
      RunCountsEveryGuess(Apply(g, actions[0]), actions[1..]);
    }
  }

  /** A session ending in a reset leaves the same game whatever came before. */
  lemma {:induction false} ResetForgetsHistory(g: Game, actions: seq<Action>, now: int)
    ensures Run(g, actions + [Reset(now)]) == Game(now, Attempts(0, 0), Solved(false, false))
    decreases |actions|
  {
    if |actions| == 0 {
      assert actions + [Reset(now)] == [Reset(now)];
    } else {
      assert (actions + [Reset(now)])[1..] == actions[1..] + [Reset(now)];
      ResetForgetsHistory(Apply(g, actions[0]), actions[1..], now);
    }
  }

  /** After a reset and at least four password guesses, every further wrong password that is
      not an easter egg draws the security warning. */
  lemma WarningAfterFourGuesses(now: int, before: Game, actions: seq<Action>, s: string)
    requires NoReset(actions) && CountGuesses(actions, false) >= 4
    requires !IsBlank(Some(s))
    requires !IsCorrectPassword(Trim(s)) && !IsEasterEgg(PasswordEasterEggs, Trim(Lower(s)))
    ensures ValidatePassword(Run(ResetGame(before, now), actions), Some(s)).result.kind == SecurityWarning
  {
    RunCountsEveryGuess(ResetGame(before, now), actions);
    SecurityWarningIff(Run(ResetGame(before, now), actions), s);
  }
}
