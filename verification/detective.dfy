/**
 The state machine of `GPUMysteryGame` (scripts/detective.js): per-stage attempt
 counters and solved flags, the two validators with their fixed priority chains,
 the completion rank and the reset. Every operation is a pure transition from one
 game value to the next; the clock is a parameter.
 */
module Detective {
  import opened Wrappers
  import opened Text
  import opened Tables
  import opened Classifier

  datatype Attempts = Attempts(location: nat, password: nat)

  datatype Solved = Solved(location: bool, password: bool)

  /** `startTime` is the clock reading (milliseconds) taken at construction or reset. */
  datatype Game = Game(startTime: int, attempts: Attempts, solved: Solved)

  /** The result categories; hints are given by their position in the game's tables. A
      progressive hint position is `None` where the game would look up index -1. */
  datatype Kind =
    | Correct
    | EmptyInput
    | EasterEgg
    | SpecificHint(mistake: nat)
    | ProgressiveHint(hint: Option<nat>)
    | SecurityWarning

  /** `attempts` is the counters snapshot, or `None` where the game reports `null`. */
  datatype ValidationResult = ValidationResult(success: bool, kind: Kind, attempts: Option<Attempts>)

  /** The game after a validation, its result, and whether the victory summary is scheduled. */
  datatype Step = Step(game: Game, result: ValidationResult, victory: bool)

  /** From this many password attempts on, a wrong password draws a security warning. */
  const SecurityThreshold: nat := 5

  /** `createResult`: the snapshot is dropped only for a success whose category is not `correct`. */
  function CreateResult(isCorrect: bool, kind: Kind, attempts: Attempts): ValidationResult {
    ValidationResult(isCorrect, kind,
      if isCorrect then (if kind == Correct then Some(attempts) else None) else Some(attempts))
  }

  /** `!userInput || userInput.trim().length === 0`; `None` stands for a null or absent input. */
  predicate IsBlank(input: Option<string>) {
    input.None? || |Trim(input.value)| == 0
  }

  /** `validateLocation`: count the attempt, then classify the guess as empty, correct, easter egg,
      known mistake or progressive hint, in that order. */
  function ValidateLocation(g: Game, input: Option<string>): (s: Step)
    ensures s.game.attempts == Attempts(g.attempts.location + 1, g.attempts.password)
    ensures s.game.solved == Solved(g.solved.location || s.result.kind == Correct, g.solved.password)
    ensures s.game.startTime == g.startTime
    ensures s.result.success <==> s.result.kind == Correct
    ensures s.result.attempts == Some(s.game.attempts)
    ensures !s.victory
  {
    var attempts := g.attempts.(location := g.attempts.location + 1);
    var counted := g.(attempts := attempts);
    if IsBlank(input) then
      Step(counted, CreateResult(false, EmptyInput, attempts), false)
    else
      var normalized := Normalize(input.value);
      if IsCorrectLocation(normalized) then
        Step(counted.(solved := g.solved.(location := true)), CreateResult(true, Correct, attempts), false)
      else if IsEasterEgg(LocationEasterEggs, normalized) then
        Step(counted, CreateResult(false, EasterEgg, attempts), false)
      else match SpecificLocationHint(normalized)
        case Some(k) =>
          Step(counted, CreateResult(false, SpecificHint(k), attempts), false)
        case None =>
          var hint := ProgressiveHintIndex(attempts.location, LocationHintCount);
          Step(counted, CreateResult(false, ProgressiveHint(hint), attempts), false)
  }

  /** `validatePassword`: count the attempt, then classify the trimmed guess as empty, correct,
      easter egg, security warning or progressive hint, in that order. A correct password while
      the location is solved schedules the victory summary. */
  function ValidatePassword(g: Game, input: Option<string>): (s: Step)
    ensures s.game.attempts == Attempts(g.attempts.location, g.attempts.password + 1)
    ensures s.game.solved == Solved(g.solved.location, g.solved.password || s.result.kind == Correct)
    ensures s.game.startTime == g.startTime
    ensures s.result.success <==> s.result.kind == Correct
    ensures s.result.attempts == Some(s.game.attempts)
    ensures s.victory <==> s.result.kind == Correct && g.solved.location
  {
    var attempts := g.attempts.(password := g.attempts.password + 1);
    var counted := g.(attempts := attempts);
    if IsBlank(input) then
      Step(counted, CreateResult(false, EmptyInput, attempts), false)
    else if IsCorrectPassword(Trim(input.value)) then
      var solved := counted.(solved := g.solved.(password := true));
      Step(solved, CreateResult(true, Correct, attempts), solved.solved.location && solved.solved.password)
    else if IsEasterEgg(PasswordEasterEggs, Trim(Lower(input.value))) then
      Step(counted, CreateResult(false, EasterEgg, attempts), false)
    else if attempts.password >= SecurityThreshold then
      Step(counted, CreateResult(false, SecurityWarning, attempts), false)
    else
      var hint := ProgressiveHintIndex(attempts.password, PasswordHintCount);
      Step(counted, CreateResult(false, ProgressiveHint(hint), attempts), false)
  }

  /** `resetGame` (and the constructor): a new start time, zero counters, nothing solved. */
  function ResetGame(g: Game, now: int): (r: Game)
    ensures r.attempts.location == 0 && r.attempts.password == 0
    ensures !r.solved.location && !r.solved.password
    ensures r.startTime == now
  {
    Game(now, Attempts(0, 0), Solved(false, false))
  }

  datatype Rank = MasterDetective | SkilledInvestigator | JuniorDetective | TraineeDetective

  /** A rank tier: reached when the elapsed time (in tenths of a minute) and the attempts
      are both within its bounds. */
  datatype Tier = Tier(rank: Rank, maxTenths: nat, maxAttempts: nat)

  /** The tiers, best first; anyone outside all of them is a trainee. */
  const Tiers: seq<Tier> := [
    Tier(MasterDetective, 100, 4),
    Tier(SkilledInvestigator, 200, 8),
    Tier(JuniorDetective, 300, 12)
  ]

  /** Position of a rank from the best: its index in `Tiers`, and `|Tiers|` for a trainee. */
  function Level(r: Rank): nat {
    match r
    case MasterDetective => 0
    case SkilledInvestigator => 1
    case JuniorDetective => 2
    case TraineeDetective => 3
  }

  predicate Within(t: Tier, tenths: nat, attempts: nat) {
    tenths <= t.maxTenths && attempts <= t.maxAttempts
  }

  /** `calculateRank`, with the elapsed time in tenths of a minute (the precision of the
      game's clock): the first tier whose bounds both hold, else a trainee. */
  function CalculateRank(tenths: nat, attempts: nat): (r: Rank)
    ensures Level(r) <= |Tiers|
    ensures Level(r) < |Tiers| ==> Tiers[Level(r)].rank == r && Within(Tiers[Level(r)], tenths, attempts)
    ensures forall i :: 0 <= i < Level(r) ==> !Within(Tiers[i], tenths, attempts)
  {
    if tenths <= 100 && attempts <= 4 then MasterDetective
    else if tenths <= 200 && attempts <= 8 then SkilledInvestigator
    else if tenths <= 300 && attempts <= 12 then JuniorDetective
    else TraineeDetective
  }
}
