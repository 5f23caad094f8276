/**
 The fixed answer tables of the game (the constructor of `GPUMysteryGame` and the
 hint lists of `getProgressiveLocationHint` / `getProgressivePasswordHint` in
 scripts/detective.js). They are immutable for the whole game. Hint and message
 texts are not kept: results name a hint by its position.
 */
module Tables {

  const LocationAnswers: seq<string> := [
    "4th pc", "fourth pc", "pc 4", "pc #4",
    "4th computer", "fourth computer", "computer 4", "computer #4",
    "demo pc 4", "demo computer 4", "4th demo pc", "fourth demo pc",
    "demo setup 4", "4th demo setup", "fourth demo setup",
    "setup 4", "setup #4", "4th setup", "fourth setup",
    "pc four", "computer four", "the 4th pc", "the fourth pc",
    "demonstration pc 4", "demonstration computer 4"
  ]

  const PasswordAnswers: seq<string> := ["video", "VIDEO", "Video", "ViDeO", "vIdEo"]

  const LocationEasterEggs: seq<string> := [
    "sherlock holmes", "batman", "detective", "elementary",
    "magnifying glass", "deduction", "clue", "mystery"
  ]

  const PasswordEasterEggs: seq<string> := [
    "elementary", "watson", "sherlock", "clues", "deduction",
    "mystery", "cipher", "code", "encryption"
  ]

  /** The known wrong locations that have a corrective hint of their own, in definition
      order, which is the order the game searches them in. */
  const LocationMistakes: seq<string> := ["pc 1", "pc 2", "pc 3", "pc 5", "vault", "server", "storage"]

  /** Declared by the game but never consulted by any check. */
  const PasswordMistakes: seq<string> := [
    "password", "1234", "admin", "gpu", "nvidia", "techcorp",
    "secret", "access", "unlock", "override"
  ]

  /** The number of progressive location hints, from "check the evidence" up to
      "a numbered position in the demo area". */
  const LocationHintCount: nat := 5

  /** The number of progressive password hints, from "look for encrypted messages" up to
      "a common 5-letter word". */
  const PasswordHintCount: nat := 5
}
