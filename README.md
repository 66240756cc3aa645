# Secret Santa pairing, modelled in Dafny

This project models the console Secret Santa program `SecretSanta.java`. The
program collects a list of participant names in a setup loop, then pairs every
participant (a *santa*) with another participant (their *human*) by rejection
sampling. It keeps the pairing in two maps, `santaToHuman` and its inverse
`humanToSanta`.

What is proved:

- **The generator** (`generateSantaSolution` / `generateNewSantaSolution`).
  Suppose it finishes on a duplicate-free list. Then `santaToHuman` is a
  derangement of the participants: a permutation with no fixed point. Also
  `humanToSanta` is its exact inverse. This holds also when the "last human is
  the last santa" restart was taken. The loop invariant (`PartialSolution`)
  says that `remainingHumans` lists, once each, the participants not yet used
  as a human. It also says that its length equals the number of santas still
  to go. So the restart can only fire at the last santa, and the `for` loop
  does nothing after it. Whenever the restart does not fire, some draw passes
  the rejection guard (`CandidateExists`). The inverse map is itself a
  derangement.
- **Name normalisation** (`capitalizeFirstLetterOnly`). It keeps the length,
  upper-cases the first character and lower-cases the rest. Its result is the
  unique normalised name equal to the input up to case. It is idempotent. Two
  inputs normalise alike exactly when they agree up to case. It throws on the
  empty string, and it does not trim.
- **The setup loop of `main`**, without its console output. A duplicate
  changes nothing. A new name that is not a command is appended. `Remove <x>`
  deletes exactly the first entry equal to `x` and keeps the order of the
  rest. `Done` leaves setup only with at least three names. The list stays
  duplicate-free, normalised and free of command words over any number of
  lines. After setup, a finished generation is a derangement of at least three
  people.
- **List helpers.** `isDuplicateName` is membership. `generateParticipantsList`
  is the `", "`-join in list order, and `""` for an empty list.

Modules, one per part of the class: `Names` (normalisation), `Lists`
(`indexOf`, `remove`, the join), `Derangements` (what a solution is, and the
generator's invariant), `Setup` (the command decision as functions),
`Game` (class `SecretSanta`, whose fields are the three static fields and
whose methods are the static methods), and `Wrappers` (`Option`).

`Math.random()` is a parameter `draws: seq<real>` of values in `[0, 1)`. Each
value becomes an index as `(int) (r * size)` computes one, in exact real
arithmetic. When the draws run out, the generator returns `complete == false`.
That is the model's stand-in for a rejection loop that has not finished yet.
All generator contracts are therefore about the runs that finish (partial
correctness).

Three behaviours of the code that a reader might not expect; the model
follows the code in each:

- The normaliser does not trim. `"  alice"` stays `"  alice"` and does not
  become `"Alice"` (`Names.LeadingBlanksKept`).
- `Remove <x>` is recognised by the prefix `Remove` and a length above 7. The
  seventh character is skipped whatever it is. So `"Removebob"` removes `"Ob"`,
  and no name starting with `Remove` and longer than 7 can be added
  (`Setup.IsRemoveWithName`, `Setup.IsReserved`).
- The game is only started with at least three names, but the generator
  itself works for every size except 1. For size 1 every pass restarts at once, and each restart is a
  nested call, so the source ends in a `StackOverflowError`.

## Model

| member | source | states |
|---|---|---|
| `Names.ToUpper` | SecretSanta.java:115 | a lower-case letter becomes the upper-case letter at the same place in the alphabet; every other character is kept |
| `Names.ToLower` | SecretSanta.java:115 | an upper-case letter becomes the lower-case letter at the same place in the alphabet; every other character is kept |
| `Names.LowerCase` | SecretSanta.java:115 | `toLowerCase` keeps the length and lower-cases every position |
| `Names.CapitalizeFirstLetterOnly` | SecretSanta.java:114-116 | fails exactly on the empty string; otherwise the same length, normalised shape (first not lower-case, rest not upper-case), and equal to the input up to case |
| `Names.NormalFormUnique` | SecretSanta.java:114-116 | two normalised names that agree up to case are equal |
| `Names.CapitalizeIdempotent` | SecretSanta.java:114-116 | normalising twice gives what normalising once gives |
| `Names.NormalisedIsFixedPoint` | SecretSanta.java:114-116 | a name is left unchanged by the normaliser exactly when it has the normalised shape |
| `Names.SameNormalFormIffSameIgnoringCase` | SecretSanta.java:146-147 | two non-empty inputs normalise to the same name if and only if they agree up to case, so duplicate detection is case-insensitive |
| `Names.LeadingBlanksKept` | SecretSanta.java:115 | `"  alice"` normalises to itself (no trimming), `"ALICE"` to `"Alice"` |
| `Lists.IndexOf` | SecretSanta.java:32 | `indexOf` is -1 exactly when the element is absent, else the position of its first occurrence |
| `Lists.IndexOfDistinct` | SecretSanta.java:32 | in a duplicate-free list, `indexOf` of the element at position i is i |
| `Lists.RemoveFirst` | SecretSanta.java:41 | `remove(Object)` drops the first occurrence and keeps the rest in order; an absent element leaves the list unchanged |
| `Lists.RemoveFirstDistinct` | SecretSanta.java:41 | on a duplicate-free list, removing a present element shortens it by one, keeps it duplicate-free and removes exactly that element |
| `Lists.JoinNames` | SecretSanta.java:66-77 | the listing of no names is `""`, of one name that name; it starts with the first name, followed by `", "` when more follow |
| `Lists.JoinNamesSnoc` | SecretSanta.java:66-77 | appending a name to a non-empty list appends `", "` and the name to the listing |
| `Derangements.EmptyIsPartial` | SecretSanta.java:25-29 | empty maps and the full copy of the list are a valid starting state |
| `Derangements.AssignExtends` | SecretSanta.java:37-46 | recording an accepted human in both maps and removing it from the remaining humans keeps the invariant for one more santa |
| `Derangements.InjectiveExtends` | SecretSanta.java:40-46 | giving a new santa a human that nobody has yet keeps every human with at most one santa |
| `Derangements.CompletePartialIsDerangement` | SecretSanta.java:30-48 | once every santa has a human, santaToHuman is a derangement and humanToSanta its inverse |
| `Derangements.CandidateExists` | SecretSanta.java:33-43 | when the restart guard is false, some index passes the guard at line 40 |
| `Derangements.RetryOnlyAtLastSanta` | SecretSanta.java:33 | one remaining human means the current santa is the last one |
| `Derangements.InverseIsDerangement` | SecretSanta.java:45-46 | the inverse of a solution is a derangement too, so every participant has exactly one santa |
| `Derangements.ThreeParticipants` | SecretSanta.java:24-48 | with three participants the only solutions are the two rotations |
| `Setup.RemoveTarget` | SecretSanta.java:164-165 | the name to remove is the normalised form of the text after `Remove` and one more character |
| `Setup.IsRemoveWithName` | SecretSanta.java:164 | a removal line starts with `Remove` and goes on past it; neither bare form `Remove` nor `Remove ` is a removal |
| `Setup.Decide` | SecretSanta.java:147-199 | a line is rejected as a duplicate exactly when it is a present name; otherwise it is `Help`, `List`, the usage of `Remove`, a removal of `RemoveTarget`, `Done` or `End` exactly when it is that command word, and is added exactly when it is no command word |
| `Setup.Apply` | SecretSanta.java:164-199 | only an added name is new in the list, and it is appended at the end; a removal never lengthens the list; every other command leaves it as it was |
| `Setup.Continuation` | SecretSanta.java:180-196 | the game starts exactly on `Done` with at least three participants, the program ends exactly on `End`, and every other command keeps setup going |
| `Setup.Step` | SecretSanta.java:145-199 | one pass crashes exactly on an empty line; a pass that leaves setup never changes the list; no name enters the list but the normalised line |
| `Setup.EmptyLineCrashes` | SecretSanta.java:145-146 | an empty line throws and changes nothing |
| `Setup.DuplicateLeavesListUnchanged` | SecretSanta.java:147-148 | a line that normalises to a present name leaves the list unchanged |
| `Setup.NewNameAppended` | SecretSanta.java:197-198 | a new name that is not a command is appended at the end |
| `Setup.RemoveDeletesOnlyTarget` | SecretSanta.java:164-178 | on a well-formed list, `Remove <x>` keeps setup going; of a present name it deletes that one entry and keeps the others in order, of an absent name it changes nothing |
| `Setup.RemoveStep` | SecretSanta.java:164-178 | a `Remove <x>` line that is not itself a participant is read as the removal of the normalised `x` |
| `Setup.RemoveApplied` | SecretSanta.java:166-178 | on a duplicate-free list the removal drops exactly the first entry equal to the target, shortening the list by one, or changes nothing when the target is absent |
| `Setup.PrintingCommandsKeepList` | SecretSanta.java:150-163 | `Help`, `List` and a bare `Remove` keep setup going with the list unchanged |
| `Setup.EndLeavesSetup` | SecretSanta.java:194-196 | `End` ends the program with the list unchanged |
| `Setup.DoneGate` | SecretSanta.java:180-192 | `Done` starts the game if and only if there are at least 3 participants, and never changes the list |
| `Setup.StartGameNeedsThree` | SecretSanta.java:180-192 | leaving setup for the game only happens on `Done` with at least three participants |
| `Setup.StepPreservesWellFormed` | SecretSanta.java:143-201 | every pass keeps the list duplicate-free, normalised and free of command words |
| `Setup.RunLines` | SecretSanta.java:143-201 | the loop from a given line on reads at most the lines given, all of them when no line ends it, and the line that ends it when one does |
| `Setup.RunLinesKeepsWellFormed` | SecretSanta.java:143-201 | over any input, from any line on, the list stays well formed, and setup hands over only with at least three participants |
| `Game.RandomIndex` | SecretSanta.java:38 | the scaled draw is an index into the list, the floor of `r * n` |
| `Game.SecretSanta.constructor` | SecretSanta.java:7-9 | the list and both maps start empty |
| `Game.SecretSanta.IsDuplicateName` | SecretSanta.java:123-130 | true if and only if the name is in the participant list |
| `Game.SecretSanta.GenerateParticipantsList` | SecretSanta.java:66-77 | the names in list order separated by `", "`, `""` for none |
| `Game.SecretSanta.GenerateSantaSolution` | SecretSanta.java:24-49 | from empty maps, on a duplicate-free list of size other than 1: if it finishes, santaToHuman is a derangement of the participants and humanToSanta its inverse; the list is unchanged |
| `Game.SecretSanta.Accepts` | SecretSanta.java:40 | an accepted draw, on a duplicate-free list, names a participant other than the santa who is nobody's human yet |
| `Game.SecretSanta.AssignHuman` | SecretSanta.java:36-46 | one santa's turn in the else branch: the human is the first accepted draw; then santaToHuman gains santa to human, humanToSanta gains human to santa, the human leaves the remaining humans, and the partial solution grows by that santa; when the draws run out nothing changes |
| `Game.SecretSanta.DrawHuman` | SecretSanta.java:37-43 | the rejection loop: the accepted draw names another participant who is nobody's human yet, every earlier draw failed that guard, and if the draws run out every one of them failed it |
| `Game.SecretSanta.GenerateNewSantaSolution` | SecretSanta.java:56-60 | clears both maps and regenerates; if it finishes, the same derangement and inverse properties hold |
| `Game.SecretSanta.SetupStep` | SecretSanta.java:145-199 | one pass of the setup loop: the new list and continuation are those of `Setup.Step`; the maps are untouched |
| `Game.SecretSanta.RunSetup` | SecretSanta.java:143-201 | the setup loop over the input lines ends, with the list and the number of lines read, as `Setup.RunLines` from the first line says; the maps are untouched |
| `Game.SecretSanta.Run` | SecretSanta.java:137-205 | setup ends and leaves the list as `Setup.RunLines` from the first line says; the game starts only with at least three participants, and a finished generation is a derangement with its inverse |

## Left out

- Console I/O: `Scanner`, the usage printers, and every message text. The branches that only print change no state, and the model keeps them as such.
- The end of the input stream (`nextLine` throwing): the model's input is a finite list of lines, and running out of it simply stops the loop.
- The game-phase loop (lookups shown in `JOptionPane` dialogs, `Get my santa`, `Generate new solution`, `End`). It only reads the maps or calls the generator again. `Derangements.InverseIsDerangement` covers its lookups.
- `Edit`, which re-enters `main` recursively. It is not modelled.
- `allParticipants` computed before the game starts: used only for display.
- `Math.random()` as a double: draws are exact reals in `[0, 1)`, and double rounding is not modelled. Claims about uniformity and the expected number of retries are probabilistic and are not modelled either.
- Game.SecretSanta.GenerateSantaSolution: the contract is partial correctness. When the draws run out, it says nothing about the partially filled maps. The source's unbounded rejection loop and restart recursion have no such exit.
- Game.SecretSanta.GenerateSantaSolution: requires empty maps, as its only caller `generateNewSantaSolution` clears them first. It also requires a size other than 1: with one participant every pass restarts at once, and the nested `generateNewSantaSolution` / `generateSantaSolution` calls (lines 33-34, 56-59) grow the stack until the JVM throws `StackOverflowError`. No caller reaches size 1, since the game starts only with at least three names.
- Game.SecretSanta.GenerateNewSantaSolution: requires a duplicate-free list; the setup loop guarantees this. With duplicate names the source's index test and name-keyed maps disagree.
- Names.ToUpper: case mapping covers ASCII letters only. Java's full Unicode mapping, where the length can change (`'ß'` to `"SS"`), is not modelled; Names.ToLower and Names.LowerCase likewise.
