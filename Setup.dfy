/**
 * The setup loop of SecretSanta.main with its console output left out: how
 * one input line, once normalised, is classified against the current
 * participant list, and what that does to the list and to the loop.
 */
module Setup {
  import opened Wrappers
  import opened Names
  import opened Lists

  /** The smallest group "Done" accepts. */
  const MinParticipants := 3

  /** The keyword of the removal command; its name starts one character after it. */
  const RemoveKeyword := "Remove"

  /** What the setup loop makes of one normalised input line. */
  datatype Command =
    | Duplicate(name: string)      // already a participant: rejected
    | Help
    | List
    | RemoveUsage                  // "Remove" without a name
    | Remove(target: string)       // "Remove <x>", target normalised
    | Done
    | End
    | Add(name: string)            // any other line is a new participant

  /** How the setup loop goes on after one line. */
  datatype Next =
    | KeepSetup                    // read another line
    | StartGame                    // break out of the loop with at least three participants
    | EndProgram                   // "End": main returns
    | Crashed                      // an empty line: charAt(0) throws

  /** "Remove" followed by at least two more characters; the first of them is skipped
      whatever it is and the rest names the participant. */
  predicate IsRemoveWithName(name: string): (b: bool)
    ensures b ==> name != RemoveKeyword && name != RemoveKeyword + " "
    ensures b ==> RemoveKeyword < name
  {
    |name| > |RemoveKeyword| + 1 && name[..|RemoveKeyword|] == RemoveKeyword
  }

  /** Normalised lines that the loop reads as a command and never as a name. */
  predicate IsReserved(name: string)
  {
    || name == "Help" || name == "List" || name == "Remove" || name == "Remove "
    || IsRemoveWithName(name) || name == "Done" || name == "End"
  }

  /** The name a "Remove <x>" line removes. */
  function RemoveTarget(name: string): (target: string)
    requires IsRemoveWithName(name)
    ensures IsNormalised(target)
    ensures SameIgnoringCase(target, name[|RemoveKeyword| + 1..])
  {
    CapitalizeFirstLetterOnly(name[|RemoveKeyword| + 1..]).value
  }

  /** The if-chain of the setup loop, in its order: the duplicate test comes first. */
  function Decide(name: string, participants: seq<string>): (c: Command)
    ensures c.Duplicate? <==> name in participants
    ensures name !in participants ==> (c == Help <==> name == "Help")
    ensures name !in participants ==> (c == List <==> name == "List")
    ensures name !in participants ==> (c == RemoveUsage <==> name == "Remove" || name == "Remove ")
    ensures name !in participants ==> (c.Remove? <==> IsRemoveWithName(name))
    ensures c.Remove? ==> IsRemoveWithName(name) && c.target == RemoveTarget(name)
    ensures name !in participants ==> (c == Done <==> name == "Done")
    ensures name !in participants ==> (c == End <==> name == "End")
    ensures c.Add? <==> name !in participants && !IsReserved(name)
    ensures c.Add? ==> c.name == name
  {
    if name in participants then Duplicate(name)
    else if name == "Help" then Help
    else if name == "List" then List
    else if name == "Remove" || name == "Remove " then RemoveUsage
    else if IsRemoveWithName(name) then Remove(RemoveTarget(name))
    else if name == "Done" then Done
    else if name == "End" then End
    else Add(name)
  }

  /** The participant list after a command. */
  function Apply(participants: seq<string>, c: Command): (after: seq<string>)
    ensures !c.Add? && !c.Remove? ==> after == participants
    ensures c.Add? ==> |after| == |participants| + 1 && after[|participants|] == c.name
    ensures c.Remove? ==> |after| <= |participants|
    ensures forall x :: x in after ==> x in participants || (c.Add? && x == c.name)
  {
    match c
    case Remove(target) =>
      if target in participants then RemoveFirst(participants, target) else participants
    case Add(name) => participants + [name]
    case _ => participants
  }

  /** Where the loop goes after a command. */
  function Continuation(participants: seq<string>, c: Command): (next: Next)
    ensures next == StartGame <==> c == Done && |participants| >= MinParticipants
    ensures next == EndProgram <==> c == End
    ensures next != Crashed
  {
    match c
    case Done => if |participants| < MinParticipants then KeepSetup else StartGame
    case End => EndProgram
    case _ => KeepSetup
  }

  /** One pass of the setup loop on a raw input line. */
  function Step(participants: seq<string>, line: string): (r: (Next, seq<string>))
    ensures r.0 == Crashed <==> line == []
    ensures r.0 != KeepSetup ==> r.1 == participants
    ensures forall x :: x in r.1 ==> x in participants || CapitalizeFirstLetterOnly(line) == Some(x)
  {
    match CapitalizeFirstLetterOnly(line)
    case None => (Crashed, participants)
    case Some(name) =>
      var c := Decide(name, participants);
      (Continuation(participants, c), Apply(participants, c))
  }

  /** The list the loop keeps: duplicate-free, every name normalised, none a command word. */
  ghost predicate WellFormed(participants: seq<string>)
  {
    && Distinct(participants)
    && forall k :: 0 <= k < |participants| ==>
         IsNormalised(participants[k]) && !IsReserved(participants[k])
  }

  /** An empty line ends the program with an exception and changes nothing. */
  lemma EmptyLineCrashes(participants: seq<string>)
    ensures Step(participants, "") == (Crashed, participants)
  {
  }

  /** A line that normalises to a present name leaves the list as it is. */
  lemma DuplicateLeavesListUnchanged(participants: seq<string>, line: string)
    requires line != [] && CapitalizeFirstLetterOnly(line).value in participants
    ensures Step(participants, line) == (KeepSetup, participants)
  {
  }

  /** A line that normalises to a new name that is not a command appends that name. */
  lemma NewNameAppended(participants: seq<string>, line: string)
    requires line != []
    requires CapitalizeFirstLetterOnly(line).value !in participants
    requires !IsReserved(CapitalizeFirstLetterOnly(line).value)
    ensures Step(participants, line) ==
              (KeepSetup, participants + [CapitalizeFirstLetterOnly(line).value])
  {
  }

  /** "Remove <x>" of a present name deletes that one entry and keeps the others in order;
      of an absent name it changes nothing. */
  lemma RemoveDeletesOnlyTarget(participants: seq<string>, line: string)
    requires WellFormed(participants)
    requires line != [] && IsRemoveWithName(CapitalizeFirstLetterOnly(line).value)
    ensures Step(participants, line).0 == KeepSetup
    ensures var target := RemoveTarget(CapitalizeFirstLetterOnly(line).value);
            RemovedOnly(participants, target, Step(participants, line).1)
  {
    var name := CapitalizeFirstLetterOnly(line).value;
    ReservedAbsent(participants, name);
    RemoveStep(participants, line, name);
    RemoveApplied(participants, RemoveTarget(name));
  }

  /** after is participants without the first entry equal to target, if there is one. */
  predicate RemovedOnly(participants: seq<string>, target: string, after: seq<string>)
  {
    && (target in participants ==>
          var k := IndexOf(participants, target);
          && after == participants[..k] + participants[k + 1..]
          && |after| == |participants| - 1
          && target !in after)
    && (target !in participants ==> after == participants)
  }

  /** The removal command on a duplicate-free list. */
  lemma RemoveApplied(participants: seq<string>, target: string)
    requires Distinct(participants)
    ensures RemovedOnly(participants, target, Apply(participants, Remove(target)))
  {
    if target in participants {
      RemoveFirstDistinct(participants, target);
    }
  }

  /** A well-formed list holds no command word. */
  lemma ReservedAbsent(participants: seq<string>, name: string)
    requires WellFormed(participants) && IsReserved(name)
    ensures name !in participants
  {
  }

  /** A "Remove <x>" line that is not itself a participant is read as the removal of x. */
  lemma RemoveStep(participants: seq<string>, line: string, name: string)
    requires CapitalizeFirstLetterOnly(line) == Some(name)
    requires IsRemoveWithName(name) && name !in participants
    ensures Step(participants, line) == (KeepSetup, Apply(participants, Remove(RemoveTarget(name))))
  {
    assert |name| > 7;
    assert Decide(name, participants) == Remove(RemoveTarget(name));
  }

  /** "Help", "List" and a bare "Remove" only print: setup goes on with the list as it was. */
  lemma PrintingCommandsKeepList(participants: seq<string>, line: string)
    requires WellFormed(participants)
    requires CapitalizeFirstLetterOnly(line) in {Some("Help"), Some("List"), Some("Remove"), Some("Remove ")}
    ensures Step(participants, line) == (KeepSetup, participants)
  {
    var name := CapitalizeFirstLetterOnly(line).value;
    ReservedAbsent(participants, name);
  }

  /** "End" ends the program from setup and leaves the list as it was. */
  lemma EndLeavesSetup(participants: seq<string>, line: string)
    requires WellFormed(participants)
    requires CapitalizeFirstLetterOnly(line) == Some("End")
    ensures Step(participants, line) == (EndProgram, participants)
  {
    ReservedAbsent(participants, "End");
  }

  /** "Done" leaves setup exactly when there are at least three participants, and never
      changes the list. */
  lemma DoneGate(participants: seq<string>, line: string)
    requires WellFormed(participants)
    requires line != [] && CapitalizeFirstLetterOnly(line).value == "Done"
    ensures Step(participants, line).1 == participants
    ensures Step(participants, line).0 == StartGame <==> |participants| >= MinParticipants
    ensures Step(participants, line).0 == KeepSetup <==> |participants| < MinParticipants
  {
    assert "Done" !in participants;
  }

  /** Leaving setup for the game only ever happens with at least three participants. */
  lemma StartGameNeedsThree(participants: seq<string>, line: string)
    requires Step(participants, line).0 == StartGame
    ensures |participants| >= MinParticipants
    ensures Step(participants, line).1 == participants
    ensures CapitalizeFirstLetterOnly(line) == Some("Done")
  {
  }

  /** Every pass of the loop keeps the list well formed; in particular it never holds a
      name twice. */
  lemma StepPreservesWellFormed(participants: seq<string>, line: string)
    requires WellFormed(participants)
    ensures WellFormed(Step(participants, line).1)
  {
    if line != [] {
      var name := CapitalizeFirstLetterOnly(line).value;
      var c := Decide(name, participants);
      var after := Apply(participants, c);
      match c
      case Remove(target) =>
        if target in participants {
          RemoveFirstDistinct(participants, target);
          forall k | 0 <= k < |after|
            ensures IsNormalised(after[k]) && !IsReserved(after[k])
          {
            assert after[k] in participants;
          }
        }
      case Add(n) =>
        assert after == participants + [name];
        assert Distinct(after);
      case _ =>
    }
  }

  /**
   * The setup loop over a finite input, from line `from` on: one Step per
   * line until a line leaves the loop or the input runs out. The result is
   * how the loop ended, the list it left and how many lines had been read.
   */
  function RunLines(participants: seq<string>, lines: seq<string>, from: nat): (r: (Next, seq<string>, nat))
    requires from <= |lines|
    ensures from <= r.2 <= |lines|
    ensures r.0 == KeepSetup ==> r.2 == |lines|
    ensures r.0 != KeepSetup ==> from < r.2
    decreases |lines| - from
  {
    if from == |lines| then (KeepSetup, participants, from)
    else
      var (next, after) := Step(participants, lines[from]);
      if next != KeepSetup then (next, after, from + 1)
      else RunLines(after, lines, from + 1)
  }

  /** However many lines setup reads, the list stays well formed, and the loop only
      hands over to the game with at least three participants. */
  lemma {:induction false} RunLinesKeepsWellFormed(participants: seq<string>, lines: seq<string>, from: nat)
    requires from <= |lines|
    requires WellFormed(participants)
    ensures WellFormed(RunLines(participants, lines, from).1)
    ensures RunLines(participants, lines, from).0 == StartGame ==>
              |RunLines(participants, lines, from).1| >= MinParticipants
    decreases |lines| - from
  {
    if from < |lines| {
      StepPreservesWellFormed(participants, lines[from]);
      var (next, after) := Step(participants, lines[from]);
      if next == KeepSetup {
        RunLinesKeepsWellFormed(after, lines, from + 1);
      } else if next == StartGame {
        StartGameNeedsThree(participants, lines[from]);
      }
    }
  }
}
