/**
 * The class SecretSanta: its three static fields (the participant list and
 * the two pairing maps) become the fields of one object, and its static
 * methods become methods on that object. Math.random() is a stream of draws
 * given to the generator: each a real in [0, 1), scaled to an index as
 * (int) (Math.random() * participants.size()) scales it.
 */
module Game {
  import opened Wrappers
  import opened Names
  import opened Lists
  import opened Derangements
  import opened Setup

  /** (int) (r * n) for 0 <= r < 1: an index into a list of n elements. */
  function RandomIndex(r: real, n: nat): (index: nat)
    requires 0.0 <= r < 1.0 && n > 0
    ensures index < n
    ensures index as real <= r * n as real < index as real + 1.0
  {
    assert 0.0 <= r * n as real < n as real by {
      assert r * n as real < 1.0 * n as real;
    }
    (r * n as real).Floor
  }

  class SecretSanta {
    var participants: seq<string>
    var santaToHuman: map<string, string>
    var humanToSanta: map<string, string>

    /** What the setup loop maintains about the list; see Setup.WellFormed. */
    ghost predicate Valid()
      reads this
    {
      WellFormed(participants)
    }

    /** The static initialisers: an empty list and two empty maps. */
    constructor ()
      ensures Valid()
      ensures participants == [] && santaToHuman == map[] && humanToSanta == map[]
    {
      participants := [];
      santaToHuman := map[];
      humanToSanta := map[];
    }

    /** isDuplicateName: a linear scan for an equal entry. */
    method IsDuplicateName(name: string) returns (duplicate: bool)
      ensures duplicate <==> name in participants
    {
      for i := 0 to |participants|
        invariant name !in participants[..i]
      {
        if participants[i] == name {
          return true;
        }
      }
      return false;
    }

    /** generateParticipantsList: the names in list order, separated by ", ". Whether a
        name gets the separator is decided by indexOf, which is its own position because
        the list holds no duplicates. */
    method GenerateParticipantsList() returns (allParticipants: string)
      requires Valid()
      ensures allParticipants == JoinNames(participants)
    {
      allParticipants := "";
      for i := 0 to |participants|
        invariant allParticipants == JoinNames(participants[..i])
      {
        var participant := participants[i];
        IndexOfDistinct(participants, i);
        assert participants[..i + 1] == participants[..i] + [participant];
        if IndexOf(participants, participant) != 0 {
          JoinNamesSnoc(participants[..i], participant);
          allParticipants := allParticipants + ", " + participant;
        } else {
          allParticipants := allParticipants + participant;
        }
      }
      assert participants[..|participants|] == participants;
    }

    /**
     * generateSantaSolution: every santa, in list order, draws indices until
     * one names another participant who is nobody's human yet. When the only
     * human left is the santa in hand, the whole solution is thrown away and
     * generated again. Draws that run out stand for a rejection loop that has
     * not finished; then complete is false. On completion santaToHuman is a
     * derangement of the participants and humanToSanta its inverse.
     */
    method GenerateSantaSolution(draws: seq<real>) returns (complete: bool)
      requires Distinct(participants) && |participants| != 1
      requires forall r :: r in draws ==> 0.0 <= r < 1.0
      requires santaToHuman == map[] && humanToSanta == map[]
      modifies this
      decreases |draws|, 0
      ensures participants == old(participants)
      ensures complete ==> IsDerangement(participants, santaToHuman)
      ensures complete ==> IsInverse(santaToHuman, humanToSanta)
    {
      var remainingHumans: seq<string> := [];
      for k := 0 to |participants|
        invariant remainingHumans == participants[..k]
      {
        remainingHumans := remainingHumans + [participants[k]];
      }
      assert remainingHumans == participants;
      EmptyIsPartial(participants);

      var next := 0;
      ghost var retried := false;
      complete := true;
      for i := 0 to |participants|
        invariant participants == old(participants)
        invariant next <= |draws|
        invariant !retried ==> i <= next && complete
        invariant !retried ==> PartialSolution(participants, i, santaToHuman, humanToSanta, remainingHumans)
        invariant retried ==> i == |participants|
        invariant retried && complete ==> IsDerangement(participants, santaToHuman)
        invariant retried && complete ==> IsInverse(santaToHuman, humanToSanta)
      {
        var santa := participants[i];
        if |remainingHumans| == 1 && santa in remainingHumans {
          RetryOnlyAtLastSanta(participants, i, santaToHuman, humanToSanta, remainingHumans);
          assert forall r :: r in draws[next..] ==> r in draws;
          complete := GenerateNewSantaSolution(draws[next..]);
          retried := true;
        } else {
          var human, found;
          next, remainingHumans, human, found := AssignHuman(i, draws, next, remainingHumans);
          if !found {
            complete := false;
            return;
          }
        }
      }
      if !retried {
        CompletePartialIsDerangement(participants, santaToHuman, humanToSanta, remainingHumans);
      }
    }

    /**
     * The else branch of generateSantaSolution for the santa at position i:
     * draw a human, take it off remainingHumans and record the pair in both
     * maps. Found is false when the draws run out first.
     */
    method AssignHuman(i: nat, draws: seq<real>, from: nat, remainingHumans: seq<string>)
      returns (next: nat, remaining: seq<string>, human: string, found: bool)
      requires Distinct(participants) && i < |participants|
      requires from <= |draws|
      requires forall r :: r in draws ==> 0.0 <= r < 1.0
      requires PartialSolution(participants, i, santaToHuman, humanToSanta, remainingHumans)
      modifies this
      ensures participants == old(participants)
      ensures from <= next <= |draws|
      ensures forall j :: from <= j < next - 1 ==> !old(Accepts(i, draws[j]))
      ensures !found ==> next == |draws| && remaining == remainingHumans
      ensures !found ==> santaToHuman == old(santaToHuman) && humanToSanta == old(humanToSanta)
      ensures found ==> from < next && old(Accepts(i, draws[next - 1]))
      ensures found ==> human == participants[RandomIndex(draws[next - 1], |participants|)]
      ensures found ==> santaToHuman == old(santaToHuman)[participants[i] := human]
      ensures found ==> humanToSanta == old(humanToSanta)[human := participants[i]]
      ensures found ==> remaining == RemoveFirst(remainingHumans, human)
      ensures found ==> PartialSolution(participants, i + 1, santaToHuman, humanToSanta, remaining)
    {
      var santa := participants[i];
      var santaIndex := IndexOf(participants, santa);
      IndexOfDistinct(participants, i);
      human, next, found := DrawHuman(santaIndex, draws, from);
      remaining := remainingHumans;
      if found {
        AssignExtends(participants, i, santaToHuman, humanToSanta, remaining, human);
        remaining := RemoveFirst(remaining, human);
        santaToHuman := santaToHuman[santa := human];
        humanToSanta := humanToSanta[human := santa];
      }
    }

    /**
     * The rejection loop of generateSantaSolution for one santa: scale draws
     * to indices until one names a participant other than the santa who is
     * nobody's human yet. Found is false when the draws run out first; every
     * draw before the accepted one was rejected.
     */
    method DrawHuman(santaIndex: nat, draws: seq<real>, from: nat) returns (human: string, next: nat, found: bool)
      requires santaIndex < |participants|
      requires from <= |draws|
      requires forall r :: r in draws ==> 0.0 <= r < 1.0
      ensures from <= next <= |draws|
      ensures !found ==> next == |draws|
      ensures found ==> from < next && Accepts(santaIndex, draws[next - 1]) &&
                        human == participants[RandomIndex(draws[next - 1], |participants|)]
      ensures forall j :: from <= j < next - 1 ==> !Accepts(santaIndex, draws[j])
      ensures !found ==> forall j :: from <= j < |draws| ==> !Accepts(santaIndex, draws[j])
    {
      next := from;
      while true
        invariant from <= next <= |draws|
        invariant forall j :: from <= j < next ==> !Accepts(santaIndex, draws[j])
        decreases |draws| - next
      {
        if next == |draws| {
          return "", next, false;
        }
        assert draws[next] in draws;
        var randomIndex := RandomIndex(draws[next], |participants|);
        next := next + 1;
        human := participants[randomIndex];
        if randomIndex != santaIndex && human !in santaToHuman.Values {
          return human, next, true;
        }
      }
    }

    /** The guard of the rejection loop: draw r names a participant other than the santa
        at santaIndex who is nobody's human yet. */
    ghost predicate Accepts(santaIndex: nat, r: real): (b: bool)
      reads this
      ensures b ==> santaIndex < |participants| && 0.0 <= r < 1.0
      ensures b && Distinct(participants) ==>
                var human := participants[RandomIndex(r, |participants|)];
                human != participants[santaIndex] && human in participants && human !in santaToHuman.Values
    {
      && santaIndex < |participants| && 0.0 <= r < 1.0
      && var index := RandomIndex(r, |participants|);
         index != santaIndex && participants[index] !in santaToHuman.Values
    }

    /** generateNewSantaSolution: clear both maps, then generate from scratch. */
    method GenerateNewSantaSolution(draws: seq<real>) returns (complete: bool)
      requires Distinct(participants) && |participants| != 1
      requires forall r :: r in draws ==> 0.0 <= r < 1.0
      modifies this
      decreases |draws|, 1
      ensures participants == old(participants)
      ensures complete ==> IsDerangement(participants, santaToHuman)
      ensures complete ==> IsInverse(santaToHuman, humanToSanta)
    {
      santaToHuman := map[];
      humanToSanta := map[];
      complete := GenerateSantaSolution(draws);
    }

    /**
     * One pass of the setup loop in main: normalise the line, then the
     * if-chain of commands. Console output (usage, listings, messages) is
     * left out; "Help", "List", a duplicate and a bare "Remove" only print.
     */
    method SetupStep(line: string) returns (next: Next)
      modifies this
      ensures (next, participants) == Step(old(participants), line)
      ensures santaToHuman == old(santaToHuman) && humanToSanta == old(humanToSanta)
    {
      var normalised := CapitalizeFirstLetterOnly(line);
      if normalised.None? {
        return Crashed;
      }
      var name := normalised.value;
      next := KeepSetup;
      var duplicate := IsDuplicateName(name);
      if duplicate {
        // rejected with a message
      } else if name == "Help" {
        // prints the usage
      } else if name == "List" {
        // prints the listing
      } else if name == "Remove" || name == "Remove " {
        // prints how to use "Remove"
      } else if |name| > |RemoveKeyword| + 1 && name[..|RemoveKeyword|] == RemoveKeyword {
        var nameToBeRemoved := CapitalizeFirstLetterOnly(name[|RemoveKeyword| + 1..]).value;
        if nameToBeRemoved in participants {
          participants := RemoveFirst(participants, nameToBeRemoved);
        }
      } else if name == "Done" {
        if |participants| >= MinParticipants {
          next := StartGame;
        }
      } else if name == "End" {
        next := EndProgram;
      } else {
        participants := participants + [name];
      }
    }

    /** The setup loop of main over a finite input; see Setup.RunLines. */
    method RunSetup(lines: seq<string>) returns (next: Next, read: nat)
      modifies this
      ensures (next, participants, read) == RunLines(old(participants), lines, 0)
      ensures santaToHuman == old(santaToHuman) && humanToSanta == old(humanToSanta)
    {
      next, read := KeepSetup, 0;
      while next == KeepSetup && read < |lines|
        invariant read <= |lines|
        invariant santaToHuman == old(santaToHuman) && humanToSanta == old(humanToSanta)
        invariant next == KeepSetup ==>
                    RunLines(old(participants), lines, 0) == RunLines(participants, lines, read)
        invariant next != KeepSetup ==> RunLines(old(participants), lines, 0) == (next, participants, read)
        decreases |lines| - read
      {
        next := SetupStep(lines[read]);
        read := read + 1;
      }
    }

    /**
     * main up to the game: read setup lines, and once "Done" is accepted
     * generate a fresh solution. The game loop that follows only looks the
     * pairs up and shows them.
     */
    method Run(lines: seq<string>, draws: seq<real>) returns (next: Next, complete: bool)
      requires Valid()
      requires forall r :: r in draws ==> 0.0 <= r < 1.0
      modifies this
      ensures Valid()
      ensures next == RunLines(old(participants), lines, 0).0
      ensures participants == RunLines(old(participants), lines, 0).1
      ensures next == StartGame ==> |participants| >= MinParticipants
      ensures complete ==> next == StartGame
      ensures complete ==> IsDerangement(participants, santaToHuman)
      ensures complete ==> IsInverse(santaToHuman, humanToSanta)
      ensures next != StartGame ==> santaToHuman == old(santaToHuman) && humanToSanta == old(humanToSanta)
    {
      var read;
      RunLinesKeepsWellFormed(participants, lines, 0);
      next, read := RunSetup(lines);
      complete := false;
      if next == StartGame {
        complete := GenerateNewSantaSolution(draws);
      }
    }
  }
}
