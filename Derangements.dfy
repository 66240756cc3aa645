/**
 * What a finished Secret Santa solution is: santaToHuman is a permutation of
 * the participants without fixed points, and humanToSanta is its exact
 * inverse. PartialSolution is the state of SecretSanta.generateSantaSolution
 * after it has given a human to the first i santas.
 */
module Derangements {
  import opened Lists

  /** No two santas share a human. */
  ghost predicate Injective(m: map<string, string>)
  {
    forall s, t :: s in m && t in m && s != t ==> m[s] != m[t]
  }

  /** m maps every participant, and only participants, to another participant,
      no two to the same one, and every participant is somebody's human. */
  ghost predicate IsDerangement(people: seq<string>, m: map<string, string>)
  {
    && (forall s :: s in m <==> s in people)
    && (forall s {:trigger m[s]} :: s in m ==> m[s] in people && m[s] != s)
    && Injective(m)
    && (forall h {:trigger h in m.Values} :: h in people ==> h in m.Values)
  }

  /** inv undoes m and m undoes inv. */
  ghost predicate IsInverse(m: map<string, string>, inv: map<string, string>)
  {
    && (forall s :: s in m ==> m[s] in inv && inv[m[s]] == s)
    && (forall h :: h in inv ==> inv[h] in m && m[inv[h]] == h)
  }

  /**
   * The generator's state after the first i santas of people have a human:
   * exactly those santas are keys, each has another participant, no human is
   * used twice, the inverse map is kept in step, and remaining lists, once
   * each, the participants not yet used as a human; one per santa still to go.
   */
  ghost predicate PartialSolution(people: seq<string>, i: int, m: map<string, string>,
                                  inv: map<string, string>, remaining: seq<string>)
  {
    && 0 <= i <= |people|
    && (forall s :: s in m <==> s in people[..i])
    && (forall s {:trigger m[s]} :: s in m ==> m[s] in people && m[s] != s)
    && Injective(m)
    && IsInverse(m, inv)
    && Distinct(remaining)
    && |remaining| == |people| - i
    && (forall h :: h in remaining <==> h in people && h !in m.Values)
  }

  /** Before the first santa: both maps empty and every participant remaining. */
  lemma EmptyIsPartial(people: seq<string>)
    requires Distinct(people)
    ensures PartialSolution(people, 0, map[], map[], people)
  {
  }

  /** Once every santa has a human, the partial solution is a complete one. */
  lemma CompletePartialIsDerangement(people: seq<string>, m: map<string, string>,
                                     inv: map<string, string>, remaining: seq<string>)
    requires PartialSolution(people, |people|, m, inv, remaining)
    ensures IsDerangement(people, m) && IsInverse(m, inv)
  {
    assert people[..|people|] == people;
    assert remaining == [];
  }

  /**
   * Recording santa people[i] -> h in both maps and removing h from
   * remaining, for an h the guard of the rejection loop accepts (another
   * participant that is not yet anybody's human), extends the partial
   * solution by one santa.
   */
  lemma AssignExtends(people: seq<string>, i: int, m: map<string, string>,
                      inv: map<string, string>, remaining: seq<string>, h: string)
    requires Distinct(people)
    requires PartialSolution(people, i, m, inv, remaining) && i < |people|
    requires h in people && h != people[i] && h !in m.Values
    ensures PartialSolution(people, i + 1, m[people[i] := h], inv[h := people[i]],
                            RemoveFirst(remaining, h))
  {
    var santa := people[i];
    var m' := m[santa := h];
    var inv' := inv[h := santa];
    var remaining' := RemoveFirst(remaining, h);
    assert people[..i + 1] == people[..i] + [santa];
    assert santa !in m;
    assert h !in inv;
    assert h in remaining;
    RemoveFirstDistinct(remaining, h);
    UpdateValues(m, santa, h);
    assert forall s :: s in m' <==> s in people[..i + 1];
    InjectiveExtends(m, santa, h);
    InverseExtends(m, inv, santa, h);
    assert forall x :: x in remaining' <==> x in people && x !in m'.Values;
  }

  /** A new key with a value no key had yet keeps a map injective. */
  lemma InjectiveExtends(m: map<string, string>, k: string, v: string)
    requires Injective(m) && k !in m && v !in m.Values
    ensures Injective(m[k := v])
  {
    var m' := m[k := v];
    forall s, t | s in m' && t in m' && s != t
      ensures m'[s] != m'[t]
    {
      if s != k && t != k {
        assert m'[s] == m[s] && m'[t] == m[t];
      } else if s == k {
        assert m[t] in m.Values;
      } else {
        assert m[s] in m.Values;
      }
    }
  }

  /** Adding the pair k -> v to a map and v -> k to its inverse keeps them inverse,
      when neither is in use yet. */
  lemma InverseExtends(m: map<string, string>, inv: map<string, string>, k: string, v: string)
    requires IsInverse(m, inv) && k !in m && v !in inv
    ensures IsInverse(m[k := v], inv[v := k])
  {
  }

  /** Giving a new key a value adds exactly that value to the map's values. */
  lemma UpdateValues(m: map<string, string>, k: string, v: string)
    requires k !in m
    ensures forall x :: x in m[k := v].Values <==> x in m.Values || x == v
  {
    var m' := m[k := v];
    forall x
      ensures x in m'.Values <==> x in m.Values || x == v
    {
      if x in m'.Values {
        var s :| s in m' && m'[s] == x;
        if s != k {
          assert m[s] == x;
        }
      }
      if x in m.Values {
        var s :| s in m && m[s] == x;
        assert m'[s] == x;
      }
      if x == v {
        assert m'[k] == v;
      }
    }
  }

  /**
   * Whenever the retry guard does not fire, some index passes the guard of
   * the rejection loop (another position, a human not yet taken), so the
   * loop can always accept a draw; the only dead end is the one the retry
   * handles.
   */
  lemma CandidateExists(people: seq<string>, i: int, m: map<string, string>,
                        inv: map<string, string>, remaining: seq<string>)
    requires Distinct(people)
    requires PartialSolution(people, i, m, inv, remaining) && i < |people|
    requires !(|remaining| == 1 && people[i] in remaining)
    ensures exists j :: 0 <= j < |people| && j != i && people[j] !in m.Values
  {
    var h := if remaining[0] != people[i] then remaining[0] else remaining[1];
    assert h in remaining;
    assert h != people[i];
    var j :| 0 <= j < |people| && people[j] == h;
    assert j != i && people[j] !in m.Values;
  }

  /** With |remaining| santas to go, the retry guard can only hold at the last santa. */
  lemma RetryOnlyAtLastSanta(people: seq<string>, i: int, m: map<string, string>,
                             inv: map<string, string>, remaining: seq<string>)
    requires PartialSolution(people, i, m, inv, remaining)
    requires |remaining| == 1
    ensures i == |people| - 1
  {
  }

  /** The inverse of a solution is one too: every participant has exactly one
      santa, never themself, so "Get my santa" finds an answer for everyone. */
  lemma InverseIsDerangement(people: seq<string>, m: map<string, string>, inv: map<string, string>)
    requires IsDerangement(people, m) && IsInverse(m, inv)
    ensures IsDerangement(people, inv)
  {
    forall h
      ensures h in inv <==> h in people
    {
      if h in people {
        assert h in m.Values;
        var s :| s in m && m[s] == h;
        assert h in inv;
      }
    }
    forall h | h in inv
      ensures inv[h] in people && inv[h] != h
    {
      assert m[inv[h]] == h;
    }
    forall s | s in people
      ensures s in inv.Values
    {
      assert s in m;
      assert inv[m[s]] == s;
    }
  }

  /** With three participants there are exactly two solutions: the two rotations. */
  lemma ThreeParticipants(a: string, b: string, c: string, m: map<string, string>)
    requires Distinct([a, b, c])
    requires IsDerangement([a, b, c], m)
    ensures || (m[a] == b && m[b] == c && m[c] == a)
            || (m[a] == c && m[b] == a && m[c] == b)
  {
    assert a != b && a != c && b != c by {
      var p := [a, b, c];
      assert p[0] == a && p[1] == b && p[2] == c;
    }
    OthersImage(a, b, c, m);
    OthersImage(b, c, a, m);
    OthersImage(c, a, b, m);
    DistinctImages(m, a, b);
    DistinctImages(m, a, c);
    DistinctImages(m, b, c);
    Rotations(a, b, c, m[a], m[b], m[c]);
  }

  /** Two different santas of an injective map have different humans. */
  lemma DistinctImages(m: map<string, string>, s: string, t: string)
    requires Injective(m) && s in m && t in m && s != t
    ensures m[s] != m[t]
  {
  }

  /** In a solution for three, each santa has one of the other two. */
  lemma OthersImage(a: string, b: string, c: string, m: map<string, string>)
    requires a != b && a != c && b != c
    requires forall s :: s in m <==> s in [a, b, c]
    requires forall s {:trigger m[s]} :: s in m ==> m[s] in [a, b, c] && m[s] != s
    ensures a in m && (m[a] == b || m[a] == c)
  {
    assert a in [a, b, c];
  }

  /** The case analysis behind ThreeParticipants, on plain values. */
  lemma Rotations(a: string, b: string, c: string, ha: string, hb: string, hc: string)
    requires a != b && a != c && b != c
    requires (ha == b || ha == c) && (hb == a || hb == c) && (hc == a || hc == b)
    requires ha != hb && ha != hc && hb != hc
    ensures (ha == b && hb == c && hc == a) || (ha == c && hb == a && hc == b)
  {
  }
}
