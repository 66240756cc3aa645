/**
 * Name normalisation of SecretSanta.capitalizeFirstLetterOnly: the first
 * character is upper-cased and every other character lower-cased. Case
 * mapping is modelled on the ASCII letters only; every other character is
 * left as it is.
 */
module Names {
  import opened Wrappers

  predicate IsUpperAscii(c: char) { 'A' <= c <= 'Z' }

  predicate IsLowerAscii(c: char) { 'a' <= c <= 'z' }

  /** Character.toUpperCase on one character. */
  function ToUpper(c: char): (u: char)
    ensures !IsLowerAscii(u)
    ensures IsLowerAscii(c) ==> IsUpperAscii(u) && u as int - 'A' as int == c as int - 'a' as int
    ensures !IsLowerAscii(c) ==> u == c
  {
    if IsLowerAscii(c) then (c as int - 32) as char else c
  }

  /** Character.toLowerCase on one character. */
  function ToLower(c: char): (l: char)
    ensures !IsUpperAscii(l)
    ensures IsUpperAscii(c) ==> IsLowerAscii(l) && l as int - 'a' as int == c as int - 'A' as int
    ensures !IsUpperAscii(c) ==> l == c
  {
    if IsUpperAscii(c) then (c as int + 32) as char else c
  }

  /** String.toLowerCase: every character lower-cased, the length kept. */
  function LowerCase(s: string): (r: string)
    ensures |r| == |s|
    ensures forall i :: 0 <= i < |s| ==> r[i] == ToLower(s[i])
  {
    if s == [] then [] else [ToLower(s[0])] + LowerCase(s[1..])
  }

  /** The shape every stored participant name has: a first character that is
      not a lower-case letter and no upper-case letter after it. */
  predicate IsNormalised(s: string)
  {
    |s| > 0 && !IsLowerAscii(s[0]) && forall i :: 1 <= i < |s| ==> !IsUpperAscii(s[i])
  }

  /** a and b spell the same word up to the case of their letters. */
  predicate SameIgnoringCase(a: string, b: string)
  {
    |a| == |b| && forall i :: 0 <= i < |a| ==> ToLower(a[i]) == ToLower(b[i])
  }

  /**
   * capitalizeFirstLetterOnly. charAt(0) throws on the empty string, which is
   * None here. Nothing is trimmed: leading blanks stay where they are.
   */
  function CapitalizeFirstLetterOnly(name: string): (r: Option<string>)
    ensures r.None? <==> name == []
    ensures r.Some? ==> |r.value| == |name| && IsNormalised(r.value) && SameIgnoringCase(r.value, name)
  {
    if name == [] then None
    else Some([ToUpper(name[0])] + LowerCase(name)[1..])
  }

  /** Two normalised names that agree up to case are the same name, so the
      normalised form of a name is unique. */
  lemma NormalFormUnique(a: string, b: string)
    requires IsNormalised(a) && IsNormalised(b) && SameIgnoringCase(a, b)
    ensures a == b
  {
    forall i | 0 <= i < |a|
      ensures a[i] == b[i]
    {
      if i == 0 {
        assert !IsLowerAscii(a[0]) && !IsLowerAscii(b[0]);
      } else {
        assert !IsUpperAscii(a[i]) && !IsUpperAscii(b[i]);
      }
    }
  }

  /** Normalising a name twice gives what normalising it once gives. */
  lemma CapitalizeIdempotent(name: string)
    requires name != []
    ensures CapitalizeFirstLetterOnly(CapitalizeFirstLetterOnly(name).value) == CapitalizeFirstLetterOnly(name)
  {
    var once := CapitalizeFirstLetterOnly(name).value;
    var twice := CapitalizeFirstLetterOnly(once).value;
    NormalFormUnique(twice, once);
  }

  /** A name is its own normal form exactly when it has the normalised shape. */
  lemma NormalisedIsFixedPoint(s: string)
    ensures IsNormalised(s) <==> CapitalizeFirstLetterOnly(s) == Some(s)
  {
    if IsNormalised(s) {
      NormalFormUnique(CapitalizeFirstLetterOnly(s).value, s);
    }
  }

  /** Two inputs normalise to the same name exactly when both are non-empty
      and they agree up to case: matching on normalised names is
      case-insensitive matching. */
  lemma SameNormalFormIffSameIgnoringCase(a: string, b: string)
    ensures (a != [] && b != [] && CapitalizeFirstLetterOnly(a) == CapitalizeFirstLetterOnly(b))
        <==> (a != [] && SameIgnoringCase(a, b))
  {
    if a != [] && b != [] && CapitalizeFirstLetterOnly(a) == CapitalizeFirstLetterOnly(b) {
      var n := CapitalizeFirstLetterOnly(a).value;
      assert forall i :: 0 <= i < |a| ==> ToLower(a[i]) == ToLower(n[i]) == ToLower(b[i]);
    }
    if a != [] && SameIgnoringCase(a, b) {
      var na := CapitalizeFirstLetterOnly(a).value;
      var nb := CapitalizeFirstLetterOnly(b).value;
      assert forall i :: 0 <= i < |a| ==> ToLower(na[i]) == ToLower(a[i]) == ToLower(b[i]) == ToLower(nb[i]);
      NormalFormUnique(na, nb);
    }
  }

  /** The normaliser does not trim: a name typed with leading blanks keeps them. */
  lemma LeadingBlanksKept()
    ensures CapitalizeFirstLetterOnly("  alice") == Some("  alice")
    ensures CapitalizeFirstLetterOnly("ALICE") == Some("Alice")
  {
    assert LowerCase("  alice") == "  alice";
    assert LowerCase("ALICE") == "alice";
    assert ToUpper('A') == 'A';
    assert [ToUpper('A')] + "alice"[1..] == "Alice";
  }
}
