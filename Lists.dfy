/**
 * The java.util.List operations the program relies on (indexOf, remove of an
 * element, duplicate-freedom) and the ", "-separated listing built by
 * SecretSanta.generateParticipantsList.
 */
module Lists {

  /** No element occurs twice. */
  predicate Distinct<T(==)>(s: seq<T>)
  {
    forall j, k :: 0 <= j < k < |s| ==> s[j] != s[k]
  }

  /** List.indexOf: the position of the first occurrence of x, or -1 when x is absent. */
  function IndexOf<T(==)>(s: seq<T>, x: T): (r: int)
    ensures -1 <= r < |s|
    ensures r == -1 <==> x !in s
    ensures 0 <= r ==> s[r] == x && x !in s[..r]
  {
    if s == [] then -1
    else if s[0] == x then 0
    else
      var k := IndexOf(s[1..], x);
      assert k >= 0 ==> s[..k + 1] == [s[0]] + s[1..][..k];
      if k == -1 then -1 else k + 1
  }

  /** In a duplicate-free list indexOf finds every element at its own position. */
  lemma IndexOfDistinct<T>(s: seq<T>, i: int)
    requires Distinct(s) && 0 <= i < |s|
    ensures IndexOf(s, s[i]) == i
  {
  }

  /** List.remove(Object): drops the first occurrence of x and keeps the others in order;
      a list without x is returned unchanged. */
  function RemoveFirst<T(==)>(s: seq<T>, x: T): (r: seq<T>)
    ensures x !in s ==> r == s
    ensures x in s ==> r == s[..IndexOf(s, x)] + s[IndexOf(s, x) + 1..]
  {
    if s == [] then []
    else if s[0] == x then s[1..]
    else
      var r := [s[0]] + RemoveFirst(s[1..], x);
      assert x in s ==> s[..IndexOf(s, x)] == [s[0]] + s[1..][..IndexOf(s[1..], x)];
      r
  }

  /** Position j of a list with position k dropped holds the element that sat at j before
      k and at j + 1 from k on. */
  lemma DroppedAt<T>(s: seq<T>, k: int, j: int)
    requires 0 <= k < |s| && 0 <= j < |s| - 1
    ensures (s[..k] + s[k + 1..])[j] == s[if j < k then j else j + 1]
  {
  }

  /** Removing a present element from a duplicate-free list shortens it by one, leaves it
      duplicate-free, and removes exactly that element. */
  lemma RemoveFirstDistinct<T>(s: seq<T>, x: T)
    requires Distinct(s) && x in s
    ensures |RemoveFirst(s, x)| == |s| - 1
    ensures Distinct(RemoveFirst(s, x))
    ensures forall y :: y in RemoveFirst(s, x) <==> y in s && y != x
  {
    var k := IndexOf(s, x);
    var r := RemoveFirst(s, x);
    assert r == s[..k] + s[k + 1..];
    forall j, l | 0 <= j < l < |r|
      ensures r[j] != r[l]
    {
      DroppedAt(s, k, j);
      DroppedAt(s, k, l);
    }
    forall y
      ensures y in r <==> y in s && y != x
    {
      if y in r {
        var j :| 0 <= j < |r| && r[j] == y;
        DroppedAt(s, k, j);
      }
      if y in s && y != x {
        var j :| 0 <= j < |s| && s[j] == y;
        DroppedAt(s, k, if j < k then j else j - 1);
      }
    }
  }

  /** The listing the program prints: "" for no names, otherwise the names in list order
      separated by ", ". */
  function JoinNames(names: seq<string>): (r: string)
    ensures names == [] ==> r == ""
    ensures |names| == 1 ==> r == names[0]
    ensures names != [] ==> names[0] <= r
    ensures |names| > 1 ==> names[0] + ", " <= r
  {
    if names == [] then ""
    else if |names| == 1 then names[0]
    else names[0] + ", " + JoinNames(names[1..])
  }

  /** Appending a name to a non-empty list appends ", " and that name to its listing. */
  lemma {:induction false} JoinNamesSnoc(names: seq<string>, x: string)
    requires names != []
    ensures JoinNames(names + [x]) == JoinNames(names) + ", " + x
  {
    if |names| == 1 {
      assert (names + [x])[1..] == [x];
    } else {
      assert (names + [x])[1..] == names[1..] + [x];
      JoinNamesSnoc(names[1..], x);
    }
  }
}
