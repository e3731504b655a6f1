/** Small shared vocabulary: an optional value and the first position of an
    element in a sequence. */
module Prelude {

  /** A possibly-absent value; `None` plays the part of a NULL pointer. */
  datatype Option<T> = None | Some(value: T)

  /** The first position of `x` in `s`, as `strchr` finds a character. */
  function FirstIndex<T(==)>(s: seq<T>, x: T): (r: Option<nat>)
    ensures r.None? <==> x !in s
    ensures r.Some? ==> r.value < |s| && s[r.value] == x && x !in s[..r.value]
  {
    if s == [] then None
    else if s[0] == x then Some(0)
    else
      match FirstIndex(s[1..], x)
      case None => None
      case Some(i) =>
        assert s[1..][..i] == s[1..i + 1];
        Some(i + 1)
  }

  /** Deleting the `i`-th element shifts every later element down by one. */
  lemma DeleteIndex<T>(s: seq<T>, i: nat)
    requires i < |s|
    ensures |s[..i] + s[i + 1..]| == |s| - 1
    ensures forall j | 0 <= j < i :: (s[..i] + s[i + 1..])[j] == s[j]
    ensures forall j | i < j < |s| :: (s[..i] + s[i + 1..])[j - 1] == s[j]
  {
  }
}
