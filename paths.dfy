/** Names and paths: the bounded string handling of the registry
    (mr_object.c:55-71, 103-130). */
module Paths {
  import opened Prelude

  /** MR_CFG_OBJECT_NAME_MAX_LEN, the capacity of an object's name buffer. */
  const NAME_MAX: nat := 16

  /** A C string: its characters up to, and not including, the terminating NUL.
      Each `char` stands for one C `char`, that is one byte, so lengths and
      cuts count bytes as `strncpy` and `strncmp` do. */
  type CString = s: seq<char> | '\0' !in s

  /** What an object's name buffer holds: at most NAME_MAX characters. */
  type Name = s: CString | |s| <= NAME_MAX

  function Min(a: nat, b: nat): nat { if a <= b then a else b }

  /** `strncpy(buf, s, NAME_MAX)` into a name buffer: the first NAME_MAX
      characters of `s`, or all of `s` when it is shorter. */
  function Truncate(s: CString): (r: Name)
    ensures r <= s
    ensures |s| <= NAME_MAX ==> r == s
    ensures |s| > NAME_MAX ==> |r| == NAME_MAX
  {
    if |s| <= NAME_MAX then s
    else
      var r := s[..NAME_MAX];
      assert forall i | 0 <= i < |r| :: r[i] in s;
      r
  }

  /** `strncmp(a, b, n) == 0` on two C strings: they agree on their first `n`
      characters, the terminating NUL taking part in the comparison. */
  function StrNEqual(a: CString, b: CString, n: nat): bool
    decreases n
  {
    if n == 0 then true
    else if a == [] || b == [] then a == b
    else a[0] == b[0] && StrNEqual(a[1..], b[1..], n - 1)
  }

  /** strncmp agrees with comparing the two strings cut to `n` characters. */
  lemma {:induction false} StrNEqualIsPrefixEquality(a: CString, b: CString, n: nat)
    ensures StrNEqual(a, b, n) <==> a[..Min(n, |a|)] == b[..Min(n, |b|)]
    decreases n
  {
    if n == 0 || a == [] || b == [] {
    } else {
      StrNEqualIsPrefixEquality(a[1..], b[1..], n - 1);
      var x, y := a[1..][..Min(n - 1, |a| - 1)], b[1..][..Min(n - 1, |b| - 1)];
      assert a[..Min(n, |a|)] == [a[0]] + x;
      assert b[..Min(n, |b|)] == [b[0]] + y;
      if [a[0]] + x == [b[0]] + y {
        assert a[0] == ([a[0]] + x)[0] == ([b[0]] + y)[0] == b[0];
        assert x == ([a[0]] + x)[1..] == ([b[0]] + y)[1..] == y;
      }
    }
  }

  /** The lookup test of mr_object.c:65: `strncmp(key, stored, NAME_MAX) == 0`. */
  predicate Matches(key: CString, stored: Name)
  {
    StrNEqual(key, stored, NAME_MAX)
  }

  /** A stored name matches a key exactly when it is the key's first NAME_MAX
      characters: longer keys match on their 16-character prefix. */
  lemma MatchesIffTruncated(key: CString, stored: Name)
    ensures Matches(key, stored) <==> Truncate(key) == stored
  {
    StrNEqualIsPrefixEquality(key, stored, NAME_MAX);
    assert stored[..Min(NAME_MAX, |stored|)] == stored;
  }

  /** One step of path descent (mr_object.c:103-130): either no '/' is left and
      `segment` is the final segment, or `name` is the directory segment cut to
      NAME_MAX characters and `rest` what follows its slash. */
  datatype Step = Final(segment: CString) | Descend(name: Name, rest: CString)

  /** The path with at most one leading '/' removed (mr_object.c:109-112). */
  function SkipSlash(path: CString): (r: CString)
    ensures path == r || path == ['/'] + r
    ensures |r| + 1 >= |path|
  {
    if |path| > 0 && path[0] == '/' then path[1..] else path
  }

  /** The parsing half of `next_parent_find_from_path`: skip one leading
      '/', find the next '/', take the bytes before it (bounded by NAME_MAX)
      and move past it. */
  function ParseStep(path: CString): (st: Step)
    ensures st.Final? ==> st.segment == SkipSlash(path) && '/' !in st.segment
    ensures st.Descend? ==>
      var p := SkipSlash(path);
      var k := |p| - |st.rest| - 1;
      && 0 <= k < |p| && p[k] == '/' && '/' !in p[..k]
      && st.name == Truncate(p[..k]) && st.rest == p[k + 1..]
  {
    var p := SkipSlash(path);
    match FirstIndex(p, '/')
    case None => Final(p)
    case Some(k) =>
      assert forall i | 0 <= i < k :: p[..k][i] in p;
      assert forall i | k + 1 <= i < |p| :: p[i] in p;
      Descend(Truncate(p[..k]), p[k + 1..])
  }
  /** The cuts of `next_parent_find_from_path` as it makes them: the segment
      is the first `min(k, NAME_MAX)` characters before the '/' at `k`, the
      rest what follows that '/'. */
  lemma DescendCuts(path: CString, k: nat)
    requires FirstIndex(SkipSlash(path), '/') == Some(k)
    ensures var s := SkipSlash(path);
      && '\0' !in s[..Min(k, NAME_MAX)] && '\0' !in s[k + 1..]
      && ParseStep(path) == Descend(s[..Min(k, NAME_MAX)], s[k + 1..])
  {
    var s := SkipSlash(path);
    assert forall j | 0 <= j < Min(k, NAME_MAX) :: s[..Min(k, NAME_MAX)][j] in s;
    assert forall j | k + 1 <= j < |s| :: s[j] in s;
    assert Truncate(s[..k]) == s[..Min(k, NAME_MAX)];
  }
}
