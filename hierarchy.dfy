/** The children abstraction of the registry and the pure counterparts of
    its read-only walkers: child lookup (mr_object.c:55-71), path descent
    (mr_object.c:103-158) and the pre-order dump (mr_object.c:161-178). */
module Hierarchy {
  import opened Prelude
  import opened Paths

  /** An object, named by its index in the arena of objects. */
  type Obj = nat

  /** `root_object` (mr_object.c:21). */
  const ROOT: Obj := 0

  /** `kids[p]` lists, in child-list order, the objects linked into the
      `clist` of `p`; `name[o]` is the name buffer of `o`. */
  datatype Tree = Tree(kids: seq<seq<Obj>>, name: seq<Name>)

  ghost predicate WellFormed(t: Tree)
  {
    && |t.kids| == |t.name|
    && forall p, i | 0 <= p < |t.kids| && 0 <= i < |t.kids[p]| :: t.kids[p][i] < |t.name|
  }

  /** `o` is linked into no child list. */
  ghost predicate Unlinked(t: Tree, o: Obj)
  {
    forall p | 0 <= p < |t.kids| :: o !in t.kids[p]
  }

  /** The first of `ks`, in order, whose name `strncmp`s equal to `key` on
      NAME_MAX characters. */
  function FirstMatch(ks: seq<Obj>, name: seq<Name>, key: CString): (r: Option<Obj>)
    requires forall i | 0 <= i < |ks| :: ks[i] < |name|
    ensures r.None? <==> forall i | 0 <= i < |ks| :: !Matches(key, name[ks[i]])
    ensures r.Some? ==>
      exists i | 0 <= i < |ks| :: ks[i] == r.value && Matches(key, name[ks[i]])
        && forall j | 0 <= j < i :: !Matches(key, name[ks[j]])
  {
    if ks == [] then None
    else if Matches(key, name[ks[0]]) then Some(ks[0])
    else
      var r := FirstMatch(ks[1..], name, key);
      assert forall i | 1 <= i < |ks| :: ks[i] == ks[1..][i - 1];
      r
  }

  /** `object_find_from_parent(p, key)`. */
  function Lookup(t: Tree, p: Obj, key: CString): (r: Option<Obj>)
    requires WellFormed(t) && p < |t.kids|
    ensures r.Some? ==> r.value in t.kids[p] && Matches(key, t.name[r.value])
    ensures r.None? <==> forall c | c in t.kids[p] :: !Matches(key, t.name[c])
  {
    FirstMatch(t.kids[p], t.name, key)
  }

  /** Where a path walk stops: the parent it stopped at, the rest of the
      path from the cursor on, and the directory segment that had no match
      when the walk stopped before the final segment. */
  datatype Stop = Stop(parent: Obj, rest: CString, missed: Option<Name>)

  /** The walk that `object_register_by_path` and `object_find_by_path`
      share (mr_object.c:133-158): descend while a directory segment names a
      child, and stop at the first segment that does not, or at the final one. */
  function Walk(t: Tree, p: Obj, path: CString): (w: Stop)
    requires WellFormed(t) && p < |t.kids|
    ensures w.parent < |t.kids|
    ensures IsSuffix(w.rest, path)
    ensures w.missed.None? ==> '/' !in w.rest
    decreases |path|
  {
    var p' := SkipSlash(path);
    assert IsSuffix(p', path) by {
      if p' != path { assert path[1..] == p'; }
    }
    match ParseStep(path)
    case Final(segment) => Stop(p, segment, None)
    case Descend(seg, rest) =>
      assert IsSuffix(rest, p');
      SuffixTransitive(rest, p', path);
      match Lookup(t, p, seg)
      case Some(c) =>
        var w := Walk(t, c, rest);
        SuffixTransitive(w.rest, rest, path);
        w
      case None => Stop(p, rest, Some(seg))
  }

  /** `a` is what is left of `b` after some characters were consumed from
      its front: the path cursor only moves forward. */
  ghost predicate IsSuffix(a: CString, b: CString)
  {
    |a| <= |b| && a == b[|b| - |a|..]
  }

  lemma SuffixTransitive(a: CString, b: CString, c: CString)
    requires IsSuffix(a, b) && IsSuffix(b, c)
    ensures IsSuffix(a, c)
  {
    assert c[|c| - |b|..][|b| - |a|..] == c[|c| - |a|..];
  }

  /** `object_find_by_path(p, path)`. */
  function FindFrom(t: Tree, p: Obj, path: CString): (r: Option<Obj>)
    requires WellFormed(t) && p < |t.kids|
    ensures r.Some? ==>
      var w := Walk(t, p, path);
      r.value in t.kids[w.parent] && Truncate(w.rest) == t.name[r.value]
  {
    var w := Walk(t, p, path);
    var r := Lookup(t, w.parent, w.rest);
    if r.Some? then MatchesIffTruncated(w.rest, t.name[r.value]); r else r
  }

  /** The tree after `o` has been appended to the children of `p` under the
      name `strncpy` stores for `nm`. */
  function Attached(t: Tree, p: Obj, o: Obj, nm: CString): (t': Tree)
    requires WellFormed(t) && p < |t.kids| && o < |t.kids|
    ensures WellFormed(t') && |t'.kids| == |t.kids|
    ensures t'.kids[p] == t.kids[p] + [o] && t'.name[o] == Truncate(nm)
  {
    Tree(t.kids[p := t.kids[p] + [o]], t.name[o := Truncate(nm)])
  }

  /** A lookup among objects whose names did not change gives the same answer. */
  lemma {:induction false} FirstMatchSameNames(ks: seq<Obj>, name: seq<Name>, name': seq<Name>, key: CString)
    requires forall i | 0 <= i < |ks| :: ks[i] < |name| && ks[i] < |name'| && name'[ks[i]] == name[ks[i]]
    ensures FirstMatch(ks, name', key) == FirstMatch(ks, name, key)
  {
    if ks != [] {
      FirstMatchSameNames(ks[1..], name, name', key);
    }
  }

  /** Appending to a child list changes a lookup only when nothing matched
      before, and then exactly when the new child matches. */
  lemma {:induction false} FirstMatchAppend(ks: seq<Obj>, o: Obj, name: seq<Name>, key: CString)
    requires o < |name| && forall i | 0 <= i < |ks| :: ks[i] < |name|
    ensures FirstMatch(ks + [o], name, key) ==
      if FirstMatch(ks, name, key).Some? then FirstMatch(ks, name, key)
      else if Matches(key, name[o]) then Some(o) else None
  {
    if ks != [] {
      assert (ks + [o])[1..] == ks[1..] + [o];
      FirstMatchAppend(ks[1..], o, name, key);
    }
  }

  /** How attaching `o` under `p` affects a lookup in any parent `q`. */
  lemma LookupAfterAttach(t: Tree, p: Obj, o: Obj, nm: CString, q: Obj, key: CString)
    requires WellFormed(t) && p < |t.kids| && o < |t.kids| && q < |t.kids| && Unlinked(t, o)
    ensures var t' := Attached(t, p, o, nm);
      Lookup(t', q, key) ==
        if q != p || Lookup(t, q, key).Some? then Lookup(t, q, key)
        else if Truncate(key) == Truncate(nm) then Some(o) else None
  {
    var t' := Attached(t, p, o, nm);
    FirstMatchSameNames(t.kids[q], t.name, t'.name, key);
    if q == p {
      FirstMatchAppend(t.kids[p], o, t'.name, key);
      MatchesIffTruncated(key, Truncate(nm));
    }
  }

  /** Register and find walk the same way. After `o` is attached where the
      walk for `path` stops, finding `path` gives `o` back, unless the walk
      stopped at a missing directory segment that now names `o` itself. */
  lemma {:induction false} FindAfterAttach(t: Tree, p: Obj, path: CString, o: Obj)
    requires WellFormed(t) && p < |t.kids| && o < |t.kids| && Unlinked(t, o)
    requires Lookup(t, Walk(t, p, path).parent, Walk(t, p, path).rest).None?
    requires Walk(t, p, path).missed != Some(Truncate(Walk(t, p, path).rest))
    ensures var w := Walk(t, p, path);
      FindFrom(Attached(t, w.parent, o, w.rest), p, path) == Some(o)
    decreases |path|
  {
    var w := Walk(t, p, path);
    var t' := Attached(t, w.parent, o, w.rest);
    match ParseStep(path)
    case Final(segment) =>
      LookupAfterAttach(t, w.parent, o, w.rest, p, segment);
    case Descend(seg, rest) =>
      LookupAfterAttach(t, w.parent, o, w.rest, p, seg);
      match Lookup(t, p, seg)
      case Some(c) =>
        FindAfterAttach(t, c, rest, o);
      case None =>
        assert Truncate(seg) == seg;
        LookupAfterAttach(t, w.parent, o, w.rest, p, rest);
  }

  /** The round trip fails as written: with no child named "q" under the
      root, `register(o, "q/q")` attaches `o` under the root as "q", and
      `find("q/q")` then descends into `o` and finds nothing there. */
  lemma RoundTripCounterexample()
    ensures var t := Tree([[], []], ["root", ""]);
      var w := Walk(t, ROOT, "q/q");
      && w == Stop(ROOT, "q", Some("q"))
      && Lookup(t, w.parent, w.rest).None?
      && FindFrom(Attached(t, w.parent, 1, w.rest), ROOT, "q/q").None?
  {
    ParseQ();
    var t := Tree([[], []], ["root", ""]);
    assert Lookup(t, ROOT, "q").None?;
    AttachedQ();
  }

  /** How "q/q" and "q" parse. */
  lemma ParseQ()
    ensures ParseStep("q/q") == Descend("q", "q")
    ensures ParseStep("q") == Final("q")
  {
    assert FirstIndex("q/q", '/') == Some(1);
    assert "q/q"[..1] == "q" && "q/q"[2..] == "q";
    assert Truncate("q") == "q";
    assert FirstIndex("q", '/') == None;
  }

  /** After attaching object 1 as "q" under the root, "q/q" descends into it
      and finds nothing there. */
  lemma AttachedQ()
    ensures var t' := Attached(Tree([[], []], ["root", ""]), ROOT, 1, "q");
      && Walk(t', ROOT, "q/q") == Stop(1, "q", None)
      && FindFrom(t', ROOT, "q/q").None?
  {
    ParseQ();
    var t := Tree([[], []], ["root", ""]);
    var t' := Attached(t, ROOT, 1, "q");
    assert Truncate("q") == "q";
    assert t.kids[ROOT] + [1] == [1];
    assert t'.kids == [[1], []] by {
      assert |t'.kids| == 2 && t'.kids[0] == [1] && t'.kids[1] == [];
    }
    assert t'.name == ["root", "q"];
    assert Matches("q", "q");
    assert Lookup(t', ROOT, "q") == Some(1);
  }

  /** Registering `root_object` itself goes through as written: its magic is
      never set, so the guard lets it pass; a path with no directory segment
      stops the walk at the root; and when no child there has the name, the
      root is attached under itself. It is then its own child, so no ranking
      exists and the dump of the root never ends. */
  lemma RootUnderItself(t: Tree, nm: CString)
    requires WellFormed(t) && ROOT < |t.kids|
    requires '/' !in SkipSlash(nm) && Lookup(t, ROOT, SkipSlash(nm)).None?
    ensures Walk(t, ROOT, nm) == Stop(ROOT, SkipSlash(nm), None)
    ensures var t' := Attached(t, ROOT, ROOT, SkipSlash(nm));
      && ROOT in t'.kids[ROOT]
      && forall rank: seq<nat> :: !Ranked(t', rank)
  {
    assert FirstIndex(SkipSlash(nm), '/') == None;
    var t' := Attached(t, ROOT, ROOT, SkipSlash(nm));
    var i := |t.kids[ROOT]|;
    assert t'.kids[ROOT][i] == ROOT;
    forall rank: seq<nat>
      ensures !Ranked(t', rank)
    {
      assert t'.kids[ROOT][i] == ROOT;
    }
  }

  /** `chain` is the path of objects a walk from the root has gone through,
      ending at `p`: each element is a child of the one before it. */
  ghost predicate IsChain(t: Tree, chain: seq<Obj>, p: Obj)
  {
    && |chain| >= 1 && chain[0] == ROOT && chain[|chain| - 1] == p
    && (forall j | 0 <= j < |chain| :: chain[j] < |t.kids|)
    && (forall j | 1 <= j < |chain| :: chain[j] in t.kids[chain[j - 1]])
  }

  /** `rank` strictly decreases from every parent to each of its children,
      so no object is its own descendant and the dump terminates. */
  ghost predicate Ranked(t: Tree, rank: seq<nat>)
  {
    && WellFormed(t) && |rank| == |t.kids|
    && forall p, i | 0 <= p < |t.kids| && 0 <= i < |t.kids[p]| :: rank[t.kids[p][i]] < rank[p]
  }

  /** One line of the tree dump: `indent` spaces, then "|--- " and the name. */
  datatype Line = Line(indent: nat, name: Name)

  /** `object_tree_print(x, level)` (mr_object.c:161-178): `x` itself, then the
      dump of each child, in child-list order, five columns further in. */
  function PreOrder(t: Tree, rank: seq<nat>, x: Obj, level: nat): seq<Line>
    requires Ranked(t, rank) && x < |t.kids|
    decreases rank[x], 1, 0
  {
    [Line(level, t.name[x])] + Forest(t, rank, x, t.kids[x], level + 5)
  }

  /** The dumps of the children `ks` of `x`, one after the other. */
  function Forest(t: Tree, rank: seq<nat>, x: Obj, ks: seq<Obj>, level: nat): seq<Line>
    requires Ranked(t, rank) && x < |t.kids|
    requires forall i | 0 <= i < |ks| :: ks[i] < |t.kids| && rank[ks[i]] < rank[x]
    decreases rank[x], 0, |ks|
  {
    if ks == [] then []
    else Forest(t, rank, x, ks[..|ks| - 1], level) + PreOrder(t, rank, ks[|ks| - 1], level)
  }

  /** The dump of `x` starts with `x` at `level`; every later line is at least
      five columns further in. */
  lemma {:induction false} PreOrderIndents(t: Tree, rank: seq<nat>, x: Obj, level: nat)
    requires Ranked(t, rank) && x < |t.kids|
    ensures var lines := PreOrder(t, rank, x, level);
      && |lines| >= 1 && lines[0] == Line(level, t.name[x])
      && forall i | 1 <= i < |lines| :: lines[i].indent >= level + 5
    decreases rank[x], 1, 0
  {
    ForestIndents(t, rank, x, t.kids[x], level + 5);
  }

  /** Every line of the dumps of children at `level` is indented at least
      `level` columns. */
  lemma {:induction false} ForestIndents(t: Tree, rank: seq<nat>, x: Obj, ks: seq<Obj>, level: nat)
    requires Ranked(t, rank) && x < |t.kids|
    requires forall i | 0 <= i < |ks| :: ks[i] < |t.kids| && rank[ks[i]] < rank[x]
    ensures forall l | l in Forest(t, rank, x, ks, level) :: l.indent >= level
    decreases rank[x], 0, |ks|
  {
    if ks != [] {
      ForestIndents(t, rank, x, ks[..|ks| - 1], level);
      PreOrderIndents(t, rank, ks[|ks| - 1], level);
    }
  }

  /** The names of the lines at exactly `indent` columns, in order. */
  function AtIndent(lines: seq<Line>, indent: nat): seq<Name>
  {
    if lines == [] then []
    else
      var last := lines[|lines| - 1];
      AtIndent(lines[..|lines| - 1], indent) + (if last.indent == indent then [last.name] else [])
  }

  lemma {:induction false} AtIndentAppend(a: seq<Line>, b: seq<Line>, indent: nat)
    ensures AtIndent(a + b, indent) == AtIndent(a, indent) + AtIndent(b, indent)
    decreases |b|
  {
    if b == [] {
      assert a + b == a;
    } else {
      assert (a + b)[..|a + b| - 1] == a + b[..|b| - 1];
      assert (a + b)[|a + b| - 1] == b[|b| - 1];
      AtIndentAppend(a, b[..|b| - 1], indent);
      var last := b[|b| - 1];
      var tail := if last.indent == indent then [last.name] else [];
      assert AtIndent(b, indent) == AtIndent(b[..|b| - 1], indent) + tail;
      assert AtIndent(a + b, indent) == AtIndent(a + b[..|b| - 1], indent) + tail;
    }
  }

  lemma {:induction false} AtIndentNone(lines: seq<Line>, indent: nat)
    requires forall l | l in lines :: l.indent > indent
    ensures AtIndent(lines, indent) == []
    decreases |lines|
  {
    if lines != [] {
      AtIndentNone(lines[..|lines| - 1], indent);
    }
  }

  /** The names of `ks`, in order. */
  function Names(t: Tree, ks: seq<Obj>): seq<Name>
    requires forall i | 0 <= i < |ks| :: ks[i] < |t.name|
  {
    if ks == [] then [] else Names(t, ks[..|ks| - 1]) + [t.name[ks[|ks| - 1]]]
  }

  /** The dumps of the first `i` children of `x`, one after the other. */
  function ChildDumps(t: Tree, rank: seq<nat>, x: Obj, i: nat, level: nat): seq<Line>
    requires Ranked(t, rank) && x < |t.kids| && i <= |t.kids[x]|
  {
    Forest(t, rank, x, t.kids[x][..i], level)
  }

  /** The dumps of the first `i + 1` children are those of the first `i`
      followed by the dump of child `i`; those of all children end the dump
      of `x`. */
  lemma ChildDumpsStep(t: Tree, rank: seq<nat>, x: Obj, i: nat, level: nat)
    requires Ranked(t, rank) && x < |t.kids| && i < |t.kids[x]|
    ensures t.kids[x][i] < |t.kids|
    ensures ChildDumps(t, rank, x, i + 1, level) ==
      ChildDumps(t, rank, x, i, level) + PreOrder(t, rank, t.kids[x][i], level)
  {
    assert t.kids[x][..i + 1][..i] == t.kids[x][..i];
  }

  lemma ChildDumpsAll(t: Tree, rank: seq<nat>, x: Obj, level: nat)
    requires Ranked(t, rank) && x < |t.kids|
    ensures PreOrder(t, rank, x, level) ==
      [Line(level, t.name[x])] + ChildDumps(t, rank, x, |t.kids[x]|, level + 5)
  {
    assert t.kids[x][..|t.kids[x]|] == t.kids[x];
  }

  /** In the dump of `x`, the lines one level in are exactly the children of
      `x`, in insertion order. */
  lemma ChildrenInOrder(t: Tree, rank: seq<nat>, x: Obj, level: nat)
    requires Ranked(t, rank) && x < |t.kids|
    ensures AtIndent(PreOrder(t, rank, x, level), level + 5) == Names(t, t.kids[x])
  {
    AtIndentAppend([Line(level, t.name[x])], Forest(t, rank, x, t.kids[x], level + 5), level + 5);
    assert AtIndent([Line(level, t.name[x])], level + 5) == [] by {
      assert [Line(level, t.name[x])][..0] == [];
    }
    ForestHeads(t, rank, x, t.kids[x], level + 5);
  }

  /** The lines of the dumps of `ks` at their own level are the names of `ks`. */
  lemma {:induction false} ForestHeads(t: Tree, rank: seq<nat>, x: Obj, ks: seq<Obj>, level: nat)
    requires Ranked(t, rank) && x < |t.kids|
    requires forall i | 0 <= i < |ks| :: ks[i] < |t.kids| && rank[ks[i]] < rank[x]
    ensures AtIndent(Forest(t, rank, x, ks, level), level) == Names(t, ks)
    decreases |ks|
  {
    if ks != [] {
      var c := ks[|ks| - 1];
      ForestHeads(t, rank, x, ks[..|ks| - 1], level);
      AtIndentAppend(Forest(t, rank, x, ks[..|ks| - 1], level), PreOrder(t, rank, c, level), level);
      var sub := Forest(t, rank, c, t.kids[c], level + 5);
      AtIndentAppend([Line(level, t.name[c])], sub, level);
      ForestIndents(t, rank, c, t.kids[c], level + 5);
      AtIndentNone(sub, level);
      assert AtIndent([Line(level, t.name[c])], level) == [t.name[c]] by {
        assert [Line(level, t.name[c])][..0] == [];
      }
    }
  }
}
