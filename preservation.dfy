/** `Attach` and `Detach` keep the registry's invariant. */
module Preservation {
  import opened Prelude
  import opened Paths
  import opened Lists
  import opened Hierarchy
  import opened Objects

  /** `rank` with `k` added on every object of `chain`. */
  function Raise(rank: seq<nat>, chain: seq<Obj>, k: nat): (r: seq<nat>)
    ensures |r| == |rank|
    ensures forall x | 0 <= x < |rank| :: r[x] == if x in chain then rank[x] + k else rank[x]
  {
    seq(|rank|, x requires 0 <= x < |rank| => if x in chain then rank[x] + k else rank[x])
  }

  /** An object that is not registered is in no child list. */
  lemma DeadIsUnlinked(w: World, kids: seq<seq<Obj>>, o: Obj)
    requires Sized(w, kids) && Registered(w, kids) && o < |w.magic| && !Live(w, o)
    ensures Unlinked(Tree(kids, w.name), o)
  {
  }

  /** Along a chain from the root, an object of the chain that is a child of
      `x` has `x` on the chain too; and an unregistered object other than the
      root is not on it. */
  lemma ChainFacts(w: World, kids: seq<seq<Obj>>, chain: seq<Obj>, p: Obj, o: Obj)
    requires Sized(w, kids) && Registered(w, kids) && RootOk(w)
    requires IsChain(Tree(kids, w.name), chain, p)
    requires o < |w.magic| && o != ROOT && !Live(w, o)
    ensures o !in chain
    ensures forall x, i | 0 <= x < |kids| && 0 <= i < |kids[x]| && kids[x][i] in chain :: x in chain
  {
    forall j | 0 <= j < |chain|
      ensures chain[j] != o
    {
      if j > 0 {
        var i :| 0 <= i < |kids[chain[j - 1]]| && kids[chain[j - 1]][i] == chain[j];
        assert Live(w, kids[chain[j - 1]][i]);
      }
    }
    forall x, i | 0 <= x < |kids| && 0 <= i < |kids[x]| && kids[x][i] in chain
      ensures x in chain
    {
      var c := kids[x][i];
      var j :| 0 <= j < |chain| && chain[j] == c;
      assert w.parent[c] == Some(x);
      if j == 0 {
        assert false;
      }
      var i' :| 0 <= i' < |kids[chain[j - 1]]| && kids[chain[j - 1]][i'] == c;
      assert w.parent[kids[chain[j - 1]][i']] == Some(chain[j - 1]);
    }
  }

  /** The ranking raised by `rank[o] + 1` along the chain from the root to
      `p` ranks the child relation once `o` is appended to the children of `p`. */
  lemma RaisedRanked(w: World, kids: seq<seq<Obj>>, rank: seq<nat>, chain: seq<Obj>, p: Obj, o: Obj, name': seq<Name>)
    requires Sized(w, kids) && Registered(w, kids) && RootOk(w) && Ranked(Tree(kids, w.name), rank)
    requires IsChain(Tree(kids, w.name), chain, p)
    requires o < |w.magic| && o != ROOT && !Live(w, o) && p < |w.magic|
    requires |name'| == |w.name|
    ensures Ranked(Tree(kids[p := kids[p] + [o]], name'), Raise(rank, chain, rank[o] + 1))
  {
    ChainFacts(w, kids, chain, p, o);
    var kids' := kids[p := kids[p] + [o]];
    var rank' := Raise(rank, chain, rank[o] + 1);
    forall q, i | 0 <= q < |kids'| && 0 <= i < |kids'[q]|
      ensures rank'[kids'[q][i]] < rank'[q]
    {
      if q == p && i == |kids[p]| {
        assert p in chain;
      } else {
        assert kids'[q][i] == kids[q][i];
        assert rank[kids[q][i]] < rank[q];
      }
    }
  }

  /** `o` is an unregistered object other than the root, and `p` the root or
      a registered object with an initialised `clist`. */
  ghost predicate AttachArgs(w: World, kids: seq<seq<Obj>>, o: Obj, p: Obj)
  {
    && Sized(w, kids)
    && o < |w.magic| && o != ROOT && !Live(w, o)
    && p < |w.magic| && (p == ROOT || Live(w, p)) && IsInited(w.links, Cell(p, CList))
  }

  /** The child lists of `p` and `o` are rings that `Splice` may work on. */
  lemma AttachRings(w: World, kids: seq<seq<Obj>>, o: Obj, p: Obj)
    requires AttachArgs(w, kids, o, p) && ChildLists(w, kids)
    ensures IsRing(w.links, Cell(p, CList), ListCells(kids[p]))
    ensures IsInited(w.links, Cell(o, CList)) ==> IsRing(w.links, Cell(o, CList), ListCells(kids[o]))
    ensures !IsInited(w.links, Cell(o, CList)) ==> ListCells(kids[o]) == []
  {
    var m, co, so := w.links, Cell(o, CList), ListCells(kids[o]);
    assert ChildList(w, kids, p) && ChildList(w, kids, o);
    if !IsInited(m, co) && IsRing(m, co, so) { RingCellsAreInited(m, co, so); }
  }

  /** `list` of `o` is in neither child list, and the child list of `o`
      holds neither `list` of `o` nor the tail of the child list of `p`. */
  lemma AttachDisjoint(w: World, kids: seq<seq<Obj>>, o: Obj, p: Obj)
    requires AttachArgs(w, kids, o, p) && Registered(w, kids)
    ensures var s, so := ListCells(kids[p]), ListCells(kids[o]);
      && Cell(o, List) !in s && Cell(o, List) !in so
      && Tail(p, kids[p]) !in so && Cell(p, CList) !in so
  {
    DeadIsUnlinked(w, kids, o);
    forall i | 0 <= i < |kids[o]|
      ensures kids[o][i] != o && kids[o][i] !in kids[p]
    {
      var k := kids[o][i];
      assert Live(w, k) && w.parent[k] == Some(o);
    }
  }

  /** The memory after `Attach`. */
  lemma AttachMemory(w: World, kids: seq<seq<Obj>>, o: Obj, nm: CString, p: Obj)
    requires AttachArgs(w, kids, o, p) && Registered(w, kids) && ChildLists(w, kids)
    ensures Spliced(w.links, Attach(w, o, nm, p).links, kids[p], kids[o], o, p, |w.magic|)
  {
    AttachRings(w, kids, o, p);
    AttachDisjoint(w, kids, o, p);
    SpliceFacts(w.links, o, p, kids[p], kids[o], |w.magic|);
  }

  /** After `Attach` the sizes still agree and the memory is still closed. */
  lemma AttachSized(w: World, kids: seq<seq<Obj>>, o: Obj, nm: CString, p: Obj)
    requires AttachArgs(w, kids, o, p)
    requires Spliced(w.links, Attach(w, o, nm, p).links, kids[p], kids[o], o, p, |w.magic|)
    ensures Sized(Attach(w, o, nm, p), kids[p := kids[p] + [o]])
  {
  }

  /** After `Attach` every child list is still well formed. */
  lemma AttachChildLists(w: World, kids: seq<seq<Obj>>, o: Obj, nm: CString, p: Obj)
    requires AttachArgs(w, kids, o, p) && Registered(w, kids) && ChildLists(w, kids)
    requires Spliced(w.links, Attach(w, o, nm, p).links, kids[p], kids[o], o, p, |w.magic|)
    requires Sized(Attach(w, o, nm, p), kids[p := kids[p] + [o]])
    ensures ChildLists(Attach(w, o, nm, p), kids[p := kids[p] + [o]])
  {
    var w', kids' := Attach(w, o, nm, p), kids[p := kids[p] + [o]];
    forall q | 0 <= q < |w.magic|
      ensures ChildList(w', kids', q)
    {
      if q != p && q != o {
        assert ChildList(w, kids, q);
        forall i | 0 <= i < |kids[q]|
          ensures Cell(kids[q][i], List) != Tail(p, kids[p]) && kids[q][i] != o
        {
          assert Live(w, kids[q][i]) && w.parent[kids[q][i]] == Some(q);
          if kids[p] != [] {
            assert w.parent[kids[p][|kids[p]| - 1]] == Some(p);
          }
        }
        ChildListKept(w, w', kids, kids', q);
      }
    }
  }

  /** After `Attach` every object is linked exactly when it is registered. */
  lemma AttachLinked(w: World, kids: seq<seq<Obj>>, o: Obj, nm: CString, p: Obj)
    requires AttachArgs(w, kids, o, p) && Registered(w, kids) && AllLinked(w, kids)
    requires Spliced(w.links, Attach(w, o, nm, p).links, kids[p], kids[o], o, p, |w.magic|)
    requires Sized(Attach(w, o, nm, p), kids[p := kids[p] + [o]])
    ensures AllLinked(Attach(w, o, nm, p), kids[p := kids[p] + [o]])
  {
    var w', kids' := Attach(w, o, nm, p), kids[p := kids[p] + [o]];
    var l := w'.links;
    forall x | 0 <= x < |w.magic|
      ensures LinkedIfLive(w', kids', x)
    {
      if x != o {
        assert LinkedIfLive(w, kids, x);
        if Live(w, x) {
          var px := w.parent[x].value;
          assert x in kids'[px];
          if Cell(x, List) == Tail(p, kids[p]) {
            RingCellsAreInited(l, Cell(p, CList), ListCells(kids[p] + [o]));
            assert Cell(x, List) == ListCells(kids[p] + [o])[|kids[p]| - 1];
          }
        } else if kids[p] != [] {
          assert Live(w, kids[p][|kids[p]| - 1]);
        }
      }
    }
  }

  /** After `Attach` every child is registered under its parent. */
  lemma AttachRegistered(w: World, kids: seq<seq<Obj>>, o: Obj, nm: CString, p: Obj)
    requires AttachArgs(w, kids, o, p) && Registered(w, kids)
    requires Sized(Attach(w, o, nm, p), kids[p := kids[p] + [o]])
    ensures var w', kids' := Attach(w, o, nm, p), kids[p := kids[p] + [o]];
      Registered(w', kids')
  {
    var w', kids' := Attach(w, o, nm, p), kids[p := kids[p] + [o]];
    forall q, i | 0 <= q < |w.magic| && 0 <= i < |kids'[q]|
      ensures Live(w', kids'[q][i]) && w'.parent[kids'[q][i]] == Some(q)
    {
      if !(q == p && i == |kids[p]|) {
        assert kids'[q][i] == kids[q][i];
        assert Live(w, kids[q][i]) && w.parent[kids[q][i]] == Some(q);
      }
    }
  }

  /** After `Attach` the names of siblings are still distinct, because no
      child of `p` matched `nm`. */
  lemma AttachDistinct(w: World, kids: seq<seq<Obj>>, o: Obj, nm: CString, p: Obj)
    requires AttachArgs(w, kids, o, p) && Registered(w, kids) && AllDistinct(w, kids)
    requires Lookup(Tree(kids, w.name), p, nm).None?
    requires Sized(Attach(w, o, nm, p), kids[p := kids[p] + [o]])
    ensures var w', kids' := Attach(w, o, nm, p), kids[p := kids[p] + [o]];
      AllDistinct(w', kids')
  {
    var w', kids' := Attach(w, o, nm, p), kids[p := kids[p] + [o]];
    DeadIsUnlinked(w, kids, o);
    forall q | 0 <= q < |w.magic|
      ensures DistinctNames(w'.name, kids'[q])
    {
      assert DistinctNames(w.name, kids[q]);
      forall i | 0 <= i < |kids[q]| ensures w'.name[kids[q][i]] == w.name[kids[q][i]] {
        assert kids[q][i] != o;
      }
      if q == p {
        forall i | 0 <= i < |kids[p]|
          ensures w'.name[kids[p][i]] != w'.name[o]
        {
          MatchesIffTruncated(nm, w.name[kids[p][i]]);
        }
      }
    }
  }

  /** After `Attach` the root is still unregistered with an initialised `clist`. */
  lemma AttachRoot(w: World, kids: seq<seq<Obj>>, o: Obj, nm: CString, p: Obj)
    requires AttachArgs(w, kids, o, p) && RootOk(w)
    requires Spliced(w.links, Attach(w, o, nm, p).links, kids[p], kids[o], o, p, |w.magic|)
    ensures var w' := Attach(w, o, nm, p);
      Sized(w', kids[p := kids[p] + [o]]) && RootOk(w')
  {
    AttachSized(w, kids, o, nm, p);
  }

  /** What `AttachKeepsInvariant` asks of the state before `Attach`: `o` is
      unregistered, `p` is reached from the root by `chain`, and no child of
      `p` matches `nm`. */
  ghost predicate AttachPre(w: World, kids: seq<seq<Obj>>, rank: seq<nat>, o: Obj, nm: CString, p: Obj, chain: seq<Obj>)
  {
    && Invariant(w, kids, rank)
    && AttachArgs(w, kids, o, p)
    && IsChain(Tree(kids, w.name), chain, p)
    && Lookup(Tree(kids, w.name), p, nm).None?
  }

  /** `Attach` keeps the invariant: with `o` appended to the children of `p`
      and the ranks raised along the chain from the root to `p`. */
  lemma AttachKeepsInvariant(w: World, kids: seq<seq<Obj>>, rank: seq<nat>, o: Obj, nm: CString, p: Obj, chain: seq<Obj>)
    requires AttachPre(w, kids, rank, o, nm, p, chain)
    ensures Invariant(Attach(w, o, nm, p), kids[p := kids[p] + [o]], Raise(rank, chain, rank[o] + 1))
  {
    var w' := Attach(w, o, nm, p);
    AttachMemory(w, kids, o, nm, p);
    AttachSized(w, kids, o, nm, p);
    AttachRoot(w, kids, o, nm, p);
    AttachChildLists(w, kids, o, nm, p);
    AttachLinked(w, kids, o, nm, p);
    AttachRegistered(w, kids, o, nm, p);
    AttachDistinct(w, kids, o, nm, p);
    RaisedRanked(w, kids, rank, chain, p, o, w'.name);
  }

  /** `o` is registered, is the `i`-th child of `p`, and its `list` is
      initialised. */
  ghost predicate DetachArgs(w: World, kids: seq<seq<Obj>>, o: Obj, p: Obj, i: nat)
  {
    && Sized(w, kids)
    && o < |w.magic| && Live(w, o) && IsInited(w.links, Cell(o, List))
    && p < |w.magic| && i < |kids[p]| && kids[p][i] == o
  }

  /** The memory after `Detach`. */
  lemma DetachMemory(w: World, kids: seq<seq<Obj>>, o: Obj, p: Obj, i: nat)
    requires DetachArgs(w, kids, o, p, i) && ChildLists(w, kids)
    ensures Removed(w.links, Detach(w, o).links, kids[p], p, i, |w.magic|)
  {
    assert ChildList(w, kids, p);
    assert IsRing(w.links, Cell(p, CList), ListCells(kids[p])) by {
      assert ListCells(kids[p])[i] == Cell(o, List);
    }
    RemoveFacts(w.links, p, kids[p], i, |w.magic|);
  }

  /** After `Detach` the sizes still agree and the memory is still closed. */
  lemma DetachSized(w: World, kids: seq<seq<Obj>>, o: Obj, p: Obj, i: nat)
    requires DetachArgs(w, kids, o, p, i)
    requires Removed(w.links, Detach(w, o).links, kids[p], p, i, |w.magic|)
    ensures Sized(Detach(w, o), kids[p := kids[p][..i] + kids[p][i + 1..]])
  {
    var kids' := kids[p := kids[p][..i] + kids[p][i + 1..]];
    DeleteIndex(kids[p], i);
    forall q, j | 0 <= q < |kids'| && 0 <= j < |kids'[q]|
      ensures kids'[q][j] < |w.name|
    {
      if q == p {
        if j < i { assert kids'[q][j] == kids[p][j]; } else { assert kids'[q][j] == kids[p][j + 1]; }
      }
    }
  }

  /** After `Detach` every child list is still well formed. */
  lemma DetachChildLists(w: World, kids: seq<seq<Obj>>, o: Obj, p: Obj, i: nat)
    requires DetachArgs(w, kids, o, p, i) && Registered(w, kids) && ChildLists(w, kids)
    requires Removed(w.links, Detach(w, o).links, kids[p], p, i, |w.magic|)
    requires Sized(Detach(w, o), kids[p := kids[p][..i] + kids[p][i + 1..]])
    ensures ChildLists(Detach(w, o), kids[p := kids[p][..i] + kids[p][i + 1..]])
  {
    var w', kids' := Detach(w, o), kids[p := kids[p][..i] + kids[p][i + 1..]];
    forall q | 0 <= q < |w.magic|
      ensures ChildList(w', kids', q)
    {
      if q != p {
        assert ChildList(w, kids, q);
        forall j | 0 <= j < |kids[q]|
          ensures Cell(kids[q][j], List) !in ListCells(kids[p])
        {
          assert w.parent[kids[q][j]] == Some(q);
        }
        ChildListKept(w, w', kids, kids', q);
      }
    }
  }

  /** After `Detach` every object is linked exactly when it is registered. */
  lemma DetachLinked(w: World, kids: seq<seq<Obj>>, o: Obj, p: Obj, i: nat)
    requires DetachArgs(w, kids, o, p, i) && Registered(w, kids) && AllLinked(w, kids)
    requires Removed(w.links, Detach(w, o).links, kids[p], p, i, |w.magic|)
    requires Sized(Detach(w, o), kids[p := kids[p][..i] + kids[p][i + 1..]])
    ensures AllLinked(Detach(w, o), kids[p := kids[p][..i] + kids[p][i + 1..]])
  {
    var w', kids' := Detach(w, o), kids[p := kids[p][..i] + kids[p][i + 1..]];
    DeleteIndex(kids[p], i);
    forall x | 0 <= x < |w.magic|
      ensures LinkedIfLive(w', kids', x)
    {
      if x != o {
        assert LinkedIfLive(w, kids, x);
        if Live(w, x) {
          var px := w.parent[x].value;
          var j :| 0 <= j < |kids[px]| && kids[px][j] == x;
          if px == p {
            assert j != i;
            if j < i { assert x == kids'[p][j]; } else { assert x == kids'[p][j - 1]; }
          } else {
            assert Cell(x, List) !in ListCells(kids[p]);
          }
        } else {
          assert Cell(x, List) !in ListCells(kids[p]);
        }
      }
    }
  }

  /** After `Detach` every remaining child is registered under its parent;
      `o` is no longer among them, since siblings have distinct names. */
  lemma DetachRegistered(w: World, kids: seq<seq<Obj>>, o: Obj, p: Obj, i: nat)
    requires DetachArgs(w, kids, o, p, i) && Registered(w, kids) && AllDistinct(w, kids)
    requires Sized(Detach(w, o), kids[p := kids[p][..i] + kids[p][i + 1..]])
    ensures var w', kids' := Detach(w, o), kids[p := kids[p][..i] + kids[p][i + 1..]];
      Registered(w', kids')
  {
    DeleteIndex(kids[p], i);
    var w', kids' := Detach(w, o), kids[p := kids[p][..i] + kids[p][i + 1..]];
    forall q, j | 0 <= q < |w.magic| && 0 <= j < |kids'[q]|
      ensures Live(w', kids'[q][j]) && w'.parent[kids'[q][j]] == Some(q)
    {
      if q == p {
        var j' := if j < i then j else j + 1;
        assert kids'[q][j] == kids[p][j'] && j' != i;
        assert DistinctNames(w.name, kids[p]);
        assert w.name[kids[p][j']] != w.name[kids[p][i]];
      } else {
        assert w.parent[kids[q][j]] == Some(q) && w.parent[kids[p][i]] == Some(p);
      }
    }
  }

  /** After `Detach` the names of siblings are still distinct. */
  lemma DetachDistinct(w: World, kids: seq<seq<Obj>>, o: Obj, p: Obj, i: nat)
    requires DetachArgs(w, kids, o, p, i) && AllDistinct(w, kids)
    requires Sized(Detach(w, o), kids[p := kids[p][..i] + kids[p][i + 1..]])
    ensures var w', kids' := Detach(w, o), kids[p := kids[p][..i] + kids[p][i + 1..]];
      AllDistinct(w', kids')
  {
    DeleteIndex(kids[p], i);
    var w', kids' := Detach(w, o), kids[p := kids[p][..i] + kids[p][i + 1..]];
    assert DistinctNames(w.name, kids[p]);
    forall a, b | 0 <= a < b < |kids'[p]|
      ensures w.name[kids'[p][a]] != w.name[kids'[p][b]]
    {
      var a', b' := if a < i then a else a + 1, if b < i then b else b + 1;
      assert kids'[p][a] == kids[p][a'] && kids'[p][b] == kids[p][b'];
    }
    assert DistinctNames(w'.name, kids'[p]);
  }

  /** After `Detach` the ranking still ranks the child relation. */
  lemma DetachRanked(w: World, kids: seq<seq<Obj>>, rank: seq<nat>, o: Obj, p: Obj, i: nat)
    requires DetachArgs(w, kids, o, p, i) && Ranked(Tree(kids, w.name), rank)
    ensures Ranked(Tree(kids[p := kids[p][..i] + kids[p][i + 1..]], w.name), rank)
  {
    var kids' := kids[p := kids[p][..i] + kids[p][i + 1..]];
    DeleteIndex(kids[p], i);
    forall q, j | 0 <= q < |kids'| && 0 <= j < |kids'[q]|
      ensures kids'[q][j] < |w.name| && rank[kids'[q][j]] < rank[q]
    {
      if q == p {
        if j < i { assert kids'[q][j] == kids[p][j]; } else { assert kids'[q][j] == kids[p][j + 1]; }
      }
    }
  }

  /** What `DetachKeepsInvariant` asks of the state before `Detach`. */
  ghost predicate DetachPre(w: World, kids: seq<seq<Obj>>, rank: seq<nat>, o: Obj, p: Obj, i: nat)
  {
    Invariant(w, kids, rank) && DetachArgs(w, kids, o, p, i)
  }

  /** `Detach` keeps the invariant, with `o` deleted from the children of its
      parent `p` and the ranking unchanged. */
  lemma DetachKeepsInvariant(w: World, kids: seq<seq<Obj>>, rank: seq<nat>, o: Obj, p: Obj, i: nat)
    requires DetachPre(w, kids, rank, o, p, i)
    ensures Invariant(Detach(w, o), kids[p := kids[p][..i] + kids[p][i + 1..]], rank)
  {
    DetachMemory(w, kids, o, p, i);
    DetachSized(w, kids, o, p, i);
    DetachChildLists(w, kids, o, p, i);
    DetachLinked(w, kids, o, p, i);
    DetachRegistered(w, kids, o, p, i);
    DetachDistinct(w, kids, o, p, i);
    DetachRanked(w, kids, rank, o, p, i);
  }
}
