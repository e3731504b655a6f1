/** The registry as the source runs it: the fields of every object, updated
    in place by the list primitives (mr_object.c:23-52), and the walkers and
    public operations of mr_object.c:54-262, each proved against the pure
    definitions of Hierarchy and Objects. */
module ObjectRegistry {
  import opened Prelude
  import opened Paths
  import opened Lists
  import opened Hierarchy
  import opened Objects
  import opened Preservation

  /** A registered object's parent pointer leads to the parent whose child
      list holds it, and its `clist` is initialised. */
  lemma ChildFacts(w: World, kids: seq<seq<Obj>>, rank: seq<nat>, p: Obj, c: Obj)
    requires Invariant(w, kids, rank) && p < |kids| && c in kids[p]
    ensures c < |kids| && c != ROOT && Live(w, c) && w.parent[c] == Some(p)
    ensures IsInited(w.links, Cell(c, CList))
  {
    var i :| 0 <= i < |kids[p]| && kids[p][i] == c;
    assert Live(w, kids[p][i]) && w.parent[kids[p][i]] == Some(p);
    assert LinkedIfLive(w, kids, c);
  }

  /** An initialised `clist` heads the ring of its children's `list` cells. */
  lemma HeadRing(w: World, kids: seq<seq<Obj>>, rank: seq<nat>, p: Obj)
    requires Invariant(w, kids, rank) && p < |kids| && IsInited(w.links, Cell(p, CList))
    ensures IsRing(w.links, Cell(p, CList), ListCells(kids[p]))
  {
    assert ChildList(w, kids, p);
  }

  /** A walk that starts at the root or at a registered object ends at the
      root or at a registered object, whose `clist` is initialised. */
  lemma {:induction false} WalkEnds(w: World, kids: seq<seq<Obj>>, rank: seq<nat>, o: Obj, p: Obj, path: CString)
    requires Invariant(w, kids, rank) && AttachArgs(w, kids, o, p)
    ensures AttachArgs(w, kids, o, Walk(Tree(kids, w.name), p, path).parent)
    decreases |path|
  {
    match ParseStep(path)
    case Final(_) =>
    case Descend(seg, rest) =>
      match Lookup(Tree(kids, w.name), p, seg)
      case Some(c) =>
        ChildFacts(w, kids, rank, p, c);
        WalkEnds(w, kids, rank, o, c, rest);
      case None =>
  }

  /** Descending from `p` to one of its children keeps what registering
      under it needs, and extends the chain from the root. */
  lemma DescendArgs(w: World, kids: seq<seq<Obj>>, rank: seq<nat>, o: Obj, p: Obj, c: Obj, chain: seq<Obj>)
    requires Invariant(w, kids, rank) && AttachArgs(w, kids, o, p) && IsChain(Tree(kids, w.name), chain, p)
    requires c in kids[p]
    ensures AttachArgs(w, kids, o, c) && IsChain(Tree(kids, w.name), chain + [c], c)
  {
    ChildFacts(w, kids, rank, p, c);
  }

  /** What the read-only walkers rely on: `rank` orders the child relation,
      every initialised `clist` heads the ring of its children's `list`
      cells, and every child has an initialised `clist`. */
  ghost predicate Walkable(w: World, kids: seq<seq<Obj>>, rank: seq<nat>)
  {
    && Ranked(Tree(kids, w.name), rank)
    && (forall q | 0 <= q < |kids| :: HeadOk(w, kids, q))
    && (forall q, i | 0 <= q < |kids| && 0 <= i < |kids[q]| ::
          Cell(kids[q][i], CList) in w.links && IsInited(w.links, Cell(kids[q][i], CList)))
  }

  /** The `clist` of `q`, once initialised, heads the ring of its children. */
  ghost predicate HeadOk(w: World, kids: seq<seq<Obj>>, q: Obj)
    requires q < |kids|
  {
    Cell(q, CList) in w.links
    && (IsInited(w.links, Cell(q, CList)) ==> IsRing(w.links, Cell(q, CList), ListCells(kids[q])))
  }

  lemma InvariantWalkable(w: World, kids: seq<seq<Obj>>, rank: seq<nat>)
    requires Invariant(w, kids, rank)
    ensures Walkable(w, kids, rank)
  {
    forall q | 0 <= q < |kids|
      ensures HeadOk(w, kids, q)
    {
      if IsInited(w.links, Cell(q, CList)) {
        HeadRing(w, kids, rank, q);
      }
    }
    forall q, i | 0 <= q < |kids| && 0 <= i < |kids[q]|
      ensures IsInited(w.links, Cell(kids[q][i], CList))
    {
      ChildFacts(w, kids, rank, q, kids[q][i]);
    }
  }

  /** The cell that follows position `i` of the ring of the children `ks` of
      `p`: the next child's `list`, or the head after the last. */
  function NextCell(p: Obj, ks: seq<Obj>, i: nat): Cell
  {
    if i < |ks| then Cell(ks[i], List) else Cell(p, CList)
  }

  /** Following `next` from position `i` of a ring reaches position `i + 1`. */
  lemma RingStep(m: Memory, p: Obj, ks: seq<Obj>, i: nat)
    requires IsRing(m, Cell(p, CList), ListCells(ks)) && i <= |ks|
    ensures Before(Cell(p, CList), ListCells(ks), i) in m
    ensures m[Before(Cell(p, CList), ListCells(ks), i)].next == Ref(NextCell(p, ks, i))
    ensures i < |ks| ==> NextCell(p, ks, i) != Cell(p, CList)
  {
    if i < |ks| {
      assert LinkedAt(m, Cell(p, CList), ListCells(ks), i);
    }
  }

  /** A registry whose state is that of `Attach` from a state meeting
      `AttachPre`, with the children and ranks `AttachKeepsInvariant` names,
      is valid. */
  lemma AttachValid(r: Registry, w: World, kids: seq<seq<Obj>>, rank: seq<nat>, o: Obj, nm: CString, p: Obj, chain: seq<Obj>)
    requires AttachPre(w, kids, rank, o, nm, p, chain)
    requires r.State() == Attach(w, o, nm, p)
    requires r.kids == kids[p := kids[p] + [o]] && r.rank == Raise(rank, chain, rank[o] + 1)
    ensures r.Valid()
  {
    AttachKeepsInvariant(w, kids, rank, o, nm, p, chain);
  }

  /** A registered object is the `i`-th child of its parent for some `i`,
      and may be detached from there. */
  lemma LiveIsChild(w: World, kids: seq<seq<Obj>>, rank: seq<nat>, o: Obj)
    requires Invariant(w, kids, rank) && o < |w.magic| && Live(w, o)
    ensures w.parent[o].Some?
    ensures exists i: nat :: DetachPre(w, kids, rank, o, w.parent[o].value, i)
  {
    assert LinkedIfLive(w, kids, o);
    var p := w.parent[o].value;
    var i :| 0 <= i < |kids[p]| && kids[p][i] == o;
    assert DetachPre(w, kids, rank, o, p, i);
  }

  /** A registry whose state is that of `Detach` from a state meeting
      `DetachPre`, with `o` deleted from the children of `p`, is valid. */
  lemma DetachValid(r: Registry, w: World, kids: seq<seq<Obj>>, rank: seq<nat>, o: Obj, p: Obj, i: nat)
    requires DetachPre(w, kids, rank, o, p, i)
    requires r.State() == Detach(w, o)
    requires r.kids == kids[p := kids[p][..i] + kids[p][i + 1..]] && r.rank == rank
    ensures r.Valid()
  {
    DetachKeepsInvariant(w, kids, rank, o, p, i);
  }

  class Registry {
    /** `magic`, `name` and `parent` of every object; `links` holds their
        `list` and `clist` cells. Object 0 is `root_object`. */
    var magic: seq<bv32>
    var name: seq<Name>
    var parent: seq<Option<Obj>>
    var links: Memory
    /** The children of every object, in child-list order. */
    ghost var kids: seq<seq<Obj>>
    /** A ranking that decreases from parent to child. */
    ghost var rank: seq<nat>

    function State(): World
      reads this
    {
      World(magic, name, parent, links)
    }

    ghost function View(): Tree
      reads this
    {
      Tree(kids, name)
    }

    ghost predicate Valid()
      reads this
    {
      Invariant(State(), kids, rank)
    }

    /** A system with `root_object` as OBJECT_INIT leaves it
        (mr_object.c:10-21) and `count` further objects in zeroed storage. */
    constructor (count: nat)
      ensures Valid() && State() == Initial(count)
      ensures |kids| == count + 1 && forall o | 0 <= o < |kids| :: kids[o] == []
    {
      var w := Initial(count);
      magic, name, parent, links := w.magic, w.name, w.parent, w.links;
      kids, rank := seq(count + 1, o => []), seq(count + 1, o => 0);
      InitialInvariant(count);
    }

    /** `list_init` (mr_object.c:30-34). */
    method ListInit(c: Cell)
      requires c in links
      modifies this`links
      ensures links == Init(old(links), c)
    {
      links := links[c := links[c].(next := Ref(c))];
      links := links[c := links[c].(prev := Ref(c))];
    }

    /** `list_insert_before` (mr_object.c:37-44): the four stores in order. */
    method ListInsertBefore(head: Cell, node: Cell)
      requires head in links && node in links
      requires links[head].prev.Ref? && links[head].prev.cell in links
      modifies this`links
      ensures links == InsertBefore(old(links), head, node)
    {
      var last := links[head].prev.cell;
      links := links[last := links[last].(next := Ref(node))];
      links := links[node := links[node].(prev := links[head].prev)];
      links := links[head := links[head].(prev := Ref(node))];
      links := links[node := links[node].(next := Ref(head))];
    }

    /** `list_remove` (mr_object.c:47-52): the stores in order. */
    method ListRemove(node: Cell)
      requires node in links && links[node].next.Ref? && links[node].prev.Ref?
      requires links[node].next.cell in links && links[node].prev.cell in links
      modifies this`links
      ensures links == Remove(old(links), node)
    {
      var succ := links[node].next.cell;
      links := links[succ := links[succ].(prev := links[node].prev)];
      var pred := links[node].prev.cell;
      links := links[pred := links[pred].(next := links[node].next)];
      links := links[node := Link(Ref(node), Ref(node))];
    }

    /** `object_find_from_parent` (mr_object.c:55-71): walk the child list of
        `p` from its head and return the first child whose name matches. */
    method FindFromParent(p: Obj, key: CString) returns (r: Option<Obj>)
      requires WellFormed(View()) && p < |kids|
      requires IsRing(links, Cell(p, CList), ListCells(kids[p]))
      ensures r == Lookup(View(), p, key)
    {
      ghost var ks := kids[p];
      var head := Cell(p, CList);
      RingStep(links, p, ks, 0);
      var cur := links[head].next;
      ghost var i := 0;
      while cur != Ref(head)
        invariant 0 <= i <= |ks| && cur == Ref(NextCell(p, ks, i))
        invariant forall j | 0 <= j < i :: !Matches(key, name[ks[j]])
        decreases |ks| - i
      {
        RingStep(links, p, ks, i + 1);
        var o := cur.cell.obj;
        if Matches(key, name[o]) {
          return Some(o);
        }
        cur := links[cur.cell].next;
        i := i + 1;
      }
      return None;
    }

    /** `next_parent_find_from_path` (mr_object.c:103-130): skip one leading
        '/'; with no further '/', return no parent and leave the cursor on
        the final segment; otherwise cut the segment before the '/' to
        NAME_MAX characters, move the cursor past the '/' and look the
        segment up among the children of `p`. */
    method NextParentFindFromPath(p: Obj, path: CString) returns (next: Option<Obj>, tail: CString)
      requires WellFormed(View()) && p < |kids|
      requires IsRing(links, Cell(p, CList), ListCells(kids[p]))
      ensures ParseStep(path).Final? ==> next == None && tail == ParseStep(path).segment
      ensures ParseStep(path).Descend? ==>
        next == Lookup(View(), p, ParseStep(path).name) && tail == ParseStep(path).rest
      ensures next.Some? ==>
        next.value in kids[p] && |tail| < |path| && Walk(View(), p, path) == Walk(View(), next.value, tail)
      ensures next.None? ==>
        && Walk(View(), p, path).parent == p && Walk(View(), p, path).rest == tail
        && (Walk(View(), p, path).missed.None? <==> '/' !in SkipSlash(path))
    {
      var s := path;
      if |s| > 0 && s[0] == '/' {
        s := s[1..];
      }
      match FirstIndex(s, '/')
      case None =>
        next, tail := None, s;
      case Some(k) =>
        var len := Min(k, NAME_MAX);
        DescendCuts(path, k);
        var segment: CString := s[..len];
        tail := s[k + 1..];
        next := FindFromParent(p, segment);
    }

    /** `object_register_to_parent` (mr_object.c:74-100): reject a name that
        matches a child of `p`; otherwise initialise the cells of `o` that
        are not, store the name, append `o` to the child list of `p` and set
        its parent and its magic. */
    method RegisterToParent(o: Obj, nm: CString, p: Obj, ghost chain: seq<Obj>) returns (ret: int)
      requires Valid() && AttachArgs(State(), kids, o, p) && IsChain(View(), chain, p)
      modifies this
      ensures Valid()
      ensures ret == 0 || ret == -1
      ensures ret == -1 <==> Lookup(old(View()), p, nm).Some?
      ensures ret == -1 ==> State() == old(State()) && kids == old(kids)
      ensures ret == 0 ==>
        && State() == Attach(old(State()), o, nm, p)
        && kids == old(kids)[p := old(kids)[p] + [o]]
    {
      HeadRing(State(), kids, rank, p);
      var found := FindFromParent(p, nm);
      if found.Some? {
        return -1;
      }
      ghost var w, ks, rk := State(), kids, rank;
      AttachStores(o, nm, p);
      kids := ks[p := ks[p] + [o]];
      rank := Raise(rk, chain, rk[o] + 1);
      AttachValid(this, w, ks, rk, o, nm, p, chain);
      return 0;
    }

    /** The stores of `object_register_to_parent` once the duplicate check
        has passed (mr_object.c:83-99), in the source's order. */
    method AttachStores(o: Obj, nm: CString, p: Obj)
      requires o < |magic| && o < |name| && o < |parent| && o != p
      requires Cell(o, List) in links && Cell(o, CList) in links && Cell(p, CList) in links
      requires IsInited(links, Cell(p, CList)) && links[Cell(p, CList)].prev.cell in links
      modifies this`magic, this`name, this`parent, this`links
      ensures State() == Attach(old(State()), o, nm, p)
    {
      if !IsInited(links, Cell(o, List)) {
        ListInit(Cell(o, List));
      }
      if !IsInited(links, Cell(o, CList)) {
        ListInit(Cell(o, CList));
      }
      name := name[o := Truncate(nm)];
      ListInsertBefore(Cell(p, CList), Cell(o, List));
      parent := parent[o := Some(p)];
      magic := magic[o := OBJECT_MAGIC];
    }

    /** `object_register_by_path` (mr_object.c:133-144): descend while a
        directory segment names a child, then register `o` under the object
        reached, with what is left of the path as its name. */
    method RegisterByPath(p: Obj, o: Obj, path: CString, ghost chain: seq<Obj>) returns (ret: int)
      requires Valid() && AttachArgs(State(), kids, o, p) && IsChain(View(), chain, p)
      modifies this
      decreases |path|
      ensures Valid()
      ensures ret == 0 || ret == -1
      ensures AttachArgs(old(State()), old(kids), o, Walk(old(View()), p, path).parent)
      ensures var w := Walk(old(View()), p, path);
        && (ret == -1 <==> Lookup(old(View()), w.parent, w.rest).Some?)
        && (ret == -1 ==> State() == old(State()) && kids == old(kids))
        && (ret == 0 ==>
              && State() == Attach(old(State()), o, w.rest, w.parent)
              && kids == old(kids)[w.parent := old(kids)[w.parent] + [o]])
    {
      HeadRing(State(), kids, rank, p);
      var next, rest := NextParentFindFromPath(p, path);
      if next.Some? {
        DescendArgs(State(), kids, rank, o, p, next.value, chain);
        ret := RegisterByPath(next.value, o, rest, chain + [next.value]);
      } else {
        ret := RegisterToParent(o, rest, p, chain);
      }
    }

    /** `object_register_by_path` with the missing-directory check: a
        directory segment that names no child rejects the registration
        instead of being consumed. */
    method RegisterByPathStrict(p: Obj, o: Obj, path: CString, ghost chain: seq<Obj>) returns (ret: int)
      requires Valid() && AttachArgs(State(), kids, o, p) && IsChain(View(), chain, p)
      modifies this
      decreases |path|
      ensures Valid()
      ensures ret == 0 || ret == -1
      ensures AttachArgs(old(State()), old(kids), o, Walk(old(View()), p, path).parent)
      ensures var w := Walk(old(View()), p, path);
        && (ret == -1 <==> w.missed.Some? || Lookup(old(View()), w.parent, w.rest).Some?)
        && (ret == -1 ==> State() == old(State()) && kids == old(kids))
        && (ret == 0 ==>
              && State() == Attach(old(State()), o, w.rest, w.parent)
              && kids == old(kids)[w.parent := old(kids)[w.parent] + [o]])
    {
      HeadRing(State(), kids, rank, p);
      var next, rest := NextParentFindFromPath(p, path);
      if next.Some? {
        DescendArgs(State(), kids, rank, o, p, next.value, chain);
        ret := RegisterByPathStrict(next.value, o, rest, chain + [next.value]);
      } else if '/' in SkipSlash(path) {
        ret := -1;
      } else {
        ret := RegisterToParent(o, rest, p, chain);
      }
    }

    /** `object_find_by_path` (mr_object.c:147-158). */
    method FindByPath(p: Obj, path: CString) returns (r: Option<Obj>)
      requires Walkable(State(), kids, rank) && p < |kids|
      requires Cell(p, CList) in links && IsInited(links, Cell(p, CList))
      decreases |path|
      ensures r == FindFrom(View(), p, path)
    {
      assert HeadOk(State(), kids, p);
      var next, rest := NextParentFindFromPath(p, path);
      if next.Some? {
        r := FindByPath(next.value, rest);
      } else {
        r := FindFromParent(p, rest);
      }
    }

    /** `object_tree_print(x, level)` (mr_object.c:161-178): the line of `x`,
        then the dump of each child, in child-list order, five columns in. */
    method ObjectTreePrint(x: Obj, level: nat) returns (lines: seq<Line>)
      requires Walkable(State(), kids, rank) && x < |kids|
      requires Cell(x, CList) in links && IsInited(links, Cell(x, CList))
      decreases rank[x]
      ensures lines == PreOrder(View(), rank, x, level)
    {
      assert HeadOk(State(), kids, x);
      lines := [Line(level, name[x])];
      var head := Cell(x, CList);
      RingStep(links, x, kids[x], 0);
      var cur := links[head].next;
      ghost var i := 0;
      while cur != Ref(head)
        invariant 0 <= i <= |kids[x]| && cur == Ref(NextCell(x, kids[x], i))
        invariant lines == [Line(level, name[x])] + ChildDumps(View(), rank, x, i, level + 5)
        decreases |kids[x]| - i
      {
        RingStep(links, x, kids[x], i + 1);
        ChildDumpsStep(View(), rank, x, i, level + 5);
        var sub := ObjectTreePrint(cur.cell.obj, level + 5);
        lines := lines + sub;
        cur := links[cur.cell].next;
        i := i + 1;
      }
      ChildDumpsAll(View(), rank, x, level);
    }

    /** `mr_object_find` (mr_object.c:187-192): what the path names, from the
        root; a found object is registered. */
    method Find(path: CString) returns (r: Option<Obj>)
      requires Valid()
      ensures r == FindFrom(View(), ROOT, path)
      ensures r.Some? ==> r.value < |magic| && magic[r.value] == OBJECT_MAGIC
    {
      InvariantWalkable(State(), kids, rank);
      r := FindByPath(ROOT, path);
      if r.Some? {
        ChildFacts(State(), kids, rank, Walk(View(), ROOT, path).parent, r.value);
      }
    }

    /** `mr_object_register` (mr_object.c:202-211) on an object that is not
        registered: -1 when what is left of the path where the walk stops
        matches a child there (after a missing directory segment that rest
        can still hold a '/'), else `o` is attached there under that rest;
        the path then finds `o` again unless the walk stopped at a missing
        directory segment that `o`'s own name now matches. `root_object` itself is rejected, which the source
        does not do (see `Hierarchy.RootUnderItself`). */
    method Register(o: Obj, path: CString) returns (ret: int)
      requires Valid() && o < |magic| && magic[o] != OBJECT_MAGIC
      modifies this
      ensures Valid()
      ensures ret == 0 || ret == -1
      ensures o == ROOT ==> ret == -1 && State() == old(State()) && kids == old(kids)
      ensures o != ROOT ==> AttachArgs(old(State()), old(kids), o, Walk(old(View()), ROOT, path).parent)
      ensures o != ROOT ==> var w := Walk(old(View()), ROOT, path);
        && (ret == -1 <==> Lookup(old(View()), w.parent, w.rest).Some?)
        && (ret == -1 ==> State() == old(State()) && kids == old(kids))
        && (ret == 0 ==>
              && State() == Attach(old(State()), o, w.rest, w.parent)
              && kids == old(kids)[w.parent := old(kids)[w.parent] + [o]]
              && magic[o] == OBJECT_MAGIC && parent[o] == Some(w.parent) && name[o] == Truncate(w.rest))
      ensures var w := Walk(old(View()), ROOT, path);
        ret == 0 && w.missed != Some(Truncate(w.rest)) ==> FindFrom(View(), ROOT, path) == Some(o)
    {
      if o == ROOT {
        return -1;
      }
      ret := RegisterBelowRoot(o, path);
    }

    /** `Register` for an object other than `root_object`: the walk from the
        root and the attach where it stops. */
    method RegisterBelowRoot(o: Obj, path: CString) returns (ret: int)
      requires Valid() && o < |magic| && o != ROOT && magic[o] != OBJECT_MAGIC
      modifies this
      ensures Valid()
      ensures ret == 0 || ret == -1
      ensures AttachArgs(old(State()), old(kids), o, Walk(old(View()), ROOT, path).parent)
      ensures var w := Walk(old(View()), ROOT, path);
        && (ret == -1 <==> Lookup(old(View()), w.parent, w.rest).Some?)
        && (ret == -1 ==> State() == old(State()) && kids == old(kids))
        && (ret == 0 ==>
              && State() == Attach(old(State()), o, w.rest, w.parent)
              && kids == old(kids)[w.parent := old(kids)[w.parent] + [o]]
              && magic[o] == OBJECT_MAGIC && parent[o] == Some(w.parent) && name[o] == Truncate(w.rest))
      ensures var w := Walk(old(View()), ROOT, path);
        ret == 0 && w.missed != Some(Truncate(w.rest)) ==> FindFrom(View(), ROOT, path) == Some(o)
    {
      ghost var t := View();
      DeadIsUnlinked(State(), kids, o);
      WalkEnds(State(), kids, rank, o, ROOT, path);
      ret := RegisterByPath(ROOT, o, path, [ROOT]);
      if ret == 0 {
        ghost var w := Walk(t, ROOT, path);
        assert View() == Attached(t, w.parent, o, w.rest);
        if w.missed != Some(Truncate(w.rest)) {
          FindAfterAttach(t, ROOT, path, o);
        }
      }
    }

    /** `mr_object_register` with the missing-directory check: it fails
        also when a directory segment of the path names no child, and then
        every path it accepts finds the object again. Like `Register`, it
        rejects `root_object` itself. */
    method RegisterStrict(o: Obj, path: CString) returns (ret: int)
      requires Valid() && o < |magic| && magic[o] != OBJECT_MAGIC
      modifies this
      ensures Valid()
      ensures ret == 0 || ret == -1
      ensures o == ROOT ==> ret == -1 && State() == old(State()) && kids == old(kids)
      ensures o != ROOT ==> AttachArgs(old(State()), old(kids), o, Walk(old(View()), ROOT, path).parent)
      ensures o != ROOT ==> var w := Walk(old(View()), ROOT, path);
        && (ret == -1 <==> w.missed.Some? || Lookup(old(View()), w.parent, w.rest).Some?)
        && (ret == -1 ==> State() == old(State()) && kids == old(kids))
        && (ret == 0 ==>
              && State() == Attach(old(State()), o, w.rest, w.parent)
              && kids == old(kids)[w.parent := old(kids)[w.parent] + [o]])
      ensures ret == 0 ==> FindFrom(View(), ROOT, path) == Some(o)
    {
      if o == ROOT {
        return -1;
      }
      ret := RegisterStrictBelowRoot(o, path);
    }

    /** `RegisterStrict` for an object other than `root_object`. */
    method RegisterStrictBelowRoot(o: Obj, path: CString) returns (ret: int)
      requires Valid() && o < |magic| && o != ROOT && magic[o] != OBJECT_MAGIC
      modifies this
      ensures Valid()
      ensures ret == 0 || ret == -1
      ensures AttachArgs(old(State()), old(kids), o, Walk(old(View()), ROOT, path).parent)
      ensures var w := Walk(old(View()), ROOT, path);
        && (ret == -1 <==> w.missed.Some? || Lookup(old(View()), w.parent, w.rest).Some?)
        && (ret == -1 ==> State() == old(State()) && kids == old(kids))
        && (ret == 0 ==>
              && State() == Attach(old(State()), o, w.rest, w.parent)
              && kids == old(kids)[w.parent := old(kids)[w.parent] + [o]])
      ensures ret == 0 ==> FindFrom(View(), ROOT, path) == Some(o)
    {
      ghost var t := View();
      DeadIsUnlinked(State(), kids, o);
      WalkEnds(State(), kids, rank, o, ROOT, path);
      ret := RegisterByPathStrict(ROOT, o, path, [ROOT]);
      if ret == 0 {
        ghost var w := Walk(t, ROOT, path);
        assert View() == Attached(t, w.parent, o, w.rest);
        FindAfterAttach(t, ROOT, path, o);
      }
    }

    /** `mr_object_unregister` (mr_object.c:220-231): unlink `list` of `o`
        from its parent's child list, clear its magic and its parent, and
        return 0. The `clist` of `o` is left alone, so its children keep
        their parent pointer to it. */
    method Unregister(o: Obj) returns (ret: int)
      requires Valid() && o < |magic| && magic[o] == OBJECT_MAGIC
      modifies this
      ensures Valid() && ret == 0
      ensures old(IsInited(links, Cell(o, List))) && old(parent[o]).Some? && old(parent[o]).value < |old(kids)|
      ensures State() == Detach(old(State()), o)
      ensures var p := old(parent[o]).value;
        exists i | 0 <= i < |old(kids)[p]| && old(kids)[p][i] == o ::
          kids == old(kids)[p := old(kids)[p][..i] + old(kids)[p][i + 1..]]
      ensures o < |kids| && kids[o] == old(kids)[o]
      ensures forall c | c in kids[o] :: parent[c] == Some(o)
    {
      LiveIsChild(State(), kids, rank, o);
      var p := parent[o].value;
      ghost var i: nat :| DetachPre(State(), kids, rank, o, p, i);
      ghost var w, ks := State(), kids;
      ListRemove(Cell(o, List));
      magic := magic[o := 0];
      parent := parent[o := None];
      kids := ks[p := ks[p][..i] + ks[p][i + 1..]];
      DetachValid(this, w, ks, rank, o, p, i);
      return 0;
    }

    /** `mr_object_parent_get` (mr_object.c:240-246): the parent of a
        registered object, which holds it in its child list. */
    method ParentGet(o: Obj) returns (r: Option<Obj>)
      requires Valid() && o < |magic| && magic[o] == OBJECT_MAGIC
      ensures r == parent[o] && r.Some? && r.value < |kids| && o in kids[r.value]
    {
      assert LinkedIfLive(State(), kids, o);
      return parent[o];
    }

    /** `mr_object_tree_print` (mr_object.c:255-262): the dump of `x`, or of
        the root when `x` is NULL, from column 0. */
    method TreePrint(x: Option<Obj>) returns (lines: seq<Line>)
      requires Valid() && (x.Some? ==> x.value < |kids| && IsInited(links, Cell(x.value, CList)))
      ensures lines == PreOrder(View(), rank, if x.Some? then x.value else ROOT, 0)
    {
      var top := if x.Some? then x.value else ROOT;
      InvariantWalkable(State(), kids, rank);
      lines := ObjectTreePrint(top, 0);
    }
  }
}
