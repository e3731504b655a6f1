/** The memory of all objects, the invariant the registry keeps on it, and
    the two state changes: attaching an object (mr_object.c:83-99) and
    detaching it (mr_object.c:226-228). */
module Objects {
  import opened Prelude
  import opened Paths
  import opened Lists
  import opened Hierarchy

  /** OBJECT_MAGIC (mr_object.c:97): the tag of a registered object. */
  const OBJECT_MAGIC: bv32 := 0xdeadbeef

  /** The fields of every object of the arena (`struct mr_object`,
      mr_object.h:36-49), side by side: `magic[o]`, `name[o]` and `parent[o]`
      are those of object `o`, and `links` holds its `list` and `clist` cells. */
  datatype World = World(magic: seq<bv32>, name: seq<Name>, parent: seq<Option<Obj>>, links: Memory)

  ghost predicate Live(w: World, o: Obj)
    requires o < |w.magic|
  {
    w.magic[o] == OBJECT_MAGIC
  }

  /** The `list` cells of `ks`, in order: the elements of a child list. */
  function ListCells(ks: seq<Obj>): (cs: seq<Cell>)
    ensures |cs| == |ks|
    ensures forall i | 0 <= i < |ks| :: cs[i] == Cell(ks[i], List)
  {
    seq(|ks|, i requires 0 <= i < |ks| => Cell(ks[i], List))
  }

  /** The last cell of the child list of `p` with children `ks`: its head when
      there are none, else `list` of the last child. */
  function Tail(p: Obj, ks: seq<Obj>): Cell
  {
    if ks == [] then Cell(p, CList) else Cell(ks[|ks| - 1], List)
  }

  lemma TailIsLast(p: Obj, ks: seq<Obj>)
    ensures Last(Cell(p, CList), ListCells(ks)) == Tail(p, ks)
  {
  }

  /** A pointer that is NULL or points at a cell of one of the `n` objects. */
  ghost predicate PtrIn(q: Ptr, n: nat)
  {
    q.Ref? ==> q.cell.obj < n
  }

  /** The memory holds exactly the two cells of each of the `n` objects, and
      no pointer in it leads anywhere else. */
  ghost predicate Closed(m: Memory, n: nat)
  {
    && (forall c: Cell :: c in m <==> c.obj < n)
    && (forall c | c in m :: PtrIn(m[c].next, n) && PtrIn(m[c].prev, n))
  }

  /** The sizes agree and the memory is closed. */
  ghost predicate Sized(w: World, kids: seq<seq<Obj>>)
  {
    var n := |w.magic|;
    && n >= 1 && |w.name| == n && |w.parent| == n && |kids| == n
    && WellFormed(Tree(kids, w.name))
    && Closed(w.links, n)
  }

  /** The `clist` of `p` is never-initialised storage with no children, or the
      head of a well-formed list of the `list` cells of `kids[p]`. */
  ghost predicate ChildList(w: World, kids: seq<seq<Obj>>, p: Obj)
    requires p < |kids| && Cell(p, CList) in w.links
  {
    || (kids[p] == [] && w.links[Cell(p, CList)] == Link(Null, Null))
    || IsRing(w.links, Cell(p, CList), ListCells(kids[p]))
  }

  /** A registered object has a parent whose child list holds it and an
      initialised `list` and `clist`; any other object has no parent and a
      `list` cell that is never-initialised or self-looped. */
  ghost predicate LinkedIfLive(w: World, kids: seq<seq<Obj>>, o: Obj)
    requires Sized(w, kids) && o < |w.magic|
  {
    if Live(w, o) then
      && w.parent[o].Some? && w.parent[o].value < |kids| && o in kids[w.parent[o].value]
      && IsInited(w.links, Cell(o, List)) && IsInited(w.links, Cell(o, CList))
    else
      && w.parent[o] == None
      && (|| w.links[Cell(o, List)] == Link(Null, Null)
          || w.links[Cell(o, List)] == Link(Ref(Cell(o, List)), Ref(Cell(o, List))))
  }

  /** No two children of one parent have the same name. */
  ghost predicate DistinctNames(name: seq<Name>, ks: seq<Obj>)
    requires forall i | 0 <= i < |ks| :: ks[i] < |name|
  {
    forall i, j | 0 <= i < j < |ks| :: name[ks[i]] != name[ks[j]]
  }

  /** Every child is registered and has its parent pointer on the parent
      whose child list holds it. */
  ghost predicate Registered(w: World, kids: seq<seq<Obj>>)
    requires Sized(w, kids)
  {
    forall p, i | 0 <= p < |kids| && 0 <= i < |kids[p]| ::
      Live(w, kids[p][i]) && w.parent[kids[p][i]] == Some(p)
  }

  ghost predicate ChildLists(w: World, kids: seq<seq<Obj>>)
    requires Sized(w, kids)
  {
    forall p | 0 <= p < |kids| :: ChildList(w, kids, p)
  }

  ghost predicate AllLinked(w: World, kids: seq<seq<Obj>>)
    requires Sized(w, kids)
  {
    forall o | 0 <= o < |kids| :: LinkedIfLive(w, kids, o)
  }

  ghost predicate AllDistinct(w: World, kids: seq<seq<Obj>>)
    requires Sized(w, kids)
  {
    forall p | 0 <= p < |kids| :: DistinctNames(w.name, kids[p])
  }

  /** The root is never registered and its `clist` is always initialised
      (OBJECT_INIT, mr_object.c:10-21). */
  ghost predicate RootOk(w: World)
    requires |w.magic| >= 1 && Cell(ROOT, CList) in w.links
  {
    !Live(w, ROOT) && IsInited(w.links, Cell(ROOT, CList))
  }

  /** The registry's structural invariant, over the memory `w`, its children
      abstraction `kids` and a ranking `rank` that shows the child relation
      has no cycle. */
  ghost predicate Invariant(w: World, kids: seq<seq<Obj>>, rank: seq<nat>)
  {
    && Sized(w, kids)
    && Ranked(Tree(kids, w.name), rank)
    && RootOk(w)
    && Registered(w, kids)
    && ChildLists(w, kids)
    && AllLinked(w, kids)
    && AllDistinct(w, kids)
  }

  /** Both cells of each of the `n` objects. */
  function Cells(n: nat): (cs: set<Cell>)
    ensures forall c: Cell :: c in cs <==> c.obj < n
  {
    var cs := (set o | 0 <= o < n :: Cell(o, List)) + (set o | 0 <= o < n :: Cell(o, CList));
    assert forall c: Cell | c.obj < n :: c in cs by {
      forall c: Cell | c.obj < n ensures c in cs {
        if c.field == List { assert c == Cell(c.obj, List); } else { assert c == Cell(c.obj, CList); }
      }
    }
    cs
  }

  /** The state of a freshly started system: `root_object` as OBJECT_INIT
      leaves it (mr_object.c:10-21) and `count` objects in zeroed storage. */
  function Initial(count: nat): (w: World)
    ensures |w.magic| == count + 1
  {
    var n := count + 1;
    World(
      seq(n, o => 0),
      seq(n, o => if o == ROOT then "root" else ""),
      seq(n, o => None),
      map c | c in Cells(n) :: if c.obj == ROOT then Link(Ref(c), Ref(c)) else Link(Null, Null))
  }

  /** The initial state satisfies the invariant with no children anywhere. */
  lemma InitialInvariant(count: nat)
    ensures Invariant(Initial(count), seq(count + 1, o => []), seq(count + 1, o => 0))
  {
    var w := Initial(count);
    var kids: seq<seq<Obj>> := seq(count + 1, o => []);
    assert Sized(w, kids);
    assert IsRing(w.links, Cell(ROOT, CList), []);
    forall p | 0 <= p < count + 1
      ensures ChildList(w, kids, p)
    {
      assert ListCells(kids[p]) == [];
      if p == ROOT {
        assert IsRing(w.links, Cell(p, CList), ListCells(kids[p]));
      }
    }
  }

  /** An object carries OBJECT_MAGIC exactly when it is linked into the
      child list of some object. */
  lemma LiveIffLinked(w: World, kids: seq<seq<Obj>>, rank: seq<nat>, o: Obj)
    requires Invariant(w, kids, rank) && o < |w.magic|
    ensures Live(w, o) <==> exists p | 0 <= p < |kids| :: o in kids[p]
  {
    assert LinkedIfLive(w, kids, o);
    if exists p | 0 <= p < |kids| :: o in kids[p] {
      var p :| 0 <= p < |kids| && o in kids[p];
      var i :| 0 <= i < |kids[p]| && kids[p][i] == o;
      assert Live(w, kids[p][i]);
    }
  }

  /** An object occurs at most once in all the child lists together: in the
      list of the parent its pointer names, at one position. */
  lemma ChildOnce(w: World, kids: seq<seq<Obj>>, rank: seq<nat>, p: Obj, i: nat, q: Obj, j: nat)
    requires Invariant(w, kids, rank)
    requires p < |kids| && i < |kids[p]| && q < |kids| && j < |kids[q]| && kids[p][i] == kids[q][j]
    ensures p == q && i == j
    ensures w.parent[kids[p][i]] == Some(p)
  {
    assert w.parent[kids[p][i]] == Some(p) && w.parent[kids[q][j]] == Some(q);
    assert DistinctNames(w.name, kids[p]);
  }

  /** The `list` and `clist` stores of `object_register_to_parent`
      (mr_object.c:83-91, 95): initialise both cells of `o` if they are not,
      then insert `list` of `o` before the `clist` head of `p`. */
  function Splice(m: Memory, o: Obj, p: Obj): Memory
    requires Cell(o, List) in m && Cell(o, CList) in m && Cell(p, CList) in m && o != p
    requires IsInited(m, Cell(p, CList)) && m[Cell(p, CList)].prev.cell in m
  {
    var l1 := if IsInited(m, Cell(o, List)) then m else Init(m, Cell(o, List));
    var l2 := if IsInited(l1, Cell(o, CList)) then l1 else Init(l1, Cell(o, CList));
    InsertBefore(l2, Cell(p, CList), Cell(o, List))
  }

  /** `object_register_to_parent` once the duplicate check has passed
      (mr_object.c:83-99): initialise `list` and `clist` if they are not,
      store the name, append `o` to the child list of `p`, set its parent and
      its magic. */
  function Attach(w: World, o: Obj, nm: CString, p: Obj): World
    requires o < |w.magic| && o < |w.name| && o < |w.parent| && o != p
    requires Cell(o, List) in w.links && Cell(o, CList) in w.links && Cell(p, CList) in w.links
    requires IsInited(w.links, Cell(p, CList)) && w.links[Cell(p, CList)].prev.cell in w.links
  {
    World(
      w.magic[o := OBJECT_MAGIC],
      w.name[o := Truncate(nm)],
      w.parent[o := Some(p)],
      Splice(w.links, o, p))
  }

  /** `mr_object_unregister` (mr_object.c:226-228): unlink `list`, clear the
      magic, forget the parent. */
  function Detach(w: World, o: Obj): World
    requires o < |w.magic| && o < |w.parent|
    requires Cell(o, List) in w.links && IsInited(w.links, Cell(o, List))
    requires w.links[Cell(o, List)].next.cell in w.links && w.links[Cell(o, List)].prev.cell in w.links
  {
    World(w.magic[o := 0], w.name, w.parent[o := None], Remove(w.links, Cell(o, List)))
  }

  /** On memory: `Splice` appends `list` of `o` to the ring headed by the
      `clist` of `p`, leaves the ring headed by the `clist` of `o` intact, and
      changes no cell but those two heads, `list` of `o` and the old tail. */
  lemma SpliceRings(m: Memory, o: Obj, p: Obj, s: seq<Cell>, so: seq<Cell>)
    requires Cell(o, List) in m && Cell(o, CList) in m && Cell(p, CList) in m && o != p
    requires IsRing(m, Cell(p, CList), s) && IsInited(m, Cell(p, CList))
    requires Cell(o, List) !in s && Cell(o, CList) !in s
    requires IsInited(m, Cell(o, CList)) ==> IsRing(m, Cell(o, CList), so)
    requires !IsInited(m, Cell(o, CList)) ==> so == []
    requires Cell(o, List) !in so && Last(Cell(p, CList), s) !in so && Cell(p, CList) !in so
    ensures var l := Splice(m, o, p);
      && l.Keys == m.Keys
      && IsRing(l, Cell(p, CList), s + [Cell(o, List)])
      && IsRing(l, Cell(o, CList), so)
      && (forall c | c in m && c != Cell(o, List) && c != Cell(o, CList) && c != Cell(p, CList)
            && c != Last(Cell(p, CList), s) :: l[c] == m[c])
  {
    var hp, lo, co := Cell(p, CList), Cell(o, List), Cell(o, CList);
    var l1 := if IsInited(m, lo) then m else Init(m, lo);
    var l2 := if IsInited(l1, co) then l1 else Init(l1, co);
    assert IsRing(l2, hp, s) by { RingFrame(m, l2, hp, s); }
    assert IsRing(l2, co, so) by {
      if IsInited(m, co) {
        RingFrame(m, l2, co, so);
      }
    }
    InsertBeforeCells(l2, hp, s, lo);
    InsertBeforeAppends(l2, hp, s, lo);
    var l := InsertBefore(l2, hp, lo);
    assert IsRing(l, co, so) by { RingFrame(l2, l, co, so); }
  }

  /** Initialising a cell of one of the `n` objects keeps the memory closed. */
  lemma InitClosed(m: Memory, c: Cell, n: nat)
    requires Closed(m, n) && c in m
    ensures Closed(Init(m, c), n)
  {
    var r := Init(m, c);
    forall d | d in r
      ensures PtrIn(r[d].next, n) && PtrIn(r[d].prev, n)
    {
      if d != c { assert r[d] == m[d]; }
    }
  }

  /** Inserting a cell before a list head keeps the memory closed. */
  lemma InsertBeforeClosed(m: Memory, h: Cell, x: Cell, n: nat)
    requires Closed(m, n) && h in m && x in m && m[h].prev.Ref? && m[h].prev.cell in m
    ensures Closed(InsertBefore(m, h, x), n)
  {
    var r := InsertBefore(m, h, x);
    var last := m[h].prev.cell;
    forall d | d in r
      ensures PtrIn(r[d].next, n) && PtrIn(r[d].prev, n)
    {
      if d != h && d != x && d != last { assert r[d] == m[d]; }
    }
  }

  /** Unlinking a cell keeps the memory closed. */
  lemma RemoveClosed(m: Memory, x: Cell, n: nat)
    requires Closed(m, n) && x in m && m[x].next.Ref? && m[x].prev.Ref?
    requires m[x].next.cell in m && m[x].prev.cell in m
    ensures Closed(Remove(m, x), n)
  {
    var r := Remove(m, x);
    forall d | d in r
      ensures PtrIn(r[d].next, n) && PtrIn(r[d].prev, n)
    {
      if d != x && d != m[x].next.cell && d != m[x].prev.cell { assert r[d] == m[d]; }
    }
  }

  /** `Splice` stores only pointers to cells of `o` and `p` and the old tail,
      so a memory without dangling pointers stays without them. */
  lemma SpliceClosed(m: Memory, o: Obj, p: Obj, n: nat)
    requires Cell(o, List) in m && Cell(o, CList) in m && Cell(p, CList) in m && o != p
    requires IsInited(m, Cell(p, CList)) && m[Cell(p, CList)].prev.cell in m
    requires Closed(m, n)
    ensures Closed(Splice(m, o, p), n)
  {
    var hp, lo, co := Cell(p, CList), Cell(o, List), Cell(o, CList);
    var l1 := if IsInited(m, lo) then m else Init(m, lo);
    if !IsInited(m, lo) { InitClosed(m, lo, n); }
    var l2 := if IsInited(l1, co) then l1 else Init(l1, co);
    if !IsInited(l1, co) { InitClosed(l1, co, n); }
    InsertBeforeClosed(l2, hp, lo, n);
  }

  /** What `Splice` leaves in memory `l`, from memory `m`, when `kp` are the
      children of `p` and `ko` those of `o`. */
  ghost predicate Spliced(m: Memory, l: Memory, kp: seq<Obj>, ko: seq<Obj>, o: Obj, p: Obj, n: nat)
  {
    && Closed(l, n) && l.Keys == m.Keys
    && IsRing(l, Cell(p, CList), ListCells(kp + [o]))
    && IsRing(l, Cell(o, CList), ListCells(ko))
    && IsInited(l, Cell(p, CList)) && IsInited(l, Cell(o, List)) && IsInited(l, Cell(o, CList))
    && (forall c | c in m && c != Cell(o, List) && c != Cell(o, CList) && c != Cell(p, CList) && c != Tail(p, kp) ::
          c in l && l[c] == m[c])
  }

  /** The memory after `Splice`, cell by cell, given the child lists `kp` of
      `p` and `ko` of `o`. */
  lemma SpliceFacts(m: Memory, o: Obj, p: Obj, kp: seq<Obj>, ko: seq<Obj>, n: nat)
    requires Closed(m, n) && o < n && p < n && o != p && IsInited(m, Cell(p, CList))
    requires IsRing(m, Cell(p, CList), ListCells(kp))
    requires IsInited(m, Cell(o, CList)) ==> IsRing(m, Cell(o, CList), ListCells(ko))
    requires !IsInited(m, Cell(o, CList)) ==> ListCells(ko) == []
    requires Cell(o, List) !in ListCells(kp) && Cell(o, List) !in ListCells(ko)
    requires Tail(p, kp) !in ListCells(ko) && Cell(p, CList) !in ListCells(ko)
    ensures Spliced(m, Splice(m, o, p), kp, ko, o, p, n)
  {
    var hp, lo, co := Cell(p, CList), Cell(o, List), Cell(o, CList);
    var s, so := ListCells(kp), ListCells(ko);
    TailIsLast(p, kp);
    SpliceRings(m, o, p, s, so);
    SpliceClosed(m, o, p, n);
    var l := Splice(m, o, p);
    assert s + [lo] == ListCells(kp + [o]);
    AppendedInited(l, hp, kp, o);
    RingCellsAreInited(l, co, so);
    forall c | c in m && c != lo && c != co && c != hp && c != Tail(p, kp)
      ensures c in l && l[c] == m[c]
    {
    }
  }

  /** The head of a ring and the cell appended last are initialised. */
  lemma AppendedInited(l: Memory, h: Cell, kp: seq<Obj>, o: Obj)
    requires IsRing(l, h, ListCells(kp + [o]))
    ensures IsInited(l, h) && Cell(o, List) in l && IsInited(l, Cell(o, List))
  {
    RingCellsAreInited(l, h, ListCells(kp + [o]));
    assert ListCells(kp + [o])[|kp|] == Cell(o, List);
  }

  /** What removing `list` of the `i`-th child of `p` leaves in memory `l`,
      from memory `m`, when `kp` are the children of `p`. */
  ghost predicate Removed(m: Memory, l: Memory, kp: seq<Obj>, p: Obj, i: nat, n: nat)
    requires i < |kp|
  {
    var lo := Cell(kp[i], List);
    && Closed(l, n) && l.Keys == m.Keys
    && IsRing(l, Cell(p, CList), ListCells(kp[..i] + kp[i + 1..]))
    && lo in l && l[lo] == Link(Ref(lo), Ref(lo))
    && IsInited(l, Cell(p, CList))
    && (forall j | 0 <= j < |kp| && j != i :: Cell(kp[j], List) in l && IsInited(l, Cell(kp[j], List)))
    && (forall c | c in m && c != Cell(p, CList) && c !in ListCells(kp) :: c in l && l[c] == m[c])
  }

  /** On memory: removing `list` of the `i`-th child of `p` deletes it from
      the ring headed by the `clist` of `p`, self-loops it, and changes no cell
      outside that ring. */
  lemma RemoveFacts(m: Memory, p: Obj, kp: seq<Obj>, i: nat, n: nat)
    requires Closed(m, n)
    requires IsRing(m, Cell(p, CList), ListCells(kp)) && i < |kp|
    ensures var lo := Cell(kp[i], List);
      m[lo].next.Ref? && m[lo].prev.Ref? && m[lo].next.cell in m && m[lo].prev.cell in m
    ensures Removed(m, Remove(m, Cell(kp[i], List)), kp, p, i, n)
  {
    var h, s := Cell(p, CList), ListCells(kp);
    var lo := s[i];
    RemoveUnlinks(m, h, s, i);
    RemoveClosed(m, lo, n);
    RemoveCells(m, h, s, i);
    var l := Remove(m, lo);
    assert s[..i] + s[i + 1..] == ListCells(kp[..i] + kp[i + 1..]);
    assert Before(h, s, i) == h || Before(h, s, i) in s;
    DeletedInited(l, h, kp, i);
  }

  /** Every cell left on a ring after deleting the `i`-th is initialised. */
  lemma DeletedInited(l: Memory, h: Cell, kp: seq<Obj>, i: nat)
    requires i < |kp| && IsRing(l, h, ListCells(kp[..i] + kp[i + 1..]))
    ensures IsInited(l, h)
    ensures forall j | 0 <= j < |kp| && j != i :: Cell(kp[j], List) in l && IsInited(l, Cell(kp[j], List))
  {
    var s' := ListCells(kp[..i] + kp[i + 1..]);
    RingCellsAreInited(l, h, s');
    forall j | 0 <= j < |kp| && j != i
      ensures Cell(kp[j], List) in l && IsInited(l, Cell(kp[j], List))
    {
      if j < i { assert s'[j] == Cell(kp[j], List); } else { assert s'[j - 1] == Cell(kp[j], List); }
    }
  }

  /** A child list whose head and element cells are unchanged is still well
      formed. */
  lemma ChildListKept(w: World, w': World, kids: seq<seq<Obj>>, kids': seq<seq<Obj>>, q: Obj)
    requires q < |kids| && q < |kids'| && kids'[q] == kids[q]
    requires Cell(q, CList) in w.links && Cell(q, CList) in w'.links
    requires w'.links[Cell(q, CList)] == w.links[Cell(q, CList)]
    requires forall i | 0 <= i < |kids[q]| ::
      Cell(kids[q][i], List) in w'.links
      && (Cell(kids[q][i], List) in w.links ==> w'.links[Cell(kids[q][i], List)] == w.links[Cell(kids[q][i], List)])
    requires ChildList(w, kids, q)
    ensures ChildList(w', kids', q)
  {
    if IsRing(w.links, Cell(q, CList), ListCells(kids[q])) {
      RingFrame(w.links, w'.links, Cell(q, CList), ListCells(kids[q]));
    }
  }
}
