/** The intrusive circular doubly-linked list (mr_object.c:23-52).

    Every object embeds two link cells, `list` (its place in its parent's
    child list) and `clist` (the head of its own child list). Memory maps each
    cell to its pair of pointers; a cell is named by the object that embeds it
    and the field, which is what the source recovers with CONTAIN_OF. */
module Lists {

  /** Which of an object's two link cells. */
  datatype Field = List | CList

  /** A link cell: `obj` is the object that embeds it. */
  datatype Cell = Cell(obj: nat, field: Field)

  /** A `struct mr_object_list *`. */
  datatype Ptr = Null | Ref(cell: Cell)

  /** `struct mr_object_list`: the two pointers of a cell. */
  datatype Link = Link(next: Ptr, prev: Ptr)

  type Memory = map<Cell, Link>

  /** `list_is_inited`: neither pointer is NULL. */
  predicate IsInited(m: Memory, c: Cell)
    requires c in m
  {
    m[c].next != Null && m[c].prev != Null
  }

  /** The cell that precedes position `i` of the ring `[h] + s`. */
  function Before(h: Cell, s: seq<Cell>, i: nat): Cell
    requires i <= |s|
  {
    if i == 0 then h else s[i - 1]
  }

  /** The tail of the list headed by `h`: `h` itself when the list is empty. */
  function Last(h: Cell, s: seq<Cell>): Cell
  {
    Before(h, s, |s|)
  }

  /** `b` follows `a`: `a.next == b` and `b.prev == a`. */
  ghost predicate Adjacent(m: Memory, a: Cell, b: Cell)
  {
    a in m && b in m && m[a].next == Ref(b) && m[b].prev == Ref(a)
  }

  /** `h` heads a well-formed circular list whose elements, in order, are `s`:
      following `next` from `h` visits `s` and comes back to `h`, following
      `prev` walks the other way, and no cell occurs twice. */
  ghost predicate IsRing(m: Memory, h: Cell, s: seq<Cell>)
  {
    && h in m
    && (forall i | 0 <= i < |s| :: s[i] in m && s[i] != h)
    && (forall i, j | 0 <= i < j < |s| :: s[i] != s[j])
    && (forall i | 0 <= i < |s| :: LinkedAt(m, h, s, i))
    && Adjacent(m, Last(h, s), h)
  }

  /** The element at position `i` of the list headed by `h` is linked to the
      cell before it. */
  ghost predicate LinkedAt(m: Memory, h: Cell, s: seq<Cell>, i: nat)
    requires i < |s|
  {
    Adjacent(m, Before(h, s, i), s[i])
  }

  /** `list_init` (mr_object.c:30-34): self-loop the cell, an empty list. */
  function Init(m: Memory, c: Cell): (r: Memory)
    requires c in m
    ensures r.Keys == m.Keys
    ensures IsRing(r, c, [])
    ensures forall d | d in m && d != c :: r[d] == m[d]
  {
    m[c := Link(Ref(c), Ref(c))]
  }

  /** `list_insert_before` (mr_object.c:37-44): the memory after its four
      stores, in the source's order. */
  function InsertBefore(m: Memory, head: Cell, node: Cell): (r: Memory)
    requires head in m && node in m
    requires m[head].prev.Ref? && m[head].prev.cell in m
    ensures r.Keys == m.Keys
    ensures forall d | d in m && d != head && d != node && d != m[head].prev.cell :: r[d] == m[d]
  {
    var last := m[head].prev.cell;
    var m1 := m[last := m[last].(next := Ref(node))];
    var m2 := m1[node := m1[node].(prev := m1[head].prev)];
    var m3 := m2[head := m2[head].(prev := Ref(node))];
    m3[node := m3[node].(next := Ref(head))]
  }

  /** `list_remove` (mr_object.c:47-52): the memory after its stores, in the
      source's order; the removed cell is left self-looped. */
  function Remove(m: Memory, node: Cell): (r: Memory)
    requires node in m && m[node].next.Ref? && m[node].prev.Ref?
    requires m[node].next.cell in m && m[node].prev.cell in m
    ensures r.Keys == m.Keys
    ensures r[node] == Link(Ref(node), Ref(node))
    ensures forall d | d in m && d != node && d != m[node].next.cell && d != m[node].prev.cell ::
      r[d] == m[d]
  {
    var m1 := m[m[node].next.cell := m[m[node].next.cell].(prev := m[node].prev)];
    var pred := m1[node].prev.cell;
    var m2 := m1[pred := m1[pred].(next := m1[node].next)];
    m2[node := Link(Ref(node), Ref(node))]
  }

  /** Every cell of a well-formed list passes `list_is_inited`, so the
      registry's "init if not inited" never resets a list that holds elements. */
  lemma RingCellsAreInited(m: Memory, h: Cell, s: seq<Cell>)
    requires IsRing(m, h, s)
    ensures IsInited(m, h)
    ensures forall i | 0 <= i < |s| :: IsInited(m, s[i])
  {
    if s != [] {
      assert LinkedAt(m, h, s, 0);
    }
    forall i | 0 <= i < |s|
      ensures IsInited(m, s[i])
    {
      assert LinkedAt(m, h, s, i);
      if i + 1 < |s| {
        assert LinkedAt(m, h, s, i + 1);
      }
    }
  }

  /** A list whose cells a change of memory did not touch is still the same
      list afterwards. */
  lemma RingFrame(m: Memory, m': Memory, h: Cell, s: seq<Cell>)
    requires IsRing(m, h, s)
    requires h in m' && m'[h] == m[h]
    requires forall i | 0 <= i < |s| :: s[i] in m' && m'[s[i]] == m[s[i]]
    ensures IsRing(m', h, s)
  {
    forall i | 0 <= i < |s|
      ensures LinkedAt(m', h, s, i)
    {
      assert LinkedAt(m, h, s, i);
    }
  }

  /** The cell-by-cell effect of `list_insert_before(h, n)` on the list
      headed by `h`. */
  lemma InsertBeforeCells(m: Memory, h: Cell, s: seq<Cell>, n: Cell)
    requires IsRing(m, h, s) && n in m && n != h && n !in s
    ensures m[h].prev == Ref(Last(h, s))
    ensures var r := InsertBefore(m, h, n);
      && r[n] == Link(Ref(h), Ref(Last(h, s)))
      && r[h].prev == Ref(n)
      && r[Last(h, s)].next == Ref(n)
      && (Last(h, s) != h ==> r[h].next == m[h].next && r[Last(h, s)].prev == m[Last(h, s)].prev)
  {
    assert Adjacent(m, Last(h, s), h);
    assert Last(h, s) != n by {
      if s != [] { assert Last(h, s) == s[|s| - 1]; }
    }
  }

  /** Inserting a cell that is in no list before the head of a list appends
      it at the tail and keeps every link symmetric. */
  lemma InsertBeforeAppends(m: Memory, h: Cell, s: seq<Cell>, n: Cell)
    requires IsRing(m, h, s) && n in m && n != h && n !in s
    ensures IsRing(InsertBefore(m, h, n), h, s + [n])
  {
    InsertBeforeCells(m, h, s, n);
    AppendedRing(m, InsertBefore(m, h, n), h, s, n);
  }

  /** Any memory that agrees with `m` except that `n` has been linked between
      the tail of the list headed by `h` and `h` holds the list `s + [n]`. */
  lemma AppendedRing(m: Memory, r: Memory, h: Cell, s: seq<Cell>, n: Cell)
    requires IsRing(m, h, s) && n in m && n != h && n !in s
    requires r.Keys == m.Keys
    requires r[n] == Link(Ref(h), Ref(Last(h, s)))
    requires r[h].prev == Ref(n) && r[Last(h, s)].next == Ref(n)
    requires Last(h, s) != h ==> r[h].next == m[h].next && r[Last(h, s)].prev == m[Last(h, s)].prev
    requires forall d | d in m && d != h && d != n && d != Last(h, s) :: r[d] == m[d]
    ensures IsRing(r, h, s + [n])
  {
    var s' := s + [n];
    var last := Last(h, s);
    assert Last(h, s') == n;
    forall i | 0 <= i < |s'|
      ensures LinkedAt(r, h, s', i)
    {
      if i == |s| {
        assert Before(h, s', i) == last;
      } else {
        assert s'[i] == s[i] && Before(h, s', i) == Before(h, s, i);
        assert LinkedAt(m, h, s, i);
        if i + 1 < |s| {
          assert LinkedAt(m, h, s, i + 1);
        }
      }
    }
  }

  /** The cell-by-cell effect of `list_remove` on the element at position `i`
      of the list headed by `h`. */
  lemma RemoveCells(m: Memory, h: Cell, s: seq<Cell>, i: nat)
    requires IsRing(m, h, s) && i < |s|
    ensures m[s[i]].prev == Ref(Before(h, s, i))
    ensures m[s[i]].next == Ref(if i + 1 < |s| then s[i + 1] else h)
    ensures var r := Remove(m, s[i]);
      var pred, succ := Before(h, s, i), if i + 1 < |s| then s[i + 1] else h;
      && r[pred].next == Ref(succ)
      && r[succ].prev == Ref(pred)
      && (pred != succ ==> r[pred].prev == m[pred].prev && r[succ].next == m[succ].next)
  {
    var x, pred, succ := s[i], Before(h, s, i), if i + 1 < |s| then s[i + 1] else h;
    assert LinkedAt(m, h, s, i);
    if i + 1 < |s| {
      assert LinkedAt(m, h, s, i + 1);
    } else {
      assert Adjacent(m, Last(h, s), h);
    }
    assert pred != x;
    assert succ != x;
    var m1 := m[succ := m[succ].(prev := Ref(pred))];
    assert m1[x] == m[x];
    var m2 := m1[pred := m1[pred].(next := Ref(succ))];
    assert Remove(m, x) == m2[x := Link(Ref(x), Ref(x))];
  }

  /** Deleting one element of a list of distinct cells leaves distinct
      cells, each named by its old position. */
  lemma DeleteAt(h: Cell, s: seq<Cell>, i: nat)
    requires i < |s|
    requires forall j, k | 0 <= j < k < |s| :: s[j] != s[k]
    requires forall j | 0 <= j < |s| :: s[j] != h
    ensures var s' := s[..i] + s[i + 1..];
      && |s'| == |s| - 1
      && (forall j | 0 <= j < |s'| :: s'[j] == if j < i then s[j] else s[j + 1])
      && (forall j | 0 <= j < |s'| :: s'[j] != h)
      && (forall j, k | 0 <= j < k < |s'| :: s'[j] != s'[k])
  {
    var s' := s[..i] + s[i + 1..];
    assert forall j | 0 <= j < |s'| :: s'[j] == if j < i then s[j] else s[j + 1];
    forall j, k | 0 <= j < k < |s'|
      ensures s'[j] != s'[k]
    {
      var j' := if j < i then j else j + 1;
      var k' := if k < i then k else k + 1;
      assert s'[j] == s[j'] && s'[k] == s[k'] && j' < k';
    }
  }

  /** Removing the element at position `i` of a list unlinks exactly that
      element, keeps the order of the others and self-loops the removed cell. */
  lemma RemoveUnlinks(m: Memory, h: Cell, s: seq<Cell>, i: nat)
    requires IsRing(m, h, s) && i < |s|
    ensures m[s[i]].next.Ref? && m[s[i]].prev.Ref?
    ensures m[s[i]].next.cell in m && m[s[i]].prev.cell in m
    ensures IsRing(Remove(m, s[i]), h, s[..i] + s[i + 1..])
    ensures IsRing(Remove(m, s[i]), s[i], [])
  {
    RemoveCells(m, h, s, i);
    assert LinkedAt(m, h, s, i);
    DeleteAt(h, s, i);
    RemovedRing(m, Remove(m, s[i]), h, s, i);
  }

  /** Any memory that agrees with `m` except that the neighbours of the
      element at position `i` now point at each other holds the list without
      that element. */
  lemma RemovedRing(m: Memory, r: Memory, h: Cell, s: seq<Cell>, i: nat)
    requires IsRing(m, h, s) && i < |s|
    requires r.Keys == m.Keys
    requires var pred, succ := Before(h, s, i), if i + 1 < |s| then s[i + 1] else h;
      && r[pred].next == Ref(succ)
      && r[succ].prev == Ref(pred)
      && (pred != succ ==> r[pred].prev == m[pred].prev && r[succ].next == m[succ].next)
      && (forall d | d in m && d != s[i] && d != pred && d != succ :: r[d] == m[d])
    ensures IsRing(r, h, s[..i] + s[i + 1..])
  {
    var pred, succ := Before(h, s, i), if i + 1 < |s| then s[i + 1] else h;
    var s' := s[..i] + s[i + 1..];
    DeleteAt(h, s, i);
    forall j | 0 <= j < |s'|
      ensures LinkedAt(r, h, s', j)
    {
      if j < i {
        assert Before(h, s', j) == Before(h, s, j);
        assert LinkedAt(m, h, s, j);
      } else if j == i {
        assert Before(h, s', j) == pred && s'[j] == succ;
      } else {
        assert Before(h, s', j) == s[j] && s'[j] == s[j + 1];
        assert LinkedAt(m, h, s, j + 1);
      }
    }
    if i + 1 < |s| {
      assert Last(h, s') == Last(h, s);
      assert Adjacent(m, Last(h, s), h);
    } else {
      assert Last(h, s') == pred;
    }
  }

  /** Removing a cell that is already self-looped changes nothing. */
  lemma RemoveSelfLoopedIsNoop(m: Memory, n: Cell)
    requires n in m && m[n] == Link(Ref(n), Ref(n))
    ensures Remove(m, n) == m
  {
  }
}
