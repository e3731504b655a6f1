# mr_object: a verified model of the path-addressed object registry

`mr_object.c` keeps a tree of caller-owned objects hanging from a static
`root_object`. Each object embeds two cells of an intrusive circular doubly
linked list: `list`, its place in its parent's child list, and `clist`, the
head of its own child list. Objects are registered under a slash-separated
path. The path is walked from the root one directory segment at a time, and
each segment is compared with the children's names on at most 16 characters.
Objects can also be found by path, unregistered, asked for their parent and
dumped as an indented pre-order tree.

The model has these parts:

- `prelude.dfy`: `Option`, which stands for a nullable pointer, and `FirstIndex`, which stands for `strchr`.
- `paths.dfy`: names of at most 16 characters, `strncmp(…, 16)`, and one step of path descent.
- `lists.dfy`: the list cells and the three list primitives as functions on a map from cells to their `next`/`prev` pointers. The lemmas say what each primitive does to a well-formed ring.
- `hierarchy.dfy`: the children of every object as sequences, and the pure counterparts of child lookup, of the walk shared by register and find, and of the dump. It also holds the register/find round trip and its counterexample.
- `objects.dfy`: the state of all objects and the structural invariant on it:
  - parent pointers agree with list membership;
  - the magic is 0xdeadbeef exactly for linked objects;
  - every child list is a well-formed ring in insertion order;
  - siblings have distinct names;
  - a ranking shows the tree has no cycle.

  It also holds `Attach` and `Detach`, the two state changes.
- `preservation.dfy`: `Attach` and `Detach` keep the invariant.
- `registry.dfy`: class `Registry`, whose fields the methods update in place as the C code does. It contains the list primitives, `object_find_from_parent`, `next_parent_find_from_path`, the recursive walkers and the five public functions. Each is proved against the definitions above.

Objects live in an arena and are named by their index; index 0 is
`root_object`. A link cell is named by the object that embeds it and the
field (`list` or `clist`), so the owner of a cell is read off the cell. This
replaces the `CONTAIN_OF` pointer arithmetic. Unregistering an object does
not touch its `clist`. Its children keep their parent pointer to it, and the
subtree comes back with it when it is registered again. The model keeps
such orphaned subtrees.

## Model

| member | source | states |
|---|---|---|
| Prelude.FirstIndex | mr_object.c:114 | `strchr`: no result iff the character is absent; otherwise the position of its first occurrence |
| Paths.Truncate | mr_object.c:94 | `strncpy` into a 16-character name keeps a prefix of the string: all of it when it is short, exactly 16 characters when it is longer |
| Paths.StrNEqualIsPrefixEquality | mr_object.c:65 | `strncmp(a, b, n) == 0` iff the two strings cut to `n` characters are equal |
| Paths.MatchesIffTruncated | mr_object.c:65 | a stored name matches a key iff it equals the key's first 16 characters |
| Paths.SkipSlash | mr_object.c:109-112 | at most one leading '/' is removed |
| Paths.ParseStep | mr_object.c:109-129 | with no '/' after the skipped slash, the final segment is the rest of the path; otherwise the segment is the text before the first '/', cut to 16 characters, and the cursor moves just past that '/' |
| Lists.Init | mr_object.c:30-34 | `list_init` leaves the cell an empty ring and changes no other cell |
| Lists.InsertBefore | mr_object.c:37-44 | `list_insert_before` changes no cell except the head, the node and the old tail |
| Lists.Remove | mr_object.c:47-52 | `list_remove` self-loops the node and changes no cell except the node and its two neighbours |
| Lists.RingCellsAreInited | mr_object.c:24-27 | every cell of a well-formed ring passes `list_is_inited` |
| Lists.InsertBeforeAppends | mr_object.c:37-44 | inserting a node before the head of a ring appends it as the new tail; the ring stays well formed (`next.prev == x`, `prev.next == x`) and the other elements keep their order |
| Lists.RemoveUnlinks | mr_object.c:47-52 | removing the i-th element of a ring deletes exactly that element; the others keep their order and stay linked both ways, and the removed node is an empty ring of its own |
| Lists.RemoveSelfLoopedIsNoop | mr_object.c:47-52 | removing a self-looped node changes nothing |
| Hierarchy.FirstMatch | mr_object.c:61-70 | no result iff no child matches the key; otherwise the first child in list order whose name matches |
| Hierarchy.Lookup | mr_object.c:55-71 | `object_find_from_parent` returns a child of the parent whose name matches, or nothing iff no child matches |
| Hierarchy.Walk | mr_object.c:103-158 | the register/find walk stops at an existing object, with a suffix of the path; when it did not stop at a missing segment, what is left has no '/' |
| Hierarchy.FindFrom | mr_object.c:147-158 | a found object is a child of the object where the walk stopped, and its name is the rest of the path cut to 16 characters |
| Hierarchy.Attached | mr_object.c:94-96 | attaching appends the object to its parent's children and stores the truncated name |
| Hierarchy.LookupAfterAttach | mr_object.c:78-81 | after attaching, a lookup changes only under the new parent when nothing matched there before, and then exactly when the new name matches |
| Hierarchy.FindAfterAttach | mr_object.c:133-158 | register and find walk the same way: after attaching where the walk stops, finding the path returns the object, unless the walk stopped at a missing directory segment whose name equals the new name |
| Hierarchy.RoundTripCounterexample | mr_object.c:123-125 | with root childless, the walk for "q/q" attaches the object as "q" under the root, and find("q/q") then returns nothing |
| Hierarchy.RootUnderItself | mr_object.c:11-18 | registering `root_object` under a plain name that no child of the root has stops the walk at the root itself; attaching it there makes the root its own child, so no ranking of the tree exists and its dump never ends |
| Hierarchy.PreOrderIndents | mr_object.c:161-178 | the dump of `x` starts with `x` at its level; every later line is at least five columns further in |
| Hierarchy.ChildrenInOrder | mr_object.c:172-177 | the lines one level below `x` in its dump are the names of its children, in insertion order |
| Objects.InitialInvariant | mr_object.c:10-21 | the root as OBJECT_INIT builds it, with zeroed objects beside it, satisfies the invariant |
| Objects.LiveIffLinked | mr_object.c:95-98 | an object carries OBJECT_MAGIC iff it is in some child list |
| Objects.ChildOnce | mr_object.c:78-81 | an object occurs once in all child lists together, in the list of the parent its pointer names |
| Objects.SpliceFacts | mr_object.c:83-95 | initialising the cells that are not initialised and inserting `list` before the parent's `clist` appends the object to the parent's ring and keeps its own ring; no other cell changes |
| Objects.RemoveFacts | mr_object.c:226 | unlinking the i-th child deletes it from the parent's ring and self-loops it; no cell outside that ring changes |
| Preservation.AttachKeepsInvariant | mr_object.c:74-100 | a successful `object_register_to_parent` keeps the whole invariant, with the object appended to its parent's children |
| Preservation.DetachKeepsInvariant | mr_object.c:220-231 | `mr_object_unregister` keeps the whole invariant, with the object deleted from its parent's children and its own subtree left in place |
| ObjectRegistry.WalkEnds | mr_object.c:133-144 | a walk from the root ends at the root or at a registered object with an initialised `clist`, where registering can take place |
| ObjectRegistry.Registry.constructor | mr_object.c:10-21 | the initial state is valid and no object has children |
| ObjectRegistry.Registry.ListInit | mr_object.c:30-34 | the two stores give `Init` |
| ObjectRegistry.Registry.ListInsertBefore | mr_object.c:37-44 | the four stores, in order, give `InsertBefore` |
| ObjectRegistry.Registry.ListRemove | mr_object.c:47-52 | the three stores, in order, give `Remove` |
| ObjectRegistry.Registry.FindFromParent | mr_object.c:55-71 | following `next` around the parent's child list returns what `Lookup` specifies: the first matching child, or nothing |
| ObjectRegistry.Registry.NextParentFindFromPath | mr_object.c:103-130 | returns nothing with the cursor on the final segment, or looks up the cut segment with the cursor moved past its '/'; with a parent found the walk continues from it on the shorter rest, and otherwise it stops here |
| ObjectRegistry.Registry.RegisterToParent | mr_object.c:74-100 | returns 0 or -1; -1 iff a child already matches the name, and then nothing changes; otherwise returns 0, the state is `Attach`, the object is appended to the parent's children and the invariant holds |
| ObjectRegistry.Registry.AttachStores | mr_object.c:83-99 | the stores after the duplicate check give `Attach` |
| ObjectRegistry.Registry.RegisterByPath | mr_object.c:133-144 | returns 0 or -1 and registers where `Walk` stops, under the rest of the path: -1 with nothing changed iff a child there matches; otherwise 0, the state is `Attach` there, the object is appended to that parent's children and the invariant holds |
| ObjectRegistry.Registry.RegisterByPathStrict | mr_object.c:133-144 | as `RegisterByPath`, but also fails with nothing changed when the walk stopped at a missing directory segment |
| ObjectRegistry.Registry.FindByPath | mr_object.c:147-158 | returns `FindFrom`: the child matching the rest of the path where the walk stops |
| ObjectRegistry.Registry.ObjectTreePrint | mr_object.c:161-178 | the lines produced are the pre-order dump `PreOrder`: the object at its level, then each child's dump five columns in, in list order |
| ObjectRegistry.Registry.Find | mr_object.c:187-192 | `mr_object_find` returns `FindFrom` from the root, and a found object is registered |
| ObjectRegistry.Registry.Register | mr_object.c:202-211 | returns 0 or -1; `root_object` itself is rejected with -1 and nothing changed; for any other object, -1 with nothing changed iff what is left of the path where the walk stops matches a child there (after a missing directory segment this can still contain '/', e.g. "b/c" for "a/b/c"); otherwise the object is attached there under that rest, with its magic, parent and truncated name set, the invariant holds, and finding the path returns it unless the missed segment equals its name |
| ObjectRegistry.Registry.RegisterBelowRoot | mr_object.c:204-210 | for an object other than the root, the same promises as `Register` |
| ObjectRegistry.Registry.RegisterStrict | mr_object.c:202-211 | as `Register`, but fails also on a missing directory segment; every registration it accepts is found again by its path |
| ObjectRegistry.Registry.RegisterStrictBelowRoot | mr_object.c:204-210 | for an object other than the root, the same promises as `RegisterStrict` |
| ObjectRegistry.Registry.Unregister | mr_object.c:220-231 | returns 0; the state is `Detach`; the object is deleted from its parent's children at its one position; its own children and their parent pointers are untouched; the invariant holds |
| ObjectRegistry.Registry.ParentGet | mr_object.c:240-246 | a registered object's parent pointer is set and names the object whose child list holds it |
| ObjectRegistry.Registry.TreePrint | mr_object.c:255-262 | the dump of the given object, or of the root when given NULL, from column 0 |

## Left out

- Interrupt masking (mr_object.c:207-209, 225-229) is a no-op hook. The operations are modelled as plain sequential methods.
- `MR_OBJECT_PRINTF` output and its formatting (`%-*s` padding, `\r\n`) are not modelled. The dump returns one `Line(indent, name)` per printed line.
- `MR_OBJECT_ASSERT` compiles to nothing. The magic checks at mr_object.c:205, 223 and 243 are preconditions of the methods (the NULL checks at mr_object.c:189, 204, 222 and 242 disappear with indices and sequences, below). What the code does when they are violated is not modelled.
  - For example, unregistering an object twice is not modelled. The memory part of it, removing a self-looped cell, is `Lists.RemoveSelfLoopedIsNoop`.
- NULL object and path arguments are not modelled: objects are arena indices and paths are sequences.
- Registering `root_object` itself is not modelled as the code does it. Callers can reach the root through `mr_object_parent_get` of a top-level object (mr_object.c:245). OBJECT_INIT never sets its magic, so the guard at mr_object.c:205 lets it through, and the code makes the root its own child. `Register` and `RegisterStrict` reject it instead (see Findings).
- `ObjectRegistry.Registry.TreePrint`: requires the dumped object's `clist` to be initialised. For an object that was never registered, mr_object.c:172-175 follows a NULL `next`, and that is not modelled.
- `strncpy` zero padding and the terminating NUL are not modelled. A name is its truncated character sequence, and a C string is its characters before the NUL. Each Dafny `char` stands for one C `char`, one byte, so every count of characters here (the 16 of a name buffer, mr_object.h:23 and 42) is a count of bytes; multi-byte encodings are not modelled.
- `CONTAIN_OF` byte offsets are not modelled; a cell names its owner.
- Objects come from a fixed arena of `count` objects beside the root, all in zeroed storage (magic 0, NULL links), as static C objects are. Objects holding garbage before their first registration are not modelled.
- `ObjectRegistry.Registry.ObjectTreePrint`: the `int level` is an unbounded `nat`, so overflow on a tree deeper than about 400 million levels is not modelled.
- `ObjectRegistry.Registry.FindFromParent`, `ObjectRegistry.Registry.NextParentFindFromPath`, `ObjectRegistry.Registry.FindByPath` and `ObjectRegistry.Registry.ObjectTreePrint`: the preconditions ask only for what the walk reads. For the first two that is a well-formed child list at the parent. For the recursive walkers it is the `Walkable` part of the invariant, not all of it.
- A registration whose directory segment names no child is not rejected by the code (mr_object.c:123-125, 136-142): the segment is consumed, and the object is attached under the last matched ancestor. `Register` follows the code. `RegisterStrict` rejects such a path instead of consuming the segment (see Findings).
- Unregistering an object that still has children is allowed, as in the code (mr_object.c:226-228). The children stay attached to the unregistered object.

## Findings

| source | as written | input that shows it | evidently intended | confidence | as-written member | corrected member |
|---|---|---|---|---|---|---|
| mr_object.c:123-125, 133-144 | a directory segment that names no child is consumed, and the object is attached under the last matched ancestor, named by the rest of the path after the missing segment ("q" for "q/q", "b/c" for "a/b/c") | with no child "q" under the root, `register(o, "q/q")` returns 0 and attaches `o` under the root as "q"; `find("q/q")` then descends into `o` and returns NULL | a missing directory segment makes `register` fail, so that every path it accepts finds the object again | not executed | Hierarchy.RoundTripCounterexample | ObjectRegistry.Registry.RegisterStrict |
| mr_object.c:11-18, 202-211 | `root_object` gets no magic, so `register` accepts it, and with a plain name that the root has no child of it inserts the root's `list` before its own `clist` | `register(mr_object_parent_get(o), "x")` for a top-level object `o`, with no child "x" under the root: the root becomes its own child and parent, and `tree_print(NULL)` recurses without end | `register` rejects `root_object`, so that the objects stay a tree under the root and every dump ends | not executed | Hierarchy.RootUnderItself | ObjectRegistry.Registry.Register |
