# pcontainer's persistent vector, in Dafny

`pcontainer.PVector` is a persistent vector of arbitrary values. Its storage is a 32-way
radix trie.
- A trie node has 32 slots and a status byte laid out `T0LLLLLL`: the transient bit and the
  number of occupied slots.
- A leaf (`shift == 0`) stores values. A branch stores child nodes.
- Index `idx` is located by the digits `(idx >> shift) & 31`.

A vector handle is the value `PVector{root, len, shift, transient}`. `Update` and `PushBack`
return a new handle. In persistent mode they copy every node they change (copy-on-write). In
transient mode they write in place into nodes that carry the transient bit, and copy the
others. `ConvertTransient` only flips the handle's mode. `ConvertPersistent` clears the
transient bit of every node the trie reaches.

## How the model is built

- **Heap.** Go's `*node` objects live in the class `Nodes.Store`. Its field `nodes` is a map
  from addresses (`Trie.Ptr`) to node records (`Trie.Node`: 32 slots and the `bv8` status),
  and the node methods update that map in place. `next` is the first address never handed
  out, so `newNode` returns an address no one holds. Sharing between handles, and the
  in-place reuse of `clone`, stay visible as equal addresses.
- **Slots.** `Go interface{}` slots become `Trie.Slot`: `Empty`, `Val(v)` or `Child(ptr)`.
  The wrong-kind type assertions are ruled out by the invariant `Trie.Valid`.
- **Meaning of a trie.** `Trie.Valid(h, p, shift)` is the shape invariant:
  - 32 slots, a well-formed status, and slots `[len, 32)` empty;
  - branches have at least one child, and every child but the last is full;
  - children reach disjoint sets of nodes and never reach their parent;
  - a persistent node has only persistent children.

  `Trie.Elems(h, p, shift)` is the sequence of values the trie holds.
- **Operations.** Every node function that changes state is a `Nodes.Store` method,
  following its statements; `len` and `isTransient` are functions on the status byte and the
  node record. The handle functions are `Vector` methods taking the store. Each method is
  proved against heap predicates that tie the new heap to the old one, level by level:
  `Edits.CloneOf`, `Steps.UpdatedTo`, `Steps.ChildPushed`, `Steps.Pushed` and
  `Freezing.Frozen`.
- **Handles.** `Vector` models the handle as a datatype, with `Vector.Inv` (the root is a
  valid trie holding `len` values, persistent in persistent mode) and `Vector.Contents`.
- **Isolation.** `Vector.Preserved` says which old nodes an operation may have changed: none in
  persistent mode, only transient ones in transient mode. `Vector.Untouched` turns that into
  the isolation guarantee: a persistent handle keeps its values whatever is done through other
  handles. `Edits.Keeps` is the tighter frame of `Vector.Update` and `Vector.PushBack`: only
  transient nodes that the vector's own trie reaches change, so by `Vector.Separate` a vector
  that shares no node with it keeps its values in either mode. The contents an operation
  produces are the same in both modes, because the contracts of `Vector.Update` and
  `Vector.PushBack` do not depend on the mode.

File by file:
- `status.dfy`: the status byte.
- `radix.dfy`: digit and capacity arithmetic.
- `blocks.dfy`: concatenation of blocks.
- `trie.dfy`: heap, validity, contents, reachability.
- `edits.dfy` and `steps.dfy`: what one level of `clone`/`update`/`pushBack` does to the heap.
- `freeze.dfy`: `convertPersistent` as a function of the heap.
- `nodes.dfy`: the node methods.
- `vector.dfy`: the handle.

## Model

| member | source | states |
|---|---|---|
| Status.Layout | pvector.go:13-20 | a well-formed status byte is exactly its transient bit OR its count, and the bit is set iff the byte is at least 0x80 |
| Status.Fresh | pvector.go:23-29 | a new node's status is well formed, has count 0, and is transient exactly as requested |
| Status.IncLen | pvector.go:35-37 | `status++` below 32 adds one to the count and never disturbs the transient bit |
| Status.Freeze | pvector.go:47 | `status &= lenMask` clears the transient bit and keeps the count; on a persistent well-formed byte it changes nothing |
| Status.Cloned | pvector.go:68-70 | a clone's status has the requested mode and the original count, and equals the original when the modes agree |
| Status.Len | pvector.go:31-33 | `len` reads the low six bits of the status, so the count is below 64; by Status.Layout it does not depend on the transient bit |
| Radix.Digit | pvector.go:58 | `(idx >> shift) & branchingMask` is a slot number below 32 |
| Radix.DigitOfRelative | pvector.go:57-58 | the digit `(idx >> shift) & 31` is the slot of `idx` relative to the node, and the offset within that slot is the index relative to the child |
| Radix.LeafDigit | pvector.go:60 | at shift 0 each slot holds one value and the digit is `idx mod 32` |
| Radix.WidthUp | pvector.go:150-155 | one level up, a slot covers exactly what a whole node covered |
| Trie.Size | pvector.go:98-99 | a valid trie holds at most `32^(shift/5+1)` values, and exactly that many iff all 32 slots are taken and the last child is full: the condition under which `pushBack` overflows |
| Trie.AllPersistent | pvector.go:43-46 | every node a persistent node reaches is persistent, which is why `convertPersistent` may stop at a persistent node |
| Trie.LeafElems | pvector.go:56-61 | the values of a valid leaf are its occupied slots, in order |
| Trie.UpdateBlock | pvector.go:80-81 | overwriting one position of a child's values overwrites the corresponding position of its parent's values |
| Freezing.Persisted | pvector.go:47 | a persisted node keeps its slots and count and is not transient |
| Freezing.FreezeValid | pvector.go:43-54 | after `convertPersistent` the trie is still valid, holds the same values, and every node it reaches is persistent |
| Freezing.FreezePersistent | pvector.go:44-46 | `convertPersistent` on a persistent trie changes nothing |
| Freezing.FreezeIdempotent | pvector.go:43-54 | `convertPersistent` twice is `convertPersistent` once |
| Freezing.FreezeTransientOnly | pvector.go:43-54 | `convertPersistent` changes transient nodes only |
| Freezing.FrozenStep | pvector.go:51-53 | one turn of the loop: the child in slot `i` is still valid part way through, and converting it advances the heap from "first `i` children converted" to "first `i+1`" |
| Edits.CloneGrows | pvector.go:63-72 | a clone only adds a node: it is the original node or a new address holding the original slots |
| Edits.NewRoot | pvector.go:150-155 | the new root holding the full old root and the overflow spine is a valid trie one level up holding the old values followed by the spine's |
| Steps.UpdateLeaf | pvector.go:76-78 | at a leaf, writing `v` into slot `idx & 31` of the clone gives a valid leaf holding the old values with position `idx mod 32` replaced |
| Steps.UpdateJoin | pvector.go:80-82 | writing the updated child back into the clone gives a valid branch holding the old values with position `idx` replaced, and changes only transient nodes of the old branch |
| Steps.PushLeaf | pvector.go:86-88 | `pushBack` at a leaf overflows iff the leaf is full, and otherwise appends `v` |
| Steps.PushSprout | pvector.go:89-91 | when the last child overflowed and the branch is full, the result is a new branch holding `v` alone, with no old node changed |
| Steps.PushAppend | pvector.go:89-91 | when the last child overflowed and the branch has room, the clone holds the old values followed by `v` |
| Steps.PushJoin | pvector.go:93-95 | when the last child did not overflow, the clone with the new last child holds the old values followed by `v` |
| Nodes.Store.NewNode | pvector.go:23-29 | adds an empty node, tagged as requested, at an address not in use; nothing else changes |
| Nodes.Store.IncLen | pvector.go:35-37 | bumps one node's count; nothing else changes |
| Nodes.Store.Set | pvector.go:77 | overwrites one slot of one node; nothing else changes |
| Nodes.Store.Clone | pvector.go:63-72 | returns the same node iff the mode and the node are both transient; otherwise a new node with the same slots and count and the requested tag; no old node changes |
| Nodes.Store.At | pvector.go:56-61 | the loop returns the value the trie holds at `idx` (relative to the trie's span) |
| Nodes.Store.Update | pvector.go:74-83 | returns a valid trie tagged with the mode holding the old values with position `idx` replaced by `v`; only transient nodes of the old trie changed, and only in transient mode |
| Nodes.Store.PushBackChild | pvector.go:98-109 | overflows iff all 32 slots were taken; then a new node holds the child alone, otherwise the clone gets it in its first free slot |
| Nodes.Store.PushBack | pvector.go:85-96 | overflows iff the trie was full; then a new trie holds `v` alone and no old node changed; otherwise the returned trie holds the old values followed by `v`; only transient nodes changed, and only in transient mode |
| Nodes.Store.ReplaceLast | pvector.go:93-95 | the clone of the branch with the new last child holds the old values followed by `v` |
| Nodes.Store.ConvertPersistent | pvector.go:43-54 | the heap afterwards is exactly `Frozen`: every node the trie reaches loses its transient bit, and no other node changes |
| Nodes.Store.ConvertChildren | pvector.go:51-53 | after the loop over the occupied slots, the whole trie is frozen |
| Vector.LenIsSize | pvector.go:119-122 | `Len` is the number of values the vector holds |
| Vector.EmptyInv | pvector.go:111-117 | the zero value `PVector{}` is a valid, empty vector |
| Vector.Height | pvector.go:145-155 | above the leaves, `32^(shift/5) < len <= 32^(shift/5+1)`, so `at` walks down exactly `shift/5` branches |
| Vector.Untouched | pvector.go:158-163 | a persistent vector keeps its invariant and its values across any change that touches only transient nodes |
| Vector.Separate | pvector.go:63-67 | after a change confined to the transient nodes one vector reaches, a vector that reaches none of them keeps its invariant and its values |
| Vector.At | pvector.go:124-130 | an error exactly when `idx < 0` or `idx >= len`; otherwise the value at `idx` |
| Vector.Update | pvector.go:132-138 | an error exactly when out of range, with the receiver returned and the heap unchanged; otherwise the same length, shift and mode, with position `idx` replaced by `v`; no node changes in persistent mode, and in transient mode only transient nodes the vector's own trie reaches |
| Vector.PushBack | pvector.go:140-156 | one value longer, same mode, `v` after the old values; the shift grows by 5 exactly when the old root was full, and the new root then has 2 children: the old root in slot 0 and, in slot 1, a new spine holding exactly `v`; no node changes in persistent mode, and in transient mode only transient nodes the vector's own trie reaches; pushing onto the empty vector changes no old node |
| Vector.GrowRoot | pvector.go:150-155 | the new root is a valid trie one level up, tagged with the mode, with 2 children (the old root in slot 0, the overflow spine in slot 1), holding the old root's values followed by the spine's, the spine's own values unchanged; no old node changes |
| Vector.ConvertTransient | pvector.go:158-163 | the same root, length and shift, in transient mode |
| Vector.ConvertTransientInv | pvector.go:158-163 | converting to transient keeps the invariant and the values |
| Vector.ConvertPersistent | pvector.go:165-169 | the vector is persistent afterwards with the same root, length, shift and values; the heap is `Frozen` of the root, so only transient nodes changed |
| Vector.ConvertPersistentIdempotent | pvector.go:165-169 | converting twice is converting once, and converting a persistent vector changes nothing |
| Vector.PushTwo | pvector.go:140-156 | pushing 1 and 2 onto the empty vector holds `[1, 2]` |
| Vector.EditCopy | pvector.go:132-163 | a transient copy of `[1, 2]`, after pushing 3 and 4 and overwriting position 1 with 20, holds `[1, 20, 3, 4]`, and only transient nodes changed |
| Vector.EditTransiently | pvector.go:158-169 | a transient copy, after two pushes, an overwrite and freezing, holds `[1, 20, 3, 4]`, while the vector it was copied from still holds `[1, 2]` |
| Vector.TransientSession | pvector.go:132-169 | after a later persistent overwrite, each of the three handles holds exactly the writes made through it |

## Left out

- `String()` (pvector.go:171-182) is not modelled: it is text formatting of arbitrary values. `Vector.Contents` gives the values in order.
- Error values are a flag (`Vector.Update`) or `None` (`Vector.At`). The `fmt.Errorf` message text is not modelled.
- Machine widths are not modelled. `len` and `idx` are unbounded integers, `shift` an unbounded natural. Go's `int` overflow and the `uint8` shift reaching 256 are therefore not represented.
- Vector.ConvertPersistent: requires a non-nil root. The Go method calls `root.convertPersistent` unconditionally, and `isTransient` then reads the status of a nil node and panics.
- Stale transient handles are not specified. After a transient `Update` or `PushBack`, an older transient handle on the same nodes may see the change. At the handle level the model only states, through `Vector.Preserved` and `Edits.Keeps`, that just transient nodes of the written vector's trie changed. It claims nothing about such handles.
- The node array is not an `array` object. Each node is a record in the store's map, and a write replaces the record at its address. Go nodes have exactly one field array each, so aliasing is still captured by addresses.
- Nodes.Store.ReplaceLast, Nodes.Store.ConvertChildren, Vector.GrowRoot: these are parts of `pushBack`, `convertPersistent` and `PushBack` split into their own methods. Their statements are the Go statements, in the same order.
- Status.IsTransient, Trie.Node.Len, Trie.Node.IsTransient, Vector.Len: accessors (pvector.go:31-33, 39-41, 119-122) with no contract of their own. Status.Layout states what `len` and `isTransient` read, and Vector.LenIsSize states what `Len` returns.
- Garbage collection, benchmarks and concurrency are not modelled. The code has no concurrency.
