/** Go's `*node` objects and their methods, imperatively. All nodes live in one `Store`, whose
    map `nodes` the node methods update in place; `next` is the first address not yet handed
    out, so that `newNode` always returns a node no one else holds. Each method follows the
    statements of its Go counterpart and is proved against the functions of `Trie`, `Edits`
    and `Freezing`. */
module Nodes {
  import Status
  import opened Radix
  import opened Trie
  import opened Edits
  import opened Freezing
  import opened Steps

  class Store<T> {
    var nodes: Heap<T>
    var next: Ptr

    /** Every node in use has an address below `next`. */
    ghost predicate Ok()
      reads this
    {
      Below(nodes, next)
    }

    /** An empty heap. */
    constructor ()
      ensures nodes == map[] && next == 0 && Ok()
    {
      nodes := map[];
      next := 0;
    }

    /** `newNode(transient)`: an empty node, tagged as asked, at an address not in use. */
    method NewNode(t: bool) returns (q: Ptr)
      requires Ok()
      modifies this
      ensures q == old(next) && q !in old(nodes) && next == old(next) + 1 && Ok()
      ensures nodes == old(nodes)[q := Node(EmptySlots(), Status.Fresh(t))]
    {
      q := next;
      var status: bv8 := 0;
      if t {
        status := status | Status.TransientMask;
      }
      nodes := nodes[q := Node(EmptySlots(), status)];
      next := next + 1;
    }

    /** `incLen`: one more occupied slot. */
    method IncLen(p: Ptr)
      requires Ok() && p in nodes && Status.Ok(nodes[p].status) && nodes[p].Len() < Status.Capacity
      modifies this
      ensures next == old(next) && Ok()
      ensures nodes == old(nodes)[p := old(nodes)[p].(status := Status.IncLen(old(nodes)[p].status))]
    {
      nodes := nodes[p := nodes[p].(status := nodes[p].status + 1)];
    }

    /** `n.children[i] = x`: one slot of node `q` is overwritten. */
    method Set(q: Ptr, i: nat, x: Slot<T>)
      requires Ok() && q in nodes && i < |nodes[q].children|
      modifies this
      ensures next == old(next) && Ok()
      ensures nodes == old(nodes)[q := old(nodes)[q].(children := old(nodes)[q].children[i := x])]
    {
      nodes := nodes[q := nodes[q].(children := nodes[q].children[i := x])];
    }

    /** `clone(transient)`: `p` itself when both it and the mode are transient; otherwise a new
        node, tagged with the mode, with `p`'s slots and count. */
    method Clone(p: Ptr, t: bool) returns (q: Ptr)
      requires Ok() && p in nodes && Status.Ok(nodes[p].status)
      modifies this
      ensures CloneOf(old(nodes), p, t, nodes, q, old(next)) && Ok()
      ensures next == if q == p then old(next) else old(next) + 1
    {
      if t && nodes[p].IsTransient() {
        assert nodes[p := Node(nodes[p].children, Status.Cloned(nodes[p].status, t))] == nodes;
        return p;
      }
      q := NewNode(t);
      var m := nodes[q].(children := nodes[p].children);
      m := m.(status := m.status | (nodes[p].status & Status.LenMask));
      Overwrite(old(nodes), q, Node(EmptySlots(), Status.Fresh(t)), m);
      BelowWrite(nodes, next, q, m);
      nodes := nodes[q := m];
    }

    /** `at(idx, shift)`: walks down the digits of `idx` to a leaf and returns the value the
        trie holds at `idx`, taken relative to the trie's span. */
    method At(p: Ptr, idx: nat, shift: nat) returns (x: T)
      requires Valid(nodes, p, shift) && idx % Span(shift) < |Elems(nodes, p, shift)|
      ensures x == Elems(nodes, p, shift)[idx % Span(shift)]
    {
      var n: Ptr, sh: nat := p, shift;
      while sh > 0
        invariant Valid(nodes, n, sh) && idx % Span(sh) < |Elems(nodes, n, sh)|
        invariant Elems(nodes, n, sh)[idx % Span(sh)] == Elems(nodes, p, shift)[idx % Span(shift)]
        decreases sh
      {
        AtStep(nodes, n, sh, idx);
        n := nodes[n].children[Digit(idx, sh)].ptr;
        sh := sh - BranchingBit;
      }
      AtLeaf(nodes, n, idx);
      x := nodes[n].children[Digit(idx, 0)].value;
    }

    /** `update(idx, v, shift, transient)`: clones the path to `idx` (or, in transient mode,
        reuses its transient nodes) and returns a valid trie, tagged with the mode, holding the
        old values with position `idx` replaced by `v`. Only transient nodes of the old trie
        change, and only in transient mode; the returned trie reaches old nodes of `p` and new
        ones only. */
    method Update(p: Ptr, idx: nat, v: T, shift: nat, t: bool) returns (q: Ptr)
      requires Ok() && Valid(nodes, p, shift) && idx % Span(shift) < |Elems(nodes, p, shift)|
      requires !t ==> !nodes[p].IsTransient()
      modifies this
      ensures Ok() && old(next) <= next
      ensures UpdatedTo(old(nodes), p, shift, idx, v, t, nodes, q, old(next))
      decreases shift
    {
      ghost var h0, next0 := nodes, next;
      q := Clone(p, t);
      ghost var h1, next1 := nodes, next;
      if shift == 0 {
        LeafDigit(idx);
        Set(q, Digit(idx, 0), Val(v));
        UpdateLeaf(h0, p, idx, v, t, h1, q, next0, nodes);
        return;
      }
      UpdateDescend(h0, p, shift, idx, t, h1, q, next0);
      var cidx := Digit(idx, shift);
      var c := Update(nodes[q].children[cidx].ptr, idx, v, Down(shift), t);
      UpdateSlot(h0, p, shift, idx, v, t, h1, q, next0, nodes, c, next1);
      ghost var h2 := nodes;
      Set(q, cidx, Child(c));
      UpdateJoin(h0, p, shift, idx, v, t, h1, q, next0, h2, c, next1, nodes);
    }

    /** `pushBackChild(child, transient)`: puts `x` in the first free slot of `p`'s clone, or,
        when all 32 slots are taken, in a new node, and reports that overflow. */
    method PushBackChild(p: Ptr, x: Slot<T>, t: bool) returns (q: Ptr, overflowed: bool)
      requires Ok() && p in nodes && nodes[p].Shaped()
      modifies this
      ensures Ok() && old(next) <= next
      ensures ChildPushed(old(nodes), p, x, t, nodes, q, overflowed, old(next))
    {
      overflowed := nodes[p].Len() == BranchingFactor;
      if overflowed {
        q := NewNode(t);
      } else {
        q := Clone(p, t);
      }
      Set(q, nodes[q].Len(), x);
      IncLen(q);
    }

    /** `pushBack(v, shift, transient)`: appends `v` below the last child (or at a leaf) and
        returns the new trie and whether it overflowed, as `Pushed` states. */
    method PushBack(p: Ptr, v: T, shift: nat, t: bool) returns (q: Ptr, overflowed: bool)
      requires Ok() && Valid(nodes, p, shift) && (!t ==> !nodes[p].IsTransient())
      modifies this
      ensures Ok() && old(next) <= next
      ensures Pushed(old(nodes), p, shift, v, t, nodes, q, overflowed, old(next))
      decreases shift
    {
      ghost var h0, next0 := nodes, next;
      if shift == 0 {
        q, overflowed := PushBackChild(p, Val(v), t);
        PushLeaf(h0, p, v, t, nodes, q, overflowed, next0);
        return;
      }
      ChildOf(h0, p, shift, h0[p].Last());
      var c, o := PushBack(nodes[p].children[nodes[p].Len() - 1].ptr, v, shift - BranchingBit, t);
      ghost var h2, next2 := nodes, next;
      PushKeepsBranch(h0, p, shift, v, t, h2, c, o, next0);
      if o {
        q, overflowed := PushBackChild(p, Child(c), t);
        if overflowed {
          PushSprout(h0, p, shift, v, t, next0, h2, c, next2, nodes, q);
        } else {
          PushAppend(h0, p, shift, v, t, next0, h2, c, next2, nodes, q);
        }
        return;
      }
      q := ReplaceLast(p, c, t, h0, shift, v, next0);
      overflowed := false;
    }

    /** The end of `pushBack` when the last child did not overflow: the clone of `p` gets the
        new child `c` in its last occupied slot. */
    method ReplaceLast(p: Ptr, c: Ptr, t: bool, ghost h0: Heap<T>, ghost shift: nat, ghost v: T, ghost next0: Ptr)
        returns (q: Ptr)
      requires Ok() && next0 <= next && LastPushed(h0, p, shift, v, t, nodes, c, false, next0)
      modifies this
      ensures Ok() && old(next) <= next
      ensures Pushed(h0, p, shift, v, t, nodes, q, false, next0)
    {
      ghost var h2, next2 := nodes, next;
      PushKeepsBranch(h0, p, shift, v, t, h2, c, false, next0);
      q := Clone(p, t);
      ghost var h3 := nodes;
      PushSlot(h0, p, shift, v, t, next0, h2, c, next2, h3, q);
      Set(q, nodes[q].Len() - 1, Child(c));
      PushJoin(h0, p, shift, v, t, next0, h2, c, next2, h3, q, nodes);
    }

    /** `convertPersistent(shift)`: clears the transient bit of every node the trie reaches,
        stopping at persistent nodes, below which every node is persistent already. */
    method ConvertPersistent(p: Ptr, shift: nat)
      requires Ok() && Valid(nodes, p, shift)
      modifies this
      ensures next == old(next) && Ok()
      ensures nodes == Frozen(old(nodes), p, shift)
      decreases shift, 1
    {
      if !nodes[p].IsTransient() {
        FreezePersistent(nodes, p, shift);
        return;
      }
      ghost var h0 := nodes;
      BelowWrite(nodes, next, p, nodes[p].(status := nodes[p].status & Status.LenMask));
      nodes := nodes[p := nodes[p].(status := nodes[p].status & Status.LenMask)];
      if shift == 0 {
        FrozenLeaf(h0, p);
        return;
      }
      FrozenStart(h0, p, shift);
      ConvertChildren(p, shift, h0);
    }

    /** The loop of `convertPersistent` over the occupied slots of a branch whose own flag is
        already cleared: the children are converted left to right, so that after `i` turns the
        heap is `FrozenUpTo(h0, p, shift, i)`. */
    method ConvertChildren(p: Ptr, shift: nat, ghost h0: Heap<T>)
      requires Ok() && Valid(h0, p, shift) && shift > 0 && nodes == FrozenUpTo(h0, p, shift, 0)
      modifies this
      ensures next == old(next) && Ok()
      ensures nodes == Frozen(h0, p, shift)
      decreases shift, 0
    {
      var i := 0;
      while i < nodes[p].Len()
        invariant Ok() && next == old(next)
        invariant i <= h0[p].Len() && nodes == FrozenUpTo(h0, p, shift, i)
      {
        FrozenStep(h0, p, shift, i);
        ConvertPersistent(nodes[p].children[i].ptr, Down(shift));
        i := i + 1;
      }
      FrozenEnd(h0, p, shift);
    }
  }
}
