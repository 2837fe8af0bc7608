/** `PVector`, the value users hold: a root pointer (nil for the empty vector), the number of
    values, the shift of the root and the mode. Its methods take the vector by value and return
    a new one; the nodes they allocate or change live in the `Store`. */
module Vector {
  import Status
  import opened Radix
  import opened Trie
  import opened Edits
  import opened Freezing
  import opened Nodes

  datatype Option<T> = None | Some(value: T)

  /** Go's `PVector{root, len, shift, transient}`; `None` is the nil root. */
  datatype PVector = PVector(root: Option<Ptr>, len: int, shift: nat, transient: bool)

  /** The empty vector, Go's zero value `PVector{}`. */
  const Empty: PVector := PVector(None, 0, 0, false)

  /** What a vector needs of the heap: the nil root goes with no values and shift 0; otherwise
      the root is a valid trie at `shift` holding `len` values, and in persistent mode it is a
      persistent node (and so is everything it reaches). Above the leaves the root holds more
      than one slot's worth of values: a level is only added when the root overflows. */
  ghost predicate Inv<T>(h: Heap<T>, pv: PVector) {
    (pv.root.None? ==> pv.len == 0 && pv.shift == 0) &&
    (pv.shift > 0 ==> Width(pv.shift) < pv.len) &&
    (pv.root.Some? ==>
       Valid(h, pv.root.value, pv.shift) && |Elems(h, pv.root.value, pv.shift)| == pv.len &&
       (!pv.transient ==> !h[pv.root.value].IsTransient()))
  }

  /** The values of the vector, in order. */
  ghost function Contents<T>(h: Heap<T>, pv: PVector): seq<T> {
    if pv.root.None? then [] else Elems(h, pv.root.value, pv.shift)
  }

  /** Going from `h` to `h'` changed no node, except, in transient mode, transient ones. */
  ghost predicate Preserved<T>(h: Heap<T>, h': Heap<T>, t: bool) {
    forall r :: r in h ==> r in h' && (h'[r] == h[r] || (t && h[r].IsTransient()))
  }

  /** `Len`: the number of values. */
  function Len(pv: PVector): int {
    pv.len
  }

  /** A vector in invariant counts its values. */
  lemma LenIsSize<T>(h: Heap<T>, pv: PVector)
    requires Inv(h, pv)
    ensures Len(pv) == |Contents(h, pv)| && Len(pv) >= 0
  {
  }

  /** The height of a vector fits its length: above the leaves, `32^(shift/5) < len <=
      32^(shift/5 + 1)`, so `at` walks down exactly `shift / 5` branches. */
  lemma Height<T>(h: Heap<T>, pv: PVector)
    requires Inv(h, pv) && pv.shift > 0
    ensures pv.shift % BranchingBit == 0
    ensures Pow32(pv.shift / BranchingBit) < pv.len <= Pow32(pv.shift / BranchingBit + 1)
  {
    Size(h, pv.root.value, pv.shift);
  }

  /** The empty vector is in invariant in every heap and holds nothing. */
  lemma EmptyInv<T>(h: Heap<T>)
    ensures Inv(h, Empty) && Contents(h, Empty) == [] && Len(Empty) == 0
  {
  }

  /** `Preserved` composes. */
  lemma PreservedTrans<T>(h0: Heap<T>, h1: Heap<T>, h2: Heap<T>, t: bool)
    requires Preserved(h0, h1, t) && Preserved(h1, h2, t)
    ensures Preserved(h0, h2, t)
  {
    forall r | r in h0 ensures r in h2 && (h2[r] == h0[r] || (t && h0[r].IsTransient())) {
      if h1[r] != h0[r] {
        assert t && h0[r].IsTransient();
      }
    }
  }

  /** Isolation of persistent vectors: whatever another vector does, as long as it changes
      transient nodes only, a persistent vector keeps its invariant and its values. This is why
      `ConvertTransient` followed by in-place updates leaves the vector it started from alone. */
  lemma {:induction false} Untouched<T>(h: Heap<T>, h': Heap<T>, pv: PVector, t: bool)
    requires Inv(h, pv) && !pv.transient && Preserved(h, h', t)
    ensures Inv(h', pv) && Contents(h', pv) == Contents(h, pv)
  {
    if pv.root.Some? {
      var p, shift := pv.root.value, pv.shift;
      forall r | Reaches(h, p, shift, r) ensures (r in h <==> r in h') && (r in h ==> h'[r] == h[r]) {
        AllPersistent(h, p, shift, r);
      }
      Frame(h, h', p, shift);
      assert Reaches(h, p, shift, p);
    }
  }

  /** Vectors that share no node do not see each other's writes: after a change confined to
      the nodes `a` reaches, a vector `b` whose trie reaches none of them keeps its invariant
      and its values, in either mode. */
  lemma {:induction false} Separate<T>(h: Heap<T>, h': Heap<T>, a: PVector, b: PVector)
    requires Inv(h, a) && Inv(h, b) && a.root.Some?
    requires b.root.Some? ==>
               forall r :: Reaches(h, b.root.value, b.shift, r) ==> !Reaches(h, a.root.value, a.shift, r)
    requires Keeps(h, h', a.root.value, a.shift, a.transient)
    ensures Inv(h', b) && Contents(h', b) == Contents(h, b)
  {
    if b.root.Some? {
      var p, shift := b.root.value, b.shift;
      forall r | Reaches(h, p, shift, r) ensures (r in h <==> r in h') && (r in h ==> h'[r] == h[r]) {
        ReachInHeap(h, p, shift, r);
      }
      Frame(h, h', p, shift);
      assert Reaches(h, p, shift, p);
    }
  }

  /** `At(idx)`: the value at `idx`, or an error exactly when `idx` is outside `[0, len)`. */
  method At<T>(s: Store<T>, pv: PVector, idx: int) returns (r: Option<T>)
    requires Inv(s.nodes, pv)
    ensures r.None? <==> idx < 0 || idx >= pv.len
    ensures r.Some? ==> 0 <= idx < |Contents(s.nodes, pv)| && r.value == Contents(s.nodes, pv)[idx]
  {
    if idx < 0 || idx >= pv.len {
      return None;
    }
    Size(s.nodes, pv.root.value, pv.shift);
    RelativeAtRoot(idx, pv.shift);
    var x := s.At(pv.root.value, idx, pv.shift);
    return Some(x);
  }

  /** `Update(idx, v)`: out of range, the same vector and an error; otherwise a vector of the
      same length, shift and mode whose values are the old ones with `idx` replaced by `v`. A
      persistent vector changes no node; a transient one changes only transient nodes. */
  method Update<T>(s: Store<T>, pv: PVector, idx: int, v: T) returns (r: PVector, err: bool)
    requires s.Ok() && Inv(s.nodes, pv)
    modifies s
    ensures s.Ok() && Inv(s.nodes, r)
    ensures err <==> idx < 0 || idx >= pv.len
    ensures err ==> r == pv && s.nodes == old(s.nodes) && s.next == old(s.next)
    ensures !err ==> r.len == pv.len && r.shift == pv.shift && r.transient == pv.transient &&
                     0 <= idx < |Contents(old(s.nodes), pv)| &&
                     Contents(s.nodes, r) == Contents(old(s.nodes), pv)[idx := v]
    ensures Preserved(old(s.nodes), s.nodes, pv.transient)
    ensures pv.root.Some? ==> Keeps(old(s.nodes), s.nodes, pv.root.value, pv.shift, pv.transient)
  {
    if idx < 0 || idx >= pv.len {
      return pv, true;
    }
    ghost var h0 := s.nodes;
    Size(s.nodes, pv.root.value, pv.shift);
    RelativeAtRoot(idx, pv.shift);
    var q := s.Update(pv.root.value, idx, v, pv.shift, pv.transient);
    r, err := PVector(Some(q), pv.len, pv.shift, pv.transient), false;
    assert Inv(s.nodes, r) by {
      assert Elems(s.nodes, q, pv.shift) == Elems(h0, pv.root.value, pv.shift)[idx := v];
    }
  }

  /** The five writes that build the new root of an overflowing `PushBack` leave the record
      `Rooted(a, c, t)` at its address. */
  lemma RootBuilt<T>(h': Heap<T>, q: Ptr, a: Ptr, c: Ptr, t: bool, h: Heap<T>)
    requires var n0 := Node(EmptySlots(), Status.Fresh(t));
             var n1 := n0.(children := n0.children[0 := Child(a)]);
             var n2 := n1.(status := Status.IncLen(n1.status));
             var n3 := n2.(children := n2.children[1 := Child(c)]);
             h == h'[q := n0][q := n1][q := n2][q := n3][q := n3.(status := Status.IncLen(n3.status))]
    ensures h == h'[q := Rooted(a, c, t)]
  {
  }

  /** `PushBack(v)`: a vector one longer, in the same mode, with `v` after the old values. The
      shift grows by 5 exactly when the old root was full, and the new root then has two
      children. A persistent vector changes no node; a transient one changes only transient
      nodes. */
  method PushBack<T>(s: Store<T>, pv: PVector, v: T) returns (r: PVector)
    requires s.Ok() && Inv(s.nodes, pv)
    modifies s
    ensures s.Ok() && Inv(s.nodes, r) && r.root.Some?
    ensures r.len == pv.len + 1 && r.transient == pv.transient
    ensures Contents(s.nodes, r) == Contents(old(s.nodes), pv) + [v]
    ensures r.shift == (if pv.root.Some? && pv.len == Span(pv.shift) then pv.shift + BranchingBit else pv.shift)
    ensures r.shift != pv.shift ==> s.nodes[r.root.value].Len() == 2
    ensures r.shift != pv.shift ==> pv.root.Some? && s.nodes[r.root.value].children[0] == Child(pv.root.value)
    ensures r.shift != pv.shift ==> s.nodes[r.root.value].children[1].Child? &&
                                    Elems(s.nodes, s.nodes[r.root.value].children[1].ptr, pv.shift) == [v]
    ensures Preserved(old(s.nodes), s.nodes, pv.transient)
    ensures pv.root.Some? ==> Keeps(old(s.nodes), s.nodes, pv.root.value, pv.shift, pv.transient)
    ensures pv.root.None? ==> Grows(old(s.nodes), s.nodes)
  {
    var t := pv.transient;
    var root: Ptr;
    if pv.root.None? {
      root := s.NewNode(t);
      assert Valid(s.nodes, root, 0) && Elems(s.nodes, root, 0) == [];
    } else {
      root := pv.root.value;
    }
    ghost var h1, next1 := s.nodes, s.next;
    assert Preserved(old(s.nodes), h1, t);
    var newn, overflowed := s.PushBack(root, v, pv.shift, t);
    assert Preserved(h1, s.nodes, t);
    PreservedTrans(old(s.nodes), h1, s.nodes, t);
    if pv.root.None? {
      KeepsNewLeaf(old(s.nodes), h1, s.nodes, root, t);
    }
    if !overflowed {
      return PVector(Some(newn), pv.len + 1, pv.shift, t);
    }
    ghost var h2 := s.nodes;
    var newroot := GrowRoot(s, root, newn, t, h1, pv.shift, next1);
    WidthUp(pv.shift);
    assert Preserved(h2, s.nodes, t);
    PreservedTrans(old(s.nodes), h2, s.nodes, t);
    KeepsThenGrows(h1, h2, s.nodes, root, pv.shift, t);
    r := PVector(Some(newroot), pv.len + 1, pv.shift + BranchingBit, t);
  }

  /** The end of an overflowing `PushBack`: a new root, tagged with the mode, holding the old
      full root `a` in slot 0 and the overflow node `c` in slot 1. It is a valid trie one level
      up holding the values of `a` followed by those of `c`, and no old node changes. */
  method GrowRoot<T>(s: Store<T>, a: Ptr, c: Ptr, t: bool, ghost h0: Heap<T>, ghost shift: nat, ghost next0: Ptr)
      returns (q: Ptr)
    requires s.Ok() && Rooting(h0, a, s.nodes, s.next, c, shift, t, next0)
    modifies s
    ensures s.Ok() && Grows(old(s.nodes), s.nodes)
    ensures Valid(s.nodes, q, shift + BranchingBit) && s.nodes[q].Len() == 2 && s.nodes[q].IsTransient() == t
    ensures Elems(s.nodes, q, shift + BranchingBit) == Elems(h0, a, shift) + Elems(old(s.nodes), c, shift)
    ensures s.nodes[q].children[0] == Child(a) && s.nodes[q].children[1] == Child(c)
    ensures Elems(s.nodes, c, shift) == Elems(old(s.nodes), c, shift)
  {
    ghost var h' := s.nodes;
    q := s.NewNode(t);
    s.Set(q, 0, Child(a));
    s.IncLen(q);
    s.Set(q, 1, Child(c));
    s.IncLen(q);
    RootBuilt(h', q, a, c, t, s.nodes);
    NewRoot(h0, a, h', q, c, shift, t, next0);
    RootNew(h0, a, h', q, c, shift, t, next0, Rooted(a, c, t));
  }

  /** `ConvertTransient`: the same root, length and shift, in transient mode. */
  function ConvertTransient(pv: PVector): (r: PVector)
    ensures r.root == pv.root && r.len == pv.len && r.shift == pv.shift && r.transient
  {
    pv.(transient := true)
  }

  /** Converting to transient keeps the invariant and the values. */
  lemma ConvertTransientInv<T>(h: Heap<T>, pv: PVector)
    requires Inv(h, pv)
    ensures Inv(h, ConvertTransient(pv)) && Contents(h, ConvertTransient(pv)) == Contents(h, pv)
  {
  }

  /** `ConvertPersistent`: the vector becomes persistent by clearing the transient bit of every
      node its root reaches; the heap is `Frozen`, so no other node changes, and the values stay
      the same. The Go method dereferences the root, so it needs a non-nil one. */
  method ConvertPersistent<T>(s: Store<T>, pv: PVector) returns (r: PVector)
    requires s.Ok() && Inv(s.nodes, pv) && pv.root.Some?
    modifies s
    ensures s.Ok() && s.next == old(s.next) && Inv(s.nodes, r) && !r.transient
    ensures r.root == pv.root && r.len == pv.len && r.shift == pv.shift
    ensures s.nodes == Frozen(old(s.nodes), pv.root.value, pv.shift)
    ensures Contents(s.nodes, r) == Contents(old(s.nodes), pv)
    ensures Preserved(old(s.nodes), s.nodes, true)
  {
    ghost var h0 := s.nodes;
    r := pv.(transient := false);
    s.ConvertPersistent(pv.root.value, pv.shift);
    FreezeValid(h0, pv.root.value, pv.shift);
    FreezeTransientOnly(h0, pv.root.value, pv.shift);
    assert Reaches(h0, pv.root.value, pv.shift, pv.root.value);
  }

  /** Converting a vector to persistent twice is converting it once, and converting a vector
      that is persistent already changes nothing. */
  lemma ConvertPersistentIdempotent<T>(h: Heap<T>, pv: PVector)
    requires Inv(h, pv) && pv.root.Some?
    ensures Frozen(Frozen(h, pv.root.value, pv.shift), pv.root.value, pv.shift) == Frozen(h, pv.root.value, pv.shift)
    ensures !pv.transient ==> Frozen(h, pv.root.value, pv.shift) == h
  {
    FreezeIdempotent(h, pv.root.value, pv.shift);
    if !pv.transient {
      FreezePersistent(h, pv.root.value, pv.shift);
    }
  }

  /** The first part of the session below: 1 and 2 pushed onto the empty vector. */
  method PushTwo(s: Store<int>) returns (pv: PVector)
    requires s.Ok()
    modifies s
    ensures s.Ok() && Inv(s.nodes, pv) && !pv.transient && Contents(s.nodes, pv) == [1, 2]
  {
    EmptyInv(s.nodes);
    var v := PushBack(s, Empty, 1);
    pv := PushBack(s, v, 2);
  }

  /** The transient part of the session below: a transient copy of `pv` gets 3 and 4 pushed
      and position 1 overwritten with 20; only transient nodes change. */
  method EditCopy(s: Store<int>, pv: PVector) returns (w: PVector)
    requires s.Ok() && Inv(s.nodes, pv) && Contents(s.nodes, pv) == [1, 2]
    modifies s
    ensures s.Ok() && Inv(s.nodes, w) && w.root.Some? && Contents(s.nodes, w) == [1, 20, 3, 4]
    ensures Preserved(old(s.nodes), s.nodes, true)
  {
    ghost var h0 := s.nodes;
    w := ConvertTransient(pv);
    ConvertTransientInv(s.nodes, pv);
    w := PushBack(s, w, 3);
    ghost var h1 := s.nodes;
    assert Contents(h1, w) == [1, 2, 3];
    w := PushBack(s, w, 4);
    PreservedTrans(h0, h1, s.nodes, true);
    ghost var h2 := s.nodes;
    assert Contents(h2, w) == [1, 2, 3, 4];
    var err;
    w, err := Update(s, w, 1, 20);
    PreservedTrans(h0, h2, s.nodes, true);
  }

  /** The transient copy of `pv`, edited and frozen back, holds its writes, and `pv` itself
      still holds its values. */
  method EditTransiently(s: Store<int>, pv: PVector) returns (w: PVector)
    requires s.Ok() && Inv(s.nodes, pv) && !pv.transient && Contents(s.nodes, pv) == [1, 2]
    modifies s
    ensures s.Ok() && Inv(s.nodes, pv) && Contents(s.nodes, pv) == [1, 2]
    ensures Inv(s.nodes, w) && !w.transient && Contents(s.nodes, w) == [1, 20, 3, 4]
  {
    ghost var h0 := s.nodes;
    w := EditCopy(s, pv);
    ghost var h1 := s.nodes;
    w := ConvertPersistent(s, w);
    PreservedTrans(h0, h1, s.nodes, true);
    Untouched(h0, s.nodes, pv, true);
  }

  /** A session in both modes, with integer values: two values pushed persistently, a
      transient copy that gets two more values and an overwrite, frozen back, then overwritten
      once more in persistent mode. Each handle ends up holding exactly the writes made through
      it, in order, and neither the vector taken before the transient phase nor the frozen one
      sees the writes made after it was taken. */
  method TransientSession(s: Store<int>) returns (before: PVector, frozen: PVector, after: PVector)
    requires s.Ok()
    modifies s
    ensures s.Ok() && Inv(s.nodes, before) && Inv(s.nodes, frozen) && Inv(s.nodes, after)
    ensures Contents(s.nodes, before) == [1, 2]
    ensures Contents(s.nodes, frozen) == [1, 20, 3, 4]
    ensures Contents(s.nodes, after) == [1, 20, 3, 40]
  {
    before := PushTwo(s);
    frozen := EditTransiently(s, before);
    ghost var h := s.nodes;
    var err;
    after, err := Update(s, frozen, 3, 40);
    Untouched(h, s.nodes, before, false);
    Untouched(h, s.nodes, frozen, false);
  }
}
