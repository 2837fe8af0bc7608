/** The steps of `update` and `pushBack` on the heap, one level of the trie at a time: what
    holds after `clone`, what the recursive call on a child needs, and what writing the new
    child back into the copy gives. The methods of `Nodes.Store` follow Go's statements and
    call these lemmas between them. Settings that bundle many facts are wrapped as
    `(...) == true`, which keeps the verifier from splitting them into conjuncts at each use. */
module Steps {
  import Status
  import opened Radix
  import opened Blocks
  import opened Trie
  import opened Edits

  /** What `update(idx, v, shift, t)` at `p` promises, going from `h0` to `h`: the node `q` it
      returns is valid and tagged with the mode and holds the old values with position
      `idx % Span(shift)` replaced by `v`; only transient nodes `p` reached changed, and only in
      transient mode; `q` reaches old nodes of `p` and new ones only. */
  ghost predicate UpdatedTo<T>(h0: Heap<T>, p: Ptr, shift: nat, idx: nat, v: T, t: bool, h: Heap<T>, q: Ptr, next0: Ptr) {
    (Valid(h0, p, shift) && idx % Span(shift) < |Elems(h0, p, shift)| &&
     Valid(h, q, shift) && h[q].IsTransient() == t &&
     Elems(h, q, shift) == Elems(h0, p, shift)[idx % Span(shift) := v] &&
     Keeps(h0, h, p, shift, t) && Within(h, q, shift, h0, p, shift, next0)) == true
  }

  /** `update` at a leaf, after `clone`: writing `v` into slot `idx & 31` of the copy gives a
      valid leaf, tagged with the mode, holding the old values with position `idx % 32`
      replaced; the copy is `p` or a new node. */
  lemma UpdateLeaf<T>(h0: Heap<T>, p: Ptr, idx: nat, v: T, t: bool, h1: Heap<T>, q: Ptr, next0: Ptr, h3: Heap<T>)
    requires Valid(h0, p, 0) && idx % Span(0) < |Elems(h0, p, 0)| && CloneOf(h0, p, t, h1, q, next0)
    requires q in h1 && Digit(idx, 0) < |h1[q].children|
    requires h3 == h1[q := h1[q].(children := h1[q].children[Digit(idx, 0) := Val(v)])]
    ensures UpdatedTo(h0, p, 0, idx, v, t, h3, q, next0)
  {
    var j, st := Digit(idx, 0), Status.Cloned(h0[p].status, t);
    LeafDigit(idx);
    LeafElems(h0, p);
    CloneGrows(h0, p, t, h1, q, next0);
    var m := Node(h0[p].children[j := Val(v)], st);
    assert h1[q].(children := h1[q].children[j := Val(v)]) == m;
    LeafUpdate(h0, p, h1, q, j, v, st);
    GrowsKeeps(h0, h1, p, 0, t);
    WriteKeeps(h0, h1, p, 0, t, q, m);
    assert Reaches(h0, p, 0, p);
    forall r | Reaches(h3, q, 0, r) ensures Reaches(h0, p, 0, r) || next0 <= r {
    }
  }

  /** `update` at a branch, after `clone`: the child on the path to `idx`, in slot
      `(idx >> shift) & 31` of the copy, is a valid node of the heap holding position
      `idx % Span(shift - 5)`, and persistent in persistent mode. */
  lemma UpdateDescend<T>(h0: Heap<T>, p: Ptr, shift: nat, idx: nat, t: bool, h1: Heap<T>, q: Ptr, next0: Ptr)
    requires (Valid(h0, p, shift) && shift > 0 && idx % Span(shift) < |Elems(h0, p, shift)| &&
              (!t ==> !h0[p].IsTransient()) && CloneOf(h0, p, t, h1, q, next0)) == true
    ensures Digit(idx, shift) < h0[p].Len() && h1[q].children[Digit(idx, shift)] == Child(h0[p].Kid(Digit(idx, shift)))
    ensures Valid(h1, h0[p].Kid(Digit(idx, shift)), Down(shift))
    ensures idx % Span(Down(shift)) < |Elems(h1, h0[p].Kid(Digit(idx, shift)), Down(shift))|
    ensures !t ==> !h1[h0[p].Kid(Digit(idx, shift))].IsTransient()
  {
    var d, s := Digit(idx, shift), Down(shift);
    DigitStep(idx, shift);
    Locate(h0, p, shift, idx % Span(shift), d, idx % Span(s));
    ChildOf(h0, p, shift, d);
    CloneGrows(h0, p, t, h1, q, next0);
    GrowsFrame(h0, h1, h0[p].Kid(d), s);
  }

  /** What the recursive `update` of the child in slot `d` returned: a valid node `c` tagged
      with the mode, holding the child's values with position `idx % Span(shift - 5)` replaced,
      having changed only transient nodes the child reached (in transient mode) and added new
      ones from `next1` on. */
  ghost predicate Updated<T>(h0: Heap<T>, p: Ptr, shift: nat, idx: nat, v: T, t: bool, h1: Heap<T>, q: Ptr, next0: Ptr,
                             h2: Heap<T>, c: Ptr, next1: Ptr) {
    (Valid(h0, p, shift) && shift > 0 && idx % Span(shift) < |Elems(h0, p, shift)| &&
     (!t ==> !h0[p].IsTransient()) && CloneOf(h0, p, t, h1, q, next0) && Below(h1, next1) && next0 <= next1 &&
     Digit(idx, shift) < h0[p].Len() &&
     UpdatedTo(h1, h0[p].Kid(Digit(idx, shift)), Down(shift), idx, v, t, h2, c, next1)) == true
  }

  /** After the recursive `update`, the copy is untouched and the setting `Joining` holds. */
  lemma UpdateRejoin<T>(h0: Heap<T>, p: Ptr, shift: nat, idx: nat, v: T, t: bool, h1: Heap<T>, q: Ptr, next0: Ptr,
                        h2: Heap<T>, c: Ptr, next1: Ptr)
    requires Updated(h0, p, shift, idx, v, t, h1, q, next0, h2, c, next1)
    ensures q in h2 && h2[q] == Node(h0[p].children, Status.Cloned(h0[p].status, t))
    ensures Joining(h0, p, shift, Digit(idx, shift), h2, q, c, Status.Cloned(h0[p].status, t), next0, t)
  {
    var d, s := Digit(idx, shift), Down(shift);
    var k := h0[p].Kid(d);
    UpdateDescend(h0, p, shift, idx, t, h1, q, next0);
    ChildOf(h0, p, shift, d);
    CloneGrows(h0, p, t, h1, q, next0);
    GrowsFrame(h0, h1, k, s);
    if Reaches(h0, k, s, q) {
      ReachInHeap(h0, k, s, q);
    }
    KeepsAfterGrow(h0, h1, h2, k, s, t);
    WithinAfterGrow(h0, h1, h2, c, k, s, next0, next1);
    assert !Reaches(h2, c, s, q);
  }

  /** After the recursive `update`, the slot to write back into is still there in the copy. */
  lemma UpdateSlot<T>(h0: Heap<T>, p: Ptr, shift: nat, idx: nat, v: T, t: bool, h1: Heap<T>, q: Ptr, next0: Ptr,
                      h2: Heap<T>, c: Ptr, next1: Ptr)
    requires Updated(h0, p, shift, idx, v, t, h1, q, next0, h2, c, next1)
    ensures q in h2 && Digit(idx, shift) < |h2[q].children|
  {
    UpdateRejoin(h0, p, shift, idx, v, t, h1, q, next0, h2, c, next1);
  }

  /** `update` at a branch: writing the updated child back into the copy gives a valid branch,
      tagged with the mode, holding the old values with position `idx % Span(shift)` replaced;
      only transient nodes the branch reached changed (in transient mode), and the copy reaches
      only those and new nodes. */
  lemma UpdateJoin<T>(h0: Heap<T>, p: Ptr, shift: nat, idx: nat, v: T, t: bool, h1: Heap<T>, q: Ptr, next0: Ptr,
                      h2: Heap<T>, c: Ptr, next1: Ptr, h3: Heap<T>)
    requires Updated(h0, p, shift, idx, v, t, h1, q, next0, h2, c, next1)
    requires q in h2 && Digit(idx, shift) < |h2[q].children|
    requires h3 == h2[q := h2[q].(children := h2[q].children[Digit(idx, shift) := Child(c)])]
    ensures UpdatedTo(h0, p, shift, idx, v, t, h3, q, next0)
  {
    var d, st := Digit(idx, shift), Status.Cloned(h0[p].status, t);
    UpdateRejoin(h0, p, shift, idx, v, t, h1, q, next0, h2, c, next1);
    assert h2[q].(children := h2[q].children[d := Child(c)]) == Replaced(h0[p], d, c, st);
    UpdateJoined(h0, p, shift, idx, v, t, h1, q, next0, h2, c, next1);
  }

  /** `UpdateJoin`, with the copy written as `Replaced`. */
  lemma UpdateJoined<T>(h0: Heap<T>, p: Ptr, shift: nat, idx: nat, v: T, t: bool, h1: Heap<T>, q: Ptr, next0: Ptr,
                        h2: Heap<T>, c: Ptr, next1: Ptr)
    requires Updated(h0, p, shift, idx, v, t, h1, q, next0, h2, c, next1)
    ensures UpdatedTo(h0, p, shift, idx, v, t, h2[q := Replaced(h0[p], Digit(idx, shift), c, Status.Cloned(h0[p].status, t))], q, next0)
  {
    var d, st := Digit(idx, shift), Status.Cloned(h0[p].status, t);
    UpdateRejoin(h0, p, shift, idx, v, t, h1, q, next0, h2, c, next1);
    Join(h0, p, shift, d, h2, q, c, st, next0, t);
    UpdateContents(h0, p, shift, idx, v, t, h1, q, next0, h2, c, next1);
  }

  /** The blocks of the branch with the updated child in slot `d` flatten to the old contents
      with position `idx % Span(shift)` replaced. */
  lemma UpdateContents<T>(h0: Heap<T>, p: Ptr, shift: nat, idx: nat, v: T, t: bool, h1: Heap<T>, q: Ptr, next0: Ptr,
                          h2: Heap<T>, c: Ptr, next1: Ptr)
    requires Updated(h0, p, shift, idx, v, t, h1, q, next0, h2, c, next1)
    ensures idx % Span(shift) < |Elems(h0, p, shift)|
    ensures Flatten(ElemsOf(h0, h0[p].children, h0[p].Len(), Down(shift))[Digit(idx, shift) := Elems(h2, c, Down(shift))])
            == Elems(h0, p, shift)[idx % Span(shift) := v]
  {
    var d, s := Digit(idx, shift), Down(shift);
    var k, j := h0[p].Kid(d), idx % Span(Down(shift));
    assert Elems(h2, c, s) == Elems(h1, k, s)[j := v];
    UpdateDescend(h0, p, shift, idx, t, h1, q, next0);
    CloneGrows(h0, p, t, h1, q, next0);
    ChildOf(h0, p, shift, d);
    GrowsFrame(h0, h1, k, s);
    UpdateBlock(h0, p, shift, d, j, v);
    DigitStep(idx, shift);
  }

  /** What `pushBackChild(x, t)` at `p` did, going from `h0` to `h`: it reports overflow exactly
      when `p` has all 32 slots taken; it then put `x` in a new node, and otherwise in the first
      free slot of `p`'s clone. */
  ghost predicate ChildPushed<T>(h0: Heap<T>, p: Ptr, x: Slot<T>, t: bool, h: Heap<T>, q: Ptr, o: bool, next0: Ptr) {
    p in h0 && h0[p].Shaped() && Below(h0, next0) && o == (h0[p].Len() == BranchingFactor) &&
    (o ==> q == next0 && h == h0[q := Appended(EmptySlots(), x, Status.Fresh(t))]) &&
    (!o ==> (q == p <==> t && h0[p].IsTransient()) && (q != p ==> q == next0) &&
            h == h0[q := Appended(h0[p].children, x, Status.Cloned(h0[p].status, t))])
  }

  /** What `pushBack(v, shift, t)` at `p` promises, going from `h0` to `h`: the node `q` it
      returns is valid and tagged with the mode; it overflows exactly when `p` was full, and `q`
      then holds `v` alone and is new, with no old node changed; otherwise `q` holds the old
      values followed by `v` and reaches old nodes of `p` and new ones. Only transient nodes
      `p` reached changed, and only in transient mode. */
  ghost predicate Pushed<T>(h0: Heap<T>, p: Ptr, shift: nat, v: T, t: bool, h: Heap<T>, q: Ptr, o: bool, next0: Ptr) {
    (Valid(h, q, shift) && h[q].IsTransient() == t &&
     (o <==> |Elems(h0, p, shift)| == Span(shift)) &&
     Elems(h, q, shift) == (if o then [v] else Elems(h0, p, shift) + [v]) &&
     Keeps(h0, h, p, shift, t) &&
     (o ==> Grows(h0, h) && AllNew(h, q, shift, next0)) &&
     (!o ==> Within(h, q, shift, h0, p, shift, next0))) == true
  }

  /** `pushBack` at a leaf is `pushBackChild` of the value. */
  lemma PushLeaf<T>(h0: Heap<T>, p: Ptr, v: T, t: bool, h: Heap<T>, q: Ptr, o: bool, next0: Ptr)
    requires Valid(h0, p, 0) && ChildPushed(h0, p, Val(v), t, h, q, o, next0)
    ensures Pushed(h0, p, 0, v, t, h, q, o, next0)
  {
    LeafElems(h0, p);
    LeafDigit(0);
    if o {
      var n: Node<T> := Node(EmptySlots(), Status.Fresh(t));
      LeafAppend(n, h0, q, v, Status.Fresh(t));
      assert Values(n.children, 0) == [];
    } else {
      var n := h0[p];
      var st := Status.Cloned(n.status, t);
      LeafAppend(n, h0, q, v, st);
      assert n.Used() == n.Len();
      assert Reaches(h0, p, 0, p);
      WriteKeeps(h0, h0, p, 0, t, q, Appended(n.children, Val(v), st));
    }
  }

  /** The child `pushBack` descends into at a branch: the one in the last occupied slot. */
  ghost predicate LastPushed<T>(h0: Heap<T>, p: Ptr, shift: nat, v: T, t: bool, h2: Heap<T>, c: Ptr, o: bool, next0: Ptr) {
    (Valid(h0, p, shift) && shift > 0 && Below(h0, next0) && (!t ==> !h0[p].IsTransient()) &&
     Pushed(h0, h0[p].Kid(h0[p].Last()), Down(shift), v, t, h2, c, o, next0)) == true
  }

  /** After the child overflowed, `pushBackChild` of the new child at a full branch: a new
      branch holding `v` alone. */
  lemma PushSprout<T>(h0: Heap<T>, p: Ptr, shift: nat, v: T, t: bool, next0: Ptr, h2: Heap<T>, c: Ptr, next2: Ptr,
                      h: Heap<T>, q: Ptr)
    requires LastPushed(h0, p, shift, v, t, h2, c, true, next0) && Below(h2, next2) && next0 <= next2
    requires ChildPushed(h2, p, Child(c), t, h, q, true, next2)
    ensures Pushed(h0, p, shift, v, t, h, q, true, next0)
  {
    var s, k := Down(shift), h0[p].Kid(h0[p].Last());
    ChildOf(h0, p, shift, h0[p].Last());
    DigitOfRelative(0, shift);
    Size(h0, p, shift);
    assert h2[p] == h0[p];
    Sprout(h2, q, c, shift, t, next0, Appended(EmptySlots(), Child(c), Status.Fresh(t)));
    GrowsKeeps(h0, h, p, shift, t);
  }

  /** After the child overflowed, `pushBackChild` of the new child at a branch with a free
      slot: the copy holds the old values followed by `v`. */
  lemma PushAppend<T>(h0: Heap<T>, p: Ptr, shift: nat, v: T, t: bool, next0: Ptr, h2: Heap<T>, c: Ptr, next2: Ptr,
                      h: Heap<T>, q: Ptr)
    requires LastPushed(h0, p, shift, v, t, h2, c, true, next0) && Below(h2, next2) && next0 <= next2
    requires ChildPushed(h2, p, Child(c), t, h, q, false, next2)
    ensures Pushed(h0, p, shift, v, t, h, q, false, next0)
  {
    var s, k := Down(shift), h0[p].Kid(h0[p].Last());
    var st := Status.Cloned(h0[p].status, t);
    ChildOf(h0, p, shift, h0[p].Last());
    DigitOfRelative(0, shift);
    Size(h0, p, shift);
    assert h2[p] == h0[p];
    if Reaches(h2, c, s, q) {
      ReachInHeap(h2, c, s, q);
    }
    assert Appending(h0, p, shift, h2, q, c, st, next0, t);
    Append(h0, p, shift, h2, q, c, st, next0, t);
  }

  /** When the child did not overflow, the clone of the branch is taken after the recursive
      call and the setting `Joining` holds for the last occupied slot. */
  lemma PushRejoin<T>(h0: Heap<T>, p: Ptr, shift: nat, v: T, t: bool, next0: Ptr, h2: Heap<T>, c: Ptr, next2: Ptr,
                      h3: Heap<T>, q: Ptr)
    requires LastPushed(h0, p, shift, v, t, h2, c, false, next0) && Below(h2, next2) && next0 <= next2
    requires CloneOf(h2, p, t, h3, q, next2)
    ensures h2[p] == h0[p] && |Elems(h2, c, Down(shift))| == |Elems(h0, h0[p].Kid(h0[p].Last()), Down(shift))| + 1
    ensures Joining(h0, p, shift, h0[p].Last(), h2, q, c, Status.Cloned(h0[p].status, t), next0, t)
  {
    var d, s := h0[p].Last(), Down(shift);
    ChildOf(h0, p, shift, d);
    assert h2[p] == h0[p];
    CloneGrows(h2, p, t, h3, q, next2);
    if Reaches(h2, c, s, q) {
      ReachInHeap(h2, c, s, q);
    }
  }

  /** When the child did not overflow, writing the new child into the last occupied slot of the
      branch's clone: the copy holds the old values followed by `v`. */
  lemma PushJoin<T>(h0: Heap<T>, p: Ptr, shift: nat, v: T, t: bool, next0: Ptr, h2: Heap<T>, c: Ptr, next2: Ptr,
                    h3: Heap<T>, q: Ptr, h4: Heap<T>)
    requires LastPushed(h0, p, shift, v, t, h2, c, false, next0) && Below(h2, next2) && next0 <= next2
    requires CloneOf(h2, p, t, h3, q, next2)
    requires q in h3 && 1 <= h3[q].Len() <= |h3[q].children|
    requires h4 == h3[q := h3[q].(children := h3[q].children[h3[q].Len() - 1 := Child(c)])]
    ensures Pushed(h0, p, shift, v, t, h4, q, false, next0)
  {
    var d, st := h0[p].Last(), Status.Cloned(h0[p].status, t);
    PushRejoin(h0, p, shift, v, t, next0, h2, c, next2, h3, q);
    var m := h3[q].(children := h3[q].children[h3[q].Len() - 1 := Child(c)]);
    assert m == Replaced(h0[p], d, c, st);
    Overwrite(h2, q, h3[q], m);
    PushJoined(h0, p, shift, v, t, next0, h2, c, next2, q);
  }

  /** After the recursive `pushBack` and `clone`, the copy's last occupied slot is there to
      write into. */
  lemma PushSlot<T>(h0: Heap<T>, p: Ptr, shift: nat, v: T, t: bool, next0: Ptr, h2: Heap<T>, c: Ptr, next2: Ptr,
                    h3: Heap<T>, q: Ptr)
    requires LastPushed(h0, p, shift, v, t, h2, c, false, next0) && Below(h2, next2) && next0 <= next2
    requires CloneOf(h2, p, t, h3, q, next2)
    ensures q in h3 && 1 <= h3[q].Len() <= |h3[q].children|
  {
    PushRejoin(h0, p, shift, v, t, next0, h2, c, next2, h3, q);
  }

  /** The copy of `PushJoin`, written over the heap after the recursive call. */
  lemma PushJoined<T>(h0: Heap<T>, p: Ptr, shift: nat, v: T, t: bool, next0: Ptr, h2: Heap<T>, c: Ptr, next2: Ptr, q: Ptr)
    requires LastPushed(h0, p, shift, v, t, h2, c, false, next0)
    requires Joining(h0, p, shift, h0[p].Last(), h2, q, c, Status.Cloned(h0[p].status, t), next0, t)
    ensures Pushed(h0, p, shift, v, t, h2[q := Replaced(h0[p], h0[p].Last(), c, Status.Cloned(h0[p].status, t))], q, false, next0)
  {
    Join(h0, p, shift, h0[p].Last(), h2, q, c, Status.Cloned(h0[p].status, t), next0, t);
    GrowLast(h0, p, shift, v);
    Size(h0, p, shift);
    DigitOfRelative(0, shift);
  }

  /** Appending `v` to the contents of the last child of a valid branch appends it to the
      branch's contents. */
  lemma GrowLast<T>(h0: Heap<T>, p: Ptr, shift: nat, v: T)
    requires Valid(h0, p, shift) && shift > 0
    ensures Flatten(ElemsOf(h0, h0[p].children, h0[p].Len(), Down(shift))[h0[p].Last() := Elems(h0, h0[p].Kid(h0[p].Last()), Down(shift)) + [v]])
            == Elems(h0, p, shift) + [v]
  {
    BranchBlocks(h0, p, shift);
    FlattenGrowLast(ElemsOf(h0, h0[p].children, h0[p].Len(), Down(shift)), v);
  }

  /** Writing an address twice leaves the second record. */
  lemma Overwrite<T>(h: Heap<T>, q: Ptr, a: Node<T>, b: Node<T>)
    ensures h[q := a][q := b] == h[q := b]
  {
  }

  /** One turn of `at`'s loop: the slot `(idx >> shift) & 31` of a valid branch holds the child
      whose contents hold, at the index relative to it, the value the branch holds at `idx`. */
  lemma AtStep<T>(h: Heap<T>, n: Ptr, shift: nat, idx: nat)
    requires Valid(h, n, shift) && shift > 0 && idx % Span(shift) < |Elems(h, n, shift)|
    ensures shift >= BranchingBit && Down(shift) == shift - BranchingBit
    ensures Digit(idx, shift) < h[n].Len() && h[n].children[Digit(idx, shift)].Child?
    ensures Valid(h, h[n].children[Digit(idx, shift)].ptr, Down(shift))
    ensures idx % Span(Down(shift)) < |Elems(h, h[n].children[Digit(idx, shift)].ptr, Down(shift))|
    ensures Elems(h, h[n].children[Digit(idx, shift)].ptr, Down(shift))[idx % Span(Down(shift))] == Elems(h, n, shift)[idx % Span(shift)]
  {
    DigitStep(idx, shift);
    Locate(h, n, shift, idx % Span(shift), Digit(idx, shift), idx % Span(Down(shift)));
    ChildOf(h, n, shift, Digit(idx, shift));
  }

  /** The end of `at`: slot `idx & 31` of a valid leaf holds the value the leaf holds at
      `idx % 32`. */
  lemma AtLeaf<T>(h: Heap<T>, n: Ptr, idx: nat)
    requires Valid(h, n, 0) && idx % Span(0) < |Elems(h, n, 0)|
    ensures Digit(idx, 0) < h[n].Len() && h[n].children[Digit(idx, 0)].Val?
    ensures h[n].children[Digit(idx, 0)].value == Elems(h, n, 0)[idx % Span(0)]
  {
    LeafDigit(idx);
    LeafElems(h, n);
  }

  /** `pushBack` at a branch leaves the branch itself alone while it works on the last child. */
  lemma PushKeepsBranch<T>(h0: Heap<T>, p: Ptr, shift: nat, v: T, t: bool, h2: Heap<T>, c: Ptr, o: bool, next0: Ptr)
    requires LastPushed(h0, p, shift, v, t, h2, c, o, next0)
    ensures p in h2 && h2[p] == h0[p]
  {
    ChildOf(h0, p, shift, h0[p].Last());
  }
}
