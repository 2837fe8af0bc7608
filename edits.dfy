/** What the node operations do to the heap, as lemmas about maps: writing a node record whose
    slots are those of an old node with one child replaced or appended keeps the trie valid and
    changes its contents block by block. Settings that bundle many facts are wrapped as
    `(...) == true`, which keeps the verifier from splitting them into conjuncts at each use. */
module Edits {
  import Status
  import opened Radix
  import opened Blocks
  import opened Trie

  /** `h'` holds every node of `h` unchanged: it only adds nodes. */
  ghost predicate Grows<T>(h: Heap<T>, h': Heap<T>) {
    forall r :: r in h ==> r in h' && h'[r] == h[r]
  }

  /** `h'` holds every node of `h`, and a changed one only in transient mode (`t`), and then only
      a transient node that the trie at `p` reaches in `h`. */
  ghost predicate Keeps<T>(h: Heap<T>, h': Heap<T>, p: Ptr, shift: nat, t: bool) {
    forall r :: r in h ==> r in h' && (h'[r] == h[r] || (t && h[r].IsTransient() && Reaches(h, p, shift, r)))
  }

  /** Every node the trie at `q` reaches in `h'` is one the trie at `p` reaches in `h` or a new
      one, from `next` on. */
  ghost predicate Within<T>(h': Heap<T>, q: Ptr, s': nat, h: Heap<T>, p: Ptr, s: nat, next: Ptr) {
    forall r :: Reaches(h', q, s', r) ==> Reaches(h, p, s, r) || next <= r
  }

  /** Every node the trie at `q` reaches in `h` is new, from `next` on. */
  ghost predicate AllNew<T>(h: Heap<T>, q: Ptr, shift: nat, next: Ptr) {
    forall r :: Reaches(h, q, shift, r) ==> next <= r
  }

  /** `h'` holds unchanged every node of `h` other than the branch `p` and what its child in
      slot `d` reaches. */
  ghost predicate Outside<T>(h: Heap<T>, h': Heap<T>, p: Ptr, shift: nat, d: nat) {
    p in h &&
    forall r :: r in h && r != p && !Reaches(h, h[p].Kid(d), Down(shift), r) ==> r in h' && h'[r] == h[r]
  }

  /** A valid trie is the same valid trie in a heap that only adds nodes. */
  lemma GrowsFrame<T>(h: Heap<T>, h': Heap<T>, p: Ptr, shift: nat)
    requires Valid(h, p, shift) && Grows(h, h')
    ensures Valid(h', p, shift) && Elems(h', p, shift) == Elems(h, p, shift) && h'[p] == h[p]
    ensures forall r :: Reaches(h', p, shift, r) == Reaches(h, p, shift, r)
  {
    forall r | Reaches(h, p, shift, r) ensures r in h {
      ReachInHeap(h, p, shift, r);
    }
    Frame(h, h', p, shift);
  }

  /** Writing a node at an address a valid trie does not reach leaves that trie valid,
      reaching and holding what it did. */
  lemma WriteOutside<T>(h: Heap<T>, q: Ptr, m: Node<T>, c: Ptr, shift: nat)
    requires Valid(h, c, shift) && !Reaches(h, c, shift, q)
    ensures c in h && c != q && Valid(h[q := m], c, shift) && h[q := m][c] == h[c]
    ensures forall r :: Reaches(h[q := m], c, shift, r) == Reaches(h, c, shift, r)
    ensures Elems(h[q := m], c, shift) == Elems(h, c, shift)
  {
    forall r | Reaches(h, c, shift, r) ensures r in h && r != q {
      ReachInHeap(h, c, shift, r);
    }
    Frame(h, h[q := m], c, shift);
  }

  /** The setting of a rewrite of the valid branch `p` of `h` into a node at `q`, which is `p`
      itself or a new address: `h'` holds unchanged every old node other than `p` and what the
      child in slot `d` reaches. */
  ghost predicate Rewrite<T>(h: Heap<T>, p: Ptr, shift: nat, d: nat, h': Heap<T>, q: Ptr, next: Ptr) {
    (Valid(h, p, shift) && shift > 0 && Below(h, next) && (q == p || next <= q) &&
     d < h[p].Len() && Outside(h, h', p, shift, d)) == true
  }

  /** In the setting `Rewrite`, the child in slot `i != d` is the same valid node in `h'`. */
  lemma Sibling<T>(h: Heap<T>, p: Ptr, shift: nat, d: nat, h': Heap<T>, q: Ptr, next: Ptr, i: nat)
    requires Rewrite(h, p, shift, d, h', q, next) && i < h[p].Len() && i != d
    ensures h[p].children[i] == Child(h[p].Kid(i)) && h[p].Kid(i) in h && h[p].Kid(i) in h' && h'[h[p].Kid(i)] == h[h[p].Kid(i)]
    ensures Valid(h', h[p].Kid(i), Down(shift)) && Elems(h', h[p].Kid(i), Down(shift)) == Elems(h, h[p].Kid(i), Down(shift))
    ensures !h[p].IsTransient() ==> !h[h[p].Kid(i)].IsTransient()
    ensures i < h[p].Last() ==> |Elems(h, h[p].Kid(i), Down(shift))| == Width(shift)
    ensures i == h[p].Last() ==> |Elems(h, h[p].Kid(i), Down(shift))| >= 1
  {
    ChildOf(h, p, shift, i);
    if i == h[p].Last() {
      LastFit(h, p, shift);
    }
    SiblingAgree(h, p, shift, d, h', q, next, i);
    Frame(h, h', h[p].Kid(i), Down(shift));
    assert Reaches(h, h[p].Kid(i), Down(shift), h[p].Kid(i));
  }

  lemma SiblingAgree<T>(h: Heap<T>, p: Ptr, shift: nat, d: nat, h': Heap<T>, q: Ptr, next: Ptr, i: nat)
    requires Rewrite(h, p, shift, d, h', q, next) && i < h[p].Len() && i != d
    ensures Agree(h, h', h[p].Kid(i), Down(shift))
  {
    forall r | Reaches(h, h[p].Kid(i), Down(shift), r) ensures r in h && r in h' && h'[r] == h[r] {
      SiblingOld(h, p, shift, d, h', q, next, i, r);
    }
  }

  /** In the setting `Rewrite`, a node the child in slot `i != d` reaches is an old node the
      branch reaches, other than `q` and out of reach of the child in slot `d`. */
  lemma SiblingOld<T>(h: Heap<T>, p: Ptr, shift: nat, d: nat, h': Heap<T>, q: Ptr, next: Ptr, i: nat, r: Ptr)
    requires Rewrite(h, p, shift, d, h', q, next) && i < h[p].Len() && i != d
    requires Reaches(h, h[p].Kid(i), Down(shift), r)
    ensures r in h && r < next && r != q && r != p && !Reaches(h, h[p].Kid(d), Down(shift), r)
    ensures Reaches(h, p, shift, r) && r in h' && h'[r] == h[r]
  {
    ChildOf(h, p, shift, i);
    ReachInHeap(h, h[p].Kid(i), Down(shift), r);
    KidsDisjoint(h, p, shift, i, d, r);
    KidReaches(h, p, shift, i, r);
  }

  /** In the setting `Rewrite`, what the child in slot `i != d` reaches in `h'` it reached
      in `h`. */
  lemma SiblingReach<T>(h: Heap<T>, p: Ptr, shift: nat, d: nat, h': Heap<T>, q: Ptr, next: Ptr, i: nat, r: Ptr)
    requires Rewrite(h, p, shift, d, h', q, next) && i < h[p].Len() && i != d
    requires Reaches(h', h[p].Kid(i), Down(shift), r)
    ensures Reaches(h, h[p].Kid(i), Down(shift), r)
  {
    SiblingAgree(h, p, shift, d, h', q, next, i);
    FrameReach(h, h', h[p].Kid(i), Down(shift), r);
  }

  /** The record written by `update` and by a `pushBack` that did not overflow: the node `n` with
      its child in slot `d` replaced by `c`, under the status `st`. */
  function Replaced<T>(n: Node<T>, d: nat, c: Ptr, st: bv8): Node<T>
    requires d < |n.children|
  {
    Node(n.children[d := Child(c)], st)
  }

  /** The setting of `Replace`: the setting `Rewrite` of `p`'s rewrite into `q`, and `c` is a
      valid node one level down in `h'` that does not reach `q`, reaches only what the old child
      in slot `d` reached and new addresses, fits the slot and is persistent when the status
      `st` is. */
  ghost predicate Replacing<T>(h: Heap<T>, p: Ptr, shift: nat, d: nat, h': Heap<T>, q: Ptr, c: Ptr, st: bv8, next: Ptr) {
    (Rewrite(h, p, shift, d, h', q, next) && Status.Ok(st) && Status.Len(st) == h[p].Len() &&
     (!Status.IsTransient(st) ==> !h[p].IsTransient()) &&
     Valid(h', c, Down(shift)) && !Reaches(h', c, Down(shift), q) &&
     (!Status.IsTransient(st) ==> !h'[c].IsTransient()) &&
     Within(h', c, Down(shift), h, h[p].Kid(d), Down(shift), next) &&
     1 <= |Elems(h', c, Down(shift))| &&
     (d < h[p].Last() ==> |Elems(h', c, Down(shift))| == Width(shift))) == true
  }

  /** Writing the replaced record at `q` keeps the setting `Rewrite`. */
  lemma ReplacingRewrite<T>(h: Heap<T>, p: Ptr, shift: nat, d: nat, h': Heap<T>, q: Ptr, c: Ptr, st: bv8, next: Ptr)
    requires Replacing(h, p, shift, d, h', q, c, st, next)
    ensures Rewrite(h, p, shift, d, h'[q := Replaced(h[p], d, c, st)], q, next)
  {
  }

  /** After writing the replaced record at `q`, its new child `c` is still valid, reaching and
      holding what it did in `h'`. */
  lemma ReplaceNew<T>(h: Heap<T>, p: Ptr, shift: nat, d: nat, h': Heap<T>, q: Ptr, c: Ptr, st: bv8, next: Ptr)
    requires Replacing(h, p, shift, d, h', q, c, st, next)
    ensures Valid(h'[q := Replaced(h[p], d, c, st)], c, Down(shift))
    ensures c in h' && h'[q := Replaced(h[p], d, c, st)][c] == h'[c]
    ensures forall r :: Reaches(h'[q := Replaced(h[p], d, c, st)], c, Down(shift), r) == Reaches(h', c, Down(shift), r)
    ensures Elems(h'[q := Replaced(h[p], d, c, st)], c, Down(shift)) == Elems(h', c, Down(shift))
  {
    WriteOutside(h', q, Replaced(h[p], d, c, st), c, Down(shift));
  }

  /** The slots of the replaced record at `q`: each holds a valid child that does not reach `q`
      and is persistent when `q` is, and all but the last are full (`KidOk`). */
  lemma ReplaceKid<T>(h: Heap<T>, p: Ptr, shift: nat, d: nat, h': Heap<T>, q: Ptr, c: Ptr, st: bv8, next: Ptr, i: nat)
    requires Replacing(h, p, shift, d, h', q, c, st, next) && i < h[p].Len()
    ensures KidOk(h'[q := Replaced(h[p], d, c, st)], q, Replaced(h[p], d, c, st), Down(shift), i)
  {
    if i == d {
      ReplaceNew(h, p, shift, d, h', q, c, st, next);
    } else {
      ReplaceOld(h, p, shift, d, h', q, c, st, next, i);
    }
  }

  lemma ReplaceOld<T>(h: Heap<T>, p: Ptr, shift: nat, d: nat, h': Heap<T>, q: Ptr, c: Ptr, st: bv8, next: Ptr, i: nat)
    requires Replacing(h, p, shift, d, h', q, c, st, next) && i < h[p].Len() && i != d
    ensures KidOk(h'[q := Replaced(h[p], d, c, st)], q, Replaced(h[p], d, c, st), Down(shift), i)
  {
    var m, h3 := Replaced(h[p], d, c, st), h'[q := Replaced(h[p], d, c, st)];
    ReplacingRewrite(h, p, shift, d, h', q, c, st, next);
    Sibling(h, p, shift, d, h3, q, next, i);
    if Reaches(h3, m.Kid(i), Down(shift), q) {
      SiblingReach(h, p, shift, d, h3, q, next, i, q);
      SiblingOld(h, p, shift, d, h3, q, next, i, q);
    }
  }

  /** A node a slot of the replaced record at `q` reaches: for the new child, one the old child
      in slot `d` reached or a new one; for any other child, an old node that child reached. */
  lemma ReplaceKidReach<T>(h: Heap<T>, p: Ptr, shift: nat, d: nat, h': Heap<T>, q: Ptr, c: Ptr, st: bv8, next: Ptr, i: nat, r: Ptr)
    requires Replacing(h, p, shift, d, h', q, c, st, next) && i < h[p].Len()
    requires Reaches(h'[q := Replaced(h[p], d, c, st)], Replaced(h[p], d, c, st).Kid(i), Down(shift), r)
    ensures i == d ==> Reaches(h, h[p].Kid(d), Down(shift), r) || next <= r
    ensures i != d ==> r in h && r < next && !Reaches(h, h[p].Kid(d), Down(shift), r) && Reaches(h, h[p].Kid(i), Down(shift), r)
  {
    var h3 := h'[q := Replaced(h[p], d, c, st)];
    if i == d {
      ReplaceNew(h, p, shift, d, h', q, c, st, next);
    } else {
      ReplacingRewrite(h, p, shift, d, h', q, c, st, next);
      SiblingReach(h, p, shift, d, h3, q, next, i, r);
      SiblingOld(h, p, shift, d, h3, q, next, i, r);
    }
  }

  /** No node is reached by two slots of the replaced record at `q`. */
  lemma ReplaceDisjoint<T>(h: Heap<T>, p: Ptr, shift: nat, d: nat, h': Heap<T>, q: Ptr, c: Ptr, st: bv8, next: Ptr, i: nat, j: nat, r: Ptr)
    requires Replacing(h, p, shift, d, h', q, c, st, next) && i < j < h[p].Len()
    requires Reaches(h'[q := Replaced(h[p], d, c, st)], Replaced(h[p], d, c, st).Kid(i), Down(shift), r)
    ensures !Reaches(h'[q := Replaced(h[p], d, c, st)], Replaced(h[p], d, c, st).Kid(j), Down(shift), r)
  {
    var m, h3 := Replaced(h[p], d, c, st), h'[q := Replaced(h[p], d, c, st)];
    ReplaceKidReach(h, p, shift, d, h', q, c, st, next, i, r);
    if Reaches(h3, m.Kid(j), Down(shift), r) {
      ReplaceKidReach(h, p, shift, d, h', q, c, st, next, j, r);
      if i != d && j != d {
        KidsDisjoint(h, p, shift, i, j, r);
      }
    }
  }

  /** Writing at `q` a copy of a valid branch whose child in slot `d` is replaced by `c`, in the
      setting `Replacing`, gives a valid branch. */
  lemma ReplaceValid<T>(h: Heap<T>, p: Ptr, shift: nat, d: nat, h': Heap<T>, q: Ptr, c: Ptr, st: bv8, next: Ptr)
    requires Replacing(h, p, shift, d, h', q, c, st, next)
    ensures Valid(h'[q := Replaced(h[p], d, c, st)], q, shift)
  {
    var m, h3 := Replaced(h[p], d, c, st), h'[q := Replaced(h[p], d, c, st)];
    forall i | 0 <= i < m.Len() ensures KidOk(h3, q, m, Down(shift), i) {
      ReplaceKid(h, p, shift, d, h', q, c, st, next, i);
    }
    forall i, j, r | 0 <= i < j < m.Len() && Reaches(h3, m.Kid(i), Down(shift), r)
      ensures !Reaches(h3, m.Kid(j), Down(shift), r)
    {
      ReplaceDisjoint(h, p, shift, d, h', q, c, st, next, i, j, r);
    }
    BranchOf(h3, q, m, shift);
  }

  /** Block `i` of the replaced record at `q` is the old block `i`, or the contents of `c` in
      slot `d`. */
  lemma ReplaceBlock<T>(h: Heap<T>, p: Ptr, shift: nat, d: nat, h': Heap<T>, q: Ptr, c: Ptr, st: bv8, next: Ptr, i: nat)
    requires Replacing(h, p, shift, d, h', q, c, st, next) && i < h[p].Len()
    ensures ElemsOf(h'[q := Replaced(h[p], d, c, st)], Replaced(h[p], d, c, st).children, h[p].Len(), Down(shift))[i] ==
            ElemsOf(h, h[p].children, h[p].Len(), Down(shift))[d := Elems(h', c, Down(shift))][i]
  {
    var m, h3 := Replaced(h[p], d, c, st), h'[q := Replaced(h[p], d, c, st)];
    ElemsOfIndex(h3, m.children, h[p].Len(), Down(shift), i);
    ElemsOfIndex(h, h[p].children, h[p].Len(), Down(shift), i);
    if i == d {
      ReplaceNew(h, p, shift, d, h', q, c, st, next);
    } else {
      ReplacingRewrite(h, p, shift, d, h', q, c, st, next);
      Sibling(h, p, shift, d, h3, q, next, i);
    }
  }

  /** The contents of the replaced record at `q` are the old blocks with block `d` replaced by
      the contents of `c`. */
  lemma ReplaceElems<T>(h: Heap<T>, p: Ptr, shift: nat, d: nat, h': Heap<T>, q: Ptr, c: Ptr, st: bv8, next: Ptr)
    requires Replacing(h, p, shift, d, h', q, c, st, next)
    ensures Elems(h'[q := Replaced(h[p], d, c, st)], q, shift) ==
            Flatten(ElemsOf(h, h[p].children, h[p].Len(), Down(shift))[d := Elems(h', c, Down(shift))])
  {
    var m, h3 := Replaced(h[p], d, c, st), h'[q := Replaced(h[p], d, c, st)];
    var bs := ElemsOf(h, h[p].children, h[p].Len(), Down(shift))[d := Elems(h', c, Down(shift))];
    assert m.Used() == h[p].Len();
    forall i | 0 <= i < m.Used() ensures ElemsOf(h3, m.children, m.Used(), Down(shift))[i] == bs[i] {
      ReplaceBlock(h, p, shift, d, h', q, c, st, next, i);
    }
    BranchShift(h, p, shift);
    BranchElems(h3, q, shift, m, bs);
  }

  /** A node the replaced record at `q` reaches is one the old branch reached or a new one. */
  lemma ReplaceReach<T>(h: Heap<T>, p: Ptr, shift: nat, d: nat, h': Heap<T>, q: Ptr, c: Ptr, st: bv8, next: Ptr, r: Ptr)
    requires Replacing(h, p, shift, d, h', q, c, st, next)
    requires Reaches(h'[q := Replaced(h[p], d, c, st)], q, shift, r)
    ensures Reaches(h, p, shift, r) || next <= r
  {
    var m, h3 := Replaced(h[p], d, c, st), h'[q := Replaced(h[p], d, c, st)];
    if r != q {
      assert m.Used() == h[p].Len();
      var i := ReachesOfMember(h3, m.children, m.Used(), Down(shift), r);
      assert m.children[i].ptr == m.Kid(i);
      ReplaceKidReach(h, p, shift, d, h', q, c, st, next, i, r);
      if i == d && Reaches(h, h[p].Kid(d), Down(shift), r) {
        KidReaches(h, p, shift, d, r);
      } else if i != d {
        KidReaches(h, p, shift, i, r);
      }
    }
  }

  /** Writing at `q` a copy of a valid branch whose child in slot `d` is replaced by `c`, in the
      setting `Replacing`, gives a valid branch holding the old blocks with block `d` replaced
      by the contents of `c`, and reaching only old nodes of the branch and new ones. */
  lemma Replace<T>(h: Heap<T>, p: Ptr, shift: nat, d: nat, h': Heap<T>, q: Ptr, c: Ptr, st: bv8, next: Ptr)
    requires Replacing(h, p, shift, d, h', q, c, st, next)
    ensures Valid(h'[q := Replaced(h[p], d, c, st)], q, shift)
    ensures Elems(h'[q := Replaced(h[p], d, c, st)], q, shift) ==
            Flatten(ElemsOf(h, h[p].children, h[p].Len(), Down(shift))[d := Elems(h', c, Down(shift))])
    ensures Within(h'[q := Replaced(h[p], d, c, st)], q, shift, h, p, shift, next)
  {
    ReplaceValid(h, p, shift, d, h', q, c, st, next);
    ReplaceElems(h, p, shift, d, h', q, c, st, next);
    forall r | Reaches(h'[q := Replaced(h[p], d, c, st)], q, shift, r) ensures Reaches(h, p, shift, r) || next <= r {
      ReplaceReach(h, p, shift, d, h', q, c, st, next, r);
    }
  }

  /** The outcome of `clone(t)` on the node at `p`: `h1` holds at `q` a node with the slots and
      count of `p` and the flag `t`; `q` is `p` itself exactly when the mode and `p` are both
      transient, and the next free address otherwise. */
  ghost predicate CloneOf<T>(h0: Heap<T>, p: Ptr, t: bool, h1: Heap<T>, q: Ptr, next0: Ptr) {
    p in h0 && Status.Ok(h0[p].status) && Below(h0, next0) &&
    h1 == h0[q := Node(h0[p].children, Status.Cloned(h0[p].status, t))] &&
    (q == p <==> t && h0[p].IsTransient()) && (q != p ==> q == next0)
  }

  /** Cloning only adds a node: it returns `p` unchanged or writes a new address. */
  lemma CloneGrows<T>(h0: Heap<T>, p: Ptr, t: bool, h1: Heap<T>, q: Ptr, next0: Ptr)
    requires CloneOf(h0, p, t, h1, q, next0)
    ensures Grows(h0, h1) && q in h1 && (q == p || q !in h0)
    ensures h1[q] == Node(h0[p].children, Status.Cloned(h0[p].status, t))
  {
  }

  /** Adding nodes changes no node. */
  lemma GrowsKeeps<T>(h: Heap<T>, h': Heap<T>, p: Ptr, shift: nat, t: bool)
    requires Grows(h, h')
    ensures Keeps(h, h', p, shift, t)
  {
  }

  /** Adding nodes after a change keeps the change confined as it was. */
  lemma KeepsThenGrows<T>(h0: Heap<T>, h1: Heap<T>, h2: Heap<T>, p: Ptr, shift: nat, t: bool)
    requires Keeps(h0, h1, p, shift, t) && Grows(h1, h2)
    ensures Keeps(h0, h2, p, shift, t)
  {
  }

  /** Changes confined to a leaf that was added after `h0` leave the nodes of `h0` alone. */
  lemma KeepsNewLeaf<T>(h0: Heap<T>, h1: Heap<T>, h2: Heap<T>, q: Ptr, t: bool)
    requires q !in h0 && Grows(h0, h1) && Keeps(h1, h2, q, 0, t)
    ensures Grows(h0, h2)
  {
  }

  /** Changes confined to what a child reaches are confined to what the branch reaches. */
  lemma KeepsUp<T>(h: Heap<T>, h': Heap<T>, p: Ptr, shift: nat, d: nat, t: bool)
    requires Valid(h, p, shift) && shift > 0 && d < h[p].Len() && Keeps(h, h', h[p].Kid(d), Down(shift), t)
    ensures Keeps(h, h', p, shift, t) && Outside(h, h', p, shift, d)
  {
    forall r | r in h && h'[r] != h[r] && t && h[r].IsTransient() && Reaches(h, h[p].Kid(d), Down(shift), r)
      ensures Reaches(h, p, shift, r)
    {
      KidReaches(h, p, shift, d, r);
    }
  }

  /** Writing at `q` keeps `Keeps` when `q` is new, or is `p` itself, transient and in transient
      mode. */
  lemma WriteKeeps<T>(h: Heap<T>, h': Heap<T>, p: Ptr, shift: nat, t: bool, q: Ptr, m: Node<T>)
    requires Keeps(h, h', p, shift, t) && p in h && (q !in h || (q == p && t && h[p].IsTransient()))
    ensures Keeps(h, h'[q := m], p, shift, t)
  {
    assert Reaches(h, p, shift, p);
  }

  /** Changes a trie made in a heap that had only added nodes are changes from the start. */
  lemma KeepsAfterGrow<T>(h0: Heap<T>, h1: Heap<T>, h2: Heap<T>, c: Ptr, s: nat, t: bool)
    requires Valid(h0, c, s) && Grows(h0, h1) && Keeps(h1, h2, c, s, t)
    ensures Keeps(h0, h2, c, s, t)
  {
    GrowsFrame(h0, h1, c, s);
  }

  /** Likewise for the nodes a new trie can reach. */
  lemma WithinAfterGrow<T>(h0: Heap<T>, h1: Heap<T>, h2: Heap<T>, c': Ptr, c: Ptr, s: nat, next0: Ptr, next1: Ptr)
    requires Valid(h0, c, s) && Grows(h0, h1) && Within(h2, c', s, h1, c, s, next1) && next0 <= next1
    ensures Within(h2, c', s, h0, c, s, next0)
  {
    GrowsFrame(h0, h1, c, s);
  }

  /** The setting in which `update` and a `pushBack` whose last child did not overflow write the
      copy `q` of the branch `p`: the child in slot `d` has been turned into `c`, changing only
      transient nodes it reached (in transient mode) and adding new ones; `st` is the status of
      the copy, tagged with the mode. */
  ghost predicate Joining<T>(h0: Heap<T>, p: Ptr, shift: nat, d: nat, h2: Heap<T>, q: Ptr, c: Ptr, st: bv8, next0: Ptr, t: bool) {
    (Valid(h0, p, shift) && shift > 0 && Below(h0, next0) && d < h0[p].Len() &&
     (q == p || next0 <= q) && (q == p ==> t && h0[p].IsTransient()) && (!t ==> !h0[p].IsTransient()) &&
     Keeps(h0, h2, h0[p].Kid(d), Down(shift), t) &&
     Valid(h2, c, Down(shift)) && !Reaches(h2, c, Down(shift), q) && h2[c].IsTransient() == t &&
     Within(h2, c, Down(shift), h0, h0[p].Kid(d), Down(shift), next0) &&
     Status.Ok(st) && Status.Len(st) == h0[p].Len() && Status.IsTransient(st) == t &&
     1 <= |Elems(h2, c, Down(shift))| &&
     (d < h0[p].Last() ==> |Elems(h2, c, Down(shift))| == Width(shift))) == true
  }

  /** In the setting `Joining`, the copy is a valid branch tagged with the mode, holding the old
      blocks with block `d` replaced by the contents of `c`; it reaches only old nodes of the
      branch and new ones, and the old heap changed only at transient nodes the branch
      reached. */
  lemma Join<T>(h0: Heap<T>, p: Ptr, shift: nat, d: nat, h2: Heap<T>, q: Ptr, c: Ptr, st: bv8, next0: Ptr, t: bool)
    requires Joining(h0, p, shift, d, h2, q, c, st, next0, t)
    ensures Valid(h2[q := Replaced(h0[p], d, c, st)], q, shift)
    ensures Elems(h2[q := Replaced(h0[p], d, c, st)], q, shift) ==
            Flatten(ElemsOf(h0, h0[p].children, h0[p].Len(), Down(shift))[d := Elems(h2, c, Down(shift))])
    ensures Within(h2[q := Replaced(h0[p], d, c, st)], q, shift, h0, p, shift, next0)
    ensures Keeps(h0, h2[q := Replaced(h0[p], d, c, st)], p, shift, t)
  {
    KeepsUp(h0, h2, p, shift, d, t);
    assert Replacing(h0, p, shift, d, h2, q, c, st, next0);
    Replace(h0, p, shift, d, h2, q, c, st, next0);
    WriteKeeps(h0, h2, p, shift, t, q, Replaced(h0[p], d, c, st));
  }

  /** `update` at a leaf: a copy of the leaf `p` with occupied slot `j` overwritten by `v` is a
      valid leaf holding the old values with position `j` replaced. */
  lemma LeafUpdate<T>(h0: Heap<T>, p: Ptr, h': Heap<T>, q: Ptr, j: nat, v: T, st: bv8)
    requires Valid(h0, p, 0) && j < h0[p].Len() && Status.Ok(st) && Status.Len(st) == h0[p].Len()
    ensures Valid(h'[q := Node(h0[p].children[j := Val(v)], st)], q, 0)
    ensures j < |Elems(h0, p, 0)| && Elems(h'[q := Node(h0[p].children[j := Val(v)], st)], q, 0) == Elems(h0, p, 0)[j := v]
  {
    var h3 := h'[q := Node(h0[p].children[j := Val(v)], st)];
    assert Valid(h3, q, 0);
    LeafElems(h0, p);
    LeafElems(h3, q);
  }

  /** The record `pushBackChild` writes: the slots `cs` with `x` in the first free slot, and the
      count one up. */
  function Appended<T>(cs: seq<Slot<T>>, x: Slot<T>, st: bv8): Node<T>
    requires Status.Ok(st) && Status.Len(st) < |cs| && Status.Len(st) < Status.Capacity
  {
    Node(cs[Status.Len(st) := x], Status.IncLen(st))
  }

  /** `pushBackChild` at a leaf, or at a new node at `shift` 0: a leaf record `n` with `v`
      appended is a valid leaf holding the old values followed by `v`. */
  lemma LeafAppend<T>(n: Node<T>, h': Heap<T>, q: Ptr, v: T, st: bv8)
    requires n.Shaped() && (forall i :: 0 <= i < n.Len() ==> n.children[i].Val?)
    requires Status.Ok(st) && Status.Len(st) == n.Len() < Status.Capacity
    ensures Valid(h'[q := Appended(n.children, Val(v), st)], q, 0)
    ensures Elems(h'[q := Appended(n.children, Val(v), st)], q, 0) == Values(n.children, n.Len()) + [v]
  {
    var m := Appended(n.children, Val(v), st);
    var h3 := h'[q := m];
    assert Valid(h3, q, 0);
    ValuesAll(n.children, n.Len());
    LeafElems(h3, q);
  }

  /** The setting in which a `pushBack` whose last child overflowed appends the new child `c` to
      a copy `q` of the branch `p`: the branch has a free slot and its last child is full; `h'`
      only added nodes, among them every node `c` reaches; `st` is the status of the copy,
      tagged with the mode. */
  ghost predicate Appending<T>(h0: Heap<T>, p: Ptr, shift: nat, h': Heap<T>, q: Ptr, c: Ptr, st: bv8, next0: Ptr, t: bool) {
    (Valid(h0, p, shift) && shift > 0 && Below(h0, next0) && h0[p].Len() < BranchingFactor &&
     |Elems(h0, h0[p].Kid(h0[p].Last()), Down(shift))| == Width(shift) &&
     Grows(h0, h') && (q == p || next0 <= q) && (q == p ==> t && h0[p].IsTransient()) && (!t ==> !h0[p].IsTransient()) &&
     Valid(h', c, Down(shift)) && !Reaches(h', c, Down(shift), q) && h'[c].IsTransient() == t &&
     AllNew(h', c, Down(shift), next0) && 1 <= |Elems(h', c, Down(shift))| &&
     Status.Ok(st) && Status.Len(st) == h0[p].Len() && Status.IsTransient(st) == t) == true
  }

  /** Every node `q` reaches in `h'` is in `h` and reached there by `p`. */
  ghost predicate Inside<T>(h': Heap<T>, q: Ptr, s': nat, h: Heap<T>, p: Ptr, s: nat) {
    forall r :: Reaches(h', q, s', r) ==> Reaches(h, p, s, r) && r in h
  }

  /** In the setting `Appending`, an old child of the copy is the same valid node, reaching
      only old nodes. */
  lemma AppendOld<T>(h0: Heap<T>, p: Ptr, shift: nat, h': Heap<T>, q: Ptr, c: Ptr, st: bv8, next0: Ptr, t: bool, m: Node<T>, i: nat)
    requires (Valid(h0, p, shift) && shift > 0 && Below(h0, next0) && Grows(h0, h') && (q == p || next0 <= q) &&
              i < h0[p].Len() < BranchingFactor && |Elems(h0, h0[p].Kid(h0[p].Last()), Down(shift))| == Width(shift) &&
              Status.Ok(st) && Status.Len(st) == h0[p].Len() && Status.IsTransient(st) == t && (!t ==> !h0[p].IsTransient())) == true
    requires m == Appended(h0[p].children, Child(c), st)
    ensures m.Kid(i) == h0[p].Kid(i) && KidOk(h'[q := m], q, m, Down(shift), i)
    ensures Elems(h'[q := m], m.Kid(i), Down(shift)) == Elems(h0, h0[p].Kid(i), Down(shift))
    ensures Inside(h'[q := m], m.Kid(i), Down(shift), h0, h0[p].Kid(i), Down(shift))
  {
    var s, k := Down(shift), h0[p].Kid(i);
    GrownKid(h0, p, shift, h', q, next0, i);
    assert m.children[i] == h0[p].children[i];
    if i < m.Last() {
      assert i < h0[p].Last() || i == h0[p].Last();
    }
    KeptKid(h0, h', q, m, s, k, i);
  }

  /** An old child `k` in slot `i` of the record `m` written at `q`, valid in `h'`, not
      reaching `q` and reaching only nodes of `h0`, stays so once `m` is written. */
  lemma KeptKid<T>(h0: Heap<T>, h': Heap<T>, q: Ptr, m: Node<T>, s: nat, k: Ptr, i: nat)
    requires (i < |m.children| && m.children[i] == Child(k) && Valid(h', k, s) && !Reaches(h', k, s, q) &&
              Inside(h', k, s, h0, k, s) && Elems(h', k, s) == Elems(h0, k, s) &&
              (!m.IsTransient() ==> !h'[k].IsTransient()) &&
              (i < m.Last() ==> |Elems(h0, k, s)| == Span(s)) && |Elems(h0, k, s)| >= 1) == true
    ensures m.Kid(i) == k && KidOk(h'[q := m], q, m, s, i)
    ensures Elems(h'[q := m], k, s) == Elems(h0, k, s)
    ensures Inside(h'[q := m], k, s, h0, k, s)
  {
    var h3 := h'[q := m];
    WriteOutside(h', q, m, k, s);
    forall r | Reaches(h3, k, s, r) ensures Reaches(h0, k, s, r) && r in h0 {
      assert Reaches(h', k, s, r);
    }
  }

  /** A child of a valid branch, after nodes were only added: the same valid node, holding the
      same values and reaching the same old nodes, none of them `q`, the branch itself or a
      new address. */
  lemma GrownKid<T>(h0: Heap<T>, p: Ptr, shift: nat, h': Heap<T>, q: Ptr, next0: Ptr, i: nat)
    requires (Valid(h0, p, shift) && shift > 0 && Below(h0, next0) && Grows(h0, h') && (q == p || next0 <= q) && i < h0[p].Len()) == true
    ensures h0[p].children[i] == Child(h0[p].Kid(i)) && h0[p].Kid(i) in h0 && h0[p].Kid(i) in h' && h'[h0[p].Kid(i)] == h0[h0[p].Kid(i)]
    ensures Valid(h', h0[p].Kid(i), Down(shift)) && Elems(h', h0[p].Kid(i), Down(shift)) == Elems(h0, h0[p].Kid(i), Down(shift))
    ensures !Reaches(h', h0[p].Kid(i), Down(shift), q) && Inside(h', h0[p].Kid(i), Down(shift), h0, h0[p].Kid(i), Down(shift))
    ensures (!h0[p].IsTransient() ==> !h0[h0[p].Kid(i)].IsTransient())
    ensures i < h0[p].Last() ==> |Elems(h0, h0[p].Kid(i), Down(shift))| == Width(shift)
    ensures |Elems(h0, h0[p].Kid(i), Down(shift))| >= 1
  {
    var s, k := Down(shift), h0[p].Kid(i);
    ChildOf(h0, p, shift, i);
    GrowsFrame(h0, h', k, s);
    if Reaches(h', k, s, q) {
      ReachInHeap(h0, k, s, q);
    }
    forall r | Reaches(h', k, s, r) ensures Reaches(h0, k, s, r) && r in h0 {
      ReachInHeap(h0, k, s, r);
    }
  }

  /** In the setting `Appending`, the appended child of the copy is `c`, still valid. */
  lemma AppendNew<T>(h0: Heap<T>, p: Ptr, shift: nat, h': Heap<T>, q: Ptr, c: Ptr, st: bv8, next0: Ptr, t: bool, m: Node<T>)
    requires Appending(h0, p, shift, h', q, c, st, next0, t) && m == Appended(h0[p].children, Child(c), st)
    ensures m.Kid(h0[p].Len()) == c
    ensures KidOk(h'[q := m], q, m, Down(shift), h0[p].Len())
    ensures Elems(h'[q := m], c, Down(shift)) == Elems(h', c, Down(shift))
    ensures AllNew(h'[q := m], c, Down(shift), next0)
  {
    WriteOutside(h', q, m, c, Down(shift));
    assert m.Last() == h0[p].Len();
    var h3, s := h'[q := m], Down(shift);
    forall r | Reaches(h3, c, s, r) ensures next0 <= r {
      assert Reaches(h', c, s, r);
    }
  }

  /** No node is reached by two slots of the copy. */
  lemma AppendDisjoint<T>(h0: Heap<T>, p: Ptr, shift: nat, h': Heap<T>, q: Ptr, c: Ptr, st: bv8, next0: Ptr, t: bool, i: nat, j: nat, r: Ptr)
    requires Appending(h0, p, shift, h', q, c, st, next0, t) && i < j <= h0[p].Len()
    requires Reaches(h'[q := Appended(h0[p].children, Child(c), st)], Appended(h0[p].children, Child(c), st).Kid(i), Down(shift), r)
    ensures !Reaches(h'[q := Appended(h0[p].children, Child(c), st)], Appended(h0[p].children, Child(c), st).Kid(j), Down(shift), r)
  {
    AppendOld(h0, p, shift, h', q, c, st, next0, t, Appended(h0[p].children, Child(c), st), i);
    if j < h0[p].Len() {
      AppendOld(h0, p, shift, h', q, c, st, next0, t, Appended(h0[p].children, Child(c), st), j);
      if Reaches(h'[q := Appended(h0[p].children, Child(c), st)], Appended(h0[p].children, Child(c), st).Kid(j), Down(shift), r) {
        KidsDisjoint(h0, p, shift, i, j, r);
      }
    } else {
      AppendNew(h0, p, shift, h', q, c, st, next0, t, Appended(h0[p].children, Child(c), st));
    }
  }

  /** In the setting `Appending`, the copy with `c` appended is a valid branch. */
  lemma AppendValid<T>(h0: Heap<T>, p: Ptr, shift: nat, h': Heap<T>, q: Ptr, c: Ptr, st: bv8, next0: Ptr, t: bool)
    requires Appending(h0, p, shift, h', q, c, st, next0, t)
    ensures Valid(h'[q := Appended(h0[p].children, Child(c), st)], q, shift)
  {
    var m := Appended(h0[p].children, Child(c), st);
    var h3 := h'[q := m];
    forall i | 0 <= i < m.Len() ensures KidOk(h3, q, m, Down(shift), i) {
      if i < h0[p].Len() {
        AppendOld(h0, p, shift, h', q, c, st, next0, t, Appended(h0[p].children, Child(c), st), i);
      } else {
        AppendNew(h0, p, shift, h', q, c, st, next0, t, Appended(h0[p].children, Child(c), st));
      }
    }
    forall i, j, r | 0 <= i < j < m.Len() && Reaches(h3, m.Kid(i), Down(shift), r)
      ensures !Reaches(h3, m.Kid(j), Down(shift), r)
    {
      AppendDisjoint(h0, p, shift, h', q, c, st, next0, t, i, j, r);
    }
    BranchOf(h3, q, m, shift);
  }

  /** In the setting `Appending`, block `i` of the copy is the old block `i`, or the values of
      `c` for the new slot. */
  lemma AppendBlock<T>(h0: Heap<T>, p: Ptr, shift: nat, h': Heap<T>, q: Ptr, c: Ptr, st: bv8, next0: Ptr, t: bool, m: Node<T>, i: nat)
    requires Appending(h0, p, shift, h', q, c, st, next0, t) && m == Appended(h0[p].children, Child(c), st) && i <= h0[p].Len()
    ensures ElemsOf(h'[q := m], m.children, h0[p].Len() + 1, Down(shift))[i] ==
            (ElemsOf(h0, h0[p].children, h0[p].Len(), Down(shift)) + [Elems(h', c, Down(shift))])[i]
  {
    var s, l := Down(shift), h0[p].Len();
    ElemsOfIndex(h'[q := m], m.children, l + 1, s, i);
    if i < l {
      ElemsOfIndex(h0, h0[p].children, l, s, i);
      AppendOld(h0, p, shift, h', q, c, st, next0, t, m, i);
    } else {
      AppendNew(h0, p, shift, h', q, c, st, next0, t, m);
    }
  }

  /** In the setting `Appending`, the copy holds the old values followed by those of `c`. */
  lemma AppendElems<T>(h0: Heap<T>, p: Ptr, shift: nat, h': Heap<T>, q: Ptr, c: Ptr, st: bv8, next0: Ptr, t: bool)
    requires Appending(h0, p, shift, h', q, c, st, next0, t)
    ensures Elems(h'[q := Appended(h0[p].children, Child(c), st)], q, shift) == Elems(h0, p, shift) + Elems(h', c, Down(shift))
  {
    var m, s, l := Appended(h0[p].children, Child(c), st), Down(shift), h0[p].Len();
    var h3 := h'[q := m];
    var bs := ElemsOf(h0, h0[p].children, l, s) + [Elems(h', c, s)];
    forall i | 0 <= i < l + 1 ensures ElemsOf(h3, m.children, l + 1, s)[i] == bs[i] {
      AppendBlock(h0, p, shift, h', q, c, st, next0, t, m, i);
    }
    assert ElemsOf(h3, m.children, l + 1, s) == bs;
    assert m.Used() == l + 1 && h0[p].Used() == l;
    FlattenAppend(ElemsOf(h0, h0[p].children, l, s), Elems(h', c, s));
  }

  /** In the setting `Appending`, the copy reaches only old nodes of the branch and new ones. */
  lemma AppendReach<T>(h0: Heap<T>, p: Ptr, shift: nat, h': Heap<T>, q: Ptr, c: Ptr, st: bv8, next0: Ptr, t: bool, r: Ptr)
    requires Appending(h0, p, shift, h', q, c, st, next0, t)
    requires Reaches(h'[q := Appended(h0[p].children, Child(c), st)], q, shift, r)
    ensures Reaches(h0, p, shift, r) || next0 <= r
  {
    var m := Appended(h0[p].children, Child(c), st);
    if r != q {
      assert m.Used() == h0[p].Len() + 1;
      var i := ReachesOfMember(h'[q := m], m.children, m.Used(), Down(shift), r);
      assert m.children[i].ptr == m.Kid(i);
      if i < h0[p].Len() {
        AppendOld(h0, p, shift, h', q, c, st, next0, t, Appended(h0[p].children, Child(c), st), i);
        KidReaches(h0, p, shift, i, r);
      } else {
        AppendNew(h0, p, shift, h', q, c, st, next0, t, Appended(h0[p].children, Child(c), st));
      }
    }
  }

  /** `pushBackChild` at a branch with a free slot, in the setting `Appending`: the copy is a
      valid branch tagged with the mode, holding the old values followed by those of `c`,
      reaching only old nodes of the branch and new ones; no old node changed. */
  lemma Append<T>(h0: Heap<T>, p: Ptr, shift: nat, h': Heap<T>, q: Ptr, c: Ptr, st: bv8, next0: Ptr, t: bool)
    requires Appending(h0, p, shift, h', q, c, st, next0, t)
    ensures Valid(h'[q := Appended(h0[p].children, Child(c), st)], q, shift)
    ensures Elems(h'[q := Appended(h0[p].children, Child(c), st)], q, shift) == Elems(h0, p, shift) + Elems(h', c, Down(shift))
    ensures Within(h'[q := Appended(h0[p].children, Child(c), st)], q, shift, h0, p, shift, next0)
    ensures Keeps(h0, h'[q := Appended(h0[p].children, Child(c), st)], p, shift, t)
  {
    AppendValid(h0, p, shift, h', q, c, st, next0, t);
    AppendElems(h0, p, shift, h', q, c, st, next0, t);
    forall r | Reaches(h'[q := Appended(h0[p].children, Child(c), st)], q, shift, r) ensures Reaches(h0, p, shift, r) || next0 <= r {
      AppendReach(h0, p, shift, h', q, c, st, next0, t, r);
    }
    GrowsKeeps(h0, h', p, shift, t);
    WriteKeeps(h0, h', p, shift, t, q, Appended(h0[p].children, Child(c), st));
  }

  /** `pushBackChild` at a full branch: a new node `q`, at an address not yet in use, whose one
      child is a new node `c`. */
  ghost predicate Sprouting<T>(h': Heap<T>, q: Ptr, c: Ptr, shift: nat, t: bool, next0: Ptr, m: Node<T>) {
    (shift >= BranchingBit && shift % BranchingBit == 0 && Below(h', q) &&
     Valid(h', c, Down(shift)) && h'[c].IsTransient() == t && 1 <= |Elems(h', c, Down(shift))| &&
     AllNew(h', c, Down(shift), next0) && next0 <= q) == true &&
    m == Appended(EmptySlots(), Child(c), Status.Fresh(t))
  }

  lemma SproutKid<T>(h': Heap<T>, q: Ptr, c: Ptr, shift: nat, t: bool, next0: Ptr, m: Node<T>)
    requires Sprouting(h', q, c, shift, t, next0, m)
    ensures m.Len() == 1 && m.Kid(0) == c && KidOk(h'[q := m], q, m, Down(shift), 0)
    ensures Elems(h'[q := m], c, Down(shift)) == Elems(h', c, Down(shift))
    ensures AllNew(h'[q := m], c, Down(shift), next0)
  {
    var s := Down(shift);
    if Reaches(h', c, s, q) {
      ReachInHeap(h', c, s, q);
    }
    WriteOutside(h', q, m, c, s);
    var h3 := h'[q := m];
    forall r | Reaches(h3, c, s, r) ensures next0 <= r {
      assert Reaches(h', c, s, r);
    }
  }

  /** The new node of `Sprouting` is a valid branch holding the values of `c`, and every node
      it reaches is new. */
  lemma Sprout<T>(h': Heap<T>, q: Ptr, c: Ptr, shift: nat, t: bool, next0: Ptr, m: Node<T>)
    requires Sprouting(h', q, c, shift, t, next0, m)
    ensures Valid(h'[q := m], q, shift)
    ensures Elems(h'[q := m], q, shift) == Elems(h', c, Down(shift))
    ensures AllNew(h'[q := m], q, shift, next0)
  {
    var s, h3 := Down(shift), h'[q := m];
    SproutKid(h', q, c, shift, t, next0, m);
    BranchOf(h3, q, m, shift);
    assert m.Used() == 1;
    assert ElemsOf(h3, m.children, 1, s) == [Elems(h', c, s)] by {
      ElemsOfIndex(h3, m.children, 1, s, 0);
    }
    FlattenAppend([], Elems(h', c, s));
    assert [] + [Elems(h', c, s)] == [Elems(h', c, s)];
    forall r | Reaches(h3, q, shift, r) ensures next0 <= r {
      if r != q {
        var i := ReachesOfMember(h3, m.children, 1, s, r);
      }
    }
  }

  /** The record of the root `PushBack` makes when the old root `a` overflowed: the old root in
      slot 0 and the new node `c` in slot 1. */
  function Rooted<T>(a: Ptr, c: Ptr, t: bool): (m: Node<T>)
    ensures m.Len() == 2 && m.IsTransient() == t
  {
    var m1 := Appended(EmptySlots(), Child(a), Status.Fresh(t));
    Appended(m1.children, Child(c), m1.status)
  }

  /** The setting of a new root: `a`, the old full root, is untouched since `h0`; `c` and what it
      reaches are new; `q` is an address not yet in use. */
  ghost predicate Rooting<T>(h0: Heap<T>, a: Ptr, h': Heap<T>, q: Ptr, c: Ptr, shift: nat, t: bool, next0: Ptr) {
    (Valid(h0, a, shift) && Grows(h0, h') && Below(h0, next0) && Below(h', q) &&
     Valid(h', c, shift) && AllNew(h', c, shift, next0) &&
     |Elems(h0, a, shift)| == Span(shift) && |Elems(h', c, shift)| >= 1 &&
     (!t ==> !h0[a].IsTransient() && !h'[c].IsTransient())) == true
  }

  /** Every node `p` reaches is an address before `next`. */
  ghost predicate AllOld<T>(h: Heap<T>, p: Ptr, shift: nat, next: Ptr) {
    forall r: Ptr :: Reaches(h, p, shift, r) ==> r < next
  }

  lemma RootOld<T>(h0: Heap<T>, a: Ptr, h': Heap<T>, q: Ptr, c: Ptr, shift: nat, t: bool, next0: Ptr, m: Node<T>)
    requires Rooting(h0, a, h', q, c, shift, t, next0) && m == Rooted(a, c, t)
    ensures m.Kid(0) == a && KidOk(h'[q := m], q, m, Down(shift + BranchingBit), 0)
    ensures Elems(h'[q := m], a, shift) == Elems(h0, a, shift)
    ensures AllOld(h'[q := m], a, shift, next0)
  {
    GrowsFrame(h0, h', a, shift);
    if Reaches(h', a, shift, q) {
      ReachInHeap(h', a, shift, q);
    }
    WriteOutside(h', q, m, a, shift);
    var h3 := h'[q := m];
    forall r: Ptr | Reaches(h3, a, shift, r) ensures r < next0 {
      assert Reaches(h0, a, shift, r);
      ReachInHeap(h0, a, shift, r);
    }
  }

  lemma RootNew<T>(h0: Heap<T>, a: Ptr, h': Heap<T>, q: Ptr, c: Ptr, shift: nat, t: bool, next0: Ptr, m: Node<T>)
    requires Rooting(h0, a, h', q, c, shift, t, next0) && m == Rooted(a, c, t)
    ensures m.Kid(1) == c && KidOk(h'[q := m], q, m, Down(shift + BranchingBit), 1)
    ensures Elems(h'[q := m], c, shift) == Elems(h', c, shift)
    ensures AllNew(h'[q := m], c, shift, next0)
  {
    if Reaches(h', c, shift, q) {
      ReachInHeap(h', c, shift, q);
    }
    WriteOutside(h', q, m, c, shift);
    var h3 := h'[q := m];
    forall r | Reaches(h3, c, shift, r) ensures next0 <= r {
      assert Reaches(h', c, shift, r);
    }
  }

  /** The root `PushBack` makes when the old root overflowed is a valid branch one level up,
      holding the values of the old root followed by those of `c`. */
  lemma NewRoot<T>(h0: Heap<T>, a: Ptr, h': Heap<T>, q: Ptr, c: Ptr, shift: nat, t: bool, next0: Ptr)
    requires Rooting(h0, a, h', q, c, shift, t, next0)
    ensures Valid(h'[q := Rooted(a, c, t)], q, shift + BranchingBit)
    ensures Elems(h'[q := Rooted(a, c, t)], q, shift + BranchingBit) == Elems(h0, a, shift) + Elems(h', c, shift)
  {
    var m: Node<T> := Rooted(a, c, t);
    var h3, S := h'[q := m], shift + BranchingBit;
    assert Down(S) == shift;
    RootOld(h0, a, h', q, c, shift, t, next0, m);
    RootNew(h0, a, h', q, c, shift, t, next0, m);
    forall i | 0 <= i < m.Len() ensures KidOk(h3, q, m, Down(S), i) {
    }
    forall i, j, r | 0 <= i < j < m.Len() && Reaches(h3, m.Kid(i), Down(S), r)
      ensures !Reaches(h3, m.Kid(j), Down(S), r)
    {
    }
    BranchOf(h3, q, m, S);
    assert m.Used() == 2;
    assert ElemsOf(h3, m.children, 2, shift) == [Elems(h0, a, shift), Elems(h', c, shift)] by {
      ElemsOfIndex(h3, m.children, 2, shift, 0);
      ElemsOfIndex(h3, m.children, 2, shift, 1);
    }
    FlattenAppend([], Elems(h0, a, shift));
    FlattenAppend([Elems(h0, a, shift)], Elems(h', c, shift));
    assert [] + [Elems(h0, a, shift)] == [Elems(h0, a, shift)];
    assert [Elems(h0, a, shift)] + [Elems(h', c, shift)] == [Elems(h0, a, shift), Elems(h', c, shift)];
  }
}
