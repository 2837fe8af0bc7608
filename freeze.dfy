/** `convertPersistent` as a function of the heap: every node the trie reaches loses its
    transient bit, and nothing else changes. Clearing status bits changes neither which nodes a
    trie reaches nor what it holds, and leaves a valid trie valid with every node persistent. */
module Freezing {
  import Status
  import opened Radix
  import opened Trie

  /** A node after `status &= lenMask`. */
  function Persisted<T>(n: Node<T>): (m: Node<T>)
    ensures m.children == n.children && m.Len() == n.Len() && !m.IsTransient()
    ensures Status.Ok(n.status) ==> Status.Ok(m.status)
    ensures Status.Ok(n.status) && !n.IsTransient() ==> m == n
  {
    n.(status := Status.Freeze(n.status))
  }

  /** The heap after `convertPersistent` of the trie at `p`: each node it reaches persisted. */
  ghost function Frozen<T>(h: Heap<T>, p: Ptr, shift: nat): (h': Heap<T>)
    ensures h'.Keys == h.Keys
  {
    map r | r in h :: if Reaches(h, p, shift, r) then Persisted(h[r]) else h[r]
  }

  /** The heap part way through `convertPersistent` at the branch `p`: `p` and what its first
      `k` children reach persisted. */
  ghost function FrozenUpTo<T>(h: Heap<T>, p: Ptr, shift: nat, k: nat): (h': Heap<T>)
    requires p in h && k <= |h[p].children|
    ensures h'.Keys == h.Keys && h'[p] == Persisted(h[p])
  {
    map r | r in h :: if r == p || ReachesOf(h, h[p].children, k, Down(shift), r) then Persisted(h[r]) else h[r]
  }

  /** `h'` has the same addresses as `h` and the same slots and counts at each. */
  ghost predicate SameShape<T>(h: Heap<T>, h': Heap<T>) {
    h'.Keys == h.Keys &&
    forall r :: r in h ==> h'[r].children == h[r].children && h'[r].Len() == h[r].Len()
  }

  /** Which nodes a trie reaches depends only on the slots and counts of the heap's nodes. */
  lemma {:induction false} ShapeReach<T>(h: Heap<T>, h': Heap<T>, p: Ptr, shift: nat, r: Ptr)
    requires SameShape(h, h')
    ensures Reaches(h', p, shift, r) == Reaches(h, p, shift, r)
    decreases shift, 1, 0
  {
    if p in h && shift >= BranchingBit {
      assert h'[p].Used() == h[p].Used();
      ShapeReachOf(h, h', h[p].children, h[p].Used(), Down(shift), r);
    }
  }

  lemma {:induction false} ShapeReachOf<T>(h: Heap<T>, h': Heap<T>, cs: seq<Slot<T>>, k: nat, shift: nat, r: Ptr)
    requires SameShape(h, h') && k <= |cs|
    ensures ReachesOf(h', cs, k, shift, r) == ReachesOf(h, cs, k, shift, r)
    decreases shift, 2, k
  {
    if k > 0 {
      ShapeReachOf(h, h', cs, k - 1, shift, r);
      if cs[k - 1].Child? {
        ShapeReach(h, h', cs[k - 1].ptr, shift, r);
      }
    }
  }

  /** So do the values a trie holds. */
  lemma {:induction false} ShapeElems<T>(h: Heap<T>, h': Heap<T>, p: Ptr, shift: nat)
    requires SameShape(h, h')
    ensures Elems(h', p, shift) == Elems(h, p, shift)
    decreases shift, 1, 0
  {
    if p in h {
      assert h'[p].Used() == h[p].Used();
      if shift >= BranchingBit {
        ShapeElemsOf(h, h', h[p].children, h[p].Used(), Down(shift));
      }
    }
  }

  lemma {:induction false} ShapeElemsOf<T>(h: Heap<T>, h': Heap<T>, cs: seq<Slot<T>>, k: nat, shift: nat)
    requires SameShape(h, h') && k <= |cs|
    ensures ElemsOf(h', cs, k, shift) == ElemsOf(h, cs, k, shift)
    decreases shift, 2, k
  {
    if k > 0 {
      ShapeElemsOf(h, h', cs, k - 1, shift);
      if cs[k - 1].Child? {
        ShapeElems(h, h', cs[k - 1].ptr, shift);
      }
    }
  }

  /** Freezing keeps the shape of the heap. */
  lemma FrozenShape<T>(h: Heap<T>, p: Ptr, shift: nat)
    ensures SameShape(h, Frozen(h, p, shift))
    ensures forall r :: Reaches(Frozen(h, p, shift), p, shift, r) == Reaches(h, p, shift, r)
    ensures Elems(Frozen(h, p, shift), p, shift) == Elems(h, p, shift)
  {
    var hf := Frozen(h, p, shift);
    assert SameShape(h, hf);
    forall r ensures Reaches(hf, p, shift, r) == Reaches(h, p, shift, r) {
      ShapeReach(h, hf, p, shift, r);
    }
    ShapeElems(h, hf, p, shift);
  }

  /** `convertPersistent` leaves a valid trie valid, holding the same values, and every node it
      reaches persistent. */
  lemma {:induction false} FreezeValid<T>(h: Heap<T>, p: Ptr, shift: nat)
    requires Valid(h, p, shift)
    ensures Valid(Frozen(h, p, shift), p, shift)
    ensures Elems(Frozen(h, p, shift), p, shift) == Elems(h, p, shift)
    ensures forall r :: Reaches(h, p, shift, r) ==> r in Frozen(h, p, shift) && !Frozen(h, p, shift)[r].IsTransient()
    decreases shift, 1
  {
    var hf := Frozen(h, p, shift);
    FrozenShape(h, p, shift);
    forall r: Ptr | Reaches(h, p, shift, r) ensures r in hf && !hf[r].IsTransient() {
      ReachInHeap(h, p, shift, r);
    }
    assert Reaches(h, p, shift, p);
    if shift > 0 {
      var m := hf[p];
      forall i | 0 <= i < m.Len() ensures KidOk(hf, p, m, Down(shift), i) {
        FreezeKid(h, p, shift, i);
      }
      forall i, j, r: Ptr | 0 <= i < j < m.Len() && Reaches(hf, m.Kid(i), Down(shift), r)
        ensures !Reaches(hf, m.Kid(j), Down(shift), r)
      {
        ShapeReach(h, hf, m.Kid(i), Down(shift), r);
        ShapeReach(h, hf, m.Kid(j), Down(shift), r);
        KidsDisjoint(h, p, shift, i, j, r);
      }
      BranchOf(hf, p, m, shift);
    }
  }

  /** Slot `i` of a frozen branch holds its child, frozen along with it. */
  lemma FreezeKid<T>(h: Heap<T>, p: Ptr, shift: nat, i: nat)
    requires Valid(h, p, shift) && shift > 0 && i < h[p].Len()
    ensures KidOk(Frozen(h, p, shift), p, Frozen(h, p, shift)[p], Down(shift), i)
    decreases shift, 0
  {
    var hf, s, k := Frozen(h, p, shift), Down(shift), h[p].Kid(i);
    ChildOf(h, p, shift, i);
    FreezeValid(h, k, s);
    FreezeAgree(h, p, shift, i);
    Frame(Frozen(h, k, s), hf, k, s);
    FrozenShape(h, k, s);
    assert SameShape(h, hf);
    ShapeReach(h, hf, k, s, p);
    ShapeElems(h, hf, k, s);
    assert Reaches(h, k, s, k);
    KidReaches(h, p, shift, i, k);
  }

  /** Freezing a branch freezes what its child in slot `i` reaches as freezing the child
      alone does. */
  lemma FreezeAgree<T>(h: Heap<T>, p: Ptr, shift: nat, i: nat)
    requires Valid(h, p, shift) && shift > 0 && i < h[p].Len()
    ensures Agree(Frozen(h, h[p].Kid(i), Down(shift)), Frozen(h, p, shift), h[p].Kid(i), Down(shift))
  {
    var hf, s, k := Frozen(h, p, shift), Down(shift), h[p].Kid(i);
    var hk := Frozen(h, k, s);
    assert SameShape(h, hk);
    forall r | Reaches(hk, k, s, r) ensures r in hk && r in hf && hf[r] == hk[r] {
      ShapeReach(h, hk, k, s, r);
      ChildOf(h, p, shift, i);
      KidReaches(h, p, shift, i, r);
      ReachInHeap(h, k, s, r);
    }
  }

  /** Freezing a trie whose root is already persistent changes nothing: every node it reaches
      is persistent. This is why `convertPersistent` stops at a persistent node. */
  lemma FreezePersistent<T>(h: Heap<T>, p: Ptr, shift: nat)
    requires Valid(h, p, shift) && !h[p].IsTransient()
    ensures Frozen(h, p, shift) == h
  {
    var hf := Frozen(h, p, shift);
    forall r | r in h ensures hf[r] == h[r] {
      if Reaches(h, p, shift, r) {
        AllPersistent(h, p, shift, r);
      }
    }
  }

  /** `convertPersistent` changes transient nodes only. */
  lemma FreezeTransientOnly<T>(h: Heap<T>, p: Ptr, shift: nat)
    requires Valid(h, p, shift)
    ensures forall r :: r in h ==> r in Frozen(h, p, shift) && (Frozen(h, p, shift)[r] == h[r] || h[r].IsTransient())
  {
    forall r | r in h && Reaches(h, p, shift, r) {
      ReachInHeap(h, p, shift, r);
    }
  }

  /** `convertPersistent` is idempotent. */
  lemma FreezeIdempotent<T>(h: Heap<T>, p: Ptr, shift: nat)
    requires Valid(h, p, shift)
    ensures Frozen(Frozen(h, p, shift), p, shift) == Frozen(h, p, shift)
  {
    FreezeValid(h, p, shift);
    assert Reaches(h, p, shift, p);
    FreezePersistent(Frozen(h, p, shift), p, shift);
  }

  /** At a leaf, `convertPersistent` persists the leaf alone. */
  lemma FrozenLeaf<T>(h: Heap<T>, p: Ptr)
    requires p in h
    ensures Frozen(h, p, 0) == h[p := Persisted(h[p])]
  {
  }

  /** Before the loop over the children, only the branch itself is persisted. */
  lemma FrozenStart<T>(h: Heap<T>, p: Ptr, shift: nat)
    requires p in h
    ensures FrozenUpTo(h, p, shift, 0) == h[p := Persisted(h[p])]
  {
  }

  /** After the loop over all the children, the whole trie is persisted. */
  lemma FrozenEnd<T>(h: Heap<T>, p: Ptr, shift: nat)
    requires Valid(h, p, shift) && shift > 0
    ensures FrozenUpTo(h, p, shift, h[p].Len()) == Frozen(h, p, shift)
  {
    assert h[p].Used() == h[p].Len();
  }

  /** One turn of the loop: the child in slot `i` is still valid part way through, and
      persisting it moves on to the next slot. */
  lemma FrozenStep<T>(h: Heap<T>, p: Ptr, shift: nat, i: nat)
    requires Valid(h, p, shift) && shift > 0 && i < h[p].Len()
    ensures h[p].children[i] == Child(h[p].Kid(i)) && FrozenUpTo(h, p, shift, i)[p] == Persisted(h[p])
    ensures Valid(FrozenUpTo(h, p, shift, i), h[p].Kid(i), Down(shift))
    ensures Frozen(FrozenUpTo(h, p, shift, i), h[p].Kid(i), Down(shift)) == FrozenUpTo(h, p, shift, i + 1)
  {
    var s, k, hi := Down(shift), h[p].Kid(i), FrozenUpTo(h, p, shift, i);
    ChildOf(h, p, shift, i);
    forall r | Reaches(h, k, s, r) ensures r in h && r in hi && hi[r] == h[r] {
      ReachInHeap(h, k, s, r);
      if ReachesOf(h, h[p].children, i, s, r) {
        var j := ReachesOfMember(h, h[p].children, i, s, r);
        KidsDisjoint(h, p, shift, j, i, r);
      }
    }
    Frame(h, hi, k, s);
    var hn := Frozen(hi, k, s);
    forall r | r in h ensures hn[r] == FrozenUpTo(h, p, shift, i + 1)[r] {
      assert ReachesOf(h, h[p].children, i + 1, s, r) == (ReachesOf(h, h[p].children, i, s, r) || Reaches(h, k, s, r));
    }
  }
}
