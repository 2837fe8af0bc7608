/** The trie of the persistent vector, as values. Go's `*node` objects live in a heap; here
    that heap is a map from addresses to node records, so that sharing between vectors and
    updates in place stay visible. Validity, contents and the set of nodes a trie reaches are
    functions of such a map. */
module Trie {
  import Status
  import opened Radix
  import opened Blocks

  /** The address of a node (Go's `*node`). */
  type Ptr = nat

  /** A slot of a node: Go's `interface{}` slot, which is nil, a stored value or a `*node`. */
  datatype Slot<T> = Empty | Val(value: T) | Child(ptr: Ptr)

  /** The fields of a node: Go's `[branchingFactor]interface{}` array and the status byte
      (T0LLLLLL: transient bit, occupied count). */
  datatype Node<T> = Node(children: seq<Slot<T>>, status: bv8) {
    /** `node.len`: the number of occupied slots. */
    function Len(): nat {
      Status.Len(status)
    }

    /** `node.isTransient`. */
    predicate IsTransient() {
      Status.IsTransient(status)
    }

    /** The occupied slots that exist: `Len()`, or fewer when the node has fewer slots. */
    function Used(): (k: nat)
      ensures k <= |children|
    {
      if Len() <= |children| then Len() else |children|
    }

    /** The node in slot `i`, when there is one. */
    function Kid(i: nat): Ptr {
      if i < |children| && children[i].Child? then children[i].ptr else 0
    }

    /** The last occupied slot, when there is one. */
    function Last(): nat {
      if Len() == 0 then 0 else Len() - 1
    }

    /** 32 slots, a well-formed status and slots `[Len(), 32)` empty. */
    ghost predicate Shaped() {
      |children| == BranchingFactor && Status.Ok(status) &&
      forall i :: Len() <= i < BranchingFactor ==> children[i] == Empty
    }
  }

  /** The nodes of the Go heap, by address. */
  type Heap<T> = map<Ptr, Node<T>>

  /** 32 empty slots: the slots of a new node. */
  function EmptySlots<T>(): (cs: seq<Slot<T>>)
    ensures |cs| == BranchingFactor && forall i :: 0 <= i < |cs| ==> cs[i] == Empty
  {
    seq(BranchingFactor, _ => Empty)
  }

  /** Every address in use is below `next`, the next address to hand out. */
  ghost predicate Below<T>(h: Heap<T>, next: Ptr) {
    forall r :: r in h ==> r < next
  }

  /** Writing a node at an address below `next` keeps every address in use below it. */
  lemma BelowWrite<T>(h: Heap<T>, next: Ptr, q: Ptr, m: Node<T>)
    requires Below(h, next) && q < next
    ensures Below(h[q := m], next)
  {
  }

  /** The shift of the children of a node at `shift`. */
  function Down(shift: nat): nat {
    if shift < BranchingBit then 0 else shift - BranchingBit
  }

  /** Whether the node at `p`, at `shift`, reaches the address `r`: `r` is `p`, or, above the
      leaves, a node in one of `p`'s occupied slots reaches it one level down. */
  ghost predicate Reaches<T>(h: Heap<T>, p: Ptr, shift: nat, r: Ptr)
    decreases shift, 1, 0
  {
    r == p || (p in h && shift >= BranchingBit && ReachesOf(h, h[p].children, h[p].Used(), Down(shift), r))
  }

  /** Whether a node in the first `k` slots of `cs` reaches `r`. */
  ghost predicate ReachesOf<T>(h: Heap<T>, cs: seq<Slot<T>>, k: nat, shift: nat, r: Ptr)
    requires k <= |cs|
    decreases shift, 2, k
  {
    k > 0 && (ReachesOf(h, cs, k - 1, shift, r) || (cs[k - 1].Child? && Reaches(h, cs[k - 1].ptr, shift, r)))
  }

  /** The values of the first `k` slots of a leaf, in order. */
  function Values<T>(cs: seq<Slot<T>>, k: nat): seq<T>
    requires k <= |cs|
  {
    if k == 0 then [] else Values(cs, k - 1) + (if cs[k - 1].Val? then [cs[k - 1].value] else [])
  }

  /** The values stored under the node at `p`, in index order. */
  ghost function Elems<T>(h: Heap<T>, p: Ptr, shift: nat): seq<T>
    decreases shift, 1, 0
  {
    if p !in h then []
    else if shift < BranchingBit then Values(h[p].children, h[p].Used())
    else Flatten(ElemsOf(h, h[p].children, h[p].Used(), Down(shift)))
  }

  /** The contents of the nodes in the first `k` slots of `cs`, one block per slot. */
  ghost function ElemsOf<T>(h: Heap<T>, cs: seq<Slot<T>>, k: nat, shift: nat): (bs: seq<seq<T>>)
    requires k <= |cs|
    ensures |bs| == k
    decreases shift, 2, k
  {
    if k == 0 then []
    else ElemsOf(h, cs, k - 1, shift) + [if cs[k - 1].Child? then Elems(h, cs[k - 1].ptr, shift) else []]
  }

  /** The node invariant at `shift` (a multiple of 5): 32 slots, of which `[0, Len())` are taken.
      A leaf holds values there. A branch holds at least one child there, every slot is
      `KidOk` (a valid child one level down, dense to the left) and no node is reached by two
      children. The body is written `(...) == true` so that the verifier keeps it as one fact
      rather than splitting the conjunction at every use; the setting predicates of `Edits`
      and `Steps` are wrapped the same way, for the same reason. */
  ghost predicate Valid<T>(h: Heap<T>, p: Ptr, shift: nat)
    decreases shift, 1, 0
  {
    (p in h && shift % BranchingBit == 0 && h[p].Shaped() &&
     if shift == 0 then
       forall i :: 0 <= i < h[p].Len() ==> h[p].children[i].Val?
     else
       1 <= h[p].Len() &&
       (forall i :: 0 <= i < h[p].Len() ==> KidOk(h, p, h[p], Down(shift), i)) &&
       (forall i, j, r :: 0 <= i < j < h[p].Len() && Reaches(h, h[p].Kid(i), Down(shift), r) ==>
          !Reaches(h, h[p].Kid(j), Down(shift), r))) == true
  }

  /** Slot `i` of the record `m` at `q`, whose children are at shift `s`, holds a valid child
      that does not reach `q` and is persistent when `m` is; the child is full unless it is in
      the last occupied slot, and holds at least one value. */
  ghost predicate KidOk<T>(h: Heap<T>, q: Ptr, m: Node<T>, s: nat, i: nat)
    decreases s + BranchingBit, 0, 0
  {
    i < |m.children| && m.children[i] == Child(m.Kid(i)) && Valid(h, m.Kid(i), s) &&
    !Reaches(h, m.Kid(i), s, q) && (!m.IsTransient() ==> !h[m.Kid(i)].IsTransient()) &&
    (i < m.Last() ==> |Elems(h, m.Kid(i), s)| == Span(s)) &&
    |Elems(h, m.Kid(i), s)| >= 1
  }

  /** `h'` holds the same nodes as `h` at every address the node at `p` reaches in `h`. */
  ghost predicate Agree<T>(h: Heap<T>, h': Heap<T>, p: Ptr, shift: nat) {
    forall r :: Reaches(h, p, shift, r) ==> (r in h <==> r in h') && (r in h ==> h'[r] == h[r])
  }

  /** What the node in slot `i < k` of `cs` reaches, the first `k` slots reach. */
  lemma {:induction false} InReachesOf<T>(h: Heap<T>, cs: seq<Slot<T>>, k: nat, shift: nat, i: nat, r: Ptr)
    requires i < k <= |cs| && cs[i].Child? && Reaches(h, cs[i].ptr, shift, r)
    ensures ReachesOf(h, cs, k, shift, r)
  {
    if i < k - 1 {
      InReachesOf(h, cs, k - 1, shift, i, r);
    }
  }

  /** An address the first `k` slots of `cs` reach is reached by one of them. */
  lemma {:induction false} ReachesOfMember<T>(h: Heap<T>, cs: seq<Slot<T>>, k: nat, shift: nat, r: Ptr) returns (i: nat)
    requires k <= |cs| && ReachesOf(h, cs, k, shift, r)
    ensures i < k && cs[i].Child? && Reaches(h, cs[i].ptr, shift, r)
  {
    if cs[k - 1].Child? && Reaches(h, cs[k - 1].ptr, shift, r) {
      i := k - 1;
    } else {
      i := ReachesOfMember(h, cs, k - 1, shift, r);
    }
  }

  /** A valid node above the leaves sits at least one level up. */
  lemma BranchShift<T>(h: Heap<T>, p: Ptr, shift: nat)
    requires Valid(h, p, shift) && shift > 0
    ensures shift >= BranchingBit && Down(shift) == shift - BranchingBit
  {
  }

  /** The child in slot `i` of a valid branch is valid one level down, does not reach the
      branch, is persistent when the branch is, and is full unless it is the last. */
  lemma ChildOf<T>(h: Heap<T>, p: Ptr, shift: nat, i: nat)
    requires Valid(h, p, shift) && shift > 0 && i < h[p].Len()
    ensures h[p].children[i] == Child(h[p].Kid(i)) && Valid(h, h[p].Kid(i), Down(shift))
    ensures !Reaches(h, h[p].Kid(i), Down(shift), p)
    ensures !h[p].IsTransient() ==> !h[h[p].Kid(i)].IsTransient()
    ensures i < h[p].Last() ==> |Elems(h, h[p].Kid(i), Down(shift))| == Width(shift)
    ensures |Elems(h, h[p].Kid(i), Down(shift))| >= 1
  {
    assert KidOk(h, p, h[p], Down(shift), i);
    DigitOfRelative(0, shift);
  }

  /** What a child of a valid branch reaches, the branch reaches. */
  lemma KidReaches<T>(h: Heap<T>, p: Ptr, shift: nat, i: nat, r: Ptr)
    requires Valid(h, p, shift) && shift > 0 && i < h[p].Len() && Reaches(h, h[p].Kid(i), Down(shift), r)
    ensures Reaches(h, p, shift, r)
  {
    ChildOf(h, p, shift, i);
    InReachesOf(h, h[p].children, h[p].Used(), Down(shift), i, r);
  }

  /** An address a valid branch reaches other than itself is reached by one of its children. */
  lemma ReachesKid<T>(h: Heap<T>, p: Ptr, shift: nat, r: Ptr) returns (i: nat)
    requires Valid(h, p, shift) && Reaches(h, p, shift, r) && r != p
    ensures shift > 0 && i < h[p].Len() && Reaches(h, h[p].Kid(i), Down(shift), r)
  {
    i := ReachesOfMember(h, h[p].children, h[p].Used(), Down(shift), r);
  }

  /** No address is reached by two children of a valid branch. */
  lemma KidsDisjoint<T>(h: Heap<T>, p: Ptr, shift: nat, i: nat, j: nat, r: Ptr)
    requires Valid(h, p, shift) && shift > 0 && i < h[p].Len() && j < h[p].Len() && i != j
    requires Reaches(h, h[p].Kid(i), Down(shift), r)
    ensures !Reaches(h, h[p].Kid(j), Down(shift), r)
  {
  }

  /** A valid node reaches only addresses in use. */
  lemma {:induction false} ReachInHeap<T>(h: Heap<T>, p: Ptr, shift: nat, r: Ptr)
    requires Valid(h, p, shift) && Reaches(h, p, shift, r)
    ensures r in h && Status.Ok(h[r].status)
    decreases shift
  {
    if r != p {
      var i := ReachesKid(h, p, shift, r);
      ChildOf(h, p, shift, i);
      ReachInHeap(h, h[p].Kid(i), Down(shift), r);
    }
  }

  /** Block `i` of `ElemsOf(h, cs, k, shift)` is the contents of the node in slot `i`. */
  lemma {:induction false} ElemsOfIndex<T>(h: Heap<T>, cs: seq<Slot<T>>, k: nat, shift: nat, i: nat)
    requires i < k <= |cs|
    ensures ElemsOf(h, cs, k, shift)[i] == if cs[i].Child? then Elems(h, cs[i].ptr, shift) else []
  {
    if i < k - 1 {
      ElemsOfIndex(h, cs, k - 1, shift, i);
    }
  }

  /** A heap that agrees with `h` on what a node reaches agrees with it on what each of the
      node's children reaches. */
  lemma AgreeChild<T>(h: Heap<T>, h': Heap<T>, p: Ptr, shift: nat, i: nat)
    requires Agree(h, h', p, shift) && p in h && shift >= BranchingBit && i < h[p].Used() && h[p].children[i].Child?
    ensures Agree(h, h', h[p].children[i].ptr, Down(shift))
  {
    forall r | Reaches(h, h[p].children[i].ptr, Down(shift), r) ensures Reaches(h, p, shift, r) {
      InReachesOf(h, h[p].children, h[p].Used(), Down(shift), i, r);
    }
  }

  /** What a node reaches is the same in any heap that holds those nodes unchanged ... */
  lemma {:induction false} FrameReach<T>(h: Heap<T>, h': Heap<T>, p: Ptr, shift: nat, r: Ptr)
    requires Agree(h, h', p, shift)
    ensures Reaches(h', p, shift, r) == Reaches(h, p, shift, r)
    decreases shift, 1, 0
  {
    assert Reaches(h, p, shift, p);
    if p in h && shift >= BranchingBit {
      FrameReachOf(h, h', p, shift, h[p].Used(), r);
    }
  }

  lemma {:induction false} FrameReachOf<T>(h: Heap<T>, h': Heap<T>, p: Ptr, shift: nat, k: nat, r: Ptr)
    requires Agree(h, h', p, shift) && p in h && shift >= BranchingBit && k <= h[p].Used()
    ensures ReachesOf(h', h[p].children, k, Down(shift), r) == ReachesOf(h, h[p].children, k, Down(shift), r)
    decreases shift, 0, k
  {
    if k > 0 {
      FrameReachOf(h, h', p, shift, k - 1, r);
      if h[p].children[k - 1].Child? {
        AgreeChild(h, h', p, shift, k - 1);
        FrameReach(h, h', h[p].children[k - 1].ptr, Down(shift), r);
      }
    }
  }

  /** The contents of a branch record are the concatenation of blocks that agree one by one
      with the blocks of its used slots. */
  lemma BranchElems<T>(h: Heap<T>, q: Ptr, shift: nat, n: Node<T>, bs: seq<seq<T>>)
    requires q in h && h[q] == n && shift >= BranchingBit && |bs| == n.Used()
    requires forall i :: 0 <= i < n.Used() ==> ElemsOf(h, n.children, n.Used(), Down(shift))[i] == bs[i]
    ensures Elems(h, q, shift) == Flatten(bs)
  {
    assert ElemsOf(h, n.children, n.Used(), Down(shift)) == bs;
  }

  /** `ElemsOf` depends only on the contents of each slot's node. */
  lemma {:induction false} ElemsOfSame<T>(h: Heap<T>, h': Heap<T>, cs: seq<Slot<T>>, k: nat, shift: nat)
    requires k <= |cs|
    requires forall i :: 0 <= i < k && cs[i].Child? ==> Elems(h', cs[i].ptr, shift) == Elems(h, cs[i].ptr, shift)
    ensures ElemsOf(h', cs, k, shift) == ElemsOf(h, cs, k, shift)
  {
    if k > 0 {
      ElemsOfSame(h, h', cs, k - 1, shift);
    }
  }

  /** ... and so are its contents ... */
  lemma {:induction false} FrameElems<T>(h: Heap<T>, h': Heap<T>, p: Ptr, shift: nat)
    requires Agree(h, h', p, shift)
    ensures Elems(h', p, shift) == Elems(h, p, shift)
    decreases shift
  {
    assert Reaches(h, p, shift, p);
    if p in h && shift >= BranchingBit {
      var n, s := h[p], Down(shift);
      forall i | 0 <= i < n.Used() && n.children[i].Child?
        ensures Elems(h', n.children[i].ptr, s) == Elems(h, n.children[i].ptr, s)
      {
        AgreeChild(h, h', p, shift, i);
        FrameElems(h, h', n.children[i].ptr, s);
      }
      ElemsOfSame(h, h', n.children, n.Used(), s);
    }
  }

  /** ... and a valid node stays valid there. */
  lemma {:induction false} Frame<T>(h: Heap<T>, h': Heap<T>, p: Ptr, shift: nat)
    requires Valid(h, p, shift) && Agree(h, h', p, shift)
    ensures Valid(h', p, shift) && Elems(h', p, shift) == Elems(h, p, shift)
    ensures forall r :: Reaches(h', p, shift, r) == Reaches(h, p, shift, r)
    decreases shift
  {
    forall r ensures Reaches(h', p, shift, r) == Reaches(h, p, shift, r) {
      FrameReach(h, h', p, shift, r);
    }
    FrameElems(h, h', p, shift);
    assert Reaches(h, p, shift, p);
    if shift > 0 {
      var n, s := h[p], Down(shift);
      forall i | 0 <= i < n.Len()
        ensures n.children[i] == Child(n.Kid(i)) && Valid(h', n.Kid(i), s)
        ensures n.Kid(i) in h && h'[n.Kid(i)] == h[n.Kid(i)]
        ensures forall r :: Reaches(h', n.Kid(i), s, r) == Reaches(h, n.Kid(i), s, r)
        ensures Elems(h', n.Kid(i), s) == Elems(h, n.Kid(i), s)
      {
        ChildOf(h, p, shift, i);
        AgreeChild(h, h', p, shift, i);
        Frame(h, h', n.Kid(i), s);
        assert Reaches(h, n.Kid(i), s, n.Kid(i));
      }
      BranchSame(h, h', p, shift);
    }
  }

  /** A branch is valid in `h'` when it and its children are the same nodes there, reaching and
      holding the same, and its children are valid there. */
  lemma BranchSame<T>(h: Heap<T>, h': Heap<T>, p: Ptr, shift: nat)
    requires Valid(h, p, shift) && shift > 0 && p in h' && h'[p] == h[p]
    requires forall i :: 0 <= i < h[p].Len() ==>
               h[p].Kid(i) in h && Valid(h', h[p].Kid(i), Down(shift)) &&
               h'[h[p].Kid(i)] == h[h[p].Kid(i)] &&
               (forall r :: Reaches(h', h[p].Kid(i), Down(shift), r) == Reaches(h, h[p].Kid(i), Down(shift), r)) &&
               Elems(h', h[p].Kid(i), Down(shift)) == Elems(h, h[p].Kid(i), Down(shift))
    ensures Valid(h', p, shift)
  {
    var n, s := h[p], Down(shift);
    forall i | 0 <= i < n.Len() ensures KidOk(h', p, n, s, i) {
      ChildOf(h, p, shift, i);
    }
    forall i, j, r | 0 <= i < j < n.Len() && Reaches(h', n.Kid(i), s, r) ensures !Reaches(h', n.Kid(j), s, r) {
      KidsDisjoint(h, p, shift, i, j, r);
    }
  }

  /** A leaf whose first `k` slots hold values stores exactly those values, in slot order. */
  lemma {:induction false} ValuesAll<T>(cs: seq<Slot<T>>, k: nat)
    requires k <= |cs| && forall i :: 0 <= i < k ==> cs[i].Val?
    ensures |Values(cs, k)| == k
    ensures forall i :: 0 <= i < k ==> Values(cs, k)[i] == cs[i].value
  {
    if k > 0 {
      ValuesAll(cs, k - 1);
    }
  }

  /** The contents of a valid leaf are the values in its occupied slots. */
  lemma LeafElems<T>(h: Heap<T>, p: Ptr)
    requires Valid(h, p, 0)
    ensures |Elems(h, p, 0)| == h[p].Len()
    ensures forall i :: 0 <= i < h[p].Len() ==> Elems(h, p, 0)[i] == h[p].children[i].value
  {
    ValuesAll(h[p].children, h[p].Used());
  }

  /** The blocks of a valid branch, `ElemsOf(h, children, Len(), shift - 5)`, are its
      children's contents; all but the last have the width of one slot. */
  lemma BranchBlocks<T>(h: Heap<T>, p: Ptr, shift: nat)
    requires Valid(h, p, shift) && shift > 0
    ensures Elems(h, p, shift) == Flatten(ElemsOf(h, h[p].children, h[p].Len(), Down(shift)))
    ensures Uniform(ElemsOf(h, h[p].children, h[p].Len(), Down(shift)), h[p].Last(), Width(shift))
    ensures forall i :: 0 <= i < h[p].Len() ==>
              ElemsOf(h, h[p].children, h[p].Len(), Down(shift))[i] == Elems(h, h[p].Kid(i), Down(shift))
  {
    var n, s := h[p], Down(shift);
    assert n.Used() == n.Len();
    DigitOfRelative(0, shift);
    forall i | 0 <= i < n.Len()
      ensures ElemsOf(h, n.children, n.Len(), s)[i] == Elems(h, n.Kid(i), s)
      ensures i < n.Last() ==> |Elems(h, n.Kid(i), s)| == Width(shift)
    {
      ElemsOfIndex(h, n.children, n.Len(), s, i);
      ChildOf(h, p, shift, i);
    }
  }

  /** The size of a valid branch: one slot's width per child before the last, plus what the
      last child holds. */
  lemma BranchLength<T>(h: Heap<T>, p: Ptr, shift: nat)
    requires Valid(h, p, shift) && shift > 0
    ensures |Elems(h, p, shift)| == Offset(h[p].Last(), Width(shift)) + |Elems(h, h[p].Kid(h[p].Last()), Down(shift))|
  {
    var n, s := h[p], Down(shift);
    BranchBlocks(h, p, shift);
    FlattenLength(ElemsOf(h, n.children, n.Len(), s), Width(shift));
    OffsetIsProduct(n.Last(), Width(shift));
  }

  /** A valid node holds at most its span, and exactly that when all 32 slots are taken and
      (in a branch) the last child is full. */
  lemma {:induction false} Size<T>(h: Heap<T>, p: Ptr, shift: nat)
    requires Valid(h, p, shift)
    ensures |Elems(h, p, shift)| <= Span(shift)
    ensures |Elems(h, p, shift)| == Span(shift) <==>
              h[p].Len() == BranchingFactor &&
              (shift > 0 ==> |Elems(h, h[p].Kid(h[p].Last()), Down(shift))| == Width(shift))
    decreases shift
  {
    LeafDigit(0);
    if shift == 0 {
      LeafElems(h, p);
    } else {
      var n, s := h[p], Down(shift);
      ChildOf(h, p, shift, n.Last());
      Size(h, n.Kid(n.Last()), s);
      DigitOfRelative(0, shift);
      BranchLength(h, p, shift);
      CapacityArith(n.Len(), Width(shift), |Elems(h, n.Kid(n.Last()), s)|);
    }
  }

  /** The last child of a valid branch holds at least one value and at most one slot's width. */
  lemma LastFit<T>(h: Heap<T>, p: Ptr, shift: nat)
    requires Valid(h, p, shift) && shift > 0
    ensures 1 <= |Elems(h, h[p].Kid(h[p].Last()), Down(shift))| <= Width(shift)
  {
    ChildOf(h, p, shift, h[p].Last());
    Size(h, h[p].Kid(h[p].Last()), Down(shift));
    DigitOfRelative(0, shift);
  }

  /** Where position `r = Offset(k, Width(shift)) + j` of a valid branch lives: at position `j`
      of the child in slot `k`. */
  lemma Locate<T>(h: Heap<T>, p: Ptr, shift: nat, r: nat, k: nat, j: nat)
    requires Valid(h, p, shift) && shift > 0 && r < |Elems(h, p, shift)|
    requires j < Width(shift) && r == Offset(k, Width(shift)) + j
    ensures k < h[p].Len() && j < |Elems(h, h[p].Kid(k), Down(shift))|
    ensures Elems(h, h[p].Kid(k), Down(shift))[j] == Elems(h, p, shift)[r]
  {
    LocateSlot(h, p, shift, r, k, j);
    BranchBlocks(h, p, shift);
    FlattenAt(Elems(h, p, shift), ElemsOf(h, h[p].children, h[p].Len(), Down(shift)), k, j, Width(shift),
              Elems(h, h[p].Kid(k), Down(shift)));
  }

  lemma LocateSlot<T>(h: Heap<T>, p: Ptr, shift: nat, r: nat, k: nat, j: nat)
    requires Valid(h, p, shift) && shift > 0 && r < |Elems(h, p, shift)|
    requires j < Width(shift) && r == Offset(k, Width(shift)) + j
    ensures k < h[p].Len() && j < |Elems(h, h[p].Kid(k), Down(shift))|
  {
    var n, s := h[p], Down(shift);
    BranchLength(h, p, shift);
    LastFit(h, p, shift);
    SlotBound(k, j, n.Len(), Width(shift), |Elems(h, n.Kid(n.Last()), s)|);
    ChildOf(h, p, shift, k);
  }


  /** Overwriting position `j` of the block in slot `d` overwrites position
      `Offset(d, Width(shift)) + j` of a valid branch's contents. */
  lemma UpdateBlock<T>(h: Heap<T>, p: Ptr, shift: nat, d: nat, j: nat, v: T)
    requires Valid(h, p, shift) && shift > 0 && d < h[p].Len()
    requires j < |Elems(h, h[p].Kid(d), Down(shift))|
    ensures Offset(d, Width(shift)) + j < |Elems(h, p, shift)|
    ensures Flatten(ElemsOf(h, h[p].children, h[p].Len(), Down(shift))
                      [d := Elems(h, h[p].Kid(d), Down(shift))[j := v]])
            == Elems(h, p, shift)[Offset(d, Width(shift)) + j := v]
  {
    var bs := ElemsOf(h, h[p].children, h[p].Len(), Down(shift));
    BranchBlocks(h, p, shift);
    FlattenUpdate(bs, d, j, Width(shift), v);
    OffsetIsProduct(d, Width(shift));
  }


  /** Every node a persistent node reaches is persistent. */
  lemma {:induction false} AllPersistent<T>(h: Heap<T>, p: Ptr, shift: nat, r: Ptr)
    requires Valid(h, p, shift) && !h[p].IsTransient() && Reaches(h, p, shift, r)
    ensures r in h && !h[r].IsTransient() && Status.Ok(h[r].status)
    decreases shift
  {
    ReachInHeap(h, p, shift, r);
    if r != p {
      var i := ReachesKid(h, p, shift, r);
      ChildOf(h, p, shift, i);
      AllPersistent(h, h[p].Kid(i), Down(shift), r);
    }
  }

  /** A record written at `q` whose own fields are in shape is a valid branch when every
      occupied slot is `KidOk` and no node is reached by two of them. */
  lemma BranchOf<T>(h: Heap<T>, q: Ptr, m: Node<T>, shift: nat)
    requires q in h && h[q] == m && m.Shaped() && shift >= BranchingBit && shift % BranchingBit == 0 && 1 <= m.Len()
    requires forall i :: 0 <= i < m.Len() ==> KidOk(h, q, m, Down(shift), i)
    requires forall i, j, r :: 0 <= i < j < m.Len() && Reaches(h, m.Kid(i), Down(shift), r) ==>
               !Reaches(h, m.Kid(j), Down(shift), r)
    ensures Valid(h, q, shift)
  {
  }
}
