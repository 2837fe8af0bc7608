/** The packed `status` byte of a trie node: bit 7 is the transient flag, bits 0-5 hold the
    number of occupied slots and bit 6 is always clear (layout T0LLLLLL). */
module Status {

  /** Bit 7: the node may be updated in place by its owner. */
  const TransientMask: bv8 := 0x80
  /** Bits 0-5: the occupied count. */
  const LenMask: bv8 := 0x3f
  /** A node has this many slots. */
  const Capacity: nat := 32

  /** The occupied count stored in `s` (`node.len`): the low six bits, so below 64. */
  function Len(s: bv8): (n: nat)
    ensures n < 64
  {
    (s & LenMask) as nat
  }

  /** Whether `s` carries the transient flag (`node.isTransient`). */
  predicate IsTransient(s: bv8) {
    s & TransientMask == TransientMask
  }

  /** The layout every node keeps: bit 6 clear and a count of at most 32. */
  predicate Ok(s: bv8) {
    s & 0x40 == 0 && Len(s) <= Capacity
  }

  /** The layout of a well-formed status byte: it is exactly its flag bit together with its
      count, so `len` and `isTransient` read independent parts of it. */
  lemma Layout(s: bv8)
    requires Ok(s)
    ensures s == (if IsTransient(s) then TransientMask else 0) | (s & LenMask)
    ensures IsTransient(s) <==> s >= 0x80
  {
  }

  /** The status of a freshly allocated node (`newNode`): empty, tagged as requested. */
  function Fresh(transient: bool): (s: bv8)
    ensures Ok(s) && Len(s) == 0 && IsTransient(s) == transient
  {
    var z: bv8 := 0;
    if transient then z | TransientMask else z
  }

  /** `incLen`: adding one to the whole byte bumps the count and leaves the flag alone,
      because a count below 32 never carries out of the low six bits. */
  function IncLen(s: bv8): (r: bv8)
    requires Ok(s) && Len(s) < Capacity
    ensures Ok(r) && Len(r) == Len(s) + 1
    ensures IsTransient(r) == IsTransient(s)
  {
    s + 1
  }

  /** `status &= lenMask` in `convertPersistent`: drops the flag and keeps the count. */
  function Freeze(s: bv8): (r: bv8)
    ensures !IsTransient(r) && Len(r) == Len(s)
    ensures Ok(s) ==> Ok(r)
    ensures Ok(s) && !IsTransient(s) ==> r == s
  {
    s & LenMask
  }

  /** The status `clone(transient)` gives its copy: the requested flag and the count of `s`. */
  function Cloned(s: bv8, transient: bool): (r: bv8)
    requires Ok(s)
    ensures Ok(r) && Len(r) == Len(s) && IsTransient(r) == transient
    ensures IsTransient(s) == transient ==> r == s
  {
    Fresh(transient) | (s & LenMask)
  }
}
