/** Index arithmetic of the 32-way radix trie. A node at `shift` (a multiple of the branching
    bit width 5) spends the index bits from `shift` to `shift + 4` on choosing a slot, so one of
    its slots covers `Width(shift)` elements and the node as a whole `Span(shift)` elements. */
module Radix {

  const BranchingBit: nat := 5
  const BranchingFactor: nat := 32

  function Pow32(k: nat): (r: nat)
    ensures r >= 1
  {
    if k == 0 then 1 else BranchingFactor * Pow32(k - 1)
  }

  function Pow2(k: nat): (r: nat)
    ensures r >= 1
  {
    if k == 0 then 1 else 2 * Pow2(k - 1)
  }

  /** Number of elements under one slot of a node at `shift`. */
  function Width(shift: nat): nat {
    Pow32(shift / BranchingBit)
  }

  /** Where slot `k` starts when every slot before it holds `w` elements. */
  function Offset(k: nat, w: nat): nat {
    if k == 0 then 0 else Offset(k - 1, w) + w
  }

  lemma {:induction false} OffsetIsProduct(k: nat, w: nat)
    ensures Offset(k, w) == k * w
  {
    if k > 0 {
      OffsetIsProduct(k - 1, w);
    }
  }

  /** Number of elements a node at `shift` can hold. */
  function Span(shift: nat): nat {
    BranchingFactor * Width(shift)
  }

  /** The slot a node at `shift` uses for `idx`: Go's `(idx >> shift) & branchingMask`,
      and `idx & branchingMask` at `shift == 0`. */
  function Digit(idx: nat, shift: nat): (d: nat)
    ensures d < BranchingFactor
  {
    (idx / Pow2(shift)) % BranchingFactor
  }

  /** Division by a positive number has exactly one quotient and remainder. */
  lemma DivModUnique(x: int, d: int, q: int, r: int)
    requires d > 0 && 0 <= r < d && x == q * d + r
    ensures x / d == q && x % d == r
  {
    var q', r' := x / d, x % d;
    var k := q - q';
    assert k * d == r' - r;
  }

  /** Shifting right by a multiple of 5 is division by the matching power of 32. */
  lemma {:induction false} ShiftIsDivision(idx: nat, shift: nat)
    requires shift % BranchingBit == 0
    ensures Pow2(shift) == Width(shift)
    ensures idx / Pow2(shift) == idx / Width(shift)
  {
    if shift > 0 {
      ShiftIsDivision(idx, shift - BranchingBit);
      assert Pow2(shift) == 32 * Pow2(shift - BranchingBit) by {
        assert Pow2(shift - 1) == 2 * Pow2(shift - 2);
        assert Pow2(shift - 2) == 2 * Pow2(shift - 3);
        assert Pow2(shift - 3) == 2 * Pow2(shift - 4);
        assert Pow2(shift - 4) == 2 * Pow2(shift - 5);
      }
    }
  }

  /** Digits and remainders with slots of `w` elements: the digit of `idx` is the slot of its
      remainder modulo `32 * w`, and the offset in that slot is `idx % w`. */
  lemma RelativeSlot(idx: nat, w: nat)
    requires w >= 1
    ensures (idx / w) % BranchingFactor == (idx % (BranchingFactor * w)) / w
    ensures (idx % (BranchingFactor * w)) % w == idx % w
  {
    var W := BranchingFactor * w;
    var q, r := idx / W, idx % W;
    var a, b := r / w, r % w;
    assert r == a * w + b;
    MulCancel(a, BranchingFactor, w);
    assert idx == q * W + r;
    assert idx == (BranchingFactor * q + a) * w + b;
    DivModUnique(idx, w, BranchingFactor * q + a, b);
    DivModUnique(BranchingFactor * q + a, BranchingFactor, q, a);
  }

  /** The step `at`, `update` and `pushBack` take from a node at `shift` to its child: the
      digit of the full index is the slot of the index relative to the node, and the index
      relative to the child is the position inside that slot. */
  lemma DigitOfRelative(idx: nat, shift: nat)
    requires shift >= BranchingBit && shift % BranchingBit == 0
    ensures Width(shift) == Span(shift - BranchingBit)
    ensures Digit(idx, shift) == (idx % Span(shift)) / Width(shift)
    ensures (idx % Span(shift)) % Width(shift) == idx % Span(shift - BranchingBit)
  {
    ShiftIsDivision(idx, shift);
    assert (shift - BranchingBit) / BranchingBit == shift / BranchingBit - 1;
    RelativeSlot(idx, Width(shift));
  }

  /** One level up, a slot covers what a whole node covered. */
  lemma WidthUp(shift: nat)
    ensures Width(shift + BranchingBit) == Span(shift)
  {
    assert (shift + BranchingBit) / BranchingBit == shift / BranchingBit + 1;
  }

  /** At `shift 0` a slot holds one element, and the digit is the index modulo 32. */
  lemma LeafDigit(idx: nat)
    ensures Width(0) == 1 && Span(0) == 32
    ensures Digit(idx, 0) == idx % Span(0)
  {
    ShiftIsDivision(idx, 0);
  }

  /** An index below the whole tree's capacity is its own relative index at the root. */
  lemma RelativeAtRoot(idx: nat, shift: nat)
    requires idx < Span(shift)
    ensures idx % Span(shift) == idx
  {
  }

  /** A node with `l` slots of which the first `l - 1` hold `w` elements and the last `e`:
      it holds at most `32 * w`, and exactly that many when every slot is taken and full. */
  lemma CapacityArith(l: nat, w: nat, e: nat)
    requires 1 <= l <= BranchingFactor && 1 <= w && e <= w
    ensures Offset(l - 1, w) + e <= BranchingFactor * w
    ensures Offset(l - 1, w) + e == BranchingFactor * w <==> l == BranchingFactor && e == w
  {
    OffsetIsProduct(l - 1, w);
    CapacityProduct(l, w, e);
  }

  lemma CapacityProduct(l: nat, w: nat, e: nat)
    requires 1 <= l <= BranchingFactor && 1 <= w && e <= w
    ensures (l - 1) * w + e <= BranchingFactor * w
    ensures (l - 1) * w + e == BranchingFactor * w <==> l == BranchingFactor && e == w
  {
    var gap := BranchingFactor - l;
    assert gap * w == BranchingFactor * w - l * w;
    assert (l - 1) * w + w == l * w;
    if l < BranchingFactor {
      assert gap * w >= w;
    }
  }

  /** Cancelling a positive factor from a strict inequality between products. */
  lemma MulCancel(a: int, b: int, w: int)
    requires w >= 1 && a * w < b * w
    ensures a < b
  {
    assert (b - a) * w == b * w - a * w;
  }

  /** An offset inside a node's first `l - 1` full slots and its partly filled last slot of
      `e` elements falls in one of the `l` slots, and inside the last one when it is that one. */
  lemma SlotBound(k: nat, j: nat, l: nat, w: nat, e: nat)
    requires 1 <= l && j < w && e <= w && Offset(k, w) + j < Offset(l - 1, w) + e
    ensures k < l && (k == l - 1 ==> j < e)
  {
    OffsetIsProduct(k, w);
    OffsetIsProduct(l - 1, w);
    assert (l - 1) * w + w == l * w;
    MulCancel(k, l, w);
  }

  /** Going from a node at `shift` to the child `Digit(idx, shift)`: the index relative to the
      node is the child's offset plus the index relative to the child. */
  lemma DigitStep(idx: nat, shift: nat)
    requires shift >= BranchingBit && shift % BranchingBit == 0
    ensures idx % Span(shift - BranchingBit) < Width(shift)
    ensures idx % Span(shift) == Offset(Digit(idx, shift), Width(shift)) + idx % Span(shift - BranchingBit)
  {
    DigitOfRelative(idx, shift);
    var r, w := idx % Span(shift), Width(shift);
    assert r == (r / w) * w + r % w;
    OffsetIsProduct(Digit(idx, shift), w);
  }
}
