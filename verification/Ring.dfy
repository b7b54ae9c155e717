/** The power-of-two ring shared by both directions of a serial port. */
module Ring {
  import opened Bits

  /** Masks that `_allocBuffer` can produce: 2^k - 1 with 1 <= k <= 9. */
  ghost predicate IsMask(mask: nat) {
    exists k: nat :: 1 <= k <= 9 && mask == Pow2(k) - 1
  }

  /** `(i + 1) & mask` on 16-bit unsigned operands. */
  function Next(i: nat, mask: nat): nat {
    And((i + 1) % UINT16, mask)
  }

  /** `(head - tail) & mask` on 16-bit unsigned operands. */
  function Count(head: nat, tail: nat, mask: nat): nat {
    And((head - tail) % UINT16, mask)
  }

  /** The byte `j` places behind the oldest one. */
  function At(bytes: seq<Byte>, tail: nat, mask: nat, j: nat): Byte
    requires |bytes| == mask + 1
  {
    bytes[And(tail + j, mask)]
  }

  /** The bytes a reader starting at `tail` would meet before `head`. */
  function Contents(bytes: seq<Byte>, head: nat, tail: nat, mask: nat): seq<Byte>
    requires |bytes| == mask + 1
  {
    seq(Count(head, tail, mask), j requires 0 <= j => At(bytes, tail, mask, j))
  }

  /** The index reached from 0 after `n` advances. */
  ghost function Slot(n: nat, mask: nat): nat {
    if n == 0 then 0 else Next(Slot(n - 1, mask), mask)
  }

  /** The ring holds exactly `stream[taken..]`: everything put in so far, less
      what was taken out. */
  ghost predicate Holds(bytes: seq<Byte>, head: nat, tail: nat, mask: nat, stream: seq<Byte>, taken: nat) {
    && IsMask(mask) && |bytes| == mask + 1
    && taken <= |stream| <= taken + mask
    && head == Slot(|stream|, mask) && tail == Slot(taken, mask)
    && forall k :: taken <= k < |stream| ==> bytes[Slot(k, mask)] == stream[k]
  }

  // ---- index arithmetic -----------------------------------------------------

  lemma MaskRange(k: nat)
    requires 1 <= k <= 9
    ensures 2 <= Pow2(k) <= 512 && Pow2(k) * Pow2(16 - k) == UINT16
  {
    assert Pow2(7) == 128 && Pow2(8) == 256 && Pow2(9) == 512;
    assert Pow2(10) == 1024 && Pow2(12) == 4096 && Pow2(14) == 16384;
    assert Pow2(11) == 2048 && Pow2(13) == 8192 && Pow2(15) == 32768;
  }

  /** Masking a 16-bit wrapped value is the true value modulo the ring size. */
  lemma MaskWrapped(x: int, mask: nat)
    requires IsMask(mask)
    ensures 1 <= mask < 512
    ensures And(x % UINT16, mask) == x % (mask + 1)
    ensures x >= 0 ==> And(x, mask) == x % (mask + 1)
  {
    var k: nat :| 1 <= k <= 9 && mask == Pow2(k) - 1;
    MaskRange(k);
    ModOfWrap(x, Pow2(k), Pow2(16 - k));
    AndMask(x % UINT16, k);
    if x >= 0 { AndMask(x, k); }
  }

  /** Advancing modulo a power of two is counting modulo the ring size. */
  lemma {:induction false} SlotIsResidue(n: nat, mask: nat)
    requires IsMask(mask)
    ensures Slot(n, mask) == n % (mask + 1)
  {
    if n == 0 {
    } else {
      SlotIsResidue(n - 1, mask);
      NextOfResidue(n - 1, Slot(n - 1, mask), mask);
    }
  }

  lemma NextOfResidue(n: nat, s: nat, mask: nat)
    requires IsMask(mask) && s == n % (mask + 1)
    ensures Next(s, mask) == (n + 1) % (mask + 1)
  {
    MaskWrapped(s + 1, mask);
    ResidueAdd(n, s, 1, mask + 1);
  }

  lemma SlotInRange(n: nat, mask: nat)
    requires IsMask(mask)
    ensures Slot(n, mask) <= mask
  {
    SlotIsResidue(n, mask);
  }

  /** Slots of one window of `mask + 1` positions are distinct. */
  lemma SlotInjective(m: nat, n: nat, mask: nat)
    requires IsMask(mask) && m <= n <= m + mask
    ensures Slot(m, mask) == Slot(n, mask) <==> m == n
  {
    SlotIsResidue(m, mask);
    SlotIsResidue(n, mask);
    if Slot(m, mask) == Slot(n, mask) { ModInjective(m, n, mask + 1); }
  }

  /** ... and the next position reuses the first slot of the window. */
  lemma SlotPeriod(m: nat, mask: nat)
    requires IsMask(mask)
    ensures Slot(m + mask + 1, mask) == Slot(m, mask)
  {
    SlotIsResidue(m, mask);
    SlotIsResidue(m + (mask + 1), mask);
    ModPeriod(m, mask + 1);
  }

  lemma SlotOffset(m: nat, j: nat, mask: nat)
    requires IsMask(mask)
    ensures And(Slot(m, mask) + j, mask) == Slot(m + j, mask)
  {
    MaskWrapped(Slot(m, mask) + j, mask);
    SlotSum(m, j, mask);
  }

  lemma SlotSum(m: nat, j: nat, mask: nat)
    requires IsMask(mask)
    ensures (Slot(m, mask) + j) % (mask + 1) == Slot(m + j, mask)
  {
    SlotIsResidue(m, mask);
    SlotIsResidue(m + j, mask);
    ResidueAdd(m, Slot(m, mask), j, mask + 1);
  }

  lemma CountOfSlots(m: nat, n: nat, mask: nat)
    requires IsMask(mask) && m <= n <= m + mask
    ensures Count(Slot(n, mask), Slot(m, mask), mask) == n - m
  {
    MaskWrapped(Slot(n, mask) - Slot(m, mask), mask);
    SlotDifference(m, n, mask);
  }

  lemma SlotDifference(m: nat, n: nat, mask: nat)
    requires IsMask(mask) && m <= n <= m + mask
    ensures (Slot(n, mask) - Slot(m, mask)) % (mask + 1) == n - m
  {
    SlotIsResidue(m, mask);
    SlotIsResidue(n, mask);
    ResidueDifference(m, Slot(m, mask), n, Slot(n, mask), mask + 1);
    ModSmall(n - m, mask + 1);
  }

  /** The slot after the last one of the window is the first one exactly when the
      window is full. */
  lemma NextMeets(m: nat, n: nat, mask: nat)
    requires IsMask(mask) && m <= n <= m + mask
    ensures Next(Slot(n, mask), mask) == Slot(m, mask) <==> n - m == mask
  {
    assert Next(Slot(n, mask), mask) == Slot(n + 1, mask);
    if n - m < mask {
      SlotInjective(m, n + 1, mask);
    } else {
      SlotPeriod(m, mask);
    }
  }

  // ---- what the operations do to the stream ----------------------------------

  /** What the index comparisons of the code decide about the stream. */
  lemma HoldsMeans(bytes: seq<Byte>, head: nat, tail: nat, mask: nat, stream: seq<Byte>, taken: nat)
    requires Holds(bytes, head, tail, mask, stream, taken)
    ensures head <= mask && tail <= mask && mask >= 1
    ensures Count(head, tail, mask) == |stream| - taken
    ensures head == tail <==> taken == |stream|
    ensures Next(head, mask) == tail <==> |stream| - taken == mask
    ensures taken < |stream| ==> bytes[tail] == stream[taken]
  {
    MaskWrapped(0, mask);
    CountOfSlots(taken, |stream|, mask);
    SlotInjective(taken, |stream|, mask);
    NextMeets(taken, |stream|, mask);
  }

  lemma HoldsContents(bytes: seq<Byte>, head: nat, tail: nat, mask: nat, stream: seq<Byte>, taken: nat)
    requires Holds(bytes, head, tail, mask, stream, taken)
    ensures Contents(bytes, head, tail, mask) == stream[taken..]
  {
    HoldsMeans(bytes, head, tail, mask, stream, taken);
    forall j: nat | j < |stream| - taken
      ensures At(bytes, tail, mask, j) == stream[taken + j]
    {
      SlotOffset(taken, j, mask);
    }
  }

  /** Writing the slot under `head` touches nothing that is still unread, as
      long as the ring is not full. */
  lemma StoreFree(bytes: seq<Byte>, head: nat, tail: nat, mask: nat, stream: seq<Byte>, taken: nat, c: Byte)
    requires Holds(bytes, head, tail, mask, stream, taken) && |stream| - taken < mask
    ensures head < |bytes| && Holds(bytes[head := c], head, tail, mask, stream, taken)
  {
    HoldsMeans(bytes, head, tail, mask, stream, taken);
    forall k | taken <= k < |stream|
      ensures bytes[head := c][Slot(k, mask)] == stream[k]
    {
      SlotInjective(k, |stream|, mask);
    }
  }

  /** Advancing `head` over a stored byte appends it to the stream. */
  lemma Push(bytes: seq<Byte>, head: nat, tail: nat, mask: nat, stream: seq<Byte>, taken: nat)
    requires Holds(bytes, head, tail, mask, stream, taken) && |stream| - taken < mask
    ensures head < |bytes| && Holds(bytes, Next(head, mask), tail, mask, stream + [bytes[head]], taken)
  {
    SlotInRange(|stream|, mask);
    var longer := stream + [bytes[head]];
    forall k | taken <= k < |longer|
      ensures bytes[Slot(k, mask)] == longer[k]
    {
      assert k == |stream| ==> Slot(k, mask) == head;
    }
  }

  /** Advancing `tail` takes the oldest byte. */
  lemma Pop(bytes: seq<Byte>, head: nat, tail: nat, mask: nat, stream: seq<Byte>, taken: nat)
    requires Holds(bytes, head, tail, mask, stream, taken) && taken < |stream|
    ensures Holds(bytes, head, Next(tail, mask), mask, stream, taken + 1)
  {
    assert Next(tail, mask) == Slot(taken + 1, mask);
  }
}
