/**
 * `MemoryArena` (source/ThirdParty/ArenaAllocator.hpp): a bump allocator over one buffer of
 * `ArenaSize` bytes.  Addresses are natural numbers; the buffer starts at address `base`.
 * A request that does not fit is passed to the heap, whose answer is a parameter here.
 */
module Arenas {
  /** A block handed out: where it starts and how many bytes were asked for. */
  datatype MemoryBlock = MemoryBlock(pointer: nat, length: nat)

  /**
   * `RoundUpToNextAlignment`.  The source masks with `~(Alignment - 1)`, which for a
   * power-of-two alignment clears the remainder modulo the alignment; that is written out here.
   */
  function RoundUpToNextAlignment(requestedSize: nat, alignment: nat): nat
    requires alignment > 0
  {
    (requestedSize + (alignment - 1)) - (requestedSize + (alignment - 1)) % alignment
  }

  /** The rounded size is the least multiple of the alignment that is at least the request. */
  lemma RoundUpIsLeastMultiple(requestedSize: nat, alignment: nat)
    requires alignment > 0
    ensures var r := RoundUpToNextAlignment(requestedSize, alignment);
      && r % alignment == 0
      && requestedSize <= r < requestedSize + alignment
      && forall m: nat :: m % alignment == 0 && requestedSize <= m ==> r <= m
  {
    var x := requestedSize + (alignment - 1);
    var r := RoundUpToNextAlignment(requestedSize, alignment);
    var q := x / alignment;
    assert r == q * alignment;
    MultipleHasNoRemainder(q, alignment);
    forall m: nat | m % alignment == 0 && requestedSize <= m
      ensures r <= m
    {
      var k := m / alignment;
      assert m == k * alignment;
      if k < q {
        ScaleOneMore(k, alignment);
        ScaleMonotone(k + 1, q, alignment);
      } else {
        ScaleMonotone(q, k, alignment);
      }
    }
  }

  /** A multiple of the alignment leaves no remainder. */
  lemma MultipleHasNoRemainder(q: nat, alignment: nat)
    requires alignment > 0
    ensures (q * alignment) % alignment == 0
  {
    var x := q * alignment;
    var d := q - x / alignment;
    assert d * alignment == x % alignment by {
      assert x == (x / alignment) * alignment + x % alignment;
      assert q * alignment - (x / alignment) * alignment == (q - x / alignment) * alignment;
    }
    if d >= 1 {
      ScaleMonotone(1, d, alignment);
    } else if d <= -1 {
      ScaleNegated(d, alignment);
      ScaleMonotone(1, -d, alignment);
    }
  }

  lemma ScaleOneMore(k: int, alignment: int)
    ensures (k + 1) * alignment == k * alignment + alignment
  {
  }

  lemma ScaleNegated(d: int, alignment: int)
    ensures (-d) * alignment == -(d * alignment)
  {
  }

  lemma {:induction false} ScaleMonotone(a: nat, b: nat, alignment: nat)
    requires a <= b
    ensures a * alignment <= b * alignment
    decreases b - a
  {
    if a < b {
      ScaleMonotone(a + 1, b, alignment);
      assert (a + 1) * alignment == a * alignment + alignment;
    }
  }

  class MemoryArena {
    const arenaSize: nat
    const alignment: nat
    /** The address of the buffer. */
    const base: nat
    /** `m_pointer`: the address of the first free byte. */
    var pointer: nat

    /** The free pointer never leaves the buffer. */
    ghost predicate Valid()
      reads this
    {
      alignment > 0 && base <= pointer <= base + arenaSize
    }

    constructor(arenaSize: nat, alignment: nat, base: nat)
      requires alignment > 0
      ensures Valid()
      ensures this.arenaSize == arenaSize && this.alignment == alignment && this.base == base
      ensures Used() == 0
    {
      this.arenaSize := arenaSize;
      this.alignment := alignment;
      this.base := base;
      pointer := base;
    }

    /** The bytes handed out since the last reset; never more than the buffer holds. */
    function Used(): (used: nat)
      reads this
      requires Valid()
      ensures used <= arenaSize
    {
      pointer - base
    }

    /** Whether a block starts inside the buffer. */
    predicate Owns(block: MemoryBlock)
      reads this
    {
      base <= block.pointer < base + arenaSize
    }

    /**
     * A request whose rounded size fits in what is left is served at the free pointer, which
     * moves on by the rounded size; otherwise the heap serves it and the arena is unchanged.
     */
    method Allocate(requestedSize: nat, heapPointer: nat) returns (block: MemoryBlock)
      requires Valid()
      modifies this
      ensures Valid()
      ensures var alignedSize := RoundUpToNextAlignment(requestedSize, alignment);
        if arenaSize - old(Used()) >= alignedSize then
          && block == MemoryBlock(old(pointer), requestedSize)
          && (requestedSize > 0 ==> Owns(block))
          && Used() == old(Used()) + alignedSize
        else
          block == MemoryBlock(heapPointer, requestedSize) && pointer == old(pointer)
    {
      var alignedSize := RoundUpToNextAlignment(requestedSize, alignment);
      if arenaSize - Used() >= alignedSize {
        RoundUpIsLeastMultiple(requestedSize, alignment);
        block := MemoryBlock(pointer, requestedSize);
        pointer := pointer + alignedSize;
        return;
      }
      block := MemoryBlock(heapPointer, requestedSize);
    }

    /**
     * `Deallocate` as written: an owned block is rolled back only when its address plus its
     * ADDRESS rounded up lands on the free pointer.  A block the arena does not own goes
     * back to the heap, which leaves the arena unchanged.
     */
    method Deallocate(block: MemoryBlock)
      requires Valid()
      modifies this
      ensures Valid()
      ensures pointer == (if Owns(block) && RollsBackAsWritten(block, old(pointer), alignment)
                          then block.pointer else old(pointer))
    {
      if Owns(block) {
        var alignedSize := RoundUpToNextAlignment(block.pointer, alignment);
        if block.pointer + alignedSize == pointer {
          pointer := block.pointer;
        }
        return;
      }
    }

    /** `Deallocate` rounding the block's length, so the latest block can be rolled back. */
    method DeallocateLatest(block: MemoryBlock)
      requires Valid()
      modifies this
      ensures Valid()
      ensures pointer == (if Owns(block) && RollsBack(block, old(pointer), alignment)
                          then block.pointer else old(pointer))
    {
      if Owns(block) {
        var alignedSize := RoundUpToNextAlignment(block.length, alignment);
        if block.pointer + alignedSize == pointer {
          pointer := block.pointer;
        }
      }
    }

    method Reset()
      requires Valid()
      modifies this
      ensures Valid() && Used() == 0
    {
      pointer := base;
    }
  }

  /** The roll-back test as written: the rounding is applied to the block's address. */
  predicate RollsBackAsWritten(block: MemoryBlock, current: nat, alignment: nat)
    requires alignment > 0
  {
    block.pointer + RoundUpToNextAlignment(block.pointer, alignment) == current
  }

  /** The roll-back test that frees the most recent block: its start plus its rounded length. */
  predicate RollsBack(block: MemoryBlock, current: nat, alignment: nat)
    requires alignment > 0
  {
    block.pointer + RoundUpToNextAlignment(block.length, alignment) == current
  }

  /**
   * For any buffer whose address exceeds its size (every real one), the test as written never
   * holds for an owned block: its address rounded up is at least the base, which overshoots
   * the end of the buffer, where the free pointer can at most be.
   */
  lemma AsWrittenNeverRollsBack(block: MemoryBlock, current: nat, alignment: nat, base: nat, arenaSize: nat)
    requires alignment > 0 && base > arenaSize
    requires base <= block.pointer < base + arenaSize && current <= base + arenaSize
    ensures !RollsBackAsWritten(block, current, alignment)
  {
    RoundUpIsLeastMultiple(block.pointer, alignment);
  }

  /**
   * Concretely: in a 1024-byte arena at address 4096 with alignment 16, the 16-byte block
   * served first is never given back, though the corrected test would give it back.
   */
  lemma AsWrittenKeepsLatestBlock()
    ensures !RollsBackAsWritten(MemoryBlock(4096, 16), 4096 + 16, 16)
    ensures RollsBack(MemoryBlock(4096, 16), 4096 + 16, 16)
  {
    AsWrittenNeverRollsBack(MemoryBlock(4096, 16), 4096 + 16, 16, 4096, 1024);
    RoundUpIsLeastMultiple(16, 16);
  }

  /**
   * The corrected test gives back exactly the block served last: after an allocation at
   * `start` the free pointer is `start` plus the rounded length, so the test holds, and the
   * roll-back restores the pointer the allocation started from.
   */
  lemma LatestBlockRollsBack(start: nat, requestedSize: nat, alignment: nat)
    requires alignment > 0
    ensures RollsBack(MemoryBlock(start, requestedSize), start + RoundUpToNextAlignment(requestedSize, alignment), alignment)
  {
  }

  /** Allocating and then giving back the same block leaves the arena as it was. */
  method AllocateThenDeallocate(arena: MemoryArena, requestedSize: nat, heapPointer: nat)
    requires arena.Valid()
    requires arena.arenaSize - arena.Used() >= RoundUpToNextAlignment(requestedSize, arena.alignment)
    modifies arena
    ensures arena.Valid() && arena.pointer == old(arena.pointer)
  {
    var block := arena.Allocate(requestedSize, heapPointer);
    arena.DeallocateLatest(block);
  }
}
