/**
 * Concrete runs of one backing buffer: worked examples of aligned
 * allocation with a leading pad, of release in either order merging back to
 * one extent and of growth in place, plus a run in which `free` loses bytes
 * because `std::map::insert` ignores a key that is already present.
 */
module Scenarios {
  import opened Ledgers
  import opened BufferModel
  import opened BufferProperties
  import opened FreeProperties
  import AllocatorModel

  /**
   * Aligned allocation: in an empty 100-byte buffer, 10 bytes at alignment 16
   * land at offset 0; 5 more at alignment 16 skip six bytes, which stay free
   * in front of the lease, and leave the remaining 79 bytes free behind it.
   */
  lemma AlignedAllocations()
    ensures Alloc(Init(100, 1), 10, NoSubBuffer, 16)
              == AllocResult(true, BufState(100, 1, [Block(10, 90)], [Block(0, 10)]), SubBuffer(0, 10, 1))
    ensures Alloc(BufState(100, 1, [Block(10, 90)], [Block(0, 10)]), 5, NoSubBuffer, 16)
              == AllocResult(true, BufState(100, 1, [Block(10, 6), Block(21, 79)], [Block(0, 10), Block(16, 5)]),
                             SubBuffer(16, 5, 1))
  {
  }

  /** Two 50-byte leases fill a 100-byte buffer; the second is an exact fit. */
  lemma TwoHalves()
    ensures Alloc(Init(100, 1), 50, NoSubBuffer, 1)
              == AllocResult(true, BufState(100, 1, [Block(50, 50)], [Block(0, 50)]), SubBuffer(0, 50, 1))
    ensures Alloc(BufState(100, 1, [Block(50, 50)], [Block(0, 50)]), 50, NoSubBuffer, 1)
              == AllocResult(true, BufState(100, 1, [], [Block(0, 50), Block(50, 50)]), SubBuffer(50, 50, 1))
  {
  }

  /** The full buffer of `TwoHalves`. */
  const Full := BufState(100, 1, [], [Block(0, 50), Block(50, 50)])

  /** Releasing the first half, then the second, merges back to one free extent. */
  lemma ReleaseFirstThenSecond()
    ensures Free(Full, SubBuffer(0, 50, 1)) == BufState(100, 1, [Block(0, 50)], [Block(50, 50)])
    ensures Free(BufState(100, 1, [Block(0, 50)], [Block(50, 50)]), SubBuffer(50, 50, 1))
              == BufState(100, 1, [Block(0, 100)], [])
  {
  }

  /** Releasing the second half, then the first, ends in the same state. */
  lemma ReleaseSecondThenFirst()
    ensures Free(Full, SubBuffer(50, 50, 1)) == BufState(100, 1, [Block(50, 50)], [Block(0, 50)])
    ensures Free(BufState(100, 1, [Block(50, 50)], [Block(0, 50)]), SubBuffer(0, 50, 1))
              == BufState(100, 1, [Block(0, 100)], [])
  {
  }

  /**
   * Growth in place: a 10-byte lease at offset 0 followed by a 50-byte free
   * extent grows to 30 bytes without moving; 30 bytes stay free; nothing is
   * copied.
   */
  lemma GrowInPlace()
    ensures Realloc(BufState(60, 1, [Block(10, 50)], [Block(0, 10)]), SubBuffer(0, 10, 1), 30, 1)
              == ReallocResult(true, BufState(60, 1, [Block(30, 30)], [Block(0, 30)]), SubBuffer(0, 30, 1), [])
  {
  }

  /** The states of the lost-bytes run. */
  const Lost1 := BufState(100, 1, [Block(10, 90)], [Block(0, 10)])
  const Lost2 := BufState(100, 1, [Block(90, 10)], [Block(0, 10), Block(10, 80)])
  const Lost3 := BufState(100, 1, [], [Block(0, 10), Block(10, 80), Block(90, 10)])
  const Lost4 := BufState(100, 1, [Block(10, 80)], [Block(0, 10), Block(90, 10)])
  const Lost5 := BufState(100, 1, [Block(10, 2), Block(90, 0)], [Block(0, 10), Block(12, 78), Block(90, 10)])
  const Lost6 := BufState(100, 1, [Block(10, 2), Block(90, 0)], [Block(0, 10), Block(12, 78)])

  lemma LostStep1()
    ensures Alloc(Init(100, 1), 10, NoSubBuffer, 1) == AllocResult(true, Lost1, SubBuffer(0, 10, 1))
  {
  }

  lemma LostStep2()
    ensures Alloc(Lost1, 80, NoSubBuffer, 1) == AllocResult(true, Lost2, SubBuffer(10, 80, 1))
  {
  }

  lemma LostStep3()
    ensures Alloc(Lost2, 10, NoSubBuffer, 1) == AllocResult(true, Lost3, SubBuffer(90, 10, 1))
  {
  }

  lemma LostStep4()
    ensures FreeReady(Lost3, SubBuffer(10, 80, 1)) && Free(Lost3, SubBuffer(10, 80, 1)) == Lost4
  {
  }

  lemma LostStep5()
    ensures Alloc(Lost4, 78, NoSubBuffer, 4) == AllocResult(true, Lost5, SubBuffer(12, 78, 1))
  {
  }

  lemma LostStep6()
    ensures FreeReady(Lost5, SubBuffer(90, 10, 1)) && Free(Lost5, SubBuffer(90, 10, 1)) == Lost6
  {
  }

  /**
   * How `Lost5` is reached: allocate 10, 80 and 10 bytes, release the 80,
   * then allocate 78 bytes at alignment 4. The last allocation pads two bytes
   * and leaves an empty trailing free extent keyed 90, the offset of the last
   * lease. Every state on the way satisfies the ledger invariant.
   */
  lemma LostBytesRun()
    ensures Alloc(Init(100, 1), 10, NoSubBuffer, 1) == AllocResult(true, Lost1, SubBuffer(0, 10, 1))
    ensures Alloc(Lost1, 80, NoSubBuffer, 1) == AllocResult(true, Lost2, SubBuffer(10, 80, 1))
    ensures Alloc(Lost2, 10, NoSubBuffer, 1) == AllocResult(true, Lost3, SubBuffer(90, 10, 1))
    ensures FreeReady(Lost3, SubBuffer(10, 80, 1)) && Free(Lost3, SubBuffer(10, 80, 1)) == Lost4
    ensures Alloc(Lost4, 78, NoSubBuffer, 4) == AllocResult(true, Lost5, SubBuffer(12, 78, 1))
    ensures Valid(Lost5)
  {
    LostStep1();
    AllocContract(Init(100, 1), 10, NoSubBuffer, 1);
    LostStep2();
    AllocContract(Lost1, 80, NoSubBuffer, 1);
    LostStep3();
    AllocContract(Lost2, 10, NoSubBuffer, 1);
    LostStep4();
    FreeValid(Lost3, SubBuffer(10, 80, 1));
    LostStep5();
    AllocContract(Lost4, 78, NoSubBuffer, 4);
  }

  /** Some entry of the ledger holds `x` only if one of its positions does. */
  lemma Uncovered(l: Ledger, x: nat)
    requires forall k | 0 <= k < |l| :: !l[k].Holds(x)
    ensures !Covered(l, x)
  {
  }

  /**
   * Releasing the lease [90, 100) of `Lost5` drops its bytes: the empty free
   * extent already holds key 90, so the insert does nothing, and byte 95 ends
   * up in neither ledger although `Lost5` satisfies the ledger invariant
   * (`LostBytesRun`).
   */
  lemma FreeLosesBytes()
    ensures Live(Lost5, SubBuffer(90, 10, 1)) && FreeReady(Lost5, SubBuffer(90, 10, 1))
    ensures Free(Lost5, SubBuffer(90, 10, 1)) == Lost6
    ensures Covered(Lost5.used, 95) && !Covered(Lost6.freeb, 95) && !Covered(Lost6.used, 95)
  {
    LostStep6();
    assert Lost5.used[2] in Lost5.used && Lost5.used[2].Holds(95);
    Uncovered(Lost6.freeb, 95);
    Uncovered(Lost6.used, 95);
  }

  /**
   * Allocator growth: with a capacity of 64 bytes, a 100-byte uniform-buffer
   * request fits no existing buffer, so a second buffer of exactly 100 bytes
   * is appended under the next name and the lease is all of it.
   */
  lemma AllocatorGrows()
    ensures var a := AllocatorModel.Init(64, 256, 64, 16);
            var r := AllocatorModel.AllocFor(a, 100, AllocatorModel.UniformBuffer);
            && r.state.buffers == [Init(64, 1), BufState(100, 2, [], [Block(0, 100)])]
            && r.state.nextId == 3
            && r.buf == SubBuffer(0, 100, 2)
  {
    var a := AllocatorModel.Init(64, 256, 64, 16);
    assert !AllocatorModel.Serves(Init(64, 1), 100, 256);
    assert AllocatorModel.FirstServing(a.buffers, 100, 256, 0).None?;
  }
}
