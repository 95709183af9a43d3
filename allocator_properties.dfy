/**
 * What `glt::BufferAllocator` promises, proved about `AllocatorModel`:
 * `alloc` always returns an aligned lease of the requested size in one of
 * its buffers, appending at most one buffer and only when no existing buffer
 * can serve; every sub-buffer has at most one owner; `free` and `realloc`
 * act on that owner alone; the allocator invariant survives every call.
 */
module AllocatorProperties {
  import opened Ledgers
  import opened LedgerLemmas
  import opened BufferModel
  import opened BufferProperties
  import opened FreeProperties
  import opened ReallocProperties
  import opened AllocatorModel

  /** A fresh buffer of at least `sz` bytes serves `sz` bytes at its offset 0. */
  lemma NewBufferServes(n: nat, id: nat, sz: nat, align: nat)
    requires sz <= n && align > 0
    ensures var t := BufferModel.Alloc(BufferModel.Init(n, id), sz, NoSubBuffer, align);
            && t.ok && t.buf == SubBuffer(0, sz, id)
            && Live(t.state, t.buf)
  {
    var s := BufferModel.Init(n, id);
    assert Pad(0, align) == 0;
    assert Fits(s.freeb[0], sz, align);
    assert FirstFit(s.freeb, sz, align) == Some(0);
    InsertFacts(s.used, Block(0, sz));
  }

  /** The allocation a successful buffer-level `alloc` hands back. */
  lemma ServedLease(s: BufState, sz: nat, align: nat)
    requires BufferModel.Valid(s) && align > 0 && Serves(s, sz, align)
    ensures var t := BufferModel.Alloc(s, sz, NoSubBuffer, align);
            && BufferModel.Valid(t.state) && t.state.id == s.id
            && t.buf.size == sz && t.buf.buffer == s.id && t.buf.offset % align == 0
  {
    AllocContract(s, sz, NoSubBuffer, align);
  }

  /** `alloc` keeps the allocator invariant. */
  lemma AllocValid(a: Allocator, sz: nat, align: nat)
    requires AllocatorModel.Valid(a) && align > 0
    ensures AllocatorModel.Valid(AllocatorModel.Alloc(a, sz, align).state)
  {
    match FirstServing(a.buffers, sz, align, 0)
    case Some(k) =>
      ServedLease(a.buffers[k], sz, align);
      ReleaseKeepsValid(a, k, BufferModel.Alloc(a.buffers[k], sz, NoSubBuffer, align).state);
    case None =>
      var added := BufferModel.Init(Max(a.capacity, sz), a.nextId);
      NewBufferServes(Max(a.capacity, sz), a.nextId, sz, align);
      ServedLease(added, sz, align);
      AppendKeepsValid(a, BufferModel.Alloc(added, sz, NoSubBuffer, align).state);
  }

  /** Appending a valid buffer under the next name keeps the invariant. */
  lemma AppendKeepsValid(a: Allocator, t: BufState)
    requires AllocatorModel.Valid(a) && BufferModel.Valid(t) && t.id == a.nextId
    ensures AllocatorModel.Valid(a.(buffers := a.buffers + [t], nextId := a.nextId + 1))
  {
  }

  /**
   * `alloc` never fails: the result is an aligned lease of exactly `sz`
   * bytes, in a buffer the allocator holds, and never the default
   * sub-buffer (whose name, 0, no buffer has).
   */
  lemma AllocLeases(a: Allocator, sz: nat, align: nat)
    requires AllocatorModel.Valid(a) && align > 0
    ensures var r := AllocatorModel.Alloc(a, sz, align);
            && r.buf.size == sz && r.buf.offset % align == 0 && r.buf.buffer != 0
            && Owner(r.state.buffers, r.buf, 0).Some?
  {
    var r := AllocatorModel.Alloc(a, sz, align);
    AllocValid(a, sz, align);
    match FirstServing(a.buffers, sz, align, 0)
    case Some(k) =>
      ServedLease(a.buffers[k], sz, align);
      assert Contains(r.state.buffers[k], r.buf);
      OwnerFound(r.state.buffers, r.buf, k);
    case None =>
      var n := Max(a.capacity, sz);
      NewBufferServes(n, a.nextId, sz, align);
      assert Contains(r.state.buffers[|a.buffers|], r.buf);
      OwnerFound(r.state.buffers, r.buf, |a.buffers|);
  }

  /** `alloc` when buffer `k` is the first that can serve the request. */
  lemma AllocServedBy(a: Allocator, sz: nat, align: nat, k: nat)
    requires Ready(a.buffers) && align > 0 && k < |a.buffers| && Serves(a.buffers[k], sz, align)
    requires forall j | 0 <= j < k :: !Serves(a.buffers[j], sz, align)
    ensures var t := BufferModel.Alloc(a.buffers[k], sz, NoSubBuffer, align);
            AllocatorModel.Alloc(a, sz, align) == Leased(a.(buffers := a.buffers[k := t.state]), t.buf)
  {
    assert FirstServing(a.buffers, sz, align, 0) == Some(k);
  }

  /** `alloc` when no buffer can serve the request: a new buffer serves it. */
  lemma AllocAppendedAs(a: Allocator, sz: nat, align: nat)
    requires Ready(a.buffers) && align > 0
    requires forall j | 0 <= j < |a.buffers| :: !Serves(a.buffers[j], sz, align)
    ensures var t := BufferModel.Alloc(BufferModel.Init(Max(a.capacity, sz), a.nextId), sz, NoSubBuffer, align);
            && t.ok
            && AllocatorModel.Alloc(a, sz, align)
                 == Leased(a.(buffers := a.buffers + [t.state], nextId := a.nextId + 1), t.buf)
  {
    assert FirstServing(a.buffers, sz, align, 0).None?;
    NewBufferServes(Max(a.capacity, sz), a.nextId, sz, align);
  }

  /** A buffer containing `b` means `find_if` finds an owner. */
  lemma OwnerFound(bs: seq<BufState>, b: SubBuffer, k: nat)
    requires k < |bs| && Contains(bs[k], b)
    ensures Owner(bs, b, 0).Some? && Owner(bs, b, 0).value <= k
  {
  }

  /**
   * Buffer order: a request some existing buffer can serve goes to the first
   * such buffer; nothing is appended and every other buffer is unchanged.
   */
  lemma AllocInExisting(a: Allocator, sz: nat, align: nat, k: nat)
    requires AllocatorModel.Valid(a) && align > 0 && FirstServing(a.buffers, sz, align, 0) == Some(k)
    ensures var r := AllocatorModel.Alloc(a, sz, align);
            && |r.state.buffers| == |a.buffers| && r.state.nextId == a.nextId
            && r.buf.buffer == a.buffers[k].id
            && (forall j | 0 <= j < |a.buffers| && j != k :: r.state.buffers[j] == a.buffers[j])
            && (forall j | 0 <= j < k :: !Serves(a.buffers[j], sz, align))
  {
    ServedLease(a.buffers[k], sz, align);
  }

  /**
   * Growth: when no existing buffer can serve the request, exactly one
   * buffer of max(capacity, sz) bytes with a new name is appended, the
   * others are unchanged, and the lease is its first `sz` bytes.
   */
  lemma AllocAppends(a: Allocator, sz: nat, align: nat)
    requires AllocatorModel.Valid(a) && align > 0 && FirstServing(a.buffers, sz, align, 0).None?
    ensures var r := AllocatorModel.Alloc(a, sz, align);
            var last := r.state.buffers[|r.state.buffers| - 1];
            && |r.state.buffers| == |a.buffers| + 1 && r.state.buffers[..|a.buffers|] == a.buffers
            && last.size == Max(a.capacity, sz) && last.id == a.nextId
            && r.buf == SubBuffer(0, sz, a.nextId) && Live(last, r.buf)
  {
    NewBufferServes(Max(a.capacity, sz), a.nextId, sz, align);
    var r := AllocatorModel.Alloc(a, sz, align);
    assert r.state.buffers[..|a.buffers|] == a.buffers;
  }

  /** A buffer is appended exactly when no existing buffer can serve the request. */
  lemma AllocGrowsIff(a: Allocator, sz: nat, align: nat)
    requires AllocatorModel.Valid(a) && align > 0
    ensures var r := AllocatorModel.Alloc(a, sz, align);
            && (|r.state.buffers| == |a.buffers| + 1 <==>
                  forall k | 0 <= k < |a.buffers| :: !Serves(a.buffers[k], sz, align))
            && (|r.state.buffers| == |a.buffers| || |r.state.buffers| == |a.buffers| + 1)
  {
    match FirstServing(a.buffers, sz, align, 0)
    case Some(k) =>
      AllocInExisting(a, sz, align, k);
    case None =>
      AllocAppends(a, sz, align);
  }

  /**
   * Unique ownership: distinct names mean the buffer `find_if` picks is the
   * only one containing the sub-buffer.
   */
  lemma OwnerUnique(a: Allocator, b: SubBuffer, k: nat)
    requires AllocatorModel.Valid(a) && Owner(a.buffers, b, 0) == Some(k)
    ensures forall j | 0 <= j < |a.buffers| :: Contains(a.buffers[j], b) <==> j == k
  {
    forall j | 0 <= j < |a.buffers| && j != k
      ensures !Contains(a.buffers[j], b)
    {
      if j < k {
      } else {
        assert a.buffers[k].id != a.buffers[j].id;
      }
    }
  }

  /** `alloc(sz, BufAlignment)` aligns to the binding point's reported alignment. */
  lemma AllocForAligned(a: Allocator, sz: nat, cat: BufAlignment)
    requires AllocatorModel.Valid(a)
    ensures var r := AllocFor(a, sz, cat);
            && r.buf.size == sz
            && (cat == UniformBuffer ==> r.buf.offset % a.uboAlignment == 0)
            && (cat == TextureBuffer ==> r.buf.offset % a.tboAlignment == 0)
            && (cat == ShaderStorageBuffer ==> r.buf.offset % a.ssboAlignment == 0)
  {
    AllocLeases(a, sz, AlignmentOf(a, cat));
  }

  /** `free` keeps the allocator invariant. */
  lemma FreeKeepsValid(a: Allocator, b: SubBuffer)
    requires AllocatorModel.Valid(a) && FreeOk(a, b)
    ensures AllocatorModel.Valid(AllocatorModel.Free(a, b).state)
  {
    match Owner(a.buffers, b, 0)
    case None =>
    case Some(k) =>
      FreeValid(a.buffers[k], b);
  }

  /**
   * `free` releases through the owner alone and zeroes the caller's size;
   * a sub-buffer no buffer owns leaves everything unchanged.
   */
  lemma FreeZeroes(a: Allocator, b: SubBuffer)
    requires AllocatorModel.Valid(a) && FreeOk(a, b)
    ensures var r := AllocatorModel.Free(a, b);
            match Owner(a.buffers, b, 0)
            case None => r == Leased(a, b)
            case Some(k) =>
              && r.buf == b.(size := 0)
              && |r.state.buffers| == |a.buffers|
              && (forall j | 0 <= j < |a.buffers| && j != k :: r.state.buffers[j] == a.buffers[j])
              && (forall x :: x in r.state.buffers[k].used <==> x in a.buffers[k].used && x.offset != b.offset)
  {
    match Owner(a.buffers, b, 0)
    case None =>
    case Some(k) =>
      FreeShape(a.buffers[k], b);
  }

  /** `realloc` keeps the allocator invariant. */
  lemma ReallocKeepsValid(a: Allocator, b: SubBuffer, newSz: nat, align: nat)
    requires AllocatorModel.Valid(a) && align > 0 && ReallocOk(a, b, newSz)
    ensures AllocatorModel.Valid(AllocatorModel.Realloc(a, b, newSz, align).state)
  {
    match Owner(a.buffers, b, 0)
    case None =>
    case Some(p) =>
      var s := a.buffers[p];
      ReallocValid(s, b, newSz, align);
      if !BufferModel.Realloc(s, b, newSz, align).ok {
        var n := AllocatorModel.Alloc(a, newSz, align);
        OwnerRefuses(a, b, newSz, align, p);
        AllocValid(a, newSz, align);
        FindMember(s.used, Block(b.offset, b.size));
        FreeValid(n.state.buffers[p], b);
        ReleaseKeepsValid(n.state, p, BufferModel.Free(n.state.buffers[p], b));
      }
  }

  /** Replacing one buffer by a valid state with the same name keeps the invariant. */
  lemma ReleaseKeepsValid(a: Allocator, p: nat, t: BufState)
    requires AllocatorModel.Valid(a) && p < |a.buffers| && BufferModel.Valid(t) && t.id == a.buffers[p].id
    ensures AllocatorModel.Valid(a.(buffers := a.buffers[p := t]))
  {
  }

  /**
   * A realloc the owning buffer can serve stays there: the sub-buffer keeps
   * its buffer and takes `newSz` bytes, and no other buffer changes.
   */
  lemma ReallocStays(a: Allocator, b: SubBuffer, newSz: nat, align: nat, p: nat)
    requires AllocatorModel.Valid(a) && align > 0 && ReallocOk(a, b, newSz) && Owner(a.buffers, b, 0) == Some(p)
    requires BufferModel.Realloc(a.buffers[p], b, newSz, align).ok
    ensures var r := AllocatorModel.Realloc(a, b, newSz, align);
            && r.buf.buffer == b.buffer && r.buf.size == newSz
            && |r.state.buffers| == |a.buffers|
            && (forall j | 0 <= j < |a.buffers| && j != p :: r.state.buffers[j] == a.buffers[j])
  {
    ReallocContract(a.buffers[p], b, newSz, align);
  }

  /**
   * A realloc the owner refuses moves the data to another buffer: the new
   * lease has `newSz` aligned bytes in a different buffer, one copy carries
   * the old contents across, and the old key is no longer used in the owner.
   */
  lemma ReallocElsewhere(a: Allocator, b: SubBuffer, newSz: nat, align: nat, p: nat)
    requires AllocatorModel.Valid(a) && align > 0 && ReallocOk(a, b, newSz) && Owner(a.buffers, b, 0) == Some(p)
    requires !BufferModel.Realloc(a.buffers[p], b, newSz, align).ok
    ensures var r := AllocatorModel.Realloc(a, b, newSz, align);
            && r.buf.buffer != b.buffer && r.buf.size == newSz && r.buf.offset % align == 0
            && r.copies == [Copy(b.buffer, b.offset, r.buf.buffer, r.buf.offset, b.size)]
            && Find(r.state.buffers[p].used, b.offset).None?
  {
    var s := a.buffers[p];
    var n := AllocatorModel.Alloc(a, newSz, align);
    OwnerRefuses(a, b, newSz, align, p);
    AllocLeases(a, newSz, align);
    LeaseElsewhere(a, newSz, align, p);
    FindMember(s.used, Block(b.offset, b.size));
    FreeShape(n.state.buffers[p], b);
    FreeReleasesKey(n.state.buffers[p], b);
  }

  /** An allocation buffer `p` cannot serve lands in a buffer with another name. */
  lemma LeaseElsewhere(a: Allocator, sz: nat, align: nat, p: nat)
    requires AllocatorModel.Valid(a) && align > 0 && p < |a.buffers| && !Serves(a.buffers[p], sz, align)
    ensures AllocatorModel.Alloc(a, sz, align).buf.buffer != a.buffers[p].id
  {
    match FirstServing(a.buffers, sz, align, 0)
    case Some(k) =>
      ServedLease(a.buffers[k], sz, align);
      assert k != p;
    case None =>
      NewBufferServes(Max(a.capacity, sz), a.nextId, sz, align);
  }

  /** After `free`, no used entry has the freed key. */
  lemma FreeReleasesKey(s: BufState, b: SubBuffer)
    requires BufferModel.Valid(s) && FreeReady(s, b)
    ensures Find(BufferModel.Free(s, b).used, b.offset).None?
  {
    FreeShape(s, b);
    FindNone(BufferModel.Free(s, b).used, b.offset);
  }

  /** `realloc` of a sub-buffer no buffer contains changes nothing and copies nothing. */
  lemma ReallocForeign(a: Allocator, b: SubBuffer, newSz: nat, align: nat)
    requires AllocatorModel.Valid(a) && align > 0 && ReallocOk(a, b, newSz)
    requires forall k | 0 <= k < |a.buffers| :: a.buffers[k].id != b.buffer
    ensures AllocatorModel.Realloc(a, b, newSz, align) == Moved(a, b, [])
  {
    assert Owner(a.buffers, b, 0).None?;
  }
}
