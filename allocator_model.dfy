/**
 * The value-level semantics of `glt::BufferAllocator`: an ordered list of
 * backing buffers that grows by one buffer when none can serve a request,
 * and the `alloc`, `realloc` and `free` that route a sub-buffer to the
 * buffer owning it. GL buffer names come from a counter (`nextId`) standing
 * for `glGenBuffers`, which hands out fresh non-zero names.
 */
module AllocatorModel {
  import opened Ledgers
  import opened BufferModel

  /** The three binding points whose offset alignment GL reports. */
  datatype BufAlignment = UniformBuffer | TextureBuffer | ShaderStorageBuffer

  datatype Allocator = Allocator(
    capacity: nat,
    uboAlignment: nat, tboAlignment: nat, ssboAlignment: nat,
    buffers: seq<BufState>,
    nextId: nat)

  /** The allocator after `alloc` and the sub-buffer it returns. */
  datatype Leased = Leased(state: Allocator, buf: SubBuffer)

  /** The allocator after `realloc`, the caller's sub-buffer, and the copies issued. */
  datatype Moved = Moved(state: Allocator, buf: SubBuffer, copies: seq<Copy>)

  function Max(a: nat, b: nat): nat {
    if a < b then b else a
  }

  /** Every buffer's ledgers are ordered, so the buffer operations apply. */
  predicate Ready(bs: seq<BufState>) {
    forall k | 0 <= k < |bs| :: Sorted(bs[k].freeb) && Sorted(bs[k].used)
  }

  /**
   * The allocator invariant: each buffer keeps the ledger invariant, GL
   * names are non-zero, below the name counter and pairwise distinct, and
   * the reported alignments are positive.
   */
  predicate Valid(a: Allocator) {
    && a.uboAlignment > 0 && a.tboAlignment > 0 && a.ssboAlignment > 0
    && a.nextId > 0
    && (forall k | 0 <= k < |a.buffers| :: BufferModel.Valid(a.buffers[k]))
    && (forall k | 0 <= k < |a.buffers| :: 0 < a.buffers[k].id < a.nextId)
    && (forall k, m | 0 <= k < m < |a.buffers| :: a.buffers[k].id != a.buffers[m].id)
  }

  /** `BufferAllocator(capacity)`: one buffer of `capacity` bytes, named 1. */
  function Init(capacity: nat, ubo: nat, tbo: nat, ssbo: nat): (a: Allocator)
    requires ubo > 0 && tbo > 0 && ssbo > 0
    ensures Valid(a) && |a.buffers| == 1
    ensures a.buffers[0] == BufferModel.Init(capacity, 1)
  {
    Allocator(capacity, ubo, tbo, ssbo, [BufferModel.Init(capacity, 1)], 2)
  }

  /** The alignment `alloc(sz, BufAlignment)` uses for binding point `cat`. */
  function AlignmentOf(a: Allocator, cat: BufAlignment): (n: nat)
    ensures Valid(a) ==> n > 0
    ensures n in {a.uboAlignment, a.tboAlignment, a.ssboAlignment}
  {
    match cat
    case UniformBuffer => a.uboAlignment
    case TextureBuffer => a.tboAlignment
    case ShaderStorageBuffer => a.ssboAlignment
  }

  /** Buffer `s` can serve `sz` bytes at alignment `align`. */
  predicate Serves(s: BufState, sz: nat, align: nat)
    requires Sorted(s.freeb) && Sorted(s.used) && align > 0
  {
    BufferModel.Alloc(s, sz, NoSubBuffer, align).ok
  }

  /** The first buffer at or after `from` that can serve the request. */
  function FirstServing(bs: seq<BufState>, sz: nat, align: nat, from: nat): (r: Option<nat>)
    requires Ready(bs) && align > 0 && from <= |bs|
    ensures r.Some? ==> from <= r.value < |bs| && Serves(bs[r.value], sz, align)
    ensures forall j | from <= j < |bs| && (r.None? || j < r.value) :: !Serves(bs[j], sz, align)
    decreases |bs| - from
  {
    if from == |bs| then None
    else if Serves(bs[from], sz, align) then Some(from)
    else FirstServing(bs, sz, align, from + 1)
  }

  /** `std::find_if(..., contains(b))`: the first buffer named by `b`. */
  function Owner(bs: seq<BufState>, b: SubBuffer, from: nat): (r: Option<nat>)
    requires from <= |bs|
    ensures r.Some? ==> from <= r.value < |bs| && Contains(bs[r.value], b)
    ensures forall j | from <= j < |bs| && (r.None? || j < r.value) :: !Contains(bs[j], b)
    decreases |bs| - from
  {
    if from == |bs| then None
    else if Contains(bs[from], b) then Some(from)
    else Owner(bs, b, from + 1)
  }

  /**
   * `BufferAllocator::alloc(sz, align)`: the first buffer that can serve the
   * request does; otherwise one buffer of max(capacity, sz) bytes is
   * appended and serves it. The fallback after that, which returns the
   * default sub-buffer, is kept as the source has it.
   */
  function Alloc(a: Allocator, sz: nat, align: nat): (r: Leased)
    requires Ready(a.buffers) && align > 0
    ensures Ready(r.state.buffers)
  {
    match FirstServing(a.buffers, sz, align, 0)
    case Some(k) =>
      var t := BufferModel.Alloc(a.buffers[k], sz, NoSubBuffer, align);
      Leased(a.(buffers := a.buffers[k := t.state]), t.buf)
    case None =>
      var added := BufferModel.Init(Max(a.capacity, sz), a.nextId);
      var grown := a.(buffers := a.buffers + [added], nextId := a.nextId + 1);
      var t := BufferModel.Alloc(added, sz, NoSubBuffer, align);
      if t.ok then Leased(grown.(buffers := a.buffers + [t.state]), t.buf)
      else Leased(grown, NoSubBuffer)
  }

  /** `BufferAllocator::alloc(sz, BufAlignment)`. */
  function AllocFor(a: Allocator, sz: nat, cat: BufAlignment): Leased
    requires Valid(a)
  {
    Alloc(a, sz, AlignmentOf(a, cat))
  }

  /**
   * What `BufferAllocator::free` demands: the sub-buffer's owner, if there
   * is one, has its key in the used ledger.
   */
  predicate FreeOk(a: Allocator, b: SubBuffer) {
    var p := Owner(a.buffers, b, 0);
    p.Some? ==> Find(a.buffers[p.value].used, b.offset).Some?
  }

  /**
   * `BufferAllocator::free(buf)`: the owning buffer frees it and its size
   * becomes 0; a sub-buffer no buffer owns is left alone (the source only
   * prints a warning).
   */
  function Free(a: Allocator, b: SubBuffer): (r: Leased)
    requires Ready(a.buffers) && FreeOk(a, b)
    ensures Ready(r.state.buffers)
  {
    match Owner(a.buffers, b, 0)
    case None => Leased(a, b)
    case Some(k) => Leased(a.(buffers := a.buffers[k := BufferModel.Free(a.buffers[k], b)]), b.(size := 0))
  }

  /**
   * What `BufferAllocator::realloc` demands: a growing request, and a
   * sub-buffer whose owner, if there is one, has it live.
   */
  predicate ReallocOk(a: Allocator, b: SubBuffer, newSz: nat) {
    var p := Owner(a.buffers, b, 0);
    newSz >= b.size && (p.Some? ==> Live(a.buffers[p.value], b))
  }

  /**
   * `BufferAllocator::realloc(b, newSz, align)`: the owning buffer tries a
   * realloc of its own; if it refuses, the allocator allocates `newSz`
   * bytes wherever it can, copies the old contents across buffers, and
   * frees the old extent in the owner. A sub-buffer no buffer owns is left
   * alone (the source only prints an error).
   */
  function Realloc(a: Allocator, b: SubBuffer, newSz: nat, align: nat): (r: Moved)
    requires Valid(a) && align > 0 && ReallocOk(a, b, newSz)
    ensures Ready(r.state.buffers)
  {
    match Owner(a.buffers, b, 0)
    case None => Moved(a, b, [])
    case Some(p) =>
      var t := BufferModel.Realloc(a.buffers[p], b, newSz, align);
      if t.ok then Moved(a.(buffers := a.buffers[p := t.state]), t.buf, t.copies)
      else
        var n := Alloc(a, newSz, align);
        OwnerRefuses(a, b, newSz, align, p);
        FindMember(a.buffers[p].used, Block(b.offset, b.size));
        var bs := n.state.buffers;
        Moved(n.state.(buffers := bs[p := BufferModel.Free(bs[p], b)]), n.buf,
              [Copy(b.buffer, b.offset, n.buf.buffer, n.buf.offset, b.size)])
  }

  /** `BufferAllocator::realloc(b, newSz, BufAlignment)`. */
  function ReallocFor(a: Allocator, b: SubBuffer, newSz: nat, cat: BufAlignment): Moved
    requires Valid(a) && ReallocOk(a, b, newSz)
  {
    Realloc(a, b, newSz, AlignmentOf(a, cat))
  }

  /**
   * When the owner refuses a realloc it cannot serve the allocation either,
   * so the allocation lands elsewhere and leaves the owner as it was.
   */
  lemma OwnerRefuses(a: Allocator, b: SubBuffer, newSz: nat, align: nat, p: nat)
    requires Valid(a) && align > 0 && p < |a.buffers| && newSz >= b.size
    requires Contains(a.buffers[p], b) && Live(a.buffers[p], b)
    requires !BufferModel.Realloc(a.buffers[p], b, newSz, align).ok
    ensures !Serves(a.buffers[p], newSz, align)
    ensures var n := Alloc(a, newSz, align);
            p < |n.state.buffers| && n.state.buffers[p] == a.buffers[p]
  {
    var s := a.buffers[p];
    if s.freeb != [] {
      assert !BufferModel.Alloc(s, newSz, NoSubBuffer, align).ok;
    }
  }
}
