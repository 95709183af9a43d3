/**
 * The value-level semantics of one backing buffer (`glt::Buffer`): its two
 * ledgers and what `alloc`, `realloc` and `free` do to them. The class
 * `Buffers.Buffer` implements these operations step by step and is proved
 * to produce exactly these states.
 */
module BufferModel {
  import opened Ledgers

  /** A lease on `size` bytes at `offset` of the GL buffer named `buffer`. */
  datatype SubBuffer = SubBuffer(offset: nat, size: nat, buffer: nat)

  /** One `glCopyBufferSubData` command: `length` bytes from src to dst. */
  datatype Copy = Copy(srcBuffer: nat, srcOffset: nat, dstBuffer: nat, dstOffset: nat, length: nat)

  /** The state of one backing buffer: capacity, GL name and the two ledgers. */
  datatype BufState = BufState(size: nat, id: nat, freeb: Ledger, used: Ledger)

  datatype AllocResult = AllocResult(ok: bool, state: BufState, buf: SubBuffer)

  datatype ReallocResult = ReallocResult(ok: bool, state: BufState, buf: SubBuffer, copies: seq<Copy>)

  /** The default-constructed sub-buffer, which names no buffer. */
  const NoSubBuffer := SubBuffer(0, 0, 0)

  /**
   * The ledger invariant the operations keep: ledgers ordered by offset,
   * every extent inside the buffer, and no byte in two extents.
   */
  predicate Valid(s: BufState) {
    && Sorted(s.freeb) && Sorted(s.used)
    && Within(s.freeb, s.size) && Within(s.used, s.size)
    && Separated(s.freeb) && Separated(s.used)
    && Apart(s.freeb, s.used)
  }

  /** `Buffer::contains`: the sub-buffer names this buffer. */
  predicate Contains(s: BufState, b: SubBuffer) {
    b.buffer == s.id
  }

  /** The sub-buffer's extent is recorded in the used ledger. */
  predicate Live(s: BufState, b: SubBuffer) {
    Block(b.offset, b.size) in s.used
  }

  /** A fresh buffer: one free extent spanning the whole capacity. */
  function Init(size: nat, id: nat): (s: BufState)
    ensures Valid(s)
    ensures s.freeb == [Block(0, size)] && s.used == []
  {
    BufState(size, id, [Block(0, size)], [])
  }

  /** Bytes to skip at `offset` so that the allocation starts aligned. */
  function Pad(offset: nat, align: nat): (p: nat)
    requires align > 0
    ensures p < align && (offset + p) % align == 0
    ensures offset % align == 0 <==> p == 0
  {
    if offset % align == 0 then 0
    else
      PadAligns(offset, align);
      align - offset % align
  }

  lemma PadAligns(offset: nat, align: nat)
    requires align > 0 && offset % align != 0
    ensures (offset + (align - offset % align)) % align == 0
  {
    var q := offset / align;
    assert offset == q * align + offset % align;
    assert offset + (align - offset % align) == (q + 1) * align + 0;
    ModUnique(offset + (align - offset % align), align, q + 1, 0);
  }

  /** Euclidean division has one remainder: a == q*m + r with 0 <= r < m fixes a % m. */
  lemma ModUnique(a: int, m: int, q: int, r: int)
    requires m > 0 && 0 <= r < m && a == q * m + r
    ensures a % m == r
  {
    var d := q - a / m;
    assert a == (a / m) * m + a % m;
    assert d * m == a % m - r by {
      assert d * m == q * m - (a / m) * m;
    }
  }

  /** A free extent can hold `sz` bytes after its alignment pad. */
  predicate Fits(b: Block, sz: nat, align: nat)
    requires align > 0
  {
    sz + Pad(b.offset, align) <= b.size
  }

  /** First-fit: the lowest-keyed free extent that can hold the request. */
  function FirstFit(l: Ledger, sz: nat, align: nat): (r: Option<nat>)
    requires align > 0
    ensures r.Some? ==> r.value < |l| && Fits(l[r.value], sz, align)
    ensures forall j | 0 <= j < |l| && (r.None? || j < r.value) :: !Fits(l[j], sz, align)
  {
    if l == [] then None
    else if Fits(l[0], sz, align) then Some(0)
    else match FirstFit(l[1..], sz, align)
      case None => None
      case Some(i) => Some(i + 1)
  }

  /**
   * The split `alloc` performs on free extent `i`: the extent leaves the free
   * ledger; on an exact fit it moves to the used ledger whole, otherwise the
   * used ledger gains the aligned allocation and the free ledger gains the
   * trailing remainder (possibly empty) and, when the pad is not zero, the pad.
   */
  function Carve(s: BufState, i: nat, sz: nat, align: nat): (r: BufState)
    requires Sorted(s.freeb) && Sorted(s.used) && align > 0
    requires i < |s.freeb| && Fits(s.freeb[i], sz, align)
    ensures r.size == s.size && r.id == s.id
    ensures Sorted(r.freeb) && Sorted(r.used)
  {
    var blk := s.freeb[i];
    var pad := Pad(blk.offset, align);
    var offset := blk.offset + pad;
    var rest := Erase(s.freeb, i);
    if blk.size - sz == 0 then
      s.(freeb := rest, used := Insert(s.used, blk))
    else
      var used := Insert(s.used, Block(offset, sz));
      var trailing := Insert(rest, Block(offset + sz, blk.size - sz - pad));
      s.(freeb := if pad != 0 then Insert(trailing, Block(blk.offset, pad)) else trailing,
         used := used)
  }

  /**
   * `Buffer::alloc(sz, buf, align)`: first-fit allocation. On failure the
   * state and the caller's `buf` are unchanged.
   */
  function Alloc(s: BufState, sz: nat, buf: SubBuffer, align: nat): (r: AllocResult)
    requires Sorted(s.freeb) && Sorted(s.used) && align > 0
    ensures r.state.size == s.size && r.state.id == s.id
    ensures Sorted(r.state.freeb) && Sorted(r.state.used)
  {
    if s.freeb == [] then AllocResult(false, s, buf)
    else match FirstFit(s.freeb, sz, align)
      case None => AllocResult(false, s, buf)
      case Some(i) =>
        var blk := s.freeb[i];
        AllocResult(true, Carve(s, i, sz, align), SubBuffer(blk.offset + Pad(blk.offset, align), sz, s.id))
  }

  /** A successful allocation keeps every existing used entry. */
  lemma AllocKeepsUsed(s: BufState, sz: nat, buf: SubBuffer, align: nat)
    requires Sorted(s.freeb) && Sorted(s.used) && align > 0
    ensures forall x | x in s.used :: x in Alloc(s, sz, buf, align).state.used
  {
    var fit := FirstFit(s.freeb, sz, align);
    if s.freeb != [] && fit.Some? {
      var blk := s.freeb[fit.value];
      InsertFacts(s.used, if blk.size - sz == 0 then blk else Block(blk.offset + Pad(blk.offset, align), sz));
    }
  }

  /**
   * The requirement `realloc` places on its sub-buffer: if it is ours and the
   * call gets past its first guard, its extent is live.
   */
  predicate ReallocReady(s: BufState, b: SubBuffer) {
    Contains(s, b) && s.freeb != [] ==> Live(s, b)
  }

  /** The in-place growth step of `realloc`: neighbour `j` gives up its front. */
  function Grow(s: BufState, b: SubBuffer, j: nat, newSz: nat): (r: BufState)
    requires Sorted(s.freeb) && Sorted(s.used) && Live(s, b)
    requires j < |s.freeb| && s.freeb[j].offset == b.offset + b.size
    requires b.size <= newSz <= b.size + s.freeb[j].size
    ensures r.size == s.size && r.id == s.id
    ensures Sorted(r.freeb) && Sorted(r.used)
  {
    FindMember(s.used, Block(b.offset, b.size));
    var u := Find(s.used, b.offset).value;
    var blk := s.freeb[j];
    var rest := Erase(s.freeb, j);
    var amt := newSz - b.size;
    var used := Resize(s.used, u, s.used[u].size + amt);
    s.(freeb := if amt != blk.size then Insert(rest, Block(blk.offset + amt, blk.size - amt)) else rest,
       used := used)
  }

  /**
   * `Buffer::realloc(b, newSz, align)`: grow in place into the free extent
   * that starts where `b` ends when it is large enough; otherwise allocate a
   * new extent in this buffer, copy, and free the old one.
   */
  function Realloc(s: BufState, b: SubBuffer, newSz: nat, align: nat): (r: ReallocResult)
    requires Sorted(s.freeb) && Sorted(s.used) && align > 0
    requires newSz >= b.size && ReallocReady(s, b)
    ensures r.state.size == s.size && r.state.id == s.id
    ensures Sorted(r.state.freeb) && Sorted(r.state.used)
  {
    if s.freeb == [] || !Contains(s, b) then ReallocResult(false, s, b, [])
    else
      var fnd := Find(s.freeb, b.offset + b.size);
      if fnd.Some? && newSz <= b.size + s.freeb[fnd.value].size then
        ReallocResult(true, Grow(s, b, fnd.value, newSz), b.(size := newSz), [])
      else
        var a := Alloc(s, newSz, NoSubBuffer, align);
        if a.ok then
          AllocKeepsUsed(s, newSz, NoSubBuffer, align);
          FindMember(a.state.used, Block(b.offset, b.size));
          ReallocResult(true, Free(a.state, b), a.buf, [Copy(s.id, b.offset, s.id, a.buf.offset, b.size)])
        else ReallocResult(false, s, b, [])
  }

  /** `Buffer::free` is only defined for a sub-buffer of ours whose key is used. */
  predicate FreeReady(s: BufState, b: SubBuffer) {
    Contains(s, b) && Find(s.used, b.offset).Some?
  }

  /**
   * `Buffer::free(buf)`: the used entry keyed `buf.offset` is erased and
   * inserted into the free ledger (a no-op if that key is already free),
   * then one coalescing pass runs over the whole free ledger.
   */
  function Free(s: BufState, b: SubBuffer): (r: BufState)
    requires Sorted(s.freeb) && Sorted(s.used) && FreeReady(s, b)
    ensures r.size == s.size && r.id == s.id
    ensures Sorted(r.freeb) && Sorted(r.used)
  {
    var i := Find(s.used, b.offset).value;
    var rel := s.used[i];
    s.(freeb := Coalesce(Insert(s.freeb, rel)), used := Erase(s.used, i))
  }

  /** The coalescing pass of `free`, started at the first free extent. */
  function Coalesce(l: Ledger): (r: Ledger)
    requires Sorted(l) && l != []
    ensures Sorted(r)
  {
    CoalesceFrom(l, 0)
  }

  /** Merge entry `i` with its successor: `it->second.size += next->second.size; erase(next)`. */
  function Merge(l: Ledger, i: nat): (r: Ledger)
    requires Sorted(l) && i + 1 < |l|
    ensures Sorted(r) && |r| == |l| - 1
  {
    Erase(Resize(l, i, l[i].size + l[i + 1].size), i + 1)
  }

  /** The coalescing loop from iterator position `i` to the last entry. */
  function CoalesceFrom(l: Ledger, i: nat): (r: Ledger)
    requires Sorted(l) && i < |l|
    ensures Sorted(r)
    decreases 2 * |l| - i
  {
    if i + 1 == |l| then l
    else if l[i].End() == l[i + 1].offset then CoalesceFrom(Merge(l, i), i)
    else CoalesceFrom(l, i + 1)
  }
}
