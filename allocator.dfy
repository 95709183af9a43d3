/**
 * `glt::BufferAllocator` as an object: the backing buffers it owns, in the
 * order they were created, the counter standing for `glGenBuffers`, and the
 * alignments GL reported at construction. Each method performs the source's
 * steps on the buffers and is proved to leave exactly the state the
 * matching `AllocatorModel` function describes.
 */
module Allocators {
  import opened Ledgers
  import opened BufferModel
  import AllocatorModel
  import AllocatorProperties
  import Buffers
  import ReallocProperties

  class BufferAllocator {
    const capacity: nat
    /** `GL_UNIFORM_BUFFER_OFFSET_ALIGNMENT` and its texture and storage counterparts. */
    const uboAlignment: nat
    const tboAlignment: nat
    const ssboAlignment: nat
    var buffers: seq<Buffers.Buffer>
    /** The next name `glGenBuffers` hands out. */
    var nextId: nat
    /** The `glCopyBufferSubData` commands issued so far. */
    ghost var copies: seq<Copy>

    /** The state of each buffer, in order. */
    ghost function Views(): seq<BufState>
      reads this, buffers
    {
      var bs := buffers;
      seq(|bs|, k requires 0 <= k < |bs| reads bs => bs[k].View())
    }

    /** The allocator as a value. */
    ghost function View(): AllocatorModel.Allocator
      reads this, buffers
    {
      AllocatorModel.Allocator(capacity, uboAlignment, tboAlignment, ssboAlignment, Views(), nextId)
    }

    /** No buffer object is held twice, and the value invariant holds. */
    ghost predicate Valid()
      reads this, buffers
    {
      Distinct() && AllocatorModel.Valid(View())
    }

    /** No buffer object is held twice. */
    ghost predicate Distinct()
      reads this
    {
      forall j, k | 0 <= j < k < |buffers| :: buffers[j] != buffers[k]
    }

    /** `BufferAllocator(capacity)`: one buffer of `capacity` bytes. */
    constructor (capacity: nat, ubo: nat, tbo: nat, ssbo: nat)
      requires ubo > 0 && tbo > 0 && ssbo > 0
      ensures Valid() && View() == AllocatorModel.Init(capacity, ubo, tbo, ssbo)
      ensures copies == []
    {
      var b := new Buffers.Buffer(capacity, 1);
      this.capacity := capacity;
      buffers := [b];
      nextId := 2;
      uboAlignment := ubo;
      tboAlignment := tbo;
      ssboAlignment := ssbo;
      copies := [];
      new;
      assert Views() == [BufferModel.Init(capacity, 1)];
    }

    /**
     * `alloc(sz, align)`: offer the request to each buffer in order; if none
     * takes it, append a buffer of max(capacity, sz) bytes and allocate there.
     */
    method Alloc(sz: nat, align: nat) returns (buf: SubBuffer)
      requires Valid() && align > 0
      modifies this, buffers
      ensures Valid()
      ensures var r := AllocatorModel.Alloc(old(View()), sz, align);
              View() == r.state && buf == r.buf
      ensures |buffers| >= |old(buffers)| && buffers[..|old(buffers)|] == old(buffers)
      ensures copies == old(copies)
    {
      ghost var a := View();
      AllocatorProperties.AllocValid(a, sz, align);
      buf := NoSubBuffer;
      var i := 0;
      while i < |buffers|
        invariant i <= |buffers| && buffers == old(buffers) && View() == a
        invariant forall j | 0 <= j < i :: !AllocatorModel.Serves(a.buffers[j], sz, align)
        invariant buf == NoSubBuffer && copies == old(copies)
      {
        assert Views()[i] == buffers[i].View();
        var ok;
        ok, buf := buffers[i].Alloc(sz, buf, align);
        if ok {
          AllocatorProperties.AllocServedBy(a, sz, align, i);
          Replaced(a, i);
          assert View() == AllocatorModel.Alloc(a, sz, align).state;
          assert AllocatorModel.Valid(View());
          return buf;
        }
        Replaced(a, i);
        i := i + 1;
      }
      buf := AllocNew(sz, align);
    }

    /**
     * The tail of `alloc`, reached when no buffer can serve the request:
     * append a buffer of max(capacity, sz) bytes and allocate there.
     */
    method AllocNew(sz: nat, align: nat) returns (buf: SubBuffer)
      requires Valid() && align > 0
      requires forall j | 0 <= j < |Views()| :: !AllocatorModel.Serves(Views()[j], sz, align)
      modifies this
      ensures Valid()
      ensures var r := AllocatorModel.Alloc(old(View()), sz, align);
              View() == r.state && buf == r.buf
      ensures |buffers| == |old(buffers)| + 1 && buffers[..|old(buffers)|] == old(buffers)
      ensures copies == old(copies)
    {
      ghost var a := View();
      AllocatorProperties.AllocValid(a, sz, align);
      AllocatorProperties.AllocAppendedAs(a, sz, align);
      var b := new Buffers.Buffer(AllocatorModel.Max(capacity, sz), nextId);
      nextId := nextId + 1;
      buffers := buffers + [b];
      var ok;
      ok, buf := b.Alloc(sz, NoSubBuffer, align);
      Appended(a, b);
      assert View() == AllocatorModel.Alloc(a, sz, align).state;
      assert AllocatorModel.Valid(View());
      if ok {
        return buf;
      }
      return NoSubBuffer;
    }

    /** `alloc(sz, BufAlignment)`: allocate at the alignment GL reported for the binding point. */
    method AllocFor(sz: nat, cat: AllocatorModel.BufAlignment) returns (buf: SubBuffer)
      requires Valid()
      modifies this, buffers
      ensures Valid()
      ensures var r := AllocatorModel.AllocFor(old(View()), sz, cat);
              View() == r.state && buf == r.buf
      ensures copies == old(copies)
    {
      match cat
      case UniformBuffer =>
        buf := Alloc(sz, uboAlignment);
      case TextureBuffer =>
        buf := Alloc(sz, tboAlignment);
      case ShaderStorageBuffer =>
        buf := Alloc(sz, ssboAlignment);
    }

    /**
     * `free(buf)`: the first buffer containing the sub-buffer frees it and
     * the caller's size becomes 0; `released` is the caller's sub-buffer
     * afterwards. A sub-buffer no buffer contains is left alone.
     */
    method Free(buf: SubBuffer) returns (released: SubBuffer)
      requires Valid() && AllocatorModel.FreeOk(View(), buf)
      modifies buffers
      ensures Valid()
      ensures var r := AllocatorModel.Free(old(View()), buf);
              View() == r.state && released == r.buf
    {
      ghost var a := View();
      AllocatorProperties.FreeKeepsValid(a, buf);
      var i := 0;
      while i < |buffers|
        invariant i <= |buffers| && View() == a
        invariant forall j | 0 <= j < i :: !Contains(a.buffers[j], buf)
      {
        assert Views()[i] == buffers[i].View();
        if buffers[i].Contains(buf) {
          assert AllocatorModel.Owner(a.buffers, buf, 0) == Some(i);
          FreeAt(i, buf);
          assert View() == AllocatorModel.Free(a, buf).state;
          return buf.(size := 0);
        }
        i := i + 1;
      }
      assert AllocatorModel.Owner(a.buffers, buf, 0).None?;
      return buf;
    }

    /**
     * `realloc(b, newSz, align)`: the buffer containing `b` tries first; if
     * it refuses, allocate anywhere, copy the old contents across, and free
     * the old extent in that buffer. `moved` is the caller's sub-buffer
     * afterwards; the copies issued are appended to `copies`.
     */
    method Realloc(b: SubBuffer, newSz: nat, align: nat) returns (moved: SubBuffer)
      requires Valid() && align > 0 && AllocatorModel.ReallocOk(View(), b, newSz)
      modifies this, buffers
      ensures Valid()
      ensures var r := AllocatorModel.Realloc(old(View()), b, newSz, align);
              View() == r.state && moved == r.buf && copies == old(copies) + r.copies
    {
      var parent := FindOwner(b);
      if parent == |buffers| {
        return b;
      }
      moved := ReallocOwned(b, newSz, align, parent);
    }

    /** `realloc` once the owner `parent` is known. */
    method ReallocOwned(b: SubBuffer, newSz: nat, align: nat, parent: nat) returns (moved: SubBuffer)
      requires Valid() && align > 0 && AllocatorModel.ReallocOk(View(), b, newSz)
      requires AllocatorModel.Owner(Views(), b, 0) == Some(parent)
      modifies this, buffers
      ensures Valid()
      ensures var r := AllocatorModel.Realloc(old(View()), b, newSz, align);
              View() == r.state && moved == r.buf && copies == old(copies) + r.copies
    {
      ghost var a := View();
      assert Views()[parent] == buffers[parent].View();
      var ok;
      ok, moved := ReallocIn(b, newSz, align, parent);
      if ok {
        ReallocAt(a, b, newSz, align, parent);
        AllocatorProperties.ReallocKeepsValid(a, b, newSz, align);
        return moved;
      }
      ReallocProperties.ReallocContract(a.buffers[parent], b, newSz, align);
      assert View() == a && copies == old(copies);
      moved := Relocate(b, newSz, align, parent);
    }

    /**
     * The first step of `realloc`: the owning buffer `parent` tries the realloc
     * itself. If it refuses, nothing changes.
     */
    method ReallocIn(b: SubBuffer, newSz: nat, align: nat, parent: nat) returns (ok: bool, moved: SubBuffer)
      requires Valid() && align > 0 && AllocatorModel.ReallocOk(View(), b, newSz)
      requires AllocatorModel.Owner(Views(), b, 0) == Some(parent)
      modifies this, buffers[parent]
      ensures var t := BufferModel.Realloc(old(Views())[parent], b, newSz, align);
              && ok == t.ok && moved == t.buf && copies == old(copies) + t.copies
              && View() == old(View()).(buffers := old(Views())[parent := t.state])
      ensures buffers == old(buffers) && Valid()
    {
      ghost var a := View();
      assert Views()[parent] == buffers[parent].View();
      ghost var cs;
      ok, moved, cs := buffers[parent].Realloc(b, newSz, align);
      copies := copies + cs;
      Replaced(a, parent);
      AllocatorProperties.ReleaseKeepsValid(a, parent, buffers[parent].View());
    }

    /** `std::find_if(buffers, contains(b))`: the index of the owner, or `|buffers|` when none. */
    method FindOwner(b: SubBuffer) returns (it: nat)
      ensures it <= |buffers|
      ensures AllocatorModel.Owner(Views(), b, 0) == if it < |buffers| then Some(it) else None
    {
      ghost var bs := Views();
      it := 0;
      while it < |buffers| && !buffers[it].Contains(b)
        invariant it <= |buffers|
        invariant forall j | 0 <= j < it :: !Contains(bs[j], b)
      {
        assert Views()[it] == buffers[it].View();
        it := it + 1;
      }
      if it < |buffers| {
        assert Views()[it] == buffers[it].View();
        assert Contains(bs[it], b);
      }
    }

    /**
     * The tail of `realloc`, reached when the owning buffer `parent` refused:
     * allocate anywhere, record the cross-buffer copy, and free the old
     * extent in the owner.
     */
    method Relocate(b: SubBuffer, newSz: nat, align: nat, parent: nat) returns (moved: SubBuffer)
      requires Valid() && align > 0 && AllocatorModel.ReallocOk(View(), b, newSz)
      requires AllocatorModel.Owner(Views(), b, 0) == Some(parent)
      requires !BufferModel.Realloc(Views()[parent], b, newSz, align).ok
      modifies this, buffers
      ensures Valid()
      ensures var r := AllocatorModel.Realloc(old(View()), b, newSz, align);
              View() == r.state && moved == r.buf && copies == old(copies) + r.copies
    {
      ghost var a := View();
      ghost var r := AllocatorModel.Realloc(a, b, newSz, align);
      assert Views()[parent] == buffers[parent].View();
      RelocateAt(a, b, newSz, align, parent);
      moved := CopyOut(b, newSz, align, parent, AllocatorModel.Alloc(a, newSz, align));
      assert View() == r.state && moved == r.buf;
    }

    /**
     * The steps of that tail: allocate, record the copy, free in the owner,
     * stated against the allocation result `n`.
     */
    method CopyOut(b: SubBuffer, newSz: nat, align: nat, parent: nat, ghost n: AllocatorModel.Leased)
        returns (moved: SubBuffer)
      requires Valid() && align > 0 && n == AllocatorModel.Alloc(View(), newSz, align)
      requires parent < |buffers| && parent < |n.state.buffers| && n.state.buffers[parent] == Views()[parent]
      requires FreeReady(Views()[parent], b)
      modifies this, buffers
      ensures Distinct()
      ensures View() == n.state.(buffers := n.state.buffers[parent := BufferModel.Free(n.state.buffers[parent], b)])
      ensures moved == n.buf && copies == old(copies) + [Copy(b.buffer, b.offset, moved.buffer, moved.offset, b.size)]
    {
      moved := Alloc(newSz, align);
      copies := copies + [Copy(b.buffer, b.offset, moved.buffer, moved.offset, b.size)];
      assert Views() == n.state.buffers;
      assert buffers[parent] == old(buffers)[parent];
      FreeAt(parent, b);
    }

    /** `buffers[parent].free(b)`: only buffer `parent` changes, as `BufferModel.Free` says. */
    method FreeAt(parent: nat, b: SubBuffer)
      requires Valid() && parent < |buffers| && FreeReady(Views()[parent], b)
      modifies buffers[parent]
      ensures buffers == old(buffers) && Distinct()
      ensures View() == old(View()).(buffers := old(Views())[parent := BufferModel.Free(old(Views())[parent], b)])
    {
      ghost var a := View();
      assert Views()[parent] == buffers[parent].View();
      buffers[parent].Free(b);
      Replaced(a, parent);
    }

    /** `realloc(b, newSz, BufAlignment)`: realloc at the binding point's alignment. */
    method ReallocFor(b: SubBuffer, newSz: nat, cat: AllocatorModel.BufAlignment) returns (moved: SubBuffer)
      requires Valid() && AllocatorModel.ReallocOk(View(), b, newSz)
      modifies this, buffers
      ensures Valid()
      ensures var r := AllocatorModel.ReallocFor(old(View()), b, newSz, cat);
              View() == r.state && moved == r.buf && copies == old(copies) + r.copies
    {
      match cat
      case UniformBuffer =>
        moved := Realloc(b, newSz, uboAlignment);
      case TextureBuffer =>
        moved := Realloc(b, newSz, tboAlignment);
      case ShaderStorageBuffer =>
        moved := Realloc(b, newSz, ssboAlignment);
    }

    /** After buffer `i` alone changed, the value is `a` with entry `i` replaced. */
    lemma Replaced(a: AllocatorModel.Allocator, i: nat)
      requires i < |a.buffers| && |buffers| == |a.buffers|
      requires forall j | 0 <= j < |a.buffers| && j != i :: buffers[j].View() == a.buffers[j]
      requires a.capacity == capacity && a.nextId == nextId
      requires a.uboAlignment == uboAlignment && a.tboAlignment == tboAlignment && a.ssboAlignment == ssboAlignment
      ensures View() == a.(buffers := a.buffers[i := buffers[i].View()])
    {
    }

    /** After appending buffer `b`, the value is `a` with its state appended. */
    lemma Appended(a: AllocatorModel.Allocator, b: Buffers.Buffer)
      requires |buffers| == |a.buffers| + 1 && buffers[|a.buffers|] == b
      requires forall j | 0 <= j < |a.buffers| :: buffers[j].View() == a.buffers[j]
      requires a.capacity == capacity && a.nextId + 1 == nextId
      requires a.uboAlignment == uboAlignment && a.tboAlignment == tboAlignment && a.ssboAlignment == ssboAlignment
      ensures View() == a.(buffers := a.buffers + [b.View()], nextId := a.nextId + 1)
    {
    }
  }

  /** `Realloc` when the owner `p` serves the request itself. */
  lemma ReallocAt(a: AllocatorModel.Allocator, b: SubBuffer, newSz: nat, align: nat, p: nat)
    requires AllocatorModel.Valid(a) && align > 0 && AllocatorModel.ReallocOk(a, b, newSz)
    requires AllocatorModel.Owner(a.buffers, b, 0) == Some(p)
    requires BufferModel.Realloc(a.buffers[p], b, newSz, align).ok
    ensures var t := BufferModel.Realloc(a.buffers[p], b, newSz, align);
            AllocatorModel.Realloc(a, b, newSz, align)
              == AllocatorModel.Moved(a.(buffers := a.buffers[p := t.state]), t.buf, t.copies)
  {
  }

  /**
   * `Realloc` when the owner `p` refuses: allocate, copy, free in the owner;
   * the allocation leaves the owner as it was, and the invariant is kept.
   */
  lemma RelocateAt(a: AllocatorModel.Allocator, b: SubBuffer, newSz: nat, align: nat, p: nat)
    requires AllocatorModel.Valid(a) && align > 0 && AllocatorModel.ReallocOk(a, b, newSz)
    requires AllocatorModel.Owner(a.buffers, b, 0) == Some(p)
    requires !BufferModel.Realloc(a.buffers[p], b, newSz, align).ok
    ensures var n := AllocatorModel.Alloc(a, newSz, align);
            && p < |n.state.buffers| && n.state.buffers[p] == a.buffers[p]
            && FreeReady(a.buffers[p], b)
            && AllocatorModel.Valid(AllocatorModel.Realloc(a, b, newSz, align).state)
            && var bs := n.state.buffers;
               AllocatorModel.Realloc(a, b, newSz, align)
                 == AllocatorModel.Moved(n.state.(buffers := bs[p := BufferModel.Free(bs[p], b)]), n.buf,
                                         [Copy(b.buffer, b.offset, n.buf.buffer, n.buf.offset, b.size)])
  {
    AllocatorProperties.ReallocKeepsValid(a, b, newSz, align);
    AllocatorModel.OwnerRefuses(a, b, newSz, align, p);
    FindMember(a.buffers[p].used, Block(b.offset, b.size));
  }
}
