/**
 * `glt::Buffer` as an object: a capacity, a GL name and the two ledgers it
 * updates in place. Each method performs the source's steps on the fields
 * and is proved to leave exactly the state the matching `BufferModel`
 * function describes, so every property proved about those functions holds
 * of the object.
 */
module Buffers {
  import opened Ledgers
  import opened BufferModel
  import BufferProperties
  import FreeProperties
  import ReallocProperties

  class Buffer {
    const size: nat
    /** The GL buffer name, handed out by `glGenBuffers`. */
    const id: nat
    var freeb: Ledger
    var used: Ledger

    /** The buffer as a value. */
    function View(): BufState
      reads this
    {
      BufState(size, id, freeb, used)
    }

    ghost predicate Valid()
      reads this
    {
      BufferModel.Valid(View())
    }

    /** `contains(b)`: the sub-buffer names this buffer. */
    predicate Contains(b: SubBuffer)
      reads this
    {
      id == b.buffer
    }

    /** `Buffer(size)`: one free extent spanning the whole capacity. */
    constructor (size: nat, id: nat)
      ensures View() == Init(size, id) && Valid()
    {
      this.size := size;
      this.id := id;
      freeb := [Block(0, size)];
      used := [];
    }

    /**
     * `alloc(sz, buf, align)`: walk the free ledger in key order and carve the
     * request out of the first extent that holds it after its alignment pad.
     * On failure `leased` is the caller's `buf`, unchanged.
     */
    method Alloc(sz: nat, buf: SubBuffer, align: nat) returns (ok: bool, leased: SubBuffer)
      requires Valid() && align > 0
      modifies this
      ensures var r := BufferModel.Alloc(old(View()), sz, buf, align);
              ok == r.ok && leased == r.buf && View() == r.state
      ensures Valid()
    {
      ghost var s := View();
      BufferProperties.AllocContract(s, sz, buf, align);
      if freeb == [] {
        return false, buf;
      }
      var i := 0;
      while i < |freeb|
        invariant i <= |freeb| && View() == s
        invariant forall j | 0 <= j < i :: !Fits(freeb[j], sz, align)
      {
        var alignOffset := Pad(freeb[i].offset, align);
        if sz + alignOffset <= freeb[i].size {
          assert FirstFit(freeb, sz, align) == Some(i);
          AllocAt(s, sz, buf, align, i);
          leased := Split(i, sz, align);
          return true, leased;
        }
        i := i + 1;
      }
      assert FirstFit(freeb, sz, align).None?;
      return false, buf;
    }

    /**
     * The body of the fitting iteration of `alloc`: free extent `i` leaves the
     * free ledger; an exact fit moves it to the used ledger whole; otherwise
     * the aligned lease is recorded as used and the trailing remainder and
     * the pad, when not empty, go back to the free ledger.
     */
    method Split(i: nat, sz: nat, align: nat) returns (leased: SubBuffer)
      requires Sorted(freeb) && Sorted(used) && align > 0
      requires i < |freeb| && Fits(freeb[i], sz, align)
      modifies this
      ensures View() == Carve(old(View()), i, sz, align)
      ensures leased == SubBuffer(old(freeb[i].offset) + Pad(old(freeb[i].offset), align), sz, id)
    {
      ghost var s := View();
      var alignOffset := Pad(freeb[i].offset, align);
      var offset := freeb[i].offset + alignOffset;
      leased := SubBuffer(offset, sz, id);
      var rem := freeb[i].size - sz;
      var block := freeb[i];
      freeb := Erase(freeb, i);
      if rem == 0 {
        used := Insert(used, block);
        BufferProperties.CarveExactIs(s, i, sz, align);
      } else {
        used := Insert(used, Block(offset, sz));
        BufferProperties.CarveUsedIs(s, i, sz, align, alignOffset);
        freeb := Insert(freeb, Block(offset + sz, block.size - sz - alignOffset));
        if alignOffset != 0 {
          freeb := Insert(freeb, Block(block.offset, alignOffset));
          BufferProperties.CarvePadIs(s, i, sz, align);
        } else {
          BufferProperties.CarveTrailIs(s, i, sz, align);
        }
      }
    }

    /**
     * `realloc(b, newSz, align)`: grow into the free extent that starts where
     * `b` ends, or allocate elsewhere in this buffer, record the device-side
     * copy and free the old extent. `moved` is the caller's sub-buffer after
     * the call; `copies` are the `glCopyBufferSubData` commands issued.
     */
    method Realloc(b: SubBuffer, newSz: nat, align: nat) returns (ok: bool, moved: SubBuffer, ghost copies: seq<Copy>)
      requires Valid() && align > 0 && newSz >= b.size && ReallocReady(View(), b)
      modifies this
      ensures var r := BufferModel.Realloc(old(View()), b, newSz, align);
              ok == r.ok && moved == r.buf && copies == r.copies && View() == r.state
      ensures Valid()
    {
      ghost var s := View();
      ReallocProperties.ReallocValid(s, b, newSz, align);
      if freeb == [] || !Contains(b) {
        return false, b, [];
      }
      FindMember(used, Block(b.offset, b.size));
      var u := Find(used, b.offset).value;
      var fnd := Find(freeb, b.offset + b.size);
      if fnd.Some? && newSz <= b.size + freeb[fnd.value].size {
        var blk := freeb[fnd.value];
        freeb := Erase(freeb, fnd.value);
        var amt := newSz - b.size;
        used := Resize(used, u, used[u].size + amt);
        if amt != blk.size {
          freeb := Insert(freeb, Block(blk.offset + amt, blk.size - amt));
        }
        return true, b.(size := newSz), [];
      }
      var c;
      ok, c := Alloc(newSz, NoSubBuffer, align);
      if ok {
        copies := [Copy(id, b.offset, id, c.offset, b.size)];
        AllocKeepsUsed(s, newSz, NoSubBuffer, align);
        FindMember(used, Block(b.offset, b.size));
        Free(b);
        return true, c, copies;
      }
      return false, b, [];
    }

    /**
     * `free(buf)`: move the used entry keyed `buf.offset` to the free ledger,
     * then merge touching neighbours in one pass from the lowest key.
     */
    method Free(buf: SubBuffer)
      requires Valid() && FreeReady(View(), buf)
      modifies this
      ensures View() == BufferModel.Free(old(View()), buf)
      ensures Valid()
    {
      ghost var s := View();
      FreeProperties.FreeValid(s, buf);
      var fnd := Find(used, buf.offset).value;
      var rel := used[fnd];
      used := Erase(used, fnd);
      InsertFacts(freeb, rel);
      freeb := Insert(freeb, rel);
      ghost var inserted := freeb;
      ghost var erased := used;
      var it := 0;
      while it != |freeb| - 1
        invariant Sorted(freeb) && it < |freeb| && used == erased
        invariant CoalesceFrom(freeb, it) == Coalesce(inserted)
        decreases 2 * |freeb| - it
      {
        if freeb[it].End() == freeb[it + 1].offset {
          var grown := Resize(freeb, it, freeb[it].size + freeb[it + 1].size);
          freeb := Erase(grown, it + 1);
        } else {
          it := it + 1;
        }
      }
      assert CoalesceFrom(freeb, it) == freeb;
    }
  }

  /** `Alloc` when first fit picks extent `i`. */
  lemma AllocAt(s: BufState, sz: nat, buf: SubBuffer, align: nat, i: nat)
    requires Sorted(s.freeb) && Sorted(s.used) && align > 0
    requires FirstFit(s.freeb, sz, align) == Some(i)
    ensures var blk := s.freeb[i];
            BufferModel.Alloc(s, sz, buf, align)
              == AllocResult(true, Carve(s, i, sz, align), SubBuffer(blk.offset + Pad(blk.offset, align), sz, s.id))
  {
  }
}
