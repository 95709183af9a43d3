/**
 * What `Buffer::realloc` promises, proved about `BufferModel.Realloc`: it
 * grows in place exactly when the free extent right after the sub-buffer is
 * large enough, keeping the offset; otherwise it moves the data to a fresh
 * aligned extent of the same buffer that does not overlap the old one; a
 * failure changes nothing; the ledger invariant survives.
 */
module ReallocProperties {
  import opened Ledgers
  import opened LedgerLemmas
  import opened BufferModel
  import opened BufferProperties
  import opened FreeProperties

  /** The free extent `j` starts where `b` ends and can absorb the growth to `newSz`. */
  predicate GrowsInto(s: BufState, b: SubBuffer, newSz: nat, j: nat) {
    j < |s.freeb| && s.freeb[j].offset == b.offset + b.size && newSz <= b.size + s.freeb[j].size
  }

  /** Some free extent lets `b` grow in place to `newSz`. */
  predicate CanGrow(s: BufState, b: SubBuffer, newSz: nat) {
    exists j | 0 <= j < |s.freeb| :: GrowsInto(s, b, newSz, j)
  }

  /** `Grow` spelled out as ledger steps, with `u` the position of `b`'s used entry. */
  lemma GrowIs(s: BufState, b: SubBuffer, j: nat, newSz: nat, u: nat)
    requires Sorted(s.freeb) && Sorted(s.used) && Live(s, b)
    requires j < |s.freeb| && s.freeb[j].offset == b.offset + b.size
    requires b.size <= newSz <= b.size + s.freeb[j].size
    requires Find(s.used, b.offset) == Some(u)
    ensures u < |s.used| && s.used[u] == Block(b.offset, b.size)
    ensures var blk := s.freeb[j];
            var amt := newSz - b.size;
            var r := Grow(s, b, j, newSz);
            && r.size == s.size
            && r.used == Resize(s.used, u, newSz)
            && (amt != blk.size ==> r.freeb == Insert(Erase(s.freeb, j), Block(blk.offset + amt, blk.size - amt)))
            && (amt == blk.size ==> r.freeb == Erase(s.freeb, j))
  {
    FindMember(s.used, Block(b.offset, b.size));
  }

  /** The grown extent `g` is a hole once `b`'s entry and the neighbour have left. */
  lemma GrowHole(s: BufState, j: nat, u: nat, g: Block)
    requires Valid(s) && j < |s.freeb| && u < |s.used|
    requires s.freeb[j].offset == s.used[u].End() && g.offset == s.used[u].offset
    requires s.used[u].size <= g.size <= s.used[u].size + s.freeb[j].size
    ensures Hole(BufState(s.size, s.id, Erase(s.freeb, j), Erase(s.used, u)), g)
  {
    var blk := s.freeb[j];
    var ob := s.used[u];
    var k := g.size - ob.size;
    TakeFree(s, j);
    EraseSub(s.freeb, j);
    SeparatedClear(s.used, u);
    EraseSub(s.used, u);
    assert ob in s.used;
    forall x | x in Erase(s.freeb, j) ensures Disjoint(g, x) {
      SpanDisjoint(x, ob, blk, k);
    }
    forall x | x in Erase(s.used, u) ensures Disjoint(g, x) {
      SpanDisjoint(x, ob, blk, k);
    }
  }

  /** Entry `u` resized to `g` is entry `u` erased and `g` inserted, as far as membership goes. */
  lemma ResizeSub(l: Ledger, u: nat, g: Block)
    requires Sorted(l) && u < |l| && g.offset == l[u].offset
    ensures Sub(Resize(l, u, g.size), Insert(Erase(l, u), g))
  {
    ResizeMembers(l, u, g.size);
    EraseFacts(l, u);
    InsertFacts(Erase(l, u), g);
  }

  /** The used side of growth: `b`'s entry becomes `g`; the trailing rest of the neighbour is a hole. */
  lemma GrowCore(s: BufState, j: nat, u: nat, g: Block, r: BufState)
    requires Valid(s) && j < |s.freeb| && u < |s.used|
    requires s.freeb[j].offset == s.used[u].End() && g.offset == s.used[u].offset
    requires s.used[u].size <= g.size <= s.used[u].size + s.freeb[j].size
    requires r.size == s.size && r.freeb == Erase(s.freeb, j) && r.used == Resize(s.used, u, g.size)
    ensures Valid(r) && Hole(r, Block(g.End(), s.freeb[j].End() - g.End()))
  {
    var blk := s.freeb[j];
    var rest := Erase(s.freeb, j);
    var eu := Erase(s.used, u);
    var tb := Block(g.End(), blk.End() - g.End());
    var s1 := s.(freeb := rest);
    var s2 := s1.(used := eu);
    TakeFree(s, j);
    EraseSub(s.used, u);
    ShrinkValid(s1, rest, eu);
    GrowHole(s, j, u, g);
    AddUsed(s2, g);
    ResizeSub(s.used, u, g);
    ShrinkValid(s2.(used := Insert(eu, g)), rest, r.used);
    SameValid(BufState(s.size, s.id, rest, r.used), r);
    InsideClear(tb, blk, rest);
    InsideClear(tb, blk, s.used);
    ClearSub(tb, eu, s.used);
    ClearInsert(tb, eu, g);
    ClearSub(tb, r.used, Insert(eu, g));
  }

  /** Growth in place keeps the ledger invariant. */
  lemma GrowValid(s: BufState, b: SubBuffer, j: nat, newSz: nat)
    requires Valid(s) && Live(s, b)
    requires j < |s.freeb| && s.freeb[j].offset == b.offset + b.size
    requires b.size <= newSz <= b.size + s.freeb[j].size
    ensures Valid(Grow(s, b, j, newSz))
    ensures Live(Grow(s, b, j, newSz), b.(size := newSz))
  {
    FindMember(s.used, Block(b.offset, b.size));
    var u := Find(s.used, b.offset).value;
    var blk := s.freeb[j];
    var g := Block(b.offset, newSz);
    var r := Grow(s, b, j, newSz);
    GrowIs(s, b, j, newSz, u);
    var t := r.(freeb := Erase(s.freeb, j));
    GrowCore(s, j, u, g, t);
    if newSz - b.size != blk.size {
      AddFree(t, Block(g.End(), blk.End() - g.End()));
      SameValid(t.(freeb := Insert(t.freeb, Block(g.End(), blk.End() - g.End()))), r);
    } else {
      SameValid(t, r);
    }
    ResizeMembers(s.used, u, newSz);
  }

  /** In a sorted free ledger the extent `b` could grow into is the one `find` returns. */
  lemma GrowTarget(s: BufState, b: SubBuffer, newSz: nat)
    requires Sorted(s.freeb)
    ensures var fnd := Find(s.freeb, b.offset + b.size);
            CanGrow(s, b, newSz) <==> fnd.Some? && newSz <= b.size + s.freeb[fnd.value].size
  {
    var fnd := Find(s.freeb, b.offset + b.size);
    if CanGrow(s, b, newSz) {
      var j :| 0 <= j < |s.freeb| && GrowsInto(s, b, newSz, j);
      FindAt(s.freeb, j);
    }
    if fnd.Some? && newSz <= b.size + s.freeb[fnd.value].size {
      assert GrowsInto(s, b, newSz, fnd.value);
    }
  }

  /** `Buffer::realloc` keeps the ledger invariant. */
  lemma ReallocValid(s: BufState, b: SubBuffer, newSz: nat, align: nat)
    requires Valid(s) && align > 0 && newSz >= b.size && ReallocReady(s, b)
    ensures Valid(Realloc(s, b, newSz, align).state)
  {
    if s.freeb != [] && Contains(s, b) {
      var fnd := Find(s.freeb, b.offset + b.size);
      if fnd.Some? && newSz <= b.size + s.freeb[fnd.value].size {
        GrowValid(s, b, fnd.value, newSz);
      } else {
        var a := Alloc(s, newSz, NoSubBuffer, align);
        if a.ok {
          AllocContract(s, newSz, NoSubBuffer, align);
          AllocKeepsUsed(s, newSz, NoSubBuffer, align);
          FindMember(a.state.used, Block(b.offset, b.size));
          FreeValid(a.state, b);
        }
      }
    }
  }

  /**
   * `Buffer::realloc` succeeds exactly when the sub-buffer is ours, the free
   * ledger is not empty, and either it can grow in place or some free extent
   * can hold `newSz` bytes; a success yields `newSz` bytes in this buffer; a
   * failure changes neither the buffer nor the sub-buffer and copies nothing.
   */
  lemma ReallocContract(s: BufState, b: SubBuffer, newSz: nat, align: nat)
    requires Valid(s) && align > 0 && newSz >= b.size && ReallocReady(s, b)
    ensures var r := Realloc(s, b, newSz, align);
            && (r.ok <==>
                  && Contains(s, b) && s.freeb != []
                  && (CanGrow(s, b, newSz) || exists i | 0 <= i < |s.freeb| :: Fits(s.freeb[i], newSz, align)))
            && (!r.ok ==> r.state == s && r.buf == b && r.copies == [])
            && (r.ok ==> r.buf.size == newSz && r.buf.buffer == s.id)
  {
    GrowTarget(s, b, newSz);
    AllocContract(s, newSz, NoSubBuffer, align);
  }

  /**
   * Growth in place: when the free extent `j` right after the sub-buffer is
   * large enough, the sub-buffer keeps its offset, takes `newSz` bytes, stays
   * live, and nothing is copied. Its used entry is resized and no other used
   * entry changes; extent `j` leaves the free ledger and its remainder past
   * the grown end, when there is one, takes its place.
   */
  lemma ReallocInPlace(s: BufState, b: SubBuffer, newSz: nat, align: nat, j: nat)
    requires Valid(s) && align > 0 && newSz >= b.size && ReallocReady(s, b)
    requires Contains(s, b) && s.freeb != [] && GrowsInto(s, b, newSz, j)
    ensures var r := Realloc(s, b, newSz, align);
            var blk := s.freeb[j];
            var amt := newSz - b.size;
            && r.ok && r.buf == b.(size := newSz) && r.copies == []
            && Live(r.state, r.buf)
            && (forall x :: x in r.state.used <==> x == Block(b.offset, newSz) || (x in s.used && x.offset != b.offset))
            && (amt != blk.size ==> r.state.freeb == Insert(Erase(s.freeb, j), Block(blk.offset + amt, blk.size - amt)))
            && (amt == blk.size ==> r.state.freeb == Erase(s.freeb, j))
  {
    FindAt(s.freeb, j);
    FindMember(s.used, Block(b.offset, b.size));
    var u := Find(s.used, b.offset).value;
    GrowIs(s, b, j, newSz, u);
    ResizeMembers(s.used, u, newSz);
    GrowValid(s, b, j, newSz);
  }

  /**
   * Relocation: otherwise a success moves the sub-buffer to an aligned extent
   * of the same buffer that shares no byte with the old one, and issues one
   * copy of the old contents from the old offset to the new one. The old
   * extent is released, and the new one is live unless its key was already
   * in use.
   */
  lemma ReallocMoves(s: BufState, b: SubBuffer, newSz: nat, align: nat)
    requires Valid(s) && align > 0 && newSz >= b.size && ReallocReady(s, b)
    requires !CanGrow(s, b, newSz)
    ensures var r := Realloc(s, b, newSz, align);
            r.ok ==>
              && r.buf.offset % align == 0
              && Disjoint(Block(b.offset, b.size), Lease(r.buf))
              && r.copies == [Copy(s.id, b.offset, s.id, r.buf.offset, b.size)]
              && Find(r.state.used, b.offset).None?
              && (Find(s.used, r.buf.offset).None? ==> Live(r.state, r.buf))
  {
    if s.freeb != [] && Contains(s, b) {
      ReallocMovesIs(s, b, newSz, align);
      var a := Alloc(s, newSz, NoSubBuffer, align);
      if a.ok {
        AllocContract(s, newSz, NoSubBuffer, align);
        AllocNoAlias(s, newSz, NoSubBuffer, align);
        assert Block(b.offset, b.size) in s.used;
        MovedUsed(s, b, newSz, align, a);
      }
    }
  }

  /** After the move the old key is gone from the used ledger, and a lease with a new key is live. */
  lemma MovedUsed(s: BufState, b: SubBuffer, newSz: nat, align: nat, a: AllocResult)
    requires Valid(s) && align > 0 && Contains(s, b) && Live(s, b)
    requires a == Alloc(s, newSz, NoSubBuffer, align) && a.ok
    ensures FreeReady(a.state, b)
    ensures Find(Free(a.state, b).used, b.offset).None?
    ensures Find(s.used, a.buf.offset).None? ==> Live(Free(a.state, b), a.buf)
  {
    AllocContract(s, newSz, NoSubBuffer, align);
    AllocKeepsUsed(s, newSz, NoSubBuffer, align);
    AllocNoAlias(s, newSz, NoSubBuffer, align);
    FindMember(a.state.used, Block(b.offset, b.size));
    FreeShape(a.state, b);
    FindNone(Free(a.state, b).used, b.offset);
    FindNone(s.used, a.buf.offset);
  }

  /** Without room to grow, `realloc` is the allocation in this buffer plus a copy. */
  lemma ReallocMovesIs(s: BufState, b: SubBuffer, newSz: nat, align: nat)
    requires Valid(s) && align > 0 && newSz >= b.size && ReallocReady(s, b)
    requires s.freeb != [] && Contains(s, b) && !CanGrow(s, b, newSz)
    ensures var r := Realloc(s, b, newSz, align);
            var a := Alloc(s, newSz, NoSubBuffer, align);
            && r.ok == a.ok
            && (a.ok ==> r.buf == a.buf && r.copies == [Copy(s.id, b.offset, s.id, a.buf.offset, b.size)])
  {
    GrowTarget(s, b, newSz);
  }
}
