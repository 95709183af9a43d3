/**
 * What `Buffer::free` promises, proved about `BufferModel.Free`: the used
 * entry goes away, its bytes join the free ledger (unless an empty free
 * extent already holds its key, when `std::map::insert` drops them), the
 * coalescing pass keeps every free byte and leaves no two touching free
 * extents, and the ledger invariant survives.
 */
module FreeProperties {
  import opened Ledgers
  import opened LedgerLemmas
  import opened BufferModel
  import opened BufferProperties

  /** The part of the invariant that concerns the free ledger. */
  predicate FreeFine(f: Ledger, u: Ledger, cap: nat) {
    Separated(f) && Within(f, cap) && Apart(f, u)
  }

  /** The entries of `Merge(l, i)`: the merged block and the untouched others. */
  lemma MergeMembers(l: Ledger, i: nat)
    requires Sorted(l) && i + 1 < |l|
    ensures Merged(l, i) in Merge(l, i)
    ensures forall x | x in Merge(l, i) ::
              x == Merged(l, i) || (x in l && x.offset != l[i].offset && x.offset != l[i + 1].offset)
    ensures forall x | x in l && x.offset != l[i].offset && x.offset != l[i + 1].offset :: x in Merge(l, i)
  {
    var z := Resize(l, i, l[i].size + l[i + 1].size);
    ResizeMembers(l, i, l[i].size + l[i + 1].size);
    EraseFacts(z, i + 1);
    Distinct(l, i, i + 1);
    forall x | x in l && x.offset != l[i].offset && x.offset != l[i + 1].offset ensures x in z {
      var k :| 0 <= k < |l| && l[k] == x;
      assert z[k] == x;
    }
  }

  /** The positions of `Merge(l, i)`: entries before `i` keep theirs, the rest shift down. */
  lemma MergeAt(l: Ledger, i: nat)
    requires Sorted(l) && i + 1 < |l|
    ensures |Merge(l, i)| == |l| - 1
    ensures Merge(l, i)[i] == Merged(l, i)
    ensures forall k | 0 <= k < i :: Merge(l, i)[k] == l[k]
    ensures forall k | i + 1 <= k < |Merge(l, i)| :: Merge(l, i)[k] == l[k + 1]
  {
    EraseFacts(Resize(l, i, l[i].size + l[i + 1].size), i + 1);
  }

  /** Merging two touching free extents keeps the free ledger's part of the invariant. */
  lemma MergeFine(l: Ledger, i: nat, u: Ledger, cap: nat)
    requires Sorted(l) && i + 1 < |l| && l[i].End() == l[i + 1].offset && FreeFine(l, u, cap)
    ensures FreeFine(Merge(l, i), u, cap)
  {
    var m := Merged(l, i);
    MergeMembers(l, i);
    forall x | x in l && x.offset != l[i].offset && x.offset != l[i + 1].offset ensures Disjoint(x, m) {
      assert l[i] in l && l[i + 1] in l;
      SpanDisjoint(x, l[i], l[i + 1], l[i + 1].size);
    }
    forall y | y in u ensures Disjoint(m, y) {
      assert l[i] in l && l[i + 1] in l;
      SpanDisjoint(y, l[i], l[i + 1], l[i + 1].size);
    }
    assert l[i + 1] in l;
  }

  /** The coalescing pass keeps the free ledger's part of the invariant. */
  lemma {:induction false} CoalesceFromFine(l: Ledger, i: nat, u: Ledger, cap: nat)
    requires Sorted(l) && i < |l| && FreeFine(l, u, cap)
    ensures FreeFine(CoalesceFrom(l, i), u, cap)
    decreases 2 * |l| - i
  {
    if i + 1 == |l| {
    } else if l[i].End() == l[i + 1].offset {
      MergeFine(l, i, u, cap);
      CoalesceFromFine(Merge(l, i), i, u, cap);
    } else {
      CoalesceFromFine(l, i + 1, u, cap);
    }
  }

  /** A merged block holds exactly the bytes of the two blocks it replaces. */
  lemma MergeCovered(l: Ledger, i: nat, x: nat)
    requires Sorted(l) && i + 1 < |l| && l[i].End() == l[i + 1].offset
    ensures Covered(Merge(l, i), x) <==> Covered(l, x)
  {
    var m := Merged(l, i);
    MergeMembers(l, i);
    assert l[i] in l && l[i + 1] in l;
    if Covered(l, x) {
      var b :| b in l && b.Holds(x);
      var k :| 0 <= k < |l| && l[k] == b;
      if k == i || k == i + 1 {
        assert m.Holds(x);
      } else {
        Distinct(l, k, i);
        Distinct(l, k, i + 1);
        assert b in Merge(l, i);
      }
    }
  }

  /** The coalescing pass keeps every free byte free and frees no other. */
  lemma {:induction false} CoalesceFromCovered(l: Ledger, i: nat, x: nat)
    requires Sorted(l) && i < |l|
    ensures Covered(CoalesceFrom(l, i), x) <==> Covered(l, x)
    decreases 2 * |l| - i
  {
    if i + 1 == |l| {
    } else if l[i].End() == l[i + 1].offset {
      MergeCovered(l, i, x);
      CoalesceFromCovered(Merge(l, i), i, x);
    } else {
      CoalesceFromCovered(l, i + 1, x);
    }
  }

  /**
   * The coalescing pass from position `i` leaves no two touching neighbours,
   * given that none touch before `i`.
   */
  lemma {:induction false} CoalesceFromNoAdjacent(l: Ledger, i: nat)
    requires Sorted(l) && i < |l|
    requires forall k | 0 <= k < i :: l[k].End() != l[k + 1].offset
    ensures NoAdjacent(CoalesceFrom(l, i))
    decreases 2 * |l| - i
  {
    if i + 1 == |l| {
    } else if l[i].End() == l[i + 1].offset {
      var m := Merge(l, i);
      MergeAt(l, i);
      forall k | 0 <= k < i ensures m[k].End() != m[k + 1].offset {
        if k + 1 < i {
          assert m[k] == l[k] && m[k + 1] == l[k + 1];
        } else {
          assert m[k] == l[k];
        }
      }
      CoalesceFromNoAdjacent(m, i);
    } else {
      CoalesceFromNoAdjacent(l, i + 1);
    }
  }

  /** After `free`'s coalescing pass no two neighbouring free extents touch. */
  lemma CoalesceNoAdjacent(l: Ledger)
    requires Sorted(l) && l != []
    ensures NoAdjacent(Coalesce(l))
  {
    CoalesceFromNoAdjacent(l, 0);
  }

  /** `Free` spelled out: the entry keyed `b.offset` moves across, then one coalescing pass. */
  lemma FreeIs(s: BufState, b: SubBuffer, i: nat)
    requires Sorted(s.freeb) && Sorted(s.used) && FreeReady(s, b)
    requires i == Find(s.used, b.offset).value
    ensures Free(s, b).size == s.size
    ensures Free(s, b).used == Erase(s.used, i)
    ensures Free(s, b).freeb == Coalesce(Insert(s.freeb, s.used[i]))
  {
  }

  /** A state whose free ledger was rebuilt keeping its part of the invariant is valid. */
  lemma RebuildValid(t: BufState, r: BufState)
    requires Valid(t) && r.size == t.size && r.used == t.used
    requires Sorted(r.freeb) && FreeFine(r.freeb, r.used, r.size)
    ensures Valid(r)
  {
  }

  /** Returning the used entry at position `i` to the free ledger keeps the invariant. */
  lemma ReleaseValid(s: BufState, i: nat)
    requires Valid(s) && i < |s.used|
    ensures Valid(BufState(s.size, s.id, Insert(s.freeb, s.used[i]), Erase(s.used, i)))
  {
    var rel := s.used[i];
    var s1 := s.(used := Erase(s.used, i));
    EraseSub(s.used, i);
    ShrinkValid(s, s.freeb, Erase(s.used, i));
    ApartClearRight(s.freeb, s.used, rel);
    SeparatedClear(s.used, i);
    AddFree(s1, rel);
  }

  /** `Buffer::free` keeps the ledger invariant. */
  lemma FreeValid(s: BufState, b: SubBuffer)
    requires Valid(s) && FreeReady(s, b)
    ensures Valid(Free(s, b))
  {
    var i := Find(s.used, b.offset).value;
    var t := BufState(s.size, s.id, Insert(s.freeb, s.used[i]), Erase(s.used, i));
    FreeIs(s, b, i);
    ReleaseValid(s, i);
    CoalesceFromFine(t.freeb, 0, t.used, t.size);
    RebuildValid(t, Free(s, b));
  }

  /**
   * `Buffer::free`: exactly the used entries keyed `b.offset` go away; the
   * free ledger then holds the bytes it held before plus those of the
   * released entry, unless a free extent already had that key (then the
   * released bytes are in neither ledger); no two free extents touch.
   */
  lemma FreeShape(s: BufState, b: SubBuffer)
    requires Valid(s) && FreeReady(s, b)
    ensures var r := Free(s, b);
            var rel := s.used[Find(s.used, b.offset).value];
            && rel.offset == b.offset
            && (forall x :: x in r.used <==> x in s.used && x.offset != b.offset)
            && (forall x: nat :: Covered(r.freeb, x) <==> Covered(s.freeb, x) || (Find(s.freeb, b.offset).None? && rel.Holds(x)))
            && NoAdjacent(r.freeb)
  {
    var i := Find(s.used, b.offset).value;
    var rel := s.used[i];
    FreeIs(s, b, i);
    EraseFacts(s.used, i);
    var l := Insert(s.freeb, rel);
    forall x: nat ensures Covered(Free(s, b).freeb, x) <==> Covered(s.freeb, x) || (Find(s.freeb, b.offset).None? && rel.Holds(x)) {
      CoalesceFromCovered(l, 0, x);
      InsertCovered(s.freeb, rel, x);
    }
    InsertFacts(s.freeb, rel);
    CoalesceNoAdjacent(l);
  }
}
