/**
 * What `glt::Buffer` promises, proved about `BufferModel`: the ledger
 * invariant survives every operation, allocations are aligned, first-fit and
 * never alias a live allocation, growth in place keeps the offset, and `free`
 * leaves no two touching free extents.
 */
module BufferProperties {
  import opened Ledgers
  import opened LedgerLemmas
  import opened BufferModel

  /** Adding a used entry clear of both ledgers and inside the buffer keeps `Valid`. */
  lemma AddUsed(s: BufState, b: Block)
    requires Valid(s) && Clear(b, s.used) && Clear(b, s.freeb) && b.End() <= s.size
    ensures Valid(s.(used := Insert(s.used, b)))
  {
    InsertSeparated(s.used, b);
    ApartInsert(s.freeb, s.used, b);
    InsertWithin(s.used, b, s.size);
  }

  /** Adding a free entry clear of both ledgers and inside the buffer keeps `Valid`. */
  lemma AddFree(s: BufState, b: Block)
    requires Valid(s) && Clear(b, s.used) && Clear(b, s.freeb) && b.End() <= s.size
    ensures Valid(s.(freeb := Insert(s.freeb, b)))
  {
    InsertSeparated(s.freeb, b);
    InsertApart(s.freeb, s.used, b);
    InsertWithin(s.freeb, b, s.size);
  }

  /** Dropping entries of either ledger keeps `Valid`. */
  lemma ShrinkValid(s: BufState, f: Ledger, u: Ledger)
    requires Valid(s) && Sorted(f) && Sorted(u) && Sub(f, s.freeb) && Sub(u, s.used)
    ensures Valid(BufState(s.size, s.id, f, u))
  {
    SubKeeps(s.freeb, s.used, f, u, s.size);
  }

  /** Taking free extent `i` out of the ledger: the rest is valid and clear of it. */
  lemma TakeFree(s: BufState, i: nat)
    requires Valid(s) && i < |s.freeb|
    ensures Valid(s.(freeb := Erase(s.freeb, i)))
    ensures Hole(s.(freeb := Erase(s.freeb, i)), s.freeb[i])
  {
    EraseSub(s.freeb, i);
    ShrinkValid(s, Erase(s.freeb, i), s.used);
    SeparatedClear(s.freeb, i);
    ApartClear(s.freeb, s.used, s.freeb[i]);
  }

  /** Exact fit: the extent moves from the free to the used ledger whole. */
  lemma CarveExactValid(s: BufState, i: nat, r: BufState)
    requires Valid(s) && i < |s.freeb|
    requires r.size == s.size && r.freeb == Erase(s.freeb, i) && r.used == Insert(s.used, s.freeb[i])
    ensures Valid(r)
  {
    TakeFree(s, i);
    AddUsed(s.(freeb := Erase(s.freeb, i)), s.freeb[i]);
  }

  /** A piece of a hole (an extent clear of both ledgers) is clear of both ledgers. */
  predicate Hole(s: BufState, blk: Block) {
    Clear(blk, s.freeb) && Clear(blk, s.used) && blk.End() <= s.size
  }

  /** Filling part of a hole with a used entry keeps `Valid`. */
  lemma FillUsed(s: BufState, blk: Block, p: Block)
    requires Valid(s) && Hole(s, blk) && Inside(p, blk)
    ensures Valid(s.(used := Insert(s.used, p)))
  {
    InsideClear(p, blk, s.freeb);
    InsideClear(p, blk, s.used);
    AddUsed(s, p);
  }

  /** Filling part of a hole with a free entry keeps `Valid`. */
  lemma FillFree(s: BufState, blk: Block, p: Block)
    requires Valid(s) && Hole(s, blk) && Inside(p, blk)
    ensures Valid(s.(freeb := Insert(s.freeb, p)))
  {
    InsideClear(p, blk, s.freeb);
    InsideClear(p, blk, s.used);
    AddFree(s, p);
  }

  /** A piece of a hole is a hole. */
  lemma InsideHole(s: BufState, blk: Block, p: Block)
    requires Hole(s, blk) && Inside(p, blk)
    ensures Hole(s, p)
  {
    InsideClear(p, blk, s.freeb);
    InsideClear(p, blk, s.used);
  }

  /** A hole stays a hole when a used entry disjoint from it is added. */
  lemma HoleAfterUsed(s: BufState, q: Block, p: Block)
    requires Sorted(s.used) && Hole(s, q) && Disjoint(q, p)
    ensures Hole(s.(used := Insert(s.used, p)), q)
  {
    ClearInsert(q, s.used, p);
  }

  /** A hole stays a hole when a free entry disjoint from it is added. */
  lemma HoleAfterFree(s: BufState, q: Block, p: Block)
    requires Sorted(s.freeb) && Hole(s, q) && Disjoint(q, p)
    ensures Hole(s.(freeb := Insert(s.freeb, p)), q)
  {
    ClearInsert(q, s.freeb, p);
  }

  /** Two states with the same capacity and ledgers are valid together. */
  lemma SameValid(a: BufState, b: BufState)
    requires Valid(a) && a.size == b.size && a.freeb == b.freeb && a.used == b.used
    ensures Valid(b)
  {
  }

  /**
   * Split: the free extent `blk` at position `i` is replaced by the lease
   * `ub` and the trailing remainder `tb`; the pad in front of the lease is
   * left a hole.
   */
  lemma CarveTrailValid(s: BufState, i: nat, pad: nat, sz: nat, r: BufState)
    requires Valid(s) && i < |s.freeb| && pad + sz <= s.freeb[i].size
    requires var blk := s.freeb[i];
             && r.size == s.size && r.used == Insert(s.used, Block(blk.offset + pad, sz))
             && r.freeb == Insert(Erase(s.freeb, i), Block(blk.offset + pad + sz, blk.size - sz - pad))
    ensures Valid(r) && Hole(r, Block(s.freeb[i].offset, pad))
  {
    var blk := s.freeb[i];
    var ub := Block(blk.offset + pad, sz);
    var tb := Block(blk.offset + pad + sz, blk.size - sz - pad);
    var pb := Block(blk.offset, pad);
    var s1 := s.(freeb := Erase(s.freeb, i));
    var s2 := s1.(used := Insert(s1.used, ub));
    TakeFree(s, i);
    FillUsed(s1, blk, ub);
    InsideHole(s1, blk, tb);
    InsideHole(s1, blk, pb);
    HoleAfterUsed(s1, tb, ub);
    HoleAfterUsed(s1, pb, ub);
    FillFree(s2, tb, tb);
    HoleAfterFree(s2, pb, tb);
    SameValid(s2.(freeb := Insert(s2.freeb, tb)), r);
  }

  /** As `CarveTrailValid`, with the non-empty pad `pb` returned to the free ledger. */
  lemma CarvePadValid(s: BufState, i: nat, pad: nat, sz: nat, r: BufState)
    requires Valid(s) && i < |s.freeb| && pad + sz <= s.freeb[i].size
    requires var blk := s.freeb[i];
             && r.size == s.size && r.used == Insert(s.used, Block(blk.offset + pad, sz))
             && r.freeb == Insert(Insert(Erase(s.freeb, i), Block(blk.offset + pad + sz, blk.size - sz - pad)), Block(blk.offset, pad))
    ensures Valid(r)
  {
    var blk := s.freeb[i];
    var pb := Block(blk.offset, pad);
    var t := r.(freeb := Insert(Erase(s.freeb, i), Block(blk.offset + pad + sz, blk.size - sz - pad)));
    CarveTrailValid(s, i, pad, sz, t);
    FillFree(t, pb, pb);
  }

  /** `Carve` on an exact fit, spelled out as ledger steps. */
  lemma CarveExactIs(s: BufState, i: nat, sz: nat, align: nat)
    requires Sorted(s.freeb) && Sorted(s.used) && align > 0
    requires i < |s.freeb| && Fits(s.freeb[i], sz, align) && s.freeb[i].size == sz
    ensures Carve(s, i, sz, align) == BufState(s.size, s.id, Erase(s.freeb, i), Insert(s.used, s.freeb[i]))
  {
  }

  /** The used ledger after a split `Carve` with pad `pad`. */
  lemma CarveUsedIs(s: BufState, i: nat, sz: nat, align: nat, pad: nat)
    requires Sorted(s.freeb) && Sorted(s.used) && align > 0
    requires i < |s.freeb| && Fits(s.freeb[i], sz, align) && s.freeb[i].size != sz
    requires pad == Pad(s.freeb[i].offset, align)
    ensures Carve(s, i, sz, align).used == Insert(s.used, Block(s.freeb[i].offset + pad, sz))
  {
  }

  /** The free ledger after a split `Carve` whose pad is empty. */
  lemma CarveTrailIs(s: BufState, i: nat, sz: nat, align: nat)
    requires Sorted(s.freeb) && Sorted(s.used) && align > 0
    requires i < |s.freeb| && Fits(s.freeb[i], sz, align) && s.freeb[i].size != sz
    requires Pad(s.freeb[i].offset, align) == 0
    ensures var blk := s.freeb[i];
            Carve(s, i, sz, align).freeb == Insert(Erase(s.freeb, i), Block(blk.offset + sz, blk.size - sz))
  {
  }

  /** The free ledger after a split `Carve` whose pad is not empty. */
  lemma CarvePadIs(s: BufState, i: nat, sz: nat, align: nat)
    requires Sorted(s.freeb) && Sorted(s.used) && align > 0
    requires i < |s.freeb| && Fits(s.freeb[i], sz, align) && s.freeb[i].size != sz
    requires Pad(s.freeb[i].offset, align) != 0
    ensures var blk := s.freeb[i];
            var pad := Pad(blk.offset, align);
            Carve(s, i, sz, align).freeb
              == Insert(Insert(Erase(s.freeb, i), Block(blk.offset + pad + sz, blk.size - sz - pad)), Block(blk.offset, pad))
  {
  }

  /** The split performed by `alloc` keeps the ledger invariant. */
  lemma CarveValid(s: BufState, i: nat, sz: nat, align: nat)
    requires Valid(s) && align > 0 && i < |s.freeb| && Fits(s.freeb[i], sz, align)
    ensures Valid(Carve(s, i, sz, align))
  {
    var pad := Pad(s.freeb[i].offset, align);
    if s.freeb[i].size == sz {
      CarveExactIs(s, i, sz, align);
      CarveExactValid(s, i, Carve(s, i, sz, align));
    } else if pad != 0 {
      CarveUsedIs(s, i, sz, align, pad);
      CarvePadIs(s, i, sz, align);
      CarvePadValid(s, i, pad, sz, Carve(s, i, sz, align));
    } else {
      CarveUsedIs(s, i, sz, align, pad);
      CarveTrailIs(s, i, sz, align);
      CarveTrailValid(s, i, pad, sz, Carve(s, i, sz, align));
    }
  }

  /** The extent a successful `Alloc` leases. */
  function Lease(b: SubBuffer): Block {
    Block(b.offset, b.size)
  }

  /**
   * The lease carved from free extent `i` is clear of every live lease and of
   * every free extent left behind; it is recorded as used unless a used entry
   * already has its key, in which case `std::map::insert` drops it.
   */
  lemma CarveLease(s: BufState, i: nat, sz: nat, align: nat)
    requires Valid(s) && align > 0 && i < |s.freeb| && Fits(s.freeb[i], sz, align)
    ensures var blk := s.freeb[i];
            var ub := Block(blk.offset + Pad(blk.offset, align), sz);
            var r := Carve(s, i, sz, align);
            && Inside(ub, blk)
            && Clear(ub, s.used) && Clear(ub, r.freeb)
            && (Find(s.used, ub.offset).None? ==> ub in r.used)
            && (Find(s.used, ub.offset).Some? ==> r.used == s.used)
  {
    var blk := s.freeb[i];
    var pad := Pad(blk.offset, align);
    var r := Carve(s, i, sz, align);
    if blk.size == sz {
      CarveExactIs(s, i, sz, align);
      LeaseExact(s, i, r);
    } else {
      CarveUsedIs(s, i, sz, align, pad);
      if pad != 0 {
        CarvePadIs(s, i, sz, align);
      } else {
        CarveTrailIs(s, i, sz, align);
      }
      TakeFree(s, i);
      LeaseSplit(s, i, pad, sz, r);
    }
  }

  /** `CarveLease` for an exact fit. */
  lemma LeaseExact(s: BufState, i: nat, r: BufState)
    requires Valid(s) && i < |s.freeb|
    requires r.freeb == Erase(s.freeb, i) && r.used == Insert(s.used, s.freeb[i])
    ensures var ub := s.freeb[i];
            && Clear(ub, s.used) && Clear(ub, r.freeb)
            && (Find(s.used, ub.offset).None? ==> ub in r.used)
            && (Find(s.used, ub.offset).Some? ==> r.used == s.used)
  {
    TakeFree(s, i);
    LeaseRecorded(s.used, s.freeb[i], r.used);
  }

  /** `CarveLease` for a split with pad `pad`, given that the chosen extent is a hole. */
  lemma LeaseSplit(s: BufState, i: nat, pad: nat, sz: nat, r: BufState)
    requires Sorted(s.freeb) && Sorted(s.used) && i < |s.freeb| && pad + sz <= s.freeb[i].size
    requires Clear(s.freeb[i], Erase(s.freeb, i)) && Clear(s.freeb[i], s.used)
    requires var blk := s.freeb[i];
             var trailing := Insert(Erase(s.freeb, i), Block(blk.offset + pad + sz, blk.size - sz - pad));
             && r.used == Insert(s.used, Block(blk.offset + pad, sz))
             && r.freeb == if pad != 0 then Insert(trailing, Block(blk.offset, pad)) else trailing
    ensures var ub := Block(s.freeb[i].offset + pad, sz);
            && Clear(ub, s.used) && Clear(ub, r.freeb)
            && (Find(s.used, ub.offset).None? ==> ub in r.used)
            && (Find(s.used, ub.offset).Some? ==> r.used == s.used)
  {
    var blk := s.freeb[i];
    var ub := Block(blk.offset + pad, sz);
    InsideClear(ub, blk, Erase(s.freeb, i));
    InsideClear(ub, blk, s.used);
    LeaseRecorded(s.used, ub, r.used);
    LeaseSplitFree(Erase(s.freeb, i), blk, pad, sz, r.freeb);
  }

  /** A lease inserted into the used ledger is recorded unless its key is taken. */
  lemma LeaseRecorded(u: Ledger, ub: Block, r: Ledger)
    requires Sorted(u) && r == Insert(u, ub)
    ensures Find(u, ub.offset).None? ==> ub in r
    ensures Find(u, ub.offset).Some? ==> r == u
  {
    InsertFacts(u, ub);
  }

  /** The free ledger left by a split is clear of the lease. */
  lemma LeaseSplitFree(rest: Ledger, blk: Block, pad: nat, sz: nat, f: Ledger)
    requires Sorted(rest) && Clear(Block(blk.offset + pad, sz), rest) && pad + sz <= blk.size
    requires var trailing := Insert(rest, Block(blk.offset + pad + sz, blk.size - sz - pad));
             f == if pad != 0 then Insert(trailing, Block(blk.offset, pad)) else trailing
    ensures Clear(Block(blk.offset + pad, sz), f)
  {
    var ub := Block(blk.offset + pad, sz);
    var tb := Block(blk.offset + pad + sz, blk.size - sz - pad);
    ClearInsert(ub, rest, tb);
    if pad != 0 {
      ClearInsert(ub, Insert(rest, tb), Block(blk.offset, pad));
    }
  }

  /**
   * `Buffer::alloc`: it succeeds exactly when some free extent can hold the
   * request after its alignment pad; a success keeps the invariant and
   * returns an aligned lease of `sz` bytes in this buffer; a failure changes
   * neither the buffer nor the caller's sub-buffer.
   */
  lemma AllocContract(s: BufState, sz: nat, buf: SubBuffer, align: nat)
    requires Valid(s) && align > 0
    ensures var r := Alloc(s, sz, buf, align);
            && Valid(r.state)
            && (r.ok <==> exists i | 0 <= i < |s.freeb| :: Fits(s.freeb[i], sz, align))
            && (!r.ok ==> r.state == s && r.buf == buf)
            && (r.ok ==> r.buf.size == sz && r.buf.buffer == s.id && r.buf.offset % align == 0)
  {
    var fit := FirstFit(s.freeb, sz, align);
    if s.freeb != [] && fit.Some? {
      CarveValid(s, fit.value, sz, align);
    }
  }

  /**
   * First fit: a successful lease lies in the lowest-keyed free extent that
   * can hold it, at that extent's first aligned offset.
   */
  lemma AllocFirstFit(s: BufState, sz: nat, buf: SubBuffer, align: nat)
    requires Valid(s) && align > 0
    ensures var r := Alloc(s, sz, buf, align);
            r.ok ==> exists i | 0 <= i < |s.freeb| ::
              && Inside(Lease(r.buf), s.freeb[i])
              && r.buf.offset == s.freeb[i].offset + Pad(s.freeb[i].offset, align)
              && forall j | 0 <= j < i :: !Fits(s.freeb[j], sz, align)
  {
    var fit := FirstFit(s.freeb, sz, align);
    if s.freeb != [] && fit.Some? {
      CarveLease(s, fit.value, sz, align);
    }
  }

  /**
   * No aliasing: a successful lease shares no byte with any lease that was
   * live before or with any free extent after; it is live afterwards unless
   * a used entry already had its key.
   */
  lemma AllocNoAlias(s: BufState, sz: nat, buf: SubBuffer, align: nat)
    requires Valid(s) && align > 0
    ensures var r := Alloc(s, sz, buf, align);
            r.ok ==>
              && Clear(Lease(r.buf), s.used) && Clear(Lease(r.buf), r.state.freeb)
              && (Find(s.used, r.buf.offset).None? ==> Live(r.state, r.buf))
  {
    var fit := FirstFit(s.freeb, sz, align);
    if s.freeb != [] && fit.Some? {
      CarveLease(s, fit.value, sz, align);
    }
  }

  /** The used ledger `r` is `u` with at most `lease` added. */
  predicate UsedGains(u: Ledger, r: Ledger, lease: Block) {
    (forall x | x in u :: x in r) && (forall x | x in r :: x in u || x == lease)
  }

  /** The free ledger `r` is `f` without the entry keyed `key`, with at most the blocks of `added`. */
  predicate FreeTrades(f: Ledger, key: nat, r: Ledger, added: set<Block>) {
    && (forall x | x in f && x.offset != key :: x in r)
    && (forall x | x in r :: (x in f && x.offset != key) || x in added)
  }

  /** The blocks a split of `blk` returns to the free ledger: the trailing remainder and a non-empty pad. */
  function Leftovers(blk: Block, pad: nat, sz: nat): set<Block>
    requires pad + sz <= blk.size
  {
    var trailing := Block(blk.offset + pad + sz, blk.size - sz - pad);
    if blk.size == sz then {} else if pad != 0 then {trailing} + {Block(blk.offset, pad)} else {trailing}
  }

  /**
   * Split shape: when first fit picks free extent `i`, the used ledger gains
   * at most the lease, and the free ledger loses that extent and gains at most
   * the trailing remainder and the pad, and nothing when the fit is exact;
   * every other entry of either ledger stays. On an exact fit the lease is
   * the extent itself. Conversely the lease is recorded unless its key was
   * already used, a non-empty pad is always returned to the free ledger, and
   * the trailing remainder is unless another free entry already has its key.
   */
  lemma AllocShape(s: BufState, sz: nat, buf: SubBuffer, align: nat, i: nat)
    requires Valid(s) && align > 0 && FirstFit(s.freeb, sz, align) == Some(i)
    ensures var blk := s.freeb[i];
            var pad := Pad(blk.offset, align);
            var r := Alloc(s, sz, buf, align).state;
            && (blk.size == sz ==> pad == 0)
            && UsedGains(s.used, r.used, Block(blk.offset + pad, sz))
            && FreeTrades(s.freeb, blk.offset, r.freeb, Leftovers(blk, pad, sz))
            && Lands(s, i, pad, sz, r)
  {
    var blk := s.freeb[i];
    var pad := Pad(blk.offset, align);
    if blk.size == sz {
      CarveExactIs(s, i, sz, align);
      ShapeExact(s, i, Alloc(s, sz, buf, align).state);
    } else {
      CarveUsedIs(s, i, sz, align, pad);
      if pad != 0 {
        CarvePadIs(s, i, sz, align);
      } else {
        CarveTrailIs(s, i, sz, align);
      }
      ShapeSplit(s, i, pad, sz, Alloc(s, sz, buf, align).state);
    }
  }

  /**
   * What a carve of free extent `i` certainly records: the lease unless its
   * key was already used, a non-empty pad, and the trailing remainder of a
   * split unless another free entry already has its key.
   */
  predicate Lands(s: BufState, i: nat, pad: nat, sz: nat, r: BufState)
    requires Sorted(s.freeb) && i < |s.freeb| && pad + sz <= s.freeb[i].size
  {
    var blk := s.freeb[i];
    && (Find(s.used, blk.offset + pad).None? ==> Block(blk.offset + pad, sz) in r.used)
    && (pad != 0 ==> Block(blk.offset, pad) in r.freeb)
    && (blk.size != sz && Find(Erase(s.freeb, i), blk.offset + pad + sz).None? ==>
          Block(blk.offset + pad + sz, blk.size - sz - pad) in r.freeb)
  }

  /** `AllocShape` for an exact fit. */
  lemma ShapeExact(s: BufState, i: nat, r: BufState)
    requires Sorted(s.freeb) && Sorted(s.used) && i < |s.freeb|
    requires r.freeb == Erase(s.freeb, i) && r.used == Insert(s.used, s.freeb[i])
    ensures UsedGains(s.used, r.used, s.freeb[i]) && FreeTrades(s.freeb, s.freeb[i].offset, r.freeb, {})
    ensures Lands(s, i, 0, s.freeb[i].size, r)
  {
    EraseFacts(s.freeb, i);
    InsertFacts(s.used, s.freeb[i]);
  }

  /** `AllocShape` for a split with pad `pad`. */
  lemma ShapeSplit(s: BufState, i: nat, pad: nat, sz: nat, r: BufState)
    requires Sorted(s.freeb) && Sorted(s.used) && i < |s.freeb| && pad + sz <= s.freeb[i].size
    requires s.freeb[i].size != sz
    requires var blk := s.freeb[i];
             var trailing := Insert(Erase(s.freeb, i), Block(blk.offset + pad + sz, blk.size - sz - pad));
             && r.used == Insert(s.used, Block(blk.offset + pad, sz))
             && r.freeb == if pad != 0 then Insert(trailing, Block(blk.offset, pad)) else trailing
    ensures UsedGains(s.used, r.used, Block(s.freeb[i].offset + pad, sz))
    ensures FreeTrades(s.freeb, s.freeb[i].offset, r.freeb, Leftovers(s.freeb[i], pad, sz))
    ensures Lands(s, i, pad, sz, r)
  {
    GainsInsert(s.used, Block(s.freeb[i].offset + pad, sz));
    TradesSplit(s.freeb, i, pad, sz, r.freeb);
    LandsSplit(s, i, pad, sz, r);
  }

  /** The `Lands` half of `ShapeSplit`, with and without a pad. */
  lemma LandsSplit(s: BufState, i: nat, pad: nat, sz: nat, r: BufState)
    requires Sorted(s.freeb) && Sorted(s.used) && i < |s.freeb| && pad + sz <= s.freeb[i].size
    requires s.freeb[i].size != sz
    requires var blk := s.freeb[i];
             var trailing := Insert(Erase(s.freeb, i), Block(blk.offset + pad + sz, blk.size - sz - pad));
             && r.used == Insert(s.used, Block(blk.offset + pad, sz))
             && r.freeb == if pad != 0 then Insert(trailing, Block(blk.offset, pad)) else trailing
    ensures Lands(s, i, pad, sz, r)
  {
    var blk := s.freeb[i];
    var tb := Block(blk.offset + pad + sz, blk.size - sz - pad);
    LeaseLands(s.used, Block(blk.offset + pad, sz));
    TrailLands(s.freeb, i, tb);
    if pad != 0 {
      PadLands(s.freeb, i, tb, Block(blk.offset, pad), r.freeb);
    }
  }

  /** Inserting `lease` gains at most `lease`. */
  lemma GainsInsert(u: Ledger, lease: Block)
    requires Sorted(u)
    ensures UsedGains(u, Insert(u, lease), lease)
  {
    InsertFacts(u, lease);
  }

  /** The free side of `ShapeSplit`. */
  lemma TradesSplit(f: Ledger, i: nat, pad: nat, sz: nat, r: Ledger)
    requires Sorted(f) && i < |f| && pad + sz <= f[i].size && f[i].size != sz
    requires var blk := f[i];
             var trailing := Insert(Erase(f, i), Block(blk.offset + pad + sz, blk.size - sz - pad));
             r == if pad != 0 then Insert(trailing, Block(blk.offset, pad)) else trailing
    ensures FreeTrades(f, f[i].offset, r, Leftovers(f[i], pad, sz))
  {
    var blk := f[i];
    var tb := Block(blk.offset + pad + sz, blk.size - sz - pad);
    TradesTrailing(f, i, tb);
    if pad != 0 {
      var pb := Block(blk.offset, pad);
      TradeInsert(f, blk.offset, Insert(Erase(f, i), tb), {tb}, pb);
    }
  }

  /** Erasing entry `i` and inserting `tb` trades the entry for at most `tb`. */
  lemma TradesTrailing(f: Ledger, i: nat, tb: Block)
    requires Sorted(f) && i < |f|
    ensures FreeTrades(f, f[i].offset, Insert(Erase(f, i), tb), {tb})
  {
    EraseFacts(f, i);
    InsertFacts(Erase(f, i), tb);
  }

  /** Erasing entry `i` trades it for nothing. */
  lemma EraseTrades(f: Ledger, i: nat)
    requires Sorted(f) && i < |f|
    ensures FreeTrades(f, f[i].offset, Erase(f, i), {})
  {
    EraseFacts(f, i);
  }

  /** Inserting `b` adds at most `b` to what a ledger has gained. */
  lemma TradeInsert(f: Ledger, key: nat, l: Ledger, added: set<Block>, b: Block)
    requires Sorted(l) && FreeTrades(f, key, l, added)
    ensures FreeTrades(f, key, Insert(l, b), added + {b})
  {
    InsertFacts(l, b);
  }

  /** Inserting a block whose key is new records it. */
  lemma LeaseLands(u: Ledger, b: Block)
    requires Sorted(u)
    ensures Find(u, b.offset).None? ==> b in Insert(u, b)
  {
    InsertFacts(u, b);
  }

  /** The trailing block lands when no remaining free entry has its key. */
  lemma TrailLands(f: Ledger, i: nat, tb: Block)
    requires Sorted(f) && i < |f|
    ensures Find(Erase(f, i), tb.offset).None? ==> tb in Insert(Erase(f, i), tb)
  {
    InsertFacts(Erase(f, i), tb);
  }

  /**
   * The pad takes the key of the erased extent, which no other entry has, so
   * it always lands; the trailing block, once in, stays.
   */
  lemma PadLands(f: Ledger, i: nat, tb: Block, pb: Block, r: Ledger)
    requires Sorted(f) && i < |f| && pb.offset == f[i].offset && tb.offset != f[i].offset
    requires r == Insert(Insert(Erase(f, i), tb), pb)
    ensures pb in r
    ensures tb in Insert(Erase(f, i), tb) ==> tb in r
  {
    EraseFacts(f, i);
    InsertFacts(Erase(f, i), tb);
    FindNone(Insert(Erase(f, i), tb), pb.offset);
    InsertFacts(Insert(Erase(f, i), tb), pb);
  }
}
