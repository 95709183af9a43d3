/**
 * Facts about how `Insert`, `Erase`, `Resize` and merging two neighbours
 * affect the disjointness of ledger entries. The buffer proofs are chains of
 * these single steps.
 */
module LedgerLemmas {
  import opened Ledgers

  /** `b` shares no byte with any entry of `l`. */
  predicate Clear(b: Block, l: Ledger) {
    forall x | x in l :: Disjoint(b, x)
  }

  /** `p` lies inside `blk`. */
  predicate Inside(p: Block, blk: Block) {
    blk.offset <= p.offset && p.End() <= blk.End()
  }

  /** Every entry of `l` is an entry of `m`. */
  predicate Sub(l: Ledger, m: Ledger) {
    forall x | x in l :: x in m
  }

  /** A piece of an extent is clear of whatever the extent is clear of. */
  lemma InsideClear(p: Block, blk: Block, l: Ledger)
    requires Inside(p, blk) && Clear(blk, l)
    ensures Clear(p, l)
  {
    forall x | x in l ensures Disjoint(p, x) {
      assert Disjoint(blk, x);
    }
  }

  /** An extent clear of two touching extents is clear of any run they span. */
  lemma SpanDisjoint(x: Block, a: Block, b: Block, k: nat)
    requires Disjoint(x, a) && Disjoint(x, b) && a.End() == b.offset && k <= b.size
    ensures Disjoint(x, Block(a.offset, a.size + k))
  {
  }

  /** Inserting keeps `Clear` when the inserted block is clear of `b` too. */
  lemma ClearInsert(b: Block, l: Ledger, c: Block)
    requires Sorted(l) && Clear(b, l) && Disjoint(b, c)
    ensures Clear(b, Insert(l, c))
  {
    InsertFacts(l, c);
  }

  /** `Clear` passes to a sub-ledger. */
  lemma ClearSub(b: Block, l: Ledger, m: Ledger)
    requires Clear(b, m) && Sub(l, m)
    ensures Clear(b, l)
  {
  }

  /** Inserting a block clear of every entry keeps a ledger separated. */
  lemma InsertSeparated(l: Ledger, b: Block)
    requires Sorted(l) && Separated(l) && Clear(b, l)
    ensures Separated(Insert(l, b))
  {
    InsertFacts(l, b);
  }

  /** Inserting into the first ledger a block clear of the second keeps them apart. */
  lemma InsertApart(f: Ledger, u: Ledger, b: Block)
    requires Sorted(f) && Apart(f, u) && Clear(b, u)
    ensures Apart(Insert(f, b), u)
  {
    InsertFacts(f, b);
  }

  /** Inserting into the second ledger a block clear of the first keeps them apart. */
  lemma ApartInsert(f: Ledger, u: Ledger, b: Block)
    requires Sorted(u) && Apart(f, u) && Clear(b, f)
    ensures Apart(f, Insert(u, b))
  {
    InsertFacts(u, b);
  }

  /** Inserting a block inside the capacity keeps the ledger inside it. */
  lemma InsertWithin(l: Ledger, b: Block, cap: nat)
    requires Sorted(l) && Within(l, cap) && b.End() <= cap
    ensures Within(Insert(l, b), cap)
  {
    InsertFacts(l, b);
  }

  /** Sub-ledgers of separated, apart ledgers inside the capacity stay so. */
  lemma SubKeeps(f: Ledger, u: Ledger, f': Ledger, u': Ledger, cap: nat)
    requires Separated(f) && Separated(u) && Apart(f, u) && Within(f, cap) && Within(u, cap)
    requires Sub(f', f) && Sub(u', u)
    ensures Separated(f') && Separated(u') && Apart(f', u') && Within(f', cap) && Within(u', cap)
  {
  }

  /** An erased ledger is a sub-ledger of the original. */
  lemma EraseSub(l: Ledger, i: nat)
    requires Sorted(l) && i < |l|
    ensures Sub(Erase(l, i), l)
  {
    EraseFacts(l, i);
  }

  /** The other entries of a separated ledger are clear of entry `i`. */
  lemma SeparatedClear(l: Ledger, i: nat)
    requires Sorted(l) && Separated(l) && i < |l|
    ensures Clear(l[i], Erase(l, i))
  {
    EraseFacts(l, i);
    forall x | x in Erase(l, i) ensures Disjoint(l[i], x) {
      assert x != l[i];
    }
  }

  /** Entry `i` of the first of two apart ledgers is clear of the second. */
  lemma ApartClear(f: Ledger, u: Ledger, b: Block)
    requires Apart(f, u) && b in f
    ensures Clear(b, u)
  {
  }

  /** An entry of the second of two apart ledgers is clear of the first. */
  lemma ApartClearRight(f: Ledger, u: Ledger, b: Block)
    requires Apart(f, u) && b in u
    ensures Clear(b, f)
  {
  }

  /** The bytes an `Insert` adds: those of `b`, unless its key was present. */
  lemma InsertCovered(l: Ledger, b: Block, x: nat)
    requires Sorted(l)
    ensures Covered(Insert(l, b), x) <==> Covered(l, x) || (Find(l, b.offset).None? && b.Holds(x))
  {
    InsertFacts(l, b);
    if Covered(Insert(l, b), x) {
      var c :| c in Insert(l, b) && c.Holds(x);
      assert c in l || c == b;
    }
    if Covered(l, x) {
      var c :| c in l && c.Holds(x);
      assert c in Insert(l, b);
    }
    if Find(l, b.offset).None? && b.Holds(x) {
      assert b in Insert(l, b);
    }
  }

  /** The entries of `Resize(l, i, size)`: entry `i` with its new size, and the rest. */
  lemma ResizeMembers(l: Ledger, i: nat, size: nat)
    requires Sorted(l) && i < |l|
    ensures forall x | x in Resize(l, i, size) :: x == Block(l[i].offset, size) || (x in l && x.offset != l[i].offset)
    ensures Block(l[i].offset, size) in Resize(l, i, size)
    ensures forall x | x in l && x.offset != l[i].offset :: x in Resize(l, i, size)
  {
    var r := Resize(l, i, size);
    forall x | x in l && x.offset != l[i].offset ensures x in r {
      var k :| 0 <= k < |l| && l[k] == x;
      assert r[k] == x;
    }
    forall x | x in r ensures x == Block(l[i].offset, size) || (x in l && x.offset != l[i].offset) {
      var k :| 0 <= k < |r| && r[k] == x;
      if k != i {
        assert r[k] == l[k];
        Distinct(l, k, i);
      }
    }
    assert r[i] == Block(l[i].offset, size);
  }

  /** The block `Merge` builds from entries `i` and `i + 1`. */
  function Merged(l: Ledger, i: nat): (m: Block)
    requires i + 1 < |l|
    ensures m.offset == l[i].offset && m.size == l[i].size + l[i + 1].size
  {
    Block(l[i].offset, l[i].size + l[i + 1].size)
  }
}
