/**
 * The offset-keyed ledgers of a backing buffer.
 *
 * The source keeps each ledger in a `std::map<size_t, Block>` whose key is
 * always the block's own offset. An ordered map with that property is a
 * sequence of blocks strictly sorted by offset, so a ledger is modelled as
 * `seq<Block>`: iteration is by index, `find` is `Find`, `insert` is `Insert`
 * (which, like `std::map::insert`, does nothing when the key is present) and
 * `erase` of an iterator is `Erase`.
 */
module Ledgers {

  datatype Option<T> = None | Some(value: T)

  /** A contiguous extent [offset, offset + size) of one backing buffer. */
  datatype Block = Block(offset: nat, size: nat) {
    function End(): nat { offset + size }
    predicate Holds(x: nat) { offset <= x < offset + size }
  }

  type Ledger = seq<Block>

  /** The key of the entry at position `i`. */
  function Key(l: Ledger, i: nat): nat
    requires i < |l|
  {
    l[i].offset
  }

  /**
   * Keys strictly increase, as in an ordered map keyed by offset. (Stated
   * over `Key` so that the solver uses it only where a proof names a key.)
   */
  predicate Sorted(l: Ledger) {
    forall i, j | 0 <= i < j < |l| :: Key(l, i) < Key(l, j)
  }

  /** Two extents share no byte (an empty extent shares none with anything). */
  predicate Disjoint(a: Block, b: Block) {
    a.size == 0 || b.size == 0 || a.End() <= b.offset || b.End() <= a.offset
  }

  /** Distinct entries of one ledger never overlap. */
  predicate Separated(l: Ledger) {
    forall a, b | a in l && b in l && a != b :: Disjoint(a, b)
  }

  /** No entry of `f` overlaps an entry of `u`. */
  predicate Apart(f: Ledger, u: Ledger) {
    forall a, b | a in f && b in u :: Disjoint(a, b)
  }

  /** Every entry lies inside [0, cap). */
  predicate Within(l: Ledger, cap: nat) {
    forall a | a in l :: a.End() <= cap
  }

  /** Some entry of the ledger holds byte `x`. */
  ghost predicate Covered(l: Ledger, x: nat) {
    exists b | b in l :: b.Holds(x)
  }

  /** No two consecutive entries touch: every maximal free run is one entry. */
  predicate NoAdjacent(l: Ledger) {
    forall k | 0 <= k < |l| - 1 :: l[k].End() != l[k + 1].offset
  }

  /** `std::map::find`: the position of the entry keyed `key`, if any. */
  function Find(l: Ledger, key: nat): (r: Option<nat>)
    ensures r.Some? ==> r.value < |l| && l[r.value].offset == key
  {
    if l == [] then None
    else if l[0].offset == key then Some(0)
    else match Find(l[1..], key)
      case None => None
      case Some(i) => Some(i + 1)
  }

  /** `find` fails exactly when no entry has the key. */
  lemma {:induction false} FindNone(l: Ledger, key: nat)
    ensures Find(l, key).None? <==> forall b | b in l :: b.offset != key
  {
    if l != [] && l[0].offset != key {
      FindNone(l[1..], key);
      assert l == [l[0]] + l[1..];
    }
  }

  /** In a sorted ledger a later entry has a larger key. */
  lemma Ordered(l: Ledger, i: nat, j: nat)
    requires Sorted(l) && i < j < |l|
    ensures l[i].offset < l[j].offset
  {
    assert Key(l, i) < Key(l, j);
  }

  /** In a sorted ledger distinct positions hold distinct keys. */
  lemma Distinct(l: Ledger, i: nat, j: nat)
    requires Sorted(l) && i < |l| && j < |l| && i != j
    ensures l[i].offset != l[j].offset
  {
    if i < j { Ordered(l, i, j); } else { Ordered(l, j, i); }
  }

  /** The tail of a sorted ledger is sorted. */
  lemma SortedTail(l: Ledger)
    requires Sorted(l) && l != []
    ensures Sorted(l[1..])
  {
    forall i, j | 0 <= i < j < |l| - 1 ensures Key(l[1..], i) < Key(l[1..], j) {
      Ordered(l, i + 1, j + 1);
    }
  }

  /** In a sorted ledger `Find` locates each entry at its own position. */
  lemma FindAt(l: Ledger, i: nat)
    requires Sorted(l) && i < |l|
    ensures Find(l, l[i].offset) == Some(i)
  {
    assert l[i] in l;
    FindNone(l, l[i].offset);
    var k := Find(l, l[i].offset).value;
    if k != i {
      Distinct(l, k, i);
    }
  }

  /** In a sorted ledger an entry keyed by `b.offset` that holds `b` is `b` itself. */
  lemma FindMember(l: Ledger, b: Block)
    requires Sorted(l) && b in l
    ensures Find(l, b.offset).Some? && l[Find(l, b.offset).value] == b
  {
    var i :| 0 <= i < |l| && l[i] == b;
    FindAt(l, i);
  }

  /**
   * `std::map::insert` of the pair (b.offset, b): the ledger gains `b` at
   * its ordered position, unless an entry with that key is already present,
   * in which case nothing changes.
   */
  function Insert(l: Ledger, b: Block): (r: Ledger)
    requires Sorted(l)
    ensures Sorted(r)
  {
    InsertSorted(l, b);
    InsertAt(l, b)
  }

  /**
   * What `Insert` does to the entries: nothing when the key is present,
   * otherwise exactly `b` is added.
   */
  lemma InsertFacts(l: Ledger, b: Block)
    requires Sorted(l)
    ensures Find(l, b.offset).Some? ==> Insert(l, b) == l
    ensures Find(l, b.offset).None? ==> forall x :: x in Insert(l, b) <==> x in l || x == b
    ensures forall x | x in l :: x in Insert(l, b)
    ensures forall x | x in Insert(l, b) :: x in l || x == b
    ensures Insert(l, b) != []
  {
    InsertMembers(l, b);
    InsertSorted(l, b);
  }

  /** The recursion behind `Insert`: walk to the first key not below `b.offset`. */
  function InsertAt(l: Ledger, b: Block): Ledger {
    if l == [] then [b]
    else if b.offset < l[0].offset then [b] + l
    else if b.offset == l[0].offset then l
    else [l[0]] + InsertAt(l[1..], b)
  }

  lemma {:induction false} InsertMembers(l: Ledger, b: Block)
    requires Sorted(l)
    ensures Find(l, b.offset).Some? ==> InsertAt(l, b) == l
    ensures Find(l, b.offset).None? ==> forall x :: x in InsertAt(l, b) <==> x in l || x == b
  {
    if l != [] && b.offset > l[0].offset {
      SortedTail(l);
      InsertMembers(l[1..], b);
      assert l == [l[0]] + l[1..];
    } else if l != [] && b.offset < l[0].offset {
      forall x | x in l ensures x.offset != b.offset {
        var j :| 0 <= j < |l| && l[j] == x;
        if j != 0 { Ordered(l, 0, j); }
      }
    }
  }

  lemma {:induction false} InsertSorted(l: Ledger, b: Block)
    requires Sorted(l)
    ensures Sorted(InsertAt(l, b))
    ensures forall k | 0 <= k < |InsertAt(l, b)| :: InsertAt(l, b)[k] == b || InsertAt(l, b)[k] in l
  {
    if l != [] && b.offset > l[0].offset {
      var t := InsertAt(l[1..], b);
      SortedTail(l);
      InsertSorted(l[1..], b);
      InsertAbove(l, b, t);
      ConsSorted(l[0], t);
      assert InsertAt(l, b) == [l[0]] + t;
    } else if l != [] && b.offset < l[0].offset {
      forall k | 0 <= k < |l| ensures b.offset < l[k].offset {
        if k > 0 { Ordered(l, 0, k); }
      }
      ConsSorted(b, l);
    }
  }

  /** Every entry of the recursive tail lies above the head's key. */
  lemma InsertAbove(l: Ledger, b: Block, t: Ledger)
    requires Sorted(l) && l != [] && b.offset > l[0].offset
    requires forall k | 0 <= k < |t| :: t[k] == b || t[k] in l[1..]
    ensures forall k | 0 <= k < |t| :: l[0].offset < t[k].offset && (t[k] == b || t[k] in l)
  {
    forall k | 0 <= k < |t| ensures l[0].offset < t[k].offset && (t[k] == b || t[k] in l) {
      if t[k] != b {
        var j :| 0 <= j < |l[1..]| && l[1..][j] == t[k];
        assert l[j + 1] == t[k];
        Ordered(l, 0, j + 1);
      }
    }
  }

  /** Prepending a block below every key keeps a ledger sorted. */
  lemma ConsSorted(h: Block, t: Ledger)
    requires Sorted(t) && forall k | 0 <= k < |t| :: h.offset < t[k].offset
    ensures Sorted([h] + t)
  {
    var r := [h] + t;
    forall i, j | 0 <= i < j < |r| ensures Key(r, i) < Key(r, j) {
      assert r[j] == t[j - 1];
      if i > 0 {
        assert r[i] == t[i - 1];
        Ordered(t, i - 1, j - 1);
      }
    }
  }

  /** `std::map::erase` of the entry at position `i`. */
  function Erase(l: Ledger, i: nat): (r: Ledger)
    requires Sorted(l) && i < |l|
    ensures Sorted(r) && |r| == |l| - 1
  {
    EraseAt(l, i);
    l[..i] + l[i + 1..]
  }

  /** `Erase` removes exactly the entry at position `i`; the others keep their order. */
  lemma EraseFacts(l: Ledger, i: nat)
    requires Sorted(l) && i < |l|
    ensures forall x :: x in Erase(l, i) <==> x in l && x.offset != l[i].offset
    ensures forall k | 0 <= k < i :: Erase(l, i)[k] == l[k]
    ensures forall k | i <= k < |Erase(l, i)| :: Erase(l, i)[k] == l[k + 1]
  {
    EraseAt(l, i);
    EraseMembers(l, i);
  }

  lemma EraseAt(l: Ledger, i: nat)
    requires Sorted(l) && i < |l|
    ensures var r := l[..i] + l[i + 1..];
            && |r| == |l| - 1
            && (forall k | 0 <= k < i :: r[k] == l[k])
            && (forall k | i <= k < |r| :: r[k] == l[k + 1])
            && Sorted(r)
  {
    var r := l[..i] + l[i + 1..];
    assert forall k | 0 <= k < |r| :: r[k] == if k < i then l[k] else l[k + 1];
    forall a, b | 0 <= a < b < |r| ensures Key(r, a) < Key(r, b) {
      var a' := if a < i then a else a + 1;
      var b' := if b < i then b else b + 1;
      assert r[a] == l[a'] && r[b] == l[b'];
      Ordered(l, a', b');
    }
  }

  lemma EraseMembers(l: Ledger, i: nat)
    requires Sorted(l) && i < |l|
    ensures forall x :: x in l[..i] + l[i + 1..] <==> x in l && x.offset != l[i].offset
  {
    var r := l[..i] + l[i + 1..];
    forall x | x in r ensures x in l && x.offset != l[i].offset {
      var k :| 0 <= k < |r| && r[k] == x;
      if k >= i {
        assert r[k] == l[k + 1];
        Distinct(l, k + 1, i);
      } else {
        assert r[k] == l[k];
        Distinct(l, k, i);
      }
    }
    forall x | x in l && x.offset != l[i].offset ensures x in r {
      var j :| 0 <= j < |l| && l[j] == x;
      if j < i {
        assert r[j] == x;
      } else {
        assert r[j - 1] == x;
      }
    }
  }

  /** Assign a new size to the entry at position `i`; its key is unchanged. */
  function Resize(l: Ledger, i: nat, size: nat): (r: Ledger)
    requires i < |l|
    ensures |r| == |l| && r[i] == Block(l[i].offset, size)
    ensures forall k | 0 <= k < |l| && k != i :: r[k] == l[k]
    ensures Sorted(l) ==> Sorted(r)
  {
    ResizeSorted(l, i, size);
    l[i := Block(l[i].offset, size)]
  }

  lemma ResizeSorted(l: Ledger, i: nat, size: nat)
    requires i < |l|
    ensures Sorted(l) ==> Sorted(l[i := Block(l[i].offset, size)])
  {
    var r := l[i := Block(l[i].offset, size)];
    if Sorted(l) {
      forall a, b | 0 <= a < b < |r| ensures Key(r, a) < Key(r, b) {
        Ordered(l, a, b);
      }
    }
  }
}
