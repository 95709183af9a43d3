/**
 * The bookkeeping of `glt::map_multiple` and `glt::unmap_multiple`: one
 * mapping range per GL buffer name, grown region by region in input order,
 * and one pointer per region into its buffer's mapping. The GL calls are
 * parameters: `mapBase(id)` is the address `glMapBufferRange` returns for
 * buffer `id`, and the unmapped names are returned in the order
 * `glUnmapBuffer` is called.
 */
module Mapping {
  import opened BufferModel

  /** `GL_MAP_INVALIDATE_RANGE_BIT`. */
  const InvalidateRangeBit: bv32 := 0x0004

  /** `BufferMapping` without its pointer: the byte range mapped in one buffer. */
  datatype Range = Range(offset: nat, size: nat) {
    function End(): nat {
      offset + size
    }
  }

  /** The GL names of the regions. */
  function Ids(bs: seq<SubBuffer>): set<nat> {
    set k | 0 <= k < |bs| :: bs[k].buffer
  }

  /**
   * The `else` branch of the first loop: a later region for a buffer that
   * already has a range. The offset becomes the smaller one; the size is
   * measured from the new offset to the end of the region that was judged
   * to come second.
   */
  function Extend(m: Range, b: SubBuffer): Range {
    var offset := if b.offset < m.offset then b.offset else m.offset;
    if offset == m.offset then Range(offset, b.offset + b.size - m.offset)
    else Range(offset, m.offset + m.size - b.offset)
  }

  /** One iteration of the first loop: seed a new range, or extend the existing one. */
  function Record(ranges: map<nat, Range>, b: SubBuffer): map<nat, Range> {
    if b.buffer !in ranges then ranges[b.buffer := Range(b.offset, b.size)]
    else ranges[b.buffer := Extend(ranges[b.buffer], b)]
  }

  /** The ranges after the first loop has visited `bs` in order. */
  function Ranges(bs: seq<SubBuffer>): map<nat, Range>
    decreases |bs|
  {
    if bs == [] then map[] else Record(Ranges(bs[..|bs| - 1]), bs[|bs| - 1])
  }

  /** One range per buffer named by some region, and no other. */
  lemma {:induction false} RangesKeys(bs: seq<SubBuffer>)
    ensures Ranges(bs).Keys == Ids(bs)
    decreases |bs|
  {
    if bs != [] {
      var p := bs[..|bs| - 1];
      RangesKeys(p);
      assert Ids(bs) == Ids(p) + {bs[|bs| - 1].buffer} by {
        forall id | id in Ids(bs) ensures id in Ids(p) + {bs[|bs| - 1].buffer} {
          var k :| 0 <= k < |bs| && bs[k].buffer == id;
          if k < |bs| - 1 {
            assert p[k] == bs[k];
          }
        }
        forall id | id in Ids(p) ensures id in Ids(bs) {
          var k :| 0 <= k < |p| && p[k].buffer == id;
          assert bs[k] == p[k];
        }
      }
    }
  }

  /**
   * A buffer's range starts at the lowest offset among its regions: at or
   * below every one of them, and equal to one of them.
   */
  lemma {:induction false} RangeIsMin(bs: seq<SubBuffer>, id: nat)
    requires id in Ranges(bs)
    ensures forall k | 0 <= k < |bs| && bs[k].buffer == id :: Ranges(bs)[id].offset <= bs[k].offset
    ensures exists k | 0 <= k < |bs| && bs[k].buffer == id :: bs[k].offset == Ranges(bs)[id].offset
    decreases |bs|
  {
    var n := |bs| - 1;
    var p := bs[..n];
    var last := bs[n];
    assert forall k | 0 <= k < n :: bs[k] == p[k];
    if last.buffer != id {
      RangeIsMin(p, id);
      var j :| 0 <= j < |p| && p[j].buffer == id && p[j].offset == Ranges(p)[id].offset;
      assert bs[j] == p[j];
    } else if id !in Ranges(p) {
      RangesKeys(p);
      forall k | 0 <= k < n ensures bs[k].buffer != id {
        assert p[k].buffer in Ids(p);
      }
    } else {
      RangeIsMin(p, id);
      var j :| 0 <= j < |p| && p[j].buffer == id && p[j].offset == Ranges(p)[id].offset;
      assert bs[j] == p[j];
    }
  }

  /** The first region seen for a buffer seeds its range. */
  lemma FirstSeeds(bs: seq<SubBuffer>, k: nat)
    requires k < |bs|
    requires forall j | 0 <= j < k :: bs[j].buffer != bs[k].buffer
    ensures bs[k].buffer in Ranges(bs[..k + 1])
    ensures Ranges(bs[..k + 1])[bs[k].buffer] == Range(bs[k].offset, bs[k].size)
  {
    var p := bs[..k];
    assert bs[..k + 1][..k] == p;
    RangesKeys(p);
  }

  /**
   * Visited in ascending offset order without overlap, a buffer's regions
   * all lie inside its range.
   */
  lemma {:induction false} AscendingCovers(bs: seq<SubBuffer>, id: nat)
    requires id in Ranges(bs)
    requires forall j, k | 0 <= j < k < |bs| && bs[j].buffer == id && bs[k].buffer == id ::
               bs[j].offset + bs[j].size <= bs[k].offset
    ensures forall k | 0 <= k < |bs| && bs[k].buffer == id ::
              Ranges(bs)[id].offset <= bs[k].offset && bs[k].offset + bs[k].size <= Ranges(bs)[id].End()
    decreases |bs|
  {
    var n := |bs| - 1;
    var p := bs[..n];
    var last := bs[n];
    assert forall k | 0 <= k < n :: bs[k] == p[k];
    if last.buffer != id {
      AscendingCovers(p, id);
    } else if id in Ranges(p) {
      AscendingCovers(p, id);
      RangeIsMin(p, id);
      var j :| 0 <= j < |p| && p[j].buffer == id && p[j].offset == Ranges(p)[id].offset;
      assert bs[j] == p[j];
    } else {
      RangesKeys(p);
      forall k | 0 <= k < n ensures bs[k].buffer != id {
        assert p[k].buffer in Ids(p);
      }
    }
  }

  /**
   * Out of ascending order the range can shrink and stop covering a region:
   * regions {50,10}, {0,10}, {20,10} of one buffer give the range [0, 60)
   * after two steps and then [0, 30), which misses the first region.
   */
  lemma RangeShrinks()
    ensures var bs := [SubBuffer(50, 10, 1), SubBuffer(0, 10, 1), SubBuffer(20, 10, 1)];
            && Ranges(bs[..2])[1] == Range(0, 60)
            && Ranges(bs)[1] == Range(0, 30)
            && Ranges(bs)[1].End() < bs[0].offset + bs[0].size
  {
    var bs := [SubBuffer(50, 10, 1), SubBuffer(0, 10, 1), SubBuffer(20, 10, 1)];
    assert bs[..1] == [bs[0]] && bs[..2][..1] == bs[..1] && bs[..1][..0] == [];
    assert Ranges(bs[..1])[1] == Range(50, 10);
    assert Ranges(bs[..2])[1] == Range(0, 60);
    assert bs[..3] == bs && bs[..2] == bs[..3][..2];
  }

  /**
   * `map_multiple(bs, access)`: clear the invalidate bit, build each
   * buffer's range, map each range once, and return for each region the
   * address of its first byte inside its buffer's mapping.
   */
  method MapMultiple(bs: seq<SubBuffer>, access: bv32, mapBase: nat -> int)
      returns (mapAccess: bv32, ranges: map<nat, Range>, ptrs: seq<int>)
    ensures mapAccess & InvalidateRangeBit == 0
    ensures mapAccess & !InvalidateRangeBit == access & !InvalidateRangeBit
    ensures ranges == Ranges(bs) && ranges.Keys == Ids(bs)
    ensures |ptrs| == |bs|
    ensures forall k | 0 <= k < |bs| :: bs[k].buffer in ranges &&
              ptrs[k] == mapBase(bs[k].buffer) + (bs[k].offset - ranges[bs[k].buffer].offset)
    ensures forall k | 0 <= k < |bs| :: mapBase(bs[k].buffer) <= ptrs[k]
  {
    mapAccess := access;
    if mapAccess & InvalidateRangeBit != 0 {
      mapAccess := mapAccess & !InvalidateRangeBit;
    }
    ranges := BuildRanges(bs);
    var bases := MapRanges(ranges, mapBase);
    ptrs := Pointers(bs, ranges, bases);
    forall k | 0 <= k < |bs| ensures mapBase(bs[k].buffer) <= ptrs[k] {
      RangeIsMin(bs, bs[k].buffer);
    }
  }

  /** The first loop of `map_multiple`: one range per buffer, grown in input order. */
  method BuildRanges(bs: seq<SubBuffer>) returns (ranges: map<nat, Range>)
    ensures ranges == Ranges(bs) && ranges.Keys == Ids(bs)
  {
    ranges := map[];
    var i := 0;
    while i < |bs|
      invariant i <= |bs| && ranges == Ranges(bs[..i])
    {
      var b := bs[i];
      if b.buffer !in ranges {
        ranges := ranges[b.buffer := Range(b.offset, b.size)];
      } else {
        var m := ranges[b.buffer];
        var offset := if b.offset < m.offset then b.offset else m.offset;
        if offset == m.offset {
          ranges := ranges[b.buffer := Range(offset, b.offset + b.size - m.offset)];
        } else {
          ranges := ranges[b.buffer := Range(offset, m.offset + m.size - b.offset)];
        }
      }
      assert bs[..i + 1][..i] == bs[..i];
      i := i + 1;
    }
    assert bs[..i] == bs;
    RangesKeys(bs);
  }

  /**
   * The second loop: `glMapBufferRange` once per range, in whatever order the
   * table yields them; `bases` holds each mapping's address.
   */
  method MapRanges(ranges: map<nat, Range>, mapBase: nat -> int) returns (bases: map<nat, int>)
    ensures bases.Keys == ranges.Keys
    ensures forall id | id in bases :: bases[id] == mapBase(id)
  {
    bases := map[];
    var pending := ranges.Keys;
    while pending != {}
      invariant pending <= ranges.Keys && bases.Keys == ranges.Keys - pending
      invariant forall id | id in bases :: bases[id] == mapBase(id)
      decreases |pending|
    {
      var id :| id in pending;
      bases := bases[id := mapBase(id)];
      pending := pending - {id};
    }
  }

  /** The third loop: each region's address, its mapping's address plus its distance from the range start. */
  method Pointers(bs: seq<SubBuffer>, ranges: map<nat, Range>, bases: map<nat, int>) returns (ptrs: seq<int>)
    requires ranges.Keys == Ids(bs) && bases.Keys == ranges.Keys
    ensures |ptrs| == |bs|
    ensures forall k | 0 <= k < |bs| :: bs[k].buffer in ranges &&
              ptrs[k] == bases[bs[k].buffer] + (bs[k].offset - ranges[bs[k].buffer].offset)
  {
    ptrs := [];
    var i := 0;
    while i < |bs|
      invariant i <= |bs| && |ptrs| == i
      invariant forall k | 0 <= k < i :: bs[k].buffer in ranges &&
                  ptrs[k] == bases[bs[k].buffer] + (bs[k].offset - ranges[bs[k].buffer].offset)
    {
      assert bs[i].buffer in Ids(bs);
      var m := ranges[bs[i].buffer];
      ptrs := ptrs + [bases[bs[i].buffer] + (bs[i].offset - m.offset)];
      i := i + 1;
    }
  }

  /** Strictly ascending, as a `std::set` iterates. */
  predicate Increasing(ids: seq<nat>) {
    forall j, k | 0 <= j < k < |ids| :: ids[j] < ids[k]
  }

  /** `std::set::insert`: add `id` in its place, or leave the set as it is when present. */
  function AddId(ids: seq<nat>, id: nat): (r: seq<nat>)
    requires Increasing(ids)
    ensures Increasing(r)
    ensures forall x | x in r :: x in ids || x == id
    ensures id in r && forall x | x in ids :: x in r
    ensures |r| <= |ids| + 1
  {
    if ids == [] then [id]
    else if id < ids[0] then [id] + ids
    else if id == ids[0] then ids
    else
      var rest := AddId(ids[1..], id);
      assert forall x | x in rest :: ids[0] < x by {
        assert forall x | x in ids[1..] :: ids[0] < x;
      }
      ConsIncreasing(ids[0], rest);
      [ids[0]] + rest
  }

  /** A value below every element of an increasing sequence can go in front of it. */
  lemma ConsIncreasing(h: nat, rest: seq<nat>)
    requires Increasing(rest) && forall x | x in rest :: h < x
    ensures Increasing([h] + rest)
  {
    var s := [h] + rest;
    forall j, k | 0 <= j < k < |s|
      ensures s[j] < s[k]
    {
      assert s[k] == rest[k - 1] && rest[k - 1] in rest;
      if j > 0 {
        assert s[j] == rest[j - 1];
      }
    }
  }

  /**
   * `unmap_multiple(bs)`: collect the distinct names into an ordered set and
   * unmap each once, in ascending order.
   */
  method UnmapMultiple(bs: seq<SubBuffer>) returns (unmapped: seq<nat>)
    ensures Increasing(unmapped)
    ensures forall k | 0 <= k < |unmapped| :: unmapped[k] in Ids(bs)
    ensures forall id | id in Ids(bs) :: id in unmapped
  {
    var ids: seq<nat> := [];
    var i := 0;
    while i < |bs|
      invariant i <= |bs| && Increasing(ids)
      invariant forall x | x in ids :: x in Ids(bs[..i])
      invariant forall x | x in Ids(bs[..i]) :: x in ids
    {
      assert Ids(bs[..i + 1]) == Ids(bs[..i]) + {bs[i].buffer} by {
        assert forall k | 0 <= k < i :: bs[..i + 1][k] == bs[..i][k];
      }
      ids := AddId(ids, bs[i].buffer);
      i := i + 1;
    }
    assert bs[..i] == bs;
    unmapped := [];
    i := 0;
    while i < |ids|
      invariant i <= |ids| && unmapped == ids[..i]
    {
      unmapped := unmapped + [ids[i]];
      i := i + 1;
    }
    assert unmapped == ids;
  }
}
