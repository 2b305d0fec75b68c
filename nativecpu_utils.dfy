/** `__nativecpu_state`, the execution state the Native CPU device library
    keeps per work item: ids, ranges, sizes and offsets in three dimensions,
    each a 64-bit `size_t`, and four 32-bit subgroup fields. */
module NativeCpuUtils {
  import opened Common

  /** The exact value of `MWorkGroup_size[d] * MWorkGroup_id[d] +
      MLocal_id[d] + MGlobalOffset[d]`. */
  function IdSum(size: U64, group: U64, local: U64, offset: U64): nat
  {
    MulNonneg(size, group);
    size as int * group as int + local as int + offset as int
  }

  /** Reduction into `size_t`: a value changes by a multiple of 2^64, and
      not at all when it already fits. */
  function Wrap64(v: int): (r: U64)
    ensures (v - r) % TWO_POW_64 == 0
    ensures 0 <= v < TWO_POW_64 ==> r == v
  {
    WrapCongruent(v);
    v % TWO_POW_64
  }

  lemma WrapCongruent(v: int)
    ensures (v - v % TWO_POW_64) % TWO_POW_64 == 0
  {
    var q := v / TWO_POW_64;
    assert v - v % TWO_POW_64 == q * TWO_POW_64;
  }

  /** The global id in `size_t` arithmetic: the exact sum when it fits in
      64 bits, and congruent to it modulo 2^64 in any case. */
  function GlobalIdOf(size: U64, group: U64, local: U64, offset: U64): (r: U64)
    ensures IdSum(size, group, local, offset) < TWO_POW_64 ==> r == IdSum(size, group, local, offset)
    ensures (IdSum(size, group, local, offset) - r) % TWO_POW_64 == 0
  {
    Wrap64(IdSum(size, group, local, offset))
  }

  /** `size * (range / size)` never exceeds `range`. */
  lemma DivFloor(range: nat, size: nat)
    requires size != 0
    ensures size * (range / size) <= range
  {
    assert range == size * (range / size) + range % size;
  }

  /** A work item whose group id is below the group count and whose local id
      is below the group size gets a global id inside
      `[offset, offset + range)`, computed without wrap-around, provided the
      offset range itself fits in `size_t`. */
  lemma {:induction false} GlobalIdInRange(range: U64, size: U64, group: U64, local: U64, offset: U64)
    requires size != 0 && group < range / size && local < size
    requires offset as int + range as int <= TWO_POW_64
    ensures offset <= GlobalIdOf(size, group, local, offset) < offset as int + range as int
    ensures GlobalIdOf(size, group, local, offset) == IdSum(size, group, local, offset)
  {
    var q: nat := range as int / size as int;
    var g: nat := group as int;
    var n: nat := size as int;
    MulMono(n, g + 1, q);
    DivFloor(range as int, n);
    assert n * (g + 1) == n * g + n;
    assert IdSum(size, group, local, offset) == n * g + local as int + offset as int;
  }

  /** Every group size is non-zero and every group count is the quotient of
      the range by the group size. */
  ghost predicate GroupCounts(numGroups: seq<U64>, range: seq<U64>, size: seq<U64>)
  {
    |numGroups| == |range| == |size| &&
    forall d :: 0 <= d < |size| ==> size[d] != 0 && numGroups[d] == range[d] / size[d]
  }

  /** A fresh three-element `size_t` array. */
  method NewTriple(x0: U64, x1: U64, x2: U64) returns (a: array<U64>)
    ensures fresh(a) && a.Length == 3 && a[..] == [x0, x1, x2]
  {
    a := new U64[3] [x0, x1, x2];
  }

  class State {
    const globalId: array<U64>        // MGlobal_id
    const globalRange: array<U64>     // MGlobal_range
    const workGroupSize: array<U64>   // MWorkGroup_size
    const workGroupId: array<U64>     // MWorkGroup_id
    const localId: array<U64>         // MLocal_id
    const numGroups: array<U64>       // MNumGroups
    const globalOffset: array<U64>    // MGlobalOffset
    var numSubGroups: U32
    var subGroupId: U32
    var subGroupLocalId: U32
    var subGroupSize: U32

    /** Seven distinct three-element arrays; the group sizes are non-zero
        and the group counts are the quotients of range by size. */
    ghost predicate Valid()
      reads this, numGroups, globalRange, workGroupSize
    {
      globalId.Length == 3 && globalRange.Length == 3 && workGroupSize.Length == 3 &&
      workGroupId.Length == 3 && localId.Length == 3 && numGroups.Length == 3 &&
      globalOffset.Length == 3 &&
      // the three arrays `update` writes are distinct from each other and from the rest
      globalId != workGroupId && globalId != localId && workGroupId != localId &&
      globalId != globalRange && globalId != workGroupSize && globalId != numGroups && globalId != globalOffset &&
      workGroupId != globalRange && workGroupId != workGroupSize && workGroupId != numGroups &&
      workGroupId != globalOffset &&
      localId != globalRange && localId != workGroupSize && localId != numGroups && localId != globalOffset &&
      GroupCounts(numGroups[..], globalRange[..], workGroupSize[..])
    }

    /** The global ids agree with the group and local ids. */
    ghost predicate Consistent()
      reads this, globalId, workGroupSize, workGroupId, localId, globalOffset
      requires globalId.Length == 3 && workGroupSize.Length == 3 && workGroupId.Length == 3
      requires localId.Length == 3 && globalOffset.Length == 3
    {
      forall d :: 0 <= d < 3 ==>
        globalId[d] == GlobalIdOf(workGroupSize[d], workGroupId[d], localId[d], globalOffset[d])
    }

    /** The group and local ids address a work item of the range. */
    ghost predicate InRange()
      reads this, workGroupId, numGroups, localId, workGroupSize
      requires workGroupId.Length == 3 && numGroups.Length == 3 && localId.Length == 3
      requires workGroupSize.Length == 3
    {
      forall d :: 0 <= d < 3 ==> workGroupId[d] < numGroups[d] && localId[d] < workGroupSize[d]
    }

    /** The constructor: ranges, sizes and offsets as given, the group
        counts by integer division (a zero size is undefined behaviour),
        every id zero, 32 subgroups of size 1. */
    constructor (globalR0: U64, globalR1: U64, globalR2: U64,
                 localR0: U64, localR1: U64, localR2: U64,
                 globalO0: U64, globalO1: U64, globalO2: U64)
      requires localR0 != 0 && localR1 != 0 && localR2 != 0
      ensures Valid()
      ensures globalRange[..] == [globalR0, globalR1, globalR2]
      ensures workGroupSize[..] == [localR0, localR1, localR2]
      ensures globalOffset[..] == [globalO0, globalO1, globalO2]
      ensures numGroups[..] == [globalR0 / localR0, globalR1 / localR1, globalR2 / localR2]
      ensures globalId[..] == [0, 0, 0] && workGroupId[..] == [0, 0, 0] && localId[..] == [0, 0, 0]
      ensures numSubGroups == 32 && subGroupId == 0 && subGroupLocalId == 0 && subGroupSize == 1
      ensures fresh(globalId) && fresh(globalRange) && fresh(workGroupSize) && fresh(workGroupId)
      ensures fresh(localId) && fresh(numGroups) && fresh(globalOffset)
    {
      var range := NewTriple(globalR0, globalR1, globalR2);
      var size := NewTriple(localR0, localR1, localR2);
      var groups := NewTriple(globalR0 / localR0, globalR1 / localR1, globalR2 / localR2);
      var offset := NewTriple(globalO0, globalO1, globalO2);
      var gid := NewTriple(0, 0, 0);
      var wid := NewTriple(0, 0, 0);
      var lid := NewTriple(0, 0, 0);
      globalRange, workGroupSize, numGroups, globalOffset := range, size, groups, offset;
      globalId, workGroupId, localId := gid, wid, lid;
      new;
      numSubGroups := 32;
      subGroupId := 0;
      subGroupLocalId := 0;
      subGroupSize := 1;
    }

    /** The six-argument `update`: new group and local ids, and each global
        id recomputed from them; nothing else changes. */
    method Update(group0: U64, group1: U64, group2: U64, local0: U64, local1: U64, local2: U64)
      requires Valid()
      modifies workGroupId, localId, globalId
      ensures Valid() && Consistent()
      ensures workGroupId[..] == [group0, group1, group2]
      ensures localId[..] == [local0, local1, local2]
      ensures unchanged(globalRange, workGroupSize, numGroups, globalOffset)
    {
      workGroupId[0] := group0;
      workGroupId[1] := group1;
      workGroupId[2] := group2;
      localId[0] := local0;
      localId[1] := local1;
      localId[2] := local2;
      globalId[0] := GlobalIdOf(workGroupSize[0], workGroupId[0], localId[0], globalOffset[0]);
      globalId[1] := GlobalIdOf(workGroupSize[1], workGroupId[1], localId[1], globalOffset[1]);
      globalId[2] := GlobalIdOf(workGroupSize[2], workGroupId[2], localId[2], globalOffset[2]);
    }

    /** The three-argument `update`: only the group ids change; the local
        and global ids keep their values. */
    method UpdateGroup(group0: U64, group1: U64, group2: U64)
      requires Valid()
      modifies workGroupId
      ensures Valid()
      ensures workGroupId[..] == [group0, group1, group2]
      ensures unchanged(globalId, localId, globalRange, workGroupSize, numGroups, globalOffset)
    {
      workGroupId[0] := group0;
      workGroupId[1] := group1;
      workGroupId[2] := group2;
    }
  }

  /** After `update` with in-range ids, each global id lies in
      `[MGlobalOffset[d], MGlobalOffset[d] + MGlobal_range[d])`. */
  lemma UpdatedIdsInRange(s: State)
    requires s.Valid() && s.Consistent() && s.InRange()
    requires forall d :: 0 <= d < 3 ==> s.globalOffset[d] as int + s.globalRange[d] as int <= TWO_POW_64
    ensures forall d :: 0 <= d < 3 ==>
              s.globalOffset[d] <= s.globalId[d] < s.globalOffset[d] as int + s.globalRange[d] as int
  {
    forall d | 0 <= d < 3
      ensures s.globalOffset[d] <= s.globalId[d] < s.globalOffset[d] as int + s.globalRange[d] as int
    {
      var range, size, group, local, offset :=
        s.globalRange[d], s.workGroupSize[d], s.workGroupId[d], s.localId[d], s.globalOffset[d];
      assert size != 0 && group < range / size && local < size;
      assert s.globalId[d] == GlobalIdOf(size, group, local, offset);
      GlobalIdInRange(range, size, group, local, offset);
    }
  }
}
