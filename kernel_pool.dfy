/** The Native CPU adapter's kernel handle: its argument descriptors and
    the local-memory pool that backs the kernel's local arguments, one slice
    per local argument, subdivided per thread. */
module KernelPool {
  import opened Common
  import NativeCpuHeader

  /** `local_arg_info_t`: which argument is local, and its size per thread. */
  datatype LocalArgInfo = LocalArgInfo(argIndex: U32, argSize: U64)

  /** `size_t` multiplication. */
  function MulU64(a: U64, b: U64): (r: U64)
    ensures a * b < TWO_POW_64 ==> r == a * b
    ensures (a * b - r) % TWO_POW_64 == 0
  {
    MulNonneg(a, b);
    (a * b) % TWO_POW_64
  }

  /** `size_t` addition. */
  function AddU64(a: U64, b: U64): (r: U64)
    ensures a + b < TWO_POW_64 ==> r == a + b
    ensures (a + b - r) % TWO_POW_64 == 0
  {
    (a + b) % TWO_POW_64
  }

  /** The `size_t` running sum of `argSize * n` over `infos`: the `reqSize`
      that `updateMemPool` computes and the `offset` that `handleLocalArgs`
      has reached after the same entries. */
  function ReqSize(infos: seq<LocalArgInfo>, n: U64): U64
  {
    if |infos| == 0 then 0
    else AddU64(ReqSize(infos[..|infos| - 1], n), MulU64(infos[|infos| - 1].argSize, n))
  }

  /** The exact number of bytes the local arguments need for `n` threads. */
  function PoolNeed(infos: seq<LocalArgInfo>, n: U64): nat
  {
    if |infos| == 0 then 0
    else
      MulNonneg(infos[|infos| - 1].argSize, n);
      PoolNeed(infos[..|infos| - 1], n) + infos[|infos| - 1].argSize * n
  }

  lemma ModShift(x: int, q: int)
    ensures (x + q * TWO_POW_64) % TWO_POW_64 == x % TWO_POW_64
  {
  }

  lemma ModAdd(a: int, b: int)
    ensures (a % TWO_POW_64 + b % TWO_POW_64) % TWO_POW_64 == (a + b) % TWO_POW_64
  {
    var qa, qb := a / TWO_POW_64, b / TWO_POW_64;
    assert a + b == (a % TWO_POW_64 + b % TWO_POW_64) + (qa + qb) * TWO_POW_64;
    ModShift(a % TWO_POW_64 + b % TWO_POW_64, qa + qb);
  }

  /** The `size_t` sum is the exact need reduced modulo 2^64. */
  lemma {:induction false} ReqSizeIsNeedModulo(infos: seq<LocalArgInfo>, n: U64)
    ensures ReqSize(infos, n) == PoolNeed(infos, n) % TWO_POW_64
    decreases |infos|
  {
    if |infos| > 0 {
      var init, e := infos[..|infos| - 1], infos[|infos| - 1];
      ReqSizeIsNeedModulo(init, n);
      ModAdd(PoolNeed(init, n), e.argSize * n);
    }
  }

  /** The need of a prefix is at most the need of the whole list. */
  lemma {:induction false} PoolNeedPrefix(infos: seq<LocalArgInfo>, n: U64, m: nat)
    requires m <= |infos|
    ensures PoolNeed(infos[..m], n) <= PoolNeed(infos, n)
    decreases |infos|
  {
    if m < |infos| {
      var init := infos[..|infos| - 1];
      assert infos[..m] == init[..m];
      PoolNeedPrefix(init, n, m);
    } else {
      assert infos[..m] == infos;
    }
  }

  /** Without overflow of the total, every prefix sum is exact. */
  lemma ReqSizeExact(infos: seq<LocalArgInfo>, n: U64, m: nat)
    requires m <= |infos| && PoolNeed(infos, n) < TWO_POW_64
    ensures ReqSize(infos[..m], n) == PoolNeed(infos[..m], n)
  {
    var prefix := infos[..m];
    PoolNeedPrefix(infos, n, m);
    ReqSizeIsNeedModulo(prefix, n);
    SmallMod(PoolNeed(prefix, n));
  }

  lemma SmallMod(x: nat)
    requires x < TWO_POW_64
    ensures x % TWO_POW_64 == x
  {
  }

  /** Where the slot of local argument `k` for thread `tid` starts, relative
      to the pool: the offset reached after the earlier local arguments plus
      `argSize * tid`. */
  function SlotOffset(infos: seq<LocalArgInfo>, k: nat, n: U64, tid: U64): nat
    requires k < |infos|
  {
    ReqSize(infos[..k], n) + MulU64(infos[k].argSize, tid)
  }

  /** The offset before entry `k` plus its `argSize * n` is the need of the
      first `k + 1` entries. */
  lemma NeedStep(infos: seq<LocalArgInfo>, n: U64, k: nat)
    requires k < |infos|
    ensures PoolNeed(infos[..k + 1], n) == PoolNeed(infos[..k], n) + infos[k].argSize * n
  {
    assert infos[..k + 1][..k] == infos[..k];
  }

  /** With the same `n` for sizing and placement, no overflow and a thread
      id below `n`, the slot `[offset, offset + argSize)` lies inside the
      pool of `reqSize` bytes. */
  lemma {:induction false} SlotInPool(infos: seq<LocalArgInfo>, n: U64, k: nat, tid: U64)
    requires k < |infos| && tid < n && PoolNeed(infos, n) < TWO_POW_64
    ensures SlotOffset(infos, k, n, tid) + infos[k].argSize <= ReqSize(infos, n)
    ensures SlotOffset(infos, k, n, tid) == PoolNeed(infos[..k], n) + infos[k].argSize * tid
  {
    var z := infos[k].argSize;
    NeedStep(infos, n, k);
    PoolNeedPrefix(infos, n, k + 1);
    ReqSizeExact(infos, n, k);
    ReqSizeIsNeedModulo(infos, n);
    MulMono(z, tid + 1, n);
    assert z * (tid + 1) == z * tid + z;
  }

  /** Slots of two different (argument, thread) pairs do not overlap. */
  lemma {:induction false} SlotsDisjoint(infos: seq<LocalArgInfo>, n: U64,
                                         k1: nat, t1: U64, k2: nat, t2: U64)
    requires k1 < |infos| && k2 < |infos| && t1 < n && t2 < n
    requires PoolNeed(infos, n) < TWO_POW_64
    requires k1 != k2 || t1 != t2
    ensures SlotOffset(infos, k1, n, t1) + infos[k1].argSize <= SlotOffset(infos, k2, n, t2)
         || SlotOffset(infos, k2, n, t2) + infos[k2].argSize <= SlotOffset(infos, k1, n, t1)
  {
    if k1 == k2 {
      if t1 < t2 {
        SlotsOrdered(infos, n, k1, t1, t2);
      } else {
        SlotsOrdered(infos, n, k1, t2, t1);
      }
    } else if k1 < k2 {
      ArgumentsOrdered(infos, n, k1, t1, k2, t2);
    } else {
      ArgumentsOrdered(infos, n, k2, t2, k1, t1);
    }
  }

  lemma SlotsOrdered(infos: seq<LocalArgInfo>, n: U64, k: nat, t1: U64, t2: U64)
    requires k < |infos| && t1 < t2 < n && PoolNeed(infos, n) < TWO_POW_64
    ensures SlotOffset(infos, k, n, t1) + infos[k].argSize <= SlotOffset(infos, k, n, t2)
  {
    var z := infos[k].argSize;
    SlotInPool(infos, n, k, t1);
    SlotInPool(infos, n, k, t2);
    MulMono(z, t1 + 1, t2);
    assert z * (t1 + 1) == z * t1 + z;
  }

  lemma ArgumentsOrdered(infos: seq<LocalArgInfo>, n: U64, k1: nat, t1: U64, k2: nat, t2: U64)
    requires k1 < k2 < |infos| && t1 < n && t2 < n && PoolNeed(infos, n) < TWO_POW_64
    ensures SlotOffset(infos, k1, n, t1) + infos[k1].argSize <= SlotOffset(infos, k2, n, t2)
  {
    var z := infos[k1].argSize;
    SlotInPool(infos, n, k1, t1);
    SlotInPool(infos, n, k2, t2);
    NeedStep(infos, n, k1);
    MulMono(z, t1 + 1, n);
    assert z * (t1 + 1) == z * t1 + z;
    PoolNeedPrefix(infos[..k2], n, k1 + 1);
    assert infos[..k2][..k1 + 1] == infos[..k1 + 1];
  }

  /** Some local-argument entry names argument `j`. */
  predicate Named(infos: seq<LocalArgInfo>, j: nat)
  {
    exists k :: 0 <= k < |infos| && infos[k].argIndex == j
  }

  predicate IndicesInRange(infos: seq<LocalArgInfo>, argCount: nat)
  {
    forall k :: 0 <= k < |infos| ==> infos[k].argIndex < argCount
  }

  /** The arguments after `handleLocalArgs`: entry by entry, the named
      argument's pointer is set to the pool address plus the slot offset. */
  function LocalArgsFold(args: seq<NativeCpuHeader.ArgDesc>, infos: seq<LocalArgInfo>,
                         pool: nat, n: U64, tid: U64): (r: seq<NativeCpuHeader.ArgDesc>)
    requires IndicesInRange(infos, |args|)
    ensures |r| == |args|
    ensures forall j :: 0 <= j < |args| && !Named(infos, j) ==> r[j] == args[j]
  {
    if |infos| == 0 then args
    else
      var k := |infos| - 1;
      var prev := LocalArgsFold(args, infos[..k], pool, n, tid);
      assert forall j :: 0 <= j < |args| && !Named(infos, j) ==> !Named(infos[..k], j) by {
        forall j | 0 <= j < |args| && Named(infos[..k], j) ensures Named(infos, j) {
          var k' :| 0 <= k' < k && infos[..k][k'].argIndex == j;
          assert infos[k'].argIndex == j;
        }
      }
      prev[infos[k].argIndex := NativeCpuHeader.ArgDesc(pool + SlotOffset(infos, k, n, tid))]
  }

  /** When no argument is named twice, each local argument ends up pointing
      at its own slot. */
  lemma {:induction false} LocalArgsPlaced(args: seq<NativeCpuHeader.ArgDesc>, infos: seq<LocalArgInfo>,
                                           pool: nat, n: U64, tid: U64, k: nat)
    requires IndicesInRange(infos, |args|) && k < |infos|
    requires forall k1, k2 :: 0 <= k1 < k2 < |infos| ==> infos[k1].argIndex != infos[k2].argIndex
    ensures LocalArgsFold(args, infos, pool, n, tid)[infos[k].argIndex].ptr
            == pool + SlotOffset(infos, k, n, tid)
    decreases |infos|
  {
    var last := |infos| - 1;
    if k < last {
      var init := infos[..last];
      LocalArgsPlaced(args, init, pool, n, tid, k);
      assert init[..k] == infos[..k];
    }
  }

  /** `ur_kernel_handle_t_`. */
  class KernelHandle {
    const name: string               // _name
    const subhandler: nat            // _subhandler, an opaque task identity
    var args: seq<NativeCpuHeader.ArgDesc>     // _args
    var localArgInfo: seq<LocalArgInfo>        // _localArgInfo
    var localMemPool: nat            // _localMemPool, 0 for null
    var localMemPoolSize: U64        // _localMemPoolSize

    /** The constructor keeps name and subhandler; no arguments, no local
        arguments, a null pool of size 0. */
    constructor (kernelName: string, task: nat)
      ensures name == kernelName && subhandler == task
      ensures args == [] && localArgInfo == []
      ensures localMemPool == 0 && localMemPoolSize == 0
    {
      name := kernelName;
      subhandler := task;
      args := [];
      localArgInfo := [];
      localMemPool := 0;
      localMemPoolSize := 0;
    }

    /** `updateMemPool`: sums `argSize * n` over the local arguments; when
        the sum is 0 or already the pool size nothing changes, otherwise the
        pool becomes `reallocated` (what `realloc` returns) with that size. */
    method UpdateMemPool(n: U64, reallocated: nat)
      modifies this
      ensures args == old(args) && localArgInfo == old(localArgInfo)
      ensures var req := ReqSize(localArgInfo, n);
              if req == 0 || req == old(localMemPoolSize)
              then localMemPool == old(localMemPool) && localMemPoolSize == old(localMemPoolSize)
              else localMemPool == reallocated && localMemPoolSize == req
    {
      var reqSize: U64 := 0;
      for i := 0 to |localArgInfo|
        invariant reqSize == ReqSize(localArgInfo[..i], n)
      {
        assert localArgInfo[..i + 1][..i] == localArgInfo[..i];
        reqSize := AddU64(reqSize, MulU64(localArgInfo[i].argSize, n));
      }
      assert localArgInfo[..|localArgInfo|] == localArgInfo;
      if reqSize == 0 || reqSize == localMemPoolSize {
        return;
      }
      localMemPool := reallocated;
      localMemPoolSize := reqSize;
    }

    /** `handleLocalArgs`: walks the local arguments with a running offset
        and points each named argument at its thread's slot in the pool. */
    method HandleLocalArgs(n: U64, tid: U64)
      requires IndicesInRange(localArgInfo, |args|)
      modifies this
      ensures localArgInfo == old(localArgInfo)
      ensures args == LocalArgsFold(old(args), localArgInfo, localMemPool, n, tid)
      ensures localMemPool == old(localMemPool) && localMemPoolSize == old(localMemPoolSize)
    {
      var offset: U64 := 0;
      ghost var args0 := args;
      var infos := localArgInfo;
      for i := 0 to |infos|
        invariant localArgInfo == infos
        invariant localMemPool == old(localMemPool) && localMemPoolSize == old(localMemPoolSize)
        invariant offset == ReqSize(infos[..i], n)
        invariant IndicesInRange(infos[..i], |args0|)
        invariant args == LocalArgsFold(args0, infos[..i], localMemPool, n, tid)
      {
        var entry := infos[i];
        assert infos[..i + 1][..i] == infos[..i];
        args := args[entry.argIndex := NativeCpuHeader.ArgDesc(localMemPool + offset + MulU64(entry.argSize, tid))];
        offset := AddU64(offset, MulU64(entry.argSize, n));
      }
      assert infos[..|infos|] == infos;
    }
  }

  /** Once the pool has been sized for `n` threads, every slot `handleLocalArgs`
      hands out for a thread below `n` lies inside the pool. */
  lemma SizedPoolHoldsSlots(h: KernelHandle, n: U64, k: nat, tid: U64)
    requires h.localMemPoolSize == ReqSize(h.localArgInfo, n)
    requires k < |h.localArgInfo| && tid < n && PoolNeed(h.localArgInfo, n) < TWO_POW_64
    ensures h.localMemPool <= h.localMemPool + SlotOffset(h.localArgInfo, k, n, tid)
    ensures h.localMemPool + SlotOffset(h.localArgInfo, k, n, tid) + h.localArgInfo[k].argSize
            <= h.localMemPool + h.localMemPoolSize
  {
    SlotInPool(h.localArgInfo, n, k, tid);
  }
}
