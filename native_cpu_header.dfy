/** The Native CPU declarations the host and device share: the kernel
    argument descriptor, the `is_native_cpu` trait on kernel-info records,
    the host-visible `nativecpu_state` record and the `get_global_id`
    accessor the preparation pass redirects built-in reads to. */
module NativeCpuHeader {
  import opened Common

  /** `NativeCPUArgDesc`: one kernel argument as an address (0 is null). */
  datatype ArgDesc = ArgDesc(ptr: nat)

  /** `getPtr` hands back the stored pointer unchanged. */
  function GetPtr(d: ArgDesc): (p: nat)
    ensures ArgDesc(p) == d
  {
    d.ptr
  }

  /** A kernel-info record as the trait sees it: either it has no
      `is_native_cpu` member, or it has one with a compile-time value. */
  datatype KernelInfo = KernelInfo(isNativeCpuMember: Option<bool>)

  /** `is_native_cpu<T>::value`: the partial specialisation is enabled only
      when `T::is_native_cpu` exists and is true, and then yields that
      member's value; every other record falls back to `false`. */
  function IsNativeCpu(info: KernelInfo): (r: bool)
    ensures r ==> info.isNativeCpuMember.Some? && r == info.isNativeCpuMember.value
    ensures info.isNativeCpuMember == Some(true) ==> r
    ensures info.isNativeCpuMember != Some(true) ==> !r
  {
    match info.isNativeCpuMember
    case Some(b) => if b then b else false
    case None => false
  }

  /** The mangled name of `get_global_id(size_t, nativecpu_state *)`, the
      device function the preparation pass calls in place of built-in reads. */
  const GetGlobalIdName: string := "_Z13get_global_idmP15nativecpu_state"

  /** `nativecpu_state`: the host-side record whose first field holds the
      three global ids. */
  class NativeCpuState {
    const globalId: array<U64>   // MGlobal_id

    /** The default constructor zeroes the three global ids. */
    constructor ()
      ensures globalId.Length == 3 && globalId[..] == [0, 0, 0]
      ensures fresh(globalId)
    {
      globalId := new U64[3] [0, 0, 0];
    }
  }

  /** `_Z13get_global_idmP15nativecpu_state(n, s)`: reads `s->MGlobal_id[n]`
      and changes nothing; an index of 3 or more is out of bounds. */
  function GetGlobalId(n: U64, s: NativeCpuState): (r: U64)
    requires n < s.globalId.Length
    reads s.globalId
    ensures r == s.globalId[n]
  {
    s.globalId[n]
  }

  /** On a freshly constructed record every dimension reads as 0. */
  lemma FreshStateReadsZero(s: NativeCpuState, n: U64)
    requires s.globalId[..] == [0, 0, 0] && n < 3
    ensures GetGlobalId(n, s) == 0
  {
    assert s.globalId[n] == s.globalId[..][n];
  }
}
