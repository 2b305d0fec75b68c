/** The host-compilation runtime's conversion of kernel argument
    descriptors into the flat pointer records the generated subhandler
    reads. */
module HostCompilation {
  /** `kernel_param_kind_t`. */
  datatype ParamKind =
    | KindAccessor
    | KindStdLayout
    | KindSampler
    | KindPointer
    | KindSpecConstantsBuffer
    | KindStream
    | KindInvalid

  /** `ArgDesc`: the kind and the pointer of one argument (addresses are
      naturals, 0 is null). */
  datatype ArgDesc = ArgDesc(kind: ParamKind, ptr: nat)

  /** `HostCompilationArgDesc`: the pointer the subhandler receives. */
  datatype HcArgDesc = HcArgDesc(ptr: nat)

  /** The host accessor objects reachable from accessor arguments: the
      address of an `AccessorImplHost` maps to its `MData`. */
  type AccessorHeap = map<nat, nat>

  /** An accessor argument must point at a host accessor object. */
  predicate Resolvable(arg: ArgDesc, heap: AccessorHeap)
  {
    arg.kind.KindAccessor? ==> arg.ptr in heap
  }

  /** The `HostCompilationArgDesc` constructor: an accessor argument is
      replaced by its accessor's data pointer, any other argument keeps its
      pointer. */
  function DescriptorOf(arg: ArgDesc, heap: AccessorHeap): (d: HcArgDesc)
    requires Resolvable(arg, heap)
    ensures arg.kind == KindAccessor ==> d.ptr == heap[arg.ptr]
    ensures arg.kind != KindAccessor ==> d.ptr == arg.ptr
  {
    if arg.kind == KindAccessor then HcArgDesc(heap[arg.ptr]) else HcArgDesc(arg.ptr)
  }

  /** `processArgsForHostCompilation`: one descriptor per argument, in the
      arguments' order; without accessors the subhandler receives exactly
      the argument pointers. */
  method ProcessArgs(args: seq<ArgDesc>, heap: AccessorHeap) returns (res: seq<HcArgDesc>)
    requires forall i :: 0 <= i < |args| ==> Resolvable(args[i], heap)
    ensures |res| == |args|
    ensures forall i :: 0 <= i < |args| ==> res[i] == DescriptorOf(args[i], heap)
    ensures (forall i :: 0 <= i < |args| ==> args[i].kind != KindAccessor) ==>
              forall i :: 0 <= i < |args| ==> res[i].ptr == args[i].ptr
  {
    res := [];
    for i := 0 to |args|
      invariant |res| == i
      invariant forall j :: 0 <= j < i ==> res[j] == DescriptorOf(args[j], heap)
    {
      res := res + [DescriptorOf(args[i], heap)];
    }
  }
}
