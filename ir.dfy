/** An abstract view of the LLVM module the passes work on: functions with
    their signature, calling convention, attributes and the two pieces of
    kernel metadata the helper-header emitters read. */
module Ir {
  import opened Common

  datatype CallingConv = SpirKernel | CCallConv | OtherConv(id: nat)

  /** Only pointer-ness matters to the passes; the rest is carried along. */
  datatype IrType = PointerTo(pointee: string) | ScalarType(name: string) | VoidType

  /** Operands of a metadata node: a `ConstantAsMetadata` wrapping a
      `ConstantInt` or another constant, an `MDString`, or anything else. */
  datatype MDOperand = ConstIntMD(value: int) | ConstOtherMD | StringMD(text: string) | OtherMD

  datatype Function = Function(
    name: string,
    cc: CallingConv,
    linkage: nat,
    retType: IrType,
    params: seq<IrType>,
    isVarArg: bool,
    attrs: set<string>,
    isDecl: bool,
    omitArgs: Option<seq<MDOperand>>,   // `sycl_kernel_omit_args`
    argTypes: Option<seq<MDOperand>>)   // `kernel_arg_type`

  /** The `PreservedAnalyses` a pass returns. */
  datatype Preserved = AllPreserved | NonePreserved

  predicate IsKernel(f: Function) { f.cc == SpirKernel }

  /** The `SPIR_KERNEL` functions of a module, in module order. */
  function Kernels(fs: seq<Function>): seq<Function>
    decreases |fs|
  {
    if |fs| == 0 then []
    else Kernels(fs[..|fs| - 1]) + (if IsKernel(fs[|fs| - 1]) then [fs[|fs| - 1]] else [])
  }

  /** `Kernels` keeps exactly the kernels: each listed function is a kernel of
      the module, and each kernel of the module is listed. */
  lemma {:induction false} KernelsExact(fs: seq<Function>)
    ensures forall g :: g in Kernels(fs) ==> g in fs && IsKernel(g)
    ensures forall g :: g in fs && IsKernel(g) ==> g in Kernels(fs)
    decreases |fs|
  {
    if |fs| > 0 {
      var init := fs[..|fs| - 1];
      KernelsExact(init);
      assert fs == init + [fs[|fs| - 1]];
    }
  }

  /** Selecting kernels distributes over concatenation of modules. */
  lemma {:induction false} KernelsAppend(a: seq<Function>, b: seq<Function>)
    ensures Kernels(a + b) == Kernels(a) + Kernels(b)
    decreases |b|
  {
    if |b| == 0 {
      assert a + b == a;
    } else {
      var init := b[..|b| - 1];
      assert (a + b)[..|a + b| - 1] == a + init;
      KernelsAppend(a, init);
    }
  }

  /** A module without kernels has an empty kernel list. */
  lemma {:induction false} KernelsNone(fs: seq<Function>)
    requires forall i :: 0 <= i < |fs| ==> !IsKernel(fs[i])
    ensures Kernels(fs) == []
    decreases |fs|
  {
    if |fs| > 0 {
      KernelsNone(fs[..|fs| - 1]);
    }
  }
}
