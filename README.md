# SYCL Native CPU and host compilation, modelled in Dafny

This project models the pieces of the SYCL Native CPU / host-compilation flow
that turn a device module into something a CPU can call, and the small runtime
structures those pieces rely on:

- **The helper-header emitters** (`EmitSYCLNativeCPUHeader`, `EmitSYCLHCHeader`).
  For every `SPIR_KERNEL` function they write two things:
  - an `extern "C"` declaration;
  - a `subhandler` that unpacks type-erased argument descriptors and calls the kernel.

  The two passes differ only in the descriptor class, the include line and how an empty
  file name stops them. Both are one method family parametrised by a `Flavour`
  (`helper_header.dfy`, with the metadata readers in `arg_metadata.dfy`).
- **The preparation passes** (`PrepareSYCLNativeCPU`, `PrepareSYCLHostCompilation`).
  They append a state-pointer parameter to every kernel. Then they rewrite each read of
  the `__spirv_BuiltInGlobalInvocationId` global into a call
  `get_global_id(index, state)`, erase the rewritten instructions and the global, and
  reset the kernels' calling convention.
  - The module is a class `PreparePass.IrModule` whose methods update its fields in place.
  - Each method is proved against the value-level specification `PreparePass.Prepare`
    and the rewriting functions of `BuiltinRewrite`.
  - The two passes are one method parametrised by a `PrepareFlavour`: state type,
    accessor, early return, how a missing state type is reported, and the sense of the
    returned `PreservedAnalyses`.
- **The device execution state** `__nativecpu_state`: a class over seven 3-element
  `size_t` arrays (`nativecpu_utils.dfy`).
- **The host-side `nativecpu_state`**, the `get_global_id` accessor, `getPtr` and the
  `is_native_cpu` trait (`native_cpu_header.dfy`).
- **The adapter's kernel handle**, whose local-memory pool is sized by `updateMemPool`
  and carved up per argument and per thread by `handleLocalArgs` (`kernel_pool.dfy`).
- **The host-compilation argument conversion** (`host_compilation.dfy`) and the
  driver's choice of header name (`header_name.dfy`).

How things are represented:
- LLVM IR is abstracted to what the passes read or change (`ir.dfy`, `builtin_ir.dfy`):
  - functions are records of name, calling convention, parameter types, attributes and
    metadata;
  - the instructions of the module form one table, in which an instruction names its
    enclosing function and values refer to instructions by table index.
- `size_t` arithmetic is written out modulo 2^64. In the declaration loop the mask
  bound `argMask.size() - 1` is a `size_t` and wraps modulo 2^64, while the parameter
  bound `NumParams - 1` is an `unsigned` and wraps modulo 2^32.
- Assertions, `report_fatal_error`, `exit(1)` and `llvm_unreachable` become `Err`
  results.

## Model

Paths abbreviated below:
- NC-prepare = `llvm/lib/SYCLLowerIR/PrepareSYCLNativeCPU.cpp`
- HC-prepare = `llvm/lib/SYCLLowerIR/PrepareSYCLHostCompilation.cpp`
- NC-emit = `llvm/lib/SYCLLowerIR/EmitSYCLNativeCPUHeader.cpp`
- HC-emit = `llvm/lib/SYCLLowerIR/EmitSYCLHCHeader.cpp`

The table cells always give the full path.

| member | source | states |
|---|---|---|
| ArgMetadata.GetArgMask | llvm/lib/SYCLLowerIR/EmitSYCLNativeCPUHeader.cpp:73-95 | the loop computes the mask specification; without `sycl_kernel_omit_args` the mask is all-true with one entry per parameter |
| ArgMetadata.SurvivalFlagsSpec | llvm/lib/SYCLLowerIR/EmitSYCLNativeCPUHeader.cpp:84-94 | the mask exists iff every operand is a constant integer; entry i is "operand i is zero" (the operand is negated); the first non-constant operand decides the error |
| ArgMetadata.PrefixErrorPersists | llvm/lib/SYCLLowerIR/EmitSYCLNativeCPUHeader.cpp:85-93 | an assertion failing on an operand prefix fails the whole mask with that error |
| ArgMetadata.GetArgTypeNames | llvm/lib/SYCLLowerIR/EmitSYCLNativeCPUHeader.cpp:97-110 | the loop computes the type-name specification; a kernel without `kernel_arg_type` fails the required-metadata assertion |
| ArgMetadata.TypeNamesSpec | llvm/lib/SYCLLowerIR/EmitSYCLNativeCPUHeader.cpp:102-108 | the names exist iff every operand is a metadata string, and are then the operands' strings in operand order |
| ArgMetadata.TypeNamesPrefixErrorPersists | llvm/lib/SYCLLowerIR/EmitSYCLNativeCPUHeader.cpp:103-108 | a non-string operand in a prefix fails the whole list |
| HelperHeader.DeclStop | llvm/lib/SYCLLowerIR/EmitSYCLNativeCPUHeader.cpp:126 | the declaration loop stops no later than `argMask.size() - 1` |
| HelperHeader.EmitKernelDecl | llvm/lib/SYCLLowerIR/EmitSYCLNativeCPUHeader.cpp:112-139 | the loop writes `DeclText`: the header `extern "C" void NAME(`, the declared parameters, then `);`; the host-compilation flavour (`EmitSYCLHCHeader.cpp` lines 107-134) writes the same declaration |
| HelperHeader.DeclStopAtExit | llvm/lib/SYCLLowerIR/EmitSYCLNativeCPUHeader.cpp:125-131 | where both loop conditions fail (the mask bound `argMask.size() - 1` modulo 2^64, the parameter bound `NumParams - 1` modulo 2^32), the index equals `DeclStop` |
| HelperHeader.DeclParamsAtStop | llvm/lib/SYCLLowerIR/EmitSYCLNativeCPUHeader.cpp:133-138 | nothing emitted gives an empty list (`NAME();`); otherwise the list continues with the parameter at the stop index and `_hc_state *` |
| HelperHeader.DeclTextOf | llvm/lib/SYCLLowerIR/EmitSYCLNativeCPUHeader.cpp:123-138 | the declaration text is the header, the parameters joined by `, `, and `);\n`; an error in the list is the error of the text |
| HelperHeader.DeclTextWithState | llvm/lib/SYCLLowerIR/EmitSYCLNativeCPUHeader.cpp:129-138 | with parameters, the text ends with `<last>, _hc_state *);\n` |
| HelperHeader.DeclArgsLength | llvm/lib/SYCLLowerIR/EmitSYCLNativeCPUHeader.cpp:115-131 | one declaration per emitted position; the only failure is an out-of-range type-name index |
| HelperHeader.DeclArgError | llvm/lib/SYCLLowerIR/EmitSYCLNativeCPUHeader.cpp:115-120 | `EmitArgDecl` fails only by an out-of-range type-name index |
| HelperHeader.DeclArgsError | llvm/lib/SYCLLowerIR/EmitSYCLNativeCPUHeader.cpp:126-131 | a declaration failing in a prefix fails the whole parameter list |
| HelperHeader.DeclStopBeyond | llvm/lib/SYCLLowerIR/EmitSYCLNativeCPUHeader.cpp:126-131 | each surviving position below both bounds is emitted, in increasing order |
| HelperHeader.DeclOutOfParams | llvm/lib/SYCLLowerIR/EmitSYCLNativeCPUHeader.cpp:122-131 | a kernel with no parameters whose mask keeps a position before the last makes the declaration fail |
| HelperHeader.DeclEmitError | llvm/lib/SYCLLowerIR/EmitSYCLNativeCPUHeader.cpp:126-131 | a declaration failing at the loop's current position fails the whole declaration |
| HelperHeader.EmitSubKernelHandler | llvm/lib/SYCLLowerIR/EmitSYCLNativeCPUHeader.cpp:141-186 | the subhandler text is `HandlerText`; the recorded `usedArgIdx` are the unpacked positions; the host-compilation flavour (`EmitSYCLHCHeader.cpp` lines 136-181) does the same over `HostCompilationArgDesc` |
| HelperHeader.EmitUnpacks | llvm/lib/SYCLLowerIR/EmitSYCLNativeCPUHeader.cpp:164-172 | the unpacking loop emits one statement per unpacked position and records exactly those positions |
| HelperHeader.EmitCall | llvm/lib/SYCLLowerIR/EmitSYCLNativeCPUHeader.cpp:173-185 | the call is `NAME();` with nothing unpacked, else `NAME(argI, ..., argJ, state);` |
| HelperHeader.CallTextLast | llvm/lib/SYCLLowerIR/EmitSYCLNativeCPUHeader.cpp:178-183 | the call ends with the last unpacked variable followed by `state` |
| HelperHeader.HandlerPositionsAtExit | llvm/lib/SYCLLowerIR/EmitSYCLNativeCPUHeader.cpp:165-167 | at loop exit the recorded positions are `HandlerPositions` |
| HelperHeader.HandlerPositionsPrefix | llvm/lib/SYCLLowerIR/EmitSYCLNativeCPUHeader.cpp:165-172 | positions recorded so far are a prefix of the final ones |
| HelperHeader.HandlerPositionsSpec | llvm/lib/SYCLLowerIR/EmitSYCLNativeCPUHeader.cpp:165-172 | the subhandler unpacks the first min(surviving, parameters) surviving positions, strictly increasing, each one surviving, and every surviving position met while parameters remain |
| HelperHeader.UnpacksSpec | llvm/lib/SYCLLowerIR/EmitSYCLNativeCPUHeader.cpp:145-159 | unpacking succeeds iff every position unpacks; then one statement per position, in order |
| HelperHeader.UnpacksError | llvm/lib/SYCLLowerIR/EmitSYCLNativeCPUHeader.cpp:164-172 | a failure in a prefix fails the whole unpacking |
| HelperHeader.UnpacksSnoc | llvm/lib/SYCLLowerIR/EmitSYCLNativeCPUHeader.cpp:168-171 | one more position extends both the statement list and the text |
| HelperHeader.UnpackError | llvm/lib/SYCLLowerIR/EmitSYCLNativeCPUHeader.cpp:154-169 | a scalar whose type-name index is out of range fails the subhandler |
| HelperHeader.UnpackTextOf | llvm/lib/SYCLLowerIR/EmitSYCLNativeCPUHeader.cpp:145-172 | the unpack text is the rendering of the unpacked statements |
| HelperHeader.CallPassesUnpacked | llvm/lib/SYCLLowerIR/EmitSYCLNativeCPUHeader.cpp:174-184 | the call passes exactly the unpacked variables in unpacking order, then `state` |
| HelperHeader.DeclArgsMatchUnpacks | llvm/lib/SYCLLowerIR/EmitSYCLNativeCPUHeader.cpp:115-159 | declaring and unpacking a parameter agree on its C type (`void *` for pointers, the type name for scalars) |
| HelperHeader.DeclStopAfterSurvivor | llvm/lib/SYCLLowerIR/EmitSYCLNativeCPUHeader.cpp:125-131 | for p >= 2 parameters and at least p survivors, the declaration loop stops just after the (p-1)-th survivor, having declared exactly the first p-1 survivors |
| HelperHeader.DeclParamsWellFormed | llvm/lib/SYCLLowerIR/EmitSYCLNativeCPUHeader.cpp:112-139 | for a kernel as the emitter meets it, one parameter per survivor and at least two: the declaration as written equals the corrected one iff the first declarations fail or typing the last parameter at the index after the next-to-last survivor gives the same text as at the last survivor; in particular whenever the last parameter is a pointer or the last two survivors are adjacent |
| HelperHeader.OneSurvivorDeclaredEmpty | llvm/lib/SYCLLowerIR/EmitSYCLNativeCPUHeader.cpp:122-138 | with exactly one survivor and one parameter the declaration is `NAME();`, the call passes two arguments, and the declaration never equals the corrected one |
| HelperHeader.NoSurvivorDecl | llvm/lib/SYCLLowerIR/EmitSYCLNativeCPUHeader.cpp:122-136 | with no survivor and no parameter the corrected declaration is `NAME();`; the one as written agrees for a non-empty mask, and for an empty mask its `size() - 1` wraps and the loop reads past the mask |
| HelperHeader.DeclArityCounterexample | llvm/lib/SYCLLowerIR/EmitSYCLNativeCPUHeader.cpp:112-184 | for `K(int *)` with mask `[true, false]` the declaration is `extern "C" void K();` while the subhandler calls `K(arg0, state)` and the corrected declaration is `(void *, _hc_state *)` |
| HelperHeader.OneSurvivorPositions | llvm/lib/SYCLLowerIR/EmitSYCLNativeCPUHeader.cpp:125-167 | for mask `[true, false]` and one parameter the declaration loop stops at index 0 having declared nothing, while the unpacking loop handles position 0 |
| HelperHeader.DeclSingleArgCounterexample | llvm/lib/SYCLLowerIR/EmitSYCLNativeCPUHeader.cpp:112-184 | for `K(int *)` with mask `[true]` the declaration is `extern "C" void K();` while the subhandler calls `K(arg0, state)` |
| HelperHeader.DeclTypeCounterexample | llvm/lib/SYCLLowerIR/EmitSYCLNativeCPUHeader.cpp:112-172 | for `K(int *, float, int)` with mask `[true, true, false, true]` and type names `int*, float, double, int` the last parameter is declared `double`, the omitted argument's type, while the subhandler unpacks it as `int` |
| HelperHeader.IntendedDeclMatchesCall | llvm/lib/SYCLLowerIR/EmitSYCLNativeCPUHeader.cpp:112-184 | the corrected declaration succeeds whenever unpacking does; it has one parameter per call argument, and each parameter's type is its unpacked variable's type |
| HelperHeader.CollectKernels | llvm/lib/SYCLLowerIR/EmitSYCLNativeCPUHeader.cpp:193-197 | the collected functions are the module's `SPIR_KERNEL` functions in module order |
| HelperHeader.EmitKernelSection | llvm/lib/SYCLLowerIR/EmitSYCLNativeCPUHeader.cpp:213-218 | one kernel's section is its declaration followed by its subhandler |
| HelperHeader.EmitKernelSections | llvm/lib/SYCLLowerIR/EmitSYCLNativeCPUHeader.cpp:213-218 | the loop concatenates the sections in kernel order; the first failing kernel stops it |
| HelperHeader.EmitHeader | llvm/lib/SYCLLowerIR/EmitSYCLNativeCPUHeader.cpp:190-221 | the header is `HeaderText`; an empty file name is a fatal error (exit status 1 in the host-compilation flavour, `EmitSYCLHCHeader.cpp` lines 185-223); the pass always reports no analysis preserved |
| HelperHeader.KernelSectionsError | llvm/lib/SYCLLowerIR/EmitSYCLNativeCPUHeader.cpp:213-218 | a kernel that fails stops the header with its error |
| HelperHeader.KernelSectionsAppend | llvm/lib/SYCLLowerIR/EmitSYCLNativeCPUHeader.cpp:213-218 | the sections of two kernel lists are the concatenation of their sections |
| HelperHeader.KernelSectionsSnoc | llvm/lib/SYCLLowerIR/EmitSYCLNativeCPUHeader.cpp:213-218 | one more kernel appends its section |
| HelperHeader.KernelSectionsStep | llvm/lib/SYCLLowerIR/EmitSYCLNativeCPUHeader.cpp:213-218 | the sections up to kernel i+1 extend those up to kernel i, or stop at its error |
| HelperHeader.HeaderIgnoresNonKernels | llvm/lib/SYCLLowerIR/EmitSYCLNativeCPUHeader.cpp:193-218 | adding a non-kernel function leaves the header unchanged; the header starts with the prelude |
| HelperHeader.HeaderAppendKernel | llvm/lib/SYCLLowerIR/EmitSYCLNativeCPUHeader.cpp:193-218 | appending a kernel to the module appends its section to the header |
| Ir.KernelsExact | llvm/lib/SYCLLowerIR/PrepareSYCLNativeCPU.cpp:92-96 | the collected kernels are exactly the module's `SPIR_KERNEL` functions |
| Ir.KernelsAppend | llvm/lib/SYCLLowerIR/PrepareSYCLNativeCPU.cpp:93-96 | the kernels are collected in module order |
| Ir.KernelsNone | llvm/lib/SYCLLowerIR/PrepareSYCLNativeCPU.cpp:92-98 | a module without `SPIR_KERNEL` functions yields an empty kernel list |
| KernelSignature.AddArg | llvm/lib/SYCLLowerIR/PrepareSYCLNativeCPU.cpp:43-71 | the new function keeps name, return type, variadic flag, linkage and attributes, has the old parameters followed by the state type, and takes the body, calling convention and metadata only from a definition |
| KernelSignature.FixCallingConv | llvm/lib/SYCLLowerIR/PrepareSYCLNativeCPU.cpp:38-42 | C calling convention, no attributes, everything else kept |
| KernelSignature.MapAddArg | llvm/lib/SYCLLowerIR/PrepareSYCLNativeCPU.cpp:110-116 | every kernel, in order, gets the state parameter |
| KernelSignature.MapFixCallingConv | llvm/lib/SYCLLowerIR/PrepareSYCLNativeCPU.cpp:200-202 | every new kernel, in order, gets the C calling convention |
| KernelSignature.KernelsSplit | llvm/lib/SYCLLowerIR/PrepareSYCLNativeCPU.cpp:92-96 | the kernels and non-kernels partition the module's functions, and their names |
| KernelSignature.KernelsUniqueNames | llvm/lib/SYCLLowerIR/PrepareSYCLNativeCPU.cpp:92-96 | kernels of a module with unique names have unique names |
| KernelSignature.KernelNamesSpec | llvm/lib/SYCLLowerIR/PrepareSYCLNativeCPU.cpp:92-96 | in a module with unique names, a function's name is a kernel name iff it is a kernel |
| KernelSignature.WithoutKernelNames | llvm/lib/SYCLLowerIR/PrepareSYCLNativeCPU.cpp:110-116 | erasing every kernel by name leaves exactly the non-kernels |
| KernelSignature.ExtendPrefix | llvm/lib/SYCLLowerIR/PrepareSYCLNativeCPU.cpp:110-116 | after i loop steps the module is the untouched functions followed by the first i rebuilt kernels |
| KernelSignature.ExtendStep | llvm/lib/SYCLLowerIR/PrepareSYCLNativeCPU.cpp:111-113 | one step (create at end, take name, erase old) extends that shape by one kernel |
| KernelSignature.ExtendAllKernels | llvm/lib/SYCLLowerIR/PrepareSYCLNativeCPU.cpp:110-116 | after the loop the module holds the non-kernels, then the rebuilt kernels |
| BuiltinIr.UsersOf | llvm/lib/SYCLLowerIR/PrepareSYCLNativeCPU.cpp:125 | the use list of a value is exactly the instructions that use it, without repetition, in table order |
| BuiltinIr.UsersOfUnused | llvm/lib/SYCLLowerIR/PrepareSYCLNativeCPU.cpp:130-134 | a value no instruction uses has an empty use list |
| BuiltinIr.ReplaceInOp | llvm/lib/SYCLLowerIR/PrepareSYCLNativeCPU.cpp:147 | replacement acts operand by operand |
| BuiltinIr.ReplaceUses | llvm/lib/SYCLLowerIR/PrepareSYCLNativeCPU.cpp:147 | `replaceAllUsesWith` keeps the table's length and each instruction's function |
| BuiltinIr.ReplaceUsesSpec | llvm/lib/SYCLLowerIR/PrepareSYCLNativeCPU.cpp:147-185 | after replacement the old value has no users, every former user uses the new value, and all other operands are unchanged |
| BuiltinIr.MarkErased | llvm/lib/SYCLLowerIR/PrepareSYCLNativeCPU.cpp:194-196 | exactly the queued instructions are erased; the others are kept |
| BuiltinRewrite.FindFunction | llvm/lib/SYCLLowerIR/PrepareSYCLNativeCPU.cpp:76-80 | a found function has the name; nothing is found iff no function has the name |
| BuiltinRewrite.StateArg | llvm/lib/SYCLLowerIR/PrepareSYCLNativeCPU.cpp:82-85 | the state is the enclosing function's last parameter, with that parameter's type; a function without parameters or an unknown function fails |
| BuiltinRewrite.AppendCall | llvm/lib/SYCLLowerIR/PrepareSYCLNativeCPU.cpp:144-149 | one call is added, the replaced instruction is queued for deletion and the module is marked changed |
| BuiltinRewrite.AppendCallShape | llvm/lib/SYCLLowerIR/PrepareSYCLNativeCPU.cpp:144-146 | the new instruction calls the accessor with the index and the state, in the replaced instruction's function |
| BuiltinRewrite.AppendCallRedirects | llvm/lib/SYCLLowerIR/PrepareSYCLNativeCPU.cpp:147 | the replaced instruction keeps no users, and its former users now use the call |
| BuiltinRewrite.AppendCallAdvances | llvm/lib/SYCLLowerIR/PrepareSYCLNativeCPU.cpp:144-149 | adding the call only grows the table and the deletion queue |
| BuiltinRewrite.RewriteExtract | llvm/lib/SYCLLowerIR/PrepareSYCLNativeCPU.cpp:134-150 | a successful extract rewrite only grows the table and the deletion queue |
| BuiltinRewrite.ExtractsFold | llvm/lib/SYCLLowerIR/PrepareSYCLNativeCPU.cpp:134-150 | the loop over a load's extracts only grows the table and the queue |
| BuiltinRewrite.RewriteLoad | llvm/lib/SYCLLowerIR/PrepareSYCLNativeCPU.cpp:126-163 | a rewritten load is queued for deletion |
| BuiltinRewrite.GepUserStep | llvm/lib/SYCLLowerIR/PrepareSYCLNativeCPU.cpp:171-188 | a load through the GEP is queued for deletion |
| BuiltinRewrite.GepUsersFold | llvm/lib/SYCLLowerIR/PrepareSYCLNativeCPU.cpp:171-188 | the loop over the GEP's users only grows the table and the queue; what it computes is stated by `GepUsersFoldShape` and `GepUsersFoldRedirects` |
| BuiltinRewrite.LoadsAmongSpec | llvm/lib/SYCLLowerIR/PrepareSYCLNativeCPU.cpp:171-188 | the loads the GEP loop replaces are exactly the loads among its users, in use order |
| BuiltinRewrite.GepUsersFoldShape | llvm/lib/SYCLLowerIR/PrepareSYCLNativeCPU.cpp:171-188 | after the loop, the k-th load among the GEP's users has the k-th new instruction: a call of the accessor with the GEP's second index (when that index is not an instruction) and the state argument of the load's function; the loads are queued in use order |
| BuiltinRewrite.GepUsersFoldRedirects | llvm/lib/SYCLLowerIR/PrepareSYCLNativeCPU.cpp:171-188 | after the loop, every old instruction keeps its function and operand count; an operand that named one of those loads names that load's call, and every other operand is unchanged |
| BuiltinRewrite.RewriteGep | llvm/lib/SYCLLowerIR/PrepareSYCLNativeCPU.cpp:164-189 | a GEP with other than two indices fails its assertion; what a successful rewrite computes is stated by `RewriteGepShape` |
| BuiltinRewrite.RewriteGepShape | llvm/lib/SYCLLowerIR/PrepareSYCLNativeCPU.cpp:164-189 | a successful GEP rewrite had two indices; each load of the GEP is among the rewritten loads, gets its own accessor call with `indices[1]` (when that index is not an instruction) and the enclosing function's state, is queued, and its former users now use that call |
| BuiltinRewrite.RewriteUse | llvm/lib/SYCLLowerIR/PrepareSYCLNativeCPU.cpp:125-192 | a use that is neither a load nor a GEP is unsupported |
| BuiltinRewrite.UsesFold | llvm/lib/SYCLLowerIR/PrepareSYCLNativeCPU.cpp:125-193 | the loop over the global's uses only grows the table and the queue |
| BuiltinRewrite.Materialize | llvm/lib/SYCLLowerIR/PrepareSYCLNativeCPU.cpp:118-198 | an absent global leaves everything unchanged; a present one without the accessor function fails |
| BuiltinRewrite.LoadWithoutUsers | llvm/lib/SYCLLowerIR/PrepareSYCLNativeCPU.cpp:130-151 | a load without users counts as an extract pattern (`all_of` on nothing); only the load is queued |
| BuiltinRewrite.PlainLoadShape | llvm/lib/SYCLLowerIR/PrepareSYCLNativeCPU.cpp:152-163 | a load with a non-extract user becomes `get_global_id(0, state)`, its users are redirected and it is queued |
| BuiltinRewrite.ExtractStepShape | llvm/lib/SYCLLowerIR/PrepareSYCLNativeCPU.cpp:142-149 | one extract becomes an accessor call, in the load's function, with its index and that function's state, and is queued |
| BuiltinRewrite.ExtractsFoldShape | llvm/lib/SYCLLowerIR/PrepareSYCLNativeCPU.cpp:134-150 | the k-th extract of a load gets the k-th new call, and the extracts are queued in use order |
| BuiltinRewrite.ExtractLoadShape | llvm/lib/SYCLLowerIR/PrepareSYCLNativeCPU.cpp:133-151 | a load used only by extracts gets one call per extract; the extracts are queued, then the load |
| BuiltinRewrite.GepUserShape | llvm/lib/SYCLLowerIR/PrepareSYCLNativeCPU.cpp:171-188 | the four outcomes for a GEP user: a dead non-load is skipped, a non-load with uses fails, a wrong state type fails, and a load becomes `get_global_id(index, state)` |
| BuiltinRewrite.GepUsersFoldQueues | llvm/lib/SYCLLowerIR/PrepareSYCLNativeCPU.cpp:171-188 | every load through the GEP is queued |
| BuiltinRewrite.RewriteGepQueues | llvm/lib/SYCLLowerIR/PrepareSYCLNativeCPU.cpp:164-189 | after a GEP rewrite every load of that GEP is queued |
| BuiltinRewrite.UsesFoldHandles | llvm/lib/SYCLLowerIR/PrepareSYCLNativeCPU.cpp:125-193 | every use of the global is handled: a direct load is queued, and every load through a GEP is queued |
| BuiltinRewrite.ReadersQueued | llvm/lib/SYCLLowerIR/PrepareSYCLNativeCPU.cpp:125-196 | after a successful rewrite, every load of the global, directly or through a GEP, is in the deletion queue |
| BuiltinRewrite.MaterializeSpec | llvm/lib/SYCLLowerIR/PrepareSYCLNativeCPU.cpp:118-198 | the global is gone and no live instruction reads it; old instructions are erased or evolved; new ones are accessor calls passing the last parameter of their own function; changed iff calls were added |
| PreparePass.ResultOf | llvm/lib/SYCLLowerIR/PrepareSYCLNativeCPU.cpp:204 | Native CPU: nothing is preserved exactly when the module changed; host compilation (`PrepareSYCLHostCompilation.cpp` line 234): everything is preserved exactly when the module changed (the test is reversed) |
| PreparePass.IrModule.CollectKernels | llvm/lib/SYCLLowerIR/PrepareSYCLNativeCPU.cpp:92-96 | the kernels are collected in module order, and a function is collected iff it is a kernel |
| PreparePass.IrModule.NewKernel | llvm/lib/SYCLLowerIR/PrepareSYCLNativeCPU.cpp:43-71 | the copying loop builds `AddArg` of the old function |
| PreparePass.IrModule.ExtendKernels | llvm/lib/SYCLLowerIR/PrepareSYCLNativeCPU.cpp:110-116 | after the loop the function list is each kernel erased and re-created at the end with the state parameter; nothing else changes |
| PreparePass.IrModule.FixNewKernels | llvm/lib/SYCLLowerIR/PrepareSYCLNativeCPU.cpp:200-202 | the last n functions get the C calling convention; the rest is unchanged |
| PreparePass.IrModule.InsertCall | llvm/lib/SYCLLowerIR/PrepareSYCLNativeCPU.cpp:144-147 | the instruction table becomes the `AppendCall` result |
| PreparePass.IrModule.RewriteExtractAt | llvm/lib/SYCLLowerIR/PrepareSYCLNativeCPU.cpp:134-150 | the in-place rewrite of one extract matches `RewriteExtract`, success and error alike |
| PreparePass.IrModule.RewriteExtractsAt | llvm/lib/SYCLLowerIR/PrepareSYCLNativeCPU.cpp:133-151 | the loop over a load's extract users matches `ExtractsFold`, success and error alike |
| PreparePass.IrModule.RewriteLoadAt | llvm/lib/SYCLLowerIR/PrepareSYCLNativeCPU.cpp:126-163 | the in-place rewrite of one load, extract loop included, matches `RewriteLoad` |
| PreparePass.IrModule.RewriteGepUserAt | llvm/lib/SYCLLowerIR/PrepareSYCLNativeCPU.cpp:172-187 | the in-place rewrite of one GEP user matches `GepUserStep` |
| PreparePass.IrModule.RewriteGepAt | llvm/lib/SYCLLowerIR/PrepareSYCLNativeCPU.cpp:164-189 | the in-place rewrite of one GEP and its users matches `RewriteGep` |
| PreparePass.IrModule.RewriteUseAt | llvm/lib/SYCLLowerIR/PrepareSYCLNativeCPU.cpp:125-192 | the in-place rewrite of one use matches `RewriteUse` |
| PreparePass.IrModule.EraseQueued | llvm/lib/SYCLLowerIR/PrepareSYCLNativeCPU.cpp:194-196 | the queued instructions are erased and nothing else |
| PreparePass.IrModule.RewriteUses | llvm/lib/SYCLLowerIR/PrepareSYCLNativeCPU.cpp:125-193 | the loop over the global's uses matches `UsesFold` |
| PreparePass.IrModule.MaterializeBuiltin | llvm/lib/SYCLLowerIR/PrepareSYCLNativeCPU.cpp:118-198 | materialising the builtin in place matches `Materialize` and leaves the function list alone |
| PreparePass.IrModule.Run | llvm/lib/SYCLLowerIR/PrepareSYCLNativeCPU.cpp:89-205 | the pass leaves the module equal to `Prepare`'s result and returns its analyses, or fails exactly when `Prepare` fails; likewise for the host-compilation pass (`PrepareSYCLHostCompilation.cpp` lines 122-235: no early return, the state type checked by assertion) |
| PreparePass.NoKernelsUnchanged | llvm/lib/SYCLLowerIR/PrepareSYCLNativeCPU.cpp:97-98 | a module without kernels is returned unchanged with all analyses preserved |
| PreparePass.MissingStateFails | llvm/lib/SYCLLowerIR/PrepareSYCLNativeCPU.cpp:103-107 | a module with kernels but without the state struct type fails with the pass's message, in both flavours (the host-compilation assertion is `PrepareSYCLHostCompilation.cpp` lines 134-135) |
| PreparePass.PrepareFunctions | llvm/lib/SYCLLowerIR/PrepareSYCLNativeCPU.cpp:110-116 | the resulting functions are the non-kernels, then each kernel with the state parameter and the C calling convention |
| PreparePass.RebuiltKernels | llvm/lib/SYCLLowerIR/PrepareSYCLNativeCPU.cpp:38-71 | each rebuilt kernel keeps its name and parameters, adds the state, and is no longer a `SPIR_KERNEL` |
| PreparePass.RebuiltModule | llvm/lib/SYCLLowerIR/PrepareSYCLNativeCPU.cpp:110-116 | the function count and names are unchanged; non-kernels keep their order; kernels follow, rebuilt |
| PreparePass.ConcatPositions | llvm/lib/SYCLLowerIR/PrepareSYCLNativeCPU.cpp:110-116 | the non-kernels come first, then the rebuilt kernels, and none of them is a kernel |
| PreparePass.PrepareSignatures | llvm/lib/SYCLLowerIR/PrepareSYCLNativeCPU.cpp:110-116 | after the pass: same number of functions and names, non-kernels first and unchanged, every kernel rebuilt, no `SPIR_KERNEL` left |
| PreparePass.FindFunctionSignatures | llvm/lib/SYCLLowerIR/PrepareSYCLNativeCPU.cpp:76-80 | the lookup depends only on names and parameter lists |
| PreparePass.StateArgSignatures | llvm/lib/SYCLLowerIR/PrepareSYCLNativeCPU.cpp:82-85 | the state argument depends only on names and parameter lists, so the calling-convention fix cannot change it |
| PreparePass.PrepareBuiltin | llvm/lib/SYCLLowerIR/PrepareSYCLNativeCPU.cpp:118-198 | after the pass the builtin global is gone and no live instruction reads it; old instructions are erased or keep their shape; every new instruction calls the accessor with an index and the last parameter of the function the call is in (a kernel or any other function) |
| PreparePass.PrepareAnalyses | llvm/lib/SYCLLowerIR/PrepareSYCLNativeCPU.cpp:204 | Native CPU: nothing is preserved iff the module had a kernel or a builtin read was rewritten; host compilation (`PrepareSYCLHostCompilation.cpp` line 234): everything is preserved iff the same condition holds |
| NativeCpuUtils.GlobalIdOf | libdevice/nativecpu_utils.cpp:60-65 | the global id is `size * group + local + offset` when that fits in 64 bits, and congruent to it modulo 2^64 in any case |
| NativeCpuUtils.GlobalIdInRange | libdevice/nativecpu_utils.cpp:35-65 | a group id below `range / size` and a local id below `size` give a global id in `[offset, offset + range)`, computed without wrap-around |
| NativeCpuUtils.State.constructor | libdevice/nativecpu_utils.cpp:30-50 | ranges, sizes and offsets as given, group counts by integer division, all ids 0, subgroups 32/0/0/1 |
| NativeCpuUtils.State.Update | libdevice/nativecpu_utils.cpp:52-66 | the new group and local ids; each global id is recomputed from them; ranges, sizes, counts and offsets unchanged |
| NativeCpuUtils.State.UpdateGroup | libdevice/nativecpu_utils.cpp:68-72 | only the group ids change; local and global ids keep their values |
| NativeCpuUtils.UpdatedIdsInRange | libdevice/nativecpu_utils.cpp:52-66 | after `update` with in-range ids, each global id lies in `[offset, offset + range)` |
| NativeCpuHeader.GetPtr | sycl/include/sycl/detail/native_cpu.hpp:29-35 | the stored pointer is returned unchanged |
| NativeCpuHeader.IsNativeCpu | sycl/include/sycl/detail/native_cpu.hpp:43-53 | true only when the record has the member, and then equal to it; true whenever the member is true; false for a missing or false member |
| NativeCpuHeader.NativeCpuState.constructor | sycl/include/sycl/detail/native_cpu.hpp:59-66 | the three global ids start at 0 |
| NativeCpuHeader.GetGlobalId | sycl/include/sycl/detail/native_cpu.hpp:73-76 | reads the n-th global id, for n below 3, and changes nothing |
| NativeCpuHeader.FreshStateReadsZero | sycl/include/sycl/detail/native_cpu.hpp:59-76 | on a freshly constructed record the accessor reads 0 in every dimension |
| KernelPool.MulU64 | sycl/plugins/unified_runtime/ur/adapters/native_cpu/kernel.hpp:42 | `size_t` product: exact without overflow, congruent modulo 2^64 |
| KernelPool.AddU64 | sycl/plugins/unified_runtime/ur/adapters/native_cpu/kernel.hpp:42 | `size_t` sum: exact without overflow, congruent modulo 2^64 |
| KernelPool.ReqSizeIsNeedModulo | sycl/plugins/unified_runtime/ur/adapters/native_cpu/kernel.hpp:38-43 | the accumulated `reqSize` is the exact sum of `argSize * n` reduced modulo 2^64 |
| KernelPool.PoolNeedPrefix | sycl/plugins/unified_runtime/ur/adapters/native_cpu/kernel.hpp:41-43 | the need of the first entries never exceeds the total need |
| KernelPool.ReqSizeExact | sycl/plugins/unified_runtime/ur/adapters/native_cpu/kernel.hpp:38-61 | without overflow of the total, each running offset is the exact sum |
| KernelPool.NeedStep | sycl/plugins/unified_runtime/ur/adapters/native_cpu/kernel.hpp:60 | the offset advances by `argSize * n` per local argument |
| KernelPool.SlotInPool | sycl/plugins/unified_runtime/ur/adapters/native_cpu/kernel.hpp:38-61 | with the same `n` for sizing and placement, no overflow and `threadId < n`, each slot `[offset, offset + argSize)` lies inside the `reqSize` bytes |
| KernelPool.SlotsDisjoint | sycl/plugins/unified_runtime/ur/adapters/native_cpu/kernel.hpp:53-61 | slots of distinct (argument, thread) pairs do not overlap |
| KernelPool.SlotsOrdered | sycl/plugins/unified_runtime/ur/adapters/native_cpu/kernel.hpp:57-58 | for one argument, a lower thread's slot ends before a higher thread's starts |
| KernelPool.ArgumentsOrdered | sycl/plugins/unified_runtime/ur/adapters/native_cpu/kernel.hpp:56-61 | every slot of an earlier argument ends before any slot of a later argument starts |
| KernelPool.LocalArgsFold | sycl/plugins/unified_runtime/ur/adapters/native_cpu/kernel.hpp:56-58 | the argument count is kept, and arguments no local entry names keep their descriptors |
| KernelPool.LocalArgsPlaced | sycl/plugins/unified_runtime/ur/adapters/native_cpu/kernel.hpp:56-61 | when no argument is named twice, local argument k points at `pool + offset_k + argSize_k * threadId` |
| KernelPool.KernelHandle.constructor | sycl/plugins/unified_runtime/ur/adapters/native_cpu/kernel.hpp:29-35 | name and subhandler as given; no arguments, no local arguments, null pool of size 0 |
| KernelPool.KernelHandle.UpdateMemPool | sycl/plugins/unified_runtime/ur/adapters/native_cpu/kernel.hpp:38-50 | `reqSize` is the running `size_t` sum; nothing changes when it is 0 or the current size; otherwise the pool is reallocated to that size |
| KernelPool.KernelHandle.HandleLocalArgs | sycl/plugins/unified_runtime/ur/adapters/native_cpu/kernel.hpp:53-62 | the loop leaves the arguments equal to `LocalArgsFold`; the local-argument list and the pool are unchanged |
| KernelPool.SizedPoolHoldsSlots | sycl/plugins/unified_runtime/ur/adapters/native_cpu/kernel.hpp:38-62 | once the pool is sized for `n` threads, every slot handed to a thread below `n` lies inside the pool |
| HostCompilation.DescriptorOf | sycl/source/host_compilation.cpp:10-16 | an accessor argument yields its accessor's `MData`; any other keeps `MPtr` |
| HostCompilation.ProcessArgs | sycl/source/host_compilation.cpp:10-25 | one descriptor per argument, element i built from argument i; without accessors the subhandler receives exactly the argument pointers |
| HeaderName.NativeCpuHeaderName | clang/include/clang/Basic/SYCLNativeCPUHelpers.h:4-9 | a non-empty option is returned unchanged, otherwise the integration header plus `.hc`; never empty |
| HeaderName.FallbackShape | clang/include/clang/Basic/SYCLNativeCPUHelpers.h:6-7 | in the fallback the integration header name is a prefix and `.hc` the suffix |
| HeaderName.NameIsFixpoint | clang/include/clang/Basic/SYCLNativeCPUHelpers.h:4-9 | feeding the computed name back as the option yields the same name |

## Left out

- Writing the header file and `llvm::errs()` output are I/O. So are the debug prints of the
  host-compilation pass before erasure. The header is a returned string.
- An error from opening the file is not modelled.
- Legacy pass wrappers, `INITIALIZE_PASS` and the `create…LegacyPass` factories are
  registration plumbing.
- `llvm/lib/SYCLLowerIR/PipelineSYCLNativeCPU.cpp` is pass-manager assembly, so it is
  not part of this model.
- LLVM IR is abstracted:
  - `CloneFunctionInto` is "the body is kept, with the old parameters mapped in place";
  - the insertion point of new calls within a block is not modelled, and new calls are
    appended to the instruction table;
  - a use list is visited as a snapshot in table order, not LLVM's use-list order.
- `BuiltinNamesMap` has one entry, so one global is materialised.
- Once a pass fails an assertion, the model says nothing more about the module: it returns
  the error and leaves the module state unspecified.
- In the host-compilation pass the missing-state check is an `assert`, modelled as the
  error in builds where assertions are enabled.
- GEP instructions that use the builtin are not themselves erased. They only lose their
  loads, as in the source.
- `BuiltinRewrite.RewriteExtract`: the call for an extract is placed in the function of
  the load, whose last parameter it passes. The source inserts it before the extract. In
  well-formed IR the extract and the load it uses are in the same function, so the two
  agree. The model does not track which function an operand was defined in.
- `BuiltinRewrite.RewriteExtract`: the extract's index is passed to the call as it is. An
  index that is itself a rewritten instruction is not tracked through the redirection.
- `BuiltinRewrite.GepUsersFoldShape` and `BuiltinRewrite.RewriteGepShape`: the call's
  first argument is stated to be the GEP's second index only when that index is not an
  instruction. An index that is itself a rewritten instruction may be redirected by a
  later replacement, and that is not tracked.
- `PreparePass.PrepareAnalyses`: states the host-compilation pass's result as written
  (reversed relative to the Native CPU pass). It is not treated as a defect.
- The subgroup builtins of `libdevice/nativecpu_utils.cpp` forward to foreign `__mux_*`
  functions, so they are not part of this model.
- `NativeCpuUtils.State.constructor` requires non-zero work-group sizes. A zero size is
  undefined behaviour in the source's division.
- `realloc` is a parameter of `KernelPool.KernelHandle.UpdateMemPool`. Addresses are
  naturals.
- `free`, the destructor and `RefCounted` are not modelled, because they manage memory.
- `KernelPool.KernelHandle.HandleLocalArgs` requires every local argument index to be
  below the argument count. The source indexes the vector unchecked.
- `KernelPool.SlotInPool` and `KernelPool.SlotsDisjoint` assume the total need fits in
  64 bits. With wrap-around the source's slots can overlap.
- `NativeCPUTask`, `HCTask`, `setHostCompilationImpl`, device and queue thread pools are
  wrappers or concurrency, and are not modelled.
- `HostCompilation.DescriptorOf` models the accessor object as a map from its address to
  its `MData`.

## Findings

| source | as written | input that shows it | evidently intended | confidence | as-written member | corrected member |
|---|---|---|---|---|---|---|
| llvm/lib/SYCLLowerIR/EmitSYCLNativeCPUHeader.cpp:122-138 | the declaration loop stops after the next-to-last surviving argument; with one survivor it declares nothing and writes `NAME();` | kernel `K(int *)` whose mask is `[true, false]` or `[true]`: declared `K();` while the subhandler calls `K(arg0, state)` | one declared parameter per unpacked argument, then `_hc_state *`; the header test `clang/test/SemaSYCL/host_compilation/kernelhandler.cpp` (lines 33-36) expects `extern "C" void _Z5Test1(void *, _hc_state*)` for a kernel with one surviving pointer argument | not executed | HelperHeader.DeclArityCounterexample | HelperHeader.IntendedDeclMatchesCall |
| llvm/lib/SYCLLowerIR/EmitSYCLNativeCPUHeader.cpp:133-138 | the last parameter is typed with `ArgTypeNames[I]`, where `I` is the index after the next-to-last survivor rather than the last survivor | kernel `K(int *, float, int)` with mask `[true, true, false, true]` and type names `int*, float, double, int`: declared `(void *, float, double, _hc_state *)` while the subhandler unpacks `int arg3` | each parameter declared with the type it is unpacked as | not executed | HelperHeader.DeclTypeCounterexample | HelperHeader.IntendedDeclMatchesCall |
