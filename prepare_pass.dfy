/** `PrepareSYCLNativeCPUPass::run` and `PrepareSYCLHostCompilationPass::run`:
    the kernel signatures are extended with a trailing state pointer, the
    builtin global is materialised as accessor calls, and the rebuilt kernels
    get the C calling convention. The two passes differ only in the values
    gathered in `PrepareFlavour`. */
module PreparePass {
  import opened Common
  import opened Ir
  import opened BuiltinIr
  import opened BuiltinRewrite
  import opened KernelSignature
  import NativeCpuHeader

  /** What distinguishes the two passes. */
  datatype PrepareFlavour = PrepareFlavour(
    stateStruct: string,          // the state struct type looked up by name
    accessor: string,             // the `BuiltinNamesMap` target
    earlyReturn: bool,            // return at once when there is no kernel
    missingStateMessage: string,  // the fatal error or assertion text
    invertedResult: bool)         // `ModuleChanged ? all() : none()`

  /** The single key of `BuiltinNamesMap`. */
  const BuiltinGlobal: string := "__spirv_BuiltInGlobalInvocationId"

  const NativeCpuPrepare: PrepareFlavour := PrepareFlavour(
    "struct.nativecpu_state",
    NativeCpuHeader.GetGlobalIdName,
    true,
    "Couldn't find the Native CPU state in the module, make sure that -D __SYCL_NATIVE_CPU__ is set",
    false)

  const HostCompilationPrepare: PrepareFlavour := PrepareFlavour(
    "struct._hc_state",
    "_Z16hc_get_global_idmP9_hc_state",
    false,
    "Couldn't find the host compilation state in the module, make sure that -D __SYCL_HOST_COMPILATION__ is set",
    true)

  /** The parts of an LLVM module the passes read or change. */
  datatype ModuleValue = ModuleValue(
    functions: seq<Function>,
    globals: set<string>,
    structTypes: set<string>,
    insts: seq<Instr>)

  /** The `PreservedAnalyses` returned for a given `ModuleChanged`. */
  function ResultOf(fl: PrepareFlavour, changed: bool): (p: Preserved)
    ensures !fl.invertedResult ==> (p == NonePreserved <==> changed)
    ensures fl.invertedResult ==> (p == AllPreserved <==> changed)
  {
    if changed != fl.invertedResult then NonePreserved else AllPreserved
  }

  /** What a successful run produces, as a value: the non-kernels in module
      order followed by the rebuilt kernels in theirs, the builtin
      materialised against that function list, and the analyses result. */
  function Prepare(fl: PrepareFlavour, m: ModuleValue): Result<(ModuleValue, Preserved), PrepareError>
  {
    var ks := Kernels(m.functions);
    if fl.earlyReturn && |ks| == 0 then Ok((m, AllPreserved))
    else if fl.stateStruct !in m.structTypes then Err(MissingStateType(fl.missingStateMessage))
    else
      var statePtr := PointerTo(fl.stateStruct);
      var extended := NonKernels(m.functions) + MapAddArg(ks, statePtr);
      var mat := Materialize(Ctx(extended, fl.accessor, statePtr), BuiltinGlobal, m.globals, m.insts);
      if mat.Err? then Err(mat.error)
      else
        var fs := NonKernels(m.functions) + MapFixCallingConv(MapAddArg(ks, statePtr));
        Ok((ModuleValue(fs, mat.value.globals, m.structTypes, mat.value.t),
            ResultOf(fl, |ks| > 0 || mat.value.changed)))
  }

  /** The rewriting state the use loop carries besides the module: the
      `toDelete` list and `ModuleChanged`. */
  datatype Progress = Progress(toDelete: seq<nat>, changed: bool)

  // ------------------------------------------- errors persist along a fold

  lemma {:induction false} ExtractsFoldErrPersists(ctx: Ctx, st: Rw, es: seq<nat>, sa: StateArgument, k: nat)
    requires k <= |es| && forall j :: 0 <= j < |es| ==> es[j] < |st.t|
    requires LastParam(ctx.fs, sa.v)
    requires ExtractsFold(ctx, st, es[..k], sa).Err?
    ensures ExtractsFold(ctx, st, es, sa) == ExtractsFold(ctx, st, es[..k], sa)
    decreases |es| - k
  {
    if k < |es| {
      assert es[..k + 1][..k] == es[..k];
      ExtractsFoldErrPersists(ctx, st, es, sa, k + 1);
    } else {
      assert es[..k] == es;
    }
  }

  lemma {:induction false} GepUsersFoldErrPersists(ctx: Ctx, st: Rw, index: Value, xs: seq<nat>, k: nat)
    requires k <= |xs| && forall j :: 0 <= j < |xs| ==> xs[j] < |st.t|
    requires GepUsersFold(ctx, st, index, xs[..k]).Err?
    ensures GepUsersFold(ctx, st, index, xs) == GepUsersFold(ctx, st, index, xs[..k])
    decreases |xs| - k
  {
    if k < |xs| {
      assert xs[..k + 1][..k] == xs[..k];
      GepUsersFoldErrPersists(ctx, st, index, xs, k + 1);
    } else {
      assert xs[..k] == xs;
    }
  }

  lemma {:induction false} UsesFoldErrPersists(ctx: Ctx, st: Rw, us: seq<nat>, k: nat)
    requires k <= |us| && forall j :: 0 <= j < |us| ==> us[j] < |st.t|
    requires UsesFold(ctx, st, us[..k]).Err?
    ensures UsesFold(ctx, st, us) == UsesFold(ctx, st, us[..k])
    decreases |us| - k
  {
    if k < |us| {
      assert us[..k + 1][..k] == us[..k];
      UsesFoldErrPersists(ctx, st, us, k + 1);
    } else {
      assert us[..k] == us;
    }
  }

  lemma ExtractsFoldSnoc(ctx: Ctx, st: Rw, es: seq<nat>, i: nat, sa: StateArgument)
    requires i < |es| && forall j :: 0 <= j < |es| ==> es[j] < |st.t|
    requires LastParam(ctx.fs, sa.v)
    requires ExtractsFold(ctx, st, es[..i], sa).Ok?
    ensures es[i] < |ExtractsFold(ctx, st, es[..i], sa).value.t|
    ensures ExtractsFold(ctx, st, es[..i + 1], sa) ==
            RewriteExtract(ctx, ExtractsFold(ctx, st, es[..i], sa).value, es[i], sa)
  {
    assert es[..i + 1][..i] == es[..i];
  }

  lemma GepUsersFoldSnoc(ctx: Ctx, st: Rw, index: Value, xs: seq<nat>, i: nat)
    requires i < |xs| && forall j :: 0 <= j < |xs| ==> xs[j] < |st.t|
    requires GepUsersFold(ctx, st, index, xs[..i]).Ok?
    ensures xs[i] < |GepUsersFold(ctx, st, index, xs[..i]).value.t|
    ensures GepUsersFold(ctx, st, index, xs[..i + 1]) ==
            GepUserStep(ctx, GepUsersFold(ctx, st, index, xs[..i]).value, index, xs[i])
  {
    assert xs[..i + 1][..i] == xs[..i];
  }

  lemma UsesFoldSnoc(ctx: Ctx, st: Rw, us: seq<nat>, i: nat)
    requires i < |us| && forall j :: 0 <= j < |us| ==> us[j] < |st.t|
    requires UsesFold(ctx, st, us[..i]).Ok?
    ensures us[i] < |UsesFold(ctx, st, us[..i]).value.t|
    ensures UsesFold(ctx, st, us[..i + 1]) == RewriteUse(ctx, UsesFold(ctx, st, us[..i]).value, us[i])
  {
    assert us[..i + 1][..i] == us[..i];
  }

  /** Everything queued from an empty queue lies inside the table. */
  lemma QueuedInRange(ctx: Ctx, a: Rw, b: Rw)
    requires a.toDelete == [] && Advances(ctx, a, b)
    ensures forall k :: 0 <= k < |b.toDelete| ==> b.toDelete[k] < |b.t|
  {
    forall k | 0 <= k < |b.toDelete|
      ensures b.toDelete[k] < |b.t|
    {
      assert b.toDelete[k] in b.toDelete;
    }
  }

  // ------------------------------------------------------------ the module

  class IrModule {
    var functions: seq<Function>
    var globals: set<string>
    var structTypes: set<string>
    var insts: seq<Instr>

    constructor (fs: seq<Function>, gs: set<string>, ss: set<string>, t: seq<Instr>)
      ensures functions == fs && globals == gs && structTypes == ss && insts == t
    {
      functions := fs;
      globals := gs;
      structTypes := ss;
      insts := t;
    }

    function Value(): ModuleValue
      reads this
    {
      ModuleValue(functions, globals, structTypes, insts)
    }

    /** The first loop of `run`: the `SPIR_KERNEL` functions in module order. */
    method CollectKernels() returns (ks: seq<Function>)
      ensures ks == Kernels(functions)
      ensures forall g :: g in ks <==> g in functions && IsKernel(g)
    {
      ks := [];
      var i := 0;
      while i < |functions|
        invariant 0 <= i <= |functions|
        invariant ks == Kernels(functions[..i])
      {
        assert functions[..i + 1][..i] == functions[..i];
        if functions[i].cc == SpirKernel {
          ks := ks + [functions[i]];
        }
        i := i + 1;
      }
      assert functions[..i] == functions;
      KernelsExact(functions);
    }

    /** `addArg`: the parameter types are copied one by one and `t` is
        appended; a definition has its body, calling convention and metadata
        cloned. */
    static method NewKernel(oldF: Function, t: IrType) returns (newF: Function)
      ensures newF == AddArg(oldF, t)
    {
      var args: seq<IrType> := [];
      var i := 0;
      while i < |oldF.params|
        invariant 0 <= i <= |oldF.params|
        invariant args == oldF.params[..i]
      {
        args := args + [oldF.params[i]];
        i := i + 1;
      }
      assert args == oldF.params;
      args := args + [t];
      newF := Function(oldF.name, CCallConv, oldF.linkage, oldF.retType, args, oldF.isVarArg,
                       oldF.attrs, oldF.isDecl, None, None);
      if !oldF.isDecl {
        newF := newF.(cc := oldF.cc, isDecl := false, omitArgs := oldF.omitArgs, argTypes := oldF.argTypes);
      }
    }

    /** The kernel loop: each rebuilt kernel is appended, takes the old name,
        and the old function is erased. */
    method ExtendKernels(ks: seq<Function>, t: IrType)
      modifies this
      ensures functions == ExtendAll(old(functions), ks, t)
      ensures globals == old(globals) && structTypes == old(structTypes) && insts == old(insts)
    {
      ghost var fs0 := functions;
      var i := 0;
      while i < |ks|
        invariant 0 <= i <= |ks|
        invariant functions == ExtendAll(fs0, ks[..i], t)
        invariant globals == old(globals) && structTypes == old(structTypes) && insts == old(insts)
      {
        assert ks[..i + 1][..i] == ks[..i];
        var newF := NewKernel(ks[i], t);
        functions := WithoutNames(functions, {ks[i].name}) + [newF];
        i := i + 1;
      }
      assert ks[..i] == ks;
    }

    /** The last loop of `run`: `fixCallingConv` on each of the `n` rebuilt
        kernels, which are the last `n` functions of the module. */
    method FixNewKernels(n: nat)
      requires n <= |functions|
      modifies this
      ensures |functions| == |old(functions)|
      ensures functions == old(functions)[..|functions| - n] +
                           MapFixCallingConv(old(functions)[|functions| - n..])
      ensures globals == old(globals) && structTypes == old(structTypes) && insts == old(insts)
    {
      var start := |functions| - n;
      var i := start;
      while i < |functions|
        invariant start <= i <= |functions| == |old(functions)|
        invariant functions[..start] == old(functions)[..start]
        invariant forall j :: start <= j < i ==> functions[j] == FixCallingConv(old(functions)[j])
        invariant functions[i..] == old(functions)[i..]
        invariant globals == old(globals) && structTypes == old(structTypes) && insts == old(insts)
      {
        assert functions[i] == old(functions)[i];
        functions := functions[i := FixCallingConv(functions[i])];
        i := i + 1;
      }
      var expected := old(functions)[..start] + MapFixCallingConv(old(functions)[start..]);
      forall j | 0 <= j < |functions|
        ensures functions[j] == expected[j]
      {
        if j < start {
          assert functions[j] == functions[..start][j];
        }
      }
    }

    /** `CallInst::Create(accessor, {index, state})` followed by
        `replaced->replaceAllUsesWith(call)`. */
    method InsertCall(ctx: Ctx, fn: string, index: Value, state: Value, replaced: nat)
      modifies this
      ensures insts == AppendCall(ctx, Rw(old(insts), [], false), fn, index, state, replaced).t
      ensures functions == old(functions) && globals == old(globals) && structTypes == old(structTypes)
    {
      var call := Instr(fn, Call(ctx.accessor, [index, state]));
      insts := ReplaceUses(insts + [call], InstV(replaced), InstV(|insts|));
    }

    /** One extract user `e` of a builtin load: `call accessor(index, state)`
        takes over the extract's uses and the extract is queued. */
    method RewriteExtractAt(ctx: Ctx, e: nat, sa: StateArgument, p: Progress) returns (r: Result<Progress, PrepareError>)
      requires ctx.fs == functions && e < |insts| && LastParam(ctx.fs, sa.v)
      modifies this
      ensures functions == old(functions) && globals == old(globals) && structTypes == old(structTypes)
      ensures var spec := RewriteExtract(ctx, Rw(old(insts), p.toDelete, p.changed), e, sa);
              (r.Ok? ==> spec == Ok(Rw(insts, r.value.toDelete, r.value.changed))) &&
              (r.Err? ==> spec == Err(r.error))
    {
      if !insts[e].op.Extract? {
        return Err(NotAnExtract);
      }
      if sa.ty != ctx.statePtr {
        return Err(StateTypeMismatch);
      }
      InsertCall(ctx, sa.v.fn, insts[e].op.index, sa.v, e);
      return Ok(Progress(p.toDelete + [e], true));
    }

    /** The loop over a builtin load's extract users. */
    method RewriteExtractsAt(ctx: Ctx, es: seq<nat>, sa: StateArgument, p: Progress) returns (r: Result<Progress, PrepareError>)
      requires ctx.fs == functions && LastParam(ctx.fs, sa.v)
      requires forall k :: 0 <= k < |es| ==> es[k] < |insts|
      modifies this
      ensures functions == old(functions) && globals == old(globals) && structTypes == old(structTypes)
      ensures var spec := ExtractsFold(ctx, Rw(old(insts), p.toDelete, p.changed), es, sa);
              (r.Ok? ==> spec == Ok(Rw(insts, r.value.toDelete, r.value.changed))) &&
              (r.Err? ==> spec == Err(r.error))
    {
      ghost var st := Rw(insts, p.toDelete, p.changed);
      var cur := p;
      var i := 0;
      while i < |es|
        invariant 0 <= i <= |es|
        invariant functions == old(functions) && globals == old(globals) && structTypes == old(structTypes)
        invariant ExtractsFold(ctx, st, es[..i], sa) == Ok(Rw(insts, cur.toDelete, cur.changed))
      {
        var step := RewriteExtractStep(ctx, st, es, i, sa, cur);
        if step.Err? {
          return Err(step.error);
        }
        cur := step.value;
        i := i + 1;
      }
      assert es[..i] == es;
      return Ok(cur);
    }

    /** One turn of the extract loop, against the fold over the extracts so far. */
    method RewriteExtractStep(ctx: Ctx, ghost st: Rw, es: seq<nat>, i: nat, sa: StateArgument, cur: Progress)
      returns (r: Result<Progress, PrepareError>)
      requires ctx.fs == functions && LastParam(ctx.fs, sa.v)
      requires i < |es| && forall k :: 0 <= k < |es| ==> es[k] < |st.t|
      requires ExtractsFold(ctx, st, es[..i], sa) == Ok(Rw(insts, cur.toDelete, cur.changed))
      modifies this
      ensures functions == old(functions) && globals == old(globals) && structTypes == old(structTypes)
      ensures r.Ok? ==> ExtractsFold(ctx, st, es[..i + 1], sa) == Ok(Rw(insts, r.value.toDelete, r.value.changed))
      ensures r.Err? ==> ExtractsFold(ctx, st, es, sa) == Err(r.error)
    {
      ExtractsFoldSnoc(ctx, st, es, i, sa);
      r := RewriteExtractAt(ctx, es[i], sa, cur);
      if r.Err? {
        ExtractsFoldErrPersists(ctx, st, es, sa, i + 1);
      }
    }

    /** A load of the builtin (the `isa<LoadInst>` branch of the use loop). */
    method RewriteLoadAt(ctx: Ctx, u: nat, p: Progress) returns (r: Result<Progress, PrepareError>)
      requires ctx.fs == functions && u < |insts| && insts[u].op.Load?
      modifies this
      ensures functions == old(functions) && globals == old(globals) && structTypes == old(structTypes)
      ensures var spec := RewriteLoad(ctx, Rw(old(insts), p.toDelete, p.changed), u);
              (r.Ok? ==> spec == Ok(Rw(insts, r.value.toDelete, r.value.changed))) &&
              (r.Err? ==> spec == Err(r.error))
    {
      var sa := StateArg(functions, insts[u].fn);
      if sa.Err? {
        return Err(sa.error);
      }
      if AllExtracts(insts, u) {
        var done := RewriteExtractsAt(ctx, UsersOf(insts, InstV(u)), sa.value, p);
        if done.Err? {
          return Err(done.error);
        }
        return Ok(Progress(done.value.toDelete + [u], done.value.changed));
      } else {
        InsertCall(ctx, insts[u].fn, ConstI64(0), sa.value.v, u);
        return Ok(Progress(p.toDelete + [u], true));
      }
    }

    /** One user `x` of a builtin GEP: a load is replaced by
        `call accessor(index, state)`; any other user must be unused. */
    method RewriteGepUserAt(ctx: Ctx, index: Value, x: nat, p: Progress) returns (r: Result<Progress, PrepareError>)
      requires ctx.fs == functions && x < |insts|
      modifies this
      ensures functions == old(functions) && globals == old(globals) && structTypes == old(structTypes)
      ensures var spec := GepUserStep(ctx, Rw(old(insts), p.toDelete, p.changed), index, x);
              (r.Ok? ==> spec == Ok(Rw(insts, r.value.toDelete, r.value.changed))) &&
              (r.Err? ==> spec == Err(r.error))
    {
      if !insts[x].op.Load? {
        if |UsersOf(insts, InstV(x))| != 0 {
          return Err(GepUserHasUses);
        }
        return Ok(p);
      }
      var sa := StateArg(functions, insts[x].fn);
      if sa.Err? {
        return Err(sa.error);
      }
      if sa.value.ty != ctx.statePtr {
        return Err(StateTypeMismatch);
      }
      InsertCall(ctx, insts[x].fn, index, sa.value.v, x);
      return Ok(Progress(p.toDelete + [x], true));
    }

    /** A GEP of the builtin (the `isa<GEPOperator>` branch of the use loop). */
    method RewriteGepAt(ctx: Ctx, g: nat, p: Progress) returns (r: Result<Progress, PrepareError>)
      requires ctx.fs == functions && g < |insts| && insts[g].op.Gep?
      modifies this
      ensures functions == old(functions) && globals == old(globals) && structTypes == old(structTypes)
      ensures var spec := RewriteGep(ctx, Rw(old(insts), p.toDelete, p.changed), g);
              (r.Ok? ==> spec == Ok(Rw(insts, r.value.toDelete, r.value.changed))) &&
              (r.Err? ==> spec == Err(r.error))
    {
      ghost var st := Rw(insts, p.toDelete, p.changed);
      if |insts[g].op.indices| != 2 {
        return Err(GepIndexCount);
      }
      var index := insts[g].op.indices[1];
      var xs := UsersOf(insts, InstV(g));
      var cur := p;
      var i := 0;
      while i < |xs|
        invariant 0 <= i <= |xs|
        invariant functions == old(functions) && globals == old(globals) && structTypes == old(structTypes)
        invariant GepUsersFold(ctx, st, index, xs[..i]) == Ok(Rw(insts, cur.toDelete, cur.changed))
      {
        GepUsersFoldSnoc(ctx, st, index, xs, i);
        var step := RewriteGepUserAt(ctx, index, xs[i], cur);
        if step.Err? {
          GepUsersFoldErrPersists(ctx, st, index, xs, i + 1);
          return Err(step.error);
        }
        cur := step.value;
        i := i + 1;
      }
      assert xs[..i] == xs;
      return Ok(cur);
    }

    /** The classifier of the use loop. */
    method RewriteUseAt(ctx: Ctx, u: nat, p: Progress) returns (r: Result<Progress, PrepareError>)
      requires ctx.fs == functions && u < |insts|
      modifies this
      ensures functions == old(functions) && globals == old(globals) && structTypes == old(structTypes)
      ensures var spec := RewriteUse(ctx, Rw(old(insts), p.toDelete, p.changed), u);
              (r.Ok? ==> spec == Ok(Rw(insts, r.value.toDelete, r.value.changed))) &&
              (r.Err? ==> spec == Err(r.error))
    {
      if insts[u].op.Load? {
        r := RewriteLoadAt(ctx, u, p);
      } else if insts[u].op.Gep? {
        r := RewriteGepAt(ctx, u, p);
      } else {
        r := Err(UnsupportedUse);
      }
    }

    /** The deferred deletion: every queued instruction is erased. */
    method EraseQueued(toDelete: seq<nat>)
      requires forall k :: 0 <= k < |toDelete| ==> toDelete[k] < |insts|
      modifies this
      ensures insts == MarkErased(old(insts), toDelete)
      ensures functions == old(functions) && globals == old(globals) && structTypes == old(structTypes)
    {
      ghost var t0 := insts;
      var i := 0;
      while i < |toDelete|
        invariant 0 <= i <= |toDelete|
        invariant insts == MarkErased(t0, toDelete[..i])
        invariant functions == old(functions) && globals == old(globals) && structTypes == old(structTypes)
      {
        var d := toDelete[i];
        insts := insts[d := Instr(insts[d].fn, Erased)];
        assert toDelete[..i + 1] == toDelete[..i] + [d];
        i := i + 1;
      }
      assert toDelete[..i] == toDelete;
    }

    /** The loop over the uses of the builtin global, as listed before any
        rewriting. */
    method RewriteUses(ctx: Ctx, uses: seq<nat>) returns (r: Result<Progress, PrepareError>)
      requires ctx.fs == functions && forall k :: 0 <= k < |uses| ==> uses[k] < |insts|
      modifies this
      ensures functions == old(functions) && globals == old(globals) && structTypes == old(structTypes)
      ensures var spec := UsesFold(ctx, Rw(old(insts), [], false), uses);
              (r.Ok? ==> spec == Ok(Rw(insts, r.value.toDelete, r.value.changed))) &&
              (r.Err? ==> spec == Err(r.error))
    {
      ghost var t0 := insts;
      var cur := Progress([], false);
      var i := 0;
      while i < |uses|
        invariant 0 <= i <= |uses|
        invariant functions == old(functions) && globals == old(globals) && structTypes == old(structTypes)
        invariant UsesFold(ctx, Rw(t0, [], false), uses[..i]) == Ok(Rw(insts, cur.toDelete, cur.changed))
      {
        var step := RewriteUseStep(ctx, t0, uses, i, cur);
        if step.Err? {
          return Err(step.error);
        }
        cur := step.value;
        i := i + 1;
      }
      assert uses[..i] == uses;
      return Ok(cur);
    }

    /** One turn of the use loop, against the fold over the uses so far. */
    method RewriteUseStep(ctx: Ctx, ghost t0: seq<Instr>, uses: seq<nat>, i: nat, cur: Progress)
      returns (r: Result<Progress, PrepareError>)
      requires ctx.fs == functions && i < |uses| && forall k :: 0 <= k < |uses| ==> uses[k] < |t0|
      requires UsesFold(ctx, Rw(t0, [], false), uses[..i]) == Ok(Rw(insts, cur.toDelete, cur.changed))
      modifies this
      ensures functions == old(functions) && globals == old(globals) && structTypes == old(structTypes)
      ensures r.Ok? ==> UsesFold(ctx, Rw(t0, [], false), uses[..i + 1]) == Ok(Rw(insts, r.value.toDelete, r.value.changed))
      ensures r.Err? ==> UsesFold(ctx, Rw(t0, [], false), uses) == Err(r.error)
    {
      UsesFoldSnoc(ctx, Rw(t0, [], false), uses, i);
      r := RewriteUseAt(ctx, uses[i], cur);
      if r.Err? {
        UsesFoldErrPersists(ctx, Rw(t0, [], false), uses, i + 1);
      }
    }

    /** The loop over `BuiltinNamesMap` (one entry): find the global, rewrite
        each of its uses, erase the queued instructions, erase the global. */
    method MaterializeBuiltin(accessor: string, statePtr: IrType) returns (r: Result<bool, PrepareError>)
      modifies this
      ensures functions == old(functions) && structTypes == old(structTypes)
      ensures var spec := Materialize(Ctx(old(functions), accessor, statePtr), BuiltinGlobal, old(globals), old(insts));
              (r.Ok? ==> spec == Ok(Materialized(insts, globals, r.value))) &&
              (r.Err? ==> spec == Err(r.error))
    {
      var ctx := Ctx(functions, accessor, statePtr);
      if BuiltinGlobal !in globals {
        return Ok(false);
      }
      if FindFunction(functions, accessor).None? {
        return Err(MissingAccessor);
      }
      ghost var t0 := insts;
      var uses := UsersOf(insts, GlobalV(BuiltinGlobal));
      var done := RewriteUses(ctx, uses);
      if done.Err? {
        return Err(done.error);
      }
      QueuedInRange(ctx, Rw(t0, [], false), Rw(insts, done.value.toDelete, done.value.changed));
      EraseQueued(done.value.toDelete);
      globals := globals - {BuiltinGlobal};
      return Ok(done.value.changed);
    }

    /** `run`. The state left behind by an error is not specified. */
    method Run(fl: PrepareFlavour) returns (r: Result<Preserved, PrepareError>)
      requires UniqueNames(functions)
      modifies this
      ensures r.Ok? ==> Prepare(fl, old(Value())) == Ok((Value(), r.value))
      ensures r.Err? ==> Prepare(fl, old(Value())) == Err(r.error)
    {
      ghost var m0 := Value();
      var changed := false;
      var oldKernels := CollectKernels();
      if fl.earlyReturn && |oldKernels| == 0 {
        return Ok(AllPreserved);
      }
      if fl.stateStruct !in structTypes {
        return Err(MissingStateType(fl.missingStateMessage));
      }
      var statePtr := PointerTo(fl.stateStruct);
      ExtendKernels(oldKernels, statePtr);
      ExtendAllKernels(m0.functions, statePtr);
      changed := |oldKernels| > 0;
      ghost var extended := functions;
      var mat := MaterializeBuiltin(fl.accessor, statePtr);
      if mat.Err? {
        return Err(mat.error);
      }
      changed := changed || mat.value;
      FixNewKernels(|oldKernels|);
      assert extended[..|extended| - |oldKernels|] == NonKernels(m0.functions);
      assert extended[|extended| - |oldKernels|..] == MapAddArg(oldKernels, statePtr);
      return Ok(ResultOf(fl, changed));
    }
  }

  // ------------------------------------------------ what a run achieves

  /** The run gets past the early return of the Native CPU pass. */
  predicate Proceeds(fl: PrepareFlavour, m: ModuleValue)
  {
    !fl.earlyReturn || |Kernels(m.functions)| > 0
  }

  /** `k` rebuilt by `addArg` and then `fixCallingConv`. */
  predicate KernelRebuilt(k: Function, g: Function, t: IrType)
  {
    g.name == k.name && g.retType == k.retType && g.isVarArg == k.isVarArg &&
    g.linkage == k.linkage && g.params == k.params + [t] && g.isDecl == k.isDecl &&
    g.cc == CCallConv && g.attrs == {} &&
    (!k.isDecl ==> g.omitArgs == k.omitArgs && g.argTypes == k.argTypes)
  }

  /** Two function lists that agree, position by position, on names and
      parameter types. */
  predicate SameSignatures(xs: seq<Function>, ys: seq<Function>)
  {
    |xs| == |ys| &&
    forall i :: 0 <= i < |xs| ==> xs[i].name == ys[i].name && xs[i].params == ys[i].params
  }

  lemma {:induction false} FindFunctionSignatures(xs: seq<Function>, ys: seq<Function>, n: string)
    requires SameSignatures(xs, ys)
    ensures FindFunction(xs, n).Some? <==> FindFunction(ys, n).Some?
    ensures FindFunction(xs, n).Some? ==> FindFunction(xs, n).value.params == FindFunction(ys, n).value.params
    decreases |xs|
  {
    if |xs| > 0 && xs[0].name != n {
      FindFunctionSignatures(xs[1..], ys[1..], n);
    }
  }

  /** `getStateArg` only looks at names and parameter types. */
  lemma StateArgSignatures(xs: seq<Function>, ys: seq<Function>)
    requires SameSignatures(xs, ys)
    ensures forall n :: StateArg(xs, n) == StateArg(ys, n)
    ensures forall v :: LastParam(xs, v) <==> LastParam(ys, v)
  {
    forall n
      ensures StateArg(xs, n) == StateArg(ys, n)
    {
      FindFunctionSignatures(xs, ys, n);
    }
  }

  /** A module without `SPIR_KERNEL` functions is left as it is by the Native
      CPU pass, which reports all analyses preserved. */
  lemma NoKernelsUnchanged(m: ModuleValue)
    requires forall i :: 0 <= i < |m.functions| ==> !IsKernel(m.functions[i])
    ensures Prepare(NativeCpuPrepare, m) == Ok((m, AllPreserved))
  {
    KernelsNone(m.functions);
  }

  /** A run that gets past the early return needs the state struct type: the
      Native CPU pass reports a fatal error, the host compilation pass fails
      an assertion, each with its own message. This holds for the host
      compilation pass even without kernels. */
  lemma MissingStateFails(fl: PrepareFlavour, m: ModuleValue)
    requires !fl.earlyReturn || exists i :: 0 <= i < |m.functions| && IsKernel(m.functions[i])
    requires fl.stateStruct !in m.structTypes
    ensures Prepare(fl, m) == Err(MissingStateType(fl.missingStateMessage))
  {
    if fl.earlyReturn {
      var i :| 0 <= i < |m.functions| && IsKernel(m.functions[i]);
      KernelsExact(m.functions);
      assert m.functions[i] in Kernels(m.functions);
    }
  }

  /** The functions a run leaves behind. */
  lemma PrepareFunctions(fl: PrepareFlavour, m: ModuleValue)
    requires Proceeds(fl, m) && Prepare(fl, m).Ok?
    ensures Prepare(fl, m).value.0.functions ==
            NonKernels(m.functions) + MapFixCallingConv(MapAddArg(Kernels(m.functions), PointerTo(fl.stateStruct)))
  {
  }

  /** The signature half, on a module with unique names: the non-kernels
      stay, in order, followed by each kernel rebuilt with one trailing
      state-pointer parameter, its name and positional parameters, the C
      calling convention and no attributes; no `SPIR_KERNEL` function is left
      and the set of function names is unchanged. */
  lemma PrepareSignatures(fl: PrepareFlavour, m: ModuleValue)
    requires Proceeds(fl, m) && Prepare(fl, m).Ok?
    ensures var fs := Prepare(fl, m).value.0.functions;
            var nk := NonKernels(m.functions);
            var ks := Kernels(m.functions);
            |fs| == |m.functions| &&
            (forall i :: 0 <= i < |nk| ==> fs[i] == nk[i]) &&
            (forall i :: 0 <= i < |ks| ==> KernelRebuilt(ks[i], fs[|nk| + i], PointerTo(fl.stateStruct))) &&
            (forall i :: 0 <= i < |fs| ==> !IsKernel(fs[i])) &&
            NamesOf(fs) == NamesOf(m.functions)
  {
    PrepareFunctions(fl, m);
    RebuiltModule(m.functions, PointerTo(fl.stateStruct));
  }

  /** The function list a run builds, on its own. */
  lemma RebuiltModule(fs0: seq<Function>, t: IrType)
    ensures var nk := NonKernels(fs0);
            var ks := Kernels(fs0);
            var fs := nk + MapFixCallingConv(MapAddArg(ks, t));
            |fs| == |fs0| &&
            (forall i :: 0 <= i < |nk| ==> fs[i] == nk[i]) &&
            (forall i :: 0 <= i < |ks| ==> KernelRebuilt(ks[i], fs[|nk| + i], t)) &&
            (forall i :: 0 <= i < |fs| ==> !IsKernel(fs[i])) &&
            NamesOf(fs) == NamesOf(fs0)
  {
    var nk := NonKernels(fs0);
    var ks := Kernels(fs0);
    var rebuilt := MapFixCallingConv(MapAddArg(ks, t));
    KernelsSplit(fs0);
    RebuiltKernels(ks, t);
    NamesOfAppend(nk, rebuilt);
    ConcatPositions(nk, rebuilt);
  }

  lemma ConcatPositions(nk: seq<Function>, rebuilt: seq<Function>)
    requires forall i :: 0 <= i < |nk| ==> !IsKernel(nk[i])
    requires forall i :: 0 <= i < |rebuilt| ==> !IsKernel(rebuilt[i])
    ensures forall i :: 0 <= i < |nk + rebuilt| ==> !IsKernel((nk + rebuilt)[i])
    ensures forall i :: 0 <= i < |nk| ==> (nk + rebuilt)[i] == nk[i]
    ensures forall i :: 0 <= i < |rebuilt| ==> (nk + rebuilt)[|nk| + i] == rebuilt[i]
  {
  }

  /** Each kernel, rebuilt: same name, one more parameter, C calling convention. */
  lemma RebuiltKernels(ks: seq<Function>, t: IrType)
    ensures var rebuilt := MapFixCallingConv(MapAddArg(ks, t));
            |rebuilt| == |ks| &&
            (forall i :: 0 <= i < |ks| ==> KernelRebuilt(ks[i], rebuilt[i], t)) &&
            (forall i :: 0 <= i < |rebuilt| ==> !IsKernel(rebuilt[i])) &&
            NamesOf(rebuilt) == NamesOf(ks)
  {
    var rebuilt := MapFixCallingConv(MapAddArg(ks, t));
    forall n | n in NamesOf(rebuilt)
      ensures n in NamesOf(ks)
    {
      var j :| 0 <= j < |rebuilt| && rebuilt[j].name == n;
      assert ks[j].name == n;
    }
    forall n | n in NamesOf(ks)
      ensures n in NamesOf(rebuilt)
    {
      var j :| 0 <= j < |ks| && ks[j].name == n;
      assert rebuilt[j].name == n;
    }
  }

  /** The builtin half: the global is gone and no live load reads it, only
      loads and extracts were erased, every other old instruction kept its
      function, kind and non-instruction operands, and every added
      instruction calls the flavour's accessor with the last parameter of the
      function it is in. A module without the global keeps its
      instructions. */
  lemma PrepareBuiltin(fl: PrepareFlavour, m: ModuleValue)
    requires Proceeds(fl, m) && Prepare(fl, m).Ok?
    ensures var m2 := Prepare(fl, m).value.0;
            m2.globals == m.globals - {BuiltinGlobal} &&
            (BuiltinGlobal in m.globals ==> NoBuiltinReads(m2.insts, BuiltinGlobal)) &&
            (BuiltinGlobal !in m.globals ==> m2.insts == m.insts) &&
            |m.insts| <= |m2.insts| &&
            (forall j :: 0 <= j < |m.insts| ==>
               (m2.insts[j].op.Erased? && Deletable(m.insts[j])) || Evolved(m.insts[j], m2.insts[j], |m.insts|)) &&
            (forall j :: |m.insts| <= j < |m2.insts| ==>
               m2.insts[j].op.Call? && m2.insts[j].op.callee == fl.accessor &&
               |m2.insts[j].op.args| == 2 && LastParam(m2.functions, m2.insts[j].op.args[1]) &&
               m2.insts[j].op.args[1].fn == m2.insts[j].fn)
  {
    var ks := Kernels(m.functions);
    var t := PointerTo(fl.stateStruct);
    var extended := NonKernels(m.functions) + MapAddArg(ks, t);
    var ctx := Ctx(extended, fl.accessor, t);
    MaterializeSpec(ctx, BuiltinGlobal, m.globals, m.insts);
    var m2 := Prepare(fl, m).value.0;
    assert SameSignatures(extended, m2.functions);
    StateArgSignatures(extended, m2.functions);
  }

  /** The analyses result, with `ModuleChanged` spelled out as "a kernel was
      rebuilt or a call was added": the Native CPU pass preserves nothing
      exactly when something changed, the host compilation pass, as written,
      preserves everything exactly when something changed. */
  lemma PrepareAnalyses(fl: PrepareFlavour, m: ModuleValue)
    requires Prepare(fl, m).Ok?
    ensures var (m2, p) := Prepare(fl, m).value;
            var changed := (exists i :: 0 <= i < |m.functions| && IsKernel(m.functions[i])) ||
                           |m.insts| < |m2.insts|;
            (fl == NativeCpuPrepare ==> (p == NonePreserved <==> changed)) &&
            (fl == HostCompilationPrepare ==> (p == AllPreserved <==> changed))
  {
    var (m2, p) := Prepare(fl, m).value;
    var ks := Kernels(m.functions);
    KernelsExact(m.functions);
    if |ks| > 0 {
      assert ks[0] in ks;
      var i :| 0 <= i < |m.functions| && m.functions[i] == ks[0];
    }
    if exists i :: 0 <= i < |m.functions| && IsKernel(m.functions[i]) {
      var i :| 0 <= i < |m.functions| && IsKernel(m.functions[i]);
      assert m.functions[i] in ks;
    }
    if Proceeds(fl, m) {
      var t := PointerTo(fl.stateStruct);
      var ctx := Ctx(NonKernels(m.functions) + MapAddArg(ks, t), fl.accessor, t);
      MaterializeSpec(ctx, BuiltinGlobal, m.globals, m.insts);
    }
  }
}
