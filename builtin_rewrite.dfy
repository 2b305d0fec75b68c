/** The builtin half of both prepare passes: every use of the builtin global
    (`__spirv_BuiltInGlobalInvocationId`) is classified as a load or a GEP,
    and the value it reads is replaced by a call of the accessor with an
    index and the enclosing function's last parameter. Replaced instructions
    are collected in `toDelete` and erased once all uses are handled; then
    the global is erased. */
module BuiltinRewrite {
  import opened Common
  import opened Ir
  import opened BuiltinIr

  /** Why a prepare pass stops: `report_fatal_error`, the assertions, the
      out-of-range `getArg`, the null `dyn_cast` result and
      `llvm_unreachable` of the source. */
  datatype PrepareError =
    | MissingStateType(message: string)
    | MissingAccessor
    | NoEnclosingFunction
    | NoStateParameter
    | NotAnExtract
    | StateTypeMismatch
    | GepIndexCount
    | GepUserHasUses
    | UnsupportedUse

  /** What the rewriting reads and never changes: the module's functions (after
      the kernels were extended), the accessor's name and the state-pointer type. */
  datatype Ctx = Ctx(fs: seq<Function>, accessor: string, statePtr: IrType)

  /** What it changes: the instruction table, the `toDelete` list and the
      `ModuleChanged` flag. */
  datatype Rw = Rw(t: seq<Instr>, toDelete: seq<nat>, changed: bool)

  datatype StateArgument = StateArgument(v: Value, ty: IrType)

  /** `Module::getFunction`: the function of that name, if any. */
  function FindFunction(fs: seq<Function>, name: string): (r: Option<Function>)
    ensures r.Some? ==> r.value in fs && r.value.name == name
    ensures r.None? <==> forall f :: f in fs ==> f.name != name
  {
    if |fs| == 0 then None
    else if fs[0].name == name then Some(fs[0])
    else FindFunction(fs[1..], name)
  }

  /** `getStateArg`: the last parameter of the function named `fnName`
      (`getArg(getNumParams() - 1)`), with its type. A missing function or an
      empty parameter list has no such parameter. */
  function StateArg(fs: seq<Function>, fnName: string): (r: Result<StateArgument, PrepareError>)
    ensures r.Ok? <==> FindFunction(fs, fnName).Some? && |FindFunction(fs, fnName).value.params| > 0
    ensures r.Ok? ==> r.value.v.ParamV? && r.value.v.fn == fnName &&
                      r.value.v.index + 1 == |FindFunction(fs, fnName).value.params| &&
                      r.value.ty == FindFunction(fs, fnName).value.params[r.value.v.index]
    ensures FindFunction(fs, fnName).None? ==> r == Err(NoEnclosingFunction)
  {
    match FindFunction(fs, fnName)
    case None => Err(NoEnclosingFunction)
    case Some(f) =>
      if |f.params| == 0 then Err(NoStateParameter)
      else Ok(StateArgument(ParamV(fnName, |f.params| - 1), f.params[|f.params| - 1]))
  }

  /** `v` is the last parameter of a function of the module. */
  predicate LastParam(fs: seq<Function>, v: Value)
  {
    v.ParamV? && StateArg(fs, v.fn).Ok? && StateArg(fs, v.fn).value.v == v
  }

  /** A call of the accessor with two arguments, the second being the last
      parameter of the function the call is in. */
  predicate AccessorCall(ctx: Ctx, ins: Instr)
  {
    ins.op.Call? && ins.op.callee == ctx.accessor && |ins.op.args| == 2 &&
    LastParam(ctx.fs, ins.op.args[1]) && ins.op.args[1].fn == ins.fn
  }

  /** The only kinds of instruction that are queued for deletion. */
  predicate Deletable(ins: Instr)
  {
    ins.op.Load? || ins.op.Extract?
  }

  /** How one rewriting state leads to a later one: the table grows by
      accessor calls whose results replace old instructions, the queue only
      grows and only by loads and extracts, and `changed` records whether a
      call was added. */
  predicate Advances(ctx: Ctx, a: Rw, b: Rw)
  {
    Grows(a.t, b.t) &&
    (forall j :: |a.t| <= j < |b.t| ==> AccessorCall(ctx, b.t[j])) &&
    (forall x :: x in a.toDelete ==> x in b.toDelete) &&
    (forall x :: x in b.toDelete && x !in a.toDelete ==> x < |b.t| && Deletable(b.t[x])) &&
    (b.changed <==> a.changed || |a.t| < |b.t|)
  }

  lemma EvolvedShape(ctx: Ctx, a: Instr, b: Instr, n: nat)
    requires Evolved(a, b, n)
    ensures Deletable(a) <==> Deletable(b)
    ensures a.op.Load? <==> b.op.Load?
    ensures a.op.Gep? <==> b.op.Gep?
    ensures AccessorCall(ctx, a) ==> AccessorCall(ctx, b)
  {
    if AccessorCall(ctx, a) {
      assert Operands(a.op)[1] == a.op.args[1];
      assert Operands(b.op)[1] == b.op.args[1];
    }
  }

  lemma AdvancesRefl(ctx: Ctx, a: Rw)
    ensures Advances(ctx, a, a)
  {
    GrowsRefl(a.t);
  }

  lemma AdvancesTrans(ctx: Ctx, a: Rw, b: Rw, c: Rw)
    requires Advances(ctx, a, b) && Advances(ctx, b, c)
    ensures Advances(ctx, a, c)
  {
    GrowsTrans(a.t, b.t, c.t);
    forall j | |a.t| <= j < |c.t|
      ensures AccessorCall(ctx, c.t[j])
    {
      if j < |b.t| {
        EvolvedShape(ctx, b.t[j], c.t[j], |b.t|);
      }
    }
    forall x | x in c.toDelete && x !in a.toDelete
      ensures x < |c.t| && Deletable(c.t[x])
    {
      if x in b.toDelete {
        EvolvedShape(ctx, b.t[x], c.t[x], |b.t|);
      }
    }
  }

  // ------------------------------------------------------ one replacement

  /** `CallInst::Create(accessor, {index, state})` in `fn`, then
      `replaced->replaceAllUsesWith(call)` and `toDelete.push_back(replaced)`. */
  function AppendCall(ctx: Ctx, st: Rw, fn: string, index: Value, state: Value, replaced: nat): (r: Rw)
    ensures |r.t| == |st.t| + 1
    ensures r.toDelete == st.toDelete + [replaced] && r.changed
  {
    var call := Instr(fn, Call(ctx.accessor, [index, state]));
    Rw(ReplaceUses(st.t + [call], InstV(replaced), InstV(|st.t|)), st.toDelete + [replaced], true)
  }

  /** The call becomes the newest instruction, in `fn`, with `index` (redirected
      itself if it was the replaced instruction) and `state`. */
  lemma AppendCallShape(ctx: Ctx, st: Rw, fn: string, index: Value, state: Value, replaced: nat)
    requires !state.InstV?
    ensures var r := AppendCall(ctx, st, fn, index, state, replaced);
            r.t[|st.t|] == Instr(fn, Call(ctx.accessor, [ReplaceValue(index, InstV(replaced), InstV(|st.t|)), state]))
  {
    var n := |st.t|;
    var call := Instr(fn, Call(ctx.accessor, [index, state]));
    var t := ReplaceUses(st.t + [call], InstV(replaced), InstV(n));
    assert (st.t + [call])[n] == call;
    var op := ReplaceInOp(call.op, InstV(replaced), InstV(n));
    assert t[n] == Instr(fn, op);
    assert Operands(op)[0] == ReplaceValue(index, InstV(replaced), InstV(n));
    assert Operands(op)[1] == state;
  }

  /** `replaceAllUsesWith`: nothing uses the replaced instruction any more and
      each of its former users uses the call. */
  lemma AppendCallRedirects(ctx: Ctx, st: Rw, fn: string, index: Value, state: Value, replaced: nat)
    requires replaced < |st.t|
    ensures var r := AppendCall(ctx, st, fn, index, state, replaced);
            UsersOf(r.t, InstV(replaced)) == [] &&
            forall j :: 0 <= j < |st.t| && UsesValue(st.t[j], InstV(replaced)) ==>
              UsesValue(r.t[j], InstV(|st.t|))
  {
    var call := Instr(fn, Call(ctx.accessor, [index, state]));
    var t1 := st.t + [call];
    ReplaceUsesSpec(t1, InstV(replaced), InstV(|st.t|));
    forall j | 0 <= j < |st.t|
      ensures t1[j] == st.t[j]
    {
    }
  }

  lemma AppendCallAdvances(ctx: Ctx, st: Rw, fn: string, index: Value, state: Value, replaced: nat)
    requires replaced < |st.t| && Deletable(st.t[replaced])
    requires LastParam(ctx.fs, state) && state.fn == fn
    ensures Advances(ctx, st, AppendCall(ctx, st, fn, index, state, replaced))
  {
    var r := AppendCall(ctx, st, fn, index, state, replaced);
    var call := Instr(fn, Call(ctx.accessor, [index, state]));
    GrowsByCall(st.t, call, InstV(replaced));
    AppendCallShape(ctx, st, fn, index, state, replaced);
    assert AccessorCall(ctx, r.t[|st.t|]);
    EvolvedShape(ctx, st.t[replaced], r.t[replaced], |st.t|);
  }

  // ------------------------------------------------------ the load shapes

  /** One extract user of a builtin load becomes `call accessor(extract
      index, state)`; the state argument must have the state-pointer type
      (checked per extract). */
  function RewriteExtract(ctx: Ctx, st: Rw, e: nat, sa: StateArgument): (r: Result<Rw, PrepareError>)
    requires e < |st.t| && LastParam(ctx.fs, sa.v)
    ensures r.Ok? ==> Advances(ctx, st, r.value)
  {
    if !st.t[e].op.Extract? then Err(NotAnExtract)
    else if sa.ty != ctx.statePtr then Err(StateTypeMismatch)
    else
      AppendCallAdvances(ctx, st, sa.v.fn, st.t[e].op.index, sa.v, e);
      Ok(AppendCall(ctx, st, sa.v.fn, st.t[e].op.index, sa.v, e))
  }

  /** The loop over the extract users of one load. */
  function ExtractsFold(ctx: Ctx, st: Rw, es: seq<nat>, sa: StateArgument): (r: Result<Rw, PrepareError>)
    requires forall k :: 0 <= k < |es| ==> es[k] < |st.t|
    requires LastParam(ctx.fs, sa.v)
    ensures r.Ok? ==> Advances(ctx, st, r.value)
    decreases |es|
  {
    if |es| == 0 then AdvancesRefl(ctx, st); Ok(st)
    else
      var prev := ExtractsFold(ctx, st, es[..|es| - 1], sa);
      if prev.Err? then prev
      else
        var r := RewriteExtract(ctx, prev.value, es[|es| - 1], sa);
        if r.Err? then r
        else AdvancesTrans(ctx, st, prev.value, r.value); r
  }

  /** Every user of instruction `u` is an extract (`all_of`, vacuous when `u`
      has no users). */
  predicate AllExtracts(t: seq<Instr>, u: nat)
  {
    var us := UsersOf(t, InstV(u));
    forall k :: 0 <= k < |us| ==> t[us[k]].op.Extract?
  }

  /** A load of the builtin. The state argument is fetched first. If all its
      users are extracts, each is replaced and the load is queued (without
      setting `changed` when there are none); otherwise the load itself is
      replaced by a call with constant index 0. */
  function RewriteLoad(ctx: Ctx, st: Rw, u: nat): (r: Result<Rw, PrepareError>)
    requires u < |st.t| && st.t[u].op.Load?
    ensures r.Ok? ==> Advances(ctx, st, r.value) && u in r.value.toDelete
  {
    var sa := StateArg(ctx.fs, st.t[u].fn);
    if sa.Err? then Err(sa.error)
    else if AllExtracts(st.t, u) then
      var r := ExtractsFold(ctx, st, UsersOf(st.t, InstV(u)), sa.value);
      if r.Err? then r
      else
        var done := r.value.(toDelete := r.value.toDelete + [u]);
        assert Advances(ctx, r.value, done) by { GrowsRefl(done.t); }
        AdvancesTrans(ctx, st, r.value, done);
        Ok(done)
    else
      AppendCallAdvances(ctx, st, st.t[u].fn, ConstI64(0), sa.value.v, u);
      Ok(AppendCall(ctx, st, st.t[u].fn, ConstI64(0), sa.value.v, u))
  }

  // ------------------------------------------------------- the GEP shape

  /** One user `x` of a builtin GEP: a non-load must itself be unused and is
      skipped; a load becomes `call accessor(index, state)`, the state
      argument having the state-pointer type. */
  function GepUserStep(ctx: Ctx, st: Rw, index: Value, x: nat): (r: Result<Rw, PrepareError>)
    requires x < |st.t|
    ensures r.Ok? ==> Advances(ctx, st, r.value)
    ensures r.Ok? && st.t[x].op.Load? ==> x in r.value.toDelete
  {
    if !st.t[x].op.Load? then
      if |UsersOf(st.t, InstV(x))| != 0 then Err(GepUserHasUses) else AdvancesRefl(ctx, st); Ok(st)
    else
      var sa := StateArg(ctx.fs, st.t[x].fn);
      if sa.Err? then Err(sa.error)
      else if sa.value.ty != ctx.statePtr then Err(StateTypeMismatch)
      else
        AppendCallAdvances(ctx, st, st.t[x].fn, index, sa.value.v, x);
        Ok(AppendCall(ctx, st, st.t[x].fn, index, sa.value.v, x))
  }

  function GepUsersFold(ctx: Ctx, st: Rw, index: Value, xs: seq<nat>): (r: Result<Rw, PrepareError>)
    requires forall k :: 0 <= k < |xs| ==> xs[k] < |st.t|
    ensures r.Ok? ==> Advances(ctx, st, r.value)
    decreases |xs|
  {
    if |xs| == 0 then AdvancesRefl(ctx, st); Ok(st)
    else
      var prev := GepUsersFold(ctx, st, index, xs[..|xs| - 1]);
      if prev.Err? then prev
      else
        var r := GepUserStep(ctx, prev.value, index, xs[|xs| - 1]);
        if r.Err? then r
        else AdvancesTrans(ctx, st, prev.value, r.value); r
  }

  /** A GEP of the builtin: exactly two indices are supported, and its loads
      are replaced using the second index. */
  function RewriteGep(ctx: Ctx, st: Rw, g: nat): (r: Result<Rw, PrepareError>)
    requires g < |st.t| && st.t[g].op.Gep?
    ensures r.Ok? ==> Advances(ctx, st, r.value)
    ensures |st.t[g].op.indices| != 2 ==> r == Err(GepIndexCount)
  {
    if |st.t[g].op.indices| != 2 then Err(GepIndexCount)
    else GepUsersFold(ctx, st, st.t[g].op.indices[1], UsersOf(st.t, InstV(g)))
  }

  // ---------------------------------------------------- the use loop

  /** The classifier: loads and GEPs are handled, anything else is unreachable. */
  function RewriteUse(ctx: Ctx, st: Rw, u: nat): (r: Result<Rw, PrepareError>)
    requires u < |st.t|
    ensures r.Ok? ==> Advances(ctx, st, r.value)
    ensures !st.t[u].op.Load? && !st.t[u].op.Gep? ==> r == Err(UnsupportedUse)
  {
    match st.t[u].op
    case Load(_) => RewriteLoad(ctx, st, u)
    case Gep(_, _) => RewriteGep(ctx, st, u)
    case _ => Err(UnsupportedUse)
  }

  function UsesFold(ctx: Ctx, st: Rw, us: seq<nat>): (r: Result<Rw, PrepareError>)
    requires forall k :: 0 <= k < |us| ==> us[k] < |st.t|
    ensures r.Ok? ==> Advances(ctx, st, r.value)
    decreases |us|
  {
    if |us| == 0 then AdvancesRefl(ctx, st); Ok(st)
    else
      var prev := UsesFold(ctx, st, us[..|us| - 1]);
      if prev.Err? then prev
      else
        var r := RewriteUse(ctx, prev.value, us[|us| - 1]);
        if r.Err? then r
        else AdvancesTrans(ctx, st, prev.value, r.value); r
  }

  datatype Materialized = Materialized(t: seq<Instr>, globals: set<string>, changed: bool)

  /** One entry of `BuiltinNamesMap`: nothing happens when the module has no
      global `b`; otherwise the accessor must exist, every use of the global
      (in table order, as found before rewriting) is rewritten, the queued
      instructions are erased and so is the global. */
  function Materialize(ctx: Ctx, b: string, globals: set<string>, t0: seq<Instr>): (r: Result<Materialized, PrepareError>)
    ensures b !in globals ==> r == Ok(Materialized(t0, globals, false))
    ensures b in globals && FindFunction(ctx.fs, ctx.accessor).None? ==> r == Err(MissingAccessor)
  {
    if b !in globals then Ok(Materialized(t0, globals, false))
    else if FindFunction(ctx.fs, ctx.accessor).None? then Err(MissingAccessor)
    else
      var r := UsesFold(ctx, Rw(t0, [], false), UsersOf(t0, GlobalV(b)));
      if r.Err? then Err(r.error)
      else Ok(Materialized(MarkErased(r.value.t, r.value.toDelete), globals - {b}, r.value.changed))
  }

  // ------------------------------------------------------- the three shapes

  /** A redirected call keeps its callee, its arity and every operand that is
      not an instruction. */
  lemma EvolvedCall(a: Instr, b: Instr, n: nat)
    requires Evolved(a, b, n) && a.op.Call?
    ensures b.op.Call? && b.op.callee == a.op.callee && |b.op.args| == |a.op.args|
    ensures forall k :: 0 <= k < |a.op.args| && !a.op.args[k].InstV? ==> b.op.args[k] == a.op.args[k]
  {
    forall k | 0 <= k < |a.op.args| && !a.op.args[k].InstV?
      ensures b.op.args[k] == a.op.args[k]
    {
      assert Operands(a.op)[k] == a.op.args[k];
      assert Operands(b.op)[k] == b.op.args[k];
    }
  }

  /** A load without users goes straight to the deletion queue; nothing else
      changes, not even the `changed` flag. */
  lemma LoadWithoutUsers(ctx: Ctx, st: Rw, u: nat)
    requires u < |st.t| && st.t[u].op.Load?
    requires StateArg(ctx.fs, st.t[u].fn).Ok?
    requires UsersOf(st.t, InstV(u)) == []
    ensures RewriteLoad(ctx, st, u) == Ok(st.(toDelete := st.toDelete + [u]))
  {
  }

  /** A load with a user that is not an extract is replaced by
      `call accessor(i64 0, state)`, which takes over all its users. */
  lemma PlainLoadShape(ctx: Ctx, st: Rw, u: nat)
    requires u < |st.t| && st.t[u].op.Load?
    requires StateArg(ctx.fs, st.t[u].fn).Ok?
    requires !AllExtracts(st.t, u)
    ensures RewriteLoad(ctx, st, u).Ok?
    ensures var r := RewriteLoad(ctx, st, u).value;
            |r.t| == |st.t| + 1 &&
            r.t[|st.t|] == Instr(st.t[u].fn, Call(ctx.accessor, [ConstI64(0), StateArg(ctx.fs, st.t[u].fn).value.v])) &&
            UsersOf(r.t, InstV(u)) == [] &&
            (forall j :: 0 <= j < |st.t| && UsesValue(st.t[j], InstV(u)) ==> UsesValue(r.t[j], InstV(|st.t|))) &&
            r.toDelete == st.toDelete + [u] && r.changed
  {
    var sa := StateArg(ctx.fs, st.t[u].fn).value;
    PlainLoadIsCall(ctx, st, u);
    AppendCallShape(ctx, st, st.t[u].fn, ConstI64(0), sa.v, u);
    AppendCallRedirects(ctx, st, st.t[u].fn, ConstI64(0), sa.v, u);
    assert ReplaceValue(ConstI64(0), InstV(u), InstV(|st.t|)) == ConstI64(0);
  }

  lemma PlainLoadIsCall(ctx: Ctx, st: Rw, u: nat)
    requires u < |st.t| && st.t[u].op.Load?
    requires StateArg(ctx.fs, st.t[u].fn).Ok?
    requires !AllExtracts(st.t, u)
    ensures RewriteLoad(ctx, st, u) ==
            Ok(AppendCall(ctx, st, st.t[u].fn, ConstI64(0), StateArg(ctx.fs, st.t[u].fn).value.v, u))
  {
  }

  /** `ins` is the accessor call made for the extract `ext`: in the function
      whose state argument it passes, with (when it is not an instruction)
      the extract's index. */
  predicate ExtractCall(ctx: Ctx, ins: Instr, ext: Instr, sa: StateArgument)
    requires ext.op.Extract?
  {
    sa.v.ParamV? && ins.fn == sa.v.fn && ins.op.Call? && ins.op.callee == ctx.accessor &&
    |ins.op.args| == 2 && ins.op.args[1] == sa.v &&
    (!ext.op.index.InstV? ==> ins.op.args[0] == ext.op.index)
  }

  lemma ExtractCallKept(ctx: Ctx, a: Instr, b: Instr, n: nat, ext: Instr, sa: StateArgument)
    requires ext.op.Extract? && sa.v.ParamV?
    requires Evolved(a, b, n) && ExtractCall(ctx, a, ext, sa)
    ensures ExtractCall(ctx, b, ext, sa)
  {
    EvolvedCall(a, b, n);
  }

  /** The call made for the next extract. */
  lemma ExtractStepShape(ctx: Ctx, t0: seq<Instr>, prev: Rw, e: nat, sa: StateArgument)
    requires e < |t0| <= |prev.t| && t0[e].op.Extract? && Evolved(t0[e], prev.t[e], |t0|)
    requires LastParam(ctx.fs, sa.v) && sa.ty == ctx.statePtr
    ensures RewriteExtract(ctx, prev, e, sa).Ok?
    ensures var r := RewriteExtract(ctx, prev, e, sa).value;
            |r.t| == |prev.t| + 1 && r.toDelete == prev.toDelete + [e] &&
            ExtractCall(ctx, r.t[|prev.t|], t0[e], sa) &&
            Grows(prev.t, r.t)
  {
    EvolvedShape(ctx, t0[e], prev.t[e], |t0|);
    assert Operands(t0[e].op)[1] == t0[e].op.index;
    assert Operands(prev.t[e].op)[1] == prev.t[e].op.index;
    AppendCallShape(ctx, prev, sa.v.fn, prev.t[e].op.index, sa.v, e);
  }

  /** `r` is `st` after the accessor calls for the extracts `es`: one call
      per extract, appended in order, and the extracts queued in order. */
  predicate ExtractsDone(ctx: Ctx, t0: seq<Instr>, d0: seq<nat>, es: seq<nat>, sa: StateArgument, r: Rw)
    requires forall k :: 0 <= k < |es| ==> es[k] < |t0| && t0[es[k]].op.Extract?
  {
    |r.t| == |t0| + |es| && r.toDelete == d0 + es &&
    forall k :: 0 <= k < |es| ==> ExtractCall(ctx, r.t[|t0| + k], t0[es[k]], sa)
  }

  /** When every listed user is an extract and the state argument has the
      state-pointer type, the extract loop succeeds: one accessor call per
      extract, in order, in the extract's function, passing the state
      argument and (when it is not an instruction) the extract's index; the
      extracts are queued in order. */
  lemma {:induction false} ExtractsFoldShape(ctx: Ctx, st: Rw, es: seq<nat>, sa: StateArgument)
    requires forall k :: 0 <= k < |es| ==> es[k] < |st.t| && st.t[es[k]].op.Extract?
    requires LastParam(ctx.fs, sa.v) && sa.ty == ctx.statePtr
    ensures ExtractsFold(ctx, st, es, sa).Ok?
    ensures ExtractsDone(ctx, st.t, st.toDelete, es, sa, ExtractsFold(ctx, st, es, sa).value)
    decreases |es|
  {
    if |es| > 0 {
      var init := es[..|es| - 1];
      var e := es[|es| - 1];
      forall k | 0 <= k < |init|
        ensures init[k] < |st.t| && st.t[init[k]].op.Extract?
      {
        assert init[k] == es[k];
      }
      assert es == init + [e];
      ExtractsFoldShape(ctx, st, init, sa);
      var prev := ExtractsFold(ctx, st, init, sa).value;
      assert ExtractsFold(ctx, st, es, sa) == RewriteExtract(ctx, prev, e, sa);
      assert Evolved(st.t[e], prev.t[e], |st.t|);
      ExtractsFoldStep(ctx, st.t, st.toDelete, prev, init, e, es, sa);
    }
  }

  lemma ExtractsFoldStep(ctx: Ctx, t0: seq<Instr>, d0: seq<nat>, prev: Rw, init: seq<nat>, e: nat, es: seq<nat>, sa: StateArgument)
    requires es == init + [e]
    requires forall k :: 0 <= k < |init| ==> init[k] < |t0| && t0[init[k]].op.Extract?
    requires e < |t0| && t0[e].op.Extract?
    requires forall k :: 0 <= k < |es| ==> es[k] < |t0| && t0[es[k]].op.Extract?
    requires LastParam(ctx.fs, sa.v) && sa.ty == ctx.statePtr
    requires ExtractsDone(ctx, t0, d0, init, sa, prev)
    requires Evolved(t0[e], prev.t[e], |t0|)
    ensures RewriteExtract(ctx, prev, e, sa).Ok?
    ensures ExtractsDone(ctx, t0, d0, es, sa, RewriteExtract(ctx, prev, e, sa).value)
  {
    ExtractStepShape(ctx, t0, prev, e, sa);
    var r := RewriteExtract(ctx, prev, e, sa).value;
    ExtractsDoneStep(ctx, t0, d0, prev, r, init, e, es, sa);
  }

  /** The bookkeeping half of `ExtractsFoldStep`, on any next state. */
  lemma ExtractsDoneStep(ctx: Ctx, t0: seq<Instr>, d0: seq<nat>, prev: Rw, r: Rw, init: seq<nat>, e: nat, es: seq<nat>, sa: StateArgument)
    requires es == init + [e]
    requires forall k :: 0 <= k < |init| ==> init[k] < |t0| && t0[init[k]].op.Extract?
    requires e < |t0| && t0[e].op.Extract? && sa.v.ParamV?
    requires forall k :: 0 <= k < |es| ==> es[k] < |t0| && t0[es[k]].op.Extract?
    requires ExtractsDone(ctx, t0, d0, init, sa, prev)
    requires |r.t| == |prev.t| + 1 && r.toDelete == prev.toDelete + [e]
    requires ExtractCall(ctx, r.t[|prev.t|], t0[e], sa) && Grows(prev.t, r.t)
    ensures ExtractsDone(ctx, t0, d0, es, sa, r)
  {
    assert r.toDelete == (d0 + init) + [e];
    ExtractCallsKept(ctx, t0, prev.t, r.t, init, e, es, sa);
  }

  lemma ExtractCallsKept(ctx: Ctx, t0: seq<Instr>, t1: seq<Instr>, t2: seq<Instr>, init: seq<nat>, e: nat, es: seq<nat>, sa: StateArgument)
    requires es == init + [e]
    requires forall k :: 0 <= k < |init| ==> init[k] < |t0| && t0[init[k]].op.Extract?
    requires e < |t0| && t0[e].op.Extract? && sa.v.ParamV?
    requires |t1| == |t0| + |init| && |t2| == |t1| + 1 && Grows(t1, t2)
    requires forall k :: 0 <= k < |init| ==> ExtractCall(ctx, t1[|t0| + k], t0[init[k]], sa)
    requires ExtractCall(ctx, t2[|t1|], t0[e], sa)
    ensures forall k :: 0 <= k < |es| ==> ExtractCall(ctx, t2[|t0| + k], t0[es[k]], sa)
  {
    forall k | 0 <= k < |es|
      ensures ExtractCall(ctx, t2[|t0| + k], t0[es[k]], sa)
    {
      if k < |init| {
        assert es[k] == init[k];
        ExtractCallKept(ctx, t1[|t0| + k], t2[|t0| + k], |t1|, t0[init[k]], sa);
      }
    }
  }

  /** A load whose users are all extracts, in a function whose last
      parameter has the state-pointer type: each extract gets its own
      accessor call, in use-list order, and the load is queued after them. */
  lemma ExtractLoadShape(ctx: Ctx, st: Rw, u: nat)
    requires u < |st.t| && st.t[u].op.Load? && AllExtracts(st.t, u)
    requires StateArg(ctx.fs, st.t[u].fn).Ok? && StateArg(ctx.fs, st.t[u].fn).value.ty == ctx.statePtr
    ensures RewriteLoad(ctx, st, u).Ok?
    ensures var r := RewriteLoad(ctx, st, u).value;
            var es := UsersOf(st.t, InstV(u));
            var sa := StateArg(ctx.fs, st.t[u].fn).value;
            |r.t| == |st.t| + |es| && r.toDelete == st.toDelete + es + [u] &&
            forall k :: 0 <= k < |es| ==> ExtractCall(ctx, r.t[|st.t| + k], st.t[es[k]], sa)
  {
    var sa := StateArg(ctx.fs, st.t[u].fn).value;
    var es := UsersOf(st.t, InstV(u));
    ExtractsFoldShape(ctx, st, es, sa);
  }

  /** A user of a builtin GEP: a load is replaced by `call accessor(index,
      state)` when its state argument has the state-pointer type; an unused
      non-load is skipped; a non-load that has users is an error. */
  lemma GepUserShape(ctx: Ctx, st: Rw, index: Value, x: nat)
    requires x < |st.t|
    ensures !st.t[x].op.Load? && |UsersOf(st.t, InstV(x))| == 0 ==> GepUserStep(ctx, st, index, x) == Ok(st)
    ensures !st.t[x].op.Load? && |UsersOf(st.t, InstV(x))| != 0 ==> GepUserStep(ctx, st, index, x) == Err(GepUserHasUses)
    ensures st.t[x].op.Load? && StateArg(ctx.fs, st.t[x].fn).Ok? &&
            StateArg(ctx.fs, st.t[x].fn).value.ty != ctx.statePtr ==>
              GepUserStep(ctx, st, index, x) == Err(StateTypeMismatch)
    ensures st.t[x].op.Load? && StateArg(ctx.fs, st.t[x].fn).Ok? &&
            StateArg(ctx.fs, st.t[x].fn).value.ty == ctx.statePtr && index != InstV(x) ==>
              GepUserStep(ctx, st, index, x).Ok? &&
              GepUserStep(ctx, st, index, x).value.t[|st.t|] ==
                Instr(st.t[x].fn, Call(ctx.accessor, [index, StateArg(ctx.fs, st.t[x].fn).value.v])) &&
              UsersOf(GepUserStep(ctx, st, index, x).value.t, InstV(x)) == []
  {
    if st.t[x].op.Load? && StateArg(ctx.fs, st.t[x].fn).Ok? {
      var sa := StateArg(ctx.fs, st.t[x].fn).value;
      AppendCallShape(ctx, st, st.t[x].fn, index, sa.v, x);
      AppendCallRedirects(ctx, st, st.t[x].fn, index, sa.v, x);
    }
  }

  // ---------------------------------------------------------- what it achieves

  /** Every load queued and every load of a GEP queued. */
  predicate LoadsOfQueued(st: Rw, g: nat)
  {
    forall j :: 0 <= j < |st.t| && st.t[j].op == Load(InstV(g)) ==> j in st.toDelete
  }

  /** What handling a use `u` of the global (an instruction of the table `t0`
      the loop started from) guarantees. */
  predicate Handled(t0: seq<Instr>, st: Rw, u: nat)
    requires u < |t0|
  {
    (t0[u].op.Load? ==> u in st.toDelete) && (t0[u].op.Gep? ==> LoadsOfQueued(st, u))
  }

  lemma HandledKept(ctx: Ctx, t0: seq<Instr>, a: Rw, b: Rw, u: nat)
    requires u < |t0| <= |a.t|
    requires Advances(ctx, a, b) && Handled(t0, a, u)
    ensures Handled(t0, b, u)
  {
    if t0[u].op.Gep? {
      forall j | 0 <= j < |b.t| && b.t[j].op == Load(InstV(u))
        ensures j in b.toDelete
      {
        GrowsKeepsOldLoad(a.t, b.t, j, InstV(u));
      }
    }
  }

  /** The loads among the GEP's users are all queued. */
  lemma {:induction false} GepUsersFoldQueues(ctx: Ctx, st: Rw, index: Value, xs: seq<nat>)
    requires forall k :: 0 <= k < |xs| ==> xs[k] < |st.t|
    requires GepUsersFold(ctx, st, index, xs).Ok?
    ensures forall k :: 0 <= k < |xs| && st.t[xs[k]].op.Load? ==> xs[k] in GepUsersFold(ctx, st, index, xs).value.toDelete
    decreases |xs|
  {
    if |xs| > 0 {
      var init := xs[..|xs| - 1];
      var x := xs[|xs| - 1];
      var prev := GepUsersFold(ctx, st, index, init).value;
      var r := GepUsersFold(ctx, st, index, xs).value;
      GepUsersFoldQueues(ctx, st, index, init);
      assert r == GepUserStep(ctx, prev, index, x).value;
      EvolvedShape(ctx, st.t[x], prev.t[x], |st.t|);
      forall k | 0 <= k < |xs| - 1 && st.t[xs[k]].op.Load?
        ensures xs[k] in r.toDelete
      {
        assert xs[k] == init[k];
      }
    }
  }

  /** After a GEP is handled, no load of it is left unqueued. */
  lemma RewriteGepQueues(ctx: Ctx, st: Rw, g: nat)
    requires g < |st.t| && st.t[g].op.Gep?
    requires RewriteGep(ctx, st, g).Ok?
    ensures LoadsOfQueued(RewriteGep(ctx, st, g).value, g)
  {
    var r := RewriteGep(ctx, st, g).value;
    var xs := UsersOf(st.t, InstV(g));
    GepUsersFoldQueues(ctx, st, st.t[g].op.indices[1], xs);
    forall j | 0 <= j < |r.t| && r.t[j].op == Load(InstV(g))
      ensures j in r.toDelete
    {
      GrowsKeepsOldLoad(st.t, r.t, j, InstV(g));
      assert UsesValue(st.t[j], InstV(g));
      var k :| 0 <= k < |xs| && xs[k] == j;
    }
  }

  // ------------------------------------------------- what the GEP loop builds

  /** The loads among the users `xs`, in order. */
  function LoadsAmong(t: seq<Instr>, xs: seq<nat>): (ls: seq<nat>)
    requires forall k :: 0 <= k < |xs| ==> xs[k] < |t|
    ensures |ls| <= |xs|
    ensures forall k :: 0 <= k < |ls| ==> ls[k] < |t| && t[ls[k]].op.Load?
    decreases |xs|
  {
    if |xs| == 0 then []
    else LoadsAmong(t, xs[..|xs| - 1]) + (if t[xs[|xs| - 1]].op.Load? then [xs[|xs| - 1]] else [])
  }

  /** The loads among `xs` are exactly its elements that are loads. */
  lemma {:induction false} LoadsAmongSpec(t: seq<Instr>, xs: seq<nat>)
    requires forall k :: 0 <= k < |xs| ==> xs[k] < |t|
    ensures forall y :: y in LoadsAmong(t, xs) <==> y in xs && t[y].op.Load?
    decreases |xs|
  {
    if |xs| > 0 {
      var init := xs[..|xs| - 1];
      LoadsAmongSpec(t, init);
      assert xs == init + [xs[|xs| - 1]];
    }
  }

  /** `ins` is the accessor call made for the load `ld` through a GEP whose
      second index is `index`: in the load's function, passing that
      function's state argument and (when it is not an instruction) the
      index. */
  predicate GepCall(ctx: Ctx, ins: Instr, ld: Instr, index: Value)
  {
    StateArg(ctx.fs, ld.fn).Ok? &&
    ins.fn == ld.fn && ins.op.Call? && ins.op.callee == ctx.accessor &&
    |ins.op.args| == 2 && ins.op.args[1] == StateArg(ctx.fs, ld.fn).value.v &&
    (!index.InstV? ==> ins.op.args[0] == index)
  }

  /** `r` is `st` after the GEP loop over the users `xs`: one accessor call
      per load among them, appended in order, and those loads queued in
      order. */
  predicate GepUsersDone(ctx: Ctx, t0: seq<Instr>, d0: seq<nat>, index: Value, xs: seq<nat>, r: Rw)
    requires forall k :: 0 <= k < |xs| ==> xs[k] < |t0|
  {
    var ls := LoadsAmong(t0, xs);
    |r.t| == |t0| + |ls| && r.toDelete == d0 + ls &&
    forall k :: 0 <= k < |ls| ==> GepCall(ctx, r.t[|t0| + k], t0[ls[k]], index)
  }

  lemma GepCallKept(ctx: Ctx, a: Instr, b: Instr, n: nat, ld: Instr, index: Value)
    requires Evolved(a, b, n) && GepCall(ctx, a, ld, index)
    ensures GepCall(ctx, b, ld, index)
  {
    EvolvedCall(a, b, n);
  }

  /** A successful GEP loop makes one accessor call per load among the
      users, in order, each in the load's function with that function's
      state argument and (when it is not an instruction) the GEP's index;
      the loads are queued in order and nothing else is. */
  lemma {:induction false} GepUsersFoldShape(ctx: Ctx, st: Rw, index: Value, xs: seq<nat>)
    requires forall k :: 0 <= k < |xs| ==> xs[k] < |st.t|
    requires GepUsersFold(ctx, st, index, xs).Ok?
    ensures GepUsersDone(ctx, st.t, st.toDelete, index, xs, GepUsersFold(ctx, st, index, xs).value)
    decreases |xs|
  {
    if |xs| > 0 {
      var init := xs[..|xs| - 1];
      assert forall k :: 0 <= k < |init| ==> init[k] == xs[k];
      var prev := GepUsersFold(ctx, st, index, init).value;
      GepUsersFoldShape(ctx, st, index, init);
      GepUsersStep(ctx, st, prev, index, xs);
    }
  }

  /** A grown table keeps each old instruction's function and whether it is a load. */
  lemma GrowsKeepsKind(ctx: Ctx, a: seq<Instr>, b: seq<Instr>, j: nat)
    requires Grows(a, b) && j < |a|
    ensures a[j].fn == b[j].fn && (a[j].op.Load? <==> b[j].op.Load?)
  {
    EvolvedShape(ctx, a[j], b[j], |a|);
  }

  /** The last user handled, given the shape after the others. */
  lemma GepUsersStep(ctx: Ctx, st: Rw, prev: Rw, index: Value, xs: seq<nat>)
    requires 0 < |xs| && forall k :: 0 <= k < |xs| ==> xs[k] < |st.t|
    requires GepUsersFold(ctx, st, index, xs[..|xs| - 1]) == Ok(prev)
    requires GepUsersFold(ctx, st, index, xs).Ok?
    requires GepUsersDone(ctx, st.t, st.toDelete, index, xs[..|xs| - 1], prev)
    ensures GepUsersDone(ctx, st.t, st.toDelete, index, xs, GepUsersFold(ctx, st, index, xs).value)
  {
    var init, x := xs[..|xs| - 1], xs[|xs| - 1];
    var r := GepUsersFold(ctx, st, index, xs).value;
    assert GepUserStep(ctx, prev, index, x) == Ok(r);
    GrowsKeepsKind(ctx, st.t, prev.t, x);
    if st.t[x].op.Load? {
      GepLoadCall(ctx, prev, index, x);
      GepUsersDoneStep(ctx, st.t, st.toDelete, prev, r, init, x, xs, index);
    } else {
      assert r == prev;
      GepUsersSkip(ctx, st.t, st.toDelete, prev, index, xs);
    }
  }

  /** A user that is not a load adds nothing. */
  lemma GepUsersSkip(ctx: Ctx, t0: seq<Instr>, d0: seq<nat>, prev: Rw, index: Value, xs: seq<nat>)
    requires 0 < |xs| && forall k :: 0 <= k < |xs| ==> xs[k] < |t0|
    requires !t0[xs[|xs| - 1]].op.Load?
    requires GepUsersDone(ctx, t0, d0, index, xs[..|xs| - 1], prev)
    ensures GepUsersDone(ctx, t0, d0, index, xs, prev)
  {
    assert LoadsAmong(t0, xs) == LoadsAmong(t0, xs[..|xs| - 1]) + [];
  }

  /** A load through the GEP gets the next call, and the table grows. */
  lemma GepLoadCall(ctx: Ctx, prev: Rw, index: Value, x: nat)
    requires x < |prev.t| && prev.t[x].op.Load?
    requires GepUserStep(ctx, prev, index, x).Ok?
    ensures var r := GepUserStep(ctx, prev, index, x).value;
            |r.t| == |prev.t| + 1 && r.toDelete == prev.toDelete + [x] &&
            GepCall(ctx, r.t[|prev.t|], prev.t[x], index) && Grows(prev.t, r.t)
  {
    var fn := prev.t[x].fn;
    var sa := StateArg(ctx.fs, fn).value;
    var call := Instr(fn, Call(ctx.accessor, [index, sa.v]));
    AppendCallShape(ctx, prev, fn, index, sa.v, x);
    GrowsByCall(prev.t, call, InstV(x));
  }

  /** The bookkeeping half of `GepUsersStep`, on any next state. */
  lemma GepUsersDoneStep(ctx: Ctx, t0: seq<Instr>, d0: seq<nat>, prev: Rw, r: Rw, init: seq<nat>, x: nat, xs: seq<nat>, index: Value)
    requires 0 < |xs| && init == xs[..|xs| - 1] && x == xs[|xs| - 1]
    requires forall k :: 0 <= k < |xs| ==> xs[k] < |t0|
    requires t0[x].op.Load?
    requires GepUsersDone(ctx, t0, d0, index, init, prev)
    requires |r.t| == |prev.t| + 1 && r.toDelete == prev.toDelete + [x]
    requires GepCall(ctx, r.t[|prev.t|], t0[x], index) && Grows(prev.t, r.t)
    ensures GepUsersDone(ctx, t0, d0, index, xs, r)
  {
    var ls := LoadsAmong(t0, init);
    assert LoadsAmong(t0, xs) == ls + [x];
    assert r.toDelete == (d0 + ls) + [x];
    forall k | 0 <= k < |ls|
      ensures GepCall(ctx, r.t[|t0| + k], t0[ls[k]], index)
    {
      GepCallKept(ctx, prev.t[|t0| + k], r.t[|t0| + k], |prev.t|, t0[ls[k]], index);
    }
  }

  /** The position of the first `x` in `ls`, or `|ls|` when there is none. */
  function FirstIndex(ls: seq<nat>, x: nat): (k: nat)
    ensures k <= |ls| && (k < |ls| <==> x in ls)
    ensures k < |ls| ==> ls[k] == x
    ensures forall j :: 0 <= j < k ==> ls[j] != x
  {
    if |ls| == 0 then 0 else if ls[0] == x then 0 else 1 + FirstIndex(ls[1..], x)
  }

  /** Appending an entry keeps every first position already found. */
  lemma FirstIndexSnoc(ls: seq<nat>, x: nat, y: nat)
    ensures FirstIndex(ls + [x], y) == if y in ls then FirstIndex(ls, y) else if y == x then |ls| else |ls| + 1
  {
    var k, k' := FirstIndex(ls, y), FirstIndex(ls + [x], y);
    if y in ls {
      assert (ls + [x])[k] == y;
      assert k' <= k;
      assert k' < |ls| ==> ls[k'] == y;
    } else if y == x {
      assert (ls + [x])[|ls|] == y;
    }
  }

  /** An operand of an old instruction once the loads `ls` (instructions of
      a table of `n` entries) are replaced by the calls appended after it,
      the `k`-th load by instruction `n + k`. */
  function Redirect(v: Value, ls: seq<nat>, n: nat): Value
  {
    if v.InstV? && v.id in ls then InstV(n + FirstIndex(ls, v.id)) else v
  }

  /** Every old instruction of `t0` is still in `t`, in the same function,
      with each operand that named one of the loads `ls` now naming that
      load's call, and every other operand unchanged. */
  ghost predicate RedirectedFrom(t0: seq<Instr>, ls: seq<nat>, t: seq<Instr>)
  {
    |t0| <= |t| &&
    forall i :: 0 <= i < |t0| ==>
      t[i].fn == t0[i].fn && |Operands(t[i].op)| == |Operands(t0[i].op)| &&
      forall p :: 0 <= p < |Operands(t0[i].op)| ==>
        Operands(t[i].op)[p] == Redirect(Operands(t0[i].op)[p], ls, |t0|)
  }

  /** After the GEP loop, the users of each load among `xs` use that load's
      call instead, and nothing else about the old instructions changed. */
  lemma {:induction false} GepUsersFoldRedirects(ctx: Ctx, st: Rw, index: Value, xs: seq<nat>)
    requires forall k :: 0 <= k < |xs| ==> xs[k] < |st.t|
    requires GepUsersFold(ctx, st, index, xs).Ok?
    ensures RedirectedFrom(st.t, LoadsAmong(st.t, xs), GepUsersFold(ctx, st, index, xs).value.t)
    decreases |xs|
  {
    if |xs| == 0 {
      forall i, p | 0 <= i < |st.t| && 0 <= p < |Operands(st.t[i].op)|
        ensures Redirect(Operands(st.t[i].op)[p], [], |st.t|) == Operands(st.t[i].op)[p]
      {
      }
    } else {
      var init := xs[..|xs| - 1];
      assert forall k :: 0 <= k < |init| ==> init[k] == xs[k];
      var prev := GepUsersFold(ctx, st, index, init).value;
      GepUsersFoldRedirects(ctx, st, index, init);
      GepUsersFoldShape(ctx, st, index, init);
      GepRedirectStep(ctx, st, prev, index, xs);
    }
  }

  lemma GepRedirectStep(ctx: Ctx, st: Rw, prev: Rw, index: Value, xs: seq<nat>)
    requires 0 < |xs| && forall k :: 0 <= k < |xs| ==> xs[k] < |st.t|
    requires GepUsersFold(ctx, st, index, xs[..|xs| - 1]) == Ok(prev)
    requires GepUsersFold(ctx, st, index, xs).Ok?
    requires |prev.t| == |st.t| + |LoadsAmong(st.t, xs[..|xs| - 1])|
    requires RedirectedFrom(st.t, LoadsAmong(st.t, xs[..|xs| - 1]), prev.t)
    ensures RedirectedFrom(st.t, LoadsAmong(st.t, xs), GepUsersFold(ctx, st, index, xs).value.t)
  {
    var init, x := xs[..|xs| - 1], xs[|xs| - 1];
    var r := GepUsersFold(ctx, st, index, xs).value;
    assert GepUserStep(ctx, prev, index, x) == Ok(r);
    GrowsKeepsKind(ctx, st.t, prev.t, x);
    if st.t[x].op.Load? {
      GepRedirectCall(ctx, prev, index, st.t, init, xs);
    } else {
      assert r == prev;
      RedirectSkip(st.t, prev.t, xs);
    }
  }

  /** A load through the GEP: the step appends the call and redirects the load's users. */
  lemma GepRedirectCall(ctx: Ctx, prev: Rw, index: Value, t0: seq<Instr>, init: seq<nat>, xs: seq<nat>)
    requires 0 < |xs| && init == xs[..|xs| - 1]
    requires forall k :: 0 <= k < |xs| ==> xs[k] < |t0|
    requires xs[|xs| - 1] < |prev.t| && prev.t[xs[|xs| - 1]].op.Load? && t0[xs[|xs| - 1]].op.Load?
    requires GepUserStep(ctx, prev, index, xs[|xs| - 1]).Ok?
    requires |prev.t| == |t0| + |LoadsAmong(t0, init)|
    requires RedirectedFrom(t0, LoadsAmong(t0, init), prev.t)
    ensures RedirectedFrom(t0, LoadsAmong(t0, xs), GepUserStep(ctx, prev, index, xs[|xs| - 1]).value.t)
  {
    var x := xs[|xs| - 1];
    var fn := prev.t[x].fn;
    var sa := StateArg(ctx.fs, fn).value;
    assert GepUserStep(ctx, prev, index, x).value == AppendCall(ctx, prev, fn, index, sa.v, x);
    GepRedirectLoad(prev.t, Instr(fn, Call(ctx.accessor, [index, sa.v])), x, t0, init, xs);
  }

  /** A user that is not a load redirects nothing more. */
  lemma RedirectSkip(t0: seq<Instr>, t: seq<Instr>, xs: seq<nat>)
    requires 0 < |xs| && forall k :: 0 <= k < |xs| ==> xs[k] < |t0|
    requires !t0[xs[|xs| - 1]].op.Load?
    requires RedirectedFrom(t0, LoadsAmong(t0, xs[..|xs| - 1]), t)
    ensures RedirectedFrom(t0, LoadsAmong(t0, xs), t)
  {
    LoadsAmongSkip(t0, xs);
  }

  /** A user that is not a load leaves the loads found so far unchanged. */
  lemma LoadsAmongSkip(t0: seq<Instr>, xs: seq<nat>)
    requires 0 < |xs| && forall k :: 0 <= k < |xs| ==> xs[k] < |t0|
    requires !t0[xs[|xs| - 1]].op.Load?
    ensures LoadsAmong(t0, xs) == LoadsAmong(t0, xs[..|xs| - 1])
  {
    assert LoadsAmong(t0, xs) == LoadsAmong(t0, xs[..|xs| - 1]) + [];
  }

  /** One operand, when the load `x` is replaced by the call at `n0 + |ls|`. */
  lemma RedirectSnoc(v: Value, ls: seq<nat>, x: nat, n0: nat)
    requires x < n0
    ensures ReplaceValue(Redirect(v, ls, n0), InstV(x), InstV(n0 + |ls|)) == Redirect(v, ls + [x], n0)
  {
    if v.InstV? {
      FirstIndexSnoc(ls, x, v.id);
    }
  }

  /** Replacing the load `x` by the call appended at position `|t|`. */
  lemma GepRedirectLoad(t: seq<Instr>, call: Instr, x: nat, t0: seq<Instr>, init: seq<nat>, xs: seq<nat>)
    requires 0 < |xs| && init == xs[..|xs| - 1] && x == xs[|xs| - 1]
    requires forall k :: 0 <= k < |xs| ==> xs[k] < |t0|
    requires t0[x].op.Load?
    requires |t| == |t0| + |LoadsAmong(t0, init)|
    requires RedirectedFrom(t0, LoadsAmong(t0, init), t)
    ensures RedirectedFrom(t0, LoadsAmong(t0, xs), ReplaceUses(t + [call], InstV(x), InstV(|t|)))
  {
    var ls := LoadsAmong(t0, init);
    assert LoadsAmong(t0, xs) == ls + [x];
    var r := ReplaceUses(t + [call], InstV(x), InstV(|t|));
    forall i | 0 <= i < |t0|
      ensures r[i].fn == t0[i].fn && |Operands(r[i].op)| == |Operands(t0[i].op)|
      ensures forall p :: 0 <= p < |Operands(t0[i].op)| ==>
                Operands(r[i].op)[p] == Redirect(Operands(t0[i].op)[p], ls + [x], |t0|)
    {
      RedirectInstr(t, call, x, t0, ls, i);
    }
  }

  lemma RedirectInstr(t: seq<Instr>, call: Instr, x: nat, t0: seq<Instr>, ls: seq<nat>, i: nat)
    requires x < |t0| && i < |t0| && |t| == |t0| + |ls|
    requires t[i].fn == t0[i].fn && |Operands(t[i].op)| == |Operands(t0[i].op)|
    requires forall p :: 0 <= p < |Operands(t0[i].op)| ==>
               Operands(t[i].op)[p] == Redirect(Operands(t0[i].op)[p], ls, |t0|)
    ensures var r := ReplaceUses(t + [call], InstV(x), InstV(|t|));
            r[i].fn == t0[i].fn && |Operands(r[i].op)| == |Operands(t0[i].op)| &&
            forall p :: 0 <= p < |Operands(t0[i].op)| ==>
              Operands(r[i].op)[p] == Redirect(Operands(t0[i].op)[p], ls + [x], |t0|)
  {
    var t1 := t + [call];
    assert t1[i] == t[i];
    var op := ReplaceInOp(t[i].op, InstV(x), InstV(|t|));
    assert ReplaceUses(t1, InstV(x), InstV(|t|))[i] == Instr(t[i].fn, op);
    forall p | 0 <= p < |Operands(t0[i].op)|
      ensures Operands(op)[p] == Redirect(Operands(t0[i].op)[p], ls + [x], |t0|)
    {
      RedirectSnoc(Operands(t0[i].op)[p], ls, x, |t0|);
    }
  }

  /** After a successful GEP rewrite the GEP had two indices, and each load
      of the GEP got its own accessor call with the second index, in the
      load's function with that function's state argument, and was queued;
      every former user of such a load now uses the load's call instead. */
  lemma RewriteGepShape(ctx: Ctx, st: Rw, g: nat)
    requires g < |st.t| && st.t[g].op.Gep?
    requires RewriteGep(ctx, st, g).Ok?
    ensures |st.t[g].op.indices| == 2
    ensures GepUsersDone(ctx, st.t, st.toDelete, st.t[g].op.indices[1], UsersOf(st.t, InstV(g)),
                         RewriteGep(ctx, st, g).value)
    ensures forall j :: 0 <= j < |st.t| && st.t[j].op == Load(InstV(g)) ==>
              j in LoadsAmong(st.t, UsersOf(st.t, InstV(g)))
    ensures RedirectedFrom(st.t, LoadsAmong(st.t, UsersOf(st.t, InstV(g))), RewriteGep(ctx, st, g).value.t)
  {
    var xs := UsersOf(st.t, InstV(g));
    GepUsersFoldShape(ctx, st, st.t[g].op.indices[1], xs);
    GepUsersFoldRedirects(ctx, st, st.t[g].op.indices[1], xs);
    LoadsAmongSpec(st.t, xs);
    forall j | 0 <= j < |st.t| && st.t[j].op == Load(InstV(g))
      ensures j in LoadsAmong(st.t, xs)
    {
      assert Operands(st.t[j].op)[0] == InstV(g);
    }
  }

  /** Every use of the global the loop has reached is handled. */
  lemma {:induction false} UsesFoldHandles(ctx: Ctx, st: Rw, us: seq<nat>)
    requires forall k :: 0 <= k < |us| ==> us[k] < |st.t|
    requires UsesFold(ctx, st, us).Ok?
    ensures forall k :: 0 <= k < |us| ==> Handled(st.t, UsesFold(ctx, st, us).value, us[k])
    decreases |us|
  {
    if |us| > 0 {
      var init := us[..|us| - 1];
      var u := us[|us| - 1];
      var prev := UsesFold(ctx, st, init).value;
      var r := UsesFold(ctx, st, us).value;
      UsesFoldHandles(ctx, st, init);
      assert r == RewriteUse(ctx, prev, u).value;
      forall k | 0 <= k < |us| - 1
        ensures Handled(st.t, r, us[k])
      {
        assert us[k] == init[k];
        HandledKept(ctx, st.t, prev, r, us[k]);
      }
      EvolvedShape(ctx, st.t[u], prev.t[u], |st.t|);
      if prev.t[u].op.Gep? {
        RewriteGepQueues(ctx, prev, u);
      }
    }
  }

  /** No live load reads the builtin, neither directly nor through a GEP of it. */
  predicate NoBuiltinReads(t: seq<Instr>, b: string)
  {
    forall j :: 0 <= j < |t| && t[j].op.Load? ==>
      t[j].op.ptr != GlobalV(b) &&
      !(t[j].op.ptr.InstV? && t[j].op.ptr.id < |t| &&
        t[t[j].op.ptr.id].op.Gep? && GlobalV(b) in Operands(t[t[j].op.ptr.id].op))
  }

  /** Before erasure: every load that reads the builtin is queued. */
  lemma ReadersQueued(ctx: Ctx, b: string, t0: seq<Instr>)
    requires UsesFold(ctx, Rw(t0, [], false), UsersOf(t0, GlobalV(b))).Ok?
    ensures var r := UsesFold(ctx, Rw(t0, [], false), UsersOf(t0, GlobalV(b))).value;
            forall j :: 0 <= j < |r.t| && r.t[j].op.Load? ==>
              (r.t[j].op.ptr == GlobalV(b) ==> j in r.toDelete) &&
              ((r.t[j].op.ptr.InstV? && r.t[j].op.ptr.id < |r.t| &&
                r.t[r.t[j].op.ptr.id].op.Gep? && GlobalV(b) in Operands(r.t[r.t[j].op.ptr.id].op))
                 ==> j in r.toDelete)
  {
    var st := Rw(t0, [], false);
    var us := UsersOf(t0, GlobalV(b));
    var r := UsesFold(ctx, st, us).value;
    UsesFoldHandles(ctx, st, us);
    forall j | 0 <= j < |r.t| && r.t[j].op.Load?
      ensures r.t[j].op.ptr == GlobalV(b) ==> j in r.toDelete
      ensures (r.t[j].op.ptr.InstV? && r.t[j].op.ptr.id < |r.t| &&
               r.t[r.t[j].op.ptr.id].op.Gep? && GlobalV(b) in Operands(r.t[r.t[j].op.ptr.id].op))
                ==> j in r.toDelete
    {
      var p := r.t[j].op.ptr;
      if p == GlobalV(b) {
        GrowsKeepsOldLoad(t0, r.t, j, p);
        assert UsesValue(t0[j], GlobalV(b));
        var k :| 0 <= k < |us| && us[k] == j;
        assert Handled(t0, r, us[k]);
      }
      if p.InstV? && p.id < |r.t| && r.t[p.id].op.Gep? && GlobalV(b) in Operands(r.t[p.id].op) {
        var g := p.id;
        GrowsKeepsGep(t0, r.t, g, b);
        assert UsesValue(t0[g], GlobalV(b));
        var k :| 0 <= k < |us| && us[k] == g;
        assert Handled(t0, r, us[k]);
      }
    }
  }

  /** After erasing the queue, each old instruction is erased (and was a
      load or an extract) or has evolved. */
  lemma ErasureKeepsOld(ctx: Ctx, t0: seq<Instr>, r: Rw)
    requires Advances(ctx, Rw(t0, [], false), r)
    ensures var mt := MarkErased(r.t, r.toDelete);
            forall j :: 0 <= j < |t0| ==> (mt[j].op.Erased? && Deletable(t0[j])) || Evolved(t0[j], mt[j], |t0|)
  {
    var mt := MarkErased(r.t, r.toDelete);
    forall j | 0 <= j < |t0|
      ensures (mt[j].op.Erased? && Deletable(t0[j])) || Evolved(t0[j], mt[j], |t0|)
    {
      if j in r.toDelete {
        EvolvedShape(ctx, t0[j], r.t[j], |t0|);
      }
    }
  }

  /** Erasing the queue leaves every added accessor call in place. */
  lemma ErasureKeepsNew(ctx: Ctx, t0: seq<Instr>, r: Rw)
    requires Advances(ctx, Rw(t0, [], false), r)
    ensures var mt := MarkErased(r.t, r.toDelete);
            forall j :: |t0| <= j < |mt| ==> AccessorCall(ctx, mt[j])
  {
    forall j | |t0| <= j < |r.t|
      ensures j !in r.toDelete
    {
      assert AccessorCall(ctx, r.t[j]);
    }
  }

  /** Erasing the queue removes every read of the builtin. */
  lemma ErasureNoReads(ctx: Ctx, b: string, t0: seq<Instr>)
    requires UsesFold(ctx, Rw(t0, [], false), UsersOf(t0, GlobalV(b))).Ok?
    ensures var r := UsesFold(ctx, Rw(t0, [], false), UsersOf(t0, GlobalV(b))).value;
            NoBuiltinReads(MarkErased(r.t, r.toDelete), b)
  {
    ReadersQueued(ctx, b, t0);
  }

  /** The builtin materialisation, when it succeeds: the global is gone, no live
      load reads it, only loads and extracts are erased, every other old
      instruction keeps its function, kind and operands except that some
      instruction operands now name newer instructions, every added
      instruction is a call of the accessor whose second argument is a
      function's last parameter, and `changed` says whether a call was added. */
  lemma MaterializeSpec(ctx: Ctx, b: string, globals: set<string>, t0: seq<Instr>)
    requires Materialize(ctx, b, globals, t0).Ok?
    ensures var m := Materialize(ctx, b, globals, t0).value;
            m.globals == globals - {b} &&
            (b in globals ==> NoBuiltinReads(m.t, b)) &&
            |t0| <= |m.t| &&
            (forall j :: 0 <= j < |t0| ==>
               (m.t[j].op.Erased? && Deletable(t0[j])) || Evolved(t0[j], m.t[j], |t0|)) &&
            (forall j :: |t0| <= j < |m.t| ==> AccessorCall(ctx, m.t[j])) &&
            (m.changed <==> |t0| < |m.t|)
  {
    if b in globals {
      var r := UsesFold(ctx, Rw(t0, [], false), UsersOf(t0, GlobalV(b))).value;
      assert Materialize(ctx, b, globals, t0).value == Materialized(MarkErased(r.t, r.toDelete), globals - {b}, r.changed);
      ErasureNoReads(ctx, b, t0);
      ErasureKeepsOld(ctx, t0, r);
      ErasureKeepsNew(ctx, t0, r);
    } else {
      GrowsRefl(t0);
    }
  }
}
