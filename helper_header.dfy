/** The helper-header emitters (`EmitSYCLNativeCPUHeader` and
    `EmitSYCLHCHeader`): for each kernel an `extern "C"` declaration and a
    `subhandler` that unpacks type-erased argument descriptors and calls the
    kernel. The two passes differ only in the values held by `Flavour`. */
module HelperHeader {
  import opened Common
  import opened Ir
  import opened ArgMetadata

  datatype Flavour = Flavour(argDescClass: string, includeLine: string, emptyNameError: HeaderError)

  const NativeCpuFlavour: Flavour := Flavour(
    "sycl::detail::NativeCPUArgDesc",
    "#include <sycl/detail/native_cpu.hpp>\n",
    FatalError("No file name for Native CPU helper header specified"))

  const HostCompilationFlavour: Flavour := Flavour(
    "sycl::detail::HostCompilationArgDesc",
    "#include <sycl/detail/host_compilation.hpp>\n",
    Exit(1))

  const StateParam: string := "_hc_state *"

  // ------------------------------------------------------ the declaration

  /** `EmitArgDecl`: pointers are declared `void *`, scalars by type name. */
  function DeclArg(t: IrType, names: seq<string>, index: nat): Result<string, HeaderError>
  {
    if t.PointerTo? then Ok("void *")
    else if index < |names| then Ok(names[index])
    else Err(OutOfRange)
  }

  /** The declarations of parameters `0 .. |pos|-1`, parameter `j` named by
      original position `pos[j]`; the first failure wins. */
  function DeclArgs(params: seq<IrType>, names: seq<string>, pos: seq<nat>): Result<seq<string>, HeaderError>
    requires |pos| <= |params|
    decreases |pos|
  {
    if |pos| == 0 then Ok([])
    else
      var init := DeclArgs(params, names, pos[..|pos| - 1]);
      var last := DeclArg(params[|pos| - 1], names, pos[|pos| - 1]);
      if init.Err? then init
      else if last.Err? then Err(last.error)
      else Ok(init.value + [last.value])
  }

  /** Where the declaration loop's first test fails (`argMask.size() - 1`). */
  function MaskLimit(n: nat): nat { if n == 0 then 0 else n - 1 }

  /** The loop's second bound, `NumParams - 1` in 32-bit unsigned arithmetic. */
  function ParamLimit(p: nat): nat { if p == 0 then TWO_POW_32 - 1 else p - 1 }

  /** The index at which the declaration loop stops: just after the
      `ParamLimit`-th surviving position, or at the mask limit if fewer
      positions survive below it. */
  function DeclStop(mask: seq<bool>, p: nat): (s: nat)
    ensures s <= MaskLimit(|mask|)
  {
    var tp := TruePositions(mask[..MaskLimit(|mask|)]);
    var pl := ParamLimit(p);
    if |tp| < pl then MaskLimit(|mask|)
    else if pl == 0 then 0
    else
      TruePositionsSound(mask[..MaskLimit(|mask|)]);
      tp[pl - 1] + 1
  }

  /** The original positions the declaration loop emits. */
  function DeclPositions(mask: seq<bool>, p: nat): seq<nat>
  {
    TruePositions(mask[..DeclStop(mask, p)])
  }

  /** The declared parameter list, as written: the emitted positions, then
      one more parameter taken at the stop index, then the state pointer;
      nothing at all if the loop emitted nothing. */
  function DeclParams(f: Function, mask: seq<bool>, names: seq<string>): Result<seq<string>, HeaderError>
  {
    var p := |f.params|;
    if |mask| == 0 && ParamLimit(p) > 0 then Err(OutOfRange)
    else
      var pos := DeclPositions(mask, p);
      if |pos| == 0 then Ok([])
      else if |pos| >= p then Err(OutOfRange)
      else
        var args := DeclArgs(f.params, names, pos);
        var last := DeclArg(f.params[|pos|], names, DeclStop(mask, p));
        if args.Err? then args
        else if last.Err? then Err(last.error)
        else Ok(args.value + [last.value, StateParam])
  }

  function DeclHead(f: Function): string
  {
    "extern \"C\" void " + f.name + "("
  }

  function DeclText(f: Function, mask: seq<bool>, names: seq<string>): Result<string, HeaderError>
  {
    var ps := DeclParams(f, mask, names);
    if ps.Err? then Err(ps.error) else Ok(DeclHead(f) + Join(ps.value, ", ") + ");\n")
  }

  lemma {:induction false} DeclArgsError(params: seq<IrType>, names: seq<string>, pos: seq<nat>, k: nat)
    requires k <= |pos| <= |params|
    requires DeclArgs(params, names, pos[..k]).Err?
    ensures DeclArgs(params, names, pos) == DeclArgs(params, names, pos[..k])
    decreases |pos| - k
  {
    if k < |pos| {
      assert pos[..k + 1][..k] == pos[..k];
      DeclArgsError(params, names, pos, k + 1);
    } else {
      assert pos[..k] == pos;
    }
  }

  /** At the loop's exit the index reached is `DeclStop`. */
  lemma DeclStopAtExit(mask: seq<bool>, p: nat, i: nat)
    requires |mask| > 0 || ParamLimit(p) == 0
    requires i <= MaskLimit(|mask|)
    requires |TruePositions(mask[..i])| <= ParamLimit(p)
    requires i == MaskLimit(|mask|) || |TruePositions(mask[..i])| == ParamLimit(p)
    requires ParamLimit(p) == 0 ==> i == 0
    requires |TruePositions(mask[..i])| == ParamLimit(p) && ParamLimit(p) > 0 ==> i > 0 && mask[i - 1]
    ensures i == DeclStop(mask, p)
  {
    var ml := MaskLimit(|mask|);
    var pl := ParamLimit(p);
    var s := mask[..ml];
    assert s[..i] == mask[..i];
    TruePositionsPrefix(s, i);
    if |TruePositions(mask[..i])| == pl && pl > 0 {
      TruePositionsStep(mask, i - 1);
      assert mask[..i - 1 + 1] == mask[..i];
    }
  }

  /** One surviving position declared by the loop extends the declared list. */
  lemma DeclLoopStep(f: Function, mask: seq<bool>, names: seq<string>, i: nat, ds: seq<string>, d: string)
    requires i < |mask| && mask[i]
    requires |TruePositions(mask[..i])| < |f.params|
    requires DeclArgs(f.params, names, TruePositions(mask[..i])) == Ok(ds)
    requires DeclArg(f.params[|TruePositions(mask[..i])|], names, i) == Ok(d)
    ensures |TruePositions(mask[..i + 1])| == |TruePositions(mask[..i])| + 1
    ensures DeclArgs(f.params, names, TruePositions(mask[..i + 1])) == Ok(ds + [d])
  {
    TruePositionsStep(mask, i);
    var pos := TruePositions(mask[..i + 1]);
    assert pos[..|pos| - 1] == TruePositions(mask[..i]);
  }

  /** A position the mask drops is skipped. */
  lemma DeclSkipStep(mask: seq<bool>, i: nat)
    requires i < |mask| && !mask[i]
    ensures TruePositions(mask[..i + 1]) == TruePositions(mask[..i])
  {
    TruePositionsStep(mask, i);
  }

  /** The declaration text once the loop has stopped at index `i` having
      declared `ds`. */
  lemma DeclFinish(f: Function, mask: seq<bool>, names: seq<string>, i: nat, ds: seq<string>)
    requires DeclStopped(f, mask, names, i, ds)
    ensures |ds| == 0 ==> DeclText(f, mask, names) == Ok(DeclHead(f) + ");\n")
    ensures 0 < |ds| < |f.params| ==>
      var last := DeclArg(f.params[|ds|], names, i);
      DeclText(f, mask, names) ==
        if last.Err? then Err(OutOfRange)
        else Ok(DeclHead(f) + Terminated(ds, ", ") + (last.value + ", " + StateParam) + ");\n")
  {
    DeclStopAtExit(mask, |f.params|, i);
    DeclParamsAtStop(f, mask, names, ds);
    if |ds| == 0 {
      DeclTextOf(f, mask, names, Ok([]));
      assert Join([], ", ") == "";
      assert DeclHead(f) + "" == DeclHead(f);
    } else if |ds| < |f.params| {
      var last := DeclArg(f.params[|ds|], names, i);
      if last.Err? {
        DeclTextOf(f, mask, names, Err(OutOfRange));
      } else {
        DeclTextWithState(f, mask, names, ds, last.value);
      }
    }
  }

  /** The loop exit state `DeclFinish` needs: stopped at `i`, having
      declared the surviving positions before it as `ds`. */
  ghost predicate DeclStopped(f: Function, mask: seq<bool>, names: seq<string>, i: nat, ds: seq<string>)
  {
    (|mask| > 0 || ParamLimit(|f.params|) == 0) &&
    i <= MaskLimit(|mask|) &&
    |TruePositions(mask[..i])| <= ParamLimit(|f.params|) &&
    (i == MaskLimit(|mask|) || |TruePositions(mask[..i])| == ParamLimit(|f.params|)) &&
    (ParamLimit(|f.params|) == 0 ==> i == 0) &&
    (|TruePositions(mask[..i])| == ParamLimit(|f.params|) && ParamLimit(|f.params|) > 0 ==> i > 0 && mask[i - 1]) &&
    (|TruePositions(mask[..i])| == 0 || |TruePositions(mask[..i])| < |f.params|) &&
    |ds| == |TruePositions(mask[..i])| &&
    DeclArgs(f.params, names, TruePositions(mask[..i])) == Ok(ds)
  }

  /** The parameter loop of `emitKernelDecl`: it either runs into an
      undefined access, and then the whole declaration fails, or stops with
      the declared parameters written after the head. */
  method DeclLoop(f: Function, mask: seq<bool>, names: seq<string>)
    returns (failed: bool, i: nat, ds: seq<string>, out: string)
    ensures failed ==> DeclText(f, mask, names) == Err(OutOfRange)
    ensures !failed ==> DeclStopped(f, mask, names, i, ds)
    ensures !failed ==> out == Terminated(ds, ", ")
  {
    var numParams := |f.params|;
    out := "";
    var maskBound: int := if |mask| == 0 then TWO_POW_64 - 1 else |mask| - 1;
    var pl := ParamLimit(numParams);
    var used: nat := 0;
    i, ds := 0, [];
    while i < maskBound && used < pl
      invariant i <= maskBound
      invariant |mask| == 0 ==> i == 0
      invariant |mask| > 0 ==> i <= |mask| - 1
      invariant used == |TruePositions(mask[..i])| <= pl
      invariant pl == 0 ==> i == 0
      invariant used == pl && pl > 0 ==> i > 0 && mask[i - 1]
      invariant used == 0 || used < numParams
      invariant |ds| == used
      invariant DeclArgs(f.params, names, TruePositions(mask[..i])) == Ok(ds)
      invariant out == Terminated(ds, ", ")
      decreases maskBound - i
    {
      if i >= |mask| {
        return true, i, ds, out;
      }
      if !mask[i] {
        DeclSkipStep(mask, i);
        i := i + 1;
        continue;
      }
      if used >= numParams {
        // only when the kernel has no parameter at all: `getArg(0)`
        DeclOutOfParams(f, mask, names, i);
        return true, i, ds, out;
      }
      var d := DeclArg(f.params[used], names, i);
      if d.Err? {
        DeclEmitError(f, mask, names, i);
        return true, i, ds, out;
      }
      DeclLoopStep(f, mask, names, i, ds, d.value);
      TerminatedSnoc(ds, d.value, ", ");
      out := out + d.value + ", ";
      ds := ds + [d.value];
      used := used + 1;
      i := i + 1;
    }
    DeclLoopExit(f, mask, names, i, ds, maskBound);
    failed := false;
  }

  /** The loop's invariants and its failed test give `DeclStopped`. */
  lemma DeclLoopExit(f: Function, mask: seq<bool>, names: seq<string>, i: nat, ds: seq<string>, maskBound: int)
    requires maskBound == if |mask| == 0 then TWO_POW_64 - 1 else |mask| - 1
    requires i <= maskBound
    requires |mask| == 0 ==> i == 0
    requires |ds| == |TruePositions(mask[..i])| <= ParamLimit(|f.params|)
    requires !(i < maskBound && |ds| < ParamLimit(|f.params|))
    requires ParamLimit(|f.params|) == 0 ==> i == 0
    requires |ds| == ParamLimit(|f.params|) && ParamLimit(|f.params|) > 0 ==> i > 0 && mask[i - 1]
    requires |ds| == 0 || |ds| < |f.params|
    requires DeclArgs(f.params, names, TruePositions(mask[..i])) == Ok(ds)
    ensures DeclStopped(f, mask, names, i, ds)
  {
  }

  /** `emitKernelDecl`. */
  method EmitKernelDecl(f: Function, mask: seq<bool>, names: seq<string>) returns (r: Result<string, HeaderError>)
    ensures r == DeclText(f, mask, names)
  {
    var failed, i, ds, params := DeclLoop(f, mask, names);
    if failed {
      return Err(OutOfRange);
    }
    DeclFinish(f, mask, names, i, ds);
    var out := DeclHead(f);
    if |ds| == 0 {
      assert out + params == out;
      return Ok(out + ");\n");
    }
    var last := DeclArg(f.params[|ds|], names, i);
    if last.Err? {
      return Err(OutOfRange);
    }
    return Ok(out + params + (last.value + ", " + StateParam) + ");\n");
  }

  /** The parameter list once the loop has stopped at `DeclStop`, having declared `ds`. */
  lemma DeclParamsAtStop(f: Function, mask: seq<bool>, names: seq<string>, ds: seq<string>)
    requires |mask| > 0 || ParamLimit(|f.params|) == 0
    requires |DeclPositions(mask, |f.params|)| == 0 || |DeclPositions(mask, |f.params|)| < |f.params|
    requires DeclArgs(f.params, names, DeclPositions(mask, |f.params|)) == Ok(ds)
    ensures |ds| == |DeclPositions(mask, |f.params|)|
    ensures |ds| == 0 ==> DeclParams(f, mask, names) == Ok([])
    ensures 0 < |ds| < |f.params| ==>
      var last := DeclArg(f.params[|ds|], names, DeclStop(mask, |f.params|));
      DeclParams(f, mask, names) ==
        if last.Err? then Err(OutOfRange) else Ok(ds + [last.value, StateParam])
  {
    DeclArgsLength(f.params, names, DeclPositions(mask, |f.params|));
  }

  /** How the declaration text follows from the parameter list. */
  lemma DeclTextOf(f: Function, mask: seq<bool>, names: seq<string>, ps: Result<seq<string>, HeaderError>)
    requires DeclParams(f, mask, names) == ps
    ensures ps.Err? ==> DeclText(f, mask, names) == Err(ps.error)
    ensures ps.Ok? ==> DeclText(f, mask, names) == Ok(DeclHead(f) + Join(ps.value, ", ") + ");\n")
  {
  }

  /** A non-empty parameter list ends with the extra parameter and the state pointer. */
  lemma DeclTextWithState(f: Function, mask: seq<bool>, names: seq<string>, ds: seq<string>, last: string)
    requires DeclParams(f, mask, names) == Ok(ds + [last, StateParam])
    ensures DeclText(f, mask, names) == Ok(DeclHead(f) + Terminated(ds, ", ") + (last + ", " + StateParam) + ");\n")
  {
    DeclTextOf(f, mask, names, Ok(ds + [last, StateParam]));
    TerminatedThenJoin(ds, [last, StateParam], ", ");
    var tail := last + ", " + StateParam;
    assert Join([last, StateParam], ", ") == tail;
    var h, t := DeclHead(f), Terminated(ds, ", ");
    assert h + (t + tail) + ");\n" == h + t + tail + ");\n";
  }

  lemma {:induction false} DeclArgsLength(params: seq<IrType>, names: seq<string>, pos: seq<nat>)
    requires |pos| <= |params|
    ensures DeclArgs(params, names, pos).Ok? ==> |DeclArgs(params, names, pos).value| == |pos|
    ensures DeclArgs(params, names, pos).Err? ==> DeclArgs(params, names, pos).error == OutOfRange
    decreases |pos|
  {
    if |pos| > 0 {
      DeclArgsLength(params, names, pos[..|pos| - 1]);
    }
  }

  /** A surviving position `i` below the loop's bounds is emitted: the
      positions up to and including `i` start the emitted positions. */
  lemma DeclStopBeyond(mask: seq<bool>, p: nat, i: nat)
    requires i < MaskLimit(|mask|) && mask[i]
    requires |TruePositions(mask[..i])| < ParamLimit(p)
    ensures i + 1 <= DeclStop(mask, p)
    ensures |TruePositions(mask[..i + 1])| <= |DeclPositions(mask, p)|
    ensures DeclPositions(mask, p)[..|TruePositions(mask[..i + 1])|] == TruePositions(mask[..i + 1])
  {
    var ml := MaskLimit(|mask|);
    var s := mask[..ml];
    var pl := ParamLimit(p);
    var used := |TruePositions(mask[..i])|;
    TruePositionsStep(mask, i);
    assert s[..i + 1] == mask[..i + 1];
    TruePositionsPrefix(s, i + 1);
    TruePositionsSound(s);
    var stop := DeclStop(mask, p);
    if |TruePositions(s)| >= pl {
      assert TruePositions(s)[used] == i;
      if used < pl - 1 {
        assert TruePositions(s)[used] < TruePositions(s)[pl - 1];
      }
    }
    assert i + 1 <= stop;
    assert s[..stop] == mask[..stop];
    assert mask[..stop][..i + 1] == mask[..i + 1];
    TruePositionsPrefix(mask[..stop], i + 1);
  }

  /** A surviving position met with no parameter to declare makes the
      whole declaration undefined. */
  lemma DeclOutOfParams(f: Function, mask: seq<bool>, names: seq<string>, i: nat)
    requires |f.params| == 0
    requires i < MaskLimit(|mask|) && mask[i]
    requires |TruePositions(mask[..i])| == 0
    ensures DeclText(f, mask, names) == Err(OutOfRange)
  {
    DeclStopBeyond(mask, 0, i);
  }

  lemma DeclArgError(t: IrType, names: seq<string>, index: nat)
    ensures DeclArg(t, names, index).Err? ==> DeclArg(t, names, index).error == OutOfRange
  {
  }

  /** A failing declaration at the loop's current position fails the whole. */
  lemma DeclEmitError(f: Function, mask: seq<bool>, names: seq<string>, i: nat)
    requires i < MaskLimit(|mask|) && mask[i]
    requires |TruePositions(mask[..i])| < ParamLimit(|f.params|)
    requires |TruePositions(mask[..i])| < |f.params|
    requires DeclArgs(f.params, names, TruePositions(mask[..i])).Ok?
    requires DeclArg(f.params[|TruePositions(mask[..i])|], names, i).Err?
    ensures DeclText(f, mask, names) == Err(OutOfRange)
  {
    var p := |f.params|;
    DeclStopBeyond(mask, p, i);
    var q := TruePositions(mask[..i + 1]);
    TruePositionsStep(mask, i);
    assert q[..|q| - 1] == TruePositions(mask[..i]);
    assert q[|q| - 1] == i;
    assert DeclArgs(f.params, names, q) == Err(OutOfRange);
    var pos := DeclPositions(mask, p);
    if |pos| < p {
      DeclArgsError(f.params, names, pos, |q|);
    }
  }

  // ------------------------------------------------------ the subhandler

  /** One unpacking statement of the subhandler. */
  datatype Unpack = UnpackPointer(index: nat) | UnpackScalar(typeName: string, index: nat)

  /** `EmitParamCast`'s choice: a pointer parameter is taken as an address,
      a scalar is read through its source type name. */
  function UnpackOf(t: IrType, names: seq<string>, index: nat): Result<Unpack, HeaderError>
  {
    if t.PointerTo? then Ok(UnpackPointer(index))
    else if index < |names| then Ok(UnpackScalar(names[index], index))
    else Err(OutOfRange)
  }

  function Unpacks(params: seq<IrType>, names: seq<string>, pos: seq<nat>): Result<seq<Unpack>, HeaderError>
    requires |pos| <= |params|
    decreases |pos|
  {
    if |pos| == 0 then Ok([])
    else
      var init := Unpacks(params, names, pos[..|pos| - 1]);
      var last := UnpackOf(params[|pos| - 1], names, pos[|pos| - 1]);
      if init.Err? then init
      else if last.Err? then Err(last.error)
      else Ok(init.value + [last.value])
  }

  function ArgName(i: nat): string { "arg" + Decimal(i) }

  function RenderUnpack(u: Unpack): string
  {
    match u
    case UnpackPointer(i) =>
      "  void* " + ArgName(i) + " = " + "MArgs[" + Decimal(i) + "].getPtr();\n"
    case UnpackScalar(tn, i) =>
      "  " + tn + " " + ArgName(i) + " = " + "*(" + tn + "*)" + "MArgs[" + Decimal(i) + "].getPtr();\n"
  }

  function RenderUnpacks(us: seq<Unpack>): string
    decreases |us|
  {
    if |us| == 0 then "" else RenderUnpacks(us[..|us| - 1]) + RenderUnpack(us[|us| - 1])
  }

  /** The original positions the subhandler unpacks: the first
      `min(count, NumParams)` surviving positions. */
  function HandlerPositions(mask: seq<bool>, p: nat): seq<nat>
  {
    var tp := TruePositions(mask);
    if |tp| <= p then tp else tp[..p]
  }

  function ArgNames(pos: seq<nat>): seq<string>
  {
    seq(|pos|, j requires 0 <= j < |pos| => ArgName(pos[j]))
  }

  /** The arguments of the kernel call: the unpacked ones in order and the
      state last, or no argument at all when nothing was unpacked. */
  function CallArgs(pos: seq<nat>): seq<string>
  {
    if |pos| == 0 then [] else ArgNames(pos) + ["state"]
  }

  function HandlerHead(fl: Flavour, f: Function): string
  {
    "\ninline static void " + f.name + "subhandler(" +
    "const std::vector<" + fl.argDescClass + ">& MArgs, _hc_state *state) {\n"
  }

  function CallText(f: Function, pos: seq<nat>): string
  {
    "  " + f.name + "(" + Join(CallArgs(pos), ", ") + ");\n"
  }

  /** The unpacking statements of the subhandler. */
  function UnpackText(f: Function, mask: seq<bool>, names: seq<string>): Result<string, HeaderError>
  {
    var us := Unpacks(f.params, names, HandlerPositions(mask, |f.params|));
    if us.Err? then Err(us.error) else Ok(RenderUnpacks(us.value))
  }

  function HandlerText(fl: Flavour, f: Function, mask: seq<bool>, names: seq<string>): Result<string, HeaderError>
  {
    var unpacked := UnpackText(f, mask, names);
    if unpacked.Err? then Err(unpacked.error)
    else Ok(HandlerHead(fl, f) + unpacked.value + CallText(f, HandlerPositions(mask, |f.params|)) + "};\n\n")
  }

  lemma {:induction false} UnpacksError(params: seq<IrType>, names: seq<string>, pos: seq<nat>, k: nat)
    requires k <= |pos| <= |params|
    requires Unpacks(params, names, pos[..k]).Err?
    ensures Unpacks(params, names, pos) == Unpacks(params, names, pos[..k])
    decreases |pos| - k
  {
    if k < |pos| {
      assert pos[..k + 1][..k] == pos[..k];
      UnpacksError(params, names, pos, k + 1);
    } else {
      assert pos[..k] == pos;
    }
  }

  /** The unpacking loop's positions at exit are `HandlerPositions`. */
  lemma HandlerPositionsAtExit(mask: seq<bool>, p: nat, i: nat)
    requires i <= |mask|
    requires |TruePositions(mask[..i])| <= p
    requires i == |mask| || |TruePositions(mask[..i])| == p
    ensures TruePositions(mask[..i]) == HandlerPositions(mask, p)
  {
    TruePositionsPrefix(mask, i);
    if i == |mask| {
      assert mask[..i] == mask;
    }
  }

  /** One more unpacked argument extends both the list and the text. */
  lemma UnpacksSnoc(params: seq<IrType>, names: seq<string>, pos: seq<nat>, us: seq<Unpack>, i: nat, u: Unpack)
    requires |pos| < |params|
    requires Unpacks(params, names, pos) == Ok(us)
    requires UnpackOf(params[|pos|], names, i) == Ok(u)
    ensures Unpacks(params, names, pos + [i]) == Ok(us + [u])
    ensures RenderUnpacks(us + [u]) == RenderUnpacks(us) + RenderUnpack(u)
  {
    assert (pos + [i])[..|pos|] == pos;
    assert (us + [u])[..|us|] == us;
  }

  /** An argument that cannot be unpacked fails the whole subhandler. */
  lemma UnpackError(f: Function, mask: seq<bool>, names: seq<string>, i: nat)
    requires i < |mask| && mask[i]
    requires |TruePositions(mask[..i])| < |f.params|
    requires Unpacks(f.params, names, TruePositions(mask[..i])).Ok?
    requires UnpackOf(f.params[|TruePositions(mask[..i])|], names, i).Err?
    ensures UnpackText(f, mask, names) == Err(OutOfRange)
  {
    var p := |f.params|;
    TruePositionsStep(mask, i);
    var next := TruePositions(mask[..i + 1]);
    assert next[..|next| - 1] == TruePositions(mask[..i]);
    HandlerPositionsPrefix(mask, p, i + 1);
    UnpacksError(f.params, names, HandlerPositions(mask, p), |next|);
  }

  lemma UnpackTextOf(f: Function, mask: seq<bool>, names: seq<string>, us: seq<Unpack>)
    requires Unpacks(f.params, names, HandlerPositions(mask, |f.params|)) == Ok(us)
    ensures UnpackText(f, mask, names) == Ok(RenderUnpacks(us))
  {
  }

  /** `emitSubKernelHandler`; `usedArgIdx` is the list it records. */
  method EmitSubKernelHandler(fl: Flavour, f: Function, mask: seq<bool>, names: seq<string>)
    returns (r: Result<string, HeaderError>, usedArgIdx: seq<nat>)
    ensures r == HandlerText(fl, f, mask, names)
    ensures r.Ok? ==> usedArgIdx == HandlerPositions(mask, |f.params|)
  {
    var unpacked;
    unpacked, usedArgIdx := EmitUnpacks(f, mask, names);
    if unpacked.Err? {
      return Err(unpacked.error), usedArgIdx;
    }
    var call := EmitCall(f, usedArgIdx);
    r := Ok(HandlerHead(fl, f) + unpacked.value + call + "};\n\n");
  }

  /** The unpacking loop of `emitSubKernelHandler`. */
  method EmitUnpacks(f: Function, mask: seq<bool>, names: seq<string>)
    returns (r: Result<string, HeaderError>, usedArgIdx: seq<nat>)
    ensures r == UnpackText(f, mask, names)
    ensures r.Ok? ==> usedArgIdx == HandlerPositions(mask, |f.params|)
  {
    usedArgIdx := [];
    var numParams := |f.params|;
    var out := "";
    var i, used := 0, 0;
    ghost var us: seq<Unpack> := [];
    while i < |mask| && used < numParams
      invariant 0 <= i <= |mask|
      invariant usedArgIdx == TruePositions(mask[..i])
      invariant used == |usedArgIdx| <= numParams
      invariant Unpacks(f.params, names, usedArgIdx) == Ok(us)
      invariant out == RenderUnpacks(us)
    {
      TruePositionsStep(mask, i);
      if mask[i] {
        var u := UnpackOf(f.params[used], names, i);
        if u.Err? {
          UnpackError(f, mask, names, i);
          return Err(OutOfRange), usedArgIdx + [i];
        }
        UnpacksSnoc(f.params, names, usedArgIdx, us, i, u.value);
        out := out + RenderUnpack(u.value);
        us := us + [u.value];
        usedArgIdx := usedArgIdx + [i];
        used := used + 1;
      }
      i := i + 1;
    }
    HandlerPositionsAtExit(mask, numParams, i);
    UnpackTextOf(f, mask, names, us);
    r := Ok(out);
  }

  /** The call statement closing the subhandler. */
  method EmitCall(f: Function, usedArgIdx: seq<nat>) returns (out: string)
    ensures out == CallText(f, usedArgIdx)
  {
    var base := "  " + f.name + "(";
    if |usedArgIdx| == 0 {
      out := base + ");\n";
      return;
    }
    var args := "";
    var k := 0;
    while k < |usedArgIdx| - 1
      invariant 0 <= k <= |usedArgIdx| - 1
      invariant args == Terminated(ArgNames(usedArgIdx[..k]), ", ")
    {
      assert ArgNames(usedArgIdx[..k + 1]) == ArgNames(usedArgIdx[..k]) + [ArgName(usedArgIdx[k])];
      TerminatedSnoc(ArgNames(usedArgIdx[..k]), ArgName(usedArgIdx[k]), ", ");
      args := args + ArgName(usedArgIdx[k]) + ", ";
      k := k + 1;
    }
    var lastIdx := usedArgIdx[|usedArgIdx| - 1];
    CallTextLast(f, usedArgIdx, k);
    out := base + args + (ArgName(lastIdx) + ", state") + ");\n";
  }

  lemma CallTextLast(f: Function, pos: seq<nat>, k: nat)
    requires k + 1 == |pos|
    ensures CallText(f, pos) ==
      "  " + f.name + "(" + Terminated(ArgNames(pos[..k]), ", ") + (ArgName(pos[k]) + ", state") + ");\n"
  {
    var names := ArgNames(pos[..k]);
    var a := ArgName(pos[k]);
    assert ArgNames(pos) == names + [a];
    assert CallArgs(pos) == names + [a, "state"];
    TerminatedThenJoin(names, [a, "state"], ", ");
    var t, tail := Terminated(names, ", "), a + ", state";
    ConcatAssoc(a, ", ", "state");
    assert Join([a, "state"], ", ") == tail;
    var head := "  " + f.name + "(";
    ConcatAssoc(head, t, tail);
  }

  /** The positions recorded up to index `i` are a prefix of `HandlerPositions`
      whenever fewer than `p` of them were recorded before `i - 1`. */
  lemma HandlerPositionsPrefix(mask: seq<bool>, p: nat, i: nat)
    requires 0 < i <= |mask|
    requires |TruePositions(mask[..i])| <= p
    ensures |TruePositions(mask[..i])| <= |HandlerPositions(mask, p)|
    ensures HandlerPositions(mask, p)[..|TruePositions(mask[..i])|] == TruePositions(mask[..i])
  {
    TruePositionsPrefix(mask, i);
  }

  // ------------------------------------------- what the subhandler promises

  /** The subhandler unpacks the first `min(count, p)` surviving positions:
      strictly increasing, each a surviving index, none skipped. */
  lemma HandlerPositionsSpec(mask: seq<bool>, p: nat)
    ensures |HandlerPositions(mask, p)| ==
              if |TruePositions(mask)| <= p then |TruePositions(mask)| else p
    ensures forall a, b :: 0 <= a < b < |HandlerPositions(mask, p)| ==>
              HandlerPositions(mask, p)[a] < HandlerPositions(mask, p)[b]
    ensures forall a :: 0 <= a < |HandlerPositions(mask, p)| ==>
              HandlerPositions(mask, p)[a] < |mask| && mask[HandlerPositions(mask, p)[a]]
    ensures forall k :: 0 <= k < |mask| && mask[k] && |TruePositions(mask[..k])| < p ==>
              k in HandlerPositions(mask, p)
  {
    HandlerPositionsSound(mask, p);
    forall k | 0 <= k < |mask| && mask[k] && |TruePositions(mask[..k])| < p
      ensures k in HandlerPositions(mask, p)
    {
      HandlerPositionMet(mask, p, k);
    }
  }

  lemma HandlerPositionsSound(mask: seq<bool>, p: nat)
    ensures |HandlerPositions(mask, p)| ==
              if |TruePositions(mask)| <= p then |TruePositions(mask)| else p
    ensures forall a, b :: 0 <= a < b < |HandlerPositions(mask, p)| ==>
              HandlerPositions(mask, p)[a] < HandlerPositions(mask, p)[b]
    ensures forall a :: 0 <= a < |HandlerPositions(mask, p)| ==>
              HandlerPositions(mask, p)[a] < |mask| && mask[HandlerPositions(mask, p)[a]]
  {
    TruePositionsSound(mask);
  }

  /** A surviving position met while parameters remain is unpacked. */
  lemma HandlerPositionMet(mask: seq<bool>, p: nat, k: nat)
    requires k < |mask| && mask[k] && |TruePositions(mask[..k])| < p
    ensures k in HandlerPositions(mask, p)
  {
    TruePositionsStep(mask, k);
    TruePositionsPrefix(mask, k + 1);
    var n := |TruePositions(mask[..k])|;
    var tp := TruePositions(mask);
    assert tp[n] == TruePositions(mask[..k + 1])[n] == k;
    assert HandlerPositions(mask, p)[n] == k;
  }

  /** Unpacking is per position: one statement per position, in order. */
  lemma {:induction false} UnpacksSpec(params: seq<IrType>, names: seq<string>, pos: seq<nat>)
    requires |pos| <= |params|
    ensures Unpacks(params, names, pos).Ok? <==>
              forall j :: 0 <= j < |pos| ==> UnpackOf(params[j], names, pos[j]).Ok?
    ensures Unpacks(params, names, pos).Ok? ==>
              |Unpacks(params, names, pos).value| == |pos| &&
              forall j :: 0 <= j < |pos| ==>
                Unpacks(params, names, pos).value[j] == UnpackOf(params[j], names, pos[j]).value
    decreases |pos|
  {
    if |pos| > 0 {
      var init := pos[..|pos| - 1];
      UnpacksSpec(params, names, init);
      assert forall j :: 0 <= j < |init| ==> init[j] == pos[j];
    }
  }

  /** The kernel call passes exactly the unpacked variables, in unpacking
      order, and the state last. */
  lemma CallPassesUnpacked(params: seq<IrType>, names: seq<string>, pos: seq<nat>)
    requires |pos| <= |params|
    requires Unpacks(params, names, pos).Ok?
    ensures |pos| > 0 ==> |CallArgs(pos)| == |Unpacks(params, names, pos).value| + 1
    ensures |pos| > 0 ==> CallArgs(pos)[|pos|] == "state"
    ensures forall j :: 0 <= j < |pos| ==>
              CallArgs(pos)[j] == ArgName(Unpacks(params, names, pos).value[j].index)
  {
    UnpacksSpec(params, names, pos);
  }

  // ------------------------------------- the declaration the call expects

  /** The C type under which an unpacked variable is passed. */
  function UnpackType(u: Unpack): string
  {
    match u
    case UnpackPointer(_) => "void *"
    case UnpackScalar(tn, _) => tn
  }

  /** The parameter list matching the subhandler's call: one declaration per
      unpacked position, then the state pointer; nothing if nothing is
      unpacked. */
  function IntendedDeclParams(f: Function, mask: seq<bool>, names: seq<string>): Result<seq<string>, HeaderError>
  {
    var pos := HandlerPositions(mask, |f.params|);
    var args := DeclArgs(f.params, names, pos);
    if args.Err? then args
    else if |pos| == 0 then Ok([])
    else Ok(args.value + [StateParam])
  }

  /** Declaring a parameter and unpacking it agree on its type. */
  lemma {:induction false} DeclArgsMatchUnpacks(params: seq<IrType>, names: seq<string>, pos: seq<nat>)
    requires |pos| <= |params|
    ensures DeclArgs(params, names, pos).Ok? <==> Unpacks(params, names, pos).Ok?
    ensures DeclArgs(params, names, pos).Ok? ==>
              |DeclArgs(params, names, pos).value| == |Unpacks(params, names, pos).value| == |pos| &&
              forall j :: 0 <= j < |pos| ==>
                DeclArgs(params, names, pos).value[j] == UnpackType(Unpacks(params, names, pos).value[j])
    decreases |pos|
  {
    if |pos| > 0 {
      DeclArgsMatchUnpacks(params, names, pos[..|pos| - 1]);
    }
  }

  /** The corrected declaration has as many parameters as the call has
      arguments, and declares each with the type it is unpacked as. */
  lemma IntendedDeclMatchesCall(f: Function, mask: seq<bool>, names: seq<string>)
    requires Unpacks(f.params, names, HandlerPositions(mask, |f.params|)).Ok?
    ensures IntendedDeclParams(f, mask, names).Ok?
    ensures |Unpacks(f.params, names, HandlerPositions(mask, |f.params|)).value| ==
            |HandlerPositions(mask, |f.params|)|
    ensures |IntendedDeclParams(f, mask, names).value| == |CallArgs(HandlerPositions(mask, |f.params|))|
    ensures forall j :: 0 <= j < |HandlerPositions(mask, |f.params|)| ==>
              IntendedDeclParams(f, mask, names).value[j] ==
              UnpackType(Unpacks(f.params, names, HandlerPositions(mask, |f.params|)).value[j])
  {
    var pos := HandlerPositions(mask, |f.params|);
    DeclArgsMatchUnpacks(f.params, names, pos);
  }

  /** Cutting a mask just after its `j`-th surviving entry keeps exactly the
      first `j + 1` surviving positions. */
  lemma PositionsUpTo(mask: seq<bool>, j: nat)
    requires j < |TruePositions(mask)|
    ensures TruePositions(mask)[j] + 1 <= |mask|
    ensures TruePositions(mask[..TruePositions(mask)[j] + 1]) == TruePositions(mask)[..j + 1]
  {
    var t := TruePositions(mask);
    TruePositionsSound(mask);
    var i := t[j] + 1;
    TruePositionsPrefix(mask, i);
    var m := |TruePositions(mask[..i])|;
    TruePositionsBelow(mask, i, j);
    assert j < m;
    if j + 1 < |t| {
      assert t[j] < t[j + 1];
      TruePositionsBelow(mask, i, j + 1);
    }
    assert m == j + 1;
  }

  /** For a kernel with `p >= 2` parameters and at least `p` surviving
      arguments, the declaration loop stops right after the `(p-1)`-th
      survivor, having declared the first `p - 1` survivors. */
  lemma DeclStopAfterSurvivor(mask: seq<bool>, p: nat)
    requires 2 <= p <= |TruePositions(mask)|
    ensures DeclStop(mask, p) == TruePositions(mask)[p - 2] + 1
    ensures DeclPositions(mask, p) == TruePositions(mask)[..p - 1]
  {
    var t := TruePositions(mask);
    var ml := MaskLimit(|mask|);
    TruePositionsSound(mask);
    assert t[p - 2] < t[|t| - 1] < |mask|;
    TruePositionsPrefix(mask, ml);
    TruePositionsBelow(mask, ml, p - 2);
    PositionsUpTo(mask, p - 2);
  }

  /** The emitter meets kernels before the prepare pass rebuilds them: one
      parameter per surviving argument and no state parameter. For two or
      more survivors, the declaration as written types its last parameter
      at the index after the next-to-last survivor rather than at the last
      survivor, so it equals the corrected one exactly when those two
      indices declare the same thing: always when the last parameter is a
      pointer or the last two survivors are adjacent. */
  lemma DeclParamsWellFormed(f: Function, mask: seq<bool>, names: seq<string>)
    requires |f.params| == |TruePositions(mask)| >= 2
    ensures var t, c := TruePositions(mask), |f.params|;
      DeclParams(f, mask, names) == IntendedDeclParams(f, mask, names) <==>
        DeclArgs(f.params, names, t[..c - 1]).Err? ||
        DeclArg(f.params[c - 1], names, t[c - 2] + 1) == DeclArg(f.params[c - 1], names, t[c - 1])
    ensures var t, c := TruePositions(mask), |f.params|;
      f.params[c - 1].PointerTo? || t[c - 1] == t[c - 2] + 1 ==>
        DeclParams(f, mask, names) == IntendedDeclParams(f, mask, names)
  {
    var t, c := TruePositions(mask), |f.params|;
    DeclStopAfterSurvivor(mask, c);
    assert t[..c] == t;
    var args := DeclArgs(f.params, names, t[..c - 1]);
    var mine := DeclArg(f.params[c - 1], names, t[c - 2] + 1);
    var want := DeclArg(f.params[c - 1], names, t[c - 1]);
    assert DeclArgs(f.params, names, t) ==
      if args.Err? then args else if want.Err? then Err(want.error) else Ok(args.value + [want.value]);
    DeclArgError(f.params[c - 1], names, t[c - 2] + 1);
    DeclArgError(f.params[c - 1], names, t[c - 1]);
    if args.Ok? && mine.Ok? && want.Ok? {
      var a := args.value;
      assert a + [want.value] + [StateParam] == a + [want.value, StateParam];
      if a + [mine.value, StateParam] == a + [want.value, StateParam] {
        assert (a + [mine.value, StateParam])[|a|] == mine.value;
        assert (a + [want.value, StateParam])[|a|] == want.value;
      }
    }
  }

  /** With a single surviving argument the kernel's one parameter is never
      declared: the declaration is `NAME();`, which never equals the
      corrected one, while the subhandler calls the kernel with the
      unpacked argument and the state. */
  lemma OneSurvivorDeclaredEmpty(f: Function, mask: seq<bool>, names: seq<string>)
    requires |f.params| == |TruePositions(mask)| == 1
    ensures DeclText(f, mask, names) == Ok(DeclHead(f) + ");\n")
    ensures |CallArgs(HandlerPositions(mask, 1))| == 2
    ensures DeclParams(f, mask, names) != IntendedDeclParams(f, mask, names)
  {
    var t := TruePositions(mask);
    assert mask[..0] == [];
    assert DeclPositions(mask, 1) == [];
    assert DeclParams(f, mask, names) == Ok([]);
    assert Join([], ", ") == "";
    assert DeclHead(f) + "" == DeclHead(f);
    assert t[..0] == [];
    assert HandlerPositions(mask, 1) == t;
  }

  /** Without survivors the declaration is `NAME();` as intended, except for
      an empty mask: its `size() - 1` wraps and the loop reads entry 0 of
      the mask, which is undefined. */
  lemma NoSurvivorDecl(f: Function, mask: seq<bool>, names: seq<string>)
    requires |f.params| == |TruePositions(mask)| == 0
    ensures IntendedDeclParams(f, mask, names) == Ok([])
    ensures |mask| > 0 ==> DeclParams(f, mask, names) == Ok([])
    ensures |mask| == 0 ==> DeclParams(f, mask, names) == Err(OutOfRange)
  {
    if |mask| > 0 {
      var ml := MaskLimit(|mask|);
      TruePositionsPrefix(mask, ml);
      TruePositionsPrefix(mask, DeclStop(mask, 0));
    }
  }

  /** `K(int *)`, a kernel with one pointer parameter, as the emitter meets
      it. */
  const OnePointerKernel: Function := Function(
    "K", SpirKernel, 0, VoidType, [PointerTo("i32")], false, {}, false, None, None)

  /** The declaration as written for `K(int *)` whose second argument was
      omitted: no parameter declared, while the call passes two arguments. */
  lemma DeclArityCounterexample()
    ensures DeclText(OnePointerKernel, [true, false], ["int*", "int"]) == Ok("extern \"C\" void K();\n")
    ensures CallArgs(HandlerPositions([true, false], 1)) == ["arg0", "state"]
    ensures IntendedDeclParams(OnePointerKernel, [true, false], ["int*", "int"]) == Ok(["void *", StateParam])
  {
    var f := OnePointerKernel;
    OneSurvivorPositions();
    OneSurvivorDeclaredEmpty(f, [true, false], ["int*", "int"]);
    assert DeclHead(f) + ");\n" == "extern \"C\" void K();\n";
    var pos: seq<nat> := [0];
    assert pos[..|pos| - 1] == [];
    var none: seq<string> := [];
    assert DeclArgs(f.params, ["int*", "int"], pos) == Ok(none + ["void *"]);
    assert none + ["void *"] + [StateParam] == ["void *", StateParam];
    ArgZero();
  }

  /** Where the loops stop for the mask `[true, false]` and one parameter. */
  lemma OneSurvivorPositions()
    ensures DeclStop([true, false], 1) == 0
    ensures DeclPositions([true, false], 1) == []
    ensures HandlerPositions([true, false], 1) == [0]
  {
    var mask := [true, false];
    assert mask[..1] == [true];
    assert mask[..0] == [];
    assert [true][..0] == [];
    assert TruePositions([true]) == [0];
    assert mask[..|mask| - 1] == [true];
    assert TruePositions(mask) == [0];
  }

  lemma ArgZero()
    ensures ArgNames([0]) == ["arg0"]
  {
    assert Decimal(0) == "0";
    assert ArgName(0) == "arg0";
    assert ArgNames([0])[0] == ArgName(0);
  }

  /** Where the unpacking loop stops for the mask `[true]` and one parameter. */
  lemma OneEntryPositions()
    ensures TruePositions([true]) == [0]
    ensures HandlerPositions([true], 1) == [0]
  {
    assert [true][..0] == [];
  }

  /** The declaration as written for `K(int *)` with nothing omitted: no
      parameter declared, while the call passes `arg0, state`. */
  lemma DeclSingleArgCounterexample()
    ensures DeclText(OnePointerKernel, [true], ["int*"]) == Ok("extern \"C\" void K();\n")
    ensures CallArgs(HandlerPositions([true], 1)) == ["arg0", "state"]
  {
    OneEntryPositions();
    OneSurvivorDeclaredEmpty(OnePointerKernel, [true], ["int*"]);
    assert DeclHead(OnePointerKernel) + ");\n" == "extern \"C\" void K();\n";
    ArgZero();
  }

  /** `K(int *, float, int)`, kept from four arguments whose third was
      omitted. */
  const ThreeArgKernel: Function := Function(
    "K", SpirKernel, 0, VoidType, [PointerTo("i32"), ScalarType("float"), ScalarType("i32")],
    false, {}, false, None, None)

  /** The declaration as written for `K(int *, float, int)` under the mask
      `[true, true, false, true]`: the last parameter is declared with the
      omitted argument's type `double`, while the subhandler unpacks it as
      `int`. */
  lemma DeclTypeCounterexample()
    ensures DeclParams(ThreeArgKernel, [true, true, false, true], ["int*", "float", "double", "int"]) ==
            Ok(["void *", "float", "double", StateParam])
    ensures IntendedDeclParams(ThreeArgKernel, [true, true, false, true], ["int*", "float", "double", "int"]) ==
            Ok(["void *", "float", "int", StateParam])
    ensures Unpacks(ThreeArgKernel.params, ["int*", "float", "double", "int"],
                    HandlerPositions([true, true, false, true], 3)) ==
            Ok([UnpackPointer(0), UnpackScalar("float", 1), UnpackScalar("int", 3)])
  {
    var f := ThreeArgKernel;
    var mask := [true, true, false, true];
    var names := ["int*", "float", "double", "int"];
    ThreeArgPositions();
    DeclStopAfterSurvivor(mask, 3);
    assert HandlerPositions(mask, 3) == [0, 1, 3];
    ThreeArgDecls();
    ThreeArgUnpacks();
    assert ["void *", "float"] + ["double", StateParam] == ["void *", "float", "double", StateParam];
    assert ["void *", "float", "int"] + [StateParam] == ["void *", "float", "int", StateParam];
  }

  lemma ThreeArgPositions()
    ensures TruePositions([true, true, false, true]) == [0, 1, 3]
  {
    var mask := [true, true, false, true];
    assert mask[..3] == [true, true, false];
    assert [true, true, false][..2] == [true, true];
    assert [true, true][..1] == [true];
    assert [true][..0] == [];
  }

  lemma ThreeArgDecls()
    ensures DeclArgs(ThreeArgKernel.params, ["int*", "float", "double", "int"], [0, 1]) == Ok(["void *", "float"])
    ensures DeclArgs(ThreeArgKernel.params, ["int*", "float", "double", "int"], [0, 1, 3]) ==
            Ok(["void *", "float", "int"])
  {
    var ps, names := ThreeArgKernel.params, ["int*", "float", "double", "int"];
    var p0: seq<nat>, p1: seq<nat>, p2: seq<nat>, t: seq<nat> := [], [0], [0, 1], [0, 1, 3];
    assert t[..2] == p2 && p2[..1] == p1 && p1[..0] == p0;
    assert ps[0].PointerTo? && ps[1] == ScalarType("float") && ps[2] == ScalarType("i32");
    var none: seq<string> := [];
    assert DeclArgs(ps, names, p0) == Ok(none);
    assert DeclArgs(ps, names, p1) == Ok(none + ["void *"]);
    assert none + ["void *"] == ["void *"];
    assert DeclArgs(ps, names, p2) == Ok(["void *"] + ["float"]);
    assert ["void *"] + ["float"] == ["void *", "float"];
    assert DeclArgs(ps, names, t) == Ok(["void *", "float"] + ["int"]);
    assert ["void *", "float"] + ["int"] == ["void *", "float", "int"];
  }

  lemma ThreeArgUnpacks()
    ensures Unpacks(ThreeArgKernel.params, ["int*", "float", "double", "int"], [0, 1, 3]) ==
            Ok([UnpackPointer(0), UnpackScalar("float", 1), UnpackScalar("int", 3)])
  {
    var ps, names := ThreeArgKernel.params, ["int*", "float", "double", "int"];
    var p0: seq<nat>, p1: seq<nat>, p2: seq<nat>, t: seq<nat> := [], [0], [0, 1], [0, 1, 3];
    assert t[..2] == p2 && p2[..1] == p1 && p1[..0] == p0;
    assert ps[0].PointerTo? && ps[1] == ScalarType("float") && ps[2] == ScalarType("i32");
    var none: seq<Unpack> := [];
    assert Unpacks(ps, names, p0) == Ok(none);
    assert Unpacks(ps, names, p1) == Ok(none + [UnpackPointer(0)]);
    assert none + [UnpackPointer(0)] == [UnpackPointer(0)];
    assert Unpacks(ps, names, p2) == Ok([UnpackPointer(0)] + [UnpackScalar("float", 1)]);
    assert [UnpackPointer(0)] + [UnpackScalar("float", 1)] == [UnpackPointer(0), UnpackScalar("float", 1)];
    assert Unpacks(ps, names, t) == Ok([UnpackPointer(0), UnpackScalar("float", 1)] + [UnpackScalar("int", 3)]);
    assert [UnpackPointer(0), UnpackScalar("float", 1)] + [UnpackScalar("int", 3)] ==
           [UnpackPointer(0), UnpackScalar("float", 1), UnpackScalar("int", 3)];
  }

  // --------------------------------------------------- the header as a whole

  function KernelSection(fl: Flavour, f: Function): Result<string, HeaderError>
  {
    var mask := ArgMaskOf(f);
    if mask.Err? then Err(mask.error)
    else
      var names := ArgTypeNamesOf(f);
      if names.Err? then Err(names.error)
      else
        var decl := DeclText(f, mask.value, names.value);
        if decl.Err? then decl
        else
          var handler := HandlerText(fl, f, mask.value, names.value);
          if handler.Err? then handler
          else Ok(decl.value + handler.value)
  }

  /** The results of a run of sections, concatenated; the first failure wins. */
  function Sections(rs: seq<Result<string, HeaderError>>): Result<string, HeaderError>
    decreases |rs|
  {
    if |rs| == 0 then Ok("")
    else
      var init := Sections(rs[..|rs| - 1]);
      var last := rs[|rs| - 1];
      if init.Err? then init
      else if last.Err? then last
      else Ok(init.value + last.value)
  }

  function SectionResults(fl: Flavour, ks: seq<Function>): (rs: seq<Result<string, HeaderError>>)
    ensures |rs| == |ks|
  {
    seq(|ks|, i requires 0 <= i < |ks| => KernelSection(fl, ks[i]))
  }

  /** The sections of a list of kernels, one after the other. */
  function KernelSections(fl: Flavour, ks: seq<Function>): Result<string, HeaderError>
  {
    Sections(SectionResults(fl, ks))
  }

  function Prelude(fl: Flavour): string
  {
    "#pragma once\n" + fl.includeLine
  }

  /** The header text the pass writes for a module, or why it stops. */
  function HeaderText(fl: Flavour, m: seq<Function>, fileName: string): Result<string, HeaderError>
  {
    if fileName == "" then Err(fl.emptyNameError)
    else
      var body := KernelSections(fl, Kernels(m));
      if body.Err? then body else Ok(Prelude(fl) + body.value)
  }

  lemma {:induction false} SectionsError(rs: seq<Result<string, HeaderError>>, k: nat)
    requires k <= |rs|
    requires Sections(rs[..k]).Err?
    ensures Sections(rs) == Sections(rs[..k])
    decreases |rs| - k
  {
    if k < |rs| {
      assert rs[..k + 1][..k] == rs[..k];
      SectionsError(rs, k + 1);
    } else {
      assert rs[..k] == rs;
    }
  }

  lemma {:induction false} SectionsAppend(a: seq<Result<string, HeaderError>>, b: seq<Result<string, HeaderError>>)
    requires Sections(a).Ok? && Sections(b).Ok?
    ensures Sections(a + b) == Ok(Sections(a).value + Sections(b).value)
    decreases |b|
  {
    if |b| == 0 {
      assert a + b == a;
      assert Sections(a).value + "" == Sections(a).value;
    } else {
      var init := b[..|b| - 1];
      assert (a + b)[..|a + b| - 1] == a + init;
      assert (a + b)[|a + b| - 1] == b[|b| - 1];
      SectionsAppend(a, init);
      var x, y, z := Sections(a).value, Sections(init).value, b[|b| - 1].value;
      assert x + y + z == x + (y + z);
    }
  }

  lemma SectionResultsPrefix(fl: Flavour, ks: seq<Function>, k: nat)
    requires k <= |ks|
    ensures SectionResults(fl, ks[..k]) == SectionResults(fl, ks)[..k]
  {
  }

  lemma SectionResultsAppend(fl: Flavour, a: seq<Function>, b: seq<Function>)
    ensures SectionResults(fl, a + b) == SectionResults(fl, a) + SectionResults(fl, b)
  {
  }

  lemma KernelSectionsError(fl: Flavour, ks: seq<Function>, k: nat)
    requires k <= |ks|
    requires KernelSections(fl, ks[..k]).Err?
    ensures KernelSections(fl, ks) == KernelSections(fl, ks[..k])
  {
    SectionResultsPrefix(fl, ks, k);
    SectionsError(SectionResults(fl, ks), k);
  }

  /** Sections are emitted kernel by kernel: the sections of two lists of
      kernels are those of the first followed by those of the second. */
  lemma KernelSectionsAppend(fl: Flavour, a: seq<Function>, b: seq<Function>)
    requires KernelSections(fl, a).Ok? && KernelSections(fl, b).Ok?
    ensures KernelSections(fl, a + b) == Ok(KernelSections(fl, a).value + KernelSections(fl, b).value)
  {
    SectionResultsAppend(fl, a, b);
    SectionsAppend(SectionResults(fl, a), SectionResults(fl, b));
  }

  /** One more kernel appends its section. */
  lemma KernelSectionsSnoc(fl: Flavour, ks: seq<Function>, k: Function)
    requires KernelSections(fl, ks).Ok? && KernelSection(fl, k).Ok?
    ensures KernelSections(fl, ks + [k]) == Ok(KernelSections(fl, ks).value + KernelSection(fl, k).value)
  {
    SectionResultsAppend(fl, ks, [k]);
    var rs := SectionResults(fl, ks) + SectionResults(fl, [k]);
    assert rs[..|rs| - 1] == SectionResults(fl, ks);
  }

  /** The header starts with the prelude and depends on the kernels only:
      adding a function that is not a kernel changes nothing. */
  lemma HeaderIgnoresNonKernels(fl: Flavour, m: seq<Function>, g: Function, fileName: string)
    requires !IsKernel(g)
    ensures HeaderText(fl, m + [g], fileName) == HeaderText(fl, m, fileName)
    ensures HeaderText(fl, m, fileName).Ok? ==> Prelude(fl) <= HeaderText(fl, m, fileName).value
  {
    KernelsAppend(m, [g]);
    assert Kernels([g]) == [];
    assert Kernels(m) + [] == Kernels(m);
  }

  /** The header of a module whose kernel sections are `body`. */
  lemma HeaderOfSections(fl: Flavour, m: seq<Function>, fileName: string, body: string)
    requires fileName != "" && KernelSections(fl, Kernels(m)) == Ok(body)
    ensures HeaderText(fl, m, fileName) == Ok(Prelude(fl) + body)
  {
  }

  lemma KernelsSnocKernel(m: seq<Function>, k: Function)
    requires IsKernel(k)
    ensures Kernels(m + [k]) == Kernels(m) + [k]
  {
    KernelsAppend(m, [k]);
    assert Kernels([k]) == [k];
  }

  /** Appending a kernel to the module appends its section to the header. */
  lemma HeaderAppendKernel(fl: Flavour, m: seq<Function>, k: Function, fileName: string)
    requires IsKernel(k)
    requires HeaderText(fl, m, fileName).Ok? && KernelSection(fl, k).Ok?
    ensures HeaderText(fl, m + [k], fileName) ==
            Ok(HeaderText(fl, m, fileName).value + KernelSection(fl, k).value)
  {
    var ks := Kernels(m);
    KernelsSnocKernel(m, k);
    KernelSectionsSnoc(fl, ks, k);
    var x, y := KernelSections(fl, ks).value, KernelSection(fl, k).value;
    HeaderOfSections(fl, m, fileName, x);
    HeaderOfSections(fl, m + [k], fileName, x + y);
    assert Prelude(fl) + (x + y) == Prelude(fl) + x + y;
  }

  /** Collecting the `SPIR_KERNEL` functions of the module, in order. */
  method CollectKernels(m: seq<Function>) returns (ks: seq<Function>)
    ensures ks == Kernels(m)
  {
    ks := [];
    var i := 0;
    while i < |m|
      invariant 0 <= i <= |m|
      invariant ks == Kernels(m[..i])
    {
      assert m[..i + 1][..i] == m[..i];
      if m[i].cc == SpirKernel {
        ks := ks + [m[i]];
      }
      i := i + 1;
    }
    assert m[..i] == m;
  }

  lemma KernelSectionsStep(fl: Flavour, ks: seq<Function>, i: nat)
    requires i < |ks|
    requires KernelSections(fl, ks[..i]).Ok?
    ensures KernelSections(fl, ks[..i + 1]) ==
      var last := KernelSection(fl, ks[i]);
      if last.Err? then last else Ok(KernelSections(fl, ks[..i]).value + last.value)
  {
    assert ks[..i + 1] == ks[..i] + [ks[i]];
    SectionResultsAppend(fl, ks[..i], [ks[i]]);
    var rs := SectionResults(fl, ks[..i + 1]);
    assert rs[..|rs| - 1] == SectionResults(fl, ks[..i]);
  }

  /** The declaration and the subhandler of one kernel. */
  method EmitKernelSection(fl: Flavour, f: Function) returns (r: Result<string, HeaderError>)
    ensures r == KernelSection(fl, f)
  {
    var mask := GetArgMask(f);
    if mask.Err? {
      return Err(mask.error);
    }
    var names := GetArgTypeNames(f);
    if names.Err? {
      return Err(names.error);
    }
    var decl := EmitKernelDecl(f, mask.value, names.value);
    if decl.Err? {
      return decl;
    }
    var handler, _ := EmitSubKernelHandler(fl, f, mask.value, names.value);
    if handler.Err? {
      return handler;
    }
    return Ok(decl.value + handler.value);
  }

  /** `EmitSYCLNativeCPUHeaderPass::run` / `EmitSYCLHCHeaderPass::run`, with
      the file replaced by the returned text. */
  method EmitHeader(fl: Flavour, m: seq<Function>, fileName: string)
    returns (r: Result<string, HeaderError>, pa: Preserved)
    ensures r == HeaderText(fl, m, fileName)
    ensures fileName == "" ==> r == Err(fl.emptyNameError)
    ensures pa == NonePreserved
  {
    var moduleChanged := false;
    pa := if moduleChanged then AllPreserved else NonePreserved;
    var kernels := CollectKernels(m);
    if fileName == "" {
      return Err(fl.emptyNameError), pa;
    }
    var body := EmitKernelSections(fl, kernels);
    if body.Err? {
      return body, pa;
    }
    return Ok(Prelude(fl) + body.value), pa;
  }

  /** The loop of `run` over the collected kernels. */
  method EmitKernelSections(fl: Flavour, kernels: seq<Function>) returns (r: Result<string, HeaderError>)
    ensures r == KernelSections(fl, kernels)
  {
    var out := "";
    var i := 0;
    while i < |kernels|
      invariant 0 <= i <= |kernels|
      invariant KernelSections(fl, kernels[..i]) == Ok(out)
    {
      var section := EmitKernelSection(fl, kernels[i]);
      KernelSectionsStep(fl, kernels, i);
      if section.Err? {
        KernelSectionsError(fl, kernels, i + 1);
        return section;
      }
      out := out + section.value;
      i := i + 1;
    }
    assert kernels[..i] == kernels;
    return Ok(out);
  }
}
