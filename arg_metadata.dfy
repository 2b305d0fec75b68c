/** Reading the per-kernel argument metadata, as `getArgMask` and
    `getArgTypeNames` do in both helper-header emitters. */
module ArgMetadata {
  import opened Common
  import opened Ir

  /** Why header emission stops. The assertions of the source become the
      four metadata errors; indexing past the end of a vector or of the
      parameter list (undefined in the source) becomes `OutOfRange`. */
  datatype HeaderError =
    | FatalError(message: string)
    | Exit(status: int)
    | OmitArgNotConstant
    | OmitArgNotConstantInt
    | MissingArgTypeMetadata
    | ArgTypeNotString
    | OutOfRange

  /** The survival flag of one `sycl_kernel_omit_args` operand: the negation
      of its boolean value. */
  function SurvivalFlag(op: MDOperand): Result<bool, HeaderError>
  {
    match op
    case ConstIntMD(v) => Ok(v == 0)
    case ConstOtherMD => Err(OmitArgNotConstantInt)
    case _ => Err(OmitArgNotConstant)
  }

  function SurvivalFlags(ops: seq<MDOperand>): Result<seq<bool>, HeaderError>
    decreases |ops|
  {
    if |ops| == 0 then Ok([])
    else
      var init := SurvivalFlags(ops[..|ops| - 1]);
      var last := SurvivalFlag(ops[|ops| - 1]);
      if init.Err? then init
      else if last.Err? then Err(last.error)
      else Ok(init.value + [last.value])
  }

  /** The argument mask of a kernel: all-true over its parameters when the
      omit-args metadata is absent, the negated operands otherwise. */
  function ArgMaskOf(f: Function): Result<seq<bool>, HeaderError>
  {
    match f.omitArgs
    case None => Ok(seq(|f.params|, _ => true))
    case Some(ops) => SurvivalFlags(ops)
  }

  function TypeNameOf(op: MDOperand): Result<string, HeaderError>
  {
    if op.StringMD? then Ok(op.text) else Err(ArgTypeNotString)
  }

  function TypeNames(ops: seq<MDOperand>): Result<seq<string>, HeaderError>
    decreases |ops|
  {
    if |ops| == 0 then Ok([])
    else
      var init := TypeNames(ops[..|ops| - 1]);
      var last := TypeNameOf(ops[|ops| - 1]);
      if init.Err? then init
      else if last.Err? then Err(last.error)
      else Ok(init.value + [last.value])
  }

  /** The source type names of a kernel's arguments; the metadata is required. */
  function ArgTypeNamesOf(f: Function): Result<seq<string>, HeaderError>
  {
    match f.argTypes
    case None => Err(MissingArgTypeMetadata)
    case Some(ops) => TypeNames(ops)
  }

  /** The negated operands, one per operand, in operand order; any operand
      that is not a constant integer is an error, and the first such operand
      decides which. */
  lemma {:induction false} SurvivalFlagsSpec(ops: seq<MDOperand>)
    ensures SurvivalFlags(ops).Ok? <==> forall i :: 0 <= i < |ops| ==> ops[i].ConstIntMD?
    ensures SurvivalFlags(ops).Ok? ==>
              |SurvivalFlags(ops).value| == |ops| &&
              forall i :: 0 <= i < |ops| ==> SurvivalFlags(ops).value[i] == (ops[i].value == 0)
    ensures forall i :: 0 <= i < |ops| && !ops[i].ConstIntMD? &&
                        (forall k :: 0 <= k < i ==> ops[k].ConstIntMD?) ==>
              SurvivalFlags(ops) == Err(SurvivalFlag(ops[i]).error)
    decreases |ops|
  {
    if |ops| > 0 {
      var init := ops[..|ops| - 1];
      SurvivalFlagsSpec(init);
      assert forall k :: 0 <= k < |init| ==> init[k] == ops[k];
    }
  }

  /** Type names come in operand order, one per operand; an operand that is
      not a string is an error. */
  lemma {:induction false} TypeNamesSpec(ops: seq<MDOperand>)
    ensures TypeNames(ops).Ok? <==> forall i :: 0 <= i < |ops| ==> ops[i].StringMD?
    ensures TypeNames(ops).Ok? ==>
              |TypeNames(ops).value| == |ops| &&
              forall i :: 0 <= i < |ops| ==> TypeNames(ops).value[i] == ops[i].text
    ensures TypeNames(ops).Err? ==> TypeNames(ops).error == ArgTypeNotString
    decreases |ops|
  {
    if |ops| > 0 {
      var init := ops[..|ops| - 1];
      TypeNamesSpec(init);
      assert forall k :: 0 <= k < |init| ==> init[k] == ops[k];
    }
  }

  /** `getArgMask`. */
  method GetArgMask(f: Function) returns (r: Result<seq<bool>, HeaderError>)
    ensures r == ArgMaskOf(f)
    ensures f.omitArgs.None? ==> r.Ok? && |r.value| == |f.params| &&
                                 forall i :: 0 <= i < |r.value| ==> r.value[i]
  {
    var res: seq<bool> := [];
    if f.omitArgs.None? {
      var i := 0;
      while i < |f.params|
        invariant 0 <= i <= |f.params|
        invariant res == seq(i, _ => true)
      {
        res := res + [true];
        i := i + 1;
      }
      return Ok(res);
    }
    var ops := f.omitArgs.value;
    var i := 0;
    while i < |ops|
      invariant 0 <= i <= |ops|
      invariant SurvivalFlags(ops[..i]) == Ok(res)
    {
      assert ops[..i + 1][..i] == ops[..i];
      var flag := SurvivalFlag(ops[i]);
      if flag.Err? {
        PrefixErrorPersists(ops, i + 1);
        return Err(flag.error);
      }
      res := res + [flag.value];
      i := i + 1;
    }
    assert ops[..i] == ops;
    return Ok(res);
  }

  lemma {:induction false} PrefixErrorPersists(ops: seq<MDOperand>, k: nat)
    requires k <= |ops|
    requires SurvivalFlags(ops[..k]).Err?
    ensures SurvivalFlags(ops) == SurvivalFlags(ops[..k])
    decreases |ops| - k
  {
    if k < |ops| {
      assert ops[..k + 1][..k] == ops[..k];
      PrefixErrorPersists(ops, k + 1);
    } else {
      assert ops[..k] == ops;
    }
  }

  lemma {:induction false} TypeNamesPrefixErrorPersists(ops: seq<MDOperand>, k: nat)
    requires k <= |ops|
    requires TypeNames(ops[..k]).Err?
    ensures TypeNames(ops) == TypeNames(ops[..k])
    decreases |ops| - k
  {
    if k < |ops| {
      assert ops[..k + 1][..k] == ops[..k];
      TypeNamesPrefixErrorPersists(ops, k + 1);
    } else {
      assert ops[..k] == ops;
    }
  }

  /** `getArgTypeNames`. */
  method GetArgTypeNames(f: Function) returns (r: Result<seq<string>, HeaderError>)
    ensures r == ArgTypeNamesOf(f)
    ensures f.argTypes.None? ==> r == Err(MissingArgTypeMetadata)
  {
    if f.argTypes.None? {
      return Err(MissingArgTypeMetadata);
    }
    var ops := f.argTypes.value;
    var res: seq<string> := [];
    var i := 0;
    while i < |ops|
      invariant 0 <= i <= |ops|
      invariant TypeNames(ops[..i]) == Ok(res)
    {
      assert ops[..i + 1][..i] == ops[..i];
      if !ops[i].StringMD? {
        TypeNamesPrefixErrorPersists(ops, i + 1);
        return Err(ArgTypeNotString);
      }
      res := res + [ops[i].text];
      i := i + 1;
    }
    assert ops[..i] == ops;
    return Ok(res);
  }
}
