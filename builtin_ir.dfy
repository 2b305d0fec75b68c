/** The instructions the builtin materialisation of the prepare passes looks
    at: a table indexed by instruction id, values that refer to instructions,
    parameters, globals and constants, and the two ways the passes change
    the table (replacing all uses of a value, erasing instructions). */
module BuiltinIr {
  import opened Common

  datatype Value =
    | InstV(id: nat)
    | ConstI64(v: int)
    | ParamV(fn: string, index: nat)
    | GlobalV(name: string)
    | OtherV(tag: nat)

  /** The instruction kinds the classifier distinguishes; `Gep` stands for
      any `GEPOperator` (instruction or constant expression). */
  datatype Op =
    | Load(ptr: Value)
    | Extract(vec: Value, index: Value)
    | Gep(base: Value, indices: seq<Value>)
    | Call(callee: string, args: seq<Value>)
    | Other(ops: seq<Value>)
    | Erased

  /** An instruction and the function it belongs to. */
  datatype Instr = Instr(fn: string, op: Op)

  function Operands(op: Op): seq<Value>
  {
    match op
    case Load(p) => [p]
    case Extract(v, i) => [v, i]
    case Gep(b, idx) => [b] + idx
    case Call(_, args) => args
    case Other(os) => os
    case Erased => []
  }

  predicate UsesValue(ins: Instr, v: Value) { v in Operands(ins.op) }

  /** The users of `v`, in table order; an erased instruction uses nothing. */
  function UsersOf(t: seq<Instr>, v: Value): (us: seq<nat>)
    ensures forall a :: 0 <= a < |us| ==> us[a] < |t| && UsesValue(t[us[a]], v)
    ensures forall j :: 0 <= j < |t| && UsesValue(t[j], v) ==> j in us
    ensures forall a, b :: 0 <= a < b < |us| ==> us[a] < us[b]
    decreases |t|
  {
    if |t| == 0 then []
    else
      var init := UsersOf(t[..|t| - 1], v);
      assert forall j :: 0 <= j < |t| - 1 ==> t[..|t| - 1][j] == t[j];
      init + (if UsesValue(t[|t| - 1], v) then [|t| - 1] else [])
  }

  /** A value nothing uses has no users. */
  lemma {:induction false} UsersOfUnused(t: seq<Instr>, v: Value)
    requires forall j :: 0 <= j < |t| ==> !UsesValue(t[j], v)
    ensures UsersOf(t, v) == []
    decreases |t|
  {
    if |t| > 0 {
      UsersOfUnused(t[..|t| - 1], v);
    }
  }

  // ------------------------------------------------ replaceAllUsesWith

  function ReplaceValue(x: Value, from: Value, to: Value): Value
  {
    if x == from then to else x
  }

  function ReplaceInOp(op: Op, from: Value, to: Value): (r: Op)
    ensures |Operands(r)| == |Operands(op)|
    ensures forall k :: 0 <= k < |Operands(op)| ==>
              Operands(r)[k] == ReplaceValue(Operands(op)[k], from, to)
  {
    var rep := (vs: seq<Value>) => seq(|vs|, k requires 0 <= k < |vs| => ReplaceValue(vs[k], from, to));
    match op
    case Load(p) => Load(ReplaceValue(p, from, to))
    case Extract(v, i) => Extract(ReplaceValue(v, from, to), ReplaceValue(i, from, to))
    case Gep(b, idx) => Gep(ReplaceValue(b, from, to), rep(idx))
    case Call(c, args) => Call(c, rep(args))
    case Other(os) => Other(rep(os))
    case Erased => Erased
  }

  /** `replaceAllUsesWith`: every operand equal to `from` becomes `to`. */
  function ReplaceUses(t: seq<Instr>, from: Value, to: Value): (r: seq<Instr>)
    ensures |r| == |t|
    ensures forall j :: 0 <= j < |t| ==> r[j] == Instr(t[j].fn, ReplaceInOp(t[j].op, from, to))
  {
    seq(|t|, j requires 0 <= j < |t| => Instr(t[j].fn, ReplaceInOp(t[j].op, from, to)))
  }

  /** After replacing, nothing uses the old value, every former user uses the
      new one, and no other operand changed. */
  lemma ReplaceUsesSpec(t: seq<Instr>, from: Value, to: Value)
    requires from != to
    ensures UsersOf(ReplaceUses(t, from, to), from) == []
    ensures forall j :: 0 <= j < |t| && UsesValue(t[j], from) ==> UsesValue(ReplaceUses(t, from, to)[j], to)
    ensures forall j, k :: 0 <= j < |t| && 0 <= k < |Operands(t[j].op)| && Operands(t[j].op)[k] != from ==>
              Operands(ReplaceUses(t, from, to)[j].op)[k] == Operands(t[j].op)[k]
  {
    ReplaceUsesRemoves(t, from, to);
    ReplaceUsesRedirects(t, from, to);
  }

  lemma ReplaceUsesRemoves(t: seq<Instr>, from: Value, to: Value)
    requires from != to
    ensures UsersOf(ReplaceUses(t, from, to), from) == []
  {
    var r := ReplaceUses(t, from, to);
    forall j | 0 <= j < |r|
      ensures !UsesValue(r[j], from)
    {
      forall k | 0 <= k < |Operands(r[j].op)|
        ensures Operands(r[j].op)[k] != from
      {
        assert Operands(r[j].op)[k] == ReplaceValue(Operands(t[j].op)[k], from, to);
      }
    }
    UsersOfUnused(r, from);
  }

  lemma ReplaceUsesRedirects(t: seq<Instr>, from: Value, to: Value)
    ensures forall j :: 0 <= j < |t| && UsesValue(t[j], from) ==> UsesValue(ReplaceUses(t, from, to)[j], to)
  {
    var r := ReplaceUses(t, from, to);
    forall j | 0 <= j < |t| && UsesValue(t[j], from)
      ensures UsesValue(r[j], to)
    {
      var k :| 0 <= k < |Operands(t[j].op)| && Operands(t[j].op)[k] == from;
      assert Operands(r[j].op)[k] == to;
    }
  }

  // --------------------------------------------------------- erasure

  /** Erasing every instruction listed in `ds`. */
  function MarkErased(t: seq<Instr>, ds: seq<nat>): (r: seq<Instr>)
    ensures |r| == |t|
    ensures forall j :: 0 <= j < |t| ==> r[j] == if j in ds then Instr(t[j].fn, Erased) else t[j]
  {
    seq(|t|, j requires 0 <= j < |t| => if j in ds then Instr(t[j].fn, Erased) else t[j])
  }

  // ------------------------------------------- how rewriting changes a table

  /** The operation kind is kept (with the callee and operand count). */
  predicate SameKind(a: Op, b: Op)
  {
    match a
    case Load(_) => b.Load?
    case Extract(_, _) => b.Extract?
    case Gep(_, idx) => b.Gep? && |b.indices| == |idx|
    case Call(c, args) => b.Call? && b.callee == c && |b.args| == |args|
    case Other(os) => b.Other? && |b.ops| == |os|
    case Erased => b.Erased?
  }

  /** An instruction id created after a table of size `n`. */
  predicate Newer(v: Value, n: nat) { v.InstV? && v.id >= n }

  /** `b` is `a` with some instruction operands redirected to instructions
      newer than `n`. */
  predicate Evolved(a: Instr, b: Instr, n: nat)
  {
    a.fn == b.fn && SameKind(a.op, b.op) && |Operands(a.op)| == |Operands(b.op)| &&
    forall k :: 0 <= k < |Operands(b.op)| ==>
      Operands(b.op)[k] == Operands(a.op)[k] ||
      (Operands(a.op)[k].InstV? && Newer(Operands(b.op)[k], n))
  }

  /** What the rewriting loops may do to a table: add calls at the end and
      redirect operands of existing instructions to those new calls. */
  predicate Grows(before: seq<Instr>, after: seq<Instr>)
  {
    |before| <= |after| &&
    (forall j :: |before| <= j < |after| ==> after[j].op.Call?) &&
    (forall j :: 0 <= j < |before| ==> Evolved(before[j], after[j], |before|))
  }

  lemma GrowsRefl(t: seq<Instr>)
    ensures Grows(t, t)
  {
  }

  lemma GrowsTrans(a: seq<Instr>, b: seq<Instr>, c: seq<Instr>)
    requires Grows(a, b) && Grows(b, c)
    ensures Grows(a, c)
  {
    forall j | 0 <= j < |a|
      ensures Evolved(a[j], c[j], |a|)
    {
      assert Evolved(a[j], b[j], |a|);
      assert Evolved(b[j], c[j], |b|);
    }
  }

  /** Appending a call and redirecting the uses of some value to it. */
  lemma GrowsByCall(t: seq<Instr>, call: Instr, from: Value)
    requires call.op.Call? && from.InstV?
    ensures Grows(t, ReplaceUses(t + [call], from, InstV(|t|)))
  {
    var t1 := t + [call];
    var r := ReplaceUses(t1, from, InstV(|t|));
    forall j | 0 <= j < |t|
      ensures Evolved(t[j], r[j], |t|)
    {
      assert t1[j] == t[j];
    }
  }

  /** A load reading an older value, found in a grown table, was there before. */
  lemma GrowsKeepsOldLoad(before: seq<Instr>, after: seq<Instr>, j: nat, p: Value)
    requires Grows(before, after)
    requires j < |after| && after[j].op == Load(p)
    requires !Newer(p, |before|)
    ensures j < |before| && before[j].op == Load(p) && before[j].fn == after[j].fn
  {
    assert Operands(after[j].op)[0] == p;
  }

  /** A GEP found in a grown table was there before, with the same global operands. */
  lemma GrowsKeepsGep(before: seq<Instr>, after: seq<Instr>, j: nat, g: string)
    requires Grows(before, after)
    requires j < |after| && after[j].op.Gep? && GlobalV(g) in Operands(after[j].op)
    ensures j < |before| && before[j].op.Gep? && GlobalV(g) in Operands(before[j].op)
  {
    var k :| 0 <= k < |Operands(after[j].op)| && Operands(after[j].op)[k] == GlobalV(g);
    assert Evolved(before[j], after[j], |before|);
  }
}
