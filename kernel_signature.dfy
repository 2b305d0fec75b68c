/** The signature half of both prepare passes: every `SPIR_KERNEL` function is
    rebuilt with one more, trailing, parameter (`addArg`), the rebuilt
    function takes over the old name, the old one is erased, and at the end
    the calling convention and attributes of the rebuilt kernels are reset
    (`fixCallingConv`). */
module KernelSignature {
  import opened Common
  import opened Ir

  /** An LLVM module never holds two functions with the same name. */
  predicate UniqueNames(fs: seq<Function>)
  {
    forall i, j :: 0 <= i < j < |fs| ==> fs[i].name != fs[j].name
  }

  function NamesOf(fs: seq<Function>): set<string>
  {
    set i | 0 <= i < |fs| :: fs[i].name
  }

  /** `addArg(oldF, T)`: same return type, vararg flag, linkage, name and
      attributes, the old parameter types in order followed by `t`. Only a
      definition has its body (and with it the kernel metadata) cloned, with
      old parameter `i` standing for new parameter `i`; a fresh function
      starts with the C calling convention and cloning copies the old one. */
  function AddArg(f: Function, t: IrType): (g: Function)
    ensures g.name == f.name && g.retType == f.retType && g.isVarArg == f.isVarArg
    ensures g.linkage == f.linkage && g.attrs == f.attrs && g.isDecl == f.isDecl
    ensures |g.params| == |f.params| + 1
    ensures forall i :: 0 <= i < |f.params| ==> g.params[i] == f.params[i]
    ensures g.params[|f.params|] == t
    ensures !f.isDecl ==> g.cc == f.cc && g.omitArgs == f.omitArgs && g.argTypes == f.argTypes
    ensures f.isDecl ==> g.cc == CCallConv && g.omitArgs.None? && g.argTypes.None?
  {
    if f.isDecl then
      Function(f.name, CCallConv, f.linkage, f.retType, f.params + [t], f.isVarArg, f.attrs,
               true, None, None)
    else
      f.(params := f.params + [t])
  }

  /** `fixCallingConv`: C calling convention and no attributes; nothing else changes. */
  function FixCallingConv(f: Function): (g: Function)
    ensures g.cc == CCallConv && g.attrs == {}
    ensures g.name == f.name && g.params == f.params && g.retType == f.retType
    ensures g.isVarArg == f.isVarArg && g.linkage == f.linkage && g.isDecl == f.isDecl
    ensures g.omitArgs == f.omitArgs && g.argTypes == f.argTypes
  {
    f.(cc := CCallConv, attrs := {})
  }

  /** The module's functions without those named in `ns`, in order. */
  function WithoutNames(fs: seq<Function>, ns: set<string>): seq<Function>
    decreases |fs|
  {
    if |fs| == 0 then []
    else
      WithoutNames(fs[..|fs| - 1], ns) +
      (if fs[|fs| - 1].name in ns then [] else [fs[|fs| - 1]])
  }

  /** The functions that are not kernels, in module order. */
  function NonKernels(fs: seq<Function>): seq<Function>
    decreases |fs|
  {
    if |fs| == 0 then []
    else NonKernels(fs[..|fs| - 1]) + (if IsKernel(fs[|fs| - 1]) then [] else [fs[|fs| - 1]])
  }

  function MapAddArg(ks: seq<Function>, t: IrType): (r: seq<Function>)
    ensures |r| == |ks|
    ensures forall i :: 0 <= i < |ks| ==> r[i] == AddArg(ks[i], t)
  {
    seq(|ks|, i requires 0 <= i < |ks| => AddArg(ks[i], t))
  }

  function MapFixCallingConv(fs: seq<Function>): (r: seq<Function>)
    ensures |r| == |fs|
    ensures forall i :: 0 <= i < |fs| ==> r[i] == FixCallingConv(fs[i])
  {
    seq(|fs|, i requires 0 <= i < |fs| => FixCallingConv(fs[i]))
  }

  /** The function list after the kernel loop has handled `ks`: for each one
      the rebuilt function is appended (`Function::Create` into the same
      module) and the old one, found by its name, is erased. */
  function ExtendAll(fs: seq<Function>, ks: seq<Function>, t: IrType): seq<Function>
    decreases |ks|
  {
    if |ks| == 0 then fs
    else
      var k := ks[|ks| - 1];
      WithoutNames(ExtendAll(fs, ks[..|ks| - 1], t), {k.name}) + [AddArg(k, t)]
  }

  // --------------------------------------------------- facts about removal

  lemma {:induction false} WithoutNamesAppend(a: seq<Function>, b: seq<Function>, ns: set<string>)
    ensures WithoutNames(a + b, ns) == WithoutNames(a, ns) + WithoutNames(b, ns)
    decreases |b|
  {
    if |b| == 0 {
      assert a + b == a;
    } else {
      var init := b[..|b| - 1];
      assert (a + b)[..|a + b| - 1] == a + init;
      WithoutNamesAppend(a, init, ns);
    }
  }

  /** Removal only looks at the names present. */
  lemma {:induction false} WithoutNamesAgree(fs: seq<Function>, n1: set<string>, n2: set<string>)
    requires forall i :: 0 <= i < |fs| ==> (fs[i].name in n1 <==> fs[i].name in n2)
    ensures WithoutNames(fs, n1) == WithoutNames(fs, n2)
    decreases |fs|
  {
    if |fs| > 0 {
      WithoutNamesAgree(fs[..|fs| - 1], n1, n2);
    }
  }

  lemma {:induction false} WithoutNamesCompose(fs: seq<Function>, n1: set<string>, n2: set<string>)
    ensures WithoutNames(WithoutNames(fs, n1), n2) == WithoutNames(fs, n1 + n2)
    decreases |fs|
  {
    if |fs| > 0 {
      var init := fs[..|fs| - 1];
      var x := fs[|fs| - 1];
      WithoutNamesCompose(init, n1, n2);
      WithoutNamesAppend(WithoutNames(init, n1), if x.name in n1 then [] else [x], n2);
      if x.name !in n1 {
        assert [x][..0] == [];
      }
    }
  }

  /** The kernels of a module with unique names have unique names. */
  lemma {:induction false} KernelsUniqueNames(fs: seq<Function>)
    requires UniqueNames(fs)
    ensures UniqueNames(Kernels(fs))
    decreases |fs|
  {
    if |fs| > 0 {
      var init := fs[..|fs| - 1];
      var x := fs[|fs| - 1];
      KernelsUniqueNames(init);
      KernelsExact(init);
      if IsKernel(x) {
        var ks := Kernels(fs);
        forall i | 0 <= i < |ks| - 1
          ensures ks[i].name != x.name
        {
          assert ks[i] in Kernels(init);
          var m :| 0 <= m < |init| && init[m] == ks[i];
          assert fs[m] == ks[i];
        }
      }
    }
  }

  /** In a module with unique names, a function's name belongs to a kernel
      exactly when the function is a kernel. */
  lemma KernelNamesSpec(fs: seq<Function>)
    requires UniqueNames(fs)
    ensures forall i :: 0 <= i < |fs| ==> (fs[i].name in NamesOf(Kernels(fs)) <==> IsKernel(fs[i]))
  {
    var ks := Kernels(fs);
    KernelsExact(fs);
    forall i | 0 <= i < |fs|
      ensures fs[i].name in NamesOf(ks) <==> IsKernel(fs[i])
    {
      if IsKernel(fs[i]) {
        assert fs[i] in ks;
        var m :| 0 <= m < |ks| && ks[m] == fs[i];
        assert ks[m].name in NamesOf(ks);
      }
      if fs[i].name in NamesOf(ks) {
        var m :| 0 <= m < |ks| && ks[m].name == fs[i].name;
        assert ks[m] in ks;
        var p :| 0 <= p < |fs| && fs[p] == ks[m];
        assert p == i;
      }
    }
  }

  /** Removing a set of names that picks out exactly the kernels. */
  lemma {:induction false} WithoutNamesNonKernels(fs: seq<Function>, ns: set<string>)
    requires forall i :: 0 <= i < |fs| ==> (fs[i].name in ns <==> IsKernel(fs[i]))
    ensures WithoutNames(fs, ns) == NonKernels(fs)
    decreases |fs|
  {
    if |fs| > 0 {
      WithoutNamesNonKernels(fs[..|fs| - 1], ns);
    }
  }

  /** Erasing every kernel by name leaves exactly the non-kernels. */
  lemma WithoutKernelNames(fs: seq<Function>)
    requires UniqueNames(fs)
    ensures WithoutNames(fs, NamesOf(Kernels(fs))) == NonKernels(fs)
  {
    KernelNamesSpec(fs);
    WithoutNamesNonKernels(fs, NamesOf(Kernels(fs)));
  }

  lemma NamesOfSnoc(ks: seq<Function>, i: nat)
    requires 0 < i <= |ks|
    ensures NamesOf(ks[..i]) == NamesOf(ks[..i - 1]) + {ks[i - 1].name}
  {
    var k := ks[i - 1];
    forall n | n in NamesOf(ks[..i])
      ensures n in NamesOf(ks[..i - 1]) + {k.name}
    {
      var j :| 0 <= j < i && ks[..i][j].name == n;
      if j < i - 1 {
        assert ks[..i - 1][j] == ks[..i][j];
      }
    }
    forall n | n in NamesOf(ks[..i - 1]) + {k.name}
      ensures n in NamesOf(ks[..i])
    {
      if n == k.name {
        assert ks[..i][i - 1] == k;
      } else {
        var j :| 0 <= j < i - 1 && ks[..i - 1][j].name == n;
        assert ks[..i][j] == ks[..i - 1][j];
      }
    }
  }

  /** After the kernel loop has handled the first `i` kernels, the module is
      the original without those kernels, then their rebuilt versions. */
  lemma {:induction false} ExtendPrefix(fs: seq<Function>, ks: seq<Function>, i: nat, t: IrType)
    requires UniqueNames(ks)
    requires i <= |ks|
    ensures ExtendAll(fs, ks[..i], t) == WithoutNames(fs, NamesOf(ks[..i])) + MapAddArg(ks[..i], t)
    decreases i
  {
    if i == 0 {
      assert ks[..0] == [];
      WithoutNamesAgree(fs, NamesOf(ks[..0]), {});
      WithoutNamesKeepsAll(fs);
    } else {
      var k := ks[i - 1];
      assert ks[..i][..i - 1] == ks[..i - 1];
      ExtendPrefix(fs, ks, i - 1, t);
      ExtendStep(fs, ks, i, t);
    }
  }

  lemma ExtendStep(fs: seq<Function>, ks: seq<Function>, i: nat, t: IrType)
    requires UniqueNames(ks)
    requires 0 < i <= |ks|
    ensures WithoutNames(WithoutNames(fs, NamesOf(ks[..i - 1])) + MapAddArg(ks[..i - 1], t), {ks[i - 1].name})
            + [AddArg(ks[i - 1], t)]
            == WithoutNames(fs, NamesOf(ks[..i])) + MapAddArg(ks[..i], t)
  {
    var k := ks[i - 1];
    var w := WithoutNames(fs, NamesOf(ks[..i - 1]));
    var m := MapAddArg(ks[..i - 1], t);
    var x := WithoutNames(fs, NamesOf(ks[..i]));
    var a := AddArg(k, t);
    WithoutNamesAppend(w, m, {k.name});
    ErasedNext(fs, ks, i);
    UnextendedKept(ks, i, t);
    MapAddArgSnoc(ks, i, t);
    assert WithoutNames(w + m, {k.name}) == x + m;
    assert (x + m) + [a] == x + (m + [a]);
  }

  lemma ErasedNext(fs: seq<Function>, ks: seq<Function>, i: nat)
    requires 0 < i <= |ks|
    ensures WithoutNames(WithoutNames(fs, NamesOf(ks[..i - 1])), {ks[i - 1].name}) ==
            WithoutNames(fs, NamesOf(ks[..i]))
  {
    WithoutNamesCompose(fs, NamesOf(ks[..i - 1]), {ks[i - 1].name});
    NamesOfSnoc(ks, i);
  }

  /** The kernels rebuilt so far are not touched when the next one is erased. */
  lemma UnextendedKept(ks: seq<Function>, i: nat, t: IrType)
    requires UniqueNames(ks)
    requires 0 < i <= |ks|
    ensures WithoutNames(MapAddArg(ks[..i - 1], t), {ks[i - 1].name}) == MapAddArg(ks[..i - 1], t)
  {
    var m := MapAddArg(ks[..i - 1], t);
    forall j | 0 <= j < |m|
      ensures m[j].name !in {ks[i - 1].name}
    {
      assert m[j].name == ks[..i - 1][j].name == ks[j].name;
    }
    WithoutNamesKeeps(m, {ks[i - 1].name});
  }

  lemma MapAddArgSnoc(ks: seq<Function>, i: nat, t: IrType)
    requires 0 < i <= |ks|
    ensures MapAddArg(ks[..i], t) == MapAddArg(ks[..i - 1], t) + [AddArg(ks[i - 1], t)]
  {
    var a := MapAddArg(ks[..i], t);
    var b := MapAddArg(ks[..i - 1], t) + [AddArg(ks[i - 1], t)];
    forall j | 0 <= j < |a|
      ensures a[j] == b[j]
    {
      if j < i - 1 {
        assert ks[..i][j] == ks[..i - 1][j];
      }
    }
  }

  lemma {:induction false} WithoutNamesKeeps(fs: seq<Function>, ns: set<string>)
    requires forall j :: 0 <= j < |fs| ==> fs[j].name !in ns
    ensures WithoutNames(fs, ns) == fs
    decreases |fs|
  {
    if |fs| > 0 {
      WithoutNamesKeeps(fs[..|fs| - 1], ns);
      assert fs[..|fs| - 1] + [fs[|fs| - 1]] == fs;
    }
  }

  lemma WithoutNamesKeepsAll(fs: seq<Function>)
    ensures WithoutNames(fs, {}) == fs
  {
    WithoutNamesKeeps(fs, {});
  }

  lemma NamesOfAppend(a: seq<Function>, b: seq<Function>)
    ensures NamesOf(a + b) == NamesOf(a) + NamesOf(b)
  {
    var c := a + b;
    forall n | n in NamesOf(c)
      ensures n in NamesOf(a) + NamesOf(b)
    {
      var j :| 0 <= j < |c| && c[j].name == n;
      if j < |a| {
        assert a[j] == c[j];
      } else {
        assert b[j - |a|] == c[j];
      }
    }
    forall n | n in NamesOf(a) + NamesOf(b)
      ensures n in NamesOf(c)
    {
      if n in NamesOf(a) {
        var j :| 0 <= j < |a| && a[j].name == n;
        assert c[j] == a[j];
      } else {
        var j :| 0 <= j < |b| && b[j].name == n;
        assert c[|a| + j] == b[j];
      }
    }
  }

  /** Every function is either a kernel or not: the two selections together
      have the module's size and names, and no selected non-kernel is a kernel. */
  lemma {:induction false} KernelsSplit(fs: seq<Function>)
    ensures |NonKernels(fs)| + |Kernels(fs)| == |fs|
    ensures forall i :: 0 <= i < |NonKernels(fs)| ==> !IsKernel(NonKernels(fs)[i])
    ensures NamesOf(NonKernels(fs)) + NamesOf(Kernels(fs)) == NamesOf(fs)
    decreases |fs|
  {
    if |fs| > 0 {
      var init := fs[..|fs| - 1];
      var x := fs[|fs| - 1];
      KernelsSplit(init);
      assert fs == init + [x];
      NamesOfAppend(init, [x]);
      var tail := if IsKernel(x) then [] else [x];
      var ktail := if IsKernel(x) then [x] else [];
      NamesOfAppend(NonKernels(init), tail);
      NamesOfAppend(Kernels(init), ktail);
      assert NamesOf([x]) == {x.name};
      assert NamesOf(tail) + NamesOf(ktail) == NamesOf([x]);
    }
  }

  /** The kernel loop of both passes, on a module with unique names, leaves the
      non-kernels in their order followed by the rebuilt kernels in theirs. */
  lemma ExtendAllKernels(fs: seq<Function>, t: IrType)
    requires UniqueNames(fs)
    ensures ExtendAll(fs, Kernels(fs), t) == NonKernels(fs) + MapAddArg(Kernels(fs), t)
  {
    var ks := Kernels(fs);
    KernelsUniqueNames(fs);
    ExtendPrefix(fs, ks, |ks|, t);
    assert ks[..|ks|] == ks;
    WithoutKernelNames(fs);
  }
}
