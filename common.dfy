/** Shared vocabulary: results, fixed-width integer ranges, text helpers and
    the positions of the `true` entries of a boolean mask. */
module Common {

  datatype Option<+T> = None | Some(value: T)

  datatype Result<+T, +E> = Ok(value: T) | Err(error: E)

  const TWO_POW_32: int := 0x1_0000_0000
  const TWO_POW_64: int := 0x1_0000_0000_0000_0000

  /** `unsigned` (32 bits) and `size_t` (64 bits) values. */
  type U32 = x: int | 0 <= x < TWO_POW_32
  type U64 = x: int | 0 <= x < TWO_POW_64

  /** Unsigned `x - 1`, which wraps to the largest value when `x` is 0. */
  function PredU32(x: U32): (r: U32)
    ensures x == 0 ==> r == TWO_POW_32 - 1
    ensures x > 0 ==> r + 1 == x
  {
    if x == 0 then TWO_POW_32 - 1 else x - 1
  }

  function PredU64(x: U64): (r: U64)
    ensures x == 0 ==> r == TWO_POW_64 - 1
    ensures x > 0 ==> r + 1 == x
  {
    if x == 0 then TWO_POW_64 - 1 else x - 1
  }

  // ---------------------------------------------------------------- text

  function DigitChar(d: nat): char
    requires d < 10
  {
    "0123456789"[d]
  }

  /** Decimal rendering of a natural number, as `raw_ostream << unsigned` prints it. */
  function Decimal(n: nat): (s: string)
    ensures |s| > 0
    ensures forall k :: 0 <= k < |s| ==> '0' <= s[k] <= '9'
    decreases n
  {
    if n < 10 then [DigitChar(n)] else Decimal(n / 10) + [DigitChar(n % 10)]
  }

  /** `xs` joined with `sep` between consecutive elements. */
  function Join(xs: seq<string>, sep: string): string
  {
    if |xs| == 0 then ""
    else if |xs| == 1 then xs[0]
    else xs[0] + sep + Join(xs[1..], sep)
  }

  /** Every element followed by `sep`: the text a loop writing `x << sep` produces. */
  function Terminated(xs: seq<string>, sep: string): string
  {
    if |xs| == 0 then "" else xs[0] + sep + Terminated(xs[1..], sep)
  }

  lemma {:induction false} TerminatedSnoc(xs: seq<string>, x: string, sep: string)
    ensures Terminated(xs + [x], sep) == Terminated(xs, sep) + x + sep
  {
    if |xs| == 0 {
      assert xs + [x] == [x];
    } else {
      assert (xs + [x])[1..] == xs[1..] + [x];
      TerminatedSnoc(xs[1..], x, sep);
    }
  }

  /** Writing every element of `xs` followed by a separator, then the join of a
      non-empty `ys`, is the join of `xs + ys`. */
  lemma {:induction false} TerminatedThenJoin(xs: seq<string>, ys: seq<string>, sep: string)
    requires |ys| > 0
    ensures Terminated(xs, sep) + Join(ys, sep) == Join(xs + ys, sep)
  {
    if |xs| == 0 {
      assert xs + ys == ys;
    } else {
      assert (xs + ys)[1..] == xs[1..] + ys;
      TerminatedThenJoin(xs[1..], ys, sep);
    }
  }

  /** Concatenation of a sequence of strings. */
  function Concat(xs: seq<string>): string
  {
    if |xs| == 0 then "" else xs[0] + Concat(xs[1..])
  }

  lemma {:induction false} ConcatSnoc(xs: seq<string>, x: string)
    ensures Concat(xs + [x]) == Concat(xs) + x
  {
    if |xs| == 0 {
      assert xs + [x] == [x];
    } else {
      assert (xs + [x])[1..] == xs[1..] + [x];
      ConcatSnoc(xs[1..], x);
    }
  }

  // ------------------------------------------------- positions of a mask

  /** The indices of `s` holding `true`, in increasing order. */
  function TruePositions(s: seq<bool>): (r: seq<nat>)
    ensures |r| <= |s|
    decreases |s|
  {
    if |s| == 0 then []
    else TruePositions(s[..|s| - 1]) + (if s[|s| - 1] then [|s| - 1] else [])
  }

  /** One more mask entry adds its index exactly when it is `true`. */
  lemma TruePositionsStep(s: seq<bool>, i: nat)
    requires i < |s|
    ensures TruePositions(s[..i + 1]) ==
            TruePositions(s[..i]) + (if s[i] then [i] else [])
  {
    assert s[..i + 1][..i] == s[..i];
  }

  /** Soundness: the positions are strictly increasing, in range and `true`. */
  lemma {:induction false} TruePositionsSound(s: seq<bool>)
    ensures forall a, b :: 0 <= a < b < |TruePositions(s)| ==>
              TruePositions(s)[a] < TruePositions(s)[b]
    ensures forall a :: 0 <= a < |TruePositions(s)| ==>
              TruePositions(s)[a] < |s| && s[TruePositions(s)[a]]
    decreases |s|
  {
    if |s| > 0 {
      var init := s[..|s| - 1];
      TruePositionsSound(init);
      assert forall k :: 0 <= k < |init| ==> init[k] == s[k];
    }
  }

  /** Completeness: every `true` index is listed. */
  lemma {:induction false} TruePositionsComplete(s: seq<bool>, k: nat)
    requires k < |s| && s[k]
    ensures k in TruePositions(s)
    decreases |s|
  {
    if k < |s| - 1 {
      var init := s[..|s| - 1];
      TruePositionsComplete(init, k);
    }
  }

  /** The positions found in a prefix are a prefix of the positions of the whole. */
  lemma {:induction false} TruePositionsPrefix(s: seq<bool>, i: nat)
    requires i <= |s|
    ensures |TruePositions(s[..i])| <= |TruePositions(s)|
    ensures TruePositions(s[..i]) == TruePositions(s)[..|TruePositions(s[..i])|]
    decreases |s| - i
  {
    if i == |s| {
      assert s[..i] == s;
    } else {
      TruePositionsPrefix(s, i + 1);
      TruePositionsStep(s, i);
    }
  }

  /** Every listed position of `s[..i]` lies below `i`, and the positions of `s`
      below `i` are exactly those of `s[..i]`. */
  lemma TruePositionsBelow(s: seq<bool>, i: nat, a: nat)
    requires i <= |s|
    requires a < |TruePositions(s)|
    ensures TruePositions(s)[a] < i <==> a < |TruePositions(s[..i])|
  {
    TruePositionsPrefix(s, i);
    TruePositionsSound(s);
    TruePositionsSound(s[..i]);
    var p := TruePositions(s);
    if p[a] < i {
      TruePositionsComplete(s[..i], p[a]);
    }
  }

  /** A product of naturals is a natural. */
  lemma {:induction false} MulNonneg(a: nat, b: nat)
    ensures a * b >= 0
  {
    if b > 0 {
      MulNonneg(a, b - 1);
      assert a * b == a * (b - 1) + a;
    }
  }

  /** Multiplying by a natural is monotone. */
  lemma MulMono(c: nat, a: nat, b: nat)
    requires a <= b
    ensures c * a <= c * b
  {
    assert c * b - c * a == c * (b - a);
  }

  lemma ConcatAssoc<T>(a: seq<T>, b: seq<T>, c: seq<T>)
    ensures (a + b) + c == a + (b + c)
  {
  }
}
