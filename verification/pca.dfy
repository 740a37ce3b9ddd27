/** The embedding engine (src/lib.rs): input validation, kernel-matrix
    construction, data centering, sign determination and the final
    assembly of the embedding from the decomposition's factors. */
module Pca {
  import opened Errors
  import opened Kernels

  /** The data is non-empty and rectangular with a non-empty first row, so
      every row has the same, positive, number of features. */
  predicate WellShaped(data: seq<seq<real>>)
    ensures WellShaped(data) ==> forall i :: 0 <= i < |data| ==> |data[i]| > 0
  {
    |data| > 0 && |data[0]| > 0 && Rectangular(data)
  }

  /** A Kernel PCA configuration: the kernel and the embedding dimension. */
  datatype KernelPca = KernelPca(kernel: Kernel, embedDim: nat)
  {
    /** `validate`: the shape of the data is checked before the
        configuration, and the first failing check decides the error. */
    method Validate(data: seq<seq<real>>) returns (r: Result<()>)
      ensures r == Err(InvalidData) <==> !WellShaped(data)
      ensures r == Err(InvalidConfig) <==>
                WellShaped(data) && (embedDim == 0 || embedDim > |data[0]|)
      ensures r == Ok(()) <==> WellShaped(data) && 1 <= embedDim <= |data[0]|
    {
      if |data| == 0 {
        return Err(InvalidData);
      }
      var dim := |data[0]|;
      if dim == 0 {
        return Err(InvalidData);
      }
      for i := 0 to |data|
        invariant forall p :: 0 <= p < i ==> |data[p]| == dim
      {
        if |data[i]| != dim {
          return Err(InvalidData);
        }
      }
      if embedDim == 0 {
        return Err(InvalidConfig);
      }
      if embedDim > dim {
        return Err(InvalidConfig);
      }
      return Ok(());
    }

    /** The first `rows` rows of the lower triangle of `k` hold the kernel
        values, and each is mirrored above the diagonal. */
    ghost predicate LowerRowsFilled(k: array2<real>, x: seq<seq<real>>, t: Transcendentals, rows: nat)
      requires k.Length0 == |x| && k.Length1 == |x| && rows <= |x|
      reads k
    {
      forall p, q :: 0 <= q <= p < rows ==>
        k[p, q] == Compute(kernel, x[p], x[q], t) && k[q, p] == k[p, q]
    }

    /** `form_kernel_matrix`: only the lower triangle and the diagonal are
        evaluated; each off-diagonal value is written to both of its mirror
        positions. The result is the full matrix of pairwise kernel values. */
    method FormKernelMatrix(x: seq<seq<real>>, t: Transcendentals) returns (k: array2<real>)
      ensures fresh(k)
      ensures k.Length0 == |x| && k.Length1 == |x|
      ensures forall i, j :: 0 <= i < |x| && 0 <= j < |x| ==> k[i, j] == k[j, i]
      ensures forall i, j :: 0 <= i < |x| && 0 <= j < |x| ==> k[i, j] == Compute(kernel, x[i], x[j], t)
    {
      var n := |x|;
      k := new real[n, n]((i, j) => 0.0);
      for i := 0 to n
        invariant LowerRowsFilled(k, x, t, i)
      {
        FillRow(k, x, t, i);
      }
      LowerRowsFilledIsFull(k, x, t);
    }

    /** One pass of the outer loop of `form_kernel_matrix`: row `i` left of
        the diagonal and its mirror image, then the diagonal entry. Nothing
        else is written: neither the rest of the matrix nor row `i` right of
        the diagonal and column `i` below it. */
    method FillRow(k: array2<real>, x: seq<seq<real>>, t: Transcendentals, i: nat)
      requires k.Length0 == |x| && k.Length1 == |x| && i < |x|
      requires LowerRowsFilled(k, x, t, i)
      modifies k
      ensures LowerRowsFilled(k, x, t, i + 1)
      ensures forall p, q :: 0 <= p < |x| && 0 <= q < |x| && !(p == i && q <= i) && !(q == i && p <= i) ==>
                k[p, q] == old(k[p, q])
    {
      MirrorRow(k, x, t, i);
      label RowFilled:
      k[i, i] := Compute(kernel, x[i], x[i], t);
      forall p, q | 0 <= q <= p < i + 1
        ensures k[p, q] == Compute(kernel, x[p], x[q], t) && k[q, p] == k[p, q]
      {
        if p < i {
          assert k[p, q] == old@RowFilled(k[p, q]) == old(k[p, q]);
          assert k[q, p] == old@RowFilled(k[q, p]) == old(k[q, p]);
        } else if q < p {
          assert k[p, q] == old@RowFilled(k[p, q]) && k[q, p] == old@RowFilled(k[q, p]);
        }
      }
    }

    /** The inner loop of `form_kernel_matrix` for row `i`: each kernel value
        left of the diagonal is written to its position and to its mirror
        position; no other entry, the diagonal included, is written. */
    method MirrorRow(k: array2<real>, x: seq<seq<real>>, t: Transcendentals, i: nat)
      requires k.Length0 == |x| && k.Length1 == |x| && i < |x|
      modifies k
      ensures forall q :: 0 <= q < i ==>
                k[i, q] == Compute(kernel, x[i], x[q], t) && k[q, i] == k[i, q]
      ensures forall p, q :: 0 <= p < |x| && 0 <= q < |x| && !(p == i && q < i) && !(q == i && p < i) ==>
                k[p, q] == old(k[p, q])
    {
      for j := 0 to i
        invariant forall q :: 0 <= q < j ==>
                    k[i, q] == Compute(kernel, x[i], x[q], t) && k[q, i] == k[i, q]
        invariant forall p, q :: 0 <= p < |x| && 0 <= q < |x| && !(p == i && q < j) && !(q == i && p < j) ==>
                    k[p, q] == old(k[p, q])
      {
        var kij := Compute(kernel, x[i], x[j], t);
        k[i, j] := kij;
        k[j, i] := kij;
      }
    }

    /** A matrix whose every lower row is filled holds every pairwise kernel
        value, because every kernel is symmetric. */
    lemma LowerRowsFilledIsFull(k: array2<real>, x: seq<seq<real>>, t: Transcendentals)
      requires k.Length0 == |x| && k.Length1 == |x|
      requires LowerRowsFilled(k, x, t, |x|)
      ensures forall i, j :: 0 <= i < |x| && 0 <= j < |x| ==> k[i, j] == k[j, i]
      ensures forall i, j :: 0 <= i < |x| && 0 <= j < |x| ==> k[i, j] == Compute(kernel, x[i], x[j], t)
    {
      forall i, j | 0 <= i < |x| && 0 <= j < |x|
        ensures k[i, j] == Compute(kernel, x[i], x[j], t)
      {
        if i < j {
          ComputeSymmetric(kernel, x[j], x[i], t);
        }
      }
    }
  }

  /** Every row has as many entries as the first. */
  predicate Rectangular(x: seq<seq<real>>)
  {
    forall i :: 0 <= i < |x| ==> |x[i]| == |x[0]|
  }

  /** The running value of `means[j]` after the first `r` rows have been
      added, accumulated from the top. */
  function ColumnSum(x: seq<seq<real>>, j: nat, r: nat): real
    requires r <= |x| && forall i :: 0 <= i < r ==> j < |x[i]|
  {
    if r == 0 then 0.0 else ColumnSum(x, j, r - 1) + x[r - 1][j]
  }

  /** The accumulated `means[j]` is the reference sum of column `j` of the
      rows added so far. */
  lemma {:induction false} ColumnSumIsSum(x: seq<seq<real>>, j: nat, r: nat)
    requires r <= |x| && forall i :: 0 <= i < r ==> j < |x[i]|
    ensures ColumnSum(x, j, r) == Sum(Column(x[..r], j))
  {
    if r > 0 {
      var col := Column(x[..r], j);
      assert col[..r - 1] == Column(x[..r - 1], j);
      ColumnSumIsSum(x, j, r - 1);
      SumSnoc(col);
    }
  }

  /** The mean of column `j` over all rows: `n` copies of it add up to the
      column sum. */
  function ColumnMean(x: seq<seq<real>>, j: nat): (mean: real)
    requires |x| > 0 && forall i :: 0 <= i < |x| ==> j < |x[i]|
    ensures (|x| as real) * mean == ColumnSum(x, j, |x|)
  {
    ColumnSum(x, j, |x|) / (|x| as real)
  }

  /** `center_data`: the column means are accumulated in `means`, divided by
      the number of rows, and subtracted from every row. */
  method CenterData(x: seq<seq<real>>) returns (c: seq<seq<real>>)
    requires |x| > 0 && Rectangular(x)
    ensures |c| == |x|
    ensures forall i :: 0 <= i < |c| ==> |c[i]| == |x[0]|
    ensures forall i, j :: 0 <= i < |x| && 0 <= j < |x[0]| ==>
              c[i][j] == x[i][j] - ColumnMean(x, j)
  {
    var dim := |x[0]|;
    var n := |x| as real;
    var means := new real[dim](_ => 0.0);
    for r := 0 to |x|
      invariant forall j :: 0 <= j < dim ==> means[j] == ColumnSum(x, j, r)
    {
      var row := x[r];
      for j := 0 to |row|
        invariant forall q :: 0 <= q < j ==> means[q] == ColumnSum(x, q, r + 1)
        invariant forall q :: j <= q < dim ==> means[q] == ColumnSum(x, q, r)
      {
        means[j] := means[j] + row[j];
      }
    }
    for j := 0 to dim
      invariant forall q :: 0 <= q < j ==> means[q] == ColumnMean(x, q)
      invariant forall q :: j <= q < dim ==> means[q] == ColumnSum(x, q, |x|)
    {
      means[j] := means[j] / n;
    }
    var m := means[..];
    c := seq(|x|, i requires 0 <= i < |x| => seq(dim, j requires 0 <= j < dim => x[i][j] - m[j]));
  }

  /** Subtracting the same value `m` from the first `r` entries of a column
      lowers its sum by `r * m`. */
  lemma {:induction false} ShiftedColumnSum(x: seq<seq<real>>, c: seq<seq<real>>, j: nat, r: nat, m: real)
    requires r <= |x| && r <= |c|
    requires forall i :: 0 <= i < r ==> j < |x[i]| && j < |c[i]| && c[i][j] == x[i][j] - m
    ensures ColumnSum(c, j, r) == ColumnSum(x, j, r) - (r as real) * m
  {
    if r > 0 {
      ShiftedColumnSum(x, c, j, r - 1, m);
    }
  }

  /** Over the reals, every column of the centred data sums to zero. */
  lemma CenteredColumnsSumToZero(x: seq<seq<real>>, c: seq<seq<real>>, j: nat)
    requires |x| > 0 && Rectangular(x) && j < |x[0]|
    requires |c| == |x| && forall i :: 0 <= i < |c| ==> |c[i]| == |x[0]|
    requires forall i :: 0 <= i < |x| ==> c[i][j] == x[i][j] - ColumnMean(x, j)
    ensures ColumnSum(c, j, |c|) == 0.0
  {
    var n := |x| as real;
    var sum := ColumnSum(x, j, |x|);
    ShiftedColumnSum(x, c, j, |x|, ColumnMean(x, j));
    assert n * (sum / n) == sum;
  }

  /** The magnitude of a real, `val.abs()`. */
  function Abs(x: real): (r: real)
    ensures r >= 0.0
    ensures r == 0.0 <==> x == 0.0
  {
    if x < 0.0 then -x else x
  }

  /** Column `c` of a matrix given by its rows. */
  function Column(m: seq<seq<real>>, c: nat): (col: seq<real>)
    requires forall i :: 0 <= i < |m| ==> c < |m[i]|
    ensures |col| == |m|
    ensures forall i {:trigger col[i]} :: 0 <= i < |m| ==> col[i] == m[i][c]
  {
    seq(|m|, i requires 0 <= i < |m| => m[i][c])
  }

  /** Every entry of a column negated. */
  function Negate(col: seq<real>): (r: seq<real>)
    ensures |r| == |col|
    ensures forall i {:trigger r[i]} :: 0 <= i < |col| ==> r[i] == -col[i]
  {
    seq(|col|, i requires 0 <= i < |col| => -col[i])
  }

  /** `p` is the first position of `col` whose magnitude is the largest. */
  predicate IsFirstMaxAbs(col: seq<real>, p: int)
  {
    0 <= p < |col| &&
    (forall i :: 0 <= i < |col| ==> Abs(col[i]) <= Abs(col[p])) &&
    (forall i :: 0 <= i < p ==> Abs(col[i]) < Abs(col[p]))
  }

  /** The first position of largest magnitude among the first `n`
      entries of a column, found by a left-to-right scan that moves only
      on a strictly larger magnitude. */
  function FirstMaxAbsIndex(col: seq<real>, n: nat): (p: nat)
    requires 0 < n <= |col|
    ensures IsFirstMaxAbs(col[..n], p)
  {
    if n == 1 then 0
    else
      var q := FirstMaxAbsIndex(col, n - 1);
      assert forall i :: 0 <= i < n - 1 ==> col[..n - 1][i] == col[..n][i];
      if Abs(col[n - 1]) > Abs(col[q]) then n - 1 else q
  }

  /** The sign chosen for a column: -1 exactly when its first entry of
      largest magnitude is negative (see `SignOfFirstMax`), +1 otherwise,
      and +1 for an empty column. */
  function SignOf(col: seq<real>): (s: real)
    ensures s == 1.0 || s == -1.0
  {
    if |col| == 0 then 1.0
    else if col[FirstMaxAbsIndex(col, |col|)] < 0.0 then -1.0 else 1.0
  }

  /** The scan inside `determine_signs` for one column: `max_abs_elem` only
      grows on a strictly larger magnitude, so the first entry of largest
      magnitude decides `flip`; an all-zero column never sets it. */
  method ColumnSign(col: seq<real>) returns (s: real)
    ensures s == SignOf(col)
  {
    var maxAbsElem := 0.0;
    var flip := false;
    ghost var pos := 0;
    for i := 0 to |col|
      invariant maxAbsElem >= 0.0
      invariant forall q :: 0 <= q < i ==> Abs(col[q]) <= maxAbsElem
      invariant maxAbsElem == 0.0 ==> !flip
      invariant maxAbsElem > 0.0 ==>
                  0 <= pos < i && Abs(col[pos]) == maxAbsElem &&
                  (forall q :: 0 <= q < pos ==> Abs(col[q]) < maxAbsElem) &&
                  (flip <==> col[pos] < 0.0)
    {
      var val := col[i];
      if Abs(val) > maxAbsElem {
        maxAbsElem := Abs(val);
        pos := i;
        if val < 0.0 {
          flip := true;
        } else {
          flip := false;
        }
      }
    }
    if maxAbsElem > 0.0 {
      SignOfFirstMax(col, pos);
    } else {
      forall p | 0 <= p < |col| ensures col[p] == 0.0 {
        assert Abs(col[p]) <= maxAbsElem;
      }
      ZeroColumnSign(col);
    }
    s := if flip then -1.0 else 1.0;
  }

  /** There is at most one first position of largest magnitude. */
  lemma FirstMaxAbsUnique(col: seq<real>, p: int, q: int)
    requires IsFirstMaxAbs(col, p) && IsFirstMaxAbs(col, q)
    ensures p == q
  {
    assert Abs(col[q]) <= Abs(col[p]);
    assert Abs(col[p]) <= Abs(col[q]);
  }

  /** `determine_signs`: the sign of each of the first `dim` columns. */
  method DetermineSigns(u: seq<seq<real>>, dim: nat) returns (signs: seq<real>)
    requires forall i :: 0 <= i < |u| ==> dim <= |u[i]|
    ensures |signs| == dim
    ensures forall c :: 0 <= c < dim ==> signs[c] == SignOf(Column(u, c))
  {
    signs := [];
    for c := 0 to dim
      invariant |signs| == c
      invariant forall q :: 0 <= q < c ==> signs[q] == SignOf(Column(u, q))
    {
      var s := ColumnSign(Column(u, c));
      signs := signs + [s];
    }
  }

  /** Whichever position is the first of largest magnitude decides the
      sign: -1 if the entry there is negative, +1 if not. */
  lemma SignOfFirstMax(col: seq<real>, p: int)
    requires IsFirstMaxAbs(col, p)
    ensures SignOf(col) == if col[p] < 0.0 then -1.0 else 1.0
  {
    assert col[..|col|] == col;
    FirstMaxAbsUnique(col, p, FirstMaxAbsIndex(col, |col|));
  }

  /** A column with no nonzero entry (in particular an empty one) keeps
      its sign: +1. */
  lemma ZeroColumnSign(col: seq<real>)
    requires forall i :: 0 <= i < |col| ==> col[i] == 0.0
    ensures SignOf(col) == 1.0
  {
  }

  /** Negating a column that is not all zero flips its sign: both columns
      share their first position of largest magnitude. */
  lemma SignOfNegated(col: seq<real>, k: nat)
    requires k < |col| && col[k] != 0.0
    ensures SignOf(Negate(col)) == -SignOf(col)
  {
    var neg := Negate(col);
    var p := FirstMaxAbsIndex(col, |col|);
    assert col[..|col|] == col;
    assert Abs(col[k]) <= Abs(col[p]);
    forall i | 0 <= i < |col| ensures Abs(neg[i]) == Abs(col[i]) {
    }
    assert IsFirstMaxAbs(neg, p);
    SignOfFirstMax(col, p);
    SignOfFirstMax(neg, p);
  }

  /** A column multiplied by its own sign. */
  function Orient(col: seq<real>): (r: seq<real>)
    ensures |r| == |col|
  {
    seq(|col|, i requires 0 <= i < |col| => col[i] * SignOf(col))
  }

  /** Signing is idempotent: a column multiplied by its sign has sign +1,
      so its first entry of largest magnitude is not negative. */
  lemma OrientedColumnSign(col: seq<real>)
    ensures SignOf(Orient(col)) == 1.0
  {
    var s := SignOf(col);
    if s == 1.0 {
      forall i | 0 <= i < |col| ensures Orient(col)[i] == col[i] {
        TimesOne(col[i], s);
      }
      assert Orient(col) == col;
    } else {
      forall i | 0 <= i < |col| ensures Orient(col)[i] == Negate(col)[i] {
        TimesMinusOne(col[i], s);
      }
      assert Orient(col) == Negate(col);
      var p := FirstMaxAbsIndex(col, |col|);
      assert col[..|col|] == col;
      SignOfNegated(col, p);
    }
  }

  /** The scale of each kept component: the singular value itself for the
      linear kernel, its square root for the other kernels. */
  function Scales(kernel: Kernel, sv: seq<real>, dim: nat, t: Transcendentals): (scale: seq<real>)
    requires dim <= |sv|
    ensures |scale| == dim
    ensures forall j :: 0 <= j < dim ==>
              scale[j] == if kernel.Linear? then sv[j] else t.sqrt(sv[j])
  {
    seq(dim, j requires 0 <= j < dim => if kernel.Linear? then sv[j] else t.sqrt(sv[j]))
  }

  /** The first `|scale|` columns of `u` times the diagonal matrix of `scale`. */
  function Embed(u: seq<seq<real>>, scale: seq<real>): (e: seq<seq<real>>)
    requires forall i :: 0 <= i < |u| ==> |scale| <= |u[i]|
    ensures |e| == |u|
    ensures forall i :: 0 <= i < |u| ==> |e[i]| == |scale|
    ensures forall i, j {:trigger e[i][j]} :: 0 <= i < |u| && 0 <= j < |scale| ==> e[i][j] == u[i][j] * scale[j]
  {
    seq(|u|, i requires 0 <= i < |u| =>
      seq(|scale|, j requires 0 <= j < |scale| => u[i][j] * scale[j]))
  }

  /** Entry `j` of every row multiplied by `signs[j]`. */
  function ApplySigns(e: seq<seq<real>>, signs: seq<real>): (r: seq<seq<real>>)
    requires forall i :: 0 <= i < |e| ==> |e[i]| <= |signs|
    ensures |r| == |e|
    ensures forall i :: 0 <= i < |e| ==> |r[i]| == |e[i]|
  {
    seq(|e|, i requires 0 <= i < |e| =>
      seq(|e[i]|, j requires 0 <= j < |e[i]| => e[i][j] * signs[j]))
  }

  lemma ApplySignsAt(e: seq<seq<real>>, signs: seq<real>, i: nat, j: nat)
    requires forall i :: 0 <= i < |e| ==> |e[i]| <= |signs|
    requires i < |e| && j < |e[i]|
    ensures ApplySigns(e, signs)[i][j] == e[i][j] * signs[j]
  {
  }

  /** A vector of signs, each +1 or -1. */
  predicate AreSigns(signs: seq<real>)
  {
    forall j :: 0 <= j < |signs| ==> signs[j] == 1.0 || signs[j] == -1.0
  }

  /** The signs `determine_signs` yields for the first `dim` columns. */
  function SignsOf(u: seq<seq<real>>, dim: nat): (signs: seq<real>)
    requires forall i :: 0 <= i < |u| ==> dim <= |u[i]|
    ensures |signs| == dim && AreSigns(signs)
  {
    seq(dim, c requires 0 <= c < dim => SignOf(Column(u, c)))
  }

  /** The embedding `apply` returns once the SVD has produced the singular
      values `sv` and the left singular vectors `u`. */
  function Embedding(config: KernelPca, sv: seq<real>, u: seq<seq<real>>, t: Transcendentals): (e: seq<seq<real>>)
    requires config.embedDim <= |sv|
    requires forall i :: 0 <= i < |u| ==> config.embedDim <= |u[i]|
    ensures |e| == |u|
    ensures forall i :: 0 <= i < |u| ==> |e[i]| == config.embedDim
  {
    ApplySigns(Embed(u, Scales(config.kernel, sv, config.embedDim, t)), SignsOf(u, config.embedDim))
  }

  /** The tail of `apply`, from the singular values and the optional left
      singular vectors to the result: a missing `u` is a computation
      failure; otherwise each row is scaled and then signed column by
      column. */
  method AssembleEmbedding(config: KernelPca, sv: seq<real>, u: Option<seq<seq<real>>>, t: Transcendentals)
    returns (r: Result<seq<seq<real>>>)
    requires config.embedDim <= |sv|
    requires u.Some? ==> forall i :: 0 <= i < |u.value| ==> config.embedDim <= |u.value[i]|
    ensures u.None? <==> r == Err(ComputationFailure)
    ensures u.Some? ==> r == Ok(Embedding(config, sv, u.value, t))
  {
    if u.None? {
      return Err(ComputationFailure);
    }
    var m := u.value;
    var signs := DetermineSigns(m, config.embedDim);
    assert signs == SignsOf(m, config.embedDim);
    var embeddings := Embed(m, Scales(config.kernel, sv, config.embedDim, t));
    var rows := seq(|embeddings|, i requires 0 <= i < |embeddings| =>
      seq(|embeddings[i]|, j requires 0 <= j < |embeddings[i]| => embeddings[i][j] * signs[j]));
    return Ok(rows);
  }

  /** Signing leaves every magnitude alone and negates exactly the
      entries of the columns whose sign is -1. */
  lemma ApplySignsEntries(e: seq<seq<real>>, signs: seq<real>)
    requires AreSigns(signs)
    requires forall i :: 0 <= i < |e| ==> |e[i]| <= |signs|
    ensures forall i, j :: 0 <= i < |e| && 0 <= j < |e[i]| ==>
              ApplySigns(e, signs)[i][j] == if signs[j] == 1.0 then e[i][j] else -e[i][j]
  {
    var r := ApplySigns(e, signs);
    forall i, j | 0 <= i < |e| && 0 <= j < |e[i]|
      ensures r[i][j] == if signs[j] == 1.0 then e[i][j] else -e[i][j]
    {
      if signs[j] == 1.0 {
        TimesOne(e[i][j], signs[j]);
      } else {
        TimesMinusOne(e[i][j], signs[j]);
      }
    }
  }

  /** Applying the same signs twice gives the embedding back. */
  lemma ApplySignsInvolution(e: seq<seq<real>>, signs: seq<real>)
    requires AreSigns(signs)
    requires forall i :: 0 <= i < |e| ==> |e[i]| <= |signs|
    ensures ApplySigns(ApplySigns(e, signs), signs) == e
  {
    var r := ApplySigns(e, signs);
    var rr := ApplySigns(r, signs);
    forall i | 0 <= i < |e| ensures rr[i] == e[i] {
      forall j | 0 <= j < |e[i]| ensures rr[i][j] == e[i][j] {
        assert r[i][j] == e[i][j] * signs[j];
        SignSquared(e[i][j], signs[j], r[i][j]);
      }
    }
  }

  /** Column `c` of `u` negated, every other entry kept. */
  function NegateColumn(u: seq<seq<real>>, c: nat): (v: seq<seq<real>>)
    ensures |v| == |u|
    ensures forall i :: 0 <= i < |u| ==> |v[i]| == |u[i]|
  {
    seq(|u|, i requires 0 <= i < |u| =>
      seq(|u[i]|, j requires 0 <= j < |u[i]| => if j == c then -u[i][j] else u[i][j]))
  }

  /** Negating column `c` negates its sign when the column has a nonzero
      entry and changes nothing at all otherwise; every other column `j`
      and its sign are untouched. */
  lemma NegateColumnSigns(u: seq<seq<real>>, c: nat, dim: nat, j: nat)
    requires forall i :: 0 <= i < |u| ==> dim <= |u[i]|
    requires c < dim && j < dim
    ensures forall i :: 0 <= i < |u| ==>
              SameOrBothNegated(u[i][j], NegateColumn(u, c)[i][j],
                                SignsOf(u, dim)[j], SignsOf(NegateColumn(u, c), dim)[j])
  {
    var v := NegateColumn(u, c);
    if j != c {
      assert Column(v, j) == Column(u, j);
    } else if k :| 0 <= k < |u| && u[k][c] != 0.0 {
      assert Column(v, c) == Negate(Column(u, c));
      SignOfNegated(Column(u, c), k);
    } else {
      assert Column(v, c) == Column(u, c);
    }
  }

  /** Either an entry and its sign both stay, or both are negated. */
  predicate SameOrBothNegated(x: real, x': real, s: real, s': real)
  {
    (x' == x && s' == s) || (x' == -x && s' == -s)
  }

  /** The reason for the signs: the SVD determines each singular vector
      only up to its sign, and whichever sign it returns for any column `c`
      of `u`, `apply` produces the same embedding. */
  lemma EmbeddingIgnoresColumnSign(config: KernelPca, sv: seq<real>, u: seq<seq<real>>, c: nat, t: Transcendentals)
    requires config.embedDim <= |sv|
    requires forall i :: 0 <= i < |u| ==> config.embedDim <= |u[i]|
    ensures Embedding(config, sv, NegateColumn(u, c), t) == Embedding(config, sv, u, t)
  {
    var dim := config.embedDim;
    var v := NegateColumn(u, c);
    if c < dim {
      var a := Embedding(config, sv, v, t);
      var b := Embedding(config, sv, u, t);
      forall i | 0 <= i < |u| ensures a[i] == b[i] {
        forall j | 0 <= j < dim ensures a[i][j] == b[i][j] {
          EmbeddingEntryIgnoresColumnSign(config, sv, u, c, t, i, j);
        }
      }
    } else {
      // A column beyond the kept ones is neither scaled nor signed.
      forall j | 0 <= j < dim ensures Column(v, j) == Column(u, j) {
      }
      assert SignsOf(v, dim) == SignsOf(u, dim);
      var scale := Scales(config.kernel, sv, dim, t);
      var ev := Embed(v, scale);
      var eu := Embed(u, scale);
      forall i | 0 <= i < |u| ensures ev[i] == eu[i] {
        forall j | 0 <= j < dim ensures ev[i][j] == eu[i][j] {
          assert v[i][j] == u[i][j];
        }
      }
      assert ev == eu;
    }
  }

  /** One entry of `EmbeddingIgnoresColumnSign`. */
  lemma EmbeddingEntryIgnoresColumnSign(config: KernelPca, sv: seq<real>, u: seq<seq<real>>, c: nat, t: Transcendentals, i: nat, j: nat)
    requires config.embedDim <= |sv|
    requires forall i :: 0 <= i < |u| ==> config.embedDim <= |u[i]|
    requires c < config.embedDim && i < |u| && j < config.embedDim
    ensures Embedding(config, sv, NegateColumn(u, c), t)[i][j] == Embedding(config, sv, u, t)[i][j]
  {
    var dim := config.embedDim;
    var v := NegateColumn(u, c);
    NegateColumnSigns(u, c, dim, j);
    SignedEntryAgrees(u, v, Scales(config.kernel, sv, dim, t), SignsOf(u, dim), SignsOf(v, dim), i, j);
  }

  /** An entry of `u` and its column's sign either both stay or are both
      negated; either way the signed, scaled entry is the same. */
  lemma SignedEntryAgrees(u: seq<seq<real>>, v: seq<seq<real>>, scale: seq<real>, s: seq<real>, s': seq<real>, i: nat, j: nat)
    requires |v| == |u| && |s| == |scale| && |s'| == |scale|
    requires forall i :: 0 <= i < |u| ==> |scale| <= |u[i]| && |scale| <= |v[i]|
    requires i < |u| && j < |scale|
    requires SameOrBothNegated(u[i][j], v[i][j], s[j], s'[j])
    ensures ApplySigns(Embed(v, scale), s')[i][j] == ApplySigns(Embed(u, scale), s)[i][j]
  {
    var e := Embed(u, scale);
    var ev := Embed(v, scale);
    ApplySignsAt(e, s, i, j);
    ApplySignsAt(ev, s', i, j);
    SignedEntry(u[i][j], v[i][j], scale[j], e[i][j], ev[i][j], s[j], s'[j],
                ApplySigns(e, s)[i][j], ApplySigns(ev, s')[i][j]);
  }

  /* Steps of real arithmetic the solver does not take unaided. */

  lemma TimesOne(x: real, s: real)
    requires s == 1.0
    ensures x * s == x
  {
  }

  lemma TimesMinusOne(x: real, s: real)
    requires s == -1.0
    ensures x * s == -x
  {
  }

  lemma SignSquared(x: real, s: real, y: real)
    requires s == 1.0 || s == -1.0
    requires y == x * s
    ensures y * s == x
  {
  }

  lemma SignedEntry(x: real, x': real, scale: real, y: real, y': real, s: real, s': real, r: real, r': real)
    requires SameOrBothNegated(x, x', s, s')
    requires y == x * scale && y' == x' * scale
    requires r == y * s && r' == y' * s'
    ensures r' == r
  {
    if x' != x || s' != s {
      NegatedFactor(x, scale, x');
      NegNeg(y, s, y', s');
    }
  }

  lemma NegatedFactor(x: real, y: real, x': real)
    requires x' == -x
    ensures x' * y == -(x * y)
  {
  }

  lemma NegNeg(x: real, y: real, x': real, y': real)
    requires x' == -x && y' == -y
    ensures x' * y' == x * y
  {
  }
}
