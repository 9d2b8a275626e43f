/** Quadrature-data builder for the H(div) mass operator of a two-dimensional element
    embedded in three-dimensional space (`f_build_hdivmass_32`).

    Each point reads a packed input block from `in[0]`, laid out in rows of length
    `Q`:
      - the attribute, stored as a real;
      - `wdetJ`;
      - the six entries of the 3x2 adjugate Jacobian `adjJt`.
    It also reads its quadrature weight from `in[1]`.  It then writes:
      - a primary block `wdetJ * AᵀBA`, where A is the adjugate Jacobian and B is
        the material coefficient of the point's attribute, taken from the first
        table of the context;
      - a secondary scalar `coeff2 * qw² / wdetJ`, where `coeff2` comes from the
        second table.
    Both are written into the same output buffer.

    The primary block has four components, but the secondary row starts at
    `out[0] + 3Q`.  So the fourth primary component and the secondary value land in
    the same slot.  In program order the secondary value is stored last
    (`BuildAsWritten`); `qd1` and `qd2` are both `__restrict__`, so this pair of
    stores is undefined behaviour in C.  `Build` models the layout with the secondary row after
    all four primary rows (`out[0] + 4Q`), where the two regions are disjoint.

    `MultAtBA32` and the coefficient unpackers are parameters: `atba` gives
    component `k` of the congruence product, and the context carries the two
    attribute-indexed tables. */
module HdivMass32 {
  import opened StridedLayout

  /** `(CeedInt)x`: converting a real to an integer truncates toward zero. */
  function TruncToInt(x: real): (n: int)
    ensures 0.0 <= x ==> n as real <= x < n as real + 1.0
    ensures x < 0.0 ==> n as real - 1.0 < x <= n as real
  {
    if x >= 0.0 then x.Floor else -((-x).Floor)
  }

  /** An attribute stored exactly as a whole number comes back unchanged. */
  lemma TruncOfWhole(n: int)
    ensures TruncToInt(n as real) == n
  {
  }

  /** The two coefficient tables of the context.  `first` is what `CoeffUnpack3`
      reads: the 3x3 coefficient of an attribute.  `second` is what `CoeffUnpack1`
      reads through `CoeffPairSecond<3>`: the scalar of the second term. */
  datatype MassContext = MassContext(first: int -> seq<real>, second: int -> real)

  /** Component `k` of `MultAtBA32(A, B)`, given the six entries of A and the
      coefficient B. */
  type Congruence = (seq<real>, seq<real>, nat) -> real

  /** Everything one quadrature point reads. */
  datatype MassPoint = MassPoint(attr: int, wdetJ: real, adjJt: seq<real>, qw: real)

  /** Rows of `in[0]`: the attribute, `wdetJ` and the six `adjJt` rows. */
  const InputRows: nat := 8

  /** Components of the primary block: `qd_loc` has four entries. */
  const PrimaryComps: nat := 4

  predicate InputsSized(in0: seq<real>, qw: seq<real>, q: nat)
  {
    Span(q, InputRows) <= |in0| && q <= |qw|
  }

  /** `wdetJ` is non-zero at every point, as the division by it requires. */
  predicate NonDegenerate(in0: seq<real>, q: nat)
  {
    forall i :: 0 <= i < q && Slot(q, i, 1) < |in0| ==> in0[Slot(q, i, 1)] != 0.0
  }

  lemma {:induction false} SpanSplit(q: nat, a: nat, m: nat)
    ensures Span(q, a + m) == Span(q, a) + Span(q, m)
    decreases m
  {
    if m > 0 {
      SpanSplit(q, a, m - 1);
    }
  }

  /** The slot of row `k` of point `i` for the rows the builder addresses by hand:
      `qd2 = out[0] + 3Q` as written, `out[0] + 4Q` with the secondary row moved. */
  lemma RowSlots(q: nat, i: nat)
    ensures Slot(q, i, 3) == 3 * q + i && Slot(q, i, 4) == 4 * q + i
  {
    SpanIsProduct(q, 3);
    SpanIsProduct(q, 4);
  }

  /** Reads point `i`.  The attribute is `attr[i] = in[0][i]`, truncated.  `wdetJ` is
      `in[0][Q + i]`.  The adjugate Jacobian starts at `in[0] + 2Q`: its entry `m` is
      `in[0][2Q + i + Q*m]`.  The weight is `in[1][i]`. */
  function ReadPoint(in0: seq<real>, qw: seq<real>, q: nat, i: nat): (p: MassPoint)
    requires i < q && InputsSized(in0, qw, q)
    ensures q + i < |in0|
    ensures p.attr == TruncToInt(in0[i])
    ensures p.wdetJ == in0[q + i]
    ensures |p.adjJt| == 6
    ensures forall m :: 0 <= m < 6 ==> 2 * q + Slot(q, i, m) < |in0| && p.adjJt[m] == in0[2 * q + Slot(q, i, m)]
    ensures p.qw == qw[i]
  {
    var g := Gather(in0, q, i, InputRows);
    assert Span(q, 2) == 2 * q by {
      SpanIsProduct(q, 2);
    }
    assert Slot(q, i, 1) == q + i;
    assert forall m :: 0 <= m < 6 ==> Slot(q, i, m + 2) == 2 * q + Slot(q, i, m) by {
      forall m | 0 <= m < 6 ensures Slot(q, i, m + 2) == 2 * q + Slot(q, i, m) {
        SpanSplit(q, 2, m);
      }
    }
    forall m | 0 <= m < 6 ensures 2 * q + Slot(q, i, m) < |in0| && g[2..][m] == in0[2 * q + Slot(q, i, m)] {
      assert g[2..][m] == g[m + 2];
      assert Slot(q, i, m + 2) < |in0| && g[m + 2] == in0[Slot(q, i, m + 2)];
    }
    assert g[0] == in0[Slot(q, i, 0)] && g[1] == in0[Slot(q, i, 1)];
    MassPoint(TruncToInt(g[0]), g[1], g[2..], qw[i])
  }

  /** The primary block of a point: `wdetJ * qd_loc[k]`, where `qd_loc` is
      `MultAtBA32` applied to the point's adjugate Jacobian and to the first-table
      coefficient of its attribute. */
  function Primary(ctx: MassContext, atba: Congruence, p: MassPoint): (b: seq<real>)
    ensures |b| == PrimaryComps
    ensures forall k :: 0 <= k < PrimaryComps ==>
              (b[k] == 0.0 <==> p.wdetJ == 0.0 || atba(p.adjJt, ctx.first(p.attr), k) == 0.0)
    ensures p.wdetJ != 0.0 ==> forall k :: 0 <= k < PrimaryComps ==> b[k] / p.wdetJ == atba(p.adjJt, ctx.first(p.attr), k)
  {
    seq(PrimaryComps, k requires 0 <= k < PrimaryComps => p.wdetJ * atba(p.adjJt, ctx.first(p.attr), k))
  }

  /** The secondary value of a point: the second-table coefficient times `qw*qw/wdetJ`. */
  function Secondary(ctx: MassContext, p: MassPoint): (v: real)
    requires p.wdetJ != 0.0
    ensures v * p.wdetJ == ctx.second(p.attr) * p.qw * p.qw
  {
    ctx.second(p.attr) * p.qw * p.qw / p.wdetJ
  }

  /** What point `i` leaves in its four slots as the code is written: three primary
      components, then the secondary value in the slot of the fourth. */
  function AsWrittenBlocks(ctx: MassContext, atba: Congruence, in0: seq<real>, qw: seq<real>, q: nat): (bs: seq<seq<real>>)
    requires InputsSized(in0, qw, q) && NonDegenerate(in0, q)
    ensures |bs| == q && Uniform(bs, PrimaryComps)
  {
    seq(q, i requires 0 <= i < q =>
      var p := ReadPoint(in0, qw, q, i);
      Primary(ctx, atba, p)[..3] + [Secondary(ctx, p)])
  }

  /** What point `i` leaves in its five slots with the secondary row after the
      primary rows: the whole primary block, then the secondary value. */
  function Blocks(ctx: MassContext, atba: Congruence, in0: seq<real>, qw: seq<real>, q: nat): (bs: seq<seq<real>>)
    requires InputsSized(in0, qw, q) && NonDegenerate(in0, q)
    ensures |bs| == q && Uniform(bs, PrimaryComps + 1)
  {
    seq(q, i requires 0 <= i < q =>
      var p := ReadPoint(in0, qw, q, i);
      Primary(ctx, atba, p) + [Secondary(ctx, p)])
  }

  /** Reference result of the code as written. */
  function OutputAsWritten(ctx: MassContext, atba: Congruence, in0: seq<real>, qw: seq<real>, q: nat, qd0: seq<real>): (r: seq<real>)
    requires InputsSized(in0, qw, q) && NonDegenerate(in0, q) && Span(q, PrimaryComps) <= |qd0|
    ensures |r| == |qd0|
  {
    Scattered(qd0, AsWrittenBlocks(ctx, atba, in0, qw, q), PrimaryComps)
  }

  /** Reference result with the secondary row at `out[0] + 4Q`. */
  function Output(ctx: MassContext, atba: Congruence, in0: seq<real>, qw: seq<real>, q: nat, qd0: seq<real>): (r: seq<real>)
    requires InputsSized(in0, qw, q) && NonDegenerate(in0, q) && Span(q, PrimaryComps + 1) <= |qd0|
    ensures |r| == |qd0|
  {
    Scattered(qd0, Blocks(ctx, atba, in0, qw, q), PrimaryComps + 1)
  }

  /** One step of the loop as written: the primary block goes to the point's four
      slots, then the secondary value overwrites the fourth. */
  lemma OverwriteStep(r: seq<real>, buf: seq<real>, blocks: seq<seq<real>>, q: nat, i: nat, primary: seq<real>, x: real)
    requires |blocks| == q && i < q && Uniform(blocks, PrimaryComps) && Span(q, PrimaryComps) <= |buf|
    requires ScatteredUpTo(r, buf, blocks, PrimaryComps, i)
    requires |primary| == PrimaryComps && blocks[i] == primary[..3] + [x]
    ensures 3 * q + i < |r|
    ensures ScatteredUpTo(WritePoint(r, q, i, primary)[3 * q + i := x], buf, blocks, PrimaryComps, i + 1)
  {
    ScatterStep(r, buf, blocks, PrimaryComps, i);
    WriteOverwriteLast(r, q, i, primary, x);
    RowSlots(q, i);
  }

  /** One step of the loop with the secondary row at `4Q`: the primary block goes to
      the point's first four slots, the secondary value to the fifth. */
  lemma AppendStep(r: seq<real>, buf: seq<real>, blocks: seq<seq<real>>, q: nat, i: nat, primary: seq<real>, x: real)
    requires |blocks| == q && i < q && Uniform(blocks, PrimaryComps + 1) && Span(q, PrimaryComps + 1) <= |buf|
    requires ScatteredUpTo(r, buf, blocks, PrimaryComps + 1, i)
    requires |primary| == PrimaryComps && blocks[i] == primary + [x]
    ensures Span(q, PrimaryComps) <= |r| && 4 * q + i < |r|
    ensures ScatteredUpTo(WritePoint(r, q, i, primary)[4 * q + i := x], buf, blocks, PrimaryComps + 1, i + 1)
  {
    ScatterStep(r, buf, blocks, PrimaryComps + 1, i);
    WriteAppend(r, q, i, primary, x);
    RowSlots(q, i);
  }

  /** `f_build_hdivmass_32` as written: `qd1 = out[0]`, `qd2 = out[0] + 3Q`. */
  method BuildAsWritten(ctx: MassContext, atba: Congruence, q: nat, in0: seq<real>, qw: seq<real>, qd0: seq<real>)
    returns (status: int, qd: seq<real>)
    requires InputsSized(in0, qw, q) && NonDegenerate(in0, q) && Span(q, PrimaryComps) <= |qd0|
    ensures status == 0
    ensures qd == OutputAsWritten(ctx, atba, in0, qw, q, qd0)
  {
    ghost var blocks := AsWrittenBlocks(ctx, atba, in0, qw, q);
    qd := qd0;
    var i := 0;
    while i < q
      invariant 0 <= i <= q
      invariant ScatteredUpTo(qd, qd0, blocks, PrimaryComps, i)
    {
      var p := ReadPoint(in0, qw, q, i);
      var primary := Primary(ctx, atba, p);
      var secondary := Secondary(ctx, p);
      OverwriteStep(qd, qd0, blocks, q, i, primary, secondary);
      qd := WritePoint(qd, q, i, primary);
      qd := qd[3 * q + i := secondary];
      i := i + 1;
    }
    ScatterFinish(qd, qd0, blocks, PrimaryComps);
    status := 0;
  }

  /** The builder with the secondary row at `out[0] + 4Q`. */
  method Build(ctx: MassContext, atba: Congruence, q: nat, in0: seq<real>, qw: seq<real>, qd0: seq<real>)
    returns (status: int, qd: seq<real>)
    requires InputsSized(in0, qw, q) && NonDegenerate(in0, q) && Span(q, PrimaryComps + 1) <= |qd0|
    ensures status == 0
    ensures qd == Output(ctx, atba, in0, qw, q, qd0)
  {
    ghost var blocks := Blocks(ctx, atba, in0, qw, q);
    qd := qd0;
    var i := 0;
    while i < q
      invariant 0 <= i <= q
      invariant ScatteredUpTo(qd, qd0, blocks, PrimaryComps + 1, i)
    {
      var p := ReadPoint(in0, qw, q, i);
      var primary := Primary(ctx, atba, p);
      var secondary := Secondary(ctx, p);
      AppendStep(qd, qd0, blocks, q, i, primary, secondary);
      qd := WritePoint(qd, q, i, primary);
      qd := qd[4 * q + i := secondary];
      i := i + 1;
    }
    ScatterFinish(qd, qd0, blocks, PrimaryComps + 1);
    status := 0;
  }

  /** Slot contents of the code as written.  Point `i` holds its first three primary
      components at `i + Q*k`.  Slot `i + 3Q`, where the fourth component belongs (and
      `qd2[i]` points), holds the secondary value.  Nothing past the first `4Q`
      entries changes. */
  lemma AsWrittenSlots(ctx: MassContext, atba: Congruence, in0: seq<real>, qw: seq<real>, q: nat, qd0: seq<real>)
    requires InputsSized(in0, qw, q) && NonDegenerate(in0, q) && Span(q, PrimaryComps) <= |qd0|
    ensures forall i, k :: 0 <= i < q && 0 <= k < 3 ==>
              Slot(q, i, k) < |qd0|
              && OutputAsWritten(ctx, atba, in0, qw, q, qd0)[Slot(q, i, k)] == Primary(ctx, atba, ReadPoint(in0, qw, q, i))[k]
    ensures forall i :: 0 <= i < q ==>
              Slot(q, i, 3) < |qd0|
              && OutputAsWritten(ctx, atba, in0, qw, q, qd0)[Slot(q, i, 3)] == Secondary(ctx, ReadPoint(in0, qw, q, i))
    ensures forall j :: Span(q, PrimaryComps) <= j < |qd0| ==> OutputAsWritten(ctx, atba, in0, qw, q, qd0)[j] == qd0[j]
  {
    var r := OutputAsWritten(ctx, atba, in0, qw, q, qd0);
    var blocks := AsWrittenBlocks(ctx, atba, in0, qw, q);
    assert r == Scattered(qd0, blocks, PrimaryComps);
    forall i, k | 0 <= i < q && 0 <= k < PrimaryComps
      ensures Slot(q, i, k) < |qd0| && r[Slot(q, i, k)] == blocks[i][k]
    {
    }
    forall i, k | 0 <= i < q && 0 <= k < 3
      ensures blocks[i][k] == Primary(ctx, atba, ReadPoint(in0, qw, q, i))[k]
    {
    }
    forall i | 0 <= i < q
      ensures blocks[i][3] == Secondary(ctx, ReadPoint(in0, qw, q, i))
    {
    }
  }

  /** The overlap loses primary data: wherever a point's secondary value differs from
      the fourth component of its primary block, the code leaves the secondary value
      in the slot where `wdetJ * qd_loc[3]` belongs. */
  lemma PrimaryComponentLost(ctx: MassContext, atba: Congruence, in0: seq<real>, qw: seq<real>, q: nat, qd0: seq<real>, i: nat)
    requires InputsSized(in0, qw, q) && NonDegenerate(in0, q) && Span(q, PrimaryComps) <= |qd0| && i < q
    requires Secondary(ctx, ReadPoint(in0, qw, q, i)) != Primary(ctx, atba, ReadPoint(in0, qw, q, i))[3]
    ensures Slot(q, i, 3) < |qd0|
    ensures OutputAsWritten(ctx, atba, in0, qw, q, qd0)[Slot(q, i, 3)] != Primary(ctx, atba, ReadPoint(in0, qw, q, i))[3]
  {
    AsWrittenSlots(ctx, atba, in0, qw, q, qd0);
  }

  /** A concrete input on which the overlap shows.  One point, `wdetJ = 1`, a
      congruence product whose components are all 1, and a zero second-table
      coefficient: the fourth primary component should be 1, but the slot holds 0. */
  lemma OverlapWitness()
    ensures var ctx := MassContext(a => [], a => 0.0);
            var atba: Congruence := (adj, b, k) => 1.0;
            var in0 := [1.0, 1.0, 0.0, 0.0, 0.0, 0.0, 0.0, 0.0];
            InputsSized(in0, [1.0], 1) && NonDegenerate(in0, 1)
            && Primary(ctx, atba, ReadPoint(in0, [1.0], 1, 0))[3] == 1.0
            && OutputAsWritten(ctx, atba, in0, [1.0], 1, [0.0, 0.0, 0.0, 0.0])[3] == 0.0
  {
    var ctx := MassContext(a => [], a => 0.0);
    var atba: Congruence := (adj, b, k) => 1.0;
    var in0 := [1.0, 1.0, 0.0, 0.0, 0.0, 0.0, 0.0, 0.0];
    SpanIsProduct(1, 8);
    SpanIsProduct(1, 4);
    RowSlots(1, 0);
    assert Slot(1, 0, 1) == 1;
    forall i | 0 <= i < 1 && Slot(1, i, 1) < |in0|
      ensures in0[Slot(1, i, 1)] != 0.0
    {
      assert i == 0;
    }
    var p := ReadPoint(in0, [1.0], 1, 0);
    assert p.wdetJ == 1.0;
    assert Primary(ctx, atba, p)[3] == 1.0;
    assert Secondary(ctx, p) == 0.0;
    AsWrittenSlots(ctx, atba, in0, [1.0], 1, [0.0, 0.0, 0.0, 0.0]);
  }

  /** Slot contents with the secondary row at `4Q`.  Point `i` holds all four primary
      components at `i + Q*k` and its secondary value at `i + 4Q`.  Nothing past the
      first `5Q` entries changes. */
  lemma OutputSlots(ctx: MassContext, atba: Congruence, in0: seq<real>, qw: seq<real>, q: nat, qd0: seq<real>)
    requires InputsSized(in0, qw, q) && NonDegenerate(in0, q) && Span(q, PrimaryComps + 1) <= |qd0|
    ensures forall i, k :: 0 <= i < q && 0 <= k < PrimaryComps ==>
              Slot(q, i, k) < |qd0|
              && Output(ctx, atba, in0, qw, q, qd0)[Slot(q, i, k)] == Primary(ctx, atba, ReadPoint(in0, qw, q, i))[k]
    ensures forall i :: 0 <= i < q ==>
              Slot(q, i, 4) < |qd0|
              && Output(ctx, atba, in0, qw, q, qd0)[Slot(q, i, 4)] == Secondary(ctx, ReadPoint(in0, qw, q, i))
    ensures forall j :: Span(q, PrimaryComps + 1) <= j < |qd0| ==> Output(ctx, atba, in0, qw, q, qd0)[j] == qd0[j]
  {
    var r := Output(ctx, atba, in0, qw, q, qd0);
    var blocks := Blocks(ctx, atba, in0, qw, q);
    assert r == Scattered(qd0, blocks, PrimaryComps + 1);
    forall i, k | 0 <= i < q && 0 <= k < PrimaryComps + 1
      ensures Slot(q, i, k) < |qd0| && r[Slot(q, i, k)] == blocks[i][k]
    {
    }
  }

  /** With the secondary row at `4Q` the two output regions are disjoint.  Every
      primary slot lies below `4Q`, and every secondary slot lies in `[4Q, 5Q)`. */
  lemma RegionsDisjoint(q: nat, i: nat, k: nat, i2: nat)
    requires i < q && k < PrimaryComps && i2 < q
    ensures Slot(q, i, k) < 4 * q <= 4 * q + i2 < 5 * q
    ensures Slot(q, i, k) != 4 * q + i2
  {
    SlotBound(q, i, k, PrimaryComps);
    SpanIsProduct(q, PrimaryComps);
  }

  /** The context with every second-table entry doubled. */
  function DoubleSecond(ctx: MassContext): MassContext
  {
    ctx.(second := a => 2.0 * ctx.second(a))
  }

  /** The secondary value is linear in the second-table coefficient.  In the layout
      with the secondary row at `4Q`, doubling the second table doubles every
      secondary slot and leaves every primary slot, and
      everything past the two regions, as it was. */
  lemma SecondaryLinear(ctx: MassContext, atba: Congruence, in0: seq<real>, qw: seq<real>, q: nat, qd0: seq<real>)
    requires InputsSized(in0, qw, q) && NonDegenerate(in0, q) && Span(q, PrimaryComps + 1) <= |qd0|
    ensures forall i :: 0 <= i < q ==>
              Slot(q, i, 4) < |qd0|
              && Output(DoubleSecond(ctx), atba, in0, qw, q, qd0)[Slot(q, i, 4)] == 2.0 * Output(ctx, atba, in0, qw, q, qd0)[Slot(q, i, 4)]
    ensures forall i, k :: 0 <= i < q && 0 <= k < PrimaryComps ==>
              Slot(q, i, k) < |qd0|
              && Output(DoubleSecond(ctx), atba, in0, qw, q, qd0)[Slot(q, i, k)] == Output(ctx, atba, in0, qw, q, qd0)[Slot(q, i, k)]
    ensures forall j :: Span(q, PrimaryComps + 1) <= j < |qd0| ==>
              Output(DoubleSecond(ctx), atba, in0, qw, q, qd0)[j] == Output(ctx, atba, in0, qw, q, qd0)[j]
  {
    var ctx2 := DoubleSecond(ctx);
    OutputSlots(ctx, atba, in0, qw, q, qd0);
    OutputSlots(ctx2, atba, in0, qw, q, qd0);
    forall i | 0 <= i < q
      ensures Secondary(ctx2, ReadPoint(in0, qw, q, i)) == 2.0 * Secondary(ctx, ReadPoint(in0, qw, q, i))
      ensures Primary(ctx2, atba, ReadPoint(in0, qw, q, i)) == Primary(ctx, atba, ReadPoint(in0, qw, q, i))
    {
      DoubleSecondPoint(ctx, atba, ReadPoint(in0, qw, q, i));
    }
  }

  /** Linearity for the code as written.  Doubling the second table doubles slot
      `i + 3Q`, which the secondary value overwrites, and leaves primary rows 0-2 and
      every offset from `4Q` on as they were. */
  lemma AsWrittenSecondaryLinear(ctx: MassContext, atba: Congruence, in0: seq<real>, qw: seq<real>, q: nat, qd0: seq<real>)
    requires InputsSized(in0, qw, q) && NonDegenerate(in0, q) && Span(q, PrimaryComps) <= |qd0|
    ensures forall i :: 0 <= i < q ==>
              Slot(q, i, 3) < |qd0|
              && OutputAsWritten(DoubleSecond(ctx), atba, in0, qw, q, qd0)[Slot(q, i, 3)] == 2.0 * OutputAsWritten(ctx, atba, in0, qw, q, qd0)[Slot(q, i, 3)]
    ensures forall i, k :: 0 <= i < q && 0 <= k < 3 ==>
              Slot(q, i, k) < |qd0|
              && OutputAsWritten(DoubleSecond(ctx), atba, in0, qw, q, qd0)[Slot(q, i, k)] == OutputAsWritten(ctx, atba, in0, qw, q, qd0)[Slot(q, i, k)]
    ensures forall j :: Span(q, PrimaryComps) <= j < |qd0| ==>
              OutputAsWritten(DoubleSecond(ctx), atba, in0, qw, q, qd0)[j] == OutputAsWritten(ctx, atba, in0, qw, q, qd0)[j]
  {
    var ctx2 := DoubleSecond(ctx);
    AsWrittenSlots(ctx, atba, in0, qw, q, qd0);
    AsWrittenSlots(ctx2, atba, in0, qw, q, qd0);
    forall i | 0 <= i < q
      ensures Secondary(ctx2, ReadPoint(in0, qw, q, i)) == 2.0 * Secondary(ctx, ReadPoint(in0, qw, q, i))
      ensures Primary(ctx2, atba, ReadPoint(in0, qw, q, i)) == Primary(ctx, atba, ReadPoint(in0, qw, q, i))
    {
      DoubleSecondPoint(ctx, atba, ReadPoint(in0, qw, q, i));
    }
  }

  lemma DoubleSecondPoint(ctx: MassContext, atba: Congruence, p: MassPoint)
    requires p.wdetJ != 0.0
    ensures Secondary(DoubleSecond(ctx), p) == 2.0 * Secondary(ctx, p)
    ensures Primary(DoubleSecond(ctx), atba, p) == Primary(ctx, atba, p)
  {
    var c := ctx.second(p.attr);
    assert DoubleSecond(ctx).second(p.attr) == 2.0 * c;
    assert (2.0 * c) * p.qw * p.qw / p.wdetJ == 2.0 * (c * p.qw * p.qw / p.wdetJ);
  }

  /** Point independence: if two inputs agree on point `i`'s eight input rows and
      weight, the builder writes the same values into point `i`'s five output slots. */
  lemma OutputIsPointLocal(ctx: MassContext, atba: Congruence, in0: seq<real>, qw: seq<real>,
                           in1: seq<real>, qw1: seq<real>, q: nat, qd0: seq<real>, i: nat)
    requires i < q
    requires InputsSized(in0, qw, q) && NonDegenerate(in0, q) && Span(q, PrimaryComps + 1) <= |qd0|
    requires InputsSized(in1, qw1, q) && NonDegenerate(in1, q)
    requires Gather(in0, q, i, InputRows) == Gather(in1, q, i, InputRows) && qw[i] == qw1[i]
    ensures forall k :: 0 <= k < PrimaryComps + 1 ==>
              Slot(q, i, k) < |qd0|
              && Output(ctx, atba, in0, qw, q, qd0)[Slot(q, i, k)] == Output(ctx, atba, in1, qw1, q, qd0)[Slot(q, i, k)]
  {
    var b0 := Blocks(ctx, atba, in0, qw, q);
    var b1 := Blocks(ctx, atba, in1, qw1, q);
    assert ReadPoint(in0, qw, q, i) == ReadPoint(in1, qw1, q, i);
    assert b0[i] == b1[i];
    forall k | 0 <= k < PrimaryComps + 1
      ensures Slot(q, i, k) < |qd0|
              && Output(ctx, atba, in0, qw, q, qd0)[Slot(q, i, k)] == Output(ctx, atba, in1, qw1, q, qd0)[Slot(q, i, k)]
    {
      assert Output(ctx, atba, in0, qw, q, qd0)[Slot(q, i, k)] == b0[i][k];
      assert Output(ctx, atba, in1, qw1, q, qd0)[Slot(q, i, k)] == b1[i][k];
    }
  }

  /** Point independence of the loop as written: if two inputs agree on point `i`'s
      eight input rows and weight, the builder writes the same values into point
      `i`'s four output slots. */
  lemma AsWrittenPointLocal(ctx: MassContext, atba: Congruence, in0: seq<real>, qw: seq<real>,
                            in1: seq<real>, qw1: seq<real>, q: nat, qd0: seq<real>, i: nat)
    requires i < q
    requires InputsSized(in0, qw, q) && NonDegenerate(in0, q) && Span(q, PrimaryComps) <= |qd0|
    requires InputsSized(in1, qw1, q) && NonDegenerate(in1, q)
    requires Gather(in0, q, i, InputRows) == Gather(in1, q, i, InputRows) && qw[i] == qw1[i]
    ensures forall k :: 0 <= k < PrimaryComps ==>
              Slot(q, i, k) < |qd0|
              && OutputAsWritten(ctx, atba, in0, qw, q, qd0)[Slot(q, i, k)]
                 == OutputAsWritten(ctx, atba, in1, qw1, q, qd0)[Slot(q, i, k)]
  {
    var b0 := AsWrittenBlocks(ctx, atba, in0, qw, q);
    var b1 := AsWrittenBlocks(ctx, atba, in1, qw1, q);
    assert ReadPoint(in0, qw, q, i) == ReadPoint(in1, qw1, q, i);
    assert b0[i] == b1[i];
    forall k | 0 <= k < PrimaryComps
      ensures Slot(q, i, k) < |qd0|
              && OutputAsWritten(ctx, atba, in0, qw, q, qd0)[Slot(q, i, k)]
                 == OutputAsWritten(ctx, atba, in1, qw1, q, qd0)[Slot(q, i, k)]
    {
      assert OutputAsWritten(ctx, atba, in0, qw, q, qd0)[Slot(q, i, k)] == b0[i][k];
      assert OutputAsWritten(ctx, atba, in1, qw1, q, qd0)[Slot(q, i, k)] == b1[i][k];
    }
  }

  /** Loop order is irrelevant for the loop as written: handling the points in any
      order that covers the batch gives the same output. */
  lemma AsWrittenOrderIrrelevant(ctx: MassContext, atba: Congruence, in0: seq<real>, qw: seq<real>, q: nat,
                                 qd0: seq<real>, order: seq<nat>)
    requires InputsSized(in0, qw, q) && NonDegenerate(in0, q) && Span(q, PrimaryComps) <= |qd0|
    requires forall t :: 0 <= t < |order| ==> order[t] < q
    requires forall i :: 0 <= i < q ==> i in order
    ensures ApplyInOrder(qd0, AsWrittenBlocks(ctx, atba, in0, qw, q), PrimaryComps, order)
            == OutputAsWritten(ctx, atba, in0, qw, q, qd0)
  {
    OrderIrrelevant(qd0, AsWrittenBlocks(ctx, atba, in0, qw, q), PrimaryComps, order);
  }

  /** Loop order is irrelevant: handling the points in any order that covers the batch
      gives the same output. */
  lemma MassOrderIrrelevant(ctx: MassContext, atba: Congruence, in0: seq<real>, qw: seq<real>, q: nat,
                            qd0: seq<real>, order: seq<nat>)
    requires InputsSized(in0, qw, q) && NonDegenerate(in0, q) && Span(q, PrimaryComps + 1) <= |qd0|
    requires forall t :: 0 <= t < |order| ==> order[t] < q
    requires forall i :: 0 <= i < q ==> i in order
    ensures ApplyInOrder(qd0, Blocks(ctx, atba, in0, qw, q), PrimaryComps + 1, order) == Output(ctx, atba, in0, qw, q, qd0)
  {
    OrderIrrelevant(qd0, Blocks(ctx, atba, in0, qw, q), PrimaryComps + 1, order);
  }
}
