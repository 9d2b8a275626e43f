/** Quadrature-data builders for the mixed H(curl)-H(div) and H(div)-H(curl) mass
    operators.

    There are eight builders: four coefficient kinds (a constant scalar from the
    context, or a scalar, vector or symmetric-matrix field at the quadrature points),
    each in two forms.  Every builder switches on the integer key
    `10*space_dim + dim`.  In the one-dimensional case it writes `qw[i]*c` inline.
    In the other supported cases it hands each point's strided slices of the
    Jacobian and the coefficient to a closed-form contraction kernel, and that kernel
    writes the point's block of quadrature data.

    The kernels (`MultJtCAdjJt21/22/32/33`) are given as a parameter `kernel`.  The
    model assumes they read only the slices they are handed and write only the
    point's own strided output slots.  Everything around them is modelled
    exactly: the dispatch, the strides, the component counts and the output
    layout. */
module MixedMass {
  import opened StridedLayout

  /** The (space dimension, reference dimension) pairs that have a contraction kernel. */
  datatype Shape = S21 | S22 | S32 | S33
  {
    function SpaceDim(): nat
    {
      match this
      case S21 => 2
      case S22 => 2
      case S32 => 3
      case S33 => 3
    }

    function RefDim(): nat
    {
      match this
      case S21 => 1
      case S22 => 2
      case S32 => 2
      case S33 => 3
    }

    /** The value of the dispatch key `10*space_dim + dim` that selects this kernel. */
    function Key(): int
    {
      10 * SpaceDim() + RefDim()
    }

    /** Jacobian entries per point: the array has shape [dim, space_dim, Q]. */
    function JacComps(): nat
    {
      RefDim() * SpaceDim()
    }

    /** Output entries per point written by the kernel: a dense dim x dim block. */
    function OutComps(): nat
    {
      RefDim() * RefDim()
    }
  }

  /** How the builder obtains its coefficient. */
  datatype CoeffKind = ConstScalar | QuadScalar | QuadVector | QuadMatrix
  {
    predicate IsScalar()
    {
      this == ConstScalar || this == QuadScalar
    }
  }

  /** H(curl)-H(div) builders call the kernels with the default template argument,
      H(div)-H(curl) builders with `true`. */
  datatype Form = HcurlHdiv | HdivHcurl

  /** The fields of the context the builders read: `space_dim`, `dim` and `coeff`. */
  datatype Context = Context(spaceDim: int, dim: int, coeff: real)

  /** What one kernel call receives for one point: the shape selected by the key,
      the boolean template argument, the point's Jacobian entries, its coefficient
      entries (their count is the component count passed to the kernel) and its
      quadrature weight. */
  datatype KernelArgs = KernelArgs(shape: Shape, flag: bool, jac: seq<real>, coeff: seq<real>, weight: real)

  /** A contraction kernel: component `k` of the block it writes for the given arguments. */
  type Kernel = (KernelArgs, nat) -> real

  /** The branch of the `switch` a builder takes. */
  datatype Route = Inline | Contract(shape: Shape) | Skip

  /** The input arrays of a builder: coefficient field, Jacobians, quadrature weights. */
  datatype Fields = Fields(c: seq<real>, jac: seq<real>, qw: seq<real>)

  function DimKey(spaceDim: int, dim: int): (key: int)
    ensures 0 <= dim < 10 ==> key / 10 == spaceDim && key % 10 == dim
  {
    10 * spaceDim + dim
  }

  /** The dispatch.  Key 11 is handled inline, and only by the two scalar builders.
      Keys 21, 22, 32 and 33 go to their kernels in every builder.  Any other key
      matches no case. */
  function RouteOf(kind: CoeffKind, key: int): (r: Route)
    ensures r == Inline <==> key == 11 && kind.IsScalar()
    ensures r.Contract? <==> key in {21, 22, 32, 33}
    ensures r.Contract? ==> r.shape.Key() == key
    ensures r == Skip <==> !(key == 11 && kind.IsScalar()) && key !in {21, 22, 32, 33}
  {
    if key == 11 then (if kind.IsScalar() then Inline else Skip)
    else if key == 21 then Contract(S21)
    else if key == 22 then Contract(S22)
    else if key == 32 then Contract(S32)
    else if key == 33 then Contract(S33)
    else Skip
  }

  /** The key names a dimension pair uniquely as long as the reference dimension is a
      single decimal digit. */
  lemma KeyIdentifiesDims(spaceDim: int, dim: int, s: Shape)
    requires 0 <= dim < 10
    ensures DimKey(spaceDim, dim) == s.Key() <==> spaceDim == s.SpaceDim() && dim == s.RefDim()
    ensures DimKey(spaceDim, dim) == 11 <==> spaceDim == 1 && dim == 1
  {
  }

  /** The coefficient component count each builder passes to the kernel. */
  function CoeffComps(kind: CoeffKind, s: Shape): (n: nat)
    ensures kind.IsScalar() ==> n == 1
    ensures kind == QuadVector ==> n == s.SpaceDim()
    ensures kind == QuadMatrix ==> n == s.SpaceDim() * (s.SpaceDim() + 1) / 2
  {
    match kind
    case ConstScalar => 1
    case QuadScalar => 1
    case QuadVector => (match s case S21 => 2 case S22 => 2 case S32 => 3 case S33 => 3)
    case QuadMatrix => (match s case S21 => 3 case S22 => 3 case S32 => 6 case S33 => 6)
  }

  /** Number of input arrays: the constant-coefficient builders take none for the
      coefficient. */
  function InputCount(kind: CoeffKind): nat
  {
    if kind == ConstScalar then 2 else 3
  }

  /** Names the input arrays as the builders do: `J = in[0], qw = in[1]` for a
      constant coefficient, `c = in[0], J = in[1], qw = in[2]` otherwise. */
  function Bind(kind: CoeffKind, ins: seq<seq<real>>): (f: Fields)
    requires |ins| >= InputCount(kind)
    ensures f.jac == ins[InputCount(kind) - 2] && f.qw == ins[InputCount(kind) - 1]
    ensures kind != ConstScalar ==> f.c == ins[0]
  {
    if kind == ConstScalar then Fields([], ins[0], ins[1]) else Fields(ins[0], ins[1], ins[2])
  }

  /** Output components written per point on a route. */
  function Width(r: Route): nat
  {
    match r
    case Inline => 1
    case Contract(s) => s.OutComps()
    case Skip => 0
  }

  /** The input arrays are large enough for the reads the chosen branch makes. */
  predicate InputsSized(kind: CoeffKind, r: Route, f: Fields, q: nat)
  {
    match r
    case Inline => |f.qw| >= q && (kind == QuadScalar ==> |f.c| >= q)
    case Contract(s) =>
      Span(q, s.JacComps()) <= |f.jac| && |f.qw| >= q
      && (kind != ConstScalar ==> Span(q, CoeffComps(kind, s)) <= |f.c|)
    case Skip => true
  }

  /** ... and the output buffer holds the `Width(r)` components of every point. */
  predicate Sized(kind: CoeffKind, r: Route, f: Fields, q: nat, outLen: nat)
  {
    InputsSized(kind, r, f, q) && Span(q, Width(r)) <= outLen
  }

  function RouteFor(kind: CoeffKind, ctx: Context): Route
  {
    RouteOf(kind, DimKey(ctx.spaceDim, ctx.dim))
  }

  /** The coefficient slice of point `i`: the context value through `&coeff` with
      stride 1 for a constant coefficient, otherwise `c + i` with stride `q`. */
  function CoeffSlice(kind: CoeffKind, ctx: Context, f: Fields, q: nat, s: Shape, i: nat): (r: seq<real>)
    requires i < q && (kind != ConstScalar ==> Span(q, CoeffComps(kind, s)) <= |f.c|)
    ensures kind == ConstScalar ==> r == [ctx.coeff]
    ensures kind != ConstScalar ==>
              |r| == CoeffComps(kind, s)
              && forall m :: 0 <= m < |r| ==> i + q * m < |f.c| && r[m] == f.c[i + q * m]
  {
    if kind == ConstScalar then Gather([ctx.coeff], 1, 0, 1)
    else
      GatherIsStrided(f.c, q, i, CoeffComps(kind, s));
      Gather(f.c, q, i, CoeffComps(kind, s))
  }

  /** The arguments of the kernel call for point `i`. */
  function PointArgs(form: Form, kind: CoeffKind, ctx: Context, f: Fields, q: nat, s: Shape, i: nat): (a: KernelArgs)
    requires i < q && InputsSized(kind, Contract(s), f, q)
    ensures a.shape == s && a.flag == (form == HdivHcurl) && a.weight == f.qw[i]
    ensures |a.jac| == s.JacComps()
    ensures forall m :: 0 <= m < s.JacComps() ==> Slot(q, i, m) < |f.jac| && a.jac[m] == f.jac[Slot(q, i, m)]
    ensures |a.coeff| == CoeffComps(kind, s)
    ensures kind == ConstScalar ==> a.coeff == [ctx.coeff]
    ensures kind != ConstScalar ==>
              forall m :: 0 <= m < CoeffComps(kind, s) ==> Slot(q, i, m) < |f.c| && a.coeff[m] == f.c[Slot(q, i, m)]
  {
    KernelArgs(s, form == HdivHcurl, Gather(f.jac, q, i, s.JacComps()), CoeffSlice(kind, ctx, f, q, s, i), f.qw[i])
  }

  /** The coefficient value of the one-dimensional inline case at point `i`. */
  function InlineCoeff(kind: CoeffKind, ctx: Context, f: Fields, i: nat): real
    requires kind == QuadScalar ==> i < |f.c|
  {
    if kind == QuadScalar then f.c[i] else ctx.coeff
  }

  /** The components point `i` writes on the given route. */
  function PointBlock(form: Form, kind: CoeffKind, ctx: Context, f: Fields, q: nat, kernel: Kernel, r: Route, i: nat): (b: seq<real>)
    requires i < q && InputsSized(kind, r, f, q)
    requires r == Inline ==> kind.IsScalar()
    ensures |b| == Width(r)
  {
    match r
    case Inline => [f.qw[i] * InlineCoeff(kind, ctx, f, i)]
    case Contract(s) => CallKernel(kernel, PointArgs(form, kind, ctx, f, q, s, i), s.OutComps())
    case Skip => []
  }

  /** The `n` components one kernel call writes for the arguments `a`. */
  function CallKernel(kernel: Kernel, a: KernelArgs, n: nat): seq<real>
  {
    seq(n, k requires 0 <= k < n => kernel(a, k))
  }

  function Blocks(form: Form, kind: CoeffKind, ctx: Context, f: Fields, q: nat, kernel: Kernel, r: Route): (bs: seq<seq<real>>)
    requires InputsSized(kind, r, f, q)
    requires r == Inline ==> kind.IsScalar()
    ensures |bs| == q && Uniform(bs, Width(r))
  {
    seq(q, i requires 0 <= i < q => PointBlock(form, kind, ctx, f, q, kernel, r, i))
  }

  /** Reference result: the output buffer after every point has written its block. */
  function MixedOutput(form: Form, kind: CoeffKind, ctx: Context, f: Fields, q: nat, kernel: Kernel, qd0: seq<real>): (r: seq<real>)
    requires Sized(kind, RouteFor(kind, ctx), f, q, |qd0|)
    ensures |r| == |qd0|
  {
    var route := RouteFor(kind, ctx);
    Scattered(qd0, Blocks(form, kind, ctx, f, q, kernel, route), Width(route))
  }

  /** The one-dimensional branch: `qd[i] = qw[i] * coeff` (or `* c[i]`) for every point. */
  method InlineLoop(form: Form, kind: CoeffKind, ctx: Context, f: Fields, q: nat, kernel: Kernel, qd0: seq<real>)
    returns (qd: seq<real>)
    requires RouteFor(kind, ctx) == Inline && Sized(kind, Inline, f, q, |qd0|)
    ensures qd == MixedOutput(form, kind, ctx, f, q, kernel, qd0)
  {
    ghost var blocks := Blocks(form, kind, ctx, f, q, kernel, Inline);
    qd := qd0;
    var i := 0;
    while i < q
      invariant 0 <= i <= q
      invariant ScatteredUpTo(qd, qd0, blocks, 1, i)
    {
      var v := f.qw[i] * (if kind == QuadScalar then f.c[i] else ctx.coeff);
      assert blocks[i][0] == v;
      ScatterStepSingle(qd, qd0, blocks, i);
      qd := qd[i := v];
      i := i + 1;
    }
    ScatterFinish(qd, qd0, blocks, 1);
  }

  /** A kernel branch: for every point, the kernel of shape `s` is called on the
      point's slices and writes the point's block. */
  method KernelLoop(form: Form, kind: CoeffKind, ctx: Context, f: Fields, q: nat, kernel: Kernel, qd0: seq<real>, s: Shape)
    returns (qd: seq<real>)
    requires RouteFor(kind, ctx) == Contract(s) && Sized(kind, Contract(s), f, q, |qd0|)
    ensures qd == MixedOutput(form, kind, ctx, f, q, kernel, qd0)
  {
    ghost var blocks := Blocks(form, kind, ctx, f, q, kernel, Contract(s));
    qd := qd0;
    var i := 0;
    while i < q
      invariant 0 <= i <= q
      invariant ScatteredUpTo(qd, qd0, blocks, s.OutComps(), i)
    {
      var block := CallKernel(kernel, PointArgs(form, kind, ctx, f, q, s, i), s.OutComps());
      KernelStep(form, kind, ctx, f, q, kernel, s, qd, qd0, i);
      qd := WritePoint(qd, q, i, block);
      i := i + 1;
    }
    ScatterFinish(qd, qd0, blocks, s.OutComps());
  }

  /** One step of a kernel branch: the kernel call for point `i` extends the handled
      prefix by one point. */
  lemma KernelStep(form: Form, kind: CoeffKind, ctx: Context, f: Fields, q: nat, kernel: Kernel, s: Shape,
                   qd: seq<real>, qd0: seq<real>, i: nat)
    requires i < q && Sized(kind, Contract(s), f, q, |qd0|)
    requires ScatteredUpTo(qd, qd0, Blocks(form, kind, ctx, f, q, kernel, Contract(s)), s.OutComps(), i)
    ensures Span(q, s.OutComps()) <= |qd|
    ensures ScatteredUpTo(WritePoint(qd, q, i, CallKernel(kernel, PointArgs(form, kind, ctx, f, q, s, i), s.OutComps())),
                          qd0, Blocks(form, kind, ctx, f, q, kernel, Contract(s)), s.OutComps(), i + 1)
  {
    var blocks := Blocks(form, kind, ctx, f, q, kernel, Contract(s));
    assert blocks[i] == CallKernel(kernel, PointArgs(form, kind, ctx, f, q, s, i), s.OutComps());
    ScatterStep(qd, qd0, blocks, s.OutComps(), i);
  }

  /** One builder, `f_build_<form>_<kind>`: returns the status code and the output
      buffer `out[0]` as left by the call.  A key with no case writes nothing. */
  method Build(form: Form, kind: CoeffKind, ctx: Context, q: nat, ins: seq<seq<real>>, kernel: Kernel, qd0: seq<real>)
    returns (status: int, qd: seq<real>)
    requires |ins| >= InputCount(kind)
    requires Sized(kind, RouteFor(kind, ctx), Bind(kind, ins), q, |qd0|)
    ensures status == 0
    ensures qd == MixedOutput(form, kind, ctx, Bind(kind, ins), q, kernel, qd0)
    ensures RouteFor(kind, ctx) == Skip ==> qd == qd0
  {
    var f := Bind(kind, ins);
    match RouteOf(kind, DimKey(ctx.spaceDim, ctx.dim)) {
      case Inline =>
        qd := InlineLoop(form, kind, ctx, f, q, kernel, qd0);
      case Contract(s) =>
        qd := KernelLoop(form, kind, ctx, f, q, kernel, qd0, s);
      case Skip =>
        qd := qd0;
        UnhandledKeyKeepsBuffer(form, kind, ctx, f, q, kernel, qd0);
    }
    status := 0;
  }

  /** One-dimensional case: point `i`'s output is `qw[i]` times the coefficient (the
      context value, or `c[i]`: see `InlineCoeff`), and nothing past the first `q`
      entries changes. */
  lemma OneDimensionalInline(form: Form, kind: CoeffKind, ctx: Context, f: Fields, q: nat, kernel: Kernel, qd0: seq<real>)
    requires RouteFor(kind, ctx) == Inline && Sized(kind, Inline, f, q, |qd0|)
    ensures forall i :: 0 <= i < q ==>
              i < |qd0| && MixedOutput(form, kind, ctx, f, q, kernel, qd0)[i] == f.qw[i] * InlineCoeff(kind, ctx, f, i)
    ensures forall j :: q <= j < |qd0| ==> MixedOutput(form, kind, ctx, f, q, kernel, qd0)[j] == qd0[j]
  {
    var blocks := Blocks(form, kind, ctx, f, q, kernel, Inline);
    assert MixedOutput(form, kind, ctx, f, q, kernel, qd0) == Scattered(qd0, blocks, 1);
    ScatteredSingle(qd0, blocks);
    InlineBlocks(form, kind, ctx, f, q, kernel);
  }

  /** The block of point `i` in the one-dimensional case is the single value
      `qw[i]` times the coefficient. */
  lemma InlineBlocks(form: Form, kind: CoeffKind, ctx: Context, f: Fields, q: nat, kernel: Kernel)
    requires kind.IsScalar() && InputsSized(kind, Inline, f, q)
    ensures forall i :: 0 <= i < q ==>
              Blocks(form, kind, ctx, f, q, kernel, Inline)[i][0] == f.qw[i] * InlineCoeff(kind, ctx, f, i)
  {
    var blocks := Blocks(form, kind, ctx, f, q, kernel, Inline);
    forall i | 0 <= i < q ensures blocks[i][0] == f.qw[i] * InlineCoeff(kind, ctx, f, i) {
      assert blocks[i] == PointBlock(form, kind, ctx, f, q, kernel, Inline, i);
    }
  }

  /** Kernel case: component `k` of point `i` lands at `i + q*k` and is what the
      kernel computes from that point's arguments; the buffer past the `q` blocks
      is untouched. */
  lemma ContractSlots(form: Form, kind: CoeffKind, ctx: Context, f: Fields, q: nat, kernel: Kernel, qd0: seq<real>, s: Shape)
    requires RouteFor(kind, ctx) == Contract(s)
    requires Sized(kind, RouteFor(kind, ctx), f, q, |qd0|)
    ensures forall i, k :: 0 <= i < q && 0 <= k < s.OutComps() ==>
              Slot(q, i, k) < |qd0|
              && MixedOutput(form, kind, ctx, f, q, kernel, qd0)[Slot(q, i, k)] == kernel(PointArgs(form, kind, ctx, f, q, s, i), k)
    ensures forall j :: Span(q, s.OutComps()) <= j < |qd0| ==> MixedOutput(form, kind, ctx, f, q, kernel, qd0)[j] == qd0[j]
  {
    var blocks := Blocks(form, kind, ctx, f, q, kernel, Contract(s));
    var r := MixedOutput(form, kind, ctx, f, q, kernel, qd0);
    assert r == Scattered(qd0, blocks, s.OutComps());
    forall i, k | 0 <= i < q && 0 <= k < s.OutComps()
      ensures Slot(q, i, k) < |r| && r[Slot(q, i, k)] == kernel(PointArgs(form, kind, ctx, f, q, s, i), k)
    {
      assert blocks[i][k] == kernel(PointArgs(form, kind, ctx, f, q, s, i), k);
    }
  }

  /** A key with no case (and key 11 in the vector and matrix builders) leaves the
      output buffer exactly as it was. */
  lemma UnhandledKeyKeepsBuffer(form: Form, kind: CoeffKind, ctx: Context, f: Fields, q: nat, kernel: Kernel, qd0: seq<real>)
    requires forall s: Shape :: DimKey(ctx.spaceDim, ctx.dim) != s.Key()
    requires DimKey(ctx.spaceDim, ctx.dim) == 11 ==> !kind.IsScalar()
    ensures Sized(kind, RouteFor(kind, ctx), f, q, |qd0|)
    ensures MixedOutput(form, kind, ctx, f, q, kernel, qd0) == qd0
  {
    var r := MixedOutput(form, kind, ctx, f, q, kernel, qd0);
    assert forall j :: 0 <= j < |qd0| ==> r[j] == qd0[j];
  }

  /** The kernel `kernel` as an H(curl)-H(div) builder sees it when the H(div)-H(curl)
      builder calls it: identical except that the template argument is `true`. */
  function WithFlag(kernel: Kernel): Kernel
  {
    (a: KernelArgs, k: nat) => kernel(a.(flag := true), k)
  }

  /** Each H(div)-H(curl) builder is its H(curl)-H(div) counterpart with the kernels'
      template argument set to `true`.  Every point passes the same slices, weight and
      component count, and the one-dimensional case is the same. */
  lemma HdivHcurlMirrorsHcurlHdiv(kind: CoeffKind, ctx: Context, f: Fields, q: nat, kernel: Kernel, qd0: seq<real>)
    requires Sized(kind, RouteFor(kind, ctx), f, q, |qd0|)
    ensures forall s: Shape, i :: 0 <= i < q && RouteFor(kind, ctx) == Contract(s) ==>
              PointArgs(HdivHcurl, kind, ctx, f, q, s, i) == PointArgs(HcurlHdiv, kind, ctx, f, q, s, i).(flag := true)
    ensures MixedOutput(HdivHcurl, kind, ctx, f, q, kernel, qd0)
            == MixedOutput(HcurlHdiv, kind, ctx, f, q, WithFlag(kernel), qd0)
  {
    var route := RouteFor(kind, ctx);
    var b1 := Blocks(HdivHcurl, kind, ctx, f, q, kernel, route);
    var b2 := Blocks(HcurlHdiv, kind, ctx, f, q, WithFlag(kernel), route);
    forall i | 0 <= i < q ensures b1[i] == b2[i] {
      if route.Contract? {
        var s := route.shape;
        var a1 := PointArgs(HdivHcurl, kind, ctx, f, q, s, i);
        var a2 := PointArgs(HcurlHdiv, kind, ctx, f, q, s, i);
        assert a1 == a2.(flag := true);
        forall k | 0 <= k < s.OutComps() ensures b1[i][k] == b2[i][k] {
        }
      }
    }
    assert b1 == b2;
  }

  /** Two input sets agree on everything point `i` reads on route `r`: its weight,
      its coefficient entries and its Jacobian entries. */
  predicate AgreeAt(kind: CoeffKind, ctx: Context, r: Route, f1: Fields, f2: Fields, q: nat, i: nat)
    requires i < q && InputsSized(kind, r, f1, q) && InputsSized(kind, r, f2, q)
  {
    match r
    case Inline => f1.qw[i] == f2.qw[i] && (kind == QuadScalar ==> f1.c[i] == f2.c[i])
    case Contract(s) =>
      f1.qw[i] == f2.qw[i]
      && Gather(f1.jac, q, i, s.JacComps()) == Gather(f2.jac, q, i, s.JacComps())
      && (kind != ConstScalar ==> Gather(f1.c, q, i, CoeffComps(kind, s)) == Gather(f2.c, q, i, CoeffComps(kind, s)))
    case Skip => true
  }

  /** Point independence: the output slots of point `i` depend only on the inputs of
      point `i`. */
  lemma OutputIsPointLocal(form: Form, kind: CoeffKind, ctx: Context, f1: Fields, f2: Fields, q: nat, kernel: Kernel,
                           qd0: seq<real>, i: nat)
    requires i < q
    requires Sized(kind, RouteFor(kind, ctx), f1, q, |qd0|) && Sized(kind, RouteFor(kind, ctx), f2, q, |qd0|)
    requires AgreeAt(kind, ctx, RouteFor(kind, ctx), f1, f2, q, i)
    ensures forall k :: 0 <= k < Width(RouteFor(kind, ctx)) ==>
              Slot(q, i, k) < |qd0|
              && MixedOutput(form, kind, ctx, f1, q, kernel, qd0)[Slot(q, i, k)]
                 == MixedOutput(form, kind, ctx, f2, q, kernel, qd0)[Slot(q, i, k)]
  {
    var route := RouteFor(kind, ctx);
    var b1 := Blocks(form, kind, ctx, f1, q, kernel, route);
    var b2 := Blocks(form, kind, ctx, f2, q, kernel, route);
    var p1 := PointBlock(form, kind, ctx, f1, q, kernel, route, i);
    var p2 := PointBlock(form, kind, ctx, f2, q, kernel, route, i);
    match route {
      case Inline =>
        assert p1 == PointBlock(form, kind, ctx, f1, q, kernel, Inline, i);
        assert p2 == PointBlock(form, kind, ctx, f2, q, kernel, Inline, i);
        assert p1[0] == p2[0];
      case Contract(s) =>
        var a1 := PointArgs(form, kind, ctx, f1, q, s, i);
        var a2 := PointArgs(form, kind, ctx, f2, q, s, i);
        assert a1.coeff == a2.coeff;
        assert a1 == a2;
        forall k | 0 <= k < s.OutComps() ensures p1[k] == p2[k] {
          assert p1[k] == kernel(a1, k);
          assert p2[k] == kernel(a2, k);
        }
      case Skip =>
    }
    assert b1[i] == p1 && b2[i] == p2;
    var r1 := MixedOutput(form, kind, ctx, f1, q, kernel, qd0);
    var r2 := MixedOutput(form, kind, ctx, f2, q, kernel, qd0);
    assert r1 == Scattered(qd0, b1, Width(route));
    assert r2 == Scattered(qd0, b2, Width(route));
    forall k | 0 <= k < Width(route) ensures Slot(q, i, k) < |qd0| && r1[Slot(q, i, k)] == r2[Slot(q, i, k)] {
      assert r1[Slot(q, i, k)] == b1[i][k];
      assert r2[Slot(q, i, k)] == b2[i][k];
    }
  }

  /** Loop order is irrelevant: visiting the points in any order that covers the
      batch leaves the same output as the builder's ascending loop. */
  lemma MixedOrderIrrelevant(form: Form, kind: CoeffKind, ctx: Context, f: Fields, q: nat, kernel: Kernel,
                             qd0: seq<real>, order: seq<nat>)
    requires Sized(kind, RouteFor(kind, ctx), f, q, |qd0|)
    requires forall t :: 0 <= t < |order| ==> order[t] < q
    requires forall i :: 0 <= i < q ==> i in order
    ensures ApplyInOrder(qd0, Blocks(form, kind, ctx, f, q, kernel, RouteFor(kind, ctx)), Width(RouteFor(kind, ctx)), order)
            == MixedOutput(form, kind, ctx, f, q, kernel, qd0)
  {
    var route := RouteFor(kind, ctx);
    OrderIrrelevant(qd0, Blocks(form, kind, ctx, f, q, kernel, route), Width(route), order);
  }
}
