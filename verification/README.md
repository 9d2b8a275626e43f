# Palace quadrature-data builders: mixed H(curl)/H(div) mass and 3-in-2 H(div) mass

This project is a Dafny model of two groups of libCEED quadrature functions from
Palace, plus the proofs about them.

- **The eight mixed builders** of `palace/fem/qfunctions/hcurlhdiv_qf.h`
  (`f_build_hcurlhdiv_*` and `f_build_hdivhcurl_*`, each for a constant scalar,
  quadrature scalar, quadrature vector or quadrature matrix coefficient).
  - Each builder switches on the key `10*space_dim + dim`.
  - Key 11 is the one-dimensional case, handled inline as `qw[i] * c`.
  - Keys 21, 22, 32 and 33 call a contraction kernel `MultJtCAdjJt<key>` for every
    point. The call gets the point's strided Jacobian slice (`J + i`, stride `Q`),
    its coefficient slice (`c + i`, stride `Q`, or the context constant with
    stride 1), a component count, `qw[i]` and `qd + i`.
  - The H(div)-H(curl) builders differ only in the kernel's template argument
    `true`.
  - Module `MixedMass`.
- **`f_build_hdivmass_32`** of `palace/fem/qfunctions/32/hdivmass_build_32_qf.h`.
  - For each point it reads the attribute, `wdetJ` and the 3x2 adjugate Jacobian
    from one packed input array.
  - It writes `wdetJ * AᵀBA` (four components) and the scalar
    `coeff2 * qw² / wdetJ` into the same output buffer.
  - Module `HdivMass32`.

Both rest on module `StridedLayout`. It models the batch layout in which component
`k` of quadrature point `i` lives at offset `i + Q*k`. It provides:

- `Gather`: reading a point's slice;
- `WritePoint`: a point writing its block one component at a time;
- `Scattered`: a reference result defined offset by offset;
- `ApplyInOrder`: the buffer after points are handled in an arbitrary order.

A builder's buffers are sequences of reals. Each builder is a method whose loop
carries an invariant over the points handled so far, and whose result is proved
equal to the reference.

The kernels and coefficient unpackers are defined in headers that are not part of
this model. They are parameters:

- a `Kernel` gives component `k` of the block a kernel writes for the arguments it
  receives;
- a `Congruence` gives component `k` of `MultAtBA32`;
- the context's coefficient tables are functions from attribute to coefficient.

The model assumes that a kernel reads only the slices it is handed and writes only
the point's own slots `qd[i + Q*k]`, for `k < dim*dim`. The header is not shown,
so the width `dim*dim` (1, 4, 4 and 9 for keys 21, 22, 32 and 33) is this model's
assumption. So is the default value `false` of the kernels' boolean template
argument, which the H(curl)-H(div) builders leave unset and the H(div)-H(curl)
builders set to `true`. Everything around the kernels is modelled as the code does it:

- the dispatch on the integer key;
- which builders have which cases;
- the strides and component counts passed;
- the input naming `in[0..2]`;
- the output layout;
- the return value 0.

## Model

| member | source | states |
|---|---|---|
| `MixedMass.DimKey` | palace/fem/qfunctions/hcurlhdiv_qf.h:24 | the switch key `10*space_dim + dim` gives back `space_dim` as its quotient by 10 and `dim` as its last digit whenever `dim` is a single digit |
| `MixedMass.Bind` | palace/fem/qfunctions/hcurlhdiv_qf.h:72 | the Jacobians and the weights are the last two inputs, and the coefficient field, when there is one, is `in[0]` |
| `MixedMass.CoeffSlice` | palace/fem/qfunctions/hcurlhdiv_qf.h:85 | a constant-coefficient builder hands every point the same one-entry slice, the context value (`&coeff`, stride 1, line 35); a quadrature builder hands point `i` the entries `c[i + Q*m]` for each of the component count's `m` |
| `MixedMass.RouteOf` | palace/fem/qfunctions/hcurlhdiv_qf.h:24-56 | the inline branch is taken exactly when the key is 11 and the builder's coefficient is scalar; a kernel branch is taken exactly for keys 21, 22, 32, 33 and then runs the kernel whose key it is; every other key (and key 11 in the vector and matrix builders) runs no branch |
| `MixedMass.KeyIdentifiesDims` | palace/fem/qfunctions/hcurlhdiv_qf.h:24 | when `dim` is a single decimal digit, the key `10*space_dim + dim` selects a case exactly when the dimension pair is that case's pair |
| `MixedMass.CoeffComps` | palace/fem/qfunctions/hcurlhdiv_qf.h:112-196 | the coefficient component count passed to the kernel is 1 for the scalar builders, `space_dim` for the vector builders and `space_dim*(space_dim+1)/2` for the matrix builders |
| `MixedMass.PointArgs` | palace/fem/qfunctions/hcurlhdiv_qf.h:72-105 | point `i`'s kernel call sees the Jacobian entries at `i + Q*m`, the weight `qw[i]` and either the coefficient entries at `i + Q*m` or, for a constant coefficient, the single context value; the H(div)-H(curl) form sets the template flag |
| `MixedMass.InlineLoop` | palace/fem/qfunctions/hcurlhdiv_qf.h:76-81 | the one-dimensional loop leaves the buffer equal to the reference layout of the single-component blocks `qw[i]*c` |
| `MixedMass.KernelLoop` | palace/fem/qfunctions/hcurlhdiv_qf.h:82-105 | the per-point kernel loop leaves the buffer equal to the reference layout of the kernels' blocks |
| `MixedMass.Build` | palace/fem/qfunctions/hcurlhdiv_qf.h:62-108 | every builder returns 0 and leaves the reference layout for the branch its key selects; with a key no case handles, the buffer is returned unchanged |
| `MixedMass.OneDimensionalInline` | palace/fem/qfunctions/hcurlhdiv_qf.h:26-31 | on the inline branch, offset `i < Q` holds `qw[i]` times the context coefficient (constant builders) or times `c[i]` (quadrature-scalar builders), and every offset from `Q` on is unchanged |
| `MixedMass.ContractSlots` | palace/fem/qfunctions/hcurlhdiv_qf.h:32-55 | on a kernel branch, offset `i + Q*k` holds component `k` of the kernel applied to point `i`'s arguments, and everything past the `dim*dim` rows is unchanged |
| `MixedMass.UnhandledKeyKeepsBuffer` | palace/fem/qfunctions/hcurlhdiv_qf.h:124-151 | a key that matches no case (including 11 for a vector or matrix coefficient) leaves the output buffer exactly as it was |
| `MixedMass.HdivHcurlMirrorsHcurlHdiv` | palace/fem/qfunctions/hcurlhdiv_qf.h:200-246 | each H(div)-H(curl) builder passes the same slices, counts and weight as its H(curl)-H(div) counterpart with the flag set, and its output equals the counterpart's output with a flag-setting kernel |
| `MixedMass.OutputIsPointLocal` | palace/fem/qfunctions/hcurlhdiv_qf.h:127-130 | two input sets that agree on everything point `i` reads give the same values in point `i`'s output slots |
| `MixedMass.MixedOrderIrrelevant` | palace/fem/qfunctions/hcurlhdiv_qf.h:33-36 | handling the points in any order that covers the batch gives the same buffer as the ascending loop |
| `StridedLayout.GatherIsStrided` | palace/fem/qfunctions/hcurlhdiv_qf.h:35 | the slice a kernel reads through `J + i` with stride `Q`: entry `m` is `buf[i + Q*m]`, an offset inside the buffer |
| `StridedLayout.WritePoint` | palace/fem/qfunctions/hcurlhdiv_qf.h:35 | writing through `qd + i` with stride `Q` puts component `k` at `i + Q*k` and changes no slot of another point or past the block |
| `StridedLayout.SlotsDistinct` | palace/fem/qfunctions/32/hdivmass_build_32_qf.h:25-28 | two (point, component) pairs inside the batch share an offset only when they are the same pair |
| `StridedLayout.OrderIrrelevant` | palace/fem/qfunctions/hcurlhdiv_qf.h:33-36 | for blocks written into disjoint per-point slots, any visiting order covering every point yields the offset-wise reference |
| `HdivMass32.TruncToInt` | palace/fem/qfunctions/32/hdivmass_build_32_qf.h:21 | converting the stored attribute to an integer truncates toward zero |
| `HdivMass32.ReadPoint` | palace/fem/qfunctions/32/hdivmass_build_32_qf.h:14-22 | point `i` reads its attribute from `in[0][i]`, `wdetJ` from `in[0][Q+i]`, adjugate entry `m` from `in[0][2Q + i + Q*m]` and its weight from `in[1][i]` |
| `HdivMass32.Primary` | palace/fem/qfunctions/32/hdivmass_build_32_qf.h:20-28 | a point's primary block has four components; component `k` is zero exactly when `wdetJ` or `qd_loc[k]` is zero, and when `wdetJ` is nonzero dividing it by `wdetJ` gives back `qd_loc[k]`, the congruence product of the point's adjugate and its first-table coefficient |
| `HdivMass32.Secondary` | palace/fem/qfunctions/32/hdivmass_build_32_qf.h:31-34 | the secondary value times `wdetJ` is the second-table coefficient times `qw²` |
| `HdivMass32.BuildAsWritten` | palace/fem/qfunctions/32/hdivmass_build_32_qf.h:11-38 | the builder as written returns 0 and leaves the layout in which each point's fourth slot holds the secondary value |
| `HdivMass32.AsWrittenSlots` | palace/fem/qfunctions/32/hdivmass_build_32_qf.h:15-34 | as written, offsets `i + Q*k` for `k < 3` hold `wdetJ * qd_loc[k]`, offset `i + 3Q` holds `coeff2*qw²/wdetJ`, and nothing from `4Q` on changes |
| `HdivMass32.PrimaryComponentLost` | palace/fem/qfunctions/32/hdivmass_build_32_qf.h:15-34 | as written, whenever the secondary value differs from `wdetJ * qd_loc[3]`, slot `i + 3Q` does not hold `wdetJ * qd_loc[3]` |
| `HdivMass32.OverlapWitness` | palace/fem/qfunctions/32/hdivmass_build_32_qf.h:28-34 | one point with `wdetJ = 1`, unit congruence product and zero second coefficient: `wdetJ * qd_loc[3]` is 1 but the buffer holds 0 there |
| `HdivMass32.Build` | palace/fem/qfunctions/32/hdivmass_build_32_qf.h:11-38 | with the secondary row at `out[0] + 4Q`, the builder returns 0 and leaves all four primary components and the secondary value in their own slots |
| `HdivMass32.OutputSlots` | palace/fem/qfunctions/32/hdivmass_build_32_qf.h:25-34 | offset `i + Q*k` holds `wdetJ * qd_loc[k]` for every `k < 4`, offset `i + 4Q` holds `coeff2*qw²/wdetJ`, and nothing from `5Q` on changes |
| `HdivMass32.RegionsDisjoint` | palace/fem/qfunctions/32/hdivmass_build_32_qf.h:15 | with the secondary row at `4Q`, every primary slot lies below `4Q` and every secondary slot in `[4Q, 5Q)`, so no write of one kind hits a slot of the other |
| `HdivMass32.SecondaryLinear` | palace/fem/qfunctions/32/hdivmass_build_32_qf.h:31-34 | with the secondary row at `4Q`, doubling every second-table coefficient doubles every secondary slot and leaves every primary slot and the rest of the buffer as it was |
| `HdivMass32.AsWrittenSecondaryLinear` | palace/fem/qfunctions/32/hdivmass_build_32_qf.h:15-34 | for the loop as written, doubling every second-table coefficient doubles slot `i + 3Q`, where `qd2[i]` overwrites the fourth primary component, and leaves primary rows 0-2 and every offset from `4Q` on as they were |
| `HdivMass32.AsWrittenPointLocal` | palace/fem/qfunctions/32/hdivmass_build_32_qf.h:17-36 | for the loop as written, two inputs that agree on point `i`'s eight input rows and weight give the same values in point `i`'s four output slots |
| `HdivMass32.AsWrittenOrderIrrelevant` | palace/fem/qfunctions/32/hdivmass_build_32_qf.h:17-36 | for the loop as written, handling the points in any covering order gives the same output as the ascending loop |
| `HdivMass32.OutputIsPointLocal` | palace/fem/qfunctions/32/hdivmass_build_32_qf.h:17-36 | with the secondary row at `4Q`, two inputs that agree on point `i`'s eight input rows and weight give the same values in point `i`'s five output slots |
| `HdivMass32.MassOrderIrrelevant` | palace/fem/qfunctions/32/hdivmass_build_32_qf.h:17-36 | with the secondary row at `4Q`, handling the points in any covering order gives the same output as the ascending loop |

## Left out

- The bodies of `MultJtCAdjJt21/22/32/33`, `MultAtBA32`, `MatUnpack32`,
  `CoeffUnpack1`, `CoeffUnpack3` and `CoeffPairSecond`. Their headers are not
  part of this model, so they are parameters. The output width `dim*dim` of each
  contraction kernel is an assumption, stated above.
- Floating-point rounding, overflow and division by zero. Values are Dafny
  `real`s. A non-zero `wdetJ` at every point (`NonDegenerate`) is a precondition
  of the 3-in-2 builder, as the division requires.
- The `CeedInt` range of the attribute. `TruncToInt` is unbounded, so an attribute
  outside the 32-bit range (undefined behaviour in C) is not modelled.
- The `CeedInt` range of the switch key. `DimKey` computes `10*space_dim + dim`
  on unbounded integers, so a context whose key overflows 32 bits is not modelled.
- Buffer sizes. libCEED allocates the arrays to the operator's shapes; the
  builders check nothing. Each builder's `requires` states the sizes its reads
  and writes need.
- Mutable arrays. Output buffers are sequence values threaded through the loop,
  not arrays written in place. The sequence of writes per point is the same.
- `CEED_QFUNCTION`, `CeedPragmaSIMD` and backend selection. The loops are
  modelled as sequential; the order-independence lemmas state why any schedule
  gives the same result. The mixed builders' output has one pointer, so
  `__restrict__` changes nothing there.
- HdivMass32.BuildAsWritten: performs the two stores to `out[0][3Q + i]` (lines 28
  and 34) in program order, so the secondary value is what remains. `qd1` and `qd2`
  are both `__restrict__` and reach the same element, which makes the pair of
  stores undefined behaviour in C; a compiler may keep either value. The model
  does not promise which value a compiled build leaves there.
- The byte layout of the `void *ctx` blob (`VectorFEMassContext`,
  `CeedIntScalar` tables). The context is a record with `space_dim`, `dim` and
  `coeff`, or with two attribute-indexed coefficient tables.
- Keys for `dim >= 10`. The model dispatches on the integer key exactly as the
  code does, so such pairs alias other keys as they would in C.
  `KeyIdentifiesDims` states when the key is unambiguous.
- The closed-form mathematics of the kernels (symmetry of `AᵀBA`, the meaning of
  `qw/det(J) adj(J) C J`). It lives inside the kernels.
- `spack/local/packages/palace/package.py`: a build recipe with no runtime logic.

## Findings

The 3-in-2 builder declares a four-entry `qd_loc`, stores all four entries into
`qd1[i + Q*0..3]` (lines 20 and 25-28), and places `qd2` at `out[0] + 3*Q` (line 15),
with both output pointers `__restrict__`. These cannot all be meant at once: the
fourth primary row and the secondary row are the same memory. `BuildAsWritten`
follows the code in program order; `Build` keeps the four primary rows and moves
the secondary row past them.

| source | as written | input that shows it | evidently intended | confidence | as-written member | corrected member |
|---|---|---|---|---|---|---|
| palace/fem/qfunctions/32/hdivmass_build_32_qf.h:15-34 | `qd2 = out[0] + 3*Q`, but the primary block writes four rows `qd1[i + Q*0..3]`. Row 3 of the primary block and `qd2[i]` are the same slot. In program order the secondary value is written last, so `wdetJ * qd_loc[3]` is lost; because both pointers are `__restrict__`, the two stores to one element are undefined behaviour, and a compiled build may keep either value. | `Q = 1`, `wdetJ = 1`, `MultAtBA32` giving 1 in every component, second coefficient 0: slot 3 should hold 1 and, in program order, holds 0 | the two output regions do not overlap. This model moves the secondary row to `out[0] + 4Q`. The other reading, a packed symmetric 2x2 block of three primary rows with `qd2` at `3Q`, would instead drop the write of `qd_loc[3]`; which is meant depends on the consumer of the quadrature data, which is not part of this model | medium, not executed | `HdivMass32.BuildAsWritten`, `HdivMass32.PrimaryComponentLost`, `HdivMass32.OverlapWitness` | `HdivMass32.Build`, `HdivMass32.RegionsDisjoint`, `HdivMass32.OutputSlots` |
