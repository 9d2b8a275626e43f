/** Strided quadrature-point layout shared by the libCEED quadrature-data builders.

    A per-point array with `n` components over a batch of `q` points is stored
    component-major: component `k` of point `i` lives at offset `i + q*k`.  Every
    builder reads its inputs and writes its output through this addressing, one
    point at a time.  This module proves the facts about that addressing that
    make the per-point loops correct and order-independent. */
module StridedLayout {

  /** `q * n`, as repeated addition.  Keeping the product behind a recursive
      definition keeps the solver away from non-linear arithmetic; `SpanIsProduct`
      connects the two. */
  function Span(q: nat, n: nat): nat
  {
    if n == 0 then 0 else Span(q, n - 1) + q
  }

  lemma {:induction false} SpanIsProduct(q: nat, n: nat)
    ensures Span(q, n) == q * n
  {
    if n > 0 {
      SpanIsProduct(q, n - 1);
      assert q * n == q * (n - 1) + q;
    }
  }

  /** Offset of component `k` of point `i` in a buffer with outer stride `q`. */
  function Slot(q: nat, i: nat, k: nat): nat
  {
    i + Span(q, k)
  }

  /** The point an offset belongs to (the offset modulo the stride). */
  function PointOf(q: nat, j: nat): nat
    requires q > 0
    decreases j
  {
    if j < q then j else PointOf(q, j - q)
  }

  /** The component an offset belongs to (the offset divided by the stride). */
  function CompOf(q: nat, j: nat): nat
    requires q > 0
    decreases j
  {
    if j < q then 0 else CompOf(q, j - q) + 1
  }

  lemma {:induction false} SpanGrows(q: nat, k: nat, n: nat)
    requires k < n
    ensures Span(q, k) + q <= Span(q, n)
    decreases n
  {
    if k < n - 1 {
      SpanGrows(q, k, n - 1);
    }
  }

  /** Every component of a point of the batch lies inside the first `q*n` slots. */
  lemma SlotBound(q: nat, i: nat, k: nat, n: nat)
    requires i < q && k < n
    ensures Slot(q, i, k) < Span(q, n)
  {
    SpanGrows(q, k, n);
  }

  /** The slot of component `k` of point `i` names that point and that component
      back. */
  lemma {:induction false} SlotDecompose(q: nat, i: nat, k: nat)
    requires i < q
    ensures PointOf(q, Slot(q, i, k)) == i && CompOf(q, Slot(q, i, k)) == k
    decreases k
  {
    if k > 0 {
      SlotDecompose(q, i, k - 1);
      assert Slot(q, i, k) - q == Slot(q, i, k - 1);
    }
  }

  /** Every offset is a slot of some point of the batch. */
  lemma {:induction false} SlotRecompose(q: nat, j: nat)
    requires q > 0
    ensures PointOf(q, j) < q && Slot(q, PointOf(q, j), CompOf(q, j)) == j
    decreases j
  {
    if j >= q {
      SlotRecompose(q, j - q);
    }
  }

  /** An offset lies in the first `n` component rows exactly when it is below `q*n`. */
  lemma CompBelow(q: nat, j: nat, n: nat)
    requires q > 0
    ensures CompOf(q, j) < n <==> j < Span(q, n)
  {
    SlotRecompose(q, j);
    if CompOf(q, j) < n {
      SlotBound(q, PointOf(q, j), CompOf(q, j), n);
    } else if CompOf(q, j) > n {
      SpanGrows(q, n, CompOf(q, j));
    }
  }

  /** Slots of different (point, component) pairs of a batch never collide. */
  lemma SlotsDistinct(q: nat, i: nat, k: nat, i2: nat, k2: nat)
    requires i < q && i2 < q
    requires i != i2 || k != k2
    ensures Slot(q, i, k) != Slot(q, i2, k2)
  {
    SlotDecompose(q, i, k);
    SlotDecompose(q, i2, k2);
  }

  /** Offset `j` is one of the first `n` component slots of point `i`. */
  predicate OwnedBy(q: nat, i: nat, n: nat, j: nat)
  {
    q > 0 && PointOf(q, j) == i && CompOf(q, j) < n
  }

  /** The `n` components of point `i`, read from `buf` with outer stride `q`: the
      slice a builder hands to a kernel as the pointer `buf + i` with stride `q`. */
  function Gather(buf: seq<real>, q: nat, i: nat, n: nat): (r: seq<real>)
    requires i < q && Span(q, n) <= |buf|
    ensures |r| == n
    ensures forall m :: 0 <= m < n ==> Slot(q, i, m) < |buf| && r[m] == buf[Slot(q, i, m)]
  {
    assert forall m :: 0 <= m < n ==> Slot(q, i, m) < |buf| by {
      forall m | 0 <= m < n ensures Slot(q, i, m) < |buf| {
        SlotBound(q, i, m, n);
      }
    }
    seq(n, m requires 0 <= m < n => buf[Slot(q, i, m)])
  }

  /** The slice read through `buf + i` with stride `q` holds, at entry `m`, the
      buffer's element `i + q*m`. */
  lemma GatherIsStrided(buf: seq<real>, q: nat, i: nat, n: nat)
    requires i < q && Span(q, n) <= |buf|
    ensures forall m :: 0 <= m < n ==> i + q * m < |buf| && Gather(buf, q, i, n)[m] == buf[i + q * m]
  {
    var r := Gather(buf, q, i, n);
    forall m | 0 <= m < n ensures i + q * m < |buf| && r[m] == buf[i + q * m] {
      SpanIsProduct(q, m);
    }
  }

  /** Writes `block` as the components of point `i`, one component after the other
      in increasing order, as a kernel writing through `qd + i` with stride `q`
      does.  Only the slots of point `i` change. */
  function WritePoint(buf: seq<real>, q: nat, i: nat, block: seq<real>): (r: seq<real>)
    requires i < q && Span(q, |block|) <= |buf|
    ensures |r| == |buf|
    ensures forall k :: 0 <= k < |block| ==> Slot(q, i, k) < |r| && r[Slot(q, i, k)] == block[k]
    ensures forall j :: 0 <= j < |buf| && !OwnedBy(q, i, |block|, j) ==> r[j] == buf[j]
    decreases |block|
  {
    if |block| == 0 then buf
    else
      var n := |block| - 1;
      SlotBound(q, i, n, |block|);
      SpanGrows(q, n, |block|);
      var prev := WritePoint(buf, q, i, block[..n]);
      assert forall k :: 0 <= k < n ==> Slot(q, i, k) < |prev| && prev[Slot(q, i, k)] == block[k] by {
        forall k | 0 <= k < n ensures Slot(q, i, k) < |prev| && prev[Slot(q, i, k)] == block[k] {
          assert block[..n][k] == block[k];
        }
      }
      assert forall k :: 0 <= k < n ==> Slot(q, i, k) != Slot(q, i, n) by {
        forall k | 0 <= k < n ensures Slot(q, i, k) != Slot(q, i, n) {
          SlotsDistinct(q, i, k, i, n);
        }
      }
      SlotDecompose(q, i, n);
      prev[Slot(q, i, n) := block[n]]
  }

  /** Writing a block and then one more component after it is writing the longer block. */
  lemma WriteAppend(buf: seq<real>, q: nat, i: nat, block: seq<real>, x: real)
    requires i < q && Span(q, |block| + 1) <= |buf|
    ensures Span(q, |block|) <= |buf|
    ensures WritePoint(buf, q, i, block)[Slot(q, i, |block|) := x] == WritePoint(buf, q, i, block + [x])
  {
    assert (block + [x])[..|block|] == block;
  }

  /** Overwriting the last component of a point's block is writing the block with that
      component replaced. */
  lemma WriteOverwriteLast(buf: seq<real>, q: nat, i: nat, block: seq<real>, x: real)
    requires i < q && |block| > 0 && Span(q, |block|) <= |buf|
    ensures WritePoint(buf, q, i, block)[Slot(q, i, |block| - 1) := x]
            == WritePoint(buf, q, i, block[..|block| - 1] + [x])
  {
    var n := |block| - 1;
    WriteAppend(buf, q, i, block[..n], x);
    assert WritePoint(buf, q, i, block) == WritePoint(buf, q, i, block[..n])[Slot(q, i, n) := block[n]];
  }

  /** Every point's block has `width` components. */
  predicate Uniform(blocks: seq<seq<real>>, width: nat)
  {
    forall i :: 0 <= i < |blocks| ==> |blocks[i]| == width
  }

  /** The value the reference result holds at offset `j`. */
  function Cell(buf: seq<real>, blocks: seq<seq<real>>, width: nat, j: nat): real
    requires Uniform(blocks, width) && j < |buf|
  {
    var q := |blocks|;
    if q > 0 && CompOf(q, j) < width then
      SlotRecompose(q, j);
      blocks[PointOf(q, j)][CompOf(q, j)]
    else buf[j]
  }

  /** Reference result of a per-point builder: the buffer after every point `i` of the
      batch (`|blocks|` points) has written `blocks[i]` into its own slots.  Defined
      offset by offset, with no loop and no order of writes. */
  function Scattered(buf: seq<real>, blocks: seq<seq<real>>, width: nat): (r: seq<real>)
    requires Uniform(blocks, width) && Span(|blocks|, width) <= |buf|
    ensures |r| == |buf|
    ensures forall i, k :: 0 <= i < |blocks| && 0 <= k < width ==>
              Slot(|blocks|, i, k) < |r| && r[Slot(|blocks|, i, k)] == blocks[i][k]
    ensures forall j :: Span(|blocks|, width) <= j < |buf| ==> r[j] == buf[j]
  {
    var r := seq(|buf|, j requires 0 <= j < |buf| => Cell(buf, blocks, width, j));
    ScatterFacts(buf, blocks, width, r);
    r
  }

  lemma ScatterFacts(buf: seq<real>, blocks: seq<seq<real>>, width: nat, r: seq<real>)
    requires Uniform(blocks, width) && Span(|blocks|, width) <= |buf|
    requires |r| == |buf| && forall j :: 0 <= j < |buf| ==> r[j] == Cell(buf, blocks, width, j)
    ensures forall i, k :: 0 <= i < |blocks| && 0 <= k < width ==>
              Slot(|blocks|, i, k) < |r| && r[Slot(|blocks|, i, k)] == blocks[i][k]
    ensures forall j :: Span(|blocks|, width) <= j < |buf| ==> r[j] == buf[j]
  {
    var q := |blocks|;
    forall i, k | 0 <= i < q && 0 <= k < width
      ensures Slot(q, i, k) < |r| && r[Slot(q, i, k)] == blocks[i][k]
    {
      SlotBound(q, i, k, width);
      SlotDecompose(q, i, k);
    }
    forall j | Span(q, width) <= j < |buf| ensures r[j] == buf[j] {
      if q > 0 {
        CompBelow(q, j, width);
      }
    }
  }

  /** The offset-wise description determines the result: a buffer that holds every
      block in its slots and is unchanged past the block region IS the scattered one. */
  lemma ScatteredUnique(buf: seq<real>, blocks: seq<seq<real>>, width: nat, r: seq<real>)
    requires Uniform(blocks, width) && Span(|blocks|, width) <= |buf|
    requires |r| == |buf|
    requires forall i, k :: 0 <= i < |blocks| && 0 <= k < width ==>
              Slot(|blocks|, i, k) < |r| && r[Slot(|blocks|, i, k)] == blocks[i][k]
    requires forall j :: Span(|blocks|, width) <= j < |buf| ==> r[j] == buf[j]
    ensures r == Scattered(buf, blocks, width)
  {
    var s := Scattered(buf, blocks, width);
    var q := |blocks|;
    forall j | 0 <= j < |buf| ensures r[j] == s[j] {
      if j < Span(q, width) {
        SpanIsProduct(q, width);
        SlotRecompose(q, j);
        CompBelow(q, j, width);
        assert r[Slot(q, PointOf(q, j), CompOf(q, j))] == blocks[PointOf(q, j)][CompOf(q, j)];
      }
    }
  }

  /** `r` agrees with the reference for the points before `p`, and still holds the
      original contents in every slot not yet written: the state of a builder's loop
      after it has handled points `0 .. p-1`. */
  ghost predicate ScatteredUpTo(r: seq<real>, buf: seq<real>, blocks: seq<seq<real>>, width: nat, p: nat)
    requires Uniform(blocks, width)
  {
    |r| == |buf|
    && (forall i, k :: 0 <= i < p && i < |blocks| && 0 <= k < width && Slot(|blocks|, i, k) < |r| ==>
          r[Slot(|blocks|, i, k)] == blocks[i][k])
    && (forall j :: 0 <= j < |r| && !(|blocks| > 0 && PointOf(|blocks|, j) < p && CompOf(|blocks|, j) < width) ==>
          r[j] == buf[j])
  }

  lemma ScatterStart(buf: seq<real>, blocks: seq<seq<real>>, width: nat)
    requires Uniform(blocks, width)
    ensures ScatteredUpTo(buf, buf, blocks, width, 0)
  {
  }

  /** One loop step: writing point `p`'s block extends the prefix by one point. */
  lemma ScatterStep(r: seq<real>, buf: seq<real>, blocks: seq<seq<real>>, width: nat, p: nat)
    requires Uniform(blocks, width) && Span(|blocks|, width) <= |buf|
    requires p < |blocks| && ScatteredUpTo(r, buf, blocks, width, p)
    ensures ScatteredUpTo(WritePoint(r, |blocks|, p, blocks[p]), buf, blocks, width, p + 1)
  {
    var q := |blocks|;
    var r2 := WritePoint(r, q, p, blocks[p]);
    forall i, k | 0 <= i < p + 1 && i < q && 0 <= k < width && Slot(q, i, k) < |r2|
      ensures r2[Slot(q, i, k)] == blocks[i][k]
    {
      if i < p {
        SlotDecompose(q, i, k);
      }
    }
  }

  /** One loop step when every block is a single component: point `p` writes slot `p`. */
  lemma ScatterStepSingle(r: seq<real>, buf: seq<real>, blocks: seq<seq<real>>, p: nat)
    requires Uniform(blocks, 1) && Span(|blocks|, 1) <= |buf|
    requires p < |blocks| && ScatteredUpTo(r, buf, blocks, 1, p)
    ensures p < |r| && ScatteredUpTo(r[p := blocks[p][0]], buf, blocks, 1, p + 1)
  {
    ScatterStep(r, buf, blocks, 1, p);
    assert Slot(|blocks|, p, 0) == p;
    assert WritePoint(r, |blocks|, p, blocks[p]) == r[p := blocks[p][0]];
  }

  /** With single-component blocks, point `i`'s value sits at offset `i` and the buffer
      past the first `|blocks|` offsets is untouched. */
  lemma ScatteredSingle(buf: seq<real>, blocks: seq<seq<real>>)
    requires Uniform(blocks, 1) && Span(|blocks|, 1) <= |buf|
    ensures forall i :: 0 <= i < |blocks| ==> i < |buf| && Scattered(buf, blocks, 1)[i] == blocks[i][0]
    ensures forall j :: |blocks| <= j < |buf| ==> Scattered(buf, blocks, 1)[j] == buf[j]
  {
    var q := |blocks|;
    assert Span(q, 1) == q;
    forall i | 0 <= i < q ensures i < |buf| && Scattered(buf, blocks, 1)[i] == blocks[i][0] {
      assert Slot(q, i, 0) == i;
    }
  }

  /** The loop's exit state is the reference result. */
  lemma ScatterFinish(r: seq<real>, buf: seq<real>, blocks: seq<seq<real>>, width: nat)
    requires Uniform(blocks, width) && Span(|blocks|, width) <= |buf|
    requires ScatteredUpTo(r, buf, blocks, width, |blocks|)
    ensures r == Scattered(buf, blocks, width)
  {
    var q := |blocks|;
    forall j | Span(q, width) <= j < |buf| ensures r[j] == buf[j] {
      if q > 0 {
        CompBelow(q, j, width);
      }
    }
    forall i, k | 0 <= i < q && 0 <= k < width ensures Slot(q, i, k) < |r| && r[Slot(q, i, k)] == blocks[i][k] {
      SlotBound(q, i, k, width);
    }
    ScatteredUnique(buf, blocks, width, r);
  }

  /** The buffer after the points listed in `order` have written their blocks, in
      that order (a point may be listed more than once). */
  function ApplyInOrder(buf: seq<real>, blocks: seq<seq<real>>, width: nat, order: seq<nat>): (r: seq<real>)
    requires Uniform(blocks, width) && Span(|blocks|, width) <= |buf|
    requires forall t :: 0 <= t < |order| ==> order[t] < |blocks|
    ensures |r| == |buf|
    decreases |order|
  {
    if |order| == 0 then buf
    else
      var last := order[|order| - 1];
      WritePoint(ApplyInOrder(buf, blocks, width, order[..|order| - 1]), |blocks|, last, blocks[last])
  }

  /** Slot-wise content after writing in an arbitrary order: a component slot of a
      listed point holds that point's block value, everything else is untouched. */
  lemma {:induction false} ApplyInOrderSlots(buf: seq<real>, blocks: seq<seq<real>>, width: nat, order: seq<nat>)
    requires Uniform(blocks, width) && Span(|blocks|, width) <= |buf|
    requires forall t :: 0 <= t < |order| ==> order[t] < |blocks|
    ensures forall i, k :: 0 <= i < |blocks| && 0 <= k < width ==>
              Slot(|blocks|, i, k) < |buf| &&
              ApplyInOrder(buf, blocks, width, order)[Slot(|blocks|, i, k)]
              == (if i in order then blocks[i][k] else buf[Slot(|blocks|, i, k)])
    ensures forall j :: Span(|blocks|, width) <= j < |buf| ==> ApplyInOrder(buf, blocks, width, order)[j] == buf[j]
    decreases |order|
  {
    var q := |blocks|;
    forall i, k | 0 <= i < q && 0 <= k < width ensures Slot(q, i, k) < |buf| {
      SlotBound(q, i, k, width);
    }
    if |order| > 0 {
      var init := order[..|order| - 1];
      var last := order[|order| - 1];
      ApplyInOrderSlots(buf, blocks, width, init);
      var prev := ApplyInOrder(buf, blocks, width, init);
      var r := ApplyInOrder(buf, blocks, width, order);
      assert r == WritePoint(prev, q, last, blocks[last]);
      assert order == init + [last];
      forall i, k | 0 <= i < q && 0 <= k < width
        ensures r[Slot(q, i, k)] == (if i in order then blocks[i][k] else buf[Slot(q, i, k)])
      {
        if i != last {
          SlotDecompose(q, i, k);
          assert (i in order) == (i in init);
        }
      }
      forall j | Span(q, width) <= j < |buf| ensures r[j] == buf[j] {
        CompBelow(q, j, width);
      }
    }
  }

  /** Order independence: writing the points of the batch in ANY order that visits
      each of them gives the reference result, so the loop order of a builder is
      irrelevant. */
  lemma OrderIrrelevant(buf: seq<real>, blocks: seq<seq<real>>, width: nat, order: seq<nat>)
    requires Uniform(blocks, width) && Span(|blocks|, width) <= |buf|
    requires forall t :: 0 <= t < |order| ==> order[t] < |blocks|
    requires forall i :: 0 <= i < |blocks| ==> i in order
    ensures ApplyInOrder(buf, blocks, width, order) == Scattered(buf, blocks, width)
  {
    ApplyInOrderSlots(buf, blocks, width, order);
    ScatteredUnique(buf, blocks, width, ApplyInOrder(buf, blocks, width, order));
  }
}
