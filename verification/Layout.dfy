/**
 The layout arithmetic of `BatchDescriptor` (stream_executor/dnn.cc): how the
 dimensions and strides of a batch of feature maps are permuted between data
 layouts, and how a multi-index is mapped to an address.
 */
module Layout {
  import opened Arithmetic
  import opened MachineInts

  datatype DataLayout = YXDepthBatch | YXBatchDepth | BatchYXDepth | BatchDepthYX

  datatype DimIndices = DimIndices(depth: int, batch: int, spatial: int)

  /** Where each layout keeps the depth, the batch and the first spatial entry. */
  function GetDimIndices(layout: DataLayout, dataDims: int): DimIndices {
    match layout
    case YXBatchDepth => DimIndices(dataDims - 1, dataDims - 2, 0)
    case YXDepthBatch => DimIndices(dataDims - 2, dataDims - 1, 0)
    case BatchYXDepth => DimIndices(dataDims - 1, 0, 1)
    case BatchDepthYX => DimIndices(1, 0, 2)
  }

  // --- what a layout means --------------------------------------------------

  /** The vector that layout `layout` lays out for the given entries. */
  function Arrange(layout: DataLayout, batch: int, depth: int, spatial: seq<int>): (v: seq<int>)
    ensures |v| == |spatial| + 2
  {
    match layout
    case YXBatchDepth => spatial + [batch, depth]
    case YXDepthBatch => spatial + [depth, batch]
    case BatchYXDepth => [batch] + spatial + [depth]
    case BatchDepthYX => [batch, depth] + spatial
  }

  /** The order of the entries in each layout: its name from left to right, Y and X standing for space. */
  lemma PlacesOfArranged(batch: int, depth: int, spatial: seq<int>)
    ensures var n, v := |spatial|, Arrange(YXDepthBatch, batch, depth, spatial);
            v[..n] == spatial && v[n] == depth && v[n + 1] == batch
    ensures var n, v := |spatial|, Arrange(YXBatchDepth, batch, depth, spatial);
            v[..n] == spatial && v[n] == batch && v[n + 1] == depth
    ensures var n, v := |spatial|, Arrange(BatchYXDepth, batch, depth, spatial);
            v[0] == batch && v[1..n + 1] == spatial && v[n + 1] == depth
    ensures var v := Arrange(BatchDepthYX, batch, depth, spatial);
            v[0] == batch && v[1] == depth && v[2..] == spatial
  {
  }

  function BatchOf(layout: DataLayout, v: seq<int>): int
    requires |v| >= 2
  {
    v[GetDimIndices(layout, |v|).batch]
  }

  function DepthOf(layout: DataLayout, v: seq<int>): int
    requires |v| >= 2
  {
    v[GetDimIndices(layout, |v|).depth]
  }

  function SpatialOf(layout: DataLayout, v: seq<int>): (s: seq<int>)
    requires |v| >= 2
    ensures |s| == |v| - 2
  {
    var first := GetDimIndices(layout, |v|).spatial;
    v[first..first + |v| - 2]
  }

  /** The vector `v`, read in layout `from`, written in layout `to`. */
  function Reordered(v: seq<int>, from: DataLayout, to: DataLayout): (r: seq<int>)
    requires |v| >= 2
    ensures |r| == |v|
  {
    Arrange(to, BatchOf(from, v), DepthOf(from, v), SpatialOf(from, v))
  }

  /** `GetDimIndices` finds in an arranged vector exactly what was put there. */
  lemma PartsOfArranged(layout: DataLayout, batch: int, depth: int, spatial: seq<int>)
    ensures var v := Arrange(layout, batch, depth, spatial);
            BatchOf(layout, v) == batch && DepthOf(layout, v) == depth && SpatialOf(layout, v) == spatial
  {
    var v := Arrange(layout, batch, depth, spatial);
    assert SpatialOf(layout, v) == spatial;
  }

  /** Every vector of two or more is the arrangement of its parts: reordering to the same layout is the identity. */
  lemma ReorderSame(v: seq<int>, layout: DataLayout)
    requires |v| >= 2
    ensures Reordered(v, layout, layout) == v
  {
    var n := |v|;
    match layout
    case YXBatchDepth => assert v == v[0..n - 2] + [v[n - 2], v[n - 1]];
    case YXDepthBatch => assert v == v[0..n - 2] + [v[n - 2], v[n - 1]];
    case BatchYXDepth => assert v == [v[0]] + v[1..n - 1] + [v[n - 1]];
    case BatchDepthYX => assert v == [v[0], v[1]] + v[2..n];
  }

  /** Reordering moves each part to its place in the target layout. */
  lemma PartsOfReordered(v: seq<int>, from: DataLayout, to: DataLayout)
    requires |v| >= 2
    ensures BatchOf(to, Reordered(v, from, to)) == BatchOf(from, v)
    ensures DepthOf(to, Reordered(v, from, to)) == DepthOf(from, v)
    ensures SpatialOf(to, Reordered(v, from, to)) == SpatialOf(from, v)
  {
    PartsOfArranged(to, BatchOf(from, v), DepthOf(from, v), SpatialOf(from, v));
  }

  /** Reordering is functorial: going through an intermediate layout changes nothing. */
  lemma ReorderCompose(v: seq<int>, a: DataLayout, b: DataLayout, c: DataLayout)
    requires |v| >= 2
    ensures Reordered(Reordered(v, a, b), b, c) == Reordered(v, a, c)
    ensures Reordered(Reordered(v, a, b), b, a) == v
  {
    PartsOfArranged(b, BatchOf(a, v), DepthOf(a, v), SpatialOf(a, v));
    ReorderSame(v, a);
  }

  /** Reordering permutes: no entry is lost or repeated. */
  lemma ReorderPermutes(v: seq<int>, from: DataLayout, to: DataLayout)
    requires |v| >= 2
    ensures multiset(Reordered(v, from, to)) == multiset(v)
  {
    ArrangedMultiset(to, BatchOf(from, v), DepthOf(from, v), SpatialOf(from, v));
    ArrangedMultiset(from, BatchOf(from, v), DepthOf(from, v), SpatialOf(from, v));
    ReorderSame(v, from);
  }

  lemma ArrangedMultiset(layout: DataLayout, batch: int, depth: int, spatial: seq<int>)
    ensures multiset(Arrange(layout, batch, depth, spatial)) == multiset{batch, depth} + multiset(spatial)
  {
  }

  /** The three indices name disjoint places that cover the whole vector. */
  lemma DimIndicesInRange(layout: DataLayout, n: int)
    requires n >= 2
    ensures var d := GetDimIndices(layout, n);
            && 0 <= d.batch < n && 0 <= d.depth < n && 0 <= d.spatial <= 2 && d.batch != d.depth
            && !(d.spatial <= d.batch < d.spatial + n - 2) && !(d.spatial <= d.depth < d.spatial + n - 2)
  {
  }

  /** A vector is determined by its parts. */
  lemma ArrangedFromParts(v: seq<int>, layout: DataLayout, batch: int, depth: int, spatial: seq<int>)
    requires |v| >= 2 && BatchOf(layout, v) == batch && DepthOf(layout, v) == depth && SpatialOf(layout, v) == spatial
    ensures v == Arrange(layout, batch, depth, spatial)
  {
    ReorderSame(v, layout);
  }

  /** `ReorderDims`: fills a fresh vector entry by entry, the spatial entries in a loop over two running indices. */
  method ReorderDims(input: seq<int>, from: DataLayout, to: DataLayout) returns (reordered: seq<int>)
    requires |input| >= 2
    ensures reordered == Reordered(input, from, to)
  {
    ReorderSame(input, from);
    if from == to {
      return input;
    }
    var n := |input|;
    var fromIdx, toIdx := GetDimIndices(from, n), GetDimIndices(to, n);
    DimIndicesInRange(from, n);
    DimIndicesInRange(to, n);
    reordered := CopyParts(input, fromIdx, toIdx);
    ArrangedFromParts(reordered, to, BatchOf(from, input), DepthOf(from, input), SpatialOf(from, input));
  }

  /** The copying part of `ReorderDims`, for any two sets of disjoint indices. */
  method CopyParts(input: seq<int>, from: DimIndices, to: DimIndices) returns (reordered: seq<int>)
    requires |input| >= 2
    requires 0 <= from.batch < |input| && 0 <= from.depth < |input| && 0 <= from.spatial <= 2
    requires 0 <= to.batch < |input| && 0 <= to.depth < |input| && 0 <= to.spatial <= 2 && to.batch != to.depth
    requires !(to.spatial <= to.batch < to.spatial + |input| - 2)
    requires !(to.spatial <= to.depth < to.spatial + |input| - 2)
    ensures |reordered| == |input|
    ensures reordered[to.batch] == input[from.batch] && reordered[to.depth] == input[from.depth]
    ensures reordered[to.spatial..to.spatial + |input| - 2] == input[from.spatial..from.spatial + |input| - 2]
  {
    var spatialFrom, spatialTo := from.spatial, to.spatial;
    var out := new int[|input|];
    out[to.batch] := input[from.batch];
    out[to.depth] := input[from.depth];
    for i := 0 to |input| - 2
      invariant spatialFrom == from.spatial + i && spatialTo == to.spatial + i
      invariant out[to.batch] == input[from.batch] && out[to.depth] == input[from.depth]
      invariant forall j :: to.spatial <= j < spatialTo ==> out[j] == input[j - to.spatial + from.spatial]
    {
      out[spatialTo] := input[spatialFrom];
      spatialFrom, spatialTo := spatialFrom + 1, spatialTo + 1;
    }
    reordered := out[..];
    SameRun(input, from.spatial, reordered, to.spatial, |input| - 2);
  }

  lemma SameRun(x: seq<int>, i: nat, y: seq<int>, j: nat, n: nat)
    requires i + n <= |x| && j + n <= |y|
    requires forall k :: j <= k < j + n ==> y[k] == x[k - j + i]
    ensures y[j..j + n] == x[i..i + n]
  {
  }

  // --- products and dot products --------------------------------------------

  function Dot(xs: seq<int>, ys: seq<int>): int
    requires |xs| == |ys|
  {
    if xs == [] then 0 else xs[0] * ys[0] + Dot(xs[1..], ys[1..])
  }

  lemma {:induction false} ProductConcat(xs: seq<int>, ys: seq<int>)
    ensures Product(xs + ys) == Product(xs) * Product(ys)
  {
    if xs == [] {
      assert xs + ys == ys;
    } else {
      ProductConcat(xs[1..], ys);
      assert (xs + ys)[1..] == xs[1..] + ys;
      assert xs[0] * (Product(xs[1..]) * Product(ys)) == (xs[0] * Product(xs[1..])) * Product(ys);
    }
  }

  lemma {:induction false} DotConcat(xs: seq<int>, ys: seq<int>, us: seq<int>, vs: seq<int>)
    requires |xs| == |us| && |ys| == |vs|
    ensures Dot(xs + ys, us + vs) == Dot(xs, us) + Dot(ys, vs)
  {
    if xs == [] {
      assert xs + ys == ys && us + vs == vs;
    } else {
      DotConcat(xs[1..], ys, us[1..], vs);
      assert (xs + ys)[1..] == xs[1..] + ys && (us + vs)[1..] == us[1..] + vs;
    }
  }

  lemma ProductPair(x: int, y: int)
    ensures Product([x]) == x && Product([x, y]) == x * y
  {
    assert [x][1..] == [] && [x, y][1..] == [y] && [y][1..] == [];
  }

  lemma DotPair(x: int, y: int, u: int, v: int)
    ensures Dot([x], [u]) == x * u && Dot([x, y], [u, v]) == x * u + y * v
  {
    assert [x, y][1..] == [y] && [u, v][1..] == [v];
    assert Dot([], []) == 0;
    assert [y][1..] == [] && [v][1..] == [] && Dot([y], [v]) == y * v;
  }

  lemma ArrangedProduct(layout: DataLayout, batch: int, depth: int, spatial: seq<int>)
    ensures Product(Arrange(layout, batch, depth, spatial)) == batch * depth * Product(spatial)
  {
    var p := Product(spatial);
    ProductPair(batch, depth);
    ProductPair(depth, batch);
    match layout
    case YXBatchDepth =>
      ProductConcat(spatial, [batch, depth]);
    case YXDepthBatch =>
      ProductConcat(spatial, [depth, batch]);
      assert p * (depth * batch) == batch * depth * p;
    case BatchYXDepth =>
      ProductConcat([batch], spatial);
      ProductConcat([batch] + spatial, [depth]);
      assert batch * p * depth == batch * depth * p;
    case BatchDepthYX =>
      ProductConcat([batch, depth], spatial);
  }

  lemma ArrangedDot(layout: DataLayout, b: int, d: int, s: seq<int>, b': int, d': int, s': seq<int>)
    requires |s| == |s'|
    ensures Dot(Arrange(layout, b, d, s), Arrange(layout, b', d', s')) == b * b' + d * d' + Dot(s, s')
  {
    DotPair(b, d, b', d');
    DotPair(d, b, d', b');
    match layout
    case YXBatchDepth => DotConcat(s, [b, d], s', [b', d']);
    case YXDepthBatch => DotConcat(s, [d, b], s', [d', b']);
    case BatchYXDepth =>
      DotConcat([b], s, [b'], s');
      DotConcat([b] + s, [d], [b'] + s', [d']);
    case BatchDepthYX => DotConcat([b, d], s, [b', d'], s');
  }

  /** Reordering both operands of a dot product, or a vector of factors, changes neither result. */
  lemma ReorderKeeps(x: seq<int>, y: seq<int>, from: DataLayout, to: DataLayout)
    requires |x| == |y| >= 2
    ensures Dot(Reordered(x, from, to), Reordered(y, from, to)) == Dot(x, y)
    ensures Product(Reordered(x, from, to)) == Product(x)
  {
    ReorderSame(x, from);
    ReorderSame(y, from);
    var b, d, s := BatchOf(from, x), DepthOf(from, x), SpatialOf(from, x);
    var b', d', s' := BatchOf(from, y), DepthOf(from, y), SpatialOf(from, y);
    ArrangedDot(from, b, d, s, b', d', s');
    ArrangedDot(to, b, d, s, b', d', s');
    ArrangedProduct(from, b, d, s);
    ArrangedProduct(to, b, d, s);
  }

  // --- mixed-radix addresses ------------------------------------------------

  ghost predicate InBounds(ix: seq<int>, ds: seq<int>) {
    |ix| == |ds| && forall i :: 0 <= i < |ds| ==> 0 <= ix[i] < ds[i]
  }

  /** The strides of a dense array: entry `i` is the product of the dimensions after `i`. */
  function DenseStrides(ds: seq<int>): (r: seq<int>)
    ensures |r| == |ds|
  {
    if ds == [] then [] else [Product(ds[1..])] + DenseStrides(ds[1..])
  }

  lemma {:induction false} DenseStrideAt(ds: seq<int>, i: nat)
    requires i < |ds|
    ensures DenseStrides(ds)[i] == Product(ds[i + 1..])
  {
    if i > 0 {
      DenseStrideAt(ds[1..], i - 1);
      assert ds[1..][i..] == ds[i + 1..];
    }
  }

  lemma DotStrides(ix: seq<int>, ds: seq<int>)
    requires |ix| == |ds| > 0
    ensures Dot(ix, DenseStrides(ds)) == ix[0] * Product(ds[1..]) + Dot(ix[1..], DenseStrides(ds[1..]))
  {
    assert DenseStrides(ds)[1..] == DenseStrides(ds[1..]);
  }

  /** The multi-index that a dense array of dimensions `ds` stores at address `a`. */
  function Unravel(ds: seq<int>, a: int): (ix: seq<int>)
    ensures |ix| == |ds|
  {
    if ds == [] then []
    else
      var p := Product(ds[1..]);
      if p == 0 then [0] + Unravel(ds[1..], a) else [a / p] + Unravel(ds[1..], a % p)
  }

  /** From an index to its address and back. */
  lemma {:induction false} UnravelOfAddress(ds: seq<int>, ix: seq<int>)
    requires NonNegative(ds) && InBounds(ix, ds)
    ensures 0 <= Dot(ix, DenseStrides(ds)) < Product(ds)
    ensures Unravel(ds, Dot(ix, DenseStrides(ds))) == ix
  {
    if ds != [] {
      var p, rest := Product(ds[1..]), Dot(ix[1..], DenseStrides(ds[1..]));
      UnravelOfAddress(ds[1..], ix[1..]);
      DotStrides(ix, ds);
      QuotientRemainder(ix[0], rest, p, ds[0]);
    }
  }

  lemma QuotientRemainder(q: int, r: int, p: int, n: int)
    requires 0 <= r < p && 0 <= q < n
    ensures (q * p + r) / p == q && (q * p + r) % p == r
    ensures 0 <= q * p + r < n * p
  {
    var a := q * p + r;
    DivisionUnique(q, r, p, a / p, a % p);
    MulMonotone(q + 1, n, p);
    MulMonotone(0, q, p);
  }

  lemma DivisionUnique(q: int, r: int, p: int, q': int, r': int)
    requires 0 <= r < p && 0 <= r' < p && q * p + r == q' * p + r'
    ensures q == q' && r == r'
  {
    if q < q' {
      MulMonotone(q + 1, q', p);
    } else if q' < q {
      MulMonotone(q' + 1, q, p);
    }
  }

  /** From an address to its index and back. */
  lemma {:induction false} AddressOfUnravel(ds: seq<int>, a: int)
    requires NonNegative(ds) && 0 <= a < Product(ds)
    ensures InBounds(Unravel(ds, a), ds)
    ensures Dot(Unravel(ds, a), DenseStrides(ds)) == a
  {
    if ds != [] {
      var p, ix := Product(ds[1..]), Unravel(ds, a);
      ProductSign(ds[1..]);
      QuotientBelow(a, p, ds[0]);
      AddressOfUnravel(ds[1..], a % p);
      assert ix[1..] == Unravel(ds[1..], a % p);
      DotStrides(ix, ds);
      InBoundsCons(ix, ds);
    }
  }

  lemma InBoundsCons(ix: seq<int>, ds: seq<int>)
    requires |ix| == |ds| > 0 && 0 <= ix[0] < ds[0] && InBounds(ix[1..], ds[1..])
    ensures InBounds(ix, ds)
  {
    forall i | 1 <= i < |ds| ensures 0 <= ix[i] < ds[i] {
      assert ix[i] == ix[1..][i - 1] && ds[i] == ds[1..][i - 1];
    }
  }

  lemma QuotientBelow(a: int, p: int, n: int)
    requires 0 <= p && 0 <= a < n * p
    ensures 0 < p && 0 <= a / p < n && 0 <= a % p < p && (a / p) * p + a % p == a
  {
    assert p == 0 ==> n * p == 0;
    assert (a / p) * p <= a;
    if a / p >= n {
      MulMonotone(n, a / p, p);
    }
  }

  /** No stride exceeds the number of elements, so the strides fit wherever that number does. */
  lemma {:induction false} DenseStrideBound(ds: seq<int>, i: nat)
    requires i < |ds| && forall j :: 0 <= j < |ds| ==> 0 < ds[j]
    ensures 0 < DenseStrides(ds)[i] <= Product(ds)
  {
    ProductSign(ds[1..]);
    var p := Product(ds[1..]);
    assert p <= ds[0] * p;
    if i > 0 {
      DenseStrideBound(ds[1..], i - 1);
    }
  }

  // --- the descriptor -------------------------------------------------------

  /** The value held by a `BatchDescriptor`; its value range and quantization mode play no part in the arithmetic. */
  datatype Batch = Batch(count: int, featureMapCount: int, spatial: seq<int>, layout: DataLayout) {

    function FullDims(target: DataLayout): (d: seq<int>) {
      Reordered([count, featureMapCount] + spatial, BatchDepthYX, target)
    }

    function FullStrides(target: DataLayout): (s: seq<int>) {
      Reordered(DenseStrides(FullDims(layout)), layout, target)
    }

    function ElementCount(): int {
      count * featureMapCount * Product(spatial)
    }

    /** Where the element with multi-index `ix`, given in layout `target`, is kept. */
    function Address(target: DataLayout, ix: seq<int>): int
      requires |ix| == |spatial| + 2
    {
      Dot(ix, FullStrides(target))
    }

    /** The multi-index, in layout `target`, of the element kept at address `a`. */
    function Locate(target: DataLayout, a: int): (ix: seq<int>) {
      Reordered(Unravel(FullDims(layout), a), layout, target)
    }
  }

  /** The dimensions read in any layout are the descriptor's own, arranged for that layout. */
  lemma FullDimsArranged(b: Batch, target: DataLayout)
    ensures b.FullDims(target) == Arrange(target, b.count, b.featureMapCount, b.spatial)
    ensures Product(b.FullDims(target)) == b.ElementCount()
  {
    PartsOfArranged(BatchDepthYX, b.count, b.featureMapCount, b.spatial);
    ArrangedProduct(target, b.count, b.featureMapCount, b.spatial);
  }

  /** In the stored layout the stride of a dimension is the product of the dimensions stored after it. */
  lemma StoredStrideAt(b: Batch, i: nat)
    requires i < |b.spatial| + 2
    ensures b.FullStrides(b.layout)[i] ==
            Product(Arrange(b.layout, b.count, b.featureMapCount, b.spatial)[i + 1..])
    ensures b.ElementCount() == b.count * b.featureMapCount * Product(b.spatial)
  {
    FullDimsArranged(b, b.layout);
    ReorderSame(DenseStrides(b.FullDims(b.layout)), b.layout);
    DenseStrideAt(b.FullDims(b.layout), i);
  }

  /** One element has one address, in whichever layout its index and the strides are written. */
  lemma AddressLayoutIndependent(b: Batch, a: DataLayout, c: DataLayout, ix: seq<int>)
    requires |ix| == |b.spatial| + 2
    ensures b.Address(c, Reordered(ix, a, c)) == b.Address(a, ix)
  {
    var strides := DenseStrides(b.FullDims(b.layout));
    ReorderCompose(strides, b.layout, a, c);
    ReorderKeeps(ix, b.FullStrides(a), a, c);
  }

  lemma InBoundsReordered(ix: seq<int>, ds: seq<int>, from: DataLayout, to: DataLayout)
    requires |ix| == |ds| >= 2 && InBounds(ix, ds)
    ensures InBounds(Reordered(ix, from, to), Reordered(ds, from, to))
  {
    var x, d := Reordered(ix, from, to), Reordered(ds, from, to);
    forall i | 0 <= i < |ds| ensures 0 <= x[i] < d[i] {
      var j := ReorderSource(ix, ds, from, to, i);
    }
  }

  /** Entry `i` of two reordered vectors comes from one entry of the originals. */
  lemma ReorderSource(x: seq<int>, y: seq<int>, from: DataLayout, to: DataLayout, i: nat) returns (j: nat)
    requires |x| == |y| >= 2 && i < |x|
    ensures j < |x| && Reordered(x, from, to)[i] == x[j] && Reordered(y, from, to)[i] == y[j]
  {
    var f, t := GetDimIndices(from, |x|), GetDimIndices(to, |x|);
    DimIndicesInRange(from, |x|);
    ArrangedAt(to, BatchOf(from, x), DepthOf(from, x), SpatialOf(from, x), i);
    ArrangedAt(to, BatchOf(from, y), DepthOf(from, y), SpatialOf(from, y), i);
    j := if i == t.batch then f.batch else if i == t.depth then f.depth else f.spatial + (i - t.spatial);
  }

  lemma ArrangedAt(layout: DataLayout, batch: int, depth: int, spatial: seq<int>, i: nat)
    requires i < |spatial| + 2
    ensures var t := GetDimIndices(layout, |spatial| + 2);
            i != t.batch && i != t.depth ==> 0 <= i - t.spatial < |spatial|
    ensures var t := GetDimIndices(layout, |spatial| + 2);
            Arrange(layout, batch, depth, spatial)[i] ==
              if i == t.batch then batch else if i == t.depth then depth else spatial[i - t.spatial]
  {
  }

  /**
   The address map of any layout is a bijection from the in-bounds multi-indices
   onto [0, ElementCount()): `Locate` is its two-sided inverse. A dimension may
   be zero; both sides are then empty.
   */
  lemma AddressBijection(b: Batch, target: DataLayout, ix: seq<int>, a: int)
    requires b.count >= 0 && b.featureMapCount >= 0 && NonNegative(b.spatial)
    requires |ix| == |b.spatial| + 2
    ensures InBounds(ix, b.FullDims(target)) ==>
              0 <= b.Address(target, ix) < b.ElementCount() && b.Locate(target, b.Address(target, ix)) == ix
    ensures 0 <= a < b.ElementCount() ==>
              InBounds(b.Locate(target, a), b.FullDims(target)) && b.Address(target, b.Locate(target, a)) == a
  {
    if InBounds(ix, b.FullDims(target)) {
      LocateOfAddress(b, target, ix);
    }
    if 0 <= a < b.ElementCount() {
      AddressOfLocate(b, target, a);
    }
  }

  /** The dimensions in the stored layout, what they multiply to, and how the target's dimensions come from them. */
  lemma StoredDims(b: Batch, target: DataLayout)
    requires b.count >= 0 && b.featureMapCount >= 0 && NonNegative(b.spatial)
    ensures NonNegative(b.FullDims(b.layout)) && Product(b.FullDims(b.layout)) == b.ElementCount()
    ensures b.FullDims(target) == Reordered(b.FullDims(b.layout), b.layout, target)
    ensures b.FullStrides(b.layout) == DenseStrides(b.FullDims(b.layout))
  {
    FullDimsArranged(b, b.layout);
    FullDimsArranged(b, target);
    PartsOfArranged(b.layout, b.count, b.featureMapCount, b.spatial);
    ReorderSame(DenseStrides(b.FullDims(b.layout)), b.layout);
  }

  lemma LocateOfAddress(b: Batch, target: DataLayout, ix: seq<int>)
    requires b.count >= 0 && b.featureMapCount >= 0 && NonNegative(b.spatial)
    requires InBounds(ix, b.FullDims(target))
    ensures 0 <= b.Address(target, ix) < b.ElementCount() && b.Locate(target, b.Address(target, ix)) == ix
  {
    var ds, phys := b.FullDims(b.layout), Reordered(ix, target, b.layout);
    StoredDims(b, target);
    ReorderCompose(ds, b.layout, target, b.layout);
    InBoundsReordered(ix, b.FullDims(target), target, b.layout);
    UnravelOfAddress(ds, phys);
    AddressLayoutIndependent(b, target, b.layout, ix);
    ReorderCompose(ix, target, b.layout, target);
  }

  lemma AddressOfLocate(b: Batch, target: DataLayout, a: int)
    requires b.count >= 0 && b.featureMapCount >= 0 && NonNegative(b.spatial)
    requires 0 <= a < b.ElementCount()
    ensures InBounds(b.Locate(target, a), b.FullDims(target)) && b.Address(target, b.Locate(target, a)) == a
  {
    var ds := b.FullDims(b.layout);
    StoredDims(b, target);
    AddressOfUnravel(ds, a);
    InBoundsReordered(Unravel(ds, a), ds, b.layout, target);
    AddressLayoutIndependent(b, b.layout, target, Unravel(ds, a));
  }

  /** With all dimensions positive, no stride exceeds the element count: 64 bits suffice for all when they do for it. */
  lemma StridesFit(b: Batch, target: DataLayout, i: nat)
    requires b.count > 0 && b.featureMapCount > 0 && forall j :: 0 <= j < |b.spatial| ==> 0 < b.spatial[j]
    requires i < |b.spatial| + 2
    ensures 0 < b.FullStrides(target)[i] <= b.ElementCount()
  {
    var ds := b.FullDims(b.layout);
    FullDimsArranged(b, b.layout);
    forall k: nat | k < |ds| ensures 0 < DenseStrides(ds)[k] <= b.ElementCount() {
      DenseStrideBound(ds, k);
    }
    var j := ReorderSource(DenseStrides(ds), DenseStrides(ds), b.layout, target, i);
  }

  // --- depth concatenation --------------------------------------------------

  function SumFeatureMaps(bs: seq<Batch>): int {
    if bs == [] then 0 else SumFeatureMaps(bs[..|bs| - 1]) + bs[|bs| - 1].featureMapCount
  }

  function SumElements(bs: seq<Batch>): int {
    if bs == [] then 0 else SumElements(bs[..|bs| - 1]) + bs[|bs| - 1].ElementCount()
  }

  /** The sums, one descriptor more. */
  lemma SumsOneMore(bs: seq<Batch>, b: Batch)
    ensures SumFeatureMaps([]) == 0 && SumFeatureMaps(bs + [b]) == SumFeatureMaps(bs) + b.featureMapCount
    ensures SumElements([]) == 0 && SumElements(bs + [b]) == SumElements(bs) + b.ElementCount()
  {
    assert (bs + [b])[..|bs|] == bs;
  }

  /** The descriptor of the concatenation. The running sum of the code is a 32-bit `int`. */
  function Concatenated(bs: seq<Batch>): Batch {
    if bs == [] then Batch(0, 0, [0, 0], YXDepthBatch)
    else bs[0].(featureMapCount := ToInt32(SumFeatureMaps(bs)))
  }

  ghost predicate SameButDepth(bs: seq<Batch>) {
    forall i :: 0 <= i < |bs| ==> bs[i].count == bs[0].count && bs[i].spatial == bs[0].spatial
  }

  lemma {:induction false} SumElementsFactor(bs: seq<Batch>, count: int, spatial: seq<int>)
    requires forall i :: 0 <= i < |bs| ==> bs[i].count == count && bs[i].spatial == spatial
    ensures SumElements(bs) == count * SumFeatureMaps(bs) * Product(spatial)
  {
    if bs != [] {
      var n := |bs| - 1;
      SumElementsFactor(bs[..n], count, spatial);
      var s, m, p := SumFeatureMaps(bs[..n]), bs[n].featureMapCount, Product(spatial);
      assert count * s * p + count * m * p == count * (s + m) * p;
    }
  }

  /**
   Concatenation conserves elements exactly when the total number of feature
   maps is a 32-bit `int` (or a single feature map of the batch is empty).
   */
  lemma ConcatConservesIff(bs: seq<Batch>)
    requires SameButDepth(bs)
    ensures Concatenated(bs).ElementCount() == SumElements(bs) <==>
            bs == [] || IsInt32(SumFeatureMaps(bs)) || bs[0].count * Product(bs[0].spatial) == 0
  {
    if bs == [] {
      assert Product([0, 0]) == 0 by { ProductPair(0, 0); }
    } else {
      var c, p, s := bs[0].count, Product(bs[0].spatial), SumFeatureMaps(bs);
      SumElementsFactor(bs, c, bs[0].spatial);
      var w := ToInt32(s);
      ScaledEqualIff(c, p, s, w);
    }
  }

  lemma ScaledEqualIff(c: int, p: int, s: int, w: int)
    ensures c * w * p == c * s * p <==> s == w || c * p == 0
  {
    var k := c * p;
    assert c * w * p == k * w && c * s * p == k * s;
    assert k * s - k * w == k * (s - w);
  }

  /** Two inputs of 2^30 feature maps each are concatenated to a descriptor with a negative element count. */
  lemma ConcatLosesElements()
    ensures var b := Batch(1, 0x4000_0000, [1, 1], BatchDepthYX);
            SameButDepth([b, b]) && Concatenated([b, b]).ElementCount() == -0x8000_0000 != SumElements([b, b])
  {
    var b := Batch(1, 0x4000_0000, [1, 1], BatchDepthYX);
    assert [b, b][..1] == [b] && [b][..0] == [];
    ProductPair(1, 1);
    assert b.ElementCount() == 0x4000_0000;
    assert SumFeatureMaps([]) == 0 && SumFeatureMaps([b]) == 0x4000_0000;
    assert SumElements([]) == 0 && SumElements([b]) == 0x4000_0000;
    assert SumFeatureMaps([b, b]) == 0x8000_0000;
    assert SumElements([b, b]) == 0x8000_0000;
  }

  /** A mutable batch descriptor, as the code keeps it: `ndims` entries in `spatialSize`. */
  class BatchDescriptor {
    var count: int
    var featureMapCount: int
    var spatialSize: seq<int>
    var layout: DataLayout
    var ndims: nat

    ghost predicate Valid()
      reads this
    {
      |spatialSize| == ndims
    }

    ghost function Value(): Batch
      reads this
    {
      Batch(count, featureMapCount, spatialSize, layout)
    }

    constructor (ndims: nat := 2)
      ensures Valid() && Value() == Batch(0, 0, seq(ndims, _ => 0), YXDepthBatch)
    {
      count, featureMapCount, spatialSize := 0, 0, seq(ndims, _ => 0);
      layout, this.ndims := YXDepthBatch, ndims;
    }

    method CloneFrom(other: BatchDescriptor)
      requires other.Valid()
      modifies this
      ensures Valid() && Value() == old(other.Value())
    {
      count, featureMapCount, spatialSize := other.count, other.featureMapCount, other.spatialSize;
      layout, ndims := other.layout, other.ndims;
    }

    method SetFeatureMapCount(value: int)
      requires Valid()
      modifies this`featureMapCount
      ensures Value() == old(Value()).(featureMapCount := value)
    {
      featureMapCount := value;
    }

    method FullDims(target: DataLayout) returns (dims: seq<int>)
      requires Valid()
      ensures dims == Value().FullDims(target)
    {
      var bdyx := new int[ndims + 2];
      bdyx[0], bdyx[1] := count, featureMapCount;
      for i := 0 to ndims
        invariant bdyx[0] == count && bdyx[1] == featureMapCount
        invariant bdyx[2..2 + i] == spatialSize[..i]
      {
        bdyx[2 + i] := spatialSize[i];
      }
      assert bdyx[..] == [count, featureMapCount] + spatialSize;
      dims := ReorderDims(bdyx[..], BatchDepthYX, target);
    }

    method FullStrides(target: DataLayout) returns (strides: seq<int>)
      requires Valid()
      ensures strides == Value().FullStrides(target)
    {
      var dims := FullDims(layout);
      var phys := PhysicalStrides(dims);
      strides := ReorderDims(phys, layout, target);
    }

    /** The loop of `full_strides`, from the last dimension to the first. */
    static method PhysicalStrides(dims: seq<int>) returns (strides: seq<int>)
      requires |dims| >= 2
      ensures strides == DenseStrides(dims)
    {
      var last := |dims| - 1;
      var phys := new int[|dims|];
      phys[last] := 1;
      for i := last downto 0
        invariant forall k :: i <= k <= last ==> phys[k] == Product(dims[k + 1..])
      {
        ProductFrom(dims, i + 1);
        phys[i] := phys[i + 1] * dims[i + 1];
      }
      strides := phys[..];
      forall k: nat | k <= last ensures strides[k] == DenseStrides(dims)[k] {
        DenseStrideAt(dims, k);
      }
    }

    method NodesPerFeatureMap() returns (nodes: int)
      requires Valid()
      ensures nodes == Product(spatialSize)
    {
      nodes := 1;
      for i := 0 to ndims
        invariant nodes == Product(spatialSize[..i])
      {
        assert spatialSize[..i + 1] == spatialSize[..i] + [spatialSize[i]];
        ProductConcat(spatialSize[..i], [spatialSize[i]]);
        ProductPair(spatialSize[i], 0);
        nodes := nodes * spatialSize[i];
      }
      assert spatialSize[..ndims] == spatialSize;
    }

    method ElementCount() returns (n: int)
      requires Valid()
      ensures n == Value().ElementCount()
      ensures n == Product(Value().FullDims(layout))
    {
      var nodes := NodesPerFeatureMap();
      FullDimsArranged(Value(), layout);
      n := count * featureMapCount * nodes;
    }

    static method DepthConcatenateOutputDescriptor(inputs: seq<BatchDescriptor>) returns (output: BatchDescriptor)
      requires forall i :: 0 <= i < |inputs| ==> inputs[i].Valid()
      ensures fresh(output) && output.Valid()
      ensures output.Value() == Concatenated(old(Values(inputs)))
      ensures inputs == [] ==>
                output.count == output.featureMapCount == 0 && output.spatialSize == [0, 0]
                && output.layout == YXDepthBatch && output.ndims == 2
      ensures inputs != [] ==>
                && output.count == inputs[0].count && output.spatialSize == inputs[0].spatialSize
                && output.layout == inputs[0].layout && output.ndims == inputs[0].ndims
                && output.featureMapCount == ToInt32(SumFeatureMaps(old(Values(inputs))))
    {
      if inputs == [] {
        output := new BatchDescriptor();
        return;
      }
      ghost var values := Values(inputs);
      var featureMapCount := AddFeatureMaps(inputs, values);
      assert inputs[0].Value() == values[0];
      output := new BatchDescriptor();
      output.CloneFrom(inputs[0]);
      output.SetFeatureMapCount(featureMapCount);
    }

    /** The loop that adds up the feature maps in a 32-bit `int`. */
    static method AddFeatureMaps(inputs: seq<BatchDescriptor>, ghost values: seq<Batch>) returns (sum: int)
      requires |values| == |inputs|
      requires forall i :: 0 <= i < |inputs| ==> inputs[i].featureMapCount == values[i].featureMapCount
      ensures sum == ToInt32(SumFeatureMaps(values))
    {
      sum := 0;
      for i := 0 to |inputs|
        invariant sum == ToInt32(SumFeatureMaps(values[..i]))
      {
        assert values[..i + 1][..i] == values[..i];
        ToInt32Add(SumFeatureMaps(values[..i]), values[i].featureMapCount);
        sum := ToInt32(sum + inputs[i].featureMapCount);
      }
      assert values[..|inputs|] == values;
    }
  }

  ghost function Values(ds: seq<BatchDescriptor>): (r: seq<Batch>)
    reads set i | 0 <= i < |ds| :: ds[i]
    ensures |r| == |ds| && forall i :: 0 <= i < |ds| ==> r[i] == ds[i].Value()
  {
    if ds == [] then [] else [ds[0].Value()] + Values(ds[1..])
  }
}
