/** Dimensions and strides of a batch of feature maps under the four data layouts
    (tensorflow/stream_executor/dnn.cc). */
module Layout {
  import opened Arith

  datatype DataLayout = YXDepthBatch | YXBatchDepth | BatchYXDepth | BatchDepthYX

  datatype DimIndices = DimIndices(depth: int, batch: int, spatial: int)

  /** Where a vector of dataDims entries keeps depth, batch and the first spatial entry. */
  function GetDimIndices(layout: DataLayout, dataDims: int): DimIndices {
    match layout
    case YXBatchDepth => DimIndices(dataDims - 1, dataDims - 2, 0)
    case YXDepthBatch => DimIndices(dataDims - 2, dataDims - 1, 0)
    case BatchYXDepth => DimIndices(dataDims - 1, 0, 1)
    case BatchDepthYX => DimIndices(1, 0, 2)
  }

  // ---- Layouts as arrangements of batch, depth and the spatial block ----

  datatype Parts = Parts(batch: int, depth: int, spatial: seq<int>)

  /** The vector that layout l spells for the given parts. */
  function Arrange(l: DataLayout, p: Parts): (v: seq<int>)
    ensures |v| == |p.spatial| + 2
  {
    match l
    case YXDepthBatch => p.spatial + [p.depth, p.batch]
    case YXBatchDepth => p.spatial + [p.batch, p.depth]
    case BatchYXDepth => [p.batch] + p.spatial + [p.depth]
    case BatchDepthYX => [p.batch, p.depth] + p.spatial
  }

  function Split(l: DataLayout, v: seq<int>): (p: Parts)
    requires 2 <= |v|
    ensures |p.spatial| == |v| - 2
  {
    var n := |v|;
    match l
    case YXDepthBatch => Parts(v[n - 1], v[n - 2], v[..n - 2])
    case YXBatchDepth => Parts(v[n - 2], v[n - 1], v[..n - 2])
    case BatchYXDepth => Parts(v[0], v[n - 1], v[1..n - 1])
    case BatchDepthYX => Parts(v[0], v[1], v[2..])
  }

  function Reordered(v: seq<int>, from: DataLayout, to: DataLayout): (r: seq<int>)
    requires 2 <= |v|
    ensures |r| == |v|
  {
    Arrange(to, Split(from, v))
  }

  lemma SplitArrange(l: DataLayout, p: Parts)
    ensures Split(l, Arrange(l, p)) == p
  {
    var v := Arrange(l, p);
    assert Split(l, v).spatial == p.spatial;
  }

  lemma ArrangeSplit(l: DataLayout, v: seq<int>)
    requires 2 <= |v|
    ensures Arrange(l, Split(l, v)) == v
  {
    assert forall k :: 0 <= k < |v| ==> Arrange(l, Split(l, v))[k] == v[k];
  }

  /** Going through a middle layout changes nothing, and going back undoes a reordering. */
  lemma ReorderComposes(v: seq<int>, a: DataLayout, b: DataLayout, c: DataLayout)
    requires 2 <= |v|
    ensures Reordered(Reordered(v, a, b), b, c) == Reordered(v, a, c)
    ensures Reordered(Reordered(v, a, b), b, a) == v
  {
    SplitArrange(b, Split(a, v));
    ArrangeSplit(a, v);
  }

  /** A reordering moves entries around; it neither drops nor repeats any. */
  lemma ReorderPermutes(v: seq<int>, from: DataLayout, to: DataLayout)
    requires 2 <= |v|
    ensures multiset(Reordered(v, from, to)) == multiset(v)
  {
    var p := Split(from, v);
    ArrangeSplit(from, v);
    ArrangeEntries(from, p);
    ArrangeEntries(to, p);
  }

  lemma ArrangeEntries(l: DataLayout, p: Parts)
    ensures multiset(Arrange(l, p)) == multiset(p.spatial) + multiset{p.batch, p.depth}
  {
  }

  /** Reorders in place in a fresh vector: batch and depth are copied to their new slots, the
      spatial entries by a loop with two moving indices. */
  method ReorderDims(input: seq<int>, from: DataLayout, to: DataLayout) returns (result: seq<int>)
    requires from == to || 2 <= |input|
    ensures from == to ==> result == input
    ensures 2 <= |input| ==> result == Reordered(input, from, to)
  {
    if from == to {
      if 2 <= |input| {
        ArrangeSplit(from, input);
      }
      return input;
    }
    var f, t := GetDimIndices(from, |input|), GetDimIndices(to, |input|);
    ghost var p := Split(from, input);
    var reordered := new int[|input|];
    reordered[t.batch] := input[f.batch];
    reordered[t.depth] := input[f.depth];
    var spatialFrom, spatialTo := f.spatial, t.spatial;
    for i := 0 to |input| - 2
      invariant spatialFrom == f.spatial + i && spatialTo == t.spatial + i
      invariant reordered[t.batch] == p.batch && reordered[t.depth] == p.depth
      invariant forall k :: 0 <= k < i ==> reordered[t.spatial + k] == p.spatial[k]
    {
      reordered[spatialTo] := input[spatialFrom];
      spatialFrom, spatialTo := spatialFrom + 1, spatialTo + 1;
    }
    result := reordered[..];
    ArrangedAt(to, p, result);
  }

  /** Filling every slot that GetDimIndices names spells the arrangement. */
  lemma ArrangedAt(l: DataLayout, p: Parts, v: seq<int>)
    requires |v| == |p.spatial| + 2
    requires var t := GetDimIndices(l, |v|);
      && v[t.batch] == p.batch && v[t.depth] == p.depth
      && forall k :: 0 <= k < |p.spatial| ==> v[t.spatial + k] == p.spatial[k]
    ensures v == Arrange(l, p)
  {
    var t := GetDimIndices(l, |v|);
    forall k | 0 <= k < |v|
      ensures v[k] == Arrange(l, p)[k]
    {
      if t.spatial <= k < t.spatial + |p.spatial| {
        assert v[t.spatial + (k - t.spatial)] == p.spatial[k - t.spatial];
      }
    }
  }

  // ---- Products and dot products ----

  function Product(v: seq<int>): int {
    if v == [] then 1 else v[0] * Product(v[1..])
  }

  function Dot(a: seq<int>, b: seq<int>): int
    requires |a| == |b|
  {
    if a == [] then 0 else a[0] * b[0] + Dot(a[1..], b[1..])
  }

  lemma {:induction false} ProductConcat(a: seq<int>, b: seq<int>)
    ensures Product(a + b) == Product(a) * Product(b)
  {
    if a == [] {
      assert a + b == b;
    } else {
      ProductConcat(a[1..], b);
      assert (a + b)[1..] == a[1..] + b;
      assert a[0] * (Product(a[1..]) * Product(b)) == (a[0] * Product(a[1..])) * Product(b);
    }
  }

  lemma {:induction false} DotConcat(a: seq<int>, b: seq<int>, x: seq<int>, y: seq<int>)
    requires |a| == |x| && |b| == |y|
    ensures Dot(a + b, x + y) == Dot(a, x) + Dot(b, y)
  {
    if a == [] {
      assert a + b == b && x + y == y;
    } else {
      DotConcat(a[1..], b, x[1..], y);
      assert (a + b)[1..] == a[1..] + b && (x + y)[1..] == x[1..] + y;
    }
  }

  /** The product of a vector does not depend on the layout that spells it. */
  lemma ProductArrange(l: DataLayout, p: Parts)
    ensures Product(Arrange(l, p)) == p.batch * p.depth * Product(p.spatial)
  {
    var b, d, s := p.batch, p.depth, Product(p.spatial);
    ProductPair(b, d);
    ProductPair(d, b);
    match l
    case YXDepthBatch =>
      ProductConcat(p.spatial, [d, b]);
      assert s * (d * b) == b * d * s;
    case YXBatchDepth =>
      ProductConcat(p.spatial, [b, d]);
      assert s * (b * d) == b * d * s;
    case BatchYXDepth =>
      ProductConcat([b] + p.spatial, [d]);
      ProductConcat([b], p.spatial);
      assert Product([b]) == b && Product([d]) == d;
      assert (b * s) * d == b * d * s;
    case BatchDepthYX =>
      ProductConcat([b, d], p.spatial);
  }

  lemma ProductPair(x: int, y: int)
    ensures Product([x, y]) == x * y
  {
    assert Product([y]) == y * Product([]);
  }

  lemma DotPair(x: int, y: int, z: int, w: int)
    ensures Dot([x, y], [z, w]) == x * z + y * w
  {
    assert [x, y][1..] == [y] && [z, w][1..] == [w];
    assert Dot([y], [w]) == y * w + Dot([], []);
  }

  /** A dot product does not depend on the layout that spells both vectors. */
  lemma DotArrange(l: DataLayout, p: Parts, q: Parts)
    requires |p.spatial| == |q.spatial|
    ensures Dot(Arrange(l, p), Arrange(l, q))
         == p.batch * q.batch + p.depth * q.depth + Dot(p.spatial, q.spatial)
  {
    DotPair(p.depth, p.batch, q.depth, q.batch);
    DotPair(p.batch, p.depth, q.batch, q.depth);
    match l
    case YXDepthBatch => DotConcat(p.spatial, [p.depth, p.batch], q.spatial, [q.depth, q.batch]);
    case YXBatchDepth => DotConcat(p.spatial, [p.batch, p.depth], q.spatial, [q.batch, q.depth]);
    case BatchYXDepth =>
      DotConcat([p.batch] + p.spatial, [p.depth], [q.batch] + q.spatial, [q.depth]);
      DotConcat([p.batch], p.spatial, [q.batch], q.spatial);
      assert Dot([p.batch], [q.batch]) == p.batch * q.batch && Dot([p.depth], [q.depth]) == p.depth * q.depth;
    case BatchDepthYX => DotConcat([p.batch, p.depth], p.spatial, [q.batch, q.depth], q.spatial);
  }

  /** Reordering both vectors alike keeps their dot product. */
  lemma DotReordered(a: seq<int>, b: seq<int>, from: DataLayout, to: DataLayout)
    requires 2 <= |a| == |b|
    ensures Dot(Reordered(a, from, to), Reordered(b, from, to)) == Dot(a, b)
  {
    DotArrange(from, Split(from, a), Split(from, b));
    DotArrange(to, Split(from, a), Split(from, b));
    ArrangeSplit(from, a);
    ArrangeSplit(from, b);
  }

  // ---- Row-major mixed-radix numbers ----

  predicate Positive(dims: seq<int>) {
    forall i :: 0 <= i < |dims| ==> 0 < dims[i]
  }

  predicate InRange(c: seq<int>, dims: seq<int>) {
    |c| == |dims| && forall i :: 0 <= i < |c| ==> 0 <= c[i] < dims[i]
  }

  /** Each stride is the product of the dimensions to its right. */
  function RowMajor(dims: seq<int>): (s: seq<int>)
    ensures |s| == |dims|
  {
    if dims == [] then [] else [Product(dims[1..])] + RowMajor(dims[1..])
  }

  lemma {:induction false} RowMajorAt(dims: seq<int>, i: nat)
    requires i < |dims|
    ensures RowMajor(dims)[i] == Product(dims[i + 1..])
  {
    if 0 < i {
      RowMajorAt(dims[1..], i - 1);
      assert dims[1..][i..] == dims[i + 1..];
    }
  }

  lemma {:induction false} ProductPositive(dims: seq<int>)
    requires Positive(dims)
    ensures 1 <= Product(dims)
  {
    if dims != [] {
      ProductPositive(dims[1..]);
      assert 1 * 1 <= dims[0] * Product(dims[1..]);
    }
  }

  /** The coordinate whose row-major offset is k. */
  function Unpack(k: int, dims: seq<int>): (c: seq<int>)
    requires Positive(dims) && 0 <= k < Product(dims)
    ensures |c| == |dims|
  {
    if dims == [] then [] else
      var rest := Product(dims[1..]);
      ProductPositive(dims[1..]);
      [k / rest] + Unpack(k % rest, dims[1..])
  }

  lemma {:induction false} PackUnpack(k: int, dims: seq<int>)
    requires Positive(dims) && 0 <= k < Product(dims)
    ensures InRange(Unpack(k, dims), dims) && Dot(Unpack(k, dims), RowMajor(dims)) == k
  {
    if dims != [] {
      var rest := Product(dims[1..]);
      ProductPositive(dims[1..]);
      QuotientInRange(k, rest, dims[0]);
      PackUnpack(k % rest, dims[1..]);
      LeadingEntry(k / rest, Unpack(k % rest, dims[1..]), rest, RowMajor(dims[1..]));
    }
  }

  /** The first product of a dot product, split off. */
  lemma LeadingEntry(a: int, u: seq<int>, b: int, v: seq<int>)
    requires |u| == |v|
    ensures Dot([a] + u, [b] + v) == a * b + Dot(u, v)
  {
    assert ([a] + u)[1..] == u && ([b] + v)[1..] == v;
  }

  lemma QuotientInRange(k: int, p: int, d: int)
    requires 0 < p && 0 <= k < d * p
    ensures 0 <= k / p < d && k / p * p + k % p == k
  {
    Division(k, p);
    if d <= k / p {
      MulMonotone(d, k / p, p);
    }
    if k / p < 0 {
      MulMonotone(k / p, -1, p);
    }
  }

  lemma {:induction false} UnpackPack(c: seq<int>, dims: seq<int>)
    requires Positive(dims) && InRange(c, dims)
    ensures 0 <= Dot(c, RowMajor(dims)) < Product(dims)
    ensures Unpack(Dot(c, RowMajor(dims)), dims) == c
  {
    if dims != [] {
      var rest := Product(dims[1..]);
      ProductPositive(dims[1..]);
      UnpackPack(c[1..], dims[1..]);
      LeadingDigit(c[0], Dot(c[1..], RowMajor(dims[1..])), rest, dims[0]);
      LeadingEntry(c[0], c[1..], rest, RowMajor(dims[1..]));
      assert c == [c[0]] + c[1..];
    }
  }

  /** The leading digit of a mixed-radix number is its quotient by the weight below it. */
  lemma LeadingDigit(q: int, low: int, p: int, d: int)
    requires 0 <= q < d && 0 <= low < p
    ensures 0 <= q * p + low < d * p
    ensures (q * p + low) / p == q && (q * p + low) % p == low
  {
    MulMonotone(0, q, p);
    MulMonotone(q + 1, d, p);
    assert (q + 1) * p == q * p + p;
    DivisionUnique(q * p + low, p, q, low);
  }

  lemma {:induction false} StrideBounds(dims: seq<int>, i: nat)
    requires Positive(dims) && i < |dims|
    ensures 1 <= RowMajor(dims)[i] <= RowMajor(dims)[i] * dims[i] <= Product(dims)
  {
    var rest := Product(dims[1..]);
    ProductPositive(dims[1..]);
    if i == 0 {
      assert rest * 1 <= rest * dims[0];
    } else {
      StrideBounds(dims[1..], i - 1);
      assert 1 * rest <= dims[0] * rest;
    }
  }

  predicate PartsInRange(p: Parts, d: Parts) {
    0 <= p.batch < d.batch && 0 <= p.depth < d.depth && InRange(p.spatial, d.spatial)
  }

  /** Being in range does not depend on the layout that spells coordinate and dimensions. */
  lemma ArrangeInRange(l: DataLayout, p: Parts, d: Parts)
    requires |p.spatial| == |d.spatial|
    ensures InRange(Arrange(l, p), Arrange(l, d)) <==> PartsInRange(p, d)
  {
    InRangeFew(p.batch, p.depth, d.batch, d.depth);
    InRangeFew(p.depth, p.batch, d.depth, d.batch);
    match l
    case YXDepthBatch => InRangeConcat(p.spatial, [p.depth, p.batch], d.spatial, [d.depth, d.batch]);
    case YXBatchDepth => InRangeConcat(p.spatial, [p.batch, p.depth], d.spatial, [d.batch, d.depth]);
    case BatchYXDepth =>
      InRangeConcat([p.batch] + p.spatial, [p.depth], [d.batch] + d.spatial, [d.depth]);
      InRangeConcat([p.batch], p.spatial, [d.batch], d.spatial);
    case BatchDepthYX => InRangeConcat([p.batch, p.depth], p.spatial, [d.batch, d.depth], d.spatial);
  }

  lemma InRangeFew(x: int, y: int, dx: int, dy: int)
    ensures InRange([x], [dx]) <==> 0 <= x < dx
    ensures InRange([x, y], [dx, dy]) <==> 0 <= x < dx && 0 <= y < dy
  {
    assert [x][0] == x && [x, y][0] == x && [x, y][1] == y;
  }

  lemma InRangeConcat(a: seq<int>, b: seq<int>, da: seq<int>, db: seq<int>)
    requires |a| == |da| && |b| == |db|
    ensures InRange(a + b, da + db) <==> InRange(a, da) && InRange(b, db)
  {
    if InRange(a + b, da + db) {
      assert forall i :: 0 <= i < |a| ==> (a + b)[i] == a[i] && (da + db)[i] == da[i];
      assert forall i :: 0 <= i < |b| ==> (a + b)[|a| + i] == b[i] && (da + db)[|a| + i] == db[i];
    }
  }

  // ---- Batch descriptors ----

  datatype BatchDescriptor = BatchDescriptor(count: int, featureMapCount: int, spatialSize: seq<int>, layout: DataLayout) {

    ghost function Logical(): Parts {
      Parts(count, featureMapCount, spatialSize)
    }

    ghost predicate AllPositive() {
      0 < count && 0 < featureMapCount && Positive(spatialSize)
    }

    /** The number of elements of the batch. */
    ghost function Elements(): int {
      count * featureMapCount * Product(spatialSize)
    }

    /** The dimensions, in the order of the requested layout. */
    ghost function Dims(l: DataLayout): (d: seq<int>)
      ensures |d| == |spatialSize| + 2
    {
      Arrange(l, Logical())
    }

    /** The strides of the stored layout, in the order of the requested one. */
    ghost function Strides(l: DataLayout): (s: seq<int>)
      ensures |s| == |spatialSize| + 2
    {
      Reordered(RowMajor(Dims(layout)), layout, l)
    }

    /** dims are the dimensions of the batch, spelled in the order that l is named after. */
    ghost predicate AreDims(dims: seq<int>, l: DataLayout) {
      match l
      case YXDepthBatch => dims == spatialSize + [featureMapCount, count]
      case YXBatchDepth => dims == spatialSize + [count, featureMapCount]
      case BatchYXDepth => dims == [count] + spatialSize + [featureMapCount]
      case BatchDepthYX => dims == [count, featureMapCount] + spatialSize
    }

    method FullDims(l: DataLayout) returns (dims: seq<int>)
      ensures dims == Dims(l) && AreDims(dims, l)
    {
      var bdyx := new int[|spatialSize| + 2];
      bdyx[0] := count;
      bdyx[1] := featureMapCount;
      forall i | 0 <= i < |spatialSize| {
        bdyx[2 + i] := spatialSize[i];
      }
      assert bdyx[..] == Arrange(BatchDepthYX, Logical());
      SplitArrange(BatchDepthYX, Logical());
      dims := ReorderDims(bdyx[..], BatchDepthYX, l);
    }

    /** Where the order that l is named after has the depth, the batch and the first spatial entry. */
    ghost function Places(l: DataLayout): DimIndices {
      var n := |spatialSize|;
      match l
      case YXDepthBatch => DimIndices(n, n + 1, 0)
      case YXBatchDepth => DimIndices(n + 1, n, 0)
      case BatchYXDepth => DimIndices(n + 1, 0, 1)
      case BatchDepthYX => DimIndices(1, 0, 2)
    }

    /** stride is the product of the dimensions behind place. */
    ghost predicate IsStride(stride: int, dims: seq<int>, place: int) {
      0 <= place < |dims| && stride == Product(dims[place + 1..])
    }

    /** strides has at the places of l, for the depth, the batch and every spatial entry, the product of what is
        stored behind it: of dims, the dimensions in the stored order. */
    ghost predicate AreStrides(strides: seq<int>, l: DataLayout, dims: seq<int>) {
      && |strides| == |dims| == |spatialSize| + 2 && AreDims(dims, layout)
      && StridesPlaced(strides, Places(l), dims, Places(layout))
    }

    ghost predicate StridesPlaced(strides: seq<int>, at: DimIndices, dims: seq<int>, stored: DimIndices) {
      && InVector(at, |strides|) && InVector(stored, |dims|)
      && IsStride(strides[at.depth], dims, stored.depth) && IsStride(strides[at.batch], dims, stored.batch)
      && forall j :: at.spatial <= j < at.spatial + |spatialSize| ==> IsStride(strides[j], dims, j - at.spatial + stored.spatial)
    }

    predicate InVector(at: DimIndices, n: nat) {
      0 <= at.depth < n && 0 <= at.batch < n && 0 <= at.spatial <= at.spatial + |spatialSize| <= n
    }

    /** v has the parts p at these places. */
    ghost predicate Placed(v: seq<int>, p: Parts, at: DimIndices) {
      && InVector(at, |v|) && |p.spatial| == |spatialSize|
      && v[at.depth] == p.depth && v[at.batch] == p.batch && v[at.spatial..at.spatial + |spatialSize|] == p.spatial
    }

    lemma SplitPlaces(l: DataLayout, v: seq<int>)
      requires |v| == |spatialSize| + 2
      ensures Placed(v, Split(l, v), Places(l))
    {
    }

    lemma ArrangePlaces(l: DataLayout, p: Parts)
      requires |p.spatial| == |spatialSize|
      ensures Placed(Arrange(l, p), p, Places(l))
    {
    }

    /** What has the same parts as the row-major strides has the strides at its own places. */
    lemma StridesMove(strides: seq<int>, at: DimIndices, v: seq<int>, stored: DimIndices, p: Parts, dims: seq<int>)
      requires Placed(strides, p, at) && Placed(v, p, stored) && v == RowMajor(dims)
      ensures StridesPlaced(strides, at, dims, stored)
    {
      RowMajorAt(dims, stored.depth);
      RowMajorAt(dims, stored.batch);
      forall j | at.spatial <= j < at.spatial + |spatialSize|
        ensures IsStride(strides[j], dims, j - at.spatial + stored.spatial)
      {
        var k := j - at.spatial;
        assert strides[at.spatial..at.spatial + |spatialSize|][k] == v[stored.spatial..stored.spatial + |spatialSize|][k];
        RowMajorAt(dims, k + stored.spatial);
      }
    }

    /** The strides belong to the stored layout, and are given in the order of the requested one. */
    lemma StridesSpelled(l: DataLayout)
      ensures AreStrides(Strides(l), l, Dims(layout))
    {
      var v := RowMajor(Dims(layout));
      var p := Split(layout, v);
      SplitPlaces(layout, v);
      ArrangePlaces(l, p);
      StridesMove(Strides(l), Places(l), v, Places(layout), p, Dims(layout));
    }

    method FullStrides(l: DataLayout) returns (strides: seq<int>)
      ensures strides == Strides(l) && AreStrides(strides, l, Dims(layout))
      ensures l == layout ==> forall i :: 0 <= i < |strides| ==> IsStride(strides[i], Dims(layout), i)
    {
      var physDims := FullDims(layout);
      var physStrides := PhysicalStrides(physDims);
      strides := ReorderDims(physStrides, layout, l);
      StridesSpelled(l);
      if l == layout {
        forall i | 0 <= i < |strides|
          ensures IsStride(strides[i], physDims, i)
        {
          RowMajorAt(physDims, i);
        }
      }
    }

    /** The loop of full_strides, from the last dimension to the first. */
    method PhysicalStrides(physDims: seq<int>) returns (strides: seq<int>)
      requires |physDims| == |spatialSize| + 2
      ensures strides == RowMajor(physDims)
    {
      var ndims := |spatialSize|;
      var phys := new int[ndims + 2];
      phys[ndims + 1] := 1;
      var i := ndims;
      while 0 <= i
        invariant -1 <= i <= ndims
        invariant forall j :: i < j <= ndims + 1 ==> phys[j] == Product(physDims[j + 1..])
      {
        assert physDims[i + 1..][1..] == physDims[i + 2..];
        phys[i] := phys[i + 1] * physDims[i + 1];
        i := i - 1;
      }
      forall j | 0 <= j < ndims + 2
        ensures phys[j] == RowMajor(physDims)[j]
      {
        RowMajorAt(physDims, j);
      }
      strides := phys[..];
    }

    method NodesPerFeatureMap() returns (ret: int)
      ensures ret == Product(spatialSize)
    {
      ret := 1;
      for i := 0 to |spatialSize|
        invariant ret == Product(spatialSize[..i])
      {
        ProductConcat(spatialSize[..i], [spatialSize[i]]);
        assert spatialSize[..i + 1] == spatialSize[..i] + [spatialSize[i]];
        assert Product([spatialSize[i]]) == spatialSize[i] * Product([]);
        ret := ret * spatialSize[i];
      }
      assert spatialSize[..|spatialSize|] == spatialSize;
    }

    method ElementCount() returns (n: int)
      ensures n == Elements()
    {
      var nodes := NodesPerFeatureMap();
      n := count * featureMapCount * nodes;
    }

    /** The offset of a coordinate given in the order of layout l. */
    ghost function OffsetOf(c: seq<int>, l: DataLayout): int
      requires |c| == |spatialSize| + 2
    {
      Dot(c, Strides(l))
    }

    /** The coordinate, in the order of layout l, stored at offset k. */
    ghost function CoordinateAt(k: int, l: DataLayout): (c: seq<int>)
      requires AllPositive() && 0 <= k < Elements()
      ensures |c| == |spatialSize| + 2
    {
      ProductArrange(layout, Logical());
      DimsPositive(layout);
      Reordered(Unpack(k, Dims(layout)), layout, l)
    }

    lemma DimsPositive(l: DataLayout)
      ensures Positive(Dims(l)) <==> AllPositive()
    {
      var t := GetDimIndices(l, |Dims(l)|);
      assert Dims(l)[t.batch] == count && Dims(l)[t.depth] == featureMapCount;
      forall i | 0 <= i < |spatialSize|
        ensures Dims(l)[t.spatial + i] == spatialSize[i]
      {
      }
      if Positive(Dims(l)) {
        forall i | 0 <= i < |spatialSize|
          ensures 0 < spatialSize[i]
        {
          assert Dims(l)[t.spatial + i] == spatialSize[i];
        }
      }
    }

    /** The dimensions of every layout multiply up to the element count. */
    lemma DimsMultiplyToElements(l: DataLayout)
      ensures Product(Dims(l)) == Elements()
    {
      ProductArrange(l, Logical());
    }

    /** The same logical element has the same offset whichever layout its coordinate is written in. */
    lemma OffsetIgnoresLayout(c: seq<int>, from: DataLayout, to: DataLayout)
      requires |c| == |spatialSize| + 2
      ensures OffsetOf(Reordered(c, from, to), to) == OffsetOf(c, from)
    {
      ReorderComposes(RowMajor(Dims(layout)), layout, from, to);
      DotReordered(c, Strides(from), from, to);
    }

    lemma InRangeReordered(c: seq<int>, from: DataLayout, to: DataLayout)
      requires InRange(c, Dims(from))
      ensures InRange(Reordered(c, from, to), Dims(to))
    {
      ArrangeSplit(from, c);
      ArrangeInRange(from, Split(from, c), Logical());
      ArrangeInRange(to, Split(from, c), Logical());
    }

    /** In-range coordinates get offsets below the element count, and the coordinate can be read back from the offset. */
    lemma CoordinateOfOffset(c: seq<int>, l: DataLayout)
      requires AllPositive() && InRange(c, Dims(l))
      ensures 0 <= OffsetOf(c, l) < Elements()
      ensures CoordinateAt(OffsetOf(c, l), l) == c
    {
      DimsPositive(layout);
      DimsMultiplyToElements(layout);
      var phys := Reordered(c, l, layout);
      InRangeReordered(c, l, layout);
      OffsetIgnoresLayout(c, l, layout);
      ReorderComposes(RowMajor(Dims(layout)), layout, layout, layout);
      UnpackPack(phys, Dims(layout));
      ReorderComposes(c, l, layout, l);
    }

    /** Every offset below the element count belongs to an in-range coordinate. */
    lemma OffsetOfCoordinate(k: int, l: DataLayout)
      requires AllPositive() && 0 <= k < Elements()
      ensures InRange(CoordinateAt(k, l), Dims(l)) && OffsetOf(CoordinateAt(k, l), l) == k
    {
      DimsPositive(layout);
      DimsMultiplyToElements(layout);
      var phys := Unpack(k, Dims(layout));
      PackUnpack(k, Dims(layout));
      InRangeReordered(phys, layout, l);
      OffsetIgnoresLayout(phys, layout, l);
      ReorderComposes(RowMajor(Dims(layout)), layout, layout, layout);
    }

    ghost predicate IsOffset(k: int, l: DataLayout) {
      exists c :: InRange(c, Dims(l)) && OffsetOf(c, l) == k
    }

    /** The strides are a bijection from the in-range coordinates of any requested layout to the offsets. */
    lemma StridesAreBijective(l: DataLayout)
      requires AllPositive()
      ensures forall c :: InRange(c, Dims(l)) ==> 0 <= OffsetOf(c, l) < Elements()
      ensures forall c, e :: InRange(c, Dims(l)) && InRange(e, Dims(l)) && OffsetOf(c, l) == OffsetOf(e, l) ==> c == e
      ensures forall k :: 0 <= k < Elements() ==> IsOffset(k, l)
    {
      forall c | InRange(c, Dims(l))
        ensures 0 <= OffsetOf(c, l) < Elements()
        ensures CoordinateAt(OffsetOf(c, l), l) == c
      {
        CoordinateOfOffset(c, l);
      }
      forall k | 0 <= k < Elements()
        ensures IsOffset(k, l)
      {
        OffsetOfCoordinate(k, l);
      }
    }

    /** When the element count fits a machine integer, so does every stride. */
    lemma StridesFit(l: DataLayout, i: nat)
      requires AllPositive() && i < |Strides(l)|
      ensures 1 <= Strides(l)[i] <= Elements()
    {
      var s := RowMajor(Dims(layout));
      DimsPositive(layout);
      DimsMultiplyToElements(layout);
      ReorderPermutes(s, layout, l);
      assert Strides(l)[i] in multiset(s);
      var k :| 0 <= k < |s| && s[k] == Strides(l)[i];
      StrideBounds(Dims(layout), k);
    }
  }

  /** Two images of three 4x5 feature maps, stored with the batch innermost: neighbours in the batch are
      next to each other, feature maps two apart, columns six and rows thirty. */
  lemma StridesOfStoredLayout()
    ensures BatchDescriptor(2, 3, [4, 5], YXDepthBatch).Strides(BatchDepthYX) == [1, 2, 30, 6]
  {
    var d := BatchDescriptor(2, 3, [4, 5], YXDepthBatch);
    var dims := [4, 5, 3, 2];
    assert d.Dims(YXDepthBatch) == dims;
    assert dims[1..] == [5, 3, 2] && dims[1..][1..] == [3, 2] && dims[1..][1..][1..] == [2] && [2][1..] == [];
    assert Product([]) == 1 && Product([2]) == 2 && Product([3, 2]) == 6 && Product([5, 3, 2]) == 30;
    assert RowMajor([2]) == [1] && RowMajor([3, 2]) == [2, 1] && RowMajor([5, 3, 2]) == [6, 2, 1] && RowMajor(dims) == [30, 6, 2, 1];
    assert Split(YXDepthBatch, [30, 6, 2, 1]) == Parts(1, 2, [30, 6]);
  }
}
