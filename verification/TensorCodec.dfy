/**
 Converting nested Go slices to tensors and back (go/tensor.go): the shape is
 read off the first elements, the elements are written depth first, and the
 buffer is read back along the shape.
 */
module TensorCodec {
  import opened Arithmetic
  import opened MachineInts
  import opened Bytes
  import opened Sequences
  import Layout

  /** Element kinds, in the order of the table `types`. */
  datatype Kind =
    | Float32 | Float64 | Int32 | Uint8 | Int16 | Int8
    | String | Complex64 | Int64 | Bool | Uint16 | Complex128

  /** The number of bytes of an element; a Go string is a pointer and a length. */
  function Width(k: Kind): (w: nat)
    ensures w > 0
  {
    match k
    case Uint8 | Int8 | Bool => 1
    case Int16 | Uint16 => 2
    case Float32 | Int32 => 4
    case Float64 | Int64 | Complex64 => 8
    case Complex128 | String => 16
  }

  /** The kinds that encodeTensor and decodeTensor accept for an element. */
  predicate Encodable(k: Kind) {
    k != Bool && k != String
  }

  /** The element types of Go by size, and those that can be written and read. */
  lemma KindTable()
    ensures Width(Int8) == Width(Uint8) == Width(Bool) == 1 && Width(Int16) == Width(Uint16) == 2
    ensures Width(Int32) == Width(Float32) == 4 && Width(Int64) == Width(Float64) == Width(Complex64) == 8
    ensures Width(Complex128) == Width(String) == 16
    ensures Encodable(Int8) && Encodable(Int16) && Encodable(Int32) && Encodable(Int64)
    ensures Encodable(Uint8) && Encodable(Uint16) && Encodable(Float32) && Encodable(Float64)
    ensures Encodable(Complex64) && Encodable(Complex128) && !Encodable(Bool) && !Encodable(String)
  {
  }

  /** A value: an element, given by its bits, or a slice. Go arrays are treated as slices. */
  datatype Value = Scalar(bits: nat) | Slice(elems: seq<Value>)

  /** `v` is a value of the Go type with `rank` slice brackets before `k`. */
  predicate Typed(v: Value, rank: nat, k: Kind)
    decreases rank
  {
    if rank == 0 then v.Scalar? && v.bits < Power256(Width(k))
    else v.Slice? && forall i :: 0 <= i < |v.elems| ==> Typed(v.elems[i], rank - 1, k)
  }

  datatype Error = MismatchedLengths | Unsupported | ShapeRefused | TooLarge | WrongSize | EndOfInput

  datatype Result<+T> = Ok(value: T) | Err(error: Error)

  // --- shape ----------------------------------------------------------------

  /** `Len` of a slice; elements have none. */
  function Len(v: Value): nat {
    if v.Slice? then |v.elems| else 0
  }

  /** The check on a slice of slices: all elements have the length of the first. */
  predicate SameLengths(vs: seq<Value>) {
    forall i :: 0 <= i < |vs| ==> Len(vs[i]) == Len(vs[0])
  }

  function Zeros(n: nat): (s: seq<nat>)
    ensures |s| == n
  {
    if n == 0 then [] else [0] + Zeros(n - 1)
  }

  /** The shape along the first elements. Below an empty slice every dimension is zero. */
  function ShapeOf(v: Value, rank: nat, k: Kind): (r: Result<seq<nat>>)
    requires Typed(v, rank, k)
    ensures r.Ok? ==> |r.value| == rank
    decreases rank
  {
    if rank == 0 then Ok([])
    else if v.elems == [] then Ok(Zeros(rank))
    else if rank > 1 && !SameLengths(v.elems) then Err(MismatchedLengths)
    else
      var rest := ShapeOf(v.elems[0], rank - 1, k);
      if rest.Ok? then Ok([|v.elems|] + rest.value) else rest
  }

  /** The loop over the elements that both shapeAndDataTypeOf and encodeTensor make for a slice of slices. */
  method CheckLengths(vs: seq<Value>) returns (same: bool)
    requires vs != []
    ensures same == SameLengths(vs)
  {
    var expected := Len(vs[0]);
    for i := 1 to |vs|
      invariant forall j :: 0 <= j < i ==> Len(vs[j]) == expected
    {
      if Len(vs[i]) != expected {
        return false;
      }
    }
    return true;
  }

  /** `shapeAndDataTypeOf`: descends the type; the value stops descending at an empty slice. */
  method ShapeAndDataTypeOf(value: Value, rank: nat, k: Kind) returns (r: Result<seq<nat>>)
    requires Typed(value, rank, k)
    ensures r == ShapeOf(value, rank, k)
  {
    var val: Value, left: nat, shape: seq<nat> := value, rank, [];
    var stuck := false;
    assert ShapeOf(value, rank, k).Ok? ==> [] + ShapeOf(value, rank, k).value == ShapeOf(value, rank, k).value;
    while left > 0
      invariant left <= rank
      invariant !stuck ==> Typed(val, left, k)
      invariant stuck ==> val == Slice([])
      invariant ShapeOf(value, rank, k) == Prefixed(shape, if stuck then Ok(Zeros(left)) else ShapeOf(val, left, k))
    {
      var n := |val.elems|;
      if n > 0 {
        if left > 1 {
          var same := CheckLengths(val.elems);
          if !same {
            return Err(MismatchedLengths);
          }
        }
        ShapeStep(shape, val, left, k);
        val := val.elems[0];
      } else {
        PrefixTwice(shape, [0], Ok(Zeros(left - 1)));
        stuck := true;
      }
      shape := shape + [n];
      left := left - 1;
    }
    assert shape + [] == shape;
    return Ok(shape);
  }

  function Prefixed(shape: seq<nat>, r: Result<seq<nat>>): Result<seq<nat>> {
    if r.Ok? then Ok(shape + r.value) else r
  }

  lemma PrefixTwice(a: seq<nat>, b: seq<nat>, r: Result<seq<nat>>)
    ensures Prefixed(a, Prefixed(b, r)) == Prefixed(a + b, r)
  {
    if r.Ok? {
      assert a + (b + r.value) == a + b + r.value;
    }
  }

  lemma ShapeStep(shape: seq<nat>, v: Value, left: nat, k: Kind)
    requires left > 0 && Typed(v, left, k) && v.elems != [] && (left == 1 || SameLengths(v.elems))
    ensures Prefixed(shape, ShapeOf(v, left, k)) == Prefixed(shape + [|v.elems|], ShapeOf(v.elems[0], left - 1, k))
  {
    PrefixTwice(shape, [|v.elems|], ShapeOf(v.elems[0], left - 1, k));
  }

  /** The value looked at after `i` steps to the first element; from an empty slice there is no step. */
  function FirstAt(v: Value, i: nat): Value
    decreases i
  {
    if i > 0 && v.Slice? && v.elems != [] then FirstAt(v.elems[0], i - 1) else v
  }

  /** All elements of a slice have one length. */
  predicate OneLength(v: Value) {
    v.Slice? ==> forall i, j :: 0 <= i < |v.elems| && 0 <= j < |v.elems| ==> Len(v.elems[i]) == Len(v.elems[j])
  }

  /**
   For every value: each dimension is the length of the slice looked at at its
   level, and the shape is refused exactly when a slice looked at, of slices, holds
   two lengths.
   */
  lemma {:induction false} ShapeMeaning(v: Value, rank: nat, k: Kind)
    requires Typed(v, rank, k)
    ensures ShapeOf(v, rank, k).Ok? <==> forall i: nat :: i + 1 < rank ==> OneLengthAt(v, i)
    ensures ShapeOf(v, rank, k).Err? ==> ShapeOf(v, rank, k) == Err(MismatchedLengths)
    ensures ShapeOf(v, rank, k).Ok? ==> forall i :: 0 <= i < rank ==> ShapeOf(v, rank, k).value[i] == Len(FirstAt(v, i))
    decreases rank
  {
    if rank > 0 {
      if v.elems == [] {
        ZerosAt(rank);
      } else {
        var first := v.elems[0];
        ShapeMeaning(first, rank - 1, k);
        SameLengthsMeaning(v);
        if forall i: nat :: i + 1 < rank ==> OneLengthAt(v, i) {
          OneLengthBelow(v, rank);
        } else {
          OneLengthAbove(v, rank);
        }
        if ShapeOf(v, rank, k).Ok? {
          forall i | 0 <= i < rank ensures ShapeOf(v, rank, k).value[i] == Len(FirstAt(v, i)) {
            assert i > 0 ==> FirstAt(v, i) == FirstAt(first, i - 1);
          }
        }
      }
    }
  }

  predicate OneLengthAt(v: Value, i: nat) {
    OneLength(FirstAt(v, i))
  }

  lemma SameLengthsMeaning(v: Value)
    requires v.Slice?
    ensures SameLengths(v.elems) <==> OneLength(v)
  {
  }

  lemma OneLevelDown(v: Value, i: nat)
    requires v.Slice? && v.elems != []
    ensures OneLengthAt(v, i + 1) <==> OneLengthAt(v.elems[0], i)
    ensures OneLengthAt(v, 0) <==> OneLength(v)
  {
  }

  lemma OneLengthBelow(v: Value, rank: nat)
    requires v.Slice? && v.elems != [] && forall i: nat :: i + 1 < rank ==> OneLengthAt(v, i)
    ensures rank > 1 ==> OneLength(v)
    ensures forall i: nat :: i + 1 < rank - 1 ==> OneLengthAt(v.elems[0], i)
  {
    OneLevelDown(v, 0);
    forall i: nat | i + 1 < rank - 1 ensures OneLengthAt(v.elems[0], i) {
      OneLevelDown(v, i);
    }
  }

  lemma OneLengthAbove(v: Value, rank: nat)
    requires v.Slice? && v.elems != [] && !forall i: nat :: i + 1 < rank ==> OneLengthAt(v, i)
    ensures (rank > 1 && !OneLength(v)) || !forall i: nat :: i + 1 < rank - 1 ==> OneLengthAt(v.elems[0], i)
  {
    var i: nat :| i + 1 < rank && !OneLengthAt(v, i);
    if i > 0 {
      OneLevelDown(v, i - 1);
    } else {
      OneLevelDown(v, 0);
    }
  }

  lemma {:induction false} ZerosAt(n: nat)
    ensures forall i :: 0 <= i < n ==> Zeros(n)[i] == 0
  {
    if n > 0 {
      ZerosAt(n - 1);
      assert forall i :: 0 < i < n ==> Zeros(n)[i] == Zeros(n - 1)[i - 1];
    }
  }

  /** After a zero dimension all are zero. */
  predicate ZerosAtEnd(shape: seq<nat>) {
    forall i, j :: 0 <= i <= j < |shape| && shape[i] == 0 ==> shape[j] == 0
  }

  lemma {:induction false} ShapeEndsInZeros(v: Value, rank: nat, k: Kind)
    requires Typed(v, rank, k) && ShapeOf(v, rank, k).Ok?
    ensures ZerosAtEnd(ShapeOf(v, rank, k).value)
    decreases rank
  {
    if rank > 0 {
      if v.elems == [] {
        ZerosAt(rank);
      } else {
        ShapeEndsInZeros(v.elems[0], rank - 1, k);
        var shape, rest := ShapeOf(v, rank, k).value, ShapeOf(v.elems[0], rank - 1, k).value;
        assert forall i :: 0 < i < rank ==> shape[i] == rest[i - 1];
      }
    }
  }

  /** The shape found for a rectangular value is the one of its shapes that ends in zeros after a zero. */
  lemma {:induction false} ShapeIsTheOne(v: Value, shape: seq<nat>, k: Kind)
    requires Typed(v, |shape|, k) && HasShape(v, shape) && ZerosAtEnd(shape)
    ensures ShapeOf(v, |shape|, k) == Ok(shape)
    decreases |shape|
  {
    if shape != [] {
      var rest := shape[1..];
      assert forall i :: 0 <= i < |rest| ==> rest[i] == shape[i + 1];
      if v.elems == [] {
        ZerosAt(|shape|);
        assert shape == Zeros(|shape|);
      } else {
        ShapeIsTheOne(v.elems[0], rest, k);
        if |shape| > 1 {
          ShapeFixesLengths(v.elems, rest);
        }
        assert shape == [shape[0]] + rest;
      }
    }
  }

  /** All slices of one level have the same length, at every level. */
  predicate HasShape(v: Value, shape: seq<nat>)
    decreases |shape|
  {
    if shape == [] then v.Scalar?
    else v.Slice? && |v.elems| == shape[0] && forall i :: 0 <= i < |v.elems| ==> HasShape(v.elems[i], shape[1..])
  }

  ghost predicate Rectangular(v: Value, rank: nat) {
    exists shape: seq<nat> :: |shape| == rank && HasShape(v, shape)
  }

  /** The shape read off the first elements is the shape of a rectangular value. */
  lemma {:induction false} ShapeOfRectangular(v: Value, shape: seq<nat>, k: Kind)
    requires Typed(v, |shape|, k) && HasShape(v, shape)
    ensures ShapeOf(v, |shape|, k).Ok? && HasShape(v, ShapeOf(v, |shape|, k).value)
    decreases |shape|
  {
    if shape != [] && v.elems != [] {
      var rest := shape[1..];
      ShapeOfRectangular(v.elems[0], rest, k);
      var found := ShapeOf(v.elems[0], |rest|, k).value;
      if |shape| > 1 {
        ShapeFixesLengths(v.elems, rest);
      }
      forall i | 0 <= i < |v.elems| ensures HasShape(v.elems[i], found) {
        ShapeIsUnique(v.elems[0], v.elems[i], rest, found);
      }
      assert ([|v.elems|] + found)[1..] == found;
    }
  }

  lemma ShapeFixesLengths(vs: seq<Value>, shape: seq<nat>)
    requires shape != [] && forall i :: 0 <= i < |vs| ==> HasShape(vs[i], shape)
    ensures SameLengths(vs)
  {
    assert forall i :: 0 <= i < |vs| ==> HasShape(vs[i], shape) && Len(vs[i]) == shape[0];
  }

  /** Values of one shape have every other shape in common. */
  lemma {:induction false} ShapeIsUnique(v: Value, w: Value, shape: seq<nat>, other: seq<nat>)
    requires HasShape(v, shape) && HasShape(w, shape) && HasShape(v, other) && |other| == |shape|
    ensures HasShape(w, other)
    decreases |shape|
  {
    if shape != [] {
      forall i | 0 <= i < |w.elems| ensures HasShape(w.elems[i], other[1..]) {
        ShapeIsUnique(v.elems[i], w.elems[i], shape[1..], other[1..]);
      }
    }
  }

  // --- size -----------------------------------------------------------------

  /** A product in a 64-bit `uintptr`. */
  function Scaled(size: int, count: int): nat {
    (size * count) % TWO_64
  }

  /** The size of the elements of a shape, as `byteSizeOf` computes it. */
  function ByteSize(k: Kind, shape: seq<nat>): nat {
    Scaled(Width(k), Product(shape))
  }

  /** `byteSizeOf`: the width, multiplied by one dimension after the other. */
  method ByteSizeOf(k: Kind, shape: seq<nat>) returns (size: nat)
    ensures size == ByteSize(k, shape)
  {
    size := Width(k);
    assert shape[0..] == shape;
    for i := 0 to |shape|
      invariant size < TWO_64
      invariant Scaled(size, Product(shape[i..])) == ByteSize(k, shape)
    {
      SizeStep(size, shape, i);
      size := Scaled(size, shape[i]);
    }
    assert shape[|shape|..] == [];
  }

  lemma SizeStep(size: int, shape: seq<nat>, i: nat)
    requires i < |shape|
    ensures Scaled(Scaled(size, shape[i]), Product(shape[i + 1..])) == Scaled(size, Product(shape[i..]))
  {
    var d, rest := shape[i], Product(shape[i + 1..]);
    ProductFrom(shape, i);
    WrapFactor(size * d, rest);
    assert size * d * rest == size * (rest * d);
  }

  // --- encoding -------------------------------------------------------------

  function Encode(order: ByteOrder, v: Value, rank: nat, k: Kind): (r: Result<seq<byte>>)
    requires Typed(v, rank, k)
    decreases rank, 0
  {
    if rank == 0 then
      if Encodable(k) then Ok(WordBytes(order, v.bits, Width(k))) else Err(Unsupported)
    else if rank > 1 && !SameLengths(v.elems) then Err(MismatchedLengths)
    else EncodeAll(order, v.elems, rank - 1, k)
  }

  function EncodeAll(order: ByteOrder, vs: seq<Value>, rank: nat, k: Kind): (r: Result<seq<byte>>)
    requires forall i :: 0 <= i < |vs| ==> Typed(vs[i], rank, k)
    decreases rank, 1, |vs|
  {
    if vs == [] then Ok([])
    else
      var first := Encode(order, vs[0], rank, k);
      if first.Err? then first
      else
        var rest := EncodeAll(order, vs[1..], rank, k);
        if rest.Err? then rest else Ok(first.value + rest.value)
  }

  function Decode(order: ByteOrder, shape: seq<nat>, k: Kind, bs: seq<byte>): (r: Result<(Value, seq<byte>)>)
    decreases |shape|, 0, 0
  {
    if shape == [] then
      if !Encodable(k) then Err(Unsupported)
      else if |bs| < Width(k) then Err(EndOfInput)
      else Ok((Scalar(WordValue(order, bs[..Width(k)])), bs[Width(k)..]))
    else
      var r := DecodeAll(order, shape[1..], k, shape[0], bs);
      if r.Ok? then Ok((Slice(r.value.0), r.value.1)) else Err(r.error)
  }

  /** `n` values of the given shape, one after the other, and the bytes that are left. */
  function DecodeAll(order: ByteOrder, shape: seq<nat>, k: Kind, n: nat, bs: seq<byte>)
    : (r: Result<(seq<Value>, seq<byte>)>)
    ensures r.Ok? ==> |r.value.0| == n
    decreases |shape|, 1, n
  {
    if n == 0 then Ok(([], bs))
    else
      var first := Decode(order, shape, k, bs);
      if first.Err? then Err(first.error)
      else
        var rest := DecodeAll(order, shape, k, n - 1, first.value.1);
        if rest.Err? then rest else Ok(([first.value.0] + rest.value.0, rest.value.1))
  }

  /** Elements are read and written without error unless the value holds some of an unsupported kind. */
  predicate Supported(k: Kind, shape: seq<nat>) {
    Encodable(k) || Product(shape) == 0
  }

  /** The bytes written for a rectangular value are as many as its shape says. */
  lemma {:induction false} RectangularEncoded(order: ByteOrder, v: Value, shape: seq<nat>, k: Kind)
    requires Typed(v, |shape|, k) && HasShape(v, shape) && Supported(k, shape)
    ensures var r := Encode(order, v, |shape|, k); r.Ok? && |r.value| == Width(k) * Product(shape)
    decreases |shape|, 0, 0
  {
    if shape != [] {
      var rest := shape[1..];
      if |shape| > 1 {
        ShapeFixesLengths(v.elems, rest);
      }
      if v.elems != [] && !Encodable(k) {
        assert Product(rest) == 0;
      }
      AllEncoded(order, v.elems, rest, k);
    }
  }

  lemma {:induction false} AllEncoded(order: ByteOrder, vs: seq<Value>, shape: seq<nat>, k: Kind)
    requires forall i :: 0 <= i < |vs| ==> Typed(vs[i], |shape|, k) && HasShape(vs[i], shape)
    requires vs == [] || Supported(k, shape)
    ensures var r := EncodeAll(order, vs, |shape|, k); r.Ok? && |r.value| == Width(k) * (|vs| * Product(shape))
    decreases |shape|, 1, |vs|
  {
    if vs != [] {
      RectangularEncoded(order, vs[0], shape, k);
      AllEncoded(order, vs[1..], shape, k);
      OneMore(Width(k), |vs|, Product(shape));
    }
  }

  /** Wherever there are slices of slices, they have one length. */
  predicate Even(v: Value, rank: nat)
    decreases rank
  {
    rank > 0 && v.Slice? ==>
      (rank > 1 ==> OneLength(v)) && forall i :: 0 <= i < |v.elems| ==> Even(v.elems[i], rank - 1)
  }

  /** The number of elements in a value. */
  function Elements(v: Value, rank: nat): nat
    decreases rank, 0
  {
    if rank == 0 || v.Scalar? then 1 else AllElements(v.elems, rank - 1)
  }

  function AllElements(vs: seq<Value>, rank: nat): nat
    decreases rank, 1, |vs|
  {
    if vs == [] then 0 else Elements(vs[0], rank) + AllElements(vs[1..], rank)
  }

  /** For every value, ragged or not: when it is written, and in how many bytes. */
  lemma {:induction false} EncodeOkIff(order: ByteOrder, v: Value, rank: nat, k: Kind)
    requires Typed(v, rank, k)
    ensures Encode(order, v, rank, k).Ok? <==> Even(v, rank) && (Encodable(k) || Elements(v, rank) == 0)
    ensures Encode(order, v, rank, k).Ok? ==> |Encode(order, v, rank, k).value| == Width(k) * Elements(v, rank)
    decreases rank, 0, 0
  {
    if rank > 0 {
      AllEncodeOkIff(order, v.elems, rank - 1, k);
      SameLengthsMeaning(v);
    }
  }

  predicate AllEven(vs: seq<Value>, rank: nat) {
    forall i :: 0 <= i < |vs| ==> Even(vs[i], rank)
  }

  lemma {:induction false} AllEncodeOkIff(order: ByteOrder, vs: seq<Value>, rank: nat, k: Kind)
    requires forall i :: 0 <= i < |vs| ==> Typed(vs[i], rank, k)
    ensures EncodeAll(order, vs, rank, k).Ok? <==> AllEven(vs, rank) && (Encodable(k) || AllElements(vs, rank) == 0)
    ensures EncodeAll(order, vs, rank, k).Ok? ==>
              |EncodeAll(order, vs, rank, k).value| == Width(k) * AllElements(vs, rank)
    decreases rank, 1, |vs|
  {
    if vs != [] {
      EncodeOkIff(order, vs[0], rank, k);
      AllEncodeOkIff(order, vs[1..], rank, k);
      EvenFirst(vs, rank);
      MulDistribute(Width(k), Elements(vs[0], rank), AllElements(vs[1..], rank));
    }
  }

  lemma EvenFirst(vs: seq<Value>, rank: nat)
    requires vs != []
    ensures AllEven(vs, rank) <==> Even(vs[0], rank) && AllEven(vs[1..], rank)
  {
    assert forall i :: 0 < i < |vs| ==> vs[i] == vs[1..][i - 1];
  }

  lemma {:induction false} ElementsOfRectangular(v: Value, shape: seq<nat>)
    requires HasShape(v, shape)
    ensures Elements(v, |shape|) == Product(shape)
    decreases |shape|, 0, 0
  {
    if shape != [] {
      AllElementsOfRectangular(v.elems, shape[1..]);
    }
  }

  lemma {:induction false} AllElementsOfRectangular(vs: seq<Value>, shape: seq<nat>)
    requires AllHaveShape(vs, shape)
    ensures AllElements(vs, |shape|) == |vs| * Product(shape)
    decreases |shape|, 1, |vs|
  {
    if vs != [] {
      ElementsOfRectangular(vs[0], shape);
      AllElementsOfRectangular(vs[1..], shape);
      OneMore(1, |vs|, Product(shape));
    }
  }

  // --- where an element is written ------------------------------------------

  /** The element with the given multi-index. */
  function ElementAt(v: Value, shape: seq<nat>, ix: seq<int>): Value
    requires HasShape(v, shape) && Layout.InBounds(ix, shape)
    decreases |shape|
  {
    if shape == [] then v else
      InBoundsRest(ix, shape);
      ElementAt(v.elems[ix[0]], shape[1..], ix[1..])
  }

  /** The bytes of an element, with its bits, stand at `at`. */
  predicate WrittenAt(order: ByteOrder, bytes: seq<byte>, at: int, element: Value, k: Kind) {
    && 0 <= at <= at + Width(k) <= |bytes| && element.Scalar?
    && bytes[at..at + Width(k)] == WordBytes(order, element.bits, Width(k))
  }

  /** Elements are written in row-major order: at the place that the strides of a dense array give. */
  lemma EncodedAt(order: ByteOrder, v: Value, shape: seq<nat>, k: Kind, ix: seq<int>)
    requires Typed(v, |shape|, k) && HasShape(v, shape) && Layout.InBounds(ix, shape)
    requires Encode(order, v, |shape|, k).Ok?
    ensures WrittenAt(order, Encode(order, v, |shape|, k).value,
                      Width(k) * Layout.Dot(ix, Layout.DenseStrides(shape)), ElementAt(v, shape, ix), k)
  {
    EncodedAtPlace(order, v, shape, k, ix);
    PlaceIsDot(Width(k), shape, ix);
  }

  /** The place in bytes of an element, level by level: so many whole elements of `w` bytes times what is below. */
  function Place(w: nat, shape: seq<nat>, ix: seq<int>): nat
    requires Layout.InBounds(ix, shape)
    decreases |shape|
  {
    if shape == [] then 0 else
      InBoundsRest(ix, shape);
      Times(ix[0], Size(w, shape[1..])) + Place(w, shape[1..], ix[1..])
  }

  function Size(w: nat, shape: seq<nat>): nat {
    ProductSign(shape);
    w * Product(shape)
  }

  lemma {:induction false} PlaceIsDot(w: nat, shape: seq<nat>, ix: seq<int>)
    requires Layout.InBounds(ix, shape)
    ensures Place(w, shape, ix) == w * Layout.Dot(ix, Layout.DenseStrides(shape))
    decreases |shape|
  {
    if shape != [] {
      var rest := shape[1..];
      InBoundsRest(ix, shape);
      PlaceIsDot(w, rest, ix[1..]);
      ProductSign(rest);
      Layout.DotStrides(ix, shape);
      PlaceSum(w, ix[0], Product(rest), Layout.Dot(ix[1..], Layout.DenseStrides(rest)));
    }
  }

  lemma PlaceSum(w: nat, i: nat, p: nat, inner: int)
    ensures w * (i * p + inner) == Times(i, w * p) + w * inner
  {
    TimesIsProduct(i, w * p);
    MulReorder(w, i, p);
  }

  lemma {:induction false} EncodedAtPlace(order: ByteOrder, v: Value, shape: seq<nat>, k: Kind, ix: seq<int>)
    requires Typed(v, |shape|, k) && HasShape(v, shape) && Layout.InBounds(ix, shape)
    requires Encode(order, v, |shape|, k).Ok?
    ensures WrittenAt(order, Encode(order, v, |shape|, k).value,
                      Place(Width(k), shape, ix), ElementAt(v, shape, ix), k)
    decreases |shape|
  {
    if shape != [] {
      var rest, i := shape[1..], ix[0];
      InBoundsRest(ix, shape);
      EachEncodes(order, v.elems, |rest|, k, i);
      EncodedAtPlace(order, v.elems[i], rest, k, ix[1..]);
      PlaceInAll(order, v.elems, rest, k, i, Place(Width(k), rest, ix[1..]), ElementAt(v.elems[i], rest, ix[1..]));
    }
  }

  lemma {:induction false} EachEncodes(order: ByteOrder, vs: seq<Value>, rank: nat, k: Kind, i: nat)
    requires forall j :: 0 <= j < |vs| ==> Typed(vs[j], rank, k)
    requires i < |vs| && EncodeAll(order, vs, rank, k).Ok?
    ensures Encode(order, vs[i], rank, k).Ok?
    decreases i
  {
    if i > 0 {
      EachEncodes(order, vs[1..], rank, k, i - 1);
    }
  }

  lemma PlaceInAll(order: ByteOrder, vs: seq<Value>, shape: seq<nat>, k: Kind, i: nat, inner: nat, element: Value)
    requires forall j :: 0 <= j < |vs| ==> Typed(vs[j], |shape|, k) && HasShape(vs[j], shape)
    requires i < |vs| && EncodeAll(order, vs, |shape|, k).Ok? && Encode(order, vs[i], |shape|, k).Ok?
    requires WrittenAt(order, Encode(order, vs[i], |shape|, k).value, inner, element, k)
    ensures WrittenAt(order, EncodeAll(order, vs, |shape|, k).value,
                      Times(i, Size(Width(k), shape)) + inner, element, k)
  {
    var size := Size(Width(k), shape);
    AllEncodedAt(order, vs, shape, k, i, size);
    PlaceInside(order, EncodeAll(order, vs, |shape|, k).value, Encode(order, vs[i], |shape|, k).value,
                Times(i, size), inner, element, k);
  }

  lemma InBoundsRest(ix: seq<int>, shape: seq<nat>)
    requires shape != [] && Layout.InBounds(ix, shape)
    ensures Layout.InBounds(ix[1..], shape[1..])
  {
    assert forall i :: 0 <= i < |shape| - 1 ==> ix[1..][i] == ix[i + 1] && shape[1..][i] == shape[i + 1];
  }

  /** The place of an element within a stretch, and of the stretch within the whole. */
  lemma PlaceInside(order: ByteOrder, all: seq<byte>, part: seq<byte>, outer: nat, inner: int, element: Value, k: Kind)
    requires outer + |part| <= |all| && all[outer..outer + |part|] == part
    requires WrittenAt(order, part, inner, element, k)
    ensures WrittenAt(order, all, outer + inner, element, k)
  {
    SliceOfSlice(all, outer, outer + |part|, inner, inner + Width(k));
  }

  lemma RectangularSize(order: ByteOrder, v: Value, shape: seq<nat>, k: Kind)
    requires Typed(v, |shape|, k) && HasShape(v, shape) && Encode(order, v, |shape|, k).Ok?
    ensures |Encode(order, v, |shape|, k).value| == Width(k) * Product(shape)
  {
    EncodeOkIff(order, v, |shape|, k);
    ElementsOfRectangular(v, shape);
  }

  /** Values of one shape are written in stretches of one size, one after the other. */
  lemma {:induction false} AllEncodedAt(order: ByteOrder, vs: seq<Value>, shape: seq<nat>, k: Kind, i: nat, size: nat)
    requires forall j :: 0 <= j < |vs| ==> Typed(vs[j], |shape|, k) && HasShape(vs[j], shape)
    requires i < |vs| && EncodeAll(order, vs, |shape|, k).Ok? && size == Width(k) * Product(shape)
    ensures Encode(order, vs[i], |shape|, k).Ok? && |Encode(order, vs[i], |shape|, k).value| == size
    ensures var part, all := Encode(order, vs[i], |shape|, k).value, EncodeAll(order, vs, |shape|, k).value;
            Times(i, size) + size <= |all| && all[Times(i, size)..Times(i, size) + size] == part
    decreases i
  {
    RectangularSize(order, vs[0], shape, k);
    var first, rest := Encode(order, vs[0], |shape|, k).value, EncodeAll(order, vs[1..], |shape|, k).value;
    if i > 0 {
      AllEncodedAt(order, vs[1..], shape, k, i - 1, size);
      SliceOfSuffix(first, rest, Times(i - 1, size), Times(i - 1, size) + size);
    }
  }

  /** Decoding along the shape gives the value back and consumes exactly its bytes. */
  lemma {:induction false} RectangularDecoded(order: ByteOrder, v: Value, shape: seq<nat>, k: Kind, tail: seq<byte>)
    requires Typed(v, |shape|, k) && HasShape(v, shape) && Encode(order, v, |shape|, k).Ok?
    ensures Decode(order, shape, k, Encode(order, v, |shape|, k).value + tail) == Ok((v, tail))
    decreases |shape|, 0, 0
  {
    if shape == [] {
      var bs := WordBytes(order, v.bits, Width(k));
      WordRoundTrip(order, v.bits, Width(k));
      assert (bs + tail)[..Width(k)] == bs && (bs + tail)[Width(k)..] == tail;
    } else {
      AllDecoded(order, v.elems, shape[1..], k, tail);
    }
  }

  lemma {:induction false} AllDecoded(order: ByteOrder, vs: seq<Value>, shape: seq<nat>, k: Kind, tail: seq<byte>)
    requires forall i :: 0 <= i < |vs| ==> Typed(vs[i], |shape|, k) && HasShape(vs[i], shape)
    requires EncodeAll(order, vs, |shape|, k).Ok?
    ensures DecodeAll(order, shape, k, |vs|, EncodeAll(order, vs, |shape|, k).value + tail) == Ok((vs, tail))
    decreases |shape|, 1, |vs|
  {
    if vs == [] {
      assert [] + tail == tail;
    } else {
      var first, rest := Encode(order, vs[0], |shape|, k).value, EncodeAll(order, vs[1..], |shape|, k).value;
      AllDecoded(order, vs[1..], shape, k, tail);
      RectangularDecoded(order, vs[0], shape, k, rest + tail);
      Associate(first, rest, tail);
      SplitAt(vs, 1);
      assert vs[..1] == [vs[0]];
    }
  }

  lemma OneMore(w: nat, n: nat, p: int)
    requires n > 0
    ensures w * p + w * ((n - 1) * p) == w * (n * p)
  {
    assert n * p == p + (n - 1) * p;
  }

  /** Whatever decoding yields has the shape it was told. */
  lemma {:induction false} DecodedHasShape(order: ByteOrder, shape: seq<nat>, k: Kind, bs: seq<byte>)
    ensures var r := Decode(order, shape, k, bs); r.Ok? ==> HasShape(r.value.0, shape)
    decreases |shape|, 0, 0
  {
    if shape != [] {
      AllDecodedHaveShape(order, shape[1..], k, shape[0], bs);
    }
  }

  predicate AllHaveShape(vs: seq<Value>, shape: seq<nat>) {
    forall i :: 0 <= i < |vs| ==> HasShape(vs[i], shape)
  }

  lemma AllAfterFirst(first: Value, rest: seq<Value>, shape: seq<nat>)
    requires HasShape(first, shape) && AllHaveShape(rest, shape)
    ensures AllHaveShape([first] + rest, shape)
  {
    forall i | 0 <= i < |[first] + rest| ensures HasShape(([first] + rest)[i], shape) {
      assert i > 0 ==> ([first] + rest)[i] == rest[i - 1];
    }
  }

  lemma {:induction false} AllDecodedHaveShape(order: ByteOrder, shape: seq<nat>, k: Kind, n: nat, bs: seq<byte>)
    ensures var r := DecodeAll(order, shape, k, n, bs); r.Ok? ==> AllHaveShape(r.value.0, shape)
    decreases |shape|, 1, n
  {
    if n > 0 {
      DecodedHasShape(order, shape, k, bs);
      var first := Decode(order, shape, k, bs);
      if first.Ok? {
        AllDecodedHaveShape(order, shape, k, n - 1, first.value.1);
        var rest := DecodeAll(order, shape, k, n - 1, first.value.1);
        if rest.Ok? {
          AllAfterFirst(first.value.0, rest.value.0, shape);
        }
      }
    }
  }

  /** Decoding succeeds exactly when there are bytes enough, or no element to read. */
  lemma {:induction false} DecodeOkIff(order: ByteOrder, shape: seq<nat>, k: Kind, bs: seq<byte>)
    ensures var r := Decode(order, shape, k, bs);
            && (r.Ok? <==> Supported(k, shape) && Width(k) * Product(shape) <= |bs|)
            && (r.Ok? ==> |r.value.1| == |bs| - Width(k) * Product(shape))
    decreases |shape|, 0, 0
  {
    if shape != [] {
      var p := Product(shape[1..]);
      ProductSign(shape[1..]);
      AllDecodeOkIff(order, shape[1..], k, shape[0], bs, Width(k) * p);
      TimesIsProduct(shape[0], Width(k) * p);
      MulReorder(Width(k), shape[0], p);
      SupportedStep(k, shape);
    }
  }

  lemma SupportedStep(k: Kind, shape: seq<nat>)
    requires shape != []
    ensures Supported(k, shape) <==> shape[0] == 0 || Supported(k, shape[1..])
  {
    if shape[0] * Product(shape[1..]) != 0 {
      NonZeroFactors(shape[0], Product(shape[1..]));
    } else if shape[0] != 0 {
      ZeroFactor(shape[0], Product(shape[1..]));
    }
  }

  lemma ZeroFactor(a: int, b: int)
    requires a * b == 0 && a != 0
    ensures b == 0
  {
  }

  lemma {:induction false} AllDecodeOkIff(order: ByteOrder, shape: seq<nat>, k: Kind, n: nat, bs: seq<byte>, size: nat)
    requires size == Width(k) * Product(shape)
    ensures var r := DecodeAll(order, shape, k, n, bs);
            && (r.Ok? <==> (n == 0 || Supported(k, shape)) && Times(n, size) <= |bs|)
            && (r.Ok? ==> |r.value.1| == |bs| - Times(n, size))
    decreases |shape|, 1, n
  {
    if n > 0 {
      DecodeOkIff(order, shape, k, bs);
      var first := Decode(order, shape, k, bs);
      if first.Ok? {
        AllDecodeOkIff(order, shape, k, n - 1, first.value.1, size);
      }
    }
  }

  /** Whatever the bytes: what is read from them is written back as the bytes consumed. */
  lemma {:induction false} DecodedEncodesBack(order: ByteOrder, shape: seq<nat>, k: Kind, bs: seq<byte>)
    requires Decode(order, shape, k, bs).Ok?
    ensures var (v, rest) := Decode(order, shape, k, bs).value;
            && Typed(v, |shape|, k) && HasShape(v, shape) && Encode(order, v, |shape|, k).Ok?
            && Encode(order, v, |shape|, k).value + rest == bs
    decreases |shape|, 0, 0
  {
    DecodedHasShape(order, shape, k, bs);
    if shape == [] {
      var word := bs[..Width(k)];
      WordOfBytes(order, word);
      SplitAt(bs, Width(k));
    } else {
      AllDecodedEncodeBack(order, shape[1..], k, shape[0], bs);
      var vs := DecodeAll(order, shape[1..], k, shape[0], bs).value.0;
      if |shape| > 1 {
        ShapeFixesLengths(vs, shape[1..]);
      }
    }
  }

  predicate AllTyped(vs: seq<Value>, rank: nat, k: Kind) {
    forall i :: 0 <= i < |vs| ==> Typed(vs[i], rank, k)
  }

  lemma {:induction false} AllDecodedEncodeBack(order: ByteOrder, shape: seq<nat>, k: Kind, n: nat, bs: seq<byte>)
    requires DecodeAll(order, shape, k, n, bs).Ok?
    ensures var (vs, rest) := DecodeAll(order, shape, k, n, bs).value;
            && AllTyped(vs, |shape|, k) && AllHaveShape(vs, shape) && EncodeAll(order, vs, |shape|, k).Ok?
            && EncodeAll(order, vs, |shape|, k).value + rest == bs
    decreases |shape|, 1, n
  {
    if n == 0 {
      assert [] + bs == bs;
    } else {
      DecodedEncodesBack(order, shape, k, bs);
      var (first, others) := Decode(order, shape, k, bs).value;
      AllDecodedEncodeBack(order, shape, k, n - 1, others);
      var (vs, rest) := DecodeAll(order, shape, k, n - 1, others).value;
      AllAfterFirst(first, vs, shape);
      EncodeOneMore(order, first, vs, |shape|, k, others, rest, bs);
    }
  }

  lemma EncodeOneMore(order: ByteOrder, first: Value, vs: seq<Value>, rank: nat, k: Kind,
                      others: seq<byte>, rest: seq<byte>, bs: seq<byte>)
    requires Typed(first, rank, k) && AllTyped(vs, rank, k)
    requires Encode(order, first, rank, k).Ok? && EncodeAll(order, vs, rank, k).Ok?
    requires Encode(order, first, rank, k).value + others == bs && EncodeAll(order, vs, rank, k).value + rest == others
    ensures AllTyped([first] + vs, rank, k) && EncodeAll(order, [first] + vs, rank, k).Ok?
    ensures EncodeAll(order, [first] + vs, rank, k).value + rest == bs
  {
    assert ([first] + vs)[1..] == vs;
    assert forall i :: 0 < i <= |vs| ==> ([first] + vs)[i] == vs[i - 1];
    var a, b := Encode(order, first, rank, k).value, EncodeAll(order, vs, rank, k).value;
    Associate(a, b, rest);
  }

  // --- tensors --------------------------------------------------------------

  datatype Tensor = Tensor(kind: Kind, shape: seq<nat>, data: seq<byte>)

  // the limits of the C shape type
  const MAX_DIMENSIONS: nat := 255
  const MAX_ELEMENTS: nat := 0x100_0000_0000

  /**
   `AddDim` for `left` dimensions in turn, after `ndims` dimensions of `count`
   elements: each of its checks passes. The count is a 64-bit product.
   */
  predicate CanAddDims(dims: seq<nat>, left: nat, ndims: nat, count: int)
    requires left <= |dims|
    decreases left
  {
    left == 0 ||
    (ndims < MAX_DIMENSIONS &&
     var product := ToInt64(count * dims[0]);
     0 <= product <= MAX_ELEMENTS && CanAddDims(dims[1..], left - 1, ndims + 1, product))
  }

  /** The number of dimensions as `NewTensor` passes it to C, an `int`. */
  function NumDims(shape: seq<nat>): (n: int)
    ensures n <= |shape| && IsInt32(n) && exists k :: |shape| == n + k * TWO_32
  {
    var k :| |shape| == ToInt32(|shape|) + k * TWO_32;
    assert k >= 0;
    ToInt32(|shape|)
  }

  /** The C shape type holds the shape; otherwise its constructor aborts the process. */
  predicate ShapeHeld(shape: seq<nat>) {
    NumDims(shape) >= 0 && CanAddDims(shape, NumDims(shape), 0, 1)
  }

  /** `TensorShape`, as TF_AllocateTensor makes it of the dimensions passed to it. */
  method MakeTensorShape(dims: seq<nat>) returns (ok: bool)
    ensures ok == ShapeHeld(dims)
  {
    var numDims := ToInt32(|dims|);
    if numDims < 0 {
      return false;
    }
    var numElements := 1;
    assert dims[0..] == dims;
    for i := 0 to numDims
      invariant NumDims(dims) == numDims
      invariant ShapeHeld(dims) == CanAddDims(dims[i..], numDims - i, i, numElements)
    {
      assert dims[i..][0] == dims[i] && dims[i..][1..] == dims[i + 1..];
      if i >= MAX_DIMENSIONS {
        return false;
      }
      numElements := ToInt64(numElements * dims[i]);
      if numElements < 0 || numElements > MAX_ELEMENTS {
        return false;
      }
    }
    return true;
  }

  /** In terms of products: at most 255 dimensions, and each product of the first ones, wrapped, from 0 to 2^40. */
  lemma ShapeHeldMeaning(shape: seq<nat>)
    ensures ShapeHeld(shape) <==>
            && 0 <= NumDims(shape) <= 255
            && forall j :: 0 < j <= NumDims(shape) ==> PrefixInRange(shape, 1, j)
  {
    if NumDims(shape) >= 0 {
      CanAddMeaning(shape, NumDims(shape), 0, 1);
    }
  }

  /** The product of `count` and the first `j` dimensions, wrapped to 64 bits. */
  predicate PrefixInRange(dims: seq<nat>, count: int, j: nat)
    requires j <= |dims|
  {
    0 <= ToInt64(count * Product(dims[..j])) <= 0x100_0000_0000
  }

  lemma {:induction false} CanAddMeaning(dims: seq<nat>, left: nat, ndims: nat, count: int)
    requires left <= |dims| && ndims <= 255
    ensures CanAddDims(dims, left, ndims, ToInt64(count)) <==>
            ndims + left <= 255 && forall j :: 0 < j <= left ==> PrefixInRange(dims, count, j)
    decreases left
  {
    if left > 0 && ndims < 255 {
      WrapOnce(count, dims[0]);
      CanAddMeaning(dims[1..], left - 1, ndims + 1, count * dims[0]);
      FirstPrefix(dims, count);
      forall j | 0 < j < left
        ensures PrefixInRange(dims[1..], count * dims[0], j) <==> PrefixInRange(dims, count, j + 1)
      {
        NextPrefix(dims, count, j);
      }
      PrefixesInRange(dims, count, left);
    }
  }

  lemma WrapOnce(count: int, d: int)
    ensures ToInt64(ToInt64(count) * d) == ToInt64(count * d)
  {
    WrapFactor(ToInt64(count), d);
    WrapFactor(count, d);
    ToInt64Congruent(ToInt64(count) * d, count * d);
  }

  lemma FirstPrefix(dims: seq<nat>, count: int)
    requires dims != []
    ensures PrefixInRange(dims, count, 1) <==> 0 <= ToInt64(count * dims[0]) <= 0x100_0000_0000
  {
    assert dims[..1] == [dims[0]] && [dims[0]][1..] == [];
    assert Product(dims[..1]) == dims[0];
  }

  lemma NextPrefix(dims: seq<nat>, count: int, j: nat)
    requires dims != [] && j < |dims|
    ensures PrefixInRange(dims[1..], count * dims[0], j) <==> PrefixInRange(dims, count, j + 1)
  {
    assert dims[..j + 1][1..] == dims[1..][..j];
    assert count * (dims[0] * Product(dims[1..][..j])) == count * dims[0] * Product(dims[1..][..j]);
  }

  lemma PrefixesInRange(dims: seq<nat>, count: int, left: nat)
    requires 0 < left <= |dims|
    requires forall j :: 0 < j < left ==>
               (PrefixInRange(dims[1..], count * dims[0], j) <==> PrefixInRange(dims, count, j + 1))
    ensures (forall j :: 0 < j <= left ==> PrefixInRange(dims, count, j)) <==>
            PrefixInRange(dims, count, 1) && forall j :: 0 < j < left ==> PrefixInRange(dims[1..], count * dims[0], j)
  {
    if PrefixInRange(dims, count, 1) && forall j :: 0 < j < left ==> PrefixInRange(dims[1..], count * dims[0], j) {
      forall j | 0 < j <= left ensures PrefixInRange(dims, count, j) {
        if j > 1 {
          assert PrefixInRange(dims[1..], count * dims[0], j - 1);
        }
      }
    }
  }

  /** Once a dimension is zero, only the number of dimensions counts. */
  lemma {:induction false} CanAddAfterZero(dims: seq<nat>, left: nat, ndims: nat)
    requires left <= |dims| && ndims <= MAX_DIMENSIONS
    ensures CanAddDims(dims, left, ndims, 0) <==> ndims + left <= MAX_DIMENSIONS
    decreases left
  {
    if left > 0 && ndims < MAX_DIMENSIONS {
      assert 0 * dims[0] == 0;
      CanAddAfterZero(dims[1..], left - 1, ndims + 1);
    }
  }

  /** While no count exceeds the limit, only the number of dimensions counts. */
  lemma {:induction false} CanAddSmall(dims: seq<nat>, ndims: nat, count: nat)
    requires ndims <= MAX_DIMENSIONS && 0 < Product(dims) && count * Product(dims) <= MAX_ELEMENTS
    ensures CanAddDims(dims, |dims|, ndims, count) <==> ndims + |dims| <= MAX_DIMENSIONS
    decreases |dims|
  {
    if dims != [] && ndims < MAX_DIMENSIONS {
      var rest := Product(dims[1..]);
      ProductSign(dims[1..]);
      NonZeroFactors(dims[0], rest);
      assert count * dims[0] * rest == count * (dims[0] * rest);
      MulMonotone(1, rest, count * dims[0]);
      CanAddSmall(dims[1..], ndims + 1, count * dims[0]);
    }
  }

  lemma NonZeroFactors(a: int, b: int)
    requires a * b != 0
    ensures a != 0 && b != 0
  {
  }

  /** All shapes of a value are held or refused alike, since below an empty slice the count is zero. */
  lemma {:induction false} SameCanAdd(
      v: Value, shape: seq<nat>, other: seq<nat>, left: nat, ndims: nat, count: int)
    requires HasShape(v, shape) && HasShape(v, other) && left <= |shape| == |other| && ndims <= MAX_DIMENSIONS
    ensures CanAddDims(shape, left, ndims, count) <==> CanAddDims(other, left, ndims, count)
    decreases left
  {
    if left > 0 && ndims < MAX_DIMENSIONS {
      if v.elems == [] {
        assert count * shape[0] == 0;
        CanAddAfterZero(shape[1..], left - 1, ndims + 1);
        CanAddAfterZero(other[1..], left - 1, ndims + 1);
      } else {
        SameCanAdd(v.elems[0], shape[1..], other[1..], left - 1, ndims + 1, ToInt64(count * shape[0]));
      }
    }
  }

  /** The length of the array type through which `tensorData` sees a tensor's memory; slicing beyond it panics. */
  const VIEW_LIMIT: nat := 0x4000_0000

  /**
   What `NewTensor` makes of a value: refused on strings, on mismatched lengths,
   and when the bytes written are not as many as computed. `ShapeRefused` stands for
   the abort of the C shape type, and `TooLarge` for the panic in `tensorData`; both
   come before anything is encoded.
   */
  function TensorOf(order: ByteOrder, v: Value, rank: nat, k: Kind): (r: Result<Tensor>)
    requires Typed(v, rank, k)
  {
    var shape := ShapeOf(v, rank, k);
    if shape.Err? then Err(shape.error)
    else if k == String then Err(Unsupported)
    else if !ShapeHeld(shape.value) then Err(ShapeRefused)
    else if ByteSize(k, shape.value) > VIEW_LIMIT then Err(TooLarge)
    else
      var data := Encode(order, v, rank, k);
      if data.Err? then Err(data.error)
      else if |data.value| != ByteSize(k, shape.value) then Err(WrongSize)
      else Ok(Tensor(k, shape.value, data.value))
  }

  /** What `Tensor.Value` gives back; it reads the memory through the same view. */
  function ValueOf(order: ByteOrder, t: Tensor): Result<Value> {
    if |t.data| > VIEW_LIMIT then Err(TooLarge)
    else
      var r := Decode(order, t.shape, t.kind, t.data);
      if r.Ok? then Ok(r.value.0) else Err(r.error)
  }

  /**
   For every tensor: it has a value exactly when its memory fits the view and holds
   bytes enough, or no element. The value has the tensor's shape, and its bytes are
   those at the front of the memory.
   */
  lemma ValueOfMeaning(order: ByteOrder, t: Tensor)
    ensures ValueOf(order, t).Ok? <==>
            |t.data| <= 0x4000_0000 && Supported(t.kind, t.shape) && Width(t.kind) * Product(t.shape) <= |t.data|
    ensures ValueOf(order, t).Ok? ==>
              var v := ValueOf(order, t).value;
              && Typed(v, |t.shape|, t.kind) && HasShape(v, t.shape) && Encode(order, v, |t.shape|, t.kind).Ok?
              && Encode(order, v, |t.shape|, t.kind).value <= t.data
  {
    DecodeOkIff(order, t.shape, t.kind, t.data);
    if Decode(order, t.shape, t.kind, t.data).Ok? {
      DecodedEncodesBack(order, t.shape, t.kind, t.data);
    }
  }

  /**
   For every value that becomes a tensor: converting it back gives the value if
   and only if the value is rectangular.
   */
  lemma RoundTripIffRectangular(order: ByteOrder, v: Value, rank: nat, k: Kind)
    requires Typed(v, rank, k) && TensorOf(order, v, rank, k).Ok?
    ensures ValueOf(order, TensorOf(order, v, rank, k).value) == Ok(v) <==> Rectangular(v, rank)
  {
    ReadIffRectangular(order, v, rank, k, TensorOf(order, v, rank, k).value);
  }

  lemma ReadIffRectangular(order: ByteOrder, v: Value, rank: nat, k: Kind, t: Tensor)
    requires Typed(v, rank, k) && t.kind == k && |t.data| <= VIEW_LIMIT
    requires ShapeOf(v, rank, k) == Ok(t.shape) && Encode(order, v, rank, k) == Ok(t.data)
    ensures ValueOf(order, t) == Ok(v) <==> Rectangular(v, rank)
  {
    DecodedHasShape(order, t.shape, k, t.data);
    if Rectangular(v, rank) {
      var shape: seq<nat> :| |shape| == rank && HasShape(v, shape);
      ShapeOfRectangular(v, shape, k);
      ReadBack(order, v, t.shape, k);
    }
  }

  lemma ReadBack(order: ByteOrder, v: Value, shape: seq<nat>, k: Kind)
    requires Typed(v, |shape|, k) && HasShape(v, shape) && Encode(order, v, |shape|, k).Ok?
    ensures Decode(order, shape, k, Encode(order, v, |shape|, k).value) == Ok((v, []))
  {
    var data := Encode(order, v, |shape|, k).value;
    RectangularDecoded(order, v, shape, k, []);
    assert data + [] == data;
  }

  /** All shapes of a value have the same number of elements. */
  lemma {:induction false} SameProduct(v: Value, shape: seq<nat>, other: seq<nat>)
    requires HasShape(v, shape) && HasShape(v, other) && |shape| == |other|
    ensures Product(shape) == Product(other)
    decreases |shape|
  {
    if shape != [] && v.elems != [] {
      SameProduct(v.elems[0], shape[1..], other[1..]);
    }
  }

  /** A value, ragged or not, that holds an element of an unsupported kind is not written. */
  lemma UnsupportedFails(order: ByteOrder, v: Value, rank: nat, k: Kind)
    requires Typed(v, rank, k) && Elements(v, rank) > 0 && !Encodable(k)
    ensures Encode(order, v, rank, k).Err?
  {
    EncodeOkIff(order, v, rank, k);
  }

  /**
   For every value, ragged or not: it becomes a tensor exactly when it is no string,
   its slices of slices have one length each, it holds no element of an unsupported
   kind, the C shape type holds the shape found, and its elements take at most 2^30
   bytes, and as many as the shape says modulo 2^64.
   */
  lemma AcceptedIff(order: ByteOrder, v: Value, rank: nat, k: Kind)
    requires Typed(v, rank, k)
    ensures TensorOf(order, v, rank, k).Ok? <==>
            && k != String && Even(v, rank) && (Encodable(k) || Elements(v, rank) == 0)
            && ShapeOf(v, rank, k).Ok? && ShapeHeld(ShapeOf(v, rank, k).value)
            && Width(k) * Elements(v, rank) <= 0x4000_0000
            && Width(k) * Elements(v, rank) == (Width(k) * Product(ShapeOf(v, rank, k).value)) % TWO_64
    ensures var t := TensorOf(order, v, rank, k);
            t.Ok? ==> t.value.kind == k && Ok(t.value.shape) == ShapeOf(v, rank, k)
                      && Ok(t.value.data) == Encode(order, v, rank, k)
    ensures ShapeOf(v, rank, k).Err? ==> TensorOf(order, v, rank, k) == Err(MismatchedLengths)
    ensures ShapeOf(v, rank, k).Ok? && k == String ==> TensorOf(order, v, rank, k) == Err(Unsupported)
  {
    EncodeOkIff(order, v, rank, k);
    ShapeMeaning(v, rank, k);
  }

  /**
   A rectangular value becomes a tensor exactly when its kind is supported, the C
   shape type holds its shape and its elements take at most 2^30 bytes. The tensor
   then has a shape of the value and just those bytes, and its value is read back
   from them without a remainder.
   */
  lemma RectangularAcceptedIff(order: ByteOrder, v: Value, shape: seq<nat>, k: Kind)
    requires Typed(v, |shape|, k) && HasShape(v, shape)
    ensures TensorOf(order, v, |shape|, k).Ok? <==>
            k != String && Supported(k, shape) && ShapeHeld(shape) && Width(k) * Product(shape) <= 0x4000_0000
    ensures k != String && !ShapeHeld(shape) ==> TensorOf(order, v, |shape|, k) == Err(ShapeRefused)
    ensures var r := TensorOf(order, v, |shape|, k);
            r.Ok? ==>
              && HasShape(v, r.value.shape) && |r.value.data| == Width(k) * Product(shape)
              && Decode(order, r.value.shape, k, r.value.data) == Ok((v, []))
              && ValueOf(order, r.value) == Ok(v)
  {
    var found := FoundShape(v, shape, k);
    if Supported(k, shape) {
      RectangularEncoded(order, v, shape, k);
      SizeDecides(Width(k), Product(shape));
      ReadBack(order, v, found, k);
    } else {
      RectangularFails(order, v, shape, k);
    }
  }

  lemma RectangularFails(order: ByteOrder, v: Value, shape: seq<nat>, k: Kind)
    requires Typed(v, |shape|, k) && HasShape(v, shape) && !Supported(k, shape)
    ensures Encode(order, v, |shape|, k).Err?
  {
    ElementsOfRectangular(v, shape);
    ProductSign(shape);
    UnsupportedFails(order, v, |shape|, k);
  }

  /** What is found for a rectangular value stands for any of its shapes. */
  lemma FoundShape(v: Value, shape: seq<nat>, k: Kind) returns (found: seq<nat>)
    requires Typed(v, |shape|, k) && HasShape(v, shape)
    ensures ShapeOf(v, |shape|, k) == Ok(found) && HasShape(v, found) && |found| == |shape|
    ensures Product(found) == Product(shape) && (ShapeHeld(found) <==> ShapeHeld(shape))
  {
    ShapeOfRectangular(v, shape, k);
    found := ShapeOf(v, |shape|, k).value;
    SameProduct(v, shape, found);
    if NumDims(shape) >= 0 {
      SameCanAdd(v, shape, found, NumDims(shape), 0, 1);
    }
  }

  /** For a value without a zero dimension, the C shape type limits only the rank: at most 255, as C is told it. */
  lemma NonEmptyAcceptedIff(order: ByteOrder, v: Value, shape: seq<nat>, k: Kind)
    requires Typed(v, |shape|, k) && HasShape(v, shape) && Product(shape) != 0 && |shape| <= INT32_MAX
    ensures TensorOf(order, v, |shape|, k).Ok? <==>
            Encodable(k) && |shape| <= 255 && Width(k) * Product(shape) <= 0x4000_0000
  {
    RectangularAcceptedIff(order, v, shape, k);
    ProductSign(shape);
    if Width(k) * Product(shape) <= VIEW_LIMIT {
      MulMonotone(1, Width(k), Product(shape));
      CanAddSmall(shape, 0, 1);
    }
  }

  /** The wrapped size is within the view and right exactly when the true size is within the view. */
  lemma SizeDecides(w: nat, p: int)
    requires 0 <= w * p
    ensures Scaled(w, p) <= VIEW_LIMIT && w * p == Scaled(w, p) <==> w * p <= VIEW_LIMIT
  {
    if w * p <= VIEW_LIMIT {
      NoWrap64(w * p);
    }
  }

  // --- values that are refused ----------------------------------------------

  function Copies(v: Value, n: nat): (vs: seq<Value>)
    ensures |vs| == n && forall i :: 0 <= i < n ==> vs[i] == v
  {
    if n == 0 then [] else [v] + Copies(v, n - 1)
  }

  /** A value of the given shape, all of zeros. */
  function Zero(shape: seq<nat>): Value
    decreases |shape|
  {
    if shape == [] then Scalar(0) else Slice(Copies(Zero(shape[1..]), shape[0]))
  }

  lemma {:induction false} ZeroHasShape(shape: seq<nat>, k: Kind)
    ensures Typed(Zero(shape), |shape|, k) && HasShape(Zero(shape), shape)
    decreases |shape|
  {
    if shape != [] {
      ZeroHasShape(shape[1..], k);
    }
  }

  /** A slice of one byte more than the view holds is refused with a panic. */
  lemma LargeSliceRefused(order: ByteOrder, shape: seq<nat>)
    requires shape == [0x4000_0001]
    ensures Typed(Zero(shape), 1, Uint8) && TensorOf(order, Zero(shape), 1, Uint8) == Err(TooLarge)
  {
    ZeroHasShape(shape, Uint8);
    var found := FoundShape(Zero(shape), shape, Uint8);
    assert shape[1..] == [];
    CanAddSmall(shape, 0, 1);
    NoWrap64(VIEW_LIMIT + 1);
  }

  function Ones(n: nat): (shape: seq<nat>)
    ensures |shape| == n
  {
    if n == 0 then [] else [1] + Ones(n - 1)
  }

  lemma {:induction false} ProductOfOnes(n: nat)
    ensures Product(Ones(n)) == 1
  {
    if n > 0 {
      ProductOfOnes(n - 1);
      assert Ones(n)[1..] == Ones(n - 1);
    }
  }

  /** One byte within n brackets is accepted up to 255 brackets, and beyond them the shape type aborts. */
  lemma DeepValueRefused(order: ByteOrder, n: nat)
    requires n <= INT32_MAX
    ensures Typed(Zero(Ones(n)), n, Uint8) && Width(Uint8) * Product(Ones(n)) == 1
    ensures TensorOf(order, Zero(Ones(n)), n, Uint8).Ok? <==> n <= 255
    ensures n > 255 ==> TensorOf(order, Zero(Ones(n)), n, Uint8) == Err(ShapeRefused)
  {
    ZeroHasShape(Ones(n), Uint8);
    ProductOfOnes(n);
    CanAddSmall(Ones(n), 0, 1);
    RectangularAcceptedIff(order, Zero(Ones(n)), Ones(n), Uint8);
  }

  /** A value without elements whose count passes 2^40 before its zero dimension: 2^14 by 2^14 by 2^14 by none. */
  lemma PassingCountRefused(order: ByteOrder, shape: seq<nat>)
    requires shape == [0x4000, 0x4000, 0x4000, 0]
    ensures Typed(Zero(shape), 4, Uint8) && Product(shape) == 0
    ensures TensorOf(order, Zero(shape), 4, Uint8) == Err(ShapeRefused)
  {
    ZeroHasShape(shape, Uint8);
    var two, three := shape[1..], shape[1..][1..];
    assert two[1..] == three && three == [0x4000, 0] && three[1..] == [0] && Product(three[1..]) == 0;
    assert Product(three) == 0 && Product(two) == 0;
    assert !CanAddDims(three, 2, 2, 0x1000_0000);
    assert !CanAddDims(two, 3, 1, 0x4000);
    assert !CanAddDims(shape, 4, 0, 1);
    RectangularAcceptedIff(order, Zero(shape), shape, Uint8);
  }

  /** Empty slices are accepted up to 2^40 of them; beyond that the shape type aborts. */
  lemma ManyEmptyRefused(order: ByteOrder, n: nat, shape: seq<nat>)
    requires shape == [n, 0] && n <= INT64_MAX
    ensures Typed(Zero(shape), 2, Uint8) && Product(shape) == 0
    ensures TensorOf(order, Zero(shape), 2, Uint8).Ok? <==> n <= 0x100_0000_0000
    ensures n > 0x100_0000_0000 ==> TensorOf(order, Zero(shape), 2, Uint8) == Err(ShapeRefused)
  {
    ZeroHasShape(shape, Uint8);
    assert shape[1..] == [0] && Product(shape[1..]) == 0;
    CanAddAfterTwo(n, shape);
    RectangularAcceptedIff(order, Zero(shape), shape, Uint8);
  }

  lemma CanAddAfterTwo(n: nat, shape: seq<nat>)
    requires shape == [n, 0] && n <= INT64_MAX
    ensures CanAddDims(shape, 2, 0, 1) <==> n <= 0x100_0000_0000
  {
    assert shape[1..][0] == 0 && ToInt64(n * 0) == 0 && ToInt64(1 * n) == n;
    assert CanAddDims(shape[1..], 1, 1, n);
  }

  /** Up to rank two the checks on lengths leave only rectangular values. */
  lemma LowRankIsRectangular(v: Value, rank: nat, k: Kind)
    requires Typed(v, rank, k) && rank <= 2 && ShapeOf(v, rank, k).Ok?
    ensures Rectangular(v, rank)
  {
    var shape := ShapeOf(v, rank, k).value;
    if rank == 2 && v.elems != [] {
      forall i | 0 <= i < |v.elems| ensures HasShape(v.elems[i], shape[1..]) {
        assert Len(v.elems[i]) == shape[1];
        assert shape[1..][1..] == [];
      }
    }
    assert HasShape(v, shape);
  }

  /** Three matrices with one, two and no column: [[[1] [1]] [[2 2] [2 2]] [[] []]]. */
  function Ragged(): Value {
    Slice([Pair(Slice([Scalar(1)])), Pair(Slice([Scalar(2), Scalar(2)])), Pair(Slice([]))])
  }

  function Pair(x: Value): Value {
    Slice([x, x])
  }

  /** From rank three on a ragged value of the right size is accepted, and comes back changed. */
  lemma RaggedAccepted(order: ByteOrder, v: Value)
    requires v == Ragged()
    ensures Typed(v, 3, Uint8) && TensorOf(order, v, 3, Uint8).Ok? && !Rectangular(v, 3)
    ensures ValueOf(order, TensorOf(order, v, 3, Uint8).value) != Ok(v)
  {
    RaggedShape();
    RaggedEncoded(order);
    ProductOf321();
    SmallShapeHeld([3, 2, 1]);
    AcceptedBySize(order, v, 3, Uint8, [3, 2, 1]);
    UnequalColumns();
    RoundTripIffRectangular(order, v, 3, Uint8);
  }

  lemma SmallShapeHeld(shape: seq<nat>)
    requires |shape| <= MAX_DIMENSIONS && 0 < Product(shape) <= MAX_ELEMENTS
    ensures ShapeHeld(shape)
  {
    CanAddSmall(shape, 0, 1);
  }

  /** Only the number of bytes is compared, not the shape at every element. */
  lemma AcceptedBySize(order: ByteOrder, v: Value, rank: nat, k: Kind, shape: seq<nat>)
    requires Typed(v, rank, k) && k != String && ShapeOf(v, rank, k) == Ok(shape) && ShapeHeld(shape)
    requires var data := Encode(order, v, rank, k); data.Ok? && |data.value| == Width(k) * Product(shape) <= VIEW_LIMIT
    ensures TensorOf(order, v, rank, k) == Ok(Tensor(k, shape, Encode(order, v, rank, k).value))
  {
    NoWrap64(Width(k) * Product(shape));
  }

  lemma RaggedShape()
    ensures Typed(Ragged(), 3, Uint8) && ShapeOf(Ragged(), 3, Uint8) == Ok([3, 2, 1])
  {
    var v := Ragged();
    var p, q, r := v.elems[0], v.elems[1], v.elems[2];
    assert Power256(1) == 256 * Power256(0);
    assert Typed(p.elems[0], 1, Uint8) && Typed(q.elems[0], 1, Uint8) && Typed(r.elems[0], 1, Uint8);
    assert Typed(p, 2, Uint8) && Typed(q, 2, Uint8) && Typed(r, 2, Uint8);
    var shape: seq<nat> := [3, 2, 1];
    assert shape[1..][1..] == shape[2..] && shape[2..][1..] == [];
    ShapeOfFirst(p.elems[0], shape[2..], Uint8);
    ShapeOfFirst(p, shape[1..], Uint8);
    ShapeOfFirst(v, shape, Uint8);
  }

  lemma RaggedEncoded(order: ByteOrder)
    requires Typed(Ragged(), 3, Uint8)
    ensures var e := Encode(order, Ragged(), 3, Uint8); e.Ok? && |e.value| == 6
  {
    RaggedElements();
    RaggedEven();
    EncodeOkIff(order, Ragged(), 3, Uint8);
  }

  lemma RaggedElements()
    ensures Elements(Ragged(), 3) == 6
  {
    var v := Ragged();
    var one, two := Scalar(1), Scalar(2);
    assert [two, two][1..] == [two] && [two][1..] == [] && [one][1..] == [];
    assert AllElements([two], 0) == 1 && AllElements([two, two], 0) == 2 && AllElements([one], 0) == 1;
    ElementsOfPair(Slice([one]), 1);
    ElementsOfPair(Slice([two, two]), 1);
    ElementsOfPair(Slice([]), 1);
    var p, q, r := v.elems[0], v.elems[1], v.elems[2];
    assert [p, q, r][1..] == [q, r] && [q, r][1..] == [r] && [r][1..] == [];
    assert AllElements([r], 2) == 0 && AllElements([q, r], 2) == 4;
  }

  lemma ElementsOfPair(x: Value, rank: nat)
    ensures Elements(Pair(x), rank + 1) == 2 * Elements(x, rank)
  {
    assert [x, x][1..] == [x] && [x][1..] == [];
    assert AllElements([x], rank) == Elements(x, rank);
  }

  lemma RaggedEven()
    ensures Even(Ragged(), 3)
  {
    var v := Ragged();
    forall i | 0 <= i < 3 ensures Even(v.elems[i], 2) {
      var x := v.elems[i].elems[0];
      assert Even(x, 1);
    }
  }

  lemma UnequalColumns()
    ensures !Rectangular(Ragged(), 3)
  {
    var v := Ragged();
    if Rectangular(v, 3) {
      var shape: seq<nat> :| |shape| == 3 && HasShape(v, shape);
      EqualColumns(v, shape);
    }
  }

  lemma EqualColumns(v: Value, shape: seq<nat>)
    requires |shape| == 3 && HasShape(v, shape) && |v.elems| > 1 && Len(v.elems[0]) > 0 && Len(v.elems[1]) > 0
    ensures Len(v.elems[0].elems[0]) == Len(v.elems[1].elems[0])
  {
    var rest := shape[1..][1..];
    assert HasShape(v.elems[0], shape[1..]) && HasShape(v.elems[1], shape[1..]);
    assert HasShape(v.elems[0].elems[0], rest) && HasShape(v.elems[1].elems[0], rest);
  }

  lemma ShapeOfFirst(v: Value, shape: seq<nat>, k: Kind)
    requires shape != [] && Typed(v, |shape|, k) && v.elems != [] && SameLengths(v.elems)
    requires ShapeOf(v.elems[0], |shape| - 1, k) == Ok(shape[1..]) && |v.elems| == shape[0]
    ensures ShapeOf(v, |shape|, k) == Ok(shape)
  {
    assert [shape[0]] + shape[1..] == shape;
  }

  lemma ProductOf321()
    ensures Product([3, 2, 1]) == 6
  {
    assert [3, 2, 1][1..] == [2, 1] && [2, 1][1..] == [1] && [1][1..] == [];
  }

  // --- the code as it runs --------------------------------------------------

  /** The buffer that encodeTensor writes to. */
  class Buffer {
    var data: seq<byte>

    constructor ()
      ensures data == []
    {
      data := [];
    }
  }

  function Behind(done: seq<byte>, r: Result<seq<byte>>): Result<seq<byte>> {
    if r.Ok? then Ok(done + r.value) else r
  }

  lemma BehindStep(done: seq<byte>, order: ByteOrder, vs: seq<Value>, i: nat, rank: nat, k: Kind)
    requires i < |vs| && forall j :: 0 <= j < |vs| ==> Typed(vs[j], rank, k)
    ensures var first := Encode(order, vs[i], rank, k);
            Behind(done, EncodeAll(order, vs[i..], rank, k)) ==
              if first.Ok? then Behind(done + first.value, EncodeAll(order, vs[i + 1..], rank, k)) else first
  {
    var first, rest := Encode(order, vs[i], rank, k), EncodeAll(order, vs[i + 1..], rank, k);
    assert vs[i..][0] == vs[i] && vs[i..][1..] == vs[i + 1..];
    if first.Ok? && rest.Ok? {
      assert done + (first.value + rest.value) == done + first.value + rest.value;
    }
  }

  /** `encodeTensor`: writes an element, or checks a slice and descends into its elements one by one. */
  method EncodeTensor(order: ByteOrder, w: Buffer, v: Value, rank: nat, k: Kind) returns (r: Result<()>)
    requires Typed(v, rank, k)
    modifies w
    ensures var bytes := Encode(order, v, rank, k);
            && (bytes.Ok? ==> r == Ok(()) && w.data == old(w.data) + bytes.value)
            && (bytes.Err? ==> r == Err(bytes.error))
    decreases rank, 0
  {
    if v.Scalar? {
      if !Encodable(k) {
        return Err(Unsupported);
      }
      w.data := w.data + WordBytes(order, v.bits, Width(k));
      return Ok(());
    }
    if |v.elems| > 0 && rank > 1 {
      var same := CheckLengths(v.elems);
      if !same {
        return Err(MismatchedLengths);
      }
    }
    r := EncodeElements(order, w, v.elems, rank - 1, k);
  }

  /** The loop of encodeTensor over the elements of a slice. */
  method EncodeElements(order: ByteOrder, w: Buffer, vs: seq<Value>, rank: nat, k: Kind) returns (r: Result<()>)
    requires forall i :: 0 <= i < |vs| ==> Typed(vs[i], rank, k)
    modifies w
    ensures var bytes := EncodeAll(order, vs, rank, k);
            && (bytes.Ok? ==> r == Ok(()) && w.data == old(w.data) + bytes.value)
            && (bytes.Err? ==> r == Err(bytes.error))
    decreases rank, 1
  {
    ghost var whole := Behind(w.data, EncodeAll(order, vs, rank, k));
    assert vs[0..] == vs;
    for i := 0 to |vs|
      invariant whole == Behind(w.data, EncodeAll(order, vs[i..], rank, k))
    {
      BehindStep(w.data, order, vs, i, rank, k);
      var e := EncodeTensor(order, w, vs[i], rank, k);
      if e.Err? {
        return e;
      }
    }
    assert w.data + [] == w.data;
    return Ok(());
  }

  /** The reader that decodeTensor reads from. */
  class Reader {
    var rest: seq<byte>

    constructor (data: seq<byte>)
      ensures rest == data
    {
      rest := data;
    }
  }

  lemma DecodeAllStep(order: ByteOrder, shape: seq<nat>, k: Kind, done: seq<Value>, n: nat, bs: seq<byte>)
    requires n > 0
    ensures var first := Decode(order, shape, k, bs);
            After(done, DecodeAll(order, shape, k, n, bs)) ==
              if first.Ok? then After(done + [first.value.0], DecodeAll(order, shape, k, n - 1, first.value.1))
              else Err(first.error)
  {
    var first := Decode(order, shape, k, bs);
    if first.Ok? {
      var rest := DecodeAll(order, shape, k, n - 1, first.value.1);
      if rest.Ok? {
        assert done + ([first.value.0] + rest.value.0) == done + [first.value.0] + rest.value.0;
      }
    }
  }

  function After(done: seq<Value>, r: Result<(seq<Value>, seq<byte>)>): Result<(seq<Value>, seq<byte>)> {
    if r.Ok? then Ok((done + r.value.0, r.value.1)) else r
  }

  /** `decodeTensor`: reads an element, or makes a slice of the first dimension's length and fills it. */
  method DecodeTensor(order: ByteOrder, r: Reader, shape: seq<nat>, k: Kind) returns (v: Result<Value>)
    modifies r
    ensures var d := Decode(order, shape, k, old(r.rest));
            && (d.Ok? ==> v == Ok(d.value.0) && r.rest == d.value.1)
            && (d.Err? ==> v == Err(d.error))
    decreases |shape|
  {
    if shape == [] {
      if !Encodable(k) {
        return Err(Unsupported);
      }
      if |r.rest| < Width(k) {
        return Err(EndOfInput);
      }
      var bits := WordValue(order, r.rest[..Width(k)]);
      r.rest := r.rest[Width(k)..];
      return Ok(Scalar(bits));
    }
    var elems: seq<Value> := [];
    ghost var all := DecodeAll(order, shape[1..], k, shape[0], r.rest);
    assert all.Ok? ==> [] + all.value.0 == all.value.0;
    for i := 0 to shape[0]
      invariant all == After(elems, DecodeAll(order, shape[1..], k, shape[0] - i, r.rest))
    {
      DecodeAllStep(order, shape[1..], k, elems, shape[0] - i, r.rest);
      var e := DecodeTensor(order, r, shape[1..], k);
      if e.Err? {
        return e;
      }
      elems := elems + [e.value];
    }
    assert elems + [] == elems;
    return Ok(Slice(elems));
  }

  /** `NewTensor`: shape, size, encoding into the tensor's memory, and the check of the size. */
  method NewTensor(order: ByteOrder, value: Value, rank: nat, k: Kind) returns (t: Result<Tensor>)
    requires Typed(value, rank, k)
    ensures t == TensorOf(order, value, rank, k)
  {
    var shape := ShapeAndDataTypeOf(value, rank, k);
    if shape.Err? {
      return Err(shape.error);
    }
    if k == String {
      return Err(Unsupported);
    }
    var nbytes := ByteSizeOf(k, shape.value);
    var held := MakeTensorShape(shape.value);
    if !held {
      return Err(ShapeRefused);
    }
    if nbytes > VIEW_LIMIT {
      return Err(TooLarge);
    }
    var buf := new Buffer();
    var e := EncodeTensor(order, buf, value, rank, k);
    if e.Err? {
      return Err(e.error);
    }
    assert buf.data == Encode(order, value, rank, k).value;
    if |buf.data| != nbytes {
      return Err(WrongSize);
    }
    return Ok(Tensor(k, shape.value, buf.data));
  }

  /** `Tensor.Value`. */
  method TensorValue(order: ByteOrder, t: Tensor) returns (v: Result<Value>)
    ensures v == ValueOf(order, t)
  {
    if |t.data| > VIEW_LIMIT {
      return Err(TooLarge);
    }
    var r := new Reader(t.data);
    v := DecodeTensor(order, r, t.shape, t.kind);
  }
}
