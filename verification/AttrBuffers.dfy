/**
 List-valued attributes in the C API (c/c_api.cc): the metadata call that tells
 a caller how large its buffers must be, and the getters that fill them.
 */
module AttrBuffers {
  import opened Bytes
  import opened Options
  import opened Sequences

  datatype Shape = UnknownRank | Dims(dims: seq<int>)

  /** A list value. For element types other than strings and shapes only the length matters here. */
  datatype ListValue = ListValue(
    s: seq<Text>, i: nat, f: nat, b: nat, types: nat, shape: seq<Shape>, tensor: nat)

  /** `Unset` is the type of metadata that no branch has written to. */
  datatype AttrType = String | Int | Float | Bool | Type | Shape | Tensor | Unset

  /** An attribute as the definition of the operation declares it. */
  datatype AttrDef = AttrDef(name: string, typeName: string)

  datatype Metadata = Metadata(attrType: AttrType, listSize: int, totalSize: int)

  function Rank(s: Shape): int {
    match s
    case UnknownRank => -1
    case Dims(dims) => |dims|
  }

  /** The dimensions kept of a shape; there are none for an unknown rank. */
  function Kept(s: Shape): seq<int> {
    match s
    case UnknownRank => []
    case Dims(dims) => dims
  }

  // --- consecutive placement ------------------------------------------------

  /** Where string `i` starts when strings are stored one after the other. */
  function Start(ss: seq<Text>, i: nat): nat
    requires i <= |ss|
  {
    if i == 0 then 0 else Start(ss, i - 1) + |ss[i - 1]|
  }

  /** The first `i` strings, one after the other. */
  function Flat(ss: seq<Text>, i: nat): (r: Text)
    requires i <= |ss|
    ensures |r| == Start(ss, i)
  {
    if i == 0 then [] else Flat(ss, i - 1) + ss[i - 1]
  }

  /** The place of each string ends where the next begins. */
  lemma {:induction false} StartGrows(ss: seq<Text>, i: nat, n: nat)
    requires i < n <= |ss|
    ensures Start(ss, 0) == 0 && Start(ss, i) + |ss[i]| == Start(ss, i + 1) <= Start(ss, n)
    decreases n
  {
    if i < n - 1 {
      StartGrows(ss, i, n - 1);
    }
  }

  lemma {:induction false} FlatGrows(ss: seq<Text>, i: nat, n: nat)
    requires i <= n <= |ss|
    ensures Flat(ss, i) <= Flat(ss, n)
    decreases n
  {
    if i < n {
      FlatGrows(ss, i, n - 1);
    }
  }

  /** Each string lies in its own place. */
  lemma FlatAt(ss: seq<Text>, i: nat, n: nat)
    requires i < n <= |ss|
    ensures Start(ss, i) <= Start(ss, i + 1) <= Start(ss, n)
    ensures Flat(ss, n)[Start(ss, i)..Start(ss, i + 1)] == ss[i]
  {
    FlatGrows(ss, i + 1, n);
    SliceInside(Flat(ss, i), ss[i], Flat(ss, n));
  }

  /** The same for the kept dimensions of shapes. */
  function DimStart(shapes: seq<Shape>, i: nat): nat
    requires i <= |shapes|
  {
    if i == 0 then 0 else DimStart(shapes, i - 1) + |Kept(shapes[i - 1])|
  }

  function DimFlat(shapes: seq<Shape>, i: nat): (r: seq<int>)
    requires i <= |shapes|
    ensures |r| == DimStart(shapes, i)
  {
    if i == 0 then [] else DimFlat(shapes, i - 1) + Kept(shapes[i - 1])
  }

  lemma {:induction false} DimStartGrows(shapes: seq<Shape>, i: nat, n: nat)
    requires i < n <= |shapes|
    ensures DimStart(shapes, 0) == 0
    ensures DimStart(shapes, i + 1) == DimStart(shapes, i) + if shapes[i].UnknownRank? then 0 else |shapes[i].dims|
    ensures DimStart(shapes, i + 1) <= DimStart(shapes, n)
    decreases n
  {
    if i < n - 1 {
      DimStartGrows(shapes, i, n - 1);
    }
  }

  lemma {:induction false} DimFlatGrows(shapes: seq<Shape>, i: nat, n: nat)
    requires i <= n <= |shapes|
    ensures DimFlat(shapes, i) <= DimFlat(shapes, n)
    decreases n
  {
    if i < n {
      DimFlatGrows(shapes, i, n - 1);
    }
  }

  lemma DimFlatAt(shapes: seq<Shape>, i: nat, n: nat)
    requires i < n <= |shapes|
    ensures DimStart(shapes, i) <= DimStart(shapes, i + 1) <= DimStart(shapes, n)
    ensures DimFlat(shapes, n)[DimStart(shapes, i)..DimStart(shapes, i + 1)] == Kept(shapes[i])
  {
    DimFlatGrows(shapes, i + 1, n);
    SliceInside(DimFlat(shapes, i), Kept(shapes[i]), DimFlat(shapes, n));
  }

  function DimStarts(shapes: seq<Shape>, n: nat): (r: seq<int>)
    requires n <= |shapes|
    ensures |r| == n
  {
    if n == 0 then [] else DimStarts(shapes, n - 1) + [DimStart(shapes, n - 1)]
  }

  function Starts(ss: seq<Text>, n: nat): (r: seq<int>)
    requires n <= |ss|
    ensures |r| == n
  {
    if n == 0 then [] else Starts(ss, n - 1) + [Start(ss, n - 1)]
  }

  function Lengths(ss: seq<Text>, n: nat): (r: seq<int>)
    requires n <= |ss|
    ensures |r| == n
  {
    if n == 0 then [] else Lengths(ss, n - 1) + [|ss[n - 1]|]
  }

  function Ranks(shapes: seq<Shape>, n: nat): (r: seq<int>)
    requires n <= |shapes|
    ensures |r| == n
  {
    if n == 0 then [] else Ranks(shapes, n - 1) + [Rank(shapes[n - 1])]
  }

  lemma {:induction false} StartsAt(ss: seq<Text>, i: nat, n: nat)
    requires i < n <= |ss|
    ensures Starts(ss, n)[i] == Start(ss, i) && Lengths(ss, n)[i] == |ss[i]|
    decreases n
  {
    if i < n - 1 {
      StartsAt(ss, i, n - 1);
    }
  }

  lemma {:induction false} RanksAt(shapes: seq<Shape>, i: nat, n: nat)
    requires i < n <= |shapes|
    ensures Ranks(shapes, n)[i] == if shapes[i].UnknownRank? then -1 else |shapes[i].dims|
    ensures DimStarts(shapes, n)[i] == DimStart(shapes, i)
    decreases n
  {
    if i < n - 1 {
      RanksAt(shapes, i, n - 1);
    }
  }

  function ListType(typeName: string): Option<AttrType> {
    if typeName == "list(string)" then Some(String)
    else if typeName == "list(int)" then Some(Int)
    else if typeName == "list(float)" then Some(Float)
    else if typeName == "list(bool)" then Some(Bool)
    else if typeName == "list(type)" then Some(Type)
    else if typeName == "list(shape)" then Some(Shape)
    else if typeName == "list(tensor)" then Some(Tensor)
    else None
  }

  /** The seven list types, by their names in an operation's definition. */
  lemma ListTypeNames(typeName: string)
    ensures ListType("list(string)") == Some(String) && ListType("list(int)") == Some(Int)
    ensures ListType("list(float)") == Some(Float) && ListType("list(bool)") == Some(Bool)
    ensures ListType("list(type)") == Some(Type) && ListType("list(shape)") == Some(Shape)
    ensures ListType("list(tensor)") == Some(Tensor)
    ensures ListType(typeName).None? <==>
            typeName !in {"list(string)", "list(int)", "list(float)", "list(bool)", "list(type)", "list(shape)",
                          "list(tensor)"}
  {
  }

  /** The type of an empty list: every declaration under its name is looked at, and an unknown one ends the search. */
  function DeclaredType(defs: seq<AttrDef>, name: string, found: AttrType): Option<AttrType> {
    if defs == [] then Some(found)
    else if defs[0].name != name then DeclaredType(defs[1..], name, found)
    else
      match ListType(defs[0].typeName)
      case None => None
      case Some(t) => DeclaredType(defs[1..], name, t)
  }

  /** With distinct names, as a definition has them, that is the type declared under the name, or none at all. */
  lemma {:induction false} DeclaredTypeIsTheOne(defs: seq<AttrDef>, name: string, found: AttrType)
    requires DistinctNames(defs)
    ensures forall i :: 0 <= i < |defs| && defs[i].name == name ==>
              DeclaredType(defs, name, found) == ListType(defs[i].typeName)
    ensures (forall i :: 0 <= i < |defs| ==> defs[i].name != name) ==> DeclaredType(defs, name, found) == Some(found)
  {
    if defs != [] {
      var rest := defs[1..];
      assert forall i :: 0 <= i < |rest| ==> rest[i] == defs[i + 1];
      assert forall i :: 0 < i < |defs| ==> defs[i] == rest[i - 1];
      DeclaredTypeIsTheOne(rest, name, found);
      if defs[0].name == name && ListType(defs[0].typeName).Some? {
        DeclaredTypeIsTheOne(rest, name, ListType(defs[0].typeName).value);
      }
    }
  }

  predicate DistinctNames(defs: seq<AttrDef>) {
    forall i, j :: 0 <= i < j < |defs| ==> defs[i].name != defs[j].name
  }

  /** The name is declared with a type that is none of the seven. */
  predicate Unrecognized(defs: seq<AttrDef>, name: string) {
    exists i :: 0 <= i < |defs| && defs[i].name == name &&
      defs[i].typeName !in {"list(string)", "list(int)", "list(float)", "list(bool)", "list(type)", "list(shape)",
                            "list(tensor)"}
  }

  /** The type of an empty list in terms of the declaration under its name. */
  lemma DeclaredTypeByName(defs: seq<AttrDef>, name: string)
    requires DistinctNames(defs)
    ensures AttrDef(name, "list(string)") in defs ==> DeclaredType(defs, name, Unset) == Some(String)
    ensures AttrDef(name, "list(int)") in defs ==> DeclaredType(defs, name, Unset) == Some(Int)
    ensures AttrDef(name, "list(float)") in defs ==> DeclaredType(defs, name, Unset) == Some(Float)
    ensures AttrDef(name, "list(bool)") in defs ==> DeclaredType(defs, name, Unset) == Some(Bool)
    ensures AttrDef(name, "list(type)") in defs ==> DeclaredType(defs, name, Unset) == Some(Type)
    ensures AttrDef(name, "list(shape)") in defs ==> DeclaredType(defs, name, Unset) == Some(Shape)
    ensures AttrDef(name, "list(tensor)") in defs ==> DeclaredType(defs, name, Unset) == Some(Tensor)
    ensures DeclaredType(defs, name, Unset) == None <==> Unrecognized(defs, name)
    ensures (forall i :: 0 <= i < |defs| ==> defs[i].name != name) ==> DeclaredType(defs, name, Unset) == Some(Unset)
  {
    DeclaredTypeIsTheOne(defs, name, Unset);
    ListTypeNames("");
    forall i | 0 <= i < |defs|
      ensures ListType(defs[i].typeName).None? <==>
              defs[i].typeName !in {"list(string)", "list(int)", "list(float)", "list(bool)", "list(type)",
                                    "list(shape)", "list(tensor)"}
    {
      ListTypeNames(defs[i].typeName);
    }
  }

  /** The loop over the definition. */
  method FindDeclaredType(defs: seq<AttrDef>, name: string) returns (t: Option<AttrType>)
    ensures t == DeclaredType(defs, name, Unset)
  {
    var found := Unset;
    assert defs[0..] == defs;
    for i := 0 to |defs|
      invariant DeclaredType(defs, name, Unset) == DeclaredType(defs[i..], name, found)
    {
      assert defs[i..][0] == defs[i] && defs[i..][1..] == defs[i + 1..];
      if defs[i].name == name {
        var listType := ListType(defs[i].typeName);
        if listType == None {
          return None;
        }
        found := listType.value;
      }
    }
    return Some(found);
  }

  /**
   `TF_OperationGetAttrMetadata` for a list: the first non-empty field decides, and
   the definition of the operation when all are empty. None is the error status
   for an unknown type.
   */
  method GetListMetadata(list: ListValue, defs: seq<AttrDef>, name: string) returns (m: Option<Metadata>)
    ensures list.s != [] ==> m == Some(Metadata(String, |list.s|, Start(list.s, |list.s|)))
    ensures list.s == [] && list.i > 0 ==> m == Some(Metadata(Int, list.i, -1))
    ensures list.s == [] && list.i == 0 && list.f > 0 ==> m == Some(Metadata(Float, list.f, -1))
    ensures list.s == [] && list.i == list.f == 0 && list.b > 0 ==> m == Some(Metadata(Bool, list.b, -1))
    ensures list.s == [] && list.i == list.f == list.b == 0 && list.types > 0 ==>
              m == Some(Metadata(Type, list.types, -1))
    ensures list.s == [] && list.i == list.f == list.b == list.types == 0 && list.shape != [] ==>
              m == Some(Metadata(Shape, |list.shape|, DimStart(list.shape, |list.shape|)))
    ensures list.s == [] && list.i == list.f == list.b == list.types == 0 && list.shape == [] && list.tensor > 0 ==>
              m == Some(Metadata(Tensor, list.tensor, -1))
    ensures list == ListValue([], 0, 0, 0, 0, [], 0) ==>
              m == match DeclaredType(defs, name, Unset) case None => None case Some(t) => Some(Metadata(t, 0, -1))
    ensures list == ListValue([], 0, 0, 0, 0, [], 0) && DistinctNames(defs) ==>
              && (AttrDef(name, "list(string)") in defs ==> m == Some(Metadata(String, 0, -1)))
              && (AttrDef(name, "list(int)") in defs ==> m == Some(Metadata(Int, 0, -1)))
              && (AttrDef(name, "list(float)") in defs ==> m == Some(Metadata(Float, 0, -1)))
              && (AttrDef(name, "list(bool)") in defs ==> m == Some(Metadata(Bool, 0, -1)))
              && (AttrDef(name, "list(type)") in defs ==> m == Some(Metadata(Type, 0, -1)))
              && (AttrDef(name, "list(shape)") in defs ==> m == Some(Metadata(Shape, 0, -1)))
              && (AttrDef(name, "list(tensor)") in defs ==> m == Some(Metadata(Tensor, 0, -1)))
              && (m == None <==> Unrecognized(defs, name))
              && ((forall i :: 0 <= i < |defs| ==> defs[i].name != name) ==> m == Some(Metadata(Unset, 0, -1)))
    ensures m == None || (m.Some? && m.value.listSize == 0) <==> list == ListValue([], 0, 0, 0, 0, [], 0)
  {
    if |list.s| > 0 {
      var total := 0;
      for k := 0 to |list.s|
        invariant total == Start(list.s, k)
      {
        total := total + |list.s[k]|;
      }
      return Some(Metadata(String, |list.s|, total));
    }
    if list.i > 0 {
      return Some(Metadata(Int, list.i, -1));
    }
    if list.f > 0 {
      return Some(Metadata(Float, list.f, -1));
    }
    if list.b > 0 {
      return Some(Metadata(Bool, list.b, -1));
    }
    if list.types > 0 {
      return Some(Metadata(Type, list.types, -1));
    }
    if |list.shape| > 0 {
      var total := 0;
      for k := 0 to |list.shape|
        invariant total == DimStart(list.shape, k)
      {
        total := total + if list.shape[k].UnknownRank? then 0 else |list.shape[k].dims|;
      }
      return Some(Metadata(Shape, |list.shape|, total));
    }
    if list.tensor > 0 {
      return Some(Metadata(Tensor, list.tensor, -1));
    }
    if DistinctNames(defs) {
      DeclaredTypeByName(defs, name);
    }
    var declared := FindDeclaredType(defs, name);
    if declared == None {
      return None;
    }
    return Some(Metadata(declared.value, 0, -1));
  }

  // --- the getters ----------------------------------------------------------

  /** How many elements a getter is asked for. */
  function Count(max: int, available: nat): (n: nat)
    ensures n <= available && (max >= 0 ==> n <= max) && (max < 0 ==> n == 0) && (n == available || n == max || max < 0)
  {
    if max <= 0 then 0 else if max <= available then max else available
  }

  /** Copies `row` to `storage[p..]`, after what is there already. */
  method Append<T>(storage: array<T>, p: nat, row: seq<T>)
    requires p + |row| <= storage.Length
    modifies storage
    ensures storage[..p + |row|] == old(storage[..p]) + row
    ensures storage[p + |row|..] == old(storage[p + |row|..])
  {
    for j := 0 to |row|
      invariant storage[..p] == old(storage[..p]) && storage[p..p + j] == row[..j]
      invariant storage[p + |row|..] == old(storage[p + |row|..])
    {
      storage[p + j] := row[j];
    }
  }

  /** Fills slot `i` of an output array, after the slots filled already. */
  method Fill(a: array<int>, i: nat, x: int)
    requires i < a.Length
    modifies a
    ensures a[..i] == old(a[..i]) && a[..i + 1] == a[..i] + [x]
  {
    a[i] := x;
  }

  lemma InTwo<T>(a: array<T>, p: nat)
    requires p <= a.Length
    ensures a[..] == a[..p] + a[p..]
  {
  }

  /**
   `TF_OperationGetAttrStringList`. Pointers into `storage` are indices. `done`
   strings are copied; the call fails at the first that does not fit.
   */
  method GetStringList(ss: seq<Text>, values: array<int>, lengths: array<int>, maxValues: int,
                       storage: array<byte>, storageSize: nat)
    returns (ok: bool, done: nat)
    requires Count(maxValues, |ss|) <= values.Length && Count(maxValues, |ss|) <= lengths.Length
    requires storageSize <= storage.Length && values != lengths
    modifies values, lengths, storage
    ensures var n := Count(maxValues, |ss|);
            && done <= n
            && (ok <==> done == n)
            && (ok <==> Start(ss, n) <= storageSize)
            && Start(ss, done) <= storageSize
            && (!ok ==> Start(ss, done + 1) > storageSize)
    ensures values[..done] == Starts(ss, done) && lengths[..done] == Lengths(ss, done)
    ensures storage[..] == Flat(ss, done) + old(storage[Start(ss, done)..])
  {
    var n := Count(maxValues, |ss|);
    var p := 0;
    done := 0;
    while done < n
      invariant done <= n && p == Start(ss, done) <= storageSize
      invariant values[..done] == Starts(ss, done) && lengths[..done] == Lengths(ss, done)
      invariant storage[..p] == Flat(ss, done)
      invariant storage[p..] == old(storage[p..])
    {
      StartGrows(ss, done, n);
      Fill(values, done, p);
      Fill(lengths, done, |ss[done]|);
      if p + |ss[done]| > storageSize {
        InTwo(storage, p);
        return false, done;
      }
      Append(storage, p, ss[done]);
      p := p + |ss[done]|;
      done := done + 1;
    }
    InTwo(storage, p);
    return true, done;
  }

  /** `TF_OperationGetAttrShapeList`: fills the rank and the place of each shape, and its dimensions. */
  method GetShapeList(shapes: seq<Shape>, values: array<int>, numDims: array<int>, maxValues: int,
                      storage: array<int>, storageSize: nat)
    returns (ok: bool, done: nat)
    requires Count(maxValues, |shapes|) <= values.Length && Count(maxValues, |shapes|) <= numDims.Length
    requires storageSize <= storage.Length && values != numDims && storage != numDims && storage != values
    modifies values, numDims, storage
    ensures var n := Count(maxValues, |shapes|);
            && done <= n
            && (ok <==> done == n)
            && (ok <==> DimStart(shapes, n) <= storageSize)
            && DimStart(shapes, done) <= storageSize
            && (!ok ==> DimStart(shapes, done + 1) > storageSize)
    ensures values[..done] == DimStarts(shapes, done) && numDims[..done] == Ranks(shapes, done)
    ensures storage[..] == DimFlat(shapes, done) + old(storage[DimStart(shapes, done)..])
  {
    var n := Count(maxValues, |shapes|);
    var p, storageLeft := 0, storageSize;
    done := 0;
    while done < n
      invariant done <= n && p == DimStart(shapes, done) && p + storageLeft == storageSize && 0 <= storageLeft
      invariant values[..done] == DimStarts(shapes, done) && numDims[..done] == Ranks(shapes, done)
      invariant storage[..p] == DimFlat(shapes, done)
      invariant storage[p..] == old(storage[p..])
    {
      DimStartGrows(shapes, done, n);
      var fits;
      fits, p, storageLeft := ShapeTurn(shapes, done, values, numDims, storage, p, storageLeft);
      if !fits {
        InTwo(storage, p);
        return false, done;
      }
      done := done + 1;
    }
    InTwo(storage, p);
    return true, done;
  }

  /** One turn: the rank and the place are filled in before it is known whether the dimensions fit. */
  method ShapeTurn(shapes: seq<Shape>, i: nat, values: array<int>, numDims: array<int>, storage: array<int>,
                   p: nat, left: nat)
    returns (fits: bool, p': nat, left': nat)
    requires i < |shapes| && i < values.Length && i < numDims.Length && p + left <= storage.Length
    requires values != numDims && storage != numDims && storage != values
    requires p == DimStart(shapes, i) && storage[..p] == DimFlat(shapes, i)
    requires values[..i] == DimStarts(shapes, i) && numDims[..i] == Ranks(shapes, i)
    modifies values, numDims, storage
    ensures fits <==> |Kept(shapes[i])| <= left
    ensures p' == DimStart(shapes, if fits then i + 1 else i) && p' + left' == p + left
    ensures values[..i] == DimStarts(shapes, i) && values[..i + 1] == DimStarts(shapes, i + 1)
    ensures numDims[..i] == Ranks(shapes, i) && numDims[..i + 1] == Ranks(shapes, i + 1)
    ensures storage[..p'] == DimFlat(shapes, if fits then i + 1 else i)
    ensures storage[p'..] == old(storage[p'..])
  {
    Fill(numDims, i, Rank(shapes[i]));
    Fill(values, i, p);
    fits, p', left' := PlaceShape(shapes[i], storage, p, left);
  }

  /** The storage part of one turn: a shape of unknown rank is passed over. */
  method PlaceShape(shape: Shape, storage: array<int>, p: nat, left: nat) returns (fits: bool, p': nat, left': nat)
    requires p + left <= storage.Length
    modifies storage
    ensures fits <==> |Kept(shape)| <= left
    ensures p' == (if fits then p + |Kept(shape)| else p) && p' + left' == p + left
    ensures storage[..p'] == old(storage[..p]) + if fits then Kept(shape) else []
    ensures storage[p'..] == old(storage[p'..])
  {
    if shape.UnknownRank? {
      return true, p, left;
    }
    var rank := |shape.dims|;
    if left < rank {
      return false, p, left;
    }
    Append(storage, p, shape.dims);
    return true, p + rank, left - rank;
  }

  // --- the documented use ---------------------------------------------------

  /** Buffers sized by the metadata receive the whole list of strings. */
  method FetchStringList(list: ListValue, defs: seq<AttrDef>, name: string) returns (ok: bool, result: seq<Text>)
    requires list.s != []
    ensures ok && result == list.s
  {
    var metadata := GetListMetadata(list, defs, name);
    var m := metadata.value;
    var values: array<int> := new int[m.listSize];
    var lengths: array<int> := new int[m.listSize];
    var storage := new byte[m.totalSize];
    var done;
    ok, done := GetStringList(list.s, values, lengths, m.listSize, storage, m.totalSize);
    result := ReadStrings(list.s, values[..done], lengths[..done], storage[..]);
  }

  /** Reads the strings where the caller is told that they are. */
  method ReadStrings(ghost ss: seq<Text>, places: seq<int>, sizes: seq<int>, bytes: Text) returns (result: seq<Text>)
    requires places == Starts(ss, |ss|) && sizes == Lengths(ss, |ss|) && bytes == Flat(ss, |ss|)
    ensures result == ss
  {
    result := [];
    for i := 0 to |places|
      invariant result == ss[..i]
    {
      FlatAt(ss, i, |ss|);
      StartsAt(ss, i, |ss|);
      result := result + [bytes[places[i]..places[i] + sizes[i]]];
    }
  }

  /** Likewise for shapes, unknown ranks included. */
  method FetchShapeList(list: ListValue, defs: seq<AttrDef>, name: string) returns (ok: bool, result: seq<Shape>)
    requires list.s == [] && list.i == list.f == list.b == list.types == 0 && list.shape != []
    ensures ok && result == list.shape
  {
    var metadata := GetListMetadata(list, defs, name);
    var m := metadata.value;
    var values: array<int> := new int[m.listSize];
    var numDims: array<int> := new int[m.listSize];
    var storage: array<int> := new int[m.totalSize];
    var done;
    ok, done := GetShapeList(list.shape, values, numDims, m.listSize, storage, m.totalSize);
    result := ReadShapes(list.shape, values[..done], numDims[..done], storage[..]);
  }

  lemma PlaceOfShape(shapes: seq<Shape>, i: nat)
    requires i < |shapes|
    ensures var n, place, rank := |shapes|, DimStarts(shapes, |shapes|)[i], Ranks(shapes, |shapes|)[i];
            if rank < 0 then shapes[i].UnknownRank?
            else
              && 0 <= place <= place + rank <= |DimFlat(shapes, n)|
              && shapes[i] == Dims(DimFlat(shapes, n)[place..place + rank])
  {
    DimFlatAt(shapes, i, |shapes|);
    RanksAt(shapes, i, |shapes|);
  }

  method ReadShapes(ghost shapes: seq<Shape>, places: seq<int>, ranks: seq<int>, dims: seq<int>)
    returns (result: seq<Shape>)
    requires places == DimStarts(shapes, |shapes|) && ranks == Ranks(shapes, |shapes|)
    requires dims == DimFlat(shapes, |shapes|)
    ensures result == shapes
  {
    result := [];
    for i := 0 to |places|
      invariant result == shapes[..i]
    {
      PlaceOfShape(shapes, i);
      result := result + [if ranks[i] < 0 then UnknownRank else Dims(dims[places[i]..places[i] + ranks[i]])];
    }
  }
}
