/**
 The TF_STRING tensor format of the C API (c/c_api.cc): a table of 64-bit
 offsets followed by the strings, each prefixed by its length as a varint.
 */
module StringTensor {
  import opened MachineInts
  import opened Bytes
  import opened Sequences

  // --- one string -----------------------------------------------------------

  datatype Status = Ok | SourceTooLarge | DestinationTooSmall

  /** `TF_StringEncodedSize`, a sum in a 64-bit `size_t`. */
  function EncodedSize(len: nat): nat {
    (VarintLength(len) + len) % TWO_64
  }

  function EncodedString(s: Text): (bs: seq<byte>)
    ensures |bs| == VarintLength(|s|) + |s|
  {
    Varint(|s|) + s
  }

  /** An encoded string is its length as a varint, and then its bytes. */
  lemma PartsOfEncodedString(s: Text)
    ensures var n := |Varint(|s|)|; EncodedString(s)[..n] == Varint(|s|) && EncodedString(s)[n..] == s
  {
  }

  /** `TF_StringEncode` into the `dstLen` bytes of `dst` that begin at `at`. */
  method StringEncode(src: Text, dst: array<byte>, at: nat, dstLen: nat) returns (written: nat, status: Status)
    requires |src| < TWO_64 && at + dstLen <= dst.Length
    modifies dst
    ensures var size := |EncodedString(src)|;
            && (status == Ok <==> size < TWO_64 && size <= dstLen)
            && (status == SourceTooLarge <==> size >= TWO_64)
            && (status == Ok ==> written == size && dst[at..at + size] == EncodedString(src))
            && (status != Ok ==> written == 0 && dst[..] == old(dst[..]))
    ensures forall i :: 0 <= i < at || at + written <= i < dst.Length ==> dst[i] == old(dst[i])
  {
    Varint64Length(|src|);
    var size := EncodedSize(|src|);
    if size < |src| {
      return 0, SourceTooLarge;
    }
    if dstLen < size {
      return 0, DestinationTooSmall;
    }
    WritePrefixed(src, dst, at);
    return size, Ok;
  }

  /** The writing part: the length as a varint, then the bytes. */
  method WritePrefixed(src: Text, dst: array<byte>, at: nat)
    requires at + |EncodedString(src)| <= dst.Length
    modifies dst
    ensures dst[at..at + |EncodedString(src)|] == EncodedString(src)
    ensures forall i :: 0 <= i < at || at + |EncodedString(src)| <= i < dst.Length ==> dst[i] == old(dst[i])
  {
    var prefix := Varint(|src|);
    CopyInto(dst, at, prefix);
    ghost var prefixed := dst[..];
    CopyInto(dst, at + |prefix|, src);
    PlacedAfter(prefixed, dst[..], dst[..], at, at + |prefix|, at + |prefix| + |src|, src);
  }

  datatype Piece = Invalid | Piece(start: nat, length: nat)

  /** `TF_StringDecode`: where the string starts in `src` and how long it claims to be. */
  function StringDecode(src: seq<byte>): (p: Piece)
    ensures p.Piece? ==> 0 < p.start <= |src|
  {
    match ReadVarint(src)
    case Truncated => Invalid
    case Value(v, n) => Piece(n, v)
  }

  /** Decoding finds the encoded string, whatever bytes follow it. */
  lemma StringRoundTrip(s: Text, rest: seq<byte>)
    requires |s| < TWO_64
    ensures var bs := EncodedString(s) + rest;
            var p := StringDecode(bs);
            && p.Piece?
            && p.start + p.length == |EncodedString(s)|
            && bs[p.start..p.start + p.length] == s
  {
    VarintRoundTrip(|s|, s + rest);
    assert EncodedString(s) + rest == Varint(|s|) + (s + rest);
  }

  // --- a tensor of strings --------------------------------------------------

  /** Where string `i` starts in the data: the sum of the encoded sizes before it. */
  function OffsetOf(strs: seq<Text>, i: nat): nat
    requires i <= |strs|
  {
    if i == 0 then 0 else OffsetOf(strs, i - 1) + |EncodedString(strs[i - 1])|
  }

  /** The first `i` strings, encoded one after the other. */
  function Data(strs: seq<Text>, i: nat): (bs: seq<byte>)
    requires i <= |strs|
    ensures |bs| == OffsetOf(strs, i)
  {
    if i == 0 then [] else Data(strs, i - 1) + EncodedString(strs[i - 1])
  }

  function OffsetTable(order: ByteOrder, strs: seq<Text>, i: nat): (t: seq<byte>)
    requires i <= |strs|
    ensures |t| == 8 * i
  {
    if i == 0 then [] else OffsetTable(order, strs, i - 1) + WordBytes(order, OffsetOf(strs, i - 1), 8)
  }

  function Encoded(order: ByteOrder, strs: seq<Text>): (bs: seq<byte>)
    ensures |bs| == 8 * |strs| + OffsetOf(strs, |strs|)
  {
    OffsetTable(order, strs, |strs|) + Data(strs, |strs|)
  }

  /** The offsets are the strictly increasing prefix sums of the encoded sizes, and all lie inside the data. */
  lemma {:induction false} OffsetsIncrease(strs: seq<Text>, i: nat, j: nat)
    requires i < j <= |strs|
    ensures OffsetOf(strs, 0) == 0
    ensures OffsetOf(strs, i) < OffsetOf(strs, i + 1) == OffsetOf(strs, i) + |EncodedString(strs[i])|
    ensures OffsetOf(strs, i + 1) <= OffsetOf(strs, j)
    decreases j
  {
    if i + 1 < j {
      OffsetsIncrease(strs, i, j - 1);
    }
  }

  /** Each string is encoded in its own stretch of the data. */
  lemma {:induction false} DataAt(strs: seq<Text>, i: nat, n: nat)
    requires i < n <= |strs|
    ensures OffsetOf(strs, i) <= OffsetOf(strs, i + 1) <= OffsetOf(strs, n)
    ensures Data(strs, n)[OffsetOf(strs, i)..OffsetOf(strs, i + 1)] == EncodedString(strs[i])
    decreases n
  {
    OffsetsIncrease(strs, i, n);
    if i + 1 < n {
      DataAt(strs, i, n - 1);
      SliceOfPrefix(Data(strs, n - 1), EncodedString(strs[n - 1]), OffsetOf(strs, i), OffsetOf(strs, i + 1));
    } else {
      SliceOfEnd(Data(strs, i), EncodedString(strs[i]));
    }
  }

  lemma {:induction false} OffsetTableAt(order: ByteOrder, strs: seq<Text>, i: nat, n: nat)
    requires i < n <= |strs|
    ensures OffsetTable(order, strs, n)[8 * i..8 * i + 8] == WordBytes(order, OffsetOf(strs, i), 8)
    decreases n
  {
    if i + 1 < n {
      OffsetTableAt(order, strs, i, n - 1);
      SliceOfPrefix(OffsetTable(order, strs, n - 1), WordBytes(order, OffsetOf(strs, n - 1), 8), 8 * i, 8 * i + 8);
    } else {
      SliceOfEnd(OffsetTable(order, strs, i), WordBytes(order, OffsetOf(strs, i), 8));
    }
  }

  /**
   What decoding yields: the strings, one of the errors the code reports, or a
   read outside the buffer, which the code does not check for.
   */
  datatype Decoding =
    | Strings(strs: seq<Text>)
    | TooShort
    | OffsetOutOfRange(i: nat)
    | BadLength(i: nat)
    | ReadsOutside(i: nat)

  /** An unsigned 64-bit offset converted to a signed pointer difference. */
  function Signed(offset: nat): int {
    if offset > INT64_MAX then offset - TWO_64 else offset
  }

  /** Element `i` of a buffer that starts with `n` offsets. */
  function DecodeElement(order: ByteOrder, buf: seq<byte>, n: nat, i: nat): (d: Decoding)
    requires i < n && 8 * n <= |buf|
    ensures d.Strings? ==> |d.strs| == 1
  {
    Power256Of8();
    var offset := WordValue(order, buf[8 * i..8 * i + 8]);
    if Signed(offset) >= |buf| - 8 * n then OffsetOutOfRange(i)
    else if Signed(offset) < 0 then ReadsOutside(i)
    else DecodeText(buf[8 * n + offset..], i)
  }

  /** The string at the front of `src`, for element `i`. */
  function DecodeText(src: seq<byte>, i: nat): (d: Decoding)
    ensures d.Strings? ==> |d.strs| == 1
  {
    match StringDecode(src)
    case Invalid => BadLength(i)
    case Piece(start, length) =>
      if start + length > |src| then ReadsOutside(i) else Strings([src[start..start + length]])
  }

  function DecodeFrom(order: ByteOrder, buf: seq<byte>, n: nat, i: nat): (d: Decoding)
    requires i <= n && 8 * n <= |buf|
    decreases n - i
  {
    if i == n then Strings([])
    else
      var d := DecodeElement(order, buf, n, i);
      if d.Strings? then Prepend(d.strs, DecodeFrom(order, buf, n, i + 1)) else d
  }

  function Prepend(strs: seq<Text>, d: Decoding): Decoding {
    if d.Strings? then Strings(strs + d.strs) else d
  }

  lemma PrependTwice(strs: seq<Text>, more: seq<Text>, d: Decoding)
    ensures Prepend(strs, Prepend(more, d)) == Prepend(strs + more, d)
  {
    if d.Strings? {
      assert strs + (more + d.strs) == strs + more + d.strs;
    }
  }

  /** Decoding a buffer that is said to hold `n` strings. */
  function Decoded(order: ByteOrder, buf: seq<byte>, n: nat): Decoding {
    if |buf| / 8 < n then TooShort else DecodeFrom(order, buf, n, 0)
  }

  /** Element `i` of any buffer, check by check: its offset as a signed number, its length, and its bytes. */
  lemma DecodeElementMeaning(order: ByteOrder, buf: seq<byte>, n: nat, i: nat)
    requires i < n && 8 * n <= |buf|
    ensures var d, room := DecodeElement(order, buf, n, i), |buf| - 8 * n;
            var offset := WordValue(order, buf[8 * i..8 * i + 8]);
            && (d == OffsetOutOfRange(i) <==> room <= offset <= INT64_MAX)
            && (offset > INT64_MAX ==> d == ReadsOutside(i))
            && (offset < room && offset <= INT64_MAX ==>
                  var src := buf[8 * n + offset..];
                  var r := ReadVarint(src);
                  if r.Truncated? then d == BadLength(i)
                  else if r.length + r.v > |src| then d == ReadsOutside(i)
                  else d == Strings([src[r.length..r.length + r.v]]))
  {
    Power256Of8();
  }

  /** The element whose failure ends the decoding. */
  function FailedAt(d: Decoding): (i: nat)
    requires !d.Strings? && !d.TooShort?
  {
    d.i
  }

  /** The elements from `first` on are just these strings. */
  predicate HoldsStrings(order: ByteOrder, buf: seq<byte>, n: nat, first: nat, strs: seq<Text>)
    requires first <= n && 8 * n <= |buf|
  {
    |strs| == n - first &&
    forall j :: 0 <= j < |strs| ==> DecodeElement(order, buf, n, first + j) == Strings([strs[j]])
  }

  /** The first element from `first` on that fails does so with `d`. */
  predicate FailsWith(order: ByteOrder, buf: seq<byte>, n: nat, first: nat, d: Decoding)
    requires first <= n && 8 * n <= |buf| && !d.Strings? && !d.TooShort?
  {
    && first <= FailedAt(d) < n && DecodeElement(order, buf, n, FailedAt(d)) == d
    && forall j :: first <= j < FailedAt(d) ==> DecodeElement(order, buf, n, j).Strings?
  }

  /** Any buffer: too short for its offsets, or its elements' strings in order, or the first failure of an element. */
  lemma DecodedMeaning(order: ByteOrder, buf: seq<byte>, n: nat)
    ensures Decoded(order, buf, n) == TooShort <==> |buf| < 8 * n
    ensures var d := Decoded(order, buf, n);
            |buf| >= 8 * n ==>
              if d.Strings? then HoldsStrings(order, buf, n, 0, d.strs) else FailsWith(order, buf, n, 0, d)
  {
    if |buf| >= 8 * n {
      DecodeFromMeaning(order, buf, n, 0);
    }
  }

  lemma {:induction false} DecodeFromMeaning(order: ByteOrder, buf: seq<byte>, n: nat, first: nat)
    requires first <= n && 8 * n <= |buf|
    ensures var d := DecodeFrom(order, buf, n, first);
            !d.TooShort? &&
            if d.Strings? then HoldsStrings(order, buf, n, first, d.strs) else FailsWith(order, buf, n, first, d)
    decreases n - first
  {
    if first < n {
      var d := DecodeElement(order, buf, n, first);
      ElementFails(order, buf, n, first);
      if d.Strings? {
        var rest := DecodeFrom(order, buf, n, first + 1);
        DecodeFromMeaning(order, buf, n, first + 1);
        assert d.strs == [d.strs[0]];
        if rest.Strings? {
          HoldsOneMore(order, buf, n, first, d.strs[0], rest.strs);
        } else {
          FailsOneMore(order, buf, n, first, rest);
        }
      }
    }
  }

  lemma ElementFails(order: ByteOrder, buf: seq<byte>, n: nat, i: nat)
    requires i < n && 8 * n <= |buf|
    ensures var d := DecodeElement(order, buf, n, i); !d.TooShort? && (!d.Strings? ==> FailedAt(d) == i)
  {
  }

  lemma FailsOneMore(order: ByteOrder, buf: seq<byte>, n: nat, first: nat, d: Decoding)
    requires first < n && 8 * n <= |buf| && DecodeElement(order, buf, n, first).Strings?
    requires !d.Strings? && !d.TooShort? && FailsWith(order, buf, n, first + 1, d)
    ensures FailsWith(order, buf, n, first, d)
  {
  }

  lemma HoldsOneMore(order: ByteOrder, buf: seq<byte>, n: nat, first: nat, s: Text, rest: seq<Text>)
    requires first < n && 8 * n <= |buf| && DecodeElement(order, buf, n, first) == Strings([s])
    requires HoldsStrings(order, buf, n, first + 1, rest)
    ensures HoldsStrings(order, buf, n, first, [s] + rest)
  {
    var strs := [s] + rest;
    forall j | 0 <= j < |strs| ensures DecodeElement(order, buf, n, first + j) == Strings([strs[j]]) {
      if j > 0 {
        assert strs[j] == rest[j - 1] && first + j == first + 1 + (j - 1);
      }
    }
  }

  /** `TF_Tensor_DecodeStrings`: checks and decodes one element a turn, stopping at the first failure. */
  method DecodeStrings(order: ByteOrder, buf: seq<byte>, n: nat) returns (d: Decoding)
    ensures d == Decoded(order, buf, n)
  {
    if |buf| / 8 < n {
      return TooShort;
    }
    var strs: seq<Text> := [];
    for i := 0 to n
      invariant Decoded(order, buf, n) == Prepend(strs, DecodeFrom(order, buf, n, i))
    {
      var element := DecodeElement(order, buf, n, i);
      DecodeStep(order, buf, n, i, strs);
      if !element.Strings? {
        return element;
      }
      strs := strs + element.strs;
    }
    assert strs + [] == strs;
    return Strings(strs);
  }

  lemma DecodeStep(order: ByteOrder, buf: seq<byte>, n: nat, i: nat, strs: seq<Text>)
    requires i < n && 8 * n <= |buf|
    ensures var d := DecodeElement(order, buf, n, i);
            Prepend(strs, DecodeFrom(order, buf, n, i)) ==
              if d.Strings? then Prepend(strs + d.strs, DecodeFrom(order, buf, n, i + 1)) else d
  {
    var d := DecodeElement(order, buf, n, i);
    if d.Strings? {
      PrependTwice(strs, d.strs, DecodeFrom(order, buf, n, i + 1));
    }
  }

  /** Each element of an encoded tensor passes every check and decodes to its own string. */
  lemma ElementRoundTrip(order: ByteOrder, strs: seq<Text>, i: nat)
    requires i < |strs| && |Encoded(order, strs)| <= INT64_MAX
    ensures DecodeElement(order, Encoded(order, strs), |strs|, i) == Strings([strs[i]])
  {
    var rest := BufferAt(order, strs, i);
    DecodeElementAt(order, Encoded(order, strs), |strs|, i, OffsetOf(strs, i), strs[i], rest);
  }

  lemma DecodeElementAt(order: ByteOrder, buf: seq<byte>, n: nat, i: nat, offset: nat, s: Text, rest: seq<byte>)
    requires i < n && 8 * n + offset + |EncodedString(s)| + |rest| == |buf| <= INT64_MAX
    requires buf[8 * i..8 * i + 8] == WordBytes(order, offset, 8)
    requires buf[8 * n + offset..] == EncodedString(s) + rest
    ensures DecodeElement(order, buf, n, i) == Strings([s])
  {
    Power256Of8();
    WordRoundTrip(order, offset, 8);
    DecodeTextOf(s, rest, i);
  }

  lemma DecodeTextOf(s: Text, rest: seq<byte>, i: nat)
    requires |s| < TWO_64
    ensures DecodeText(EncodedString(s) + rest, i) == Strings([s])
  {
    StringRoundTrip(s, rest);
  }

  /** What an encoded buffer holds for element `i`, in its table and in its data. */
  lemma BufferAt(order: ByteOrder, strs: seq<Text>, i: nat) returns (rest: seq<byte>)
    requires i < |strs|
    ensures var buf, n, offset := Encoded(order, strs), |strs|, OffsetOf(strs, i);
            && 8 * n + offset + |EncodedString(strs[i])| + |rest| == |buf|
            && buf[8 * i..8 * i + 8] == WordBytes(order, offset, 8)
            && buf[8 * n + offset..] == EncodedString(strs[i]) + rest
  {
    var n := |strs|;
    var table, data := OffsetTable(order, strs, n), Data(strs, n);
    var offset, next := OffsetOf(strs, i), OffsetOf(strs, i + 1);
    OffsetTableAt(order, strs, i, n);
    SliceOfPrefix(table, data, 8 * i, 8 * i + 8);
    DataAt(strs, i, n);
    rest := data[next..];
    SuffixInTwo(table, data, offset, next);
  }

  lemma SuffixInTwo(x: seq<byte>, y: seq<byte>, i: nat, j: nat)
    requires i <= j <= |y|
    ensures (x + y)[|x| + i..] == y[i..j] + y[j..]
  {
    assert (x + y)[|x| + i..] == y[i..];
  }

  lemma {:induction false} DecodeFromEncoded(order: ByteOrder, strs: seq<Text>, i: nat)
    requires i <= |strs| && |Encoded(order, strs)| <= INT64_MAX
    ensures DecodeFrom(order, Encoded(order, strs), |strs|, i) == Strings(strs[i..])
    decreases |strs| - i
  {
    if i < |strs| {
      ElementRoundTrip(order, strs, i);
      DecodeFromEncoded(order, strs, i + 1);
      DecodeStep(order, Encoded(order, strs), |strs|, i, []);
      assert strs[i..] == [] + [strs[i]] + strs[i + 1..];
    }
  }

  /** Decoding an encoded tensor gives back the strings, for every list of byte strings that fits in memory. */
  lemma TensorRoundTrip(order: ByteOrder, strs: seq<Text>)
    requires |Encoded(order, strs)| <= INT64_MAX
    ensures Decoded(order, Encoded(order, strs), |strs|) == Strings(strs)
  {
    DecodeFromEncoded(order, strs, 0);
    assert strs[0..] == strs;
  }

  /**
   `TF_Tensor_EncodeStrings`: a pass that adds up the size, then a pass that
   advances a write pointer `dst` and an offset pointer over the new buffer. The
   pointer ends exactly at the end of the buffer.
   */
  method EncodeStrings(order: ByteOrder, strs: seq<Text>) returns (base: array<byte>, dst: nat)
    requires |strs| <= INT32_MAX && |Encoded(order, strs)| <= INT64_MAX
    ensures fresh(base) && base[..] == Encoded(order, strs)
    ensures dst == base.Length
  {
    var size := EncodedTotal(order, strs);
    base := new byte[size];
    var dataStart := 8 * |strs|;
    dst := dataStart;
    var dstLen := size - dataStart;
    var offsets := 0;
    for i := 0 to |strs|
      invariant offsets == 8 * i && dst == dataStart + OffsetOf(strs, i) <= size && dst + dstLen == size
      invariant base[0..offsets] == OffsetTable(order, strs, i)
      invariant base[dataStart..dst] == Data(strs, i)
    {
      SizeOfPrefix(order, strs, i);
      offsets, dst, dstLen := EncodeTurn(order, base, strs, i, offsets, dataStart, dst, dstLen);
    }
    assert offsets == dataStart && dst == size;
    TwoParts(base, offsets);
  }

  lemma TwoParts(base: array<byte>, middle: nat)
    requires middle <= base.Length
    ensures base[..] == base[0..middle] + base[middle..base.Length]
  {
  }

  /** The table and the data after one more turn. */
  lemma EncodingStep(order: ByteOrder, strs: seq<Text>, i: nat)
    requires i < |strs|
    ensures OffsetTable(order, strs, i + 1) == OffsetTable(order, strs, i) + WordBytes(order, OffsetOf(strs, i), 8)
    ensures Data(strs, i + 1) == Data(strs, i) + EncodedString(strs[i])
    ensures OffsetOf(strs, i + 1) == OffsetOf(strs, i) + |EncodedString(strs[i])|
  {
  }

  /** Memory holds every string of the tensor, so no string reaches the 64-bit limit of its encoding. */
  lemma SizeOfPrefix(order: ByteOrder, strs: seq<Text>, i: nat)
    requires i < |strs| && |Encoded(order, strs)| <= INT64_MAX
    ensures |strs[i]| < TWO_64 && |EncodedString(strs[i])| < TWO_64
    ensures OffsetOf(strs, i) + |EncodedString(strs[i])| <= |Encoded(order, strs)| - 8 * |strs|
  {
    OffsetsIncrease(strs, i, |strs|);
  }

  /** One turn of the encoding loop, in terms of what the buffer holds. */
  method EncodeTurn(order: ByteOrder, base: array<byte>, strs: seq<Text>, i: nat, offsets: nat, dataStart: nat,
                    dst: nat, dstLen: nat)
    returns (offsets': nat, dst': nat, dstLen': nat)
    requires i < |strs| && |strs[i]| < TWO_64 && |EncodedString(strs[i])| < TWO_64 && |EncodedString(strs[i])| <= dstLen
    requires offsets == 8 * i && offsets + 8 <= dataStart
    requires dst == dataStart + OffsetOf(strs, i) && dst + dstLen == base.Length
    requires base[0..offsets] == OffsetTable(order, strs, i) && base[dataStart..dst] == Data(strs, i)
    modifies base
    ensures offsets' == offsets + 8 && dst' == dataStart + OffsetOf(strs, i + 1) && dst' + dstLen' == base.Length
    ensures base[0..offsets'] == OffsetTable(order, strs, i + 1) && base[dataStart..dst'] == Data(strs, i + 1)
  {
    EncodingStep(order, strs, i);
    offsets', dst', dstLen' := EncodeElement(order, base, offsets, dataStart, dst, dstLen, strs[i]);
  }

  /** One turn of the encoding loop: the offset is stored, then the string; what was written before stays. */
  method EncodeElement(order: ByteOrder, base: array<byte>, offsets: nat, dataStart: nat, dst: nat, dstLen: nat,
                       s: Text)
    returns (offsets': nat, dst': nat, dstLen': nat)
    requires offsets + 8 <= dataStart <= dst && dst + dstLen == base.Length
    requires |s| < TWO_64 && |EncodedString(s)| < TWO_64 && |EncodedString(s)| <= dstLen
    modifies base
    ensures offsets' == offsets + 8 && dst' == dst + |EncodedString(s)| && dst' + dstLen' == base.Length
    ensures base[0..offsets'] == old(base[0..offsets]) + WordBytes(order, dst - dataStart, 8)
    ensures base[dataStart..dst'] == old(base[dataStart..dst]) + EncodedString(s)
  {
    ghost var before := base[..];
    var word := WordBytes(order, dst - dataStart, 8);
    CopyInto(base, offsets, word);
    ghost var stored := base[..];
    var consumed, status := StringEncode(s, base, dst, dstLen);
    assert status == Ok;
    offsets', dst', dstLen' := offsets + 8, dst + consumed, dstLen - consumed;
    PlacedAfter(before, stored, base[..], 0, offsets, offsets', word);
    PlacedAfter(before, base[..], base[..], dataStart, dst, dst', EncodedString(s));
  }

  /** A piece placed at `at` extends what lay between `first` and `at`, if neither is overwritten later. */
  lemma PlacedAfter(before: seq<byte>, placed: seq<byte>, after: seq<byte>, first: nat, at: nat, end: nat,
                    piece: seq<byte>)
    requires first <= at <= end <= |before| == |placed| == |after| && placed[at..end] == piece
    requires forall i :: first <= i < at ==> before[i] == placed[i]
    requires forall i :: first <= i < end ==> placed[i] == after[i]
    ensures after[first..end] == before[first..at] + piece
  {
    assert after[first..end] == placed[first..end] == placed[first..at] + placed[at..end];
  }

  /** The sizing pass. Its 64-bit sum is the number of bytes of the encoding. */
  method EncodedTotal(order: ByteOrder, strs: seq<Text>) returns (size: nat)
    requires |Encoded(order, strs)| <= INT64_MAX
    ensures size == |Encoded(order, strs)|
  {
    size := 0;
    for i := 0 to |strs|
      invariant size == 8 * i + OffsetOf(strs, i)
    {
      TotalStep(order, strs, i);
      size := (size + 8 + EncodedSize(|strs[i]|)) % TWO_64;
    }
  }

  lemma TotalStep(order: ByteOrder, strs: seq<Text>, i: nat)
    requires i < |strs| && |Encoded(order, strs)| <= INT64_MAX
    ensures (8 * i + OffsetOf(strs, i) + 8 + EncodedSize(|strs[i]|)) % TWO_64 == 8 * (i + 1) + OffsetOf(strs, i + 1)
  {
    OffsetsIncrease(strs, i, |strs|);
    var encoded := |EncodedString(strs[i])|;
    NoWrap64(encoded);
    assert EncodedSize(|strs[i]|) == encoded;
    NoWrap64(8 * i + OffsetOf(strs, i) + 8 + encoded);
  }
}
