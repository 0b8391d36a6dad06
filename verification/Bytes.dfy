/** Bytes, fixed-width words in either byte order, and base-128 varints. */
module Bytes {
  import opened Arithmetic
  import opened MachineInts

  type byte = b: int | 0 <= b < 256

  /** The contents of a string. */
  type Text = seq<byte>

  datatype ByteOrder = LittleEndian | BigEndian

  function Power256(w: nat): (p: nat)
    ensures p > 0
  {
    if w == 0 then 1 else 256 * Power256(w - 1)
  }

  function Reverse(bs: seq<byte>): (r: seq<byte>)
    ensures |r| == |bs|
  {
    if bs == [] then [] else Reverse(bs[1..]) + [bs[0]]
  }

  lemma {:induction false} ReverseAppend(bs: seq<byte>, b: byte)
    ensures Reverse(bs + [b]) == [b] + Reverse(bs)
  {
    if bs != [] {
      ReverseAppend(bs[1..], b);
      assert (bs + [b])[1..] == bs[1..] + [b];
    }
  }

  lemma {:induction false} ReverseTwice(bs: seq<byte>)
    ensures Reverse(Reverse(bs)) == bs
  {
    if bs != [] {
      ReverseTwice(bs[1..]);
      ReverseAppend(Reverse(bs[1..]), bs[0]);
    }
  }

  /** The `w` low bytes of `v`, least significant first. */
  function LowBytes(v: nat, w: nat): (bs: seq<byte>)
    ensures |bs| == w
  {
    if w == 0 then [] else [v % 256] + LowBytes(v / 256, w - 1)
  }

  function FromLowBytes(bs: seq<byte>): (v: nat)
    ensures v < Power256(|bs|)
  {
    if bs == [] then 0 else bs[0] + 256 * FromLowBytes(bs[1..])
  }

  lemma {:induction false} LowBytesRoundTrip(v: nat, w: nat)
    requires v < Power256(w)
    ensures FromLowBytes(LowBytes(v, w)) == v
  {
    if w > 0 {
      LowBytesRoundTrip(v / 256, w - 1);
    }
  }

  /** A word of `w` bytes as memory holds it. */
  function WordBytes(order: ByteOrder, v: nat, w: nat): (bs: seq<byte>)
    ensures |bs| == w
  {
    if order == LittleEndian then LowBytes(v, w) else Reverse(LowBytes(v, w))
  }

  function WordValue(order: ByteOrder, bs: seq<byte>): (v: nat)
    ensures v < Power256(|bs|)
  {
    if order == LittleEndian then FromLowBytes(bs) else FromLowBytes(Reverse(bs))
  }

  /** What is written as a word is read back, whichever byte order the platform has. */
  lemma WordRoundTrip(order: ByteOrder, v: nat, w: nat)
    requires v < Power256(w)
    ensures WordValue(order, WordBytes(order, v, w)) == v
  {
    LowBytesRoundTrip(v, w);
    ReverseTwice(LowBytes(v, w));
  }

  lemma {:induction false} LowBytesOfValue(bs: seq<byte>)
    ensures LowBytes(FromLowBytes(bs), |bs|) == bs
  {
    if bs != [] {
      LowBytesOfValue(bs[1..]);
      LowDigit(bs[0], FromLowBytes(bs[1..]));
      assert bs == [bs[0]] + bs[1..];
    }
  }

  lemma LowDigit(digit: byte, high: nat)
    ensures (digit + 256 * high) % 256 == digit && (digit + 256 * high) / 256 == high
  {
  }

  lemma {:induction false} ReverseAt(bs: seq<byte>, i: nat)
    requires i < |bs|
    ensures Reverse(bs)[|bs| - 1 - i] == bs[i]
  {
    if i > 0 {
      ReverseAt(bs[1..], i - 1);
    }
  }

  /** What is read as a word is written back byte for byte. */
  lemma WordOfBytes(order: ByteOrder, bs: seq<byte>)
    ensures WordBytes(order, WordValue(order, bs), |bs|) == bs
  {
    if order == LittleEndian {
      LowBytesOfValue(bs);
    } else {
      LowBytesOfValue(Reverse(bs));
      ReverseTwice(bs);
    }
  }

  /** The byte of weight 256^i is the i-th of a little-endian word and the i-th from the end of a big-endian one. */
  lemma WordByteAt(order: ByteOrder, v: nat, w: nat, i: nat)
    requires i < w
    ensures WordBytes(order, v, w)[if order == LittleEndian then i else w - 1 - i] == (v / Power256(i)) % 256
  {
    LowByteAt(v, w, i);
    ReverseAt(LowBytes(v, w), i);
  }

  lemma {:induction false} LowByteAt(v: nat, w: nat, i: nat)
    requires i < w
    ensures LowBytes(v, w)[i] == (v / Power256(i)) % 256
  {
    if i > 0 {
      LowByteAt(v / 256, w - 1, i - 1);
      DivideTwice(v, 256, Power256(i - 1));
    }
  }

  lemma DivideTwice(v: nat, a: nat, b: nat)
    requires a > 0 && b > 0
    ensures a * b > 0 && (v / a) / b == v / (a * b)
  {
    var q, r, x, y := (v / a) / b, (v / a) % b, v / a, v % a;
    assert v == x * a + y && x == q * b + r;
    assert a * b > 0 && q * b * a == q * (a * b);
    assert v == q * (a * b) + (r * a + y);
    MulMonotone(r, b - 1, a);
    assert (b - 1) * a + a == a * b;
    QuotientIs(v, a * b, q, r * a + y);
  }

  lemma QuotientIs(v: nat, n: nat, q: nat, r: nat)
    requires 0 <= r < n && v == q * n + r
    ensures v / n == q
  {
    var q', r' := v / n, v % n;
    assert v == q' * n + r';
    assert (q + 1) * n == q * n + n && (q' + 1) * n == q' * n + n;
    if q < q' {
      MulMonotone(q + 1, q', n);
    } else if q' < q {
      MulMonotone(q' + 1, q, n);
    }
  }

  lemma Power256Of8()
    ensures Power256(8) == TWO_64
  {
    assert Power256(4) == 0x1_0000_0000;
    assert Power256(8) == 0x1_0000_0000 * Power256(4) by {
      assert Power256(8) == 256 * Power256(7) && Power256(7) == 256 * Power256(6);
      assert Power256(6) == 256 * Power256(5) && Power256(5) == 256 * Power256(4);
    }
  }

  // --- varints --------------------------------------------------------------

  const MAX_VARINT_BYTES: nat := 10

  /** Seven bits a byte, least significant group first, the top bit set on all but the last. */
  function Varint(v: nat): (bs: seq<byte>)
    ensures |bs| == VarintLength(v) >= 1
  {
    if v < 128 then [v] else [128 + v % 128] + Varint(v / 128)
  }

  function VarintLength(v: nat): (n: nat)
    ensures n >= 1
  {
    if v < 128 then 1 else 1 + VarintLength(v / 128)
  }

  datatype ReadResult = Truncated | Value(v: nat, length: nat)

  /**
   Reads groups until one has its top bit clear; fails at the end of the bytes or
   after ten groups, `read` of them read already.
   */
  function ReadGroups(bs: seq<byte>, read: nat): (r: ReadResult)
    ensures r.Value? ==> 0 < r.length <= |bs|
    decreases |bs|
  {
    if read >= MAX_VARINT_BYTES || bs == [] then Truncated
    else if bs[0] < 128 then Value(bs[0], 1)
    else
      match ReadGroups(bs[1..], read + 1)
      case Truncated => Truncated
      case Value(v, n) => Value(bs[0] - 128 + 128 * v, n + 1)
  }

  /** The value is accumulated in 64 bits. */
  function ReadVarint(bs: seq<byte>): (r: ReadResult)
    ensures r.Value? ==> 0 < r.length <= |bs| && r.v < TWO_64
  {
    match ReadGroups(bs, 0)
    case Truncated => Truncated
    case Value(v, n) => Value(v % TWO_64, n)
  }

  lemma {:induction false} ReadGroupsOfVarint(v: nat, rest: seq<byte>, read: nat)
    requires read + VarintLength(v) <= MAX_VARINT_BYTES
    ensures ReadGroups(Varint(v) + rest, read) == Value(v, VarintLength(v))
    decreases v
  {
    if v >= 128 {
      ReadGroupsOfVarint(v / 128, rest, read + 1);
      assert (Varint(v) + rest)[1..] == Varint(v / 128) + rest;
    }
  }

  function Power128(n: nat): (p: nat)
    ensures p > 0
  {
    if n == 0 then 1 else 128 * Power128(n - 1)
  }

  lemma {:induction false} VarintLengthBound(v: nat, n: nat)
    requires n > 0 && v < Power128(n)
    ensures VarintLength(v) <= n
  {
    if v >= 128 {
      assert Power128(n) == 128 * Power128(n - 1);
      assert v / 128 < Power128(n - 1);
      if n == 1 {
        assert false;
      }
      VarintLengthBound(v / 128, n - 1);
    }
  }

  lemma Varint64Length(v: nat)
    requires v < TWO_64
    ensures VarintLength(v) <= MAX_VARINT_BYTES
  {
    assert Power128(5) == 0x8_0000_0000;
    assert Power128(10) == 0x8_0000_0000 * Power128(5) by {
      assert Power128(10) == 128 * Power128(9) && Power128(9) == 128 * Power128(8);
      assert Power128(8) == 128 * Power128(7) && Power128(7) == 128 * Power128(6);
      assert Power128(6) == 128 * Power128(5);
    }
    VarintLengthBound(v, MAX_VARINT_BYTES);
  }

  /** Reading a 64-bit varint gives the value back and stops where the varint ends, whatever follows it. */
  lemma VarintRoundTrip(v: nat, rest: seq<byte>)
    requires v < TWO_64
    ensures ReadVarint(Varint(v) + rest) == Value(v, VarintLength(v))
  {
    Varint64Length(v);
    ReadGroupsOfVarint(v, rest, 0);
  }

  /** Byte `i` of a varint is group `i` of the value, with the top bit set on all but the last. */
  lemma {:induction false} VarintByteAt(v: nat, i: nat)
    requires i < |Varint(v)|
    ensures Varint(v)[i] == (v / Power128(i)) % 128 + (if i < |Varint(v)| - 1 then 128 else 0)
    decreases i
  {
    if i > 0 {
      VarintByteAt(v / 128, i - 1);
      DivideTwice(v, 128, Power128(i - 1));
    }
  }

  /** There are just as many groups as the value needs. */
  lemma {:induction false} VarintIsShortest(v: nat)
    ensures v < Power128(|Varint(v)|) && (|Varint(v)| > 1 ==> Power128(|Varint(v)| - 1) <= v)
    decreases v
  {
    if v >= 128 {
      VarintIsShortest(v / 128);
    }
  }

  /** The value of the first `n` groups. */
  function Groups(bs: seq<byte>, n: nat): nat
    requires n <= |bs|
  {
    if n == 0 then 0 else Groups(bs, n - 1) + bs[n - 1] % 128 * Power128(n - 1)
  }

  lemma {:induction false} GroupsFromFirst(bs: seq<byte>, n: nat)
    requires 0 < n <= |bs|
    ensures Groups(bs, n) == bs[0] % 128 + 128 * Groups(bs[1..], n - 1)
    decreases n
  {
    if n == 1 {
      assert Groups(bs, 0) == 0 && Power128(0) == 1;
    } else {
      GroupsFromFirst(bs, n - 1);
      var g, p := bs[n - 1] % 128, Power128(n - 2);
      assert g * (128 * p) == 128 * (g * p);
    }
  }

  /** Byte `n - 1` is the first without the top bit. */
  predicate EndsAt(bs: seq<byte>, n: nat) {
    0 < n <= |bs| && bs[n - 1] < 128 && forall i :: 0 <= i < n - 1 ==> bs[i] >= 128
  }

  /** Whatever the bytes: reading takes the groups up to the first byte without the top bit, among the first ten. */
  lemma ReadVarintMeaning(bs: seq<byte>)
    ensures var r := ReadVarint(bs);
            && (r.Truncated? ==> forall i :: 0 <= i < |bs| && i < 10 ==> bs[i] >= 128)
            && (r.Value? ==> EndsAt(bs, r.length) && r.length <= 10 && r.v == Groups(bs, r.length) % TWO_64)
  {
    ReadGroupsMeaning(bs, 0);
  }

  lemma {:induction false} ReadGroupsMeaning(bs: seq<byte>, read: nat)
    requires read <= 10
    ensures var r := ReadGroups(bs, read);
            && (r.Truncated? ==> forall i :: 0 <= i < |bs| && i < 10 - read ==> bs[i] >= 128)
            && (r.Value? ==> EndsAt(bs, r.length) && r.length <= 10 - read && r.v == Groups(bs, r.length))
    decreases |bs|
  {
    if read < 10 && bs != [] {
      var rest := ReadGroups(bs[1..], read + 1);
      if bs[0] < 128 {
        GroupsFromFirst(bs, 1);
        assert Groups(bs[1..], 0) == 0;
      } else {
        ReadGroupsMeaning(bs[1..], read + 1);
        if rest.Value? {
          GroupsFromFirst(bs, rest.length + 1);
          EndsOneLater(bs, rest.length);
        } else {
          assert forall i :: 0 < i < |bs| ==> bs[i] == bs[1..][i - 1];
        }
      }
    }
  }

  lemma EndsOneLater(bs: seq<byte>, n: nat)
    requires bs != [] && bs[0] >= 128 && EndsAt(bs[1..], n)
    ensures EndsAt(bs, n + 1)
  {
    assert forall i :: 0 < i < |bs| ==> bs[i] == bs[1..][i - 1];
  }

  /** Copies `bs` into `dst` from index `at` on. */
  method CopyInto(dst: array<byte>, at: nat, bs: seq<byte>)
    requires at + |bs| <= dst.Length
    modifies dst
    ensures dst[at..at + |bs|] == bs
    ensures forall i :: 0 <= i < at || at + |bs| <= i < dst.Length ==> dst[i] == old(dst[i])
  {
    for i := 0 to |bs|
      invariant forall j :: 0 <= j < i ==> dst[at + j] == bs[j]
      invariant forall j :: 0 <= j < at || at + i <= j < dst.Length ==> dst[j] == old(dst[j])
    {
      dst[at + i] := bs[i];
    }
  }
}
