/** Fixed-width integers of the modelled code, written over unbounded integers. */
module MachineInts {

  const INT32_MIN: int := -0x8000_0000
  const INT32_MAX: int := 0x7fff_ffff
  const INT64_MAX: int := 0x7fff_ffff_ffff_ffff
  const UINT64_MAX: int := 0xffff_ffff_ffff_ffff
  const TWO_32: int := 0x1_0000_0000
  const TWO_64: int := 0x1_0000_0000_0000_0000

  lemma NoWrap64(x: nat)
    requires x < TWO_64
    ensures x % TWO_64 == x
  {
  }

  predicate IsInt32(x: int) {
    INT32_MIN <= x <= INT32_MAX
  }

  /** A narrowing conversion to a 32-bit `int`: the representative of `x` modulo 2^32. */
  function ToInt32(x: int): (r: int)
    ensures IsInt32(r)
    ensures IsInt32(x) <==> r == x
    ensures exists k :: x == r + k * TWO_32
  {
    var m := x % TWO_32;
    var r := if m > INT32_MAX then m - TWO_32 else m;
    assert x == m + (x / TWO_32) * TWO_32;
    assert x == r + (if m > INT32_MAX then x / TWO_32 + 1 else x / TWO_32) * TWO_32;
    r
  }

  /** What a 64-bit signed operation leaves of its result. */
  function ToInt64(x: int): (r: int)
    ensures -INT64_MAX - 1 <= r <= INT64_MAX
    ensures -INT64_MAX - 1 <= x <= INT64_MAX ==> r == x
    ensures r % TWO_64 == x % TWO_64
  {
    var m := x % TWO_64;
    if m > INT64_MAX then m - TWO_64 else m
  }

  lemma ToInt64Congruent(x: int, y: int)
    requires x % TWO_64 == y % TWO_64
    ensures ToInt64(x) == ToInt64(y)
  {
  }

  /** A factor can be reduced modulo 2^64 before a wrapping product. */
  lemma WrapFactor(a: int, b: int)
    ensures ((a % TWO_64) * b) % TWO_64 == (a * b) % TWO_64
  {
    var q := a / TWO_64;
    assert a == q * TWO_64 + a % TWO_64;
    assert a * b == (a % TWO_64) * b + (q * b) * TWO_64 by {
      assert (q * TWO_64 + a % TWO_64) * b == q * TWO_64 * b + (a % TWO_64) * b;
    }
    WrapShift((a % TWO_64) * b, q * b);
  }

  lemma WrapShift(x: int, k: int)
    ensures (x + k * TWO_64) % TWO_64 == x % TWO_64
  {
  }

  /** Narrowing sees only the class of its argument modulo 2^32. */
  lemma ToInt32Congruent(x: int, y: int, k: int)
    requires x == y + k * TWO_32
    ensures ToInt32(x) == ToInt32(y)
  {
    var a, b := ToInt32(x), ToInt32(y);
    var i :| x == a + i * TWO_32;
    var j :| y == b + j * TWO_32;
    assert a - b == (k + j - i) * TWO_32;
  }

  /** A wrapped left operand can be added to before or after the narrowing. */
  lemma ToInt32Add(x: int, y: int)
    ensures ToInt32(ToInt32(x) + y) == ToInt32(x + y)
  {
    var k :| x == ToInt32(x) + k * TWO_32;
    ToInt32Congruent(x + y, ToInt32(x) + y, k);
  }
}
