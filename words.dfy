/** Go's fixed-width integer types and the truncating conversions `int32(x)` and `uint32(x)`
    applied to a wider integer: both keep the low 32 bits of the two's-complement value. */
module Words {

  type int32 = x: int | -0x8000_0000 <= x < 0x8000_0000

  type uint32 = x: int | 0 <= x < 0x1_0000_0000

  /** `int32(x)`: the one 32-bit signed value congruent to `x` modulo 2^32. */
  function ToInt32(x: int): (r: int32)
    ensures (r - x) % 0x1_0000_0000 == 0
    ensures -0x8000_0000 <= x < 0x8000_0000 ==> r == x
  {
    var m := x % 0x1_0000_0000;
    if m < 0x8000_0000 then m else m - 0x1_0000_0000
  }

  /** `uint32(x)`: the one 32-bit unsigned value congruent to `x` modulo 2^32. */
  function ToUint32(x: int): (r: uint32)
    ensures (r - x) % 0x1_0000_0000 == 0
    ensures 0 <= x < 0x1_0000_0000 ==> r == x
  {
    x % 0x1_0000_0000
  }

  /** Two 32-bit signed values that agree modulo 2^32 are equal. */
  lemma {:induction false} Int32Unique(a: int32, b: int32)
    requires (a - b) % 0x1_0000_0000 == 0
    ensures a == b
  {
  }

  /** Truncating an intermediate sum first does not change the truncated total, so 32-bit
      accumulators agree with one truncation of the exact sum. */
  lemma {:induction false} ToInt32Sum(a: int, b: int)
    ensures ToInt32(ToInt32(a) + b) == ToInt32(a + b)
    ensures ToInt32(a + ToInt32(b)) == ToInt32(a + b)
  {
    var ra, rb := ToInt32(a), ToInt32(b);
    var m := 0x1_0000_0000;
    var ka, kb := (ra - a) / m, (rb - b) / m;
    assert ra == a + ka * m && rb == b + kb * m;
    ModMultiple(ra + b, a + b, ka);
    ModMultiple(a + rb, a + b, kb);
  }

  /** `int32(-int32(x))` equals `int32(-x)`: negating before or after truncation agrees. */
  lemma {:induction false} ToInt32Neg(x: int)
    ensures ToInt32(-(ToInt32(x) as int)) == ToInt32(-x)
  {
    var r, m := ToInt32(x), 0x1_0000_0000;
    var k := (r - x) / m;
    assert r == x + k * m;
    ModMultiple(-(r as int), -x, -k);
  }

  /** A 64-bit wrap-around (any multiple of 2^64) leaves the low 32 bits alone, so Go's
      `int` intermediates, even where they wrap, truncate to the same words as exact integers. */
  lemma {:induction false} ToInt32Wide(x: int, k: int)
    ensures ToInt32(x + k * 0x1_0000_0000_0000_0000) == ToInt32(x)
    ensures ToUint32(x + k * 0x1_0000_0000_0000_0000) == ToUint32(x)
  {
    var y := x + k * 0x1_0000_0000_0000_0000;
    assert y == x + (k * 0x1_0000_0000) * 0x1_0000_0000;
    ModMultiple(y, x, k * 0x1_0000_0000);
    var d := (ToUint32(y) as int) - (ToUint32(x) as int);
    assert d % 0x1_0000_0000 == 0;
  }

  lemma {:induction false} ModMultiple(y: int, x: int, k: int)
    requires y == x + k * 0x1_0000_0000
    ensures ToInt32(y) == ToInt32(x)
  {
    var ry, rx := ToInt32(y), ToInt32(x);
    var m := 0x1_0000_0000;
    var ky, kx := (ry - y) / m, (rx - x) / m;
    assert ry == y + ky * m && rx == x + kx * m;
    assert ry - rx == (ky + k - kx) * m;
    Int32Unique(ry, rx);
  }
}
