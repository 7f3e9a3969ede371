/**
 Fixed-width integer arithmetic and rounding as the C++ code relies on them.
 Conversions to a narrower or signed type, and signed multiplication that
 overflows, are taken to wrap in two's complement.
 */
module Machine {

  const TWO_31 := 0x8000_0000
  const TWO_32 := 0x1_0000_0000
  const TWO_63 := 0x8000_0000_0000_0000
  const TWO_64 := 0x1_0000_0000_0000_0000

  type int32 = x: int | -TWO_31 <= x < TWO_31
  type uint32 = x: int | 0 <= x < TWO_32
  type int64 = x: int | -TWO_63 <= x < TWO_63
  type uint64 = x: int | 0 <= x < TWO_64

  function ToUint32(x: int): uint32 {
    x % TWO_32
  }

  function ToInt32(x: int): int32 {
    var u := x % TWO_32;
    if u < TWO_31 then u else u - TWO_32
  }

  function ToUint64(x: int): uint64 {
    x % TWO_64
  }

  function ToInt64(x: int): int64 {
    var u := x % TWO_64;
    if u < TWO_63 then u else u - TWO_64
  }

  /** C++ integer division: truncates toward zero. */
  function TruncDiv(a: int, b: int): int
    requires b > 0
  {
    if a >= 0 then a / b else -((-a) / b)
  }

  /** `round()`: nearest integer, halves away from zero. */
  function Round(x: real): int {
    if x >= 0.0 then (x + 0.5).Floor else -((-x + 0.5).Floor)
  }

  /** A number that differs from a representable one by a multiple of the
      modulus is stored as that representable one. */
  lemma ToInt32Absorbs(x: int, k: int)
    requires -TWO_31 <= x < TWO_31
    ensures ToInt32(x + k * TWO_32) == x
  {
    assert (x + k * TWO_32) % TWO_32 == x % TWO_32;
  }

  lemma ToInt64Absorbs(x: int, k: int)
    requires -TWO_63 <= x < TWO_63
    ensures ToInt64(x + k * TWO_64) == x
  {
    assert (x + k * TWO_64) % TWO_64 == x % TWO_64;
  }

  /** The wrapped value is the original plus a multiple of the modulus. */
  lemma ToInt32Differs(x: int) returns (k: int)
    ensures ToInt32(x) == x + k * TWO_32
  {
    var q := x / TWO_32;
    assert x == q * TWO_32 + x % TWO_32;
    k := if x % TWO_32 < TWO_31 then -q else -q - 1;
  }

  /** The value `Round` yields is pinned down by a half-open unit interval. */
  lemma RoundIs(x: real, n: int)
    requires x >= 0.0
    requires n as real <= x + 0.5 < n as real + 1.0
    ensures Round(x) == n
  {
    var f := (x + 0.5).Floor;
    assert f as real <= x + 0.5 < f as real + 1.0;
    assert f < n + 1 && n < f + 1;
  }
}
