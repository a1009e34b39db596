/** The fixed-width integers of the wire types. Arithmetic on them is checked by
    the verifier, so a body that type-checks here cannot overflow. */
module Machine {
  const TWO_31: int := 0x8000_0000
  const TWO_32: int := 0x1_0000_0000
  const TWO_63: int := 0x8000_0000_0000_0000
  const TWO_64: int := 0x1_0000_0000_0000_0000

  newtype i64 = x: int | -0x8000_0000_0000_0000 <= x < 0x8000_0000_0000_0000
  newtype i32 = x: int | -0x8000_0000 <= x < 0x8000_0000
  newtype i16 = x: int | -0x8000 <= x < 0x8000
  newtype u32 = x: int | 0 <= x < 0x1_0000_0000
  newtype u8 = x: int | 0 <= x < 0x100

  const I64_MAX: i64 := 0x7fff_ffff_ffff_ffff

  predicate FitsI32(n: int) {
    -TWO_31 <= n < TWO_31
  }

  /** `n as i32`: keep the low 32 bits, read as two's complement. */
  function CastI32(n: int): (r: i32)
    ensures (r as int - n) % TWO_32 == 0
    ensures r as int == n <==> FitsI32(n)
  {
    var low := n % TWO_32;
    assert (low - n) % TWO_32 == 0;
    if low < TWO_31 then low as i32 else (low - TWO_32) as i32
  }

  /** A multiple smaller than its factor is zero. */
  lemma SmallMultiple(factor: int, k: int)
    requires -factor < factor * k < factor
    ensures k == 0
  {
  }

  lemma DivisionRemains(n: nat, d: nat)
    requires d > 0
    ensures 0 <= n - n / d * d < d
  {
    assert n == n / d * d + n % d;
  }

  /** `q` is `a / b` toward zero. */
  predicate Truncates(a: int, b: int, q: int) {
    var r := a - q * b;
    -b < r < b && (a >= 0 ==> r >= 0 && 0 <= q <= a) && (a <= 0 ==> r <= 0 && a <= q <= 0)
  }

  lemma TruncatesEitherSign(n: int, b: int, q: int)
    requires n >= 0 && b > 0 && 0 <= n - q * b < b
    ensures Truncates(n, b, q) && Truncates(-n, b, -q)
  {
    assert q > n ==> q * b >= (n + 1) * b >= n + 1;
    assert q < 0 ==> q * b <= -b;
    assert -q * b == -(q * b);
  }

  /** Rust's `/` for a positive divisor: what remains is smaller than the divisor and on
      the dividend's side of zero, which leaves one quotient. */
  function TruncDiv(a: i64, b: i64): (q: i64)
    requires b > 0
    ensures var r := a as int - q as int * b as int;
            -(b as int) < r < b as int && (a >= 0 ==> r >= 0) && (a <= 0 ==> r <= 0)
  {
    var n := if a >= 0 then a as int else -(a as int);
    var q := n / b as int;
    DivisionRemains(n, b as int);
    TruncatesEitherSign(n, b as int, q);
    (if a >= 0 then q else -q) as i64
  }
}
