/**
 * Fixed-width Java integer arithmetic and the `TimeUnit` conversions the
 * debouncer relies on. Dafny integers are unbounded, so every wrap-around,
 * truncation and saturation of the JVM is written out here.
 */
module JavaArith {

  const MaxInt: int := 0x7fff_ffff
  const MinInt: int := -0x8000_0000
  const MaxLong: int := 0x7fff_ffff_ffff_ffff
  const MinLong: int := -0x8000_0000_0000_0000

  /** Nanoseconds per millisecond. */
  const NanosPerMilli: int := 1_000_000

  predicate IsInt(x: int) {
    MinInt <= x <= MaxInt
  }

  predicate IsLong(x: int) {
    MinLong <= x <= MaxLong
  }

  /** Two's complement wrap-around of a 64-bit `long` result. */
  function WrapLong(x: int): (r: int)
    ensures IsLong(r)
    ensures (x - r) % 0x1_0000_0000_0000_0000 == 0
    ensures IsLong(x) ==> r == x
  {
    (x - MinLong) % 0x1_0000_0000_0000_0000 + MinLong
  }

  /** Java's narrowing cast `(int)` of a `long`: keeps the low 32 bits. */
  function WrapInt(x: int): (r: int)
    ensures IsInt(r)
    ensures (x - r) % 0x1_0000_0000 == 0
    ensures IsInt(x) ==> r == x
  {
    (x - MinInt) % 0x1_0000_0000 + MinInt
  }

  /**
   * `MILLISECONDS.convert(ns, NANOSECONDS)`: Java's integer division by one
   * million, which truncates toward zero (Dafny's `/` is Euclidean).
   */
  function NanosToMillis(ns: int): (ms: int)
    ensures ns >= 0 ==> ms * NanosPerMilli <= ns < ms * NanosPerMilli + NanosPerMilli
    ensures ns < 0 ==> ms * NanosPerMilli - NanosPerMilli < ns <= ms * NanosPerMilli
  {
    if ns >= 0 then ns / NanosPerMilli else -((-ns) / NanosPerMilli)
  }

  /**
   * `NANOSECONDS.convert(ms, MILLISECONDS)`: the exact product when it fits
   * in a `long`, otherwise saturated at `Long.MAX_VALUE` / `Long.MIN_VALUE`.
   */
  function MillisToNanos(ms: int): (ns: int)
    requires IsLong(ms)
    ensures IsLong(ns)
    ensures IsLong(ms * NanosPerMilli) ==> ns == ms * NanosPerMilli
    ensures !IsLong(ms * NanosPerMilli) ==> ns == (if ms > 0 then MaxLong else MinLong)
  {
    if ms > MaxLong / NanosPerMilli then MaxLong
    else if ms < -(MaxLong / NanosPerMilli) then MinLong
    else ms * NanosPerMilli
  }
}
