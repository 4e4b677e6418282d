/** Failure-carrying datatypes and machine limits shared by every module. */
module Prelude {

  datatype Option<+T> = None | Some(value: T)

  datatype Result<+T, +E> = Ok(value: T) | Err(error: E)

  const U16_MAX: int := 0xFFFF
  const U32_MAX: int := 0xFFFF_FFFF
  const U64_MAX: int := 0xFFFF_FFFF_FFFF_FFFF
  const I64_MAX: int := 0x7FFF_FFFF_FFFF_FFFF
  const PAGE_SIZE: int := 4096

  /** One byte, as an integer: the model never needs its bits. */
  type byte = b: int | 0 <= b < 256

  // ----- little-endian integers

  function Le16(b0: byte, b1: byte): (v: int)
    ensures 0 <= v <= U16_MAX
  {
    (b0 as int) + 0x100 * (b1 as int)
  }

  function Le32(b: seq<byte>): (v: int)
    requires |b| == 4
    ensures 0 <= v <= U32_MAX
  {
    Le16(b[0], b[1]) + 0x1_0000 * Le16(b[2], b[3])
  }

  function Le64(b: seq<byte>): (v: int)
    requires |b| == 8
    ensures 0 <= v <= U64_MAX
  {
    Le32(b[..4]) + 0x1_0000_0000 * Le32(b[4..])
  }

  function ToLe16(v: int): (b: seq<byte>)
    requires 0 <= v <= U16_MAX
    ensures |b| == 2
  {
    [v % 0x100, v / 0x100]
  }

  function ToLe32(v: int): (b: seq<byte>)
    requires 0 <= v <= U32_MAX
    ensures |b| == 4
  {
    ToLe16(v % 0x1_0000) + ToLe16(v / 0x1_0000)
  }

  function ToLe64(v: int): (b: seq<byte>)
    requires 0 <= v <= U64_MAX
    ensures |b| == 8
  {
    ToLe32(v % 0x1_0000_0000) + ToLe32(v / 0x1_0000_0000)
  }

  lemma Le32RoundTrip(v: int)
    requires 0 <= v <= U32_MAX
    ensures Le32(ToLe32(v)) == v
  {
    var (lo, hi) := (v % 0x1_0000, v / 0x1_0000);
    assert ToLe32(v) == [lo % 0x100, lo / 0x100, hi % 0x100, hi / 0x100];
  }

  lemma Le64RoundTrip(v: int)
    requires 0 <= v <= U64_MAX
    ensures Le64(ToLe64(v)) == v
  {
    var (lo, hi) := (v % 0x1_0000_0000, v / 0x1_0000_0000);
    assert ToLe64(v)[..4] == ToLe32(lo) && ToLe64(v)[4..] == ToLe32(hi);
    Le32RoundTrip(lo);
    Le32RoundTrip(hi);
  }

  /** `[a, a + n)` and `[b, b + k)` share no address. */
  predicate Apart(a: int, n: int, b: int, k: int) { a + n <= b || b + k <= a }

  predicate Aligned(x: int)
  {
    x % PAGE_SIZE == 0
  }
}
