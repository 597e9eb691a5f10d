/** Numbers, bytes and results that several modules share. */
module Common {

  const TWO32 := 0x1_0000_0000
  const TWO64 := 0x1_0000_0000_0000_0000

  type Byte = b: int | 0 <= b < 256
  type Addr = a: int | 0 <= a < TWO64

  datatype Option<T> = None | Some(value: T)

  function Pow2(n: nat): (r: nat)
    ensures r > 0
  {
    if n == 0 then 1 else 2 * Pow2(n - 1)
  }

  // ----- little-endian bytes -----

  function Le16(v: nat): seq<Byte>
    requires v < 0x1_0000
  {
    [v % 0x100, v / 0x100]
  }

  /** The low 32 bits of a number. */
  function Le32(v: int): seq<Byte> {
    var x := v % TWO32;
    [x % 0x100, x / 0x100 % 0x100, x / 0x1_0000 % 0x100, x / 0x100_0000]
  }

  function Le64(v: Addr): seq<Byte> { Le32(v % TWO32) + Le32(v / TWO32) }

  function ReadLe16(b: seq<Byte>, p: nat): (v: nat)
    requires p + 2 <= |b|
    ensures v < 0x1_0000
  {
    var lo: int, hi: int := b[p], b[p + 1];
    lo + hi * 0x100
  }

  function ReadLe32(b: seq<Byte>, p: nat): (x: nat)
    requires p + 4 <= |b|
    ensures x < TWO32
  {
    var b0: int, b1: int, b2: int, b3: int := b[p], b[p + 1], b[p + 2], b[p + 3];
    b0 + b1 * 0x100 + b2 * 0x1_0000 + b3 * 0x100_0000
  }
}
