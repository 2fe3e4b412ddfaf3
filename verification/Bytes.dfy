/** Bytes and the fixed-width integers that the file formats and frames store. */
module Bytes {

  type Byte = x: int | 0 <= x < 0x100
  type U16 = x: int | 0 <= x < 0x1_0000
  type U32 = x: int | 0 <= x < 0x1_0000_0000
  type Bytes = seq<Byte>

  /** The little-endian 16-bit integer at `i`. */
  function U16At(b: Bytes, i: nat): U16
    requires i + 2 <= |b|
  {
    b[i] as int + 0x100 * (b[i + 1] as int)
  }

  /** The little-endian 32-bit integer at `i`. */
  function U32At(b: Bytes, i: nat): U32
    requires i + 4 <= |b|
  {
    b[i] as int + 0x100 * (b[i + 1] as int) + 0x1_0000 * (b[i + 2] as int) + 0x100_0000 * (b[i + 3] as int)
  }

  /** The big-endian 32-bit integer at `i`. */
  function U32BigAt(b: Bytes, i: nat): U32
    requires i + 4 <= |b|
  {
    b[i + 3] as int + 0x100 * (b[i + 2] as int) + 0x1_0000 * (b[i + 1] as int) + 0x100_0000 * (b[i] as int)
  }

  /** Byte `k` (0 is the least significant) of a 32-bit integer. */
  function ByteOf(n: U32, k: nat): Byte
    requires k < 4
  {
    match k
    case 0 => n % 0x100
    case 1 => (n / 0x100) % 0x100
    case 2 => (n / 0x1_0000) % 0x100
    case _ => n / 0x100_0000
  }

  lemma FourBytes(n: U32)
    ensures ByteOf(n, 0) as int + 0x100 * (ByteOf(n, 1) as int) + 0x1_0000 * (ByteOf(n, 2) as int)
            + 0x100_0000 * (ByteOf(n, 3) as int) == n
  {
    assert n / 0x1_0000 == (n / 0x100) / 0x100;
    assert n / 0x100_0000 == (n / 0x1_0000) / 0x100;
  }

  function U32Big(n: U32): (b: Bytes)
    ensures |b| == 4 && U32BigAt(b, 0) == n
  {
    FourBytes(n);
    [ByteOf(n, 3), ByteOf(n, 2), ByteOf(n, 1), ByteOf(n, 0)]
  }

  function Concat(pieces: seq<Bytes>): Bytes {
    if pieces == [] then [] else pieces[0] + Concat(pieces[1..])
  }

  lemma SliceOfSlice<T>(s: seq<T>, a: nat, b: nat, i: nat, j: nat)
    requires a <= b <= |s| && i <= j <= b - a
    ensures s[a..b][i..j] == s[a + i..a + j]
  {
    forall k | 0 <= k < j - i ensures s[a..b][i..j][k] == s[a + i..a + j][k] {
      assert s[a..b][i..j][k] == s[a..b][i + k];
    }
  }
}
