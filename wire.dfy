/** Byte strings and the little-endian 32-bit integers of the wire format. */
module Wire {

  /** One octet, as `uint8_t`. */
  type byte = b: int | 0 <= b < 256

  type Bytes = seq<byte>

  /** `k_max_msg`: the largest payload a frame may declare. */
  const MaxMsg: nat := 4096

  /** Capacity of a connection's read and write buffers: a length prefix plus the largest payload. */
  const BufCap: nat := 4 + MaxMsg

  /** One more than the largest `uint32_t`. */
  const U32Limit: nat := 0x1_0000_0000

  /** `memcpy(&n, p, 4)` on a little-endian host: the four bytes read as a `uint32_t`. */
  function LoadU32(b: Bytes): (n: nat)
    requires |b| == 4
    ensures n < U32Limit
  {
    b[0] as int + 256 * b[1] as int + 0x1_0000 * b[2] as int + 0x100_0000 * b[3] as int
  }

  /** `memcpy(p, &n, 4)` on a little-endian host: the four bytes of a `uint32_t`, lowest first. */
  function StoreU32(n: nat): (b: Bytes)
    requires n < U32Limit
    ensures |b| == 4 && LoadU32(b) == n
  {
    var b0, r0 := n % 256, n / 256;
    var b1, r1 := r0 % 256, r0 / 256;
    var b2, b3 := r1 % 256, r1 / 256;
    assert n == b0 + 256 * r0 && r0 == b1 + 256 * r1 && r1 == b2 + 256 * b3;
    [b0, b1, b2, b3]
  }

  /** Storing what was loaded gives back the same four bytes: every 4-byte string is some `uint32_t`. */
  lemma StoreLoadU32(b: Bytes)
    requires |b| == 4
    ensures StoreU32(LoadU32(b)) == b
  {
    var n := LoadU32(b);
    var r1: int := b[2] as int + 256 * b[3] as int;
    var r0: int := b[1] as int + 256 * r1;
    assert n == b[0] as int + 256 * r0;
    assert n % 256 == b[0] && n / 256 == r0;
    assert r0 % 256 == b[1] && r0 / 256 == r1;
    assert r1 % 256 == b[2] && r1 / 256 == b[3];
  }
}
