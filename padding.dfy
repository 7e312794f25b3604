/** MD4 message padding (sections 3.1 and 3.2 of RFC 1320): one 0x80 byte,
    the fewest zero bytes that bring the length to 56 modulo 64, and the
    message length in bits as a little-endian 64-bit number. */
module Padding {
  import opened Bytes

  /** The number of zero bytes after the 0x80 byte for a message of `len`
      bytes: `(64 - 1 - 8 - len) % 64`. Python's `%` floors and Dafny's is
      Euclidean; for the positive modulus 64 the two agree. */
  function ZeroCount(len: nat): (z: nat)
    ensures z < 64
    // 0x80, the zeros and the 8 length bytes end on a 64-byte boundary
    ensures (len + 1 + z + 8) % 64 == 0
  {
    (64 - 1 - 8 - len) % 64
  }

  /** `_get_padding` for a message of `len` bytes. `struct.pack('<Q', 8 * len)`
      fails when the bit length does not fit in 64 bits. */
  function PaddingFor(len: nat): (r: Result<seq<Byte>>)
    ensures r.Err? <==> 8 * len >= U64_LIMIT
  {
    match PackU64(8 * len)
    case Err(e) => Err(e)
    case Ok(lengthBytes) => Ok([0x80] + Zeros(ZeroCount(len)) + lengthBytes)
  }

  /** `count * b'\x00'`. */
  function Zeros(count: nat): (z: seq<Byte>)
    ensures |z| == count && forall i :: 0 <= i < count ==> z[i] == 0
  {
    seq(count, _ => 0)
  }

  /** The shape of the padding of a message whose bit length fits in 64 bits. */
  lemma PaddingShape(len: nat)
    requires 8 * len < U64_LIMIT
    ensures PaddingFor(len).Ok?
    ensures var p := PaddingFor(len).value;
      // padded length is a positive multiple of 64
      && (len + |p|) % 64 == 0 && len + |p| > 0
      // 0x80, then (55 - len) mod 64 zeros, then 8 length bytes
      && |p| == 1 + ZeroCount(len) + 8
      && p[0] == 0x80
      && (forall i :: 1 <= i < 1 + ZeroCount(len) ==> p[i] == 0)
      && FromLittleEndian(p[|p| - 8..]) == 8 * len
  {
    PaddingLength(len);
    var lengthBytes := PackU64(8 * len).value;
    var p := PaddingFor(len).value;
    assert p == [0x80] + Zeros(ZeroCount(len)) + lengthBytes;
    assert p[|p| - 8..] == lengthBytes;
  }

  /** The padding is the shortest possible: no shorter run of at least nine
      bytes (0x80 and the length) ends on a 64-byte boundary. */
  lemma PaddingMinimal(len: nat, k: nat)
    requires 8 * len < U64_LIMIT
    requires 9 <= k < |PaddingFor(len).value|
    ensures (len + k) % 64 != 0
  {
    PaddingLength(len);
    ZeroCountMinimal(len, k - 9);
  }

  /** Fewer zeros than ZeroCount never reach a 64-byte boundary. */
  lemma ZeroCountMinimal(len: nat, j: nat)
    requires j < ZeroCount(len)
    ensures (len + 9 + j) % 64 != 0
  {
  }

  /** A message that already fills whole blocks gets one full block of
      padding; this is what a second `digest()` call appends. */
  lemma RepadIsOneBlock(len: nat)
    requires len % 64 == 0 && 8 * len < U64_LIMIT
    ensures |PaddingFor(len).value| == 64
  {
    PaddingLength(len);
    assert ZeroCount(len) == 55;
  }

  /** The padding is 0x80, the zeros and eight length bytes. */
  lemma PaddingLength(len: nat)
    requires 8 * len < U64_LIMIT
    ensures PaddingFor(len).Ok? && |PaddingFor(len).value| == 9 + ZeroCount(len)
  {
  }

  /** A padded message has one block more than its whole blocks when its
      last partial block leaves room for the 0x80 byte and the 8 length bytes
      (fewer than 56 bytes in it), and two more otherwise. */
  lemma PaddedBlockCount(len: nat)
    requires 8 * len < U64_LIMIT
    ensures (len + |PaddingFor(len).value|) / 64 == len / 64 + (if len % 64 < 56 then 1 else 2)
  {
    PaddingLength(len);
  }

  /** The zero counts the repository's tests expect for messages of 56, 0 and
      63 bytes. */
  lemma KnownZeroCounts()
    ensures ZeroCount(56) == 63 && ZeroCount(0) == 55 && ZeroCount(63) == 56
  {
  }
}
