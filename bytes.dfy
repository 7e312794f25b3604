/** Conversions between 8-bit vectors and the numbers below 256, kept apart
    from everything else so that the solver sees only them. */
module ByteCasts {
  /** A number below 256 converted to a byte reads back as the same number. */
  lemma NatAsByte(k: nat)
    requires k < 256
    ensures (k as bv8) as nat == k
  {
  }

  /** A byte read as a number converts back to the same byte. */
  lemma ByteAsNat(x: bv8)
    ensures (x as nat) as bv8 == x
  {
  }
}

/** Byte-level helpers of the MD4 hash: `chunk`, the little-endian `struct`
    formats `<I` and `<Q`, and `bytes.hex()`. */
module Bytes {
  import opened Words
  import opened ByteCasts

  /** A Python `bytes` element. */
  type Byte = bv8

  /** The one failure the hash can meet: `struct.pack` refusing a value that
      does not fit its format. */
  datatype Error = PackOutOfRange

  datatype Result<T> = Ok(value: T) | Err(error: Error)

  // ---------------------------------------------------------------- chunk

  /** The concatenation of a sequence of pieces. */
  function Flatten<T>(pieces: seq<seq<T>>): (s: seq<T>)
  {
    if pieces == [] then [] else pieces[0] + Flatten(pieces[1..])
  }

  /** `chunk(s, size)`: consecutive pieces of `size` elements, the last one
      possibly shorter. Python raises for a step of 0, so size is positive. */
  function Chunk<T>(s: seq<T>, size: nat): (pieces: seq<seq<T>>)
    requires size > 0
    // the pieces put back together are s
    ensures Flatten(pieces) == s
    // no piece is empty or longer than size; all but the last are full
    ensures forall k :: 0 <= k < |pieces| ==> 0 < |pieces[k]| <= size
    ensures forall k :: 0 <= k < |pieces| - 1 ==> |pieces[k]| == size
    decreases |s|
  {
    if |s| == 0 then []
    else if |s| <= size then [s]
    else [s[..size]] + Chunk(s[size..], size)
  }

  /** A length that is a whole number m of pieces splits into m full pieces. */
  lemma {:induction false} ChunkFull<T>(s: seq<T>, size: nat, m: nat)
    requires size > 0 && |s| == m * size
    ensures |Chunk(s, size)| == m
    ensures forall k :: 0 <= k < m ==> |Chunk(s, size)[k]| == size
    decreases m
  {
    if m > 0 {
      assert |s| == (m - 1) * size + size;
      if m == 1 {
        assert Chunk(s, size) == [s];
      } else {
        assert (m - 1) * size == (m - 2) * size + size;
        ChunkFull(s[size..], size, m - 1);
        assert Chunk(s, size) == [s[..size]] + Chunk(s[size..], size);
      }
    }
  }

  // ---------------------------------------------------------------- struct '<I'

  /** `struct.pack('<I', w)`: the four bytes of w, least significant first. */
  function PackU32(w: Word): (b: seq<Byte>)
    ensures |b| == 4
    // the bytes are the base-256 digits of w, least significant first
    ensures w == b[0] as Word + 0x100 * b[1] as Word + 0x1_0000 * b[2] as Word + 0x100_0000 * b[3] as Word
  {
    [(w & 0xFF) as Byte, ((w >> 8) & 0xFF) as Byte,
     ((w >> 16) & 0xFF) as Byte, ((w >> 24) & 0xFF) as Byte]
  }

  /** `struct.unpack('<I', b)[0]`: four bytes read least significant first. */
  function UnpackU32(b: seq<Byte>): (w: Word)
    requires |b| == 4
    // the bytes are read as base-256 digits, least significant first
    ensures w == b[0] as Word + 0x100 * b[1] as Word + 0x1_0000 * b[2] as Word + 0x100_0000 * b[3] as Word
  {
    (b[0] as Word) | (b[1] as Word << 8) | (b[2] as Word << 16) | (b[3] as Word << 24)
  }

  /** Unpacking a packed word gives the word back. */
  lemma UnpackPackU32(w: Word)
    ensures UnpackU32(PackU32(w)) == w
  {
  }

  /** Packing an unpacked word gives the four bytes back. */
  lemma PackUnpackU32(b: seq<Byte>)
    requires |b| == 4
    ensures PackU32(UnpackU32(b)) == b
  {
  }

  // ---------------------------------------------------------------- struct '<Q'

  /** 256 to the power k. */
  function Pow256(k: nat): (p: nat)
    ensures p > 0
  {
    if k == 0 then 1 else 256 * Pow256(k - 1)
  }

  /** The lowest `width` bytes of n, least significant first. */
  function LittleEndian(n: nat, width: nat): (b: seq<Byte>)
    ensures |b| == width
  {
    if width == 0 then [] else [(n % 256) as Byte] + LittleEndian(n / 256, width - 1)
  }

  /** The number a byte sequence denotes, least significant byte first. */
  function FromLittleEndian(b: seq<Byte>): (n: nat)
    ensures n < Pow256(|b|)
  {
    if b == [] then 0 else b[0] as nat + 256 * FromLittleEndian(b[1..])
  }

  /** Reading back the bytes of a number that fits recovers it. */
  lemma {:induction false} LittleEndianRoundTrip(n: nat, width: nat)
    requires n < Pow256(width)
    ensures FromLittleEndian(LittleEndian(n, width)) == n
  {
    if width > 0 {
      var b := LittleEndian(n, width);
      assert b[1..] == LittleEndian(n / 256, width - 1);
      LittleEndianRoundTrip(n / 256, width - 1);
      NatAsByte(n % 256);
    }
  }

  /** Encoding the number some bytes denote gives those bytes back. */
  lemma {:induction false} FromLittleEndianRoundTrip(b: seq<Byte>)
    ensures LittleEndian(FromLittleEndian(b), |b|) == b
  {
    if b != [] {
      var n := FromLittleEndian(b);
      var low, rest := b[0] as nat, FromLittleEndian(b[1..]);
      DigitSplit(low, rest);
      FromLittleEndianRoundTrip(b[1..]);
      ByteAsNat(b[0]);
      assert LittleEndian(n, |b|) == [(n % 256) as Byte] + LittleEndian(n / 256, |b| - 1);
    }
  }

  /** A base-256 number splits back into its lowest digit and the rest. */
  lemma DigitSplit(low: nat, rest: nat)
    requires low < 256
    ensures (low + 256 * rest) % 256 == low && (low + 256 * rest) / 256 == rest
  {
  }

  /** 2^64, the first value `struct.pack('<Q', .)` refuses. */
  const U64_LIMIT: nat := 0x1_0000_0000_0000_0000

  /** `struct.pack('<Q', n)`: eight bytes least significant first, or the
      error `struct.pack` raises for a value of 2^64 or more. */
  function PackU64(n: nat): (r: Result<seq<Byte>>)
    ensures r.Ok? <==> n < U64_LIMIT
    ensures r.Ok? ==> |r.value| == 8 && FromLittleEndian(r.value) == n
  {
    if n < U64_LIMIT then
      assert Pow256(8) == U64_LIMIT;
      LittleEndianRoundTrip(n, 8);
      Ok(LittleEndian(n, 8))
    else
      Err(PackOutOfRange)
  }

  // ---------------------------------------------------------------- bytes.hex()

  /** The lower-case hexadecimal digit of a value below 16. */
  function HexDigit(v: nat): (c: char)
    requires v < 16
    ensures IsHexDigit(c)
  {
    if v < 10 then ('0' as int + v) as char else ('a' as int + v - 10) as char
  }

  predicate IsHexDigit(c: char)
  {
    '0' <= c <= '9' || 'a' <= c <= 'f'
  }

  /** The value of a lower-case hexadecimal digit. */
  function HexValue(c: char): (v: nat)
    requires IsHexDigit(c)
    ensures v < 16 && HexDigit(v) == c
  {
    if c <= '9' then c as int - '0' as int else c as int - 'a' as int + 10
  }

  /** The two lower-case hexadecimal digits of a byte, high nibble first. */
  function HexByte(x: Byte): (s: string)
    ensures |s| == 2 && IsHexDigit(s[0]) && IsHexDigit(s[1])
  {
    [HexDigit((x >> 4) as nat), HexDigit((x & 0xF) as nat)]
  }

  /** `b.hex()`: the digits of every byte, in order. */
  function Hex(b: seq<Byte>): (s: string)
    ensures |s| == 2 * |b|
    ensures forall i :: 0 <= i < |s| ==> IsHexDigit(s[i])
  {
    if b == [] then "" else HexByte(b[0]) + Hex(b[1..])
  }

  /** The byte a pair of lower-case hexadecimal digits denotes. */
  function ByteOfHex(c0: char, c1: char): Byte
    requires IsHexDigit(c0) && IsHexDigit(c1)
  {
    JoinNibbles(HexValue(c0), HexValue(c1))
  }

  /** `bytes.fromhex(s)` for a string of lower-case digit pairs. */
  function FromHex(s: string): (b: seq<Byte>)
    requires |s| % 2 == 0
    requires forall i :: 0 <= i < |s| ==> IsHexDigit(s[i])
    ensures |b| == |s| / 2
  {
    if s == [] then [] else [ByteOfHex(s[0], s[1])] + FromHex(s[2..])
  }

  /** The hexadecimal text of some bytes reads back as those bytes. */
  lemma {:induction false} HexRoundTrip(b: seq<Byte>)
    ensures FromHex(Hex(b)) == b
  {
    if b != [] {
      var s := Hex(b);
      var h := HexByte(b[0]);
      assert s == h + Hex(b[1..]);
      assert s[2..] == Hex(b[1..]) && s[0] == h[0] && s[1] == h[1];
      HexRoundTrip(b[1..]);
      HexByteRoundTrip(b[0]);
    }
  }

  /** The two digits of a byte denote that byte. */
  lemma HexByteRoundTrip(x: Byte)
    ensures ByteOfHex(HexByte(x)[0], HexByte(x)[1]) == x
  {
    var hi, lo := (x >> 4) as nat, (x & 0xF) as nat;
    HexValueOfDigit(hi);
    HexValueOfDigit(lo);
    NibblesJoin(x, hi, lo);
  }

  /** Reading a digit back gives its value. */
  lemma HexValueOfDigit(v: nat)
    requires v < 16
    ensures HexValue(HexDigit(v)) == v
  {
  }

  /** The byte with high nibble hi and low nibble lo. */
  function JoinNibbles(hi: nat, lo: nat): Byte
    requires hi < 16 && lo < 16
  {
    (hi as Byte << 4) | lo as Byte
  }

  /** A byte is its high nibble shifted up, joined with its low nibble. */
  lemma NibblesJoin(x: Byte, hi: nat, lo: nat)
    requires hi == (x >> 4) as nat && lo == (x & 0xF) as nat
    ensures JoinNibbles(hi, lo) == x
  {
    assert hi as Byte == x >> 4;
    assert lo as Byte == x & 0xF;
  }
}
