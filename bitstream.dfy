/**
 * The bit-level codec of HuffmanTools: bitstreams are strings of '0' and '1',
 * padded to a byte boundary, packed into a byte array most significant bit first,
 * and expanded back to bits when a file is read.
 */
module Bitstream {

  /** One character of a bitstream string. */
  type Bit = c: char | c == '0' || c == '1' witness '0'

  /** One element of a Python bytearray. */
  type Byte = x: int | 0 <= x < 256

  function Min(a: int, b: int): int { if a <= b then a else b }

  function Pow2(n: nat): (r: nat)
    ensures r >= 1
  {
    if n == 0 then 1 else 2 * Pow2(n - 1)
  }

  lemma {:induction false} Pow2Monotone(m: nat, n: nat)
    requires m <= n
    ensures Pow2(m) <= Pow2(n)
  {
    if m < n {
      Pow2Monotone(m, n - 1);
    }
  }

  function BitValue(b: Bit): nat { if b == '1' then 1 else 0 }

  /** int(bits, 2): the value of a bit string read most significant bit first. */
  function BitsToNat(bits: seq<Bit>): (n: nat)
    ensures n < Pow2(|bits|)
  {
    if bits == [] then 0
    else 2 * BitsToNat(bits[..|bits| - 1]) + BitValue(bits[|bits| - 1])
  }

  /** "{0:0<width>b}".format(n) for a value that fits: exactly width digits, zero-padded on the left. */
  function NatToBits(n: nat, width: nat): (bits: seq<Bit>)
    requires n < Pow2(width)
    ensures |bits| == width
  {
    if width == 0 then [] else NatToBits(n / 2, width - 1) + [if n % 2 == 1 then '1' else '0']
  }

  lemma {:induction false} BitsToNatOfNatToBits(n: nat, width: nat)
    requires n < Pow2(width)
    ensures BitsToNat(NatToBits(n, width)) == n
  {
    if width > 0 {
      BitsToNatOfNatToBits(n / 2, width - 1);
      var bits := NatToBits(n, width);
      assert bits[..|bits| - 1] == NatToBits(n / 2, width - 1);
    }
  }

  lemma {:induction false} NatToBitsOfBitsToNat(bits: seq<Bit>)
    ensures NatToBits(BitsToNat(bits), |bits|) == bits
  {
    if bits != [] {
      var init, last := bits[..|bits| - 1], bits[|bits| - 1];
      var n := BitsToNat(bits);
      NatToBitsOfBitsToNat(init);
      assert n == 2 * BitsToNat(init) + BitValue(last);
      assert n / 2 == BitsToNat(init) && n % 2 == BitValue(last);
      assert NatToBits(n, |bits|) == NatToBits(BitsToNat(init), |init|) + [if n % 2 == 1 then '1' else '0'];
      assert bits == init + [last];
    }
  }

  /**
   * "{0:0<width>b}".format(n) for any n: the binary digits of n, zero-padded on
   * the left to width digits, and longer than width when n does not fit.
   */
  function FormatBinary(n: nat, width: nat): (bits: seq<Bit>)
    requires width >= 1
    ensures |bits| >= width
    ensures n < Pow2(width) ==> bits == NatToBits(n, width)
    decreases n
  {
    if n < Pow2(width) then NatToBits(n, width)
    else FormatBinary(n / 2, width) + [if n % 2 == 1 then '1' else '0']
  }

  /** The formatted digits read back with int(bits, 2) give the value, whether or not it fits the width. */
  lemma {:induction false} BitsToNatOfFormatBinary(n: nat, width: nat)
    requires width >= 1
    ensures BitsToNat(FormatBinary(n, width)) == n
    decreases n
  {
    if n < Pow2(width) {
      BitsToNatOfNatToBits(n, width);
    } else {
      BitsToNatOfFormatBinary(n / 2, width);
      var bits := FormatBinary(n, width);
      assert bits[..|bits| - 1] == FormatBinary(n / 2, width);
    }
  }

  function Zeros(k: nat): (z: seq<Bit>)
    ensures |z| == k
    ensures forall i :: 0 <= i < k ==> z[i] == '0'
  {
    if k == 0 then [] else Zeros(k - 1) + ['0']
  }

  /** How many zero bits pad_bitstream appends to a stream of the given length. */
  function PaddingLength(len: nat): nat { 8 - len % 8 }

  /** The padded stream, as a function for use in lemmas. */
  function Padded(bits: seq<Bit>): seq<Bit> { bits + Zeros(PaddingLength(|bits|)) }

  /**
   * pad_bitstream: appends 8 - len % 8 zero bits. The input stays a prefix, the
   * result is byte-aligned, and the padding is 1..8 bits: a full byte when the
   * input is already aligned, never zero.
   */
  method PadBitstream(bitstream: seq<Bit>) returns (padded: seq<Bit>)
    ensures padded == Padded(bitstream)
    ensures bitstream <= padded
    ensures |padded| % 8 == 0
    ensures 1 <= |padded| - |bitstream| <= 8
    ensures |bitstream| % 8 == 0 ==> |padded| == |bitstream| + 8
    ensures forall i :: |bitstream| <= i < |padded| ==> padded[i] == '0'
  {
    var padding := 8 - |bitstream| % 8;
    padded := bitstream;
    for i := 0 to padding
      invariant padded == bitstream + Zeros(i)
    {
      padded := padded + ['0'];
    }
  }

  /** get_byte_array as a function: the value of each 8-bit chunk, the last chunk possibly shorter. */
  function BytesOf(bits: seq<Bit>): (bytes: seq<Byte>)
    decreases |bits|
  {
    if bits == [] then []
    else
      var chunk := bits[..Min(8, |bits|)];
      Pow2Monotone(|chunk|, 8);
      [BitsToNat(chunk)] + BytesOf(bits[|chunk|..])
  }

  lemma BytesOfUnfold(bits: seq<Bit>, i: nat)
    requires i < |bits|
    ensures BytesOf(bits[i..]) ==
      [BitsToNat(bits[i..Min(i + 8, |bits|)])] + BytesOf(bits[Min(i + 8, |bits|)..])
  {
    var rest := bits[i..];
    assert rest[..Min(8, |rest|)] == bits[i..Min(i + 8, |bits|)];
    assert rest[Min(8, |rest|)..] == bits[Min(i + 8, |bits|)..];
  }

  lemma {:induction false} BytesOfLength(bits: seq<Bit>)
    ensures |BytesOf(bits)| == (|bits| + 7) / 8
    decreases |bits|
  {
    if bits != [] {
      BytesOfLength(bits[Min(8, |bits|)..]);
    }
  }

  /** Byte k of get_byte_array's result is the value of bits 8k .. 8k+7 (fewer at the end). */
  lemma {:induction false} BytesOfAt(bits: seq<Bit>, k: nat)
    requires k < |BytesOf(bits)|
    ensures 8 * k < |bits|
    ensures BytesOf(bits)[k] == BitsToNat(bits[8 * k..Min(8 * k + 8, |bits|)])
  {
    if k == 0 {
      BytesOfUnfold(bits, 0);
      assert bits[0..] == bits;
    } else {
      BytesOfTail(bits, k);
      var rest, j := bits[8..], 8 * (k - 1);
      BytesOfAt(rest, k - 1);
      SliceOfDrop(bits, 8, j, Min(j + 8, |rest|));
      assert 8 + j == 8 * k && 8 + Min(j + 8, |rest|) == Min(8 * k + 8, |bits|);
    }
  }

  /** A slice of a suffix is a slice of the whole, shifted by the dropped prefix. */
  lemma SliceOfDrop<T>(s: seq<T>, d: nat, i: nat, j: nat)
    requires d <= |s| && i <= j <= |s| - d
    ensures s[d..][i..j] == s[d + i..d + j]
  {
  }

  /** Past the first byte, byte k is byte k - 1 of the bits after the first eight. */
  lemma BytesOfTail(bits: seq<Bit>, k: nat)
    requires 0 < k < |BytesOf(bits)|
    ensures |bits| > 8
    ensures k - 1 < |BytesOf(bits[8..])|
    ensures BytesOf(bits)[k] == BytesOf(bits[8..])[k - 1]
  {
    BytesOfUnfold(bits, 0);
    assert bits[0..] == bits;
  }

  /** int(byte, 2) for a chunk of at most eight bits. */
  function ChunkValue(chunk: seq<Bit>): Byte
    requires |chunk| <= 8
  {
    Pow2Monotone(|chunk|, 8);
    BitsToNat(chunk)
  }

  /** One turn of get_byte_array's loop appends the value of the chunk at i and moves the rest on by a chunk. */
  lemma GetByteArrayStep(bits: seq<Bit>, i: nat, done: seq<Byte>)
    requires i < |bits|
    requires done + BytesOf(bits[i..]) == BytesOf(bits)
    ensures (done + [ChunkValue(bits[i..Min(i + 8, |bits|)])]) + BytesOf(bits[Min(i + 8, |bits|)..]) == BytesOf(bits)
  {
    BytesOfUnfold(bits, i);
    var x, rest := ChunkValue(bits[i..Min(i + 8, |bits|)]), BytesOf(bits[Min(i + 8, |bits|)..]);
    assert (done + [x]) + rest == done + ([x] + rest);
  }

  /**
   * get_byte_array: turns each 8-bit chunk into its value, most significant bit first.
   * A slice past the end is merely shorter, so a stream that is not byte-aligned
   * yields a short last chunk rather than an error.
   */
  method GetByteArray(bitstream: seq<Bit>) returns (byteArray: seq<Byte>)
    ensures byteArray == BytesOf(bitstream)
  {
    byteArray := [];
    var i := 0;
    assert bitstream[0..] == bitstream;
    while i < |bitstream|
      invariant 0 <= i
      invariant byteArray + BytesOf(bitstream[Min(i, |bitstream|)..]) == BytesOf(bitstream)
      decreases |bitstream| - i
    {
      var byte := bitstream[i..Min(i + 8, |bitstream|)];
      GetByteArrayStep(bitstream, i, byteArray);
      byteArray := byteArray + [ChunkValue(byte)];
      i := i + 8;
    }
  }

  /** "{0:08b}".format(byte): the eight bits of one byte. */
  function ByteBits(b: Byte): (bits: seq<Bit>)
    ensures |bits| == 8
  {
    NatToBits(b, 8)
  }

  /** The byte-to-bits conversion of extract_file_bitstream, as a function. */
  function BitsOfBytes(bytes: seq<Byte>): (bits: seq<Bit>)
    ensures |bits| == 8 * |bytes|
  {
    if bytes == [] then [] else ByteBits(bytes[0]) + BitsOfBytes(bytes[1..])
  }

  lemma {:induction false} BitsOfBytesConcat(a: seq<Byte>, b: seq<Byte>)
    ensures BitsOfBytes(a + b) == BitsOfBytes(a) + BitsOfBytes(b)
  {
    if a != [] {
      assert (a + b)[1..] == a[1..] + b;
      BitsOfBytesConcat(a[1..], b);
    } else {
      assert a + b == b;
    }
  }

  /**
   * extract_file_bitstream over the bytes of a file: each byte becomes its
   * eight bits, zero-padded on the left.
   */
  method ExtractFileBitstream(file: seq<Byte>) returns (bitstream: seq<Bit>)
    ensures bitstream == BitsOfBytes(file)
  {
    bitstream := "";
    for i := 0 to |file|
      invariant bitstream == BitsOfBytes(file[..i])
    {
      assert file[..i + 1] == file[..i] + [file[i]];
      BitsOfBytesConcat(file[..i], [file[i]]);
      bitstream := bitstream + ByteBits(file[i]);
    }
    assert file[..|file|] == file;
  }

  /** Packing a byte-aligned bitstream and expanding it again gives the bitstream back. */
  lemma {:induction false} BitsOfBytesOfBits(bits: seq<Bit>)
    requires |bits| % 8 == 0
    ensures BitsOfBytes(BytesOf(bits)) == bits
    decreases |bits|
  {
    if bits != [] {
      var chunk := bits[..8];
      BitsOfBytesOfBits(bits[8..]);
      NatToBitsOfBitsToNat(chunk);
      assert BytesOf(bits) == [BitsToNat(chunk)] + BytesOf(bits[8..]);
      assert bits == chunk + bits[8..];
    }
  }

  /** Expanding bytes to bits and packing them again gives the bytes back. */
  lemma {:induction false} BytesOfBitsOfBytes(bytes: seq<Byte>)
    ensures BytesOf(BitsOfBytes(bytes)) == bytes
  {
    if bytes != [] {
      BytesOfBitsOfBytes(bytes[1..]);
      var bits := BitsOfBytes(bytes);
      assert bits[..8] == ByteBits(bytes[0]);
      assert bits[8..] == BitsOfBytes(bytes[1..]);
      BitsToNatOfNatToBits(bytes[0], 8);
    }
  }

  /** The padded stream is byte-aligned and keeps the input as a prefix. */
  lemma PaddedAligned(bits: seq<Bit>)
    ensures |Padded(bits)| % 8 == 0
    ensures |Padded(bits)| == |bits| + PaddingLength(|bits|)
    ensures Padded(bits)[..|bits|] == bits
  {
  }
}
