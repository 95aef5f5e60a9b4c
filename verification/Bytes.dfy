/** Bytes, fixed-width unsigned integers in little-endian order, and file images.
    A file is the sequence of its bytes: a write past the end grows it with zeros, a
    read past the end leaves the destination buffer as it was (`pread` returning 0). */
module Bytes {

  type byte = x: nat | x < 256
  type u64 = x: nat | x < 0x1_0000_0000_0000_0000

  function U32Bytes(v: nat): (b: seq<byte>)
    requires v < 0x1_0000_0000
    ensures |b| == 4
  {
    [v % 0x100, v / 0x100 % 0x100, v / 0x1_0000 % 0x100, v / 0x100_0000]
  }

  function U32Of(b: seq<byte>): (v: nat)
    requires |b| == 4
    ensures v < 0x1_0000_0000
  {
    var b0: nat, b1: nat, b2: nat, b3: nat := b[0], b[1], b[2], b[3];
    b0 + 0x100 * b1 + 0x1_0000 * b2 + 0x100_0000 * b3
  }

  /** The eight bytes of a word, least significant first. */
  function U64Bytes(v: u64): (b: seq<byte>)
    ensures |b| == 8
  {
    U32Bytes(v % 0x1_0000_0000) + U32Bytes(v / 0x1_0000_0000)
  }

  function U64Of(b: seq<byte>): u64
    requires |b| == 8
  {
    U32Of(b[..4]) + 0x1_0000_0000 * U32Of(b[4..])
  }

  lemma U32RoundTrip(v: nat)
    requires v < 0x1_0000_0000
    ensures U32Of(U32Bytes(v)) == v
  {
    var w, x := v / 0x100, v / 0x1_0000;
    assert v / 0x100_0000 == x / 0x100 && x == w / 0x100;
  }

  lemma U64RoundTrip(v: u64)
    ensures U64Of(U64Bytes(v)) == v
  {
    var low, high := v % 0x1_0000_0000, v / 0x1_0000_0000;
    U32RoundTrip(low);
    U32RoundTrip(high);
    assert U64Bytes(v)[..4] == U32Bytes(low) && U64Bytes(v)[4..] == U32Bytes(high);
  }

  /** The byte of a file at a position, zero past the end. */
  function FileByte(file: seq<byte>, pos: nat): byte {
    if pos < |file| then file[pos] else 0
  }

  function Zeros(n: nat): (z: seq<byte>)
    ensures |z| == n && forall i :: 0 <= i < n ==> z[i] == 0
  {
    seq(n, _ => 0)
  }

  /** `write_block(block, offset, |block|)` */
  function WriteBlock(file: seq<byte>, offset: nat, block: seq<byte>): (f: seq<byte>)
    ensures |block| > 0 ==> |f| >= |file| && |f| >= offset + |block|
    ensures block == [] ==> f == file
    ensures forall i: nat :: FileByte(f, i) == if offset <= i < offset + |block| then block[i - offset]
      else FileByte(file, i)
  {
    if block == [] then file else
    var grown := if |file| < offset + |block| then file + Zeros(offset + |block| - |file|) else file;
    grown[..offset] + block + grown[offset + |block|..]
  }

  /** `read_block(offset, |into|, into)`: bytes past the end of the file stay as they were in `into`. */
  function ReadBlock(file: seq<byte>, offset: nat, into: seq<byte>): (b: seq<byte>)
    ensures |b| == |into|
    ensures forall i :: 0 <= i < |into| ==> b[i] == if offset + i < |file| then file[offset + i] else into[i]
  {
    seq(|into|, i requires 0 <= i < |into| => if offset + i < |file| then file[offset + i] else into[i])
  }
}
