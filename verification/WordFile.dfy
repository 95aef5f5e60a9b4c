/** Files of 64-bit words: resized, read and written in blocks. */
module WordFile {
  import opened Bytes

  /** The eight bytes at a position; bytes past the end count as zero. */
  function EightBytes(file: seq<byte>, pos: nat): (b: seq<byte>)
    ensures |b| == 8 && forall k :: 0 <= k < 8 ==> b[k] == FileByte(file, pos + k)
  {
    seq<byte>(8, k requires 0 <= k < 8 => FileByte(file, pos + k))
  }

  function WordAt(file: seq<byte>, i: nat): u64 {
    U64Of(EightBytes(file, 8 * i))
  }

  function Words(file: seq<byte>, n: nat): (w: seq<u64>)
    ensures |w| == n && forall i :: 0 <= i < n ==> w[i] == WordAt(file, i)
  {
    seq<u64>(n, i requires 0 <= i < n => WordAt(file, i))
  }

  /** The file holds exactly these words. */
  ghost predicate Stores(file: seq<byte>, words: seq<u64>) {
    |file| == 8 * |words| && forall i :: 0 <= i < |words| ==> WordAt(file, i) == words[i]
  }

  class File {
    var content: seq<byte>

    constructor ()
      ensures content == []
    {
      content := [];
    }

    method Resize(size: nat)
      modifies this
      ensures |content| == size && forall i :: 0 <= i < size ==> content[i] == FileByte(old(content), i)
    {
      content := if size <= |content| then content[..size] else content + Zeros(size - |content|);
    }

    /** Reads words into zeroed memory; a read past the end leaves it at zero. */
    method ReadWords(first: nat, n: nat) returns (words: seq<u64>)
      ensures words == Words(content, first + n)[first..]
    {
      var block := ReadBlock(content, 8 * first, Zeros(8 * n));
      words := Words(block, n);
      forall i | 0 <= i < n ensures words[i] == WordAt(content, first + i) {
        assert EightBytes(block, 8 * i) == EightBytes(content, 8 * (first + i));
      }
    }

    /** A block read of one word, in bounds. */
    method ReadWord(offset: nat) returns (value: u64)
      requires offset % 8 == 0 && offset + 8 <= |content|
      ensures value == WordAt(content, offset / 8)
    {
      assert content[offset..offset + 8] == EightBytes(content, 8 * (offset / 8));
      value := U64Of(content[offset..offset + 8]);
    }

    /** A block write of one word, in bounds. */
    method WriteWord(offset: nat, value: u64)
      requires offset % 8 == 0 && offset + 8 <= |content|
      modifies this
      ensures |content| == |old(content)| && WordAt(content, offset / 8) == value
      ensures forall i: nat :: 8 * i != offset ==> WordAt(content, i) == WordAt(old(content), i)
    {
      WrittenWord(content, offset / 8, value);
      content := WriteBlock(content, offset, U64Bytes(value));
    }

    /** Writes a whole buffer of words to a file of just that size. */
    method WriteWords(words: seq<u64>)
      requires |content| == 8 * |words|
      modifies this
      ensures Stores(content, words)
    {
      var i := 0;
      while i < |words|
        invariant 0 <= i <= |words| && |content| == 8 * |words|
        invariant forall k :: 0 <= k < i ==> WordAt(content, k) == words[k]
      {
        WriteWord(8 * i, words[i]);
        i := i + 1;
      }
    }
  }

  lemma WrittenWord(file: seq<byte>, i: nat, value: u64)
    requires 8 * i + 8 <= |file|
    ensures var file' := WriteBlock(file, 8 * i, U64Bytes(value));
      |file'| == |file| && WordAt(file', i) == value && forall j: nat :: j != i ==> WordAt(file', j) == WordAt(file, j)
  {
    var file' := WriteBlock(file, 8 * i, U64Bytes(value));
    U64RoundTrip(value);
    assert EightBytes(file', 8 * i) == U64Bytes(value);
    forall j: nat | j != i ensures WordAt(file', j) == WordAt(file, j) {
      assert EightBytes(file', 8 * j) == EightBytes(file, 8 * j);
    }
  }
}
