/** The compressed-file sniffer: a file whose first bytes are one of four
    archive signatures is not read line by line. */
module Sniffer {
  import opened Common

  const ZIP_MAGIC: seq<byte> := [0x50, 0x4B, 0x03, 0x04]
  const LZW_MAGIC: seq<byte> := [0x1F, 0x9D]
  const LZH_MAGIC: seq<byte> := [0x1F, 0xA0]
  const GZ_MAGIC: seq<byte> := [0x1F, 0x8B, 0x08]

  /** The signatures, in the order they are tried. */
  const MAGICS: seq<seq<byte>> := [ZIP_MAGIC, LZW_MAGIC, LZH_MAGIC, GZ_MAGIC]

  /** `data` is at least as long as `magic` and begins with it. */
  predicate StartsWith(data: seq<byte>, magic: seq<byte>)
  {
    |magic| <= |data| && data[..|magic|] == magic
  }

  /** Reference classification: some signature is a prefix of the file. */
  predicate HasMagicPrefix(data: seq<byte>)
  {
    exists i :: 0 <= i < |MAGICS| && StartsWith(data, MAGICS[i])
  }

  /** What one `read(byte[n])` from offset 0 returns on a file holding
      `data`: -1 at end of file, otherwise the number of bytes copied. */
  function ReadCount(data: seq<byte>, n: nat): (read: int)
    ensures read == n <==> (n <= |data| && (n > 0 || |data| > 0))
  {
    if |data| == 0 then -1 else if n <= |data| then n else |data|
  }

  /** The sniffing loop: for each signature, re-read the first bytes from
      offset 0, skip the signature when fewer bytes came back than it is
      long, and report a match as soon as the bytes are equal. */
  method IsCompressedFile(data: seq<byte>) returns (compressed: bool)
    ensures compressed <==> HasMagicPrefix(data)
  {
    var i := 0;
    while i < |MAGICS|
      invariant 0 <= i <= |MAGICS|
      invariant forall j :: 0 <= j < i ==> !StartsWith(data, MAGICS[j])
    {
      var magic := MAGICS[i];
      var read := ReadCount(data, |magic|);
      if read != |magic| {
        i := i + 1;
        continue;
      }
      var fileBytes := data[..|magic|];
      if fileBytes == magic {
        return true;
      }
      i := i + 1;
    }
    return false;
  }

  /** The four signatures spelled out byte by byte. */
  lemma MagicBytes(data: seq<byte>)
    ensures HasMagicPrefix(data) <==>
      || (|data| >= 4 && data[0] == 0x50 && data[1] == 0x4B && data[2] == 0x03 && data[3] == 0x04)
      || (|data| >= 2 && data[0] == 0x1F && data[1] == 0x9D)
      || (|data| >= 2 && data[0] == 0x1F && data[1] == 0xA0)
      || (|data| >= 3 && data[0] == 0x1F && data[1] == 0x8B && data[2] == 0x08)
  {
    if |data| >= 2 {
      assert data[..2] == [data[0], data[1]];
    }
    if |data| >= 3 {
      assert data[..3] == [data[0], data[1], data[2]];
    }
    if |data| >= 4 {
      assert data[..4] == [data[0], data[1], data[2], data[3]];
    }
    if HasMagicPrefix(data) {
      var i :| 0 <= i < |MAGICS| && StartsWith(data, MAGICS[i]);
      assert data[..|MAGICS[i]|] == MAGICS[i];
    }
    if |data| >= 4 && data[0] == 0x50 && data[1] == 0x4B && data[2] == 0x03 && data[3] == 0x04 {
      assert StartsWith(data, MAGICS[0]);
    }
    if |data| >= 2 && data[0] == 0x1F && data[1] == 0x9D {
      assert StartsWith(data, MAGICS[1]);
    }
    if |data| >= 2 && data[0] == 0x1F && data[1] == 0xA0 {
      assert StartsWith(data, MAGICS[2]);
    }
    if |data| >= 3 && data[0] == 0x1F && data[1] == 0x8B && data[2] == 0x08 {
      assert StartsWith(data, MAGICS[3]);
    }
  }

  /** A file shorter than the shortest signature is never compressed, and
      a match is decided by the file's first bytes alone. */
  lemma ShortFileNotCompressed(data: seq<byte>, more: seq<byte>)
    ensures |data| < 2 ==> !HasMagicPrefix(data)
    ensures HasMagicPrefix(data) ==> HasMagicPrefix(data + more)
  {
    if HasMagicPrefix(data) {
      var i :| 0 <= i < |MAGICS| && StartsWith(data, MAGICS[i]);
      assert (data + more)[..|MAGICS[i]|] == data[..|MAGICS[i]|];
    }
  }
}
