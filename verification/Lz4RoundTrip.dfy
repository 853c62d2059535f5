/** Compressing and decompressing, one after the other. */
module Lz4RoundTrip {
  import opened Machine
  import opened Lz4Format
  import Lz4Compress
  import Lz4Decompress

  /** For every accepted input and every hash function, the safe decoder, given the compressor's
      output and a buffer at least as large as the input, consumes all of it without error and
      returns the input. */
  method RoundTrip(data: seq<Byte>, packed: array<Byte>, table: array<nat>, byU16: bool, hash: seq<Byte> -> nat,
        unpacked: array<Byte>)
    returns (n: nat, result: int)
    requires |data| <= 0x7E000000 && (byU16 ==> |data| < 65547)
    requires packed.Length >= CompressBound(|data|) && unpacked.Length >= |data|
    requires packed != unpacked
    requires 0 < table.Length && Lz4Compress.Below(table, 1)
    modifies packed, table, unpacked
    ensures 0 < n <= CompressBound(|data|)
    ensures result == |data| && unpacked[..result] == data
  {
    ghost var ss, last;
    n, ss, last := Lz4Compress.Compress(data, packed, table, byU16, hash);
    ghost var block := packed[..];
    assert Encode(ss, last) == block[..n];
    Lz4Decompress.DecodeEncode(block, ss, last, |data|, unpacked.Length);
    result := Lz4Decompress.Decompress(packed[..], n, unpacked);
    assert unpacked[..][..result] == unpacked[..result];
  }
}
