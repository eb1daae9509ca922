/** SHA-512 of a message that arrives in chunks: the block buffer of `Hash` over
  * the block function of `Sha512`. */
module Sha512Digests {
  import opened Utf8
  import opened Chunks
  import opened HashBlocks
  import opened Sha512

  /** The SHA-512 digest of a message. */
  function Digest(m: seq<Byte>): seq<bv8> {
    EightBytes(CompressAll(InitialValue(), Blocks(Padded(m, 128), 128)))
  }

  /** `update` with each chunk, then `digest`; messages under 2^53 bits. */
  method DigestChunks(chunks: seq<seq<Byte>>) returns (digest: seq<bv8>)
    requires 8 * |Concat(chunks)| < 0x20_0000_0000_0000
    ensures digest == Digest(Concat(chunks))
  {
    hide Blocks, Padded, Buffered, CompressAll, Concat, InitialValue, EightBytes;
    var w := new bv32[160];
    var sha := new Sha512(w);
    var hash := new Hash(128, 112, sha);
    UpdateAll(hash, chunks);
    hash.Digest(Concat(chunks));
    digest := sha.Bytes();
  }

  /** `update` with each chunk. */
  method UpdateAll(hash: Hash, chunks: seq<seq<Byte>>)
    requires hash.Holds([])
    modifies hash, hash.block, hash.State()
    ensures hash.Holds(Concat(chunks))
  {
    for i := 0 to |chunks|
      invariant hash.Holds(Concat(chunks[..i]))
    {
      hide *;
      ConcatMore(chunks, i);
      hash.Update(chunks[i], Concat(chunks[..i]));
    }
    assert chunks[..|chunks|] == chunks;
  }
}
