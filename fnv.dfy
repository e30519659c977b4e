/** The 32-bit FNV-1 file hash shared by Walk and RecursiveWalk: start from
    the offset basis, then for each byte multiply by the FNV prime (wrapping
    mod 2^32, as Java `int` arithmetic does) and xor in the byte, read as
    unsigned. Constants as in the Fowler-Noll-Vo hash description
    (draft-eastlake-fnv, section 2). Files are read in fixed-size blocks;
    the block loop folds the same sequence whatever the block size. */
module Fnv {

  const OFFSET_BASIS: bv32 := 0x811c9dc5
  const PRIME: bv32 := 0x01000193

  /** A Java `byte` widened to `int`: sign extension. */
  function SignExtend(b: bv8): bv32 {
    if b < 0x80 then b as bv32 else (b as bv32) | 0xffff_ff00
  }

  /** `block[i] & 0xff`: the byte's unsigned value, 0 to 255. */
  function Unsigned(b: bv8): (r: bv32)
    ensures r < 0x100 && r as bv8 == b
  {
    SignExtend(b) & 0xff
  }

  /** One round: `hash = (hash * FNV_32_PRIME) ^ (b & 0xff)`. */
  function Step(hash: bv32, b: bv8): bv32 {
    (hash * PRIME) ^ Unsigned(b)
  }

  /** The xor only touches the low 8 bits of the product. */
  lemma StepTouchesLowByte(hash: bv32, b: bv8)
    ensures Step(hash, b) & 0xffff_ff00 == (hash * PRIME) & 0xffff_ff00
    ensures (Step(hash, b) ^ (hash * PRIME)) as bv8 == b
  {
  }

  /** The rounds applied to `bytes` in order, starting from `hash`. */
  function Fold(hash: bv32, bytes: seq<bv8>): bv32
    decreases |bytes|
  {
    if |bytes| == 0 then hash else Fold(Step(hash, bytes[0]), bytes[1..])
  }

  /** The FNV-1 hash of a file's content. */
  function Hash(bytes: seq<bv8>): bv32 {
    Fold(OFFSET_BASIS, bytes)
  }

  /** An empty file hashes to the offset basis. */
  lemma EmptyHash()
    ensures Hash([]) == 0x811c9dc5
  {
  }

  /** Folding two pieces one after the other is folding their
      concatenation: the state carries over. */
  lemma {:induction false} FoldAppend(hash: bv32, a: seq<bv8>, b: seq<bv8>)
    ensures Fold(hash, a + b) == Fold(Fold(hash, a), b)
    decreases |a|
  {
    if |a| == 0 {
      assert a + b == b;
    } else {
      assert (a + b)[1..] == a[1..] + b;
      FoldAppend(Step(hash, a[0]), a[1..], b);
    }
  }

  /** One more byte is one more round. */
  lemma FoldSnoc(hash: bv32, bytes: seq<bv8>, b: bv8)
    ensures Fold(hash, bytes + [b]) == Step(Fold(hash, bytes), b)
  {
    FoldAppend(hash, bytes, [b]);
    assert [b][1..] == [];
  }

  /** All blocks of a file, joined. */
  function Flatten(blocks: seq<seq<bv8>>): seq<bv8> {
    if blocks == [] then [] else blocks[0] + Flatten(blocks[1..])
  }

  lemma {:induction false} FlattenAppend(blocks: seq<seq<bv8>>, block: seq<bv8>)
    ensures Flatten(blocks + [block]) == Flatten(blocks) + block
  {
    if blocks != [] {
      assert (blocks + [block])[1..] == blocks[1..] + [block];
      FlattenAppend(blocks[1..], block);
    }
  }

  /** The successive results of `read(block)` on a file: full blocks of
      `size` bytes, then what remains. */
  function Blocks(bytes: seq<bv8>, size: nat): (r: seq<seq<bv8>>)
    requires size > 0
    ensures Flatten(r) == bytes
    ensures forall i :: 0 <= i < |r| ==> 0 < |r[i]| <= size
    decreases |bytes|
  {
    if |bytes| == 0 then []
    else if |bytes| <= size then [bytes]
    else
      var rest := Blocks(bytes[size..], size);
      assert ([bytes[..size]] + rest)[1..] == rest;
      [bytes[..size]] + rest
  }

  /** The block loop as a function: fold each block into the running hash. */
  function BlockwiseFold(hash: bv32, blocks: seq<seq<bv8>>): bv32
    decreases |blocks|
  {
    if blocks == [] then hash else BlockwiseFold(Fold(hash, blocks[0]), blocks[1..])
  }

  /** Folding block by block is folding the joined content. */
  lemma {:induction false} BlockwiseFoldIsFold(hash: bv32, blocks: seq<seq<bv8>>)
    ensures BlockwiseFold(hash, blocks) == Fold(hash, Flatten(blocks))
    decreases |blocks|
  {
    if blocks != [] {
      BlockwiseFoldIsFold(Fold(hash, blocks[0]), blocks[1..]);
      FoldAppend(hash, blocks[0], Flatten(blocks[1..]));
    }
  }

  /** The block size does not matter: reading in 1024-byte blocks (Walk)
      and in 4096-byte blocks (RecursiveWalk) gives the same hash. */
  lemma BlockSizeIrrelevant(bytes: seq<bv8>, size1: nat, size2: nat)
    requires size1 > 0 && size2 > 0
    ensures BlockwiseFold(OFFSET_BASIS, Blocks(bytes, size1)) == BlockwiseFold(OFFSET_BASIS, Blocks(bytes, size2))
    ensures BlockwiseFold(OFFSET_BASIS, Blocks(bytes, size1)) == Hash(bytes)
  {
    BlockwiseFoldIsFold(OFFSET_BASIS, Blocks(bytes, size1));
    BlockwiseFoldIsFold(OFFSET_BASIS, Blocks(bytes, size2));
  }

  /** The read loop of both walkers: a buffer of `blockSize` bytes is filled
      by each read, and every byte read is folded into the hash. The result
      is the hash of the whole content, however the reads split it. */
  method HashBlocks(blocks: seq<seq<bv8>>, blockSize: nat) returns (hash: bv32)
    requires forall i :: 0 <= i < |blocks| ==> |blocks[i]| <= blockSize
    ensures hash == Hash(Flatten(blocks))
  {
    var block := new bv8[blockSize];
    hash := OFFSET_BASIS;
    var n := 0;
    while n < |blocks|
      invariant 0 <= n <= |blocks|
      invariant hash == Hash(Flatten(blocks[..n]))
    {
      // inputStream.read(block): the next piece lands at the buffer's start
      var blockLength := |blocks[n]|;
      forall j | 0 <= j < blockLength {
        block[j] := blocks[n][j];
      }
      ghost var done := Flatten(blocks[..n]);
      assert done + blocks[n][..0] == done;
      var i := 0;
      while i < blockLength
        invariant 0 <= i <= blockLength
        invariant forall j :: 0 <= j < blockLength ==> block[j] == blocks[n][j]
        invariant hash == Hash(done + blocks[n][..i])
      {
        FoldSnoc(OFFSET_BASIS, done + blocks[n][..i], block[i]);
        assert done + blocks[n][..i + 1] == (done + blocks[n][..i]) + [block[i]];
        hash := Step(hash, block[i]);
        i := i + 1;
      }
      assert blocks[..n + 1] == blocks[..n] + [blocks[n]];
      FlattenAppend(blocks[..n], blocks[n]);
      assert blocks[n][..blockLength] == blocks[n];
      n := n + 1;
    }
    assert blocks[..n] == blocks;
  }

  /** The hash a walker reports for a path: the content's hash when the
      path can be opened and read to the end, 0 when opening or reading it
      fails (IOException or InvalidPathException). `files` holds the content
      of every path that reads successfully. */
  function HashOrZero(files: map<string, seq<bv8>>, path: string): bv32 {
    if path in files then Hash(files[path]) else 0
  }
}
