/** Integrity checking of a downloaded tarball: its SHA-512 digest is computed
    by streaming the file through the hasher in fixed-size blocks
    (downloadsource.py:100-103). The SHA-512 algorithm itself is a parameter:
    a function from a whole message to its lower-case hexadecimal digest. The
    hasher's state is modelled as the bytes it has absorbed so far, since
    `update(a); update(b)` digests exactly `a + b`. */
module Integrity {
  import opened Text

  /** The block size of `f.read(65536)`. */
  const BlockSize: nat := 65536

  predicate IsHexChar(c: char) {
    ('0' <= c <= '9') || ('a' <= c <= 'f')
  }

  /** What `hexdigest()` of a SHA-512 hasher returns: 128 lower-case hex digits. */
  predicate IsHexDigest(s: string) {
    |s| == 128 && forall i :: 0 <= i < |s| ==> IsHexChar(s[i])
  }

  type HexDigest = s: string | IsHexDigest(s) witness seq(128, _ => '0')

  /** A digest is a single field of a manifest line. */
  lemma HexDigestIsToken(d: HexDigest)
    ensures IsToken(d)
  {
    assert forall i :: 0 <= i < |d| ==> IsHexChar(d[i]);
  }

  /** One `f.read(size)` on a regular file whose cursor is at `pos`. */
  function Read(data: Bytes, pos: nat, size: nat): (block: Bytes)
    requires pos <= |data|
    ensures |block| == if pos + size <= |data| then size else |data| - pos
    ensures block == data[pos..pos + |block|]
  {
    if pos + size <= |data| then data[pos..pos + size] else data[pos..]
  }

  /** The successive blocks `iter(lambda: f.read(size), b"")` yields. */
  function Blocks(data: Bytes, size: nat): (bs: seq<Bytes>)
    requires size > 0
    ensures bs == [] <==> data == []
    ensures |bs| <= |data|
    decreases |data|
  {
    if data == [] then []
    else
      var block := Read(data, 0, size);
      [block] + Blocks(data[|block|..], size)
  }

  function Concat(bs: seq<Bytes>): Bytes {
    if bs == [] then [] else bs[0] + Concat(bs[1..])
  }

  /** The blocks put back together are the file, whatever the block size. */
  lemma {:induction false} ConcatBlocks(data: Bytes, size: nat)
    requires size > 0
    ensures Concat(Blocks(data, size)) == data
    decreases |data|
  {
    if data != [] {
      var block := Read(data, 0, size);
      ConcatBlocks(data[|block|..], size);
      assert Blocks(data, size)[1..] == Blocks(data[|block|..], size);
      assert block + data[|block|..] == data;
    }
  }

  /** Every block is non-empty and full, except possibly the last. */
  lemma {:induction false} BlocksShape(data: Bytes, size: nat)
    requires size > 0
    ensures forall k :: 0 <= k < |Blocks(data, size)| ==>
      0 < |Blocks(data, size)[k]| <= size
    ensures forall k :: 0 <= k < |Blocks(data, size)| - 1 ==>
      |Blocks(data, size)[k]| == size
    decreases |data|
  {
    if data != [] {
      var block := Read(data, 0, size);
      BlocksShape(data[|block|..], size);
      var bs := Blocks(data, size);
      assert bs[1..] == Blocks(data[|block|..], size);
      forall k | 1 <= k < |bs| ensures bs[k] == Blocks(data[|block|..], size)[k - 1] { }
    }
  }

  /** The block size is a matter of speed only: any two give the same digest. */
  lemma DigestIndependentOfBlockSize(sha512: Bytes -> HexDigest, data: Bytes, s1: nat, s2: nat)
    requires s1 > 0 && s2 > 0
    ensures sha512(Concat(Blocks(data, s1))) == sha512(Concat(Blocks(data, s2))) == sha512(data)
  {
    ConcatBlocks(data, s1);
    ConcatBlocks(data, s2);
  }

  /** The digest of a file streamed through the hasher block by block
      (downloadsource.py:100-103). `blocks` records what was read. */
  method StreamDigest(sha512: Bytes -> HexDigest, data: Bytes)
    returns (digest: HexDigest, ghost blocks: seq<Bytes>)
    ensures digest == sha512(data)
    ensures blocks == Blocks(data, BlockSize) && Concat(blocks) == data
  {
    var absorbed: Bytes := [];
    var pos := 0;
    blocks := [];
    while true
      invariant pos <= |data|
      invariant absorbed == data[..pos]
      invariant blocks + Blocks(data[pos..], BlockSize) == Blocks(data, BlockSize)
      decreases |data| - pos
    {
      var block := Read(data, pos, BlockSize);
      if block == [] {
        break;
      }
      assert Read(data[pos..], 0, BlockSize) == block;
      assert data[pos..][|block|..] == data[pos + |block|..];
      assert data[..pos] + block == data[..pos + |block|];
      absorbed := absorbed + block;
      blocks := blocks + [block];
      pos := pos + |block|;
    }
    assert data[pos..] == [];
    assert absorbed == data;
    digest := sha512(absorbed);
    ConcatBlocks(data, BlockSize);
  }
}
