/** `read_initrd` of ext2_initrd.cpp. */
module Ext2Readers {
  import opened BitOps
  import opened BitStreams
  import opened Ext2Blocks

  /** How much there is to read. */
  function Available(offset: nat, size: nat, length: nat): nat {
    if offset >= length then 0 else if size < length - offset then size else length - offset
  }

  /** `end` and `size_to_read`, in 32-bit arithmetic. */
  function ReadEnd(offset: nat, size: nat, length: nat): nat {
    if (offset + size) % WORD32 > length then length else (offset + size) % WORD32
  }

  function ReadCount(offset: nat, size: nat, length: nat): nat {
    (ReadEnd(offset, size, length) + WORD32 - offset % WORD32) % WORD32
  }

  /** The offset is in the file, and the sum does not wrap around to a place in it. */
  predicate InRange(offset: nat, size: nat, length: nat) {
    offset <= length && (offset + size < WORD32 || offset + size - WORD32 > length)
  }

  /** The count is what there is to read exactly for such requests. */
  lemma CountExactly(offset: nat, size: nat, length: nat)
    requires offset < WORD32 && size < WORD32 && length < WORD32
    ensures ReadCount(offset, size, length) == Available(offset, size, length) <==> InRange(offset, size, length)
  {
    var sum := if offset + size < WORD32 then offset + size else offset + size - WORD32;
    assert (offset + size) % WORD32 == sum;
    var end := ReadEnd(offset, size, length);
    if end < offset {
      assert ReadCount(offset, size, length) == end + WORD32 - offset;
    } else {
      assert ReadCount(offset, size, length) == end - offset;
    }
  }

  /** One byte past the end of an empty file the request runs away. */
  lemma ReadPastTheEnd()
    ensures ReadCount(1, 1, 0) == WORD32 - 1 && Available(1, 1, 0) == 0
  {
  }

  lemma InRangeMeans(offset: nat, size: nat, length: nat)
    requires offset < WORD32 && size < WORD32 && length < WORD32 && InRange(offset, size, length)
    ensures ReadEnd(offset, size, length) == offset + Available(offset, size, length) <= length
    ensures ReadCount(offset, size, length) == Available(offset, size, length)
  {
    CountExactly(offset, size, length);
  }

  // ---- Blocks of bytes

  lemma DivModUnique(bs: nat, q: nat, r: nat, x: nat)
    requires bs > 0 && r < bs && x == bs * q + r
    ensures BlockOf(x, bs) == q && Within(x, bs) == r
  {
    assert bs * q == q * bs;
    DivideIs(x, bs, q, r);
  }

  lemma DivModOf(bs: nat, x: nat)
    requires bs > 0
    ensures x == bs * BlockOf(x, bs) + Within(x, bs)
  {
  }

  lemma BlocksInOrder(bs: nat, x: nat, y: nat)
    requires bs > 0 && x <= y
    ensures BlockOf(x, bs) <= BlockOf(y, bs)
    ensures BlockOf(x, bs) < BlockOf(y, bs) ==> bs * BlockOf(x, bs) + bs <= bs * BlockOf(y, bs)
  {
    hide *;
    DivModOf(bs, x);
    DivModOf(bs, y);
    var p, q := BlockOf(x, bs), BlockOf(y, bs);
    assert bs * p == p * bs && bs * q == q * bs;
    if q < p {
      MulGap(q, p, bs);
    } else if p < q {
      MulGap(p, q, bs);
    }
  }

  /** The bytes of a logical block lie together. */
  lemma BytesOfBlock(im: Image, inode: Inode, block: nat, y: nat, x: nat)
    requires ValidInode(inode) && y < BlockSize(im) && x == BlockSize(im) * block + y
    ensures CodeByte(im, inode, x) == im.memory(InodeBlock(im, inode, block) + y)
  {
    DivModUnique(BlockSize(im), block, y, x);
    hide BlockSize, BlockOf, Within, InodeBlock;
  }

  /** The first `n` bytes of the buffer are those of the file from `offset`. */
  ghost predicate Filled(im: Image, inode: Inode, offset: nat, b: seq<Byte>, n: nat)
    requires ValidInode(inode)
  {
    n <= |b| && forall i | 0 <= i < n :: b[i] == CodeByte(im, inode, offset + i)
  }

  /** `memcpy` from memory. */
  method MemCpy(m: Memory, buffer: array<Byte>, d: nat, src: nat, size: nat)
    requires d + size <= buffer.Length
    modifies buffer
    ensures forall i | 0 <= i < buffer.Length ::
      buffer[i] == if d <= i < d + size then m(src + i - d) else old(buffer[i])
  {
    for k := 0 to size
      invariant forall i | 0 <= i < buffer.Length ::
        buffer[i] == if d <= i < d + k then m(src + i - d) else old(buffer[i])
    {
      buffer[d + k] := m(src + k);
    }
  }

  /** Copying part of one block continues the file in the buffer. */
  method CopyPart(im: Image, inode: Inode, ghost offset: nat, buffer: array<Byte>, d: nat, block: nat, y: nat,
                  size: nat)
    requires ValidInode(inode) && d + size <= buffer.Length && y + size <= BlockSize(im)
    requires offset + d == BlockSize(im) * block + y && Filled(im, inode, offset, buffer[..], d)
    modifies buffer
    ensures Filled(im, inode, offset, buffer[..], d + size)
    ensures buffer[d + size..] == old(buffer[d + size..])
  {
    hide *;
    MemCpy(im.memory, buffer, d, InodeBlock(im, inode, block) + y, size);
    forall i | d <= i < d + size
      ensures buffer[i] == CodeByte(im, inode, offset + i)
    {
      BytesOfBlock(im, inode, block, y + i - d, offset + i);
    }
    FilledMore(im, inode, offset, old(buffer[..]), buffer[..], d, size);
  }

  lemma FilledMore(im: Image, inode: Inode, offset: nat, before: seq<Byte>, after: seq<Byte>, d: nat, size: nat)
    requires ValidInode(inode) && Filled(im, inode, offset, before, d) && |after| == |before| && d + size <= |after|
    requires after[..d] == before[..d]
    requires forall i | d <= i < d + size :: after[i] == CodeByte(im, inode, offset + i)
    ensures Filled(im, inode, offset, after, d + size)
  {
    forall i | 0 <= i < d + size
      ensures after[i] == CodeByte(im, inode, offset + i)
    {
      if i < d {
        assert after[i] == after[..d][i] == before[..d][i] == before[i];
      }
    }
    hide CodeByte;
  }

  /** `read_initrd`: the bytes asked for, as far as the file has them; the rest of the buffer stays as it is. */
  method ReadInitrd(im: Image, inode: Inode, offset: nat, size: nat, buffer: array<Byte>) returns (n: nat)
    requires ValidInode(inode) && offset < WORD32 && size < WORD32 && InRange(offset, size, inode.size)
    requires Available(offset, size, inode.size) <= buffer.Length
    modifies buffer
    ensures n == Available(offset, size, inode.size)
    ensures Filled(im, inode, offset, buffer[..], n) && buffer[n..] == old(buffer[n..])
  {
    InRangeMeans(offset, size, inode.size);
    SizesFit(inode);
    hide *;
    var end := ReadEnd(offset, size, inode.size);
    var block_size := BlockSize(im);
    var start_block, end_block := BlockOf(offset, block_size), BlockOf(end, block_size);
    var end_size := Within(end, block_size);
    n := ReadCount(offset, size, inode.size);
    NothingFilled(im, inode, offset, buffer[..]);
    DivModOf(block_size, offset);
    DivModOf(block_size, end);
    BlocksInOrder(block_size, offset, end);
    if start_block == end_block {
      CopyPart(im, inode, offset, buffer, 0, start_block, Within(offset, block_size), n);
    } else {
      ReadBlocks(im, inode, offset, end, buffer, start_block, end_block, end_size);
    }
  }

  lemma SizesFit(inode: Inode)
    requires ValidInode(inode)
    ensures inode.size < WORD32
  {
  }

  lemma NothingFilled(im: Image, inode: Inode, offset: nat, b: seq<Byte>)
    requires ValidInode(inode)
    ensures Filled(im, inode, offset, b, 0)
  {
  }

  /** The loop over whole blocks, and the part of the last block. */
  method ReadBlocks(im: Image, inode: Inode, offset: nat, ghost end: nat, buffer: array<Byte>,
                    start_block: nat, end_block: nat, end_size: nat)
    requires ValidInode(inode) && offset <= end && end - offset <= buffer.Length
    requires start_block == BlockOf(offset, BlockSize(im)) < end_block
    requires offset == BlockSize(im) * start_block + Within(offset, BlockSize(im))
    requires end == BlockSize(im) * end_block + end_size && end_size < BlockSize(im)
    modifies buffer
    ensures Filled(im, inode, offset, buffer[..], end - offset)
    ensures buffer[end - offset..] == old(buffer[end - offset..])
  {
    hide *;
    var block_size := BlockSize(im);
    var skipped := Within(offset, block_size);
    var blocks_read := 0;
    ghost var filled := 0;
    NothingFilled(im, inode, offset, buffer[..]);
    for block_offset := start_block to end_block
      invariant blocks_read == block_offset - start_block
      invariant filled == if blocks_read == 0 then 0 else block_size * blocks_read - skipped
      invariant blocks_read > 0 ==> offset + filled == block_size * block_offset
      invariant 0 <= filled <= end - offset && Filled(im, inode, offset, buffer[..], filled)
      invariant buffer[filled..] == old(buffer[filled..])
    {
      MulStep(block_size, block_offset);
      MulStep(block_size, blocks_read);
      WholeBlocks(block_size, block_offset + 1, end_block);
      if block_offset == start_block {
        CopyPart(im, inode, offset, buffer, 0, block_offset, skipped, block_size - skipped);
        filled := block_size - skipped;
      } else {
        CopyPart(im, inode, offset, buffer, block_size * blocks_read - skipped, block_offset, 0, block_size);
        filled := filled + block_size;
      }
      blocks_read := blocks_read + 1;
    }
    CopyPart(im, inode, offset, buffer, block_size * blocks_read - skipped, end_block, 0, end_size);
    assert old(buffer[..])[filled..][end_size..] == old(buffer[..])[end - offset..];
  }

  /** In an image whose blocks are all in reach, what was read is a slice of the file. */
  lemma ReadIsSlice(im: Image, inode: Inode, offset: nat, b: seq<Byte>, n: nat)
    requires ValidInode(inode) && Reachable(im, inode) && offset + n <= inode.size
    requires Filled(im, inode, offset, b, n)
    ensures forall i | 0 <= i < n :: b[i] == FileByte(im, inode, offset + i)
  {
    forall i | 0 <= i < n
      ensures b[i] == FileByte(im, inode, offset + i)
    {
      BytesAgree(im, inode, offset + i);
    }
    hide CodeByte, FileByte, Reachable;
  }

  lemma MulStep(bs: nat, k: nat)
    ensures bs * (k + 1) == bs * k + bs && bs * 0 == 0 && bs * 1 == bs
  {
  }

  lemma WholeBlocks(bs: nat, k: nat, n: nat)
    requires k <= n
    ensures bs * k <= bs * n
  {
    MulMonotone(bs, k, n);
    assert bs * k == k * bs && bs * n == n * bs;
  }
}
