/** Where the blocks of a file are: `ext2_get_block` and `ext2_get_inode_block` of ext2_initrd.cpp. */
module Ext2Blocks {
  import opened BitOps
  import opened BitStreams

  const WORD32: nat := 0x1_0000_0000

  /** A mounted image: memory, the address it starts at, and the logarithm that gives its block size. */
  datatype Image = Image(memory: Memory, start: nat, log_block_size: nat)

  datatype Inode = Inode(size: nat, block: seq<nat>)

  ghost predicate ValidInode(inode: Inode) {
    |inode.block| == 15 && inode.size < WORD32
  }

  function BlockSize(im: Image): (bs: nat)
    ensures bs > 0
  {
    1024 * Pow2(im.log_block_size)
  }

  /** The 32-bit little-endian number at an address. */
  function U32(m: Memory, a: nat): nat {
    m(a) + 0x100 * m(a + 1) + 0x1_0000 * m(a + 2) + 0x100_0000 * m(a + 3)
  }

  /** Blocks of 1 KiB, twice as large for every step of the logarithm. */
  lemma BlockSizeDoubles(im: Image, more: Image)
    requires more.log_block_size == im.log_block_size + 1
    ensures BlockSize(more) == 2 * BlockSize(im)
    ensures im.log_block_size == 0 ==> BlockSize(im) == 1024
  {
  }

  lemma Quotients(x: nat)
    ensures x == 0x100 * (x / 0x100) + x % 0x100
    ensures x / 0x100 == 0x100 * (x / 0x1_0000) + x / 0x100 % 0x100
    ensures x / 0x1_0000 == 0x100 * (x / 0x100_0000) + x / 0x1_0000 % 0x100
    ensures x < 0x1_0000_0000 ==> x / 0x100_0000 % 0x100 == x / 0x100_0000
  {
    QuotientTwice(x, 0x100);
    QuotientTwice(x, 0x1_0000);
  }

  lemma QuotientTwice(x: nat, a: nat)
    requires a == 0x100 || a == 0x1_0000
    ensures x / a / 0x100 == x / (a * 0x100)
  {
  }

  /** Four bytes with the least significant one first are read back as the number. */
  lemma U32IsLittleEndian(m: Memory, a: nat, x: nat)
    requires x < 0x1_0000_0000 && m(a) == x % 0x100 && m(a + 1) == x / 0x100 % 0x100
    requires m(a + 2) == x / 0x1_0000 % 0x100 && m(a + 3) == x / 0x100_0000 % 0x100
    ensures U32(m, a) == x
  {
    Quotients(x);
    var y, z, t := x / 0x100, x / 0x1_0000, x / 0x100_0000;
    assert x == 0x100 * y + m(a) && y == 0x100 * z + m(a + 1) && z == 0x100 * t + m(a + 2) && t == m(a + 3);
  }

  /** `ext2_get_block`, whose product is a 32-bit one. */
  function BlockAddress(im: Image, block: nat): nat {
    im.start + BlockSize(im) * block % WORD32
  }

  /** Which pointer a logical block uses: one in the inode, or one reached through one or two blocks of pointers. */
  datatype Slot = Direct(i: nat) | Single(i: nat) | Double(i: nat, j: nat) | Outside

  /** The branches of `ext2_get_inode_block`, for `n` pointers in a block; the last one counts on 256. */
  function CodeSlot(n: nat, block: nat): Slot
    requires n >= 256
  {
    if block < 12 then Direct(block)
    else if block < 12 + n then Single(block - 12)
    else if block < 12 + 256 + 256 * 256 then
      var b := block - 12 - 256;
      var c := b / 256;
      Double(c, b - c * 256)
    else Outside
  }

  /** The layout of ext2 for `n` pointers in a block, up to doubly indirect blocks. */
  function LayoutSlot(n: nat, block: nat): (slot: Slot)
    requires n > 0
    ensures slot.Direct? ==> slot.i < 12
  {
    if block < 12 then Direct(block)
    else if block < 12 + n then Single(block - 12)
    else if block < 12 + n + n * n then Double((block - 12 - n) / n, (block - 12 - n) % n)
    else Outside
  }

  function PointersPerBlock(im: Image): (n: nat)
    ensures n >= 256
  {
    BlockSize(im) / 4
  }

  /** A number of pointers other than 256 sends every doubly indirect block to the wrong slot. */
  lemma SlotExactly(n: nat, block: nat)
    requires n >= 256 && LayoutSlot(n, block) != Outside
    ensures CodeSlot(n, block) == LayoutSlot(n, block) <==> block < 12 + n || n == 256
  {
    if block >= 12 + n {
      var x := block - 12 - n;
      var i, j := x / n, x % n;
      assert x == n * i + j;
      MulMonotone(i, 256, n);
      if n == 256 {
        assert i * 256 + j == x;
      }
    }
  }

  /** Behind the singly indirect blocks the code has the slots of 256 pointers, whatever a block holds. */
  lemma CodeCountsOn256(n: nat, block: nat)
    requires n >= 256
    ensures CodeSlot(n, block) == if block < 12 + n then LayoutSlot(n, block) else LayoutSlot(256, block)
  {
  }

  /** Blocks of 2 KiB hold 512 pointers; the first doubly indirect block is looked for at the second pointer. */
  lemma FirstDoubleMissed()
    ensures LayoutSlot(512, 524) == Double(0, 0) && CodeSlot(512, 524) == Double(1, 0)
  {
  }

  lemma {:induction false} MulMonotone(i: nat, a: nat, b: nat)
    requires a <= b
    ensures a * i <= b * i
  {
    if i > 0 {
      MulMonotone(i - 1, a, b);
      assert a * i == a * (i - 1) + a && b * i == b * (i - 1) + b;
    }
  }

  /** No two logical blocks share a slot. */
  lemma SlotsDistinct(n: nat, a: nat, b: nat)
    requires n >= 256 && a != b && CodeSlot(n, a) != Outside && CodeSlot(n, b) != Outside
    ensures CodeSlot(n, a) != CodeSlot(n, b)
  {
  }

  /** The address of a slot's block; the null pointer stands for blocks out of reach. */
  function SlotAddress(im: Image, inode: Inode, slot: Slot): nat
    requires ValidInode(inode) && (slot.Direct? ==> slot.i < 12)
  {
    match slot
    case Direct(i) => BlockAddress(im, inode.block[i])
    case Single(i) => BlockAddress(im, U32(im.memory, BlockAddress(im, inode.block[12]) + 4 * i))
    case Double(i, j) =>
      var inner := BlockAddress(im, U32(im.memory, BlockAddress(im, inode.block[13]) + 4 * i));
      BlockAddress(im, U32(im.memory, inner + 4 * j))
    case Outside => 0
  }

  /** `ext2_get_inode_block` */
  function InodeBlock(im: Image, inode: Inode, block: nat): nat
    requires ValidInode(inode)
  {
    SlotAddress(im, inode, CodeSlot(PointersPerBlock(im), block))
  }

  /** The logical block of byte `x`, and the place in it. */
  function BlockOf(x: nat, bs: nat): nat
    requires bs > 0
  {
    x / bs
  }

  function Within(x: nat, bs: nat): (y: nat)
    requires bs > 0
    ensures y < bs
  {
    x % bs
  }

  /** Byte `x` of the file, as the code finds it. */
  function CodeByte(im: Image, inode: Inode, x: nat): Byte
    requires ValidInode(inode)
  {
    im.memory(InodeBlock(im, inode, BlockOf(x, BlockSize(im))) + Within(x, BlockSize(im)))
  }

  // ---- The layout of ext2

  /** Where a block lies, whatever its number. */
  function LayoutAddress(im: Image, block: nat): nat {
    im.start + BlockSize(im) * block
  }

  /** The number of a slot's block; 0 where some pointer on the way is null, which makes a hole. */
  function LayoutBlock(im: Image, inode: Inode, slot: Slot): nat
    requires ValidInode(inode) && (slot.Direct? ==> slot.i < 12)
  {
    match slot
    case Direct(i) => inode.block[i]
    case Single(i) => LayoutPointer(im, inode.block[12], i)
    case Double(i, j) => LayoutPointer(im, LayoutPointer(im, inode.block[13], i), j)
    case Outside => 0
  }

  /** The i-th pointer in a block of pointers; a hole has none but null ones. */
  function LayoutPointer(im: Image, block: nat, i: nat): nat {
    if block == 0 then 0 else U32(im.memory, LayoutAddress(im, block) + 4 * i)
  }

  /** Byte `x` of the file, as ext2 lays it out; a hole reads as zeros. */
  function FileByte(im: Image, inode: Inode, x: nat): Byte
    requires ValidInode(inode)
  {
    var block := LayoutBlock(im, inode, LayoutSlot(PointersPerBlock(im), BlockOf(x, BlockSize(im))));
    if block == 0 then 0 else im.memory(LayoutAddress(im, block) + Within(x, BlockSize(im)))
  }

  /** The 32-bit product is the place of a block exactly when it does not wrap around. */
  lemma AddressExactly(im: Image, block: nat)
    ensures BlockAddress(im, block) == LayoutAddress(im, block) <==> BlockSize(im) * block < 0x1_0000_0000
  {
    hide BlockSize;
  }

  /** A pointer that is neither null nor too far for the 32-bit product. */
  ghost predicate Near(im: Image, block: nat) {
    0 < block && BlockSize(im) * block < WORD32
  }

  /** So are all pointers on the way to a slot's block. */
  ghost predicate AllNear(im: Image, inode: Inode, slot: Slot)
    requires ValidInode(inode) && (slot.Direct? ==> slot.i < 12)
  {
    match slot
    case Direct(i) => Near(im, inode.block[i])
    case Single(i) => Near(im, inode.block[12]) && Near(im, LayoutPointer(im, inode.block[12], i))
    case Double(i, j) =>
      && Near(im, inode.block[13]) && Near(im, LayoutPointer(im, inode.block[13], i))
      && Near(im, LayoutPointer(im, LayoutPointer(im, inode.block[13], i), j))
    case Outside => false
  }

  /** The slots up to which code and layout agree, for blocks of this size. */
  function SlotsInReach(im: Image): nat {
    12 + (if im.log_block_size == 0 then 256 + 256 * 256 else PointersPerBlock(im))
  }

  /** Every block of the file has such a slot, and no pointer on the way is null or too far. */
  ghost predicate Reachable(im: Image, inode: Inode)
    requires ValidInode(inode)
  {
    forall x: nat | x < inode.size :: ReachableAt(im, inode, BlockOf(x, BlockSize(im)))
  }

  ghost predicate ReachableAt(im: Image, inode: Inode, block: nat)
    requires ValidInode(inode)
  {
    block < SlotsInReach(im) && AllNear(im, inode, LayoutSlot(PointersPerBlock(im), block))
  }

  lemma SmallBlocks(im: Image)
    ensures im.log_block_size == 0 ==> PointersPerBlock(im) == 256
  {
  }

  /** These are exactly the slots at which both find the same one. */
  lemma ReachIsAgreement(im: Image, block: nat)
    ensures var n := PointersPerBlock(im);
      block < SlotsInReach(im) <==> LayoutSlot(n, block) != Outside && CodeSlot(n, block) == LayoutSlot(n, block)
  {
    var n := PointersPerBlock(im);
    SmallBlocks(im);
    LargeBlocks(im);
    if LayoutSlot(n, block) != Outside {
      SlotExactly(n, block);
    }
    hide BlockSize, CodeSlot;
  }

  lemma LargeBlocks(im: Image)
    ensures im.log_block_size > 0 ==> PointersPerBlock(im) > 256
  {
  }

  /** Then the code finds the file's own bytes. */
  lemma BytesAgree(im: Image, inode: Inode, x: nat)
    requires ValidInode(inode) && Reachable(im, inode) && x < inode.size
    ensures CodeByte(im, inode, x) == FileByte(im, inode, x)
  {
    hide BlockSize, BlockOf, Within, CodeSlot, LayoutSlot, SlotAddress, AllNear, LayoutBlock, U32, LayoutAddress;
    var n, block := PointersPerBlock(im), BlockOf(x, BlockSize(im));
    assert ReachableAt(im, inode, block);
    SmallBlocks(im);
    SlotInReach(n, block, im.log_block_size == 0);
    SlotExactly(n, block);
    SlotFound(im, inode, LayoutSlot(n, block));
  }

  lemma SlotFound(im: Image, inode: Inode, slot: Slot)
    requires ValidInode(inode) && (slot.Direct? ==> slot.i < 12) && AllNear(im, inode, slot)
    ensures LayoutBlock(im, inode, slot) != 0
    ensures SlotAddress(im, inode, slot) == LayoutAddress(im, LayoutBlock(im, inode, slot))
  {
    hide BlockAddress, LayoutAddress, BlockSize, U32;
    match slot
    case Direct(i) =>
      AddressExactly(im, inode.block[i]);
    case Single(i) =>
      AddressExactly(im, inode.block[12]);
      AddressExactly(im, LayoutPointer(im, inode.block[12], i));
    case Double(i, j) =>
      AddressExactly(im, inode.block[13]);
      AddressExactly(im, LayoutPointer(im, inode.block[13], i));
      AddressExactly(im, LayoutPointer(im, LayoutPointer(im, inode.block[13], i), j));
  }

  /** A hole in the direct blocks: the file reads as zero there, and the code reads the start of the image. */
  lemma HoleIsMisread(im: Image, inode: Inode)
    requires ValidInode(inode) && inode.block[0] == 0
    ensures FileByte(im, inode, 0) == 0 && CodeByte(im, inode, 0) == im.memory(im.start)
  {
    assert BlockOf(0, BlockSize(im)) == 0 && Within(0, BlockSize(im)) == 0;
    assert BlockAddress(im, 0) == im.start by { ZeroProduct(BlockSize(im)); }
    hide BlockSize, BlockOf, Within, PointersPerBlock, BlockAddress;
  }

  /** A hole is also whatever lies behind a null pointer, and beyond the doubly indirect blocks. */
  lemma NothingBehindNull(im: Image, inode: Inode, x: nat)
    requires ValidInode(inode)
    requires var slot := LayoutSlot(PointersPerBlock(im), BlockOf(x, BlockSize(im)));
      || slot.Outside? || (slot.Single? && inode.block[12] == 0)
      || (slot.Double? && (inode.block[13] == 0 || LayoutPointer(im, inode.block[13], slot.i) == 0))
    ensures FileByte(im, inode, x) == 0
  {
    hide BlockSize, BlockOf, Within, PointersPerBlock, LayoutSlot, U32, LayoutAddress;
  }

  lemma ZeroProduct(x: nat)
    ensures x * 0 == 0
  {
  }

  /** For direct blocks the condition is exact: bytes agree whatever memory holds only for pointers that are near. */
  lemma DirectExactly(im: Image, inode: Inode, x: nat)
    requires ValidInode(inode) && BlockOf(x, BlockSize(im)) < 12
    ensures (forall m: Memory :: CodeByte(im.(memory := m), inode, x) == FileByte(im.(memory := m), inode, x)) <==>
      Near(im, inode.block[BlockOf(x, BlockSize(im))])
  {
    var block := inode.block[BlockOf(x, BlockSize(im))];
    var at, y := BlockAddress(im, block), Within(x, BlockSize(im));
    AddressExactly(im, block);
    forall m: Memory
      ensures CodeByte(im.(memory := m), inode, x) == m(at + y)
      ensures FileByte(im.(memory := m), inode, x) == if block == 0 then 0 else m(LayoutAddress(im, block) + y)
    {
      DirectBytes(im, inode, x, m);
    }
    var mark: Memory := a => if a == at + y then 1 else 0;
    assert mark(at + y) == 1;
    assert CodeByte(im.(memory := mark), inode, x) == 1;
    hide *;
  }

  lemma DirectBytes(im: Image, inode: Inode, x: nat, m: Memory)
    requires ValidInode(inode) && BlockOf(x, BlockSize(im)) < 12
    ensures var block := inode.block[BlockOf(x, BlockSize(im))];
      var y := Within(x, BlockSize(im));
      && CodeByte(im.(memory := m), inode, x) == m(BlockAddress(im, block) + y)
      && FileByte(im.(memory := m), inode, x) == if block == 0 then 0 else m(LayoutAddress(im, block) + y)
  {
    var jm := im.(memory := m);
    assert BlockSize(jm) == BlockSize(im);
    hide BlockSize, BlockOf, Within, PointersPerBlock;
  }

  lemma SlotInReach(n: nat, block: nat, small: bool)
    requires n >= 256 && (small ==> n == 256) && block < 12 + (if small then 256 + 256 * 256 else n)
    ensures LayoutSlot(n, block) != Outside && (block < 12 + n || n == 256)
  {
  }
}
