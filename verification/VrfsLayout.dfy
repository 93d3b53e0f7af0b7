/** How VRFS stores numbers, inodes, the superblock, directory entries and bitmaps in 512-byte blocks
    (src/include/vrfs.h and the byte copies of src/fs/vrfs.c). */
module VrfsLayout {
  import opened Common
  import opened Bits
  import opened Words

  type Block = b: seq<byte> | |b| == 512 witness seq(512, _ => 0)

  const MAGIC: uint32 := 0x5652_4653
  const MODE_FILE: uint16 := 1
  const MODE_DIR: uint16 := 2

  function Zeros(n: nat): (z: seq<byte>)
    ensures |z| == n && forall i | 0 <= i < n :: z[i] == 0
  {
    seq(n, _ => 0)
  }

  const ZERO_BLOCK: Block := Zeros(512)

  // ---------------------------------------------------------------- inodes

  /** struct vrfs_inode; `rest` holds direct[1..], the indirect pointer and the padding, which nobody reads. */
  datatype DiskInode = DiskInode(mode: uint16, links: uint16, size: uint32, blocks: uint32, direct0: uint32,
          rest: seq<byte>)

  type Inode = i: DiskInode | |i.rest| == 60 witness DiskInode(0, 0, 0, 0, 0, seq(60, _ => 0))

  const EMPTY_FILE: Inode := DiskInode(MODE_FILE, 1, 0, 0, 0, Zeros(60))
  const NEW_ROOT: Inode := DiskInode(MODE_DIR, 2, 0, 0, 0, Zeros(60))

  /** The structure has 76 bytes, not the 64 that mkfs reckons with. */
  function EncodeInode(i: Inode): (s: seq<byte>)
    ensures |s| == 76
  {
    Bytes16(i.mode) + Bytes16(i.links) + Bytes32(i.size) + Bytes32(i.blocks) + Bytes32(i.direct0) + i.rest
  }

  function DecodeInode(s: seq<byte>): Inode
    requires |s| == 76
  {
    DiskInode(U16(s, 0), U16(s, 2), U32(s, 4), U32(s, 8), U32(s, 12), s[16..])
  }

  lemma InodeRoundTrip(i: Inode)
    ensures DecodeInode(EncodeInode(i)) == i
  {
    var s := EncodeInode(i);
    hide Bytes16, Bytes32, U16, U32;
    assert s[0..2] == Bytes16(i.mode) && s[2..4] == Bytes16(i.links);
    assert s[4..8] == Bytes32(i.size) && s[8..12] == Bytes32(i.blocks) && s[12..16] == Bytes32(i.direct0);
    assert s[16..] == i.rest;
    Read16(i.mode, s, 0);
    Read16(i.links, s, 2);
    Read32(i.size, s, 4);
    Read32(i.blocks, s, 8);
    Read32(i.direct0, s, 12);
  }

  /** Where the fields of an inode stand. */
  lemma InodeBytes(i: Inode)
    ensures var s := EncodeInode(i);
            && s[0..2] == Bytes16(i.mode) && s[2..4] == Bytes16(i.links) && s[4..8] == Bytes32(i.size)
            && s[8..12] == Bytes32(i.blocks) && s[12..16] == Bytes32(i.direct0) && s[16..76] == i.rest
  {
    hide Bytes16, Bytes32;
  }

  // ---------------------------------------------------------------- parts of a block

  function Splice(b: Block, o: nat, s: seq<byte>): Block
    requires o + |s| <= 512
  {
    b[..o] + s + b[o + |s|..]
  }

  lemma SpliceRead(b: Block, o: nat, s: seq<byte>, lo: nat, hi: nat)
    requires o + |s| <= 512 && lo <= hi <= 512
    ensures lo == o && hi == o + |s| ==> Splice(b, o, s)[lo..hi] == s
    ensures hi <= o || o + |s| <= lo ==> Splice(b, o, s)[lo..hi] == b[lo..hi]
  {
  }

  /** The slot of an inode inside its table block. */
  function SlotInode(b: Block, k: nat): Inode
    requires k < 6
  {
    DecodeInode(b[76 * k..76 * k + 76])
  }

  function PutSlot(b: Block, k: nat, i: Inode): Block
    requires k < 6
  {
    Splice(b, 76 * k, EncodeInode(i))
  }

  lemma SlotRead(b: Block, k: nat, i: Inode, j: nat)
    requires k < 6 && j < 6
    ensures SlotInode(PutSlot(b, k, i), j) == if j == k then i else SlotInode(b, j)
  {
    SpliceRead(b, 76 * k, EncodeInode(i), 76 * j, 76 * j + 76);
    InodeRoundTrip(i);
  }

  // ---------------------------------------------------------------- directory entries

  /** The C string at the start of a byte sequence. */
  function CName(s: seq<byte>): (n: seq<byte>)
    ensures |n| <= |s| && n == s[..|n|] && 0 !in n && (|n| < |s| ==> s[|n|] == 0)
  {
    if s == [] || s[0] == 0 then [] else [s[0]] + CName(s[1..])
  }

  lemma {:induction false} CNameUnique(s: seq<byte>, n: seq<byte>)
    requires |n| <= |s| && n == s[..|n|] && 0 !in n && (|n| < |s| ==> s[|n|] == 0)
    ensures CName(s) == n
  {
    if n != [] {
      assert s[0] == n[0] && n[0] in n;
      CNameUnique(s[1..], n[1..]);
    }
  }

  function EntryInode(b: Block, i: nat): uint32
    requires i < 16
  {
    U32(b, 32 * i)
  }

  /** The 28 bytes of an entry's name. */
  function EntryName(b: Block, i: nat): (s: seq<byte>)
    requires i < 16
    ensures |s| == 28
  {
    b[32 * i + 4..32 * i + 32]
  }

  /** Writing one entry: its inode number and its name field. */
  function PutEntry(b: Block, i: nat, ino: uint32, name: seq<byte>): Block
    requires i < 16 && |name| == 28
  {
    Splice(b, 32 * i, Bytes32(ino) + name)
  }

  lemma EntryRead(b: Block, i: nat, ino: uint32, name: seq<byte>, j: nat)
    requires i < 16 && |name| == 28 && j < 16
    ensures EntryInode(PutEntry(b, i, ino, name), j) == if j == i then ino else EntryInode(b, j)
    ensures EntryName(PutEntry(b, i, ino, name), j) == if j == i then name else EntryName(b, j)
  {
    var s := Bytes32(ino) + name;
    var c := Splice(b, 32 * i, s);
    SpliceRead(b, 32 * i, s, 32 * j, 32 * j + 32);
    if i == j {
      assert c[32 * j..32 * j + 4] == c[32 * j..32 * j + 32][..4] == Bytes32(ino);
      Read32(ino, c, 32 * j);
      assert c[32 * j + 4..32 * j + 32] == c[32 * j..32 * j + 32][4..] == name;
    } else {
      assert forall x | 32 * j <= x < 32 * j + 32 :: c[x] == b[x];
      assert c[32 * j + 4..32 * j + 32] == b[32 * j + 4..32 * j + 32];
    }
  }

  /** Where a slot and an entry stand in their blocks. */
  lemma PlaceInBlock(b: Block, k: nat, i: Inode, e: nat, ino: uint32, name: seq<byte>)
    requires k < 6 && e < 16 && |name| == 28
    ensures PutSlot(b, k, i)[76 * k..76 * k + 76] == EncodeInode(i)
    ensures PutEntry(b, e, ino, name)[32 * e..32 * e + 32] == Bytes32(ino) + name
  {
    SpliceRead(b, 76 * k, EncodeInode(i), 76 * k, 76 * k + 76);
    SpliceRead(b, 32 * e, Bytes32(ino) + name, 32 * e, 32 * e + 32);
    hide Splice, Bytes32, EncodeInode;
  }

  // ---------------------------------------------------------------- bitmaps

  predicate BitAt(b: Block, k: nat)
    requires k < 4096
  {
    Bit(b[k / 8], k % 8)
  }

  function SetBitAt(b: Block, k: nat): Block
    requires k < 4096
  {
    Width8();
    UpdateWidth(b[k / 8], k % 8, 8);
    b[k / 8 := SetBit(b[k / 8], k % 8)]
  }

  lemma SetBitRead(b: Block, k: nat, j: nat)
    requires k < 4096 && j < 4096
    ensures BitAt(SetBitAt(b, k), j) <==> j == k || BitAt(b, j)
  {
    Width8();
    UpdateWidth(b[k / 8], k % 8, 8);
    if j / 8 == k / 8 {
      UpdateBit(b[k / 8], k % 8, j % 8);
    }
  }

  // ---------------------------------------------------------------- superblock

  datatype Superblock = Superblock(magic: uint32, blockCount: uint32, inodeCount: uint32, freeBlocks: uint32,
                                   freeInodes: uint32, inodeBitmapBlock: uint32, blockBitmapBlock: uint32,
                                   inodeTableBlock: uint32, dataBlockStart: uint32)

  function EncodeSuper(s: Superblock): Block {
    Bytes32(s.magic) + Bytes32(s.blockCount) + Bytes32(s.inodeCount) + Bytes32(s.freeBlocks) + Bytes32(s.freeInodes)
    + Bytes32(s.inodeBitmapBlock) + Bytes32(s.blockBitmapBlock) + Bytes32(s.inodeTableBlock)
    + Bytes32(s.dataBlockStart) + Zeros(476)
  }

  function DecodeSuper(b: Block): Superblock {
    Superblock(U32(b, 0), U32(b, 4), U32(b, 8), U32(b, 12), U32(b, 16), U32(b, 20), U32(b, 24), U32(b, 28), U32(b, 32))
  }

  /** Where the fields of the superblock stand. */
  lemma SuperBytes(s: Superblock)
    ensures var b := EncodeSuper(s);
            && b[0..4] == Bytes32(s.magic) && b[4..8] == Bytes32(s.blockCount) && b[8..12] == Bytes32(s.inodeCount)
            && b[12..16] == Bytes32(s.freeBlocks) && b[16..20] == Bytes32(s.freeInodes)
            && b[20..24] == Bytes32(s.inodeBitmapBlock) && b[24..28] == Bytes32(s.blockBitmapBlock)
            && b[28..32] == Bytes32(s.inodeTableBlock) && b[32..36] == Bytes32(s.dataBlockStart)
  {
    hide Bytes32;
  }

  lemma SuperRoundTrip(s: Superblock)
    ensures DecodeSuper(EncodeSuper(s)) == s
  {
    var b := EncodeSuper(s);
    hide Bytes32, U32;
    assert b[0..4] == Bytes32(s.magic) && b[4..8] == Bytes32(s.blockCount) && b[8..12] == Bytes32(s.inodeCount);
    assert b[12..16] == Bytes32(s.freeBlocks) && b[16..20] == Bytes32(s.freeInodes);
    assert b[20..24] == Bytes32(s.inodeBitmapBlock) && b[24..28] == Bytes32(s.blockBitmapBlock);
    assert b[28..32] == Bytes32(s.inodeTableBlock) && b[32..36] == Bytes32(s.dataBlockStart);
    Read32(s.magic, b, 0);
    Read32(s.blockCount, b, 4);
    Read32(s.inodeCount, b, 8);
    Read32(s.freeBlocks, b, 12);
    Read32(s.freeInodes, b, 16);
    Read32(s.inodeBitmapBlock, b, 20);
    Read32(s.blockBitmapBlock, b, 24);
    Read32(s.inodeTableBlock, b, 28);
    Read32(s.dataBlockStart, b, 32);
  }
}
