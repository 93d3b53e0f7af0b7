/** The operations of src/fs/vrfs.c on a block device with reliable I/O (src/drivers/blkdev.c). */
module Vrfs {
  import Bits
  import opened Common
  import opened VrfsLayout
  import opened VrfsDisk

  class BlockDevice {
    var blocks: Disk

    constructor (contents: Disk)
      ensures blocks == contents
    {
      blocks := contents;
    }

    /** blkdev_read: -1 beyond the end of the device. */
    method Read(block: uint32) returns (status: int, data: Block)
      ensures status == if block < |blocks| then 0 else -1
      ensures status == 0 ==> data == blocks[block]
    {
      if block >= |blocks| {
        return -1, ZERO_BLOCK;
      }
      return 0, blocks[block];
    }

    /** blkdev_write */
    method Write(block: uint32, data: Block) returns (status: int)
      modifies this
      ensures status == if block < |blocks| then 0 else -1
      ensures blocks == if block < |old(blocks)| then old(blocks)[block := data] else old(blocks)
    {
      if block >= |blocks| {
        return -1;
      }
      blocks := blocks[block := data];
      return 0;
    }
  }

  /** An inode in memory: its number, its cached disk inode and its size for the VFS. */
  class FileHandle {
    const inodeNo: uint32
    var disk: Inode
    var size: uint32

    constructor (no: uint32, i: Inode)
      ensures inodeNo == no && disk == i && size == i.size
    {
      inodeNo, disk, size := no, i, i.size;
    }
  }

  // ---------------------------------------------------------------- bitmaps

  ghost function ClearBits(b: Block, n: nat): set<nat>
    requires n <= 4096
  {
    set k: nat | k < n && !BitAt(b, k)
  }

  lemma ClearOne(b: Block, n: nat, k: nat)
    requires k < n <= 4096 && !BitAt(b, k)
    ensures ClearBits(SetBitAt(b, k), n) == ClearBits(b, n) - {k}
    ensures |ClearBits(SetBitAt(b, k), n)| == |ClearBits(b, n)| - 1
  {
    forall j: nat | j < n ensures BitAt(SetBitAt(b, k), j) <==> j == k || BitAt(b, j) {
      SetBitRead(b, k, j);
    }
    assert ClearBits(SetBitAt(b, k), n) == ClearBits(b, n) - {k};
  }

  /** bitmap_find_free: the lowest clear bit, or -1. */
  method BitmapFindFree(bitmap: Block, maxBits: uint32) returns (bit: int)
    requires maxBits <= 4096
    ensures bit == -1 || (0 <= bit < maxBits && !BitAt(bitmap, bit))
    ensures forall k: nat | k < maxBits && (bit == -1 || k < bit) :: BitAt(bitmap, k)
  {
    for i := 0 to maxBits
      invariant forall k: nat | k < i :: BitAt(bitmap, k)
    {
      if !BitAt(bitmap, i) {
        return i;
      }
    }
    return -1;
  }

  // ---------------------------------------------------------------- names

  /** name[j] of a C string without its terminator. */
  function CharAt(name: Name, j: nat): byte
    requires j <= |name|
  {
    if j < |name| then name[j] else 0
  }

  method NameMatches(stored: seq<byte>, name: Name) returns (match_: bool)
    requires |stored| == 28 && 0 !in name
    ensures match_ <==> Matches(stored, name)
  {
    for j := 0 to 28
      invariant j <= |name| && stored[..j] == name[..j]
    {
      assert stored[..j + 1] == stored[..j] + [stored[j]];
      if stored[j] != CharAt(name, j) {
        NoMatchAt(stored, name, j);
        return false;
      }
      if stored[j] == 0 {
        CNameUnique(stored, name[..j]);
        return true;
      }
    }
    CNameUnique(stored, name[..28]);
    return true;
  }

  lemma NoMatchAt(stored: seq<byte>, name: Name, j: nat)
    requires |stored| == 28 && 0 !in name && j < 28 && j <= |name| && stored[..j] == name[..j]
    requires stored[j] != CharAt(name, j)
    ensures !Matches(stored, name)
  {
    var c := CName(stored);
    assert forall k | 0 <= k < j :: stored[k] == stored[..j][k] == name[k] && name[k] in name;
    assert |c| >= j;
    assert |c| > j ==> c[j] == stored[j];
  }

  /** The search loop of vrfs_lookup and vrfs_unlink: the first used entry whose name matches, or -1. */
  method FindEntry(block: Block, name: Name) returns (found: int)
    requires 0 !in name
    ensures -1 <= found < 16
    ensures found >= 0 ==> EntryInode(block, found) != 0 && Matches(EntryName(block, found), name)
    ensures found == -1 ==> forall i: nat | i < 16 && EntryInode(block, i) != 0 :: !Matches(EntryName(block, i), name)
  {
    for i := 0 to 16
      invariant forall k: nat | k < i && EntryInode(block, k) != 0 :: !Matches(EntryName(block, k), name)
    {
      if EntryInode(block, i) != 0 {
        var m := NameMatches(EntryName(block, i), name);
        if m {
          return i;
        }
      }
    }
    return -1;
  }

  /** The name field of an entry: 27 bytes of the name at most, a zero, and what was there. */
  lemma StoredIs(was: seq<byte>, name: Name)
    requires |was| == 28
    ensures var n := if |name| <= 27 then |name| else 27;
            var s := StoredName(was, name);
            s[..n] == name[..n] && s[n] == 0 && s[n + 1..] == was[n + 1..]
  {
  }

  /** On a well-formed disk an entry matches exactly the name it has in the view. */
  lemma MatchIsName(disk: Disk, n: nat, i: nat, name: Name)
    requires DiskOk(disk, n) && Live(disk, i)
    ensures Matches(EntryName(disk[RootBlock(disk)], i), name) <==> NameAt(disk, i) == name
  {
    LiveOk(disk, n, i);
  }

  // ---------------------------------------------------------------- mkfs

  lemma FreshBitmap(b: Block, n: nat, upTo: nat)
    requires upTo < 4096 && n == upTo + 1 && forall k: nat | k < 4096 :: BitAt(b, k) <==> k < upTo
    ensures forall k: nat | k < 4096 :: BitAt(SetBitAt(b, upTo), k) <==> k < n
  {
    forall k: nat | k < 4096 ensures BitAt(SetBitAt(b, upTo), k) <==> k < n {
      SetBitRead(b, upTo, k);
    }
  }

  lemma ZeroBits()
    ensures forall k: nat | k < 4096 :: !BitAt(ZERO_BLOCK, k)
  {
    forall k: nat | k < 4096 ensures !BitAt(ZERO_BLOCK, k) {
      ZeroWord(k % 8);
    }
  }

  lemma {:induction false} ZeroWord(j: nat)
    ensures !Bits.Bit(0, j)
  {
    if j > 0 { ZeroWord(j - 1); }
  }

  lemma NoRootNoFiles(disk: Disk)
    requires RootBlock(disk) == 0
    ensures View(disk) == map[] && forall i: nat :: !Live(disk, i)
  {
    assert Names(disk) == {};
  }

  lemma NoneTaken(disk: Disk)
    requires |disk| > 3 && forall k: nat | k < 4096 :: BitAt(disk[2], k) <==> k < DATA_START
    ensures Taken(disk) == 0
  {
    hide BitAt;
    assert TakenBlocks(disk) == {};
  }

  lemma SuperOfSize(size: nat)
    requires 3 < size
    ensures var count := if size < 1024 then size else 1024;
            InitialSuper(size) == Superblock(MAGIC, count, 128, (count - 19) % 0x1_0000_0000, 127, 1, 2, 3, 19)
  {
  }

  lemma RootInode(disk: Disk)
    requires |disk| > 3 && disk[3] == PutSlot(ZERO_BLOCK, 0, NEW_ROOT)
    ensures InodeAt(disk, 0) == NEW_ROOT
  {
    SlotRead(ZERO_BLOCK, 0, NEW_ROOT, 0);
  }

  /** A disk as mkfs leaves it is well formed and empty. */
  lemma FreshDisk(disk: Disk)
    requires 3 < |disk| < WORD && disk[0] == EncodeSuper(InitialSuper(|disk|))
    requires forall k: nat | k < 4096 :: BitAt(disk[1], k) <==> k < 1
    requires forall k: nat | k < 4096 :: BitAt(disk[2], k) <==> k < 19
    requires disk[3] == PutSlot(ZERO_BLOCK, 0, NEW_ROOT)
    ensures DiskOk(disk, 1) && View(disk) == map[] && RootBlock(disk) == 0 && Taken(disk) == 0
    ensures DecodeSuper(disk[0]) == InitialSuper(|disk|)
  {
    SuperRoundTrip(InitialSuper(|disk|));
    SlotRead(ZERO_BLOCK, 0, NEW_ROOT, 0);
    assert RootBlock(disk) == 0;
    hide InodeAt, RootBlock, DecodeSuper, EncodeSuper, BitAt, PutSlot;
    NoneTaken(disk);
    NoRootNoFiles(disk);
    hide Live, View, Taken;
  }

  /** vrfs_mkfs: succeeds on every device of at least four blocks and makes an empty file system. */
  method Mkfs(dev: BlockDevice) returns (status: int)
    requires |dev.blocks| < WORD
    modifies dev
    ensures |dev.blocks| == |old(dev.blocks)|
    ensures status == if |dev.blocks| > 3 then 0 else -1
    ensures status == 0 ==>
              && DiskOk(dev.blocks, 1) && View(dev.blocks) == map[] && RootBlock(dev.blocks) == 0 && Taken(dev.blocks) == 0
    ensures status == 0 ==>
              var count := if |dev.blocks| < 1024 then |dev.blocks| else 1024;
              DecodeSuper(dev.blocks[0])
              == Superblock(MAGIC, count, 128, (count - 19) % 0x1_0000_0000, 127, 1, 2, 3, 19)
    ensures status == 0 ==> InodeAt(dev.blocks, 0) == DiskInode(2, 2, 0, 0, 0, Zeros(60))
  {
    hide DiskOk, View, EncodeSuper, DecodeSuper, InitialSuper, InodeAt, BitAt, SetBitAt, PutSlot, RootBlock, Taken;
    var buffer := EncodeSuper(InitialSuper(|dev.blocks|));
    status := dev.Write(0, buffer);
    if status < 0 { return; }

    ZeroBits();
    FreshBitmap(ZERO_BLOCK, 1, 0);
    buffer := SetBitAt(ZERO_BLOCK, 0);
    status := dev.Write(1, buffer);
    if status < 0 { return; }

    buffer := ZERO_BLOCK;
    ghost var written := dev.blocks;
    for i := 0 to 19
      invariant dev.blocks == written
      invariant forall k: nat | k < 4096 :: BitAt(buffer, k) <==> k < i
    {
      FreshBitmap(buffer, i + 1, i);
      buffer := SetBitAt(buffer, i);
    }
    status := dev.Write(2, buffer);
    if status < 0 { return; }

    status := dev.Write(3, PutSlot(ZERO_BLOCK, 0, NEW_ROOT));
    if status < 0 { return; }
    FreshDisk(dev.blocks);
    SuperOfSize(|dev.blocks|);
    RootInode(dev.blocks);
  }

  // ---------------------------------------------------------------- the mounted file system

  class Vrfs {
    const dev: BlockDevice
    var sb: Superblock
    var inodeBitmap: Block
    var blockBitmap: Block
    /** The root directory's inode as cached in memory. */
    var root: Inode
    ghost var inodesUsed: nat

    constructor (device: BlockDevice, superblock: Superblock, inodes: Block, blocks: Block, rootInode: Inode, ghost n: nat)
      ensures dev == device && sb == superblock && inodeBitmap == inodes && blockBitmap == blocks && root == rootInode
      ensures inodesUsed == n
    {
      dev, sb, inodeBitmap, blockBitmap, root, inodesUsed := device, superblock, inodes, blocks, rootInode, n;
    }

    /** What holds of every mounted file system, however full: the geometry that mkfs chose. */
    ghost predicate Mounted()
      reads this, dev
    {
      && 3 < |dev.blocks| < WORD && sb.blockCount == BlockCount(|dev.blocks|) && sb.inodeCount == 128
      && sb.inodeBitmapBlock == 1 && sb.blockBitmapBlock == 2 && sb.inodeTableBlock == 3
    }

    /** The disk is well formed and the cached copies agree with it. Each free counter is at least the
        number of clear bits, so that it never stops an allocation that the bitmap would allow. */
    ghost predicate Valid()
      reads this, dev
    {
      && Mounted() && DiskOk(dev.blocks, inodesUsed)
      && inodeBitmap == dev.blocks[1] && blockBitmap == dev.blocks[2] && root == InodeAt(dev.blocks, 0)
      && sb.freeBlocks >= |ClearBits(blockBitmap, sb.blockCount)|
      && sb.freeInodes >= |ClearBits(inodeBitmap, 128)|
    }

    /** The handle is what a lookup of `name` would return now. */
    ghost predicate Fresh(h: FileHandle, name: Name)
      reads this, dev, h
    {
      exists i: nat :: Live(dev.blocks, i) && NameAt(dev.blocks, i) == name && Ino(dev.blocks, i) == h.inodeNo
                       && FileAt(dev.blocks, i) == h.disk && h.size == h.disk.size
    }

    // -------------------------------------------------------------- allocation

    /** vrfs_alloc_inode */
    method AllocInode() returns (no: int)
      requires Mounted()
      modifies `sb, `inodeBitmap, dev
      ensures Mounted() && no >= -1
      ensures no == -1 ==> sb == old(sb) && inodeBitmap == old(inodeBitmap) && dev.blocks == old(dev.blocks)
      ensures no == -1 <==> old(sb.freeInodes) == 0 || forall k: nat | k < 128 :: BitAt(old(inodeBitmap), k)
      ensures no >= 0 ==>
                && no < 128 && !BitAt(old(inodeBitmap), no) && (forall k: nat | k < no :: BitAt(old(inodeBitmap), k))
                && inodeBitmap == SetBitAt(old(inodeBitmap), no) && sb == old(sb).(freeInodes := old(sb.freeInodes) - 1)
                && dev.blocks == old(dev.blocks)[1 := inodeBitmap]
    {
      hide BitAt, SetBitAt;
      if sb.freeInodes == 0 {
        return -1;
      }
      no := BitmapFindFree(inodeBitmap, sb.inodeCount);
      if no < 0 {
        return;
      }
      inodeBitmap := SetBitAt(inodeBitmap, no);
      sb := sb.(freeInodes := sb.freeInodes - 1);
      var status := dev.Write(sb.inodeBitmapBlock, inodeBitmap);
    }

    /** vrfs_alloc_block */
    method AllocBlock() returns (no: int)
      requires Mounted()
      modifies `sb, `blockBitmap, dev
      ensures Mounted() && no >= -1
      ensures no == -1 ==> sb == old(sb) && blockBitmap == old(blockBitmap) && dev.blocks == old(dev.blocks)
      ensures no == -1 <==> old(sb.freeBlocks) == 0 || forall k: nat | k < sb.blockCount :: BitAt(old(blockBitmap), k)
      ensures no >= 0 ==>
                && no < sb.blockCount && !BitAt(old(blockBitmap), no)
                && blockBitmap == SetBitAt(old(blockBitmap), no) && sb == old(sb).(freeBlocks := old(sb.freeBlocks) - 1)
                && dev.blocks == old(dev.blocks)[2 := blockBitmap]
    {
      hide BitAt, SetBitAt;
      if sb.freeBlocks == 0 {
        return -1;
      }
      no := BitmapFindFree(blockBitmap, sb.blockCount);
      if no < 0 {
        return;
      }
      blockBitmap := SetBitAt(blockBitmap, no);
      sb := sb.(freeBlocks := sb.freeBlocks - 1);
      var status := dev.Write(sb.blockBitmapBlock, blockBitmap);
    }

    /** vrfs_write_inode: reads the table block, replaces the slot, writes it back. */
    method WriteInode(no: uint32, i: Inode) returns (status: int)
      requires Mounted()
      modifies dev
      ensures Mounted() && dev.blocks == PutInode(old(dev.blocks), no, i)
      ensures status == if InodeBlock(no) < |dev.blocks| then 0 else -1
    {
      var blockNo := sb.inodeTableBlock + no / 6;
      var buffer;
      status, buffer := dev.Read(blockNo);
      if status < 0 {
        return;
      }
      status := dev.Write(blockNo, PutSlot(buffer, no % 6, i));
    }

    /** vrfs_read_inode */
    method ReadInode(no: uint32) returns (status: int, i: Inode)
      requires Mounted()
      ensures status == if InodeBlock(no) < |dev.blocks| then 0 else -1
      ensures i == InodeAt(dev.blocks, no)
    {
      i := InodeAt([], 0);
      var buffer;
      status, buffer := dev.Read(sb.inodeTableBlock + no / 6);
      if status == 0 {
        i := SlotInode(buffer, no % 6);
      }
    }

    // -------------------------------------------------------------- directory

    /** No live entry refers to inode `no`, and it is an empty file (if the device has its slot at all). */
    ghost predicate Spare(no: nat)
      reads this, dev
    {
      && 1 <= no < inodesUsed && (|dev.blocks| > DATA_START ==> InodeAt(dev.blocks, no) == EMPTY_FILE)
      && forall j: nat | Live(dev.blocks, j) :: Ino(dev.blocks, j) != no
    }

    /** The first half of vrfs_add_dir_entry: the root directory gets a block if it has none. */
    method EnsureRootBlock() returns (ok: bool)
      requires Mounted()
      modifies `sb, `blockBitmap, `root, dev
      ensures Mounted() && |dev.blocks| == |old(dev.blocks)|
      ensures old(Valid()) ==>
                && Valid() && View(dev.blocks) == View(old(dev.blocks)) && (ok <==> root.direct0 != 0)
                && (forall no: nat | old(Spare(no)) :: Spare(no))
                && (!ok <==> old(root.direct0) == 0 && forall k: nat | k < old(sb.blockCount) :: BitAt(old(blockBitmap), k))
                && (old(root.direct0) != 0 || !ok ==> dev.blocks == old(dev.blocks))
                && (ok && old(root.direct0) == 0 ==>
                      Taken(dev.blocks) == Taken(old(dev.blocks)) + 1 && forall i: nat :: !Live(dev.blocks, i))
    {
      hide DiskOk, View, BitAt, SetBitAt, InodeAt, PutInode, ClearBits;
      if root.direct0 != 0 {
        return true;
      }
      ghost var valid, disk := Valid(), dev.blocks;
      var b := AllocBlock();
      if b < 0 {
        if valid { FullBitmap(blockBitmap, sb.blockCount, sb.freeBlocks); }
        return false;
      }
      if valid {
        RootBlockStep(disk, inodesUsed, b);
        ClearOne(disk[2], sb.blockCount, b);
        TakenMore(disk, RootBlockGiven(disk, b), b);
      }
      root := root.(direct0 := b, blocks := 1);
      var status := WriteInode(0, root);
      status := dev.Write(b, ZERO_BLOCK);
      ok := true;
    }

    /** The name copy of vrfs_add_dir_entry. */
    static method CopyName(was: seq<byte>, name: Name) returns (stored: seq<byte>)
      requires |was| == 28
      ensures stored == StoredName(was, name)
    {
      stored := was;
      var j := 0;
      while j < 27 && j < |name|
        invariant 0 <= j <= 27 && j <= |name| && stored == name[..j] + was[j..]
      {
        CopyStep(was, name, j);
        stored := stored[j := name[j]];
        j := j + 1;
      }
      CopyEnd(was, name, j);
      stored := stored[j := 0];
    }

    static lemma CopyStep(was: seq<byte>, name: Name, j: nat)
      requires j < |was| && j < |name|
      ensures (name[..j] + was[j..])[j := name[j]] == name[..j + 1] + was[j + 1..]
    {
    }

    static lemma CopyEnd(was: seq<byte>, name: Name, j: nat)
      requires |was| == 28 && j == if |name| <= 27 then |name| else 27
      ensures (name[..j] + was[j..])[j := 0] == StoredName(was, name)
    {
    }

    /** No entry can be added: all 16 slots are used, or there is no directory block and none to be had. */
    ghost predicate DirectoryFull()
      requires Mounted()
      reads this, dev
    {
      if root.direct0 == 0 then forall k: nat | k < sb.blockCount :: BitAt(blockBitmap, k)
      else forall i: nat | i < 16 :: Live(dev.blocks, i)
    }

    /** Some slot holds an empty file of this name with this inode number. */
    ghost predicate NewFile(name: Name, no: nat)
      reads this, dev
    {
      exists i: nat :: Live(dev.blocks, i) && NameAt(dev.blocks, i) == name && Ino(dev.blocks, i) == no
                       && FileAt(dev.blocks, i) == EMPTY_FILE
    }

    /** The second half of vrfs_add_dir_entry: the first unused slot takes the entry; -1 if all 16 are used. */
    method InsertEntry(name: Name, no: uint32) returns (status: int)
      requires Mounted()
      modifies `root, dev
      ensures Mounted() && |dev.blocks| == |old(dev.blocks)| && (status == 0 || status == -1)
      ensures old(Valid() && Spare(no)) && old(root.direct0) != 0 && 0 !in name && Cut(name) !in View(old(dev.blocks)) ==>
                && Valid()
                && (status == -1 <==> old(DirectoryFull()))
                && View(dev.blocks) == (if status == 0 then View(old(dev.blocks))[Cut(name) := []] else View(old(dev.blocks)))
                && (status == 0 ==> NewFile(Cut(name), no))
                && dev.blocks[2] == old(dev.blocks)[2] && RootBlock(dev.blocks) == RootBlock(old(dev.blocks))
    {
      hide DiskOk, View, BitAt, SetBitAt, InodeAt, PutInode, ClearBits, PutEntry, EntryInode, EntryName, StoredName;
      ghost var disk, n := dev.blocks, inodesUsed;
      ghost var good := Valid() && Spare(no) && root.direct0 != 0 && 0 !in name && Cut(name) !in View(disk);
      if good { RootReadable(disk, n); }
      var block;
      status, block := dev.Read(root.direct0);
      if status < 0 {
        return -1;
      }
      for i := 0 to 16
        invariant dev.blocks == disk && root == old(root)
        invariant forall k: nat | k < i :: EntryInode(block, k) != 0
      {
        if EntryInode(block, i) == 0 {
          var stored := CopyName(EntryName(block, i), name);
          if good { InsertStep(disk, n, i, no, name, (i + 1) * 32); }
          status := dev.Write(root.direct0, PutEntry(block, i, no, stored));
          root := root.(size := (i + 1) * 32);
          var s := WriteInode(0, root);
          return 0;
        }
      }
      return -1;
    }

    /** vrfs_add_dir_entry */
    method AddDirEntry(name: Name, no: uint32) returns (status: int)
      requires Mounted()
      modifies `sb, `blockBitmap, `root, dev
      ensures Mounted() && |dev.blocks| == |old(dev.blocks)| && (status == 0 || status == -1)
      ensures old(Valid() && Spare(no)) && 0 !in name && Cut(name) !in View(old(dev.blocks)) ==>
                && Valid()
                && (status == -1 <==> old(DirectoryFull()))
                && View(dev.blocks) == (if status == 0 then View(old(dev.blocks))[Cut(name) := []] else View(old(dev.blocks)))
                && (status == 0 ==> NewFile(Cut(name), no))
                && (RootBlock(dev.blocks) == 0 <==> RootBlock(old(dev.blocks)) == 0 && status == -1)
                && Taken(dev.blocks) == Taken(old(dev.blocks)) +
                   (if RootBlock(old(dev.blocks)) == 0 && status == 0 then 1 else 0)
    {
      hide DiskOk, View, BitAt, InodeAt, ClearBits, EntryInode, EntryName, NameAt, Ino, FileAt, Live;
      var ok := EnsureRootBlock();
      if !ok {
        return -1;
      }
      assert old(Valid()) && old(root.direct0) == 0 ==> !Live(dev.blocks, 0);
      status := InsertEntry(name, no);
    }

    // -------------------------------------------------------------- the VFS operations

    /** vrfs_lookup: finds exactly the names of the view. */
    method Lookup(name: Name) returns (h: FileHandle?)
      requires Mounted() && 0 !in name
      ensures Valid() ==> (h != null <==> name in View(dev.blocks))
      ensures h != null ==> fresh(h)
      ensures Valid() && h != null ==> Fresh(h, name)
    {
      hide DiskOk, View, BitAt, InodeAt, ClearBits, EntryInode, EntryName, Matches;
      ghost var disk, n := dev.blocks, inodesUsed;
      if Valid() { LookupFacts(disk, n, name); }
      if root.direct0 == 0 {
        return null;
      }
      var status, block := dev.Read(root.direct0);
      if status < 0 {
        return null;
      }
      var found := FindEntry(block, name);
      if found < 0 {
        return null;
      }
      var no, inode := EntryInode(block, found), InodeAt([], 0);
      status, inode := ReadInode(no);
      if status < 0 {
        return null;
      }
      h := new FileHandle(no, inode);
      if Valid() {
        assert Live(disk, found) && NameAt(disk, found) == name && Ino(disk, found) == no && FileAt(disk, found) == inode;
      }
    }

    /** vrfs_create: an existing file is returned as it is. A new one gets its name cut to 27 bytes; for the
        file system to stay well formed the cut name has to be new and the inode one of the first 96. It is
        refused exactly when the directory cannot take another entry, and then no file has changed. */
    method Create(name: Name) returns (h: FileHandle?)
      requires Valid() && 0 !in name
      modifies this, dev
      ensures |dev.blocks| == |old(dev.blocks)| && (h != null ==> fresh(h))
      ensures name in View(old(dev.blocks)) ==>
                h != null && dev.blocks == old(dev.blocks) && Valid() && inodesUsed == old(inodesUsed) && Fresh(h, name)
      ensures name !in View(old(dev.blocks)) && Cut(name) !in View(old(dev.blocks)) && old(inodesUsed) < SAFE_INODES ==>
                && Valid() && inodesUsed == old(inodesUsed) + 1
                && (h == null <==> old(DirectoryFull()))
                && View(dev.blocks) == (if h != null then View(old(dev.blocks))[Cut(name) := []] else View(old(dev.blocks)))
                && (h != null ==> Fresh(h, Cut(name)))
                && (RootBlock(dev.blocks) == 0 <==> RootBlock(old(dev.blocks)) == 0 && h == null)
                && Taken(dev.blocks) == Taken(old(dev.blocks)) +
                   (if RootBlock(old(dev.blocks)) == 0 && h != null then 1 else 0)
    {
      hide DiskOk, View, BitAt, SetBitAt, InodeAt, PutInode, ClearBits, Live, Ino, NameAt, FileAt;
      h := Lookup(name);
      if h != null {
        return;
      }
      ghost var disk, n := dev.blocks, inodesUsed;
      ghost var good := Cut(name) !in View(disk) && n < SAFE_INODES;
      if good { CreateStep(disk, n); ClearOne(disk[1], 128, n); }
      var no := AllocInode();
      if no < 0 {
        return null;
      }
      if good {
        assert no == n;
        inodesUsed := n + 1;
      }
      var status := WriteInode(no, EMPTY_FILE);
      assert good ==> Valid() && Spare(no);
      status := AddDirEntry(name, no);
      if status < 0 {
        return null;
      }
      h := new FileHandle(no, EMPTY_FILE);
    }

    /** vrfs_unlink: removes the name if it is there; nothing is freed. */
    method Unlink(name: Name) returns (status: int)
      requires Valid() && 0 !in name
      modifies dev
      ensures Valid() && |dev.blocks| == |old(dev.blocks)|
      ensures status == if name in View(old(dev.blocks)) then 0 else -1
      ensures View(dev.blocks) == View(old(dev.blocks)) - {name}
      ensures Taken(dev.blocks) == Taken(old(dev.blocks)) && RootBlock(dev.blocks) == RootBlock(old(dev.blocks))
    {
      hide DiskOk, View, BitAt, InodeAt, ClearBits, EntryInode, EntryName, Matches, PutEntry;
      ghost var disk, n := dev.blocks, inodesUsed;
      LookupFacts(disk, n, name);
      if root.direct0 == 0 {
        return -1;
      }
      var block;
      status, block := dev.Read(root.direct0);
      if status < 0 {
        return -1;
      }
      var found := FindEntry(block, name);
      if found < 0 {
        return -1;
      }
      UnlinkStep(disk, n, found);
      status := dev.Write(root.direct0, PutEntry(block, found, 0, Zeros(28)));
    }

    /** vrfs_write through a fresh handle: the whole content is replaced by at most one block of data. It is
        refused without any effect for a bad size or offset, or when a first block is needed and none is free. */
    method Write(h: FileHandle, data: seq<byte>, offset: uint32, ghost name: Name) returns (r: int)
      requires Valid() && Fresh(h, name)
      modifies `sb, `blockBitmap, dev, h
      ensures Valid() && Fresh(h, name) && |dev.blocks| == |old(dev.blocks)|
      ensures r == -1 <==>
                || |data| == 0 || offset != 0 || |data| > 512
                || (old(h.disk.direct0) == 0 && forall k: nat | k < sb.blockCount :: BitAt(old(blockBitmap), k))
      ensures r == -1 ==> dev.blocks == old(dev.blocks)
      ensures r != -1 ==> r == |data| && View(dev.blocks) == View(old(dev.blocks))[name := data]
      ensures RootBlock(dev.blocks) == RootBlock(old(dev.blocks))
      ensures name in View(old(dev.blocks)) && (View(old(dev.blocks))[name] == [] <==> old(h.disk.direct0) == 0)
      ensures Taken(dev.blocks) == Taken(old(dev.blocks)) + if r != -1 && old(h.disk.direct0) == 0 then 1 else 0
    {
      hide DiskOk, View, BitAt, SetBitAt, InodeAt, PutInode, ClearBits, EntryInode, EntryName, CName;
      ghost var disk, n := dev.blocks, inodesUsed;
      ghost var i: nat :| Live(disk, i) && NameAt(disk, i) == name && Ino(disk, i) == h.inodeNo
                          && FileAt(disk, i) == h.disk && h.size == h.disk.size;
      LiveOk(disk, n, i);
      EmptyFile(disk, n, i);
      if |data| == 0 || offset != 0 || |data| > 512 {
        return -1;
      }
      if h.disk.direct0 == 0 {
        var b := AllocBlock();
        if b < 0 {
          FullBitmap(blockBitmap, sb.blockCount, sb.freeBlocks);
          return -1;
        }
        FirstBlock(disk, n, i, b);
        ClearOne(disk[2], sb.blockCount, b);
        TakenMore(disk, dev.blocks, b);
        h.disk := h.disk.(direct0 := b, blocks := 1);
      }
      WriteStep(dev.blocks, n, i, h.disk.direct0, data, h.disk.(size := |data|));
      var block: Block := data + Zeros(512 - |data|);
      var status := dev.Write(h.disk.direct0, block);
      h.disk := h.disk.(size := |data|);
      h.size := |data|;
      status := WriteInode(h.inodeNo, h.disk);
      r := |data|;
    }

    /** vrfs_read through a fresh handle: a read from offset 0 returns the file's bytes, as many as asked for. */
    method Read(h: FileHandle, size: uint32, offset: uint32, ghost name: Name) returns (r: int, data: seq<byte>)
      requires Valid() && Fresh(h, name)
      ensures name in View(dev.blocks)
      ensures var c := View(dev.blocks)[name];
              if offset >= |c| then r == 0 && data == []
              else if offset != 0 then r == -1 && data == []
              else r == |data| == (if size < |c| then size else |c|) && data == c[..r]
    {
      hide DiskOk, View, BitAt, InodeAt, ClearBits, EntryInode, EntryName, CName;
      ghost var disk, n := dev.blocks, inodesUsed;
      ghost var i: nat :| Live(disk, i) && NameAt(disk, i) == name && Ino(disk, i) == h.inodeNo
                          && FileAt(disk, i) == h.disk && h.size == h.disk.size;
      ViewAt(disk, n, i);
      LiveOk(disk, n, i);
      if offset >= h.size {
        return 0, [];
      }
      if offset != 0 {
        return -1, [];
      }
      var want := if size > h.size then h.size else size;
      if h.disk.direct0 == 0 {
        return 0, [];
      }
      var status, block := dev.Read(h.disk.direct0);
      if status < 0 {
        return -1, [];
      }
      var toRead := if want < h.size then want else h.size;
      return toRead, block[..toRead];
    }

    /** vrfs_mount: whatever in-memory state there was before, a well-formed disk mounts to the same files. */
    static method Mount(dev: BlockDevice, ghost n: nat) returns (fs: Vrfs?)
      ensures DiskOk(dev.blocks, n) ==> fs != null && fresh(fs) && fs.dev == dev && fs.inodesUsed == n && fs.Valid()
      ensures fs != null <==> dev.blocks != [] && DecodeSuper(dev.blocks[0]).magic == MAGIC &&
                              DecodeSuper(dev.blocks[0]).inodeTableBlock < |dev.blocks|
      ensures fs != null ==> fs.dev == dev && fs.sb == DecodeSuper(dev.blocks[0]) &&
                             fs.root == SlotInode(dev.blocks[fs.sb.inodeTableBlock], 0)
    {
      hide DiskOk, View, DecodeSuper, ClearBits, BitAt, SlotInode;
      if DiskOk(dev.blocks, n) { MountFacts(dev.blocks, n); }
      var status, buffer := dev.Read(0);
      if status < 0 {
        return null;
      }
      var sb := DecodeSuper(buffer);
      if sb.magic != MAGIC {
        return null;
      }
      var inodes, blocks;
      status, inodes := dev.Read(sb.inodeBitmapBlock);
      status, blocks := dev.Read(sb.blockBitmapBlock);
      status, buffer := dev.Read(sb.inodeTableBlock);
      if status < 0 {
        return null;
      }
      fs := new Vrfs(dev, sb, inodes, blocks, SlotInode(buffer, 0), n);
    }
  }

  /** The superblock on disk is never rewritten; its counters are the initial ones and still high enough. */
  lemma MountFacts(disk: Disk, n: nat)
    requires DiskOk(disk, n)
    ensures 3 < |disk| < WORD && DecodeSuper(disk[0]) == InitialSuper(|disk|)
    ensures InodeAt(disk, 0) == SlotInode(disk[3], 0)
    ensures Wrap32(BlockCount(|disk|) - 19) >= |ClearBits(disk[2], BlockCount(|disk|))|
    ensures 127 >= |ClearBits(disk[1], 128)|
  {
    hide DecodeSuper, SlotInode;
    assert ClearBits(disk[1], 128) <= Interval(1, 128);
    IntervalSize(1, 128);
    SubsetSize(ClearBits(disk[1], 128), Interval(1, 128));
    var count := BlockCount(|disk|);
    if count < 19 {
      assert ClearBits(disk[2], count) == {};
    } else {
      assert ClearBits(disk[2], count) <= Interval(19, count);
      IntervalSize(19, count);
      SubsetSize(ClearBits(disk[2], count), Interval(19, count));
    }
  }

  /** A bitmap with a free counter that is high enough refuses an allocation only when it is full. */
  lemma FullBitmap(b: Block, n: nat, counter: nat)
    requires n <= 4096 && counter >= |ClearBits(b, n)|
    requires counter == 0 || forall k: nat | k < n :: BitAt(b, k)
    ensures forall k: nat | k < n :: BitAt(b, k)
  {
    forall k: nat | k < n ensures BitAt(b, k) {
      assert counter == 0 ==> k !in ClearBits(b, n);
    }
  }

  /** The disk after the root directory was given block b. */
  function RootBlockGiven(disk: Disk, b: uint32): (r: Disk)
    requires |disk| > 3 && b < |disk| && b < 4096
    ensures |r| == |disk|
  {
    PutInode(disk[2 := SetBitAt(disk[2], b)], 0, InodeAt(disk, 0).(direct0 := b, blocks := 1))[b := ZERO_BLOCK]
  }

  /** Giving the root directory its first block changes no file. */
  lemma RootBlockStep(disk: Disk, n: nat, b: uint32)
    requires DiskOk(disk, n) && RootBlock(disk) == 0 && b < BlockCount(|disk|) && !BitAt(disk[2], b)
    ensures b >= DATA_START && n <= SAFE_INODES
    ensures var r := InodeAt(disk, 0).(direct0 := b, blocks := 1);
            var disk' := RootBlockGiven(disk, b);
            && DiskOk(disk', n) && View(disk') == View(disk) && InodeAt(disk', 0) == r
            && disk'[1] == disk[1] && disk'[2] == SetBitAt(disk[2], b)
            && (forall no: nat | 1 <= no < SAFE_INODES :: InodeAt(disk', no) == InodeAt(disk, no))
            && (forall i: nat :: !Live(disk', i) && !Live(disk, i))
  {
    var disk1 := disk[2 := SetBitAt(disk[2], b)];
    var r := InodeAt(disk, 0).(direct0 := b, blocks := 1);
    MarkBlock(disk, n, b);
    hide View, BitAt, SetBitAt, EntryInode, EntryName, CName, SlotInode, PutSlot;
    NewRoot(disk1, n, r);
    RootBlockInodes(disk, b);
    hide PutInode, DiskOk, InodeAt;
    NoEntries(RootBlockGiven(disk, b), b);
  }

  lemma RootBlockInodes(disk: Disk, b: uint32)
    requires DATA_START <= b < |disk| && b < 4096
    ensures forall no: nat | 1 <= no < SAFE_INODES :: InodeAt(RootBlockGiven(disk, b), no) == InodeAt(disk, no)
    ensures RootBlockGiven(disk, b)[1] == disk[1] && RootBlockGiven(disk, b)[2] == SetBitAt(disk[2], b)
  {
    hide InodeAt;
    forall no: nat | 1 <= no < SAFE_INODES ensures InodeAt(RootBlockGiven(disk, b), no) == InodeAt(disk, no) {
      RootBlockInode(disk, b, no);
    }
  }

  lemma RootBlockInode(disk: Disk, b: uint32, no: nat)
    requires DATA_START <= b < |disk| && b < 4096 && 1 <= no < SAFE_INODES
    ensures InodeAt(RootBlockGiven(disk, b), no) == InodeAt(disk, no)
  {
    var disk1, r := disk[2 := SetBitAt(disk[2], b)], InodeAt(disk, 0).(direct0 := b, blocks := 1);
    hide SlotInode, PutSlot, SetBitAt;
    SlotClearOfData(no);
    PutInodeRead(disk1, 0, r, no);
  }

  /** A directory block of zeros holds no entry. */
  lemma NoEntries(disk: Disk, b: nat)
    requires b < |disk| && RootBlock(disk) == b && disk[b] == ZERO_BLOCK
    ensures forall i: nat :: !Live(disk, i)
  {
    forall i: nat ensures !Live(disk, i) {
      if i < 16 { assert EntryInode(ZERO_BLOCK, i) == 0; }
    }
  }

  lemma RootReadable(disk: Disk, n: nat)
    requires DiskOk(disk, n) && RootBlock(disk) != 0
    ensures RootBlock(disk) < |disk| && |disk| > DATA_START
  {
  }

  /** The directory block and then the root inode, as vrfs_add_dir_entry writes them. */
  lemma InsertStep(disk: Disk, n: nat, i: nat, no: uint32, name: Name, size: uint32)
    requires DiskOk(disk, n) && RootBlock(disk) != 0 && i < 16 && !Live(disk, i)
    requires 1 <= no < n && InodeAt(disk, no) == EMPTY_FILE && forall j: nat | Live(disk, j) :: Ino(disk, j) != no
    requires 0 !in name && Cut(name) !in View(disk)
    ensures var r := RootBlock(disk); var f := InodeAt(disk, 0).(size := size);
            r < |disk| &&
            var disk1 := disk[r := PutEntry(disk[r], i, no, StoredName(EntryName(disk[r], i), name))];
            var disk' := PutInode(disk1, 0, f);
            && DiskOk(disk', n) && View(disk') == View(disk)[Cut(name) := []] && InodeAt(disk', 0) == f
            && disk'[1] == disk[1] && disk'[2] == disk[2]
            && Live(disk', i) && NameAt(disk', i) == Cut(name) && Ino(disk', i) == no && FileAt(disk', i) == EMPTY_FILE
  {
    var r := RootBlock(disk);
    AddEntry(disk, n, i, no, name);
    var disk1 := disk[r := PutEntry(disk[r], i, no, StoredName(EntryName(disk[r], i), name))];
    var f := InodeAt(disk, 0).(size := size);
    InodesElsewhere(disk, n, r, disk1);
    RootResize(disk1, n, i, f);
  }

  /** Rewriting the root inode with the same block changes nothing else. */
  lemma RootResize(disk: Disk, n: nat, i: nat, f: Inode)
    requires DiskOk(disk, n) && f.direct0 == RootBlock(disk) && Live(disk, i)
    ensures var disk' := PutInode(disk, 0, f);
            && DiskOk(disk', n) && View(disk') == View(disk) && InodeAt(disk', 0) == f
            && disk'[1] == disk[1] && disk'[2] == disk[2]
            && Live(disk', i) && NameAt(disk', i) == NameAt(disk, i) && Ino(disk', i) == Ino(disk, i)
            && FileAt(disk', i) == FileAt(disk, i)
  {
    var disk' := PutInode(disk, 0, f);
    forall j: nat | Live(disk, j) ensures Ino(disk, j) != 0 { LiveOk(disk, n, j); }
    PutInodeKeeps(disk, n, 0, f);
    PutInodeRead(disk, 0, f, 0);
    LiveOk(disk, n, i);
    PutInodeRead(disk, 0, f, Ino(disk, i));
    hide InodeAt, EntryInode, EntryName, CName, BitAt, View, SlotInode, PutSlot;
    assert disk'[RootBlock(disk)] == disk[RootBlock(disk)] && RootBlock(disk') == RootBlock(disk) != 0;
    hide DiskOk, PutInode;
    EntryReadsSame(disk, disk', i);
  }

  /** An entry reads the same where the root block and the inode it names are the same. */
  lemma EntryReadsSame(disk: Disk, disk': Disk, i: nat)
    requires Live(disk, i) && RootBlock(disk') == RootBlock(disk) < |disk| == |disk'|
    requires disk'[RootBlock(disk)] == disk[RootBlock(disk)]
    requires InodeBlock(Ino(disk, i)) < |disk| && InodeAt(disk', Ino(disk, i)) == InodeAt(disk, Ino(disk, i))
    ensures Live(disk', i) && NameAt(disk', i) == NameAt(disk, i) && Ino(disk', i) == Ino(disk, i)
    ensures FileAt(disk', i) == FileAt(disk, i)
  {
    hide InodeAt, EntryInode, EntryName, CName;
  }

  /** What the search loop finds on a well-formed disk. */
  lemma LookupFacts(disk: Disk, n: nat, name: Name)
    requires DiskOk(disk, n)
    ensures RootBlock(disk) != 0 ==> RootBlock(disk) < |disk|
    ensures RootBlock(disk) == 0 ==> name !in View(disk)
    ensures RootBlock(disk) != 0 ==>
              forall i: nat | i < 16 && EntryInode(disk[RootBlock(disk)], i) != 0 ::
                && Live(disk, i) && InodeBlock(Ino(disk, i)) < |disk|
                && (Matches(EntryName(disk[RootBlock(disk)], i), name) <==> NameAt(disk, i) == name)
                && (NameAt(disk, i) == name ==> name in View(disk))
    ensures name in View(disk) ==> exists i: nat :: Live(disk, i) && NameAt(disk, i) == name
  {
    if RootBlock(disk) != 0 {
      forall i: nat | i < 16 && EntryInode(disk[RootBlock(disk)], i) != 0
        ensures Live(disk, i) && InodeBlock(Ino(disk, i)) < |disk|
        ensures Matches(EntryName(disk[RootBlock(disk)], i), name) <==> NameAt(disk, i) == name
        ensures NameAt(disk, i) == name ==> name in View(disk)
      {
        LiveOk(disk, n, i);
        MatchIsName(disk, n, i, name);
        ViewAt(disk, n, i);
      }
    }
    if name in View(disk) {
      var i := SlotOf(disk, name);
      assert Live(disk, i) && NameAt(disk, i) == name;
    }
  }

  /** Allocating inode n and writing an empty file to it changes no file. */
  lemma CreateStep(disk: Disk, n: nat)
    requires DiskOk(disk, n) && n < SAFE_INODES
    ensures n >= 1 && !BitAt(disk[1], n) && forall k: nat | k < n :: BitAt(disk[1], k)
    ensures var disk1 := disk[1 := SetBitAt(disk[1], n)];
            var disk' := PutInode(disk1, n, EMPTY_FILE);
            && DiskOk(disk', n + 1) && View(disk') == View(disk)
            && InodeAt(disk', 0) == InodeAt(disk, 0) && disk'[1] == disk1[1] && disk'[2] == disk[2]
            && (|disk| > DATA_START ==> InodeAt(disk', n) == EMPTY_FILE)
            && (forall i: nat :: Live(disk', i) <==> Live(disk, i))
            && (forall i: nat | Live(disk', i) :: Ino(disk', i) != n)
  {
    var disk1 := disk[1 := SetBitAt(disk[1], n)];
    var disk' := PutInode(disk1, n, EMPTY_FILE);
    MarkInode(disk, n);
    assert InodeAt(disk1, 0) == InodeAt(disk, 0);
    SlotClearOfData(n);
    PutInodeRead(disk1, n, EMPTY_FILE, 0);
    PutInodeRead(disk1, n, EMPTY_FILE, n);
    hide InodeAt, BitAt, SetBitAt, EntryInode, SlotInode, PutSlot, View;
    forall i: nat | Live(disk1, i) ensures Ino(disk1, i) != n {
      assert Live(disk, i);
      LiveOk(disk, n, i);
    }
    PutInodeKeeps(disk1, n + 1, n, EMPTY_FILE);
  }

  /** Clearing an entry leaves the bitmaps and the root inode alone. */
  lemma UnlinkStep(disk: Disk, n: nat, i: nat)
    requires DiskOk(disk, n) && Live(disk, i)
    ensures var r := RootBlock(disk);
            var disk' := disk[r := PutEntry(disk[r], i, 0, Zeros(28))];
            && DiskOk(disk', n) && View(disk') == View(disk) - {NameAt(disk, i)}
            && disk'[1] == disk[1] && disk'[2] == disk[2] && InodeAt(disk', 0) == InodeAt(disk, 0)
  {
    RemoveEntry(disk, n, i);
    var r := RootBlock(disk);
    InodesElsewhere(disk, n, r, disk[r := PutEntry(disk[r], i, 0, Zeros(28))]);
  }

  /** A block whose bit was clear can become the data block of the file in slot i. */
  lemma FirstBlock(disk: Disk, n: nat, i: nat, b: uint32)
    requires DiskOk(disk, n) && Live(disk, i) && b < BlockCount(|disk|) && !BitAt(disk[2], b)
    ensures var disk' := disk[2 := SetBitAt(disk[2], b)];
            && DiskOk(disk', n) && View(disk') == View(disk) && Owned(disk', b) && Unowned(disk', b)
            && Live(disk', i) && NameAt(disk', i) == NameAt(disk, i) && Ino(disk', i) == Ino(disk, i)
            && FileAt(disk', i) == FileAt(disk, i) && InodeAt(disk', 0) == InodeAt(disk, 0)
  {
    ClearIsUnowned(disk, n, b);
    MarkBlock(disk, n, b);
    var disk' := disk[2 := SetBitAt(disk[2], b)];
    assert RootBlock(disk') == RootBlock(disk);
    hide BitAt, SetBitAt;
    LiveOk(disk, n, i);
  }

  lemma WriteStep(disk: Disk, n: nat, i: nat, b: uint32, data: seq<byte>, f: Inode)
    requires DiskOk(disk, n) && Live(disk, i) && Owned(disk, b) && 0 < |data| <= 512
    requires b == FileAt(disk, i).direct0 || Unowned(disk, b)
    requires f.mode == MODE_FILE && f.direct0 == b && f.size == |data|
    ensures b < |disk|
    ensures var block: Block := data + Zeros(512 - |data|);
            var disk' := PutInode(disk[b := block], Ino(disk, i), f);
            && DiskOk(disk', n) && View(disk') == View(disk)[NameAt(disk, i) := data]
            && Live(disk', i) && NameAt(disk', i) == NameAt(disk, i) && Ino(disk', i) == Ino(disk, i) && FileAt(disk', i) == f
            && disk'[1] == disk[1] && disk'[2] == disk[2] && InodeAt(disk', 0) == InodeAt(disk, 0)
  {
    WriteFile(disk, n, i, b, data, f);
    LiveOk(disk, n, i);
    hide View, DiskOk, BitAt, EntryInode, EntryName, CName, Content, PutSlot, SlotInode;
    var block: Block := data + Zeros(512 - |data|);
    InodesElsewhere(disk, n, b, disk[b := block]);
    PutInodeRead(disk[b := block], Ino(disk, i), f, 0);
  }
}
