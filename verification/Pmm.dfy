/** The physical frame allocator of src/mm/pmm.c: a bitmap of 4 KB frames and a usage counter. */
module Pmm {
  import opened Common
  import opened Bits

  const MAX_BLOCKS := 32768
  const MAP_WORDS := 1024

  const FRAMES := 0x10_0000

  /** The frame number in an address or page-table entry (x & 0xFFFFF000). */
  function Target(x: uint32): (f: nat)
    ensures f < FRAMES
  {
    x / 4096
  }

  ghost function Frames(start: nat, count: nat): set<nat> {
    Interval(start, start + count)
  }

  lemma NoFrames(start: nat)
    ensures Frames(start, 0) == {}
  {
  }

  lemma TakeNext(used: set<nat>, now: set<nat>, start: nat, count: nat)
    ensures now == used + Frames(start, count) ==> now + {start + count} == used + Frames(start, count + 1)
    ensures now == used - Frames(start, count) ==> now - {start + count} == used - Frames(start, count + 1)
  {
    assert Frames(start, count + 1) == Frames(start, count) + {start + count};
  }

  /** The free frames after boot, once the first n of them have been handed out. */
  ghost function Holding(n: nat): set<nat>
    requires n <= 3840
  {
    Frames(0, MAX_BLOCKS) - Frames(256 + n, 3840 - n)
  }

  lemma BootCount(maxBlocks: nat)
    requires maxBlocks <= MAX_BLOCKS
    ensures Frames(0, MAX_BLOCKS) - Frames(256, 3840) + Frames(0, 256) == Holding(0)
    ensures maxBlocks >= 4096 ==> |Holding(0) * Frames(0, maxBlocks)| == maxBlocks - 3840
  {
    assert Frames(0, MAX_BLOCKS) - Frames(256, 3840) + Frames(0, 256) == Holding(0);
    if maxBlocks >= 4096 {
      var below := Holding(0) * Frames(0, maxBlocks);
      assert Frames(0, maxBlocks) == below + Frames(256, 3840);
      IntervalSize(0, maxBlocks);
      IntervalSize(256, 256 + 3840);
    }
  }

  /** What a search of the frames below `scanned` finds when the first n have been handed out. */
  lemma HoldingNext(n: nat, scanned: nat)
    requires n <= 3840 && scanned <= MAX_BLOCKS
    ensures 0 in Holding(n)
    ensures 256 + n >= scanned ==> Frames(0, scanned) - Holding(n) == {}
    ensures n < 3840 && 256 + n < scanned ==>
              && 256 + n in Frames(0, scanned) - Holding(n) && Holding(n + 1) == Holding(n) + {256 + n}
              && forall f | f in Frames(0, scanned) - Holding(n) :: 256 + n <= f
  {
  }

  /** How many allocations in a row succeed after boot: the counter stands 256 too high on a machine of
      16 MB or more, and wraps below 0 on one of less than 14 MB. */
  function BootFrames(maxBlocks: nat): (n: nat)
    ensures n <= 3584
  {
    if maxBlocks < 3584 then 0 else if maxBlocks < 3840 then maxBlocks / 32 * 32 - 256 else 3584
  }

  /** bitmap_test */
  predicate Marked(m: seq<uint32>, b: nat)
    requires b / 32 < |m|
  {
    Bit(m[b / 32], b % 32)
  }

  ghost function MarkedSet(m: seq<uint32>): (s: set<nat>)
    requires |m| == MAP_WORDS
    ensures |s| <= MAX_BLOCKS
  {
    var marked := set b: nat | b < MAX_BLOCKS && Marked(m, b);
    IntervalSize(0, MAX_BLOCKS);
    SubsetSize(marked, Frames(0, MAX_BLOCKS));
    marked
  }

  lemma MarkedUpdate(m: seq<uint32>, b: nat, w: uint32, on: bool)
    requires |m| == MAP_WORDS && b < MAX_BLOCKS
    requires w == if on then SetBit(m[b / 32], b % 32) else ClearBit(m[b / 32], b % 32)
    ensures MarkedSet(m[b / 32 := w]) == if on then MarkedSet(m) + {b} else MarkedSet(m) - {b}
    ensures forall c: nat | c < MAX_BLOCKS && c != b :: Marked(m[b / 32 := w], c) <==> Marked(m, c)
    ensures Marked(m[b / 32 := w], b) <==> on
  {
    forall c: nat | c < MAX_BLOCKS
      ensures Marked(m[b / 32 := w], c) <==> if on then c == b || Marked(m, c) else c != b && Marked(m, c)
    {
      if c / 32 == b / 32 {
        UpdateBit(m[b / 32], b % 32, c % 32);
        assert c % 32 == b % 32 <==> c == b;
      }
    }
  }

  class FrameAllocator {
    const memoryMap: array<uint32>
    var memorySize: uint32
    var usedBlocks: uint32
    var maxBlocks: nat

    ghost predicate Valid()
      reads this
    {
      memoryMap.Length == MAP_WORDS && maxBlocks <= MAX_BLOCKS
    }

    ghost function Used(): set<nat>
      requires Valid()
      reads this, memoryMap
    {
      MarkedSet(memoryMap[..])
    }

    /** Frame 0 is never handed out, so that address 0 can stand for "no frame". */
    ghost predicate Ready()
      reads this, memoryMap
      ensures Ready() ==> Valid()
    {
      Valid() && 0 in Used()
    }

    /** The frames that bitmap_first_free can find: it looks at whole words below max_blocks / 32 only. */
    ghost function Free(): set<nat>
      requires Valid()
      reads this, memoryMap
    {
      Frames(0, maxBlocks / 32 * 32) - Used()
    }

    /** How far the usage counter is ahead of the bitmap, as a machine word. */
    ghost function Drift(): uint32
      requires Valid()
      reads this, memoryMap
    {
      Wrap32(usedBlocks - |Used()|)
    }

    /** How many allocations in a row will succeed. */
    ghost function Available(): nat
      requires Valid()
      reads this, memoryMap
    {
      var byCounter := if usedBlocks < maxBlocks then maxBlocks - usedBlocks else 0;
      if |Free()| < byCounter then |Free()| else byCounter
    }

    constructor ()
      ensures fresh(memoryMap) && memoryMap.Length == MAP_WORDS && maxBlocks == 0
    {
      memoryMap := new uint32[MAP_WORDS](_ => 0);
      memorySize, usedBlocks, maxBlocks := 0, 0, 0;
    }

    method BitmapSet(b: nat)
      requires Valid() && b < MAX_BLOCKS
      modifies memoryMap
      ensures Used() == old(Used()) + {b}
    {
      Width32();
      UpdateWidth(memoryMap[b / 32], b % 32, 32);
      ghost var m := memoryMap[..];
      memoryMap[b / 32] := SetBit(memoryMap[b / 32], b % 32);
      MarkedUpdate(m, b, memoryMap[b / 32], true);
      assert memoryMap[..] == m[b / 32 := memoryMap[b / 32]];
    }

    method BitmapClear(b: nat)
      requires Valid() && b < MAX_BLOCKS
      modifies memoryMap
      ensures Used() == old(Used()) - {b}
    {
      Width32();
      UpdateWidth(memoryMap[b / 32], b % 32, 32);
      ghost var m := memoryMap[..];
      memoryMap[b / 32] := ClearBit(memoryMap[b / 32], b % 32);
      MarkedUpdate(m, b, memoryMap[b / 32], false);
      assert memoryMap[..] == m[b / 32 := memoryMap[b / 32]];
    }

    /** bitmap_first_free: the lowest clear frame of the words it scans, or -1. */
    method FirstFree() returns (block: int)
      requires Valid()
      ensures block == -1 || (block in Free() && block < maxBlocks && block !in Used())
      ensures block == -1 ==> Free() == {}
      ensures block >= 0 ==> forall b | b in Free() :: block <= b
    {
      ghost var m := memoryMap[..];
      for i := 0 to maxBlocks / 32
        invariant forall b: nat | b < i * 32 :: Marked(m, b)
      {
        Width32();
        if memoryMap[i] != 0xFFFF_FFFF {
          ghost var clear := SomeClearBit(m[i], 32);
          for j := 0 to 32
            invariant !Bit(m[i], clear)
            invariant forall k | 0 <= k < j :: Bit(m[i], k)
          {
            if !Bit(memoryMap[i], j) {
              assert (i * 32 + j) / 32 == i && (i * 32 + j) % 32 == j;
              forall b: nat | b < i * 32 + j ensures Marked(m, b) {
                if b >= i * 32 {
                  assert b / 32 == i && b % 32 == b - i * 32;
                }
              }
              return i * 32 + j;
            }
          }
          assert false;
        }
        forall b: nat | b < (i + 1) * 32 ensures Marked(m, b) {
          if b >= i * 32 {
            assert b / 32 == i;
            AllOnes(32, b % 32);
          }
        }
      }
      return -1;
    }

    /** pmm_init: everything starts out used, and the counter says so for the frames that exist. */
    method Init(memSize: uint32)
      requires memoryMap.Length == MAP_WORDS && memSize / 4096 <= MAX_BLOCKS
      modifies this, memoryMap
      ensures Valid() && maxBlocks == memSize / 4096 == usedBlocks
      ensures Used() == Frames(0, MAX_BLOCKS)
    {
      memorySize := memSize;
      maxBlocks := memSize / 4096;
      usedBlocks := maxBlocks;
      for i := 0 to MAP_WORDS
        invariant Valid() && maxBlocks == memSize / 4096 == usedBlocks
        invariant forall k | 0 <= k < i :: memoryMap[k] == 0xFFFF_FFFF
      {
        memoryMap[i] := 0xFFFF_FFFF;
      }
      Width32();
      forall b: nat | b < MAX_BLOCKS ensures Marked(memoryMap[..], b) {
        AllOnes(32, b % 32);
      }
    }

    /** One frame of a region: the bit and the counter are updated without looking at the bit first. */
    method Count(b: nat, on: bool)
      requires Valid() && b < MAX_BLOCKS
      modifies `usedBlocks, memoryMap
      ensures Used() == if on then old(Used()) + {b} else old(Used()) - {b}
      ensures usedBlocks == Wrap32(old(usedBlocks) + if on then 1 else -1)
    {
      hide MarkedSet;
      if on {
        BitmapSet(b);
        usedBlocks := Wrap32(usedBlocks + 1);
      } else {
        BitmapClear(b);
        usedBlocks := Wrap32(usedBlocks - 1);
      }
    }

    /** pmm_init_region */
    method InitRegion(base: uint32, size: uint32)
      requires Valid() && base / 4096 + size / 4096 <= MAX_BLOCKS
      modifies `usedBlocks, memoryMap
      ensures Used() == old(Used()) - Frames(base / 4096, size / 4096)
      ensures usedBlocks == Wrap32(old(usedBlocks) - size / 4096)
    {
      hide MarkedSet, Frames, FrameAllocator.Used;
      var blocks, startBlock := size / 4096, base / 4096;
      NoFrames(startBlock);
      for i := 0 to blocks
        invariant Used() == old(Used()) - Frames(startBlock, i)
        invariant usedBlocks == Wrap32(old(usedBlocks) - i)
      {
        TakeNext(old(Used()), Used(), startBlock, i);
        Count(startBlock + i, false);
      }
    }

    /** pmm_deinit_region: counts a frame once more even when it is used already. */
    method DeinitRegion(base: uint32, size: uint32)
      requires Valid() && base / 4096 + size / 4096 <= MAX_BLOCKS
      modifies `usedBlocks, memoryMap
      ensures Used() == old(Used()) + Frames(base / 4096, size / 4096)
      ensures usedBlocks == Wrap32(old(usedBlocks) + size / 4096)
    {
      hide MarkedSet, Frames, FrameAllocator.Used;
      var blocks, startBlock := size / 4096, base / 4096;
      NoFrames(startBlock);
      for i := 0 to blocks
        invariant Used() == old(Used()) + Frames(startBlock, i)
        invariant usedBlocks == Wrap32(old(usedBlocks) + i)
      {
        TakeNext(old(Used()), Used(), startBlock, i);
        Count(startBlock + i, true);
      }
    }

    /** How kernel_main prepares the allocator: frames 256 to 4095 are free, whatever the kernel occupies
        there, and because the first megabyte was never free, its 256 frames are counted twice. */
    method Boot(memLowerKb: uint32, memUpperKb: uint32)
      requires memoryMap.Length == MAP_WORDS
      requires memLowerKb + memUpperKb <= 4 * MAX_BLOCKS
      modifies this, memoryMap
      ensures Ready() && maxBlocks == (memLowerKb + memUpperKb) / 4
      ensures Used() == Holding(0)
      ensures usedBlocks == Wrap32(maxBlocks - 3584)
      ensures maxBlocks >= 4096 ==> usedBlocks == |Used() * Frames(0, maxBlocks)| + 256
    {
      hide MarkedSet, Frames;
      Init((memLowerKb + memUpperKb) * 1024);
      InitRegion(0x10_0000, 15 * 1024 * 1024);
      DeinitRegion(0, 0x10_0000);
      BootCount(maxBlocks);
      HoldingNext(0, 0);
    }

    /** pmm_alloc_block: the address of the lowest free frame, or 0. */
    method AllocBlock() returns (addr: uint32)
      requires Valid()
      modifies `usedBlocks, memoryMap
      ensures Drift() == old(Drift())
      ensures old(Ready()) ==> Ready() && (addr == 0 <==> old(Available()) == 0) && (addr != 0 ==> Target(addr) != 0)
      ensures old(Available()) == 0 ==> addr == 0 && Used() == old(Used()) && usedBlocks == old(usedBlocks) && Available() == 0
      ensures old(Available()) > 0 ==>
        && addr % 4096 == 0 && Target(addr) in old(Free()) && Target(addr) < MAX_BLOCKS && Target(addr) !in old(Used())
        && (forall b | b in old(Free()) :: Target(addr) <= b)
        && Used() == old(Used()) + {Target(addr)} && usedBlocks == old(usedBlocks) + 1
        && Available() == old(Available()) - 1
    {
      hide MarkedSet, Frames;
      if usedBlocks >= maxBlocks {
        return 0;
      }
      var block := FirstFree();
      if block == -1 {
        return 0;
      }
      ghost var used, free := Used(), Free();
      BitmapSet(block);
      assert Used() == used + {block} && Free() == free - {block};
      usedBlocks := usedBlocks + 1;
      addr := block * 4096;
    }

    /** The state after boot and `given` allocations that succeeded. */
    ghost predicate Booted(given: nat)
      reads this, memoryMap
    {
      && Ready() && given <= BootFrames(maxBlocks)
      && Used() == Holding(given) && usedBlocks == Wrap32(maxBlocks - 3584 + given)
    }

    /** One allocation in that state. */
    method AllocAfterBoot(ghost given: nat) returns (addr: uint32)
      requires Booted(given)
      modifies `usedBlocks, memoryMap
      ensures if given < BootFrames(maxBlocks) then addr == 0x10_0000 + 4096 * given && Booted(given + 1)
              else addr == 0 && Booted(given)
    {
      hide MarkedSet, Frames, Holding, FrameAllocator.Used, FrameAllocator.Drift;
      HoldingNext(given, maxBlocks / 32 * 32);
      addr := AllocBlock();
    }

    /** The allocations after boot, n of them in a row: they walk up from 0x100000, where the linker puts the
        kernel, through 0x400000, where the heap starts, and stop while 256 frames are still free. */
    method BootThenAlloc(memLowerKb: uint32, memUpperKb: uint32, n: nat) returns (addrs: seq<uint32>)
      requires memoryMap.Length == MAP_WORDS
      requires memLowerKb + memUpperKb <= 4 * MAX_BLOCKS
      modifies this, memoryMap
      ensures Ready() && |addrs| == n
      ensures var most := BootFrames((memLowerKb + memUpperKb) / 4);
              && (forall i | 0 <= i < n :: addrs[i] == if i < most then 0x10_0000 + 4096 * i else 0)
              && Used() == Holding(if n < most then n else most)
    {
      hide BootFrames, Holding, FrameAllocator.Booted, FrameAllocator.Ready, FrameAllocator.Used;
      Boot(memLowerKb, memUpperKb);
      JustBooted();
      addrs := [];
      ghost var most := BootFrames(maxBlocks);
      for i := 0 to n
        invariant maxBlocks == (memLowerKb + memUpperKb) / 4 && |addrs| == i
        invariant forall k | 0 <= k < i :: addrs[k] == if k < most then 0x10_0000 + 4096 * k else 0
        invariant Booted(if i < most then i else most)
      {
        var addr := AllocAfterBoot(if i < most then i else most);
        addrs := addrs + [addr];
      }
      Unpack(if n < most then n else most);
    }

    lemma JustBooted()
      requires Ready() && Used() == Holding(0) && usedBlocks == Wrap32(maxBlocks - 3584)
      ensures Booted(0)
    {
    }

    lemma Unpack(given: nat)
      requires Booted(given)
      ensures Ready() && Used() == Holding(given)
    {
    }

    /** pmm_free_block: a frame that is free already is left alone. */
    method FreeBlock(addr: uint32)
      requires Valid() && Target(addr) < MAX_BLOCKS
      modifies `usedBlocks, memoryMap
      ensures Drift() == old(Drift())
      ensures Used() == old(Used()) - {Target(addr)}
      ensures old(Ready()) && Target(addr) != 0 ==> Ready()
    {
      var block := Target(addr);
      if !Bit(memoryMap[block / 32], block % 32) {
        return;
      }
      BitmapClear(block);
      usedBlocks := Wrap32(usedBlocks - 1);
    }
  }
}
