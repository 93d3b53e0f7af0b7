/** The kernel heap of src/mm/kmalloc.c: headers of three words, in place in the memory that is handed out.
    Memory maps the address of each aligned word to its value. */
module Heap {
  import opened Common
  import opened HeapBlocks

  type Words = map<nat, uint32>

  /** The address of block k, or the null pointer behind the last block. */
  function AddrAt(bs: seq<Block>, k: nat): nat {
    if k < |bs| then bs[k].addr else 0
  }

  /** The header of block k is what the list says: size, is_free and next. */
  ghost predicate HeaderOk(m: Words, bs: seq<Block>, k: nat)
    requires k < |bs|
  {
    var a := bs[k].addr;
    && a in m && a + 4 in m && a + 8 in m
    && m[a] == bs[k].size && (m[a + 4] != 0 <==> bs[k].free) && m[a + 8] == AddrAt(bs, k + 1)
  }

  ghost predicate Linked(m: Words, bs: seq<Block>) {
    forall k | 0 <= k < |bs| :: HeaderOk(m, bs, k)
  }

  ghost predicate Covers(m: Words, start: nat, end: nat) {
    forall a: nat | start <= a < end && a % 4 == 0 :: a in m
  }

  ghost predicate SameOutside(m: Words, m': Words, lo: nat, hi: nat) {
    m.Keys == m'.Keys && forall a | a in m && !(lo <= a < hi) :: m'[a] == m[a]
  }

  /** The words that the owners of live blocks keep in them are the same. */
  ghost predicate SamePayload(m: Words, m': Words, live: set<Block>) {
    forall b, a | b in live && a in m && b.Ptr() <= a < b.End() :: a in m' && m'[a] == m[a]
  }

  // ---------------------------------------------------------------- headers and payloads do not meet

  lemma HeadersApart(bs: seq<Block>, start: nat, end: nat, i: nat, j: nat)
    requires Tiles(bs, start, end) && i < |bs| && j < |bs| && i != j
    ensures bs[i].addr + 12 <= bs[j].addr || bs[j].addr + 12 <= bs[i].addr
  {
    if i < j { TilesOrder(bs, start, end, i, j); } else { TilesOrder(bs, start, end, j, i); }
  }

  lemma HeaderApart(bs: seq<Block>, start: nat, end: nat, k: nat, b: Block, a: nat)
    requires Tiles(bs, start, end) && AllAligned(bs) && k < |bs| && b in Live(bs) && b.Ptr() <= a < b.End()
    ensures a < bs[k].addr || bs[k].addr + 12 <= a
  {
    var i :| 0 <= i < |bs| && bs[i] == b;
    if i < k { TilesOrder(bs, start, end, i, k); }
    if k < i { TilesOrder(bs, start, end, k, i); }
  }

  /** Rewriting the header of block k leaves every payload alone. */
  lemma HeaderWrite(bs: seq<Block>, start: nat, end: nat, k: nat, m: Words, m': Words)
    requires Tiles(bs, start, end) && k < |bs| && SameOutside(m, m', bs[k].addr, bs[k].addr + 12)
    ensures SamePayload(m, m', Live(bs))
  {
    forall b, a | b in Live(bs) && a in m && b.Ptr() <= a < b.End() ensures m'[a] == m[a] {
      var i :| 0 <= i < |bs| && bs[i] == b;
      if i < k { TilesOrder(bs, start, end, i, k); }
      if k < i { TilesOrder(bs, start, end, k, i); }
    }
  }

  /** Writing anywhere in a free block leaves every payload alone. */
  lemma FreeWrite(bs: seq<Block>, start: nat, end: nat, k: nat, m: Words, m': Words)
    requires Tiles(bs, start, end) && k < |bs| && bs[k].free && SameOutside(m, m', bs[k].addr, bs[k].End())
    ensures SamePayload(m, m', Live(bs))
  {
    forall b, a | b in Live(bs) && a in m && b.Ptr() <= a < b.End() ensures m'[a] == m[a] {
      var i :| 0 <= i < |bs| && bs[i] == b;
      if i < k { TilesOrder(bs, start, end, i, k); }
      if k < i { TilesOrder(bs, start, end, k, i); }
    }
  }

  /** Rewriting the header of block k, with the list changed to match, leaves the other headers right. */
  lemma RelinkOne(m: Words, m': Words, start: nat, end: nat, bs: seq<Block>, bs': seq<Block>, k: nat)
    requires Tiles(bs, start, end) && Linked(m, bs) && k < |bs| && |bs'| == |bs|
    requires forall i | 0 <= i < |bs| && i != k :: bs'[i] == bs[i]
    requires bs'[k].addr == bs[k].addr
    requires SameOutside(m, m', bs[k].addr, bs[k].addr + 12) && HeaderOk(m', bs', k)
    ensures Linked(m', bs')
  {
    forall i | 0 <= i < |bs| ensures HeaderOk(m', bs', i) {
      if i != k {
        assert HeaderOk(m, bs, i);
        HeadersApart(bs, start, end, i, k);
      }
    }
  }

  /** split_block as an operation on the list. */
  function SplitAt(bs: seq<Block>, k: nat, n: nat): seq<Block>
    requires k < |bs| && n <= bs[k].size
  {
    var b := bs[k];
    if b.size >= n + 28 then
      bs[..k] + [Block(b.addr, n, true), Block(b.addr + 12 + n, b.size - n - 12, true)] + bs[k + 1..]
    else
      bs
  }

  lemma SplitIndex(bs: seq<Block>, k: nat, n: nat)
    requires k < |bs| && bs[k].size >= n + 28
    ensures var c := SplitAt(bs, k, n); var b := bs[k];
            && |c| == |bs| + 1
            && c[k] == Block(b.addr, n, true) && c[k + 1] == Block(b.addr + 12 + n, b.size - n - 12, true)
            && (forall i | 0 <= i < k :: c[i] == bs[i]) && (forall i | k + 1 < i < |c| :: c[i] == bs[i - 1])
  {
  }

  lemma SplitShape(bs: seq<Block>, start: nat, end: nat, k: nat, n: nat)
    requires Tiles(bs, start, end) && AllAligned(bs) && k < |bs| && bs[k].free && n % 4 == 0 && bs[k].size >= n + 28
    ensures var c := SplitAt(bs, k, n); Tiles(c, start, end) && AllAligned(c) && Live(c) == Live(bs)
  {
    hide SplitAt, Tiles, Live, AllAligned;
    var c := SplitAt(bs, k, n);
    SplitIndex(bs, k, n);
    AlignedRest(bs, k, n);
    SplitTiles(bs, c, start, end, k);
    SplitLive(bs, c, k);
  }

  lemma AlignedRest(bs: seq<Block>, k: nat, n: nat)
    requires AllAligned(bs) && k < |bs| && n % 4 == 0
    ensures (bs[k].addr + 12 + n) % 4 == 0
  {
  }

  lemma SplitTiles(bs: seq<Block>, c: seq<Block>, start: nat, end: nat, k: nat)
    requires Tiles(bs, start, end) && AllAligned(bs) && k < |bs| && |c| == |bs| + 1
    requires c[k].addr == bs[k].addr && c[k].End() == c[k + 1].addr && c[k + 1].End() == bs[k].End() &&
        c[k + 1].addr % 4 == 0
    requires (forall i | 0 <= i < k :: c[i] == bs[i]) && (forall i | k + 1 < i < |c| :: c[i] == bs[i - 1])
    ensures Tiles(c, start, end) && AllAligned(c)
  {
  }

  lemma SplitLive(bs: seq<Block>, c: seq<Block>, k: nat)
    requires k < |bs| && |c| == |bs| + 1 && bs[k].free && c[k].free && c[k + 1].free
    requires (forall i | 0 <= i < k :: c[i] == bs[i]) && (forall i | k + 1 < i < |c| :: c[i] == bs[i - 1])
    ensures Live(c) == Live(bs)
  {
    forall x | x in Live(bs) ensures x in Live(c) {
      var i :| 0 <= i < |bs| && bs[i] == x;
      assert x == if i < k then c[i] else c[i + 1];
    }
  }

  lemma SplitSmall(bs: seq<Block>, k: nat, n: nat)
    requires k < |bs| && n <= bs[k].size
    ensures bs[k].size < n + 28 ==> SplitAt(bs, k, n) == bs
  {
  }

  lemma SplitLinked(m: Words, m': Words, start: nat, end: nat, bs: seq<Block>, k: nat, n: nat)
    requires Tiles(bs, start, end) && AllAligned(bs) && Linked(m, bs)
    requires k < |bs| && bs[k].free && n % 4 == 0 && bs[k].size >= n + 28
    requires var c := SplitAt(bs, k, n); |c| == |bs| + 1 && HeaderOk(m', c, k) && HeaderOk(m', c, k + 1)
    requires SameOutside(m, m', bs[k].addr, bs[k].End())
    ensures Linked(m', SplitAt(bs, k, n))
  {
    var c := SplitAt(bs, k, n);
    SplitIndex(bs, k, n);
    hide SplitAt;
    forall i | 0 <= i < |c| ensures HeaderOk(m', c, i) {
      if i < k {
        assert HeaderOk(m, bs, i);
        TilesOrder(bs, start, end, i, k);
      } else if i > k + 1 {
        assert HeaderOk(m, bs, i - 1);
        TilesOrder(bs, start, end, k, i - 1);
      }
    }
  }

  lemma HeaderAt(m: Words, bs: seq<Block>, k: nat)
    requires Linked(m, bs) && k < |bs|
    ensures HeaderOk(m, bs, k)
  {
  }

  /** The five words that split_block writes. */
  lemma SplitWritten(m: Words, m': Words, start: nat, end: nat, bs: seq<Block>, k: nat, n: uint32)
    requires Tiles(bs, start, end) && AllAligned(bs) && Linked(m, bs) && Covers(m, start, end) && end < WORD
    requires k < |bs| && bs[k].free && n % 4 == 0 && bs[k].size >= n + 28
    requires var a := bs[k].addr; var v := a + 12 + n;
             && a in m && a + 8 in m && 0 <= m[a] - n - 12 < WORD && v < WORD
             && m' == m[v := m[a] - n - 12][v + 4 := 1][v + 8 := m[a + 8]][a := n][a + 8 := v]
    ensures m'.Keys == m.Keys && Covers(m', start, end) && Linked(m', SplitAt(bs, k, n))
    ensures SameOutside(m, m', bs[k].addr, bs[k].End())
  {
    hide Tiles, AllAligned, Covers, SplitAt, Linked;
    PlaceForHeader(m, start, end, bs, k, n);
    HeaderAt(m, bs, k);
    TilesRange(bs, start, end, k);
    SplitIndex(bs, k, n);
    SplitNext(bs, k, n);
    KeepsCover(m, m', start, end);
    SplitLinked(m, m', start, end, bs, k, n);
  }

  /** There are words for the second header. */
  lemma PlaceForHeader(m: Words, start: nat, end: nat, bs: seq<Block>, k: nat, n: nat)
    requires Tiles(bs, start, end) && AllAligned(bs) && Covers(m, start, end)
    requires k < |bs| && n % 4 == 0 && bs[k].size >= n + 28
    ensures var v := bs[k].addr + 12 + n; {v, v + 4, v + 8} <= m.Keys
  {
    TilesRange(bs, start, end, k);
    var v := bs[k].addr + 12 + n;
    assert v % 4 == 0 && (v + 4) % 4 == 0 && (v + 8) % 4 == 0;
  }

  lemma SplitNext(bs: seq<Block>, k: nat, n: nat)
    requires k < |bs| && bs[k].size >= n + 28
    ensures AddrAt(SplitAt(bs, k, n), k + 1) == bs[k].addr + 12 + n
    ensures AddrAt(SplitAt(bs, k, n), k + 2) == AddrAt(bs, k + 1)
  {
    SplitIndex(bs, k, n);
  }

  /** The list after merge_free_blocks has joined block k with its free successor. */
  function JoinAt(bs: seq<Block>, k: nat): seq<Block>
    requires k + 1 < |bs|
  {
    bs[..k] + Joined(bs[k..])
  }

  lemma JoinIndex(bs: seq<Block>, k: nat)
    requires k + 1 < |bs|
    ensures var c := JoinAt(bs, k);
            && |c| == |bs| - 1 && c[k] == Block(bs[k].addr, bs[k].size + 12 + bs[k + 1].size, true)
            && (forall i | 0 <= i < k :: c[i] == bs[i]) && (forall i | k < i < |c| :: c[i] == bs[i + 1])
  {
  }

  lemma JoinShape(bs: seq<Block>, start: nat, end: nat, k: nat)
    requires Tiles(bs, start, end) && AllAligned(bs) && k + 1 < |bs| && bs[k].free && bs[k + 1].free
    ensures var c := JoinAt(bs, k);
            && Tiles(c, start, end) && AllAligned(c) && Live(c) == Live(bs)
            && bs[..k] + Merge(bs[k..]) == c[..k] + Merge(c[k..])
  {
    JoinIndex(bs, k);
    JoinMerge(bs, k);
    hide JoinAt, Merge;
    JoinLive(bs, JoinAt(bs, k), k);
    JoinTiles(bs, JoinAt(bs, k), start, end, k);
  }

  lemma JoinTiles(bs: seq<Block>, c: seq<Block>, start: nat, end: nat, k: nat)
    requires Tiles(bs, start, end) && AllAligned(bs) && k + 1 < |bs| && |c| == |bs| - 1
    requires c[k].addr == bs[k].addr && c[k].End() == bs[k + 1].End()
    requires (forall i | 0 <= i < k :: c[i] == bs[i]) && (forall i | k < i < |c| :: c[i] == bs[i + 1])
    ensures Tiles(c, start, end) && AllAligned(c)
  {
  }

  lemma JoinMerge(bs: seq<Block>, k: nat)
    requires k + 1 < |bs| && bs[k].free && bs[k + 1].free
    ensures var c := JoinAt(bs, k); |c| > k && bs[..k] + Merge(bs[k..]) == c[..k] + Merge(c[k..])
  {
    assert JoinAt(bs, k)[..k] == bs[..k] && JoinAt(bs, k)[k..] == Joined(bs[k..]);
  }

  lemma JoinLive(bs: seq<Block>, c: seq<Block>, k: nat)
    requires k + 1 < |bs| && |c| == |bs| - 1 && bs[k].free && bs[k + 1].free && c[k].free
    requires (forall i | 0 <= i < k :: c[i] == bs[i]) && (forall i | k < i < |c| :: c[i] == bs[i + 1])
    ensures Live(c) == Live(bs)
  {
    forall b | b in Live(bs) ensures b in Live(c) {
      var i :| 0 <= i < |bs| && bs[i] == b;
      assert b == if i < k then c[i] else c[i - 1];
    }
  }

  lemma JoinLinked(m: Words, m': Words, start: nat, end: nat, bs: seq<Block>, k: nat)
    requires Tiles(bs, start, end) && Linked(m, bs) && k + 1 < |bs|
    requires SameOutside(m, m', bs[k].addr, bs[k].addr + 12)
    requires k < |JoinAt(bs, k)| && HeaderOk(m', JoinAt(bs, k), k)
    ensures Linked(m', JoinAt(bs, k))
  {
    var c := JoinAt(bs, k);
    JoinIndex(bs, k);
    hide JoinAt;
    forall i | 0 <= i < |c| ensures HeaderOk(m', c, i) {
      if i != k {
        var j := if i < k then i else i + 1;
        assert HeaderOk(m, bs, j);
        HeadersApart(bs, start, end, j, k);
      }
    }
  }

  /** The two words that merge_free_blocks writes. */
  lemma JoinWritten(m: Words, m': Words, start: nat, end: nat, bs: seq<Block>, k: nat)
    requires Tiles(bs, start, end) && Linked(m, bs) && k + 1 < |bs| && bs[k].free && bs[k + 1].free
    requires var a := bs[k].addr; var b := bs[k + 1].addr;
             && a in m && b in m && b + 8 in m && m[a] + 12 + m[b] < WORD
             && m' == m[a := m[a] + 12 + m[b]][a + 8 := m[b + 8]]
    ensures m'.Keys == m.Keys && SameOutside(m, m', bs[k].addr, bs[k].addr + 12) && Linked(m', JoinAt(bs, k))
  {
    HeaderAt(m, bs, k);
    HeaderAt(m, bs, k + 1);
    JoinIndex(bs, k);
    assert AddrAt(JoinAt(bs, k), k + 1) == AddrAt(bs, k + 2);
    hide Tiles, JoinAt;
    JoinLinked(m, m', start, end, bs, k);
  }

  /** The walk steps over a block that is not joined. */
  lemma MergePast(bs: seq<Block>, k: nat)
    requires k + 1 < |bs| && !(bs[k].free && bs[k + 1].free)
    ensures bs[..k] + Merge(bs[k..]) == bs[..k + 1] + Merge(bs[k + 1..])
  {
    assert bs[k..][1..] == bs[k + 1..];
    assert bs[..k + 1] == bs[..k] + [bs[k]];
  }

  lemma Neighbours(bs: seq<Block>, start: nat, end: nat, k: nat)
    requires Tiles(bs, start, end) && k + 1 < |bs|
    ensures start <= bs[k].addr && bs[k].End() == bs[k + 1].addr && bs[k + 1].End() <= end
  {
    TilesRange(bs, start, end, k);
    TilesRange(bs, start, end, k + 1);
  }

  lemma NullIsEnd(bs: seq<Block>, start: nat, end: nat, k: nat)
    requires Tiles(bs, start, end) && start > 0 && k <= |bs| && AddrAt(bs, k) == 0
    ensures k == |bs|
  {
    if k < |bs| { TilesRange(bs, start, end, k); }
  }

  /** At the last block the merging is done. */
  lemma MergeLast(bs: seq<Block>, start: nat, end: nat, k: nat)
    requires Tiles(bs, start, end) && start > 0 && k < |bs| && AddrAt(bs, k + 1) == 0
    ensures bs[..k] + Merge(bs[k..]) == bs
  {
    if k + 1 < |bs| { TilesRange(bs, start, end, k + 1); }
  }

  lemma SamePayloadRefl(m: Words, live: set<Block>)
    ensures SamePayload(m, m, live)
  {
  }

  lemma SamePayloadTrans(m: Words, m': Words, m'': Words, live: set<Block>)
    requires SamePayload(m, m', live) && SamePayload(m', m'', live)
    ensures SamePayload(m, m'', live)
  {
  }

  lemma KeepsCover(m: Words, m': Words, start: nat, end: nat)
    requires Covers(m, start, end) && m.Keys <= m'.Keys
    ensures Covers(m', start, end)
  {
  }

  /** kmalloc's split followed by its allocation mark. */
  lemma SplitThenMark(bs: seq<Block>, k: nat, n: nat)
    requires k < |bs| && n <= bs[k].size && bs[k].free
    ensures var c := SplitAt(bs, k, n);
            |c| > k && c[k].addr == bs[k].addr && c[k].free == bs[k].free && AllocAt(bs, k, n) == c[k := c[k].(free := false)]
  {
  }

  class KernelHeap {
    const start: uint32
    const heapSize: uint32
    var mem: Words
    ghost var blocks: seq<Block>

    ghost predicate Shape()
      reads this
    {
      && 28 <= start && start % 4 == 0 && start + heapSize < WORD
      && Tiles(blocks, start, start + heapSize) && AllAligned(blocks)
      && Covers(mem, start, start + heapSize) && Linked(mem, blocks)
    }

    ghost predicate Valid()
      reads this
    {
      Shape() && NoTwoFree(blocks)
    }

    /** kmalloc_init */
    constructor (heapStart: uint32, size: uint32)
      requires 28 <= heapStart && heapStart % 4 == 0 && 12 <= size && heapStart + size < WORD
      ensures Valid() && start == heapStart && heapSize == size && blocks == [Block(start, size - 12, true)]
    {
      start, heapSize := heapStart, size;
      mem := (map a: nat | heapStart <= a < heapStart + size && a % 4 == 0 :: 0)
             [heapStart := size - 12][heapStart + 4 := 1][heapStart + 8 := 0];
      blocks := [Block(heapStart, size - 12, true)];
    }

    /** find_free_block: the address of the first fit, or null. */
    method FindFreeBlock(size: uint32) returns (block: uint32)
      requires Shape()
      ensures block == AddrAt(blocks, FirstFit(blocks, size))
    {
      hide AllAligned, Covers;
      block := start;
      ghost var k: nat := 0;
      while block != 0
        invariant k <= |blocks| && block == AddrAt(blocks, k)
        invariant forall i | 0 <= i < k :: !(blocks[i].free && blocks[i].size >= size)
        decreases |blocks| - k
      {
        assert HeaderOk(mem, blocks, k);
        if mem[block + 4] != 0 && mem[block] >= size {
          FirstFitUnique(blocks, size, k);
          return;
        }
        block := mem[block + 8];
        k := k + 1;
      }
      NullIsEnd(blocks, start, start + heapSize, k);
      FirstFitUnique(blocks, size, |blocks|);
    }

    /** split_block */
    method SplitBlock(block: uint32, size: uint32, ghost k: nat)
      requires Shape() && k < |blocks| && block == blocks[k].addr && blocks[k].free && size <= blocks[k].size &&
          size % 4 == 0
      modifies this
      ensures Shape() && blocks == SplitAt(old(blocks), k, size) && Live(blocks) == Live(old(blocks))
      ensures SamePayload(old(mem), mem, Live(old(blocks)))
    {
      hide Live, Tiles, SplitAt, SamePayload, SameOutside, Linked, AllAligned, Covers;
      SamePayloadRefl(mem, Live(blocks));
      SplitSmall(blocks, k, size);
      HeaderAt(mem, blocks, k);
      TilesRange(blocks, start, start + heapSize, k);
      if mem[block] >= Wrap32(size + 12 + 16) {
        var newBlock := block + 12 + size;
        mem := mem[newBlock := mem[block] - size - 12];
        mem := mem[newBlock + 4 := 1];
        mem := mem[newBlock + 8 := mem[block + 8]];
        mem := mem[block := size];
        mem := mem[block + 8 := newBlock];
        SplitWritten(old(mem), mem, start, start + heapSize, blocks, k, size);
        SplitShape(blocks, start, start + heapSize, k, size);
        FreeWrite(blocks, start, start + heapSize, k, old(mem), mem);
        blocks := SplitAt(blocks, k, size);
      }
    }

    /** One round of merge_free_blocks: join block k with the next one, or step over it. */
    method MergeStep(current: nat, ghost k: nat) returns (next: nat, ghost k': nat)
      requires Shape() && k < |blocks| && current == blocks[k].addr && current + 8 in mem && mem[current + 8] != 0
      modifies this
      ensures Shape() && k' < |blocks| && next == blocks[k'].addr && |blocks| - k' < |old(blocks)| - k
      ensures old(blocks)[..k] + Merge(old(blocks)[k..]) == blocks[..k'] + Merge(blocks[k'..])
      ensures Live(blocks) == Live(old(blocks)) && SamePayload(old(mem), mem, Live(blocks)) && mem.Keys == old(mem.Keys)
    {
      hide Live, Merge, SamePayload, AllAligned, Tiles, JoinAt, SameOutside, Linked;
      HeaderAt(mem, blocks, k);
      assert k + 1 < |blocks|;
      HeaderAt(mem, blocks, k + 1);
      Neighbours(blocks, start, start + heapSize, k);
      next, k' := mem[current + 8], k;
      if mem[current + 4] != 0 && mem[next + 4] != 0 {
        mem := mem[current := mem[current] + 12 + mem[next]];
        mem := mem[current + 8 := mem[next + 8]];
        next := current;
        JoinIndex(blocks, k);
        JoinWritten(old(mem), mem, start, start + heapSize, blocks, k);
        JoinShape(blocks, start, start + heapSize, k);
        HeaderWrite(blocks, start, start + heapSize, k, old(mem), mem);
        blocks := JoinAt(blocks, k);
      } else {
        MergePast(blocks, k);
        SamePayloadRefl(mem, Live(blocks));
        k' := k + 1;
      }
    }

    /** merge_free_blocks */
    method MergeFreeBlocks()
      requires Shape()
      modifies this
      ensures Shape() && blocks == Merge(old(blocks))
      ensures Live(blocks) == Live(old(blocks)) && SamePayload(old(mem), mem, Live(blocks)) && mem.Keys == old(mem.Keys)
    {
      hide Live, Merge, SamePayload, AllAligned, Covers;
      var current: nat := start;
      ghost var k: nat := 0;
      assert blocks == blocks[..0] + blocks[0..];
      SamePayloadRefl(mem, Live(blocks));
      assert HeaderOk(mem, blocks, 0);
      while current != 0 && mem[current + 8] != 0
        invariant Shape() && k < |blocks| && current == blocks[k].addr && blocks[k].addr + 8 in mem
        invariant Merge(old(blocks)) == blocks[..k] + Merge(blocks[k..])
        invariant Live(blocks) == Live(old(blocks))
        invariant SamePayload(old(mem), mem, Live(blocks)) && mem.Keys == old(mem.Keys)
        decreases |blocks| - k
      {
        ghost var before := mem;
        current, k := MergeStep(current, k);
        SamePayloadTrans(old(mem), before, mem, Live(blocks));
        assert HeaderOk(mem, blocks, k);
      }
      assert HeaderOk(mem, blocks, k);
      TilesRange(blocks, start, start + heapSize, k);
      MergeLast(blocks, start, start + heapSize, k);
    }

    /** kmalloc: the lowest block that fits, or null when there is none. Nobody's data changes. */
    method Kmalloc(size: uint32) returns (ptr: uint32)
      requires Valid()
      modifies this
      ensures Valid() && blocks == Step(old(blocks), Malloc(size))
      ensures var k := FirstFit(old(blocks), Rounded(size));
              ptr == if size == 0 || k == |old(blocks)| then 0 else old(blocks)[k].Ptr()
      ensures SamePayload(old(mem), mem, Live(old(blocks)))
    {
      hide Live, SamePayload, Covers;
      SamePayloadRefl(mem, Live(blocks));
      if size == 0 {
        return 0;
      }
      var n := Rounded(size);
      RoundedAligned(size);
      var block := FindFreeBlock(n);
      ghost var k := FirstFit(blocks, n);
      if block == 0 {
        if k < |blocks| { TilesRange(blocks, start, start + heapSize, k); }
        return 0;
      }
      AllocKeeps(blocks, start, start + heapSize, n);
      ptr := MarkBlock(block, n, k);
    }

    /** The part of kmalloc behind the search. */
    method MarkBlock(block: uint32, n: uint32, ghost k: nat) returns (ptr: uint32)
      requires Shape() && k < |blocks| && block == blocks[k].addr && blocks[k].free && n <= blocks[k].size && n % 4 == 0
      requires WellFormed(AllocAt(blocks, k, n), start, start + heapSize)
      modifies this
      ensures Valid() && blocks == AllocAt(old(blocks), k, n) && ptr == block + 12
      ensures SamePayload(old(mem), mem, Live(old(blocks)))
    {
      hide Live, SamePayload, Covers;
      SplitBlock(block, n, k);
      ghost var before, split := mem, blocks;
      assert HeaderOk(mem, blocks, k);
      TilesRange(blocks, start, start + heapSize, k);
      SplitThenMark(old(blocks), k, n);
      mem := mem[block + 4 := 0];
      blocks := AllocAt(old(blocks), k, n);
      RelinkOne(before, mem, start, start + heapSize, split, blocks, k);
      HeaderWrite(split, start, start + heapSize, k, before, mem);
      SamePayloadTrans(old(mem), before, mem, Live(split));
      KeepsCover(before, mem, start, start + heapSize);
      ptr := block + 12;
    }

    /** kfree of a live pointer; freeing null does nothing. The data of the other blocks stays. */
    method Kfree(ptr: uint32)
      requires Valid() && (ptr != 0 ==> CanFree(blocks, ptr))
      modifies this
      ensures Valid() && blocks == if ptr == 0 then old(blocks) else Step(old(blocks), Free(ptr))
      ensures SamePayload(old(mem), mem, Live(blocks))
    {
      hide Live, SamePayload, Covers, Merge;
      SamePayloadRefl(mem, Live(blocks));
      if ptr == 0 {
        return;
      }
      ghost var k := IndexOf(blocks, ptr);
      FreeKeeps(blocks, start, start + heapSize, k);
      assert HeaderOk(mem, blocks, k);
      TilesRange(blocks, start, start + heapSize, k);
      var block := ptr - 12;
      mem := mem[block + 4 := 1];
      ghost var bs := blocks;
      blocks := bs[k := bs[k].(free := true)];
      RelinkOne(old(mem), mem, start, start + heapSize, bs, blocks, k);
      HeaderWrite(blocks, start, start + heapSize, k, old(mem), mem);
      KeepsCover(old(mem), mem, start, start + heapSize);
      ghost var marked := mem;
      MergeFreeBlocks();
      SamePayloadTrans(old(mem), marked, mem, Live(blocks));
    }

    /** The owner of a live block writes a word of it: the allocator's headers are not touched. */
    method Store(ghost b: Block, a: nat, x: uint32)
      requires Valid() && b in Live(blocks) && b.Ptr() <= a < b.End() && a % 4 == 0 && a in mem
      modifies `mem
      ensures Valid() && mem == old(mem)[a := x]
    {
      ghost var m := mem[a := x];
      forall k | 0 <= k < |blocks| ensures HeaderOk(m, blocks, k) {
        HeaderAt(mem, blocks, k);
        HeaderApart(blocks, start, start + heapSize, k, b, a);
      }
      mem := mem[a := x];
    }

    /** kmalloc_stats: used and free bytes, headers included, add up to the heap. */
    method KmallocStats() returns (total: uint32, used: uint32, freeMem: uint32)
      requires Valid()
      ensures total == heapSize == used + freeMem
      ensures used == Sum(blocks, false) && freeMem == Sum(blocks, true)
    {
      hide AllAligned, Covers, NoTwoFree;
      total, used, freeMem := heapSize, 0, 0;
      var current := start;
      ghost var k: nat := 0;
      while current != 0
        invariant k <= |blocks| && current == AddrAt(blocks, k)
        invariant used == Sum(blocks[..k], false) && freeMem == Sum(blocks[..k], true)
        invariant used + freeMem == (if k == 0 then start else blocks[k - 1].End()) - start
        decreases |blocks| - k
      {
        assert HeaderOk(mem, blocks, k);
        TilesRange(blocks, start, start + heapSize, k);
        assert blocks[..k + 1][..k] == blocks[..k];
        if mem[current + 4] != 0 {
          freeMem := freeMem + (mem[current] + 12);
        } else {
          used := used + (mem[current] + 12);
        }
        current := mem[current + 8];
        k := k + 1;
      }
      NullIsEnd(blocks, start, start + heapSize, k);
      assert blocks[..k] == blocks;
    }
  }
}
