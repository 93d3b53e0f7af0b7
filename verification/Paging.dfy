/** The two-level page tables of src/mm/paging.c over the frame allocator. Physical memory is a
    sequence of frames of 1024 words; an entry is frame * 4096 + flags, and flag bit 0 is PAGE_PRESENT. */
module Paging {
  import opened Common
  import opened Pmm
  import opened Bits

  const ENTRIES := 1024
  /** Directory entries from here on map the kernel and are shared by all address spaces. */
  const KERNEL_ENTRIES := 768

  type Page = p: seq<uint32> | |p| == 1024 witness seq(1024, _ => 0)
  type Memory = m: seq<Page> | |m| == 0x10_0000 witness seq<Page>(0x10_0000, _ => ZERO_PAGE)

  const ZERO_PAGE: Page := seq(1024, _ => 0)

  function Flags(entry: uint32): (flags: nat)
    ensures flags < 4096
  {
    entry % 4096
  }

  /** entry & PAGE_PRESENT */
  predicate Present(entry: uint32) {
    Flags(entry) % 2 == 1
  }

  /** (frame address) | flags, for flags of at most 12 bits. */
  function Entry(frame: nat, flags: nat): (e: uint32)
    requires frame < FRAMES && flags < 4096
    ensures Target(e) == frame && Flags(e) == flags
    ensures Present(e) <==> flags % 2 == 1
  {
    frame * 4096 + flags
  }

  /** frame | flags, where the flags may have bits above the 12 that an entry sets aside for them */
  function FrameWith(frame: nat, flags: uint32): (f: nat)
    requires frame < FRAMES
    ensures f < FRAMES
    ensures f == frame <==> Covers(frame, flags / 4096)
    ensures forall k: nat | k < 20 :: Bit(f, k) <==> Bit(frame, k) || Bit(flags / 4096, k)
  {
    assert Pow2(20) == FRAMES by { assert Pow2(10) == 1024; }
    OrWidth(frame, flags / 4096, 20);
    OrKeeps(frame, flags / 4096);
    assert forall k: nat | k < 20 :: Bit(Or(frame, flags / 4096), k) <==> Bit(frame, k) || Bit(flags / 4096, k) by {
      forall k: nat | k < 20 { OrBits(frame, flags / 4096, k); }
    }
    Or(frame, flags / 4096)
  }

  /** flags | PAGE_PRESENT */
  function WithPresent(flags: nat): (r: nat)
    requires flags < 4096
    ensures r < 4096 && r % 2 == 1 && r / 2 == flags / 2
  {
    flags / 2 * 2 + 1
  }

  // ---------------------------------------------------------------- one address space as a map

  /** The entry that address space `dir` holds for page number v; 0 where it has no page table. */
  function Lookup(mem: Memory, dir: nat, v: nat): uint32
    requires dir < FRAMES && v < FRAMES
  {
    var e := mem[dir][v / 1024];
    if Present(e) then mem[Target(e)][v % 1024] else 0
  }

  /** Tables are not shared within the directory, and none of them is the directory itself. */
  ghost predicate WellFormed(mem: Memory, dir: nat)
    requires dir < FRAMES
  {
    && (forall i | 0 <= i < 1024 && Present(mem[dir][i]) :: Target(mem[dir][i]) != dir)
    && (forall i, k | 0 <= i < k < 1024 && Present(mem[dir][i]) && Present(mem[dir][k]) ::
          Target(mem[dir][i]) != Target(mem[dir][k]))
  }

  function SetWord(mem: Memory, frame: nat, k: nat, x: uint32): Memory
    requires frame < FRAMES && k < 1024
  {
    mem[frame := mem[frame][k := x]]
  }

  /** Writing one table entry changes the translation of one page only. */
  lemma SetEntryLookup(mem: Memory, dir: nat, v: nat, x: uint32)
    requires dir < FRAMES && v < FRAMES && WellFormed(mem, dir) && Present(mem[dir][v / 1024])
    ensures var mem' := SetWord(mem, Target(mem[dir][v / 1024]), v % 1024, x);
            && WellFormed(mem', dir)
            && forall u: nat | u < FRAMES :: Lookup(mem', dir, u) == if u == v then x else Lookup(mem, dir, u)
  {
    var mem' := SetWord(mem, Target(mem[dir][v / 1024]), v % 1024, x);
    assert mem'[dir] == mem[dir];
    forall u: nat | u < FRAMES
      ensures Lookup(mem', dir, u) == if u == v then x else Lookup(mem, dir, u)
    {
      assert u == u / 1024 * 1024 + u % 1024;
    }
  }

  /** A new, cleared table adds no mapping. */
  lemma AddTableLookup(mem: Memory, mem': Memory, dir: nat, i: nat, table: nat)
    requires dir < FRAMES && i < 1024 && table < FRAMES && WellFormed(mem, dir) && !Present(mem[dir][i])
    requires table != dir && forall k | 0 <= k < 1024 && Present(mem[dir][k]) :: Target(mem[dir][k]) != table
    requires mem'[dir] == mem[dir][i := Entry(table, 3)]
    requires forall j | 0 <= j < 1024 :: mem'[table][j] == 0
    requires forall f: nat | f < FRAMES && f != dir && f != table :: mem'[f] == mem[f]
    ensures WellFormed(mem', dir)
    ensures forall u: nat | u < FRAMES :: Lookup(mem', dir, u) == Lookup(mem, dir, u)
  {
  }

  // ---------------------------------------------------------------- the frames of an address space

  ghost function Elems(s: seq<nat>): set<nat> {
    set x | x in s
  }

  /** The frames of the pages that the first n entries of a table map. */
  ghost function TablePages(table: Page, n: nat): seq<nat>
    requires n <= 1024
  {
    if n == 0 then [] else TablePages(table, n - 1) + if Present(table[n - 1]) then [Target(table[n - 1])] else []
  }

  /** The frames of the tables and pages below the first n directory entries. */
  ghost function DirFrames(mem: Memory, dir: Page, n: nat): seq<nat>
    requires n <= KERNEL_ENTRIES
  {
    if n == 0 then [] else
    DirFrames(mem, dir, n - 1) +
    if Present(dir[n - 1]) then TablePages(mem[Target(dir[n - 1])], 1024) + [Target(dir[n - 1])] else []
  }

  /** Everything that belongs to the user half of an address space: pages, tables and the directory. */
  ghost function Owned(mem: Memory, dir: nat): seq<nat>
    requires dir < FRAMES
  {
    DirFrames(mem, mem[dir], KERNEL_ENTRIES) + [dir]
  }

  lemma ElemsAppend(a: seq<nat>, x: nat)
    ensures Elems(a + [x]) == Elems(a) + {x}
  {
  }

  lemma PagesEmpty(table: Page)
    ensures TablePages(table, 0) == [] && Elems(TablePages(table, 0)) == {}
  {
  }

  lemma PagesStep(table: Page, j: nat)
    requires j < 1024
    ensures TablePages(table, j + 1) == TablePages(table, j) + if Present(table[j]) then [Target(table[j])] else []
    ensures Elems(TablePages(table, j + 1)) ==
              Elems(TablePages(table, j)) + if Present(table[j]) then {Target(table[j])} else {}
  {
  }

  lemma DirEmpty(mem: Memory, dir: Page)
    ensures DirFrames(mem, dir, 0) == [] && Elems(DirFrames(mem, dir, 0)) == {}
  {
  }

  lemma DirStep(mem: Memory, dir: Page, i: nat)
    requires i < KERNEL_ENTRIES
    ensures DirFrames(mem, dir, i + 1) == DirFrames(mem, dir, i) +
              if Present(dir[i]) then TablePages(mem[Target(dir[i])], 1024) + [Target(dir[i])] else []
    ensures Elems(DirFrames(mem, dir, i + 1)) == Elems(DirFrames(mem, dir, i)) +
              if Present(dir[i]) then Elems(TablePages(mem[Target(dir[i])], 1024)) + {Target(dir[i])} else {}
  {
  }

  lemma {:induction false} PagesPrefix(table: Page, other: Page, n: nat)
    requires n <= 1024 && forall k | 0 <= k < n :: table[k] == other[k]
    ensures TablePages(table, n) == TablePages(other, n)
  {
    if n > 0 {
      PagesPrefix(table, other, n - 1);
    }
  }

  lemma {:induction false} PagesHave(table: Page, n: nat, k: nat)
    requires k < n <= 1024 && Present(table[k])
    ensures Target(table[k]) in Elems(TablePages(table, n))
    ensures Elems(TablePages(table, k + 1)) <= Elems(TablePages(table, n))
  {
    if k < n - 1 {
      PagesHave(table, n - 1, k);
    }
  }

  lemma {:induction false} DirPrefix(mem: Memory, dir: Page, mem': Memory, dir': Page, n: nat)
    requires n <= KERNEL_ENTRIES && forall k | 0 <= k < n :: dir[k] == dir'[k]
    requires forall k | 0 <= k < n && Present(dir[k]) :: mem[Target(dir[k])] == mem'[Target(dir[k])]
    ensures DirFrames(mem, dir, n) == DirFrames(mem', dir', n)
  {
    if n > 0 {
      DirPrefix(mem, dir, mem', dir', n - 1);
    }
  }

  lemma {:induction false} DirHas(mem: Memory, dir: Page, n: nat, k: nat)
    requires k < n <= KERNEL_ENTRIES && Present(dir[k])
    ensures Target(dir[k]) in Elems(DirFrames(mem, dir, n))
    ensures Elems(TablePages(mem[Target(dir[k])], 1024)) <= Elems(DirFrames(mem, dir, n))
  {
    if k < n - 1 {
      DirHas(mem, dir, n - 1, k);
    }
  }

  /** The first n entries of table d are a deep copy, in memory mem, of those of table s in memory mem0. */
  ghost predicate TableCopied(mem0: Memory, s: Page, mem: Memory, d: Page, n: nat)
    requires n <= 1024
  {
    forall k | 0 <= k < n ::
      if Present(s[k]) then
        Present(d[k]) && Flags(d[k]) == Flags(s[k]) && mem[Target(d[k])] == mem0[Target(s[k])]
      else
        d[k] == 0
  }

  /** The first n directory entries of d are a copy of those of s: deep below entry 768, shared from there on. */
  ghost predicate DirCopied(mem0: Memory, s: Page, mem: Memory, d: Page, n: nat)
    requires n <= 1024
  {
    forall k | 0 <= k < n ::
      if !Present(s[k]) then
        d[k] == 0
      else if k >= KERNEL_ENTRIES then
        d[k] == s[k]
      else
        && Present(d[k]) && Flags(d[k]) == Flags(s[k])
        && TableCopied(mem0, mem0[Target(s[k])], mem, mem[Target(d[k])], 1024)
  }

  /** Where the copy of table s stands after its first j entries: the copy is in frame t, its pages are in
      the frames `pages`, all different, and nothing else has changed. */
  ghost predicate TableState(mem0: Memory, s: Page, mem: Memory, t: nat, pages: set<nat>, j: nat)
    requires t < FRAMES && j <= 1024
  {
    && t !in pages
    && (forall f: nat | f < FRAMES && f !in pages && f != t :: mem[f] == mem0[f])
    && Elems(TablePages(mem[t], j)) == pages
    && |pages| == |TablePages(mem[t], j)| == |TablePages(s, j)|
    && TableCopied(mem0, s, mem, mem[t], j)
    && forall k | j <= k < 1024 :: mem[t][k] == 0
  }

  lemma TableStart(mem0: Memory, s: Page, mem: Memory, t: nat)
    requires t < FRAMES && mem == mem0[t := mem[t]] && forall k | 0 <= k < 1024 :: mem[t][k] == 0
    ensures TableState(mem0, s, mem, t, {}, 0)
  {
  }

  lemma TableFrame(mem0: Memory, s: Page, mem: Memory, t: nat, pages: set<nat>, j: nat)
    requires t < FRAMES && j <= 1024 && TableState(mem0, s, mem, t, pages, j)
    ensures forall f: nat | f < FRAMES && f !in pages && f != t :: mem[f] == mem0[f]
    ensures |pages| == |TablePages(s, j)| && t !in pages
  {
  }

  lemma TableSkip(mem0: Memory, s: Page, mem: Memory, t: nat, pages: set<nat>, j: nat)
    requires t < FRAMES && j < 1024 && TableState(mem0, s, mem, t, pages, j) && !Present(s[j])
    ensures TableState(mem0, s, mem, t, pages, j + 1)
  {
    hide TablePages, Elems;
    PagesStep(mem[t], j);
    PagesStep(s, j);
  }

  lemma TableStep(mem0: Memory, s: Page, mem: Memory, t: nat, pages: set<nat>, j: nat, p: nat)
    requires t < FRAMES && j < 1024 && TableState(mem0, s, mem, t, pages, j) && Present(s[j])
    requires p < FRAMES && p != t && p !in pages && Target(s[j]) !in pages + {t, p}
    ensures var mem1 := mem[p := mem[Target(s[j])]];
            TableState(mem0, s, SetWord(mem1, t, j, Entry(p, Flags(s[j]))), t, pages + {p}, j + 1)
  {
    hide TablePages, Elems, Entry, Target;
    var mem1 := mem[p := mem[Target(s[j])]];
    var mem2 := SetWord(mem1, t, j, Entry(p, Flags(s[j])));
    PagesPrefix(mem[t], mem2[t], j);
    TableCopiedStable(mem0, s, mem, mem[t], mem2, mem2[t], j);
    PagesStep(mem2[t], j);
    PagesStep(s, j);
  }

  lemma {:induction false} PagesBound(table: Page, j: nat)
    requires j < 1024 && Present(table[j])
    ensures |TablePages(table, j)| < |TablePages(table, 1024)|
  {
    PagesMonotone(table, j + 1, 1024);
  }

  lemma {:induction false} PagesMonotone(table: Page, j: nat, n: nat)
    requires j <= n <= 1024
    ensures |TablePages(table, j)| <= |TablePages(table, n)|
  {
    if j < n {
      PagesMonotone(table, j, n - 1);
    }
  }

  lemma TableCopiedStable(mem0: Memory, s: Page, mem: Memory, d: Page, mem': Memory, d': Page, n: nat)
    requires n <= 1024 && TableCopied(mem0, s, mem, d, n)
    requires forall k | 0 <= k < n :: d[k] == d'[k]
    requires forall f | f in Elems(TablePages(d, n)) && f < FRAMES :: mem'[f] == mem[f]
    ensures TableCopied(mem0, s, mem', d', n)
  {
    forall k | 0 <= k < n && Present(s[k])
      ensures mem'[Target(d[k])] == mem[Target(d[k])]
    {
      PagesHave(d, n, k);
    }
  }

  function UserPart(n: nat): (m: nat)
    ensures m <= KERNEL_ENTRIES && (n <= KERNEL_ENTRIES ==> m == n)
  {
    if n < KERNEL_ENTRIES then n else KERNEL_ENTRIES
  }

  /** Where the clone of directory src stands after its first n entries: the new directory is frame d, the
      frames below it are `below`, all different, and nothing else has changed. */
  ghost predicate DirState(mem0: Memory, src: nat, mem: Memory, d: nat, below: set<nat>, n: nat)
    requires src < FRAMES && d < FRAMES && n <= 1024
  {
    && d !in below
    && (forall f: nat | f < FRAMES && f !in below && f != d :: mem[f] == mem0[f])
    && Elems(DirFrames(mem, mem[d], UserPart(n))) == below
    && |below| == |DirFrames(mem, mem[d], UserPart(n))| == |DirFrames(mem0, mem0[src], UserPart(n))|
    && DirCopied(mem0, mem0[src], mem, mem[d], n)
    && forall k | n <= k < 1024 :: mem[d][k] == 0
  }

  lemma DirStart(mem0: Memory, src: nat, mem: Memory, d: nat)
    requires src < FRAMES && d < FRAMES && mem == mem0[d := mem[d]] && forall k | 0 <= k < 1024 :: mem[d][k] == 0
    ensures DirState(mem0, src, mem, d, {}, 0)
  {
  }

  lemma DirFrame(mem0: Memory, src: nat, mem: Memory, d: nat, below: set<nat>, n: nat)
    requires src < FRAMES && d < FRAMES && n <= 1024 && DirState(mem0, src, mem, d, below, n)
    ensures forall f: nat | f < FRAMES && f !in below && f != d :: mem[f] == mem0[f]
    ensures |below| == |DirFrames(mem0, mem0[src], UserPart(n))| && d !in below
    ensures Elems(Owned(mem, d)) == below + {d} || n < KERNEL_ENTRIES
  {
    ElemsAppend(DirFrames(mem, mem[d], 768), d);
  }

  /** An entry without a table: nothing is written. */
  lemma DirSkip(mem0: Memory, src: nat, mem: Memory, d: nat, below: set<nat>, n: nat)
    requires src < FRAMES && d < FRAMES && n < 1024 && DirState(mem0, src, mem, d, below, n)
    requires !Present(mem0[src][n])
    ensures DirState(mem0, src, mem, d, below, n + 1)
  {
    hide Elems, TablePages, DirFrames, DirCopied, Target;
    assert mem[d][n] == 0;
    assert !Present(mem[d][n]);
    hide Flags, Present;
    DirSharedStep(mem0, mem0[src], mem, mem[d], n);
    if n < KERNEL_ENTRIES {
      DirStep(mem0, mem0[src], n);
      DirStep(mem, mem[d], n);
    }
  }

  /** An entry of the kernel's. */
  lemma DirShare(mem0: Memory, src: nat, mem: Memory, d: nat, below: set<nat>, n: nat)
    requires src < FRAMES && d < FRAMES && KERNEL_ENTRIES <= n < 1024 && DirState(mem0, src, mem, d, below, n)
    requires Present(mem0[src][n])
    ensures DirState(mem0, src, SetWord(mem, d, n, mem0[src][n]), d, below, n + 1)
  {
    hide Elems, TablePages, DirFrames, DirCopied, Target;
    var mem2 := SetWord(mem, d, n, mem0[src][n]);
    DirCopiedStable(mem0, mem0[src], mem, mem[d], mem2, mem2[d], n);
    DirSharedStep(mem0, mem0[src], mem2, mem2[d], n);
  }

  lemma DirSharedStep(mem0: Memory, s: Page, mem: Memory, d: Page, n: nat)
    requires n < 1024 && DirCopied(mem0, s, mem, d, n)
    requires !Present(s[n]) || n >= KERNEL_ENTRIES
    requires d[n] == if Present(s[n]) then s[n] else 0
    ensures DirCopied(mem0, s, mem, d, n + 1)
  {
  }

  /** An entry whose table has been copied to frame t. */
  lemma DirCopyStep(mem0: Memory, src: nat, mem: Memory, d: nat, below: set<nat>, n: nat,
                    mem1: Memory, t: nat, pages: set<nat>)
    requires src < FRAMES && d < FRAMES && n < KERNEL_ENTRIES && DirState(mem0, src, mem, d, below, n)
    requires Present(mem0[src][n]) && t < FRAMES
    requires var s := Target(mem0[src][n]);
             && mem[s] == mem0[s] && TableState(mem, mem0[s], mem1, t, pages, 1024)
             && (forall f | f in Elems(TablePages(mem0[s], 1024)) && f < FRAMES :: mem[f] == mem0[f])
    requires t != d && t !in below && d !in pages && pages !! below
    ensures DirState(mem0, src, SetWord(mem1, d, n, Entry(t, Flags(mem0[src][n]))), d, below + pages + {t}, n + 1)
  {
    hide Elems, TablePages, DirFrames, DirCopied, TableCopied, Entry, Target, Flags;
    var s := Target(mem0[src][n]);
    var mem2 := SetWord(mem1, d, n, Entry(t, Flags(mem0[src][n])));
    DirCopiedStable(mem0, mem0[src], mem, mem[d], mem2, mem2[d], n);
    DirStep(mem0, mem0[src], n);
    DirStep(mem2, mem2[d], n);
    assert mem2[t] == mem1[t];
    TableCopiedAgain(mem, mem0, mem0[s], mem1, mem1[t], mem2, pages);
    DirCopiedStep(mem0, mem0[src], mem2, mem2[d], n);
  }

  lemma TableCopiedAgain(mem: Memory, mem0: Memory, s: Page, mem1: Memory, t: Page, mem2: Memory, pages: set<nat>)
    requires TableCopied(mem, s, mem1, t, 1024) && Elems(TablePages(t, 1024)) == pages
    requires forall f | f in Elems(TablePages(s, 1024)) && f < FRAMES :: mem[f] == mem0[f]
    requires forall f: nat | f < FRAMES && f in pages :: mem2[f] == mem1[f]
    ensures TableCopied(mem0, s, mem2, t, 1024)
  {
    hide Elems, TablePages, Target, Flags;
    forall k | 0 <= k < 1024 && Present(s[k])
      ensures mem2[Target(t[k])] == mem0[Target(s[k])]
    {
      PagesHave(s, 1024, k);
      PagesHave(t, 1024, k);
    }
  }

  lemma DirCopiedStep(mem0: Memory, s: Page, mem: Memory, d: Page, n: nat)
    requires n < KERNEL_ENTRIES && DirCopied(mem0, s, mem, d, n)
    requires Present(s[n]) && Present(d[n]) && Flags(d[n]) == Flags(s[n])
    requires TableCopied(mem0, mem0[Target(s[n])], mem, mem[Target(d[n])], 1024)
    ensures DirCopied(mem0, s, mem, d, n + 1)
  {
  }

  lemma DirCopiedStable(mem0: Memory, s: Page, mem: Memory, d: Page, mem': Memory, d': Page, n: nat)
    requires n <= 1024 && DirCopied(mem0, s, mem, d, n)
    requires forall k | 0 <= k < n :: d[k] == d'[k]
    requires forall f | f in Elems(DirFrames(mem, d, if n < 768 then n else 768)) && f < FRAMES :: mem'[f] == mem[f]
    ensures DirCopied(mem0, s, mem', d', n)
    ensures var m := if n < 768 then n else 768; DirFrames(mem', d', m) == DirFrames(mem, d, m)
  {
    var m := if n < 768 then n else 768;
    forall k | 0 <= k < m && Present(d[k])
      ensures mem'[Target(d[k])] == mem[Target(d[k])]
      ensures Present(s[k]) ==> TableCopied(mem0, mem0[Target(s[k])], mem', mem'[Target(d[k])], 1024)
    {
      DirHas(mem, d, m, k);
      if Present(s[k]) {
        TableCopiedStable(mem0, mem0[Target(s[k])], mem, mem[Target(d[k])], mem', mem'[Target(d[k])], 1024);
      }
    }
    DirPrefix(mem, d, mem', d', m);
  }

  /** The entry of directory `dir` at which a clone runs out that has `a` frames for tables and pages. */
  ghost function StuckAt(mem: Memory, dir: Page, n: nat, a: nat): (i: nat)
    requires n <= KERNEL_ENTRIES && a < |DirFrames(mem, dir, n)|
    ensures i < n && |DirFrames(mem, dir, i)| <= a < |DirFrames(mem, dir, i + 1)|
  {
    if |DirFrames(mem, dir, n - 1)| <= a then n - 1 else StuckAt(mem, dir, n - 1, a)
  }

  /** How many frames such a clone loses: whatever is left at that entry, less the one for the table. */
  ghost function Leak(mem: Memory, dir: Page, a: nat): nat
    requires a < |DirFrames(mem, dir, KERNEL_ENTRIES)|
  {
    var left := a - |DirFrames(mem, dir, StuckAt(mem, dir, KERNEL_ENTRIES, a))|;
    if left == 0 then 0 else left - 1
  }

  lemma StuckOnce(mem: Memory, dir: Page, i: nat, a: nat)
    requires i < KERNEL_ENTRIES && |DirFrames(mem, dir, i)| <= a < |DirFrames(mem, dir, i + 1)|
    ensures a < |DirFrames(mem, dir, KERNEL_ENTRIES)| && StuckAt(mem, dir, KERNEL_ENTRIES, a) == i
  {
    hide DirFrames, StuckAt;
    DirTail(mem, dir, i + 1, 768);
    var k := StuckAt(mem, dir, KERNEL_ENTRIES, a);
    if k < i {
      DirTail(mem, dir, k + 1, i);
    } else if k > i {
      DirTail(mem, dir, i + 1, k);
    }
  }

  /** What the clone reads at entry i lies in the frames of the source. */
  lemma SrcReserved(mem: Memory, src: nat, i: nat)
    requires src < FRAMES && i < 1024
    ensures src in Elems(Owned(mem, src))
    ensures i < KERNEL_ENTRIES && Present(mem[src][i]) ==>
              && Target(mem[src][i]) in Elems(Owned(mem, src))
              && Elems(TablePages(mem[Target(mem[src][i])], 1024)) <= Elems(Owned(mem, src))
  {
    ElemsAppend(DirFrames(mem, mem[src], 768), src);
    if i < KERNEL_ENTRIES && Present(mem[src][i]) {
      DirHas(mem, mem[src], 768, i);
    }
  }

  lemma {:induction false} DirTail(mem: Memory, dir: Page, i: nat, n: nat)
    requires i <= n <= KERNEL_ENTRIES
    ensures |DirFrames(mem, dir, i)| <= |DirFrames(mem, dir, n)|
    ensures (forall k | i <= k < n :: dir[k] == 0) ==> DirFrames(mem, dir, n) == DirFrames(mem, dir, i)
  {
    if i < n {
      DirTail(mem, dir, i, n - 1);
    }
  }

  /** When entry i cannot be copied, the new directory still owns just what was copied before. */
  lemma DirAbandon(mem0: Memory, src: nat, mem: Memory, d: nat, below: set<nat>, i: nat, mem1: Memory)
    requires src < FRAMES && d < FRAMES && i < KERNEL_ENTRIES && DirState(mem0, src, mem, d, below, i)
    requires Present(mem0[src][i])
    requires forall f | f in below + {d} && f < FRAMES :: mem1[f] == mem[f]
    ensures Elems(Owned(mem1, d)) == below + {d}
    ensures |DirFrames(mem0, mem0[src], i)| == |below|
    ensures |DirFrames(mem0, mem0[src], i + 1)| == |below| + 1 + |TablePages(mem0[Target(mem0[src][i])], 1024)|
  {
    DirCopiedStable(mem0, mem0[src], mem, mem[d], mem1, mem1[d], i);
    DirTail(mem1, mem1[d], i, 768);
    ElemsAppend(DirFrames(mem1, mem1[d], 768), d);
    DirStep(mem0, mem0[src], i);
  }

  /** The first n entries of table i map the pages from number 1024 * i onto themselves. */
  ghost predicate IdentityPart(table: Page, i: nat, n: nat)
    requires i < 1024 && n <= 1024
  {
    forall l | 0 <= l < n :: table[l] == Entry(i * 1024 + l, 3)
  }

  lemma IdentityLookup(mem: Memory, dir: nat, tables: nat, u: nat)
    requires dir < FRAMES && tables + 4 <= FRAMES && u < FRAMES
    requires forall k | 0 <= k < 1024 :: mem[dir][k] == if k < 4 then Entry(tables + k, 3) else 0
    requires forall f | tables <= f < tables + 4 :: IdentityPart(mem[f], f - tables, 1024)
    ensures Lookup(mem, dir, u) == if u < 4096 then Entry(u, 3) else 0
  {
    hide Entry;
    var i := u / 1024;
    assert u == i * 1024 + u % 1024 && i < 1024;
    if u < 4096 {
      assert mem[dir][i] == Entry(tables + i, 3);
      assert IdentityPart(mem[tables + i], i, 1024);
      assert mem[tables + i][u % 1024] == Entry(u, 3);
    }
  }

  /** The allocator never hands out a frame that is marked, or that lies beyond the bitmap. */
  predicate Reserved(used: set<nat>, f: nat) {
    f >= MAX_BLOCKS || f in used
  }

  /** After boot and n allocations the frames from 1 MB to 16 MB count as free but for the first n, also those
      of the kernel image, which the linker puts at 1 MB: the kernel's directory is reserved exactly if the
      allocations have passed it. */
  lemma ReservedAfterBoot(n: nat, f: nat)
    requires n <= 3840
    ensures Reserved(Holding(n), f) <==> f < 256 + n || 4096 <= f
  {
  }

  /** No frame that was in use has changed. */
  ghost predicate Kept(used: set<nat>, before: Memory, after: Memory) {
    forall f: nat | f < FRAMES && Reserved(used, f) :: after[f] == before[f]
  }

  /** The allocator has handed out exactly the frames `more` between two states of its bitmap. */
  ghost predicate Grown(used0: set<nat>, used1: set<nat>, more: set<nat>) {
    used1 == used0 + more && more !! used0 && forall f | f in more :: f < MAX_BLOCKS
  }

  lemma KeptThere(used: set<nat>, before: Memory, after: Memory, some: set<nat>)
    requires Kept(used, before, after) && some <= used
    ensures forall f | f in some && f < FRAMES :: after[f] == before[f]
  {
  }

  /** A clone in progress has written to its own frames only. */
  lemma KeptByClone(mem0: Memory, src: nat, mem: Memory, d: nat, below: set<nat>, n: nat, used: set<nat>, now: set<nat>)
    requires src < FRAMES && d < FRAMES && n <= 1024 && DirState(mem0, src, mem, d, below, n)
    requires Grown(used, now, below) && d in used && d < MAX_BLOCKS
    ensures Kept(used - {d}, mem0, mem) && used - {d} <= now
  {
    hide DirFrames, DirCopied, Elems;
  }

  /** A clone with `a` frames that fails at entry i, between memories m1 and m2. */
  lemma FailedAt(m0: Memory, src: nat, i: nat, used: set<nat>, more: set<nat>, m1: Memory, m2: Memory, a: nat)
    requires Kept(used, m0, m1) && Kept(more, m1, m2) && used <= more && src < FRAMES
    requires i < KERNEL_ENTRIES && |DirFrames(m0, m0[src], i)| <= a < |DirFrames(m0, m0[src], i + 1)|
    ensures Kept(used, m0, m2) && a < |DirFrames(m0, m0[src], KERNEL_ENTRIES)|
    ensures Leak(m0, m0[src], a) == var left := a - |DirFrames(m0, m0[src], i)|; if left == 0 then 0 else left - 1
  {
    StuckOnce(m0, m0[src], i, a);
  }

  lemma GrownNone(used: set<nat>)
    ensures Grown(used, used, {})
  {
  }

  lemma GrownTwice(used0: set<nat>, used1: set<nat>, used2: set<nat>, a: set<nat>, b: set<nat>)
    requires Grown(used0, used1, a) && Grown(used1, used2, b)
    ensures Grown(used0, used2, a + b) && a !! b && |a + b| == |a| + |b|
  {
  }

  lemma GrownOne(used0: set<nat>, used1: set<nat>, f: nat)
    requires used1 == used0 + {f} && f !in used0 && f < MAX_BLOCKS
    ensures Grown(used0, used1, {f})
  {
  }

  lemma GrownApart(used0: set<nat>, used1: set<nat>, more: set<nat>, some: set<nat>, d: nat)
    requires Grown(used0, used1, more) && forall f | f in some :: Reserved(used0, f) && f != d
    ensures used0 <= used1 && more <= used1 && forall f | f in some :: Reserved(used1, f) && f !in more + {d}
  {
  }

  lemma GrownOnly(used0: set<nat>, used1: set<nat>, f: nat, some: set<nat>)
    requires Grown(used0, used1, {f}) && forall x | x in some :: Reserved(used0, x)
    ensures used1 - {f} == used0 && f in used1 && f < MAX_BLOCKS
    ensures forall x | x in some :: Reserved(used1, x) && x != f
  {
  }

  lemma GrownLess(used0: set<nat>, used1: set<nat>, more: set<nat>, f: nat)
    requires Grown(used0, used1, more + {f}) && f !in more
    ensures Grown(used0, used1 - {f}, more) && f in used1 && f < MAX_BLOCKS
  {
  }

  /** A frame that was reserved stays so, and is not among the new ones. */
  lemma GrownKeeps(used0: set<nat>, used1: set<nat>, more: set<nat>)
    requires Grown(used0, used1, more)
    ensures forall f: nat | Reserved(used0, f) :: Reserved(used1, f) && f !in more
    ensures used0 <= used1 && more <= used1 && used1 <= used0 + more && used0 !! more
  {
  }

  lemma GrownRest(used0: set<nat>, used1: set<nat>, d: nat, below: set<nat>, lost: set<nat>)
    requires Grown(used0, used1, {d} + (below + lost)) && lost !! below + {d}
    ensures Grown(used0, used1 - (below + {d}), lost) && forall f | f in below + {d} :: f < MAX_BLOCKS
    ensures used0 <= used1 - (below + {d})
  {
  }

  /** Address space d of memory mem is an independent copy of address space src of memory mem0. */
  ghost predicate ClonedFrom(mem0: Memory, src: nat, mem: Memory, d: nat)
    requires src < FRAMES && d < FRAMES
  {
    && DirCopied(mem0, mem0[src], mem, mem[d], 1024)
    && (forall i, j | 0 <= i < j < |Owned(mem, d)| :: Owned(mem, d)[i] != Owned(mem, d)[j])
    && |Owned(mem, d)| == |Owned(mem0, src)|
    && forall f: nat | f < FRAMES && f !in Elems(Owned(mem, d)) :: mem[f] == mem0[f]
  }

  lemma OwnedSize(mem: Memory, d: nat)
    requires d < FRAMES
    ensures |Owned(mem, d)| == |DirFrames(mem, mem[d], KERNEL_ENTRIES)| + 1
  {
  }

  /** A list that has as many members as places repeats nothing. */
  lemma {:induction false} AllDifferent(s: seq<nat>)
    ensures |Elems(s)| <= |s|
    ensures |Elems(s)| == |s| ==> forall i, j | 0 <= i < j < |s| :: s[i] != s[j]
  {
    if s != [] {
      var t := s[..|s| - 1];
      AllDifferent(t);
      ElemsAppend(t, s[|s| - 1]);
      assert s == t + [s[|s| - 1]];
      if |Elems(s)| == |s| {
        assert s[|s| - 1] !in Elems(t);
      }
    }
  }

  lemma CloneDone(mem0: Memory, src: nat, mem: Memory, d: nat, below: set<nat>)
    requires src < FRAMES && d < FRAMES && DirState(mem0, src, mem, d, below, 1024)
    ensures ClonedFrom(mem0, src, mem, d)
    ensures Elems(Owned(mem, d)) == below + {d} && |Owned(mem, d)| == |Owned(mem0, src)| == |below| + 1
  {
    hide Elems, DirFrames, DirCopied;
    ElemsAppend(DirFrames(mem, mem[d], 768), d);
    AllDifferent(Owned(mem, d));
  }

  // ---------------------------------------------------------------- what a process sees after a clone

  predicate UserPage(v: nat) {
    v / 1024 < KERNEL_ENTRIES
  }

  /** The mapped pages of the copy, their flags and their contents are those of the source. */
  lemma CloneReads(mem0: Memory, src: nat, mem: Memory, d: nat, v: nat)
    requires src < FRAMES && d < FRAMES && v < FRAMES && ClonedFrom(mem0, src, mem, d)
    ensures UserPage(v) ==>
              var e0 := Lookup(mem0, src, v); var e := Lookup(mem, d, v);
              && (Present(e) <==> Present(e0))
              && (Present(e) ==> Flags(e) == Flags(e0) && mem[Target(e)] == mem0[Target(e0)])
    ensures !UserPage(v) && Target(mem0[src][v / 1024]) !in Elems(Owned(mem, d)) ==>
              Lookup(mem, d, v) == Lookup(mem0, src, v)
  {
    hide Elems, Owned, Target;
    var i := v / 1024;
    assert !Present(0);
    if UserPage(v) && Present(mem0[src][i]) {
      assert TableCopied(mem0, mem0[Target(mem0[src][i])], mem, mem[Target(mem[d][i])], 1024);
    }
  }

  /** The frame is one of the first n page tables of the directory, or a page of one of them. */
  ghost predicate InUserHalf(mem: Memory, dir: Page, n: nat, f: nat)
    requires n <= 1024
  {
    exists i: nat :: i < n && Present(dir[i]) && (f == Target(dir[i]) || InTable(mem[Target(dir[i])], 1024, f))
  }

  ghost predicate InTable(table: Page, n: nat, f: nat)
    requires n <= 1024
  {
    exists k: nat :: k < n && Present(table[k]) && f == Target(table[k])
  }

  lemma {:induction false} PagesAre(table: Page, n: nat, f: nat)
    requires n <= 1024
    ensures f in TablePages(table, n) <==> InTable(table, n, f)
  {
    if n > 0 { PagesAre(table, n - 1, f); }
  }

  lemma {:induction false} FramesAre(mem: Memory, dir: Page, n: nat, f: nat)
    requires n <= KERNEL_ENTRIES
    ensures f in DirFrames(mem, dir, n) <==> InUserHalf(mem, dir, n, f)
  {
    hide TablePages, InTable, Target;
    if n > 0 {
      FramesAre(mem, dir, n - 1, f);
      PagesAre(mem[Target(dir[n - 1])], 1024, f);
    }
  }

  /** What an address space owns: its directory, the page tables of the 768 entries below 3 GB and the pages they
      map, and nothing else. */
  lemma OwnedExactly(mem: Memory, d: nat, f: nat)
    requires d < FRAMES
    ensures f in Elems(Owned(mem, d)) <==> f == d || InUserHalf(mem, mem[d], 768, f)
  {
    ElemsAppend(DirFrames(mem, mem[d], 768), d);
    FramesAre(mem, mem[d], 768, f);
    hide DirFrames, InUserHalf;
  }

  /** The frames that a user access of address space d reads or writes all belong to d. */
  lemma AccessOwned(mem: Memory, d: nat, v: nat)
    requires d < FRAMES && v < FRAMES && UserPage(v)
    ensures d in Elems(Owned(mem, d))
    ensures Present(mem[d][v / 1024]) ==> Target(mem[d][v / 1024]) in Elems(Owned(mem, d))
    ensures Present(Lookup(mem, d, v)) ==> Target(Lookup(mem, d, v)) in Elems(Owned(mem, d))
  {
    hide Elems, Owned, Target, DirFrames, TablePages;
    SrcReserved(mem, d, v / 1024);
    assert !Present(0);
    if Present(Lookup(mem, d, v)) {
      PagesHave(mem[Target(mem[d][v / 1024])], 1024, v % 1024);
    }
  }

  /** A write through one user space is never seen in another one that shares no frame with it. */
  lemma WriteIsolation(mem: Memory, a: nat, b: nat, v: nat, k: nat, x: uint32, u: nat)
    requires a < FRAMES && b < FRAMES && v < FRAMES && u < FRAMES && k < 1024 && UserPage(v) && UserPage(u)
    requires Elems(Owned(mem, a)) !! Elems(Owned(mem, b)) && Present(Lookup(mem, a, v))
    ensures var mem' := SetWord(mem, Target(Lookup(mem, a, v)), k, x);
            && Lookup(mem', b, u) == Lookup(mem, b, u)
            && (Present(Lookup(mem, b, u)) ==> mem'[Target(Lookup(mem, b, u))] == mem[Target(Lookup(mem, b, u))])
  {
    hide Elems, Owned, Target;
    AccessOwned(mem, a, v);
    AccessOwned(mem, b, u);
  }

  /** The source of a clone keeps its frames, and the copy shares none of them. */
  lemma CloneDisjoint(mem0: Memory, src: nat, mem: Memory, d: nat, used0: set<nat>, used1: set<nat>)
    requires src < FRAMES && d < FRAMES && ClonedFrom(mem0, src, mem, d)
    requires Grown(used0, used1, Elems(Owned(mem, d)))
    requires forall f | f in Elems(Owned(mem0, src)) :: Reserved(used0, f)
    ensures Owned(mem, src) == Owned(mem0, src) && Elems(Owned(mem, src)) !! Elems(Owned(mem, d))
    ensures forall f: nat | f < FRAMES && f in Elems(Owned(mem0, src)) :: mem[f] == mem0[f]
  {
    hide Elems, DirFrames, Target, Owned;
    GrownKeeps(used0, used1, Elems(Owned(mem, d)));
    SrcReserved(mem0, src, 0);
    forall k | 0 <= k < KERNEL_ENTRIES && Present(mem0[src][k])
      ensures mem0[Target(mem0[src][k])] == mem[Target(mem0[src][k])]
    {
      SrcReserved(mem0, src, k);
    }
    DirPrefix(mem0, mem0[src], mem, mem[src], KERNEL_ENTRIES);
    OwnedSame(mem0, mem, src);
  }

  lemma OwnedSame(mem0: Memory, mem: Memory, d: nat)
    requires d < FRAMES
    requires DirFrames(mem0, mem0[d], KERNEL_ENTRIES) == DirFrames(mem, mem[d], KERNEL_ENTRIES)
    ensures Owned(mem0, d) == Owned(mem, d)
  {
  }

  class AddressSpaces {
    const pmm: FrameAllocator
    const kernelDirectory: nat
    var mem: Memory
    var currentDirectory: nat

    constructor (allocator: FrameAllocator, directoryFrame: nat, memory: Memory)
      requires directoryFrame < FRAMES
      ensures pmm == allocator && kernelDirectory == currentDirectory == directoryFrame && mem == memory
    {
      pmm, kernelDirectory, mem, currentDirectory := allocator, directoryFrame, memory, directoryFrame;
    }

    /** paging_init: the kernel directory and its four static tables map the first 16 MB onto itself. */
    method Init(tables: nat)
      requires kernelDirectory < FRAMES && tables + 4 <= FRAMES && !(tables <= kernelDirectory < tables + 4)
      modifies this
      ensures currentDirectory == kernelDirectory && WellFormed(mem, kernelDirectory)
      ensures forall u: nat | u < FRAMES ::
                Lookup(mem, kernelDirectory, u) == if u < 4096 then Entry(u, 3) else 0
    {
      hide Entry, Target, IdentityPart, Lookup;
      ClearFrame(kernelDirectory);
      for i := 0 to 4
        invariant forall k | 0 <= k < 1024 ::
                    mem[kernelDirectory][k] == if k < i then Entry(tables + k, 3) else 0
        invariant forall f | tables <= f < tables + i :: IdentityPart(mem[f], f - tables, 1024)
      {
        FillTable(tables + i, i);
        mem := SetWord(mem, kernelDirectory, i, Entry(tables + i, 3));
      }
      currentDirectory := kernelDirectory;
      forall u: nat | u < FRAMES
        ensures Lookup(mem, kernelDirectory, u) == if u < 4096 then Entry(u, 3) else 0
      {
        IdentityLookup(mem, kernelDirectory, tables, u);
      }
    }

    method FillTable(table: nat, i: nat)
      requires table < FRAMES && i < 4
      modifies `mem
      ensures mem == old(mem)[table := mem[table]] && IdentityPart(mem[table], i, 1024)
    {
      ClearFrame(table);
      for j := 0 to ENTRIES
        invariant mem == old(mem)[table := mem[table]] && IdentityPart(mem[table], i, j)
      {
        mem := SetWord(mem, table, j, Entry(i * 1024 + j, 3));
      }
    }

    ghost predicate Valid()
      reads this, pmm, pmm.memoryMap
    {
      pmm.Ready() && kernelDirectory < FRAMES && currentDirectory < FRAMES
    }

    /** What the callers of the mapping functions keep true of the current address space. */
    ghost predicate Mappable()
      requires Valid()
      reads this, pmm, pmm.memoryMap
    {
      && WellFormed(mem, currentDirectory)
      && Reserved(pmm.Used(), currentDirectory)
      && forall i | 0 <= i < 1024 && Present(mem[currentDirectory][i]) :: Reserved(pmm.Used(), Target(mem[currentDirectory][i]))
    }

    method ClearFrame(f: nat)
      requires f < FRAMES
      modifies `mem
      ensures mem == old(mem)[f := mem[f]]
      ensures forall k | 0 <= k < 1024 :: mem[f][k] == 0
    {
      for i := 0 to ENTRIES
        invariant mem == old(mem)[f := mem[f]]
        invariant forall k | 0 <= k < i :: mem[f][k] == 0
      {
        mem := SetWord(mem, f, i, 0);
      }
    }

    method CopyFrame(dst: nat, src: nat)
      requires dst < FRAMES && src < FRAMES && dst != src
      modifies `mem
      ensures mem == old(mem)[dst := old(mem)[src]]
    {
      for k := 0 to ENTRIES
        invariant mem == old(mem)[dst := mem[dst]]
        invariant mem[dst][..k] == old(mem)[src][..k]
      {
        mem := SetWord(mem, dst, k, mem[src][k]);
      }
      assert mem[dst] == old(mem)[src];
    }

    /** paging_get_page: the table frame that holds the entry of `virt`, made on demand if `create`. */
    method GetPage(virt: uint32, create: bool) returns (table: Option<nat>)
      requires Valid() && (create ==> Mappable())
      modifies `mem, pmm`usedBlocks, pmm.memoryMap
      ensures Valid() && pmm.Drift() == old(pmm.Drift())
      ensures var i := virt / 4096 / 1024; var cur := currentDirectory;
              if Present(old(mem)[cur][i]) || !create || old(pmm.Available()) == 0 then
                && mem == old(mem) && pmm.Used() == old(pmm.Used())
                && table == if Present(mem[cur][i]) then Some(Target(mem[cur][i])) else None
              else
                && table.Some? && table.value < MAX_BLOCKS && !Reserved(old(pmm.Used()), table.value)
                && pmm.Used() == old(pmm.Used()) + {table.value}
                && Present(mem[cur][i]) && Target(mem[cur][i]) == table.value
      ensures old(Mappable()) ==> Mappable()
      ensures old(Mappable()) ==>
                forall u: nat | u < FRAMES :: Lookup(mem, currentDirectory, u) == Lookup(old(mem), currentDirectory, u)
      ensures forall f: nat | f < FRAMES && f != currentDirectory && Reserved(old(pmm.Used()), f) :: mem[f] == old(mem)[f]
    {
      hide FrameAllocator.Drift, FrameAllocator.Used, FrameAllocator.Available, FrameAllocator.Free,
        FrameAllocator.Ready, MarkedSet, Frames, Lookup, WellFormed;
      var dirIndex := virt / 0x40_0000;
      assert dirIndex == virt / 4096 / 1024;
      if !Present(mem[currentDirectory][dirIndex]) {
        if !create {
          return None;
        }
        var addr := pmm.AllocBlock();
        if addr == 0 {
          return None;
        }
        var t := Target(addr);
        ClearFrame(t);
        mem := SetWord(mem, currentDirectory, dirIndex, Entry(t, 3));
        AddTableLookup(old(mem), mem, currentDirectory, dirIndex, t);
      }
      table := Some(Target(mem[currentDirectory][dirIndex]));
    }

    /** paging_map_page: afterwards page `virt` maps to the frame of `phys`, unless a table was needed
        and no frame was left; no other page's entry ever changes. Flags above bit 11 end up in the frame
        number, so the frame is that of `phys` exactly if it has those bits anyway. */
    method MapPage(phys: uint32, virt: uint32, flags: uint32)
      requires Valid() && Mappable()
      modifies `mem, pmm`usedBlocks, pmm.memoryMap
      ensures Valid() && Mappable() && pmm.Drift() == old(pmm.Drift())
      ensures var v := virt / 4096;
              var done := Present(old(mem)[currentDirectory][v / 1024]) || old(pmm.Available()) > 0;
              forall u: nat | u < FRAMES :: Lookup(mem, currentDirectory, u) ==
                if done && u == v then Entry(FrameWith(Target(phys), flags), WithPresent(flags % 4096))
                else Lookup(old(mem), currentDirectory, u)
      ensures forall f: nat | f < FRAMES && Reserved(old(pmm.Used()), f) && f != currentDirectory &&
                (forall i | 0 <= i < 1024 && Present(old(mem)[currentDirectory][i]) ::
                   f != Target(old(mem)[currentDirectory][i])) :: mem[f] == old(mem)[f]
    {
      var table := GetPage(virt, true);
      if table.Some? {
        var entry := Entry(FrameWith(Target(phys), flags), WithPresent(flags % 4096));
        SetEntryLookup(mem, currentDirectory, virt / 4096, entry);
        mem := SetWord(mem, table.value, virt / 4096 % 1024, entry);
      }
    }

    /** paging_unmap_page */
    method UnmapPage(virt: uint32)
      requires Valid() && Mappable()
      modifies `mem, pmm`usedBlocks, pmm.memoryMap
      ensures Valid() && Mappable() && pmm.Used() == old(pmm.Used()) && pmm.Drift() == old(pmm.Drift())
      ensures forall u: nat | u < FRAMES :: Lookup(mem, currentDirectory, u) ==
                if u == virt / 4096 then 0 else Lookup(old(mem), currentDirectory, u)
    {
      var table := GetPage(virt, false);
      if table.Some? {
        SetEntryLookup(mem, currentDirectory, virt / 4096, 0);
        mem := SetWord(mem, table.value, virt / 4096 % 1024, 0);
      }
    }

    /** paging_get_physical_address: 0 for an unmapped page. */
    method GetPhysicalAddress(virt: uint32) returns (phys: uint32)
      requires Valid()
      modifies `mem, pmm`usedBlocks, pmm.memoryMap
      ensures Valid() && mem == old(mem) && pmm.Used() == old(pmm.Used()) && pmm.Drift() == old(pmm.Drift())
      ensures var e := Lookup(mem, currentDirectory, virt / 4096);
              phys == if Present(e) then Target(e) * 4096 + virt % 4096 else 0
    {
      var table := GetPage(virt, false);
      if table.None? || !Present(mem[table.value][virt / 4096 % 1024]) {
        return 0;
      }
      phys := mem[table.value][virt / 4096 % 1024] / 4096 * 4096 + virt % 4096;
    }

    /** Mapping a page and translating an address inside it gives the same offset in the mapped frame. */
    method MapThenTranslate(phys: uint32, virt: uint32, flags: uint32, other: uint32) returns (p: uint32, q: uint32)
      requires Valid() && Mappable()
      requires Present(mem[currentDirectory][virt / 4096 / 1024]) || pmm.Available() > 0
      modifies `mem, pmm`usedBlocks, pmm.memoryMap
      ensures p == FrameWith(phys / 4096, flags) * 4096 + virt % 4096
      ensures other / 4096 != virt / 4096 ==>
                var e := Lookup(old(mem), currentDirectory, other / 4096);
                q == if Present(e) then Target(e) * 4096 + other % 4096 else 0
    {
      hide Lookup, WellFormed;
      MapPage(phys, virt, flags);
      p := GetPhysicalAddress(virt);
      q := GetPhysicalAddress(other);
    }

    /** One user table of paging_free_directory: its pages, then the table. */
    method FreeTable(entry: uint32)
      requires pmm.Valid() && Target(entry) < MAX_BLOCKS
      requires forall f | f in Elems(TablePages(mem[Target(entry)], 1024)) :: f < MAX_BLOCKS
      modifies pmm`usedBlocks, pmm.memoryMap
      ensures pmm.Valid() && pmm.Drift() == old(pmm.Drift())
      ensures pmm.Used() == old(pmm.Used()) - Elems(TablePages(mem[Target(entry)], 1024)) - {Target(entry)}
    {
      hide FrameAllocator.Drift, FrameAllocator.Used, FrameAllocator.Available, FrameAllocator.Free,
        FrameAllocator.Ready, MarkedSet, Frames, TablePages, Elems, Target;
      var table := mem[Target(entry)];
      PagesEmpty(table);
      for j := 0 to ENTRIES
        invariant pmm.Valid() && pmm.Drift() == old(pmm.Drift())
        invariant pmm.Used() == old(pmm.Used()) - Elems(TablePages(table, j))
      {
        PagesStep(table, j);
        if Present(table[j]) {
          PagesHave(table, 1024, j);
          pmm.FreeBlock(table[j]);
        }
      }
      pmm.FreeBlock(entry);
    }

    /** The loop of paging_free_directory over the user tables. */
    method FreeTables(dir: Page)
      requires pmm.Valid() && forall f | f in Elems(DirFrames(mem, dir, 768)) :: f < MAX_BLOCKS
      modifies pmm`usedBlocks, pmm.memoryMap
      ensures pmm.Valid() && pmm.Drift() == old(pmm.Drift())
      ensures pmm.Used() == old(pmm.Used()) - Elems(DirFrames(mem, dir, 768))
    {
      hide FrameAllocator.Drift, FrameAllocator.Used, FrameAllocator.Available, FrameAllocator.Free,
        FrameAllocator.Ready, MarkedSet, Frames, TablePages, DirFrames, Elems, Target;
      DirEmpty(mem, dir);
      for i := 0 to KERNEL_ENTRIES
        invariant pmm.Valid() && pmm.Drift() == old(pmm.Drift())
        invariant pmm.Used() == old(pmm.Used()) - Elems(DirFrames(mem, dir, i))
      {
        DirStep(mem, dir, i);
        if Present(dir[i]) {
          DirHas(mem, dir, 768, i);
          FreeTable(dir[i]);
        }
      }
    }

    /** paging_free_directory: releases exactly the frames of the user half and the directory itself. */
    method FreeDirectory(addr: uint32)
      requires pmm.Valid()
      requires addr != 0 && Target(addr) != kernelDirectory ==>
                 forall f | f in Elems(Owned(mem, Target(addr))) :: f < MAX_BLOCKS
      modifies pmm`usedBlocks, pmm.memoryMap
      ensures pmm.Valid() && pmm.Drift() == old(pmm.Drift())
      ensures pmm.Used() == old(pmm.Used()) -
                if addr == 0 || Target(addr) == kernelDirectory then {} else Elems(Owned(mem, Target(addr)))
    {
      hide FrameAllocator.Drift, FrameAllocator.Used, FrameAllocator.Available, FrameAllocator.Free,
        FrameAllocator.Ready, MarkedSet, Frames, TablePages, DirFrames, Elems, Target;
      if addr != 0 && Target(addr) != kernelDirectory {
        ElemsAppend(DirFrames(mem, mem[Target(addr)], 768), Target(addr));
        FreeTables(mem[Target(addr)]);
        pmm.FreeBlock(addr);
      }
    }

    /** One page of paging_clone_directory: a fresh frame with the same words, entered with the same flags. */
    method CopyPage(entry: uint32, table: nat, j: nat) returns (page: uint32)
      requires Valid() && table < FRAMES && j < 1024 && Reserved(pmm.Used(), Target(entry))
      modifies `mem, pmm`usedBlocks, pmm.memoryMap
      ensures Valid() && pmm.Drift() == old(pmm.Drift())
      ensures page == 0 <==> old(pmm.Available()) == 0
      ensures page == 0 ==> mem == old(mem) && pmm.Used() == old(pmm.Used()) && pmm.Available() == 0
      ensures page != 0 ==>
                && Grown(old(pmm.Used()), pmm.Used(), {Target(page)})
                && pmm.Available() == old(pmm.Available()) - 1
                && mem == SetWord(old(mem)[Target(page) := old(mem)[Target(entry)]], table, j,
                                  Entry(Target(page), Flags(entry)))
    {
      hide FrameAllocator.Drift, FrameAllocator.Used, FrameAllocator.Available, FrameAllocator.Free,
        FrameAllocator.Ready, MarkedSet, Frames;
      page := pmm.AllocBlock();
      if page != 0 {
        CopyFrame(Target(page), Target(entry));
        mem := SetWord(mem, table, j, Entry(Target(page), Flags(entry)));
      }
    }

    /** One round of the loop over a table's entries. */
    method CopyEntry(e: uint32, t: nat, j: nat, ghost mem0: Memory, ghost s: Page, ghost pages: set<nat>)
      returns (ok: bool, ghost more: set<nat>)
      requires Valid() && t < FRAMES && j < 1024 && TableState(mem0, s, mem, t, pages, j) && s[j] == e
      requires t in pmm.Used() && pages <= pmm.Used()
      requires Present(e) ==> Reserved(pmm.Used(), Target(e)) && Target(e) !in pages + {t}
      modifies `mem, pmm`usedBlocks, pmm.memoryMap
      ensures Valid() && pmm.Drift() == old(pmm.Drift())
      ensures Grown(old(pmm.Used()), pmm.Used(), more)
      ensures pmm.Available() == old(pmm.Available()) - |more|
      ensures ok ==> TableState(mem0, s, mem, t, pages + more, j + 1)
      ensures !ok ==> mem == old(mem) && more == {} && pmm.Available() == 0 && Present(e)
    {
      hide FrameAllocator.Drift, FrameAllocator.Used, FrameAllocator.Available, FrameAllocator.Free, FrameAllocator.Ready,
        MarkedSet, Frames, TablePages, Elems, Target, Present, Flags, Entry, SetWord, TableState, Grown;
      ok, more := true, {};
      GrownNone(pmm.Used());
      if Present(e) {
        TableFrame(mem0, s, mem, t, pages, j);
        var page := CopyPage(e, t, j);
        ok := page != 0;
        if ok {
          GrownKeeps(old(pmm.Used()), pmm.Used(), {Target(page)});
          TableStep(mem0, s, old(mem), t, pages, j, Target(page));
          more := {Target(page)};
        }
      } else {
        TableSkip(mem0, s, mem, t, pages, j);
        assert pages + more == pages;
      }
    }

    /** The loop of paging_clone_directory over one table: t is the new, cleared table. It stops early when
        no frame is left for a page. */
    method CopyPages(srcTable: nat, t: nat, ghost mem0: Memory) returns (ok: bool, ghost pages: set<nat>)
      requires Valid() && t < FRAMES && srcTable < FRAMES && t in pmm.Used() && t != srcTable
      requires Reserved(pmm.Used(), srcTable)
      requires forall f | f in Elems(TablePages(mem0[srcTable], 1024)) :: Reserved(pmm.Used(), f) && f != t
      requires TableState(mem0, mem0[srcTable], mem, t, {}, 0)
      modifies `mem, pmm`usedBlocks, pmm.memoryMap
      ensures Valid() && pmm.Drift() == old(pmm.Drift())
      ensures Grown(old(pmm.Used()), pmm.Used(), pages)
      ensures pmm.Available() == old(pmm.Available()) - |pages|
      ensures ok ==> TableState(mem0, mem0[srcTable], mem, t, pages, 1024)
      ensures !ok ==> pmm.Available() == 0 && |pages| < |TablePages(mem0[srcTable], 1024)|
      ensures forall f: nat | f < FRAMES && f !in pages && f != t :: mem[f] == mem0[f]
    {
      hide FrameAllocator.Drift, FrameAllocator.Used, FrameAllocator.Available, FrameAllocator.Free, FrameAllocator.Ready,
        MarkedSet, Frames, TablePages, Elems, Target, Present, Flags, Entry, SetWord, TableState, Grown, Reserved;
      ghost var s, used := mem0[srcTable], pmm.Used();
      pages := {};
      GrownNone(used);
      for j := 0 to ENTRIES
        invariant Valid() && pmm.Drift() == old(pmm.Drift())
        invariant Grown(used, pmm.Used(), pages)
        invariant pmm.Available() == old(pmm.Available()) - |pages|
        invariant TableState(mem0, s, mem, t, pages, j)
      {
        TableFrame(mem0, s, mem, t, pages, j);
        GrownApart(used, pmm.Used(), pages, Elems(TablePages(s, 1024)) + {srcTable}, t);
        if Present(s[j]) {
          PagesHave(s, 1024, j);
          PagesBound(s, j);
        }
        ghost var before, more := pmm.Used(), {};
        ok, more := CopyEntry(mem[srcTable][j], t, j, mem0, s, pages);
        GrownTwice(used, before, pmm.Used(), pages, more);
        if !ok {
          assert pages + more == pages;
          return;
        }
        pages := pages + more;
      }
      TableFrame(mem0, s, mem, t, pages, 1024);
      ok := true;
    }

    /** One user table of paging_clone_directory: a fresh table with a fresh copy of every mapped page.
        When no frame is left for a page, the table is given back but the pages copied so far are not. */
    method CopyTable(entry: uint32) returns (table: uint32, ghost pages: set<nat>)
      requires Valid() && Reserved(pmm.Used(), Target(entry))
      requires forall f | f in Elems(TablePages(mem[Target(entry)], 1024)) :: Reserved(pmm.Used(), f)
      modifies `mem, pmm`usedBlocks, pmm.memoryMap
      ensures Valid() && pmm.Drift() == old(pmm.Drift())
      ensures forall f: nat | f < FRAMES && Reserved(old(pmm.Used()), f) :: mem[f] == old(mem)[f]
      ensures var s := old(mem)[Target(entry)]; var a := old(pmm.Available());
              if table != 0 then
                && pmm.Available() == a - 1 - |pages| && Target(table) !in pages
                && Grown(old(pmm.Used()), pmm.Used(), pages + {Target(table)})
                && TableState(old(mem), s, mem, Target(table), pages, 1024)
              else
                && Grown(old(pmm.Used()), pmm.Used(), pages)
                && if a == 0 then pages == {} else |pages| == a - 1 < |TablePages(s, 1024)|
    {
      hide FrameAllocator.Drift, FrameAllocator.Used, FrameAllocator.Available, FrameAllocator.Free, FrameAllocator.Ready,
        MarkedSet, Frames, TablePages, Elems, Target, Present, Flags, Entry, SetWord, TableState, Grown, Reserved;
      ghost var mem0, used := mem, pmm.Used();
      GrownNone(used);
      pages := {};
      table := pmm.AllocBlock();
      if table == 0 {
        return;
      }
      ghost var used1 := pmm.Used();
      GrownOne(used, used1, Target(table));
      GrownKeeps(used, used1, {Target(table)});
      label Allocated:
      ClearFrame(Target(table));
      assert unchanged@Allocated(pmm) && unchanged@Allocated(pmm.memoryMap);
      TableStart(mem0, mem0[Target(entry)], mem, Target(table));
      var ok;
      ok, pages := CopyPages(Target(entry), Target(table), mem0);
      GrownTwice(used, used1, pmm.Used(), {Target(table)}, pages);
      GrownKeeps(used, pmm.Used(), {Target(table)} + pages);
      assert {Target(table)} + pages == pages + {Target(table)};
      if !ok {
        GrownLess(used, pmm.Used(), pages, Target(table));
        pmm.FreeBlock(table);
        table := 0;
      }
    }

    /** The part of paging_clone_directory that copies one user table. */
    method CloneTable(src: nat, d: nat, i: nat, ghost mem0: Memory, ghost below: set<nat>)
      returns (ok: bool, ghost more: set<nat>)
      requires Valid() && src < FRAMES && d < FRAMES && i < KERNEL_ENTRIES && DirState(mem0, src, mem, d, below, i)
      requires d in pmm.Used() && below <= pmm.Used()
      requires Reserved(pmm.Used(), src) && src !in below + {d} && Present(mem0[src][i])
      requires Reserved(pmm.Used(), Target(mem0[src][i])) && Target(mem0[src][i]) !in below + {d}
      requires forall f | f in Elems(TablePages(mem0[Target(mem0[src][i])], 1024)) ::
                 Reserved(pmm.Used(), f) && f !in below + {d}
      modifies `mem, pmm`usedBlocks, pmm.memoryMap
      ensures Valid() && pmm.Drift() == old(pmm.Drift())
      ensures Grown(old(pmm.Used()), pmm.Used(), more)
      ensures var pages := |TablePages(mem0[Target(mem0[src][i])], 1024)|; var a := old(pmm.Available());
              if ok then
                pmm.Available() == a - |more| && |more| == 1 + pages && DirState(mem0, src, mem, d, below + more, i + 1)
              else
                && a <= pages && |more| == (if a == 0 then 0 else a - 1)
                && Kept(old(pmm.Used()), old(mem), mem)
    {
      hide FrameAllocator.Drift, FrameAllocator.Used, FrameAllocator.Available, FrameAllocator.Free, FrameAllocator.Ready,
        MarkedSet, Frames, TablePages, DirFrames, Elems, Target, Present, Flags, Entry, SetWord, TableState,
                DirState, Grown, UserPart, Reserved;
      DirFrame(mem0, src, mem, d, below, i);
      var e, table := mem[src][i], 0;
      ghost var before, s := mem, Target(e);
      table, more := CopyTable(e);
      ok := table != 0;
      if ok {
        TableFrame(before, mem0[s], mem, Target(table), more, 1024);
        GrownKeeps(old(pmm.Used()), pmm.Used(), more + {Target(table)});
        DirCopyStep(mem0, src, before, d, below, i, mem, Target(table), more);
        label Copied:
        mem := SetWord(mem, d, i, Entry(Target(table), Flags(e)));
        assert unchanged@Copied(pmm) && unchanged@Copied(pmm.memoryMap);
        assert below + (more + {Target(table)}) == below + more + {Target(table)};
        more := more + {Target(table)};
      }
    }

    /** One round of the loop of paging_clone_directory. */
    method CloneEntry(src: nat, d: nat, i: nat, ghost mem0: Memory, ghost below: set<nat>)
      returns (ok: bool, ghost more: set<nat>)
      requires Valid() && src < FRAMES && d < FRAMES && i < 1024 && DirState(mem0, src, mem, d, below, i)
      requires d in pmm.Used() && below <= pmm.Used()
      requires forall f | f in Elems(Owned(mem0, src)) :: Reserved(pmm.Used(), f) && f !in below + {d}
      modifies `mem, pmm`usedBlocks, pmm.memoryMap
      ensures Valid() && pmm.Drift() == old(pmm.Drift())
      ensures Grown(old(pmm.Used()), pmm.Used(), more)
      ensures ok ==> pmm.Available() == old(pmm.Available()) - |more| && DirState(mem0, src, mem, d, below + more, i + 1)
      ensures !ok ==> Elems(Owned(mem, d)) == below + {d} && Kept(old(pmm.Used()), old(mem), mem)
      ensures var a := old(pmm.Available());
              !ok ==>
                && i < KERNEL_ENTRIES && |DirFrames(mem0, mem0[src], i)| == |below|
                && a + |below| < |DirFrames(mem0, mem0[src], i + 1)| && |more| == if a == 0 then 0 else a - 1
    {
      hide FrameAllocator.Drift, FrameAllocator.Used, FrameAllocator.Available, FrameAllocator.Free, FrameAllocator.Ready,
        MarkedSet, Frames, TablePages, DirFrames, Elems, Owned, Target, Flags, Entry, SetWord, TableState, DirState,
        UserPart, Grown, Kept;
      ok, more := true, {};
      GrownNone(pmm.Used());
      SrcReserved(mem0, src, i);
      DirFrame(mem0, src, mem, d, below, i);
      var e := mem[src][i];
      assert below + more == below;
      if !Present(e) {
        DirSkip(mem0, src, mem, d, below, i);
      } else if i >= KERNEL_ENTRIES {
        DirShare(mem0, src, mem, d, below, i);
        label Shared:
        mem := SetWord(mem, d, i, e);
        assert unchanged@Shared(pmm) && unchanged@Shared(pmm.memoryMap);
      } else {
        ok, more := CloneTable(src, d, i, mem0, below);
        if !ok {
          KeptThere(old(pmm.Used()), old(mem), mem, below + {d});
          DirAbandon(mem0, src, old(mem), d, below, i, mem);
        }
      }
    }

    /** The loop of paging_clone_directory: d is the new, cleared directory. */
    method CloneEntries(src: nat, d: nat, ghost mem0: Memory) returns (ok: bool, ghost below: set<nat>,
            ghost lost: set<nat>)
      requires Valid() && src < FRAMES && d < MAX_BLOCKS && d in pmm.Used()
      requires forall f | f in Elems(Owned(mem0, src)) :: Reserved(pmm.Used(), f) && f != d
      requires DirState(mem0, src, mem, d, {}, 0)
      modifies `mem, pmm`usedBlocks, pmm.memoryMap
      ensures Valid() && pmm.Drift() == old(pmm.Drift())
      ensures lost !! below && Grown(old(pmm.Used()), pmm.Used(), below + lost)
      ensures ok ==> lost == {} && DirState(mem0, src, mem, d, below, 1024)
      ensures ok ==> pmm.Available() == old(pmm.Available()) - |below|
      ensures !ok ==> Elems(Owned(mem, d)) == below + {d}
      ensures !ok ==> old(pmm.Available()) < |DirFrames(mem0, mem0[src], KERNEL_ENTRIES)|
      ensures !ok ==> |lost| == Leak(mem0, mem0[src], old(pmm.Available()))
      ensures Kept(old(pmm.Used()) - {d}, mem0, mem)
    {
      hide FrameAllocator.Drift, FrameAllocator.Used, FrameAllocator.Available, FrameAllocator.Free, FrameAllocator.Ready,
        MarkedSet, Frames, TablePages, DirFrames, Elems, Owned, Target, Flags, Entry, SetWord, TableState, DirState,
        UserPart, Grown, Reserved, Kept, Leak;
      ghost var used := pmm.Used();
      below, lost := {}, {};
      assert UserPart(0) == 0;
      GrownNone(used);
      for i := 0 to ENTRIES
        invariant Valid() && pmm.Drift() == old(pmm.Drift())
        invariant Grown(used, pmm.Used(), below)
        invariant pmm.Available() == old(pmm.Available()) - |below|
        invariant DirState(mem0, src, mem, d, below, i)
      {
        GrownApart(used, pmm.Used(), below, Elems(Owned(mem0, src)), d);
        KeptByClone(mem0, src, mem, d, below, i, used, pmm.Used());
        ghost var used1, mem1, more := pmm.Used(), mem, {};
        ok, more := CloneEntry(src, d, i, mem0, below);
        GrownTwice(used, used1, pmm.Used(), below, more);
        if !ok {
          FailedAt(mem0, src, i, used - {d}, used1, mem1, mem, old(pmm.Available()));
          lost := more;
          return;
        }
        below := below + more;
      }
      KeptByClone(mem0, src, mem, d, below, 1024, used, pmm.Used());
      assert below + lost == below;
      ok := true;
    }

    /** paging_clone_directory from the point where the new directory's frame has been allocated. */
    method CloneInto(src: nat, dir: uint32, ghost used: set<nat>) returns (ok: bool, ghost lost: set<nat>)
      requires Valid() && src < FRAMES && 0 in used && Target(dir) != kernelDirectory && dir != 0
      requires Grown(used, pmm.Used(), {Target(dir)})
      requires forall f | f in Elems(Owned(mem, src)) :: Reserved(used, f)
      modifies `mem, pmm`usedBlocks, pmm.memoryMap
      ensures Valid() && pmm.Drift() == old(pmm.Drift())
      ensures ok <==> old(pmm.Available()) + 1 >= |Owned(old(mem), src)|
      ensures ok ==>
                && ClonedFrom(old(mem), src, mem, Target(dir))
                && Grown(used, pmm.Used(), Elems(Owned(mem, Target(dir))))
                && pmm.Available() == old(pmm.Available()) + 1 - |Owned(mem, Target(dir))|
      ensures !ok ==>
                && Grown(used, pmm.Used(), lost)
                && |lost| == Leak(old(mem), old(mem)[src], old(pmm.Available()))
      ensures Kept(used, old(mem), mem)
    {
      hide FrameAllocator.Drift, FrameAllocator.Used, FrameAllocator.Available, FrameAllocator.Free,
        MarkedSet, Frames, TablePages, DirFrames, Elems, Owned, Target, Flags, Entry, SetWord, DirState, Leak, Grown,
        Reserved, ClonedFrom, Kept, Leak, DirCopied;
      ghost var mem0, used1 := mem, pmm.Used();
      OwnedSize(mem, src);
      var d := Target(dir);
      GrownOnly(used, used1, d, Elems(Owned(mem, src)));
      ClearFrame(d);
      assert unchanged(pmm) && unchanged(pmm.memoryMap);
      DirStart(mem0, src, mem, d);
      ghost var below;
      ok, below, lost := CloneEntries(src, d, mem0);
      GrownTwice(used, used1, pmm.Used(), {d}, below + lost);
      if ok {
        assert {d} + (below + lost) == below + {d};
        CloneDone(mem0, src, mem, d, below);
      } else {
        GrownRest(used, pmm.Used(), d, below, lost);
        FreeDirectory(dir);
        assert pmm.Ready();
      }
    }

    /** paging_clone_directory. On success the new address space is a deep copy of the user half: every
        table and page sits in a frame of its own that was free before, the kernel half is shared, and no
        other frame has changed. It succeeds exactly when enough frames are available. A failed clone gives
        back everything except the pages of an unfinished table. */
    method CloneDirectory(src: uint32) returns (dir: uint32, ghost lost: set<nat>)
      requires Valid() && Reserved(pmm.Used(), kernelDirectory)
      requires src != 0 ==> forall f | f in Elems(Owned(mem, Target(src))) :: Reserved(pmm.Used(), f)
      modifies `mem, pmm`usedBlocks, pmm.memoryMap
      ensures Valid() && pmm.Drift() == old(pmm.Drift())
      ensures dir == 0 <==> src == 0 || old(pmm.Available()) < |Owned(old(mem), Target(src))|
      ensures dir != 0 ==>
                && ClonedFrom(old(mem), Target(src), mem, Target(dir)) && Target(dir) != kernelDirectory
                && Grown(old(pmm.Used()), pmm.Used(), Elems(Owned(mem, Target(dir))))
                && pmm.Available() == old(pmm.Available()) - |Owned(mem, Target(dir))|
      ensures dir == 0 ==> Grown(old(pmm.Used()), pmm.Used(), lost)
      ensures dir == 0 && src != 0 ==>
                var a := old(pmm.Available()); var m := old(mem);
                |lost| == if a == 0 then 0 else Leak(m, m[Target(src)], a - 1)
      ensures src == 0 ==> lost == {}
      ensures Kept(old(pmm.Used()), old(mem), mem)
    {
      hide FrameAllocator.Drift, FrameAllocator.Used, FrameAllocator.Available, FrameAllocator.Free,
        MarkedSet, Frames, TablePages, DirFrames, Elems, Owned, Target, Leak, Grown, ClonedFrom;
      ghost var used := pmm.Used();
      lost := {};
      GrownNone(used);
      OwnedSize(mem, Target(src));
      if src == 0 {
        return 0, lost;
      }
      dir := pmm.AllocBlock();
      if dir != 0 {
        GrownOne(used, pmm.Used(), Target(dir));
        var ok;
        ok, lost := CloneInto(Target(src), dir, used);
        if !ok {
          dir := 0;
        }
      }
    }

    /** Cloning and freeing again leaves the allocator exactly as it was. */
    method CloneThenFree(src: uint32)
      requires Valid() && Reserved(pmm.Used(), kernelDirectory)
      requires src != 0 && forall f | f in Elems(Owned(mem, Target(src))) :: Reserved(pmm.Used(), f)
      requires pmm.Available() >= |Owned(mem, Target(src))|
      modifies `mem, pmm`usedBlocks, pmm.memoryMap
      ensures pmm.Valid() && pmm.Used() == old(pmm.Used()) && pmm.usedBlocks == old(pmm.usedBlocks)
    {
      hide TablePages, DirFrames, Owned, Elems, Target, Leak, ClonedFrom, Kept, MarkedSet, Frames;
      var dir; ghost var lost;
      dir, lost := CloneDirectory(src);
      FreeDirectory(dir);
    }

    /** A clone for which there are too few frames: the source and everything else in use keeps its contents,
        and bitmap and counter are as before exactly if the frames ran out at the table itself or at its first page. */
    method CloneFails(src: uint32) returns (ghost lost: set<nat>)
      requires Valid() && Reserved(pmm.Used(), kernelDirectory)
      requires src != 0 && forall f | f in Elems(Owned(mem, Target(src))) :: Reserved(pmm.Used(), f)
      requires pmm.Available() < |Owned(mem, Target(src))|
      modifies `mem, pmm`usedBlocks, pmm.memoryMap
      ensures pmm.Valid() && Kept(old(pmm.Used()), old(mem), mem)
      ensures lost !! old(pmm.Used()) && pmm.Used() == old(pmm.Used()) + lost
      ensures pmm.usedBlocks == Wrap32(old(pmm.usedBlocks) + |lost|)
      ensures pmm.Used() == old(pmm.Used()) <==>
                var a := old(pmm.Available()); var s := old(mem)[Target(src)];
                a == 0 || a - 1 - |DirFrames(old(mem), s, StuckAt(old(mem), s, KERNEL_ENTRIES, a - 1))| <= 1
    {
      hide TablePages, DirFrames, Elems, Target, StuckAt, Kept, ClonedFrom, MarkedSet, Frames;
      ghost var used := pmm.Used();
      var dir;
      dir, lost := CloneDirectory(src);
      assert pmm.Used() == used + lost && |pmm.Used()| == |used| + |lost|;
    }
  }
}
