/** The running machine: memory behind a TLB, and the C functions of the paging subsystem written
    only in terms of translated loads and stores. */
module Machine {
  import opened Bits
  import opened Hardware
  import opened Tables
  import opened Bitmap
  import K = Kernel
  import R = Runs
  import Q = Requests

  const PD_VIRTUAL: Word := 0xFFFF_F000
  const WINDOW_BASE: Word := 0xFFC0_0000

  /** What the TLB and the paging-structure cache hold agrees with the tables in memory m, but for pages of
      the stale slots. */
  ghost predicate Agrees(m: Memory, root: FrameNo, tlb: map<PageNo, Leaf>, pdes: map<Index, Word>,
                         stale: set<Index> := {}) {
    && (forall p | p in tlb && DirOf(p) !in stale :: WalkPage(m, root, p) == Some(tlb[p]))
    && (forall d | d in pdes :: Present(pdes[d]) && m[root][d] == pdes[d])
  }

  /** An edit that only makes pages present never makes a cached translation wrong. */
  lemma GrowthAgrees(m: Memory, m': Memory, root: FrameNo, tlb: map<PageNo, Leaf>, pdes: map<Index, Word>)
    requires Agrees(m, root, tlb, pdes)
    requires K.Extends(Space(m, root), Space(m', root))
    requires forall d: Index | Present(m[root][d]) :: m'[root][d] == m[root][d]
    ensures Agrees(m', root, tlb, pdes)
  {
    forall p | p in tlb
      ensures WalkPage(m', root, p) == Some(tlb[p])
    {
      assert p in Space(m, root);
      assert p in Space(m', root);
    }
  }

  /** An edit of the table of slot k, which no other slot leads to, concerns pages of that slot only. */
  lemma TableEditAgrees(m: Memory, root: FrameNo, tlb: map<PageNo, Leaf>, pdes: map<Index, Word>, k: Index, fr: Frame)
    requires Agrees(m, root, tlb, pdes, {k}) && OwnTable(m, root, k)
    ensures Agrees(m[FrameOf(m[root][k]) := fr], root, tlb, pdes, {k})
  {
  }

  /** Slot k leads to a frame that is not the directory and to which no other slot leads. */
  ghost predicate OwnTable(m: Memory, root: FrameNo, k: Index) {
    && Present(m[root][k]) && FrameOf(m[root][k]) != root
    && forall d: Index | d != k && Present(m[root][d]) :: FrameOf(m[root][d]) != FrameOf(m[root][k])
  }

  /** The pages of the window at 0xFFC00000 are the page tables, writable, the last one being the
      directory itself. */
  lemma WindowWalk(L: Layout, m: Memory, slots: seq<Index>, k: Index)
    requires Inv(L, m, slots)
    ensures Walk(m, L.pd, 1023, k) ==
            if Present(m[L.pd][k]) then Some(Leaf(FrameOf(m[L.pd][k]), true)) else None
  {
    if Present(m[L.pd][k]) && k != 1023 {
      SlotTarget(L, m, slots, k);
    }
  }

  lemma WindowAddress(k: Index, i: Index)
    ensures WINDOW_BASE + k * 0x1000 + 4 * i < 0x1_0000_0000
    ensures var va: Word := WINDOW_BASE + k * 0x1000 + 4 * i;
            && PageOf(va) == PageAt(1023, k)
            && va % 4 == 0 && va % 0x1000 <= 0xFFC && va % 0x1000 / 4 == i
  {
    var va: Word := WINDOW_BASE + k * 0x1000 + 4 * i;
    assert va / 0x1000 == 1023 * 1024 + k && va % 0x1000 == 4 * i;
  }

  /** Word i of window page k is word i of table k. */
  lemma WindowAccess(L: Layout, m: Memory, k: Index, i: Index)
    requires m[L.pd][1023] == Entry(L.pd, 3) && Present(m[L.pd][k])
    ensures WINDOW_BASE + k * 0x1000 + 4 * i < 0x1_0000_0000
    ensures var va: Word := WINDOW_BASE + k * 0x1000 + 4 * i;
            && va % 4 == 0 && va % 0x1000 <= 0xFFC && va % 0x1000 / 4 == i && DirOf(PageOf(va)) == 1023
            && WalkPage(m, L.pd, PageOf(va)) == Some(Leaf(FrameOf(m[L.pd][k]), Writable(m[L.pd][k])))
  {
    WindowAddress(k, i);
    assert Walk(m, L.pd, 1023, k) == Some(Leaf(FrameOf(m[L.pd][k]), Writable(m[L.pd][k])));
  }

  /** The two table indices and the window address the source computes from an address. */
  lemma Indices(va: Word)
    ensures Shr(va, 22) == DirOf(PageOf(va)) < 1024
    ensures And(Shr(va, 12), 0x3FF) == IdxOf(PageOf(va)) < 1024
    ensures And(va, 0xFFF) == va % 0x1000
    ensures Shl(Shr(va, 22), 12) == DirOf(PageOf(va)) * 0x1000
  {
    AddressSplit(va);
    PageShift(DirOf(PageOf(va)));
  }

  lemma EntryBits(e: Word)
    ensures And(e, 1) == if Present(e) then 1 else 0
  {
    EntrySplit(e);
  }

  lemma JoinAddress(pte: Word, va: Word)
    ensures And(pte, 0xFFFF_F000) + And(va, 0xFFF) == FrameOf(pte) * 0x1000 + va % 0x1000 < 0x1_0000_0000
  {
    EntrySplit(pte);
    AddressSplit(va);
  }

  /** The value of `physaddr | (flags & 0xFFF)`. */
  lemma EntryValue(physaddr: Word, flags: Word)
    requires physaddr % 0x1000 == 0
    ensures Or(physaddr, And(flags, 0xFFF)) == Entry(FrameOf(physaddr), flags % 0x1000)
    ensures Or(physaddr, 3) == Entry(FrameOf(physaddr), 3)
    ensures flags % 0x1000 % 2 == flags % 2
  {
    EntryJoin(physaddr, flags);
    AlignedFrame(physaddr);
    FlagParity(flags);
  }

  lemma AlignedFrame(a: Word)
    requires a % 0x1000 == 0
    ensures a == FrameOf(a) * 0x1000
  {
  }

  lemma FlagParity(flags: Word)
    ensures flags % 0x1000 % 2 == flags % 2
  {
    var q := flags / 0x1000;
    assert flags == 2 * (q * 0x800) + flags % 0x1000;
  }

  lemma ZeroAnswer(L: Layout, m: Memory, slots: seq<Index>, va: Word)
    requires Inv(L, m, slots)
    ensures ZeroOnce(Space(m, L.pd)) ==> (Translate(m, L.pd, va) == Some(0) <==> va == KERNEL_BASE)
  {
    if ZeroOnce(Space(m, L.pd)) {
      ZeroAddress(L, m, slots, va);
    }
  }

  lemma WordShown(m: Memory, root: FrameNo, read: Bytes, mapped: nat -> bool, va: nat)
    requires Sees(m, root, read, mapped) && Range(mapped, va, 4) && va % 0x1000 <= 0xFFC
    ensures Mapped(m, root, va)
    ensures Word32(read, va) == WordAt(m[WalkPage(m, root, PageOf(va)).value.frame], va % 0x1000)
  {
    assert mapped(va) && mapped(va + 1) && mapped(va + 2) && mapped(va + 3);
    assert read(va) == ByteSeen(m, root, va);
    WordSeen(m, root, va);
  }

  /** A frame whose first n words have been cleared. */
  function Cleared(fr: Frame, n: nat): Frame
    requires n <= 1024
  {
    seq(n, _ => 0) + fr[n..]
  }

  lemma ClearedNext(fr: Frame, i: Index)
    ensures Cleared(fr, i)[i := 0] == Cleared(fr, i + 1)
  {
  }

  lemma ClearedEnds(fr: Frame)
    ensures Cleared(fr, 0) == fr && Cleared(fr, 1024) == ZeroFrame()
    ensures IsZero(fr) ==> fr == ZeroFrame()
  {
  }

  lemma ClearedZero(fr: Frame, n: nat)
    requires IsZero(fr) && n <= 1024
    ensures Cleared(fr, n) == fr
  {
  }

  /** The next table is led to by no slot yet. */
  lemma FreshTable(L: Layout, m: Memory, slots: seq<Index>, d: Index)
    requires Inv(L, m, slots) && NeedsTable(L, m, d) && (|slots| == 256 ==> !L.Reserved(L.PoolFrame(256)))
    ensures OwnTable(Install(L, m, |slots|, d), L.pd, d) && d != 1023 && d != 768
  {
    var m' := Install(L, m, |slots|, d);
    forall k: Index | k != d && Present(m'[L.pd][k])
      ensures FrameOf(m'[L.pd][k]) != L.PoolFrame(|slots|)
    {
      if k != 1023 {
        SlotTarget(L, m, slots, k);
      }
    }
  }

  lemma Installed(L: Layout, s: TableState, m: Memory, d: Index)
    requires NeedsTable(L, s.mem, d) && L.pool + s.issued < 0x10_0000
    requires m == Install(L, s.mem, s.issued, d)[L.pool + s.issued := ZeroFrame()]
    ensures WithTable(L, s, d) == TableState(m, s.issued + 1)
  {
  }

  lemma PoolAddress(L: Layout, m: Memory, slots: seq<Index>)
    requires Inv(L, m, slots)
    ensures KERNEL_BASE + L.pool * 0x1000 < 0x1_0000_0000
    ensures Translate(m, L.pd, KERNEL_BASE + L.pool * 0x1000) == Some(L.pool * 0x1000)
  {
    KernelTranslates(L, m, slots, L.pool * 0x1000);
  }

  lemma InstallGrows(L: Layout, m: Memory, slots: seq<Index>, k: Index)
    requires Inv(L, m, slots) && NeedsTable(L, m, k) && |slots| < 256
    ensures K.Extends(Space(m, L.pd), Space(Install(L, m, |slots|, k), L.pd))
    ensures forall d: Index | Present(m[L.pd][d]) :: Install(L, m, |slots|, k)[L.pd][d] == m[L.pd][d]
  {
    InstallRefines(L, m, slots, k);
    assert PageAt(1023, k) !in Space(m, L.pd);
  }

  lemma SetLeafGrows(L: Layout, m: Memory, slots: seq<Index>, d: Index, t: Index, e: Word)
    requires Inv(L, m, slots) && d != 1023 && Present(e)
    requires !NeedsTable(L, m, d) && Walk(m, L.pd, d, t) == None
    ensures K.Extends(Space(m, L.pd), Space(SetLeaf(L, m, d, t, e), L.pd))
    ensures SetLeaf(L, m, d, t, e)[L.pd] == m[L.pd]
  {
    SetLeafRefines(L, m, slots, d, t, e);
    SlotTarget(L, m, slots, d);
    assert PageAt(d, t) !in Space(m, L.pd);
  }

  /** The address space the kernel starts in: the image and all memory below it from 0xC0000000 on,
      the VGA page, and the window pages of directory and boot table. */
  function BootWalk(L: Layout, p: PageNo): Option<Leaf> {
    var d, t := DirOf(p), IdxOf(p);
    if d == 768 && t < L.end then Some(Leaf(t, true))
    else if d == 768 && t == 1023 then Some(Leaf(VGA_FRAME, true))
    else if d == 1023 && t == 768 then Some(Leaf(L.boot, true))
    else if d == 1023 && t == 1023 then Some(Leaf(L.pd, true))
    else None
  }

  function BootTableEntry(L: Layout, i: Index): Word {
    if i < L.end then Entry(i, 3) else if i == 1023 then Entry(VGA_FRAME, 3) else 0
  }

  function BootDirectoryEntry(L: Layout, i: Index): Word {
    if i == 768 then Entry(L.boot, 3) else if i == 1023 then Entry(L.pd, 3) else 0
  }

  function BootTableFrame(L: Layout): Frame {
    seq(1024, i requires 0 <= i < 1024 => BootTableEntry(L, i))
  }

  function BootDirectoryFrame(L: Layout): Frame {
    seq(1024, i requires 0 <= i < 1024 => BootDirectoryEntry(L, i))
  }

  /** Memory after boot: what the loader left, but for boot table and directory. */
  function BootMemory(L: Layout, ram: Memory): Memory {
    ram[L.boot := BootTableFrame(L)][L.pd := BootDirectoryFrame(L)]
  }

  /** The kernel mapping is linear: frame f is seen at 0xC0000000 + f * 0x1000. */
  lemma KernelAddress(f: Index)
    ensures KERNEL_BASE + f * 0x1000 < 0x1_0000_0000
    ensures var va: Word := KERNEL_BASE + f * 0x1000;
            PageOf(va) == PageAt(768, f) && va % 0x1000 == 0 && va % 4 == 0
  {
    var va: Word := KERNEL_BASE + f * 0x1000;
    assert va / 0x1000 == 768 * 1024 + f;
    assert va == 4 * (0x3000_0000 + f * 0x400);
  }

  /** Right after paging is on, the directory can be reached through the kernel mapping. */
  lemma BootDirectory(L: Layout, m: Memory)
    requires L.Valid() && m[L.pd][768] == Entry(L.boot, 3) && m[L.boot][L.pd] == Entry(L.pd, 3)
    ensures KERNEL_BASE + L.pd * 0x1000 < 0x1_0000_0000
    ensures var va: Word := KERNEL_BASE + L.pd * 0x1000;
            va % 0x1000 == 0 && va % 4 == 0 && WalkPage(m, L.pd, PageOf(va)) == Some(Leaf(L.pd, true))
  {
    KernelAddress(L.pd);
    assert Walk(m, L.pd, 768, L.pd) == Some(Leaf(L.pd, true));
  }

  lemma BootTables(L: Layout, ram: Memory, m: Memory)
    requires L.Valid() && (forall f: FrameNo | L.IsTable(f) :: IsZero(ram[f]))
    requires forall f: FrameNo | f != L.pd && f != L.boot :: m[f] == ram[f]
    requires forall i: Index :: m[L.boot][i] == BootTableEntry(L, i)
    requires forall i: Index :: m[L.pd][i] == BootDirectoryEntry(L, i)
    ensures Inv(L, m, []) && m == BootMemory(L, ram)
    ensures forall p: PageNo :: WalkPage(m, L.pd, p) == BootWalk(L, p)
  {
    assert m[L.boot] == BootTableFrame(L) && m[L.pd] == BootDirectoryFrame(L);
    forall j: nat | 0 <= j < 256
      ensures IsZero(m[L.PoolFrame(j)])
    {
      assert L.IsTable(L.PoolFrame(j));
    }
  }

  /** The boot address space in numbers: the image 0xC0000000 above its place, text memory at 0xC03FF000, boot
      table and directory in the window, and nothing else. */
  lemma BootNumbers(L: Layout, m: Memory, va: Word)
    requires L.Valid() && forall p: PageNo :: WalkPage(m, L.pd, p) == BootWalk(L, p)
    ensures Translate(m, L.pd, va) ==
              if 0xC000_0000 <= va < 0xC000_0000 + L.end * 0x1000 then Some(va - 0xC000_0000)
              else if 0xC03F_F000 <= va < 0xC040_0000 then Some(va - 0xC03F_F000 + 0xB_8000)
              else if 0xFFF0_0000 <= va < 0xFFF0_1000 then Some(va - 0xFFF0_0000 + L.boot * 0x1000)
              else if 0xFFFF_F000 <= va then Some(va - 0xFFFF_F000 + L.pd * 0x1000)
              else None
  {
    PageParts(va);
    SlotRange(va, va / 0x40_0000, va / 0x1000 % 0x400);
  }

  lemma VgaPage(L: Layout, m: Memory)
    requires L.Valid() && forall p: PageNo :: WalkPage(m, L.pd, p) == BootWalk(L, p)
    ensures forall va: Word | 0xC03F_F000 <= va < 0xC040_0000 ::
              Translate(m, L.pd, va) == Some(va - 0xC03F_F000 + 0xB_8000)
  {
    forall va: Word | 0xC03F_F000 <= va < 0xC040_0000
      ensures Translate(m, L.pd, va) == Some(va - 0xC03F_F000 + 0xB_8000)
    {
      BootNumbers(L, m, va);
    }
  }

  lemma SlotRange(va: Word, d: nat, t: nat)
    requires d == va / 0x40_0000 && t == va / 0x1000 % 0x400
    ensures va == d * 0x40_0000 + t * 0x1000 + va % 0x1000 && t < 0x400
  {
  }

  lemma BootGood(L: Layout, s: K.State)
    requires Inv(L, s.tables.mem, []) && s.tables.issued == 0
    requires s.phys == K.DEMAND_BASE && s.alloc.hint == 768 * 32
    ensures K.Good(L, s, [])
  {
  }

  lemma AlignedAccess(fr: Frame, va: Word, v: Word)
    requires va % 0x1000 <= 0xFFC
    ensures va % 4 == 0 ==> WordAt(fr, va % 0x1000) == fr[va % 0x1000 / 4]
    ensures va % 4 == 0 ==> PutWord(fr, va % 0x1000, v) == fr[va % 0x1000 / 4 := v]
  {
    if va % 4 == 0 {
      assert va % 0x1000 == 4 * (va % 0x1000 / 4);
      AlignedWord(fr, va % 0x1000 / 4, v);
    }
  }

  class Machine {
    const L: Layout
    var mem: Memory
    var cr3: FrameNo
    var tlb: map<PageNo, Leaf>
    var pdes: map<Index, Word>
    const virtualMmap: array<Word>
    var curVirtaddrIdx: nat
    var curPhysaddr: Word
    var kernelPtIndex: nat
    ghost var slots: seq<Index>

    /** boot.S: fill the boot page table, enter slots 0, 768 and 1023, turn paging on, remove slot 0
        through the kernel mapping, reload cr3. `kernelEnd` is the physical `_kernel_end`; the loader
        has cleared .bss, which holds directory, tables and kernel variables. */
    constructor Boot(layout: Layout, ram: Memory, kernelEnd: Word)
      requires layout.Valid() && (layout.end - 1) * 0x1000 < kernelEnd <= layout.end * 0x1000
      requires forall f: FrameNo | layout.IsTable(f) :: IsZero(ram[f])
      ensures Valid() && L == layout && slots == [] && kernelPtIndex == 0
      ensures curPhysaddr == 0x1000_0000 == K.DEMAND_BASE && curVirtaddrIdx == 768 * 32
      ensures forall va: Word | 0xC03F_F000 <= va < 0xC040_0000 ::
                Translate(mem, L.pd, va) == Some(va - 0xC03F_F000 + 0xB_8000)
      ensures fresh(virtualMmap) && forall w | 0 <= w < 0x8000 :: virtualMmap[w] == 0
      ensures mem == BootMemory(L, ram)
      ensures forall p: PageNo :: WalkPage(mem, L.pd, p) == BootWalk(L, p)
    {
      L := layout;
      mem := ram;
      virtualMmap := new Word[0x8000](_ => 0);
      curVirtaddrIdx, curPhysaddr, kernelPtIndex, slots := 768 * 32, 0x1000_0000, 0, [];
      cr3, tlb, pdes := 0, map[], map[];
      new;
      StartPaging(kernelEnd);
      BootGood(L, State());
      VgaPage(L, mem);
    }

    method StartPaging(kernelEnd: Word)
      requires L.Valid() && (L.end - 1) * 0x1000 < kernelEnd <= L.end * 0x1000
      requires forall f: FrameNo | L.IsTable(f) :: IsZero(mem[f])
      requires tlb == map[] && pdes == map[] && slots == []
      modifies `mem, `cr3, `tlb, `pdes
      ensures TablesValid()
      ensures mem == BootMemory(L, old(mem))
      ensures forall p: PageNo :: WalkPage(mem, L.pd, p) == BootWalk(L, p)
    {
      assert IsZero(mem[L.pd]);
      FillBootTable(kernelEnd);
      EnterDirectory();
      LeaveIdentityMap();
      BootTables(L, old(mem), mem);
    }

    method EnterDirectory()
      requires L.Valid() && tlb == map[] && pdes == map[]
      modifies `mem, `cr3
      ensures cr3 == L.pd && Coherent()
      ensures forall f: FrameNo | f != L.pd && f != L.boot :: mem[f] == old(mem)[f]
      ensures mem[L.boot] == old(mem)[L.boot][1023 := Entry(VGA_FRAME, 3)]
      ensures mem[L.pd] == old(mem)[L.pd][0 := Entry(L.boot, 3)][768 := Entry(L.boot, 3)][1023 := Entry(L.pd, 3)]
    {
      mem := SetEntry(mem, L.boot, 1023, 0xB_8003);
      mem := SetEntry(mem, L.pd, 0, L.boot * 0x1000 + 3);
      mem := SetEntry(mem, L.pd, 768, L.boot * 0x1000 + 3);
      mem := SetEntry(mem, L.pd, 1023, L.pd * 0x1000 + 3);
      cr3 := L.pd;
    }

    /** Slot 0 is cleared through the kernel mapping of the directory. Cached translations of the
        identity map are stale until cr3 is reloaded. */
    method LeaveIdentityMap()
      requires L.Valid() && cr3 == L.pd && Coherent()
      requires mem[L.pd][768] == Entry(L.boot, 3) && mem[L.boot][L.pd] == Entry(L.pd, 3)
      modifies `mem, `tlb, `pdes
      ensures mem == SetEntry(old(mem), L.pd, 0, 0) && Coherent()
    {
      BootDirectory(L, mem);
      Store(KERNEL_BASE + L.pd * 0x1000, 0);
      FlushTlb();
    }

    /** The loop at label 1: map page after page until the kernel's end, 1023 pages at most. */
    method FillBootTable(kernelEnd: Word)
      requires L.Valid() && (L.end - 1) * 0x1000 < kernelEnd <= L.end * 0x1000
      modifies `mem
      ensures forall f: FrameNo | f != L.boot :: mem[f] == old(mem)[f]
      ensures forall i: Index :: mem[L.boot][i] == if i < L.end then Entry(i, 3) else old(mem)[L.boot][i]
    {
      var esi: nat, edi: nat, ecx: nat := 0, 0, 1023;
      while ecx > 0 && esi < kernelEnd
        invariant ecx == 1023 - edi && esi == edi * 0x1000 && edi <= L.end
        invariant forall f: FrameNo | f != L.boot :: mem[f] == old(mem)[f]
        invariant forall i: Index :: mem[L.boot][i] == if i < edi then Entry(i, 3) else old(mem)[L.boot][i]
      {
        EntryJoin(esi, 0);
        mem := SetEntry(mem, L.boot, edi, Or(esi, 3));
        esi, edi, ecx := esi + 0x1000, edi + 1, ecx - 1;
      }
    }

    ghost predicate Coherent()
      reads `mem, `cr3, `tlb, `pdes
    {
      Agrees(mem, cr3, tlb, pdes)
    }

    /** Paging is on, the tables have their structure, and no cached translation is stale. */
    ghost predicate TablesValid()
      reads `mem, `cr3, `tlb, `pdes, `slots
    {
      && cr3 == L.pd
      && Inv(L, mem, slots)
      && Coherent()
    }

    ghost function Current(): TableState
      reads `mem, `kernelPtIndex
    {
      TableState(mem, kernelPtIndex)
    }

    // ----- the processor -----

    /** Between any two accesses the processor may drop cached entries and cache any translation
        that the tables, or a cached directory entry, give at that moment. */
    method Speculate(ghost stale: set<Index> := {})
      requires Agrees(mem, cr3, tlb, pdes, stale)
      modifies `tlb, `pdes
      ensures Agrees(mem, cr3, tlb, pdes, stale)
    {
      var newPdes: map<Index, Word> := *;
      var newTlb: map<PageNo, Leaf> := *;
      pdes := map d: Index | d in newPdes &&
                             ((d in pdes && pdes[d] == newPdes[d])
                              || (Present(newPdes[d]) && mem[cr3][d] == newPdes[d])) :: newPdes[d];
      tlb := map p: PageNo | p in newTlb &&
                             ((p in tlb && tlb[p] == newTlb[p]) || ThroughPde(p) == Some(newTlb[p])) :: newTlb[p];
    }

    /** The walk the processor makes when it has a cached directory entry. */
    function ThroughPde(p: PageNo): Option<Leaf>
      reads `mem, `cr3, `pdes
    {
      var pde := if DirOf(p) in pdes then pdes[DirOf(p)] else mem[cr3][DirOf(p)];
      if Present(pde) then LeafOf(pde, mem[FrameOf(pde)][IdxOf(p)]) else None
    }

    /** The translation an access uses: a cached one if there is any. */
    function Resolve(p: PageNo): Option<Leaf>
      reads `mem, `cr3, `tlb, `pdes
      ensures Coherent() ==> Resolve(p) == WalkPage(mem, cr3, p)
    {
      if p in tlb then Some(tlb[p]) else ThroughPde(p)
    }

    /** A load of four bytes within a page. It uses whatever the caches hold, and yet reads where
        the tables say. */
    method Load(va: Word, ghost stale: set<Index> := {}) returns (v: Word)
      requires Agrees(mem, cr3, tlb, pdes, stale) && DirOf(PageOf(va)) !in stale && va % 0x1000 <= 0xFFC
      requires WalkPage(mem, cr3, PageOf(va)).Some?
      modifies `tlb, `pdes
      ensures Agrees(mem, cr3, tlb, pdes, stale)
      ensures v == WordAt(mem[WalkPage(mem, cr3, PageOf(va)).value.frame], va % 0x1000)
      ensures va % 4 == 0 ==> v == mem[WalkPage(mem, cr3, PageOf(va)).value.frame][va % 0x1000 / 4]
    {
      Speculate(stale);
      var leaf := Resolve(PageOf(va)).value;
      v := WordAt(mem[leaf.frame], va % 0x1000);
      AlignedAccess(mem[leaf.frame], va, 0);
    }

    /** A store of four bytes within a page. The caches afterwards agree with the memory before. */
    method Store(va: Word, v: Word, ghost stale: set<Index> := {})
      requires Agrees(mem, cr3, tlb, pdes, stale) && DirOf(PageOf(va)) !in stale && va % 0x1000 <= 0xFFC
      requires WalkPage(mem, cr3, PageOf(va)).Some? && WalkPage(mem, cr3, PageOf(va)).value.writable
      modifies `mem, `tlb, `pdes
      ensures Agrees(old(mem), cr3, tlb, pdes, stale)
      ensures var f := WalkPage(old(mem), cr3, PageOf(va)).value.frame;
              && mem == old(mem)[f := PutWord(old(mem)[f], va % 0x1000, v)]
              && (va % 4 == 0 ==> mem == SetEntry(old(mem), f, va % 0x1000 / 4, v))
    {
      Speculate(stale);
      var f := Resolve(PageOf(va)).value.frame;
      AlignedAccess(mem[f], va, v);
      mem := mem[f := PutWord(mem[f], va % 0x1000, v)];
    }

    /** `_flush_TLB`: reloading cr3 empties both caches. */
    method FlushTlb()
      modifies `tlb, `pdes
      ensures tlb == map[] && pdes == map[]
    {
      tlb, pdes := map[], map[];
    }

    // ----- pointers into the window -----

    /** The window is there: the directory is its own last page table. */
    ghost predicate WindowOpen()
      reads `mem, `cr3
    {
      cr3 == L.pd && mem[L.pd][1023] == Entry(L.pd, 3)
    }

    /** `pt[i]` for the table at 0xFFC00000 + (k << 12). */
    method LoadWindow(base: Word, i: Index, ghost k: Index, ghost stale: set<Index> := {}) returns (v: Word)
      requires WindowOpen() && Agrees(mem, cr3, tlb, pdes, stale) && 1023 !in stale
      requires base == WINDOW_BASE + k * 0x1000 && Present(mem[L.pd][k])
      modifies `tlb, `pdes
      ensures Agrees(mem, cr3, tlb, pdes, stale)
      ensures v == mem[FrameOf(mem[L.pd][k])][i]
    {
      WindowAccess(L, mem, k, i);
      v := Load(base + 4 * i, stale);
    }

    /** `pt[i] = v` for the table at 0xFFC00000 + (k << 12). */
    method StoreWindow(base: Word, i: Index, v: Word, ghost k: Index, ghost stale: set<Index> := {})
      requires WindowOpen() && Agrees(mem, cr3, tlb, pdes, stale) && 1023 !in stale
      requires base == WINDOW_BASE + k * 0x1000 && Present(mem[L.pd][k]) && Writable(mem[L.pd][k])
      modifies `mem, `tlb, `pdes
      ensures Agrees(old(mem), cr3, tlb, pdes, stale)
      ensures mem == SetEntry(old(mem), FrameOf(old(mem)[L.pd][k]), i, v)
    {
      WindowAccess(L, mem, k, i);
      Store(base + 4 * i, v, stale);
    }

    // ----- paging.c -----

    /** The software walk agrees with the hardware walk on every address, the window included.
        It answers 0 for "absent"; while frame 0 is mapped once, that is what 0 means for every
        address but 0xC0000000. */
    method GetPhysaddr(virtualaddr: Word) returns (r: Word)
      requires TablesValid()
      modifies `tlb, `pdes
      ensures Coherent()
      ensures r == match Translate(mem, cr3, virtualaddr) { case None => 0 case Some(a) => a }
      ensures ZeroOnce(Space(mem, cr3)) ==>
                (r == 0 <==> Translate(mem, cr3, virtualaddr) == None || virtualaddr == KERNEL_BASE)
    {
      r := WalkTables(virtualaddr);
      ZeroAnswer(L, mem, slots, virtualaddr);
    }

    /** The loads and tests of `get_physaddr`. */
    method WalkTables(virtualaddr: Word) returns (r: Word)
      requires TablesValid()
      modifies `tlb, `pdes
      ensures TablesValid()
      ensures r == match Translate(mem, L.pd, virtualaddr) { case None => 0 case Some(a) => a }
    {
      Indices(virtualaddr);
      var pdindex := Shr(virtualaddr, 22);
      var ptindex := And(Shr(virtualaddr, 12), 0x3FF);
      var pde := LoadWindow(PD_VIRTUAL, pdindex, 1023);
      EntryBits(pde);
      if And(pde, 1) == 0 {
        return 0;
      }
      var pt := WINDOW_BASE + Shl(pdindex, 12);
      var pte := LoadWindow(pt, ptindex, pdindex);
      EntryBits(pte);
      if And(pte, 1) == 0 {
        return 0;
      }
      pte := LoadWindow(pt, ptindex, pdindex);
      JoinAddress(pte, virtualaddr);
      r := And(pte, 0xFFFF_F000) + And(virtualaddr, 0xFFF);
    }

    /** The raw table entry of an address; 0 when the directory entry is absent. An absent table entry
        is returned all the same. */
    method GetPeValue(virtualaddr: Word) returns (r: Word)
      requires TablesValid()
      modifies `tlb, `pdes
      ensures Coherent()
      ensures var d := DirOf(PageOf(virtualaddr));
              r == if NeedsTable(L, mem, d) then 0 else mem[FrameOf(mem[L.pd][d])][IdxOf(PageOf(virtualaddr))]
    {
      Indices(virtualaddr);
      var pdindex := Shr(virtualaddr, 22);
      var ptindex := And(Shr(virtualaddr, 12), 0x3FF);
      var pde := LoadWindow(PD_VIRTUAL, pdindex, 1023);
      EntryBits(pde);
      if And(pde, 1) == 0 {
        return 0;
      }
      r := LoadWindow(WINDOW_BASE + Shl(pdindex, 12), ptindex, pdindex);
    }

    /** The next pool table, found through the mapping of `kernel_PTs`. There is no check that a
        table is left: call 257 answers the frame behind the pool. */
    method AllocatePt() returns (r: Word)
      requires TablesValid() && kernelPtIndex < 0xF_0000
      modifies `tlb, `pdes, `kernelPtIndex
      ensures Coherent()
      ensures kernelPtIndex == old(kernelPtIndex) + 1
      ensures r == (L.pool + old(kernelPtIndex)) * 0x1000
      ensures L.InPool(FrameOf(r)) <==> old(kernelPtIndex) < 256
      ensures old(kernelPtIndex) < 256 <==> L.pool * 0x1000 <= r < L.pool * 0x1000 + 256 * 0x1000
    {
      var pool := PoolStart();
      r := pool + kernelPtIndex * 0x1000;
      kernelPtIndex := kernelPtIndex + 1;
    }

    /** `get_physaddr(kernel_PTs)`. */
    method PoolStart() returns (pool: Word)
      requires TablesValid()
      modifies `tlb, `pdes
      ensures Coherent() && pool == L.pool * 0x1000
    {
      PoolAddress(L, mem, slots);
      pool := GetPhysaddr(KERNEL_BASE + L.pool * 0x1000);
    }

    /** Mapping under this slot takes table number 257, the frame behind the pool. */
    ghost predicate Overruns(d: Index)
      reads `mem, `slots
    {
      NeedsTable(L, mem, d) && |slots| == 256
    }

    /** The call takes the frame behind the pool, for slot d or as the handler's table for a page of the window. */
    ghost predicate OverrunsAt(d: Index)
      reads `mem, `slots
    {
      Overruns(d) || (d == 1023 && |slots| == 256)
    }

    /** The frame of the table that comes next is in the pool, or free. */
    ghost predicate NextFree()
      reads `slots
    {
      L.Valid() && |slots| <= 256 && (|slots| == 256 ==> !L.Reserved(L.PoolFrame(256)))
    }

    /** A table is left for the slot if it needs one; the frame behind the pool serves as one when it holds
        neither tables nor variables. */
    ghost predicate TableFor(d: Index)
      reads `mem, `slots, `kernelPtIndex
    {
      NeedsTable(L, mem, d) ==> NextFree() && kernelPtIndex == |slots|
    }

    /** `map_page` through the window equals `map_page` on plain physical memory, with no access
        faulting and no cached translation going stale on the way, the abort return included.
        Callers outside the fault handler stay below the window; the handler's window route hands
        in the next pool table for a directory slot that has none. When the pool is used up, the same
        holds of the call that takes the frame behind it, but no table structure is left, and while that
        frame is cleared the caches may hold translations that its old contents gave. */
    method MapPage(physaddr: Word, virtualaddr: Word, flags: Word)
      requires TablesValid()
      requires physaddr % 0x1000 == 0 && flags % 2 == 1
      requires TableFor(DirOf(PageOf(virtualaddr)))
      requires DirOf(PageOf(virtualaddr)) == 1023 ==>
                 && NextFree() && physaddr == L.PoolFrame(|slots|) * 0x1000 && flags == 3
                 && Walk(mem, L.pd, 1023, IdxOf(PageOf(virtualaddr))) == None
      modifies `mem, `tlb, `pdes, `kernelPtIndex, `slots
      ensures Current() == Tables.MapPage(L, old(Current()), DirOf(PageOf(virtualaddr)), IdxOf(PageOf(virtualaddr)),
                                          Entry(FrameOf(physaddr), flags % 0x1000))
      ensures old(WalkPage(mem, L.pd, PageOf(virtualaddr))) == None ==> tlb == map[] && pdes == map[]
      ensures WindowOpen() && Coherent()
      ensures !old(OverrunsAt(DirOf(PageOf(virtualaddr)))) ==>
                && TablesValid()
                && slots == if DirOf(PageOf(virtualaddr)) == 1023 then old(slots) + [IdxOf(PageOf(virtualaddr))]
                            else SlotsAfter(L, old(mem), old(slots), DirOf(PageOf(virtualaddr)))
    {
      Indices(virtualaddr);
      EntryValue(physaddr, flags);
      var e := Or(physaddr, And(flags, 0xFFF));
      MapEntry(Shr(virtualaddr, 22), And(Shr(virtualaddr, 12), 0x3FF), e);
    }

    method MapEntry(pdindex: Index, ptindex: Index, e: Word)
      requires TablesValid() && Present(e) && TableFor(pdindex)
      requires pdindex == 1023 ==> NextFree() && e == Entry(L.PoolFrame(|slots|), 3)
                                   && Walk(mem, L.pd, 1023, ptindex) == None
      modifies `mem, `tlb, `pdes, `kernelPtIndex, `slots
      ensures Current() == Tables.MapPage(L, old(Current()), pdindex, ptindex, e)
      ensures old(Walk(mem, L.pd, pdindex, ptindex)) == None ==> tlb == map[] && pdes == map[]
      ensures WindowOpen() && Coherent()
      ensures !old(OverrunsAt(pdindex)) ==>
                && TablesValid()
                && slots == if pdindex == 1023 then old(slots) + [ptindex]
                             else SlotsAfter(L, old(mem), old(slots), pdindex)
    {
      ghost var overruns := Overruns(pdindex);
      EnsureTable(pdindex);
      SetUnlessPresent(pdindex, ptindex, e, if overruns then {pdindex} else {});
    }

    /** The first half of `map_page`: if the directory entry is absent, take a pool table, enter it,
        flush, and clear it through the window. */
    method EnsureTable(pdindex: Index)
      requires TablesValid() && TableFor(pdindex)
      modifies `mem, `tlb, `pdes, `kernelPtIndex, `slots
      ensures Current() == WithTable(L, old(Current()), pdindex) && !NeedsTable(L, mem, pdindex) && WindowOpen()
      ensures old(NeedsTable(L, mem, pdindex)) ==> IsZero(mem[FrameOf(mem[L.pd][pdindex])])
      ensures !old(Overruns(pdindex)) ==> TablesValid() && slots == SlotsAfter(L, old(mem), old(slots), pdindex)
      ensures old(Overruns(pdindex)) ==> pdindex != 1023 && Overrun(pdindex)
    {
      var pde := LoadWindow(PD_VIRTUAL, pdindex, 1023);
      EntryBits(pde);
      if And(pde, 1) == 0 {
        InstallTable(pdindex);
      }
    }

    /** Slot d leads to a cleared frame of its own; the caches may be out of date for the slot. */
    ghost predicate Overrun(d: Index)
      reads `mem, `cr3, `tlb, `pdes
    {
      && OwnTable(mem, L.pd, d) && Writable(mem[L.pd][d]) && IsZero(mem[FrameOf(mem[L.pd][d])])
      && Agrees(mem, cr3, tlb, pdes, {d})
    }

    method InstallTable(pdindex: Index)
      requires TablesValid() && NeedsTable(L, mem, pdindex) && TableFor(pdindex)
      modifies `mem, `tlb, `pdes, `kernelPtIndex, `slots
      ensures Current() == WithTable(L, old(Current()), pdindex) && !NeedsTable(L, mem, pdindex) && WindowOpen()
      ensures IsZero(mem[FrameOf(mem[L.pd][pdindex])])
      ensures old(|slots|) < 256 ==> TablesValid() && slots == old(slots) + [pdindex]
      ensures old(|slots|) == 256 ==> pdindex != 1023 && Overrun(pdindex)
    {
      ghost var s := Current();
      FreshTable(L, mem, slots, pdindex);
      EnterTable(pdindex);
      PageShift(pdindex);
      ClearTable(WINDOW_BASE + Shl(pdindex, 12), pdindex);
      Installed(L, s, mem, pdindex);
    }

    /** A directory entry for the next pool table. */
    method EnterTable(pdindex: Index)
      requires TablesValid() && NeedsTable(L, mem, pdindex) && TableFor(pdindex)
      modifies `mem, `tlb, `pdes, `kernelPtIndex, `slots
      ensures mem == Install(L, old(mem), old(|slots|), pdindex) && kernelPtIndex == old(|slots|) + 1
      ensures tlb == map[] && pdes == map[] && WindowOpen()
      ensures old(|slots|) < 256 ==>
                TablesValid() && slots == old(slots) + [pdindex] && IsZero(mem[FrameOf(mem[L.pd][pdindex])])
    {
      var newPtPhysaddr := AllocatePt();
      EntryValue(newPtPhysaddr, 3);
      SetDirectoryEntry(pdindex, Or(newPtPhysaddr, 3));
    }

    /** `pd[pdindex] = ... | 3`, then the flush. */
    method SetDirectoryEntry(pdindex: Index, e: Word)
      requires TablesValid()
      requires NeedsTable(L, mem, pdindex) && |slots| <= 256 && e == Entry(L.PoolFrame(|slots|), 3)
      modifies `mem, `tlb, `pdes, `slots
      ensures mem == Install(L, old(mem), old(|slots|), pdindex)
      ensures tlb == map[] && pdes == map[] && WindowOpen()
      ensures old(|slots|) < 256 ==>
                TablesValid() && slots == old(slots) + [pdindex] && IsZero(mem[FrameOf(mem[L.pd][pdindex])])
    {
      StoreWindow(PD_VIRTUAL, pdindex, e, 1023);
      if |slots| < 256 {
        InstallGrows(L, old(mem), slots, pdindex);
        InstallInv(L, old(mem), slots, pdindex);
        GrowthAgrees(old(mem), mem, cr3, tlb, pdes);
        slots := slots + [pdindex];
      }
      FlushTlb();
    }

    /** The clearing loop. On a pool frame, which is zero until issued, it writes zeros over zeros, and no
        cached translation is ever wrong. */
    method ClearTable(newPtVirtaddr: Word, ghost k: Index)
      requires WindowOpen() && Coherent() && newPtVirtaddr == WINDOW_BASE + k * 0x1000
      requires k != 1023 && OwnTable(mem, L.pd, k) && Writable(mem[L.pd][k])
      modifies `mem, `tlb, `pdes
      ensures mem == old(mem)[FrameOf(old(mem)[L.pd][k]) := ZeroFrame()]
      ensures Agrees(mem, cr3, tlb, pdes, {k})
      ensures IsZero(old(mem)[FrameOf(old(mem)[L.pd][k])]) ==> mem == old(mem) && Coherent()
    {
      ghost var m, pt := mem, FrameOf(mem[L.pd][k]);
      ClearedEnds(m[pt]);
      assert m == m[pt := m[pt]];
      for i := 0 to 1024
        invariant cr3 == old(cr3) && mem == m[pt := Cleared(m[pt], i)] && Agrees(mem, cr3, tlb, pdes, {k})
        invariant IsZero(m[pt]) ==> Coherent()
      {
        ClearEntry(newPtVirtaddr, i, k, pt, m);
      }
    }

    method ClearEntry(newPtVirtaddr: Word, i: Index, ghost k: Index, ghost pt: FrameNo, ghost m: Memory)
      requires cr3 == L.pd && m[L.pd][1023] == Entry(L.pd, 3) && newPtVirtaddr == WINDOW_BASE + k * 0x1000
      requires k != 1023 && OwnTable(m, L.pd, k) && Writable(m[L.pd][k]) && pt == FrameOf(m[L.pd][k])
      requires mem == m[pt := Cleared(m[pt], i)] && Agrees(mem, cr3, tlb, pdes, {k})
      requires IsZero(m[pt]) ==> Coherent()
      modifies `mem, `tlb, `pdes
      ensures mem == m[pt := Cleared(m[pt], i + 1)] && Agrees(mem, cr3, tlb, pdes, {k})
      ensures IsZero(m[pt]) ==> Coherent()
    {
      ghost var before := mem;
      ClearedNext(m[pt], i);
      StoreWindow(newPtVirtaddr, i, 0, k, if IsZero(m[pt]) then {} else {k});
      TableEditAgrees(before, cr3, tlb, pdes, k, mem[pt]);
      if IsZero(m[pt]) {
        ClearedZero(m[pt], i);
        ClearedZero(m[pt], i + 1);
      }
    }

    /** The second half of `map_page`: abort if the entry is present, else store it and flush. `stale` names the
        slot when the frame behind the pool has just become its table. */
    method SetUnlessPresent(pdindex: Index, ptindex: Index, e: Word, ghost stale: set<Index>)
      requires WindowOpen() && Present(e) && !NeedsTable(L, mem, pdindex)
      requires stale == {} ==> TablesValid()
      requires stale != {} ==> stale == {pdindex} && pdindex != 1023 && Overrun(pdindex)
      requires pdindex == 1023 ==> NextFree() && e == Entry(L.PoolFrame(|slots|), 3)
                                   && Walk(mem, L.pd, 1023, ptindex) == None
      modifies `mem, `tlb, `pdes, `slots
      ensures mem == SetLeaf(L, old(mem), pdindex, ptindex, e) && WindowOpen() && Coherent()
      ensures !old(Present(mem[FrameOf(mem[L.pd][pdindex])][ptindex])) ==> tlb == map[] && pdes == map[]
      ensures stale == {} && !(pdindex == 1023 && old(|slots|) == 256) ==>
                TablesValid() && slots == if pdindex == 1023 then old(slots) + [ptindex] else old(slots)
    {
      PageShift(pdindex);
      var pt := WINDOW_BASE + Shl(pdindex, 12);
      var pte := LoadWindow(pt, ptindex, pdindex, stale);
      EntryBits(pte);
      if And(pte, 1) == 1 {
        return;
      }
      if pdindex == 1023 {
        SetDirectoryEntry(ptindex, e);
        return;
      }
      SetAndFlush(pt, pdindex, ptindex, e, stale);
    }

    /** `pt[ptindex] = ...`, then the flush. */
    method SetAndFlush(pt: Word, pdindex: Index, ptindex: Index, e: Word, ghost stale: set<Index>)
      requires WindowOpen() && Present(e) && !NeedsTable(L, mem, pdindex) && pdindex != 1023
      requires stale == {} ==> TablesValid()
      requires stale != {} ==> stale == {pdindex} && Overrun(pdindex)
      requires pt == WINDOW_BASE + pdindex * 0x1000 && !Present(mem[FrameOf(mem[L.pd][pdindex])][ptindex])
      modifies `mem, `tlb, `pdes
      ensures mem == SetLeaf(L, old(mem), pdindex, ptindex, e) && WindowOpen()
      ensures tlb == map[] && pdes == map[]
      ensures stale == {} ==> TablesValid()
    {
      if stale == {} {
        SlotTarget(L, mem, slots, pdindex);
      }
      StoreWindow(pt, ptindex, e, pdindex, stale);
      if stale == {} {
        SetLeafRefines(L, old(mem), slots, pdindex, ptindex, e);
        SetLeafGrows(L, old(mem), slots, pdindex, ptindex, e);
        GrowthAgrees(old(mem), mem, cr3, tlb, pdes);
      }
      FlushTlb();
    }

    // ----- building the page index -----

    /** The index agrees with the walk on all 2^20 pages. Every load is translated, those of slot
        1023 included, where the table read is the directory. */
    method MapVirtualMemory()
      requires TablesValid() && virtualMmap.Length == 0x8000
      modifies `tlb, `pdes, virtualMmap
      ensures Coherent()
      ensures forall p: PageNo :: Taken(virtualMmap[..], p) <==> WalkPage(mem, L.pd, p).Some?
    {
      for pdindex := 0 to 1024
        invariant TablesValid()
        invariant forall w | 0 <= w < pdindex * 32 :: WordAgrees(L, mem, virtualMmap[w], w)
      {
        MapDirectoryEntry(pdindex);
      }
      IndexAgrees(L, mem, virtualMmap[..]);
    }

    /** The 32 words of one directory entry. */
    method MapDirectoryEntry(pdindex: Index)
      requires TablesValid() && virtualMmap.Length == 0x8000
      modifies `tlb, `pdes, virtualMmap
      ensures Coherent()
      ensures forall w | 0 <= w < pdindex * 32 :: virtualMmap[w] == old(virtualMmap[w])
      ensures forall w | pdindex * 32 <= w < pdindex * 32 + 32 :: WordAgrees(L, mem, virtualMmap[w], w)
    {
      var pde := LoadWindow(PD_VIRTUAL, pdindex, 1023);
      EntryBits(pde);
      for group := 0 to 32
        invariant TablesValid()
        invariant forall w | 0 <= w < pdindex * 32 :: virtualMmap[w] == old(virtualMmap[w])
        invariant forall w | pdindex * 32 <= w < pdindex * 32 + group :: WordAgrees(L, mem, virtualMmap[w], w)
      {
        var cnt := 0;
        if And(pde, 1) == 1 {
          cnt := PresentBits(pdindex, group);
        }
        GroupAgrees(L, mem, pdindex, group, cnt);
        virtualMmap[pdindex * 32 + group] := cnt;
      }
    }

    /** The innermost loop: the present bits of 32 consecutive entries, first entry highest. */
    method PresentBits(pdindex: Index, group: nat) returns (cnt: Word)
      requires TablesValid() && !NeedsTable(L, mem, pdindex) && group < 32
      modifies `tlb, `pdes
      ensures Coherent()
      ensures RowFits(mem[FrameOf(mem[L.pd][pdindex])], group, cnt, 32)
    {
      PageShift(pdindex);
      cnt := CollectBits(WINDOW_BASE + Shl(pdindex, 12), pdindex, group);
    }

    method CollectBits(pt: Word, ghost pdindex: Index, group: nat) returns (cnt: Word)
      requires WindowOpen() && Coherent() && Present(mem[L.pd][pdindex]) && pt == WINDOW_BASE + pdindex * 0x1000
      requires group < 32
      modifies `tlb, `pdes
      ensures Coherent() && RowFits(mem[FrameOf(mem[L.pd][pdindex])], group, cnt, 32)
    {
      ghost var table := mem[FrameOf(mem[L.pd][pdindex])];
      cnt := 0;
      NoRow(table, group);
      for entry := 0 to 32
        invariant WindowOpen() && Coherent() && RowFits(table, group, cnt, entry)
      {
        cnt := AppendEntry(pt, pdindex, group, entry, cnt);
      }
    }

    method AppendEntry(pt: Word, ghost pdindex: Index, group: nat, entry: nat, cnt: Word) returns (cnt': Word)
      requires WindowOpen() && Coherent() && Present(mem[L.pd][pdindex]) && pt == WINDOW_BASE + pdindex * 0x1000
      requires group < 32 && entry < 32 && RowFits(mem[FrameOf(mem[L.pd][pdindex])], group, cnt, entry)
      modifies `tlb, `pdes
      ensures Coherent() && RowFits(mem[FrameOf(mem[L.pd][pdindex])], group, cnt', entry + 1)
    {
      AppendRow(mem[FrameOf(mem[L.pd][pdindex])], group, cnt, entry);
      var pte := LoadWindow(pt, EntryNo(group, entry), pdindex);
      cnt' := WithEntry(cnt, pte);
    }

    // ----- the whole kernel state -----

    ghost function Alloc(): Allocator
      requires virtualMmap.Length == 0x8000
      reads this, virtualMmap
    {
      Allocator(virtualMmap[..], curVirtaddrIdx)
    }

    ghost function State(): K.State
      requires virtualMmap.Length == 0x8000
      reads this, virtualMmap
    {
      K.State(Current(), curPhysaddr, Alloc())
    }

    ghost predicate Valid()
      reads this, virtualMmap
    {
      && virtualMmap.Length == 0x8000
      && TablesValid()
      && K.Good(L, State(), slots)
    }

    /** `init_page_allocation`, before the first request: from here on the index covers every translated
        page from 0xC0000000 to the window. */
    method InitPageAllocation()
      requires Valid() && curVirtaddrIdx == 768 * 32
      modifies `tlb, `pdes, virtualMmap
      ensures Valid() && Q.Covered(L, State())
      ensures forall p: PageNo :: Taken(virtualMmap[..], p) <==> WalkPage(mem, L.pd, p).Some?
    {
      MapVirtualMemory();
      assert Alloc().Valid();
    }

    /** The search that resumes at the hint gives what first fit from 0xC0000000 gives, takes exactly
        that page, and answers NULL, changing nothing, only when every page is taken. */
    method FindFreeVirtaddr() returns (r: Word)
      requires virtualMmap.Length == 0x8000 && Alloc().Valid()
      modifies `curVirtaddrIdx, virtualMmap
      ensures Alloc() == old(Alloc().Find().1)
      ensures r == match old(Alloc().Find().0) { case None => 0 case Some(p) => p * 0x1000 }
      ensures r == 0 ==> forall p: PageNo | 0xC_0000 <= p :: Taken(old(virtualMmap[..]), p)
      ensures r != 0 ==> 0xC000_0000 <= r && r % 0x1000 == 0 && !Taken(old(virtualMmap[..]), r / 0x1000)
      ensures r != 0 ==> forall p: PageNo | 0xC_0000 <= p < r / 0x1000 :: Taken(old(virtualMmap[..]), p)
      ensures forall p: PageNo ::
                Taken(virtualMmap[..], p) <==> Taken(old(virtualMmap[..]), p) || (r != 0 && p == r / 0x1000)
    {
      FirstFit(Alloc());
      r := SearchIndex();
    }

    method SearchIndex() returns (r: Word)
      requires virtualMmap.Length == 0x8000 && Alloc().Valid()
      modifies `curVirtaddrIdx, virtualMmap
      ensures Alloc() == old(Alloc().Find().1)
      ensures r == match old(Alloc().Find().0) { case None => 0 case Some(p) => p * 0x1000 }
    {
      ghost var bits := virtualMmap[..];
      var ptr := curVirtaddrIdx;
      while ptr < 1024 * 32
        invariant curVirtaddrIdx == old(curVirtaddrIdx) <= ptr <= 0x8000 && virtualMmap[..] == bits
        invariant forall p: PageNo | FIRST_PAGE <= p < ptr * 32 :: Taken(bits, p)
      {
        for i := 0 to 32
          invariant curVirtaddrIdx == old(curVirtaddrIdx) && virtualMmap[..] == bits
          invariant forall p: PageNo | FIRST_PAGE <= p < ptr * 32 + i :: Taken(bits, p)
        {
          WordBit(bits, ptr, i);
          if And(Shr(virtualMmap[ptr], 31 - i), 1) != 1 {
            FirstFreeUnique(bits, FIRST_PAGE, ptr * 32 + i);
            MarkWord(bits, ptr, i);
            virtualMmap[ptr] := Or(virtualMmap[ptr], Shl(1, 31 - i));
            curVirtaddrIdx := ptr;
            PageShift(ptr * 32 + i);
            return Shl(ptr * 32 + i, 12);
          }
        }
        ptr := ptr + 1;
      }
      FirstFreeUnique(bits, FIRST_PAGE, PAGES);
      return 0;
    }

    method FindFreePhysaddr() returns (r: Word)
      modifies `curPhysaddr
      ensures r == old(curPhysaddr) && curPhysaddr == K.NextPhys(old(curPhysaddr))
    {
      r := curPhysaddr;
      curPhysaddr := (curPhysaddr + 0x1000) % 0x1_0000_0000;
    }

    /** A supervisor not-present fault is handled by the step `HandleFault`, protection and user-mode
        faults, bits 0 and 2 of the error code, halt the machine with nothing changed. The fault that takes
        the frame behind the pool is handled by the same step, but leaves no table structure. */
    method PageFaultHandler(virtualAddress: Word, errorCode: Word) returns (resumed: bool)
      requires Valid()
      requires errorCode % 2 == 0 && errorCode / 4 % 2 == 0 ==>
                 K.FaultReady(L, State(), virtualAddress) || K.FaultBeyond(L, State(), virtualAddress)
      modifies `mem, `tlb, `pdes, `kernelPtIndex, `slots, `curPhysaddr
      ensures !resumed || old(K.FaultReady(L, State(), virtualAddress)) ==> Valid()
      ensures virtualMmap.Length == 0x8000 && WindowOpen() && Coherent()
      ensures resumed <==> errorCode % 2 == 0 && errorCode / 4 % 2 == 0
      ensures resumed ==> State() == K.HandleFault(L, old(State()), virtualAddress)
      ensures resumed && old(K.FaultReady(L, State(), virtualAddress)) ==>
                slots == K.SlotsStep(L, old(State()), old(slots), K.Fault(virtualAddress))
      ensures !resumed ==> State() == old(State())
    {
      ErrorBits(errorCode);
      if And(errorCode, 1) != 0 {
        return false;
      }
      if And(errorCode, 4) != 0 {
        return false;
      }
      HandleNotPresent(virtualAddress);
      return true;
    }

    method HandleNotPresent(va: Word)
      requires Valid() && (K.FaultReady(L, State(), va) || K.FaultBeyond(L, State(), va))
      modifies `mem, `tlb, `pdes, `kernelPtIndex, `slots, `curPhysaddr
      ensures WindowOpen() && Coherent() && State() == K.HandleFault(L, old(State()), va)
      ensures old(K.FaultReady(L, State(), va)) ==>
                Valid() && slots == K.SlotsStep(L, old(State()), old(slots), K.Fault(va))
    {
      ghost var s, slots0 := State(), slots;
      PhysAligned(L, s, slots);
      if K.FaultReady(L, s, va) {
        FaultKeepsGood(L, s, slots, va);
      }
      TakeRoute(va);
      assert State() == K.HandleFault(L, s, va);
    }

    /** `map_page` on the next pool table or on the next demand frame. */
    method TakeRoute(va: Word)
      requires virtualMmap.Length == 0x8000 && TablesValid() && kernelPtIndex == |slots| && curPhysaddr % 0x1000 == 0
      requires K.FaultReady(L, State(), va) || K.FaultBeyond(L, State(), va)
      modifies `mem, `tlb, `pdes, `kernelPtIndex, `slots, `curPhysaddr
      ensures WindowOpen() && Coherent() && State() == K.HandleFault(L, old(State()), va)
      ensures old(K.FaultReady(L, State(), va)) ==>
                TablesValid() && slots == K.SlotsStep(L, old(State()), old(slots), K.Fault(va))
    {
      Indices(va);
      if Shr(va, 22) == 0x3FF {
        MapWindow(va);
      } else {
        MapDemand(va);
      }
    }

    /** The handler's window route: the directory is edited as a page table. */
    method MapWindow(va: Word)
      requires TablesValid() && NextFree() && kernelPtIndex == |slots|
      requires DirOf(PageOf(va)) == 1023 && Walk(mem, L.pd, 1023, IdxOf(PageOf(va))) == None
      modifies `mem, `tlb, `pdes, `kernelPtIndex, `slots
      ensures WindowOpen() && Coherent()
      ensures Current() == Tables.MapPage(L, old(Current().(issued := kernelPtIndex + 1)), 1023, IdxOf(PageOf(va)),
                                          Entry(L.PoolFrame(old(kernelPtIndex)), 3))
      ensures old(|slots|) < 256 ==> TablesValid() && slots == old(slots) + [IdxOf(PageOf(va))]
    {
      var physaddr := AllocatePt();
      MapPage(physaddr, va, 3);
    }

    /** The handler's route for all other addresses: the next demand frame is mapped. */
    method MapDemand(va: Word)
      requires TablesValid() && kernelPtIndex == |slots| && curPhysaddr % 0x1000 == 0
      requires DirOf(PageOf(va)) != 1023 && TableFor(DirOf(PageOf(va)))
      modifies `mem, `tlb, `pdes, `kernelPtIndex, `slots, `curPhysaddr
      ensures WindowOpen() && Coherent()
      ensures Current() == Tables.MapPage(L, old(Current()), DirOf(PageOf(va)), IdxOf(PageOf(va)),
                                          Entry(FrameOf(old(curPhysaddr)), 3))
      ensures curPhysaddr == K.NextPhys(old(curPhysaddr))
      ensures !old(Overruns(DirOf(PageOf(va)))) ==>
                TablesValid() && slots == SlotsAfter(L, old(mem), old(slots), DirOf(PageOf(va)))
    {
      var physaddr := FindFreePhysaddr();
      MapFrame(physaddr, va, DirOf(PageOf(va)), IdxOf(PageOf(va)), FrameOf(physaddr));
    }

    method MapFrame(physaddr: Word, va: Word, ghost d: Index, ghost t: Index, ghost f: FrameNo)
      requires TablesValid() && physaddr % 0x1000 == 0 && f == FrameOf(physaddr)
      requires d == DirOf(PageOf(va)) != 1023 && t == IdxOf(PageOf(va)) && TableFor(d)
      modifies `mem, `tlb, `pdes, `kernelPtIndex, `slots
      ensures WindowOpen() && Coherent() && Current() == Tables.MapPage(L, old(Current()), d, t, Entry(f, 3))
      ensures !old(Overruns(d)) ==> TablesValid() && slots == SlotsAfter(L, old(mem), old(slots), d)
    {
      MapPage(physaddr, va, 3);
    }

    /** The sequence `find_free_virtaddr`, `map_page(frame, page, 3)` of rsdt.c and apic.c, which takes NULL for
        page 0. */
    method FindAndMap(physaddr: Word) returns (r: Word)
      requires Valid() && physaddr % 0x1000 == 0 && (K.MapReady(L, State()) || K.NullReady(L, State()))
      modifies `mem, `tlb, `pdes, `kernelPtIndex, `slots, `curVirtaddrIdx, virtualMmap
      ensures Valid()
      ensures r == old(K.PageGiven(State())) * 0x1000
      ensures old(K.NullReady(L, State())) ==> State() == K.MapNull(L, old(State()), FrameOf(physaddr))
      ensures old(K.MapReady(L, State())) ==>
                && State() == K.FindAndMap(L, old(State()), FrameOf(physaddr))
                && slots == K.SlotsStep(L, old(State()), old(slots), K.Map(FrameOf(physaddr)))
    {
      ghost var s := State();
      if K.NullReady(L, s) {
        NullKeepsGood(L, s, slots, FrameOf(physaddr));
      } else {
        MapKeepsGood(L, s, slots, FrameOf(physaddr));
      }
      r := TakeAndMap(physaddr, K.PageGiven(s), s.alloc.Find().1);
      assert K.NullReady(L, s) ==> State() == K.MapNull(L, s, FrameOf(physaddr));
      assert K.MapReady(L, s) ==> State() == K.FindAndMap(L, s, FrameOf(physaddr));
    }

    method TakeAndMap(physaddr: Word, ghost p: PageNo, ghost next: Allocator) returns (r: Word)
      requires virtualMmap.Length == 0x8000 && Alloc().Valid() && Alloc().Find().1 == next
      requires p == (match Alloc().Find().0 { case None => 0 case Some(q) => q })
      requires TablesValid() && kernelPtIndex == |slots| && physaddr % 0x1000 == 0
      requires p < K.WINDOW && TableLeft(L, Current(), DirOf(p))
      modifies `mem, `tlb, `pdes, `kernelPtIndex, `slots, `curVirtaddrIdx, virtualMmap
      ensures TablesValid() && Alloc() == next && r == p * 0x1000
      ensures Current() == Tables.MapPage(L, old(Current()), DirOf(p), IdxOf(p), Entry(FrameOf(physaddr), 3))
      ensures slots == SlotsAfter(L, old(mem), old(slots), DirOf(p))
    {
      r := FindFreeVirtaddr();
      MapFound(physaddr, r, p);
    }

    method MapFound(physaddr: Word, r: Word, ghost p: PageNo)
      requires TablesValid() && kernelPtIndex == |slots| && physaddr % 0x1000 == 0
      requires r == p * 0x1000 && p < K.WINDOW && TableLeft(L, Current(), DirOf(p))
      modifies `mem, `tlb, `pdes, `kernelPtIndex, `slots
      ensures TablesValid()
      ensures Current() == Tables.MapPage(L, old(Current()), DirOf(p), IdxOf(p), Entry(FrameOf(physaddr), 3))
      ensures slots == SlotsAfter(L, old(mem), old(slots), DirOf(p))
    {
      assert PageOf(r) == p && DirOf(p) != 1023;
      MapPage(physaddr, r, 3);
    }

    /** A load of data at offset o of frame f; only cached translations change. */
    method LoadData(va: Word, ghost f: FrameNo, ghost o: nat) returns (v: Word)
      requires TablesValid() && va % 0x1000 == o <= 0xFFC
      requires WalkPage(mem, L.pd, PageOf(va)).Some? && WalkPage(mem, L.pd, PageOf(va)).value.frame == f
      modifies `tlb, `pdes
      ensures TablesValid()
      ensures v == WordAt(mem[f], o)
    {
      v := Load(va);
    }

    ghost predicate Shows(read: Bytes, mapped: nat -> bool)
      reads `mem, `cr3, `tlb, `pdes, `slots
    {
      TablesValid() && Sees(mem, L.pd, read, mapped)
    }

    /** A load of one byte, as the program sees memory. */
    method Peek(va: nat, ghost read: Bytes, ghost mapped: nat -> bool) returns (b: Byte)
      requires Shows(read, mapped) && mapped(va)
      modifies `tlb, `pdes
      ensures Shows(read, mapped)
      ensures b == read(va)
    {
      assert read(va) == ByteSeen(mem, L.pd, va);
      b := LoadByte(va, WalkPage(mem, L.pd, PageOf(va)).value.frame, va % 0x1000);
    }

    /** A load of a word within a page, as the program sees memory. */
    method PeekWord(va: nat, ghost read: Bytes, ghost mapped: nat -> bool) returns (v: Word)
      requires Shows(read, mapped) && Range(mapped, va, 4) && va % 0x1000 <= 0xFFC
      modifies `tlb, `pdes
      ensures Shows(read, mapped)
      ensures v == Word32(read, va)
    {
      WordShown(mem, L.pd, read, mapped, va);
      v := LoadData(va, WalkPage(mem, L.pd, PageOf(va)).value.frame, va % 0x1000);
    }

    /** A load of one byte. */
    method LoadByte(va: Word, ghost f: FrameNo, ghost o: nat) returns (b: Byte)
      requires TablesValid() && va % 0x1000 == o
      requires WalkPage(mem, L.pd, PageOf(va)).Some? && WalkPage(mem, L.pd, PageOf(va)).value.frame == f
      modifies `tlb, `pdes
      ensures TablesValid()
      ensures b == ByteAt(mem[f], o)
    {
      Speculate();
      b := ByteAt(mem[Resolve(PageOf(va)).value.frame], va % 0x1000);
    }

    /** A load of one byte anywhere: where nothing is mapped, the page fault handler maps a page, and the
        load is made again. */
    method Touch(va: Word) returns (b: Byte)
      requires Valid() && (WalkPage(mem, L.pd, PageOf(va)) == None ==> K.FaultReady(L, State(), va))
      modifies `mem, `tlb, `pdes, `kernelPtIndex, `slots, `curPhysaddr
      ensures Valid() && Mapped(mem, L.pd, va)
      ensures State() == if old(WalkPage(mem, L.pd, PageOf(va))) != None then old(State())
                else K.HandleFault(L, old(State()), va)
      ensures b == ByteSeen(mem, L.pd, va)
    {
      FaultIn(va);
      b := LoadByte(va, WalkPage(mem, L.pd, PageOf(va)).value.frame, va % 0x1000);
    }

    /** The first attempt of the load, which faults where nothing is mapped. */
    method FaultIn(va: Word)
      requires Valid() && (WalkPage(mem, L.pd, PageOf(va)) == None ==> K.FaultReady(L, State(), va))
      modifies `mem, `tlb, `pdes, `kernelPtIndex, `slots, `curPhysaddr
      ensures Valid() && WalkPage(mem, L.pd, PageOf(va)).Some?
      ensures State() == if old(WalkPage(mem, L.pd, PageOf(va))) != None then old(State())
                else K.HandleFault(L, old(State()), va)
    {
      Speculate();
      if Resolve(PageOf(va)) == None {
        FaultMaps(L, State(), slots, va);
        var resumed := PageFaultHandler(va, 0);
      }
    }

    /** A store at offset o of frame f, which is not reserved, changes that frame and nothing else. */
    method StoreData(va: Word, v: Word, ghost f: FrameNo, ghost o: nat)
      requires Valid() && va % 0x1000 == o <= 0xFFC
      requires WalkPage(mem, L.pd, PageOf(va)) == Some(Leaf(f, true)) && !L.Reserved(f)
      modifies `mem, `tlb, `pdes
      ensures Valid()
      ensures State() == old(State()).(tables := TableState(mem, kernelPtIndex))
      ensures mem == old(mem)[f := PutWord(old(mem)[f], o, v)]
      ensures K.Pages(L, State()) == old(K.Pages(L, State()))
    {
      Store(va, v);
      DataWriteKeeps(L, old(mem), mem, slots);
    }

    /** Mapping the page of a physical address at a fresh virtual page and adding the page offset back:
        with a covering index the resulting address translates to the physical one. */
    method MapPhysical(phys: Word) returns (va: Word)
      requires Valid() && Q.Covered(L, State()) && K.MapReady(L, State())
      modifies `mem, `tlb, `pdes, `kernelPtIndex, `slots, `curVirtaddrIdx, virtualMmap
      ensures Valid() && Q.Covered(L, State())
      ensures State() == K.FindAndMap(L, old(State()), FrameOf(phys))
      ensures slots == K.SlotsStep(L, old(State()), old(slots), K.Map(FrameOf(phys)))
      ensures K.Extends(old(K.Pages(L, State())), K.Pages(L, State()))
      ensures forall f: FrameNo | !L.IsTable(f) :: mem[f] == old(mem)[f]
      ensures Translate(mem, L.pd, va) == Some(phys) && va >= KERNEL_BASE
      ensures WalkPage(mem, L.pd, PageOf(va)) == Some(Leaf(FrameOf(phys), true)) && va % 0x1000 == phys % 0x1000
    {
      ghost var s := State();
      MapPhysicalStep(L, s, slots, FrameOf(phys));
      MaskPhysical(phys);
      ghost var p := s.alloc.Find().0.value;
      var page := FindAndMap(And(phys, 0xFFFF_F000));
      assert mem == K.FindAndMap(L, s, FrameOf(phys)).tables.mem;
      OffsetTranslates(mem, L.pd, page, p, phys);
      va := WithOffset(page, phys);
    }
  }

  /** `page + (phys & 0xFFF)` for a page address. */
  function WithOffset(page: Word, phys: Word): Word
    requires page % 0x1000 == 0
  {
    AddressSplit(phys);
    page + And(phys, 0xFFF)
  }

  lemma OffsetTranslates(m: Memory, root: FrameNo, page: Word, p: PageNo, phys: Word)
    requires page == p * 0x1000 && WalkPage(m, root, p) == Some(Leaf(FrameOf(phys), true))
    ensures page % 0x1000 == 0
    ensures var va := WithOffset(page, phys);
            && Translate(m, root, va) == Some(phys)
            && WalkPage(m, root, PageOf(va)) == Some(Leaf(FrameOf(phys), true)) && va % 0x1000 == phys % 0x1000
            && (p >= FIRST_PAGE ==> va >= KERNEL_BASE)
  {
    OffsetPage(page, p, phys);
    FrameAndOffset(phys);
  }

  lemma FrameAndOffset(phys: Word)
    ensures phys == FrameOf(phys) * 0x1000 + phys % 0x1000
  {
  }

  lemma OffsetPage(page: Word, p: PageNo, phys: Word)
    requires page == p * 0x1000
    ensures PageOf(WithOffset(page, phys)) == p && WithOffset(page, phys) % 0x1000 == phys % 0x1000
    ensures p >= FIRST_PAGE ==> WithOffset(page, phys) >= KERNEL_BASE
  {
    AddressSplit(phys);
  }

  /** apic.c joins page and offset by "or", rsdt.c adds them: it makes no difference. */
  lemma OffsetByOr(page: Word, phys: Word)
    requires page % 0x1000 == 0
    ensures Or(page, And(phys, 0xFFF)) == WithOffset(page, phys)
  {
    EntryJoin(page, phys);
    AddressSplit(phys);
  }

  lemma FaultMaps(L: Layout, s: K.State, slots: seq<Index>, va: Word)
    requires K.Good(L, s, slots) && K.FaultReady(L, s, va)
    ensures WalkPage(K.HandleFault(L, s, va).tables.mem, L.pd, PageOf(va)).Some?
  {
    R.FaultProgress(L, s, slots, va);
  }

  lemma MaskPhysical(phys: Word)
    ensures And(phys, 0xFFFF_F000) < 0x1_0000_0000
    ensures And(phys, 0xFFFF_F000) % 0x1000 == 0 && FrameOf(And(phys, 0xFFFF_F000)) == FrameOf(phys)
  {
    EntrySplit(phys);
  }

  lemma MapPhysicalStep(L: Layout, s: K.State, slots: seq<Index>, frame: FrameNo)
    requires K.Good(L, s, slots) && Q.Covered(L, s) && K.MapReady(L, s)
    ensures var s' := K.FindAndMap(L, s, frame);
            && Q.Covered(L, s')
            && K.Extends(K.Pages(L, s), K.Pages(L, s'))
            && WalkPage(s'.tables.mem, L.pd, s.alloc.Find().0.value) == Some(Leaf(frame, true))
            && s.alloc.Find().0.value >= FIRST_PAGE
            && (forall f: FrameNo | !L.IsTable(f) :: s'.tables.mem[f] == s.tables.mem[f])
  {
    FindLowest(s.alloc);
    R.MapKeeps(L, s, slots, frame);
    Q.CoveredStep(L, s, slots, K.Map(frame));
    Q.CoveredDelivers(L, s, slots, frame);
    R.MapAdds(L, s, slots, s.alloc.Find().0.value, frame);
  }

  /** The number shows which of the first n entries of a group are present. */
  ghost predicate RowAgrees(fr: Frame, group: nat, x: nat, n: nat)
    requires group < 32 && n <= 32
  {
    forall j: nat | j < n :: TopBit(x, n, j) <==> Present(fr[group * 32 + j])
  }

  /** Entry n of a group of 32. */
  function EntryNo(group: nat, n: nat): Index
    requires group < 32 && n < 32
  {
    group * 32 + n
  }

  /** `cnt <<= 1; cnt |= (pte & 1)`, in 32 bits: after at most 32 of them nothing is lost. */
  function WithEntry(cnt: Word, pte: Word): Word {
    var y := Or(Shl(cnt, 1), And(pte, 1));
    if y < 0x1_0000_0000 then y else y % 0x1_0000_0000
  }

  ghost predicate RowFits(fr: Frame, group: nat, x: nat, n: nat)
    requires group < 32 && n <= 32
  {
    x < Pow2(n) && RowAgrees(fr, group, x, n)
  }

  lemma NoRow(fr: Frame, group: nat)
    requires group < 32
    ensures RowFits(fr, group, 0, 0)
  {
  }

  lemma AppendRow(fr: Frame, group: nat, x: Word, n: nat)
    requires group < 32 && n < 32 && RowFits(fr, group, x, n)
    ensures RowFits(fr, group, WithEntry(x, fr[EntryNo(group, n)]), n + 1)
  {
    var pte := fr[EntryNo(group, n)];
    var b := And(pte, 1);
    EntryBits(pte);
    AppendedFits(x, b, n);
    AppendedBits(fr, group, x, n, b);
  }

  lemma AppendedBits(fr: Frame, group: nat, x: nat, n: nat, b: nat)
    requires group < 32 && n < 32 && RowAgrees(fr, group, x, n)
    requires b == if Present(fr[group * 32 + n]) then 1 else 0
    ensures RowAgrees(fr, group, Or(Shl(x, 1), b), n + 1)
  {
    AppendBit(x, b);
    RowBits(fr, group, x, Or(Shl(x, 1), b), n);
  }

  lemma AppendedFits(x: nat, b: nat, n: nat)
    requires x < Pow2(n) && b < 2 && n < 32
    ensures Or(Shl(x, 1), b) < Pow2(n + 1) && Or(Shl(x, 1), b) < 0x1_0000_0000
  {
    AppendBit(x, b);
    WordRange();
    if n < 31 { Pow2Grows(n + 1, 32); }
  }

  lemma RowBits(fr: Frame, group: nat, x: nat, y: nat, n: nat)
    requires group < 32 && n < 32 && RowAgrees(fr, group, x, n)
    requires (Bit(y, 0) <==> Present(fr[group * 32 + n])) && forall k: nat :: Bit(y, k + 1) <==> Bit(x, k)
    ensures RowAgrees(fr, group, y, n + 1)
  {
    var n' := n + 1;
    forall j: nat | j < n'
      ensures TopBit(y, n', j) <==> Present(fr[group * 32 + j])
    {
      if j < n {
        assert TopBit(x, n, j) <==> Bit(y, n - 1 - j + 1);
      }
    }
  }

  /** Word w of the index shows which of its 32 pages translate. */
  ghost predicate WordAgrees(L: Layout, m: Memory, word: Word, w: nat)
    requires w < 0x8000
  {
    forall j: nat | j < 32 :: TopBit(word, 32, j) <==> WalkPage(m, L.pd, w * 32 + j).Some?
  }

  lemma GroupPage(d: Index, group: nat, j: nat)
    requires group < 32 && j < 32
    ensures (d * 32 + group) * 32 + j < 0x10_0000
    ensures DirOf((d * 32 + group) * 32 + j) == d && IdxOf((d * 32 + group) * 32 + j) == group * 32 + j
  {
    assert (d * 32 + group) * 32 + j == PageAt(d, group * 32 + j);
  }

  lemma GroupAgrees(L: Layout, m: Memory, d: Index, group: nat, cnt: Word)
    requires group < 32
    requires NeedsTable(L, m, d) ==> cnt == 0
    requires !NeedsTable(L, m, d) ==> RowFits(m[FrameOf(m[L.pd][d])], group, cnt, 32)
    ensures WordAgrees(L, m, cnt, d * 32 + group)
  {
    forall j: nat | j < 32
      ensures TopBit(cnt, 32, j) <==> WalkPage(m, L.pd, (d * 32 + group) * 32 + j).Some?
    {
      GroupPage(d, group, j);
      BitOfZero(31 - j);
    }
  }

  lemma IndexAgrees(L: Layout, m: Memory, bits: PageIndex)
    requires forall w | 0 <= w < 0x8000 :: WordAgrees(L, m, bits[w], w)
    ensures forall p: PageNo :: Taken(bits, p) <==> WalkPage(m, L.pd, p).Some?
  {
    forall p: PageNo
      ensures Taken(bits, p) <==> WalkPage(m, L.pd, p).Some?
    {
      assert WordAgrees(L, m, bits[p / 32], p / 32);
      assert p == p / 32 * 32 + p % 32;
    }
  }

  lemma ErrorBits(e: Word)
    ensures And(e, 1) == 0 <==> e % 2 == 0
    ensures And(e, 4) == 0 <==> e / 4 % 2 == 0
  {
    LowBit(e);
    AndEven(e, 2);
    AndEven(e / 2, 1);
    LowBit(e / 2 / 2);
    assert e / 2 / 2 == e / 4;
  }

  lemma WordBit(bits: PageIndex, ptr: nat, i: nat)
    requires ptr < 0x8000 && i < 32
    ensures And(Shr(bits[ptr], 31 - i), 1) == 1 <==> Taken(bits, ptr * 32 + i)
  {
    BitIsShr(bits[ptr], 31 - i);
    assert (ptr * 32 + i) / 32 == ptr && (ptr * 32 + i) % 32 == i;
  }

  lemma PhysAligned(L: Layout, s: K.State, slots: seq<Index>)
    requires K.Good(L, s, slots)
    ensures s.phys % 0x1000 == 0 && s.tables.issued == |slots|
  {
  }

  lemma FaultKeepsGood(L: Layout, s: K.State, slots: seq<Index>, va: Word)
    requires K.Good(L, s, slots) && K.FaultReady(L, s, va)
    ensures K.Good(L, K.HandleFault(L, s, va), K.SlotsStep(L, s, slots, K.Fault(va)))
    ensures s.phys % 0x1000 == 0
  {
    R.FaultProgress(L, s, slots, va);
  }

  lemma MapKeepsGood(L: Layout, s: K.State, slots: seq<Index>, frame: FrameNo)
    requires K.Good(L, s, slots) && K.MapReady(L, s)
    ensures K.Good(L, K.FindAndMap(L, s, frame), K.SlotsStep(L, s, slots, K.Map(frame)))
    ensures s.alloc.Valid()
  {
    R.MapKeeps(L, s, slots, frame);
  }

  lemma NullKeepsGood(L: Layout, s: K.State, slots: seq<Index>, frame: FrameNo)
    requires K.Good(L, s, slots) && K.NullReady(L, s)
    ensures K.Good(L, K.MapNull(L, s, frame), SlotsAfter(L, s.tables.mem, slots, DirOf(K.PageGiven(s))))
    ensures s.alloc.Find().1 == s.alloc
  {
    R.NullKeeps(L, s, slots, frame);
  }

  /** Marking page ptr * 32 + i in the index is `virtual_mmap[ptr] |= 1 << (31 - i)`. */
  lemma MarkWord(bits: PageIndex, ptr: nat, i: nat)
    requires ptr < 0x8000 && i < 32
    ensures Or(bits[ptr], Shl(1, 31 - i)) < 0x1_0000_0000
    ensures Mark(bits, ptr * 32 + i) == bits[ptr := Or(bits[ptr], Shl(1, 31 - i))]
  {
    ShlIsMul(1, 31 - i);
    assert (ptr * 32 + i) / 32 == ptr && (ptr * 32 + i) % 32 == i;
    assert Mark(bits, ptr * 32 + i)[ptr] < 0x1_0000_0000;
  }
}
