/** The kernel's page tables: the structure every run keeps, the table edits as plain writes to
    physical frames, and what each edit does to the address space. */
module Tables {
  import opened Hardware

  /** Where the linker put things, as physical frame numbers: the page directory, the boot page
      table, the first of the 256 preallocated tables `kernel_PTs`, the first frame behind the kernel
      image, and the frames of the variables that `Machine` keeps as fields, `virtual_mmap` and the
      counters. The image starts at 1 MiB and ends below the slot of the VGA page. */
  datatype Layout = Layout(pd: FrameNo, boot: FrameNo, pool: FrameNo, end: FrameNo, vars: set<FrameNo>) {
    predicate Valid() {
      && end <= 1023
      && 256 <= pd < end && 256 <= boot < end && 256 <= pool && pool + 256 <= end
      && pd != boot && !InPool(pd) && !InPool(boot)
      && forall f | f in vars :: 256 < f < end && !IsTable(f)
    }

    predicate InPool(f: FrameNo) { pool <= f < pool + 256 }

    function PoolFrame(j: nat): FrameNo
      requires pool + j < 0x10_0000
    {
      pool + j
    }

    predicate IsTable(f: FrameNo) { f == pd || f == boot || InPool(f) }

    /** A frame an ordinary store must not reach: it holds a table or the paging code's variables. */
    predicate Reserved(f: FrameNo) { IsTable(f) || f in vars }
  }

  const VGA_FRAME: FrameNo := 0xB8

  /** The structure of the tables. `slots` lists the directory slots that were given a pool
      table, in the order of issue, so its length is `kernel_PT_index`. */
  ghost predicate Inv(L: Layout, m: Memory, slots: seq<Index>) {
    && L.Valid()
    && |slots| <= 256
    && m[L.pd][1023] == Entry(L.pd, 3)
    && m[L.pd][768] == Entry(L.boot, 3)
    && (forall j | 0 <= j < |slots| :: slots[j] != 768 && slots[j] != 1023
                                       && m[L.pd][slots[j]] == Entry(L.PoolFrame(j), 3))
    && (forall k: Index | Present(m[L.pd][k]) && k != 768 && k != 1023 :: k in slots)
    && (forall j: nat | |slots| <= j < 256 :: IsZero(m[L.PoolFrame(j)]))
    && (forall i: Index | i < L.end :: m[L.boot][i] == Entry(i, 3))
    && m[L.boot][1023] == Entry(VGA_FRAME, 3)
  }

  /** A present slot below 1023 leads to the boot table or to an issued pool table. */
  lemma SlotTarget(L: Layout, m: Memory, slots: seq<Index>, d: Index)
    requires Inv(L, m, slots) && d != 1023 && Present(m[L.pd][d])
    ensures FrameOf(m[L.pd][d]) != L.pd && L.IsTable(FrameOf(m[L.pd][d]))
    ensures Writable(m[L.pd][d])
    ensures forall j: nat | |slots| <= j < 256 :: FrameOf(m[L.pd][d]) != L.PoolFrame(j)
  {
    if d != 768 {
      var j :| 0 <= j < |slots| && slots[j] == d;
    }
  }

  /** The tables determine the order in which they were issued. */
  lemma SlotsUnique(L: Layout, m: Memory, a: seq<Index>, b: seq<Index>)
    requires Inv(L, m, a) && Inv(L, m, b) && |a| == |b|
    ensures a == b
  {
    forall j | 0 <= j < |a|
      ensures a[j] == b[j]
    {
      SlotEntry(L, m, a, j);
      SlotOfTable(L, m, b, a[j], j);
    }
  }

  lemma SlotEntry(L: Layout, m: Memory, slots: seq<Index>, j: nat)
    requires Inv(L, m, slots) && j < |slots|
    ensures slots[j] != 768 && slots[j] != 1023 && Present(m[L.pd][slots[j]])
    ensures FrameOf(m[L.pd][slots[j]]) == L.PoolFrame(j)
  {
  }

  lemma SlotOfTable(L: Layout, m: Memory, slots: seq<Index>, d: Index, j: nat)
    requires Inv(L, m, slots) && j < |slots| && d != 768 && d != 1023
    requires Present(m[L.pd][d]) && FrameOf(m[L.pd][d]) == L.PoolFrame(j)
    ensures slots[j] == d
  {
    var i :| 0 <= i < |slots| && slots[i] == d;
    SlotEntry(L, m, slots, i);
  }

  /** Different slots lead to different tables. */
  lemma SlotsDiffer(L: Layout, m: Memory, slots: seq<Index>, d: Index, d': Index)
    requires Inv(L, m, slots) && d != d'
    requires Present(m[L.pd][d]) && Present(m[L.pd][d'])
    ensures FrameOf(m[L.pd][d]) != FrameOf(m[L.pd][d'])
  {
    if d == 1023 {
      SlotTarget(L, m, slots, d');
    } else if d' == 1023 {
      SlotTarget(L, m, slots, d);
    } else {
      if d != 768 { var j :| 0 <= j < |slots| && slots[j] == d; }
      if d' != 768 { var j :| 0 <= j < |slots| && slots[j] == d'; }
    }
  }

  const KERNEL_BASE: Word := 0xC000_0000

  /** The kernel image is seen at 0xC0000000 above its physical place. */
  lemma KernelTranslates(L: Layout, m: Memory, slots: seq<Index>, a: Word)
    requires Inv(L, m, slots) && FrameOf(a) < L.end
    ensures KERNEL_BASE + a < 0x1_0000_0000
    ensures Translate(m, L.pd, KERNEL_BASE + a) == Some(a)
  {
    KernelPage(a);
    assert Walk(m, L.pd, 768, FrameOf(a)) == Some(Leaf(FrameOf(a), true));
  }

  lemma KernelPage(a: Word)
    requires FrameOf(a) < 1023
    ensures KERNEL_BASE + a < 0x1_0000_0000
    ensures PageOf(KERNEL_BASE + a) == PageAt(768, FrameOf(a)) && (KERNEL_BASE + a) % 0x1000 == a % 0x1000
    ensures a == FrameOf(a) * 0x1000 + a % 0x1000
  {
  }

  /** No page but q leads to frame f. */
  ghost predicate OnlyAt(space: map<PageNo, Leaf>, f: FrameNo, q: PageNo) {
    forall p | p in space && space[p].frame == f :: p == q
  }

  /** Only the first page of the kernel mapping leads to physical frame 0. */
  ghost predicate ZeroOnce(space: map<PageNo, Leaf>) {
    OnlyAt(space, 0, PageOf(KERNEL_BASE))
  }

  /** Then address 0xC0000000 alone translates to physical address 0. */
  lemma ZeroAddress(L: Layout, m: Memory, slots: seq<Index>, va: Word)
    requires Inv(L, m, slots) && ZeroOnce(Space(m, L.pd))
    ensures Translate(m, L.pd, va) == Some(0) <==> va == KERNEL_BASE
  {
    if va == KERNEL_BASE {
      BaseTranslates(L, m, slots, va, 0);
    } else if Translate(m, L.pd, va) == Some(0) {
      OnlyBase(m, L.pd, va, 0);
    }
  }

  lemma BaseTranslates(L: Layout, m: Memory, slots: seq<Index>, va: Word, a: Word)
    requires Inv(L, m, slots) && va == KERNEL_BASE + a && a < 0x1000
    ensures Translate(m, L.pd, va) == Some(a)
  {
    BaseFrame(L, a);
    KernelTranslates(L, m, slots, a);
  }

  lemma BaseFrame(L: Layout, a: Word)
    requires L.Valid() && a < 0x1000
    ensures FrameOf(a) < L.end
  {
  }

  lemma OnlyBase(m: Memory, root: FrameNo, va: Word, a: Word)
    requires ZeroOnce(Space(m, root)) && Translate(m, root, va) == Some(a) && a == 0
    ensures va == KERNEL_BASE
  {
    var walk := WalkPage(m, root, PageOf(va));
    assert PageOf(va) in Space(m, root);
    ZeroParts(walk.value.frame, va);
  }

  lemma ZeroParts(f: FrameNo, va: Word)
    ensures f * 0x1000 + va % 0x1000 == 0 ==> f == 0 && va % 0x1000 == 0
    ensures PageOf(va) == PageOf(KERNEL_BASE) && va % 0x1000 == 0 ==> va == KERNEL_BASE
  {
  }

  /** The addresses whose bytes memory has: mapped, and outside the variables kept as fields. */
  function Plain(m: Memory, L: Layout): nat -> bool {
    (a: nat) => Mapped(m, L.pd, a) && WalkPage(m, L.pd, PageOf(a)).value.frame !in L.vars
  }

  lemma PlainSees(m: Memory, L: Layout)
    ensures Sees(m, L.pd, View(m, L.pd), Plain(m, L))
  {
  }

  ghost function PresentSlots(L: Layout, m: Memory): set<Index> {
    set k: Index | 0 <= k < 1024 && Present(m[L.pd][k])
  }

  /** The structure without reference to the order of issue: slot 1023 leads to the directory, 768
      to the boot table, every other present slot to a pool table of its own with number below
      `issued`; exactly 2 + `issued` slots are present; tables not issued are zero. */
  ghost predicate Structured(L: Layout, m: Memory, issued: nat) {
    && L.Valid() && issued <= 256
    && m[L.pd][1023] == Entry(L.pd, 3) && m[L.pd][768] == Entry(L.boot, 3)
    && |PresentSlots(L, m)| == 2 + issued
    && (forall k | k in PresentSlots(L, m) && k != 768 && k != 1023 ::
          L.pool <= FrameOf(m[L.pd][k]) < L.pool + issued && m[L.pd][k] == Entry(FrameOf(m[L.pd][k]), 3))
    && (forall k, k' | k in PresentSlots(L, m) && k' in PresentSlots(L, m) && k != k' ::
          FrameOf(m[L.pd][k]) != FrameOf(m[L.pd][k']))
    && (forall j: nat | issued <= j < 256 :: IsZero(m[L.PoolFrame(j)]))
  }

  lemma StructureHolds(L: Layout, m: Memory, slots: seq<Index>)
    requires Inv(L, m, slots)
    ensures Structured(L, m, |slots|)
  {
    PresentCount(L, m, slots);
    forall k | k in PresentSlots(L, m) && k != 768 && k != 1023
      ensures L.pool <= FrameOf(m[L.pd][k]) < L.pool + |slots|
      ensures m[L.pd][k] == Entry(FrameOf(m[L.pd][k]), 3)
    {
      var j :| 0 <= j < |slots| && slots[j] == k;
    }
    forall k, k' | k in PresentSlots(L, m) && k' in PresentSlots(L, m) && k != k'
      ensures FrameOf(m[L.pd][k]) != FrameOf(m[L.pd][k'])
    {
      SlotsDiffer(L, m, slots, k, k');
    }
  }

  lemma PresentCount(L: Layout, m: Memory, slots: seq<Index>)
    requires Inv(L, m, slots)
    ensures |PresentSlots(L, m)| == 2 + |slots|
  {
    SlotsDistinct(L, m, slots);
    DistinctCount(slots);
    var used := Elements(slots);
    forall k: Index
      ensures k in PresentSlots(L, m) <==> k in used || k == 768 || k == 1023
      ensures k in used ==> k != 768 && k != 1023
    {
      if k in used {
        var j :| 0 <= j < |slots| && slots[j] == k;
      }
    }
    assert PresentSlots(L, m) == used + {768, 1023};
    assert |used + {768, 1023}| == |used| + 2;
  }

  ghost function Elements(slots: seq<Index>): set<Index> {
    set k | k in slots
  }

  lemma SlotsDistinct(L: Layout, m: Memory, slots: seq<Index>)
    requires Inv(L, m, slots)
    ensures forall i, j | 0 <= i < j < |slots| :: slots[i] != slots[j]
  {
    forall i, j | 0 <= i < j < |slots|
      ensures slots[i] != slots[j]
    {
      assert FrameOf(m[L.pd][slots[i]]) == L.PoolFrame(i) && FrameOf(m[L.pd][slots[j]]) == L.PoolFrame(j);
    }
  }

  lemma {:induction false} DistinctCount(slots: seq<Index>)
    requires forall i, j | 0 <= i < j < |slots| :: slots[i] != slots[j]
    ensures |Elements(slots)| == |slots|
  {
    if slots == [] {
      assert Elements(slots) == {};
    } else {
      var last := slots[|slots| - 1];
      var rest := slots[..|slots| - 1];
      DistinctCount(rest);
      assert Elements(slots) == Elements(rest) + {last};
      assert last !in Elements(rest);
    }
  }

  // ----- the table edits -----

  /** Directory entry d gets the next pool table. */
  function Install(L: Layout, m: Memory, issued: nat, d: Index): Memory
    requires L.pool + issued < 0x10_0000
  {
    SetEntry(m, L.pd, d, Entry(L.PoolFrame(issued), 3))
  }

  /** The table of an existing directory slot gets a leaf entry, unless one is present. */
  function SetLeaf(L: Layout, m: Memory, d: Index, t: Index, e: Word): Memory {
    var pt := FrameOf(m[L.pd][d]);
    if Present(m[pt][t]) then m else SetEntry(m, pt, t, e)
  }

  /** Tables and pool index together. */
  datatype TableState = TableState(mem: Memory, issued: nat)

  predicate NeedsTable(L: Layout, m: Memory, d: Index) { !Present(m[L.pd][d]) }

  predicate TableLeft(L: Layout, s: TableState, d: Index) {
    NeedsTable(L, s.mem, d) ==> s.issued < 256
  }

  /** The frame of the next table, whether in the pool or behind it, exists. */
  predicate FrameLeft(L: Layout, s: TableState, d: Index) {
    NeedsTable(L, s.mem, d) ==> L.pool + s.issued < 0x10_0000
  }

  /** The first half of `map_page`: an absent directory entry gets the next pool table, cleared. */
  function WithTable(L: Layout, s: TableState, d: Index): TableState
    requires FrameLeft(L, s, d)
  {
    if NeedsTable(L, s.mem, d) then
      TableState(Install(L, s.mem, s.issued, d)[L.pool + s.issued := ZeroFrame()], s.issued + 1)
    else s
  }

  /** `map_page` as plain physical writes. There is no check that the pool has a table left. */
  function MapPage(L: Layout, s: TableState, d: Index, t: Index, e: Word): TableState
    requires FrameLeft(L, s, d)
  {
    var s' := WithTable(L, s, d);
    s'.(mem := SetLeaf(L, s'.mem, d, t, e))
  }

  /** The slots in use after mapping a page under directory slot d. */
  function SlotsAfter(L: Layout, m: Memory, slots: seq<Index>, d: Index): seq<Index> {
    if NeedsTable(L, m, d) then slots + [d] else slots
  }

  // ----- what the edits mean -----

  /** Giving slot k a never-issued frame makes the window page of the new table present and
      translates nothing else: all 1024 pages of the new table are unmapped. */
  lemma InstallRefines(L: Layout, m: Memory, slots: seq<Index>, k: Index)
    requires Inv(L, m, slots) && NeedsTable(L, m, k) && |slots| < 256
    ensures var m' := Install(L, m, |slots|, k);
            && Inv(L, m', slots + [k])
            && Space(m', L.pd) == Space(m, L.pd)[PageAt(1023, k) := Leaf(L.PoolFrame(|slots|), true)]
            && (forall t: Index :: Walk(m', L.pd, k, t) == None)
            && m'[L.pool + |slots| := ZeroFrame()] == m'
  {
    var n := |slots|;
    var m' := Install(L, m, n, k);
    assert m'[L.PoolFrame(n)] == ZeroFrame();
    forall d: Index, t: Index
      ensures Walk(m', L.pd, d, t) ==
              if d == 1023 && t == k then Some(Leaf(L.PoolFrame(n), true)) else Walk(m, L.pd, d, t)
    {
      if d != 1023 && d != k && Present(m[L.pd][d]) {
        SlotTarget(L, m, slots, d);
      }
    }
    SpaceUpdate(m, m', L.pd, 1023, k, Leaf(L.PoolFrame(n), true));
    InstallInv(L, m, slots, k);
  }

  lemma InstallInv(L: Layout, m: Memory, slots: seq<Index>, k: Index)
    requires Inv(L, m, slots) && NeedsTable(L, m, k) && |slots| < 256
    ensures Inv(L, Install(L, m, |slots|, k), slots + [k])
  {
    var m' := Install(L, m, |slots|, k);
    var slots' := slots + [k];
    assert forall j | 0 <= j < |slots| :: slots[j] != k;
    forall d: Index | Present(m'[L.pd][d]) && d != 768 && d != 1023
      ensures d in slots'
    {
      if d == k { assert slots'[|slots|] == k; } else { assert d in slots; }
    }
  }

  /** A leaf written into an existing table is a one-point update of the address space. */
  lemma SetLeafRefines(L: Layout, m: Memory, slots: seq<Index>, d: Index, t: Index, e: Word)
    requires Inv(L, m, slots) && d != 1023 && Present(e)
    requires !NeedsTable(L, m, d) && Walk(m, L.pd, d, t) == None
    ensures var m' := SetLeaf(L, m, d, t, e);
            && Inv(L, m', slots)
            && Space(m', L.pd) == Space(m, L.pd)[PageAt(d, t) := Leaf(FrameOf(e), Writable(e))]
  {
    var pt := FrameOf(m[L.pd][d]);
    var m' := SetLeaf(L, m, d, t, e);
    SlotTarget(L, m, slots, d);
    forall d': Index, t': Index
      ensures Walk(m', L.pd, d', t') ==
              if d' == d && t' == t then Some(Leaf(FrameOf(e), Writable(e))) else Walk(m, L.pd, d', t')
    {
      if d' != d && Present(m[L.pd][d']) {
        SlotsDiffer(L, m, slots, d, d');
      }
    }
    SpaceUpdate(m, m', L.pd, d, t, Leaf(FrameOf(e), Writable(e)));
  }

  /** `map_page` outside the window refines a one-point update of the address space. A page that
      is already translated is left alone; otherwise the page leads to the given frame, and the
      only other change is that the window page of a newly made table becomes present. */
  lemma MapPageRefines(L: Layout, s: TableState, slots: seq<Index>, d: Index, t: Index, e: Word)
    requires Inv(L, s.mem, slots) && s.issued == |slots|
    requires d != 1023 && Present(e) && TableLeft(L, s, d)
    ensures var s' := MapPage(L, s, d, t, e);
            var slots' := SlotsAfter(L, s.mem, slots, d);
            var before, after := Space(s.mem, L.pd), Space(s'.mem, L.pd);
            var leaf := Leaf(FrameOf(e), Writable(e));
            && Inv(L, s'.mem, slots') && s'.issued == |slots'|
            && (PageAt(d, t) in before ==> s' == s)
            && (NeedsTable(L, s.mem, d) ==> PageAt(1023, d) !in before && PageAt(d, t) !in before)
            && (PageAt(d, t) !in before ==>
                  after == if NeedsTable(L, s.mem, d)
                           then before[PageAt(1023, d) := Leaf(L.PoolFrame(s.issued), true)][PageAt(d, t) := leaf]
                           else before[PageAt(d, t) := leaf])
  {
    if NeedsTable(L, s.mem, d) {
      InstallRefines(L, s.mem, slots, d);
      SetLeafRefines(L, Install(L, s.mem, s.issued, d), slots + [d], d, t, e);
    } else if Walk(s.mem, L.pd, d, t) == None {
      SetLeafRefines(L, s.mem, slots, d, t, e);
    }
  }

  /** The handler's window route: a fault at window page k hands `map_page` a fresh pool table
      and slot 1023, so the directory itself is edited as a page table. The result is exactly an
      installed table, although the clearing loop never ran. */
  lemma WindowRouteInstalls(L: Layout, s: TableState, slots: seq<Index>, k: Index)
    requires Inv(L, s.mem, slots) && s.issued == |slots| < 256
    requires Walk(s.mem, L.pd, 1023, k) == None
    ensures var s' := MapPage(L, s.(issued := s.issued + 1), 1023, k, Entry(L.PoolFrame(s.issued), 3));
            && NeedsTable(L, s.mem, k)
            && s' == TableState(Install(L, s.mem, s.issued, k), s.issued + 1)
            && Inv(L, s'.mem, slots + [k])
            && Space(s'.mem, L.pd) == Space(s.mem, L.pd)[PageAt(1023, k) := Leaf(L.PoolFrame(s.issued), true)]
            && (forall t: Index :: Walk(s'.mem, L.pd, k, t) == None)
  {
    InstallRefines(L, s.mem, slots, k);
  }

  /** `map_page` below the window in numbers: an address of an untranslated page comes to lead to the physical
      address with the flags given, one of a translated page stays where it was, and every other page that was
      translated stays too. */
  lemma MapPageNumbers(L: Layout, s: TableState, slots: seq<Index>, va: Word, physaddr: Word, flags: nat)
    requires Inv(L, s.mem, slots) && s.issued == |slots| && va < 0xFFC0_0000
    requires physaddr % 0x1000 == 0 && flags < 0x1000 && flags % 2 == 1 && TableLeft(L, s, DirOf(PageOf(va)))
    ensures var s' := MapPage(L, s, DirOf(PageOf(va)), IdxOf(PageOf(va)), Entry(FrameOf(physaddr), flags));
            && (Translate(s.mem, L.pd, va) != None ==> s' == s)
            && (Translate(s.mem, L.pd, va) == None ==>
                  && Translate(s'.mem, L.pd, va) == Some(physaddr + va % 0x1000)
                  && (WalkPage(s'.mem, L.pd, PageOf(va)).value.writable <==> flags / 2 % 2 == 1))
            && forall b: Word | Translate(s.mem, L.pd, b) != None ::
                 Translate(s'.mem, L.pd, b) == Translate(s.mem, L.pd, b)
  {
    var p, e := PageOf(va), Entry(FrameOf(physaddr), flags);
    MapPageAdds(L, s, slots, p, e);
    FlagParts(FrameOf(physaddr), flags);
    AddsNumbers(s.mem, MapPage(L, s, DirOf(p), IdxOf(p), e).mem, L.pd, va, physaddr, flags / 2 % 2 == 1);
  }

  lemma MapPageAdds(L: Layout, s: TableState, slots: seq<Index>, p: PageNo, e: Word)
    requires Inv(L, s.mem, slots) && s.issued == |slots| && p < 1023 * 1024 && Present(e) && TableLeft(L, s, DirOf(p))
    ensures var s' := MapPage(L, s, DirOf(p), IdxOf(p), e);
            var before, after := Space(s.mem, L.pd), Space(s'.mem, L.pd);
            && (p in before ==> s' == s)
            && (p !in before ==> p in after && after[p] == Leaf(FrameOf(e), Writable(e)))
            && forall q | q in before :: q in after && after[q] == before[q]
  {
    MapPageRefines(L, s, slots, DirOf(p), IdxOf(p), e);
    assert p == PageAt(DirOf(p), IdxOf(p));
  }

  lemma AddsNumbers(m: Memory, m': Memory, root: FrameNo, va: Word, physaddr: Word, writable: bool)
    requires forall q | q in Space(m, root) :: q in Space(m', root) && Space(m', root)[q] == Space(m, root)[q]
    requires PageOf(va) !in Space(m, root) ==>
               PageOf(va) in Space(m', root) && Space(m', root)[PageOf(va)] == Leaf(FrameOf(physaddr), writable)
    requires physaddr % 0x1000 == 0
    ensures Translate(m, root, va) == None <==> PageOf(va) !in Space(m, root)
    ensures Translate(m, root, va) == None ==>
              && Translate(m', root, va) == Some(physaddr + va % 0x1000)
              && WalkPage(m', root, PageOf(va)).value.writable == writable
    ensures forall b: Word | Translate(m, root, b) != None :: Translate(m', root, b) == Translate(m, root, b)
  {
    forall b: Word | Translate(m, root, b) != None
      ensures Translate(m', root, b) == Translate(m, root, b)
    {
      assert PageOf(b) in Space(m, root);
    }
  }

  lemma FlagParts(f: FrameNo, flags: nat)
    requires flags < 0x1000
    ensures Writable(Entry(f, flags)) <==> flags / 2 % 2 == 1
  {
    assert (f * 0x1000 + flags) / 2 == 2 * (f * 0x400) + flags / 2;
    EvenPlus(f * 0x400, flags / 2);
  }

  /** What the 257th table does: the frame behind the pool is entered in the directory and zeroed,
      whatever it held; the page is mapped, but the structure is gone. */
  ghost predicate Overrun(L: Layout, s: TableState, d: Index, t: Index, e: Word, s': TableState)
    requires L.Valid()
  {
    var f := L.PoolFrame(256);
    && s' == TableState(SetEntry(s.mem, L.pd, d, Entry(f, 3))[f := ZeroFrame()[t := e]], 257)
    && (forall t': Index :: Walk(s'.mem, L.pd, d, t') == if t' == t then Some(Leaf(FrameOf(e), Writable(e))) else None)
    && (forall slots :: !Inv(L, s'.mem, slots))
  }

  /** `map_page` does not notice that the pool is used up. */
  lemma MapPageOverruns(L: Layout, s: TableState, slots: seq<Index>, d: Index, t: Index, e: Word)
    requires Inv(L, s.mem, slots) && s.issued == |slots| == 256
    requires d != 1023 && NeedsTable(L, s.mem, d) && Present(e) && !L.Reserved(L.PoolFrame(256))
    ensures Overrun(L, s, d, t, e, MapPage(L, s, d, t, e))
  {
    OutsideBreaks(L, MapPage(L, s, d, t, e).mem, d);
  }

  /** On the window route the frame is not even cleared: what it holds is taken for a page table. */
  lemma WindowRouteOverruns(L: Layout, s: TableState, slots: seq<Index>, k: Index)
    requires Inv(L, s.mem, slots) && s.issued == |slots| == 256
    requires NeedsTable(L, s.mem, k) && !L.Reserved(L.PoolFrame(256))
    ensures var f := L.PoolFrame(256);
            var s' := MapPage(L, s.(issued := 257), 1023, k, Entry(f, 3));
            && s' == TableState(SetEntry(s.mem, L.pd, k, Entry(f, 3)), 257)
            && (forall t: Index :: Walk(s'.mem, L.pd, k, t) == LeafOf(Entry(f, 3), s.mem[f][t]))
            && (forall slots' :: !Inv(L, s'.mem, slots'))
  {
    OutsideBreaks(L, SetEntry(s.mem, L.pd, k, Entry(L.PoolFrame(256), 3)), k);
  }

  /** When the frame behind the pool holds `kernel_PT_index`, at word i, the clearing wipes that too; only the
      leaf, when it lands on word i, gives it another value. */
  function IndexAfterOverrun(t: Index, e: Word, i: Index): nat { if t == i then e else 0 }

  /** With the index back at 0 the tables are issued again: the next slot shares the table of the first slot
      that was given one, and the clearing has unmapped all pages of that slot. */
  lemma TableIssuedTwice(L: Layout, s: TableState, slots: seq<Index>, d: Index, t: Index, e: Word, i: Index,
                         d': Index, t': Index, e': Word)
    requires Inv(L, s.mem, slots) && s.issued == |slots| == 256 && L.PoolFrame(256) in L.vars
    requires d != 1023 && NeedsTable(L, s.mem, d) && Present(e) && t != i
    requires d' != 1023 && d' != d && NeedsTable(L, s.mem, d') && Present(e')
    ensures var wiped := TableState(MapPage(L, s, d, t, e).mem, IndexAfterOverrun(t, e, i));
            var s' := MapPage(L, wiped, d', t', e');
            && s'.mem[L.pd][d'] == s'.mem[L.pd][slots[0]] == Entry(L.PoolFrame(0), 3)
            && forall k: Index :: Walk(s'.mem, L.pd, slots[0], k) == Walk(s'.mem, L.pd, d', k) ==
                                  if k == t' then Some(Leaf(FrameOf(e'), Writable(e'))) else None
  {
    assert s.mem[L.pd][slots[0]] == Entry(L.PoolFrame(0), 3) && slots[0] != d && slots[0] != d';
  }

  /** A slot that leads behind the pool is no part of any table structure. */
  lemma OutsideBreaks(L: Layout, m: Memory, d: Index)
    requires L.Valid() && d != 768 && d != 1023 && m[L.pd][d] == Entry(L.PoolFrame(256), 3)
    ensures forall slots :: !Inv(L, m, slots)
  {
    forall slots
      ensures !Inv(L, m, slots)
    {
    }
  }

  /** Writes to frames that hold no table leave structure and address space alone. */
  lemma DataWriteKeeps(L: Layout, m: Memory, m': Memory, slots: seq<Index>)
    requires Inv(L, m, slots)
    requires forall f: FrameNo | L.IsTable(f) :: m'[f] == m[f]
    ensures Inv(L, m', slots)
    ensures Space(m', L.pd) == Space(m, L.pd)
    ensures forall d: Index, t: Index :: Walk(m', L.pd, d, t) == Walk(m, L.pd, d, t)
  {
    forall d: Index, t: Index
      ensures Walk(m', L.pd, d, t) == Walk(m, L.pd, d, t)
    {
      if Present(m[L.pd][d]) && d != 1023 { SlotTarget(L, m, slots, d); }
    }
    assert forall p: PageNo :: WalkPage(m', L.pd, p) == WalkPage(m, L.pd, p);
  }

  /** Table edits touch table frames only. */
  lemma MapPageFrame(L: Layout, s: TableState, slots: seq<Index>, d: Index, t: Index, e: Word, f: FrameNo)
    requires Inv(L, s.mem, slots) && s.issued == |slots|
    requires d != 1023 && TableLeft(L, s, d) && !L.IsTable(f)
    ensures MapPage(L, s, d, t, e).mem[f] == s.mem[f]
  {
    if !NeedsTable(L, s.mem, d) {
      SlotTarget(L, s.mem, slots, d);
    }
  }
}
