/** The memory side of `kernel_main`: boot, index the address space, discover the ACPI tables. */
module Startup {
  import opened Hardware
  import opened Tables
  import opened Bitmap
  import opened Machine
  import opened Rsdp
  import opened Rewriting
  import opened Acpi
  import opened Headers
  import opened Absent
  import opened Libc
  import Madt
  import K = Kernel
  import Q = Requests

  ghost function PageRange(lo: nat, n: nat): (r: set<PageNo>)
    requires lo + n <= PAGES
    ensures |r| == n && forall p: PageNo :: p in r <==> lo <= p < lo + n
    decreases n, lo
  {
    if n == 0 then {} else PageRange(lo, n - 1) + {lo + (n - 1)}
  }

  /** After boot all 254 * 1024 pages of the slots 769 to 1022 are clear. */
  lemma PlentyClear(L: Layout, a: Allocator, n: nat)
    requires forall p: PageNo | Taken(a.bits, p) :: BootWalk(L, p).Some?
    requires n <= 254 * 1024
    ensures n <= |Q.ClearBelow(a)|
  {
    var fresh' := PageRange(769 * 1024, n);
    forall p | p in fresh'
      ensures p in Q.ClearBelow(a)
    {
      assert 769 <= DirOf(p) < 1023;
    }
    K.SubsetSize(fresh', Q.ClearBelow(a));
  }

  /** Memory as the kernel sees it after boot. */
  ghost function BootView(L: Layout, ram: Memory): Bytes {
    View(BootMemory(L, ram), L.pd)
  }

  /** What the loader left: table frames are cleared, and the image, whose end is `kernelEnd`, holds the
      text "RSD PTR " at `literal`, outside the paging code's variables. */
  ghost predicate Loaded(L: Layout, ram: Memory, kernelEnd: Word, literal: nat) {
    && L.Valid() && (L.end - 1) * 0x1000 < kernelEnd <= L.end * 0x1000
    && (forall t: FrameNo | L.IsTable(t) :: IsZero(ram[t]))
    && KERNEL_BASE <= literal < KERNEL_BASE + 0x40_0000
    && Shown(L, literal) && Shown(L, literal + 7) && Slice(BootView(L, ram), literal, 8) == SIGNATURE
  }

  /** What the firmware left: EBDA candidates that are shown, up to the first root pointer, which is candidate i,
      at r, and at offset o of frame f a root table with the pointers `was` in one page. */
  ghost predicate Firmware(L: Layout, ram: Memory, i: nat, r: nat, f: FrameNo, o: nat, was: seq<Word>) {
    var read := BootView(L, ram);
    && (forall j: nat | j < 0x100 && NoneBefore(read, 0, j) :: CandidateShown(L, read, Candidate(read, j)))
    && IsFirst(read, i, r)
    && f == FrameOf(RootAddress(read, r)) && o == RootAddress(read, r) % 0x1000
    && RootTable(ram, L, f, o, Revised(read, r), |was|)
    && was == Pointers(ram[f], o + HEADER, Revised(read, r), |was|)
  }

  /** From power-on to rewritten tables: on every such machine no access up to the rewriting faults, no request
      runs out of pages or pool tables, and the rewriting ends as `Rewritten` says, from the state s with the
      root table mapped: unless a table spills, every pointer that the firmware left ends up as a kernel address
      of what it pointed to. */
  method DiscoverTables(layout: Layout, ram: Memory, kernelEnd: Word, literal: nat,
                        ghost i: nat, ghost r: nat, ghost f: FrameNo, ghost o: nat, ghost was: seq<Word>)
    returns (m: Machine, search: Search, table: Word, entries: nat, ghost s: K.State)
    requires Loaded(layout, ram, kernelEnd, literal) && Firmware(layout, ram, i, r, f, o, was)
    ensures fresh(m) && fresh(m.virtualMmap) && fresh(search) && search.m == m
    ensures m.Valid() && m.L == layout && entries == |was|
    ensures search.acpiVersion == Revised(BootView(layout, ram), r)
    ensures Array(m.mem, layout, table, o, f, HEADER + Slot(search.acpiVersion, |was|))
    ensures Length(m.mem[f], o) == Length(ram[f], o) && RootTable(m.mem, layout, f, o, search.acpiVersion, |was|)
    ensures s.phys == K.DEMAND_BASE && Q.Covered(layout, s) && Rewritten(layout, s, m.State(), f, o + HEADER, was)
  {
    m, search := BootAndIndex(layout, ram, kernelEnd, literal, i, r, f, o, was);
    table, entries, s := InitRsdt(search, i, r, f, o, was);
  }

  /** `init_page_allocation` after boot: the machine is ready for `init_rsdt`. */
  method BootAndIndex(layout: Layout, ram: Memory, kernelEnd: Word, literal: nat,
                      ghost i: nat, ghost r: nat, ghost f: FrameNo, ghost o: nat, ghost was: seq<Word>)
    returns (m: Machine, search: Search)
    requires Loaded(layout, ram, kernelEnd, literal) && Firmware(layout, ram, i, r, f, o, was)
    ensures fresh(m) && fresh(m.virtualMmap) && fresh(search) && search.m == m && m.L == layout
    ensures m.Valid() && Q.Covered(layout, m.State()) && Roomy(m.State(), m.slots, |was| + 1)
    ensures m.curPhysaddr == K.DEMAND_BASE && search.read == BootView(layout, ram)
    ensures search.Ready() && search.HasLiteral() && Searchable(search.read, search.mapped)
    ensures m.mem[f] == ram[f] && RootTable(m.mem, layout, f, o, Revised(search.read, r), |was|)
  {
    m := BootIndexed(layout, ram, kernelEnd, |was| + 1);
    FirmwareStays(layout, ram, i, r, f, o, was);
    search := NewSearch(m, literal, BootView(layout, ram));
  }

  method NewSearch(m: Machine, literal: nat, ghost read: Bytes) returns (search: Search)
    requires m.TablesValid() && read == View(m.mem, m.L.pd) &&
             forall p: PageNo :: WalkPage(m.mem, m.L.pd, p) == BootWalk(m.L, p)
    requires KERNEL_BASE <= literal < KERNEL_BASE + 0x40_0000
    requires Shown(m.L, literal) && Shown(m.L, literal + 7) && Slice(read, literal, 8) == SIGNATURE
    requires forall j: nat | j < 0x100 && NoneBefore(read, 0, j) :: CandidateShown(m.L, read, Candidate(read, j))
    ensures fresh(search) && search.m == m && search.read == read
    ensures search.Ready() && search.HasLiteral() && Searchable(search.read, search.mapped)
  {
    search := new Search(m, literal);
    SearchReady(m.L, m.mem, literal);
  }

  lemma SearchReady(L: Layout, m: Memory, literal: nat)
    requires L.Valid() && forall p: PageNo :: WalkPage(m, L.pd, p) == BootWalk(L, p)
    requires KERNEL_BASE <= literal < KERNEL_BASE + 0x40_0000 && Shown(L, literal) && Shown(L, literal + 7)
    requires forall j: nat | j < 0x100 && NoneBefore(View(m, L.pd), 0, j) ::
               CandidateShown(L, View(m, L.pd), Candidate(View(m, L.pd), j))
    ensures Sees(m, L.pd, View(m, L.pd), Plain(m, L)) && Range(Plain(m, L), literal, 8)
    ensures Searchable(View(m, L.pd), Plain(m, L))
  {
    PlainSees(m, L);
    SearchableExactly(L, m);
    forall b: nat | literal <= b < literal + 8
      ensures Plain(m, L)(b)
    {
      ShownBetween(L, literal, b, literal + 7);
      ShownIsPlain(L, m, b);
    }
  }

  /** Boot and `init_page_allocation`: the index covers what is mapped, frame 0 is mapped once, and
      pages and tables are left for n requests. */
  method BootIndexed(layout: Layout, ram: Memory, kernelEnd: Word, ghost n: nat) returns (m: Machine)
    requires layout.Valid() && (layout.end - 1) * 0x1000 < kernelEnd <= layout.end * 0x1000
    requires forall t: FrameNo | layout.IsTable(t) :: IsZero(ram[t])
    requires n <= 254 * 1024
    ensures fresh(m) && fresh(m.virtualMmap) && m.L == layout && m.mem == BootMemory(layout, ram)
    ensures m.Valid() && Q.Covered(layout, m.State()) && Roomy(m.State(), m.slots, n)
    ensures m.curPhysaddr == K.DEMAND_BASE && ZeroOnce(K.Pages(layout, m.State()))
    ensures forall p: PageNo :: WalkPage(m.mem, layout.pd, p) == BootWalk(layout, p)
  {
    m := new Machine.Boot(layout, ram, kernelEnd);
    BootZeroOnce(layout, m.mem);
    m.InitPageAllocation();
    PlentyClear(layout, m.Alloc(), n);
  }

  /** Boot writes to no frame that may hold a root table. */
  lemma FirmwareStays(L: Layout, ram: Memory, i: nat, r: nat, f: FrameNo, o: nat, was: seq<Word>)
    requires Firmware(L, ram, i, r, f, o, was)
    ensures BootMemory(L, ram)[f] == ram[f]
    ensures RootTable(BootMemory(L, ram), L, f, o, Revised(BootView(L, ram), r), |was|)
  {
  }

  /** What follows for drivers: with an RSDT whose tables have their signatures within a page, `find_by_header`
      finds the first table with a signature among those the firmware listed, 0 exactly when there is none. */
  method DiscoverTable(layout: Layout, ram: Memory, kernelEnd: Word, literal: nat, head: seq<Byte>,
                       ghost i: nat, ghost r: nat, ghost f: FrameNo, ghost o: nat, ghost was: seq<Word>)
    returns (m: Machine, location: Word)
    requires Loaded(layout, ram, kernelEnd, literal) && Firmware(layout, ram, i, r, f, o, was)
    requires !Revised(BootView(layout, ram), r) && |head| >= 4
    requires forall e | 0 <= e < |was| :: !Crosses(was[e]) && FrameOf(was[e]) !in layout.vars
    ensures fresh(m) && fresh(m.virtualMmap) && m.Valid() && m.L == layout
    ensures location == 0 <==> forall e | 0 <= e < |was| :: !Crosses(was[e]) && Signature(m.mem, was[e]) != head[..4]
    ensures location != 0 ==> exists e :: Found(m.mem, layout, was, head[..4], e, location)
  {
    var search, table, entries;
    ghost var s;
    m, search, table, entries, s := DiscoverTables(layout, ram, kernelEnd, literal, i, r, f, o, was);
    location := FindRewritten(m, table, head, s, f, o, was);
  }

  /** `find_by_header` on a rewritten RSDT. */
  method FindRewritten(m: Machine, table: Word, head: seq<Byte>, ghost s: K.State, ghost f: FrameNo, ghost o: nat,
                       ghost was: seq<Word>)
    returns (location: Word)
    requires m.Valid() && |head| >= 4 && RootTable(m.mem, m.L, f, o, false, |was|)
    requires Array(m.mem, m.L, table, o, f, HEADER + Slot(false, |was|))
    requires Q.Covered(m.L, s) && Rewritten(m.L, s, m.State(), f, o + HEADER, was)
    requires forall e | 0 <= e < |was| :: !Crosses(was[e]) && FrameOf(was[e]) !in m.L.vars
    modifies m`tlb, m`pdes
    ensures m.Valid()
    ensures location == 0 <==> forall e | 0 <= e < |was| :: !Crosses(was[e]) && Signature(m.mem, was[e]) != head[..4]
    ensures location != 0 ==> exists e :: Found(m.mem, m.L, was, head[..4], e, location)
  {
    ghost var words := NewWords(s.alloc, was);
    SignaturesSeen(m.L, s, m.State(), f, o, was, words, table);
    location := FindByHeader(m, table, false, head, o, f, words, View(m.mem, m.L.pd), Plain(m.mem, m.L));
    WhatIsFound(m.mem, m.L, was, words, head[..4], location);
  }

  /** The address leads to table e, which is the first with the signature. */
  ghost predicate Found(m: Memory, L: Layout, was: seq<Word>, head: seq<Byte>, e: nat, location: Word) {
    && e < |was| && Translate(m, L.pd, location) == Some(was[e])
    && !Crosses(was[e]) && Signature(m, was[e]) == head
    && forall k | 0 <= k < e :: !Crosses(was[k]) && Signature(m, was[k]) != head
  }

  /** Each word leads to its table, and its signature is what is read there. */
  ghost predicate SignatureSeen(m: Memory, L: Layout, was: seq<Word>, words: seq<Word>, e: nat)
    requires e < |was| == |words|
  {
    && !Crosses(was[e]) && words[e] != 0 && Translate(m, L.pd, words[e]) == Some(was[e])
    && Slice(View(m, L.pd), words[e], 4) == Signature(m, was[e]) && Range(Plain(m, L), words[e], 4)
  }

  ghost predicate AllSeen(m: Memory, L: Layout, was: seq<Word>, words: seq<Word>) {
    |was| == |words|
    && forall e {:trigger SignatureSeen(m, L, was, words, e)} | 0 <= e < |was| :: SignatureSeen(m, L, was, words, e)
  }

  lemma SignaturesSeen(L: Layout, s: K.State, s': K.State, f: FrameNo, o: nat, was: seq<Word>, words: seq<Word>,
                       table: Word)
    requires Rewritten(L, s, s', f, o + HEADER, was) && Q.Covered(L, s) && words == NewWords(s.alloc, was)
    requires Array(s'.tables.mem, L, table, o, f, HEADER + Slot(false, |was|))
    requires forall e | 0 <= e < |was| :: !Crosses(was[e]) && FrameOf(was[e]) !in L.vars
    ensures AllSeen(s'.tables.mem, L, was, words)
    ensures Listed(s'.tables.mem, L, table, o, f, words, Plain(s'.tables.mem, L))
    ensures Sees(s'.tables.mem, L.pd, View(s'.tables.mem, L.pd), Plain(s'.tables.mem, L))
  {
    PlainSees(s'.tables.mem, L);
    NoCrossing(s.alloc, was, |was|);
    forall e | 0 <= e < |was|
      ensures SignatureSeen(s'.tables.mem, L, was, words, e)
      ensures Headers.Entry(s'.tables.mem[f], o, words, e, Plain(s'.tables.mem, L))
    {
      assert HoldsWord(L, s', f, o + HEADER, words, e);
      assert words[e] == NewWord(s.alloc, was, e) && Leads(L, s', NewWord(s.alloc, was, e), was[e]);
      OneSeen(L, s', words[e], was[e]);
    }
  }

  lemma OneSeen(L: Layout, s: K.State, va: Word, w: Word)
    requires Leads(L, s, va, w) && !Crosses(w) && FrameOf(w) !in L.vars
    ensures va != 0 && Slice(View(s.tables.mem, L.pd), va, 4) == Signature(s.tables.mem, w)
    ensures Range(Plain(s.tables.mem, L), va, 4)
  {
    SeesSignature(s.tables.mem, L, va, w);
    TranslateParts(s.tables.mem, L, va, w);
    forall b: nat | va <= b < va + 4
      ensures Plain(s.tables.mem, L)(b)
    {
      NextByte(va, b - va);
    }
  }

  lemma WhatIsFound(m: Memory, L: Layout, was: seq<Word>, words: seq<Word>, head: seq<Byte>, location: Word)
    requires AllSeen(m, L, was, words)
    requires location == 0 <==> NoneCarries(View(m, L.pd), words, head, |words|)
    requires location != 0 ==> exists e :: FirstCarrying(View(m, L.pd), words, head, e, location)
    ensures location == 0 <==> forall e | 0 <= e < |was| :: !Crosses(was[e]) && Signature(m, was[e]) != head
    ensures location != 0 ==> exists e :: Found(m, L, was, head, e, location)
  {
    forall e | 0 <= e < |was|
      ensures !Crosses(was[e]) && (Carries(View(m, L.pd), words[e], head) <==> Signature(m, was[e]) == head)
    {
      assert SignatureSeen(m, L, was, words, e);
    }
    if location != 0 {
      var e :| FirstCarrying(View(m, L.pd), words, head, e, location);
      assert SignatureSeen(m, L, was, words, e);
      assert Found(m, L, was, head, e, location);
    }
  }

  /** A MADT that lies within the one page mapped for it, and holds the records. */
  ghost predicate MadtAt(m: Memory, L: Layout, madt: Word, phys: Word, rs: Madt.Records) {
    var read, length := View(m, L.pd), 44 + |Madt.Serialize(rs)|;
    && Translate(m, L.pd, madt) == Some(phys) && FrameOf(phys) !in L.vars && phys % 0x1000 + length <= 0x1000
    && read(madt + 4) + 0x100 * read(madt + 5) + 0x1_0000 * read(madt + 6) + 0x100_0000 * read(madt + 7) == length
    && Slice(read, madt + 44, |Madt.Serialize(rs)|) == Madt.Serialize(rs)
  }

  /** `find_MADT_entry_by_type` on such a table faults nowhere and gives the first record of the type. */
  method FindEntry(m: Machine, madt: Word, kind: Word, ghost phys: Word, ghost rs: Madt.Records) returns (addr: nat)
    requires m.TablesValid() && MadtAt(m.mem, m.L, madt, phys, rs)
    modifies m`tlb, m`pdes
    ensures m.TablesValid()
    ensures addr == match Madt.Position(rs, kind) { case None => 0 case Some(o) => madt + 44 + o }
  {
    ghost var read, mapped := View(m.mem, m.L.pd), Plain(m.mem, m.L);
    MadtReadable(m.mem, m.L, madt, phys, rs, read, mapped);
    WordBytes(read, madt + 4);
    Madt.WalkTable(read, mapped, madt, rs, kind);
    addr := Madt.FindMadtEntryByType(m, madt, kind, madt + 44, Madt.AreaLength(Word32(read, madt + 4)), read, mapped);
  }

  /** On a table that may run over its page, behind which nothing is mapped, the walk faults if and only if it
      visits a record whose type, or length where that is read, lies behind the page. */
  lemma EntryFaults(m: Memory, L: Layout, madt: Word, f: FrameNo, len: Word, kind: Word)
    requires WalkPage(m, L.pd, PageOf(madt)) == Some(Leaf(f, true)) && f !in L.vars
    requires PageOf(madt) + 1 < K.WINDOW && WalkPage(m, L.pd, PageOf(madt) + 1) == None
    ensures var read, start := View(m, L.pd), madt + 44;
            Madt.WalkReadable(read, Plain(m, L), start, len, kind, 0) <==>
            Madt.HeadsBelow(read, start, len, kind, (PageOf(madt) + 1) * 0x1000)
  {
    var page := PageOf(madt) + 1;
    PageEnds(m, L, madt, f, page);
    Madt.ReadableExactly(View(m, L.pd), Plain(m, L), madt + 44, len, kind, page * 0x1000);
  }

  lemma PageEnds(m: Memory, L: Layout, madt: Word, f: FrameNo, page: PageNo)
    requires WalkPage(m, L.pd, PageOf(madt)) == Some(Leaf(f, true)) && f !in L.vars
    requires page == PageOf(madt) + 1 < K.WINDOW && WalkPage(m, L.pd, page) == None
    ensures Madt.EndsAt(Plain(m, L), madt + 44, page * 0x1000)
  {
    assert madt == PageOf(madt) * 0x1000 + madt % 0x1000;
    forall b: nat | madt + 44 <= b < page * 0x1000
      ensures Plain(m, L)(b)
    {
      assert PageOf(b) == PageOf(madt);
    }
    forall b: nat | page * 0x1000 <= b < page * 0x1000 + 256
      ensures !Plain(m, L)(b)
    {
      assert PageOf(b) == page;
    }
  }

  lemma MadtPlain(m: Memory, L: Layout, madt: Word, phys: Word, n: nat)
    requires Translate(m, L.pd, madt) == Some(phys) && FrameOf(phys) !in L.vars && phys % 0x1000 + n <= 0x1000
    ensures Range(Plain(m, L), madt, n) && madt + n <= 0x1_0000_0000 && madt % 0x1000 == phys % 0x1000
  {
    TranslateParts(m, L, madt, phys);
    forall b: nat | madt <= b < madt + n
      ensures Plain(m, L)(b)
    {
      NextByte(madt, b - madt);
    }
    if n > 0 {
      NextByte(madt, n - 1);
    }
  }

  lemma MadtReadable(m: Memory, L: Layout, madt: Word, phys: Word, rs: Madt.Records, read: Bytes, mapped: nat -> bool)
    requires MadtAt(m, L, madt, phys, rs) && read == View(m, L.pd) && mapped == Plain(m, L)
    ensures Sees(m, L.pd, read, mapped) && Range(mapped, madt, 44 + |Madt.Serialize(rs)|)
    ensures Range(mapped, madt + 4, 4) && (madt + 4) % 0x1000 <= 0xFFC
    ensures madt + 44 + |Madt.Serialize(rs)| <= 0x1_0000_0000
  {
    PlainSees(m, L);
    MadtPlain(m, L, madt, phys, 44 + |Madt.Serialize(rs)|);
    NextByte(madt, 4);
  }
}
