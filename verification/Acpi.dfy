/** Discovery of the ACPI tables (ACPI specification, sections 5.2.7 and 5.2.8): the root table is
    mapped, and its physical table pointers are replaced in place by virtual ones. */
module Acpi {
  import opened Bits
  import opened Hardware
  import opened Tables
  import opened Bitmap
  import opened Machine
  import opened Rsdp
  import opened Rewriting
  import K = Kernel
  import U = Runs
  import Q = Requests
  import Libc

  const HEADER := 36

  /** Where the root table lies: its frame and the offset of its pointer array. */
  ghost predicate Array(m: Memory, L: Layout, va: Word, off: nat, f: FrameNo, bytes: nat) {
    && va % 0x1000 == off && off + bytes <= 0x1000
    && !L.Reserved(f)
    && WalkPage(m, L.pd, PageOf(va)) == Some(Leaf(f, true))
  }

  /** `*(array + d)`, d in bytes. */
  method ReadAt(m: Machine, va: Word, d: nat, ghost off: nat, ghost f: FrameNo, ghost bytes: nat,
                ghost rd: nat) returns (v: Word)
    requires m.TablesValid() && Array(m.mem, m.L, va, off, f, bytes) && d + 4 <= bytes && rd == off + d
    modifies m`tlb, m`pdes
    ensures m.TablesValid()
    ensures v == WordAt(m.mem[f], rd)
  {
    ArrayAddress(m.mem, m.L, va, off, f, bytes, d, rd);
    v := m.LoadData(At(va, d), f, rd);
  }

  /** `*(array + d) = v`, d in bytes. */
  method WriteAt(m: Machine, va: Word, d: nat, v: Word, ghost off: nat, ghost f: FrameNo, ghost bytes: nat,
                 ghost wr: nat)
    requires m.Valid() && Array(m.mem, m.L, va, off, f, bytes) && d + 4 <= bytes && wr == off + d
    modifies m`mem, m`tlb, m`pdes
    ensures m.Valid() && m.State() == old(m.State()).(tables := TableState(m.mem, m.kernelPtIndex))
    ensures m.mem == old(m.mem)[f := PutWord(old(m.mem)[f], wr, v)]
    ensures K.Pages(m.L, m.State()) == old(K.Pages(m.L, m.State()))
  {
    ArrayAddress(m.mem, m.L, va, off, f, bytes, d, wr);
    m.StoreData(At(va, d), v, f, wr);
  }

  method MapTable(m: Machine, sdt: Word, ghost left: nat) returns (mapped: Word)
    requires m.Valid() && Q.Covered(m.L, m.State()) && Roomy(m.State(), m.slots, left + 1)
    modifies m, m.virtualMmap
    ensures m.Valid() && Q.Covered(m.L, m.State()) && Roomy(m.State(), m.slots, left)
    ensures K.MapReady(m.L, old(m.State())) && m.State() == K.FindAndMap(m.L, old(m.State()), FrameOf(sdt))
    ensures KeepsWalks(old(m.mem), m.mem, m.L)
    ensures forall f: FrameNo | !m.L.IsTable(f) :: m.mem[f] == old(m.mem)[f]
    ensures Translate(m.mem, m.L.pd, mapped) == Some(sdt) && mapped >= KERNEL_BASE
    ensures WalkPage(m.mem, m.L.pd, PageOf(mapped)) == Some(Leaf(FrameOf(sdt), true)) && mapped % 0x1000 == sdt % 0x1000
  {
    ghost var s, slots := m.State(), m.slots;
    RoomyStep(m.L, s, slots, FrameOf(sdt), left + 1);
    mapped := m.MapPhysical(sdt);
    assert m.State() == K.FindAndMap(m.L, s, FrameOf(sdt));
    assert m.slots == K.SlotsStep(m.L, s, slots, K.Map(FrameOf(sdt)));
    ExtendsWalks(s.tables.mem, m.mem, m.L);
  }

  /** Every translation of the earlier memory is one of the later memory. */
  ghost predicate KeepsWalks(m: Memory, m': Memory, L: Layout) {
    forall p: PageNo | WalkPage(m, L.pd, p).Some? :: WalkPage(m', L.pd, p) == WalkPage(m, L.pd, p)
  }

  lemma ExtendsWalks(m: Memory, m': Memory, L: Layout)
    requires K.Extends(Space(m, L.pd), Space(m', L.pd))
    ensures KeepsWalks(m, m', L)
  {
    forall p: PageNo | WalkPage(m, L.pd, p).Some?
      ensures WalkPage(m', L.pd, p) == WalkPage(m, L.pd, p)
    {
      assert p in Space(m, L.pd) && p in Space(m', L.pd);
    }
  }

  /** Pointer arithmetic in bytes. */
  function At(va: Word, d: nat): Word
    requires va + d < 0x1_0000_0000
  {
    va + d
  }

  lemma ArrayAddress(m: Memory, L: Layout, va: Word, off: nat, f: FrameNo, bytes: nat, d: nat, o: nat)
    requires Array(m, L, va, off, f, bytes) && d + 4 <= bytes && o == off + d
    ensures va + d < 0x1_0000_0000 && o <= 0xFFC
    ensures At(va, d) % 0x1000 == o
    ensures WalkPage(m, L.pd, PageOf(At(va, d))) == Some(Leaf(f, true))
  {
    SamePage(va, d);
  }

  lemma SamePage(va: Word, d: nat)
    requires va % 0x1000 + d < 0x1000
    ensures va + d < 0x1_0000_0000
    ensures PageOf(va + d) == PageOf(va) && (va + d) % 0x1000 == va % 0x1000 + d
  {
  }

  lemma TranslateKept(m: Memory, m': Memory, L: Layout, va: Word, pa: Word)
    requires KeepsWalks(m, m', L) && Translate(m, L.pd, va) == Some(pa)
    ensures Translate(m', L.pd, va) == Some(pa)
  {
    assert WalkPage(m', L.pd, PageOf(va)) == WalkPage(m, L.pd, PageOf(va));
  }

  lemma ArrayKept(m: Memory, m': Memory, L: Layout, va: Word, off: nat, f: FrameNo, bytes: nat)
    requires Array(m, L, va, off, f, bytes) && K.Extends(Space(m, L.pd), Space(m', L.pd))
    ensures Array(m', L, va, off, f, bytes)
  {
    assert PageOf(va) in Space(m, L.pd);
  }

  // ----- the signature -----

  /** The state when i bytes of the signature have been loaded. */
  ghost function Loaded(L: Layout, s: K.State, w: Word, q: PageNo, i: nat): K.State
    requires L.Valid() && (w % 0x1000 + i > 0x1000 ==> TouchReady(L, s, q))
  {
    if w % 0x1000 + i > 0x1000 then Touch(L, s, q) else s
  }

  lemma ByteAddress(p: PageNo, q: PageNo, w: Word, i: nat)
    requires p < K.WINDOW && q == p + 1 && i < 4
    ensures Seen(p, w) + i < 0x1_0000_0000
    ensures PageOf(Seen(p, w) + i) == if w % 0x1000 + i < 0x1000 then p else q
  {
    assert Seen(p, w) == p * 0x1000 + w % 0x1000;
  }

  lemma SameFault(L: Layout, s: K.State, va: Word, q: PageNo)
    requires PageOf(va) == q
    ensures K.FaultReady(L, s, va) <==> K.FaultReady(L, s, PageAddress(q))
    ensures L.Valid() && K.FaultReady(L, s, va) ==> K.HandleFault(L, s, va) == K.HandleFault(L, s, PageAddress(q))
  {
  }

  /** `sdt_header->signature[i]` for the four bytes, whose values are only printed. */
  method LoadSignature(m: Machine, va: Word, ghost w: Word, ghost p: PageNo, ghost q: PageNo, ghost s: K.State)
    requires m.Valid() && s == m.State() && va == Seen(p, w) && p < K.WINDOW && q == p + 1 && p in K.Pages(m.L, s)
    requires FinishReady(m.L, s, w, q)
    modifies m`mem, m`tlb, m`pdes, m`kernelPtIndex, m`slots, m`curPhysaddr
    ensures m.Valid() && m.State() == Finish(m.L, s, w, q)
  {
    ghost var slots := m.slots;
    for i := 0 to 4
      invariant m.Valid() && m.State() == Loaded(m.L, s, w, q, i)
    {
      ByteAddress(p, q, w, i);
      LoadByteOf(m, At(va, i), s, slots, w, p, q, i);
    }
  }

  method LoadByteOf(m: Machine, va: Word, ghost s: K.State, ghost slots: seq<Index>, ghost w: Word,
                    ghost p: PageNo, ghost q: PageNo, ghost i: nat)
    requires m.Valid() && i < 4 && FinishReady(m.L, s, w, q) && K.Good(m.L, s, slots) && p in K.Pages(m.L, s)
    requires PageOf(va) == (if w % 0x1000 + i < 0x1000 then p else q) && m.State() == Loaded(m.L, s, w, q, i)
    modifies m`mem, m`tlb, m`pdes, m`kernelPtIndex, m`slots, m`curPhysaddr
    ensures m.Valid() && m.State() == Loaded(m.L, s, w, q, i + 1)
  {
    LoadedNext(m.L, s, slots, w, p, q, i, va);
    var b := m.Touch(va);
  }

  lemma LoadedNext(L: Layout, s: K.State, slots: seq<Index>, w: Word, p: PageNo, q: PageNo, i: nat, va: Word)
    requires K.Good(L, s, slots) && i < 4 && FinishReady(L, s, w, q) && p in K.Pages(L, s)
    requires PageOf(va) == if w % 0x1000 + i < 0x1000 then p else q
    ensures var now := Loaded(L, s, w, q, i);
            var absent := WalkPage(now.tables.mem, L.pd, PageOf(va)) == None;
            && (absent ==> K.FaultReady(L, now, va))
            && Loaded(L, s, w, q, i + 1) == if absent then K.HandleFault(L, now, va) else now
  {
    SameFault(L, s, va, PageOf(va));
    if w % 0x1000 + i > 0x1000 {
      var _ := TouchKeeps(L, s, slots, q, VGA_FRAME);
    }
  }

  // ----- the loops of init_rsdt -----

  /** The loop over a root table with the pointers `was` at offset off of frame f, from state s. */
  function LoopOf(s: K.State, f: FrameNo, off: nat, was: seq<Word>): (R: Loop)
    requires off + 4 * |was| <= 0x1000
  {
    Loop(f, was, Fillings(s.tables.mem[f], off, NewWords(s.alloc, was)))
  }

  function NewWords(a: Allocator, was: seq<Word>): (r: seq<Word>)
    ensures |r| == |was|
  {
    seq(|was|, j requires 0 <= j < |was| => NewWord(a, was, j))
  }

  /** The first half of an iteration: read the pointer at distance src, request its page, write the new
      pointer at distance dst. */
  method MapAndWrite(m: Machine, table: Word, src: nat, dst: nat, ghost o: nat, ghost f: FrameNo, ghost bytes: nat,
                     ghost rd: nat, ghost wr: nat, ghost w: Word)
    returns (location: Word)
    requires m.Valid() && K.MapReady(m.L, m.State()) && Array(m.mem, m.L, table, o, f, bytes)
    requires src + 4 <= bytes && dst + 4 <= bytes && rd == o + src && wr == o + dst && w == WordAt(m.mem[f], rd)
    modifies m, m.virtualMmap
    ensures m.Valid() && Array(m.mem, m.L, table, o, f, bytes)
    ensures location == Seen(old(NextPage(m.State())), w)
    ensures m.State() == MapAndStore(m.L, old(m.State()), w, f, PutWord(old(m.mem)[f], wr, location))
  {
    ghost var s := m.State();
    var sdt := ReadAt(m, table, src, o, f, bytes, rd);
    location := RequestPage(m, sdt, table, o, f, bytes);
    ghost var s1 := m.State();
    WriteAt(m, table, dst, location, o, f, bytes, wr);
    ArrayKept(s1.tables.mem, m.mem, m.L, table, o, f, bytes);
    assert m.State() == WithFrame(s1, f, PutWord(s1.tables.mem[f], wr, location));
  }

  /** `find_free_virtaddr`, `map_page`, and the address in the page. */
  method RequestPage(m: Machine, sdt: Word, table: Word, ghost o: nat, ghost f: FrameNo, ghost bytes: nat)
    returns (location: Word)
    requires m.Valid() && K.MapReady(m.L, m.State()) && Array(m.mem, m.L, table, o, f, bytes)
    modifies m`mem, m`tlb, m`pdes, m`kernelPtIndex, m`slots, m`curVirtaddrIdx, m.virtualMmap
    ensures m.Valid() && Array(m.mem, m.L, table, o, f, bytes) && m.mem[f] == old(m.mem)[f]
    ensures m.State() == K.FindAndMap(m.L, old(m.State()), FrameOf(sdt))
    ensures location == Seen(old(NextPage(m.State())), sdt)
  {
    ghost var s, p := m.State(), NextPage(m.State());
    RequestKeeps(m.L, s, m.slots, FrameOf(sdt), table, o, f, bytes);
    MaskPhysical(sdt);
    var page := m.FindAndMap(And(sdt, 0xFFFF_F000));
    assert m.State() == K.FindAndMap(m.L, s, FrameOf(sdt));
    SeenOffset(page, p, sdt);
    location := WithOffset(page, sdt);
  }

  lemma SeenOffset(page: Word, p: PageNo, sdt: Word)
    requires page == p * 0x1000
    ensures page % 0x1000 == 0 && WithOffset(page, sdt) == Seen(p, sdt)
  {
    AddressSplit(sdt);
  }

  lemma RequestKeeps(L: Layout, s: K.State, slots: seq<Index>, frame: FrameNo, table: Word, o: nat, f: FrameNo,
                     bytes: nat)
    requires K.Good(L, s, slots) && K.MapReady(L, s) && Array(s.tables.mem, L, table, o, f, bytes)
    ensures var m' := K.FindAndMap(L, s, frame).tables.mem;
            Array(m', L, table, o, f, bytes) && m'[f] == s.tables.mem[f]
  {
    U.MapKeeps(L, s, slots, frame);
    U.MapAdds(L, s, slots, NextPage(s), frame);
    ArrayKept(s.tables.mem, K.FindAndMap(L, s, frame).tables.mem, L, table, o, f, bytes);
  }

  /** One iteration: the table is mapped, the pointer replaced and read back, the signature loaded. */
  method RewriteOne(m: Machine, table: Word, src: nat, dst: nat, ghost o: nat, ghost f: FrameNo, ghost bytes: nat,
                    ghost rd: nat, ghost wr: nat, ghost w: Word, ghost fr: Frame, ghost left: nat)
    requires m.Valid() && Roomy(m.State(), m.slots, left + 1) && Array(m.mem, m.L, table, o, f, bytes)
    requires src + 4 <= bytes && dst + 4 <= bytes && rd == o + src && wr == o + dst && w == WordAt(m.mem[f], rd)
    requires K.PageLeft(m.State()) && fr == PutWord(m.mem[f], wr, Seen(NextPage(m.State()), w))
    modifies m, m.virtualMmap
    ensures m.Valid() && Roomy(m.State(), m.slots, left) && Array(m.mem, m.L, table, o, f, bytes)
    ensures IterateReady(m.L, old(m.State()), w, f, fr) && m.State() == Iterate(m.L, old(m.State()), w, f, fr)
  {
    ghost var s := m.State();
    ghost var slots' := IterateRoomy(m.L, s, m.slots, w, f, fr, left);
    ghost var s1, p := MapAndStore(m.L, s, w, f, fr), NextPage(s);
    MappedPage(m.L, s, m.slots, w, f, fr);
    var location := MapAndWrite(m, table, src, dst, o, f, bytes, rd, wr, w);
    ReadBack(s.tables.mem[f], wr, location);
    Finishes(m, table, dst, location, p, PageBehind(s), o, f, bytes, wr, w, s1);
    SameRoom(m.L, m.State(), slots', m.slots, left);
  }

  lemma MappedPage(L: Layout, s: K.State, slots: seq<Index>, w: Word, f: FrameNo, fr: Frame)
    requires K.Good(L, s, slots) && K.MapReady(L, s) && !L.Reserved(f)
    ensures NextPage(s) in K.Pages(L, MapAndStore(L, s, w, f, fr))
  {
    MapAndStoreKeeps(L, s, slots, w, f, fr);
  }

  lemma ReadBack(fr: Frame, wr: nat, v: Word)
    requires wr <= 0xFFC
    ensures WordAt(PutWord(fr, wr, v), wr) == v
  {
    PutWordAt(fr, wr, v, wr);
  }

  lemma SameRoom(L: Layout, s: K.State, a: seq<Index>, b: seq<Index>, left: nat)
    requires K.Good(L, s, a) && K.Good(L, s, b) && Roomy(s, a, left)
    ensures Roomy(s, b, left)
  {
    SlotsUnique(L, s.tables.mem, a, b);
  }

  /** The pointer is read back and the signature behind it loaded. */
  method Finishes(m: Machine, table: Word, dst: nat, ghost location: Word, ghost p: PageNo, ghost q: PageNo,
                  ghost o: nat, ghost f: FrameNo, ghost bytes: nat, ghost wr: nat, ghost w: Word, ghost s: K.State)
    requires m.Valid() && s == m.State() && Array(m.mem, m.L, table, o, f, bytes) && dst + 4 <= bytes && wr == o + dst
    requires WordAt(m.mem[f], wr) == location == Seen(p, w) && p < K.WINDOW && q == p + 1 && p in K.Pages(m.L, s)
    requires FinishReady(m.L, s, w, q)
    modifies m`mem, m`tlb, m`pdes, m`kernelPtIndex, m`slots, m`curPhysaddr
    ensures m.Valid() && Array(m.mem, m.L, table, o, f, bytes) && m.State() == Finish(m.L, s, w, q)
  {
    EntryKeepsArray(m.L, s, m.slots, w, q, table, o, f, bytes);
    var sdt := ReadAt(m, table, dst, o, f, bytes, wr);
    assert m.State() == s;
    LoadSignature(m, sdt, w, p, q, s);
  }

  lemma EntryKeepsArray(L: Layout, s: K.State, slots: seq<Index>, w: Word, q: PageNo, table: Word, o: nat,
                        f: FrameNo, bytes: nat)
    requires K.Good(L, s, slots) && FinishReady(L, s, w, q) && Array(s.tables.mem, L, table, o, f, bytes)
    ensures Array(Finish(L, s, w, q).tables.mem, L, table, o, f, bytes)
  {
    FinishKeeps(L, s, slots, w, q, f);
    ArrayKept(s.tables.mem, Finish(L, s, w, q).tables.mem, L, table, o, f, bytes);
  }

  /** What the loop knows before iteration e: the trace so far ends in the state `now`, in which the frame is
      filled up to e and e pages were granted. */
  ghost predicate InLoop(L: Layout, R: Loop, trace: seq<K.State>, now: K.State, e: nat) {
    && IsTrace(L, R, trace) && |trace| == e + 1 && trace[e] == now
    && now.tables.mem[R.f] == R.frames[e] && now.alloc == AllocAfter(trace[0].alloc, e)
  }

  lemma LoopStarts(L: Layout, R: Loop, s: K.State)
    requires L.Valid() && R.Valid(L) && s.tables.mem[R.f] == R.frames[0]
    ensures InLoop(L, R, [s], s, 0)
  {
  }

  lemma LoopGoesOn(L: Layout, R: Loop, trace: seq<K.State>, s: K.State, slots: seq<Index>, e: nat)
    requires InLoop(L, R, trace, s, e) && K.Good(L, s, slots) && e < R.n() && EntryReady(L, R, s, e)
    ensures InLoop(L, R, trace + [Iteration(L, R, s, e)], Iteration(L, R, s, e), e + 1)
  {
    EntryEnd(L, R, s, slots, e);
    TraceAppend(L, R, trace, Iteration(L, R, s, e));
  }

  /** The loop is over the pointers of the array at off, and fills it with their new words. */
  ghost predicate LoopOver(R: Loop, off: nat, wide: bool, a: Allocator) {
    && Fills(R.frames, off, NewWords(a, R.was)) && off + Slot(wide, R.n()) <= 0x1000
    && R.was == Pointers(R.frames[0], off, wide, R.n())
  }

  /** Both rewriting loops of `init_rsdt`. Pointer e is read at its slot, its table mapped, the new pointer
      written at 4 * e, and the signature behind it loaded. The states passed through are those of `IsTrace`,
      for all pointers, whether their signatures run over a page or not. */
  method RewritePointers(m: Machine, table: Word, n: nat, wide: bool, ghost o: nat, ghost R: Loop)
    returns (ghost trace: seq<K.State>)
    requires m.Valid() && Roomy(m.State(), m.slots, n) && Array(m.mem, m.L, table, o, R.f, HEADER + Slot(wide, n))
    requires |R.was| == n && R.Valid(m.L) && LoopOver(R, o + HEADER, wide, m.Alloc()) && m.mem[R.f] == R.frames[0]
    modifies m, m.virtualMmap
    ensures m.Valid() && Array(m.mem, m.L, table, o, R.f, HEADER + Slot(wide, n))
    ensures IsTrace(m.L, R, trace) && |trace| == n + 1 && trace[0] == old(m.State()) && trace[n] == m.State()
  {
    ghost var s, bytes := m.State(), HEADER + Slot(wide, n);
    LoopStarts(m.L, R, s);
    trace := [s];
    for entry := 0 to n
      invariant m.Valid() && Roomy(m.State(), m.slots, n - entry) && Array(m.mem, m.L, table, o, R.f, bytes)
      invariant InLoop(m.L, R, trace, m.State(), entry) && trace[0] == s
    {
      ghost var before, slots := m.State(), m.slots;
      RewriteEntry(m, table, entry, wide, o, R, bytes, s.alloc);
      LoopGoesOn(m.L, R, trace, before, slots, entry);
      trace := trace + [m.State()];
    }
  }

  /** One iteration, as the loop sees it. */
  method RewriteEntry(m: Machine, table: Word, entry: nat, wide: bool, ghost o: nat, ghost R: Loop, ghost bytes: nat,
                      ghost a: Allocator)
    requires m.Valid() && R.Valid(m.L) && entry < R.n() && Roomy(m.State(), m.slots, R.n() - entry)
    requires Array(m.mem, m.L, table, o, R.f, bytes) && bytes == HEADER + Slot(wide, R.n())
    requires LoopOver(R, o + HEADER, wide, a) && m.mem[R.f] == R.frames[entry] && m.Alloc() == AllocAfter(a, entry)
    modifies m, m.virtualMmap
    ensures m.Valid() && Roomy(m.State(), m.slots, R.n() - entry - 1) && Array(m.mem, m.L, table, o, R.f, bytes)
    ensures EntryReady(m.L, R, old(m.State()), entry) && m.State() == Iteration(m.L, R, old(m.State()), entry)
  {
    ghost var rd, wr := EntryStart(m.L, R, o + HEADER, wide, a, m.State(), m.slots, entry);
    RewriteNext(m, table, entry, wide, o, R, bytes, rd, wr);
  }

  method RewriteNext(m: Machine, table: Word, entry: nat, wide: bool, ghost o: nat, ghost R: Loop, ghost bytes: nat,
                     ghost rd: nat, ghost wr: nat)
    requires m.Valid() && R.Valid(m.L) && entry < R.n() && Roomy(m.State(), m.slots, R.n() - entry)
    requires Array(m.mem, m.L, table, o, R.f, bytes) && bytes == HEADER + Slot(wide, R.n())
    requires rd == o + HEADER + Slot(wide, entry) && wr == o + HEADER + 4 * entry
    requires m.mem[R.f] == R.frames[entry] && WordAt(R.frames[entry], rd) == R.was[entry] && K.PageLeft(m.State())
    requires R.frames[entry + 1] == PutWord(R.frames[entry], wr, Seen(NextPage(m.State()), R.was[entry]))
    modifies m, m.virtualMmap
    ensures m.Valid() && Roomy(m.State(), m.slots, R.n() - entry - 1) && Array(m.mem, m.L, table, o, R.f, bytes)
    ensures EntryReady(m.L, R, old(m.State()), entry) && m.State() == Iteration(m.L, R, old(m.State()), entry)
  {
    RewriteOne(m, table, HEADER + Slot(wide, entry), HEADER + 4 * entry, o, R.f, bytes, rd, wr,
               R.was[entry], R.frames[entry + 1], R.n() - entry - 1);
  }

  lemma TheLoop(L: Layout, s: K.State, f: FrameNo, off: nat, wide: bool, was: seq<Word>) returns (R: Loop)
    requires off + Slot(wide, |was|) <= 0x1000 && !L.Reserved(f) && was == Pointers(s.tables.mem[f], off, wide, |was|)
    ensures R.Valid(L) && R.f == f && R.was == was && R.frames[0] == s.tables.mem[f] && LoopOver(R, off, wide, s.alloc)
  {
    R := LoopOf(s, f, off, was);
    FillingsFill(s.tables.mem[f], off, NewWords(s.alloc, was));
  }

  /** Iteration e finds its pointer unread, and what it writes is what the loop says. */
  lemma EntryStart(L: Layout, R: Loop, off: nat, wide: bool, a: Allocator, now: K.State, slots: seq<Index>, e: nat)
    returns (rd: nat, wr: nat)
    requires e < R.n() && LoopOver(R, off, wide, a) && now.alloc == AllocAfter(a, e)
    requires K.Good(L, now, slots) && Roomy(now, slots, R.n() - e)
    ensures rd == off + Slot(wide, e) && wr == off + 4 * e && K.PageLeft(now) && WordAt(R.frames[e], rd) == R.was[e]
    ensures R.frames[e + 1] == PutWord(R.frames[e], wr, Seen(NextPage(now), R.was[e]))
  {
    rd, wr := off + Slot(wide, e), off + 4 * e;
    RoomyStep(L, now, slots, 0, R.n() - e);
    EntryFrames(R, off, wide, a, e, rd, wr);
    assert NewWords(a, R.was)[e] == Seen(Granted(a, e), R.was[e]);
  }

  lemma EntryFrames(R: Loop, off: nat, wide: bool, a: Allocator, e: nat, rd: nat, wr: nat)
    requires e < R.n() && LoopOver(R, off, wide, a) && rd == off + Slot(wide, e) && wr == off + 4 * e
    ensures WordAt(R.frames[e], rd) == R.was[e]
    ensures R.frames[e + 1] == PutWord(R.frames[e], wr, NewWords(a, R.was)[e])
  {
    var words := NewWords(a, R.was);
    EntryUnread(R.frames, off, wide, words, e, rd);
    EntryWrites(R.frames, off, words, e, wr);
  }

  lemma EntryUnread(frames: seq<Frame>, off: nat, wide: bool, words: seq<Word>, e: nat, rd: nat)
    requires Fills(frames, off, words) && e < |words| && off + Slot(wide, |words|) <= 0x1000 &&
             rd == off + Slot(wide, e)
    ensures WordAt(frames[e], rd) == Pointer(frames[0], off, wide, e)
  {
    FilledUnread(frames, off, wide, words, e, e);
  }

  lemma EntryWrites(frames: seq<Frame>, off: nat, words: seq<Word>, e: nat, wr: nat)
    requires Fills(frames, off, words) && e < |words| && wr == off + 4 * e
    ensures frames[e + 1] == PutWord(frames[e], wr, words[e])
  {
  }

  lemma EntryEnd(L: Layout, R: Loop, s: K.State, slots: seq<Index>, e: nat)
    requires K.Good(L, s, slots) && R.Valid(L) && e < R.n() && EntryReady(L, R, s, e)
    ensures var s' := Iteration(L, R, s, e);
            s'.tables.mem[R.f] == R.frames[e + 1] && s'.alloc == s.alloc.Find().1
  {
    IterateKeeps(L, s, slots, R.was[e], R.f, R.frames[e + 1]);
  }

  // ----- init_rsdt -----

  /** `(length - sizeof(header)) / 8` or `/ 4`. */
  function Entries(length: Word, wide: bool): nat
    requires length >= HEADER
  {
    if wide then (length - HEADER) / 8 else (length - HEADER) / 4
  }

  /** Field `length` of a table header at offset o. */
  function Length(fr: Frame, o: nat): Word
    requires o + HEADER <= 0x1000
  {
    WordAt(fr, o + 4)
  }

  lemma LengthAt(fr: Frame, o: nat, rd: nat)
    requires o + HEADER <= 0x1000 && rd == o + 4
    ensures WordAt(fr, rd) == Length(fr, o)
  {
  }

  /** A root table with n pointers at offset o of frame f: the frame holds neither page tables nor the paging
      code's variables, the length covers the header, and the pointers do not run over the end of the page. */
  ghost predicate RootTable(m: Memory, L: Layout, f: FrameNo, o: nat, wide: bool, n: nat) {
    && !L.Reserved(f) && o + HEADER + Slot(wide, n) <= 0x1000
    && Length(m[f], o) >= HEADER && n == Entries(Length(m[f], o), wide)
  }

  /** `find_RSDP` and `find_RSDT`. */
  method LocateRoot(search: Search, ghost i: nat, ghost r: nat) returns (rsdtPhysaddr: Word)
    requires search.Ready() && search.HasLiteral() && Searchable(search.read, search.mapped) &&
             IsFirst(search.read, i, r)
    modifies search`acpiVersion, search.m`tlb, search.m`pdes
    ensures search.Ready()
    ensures search.acpiVersion == Revised(search.read, r)
    ensures rsdtPhysaddr == RootAddress(search.read, r)
  {
    var rsdp := search.FindRsdp();
    FoundFirst(search.read, i, r, rsdp);
    FoundReadable(search.read, search.mapped, i, r);
    rsdtPhysaddr := search.FindRsdt(rsdp);
  }

  lemma FoundReadable(read: Bytes, mapped: nat -> bool, i: nat, r: nat)
    requires Searchable(read, mapped) && IsFirst(read, i, r)
    ensures Range(mapped, r, RecordLength(read, r))
  {
    SliceStarts(read, r);
  }

  lemma FoundFirst(read: Bytes, i: nat, r: nat, rsdp: nat)
    requires IsFirst(read, i, r)
    requires rsdp == 0 <==> NoneBefore(read, 0, CANDIDATES)
    requires rsdp != 0 ==> exists j :: IsFirst(read, j, rsdp)
    ensures rsdp == r && r % 16 == 0
  {
    CandidateAt(read, i);
    var j :| IsFirst(read, j, rsdp);
    FirstUnique(read, i, r, j, rsdp);
  }

  /** Without a root pointer `find_RSDP` answers NULL, and `find_RSDT` reads a record at address 0: the first
      load faults a demand frame in, whatever bytes that frame holds are taken for the record, and `ACPI_version`
      is what the last failed candidate left. */
  method LocateNothing(search: Search) returns (rsdtPhysaddr: Word)
    requires search.m.Valid() && search.Ready() && search.HasLiteral() && Searchable(search.read, search.mapped)
    requires NoneBefore(search.read, 0, CANDIDATES) && K.FaultReady(search.m.L, search.m.State(), 15)
    modifies search`acpiVersion, search.m`mem, search.m`tlb, search.m`pdes, search.m`kernelPtIndex, search.m`slots,
             search.m`curPhysaddr
    ensures search.m.Valid() && search.m.State() == K.HandleFault(search.m.L, old(search.m.State()), 15)
    ensures WalkPage(search.m.mem, search.m.L.pd, 0) == Some(Leaf(FrameOf(old(search.m.curPhysaddr)), true))
    ensures rsdtPhysaddr == RecordAt(search.m.mem[FrameOf(old(search.m.curPhysaddr))])
    ensures var fr := search.m.mem[old(search.m.curPhysaddr) / 0x1000];
            rsdtPhysaddr == if fr[3] / 0x100_0000 == 0 then fr[4] else fr[6]
  {
    ghost var m, s := search.m, search.m.State();
    var rsdp := search.FindRsdp();
    assert m.State() == s;
    ghost var f := FrameOf(search.m.curPhysaddr);
    rsdtPhysaddr := NullRecord(search.m, 15, f);
    RecordWords(search.m.mem[f]);
  }

  /** Byte 15 is the highest of word 3; the fields at 16 and 24 are words 4 and 6. */
  lemma RecordWords(fr: Frame)
    ensures RecordAt(fr) == if fr[3] / 0x100_0000 == 0 then fr[4] else fr[6]
  {
    LittleEndian(fr, 3);
    AlignedRead(fr, 4);
    AlignedRead(fr, 6);
  }

  /** The loads of the record at address 0, the first of them at byte 15. */
  method NullRecord(m: Machine, va: Word, ghost f: FrameNo) returns (r: Word)
    requires m.Valid() && K.FaultReady(m.L, m.State(), va) && PageOf(va) == 0 && va % 0x1000 == 15
    requires f == FrameOf(m.curPhysaddr)
    modifies m`mem, m`tlb, m`pdes, m`kernelPtIndex, m`slots, m`curPhysaddr
    ensures m.Valid() && m.State() == K.HandleFault(m.L, old(m.State()), va)
    ensures WalkPage(m.mem, m.L.pd, 0) == Some(Leaf(f, true)) && r == RecordAt(m.mem[f])
  {
    NullFault(m.L, m.State(), m.slots, va);
    ghost var s' := K.HandleFault(m.L, m.State(), va);
    var revision := m.Touch(va);
    assert m.State() == s';
    NullByte(m.mem, m.L, va, f);
    r := ReadRecord(m, revision, f);
  }

  lemma NullByte(m: Memory, L: Layout, va: Word, f: FrameNo)
    requires PageOf(va) == 0 && va % 0x1000 == 15 && WalkPage(m, L.pd, 0) == Some(Leaf(f, true))
    ensures ByteSeen(m, L.pd, va) == ByteAt(m[f], 15)
  {
  }

  method ReadRecord(m: Machine, revision: Byte, ghost f: FrameNo) returns (r: Word)
    requires m.TablesValid() && WalkPage(m.mem, m.L.pd, 0) == Some(Leaf(f, true)) && revision == ByteAt(m.mem[f], 15)
    modifies m`tlb, m`pdes
    ensures m.TablesValid() && r == RecordAt(m.mem[f])
  {
    if revision == 0 {
      r := m.LoadData(16, f, 16);
    } else {
      r := m.LoadData(24, f, 24);
    }
  }

  /** What a frame mapped at address 0 gives as the root table's address. */
  function RecordAt(fr: Frame): Word {
    if ByteAt(fr, 15) == 0 then WordAt(fr, 16) else WordAt(fr, 24)
  }

  lemma NullFault(L: Layout, s: K.State, slots: seq<Index>, va: Word)
    requires K.Good(L, s, slots) && K.FaultReady(L, s, va) && PageOf(va) == 0
    ensures WalkPage(s.tables.mem, L.pd, PageOf(va)) == None
    ensures WalkPage(K.HandleFault(L, s, va).tables.mem, L.pd, 0) == Some(Leaf(FrameOf(s.phys), true))
  {
    U.FaultProgress(L, s, slots, va);
  }

  /** The words of the array are as given, and four bytes can be read behind each. */
  ghost predicate Holds(L: Layout, s: K.State, f: FrameNo, off: nat, words: seq<Word>) {
    && off + 4 * |words| <= 0x1000
    && forall e {:trigger HoldsWord(L, s, f, off, words, e)} | 0 <= e < |words| :: HoldsWord(L, s, f, off, words, e)
  }

  ghost predicate HoldsWord(L: Layout, s: K.State, f: FrameNo, off: nat, words: seq<Word>, e: nat)
    requires e < |words| && off + 4 * |words| <= 0x1000
  {
    Pointer(s.tables.mem[f], off, false, e) == words[e] && FourReadable(L, s, words[e])
  }

  /** What the loop leaves, from state s to s': the new words in their places, with readable signatures; and,
      when no table spills, words that lead to all the original tables, and a covering index. */
  ghost predicate Rewritten(L: Layout, s: K.State, s': K.State, f: FrameNo, off: nat, was: seq<Word>) {
    && Holds(L, s', f, off, NewWords(s.alloc, was))
    && (Q.Covered(L, s) && NoSpill(s.alloc, was, |was|) ==> SoundAt(L, s.alloc, was, s', |was|))
    && (Q.Covered(L, s) && Apart(s.phys, was) ==>
          (SoundAt(L, s.alloc, was, s', |was|) <==> NoSpill(s.alloc, was, |was|)))
  }

  lemma LoopRewrites(L: Layout, R: Loop, off: nat, wide: bool, trace: seq<K.State>)
    requires Trace(L, R, trace) && |trace| == R.n() + 1 && LoopOver(R, off, wide, trace[0].alloc)
    requires trace[0].tables.mem[R.f] == R.frames[0]
    ensures Rewritten(L, trace[0], trace[R.n()], R.f, off, R.was)
  {
    LoopHolds(L, R, off, trace);
    if Q.Covered(L, trace[0]) {
      LoopSound(L, R, trace);
    }
  }

  lemma LengthStays(L: Layout, R: Loop, o: nat, wide: bool, trace: seq<K.State>)
    requires Trace(L, R, trace) && |trace| == R.n() + 1 && LoopOver(R, o + HEADER, wide, trace[0].alloc)
    requires trace[0].tables.mem[R.f] == R.frames[0]
    ensures Length(trace[R.n()].tables.mem[R.f], o) == Length(trace[0].tables.mem[R.f], o)
  {
    LengthFilled(R.frames, o, NewWords(trace[0].alloc, R.was));
    FrameAtEnd(L, R, trace);
  }

  lemma LoopHolds(L: Layout, R: Loop, off: nat, trace: seq<K.State>)
    requires Trace(L, R, trace) && |trace| == R.n() + 1 && trace[0].tables.mem[R.f] == R.frames[0]
    requires Fills(R.frames, off, NewWords(trace[0].alloc, R.was))
    ensures Holds(L, trace[R.n()], R.f, off, NewWords(trace[0].alloc, R.was))
  {
    var words, n := NewWords(trace[0].alloc, R.was), R.n();
    FrameAtEnd(L, R, trace);
    forall e | 0 <= e < n
      ensures HoldsWord(L, trace[n], R.f, off, words, e)
    {
      FilledWord(R.frames, off, words, n, e);
      TraceReadable(L, R, trace, n, e);
    }
  }

  lemma LoopSound(L: Layout, R: Loop, trace: seq<K.State>)
    requires Trace(L, R, trace) && |trace| == R.n() + 1 && Q.Covered(L, trace[0])
    ensures NoSpill(trace[0].alloc, R.was, R.n()) ==> SoundAt(L, trace[0].alloc, R.was, trace[R.n()], R.n())
    ensures Apart(trace[0].phys, R.was) ==>
              (SoundAt(L, trace[0].alloc, R.was, trace[R.n()], R.n()) <==> NoSpill(trace[0].alloc, R.was, R.n()))
  {
    RewriteExactly(L, R, trace, R.n());
    if SoundThrough(L, R, trace, R.n()) {
      assert SoundAt(L, trace[0].alloc, R.was, trace[R.n()], R.n());
    }
    if Apart(trace[0].phys, R.was) {
      RewrittenExactly(L, R, trace);
    }
  }

  /** The part of `init_rsdt` behind the search: the root table is mapped where first fit says, and its
      pointers are rewritten. s is the state with the root table mapped. */
  method InitRootTable(m: Machine, rsdtPhysaddr: Word, acpiVersion: bool, ghost f: FrameNo, ghost o: nat,
                       ghost was: seq<Word>)
    returns (table: Word, entries: nat, ghost s: K.State)
    requires m.Valid() && Q.Covered(m.L, m.State()) && Roomy(m.State(), m.slots, |was| + 1)
    requires f == FrameOf(rsdtPhysaddr) && o == rsdtPhysaddr % 0x1000 && RootTable(m.mem, m.L, f, o, acpiVersion, |was|)
    requires was == Pointers(m.mem[f], o + HEADER, acpiVersion, |was|)
    modifies m, m.virtualMmap
    ensures m.Valid() && entries == |was| && Array(m.mem, m.L, table, o, f, HEADER + Slot(acpiVersion, |was|))
    ensures K.MapReady(m.L, old(m.State())) && s == K.FindAndMap(m.L, old(m.State()), f) && Q.Covered(m.L, s)
    ensures Rewritten(m.L, s, m.State(), f, o + HEADER, was)
    ensures Length(m.mem[f], o) == Length(old(m.mem)[f], o)
  {
    table, entries := MapRootTable(m, rsdtPhysaddr, acpiVersion, f, o, |was|);
    s := m.State();
    RewriteAll(m, table, entries, acpiVersion, o, f, was);
  }

  method RewriteAll(m: Machine, table: Word, n: nat, wide: bool, ghost o: nat, ghost f: FrameNo, ghost was: seq<Word>)
    requires m.Valid() && Roomy(m.State(), m.slots, n) && Array(m.mem, m.L, table, o, f, HEADER + Slot(wide, n))
    requires |was| == n && was == Pointers(m.mem[f], o + HEADER, wide, n)
    modifies m, m.virtualMmap
    ensures m.Valid() && Array(m.mem, m.L, table, o, f, HEADER + Slot(wide, n))
    ensures Rewritten(m.L, old(m.State()), m.State(), f, o + HEADER, was)
    ensures Length(m.mem[f], o) == Length(old(m.mem)[f], o)
  {
    ghost var R := TheLoop(m.L, m.State(), f, o + HEADER, wide, was);
    RewriteTable(m, table, n, wide, o, R);
  }

  /** The root table is mapped and its entries are counted. */
  method MapRootTable(m: Machine, rsdtPhysaddr: Word, acpiVersion: bool, ghost f: FrameNo, ghost o: nat, ghost n: nat)
    returns (table: Word, entries: nat)
    requires m.Valid() && Q.Covered(m.L, m.State()) && Roomy(m.State(), m.slots, n + 1)
    requires f == FrameOf(rsdtPhysaddr) && o == rsdtPhysaddr % 0x1000 && RootTable(m.mem, m.L, f, o, acpiVersion, n)
    modifies m, m.virtualMmap
    ensures m.Valid() && Q.Covered(m.L, m.State()) && Roomy(m.State(), m.slots, n)
    ensures entries == n && Array(m.mem, m.L, table, o, f, HEADER + Slot(acpiVersion, n)) && m.mem[f] == old(m.mem)[f]
    ensures K.MapReady(m.L, old(m.State())) && m.State() == K.FindAndMap(m.L, old(m.State()), f)
  {
    table := MapTable(m, rsdtPhysaddr, n);
    ghost var s := m.State();
    MappedArray(m.mem, m.L, table, rsdtPhysaddr, f, o, HEADER + Slot(acpiVersion, n));
    entries := ReadEntries(m, table, acpiVersion, o, f, n);
    assert m.State() == s;
  }

  method RewriteTable(m: Machine, table: Word, n: nat, wide: bool, ghost o: nat, ghost R: Loop)
    requires m.Valid() && Roomy(m.State(), m.slots, n) && Array(m.mem, m.L, table, o, R.f, HEADER + Slot(wide, n))
    requires |R.was| == n && R.Valid(m.L) && LoopOver(R, o + HEADER, wide, m.Alloc()) && m.mem[R.f] == R.frames[0]
    modifies m, m.virtualMmap
    ensures m.Valid() && Array(m.mem, m.L, table, o, R.f, HEADER + Slot(wide, n))
    ensures Rewritten(m.L, old(m.State()), m.State(), R.f, o + HEADER, R.was)
    ensures Length(m.mem[R.f], o) == Length(old(m.mem)[R.f], o)
  {
    ghost var s, slots := m.State(), m.slots;
    assert Start(m.L, R, s, slots);
    ghost var trace := RewritePointers(m, table, n, wide, o, R);
    Outcome(m.L, R, o, wide, trace, slots, s, m.State());
  }

  lemma Outcome(L: Layout, R: Loop, o: nat, wide: bool, trace: seq<K.State>, slots: seq<Index>, s: K.State, s': K.State)
    requires IsTrace(L, R, trace) && |trace| == R.n() + 1 && trace[0] == s && trace[R.n()] == s'
    requires Start(L, R, s, slots) && LoopOver(R, o + HEADER, wide, s.alloc)
    ensures Rewritten(L, s, s', R.f, o + HEADER, R.was)
    ensures Length(s'.tables.mem[R.f], o) == Length(s.tables.mem[R.f], o)
  {
    TraceMeans(L, R, trace, slots);
    LoopRewrites(L, R, o + HEADER, wide, trace);
    LengthStays(L, R, o, wide, trace);
  }

  lemma FrameAtEnd(L: Layout, R: Loop, trace: seq<K.State>)
    requires Trace(L, R, trace) && |trace| == R.n() + 1 && trace[0].tables.mem[R.f] == R.frames[0]
    ensures trace[R.n()].tables.mem[R.f] == R.frames[R.n()]
  {
    if R.n() > 0 {
      StepExtends(L, R, trace, R.n() - 1);
    }
  }

  lemma LengthFilled(frames: seq<Frame>, o: nat, words: seq<Word>)
    requires Fills(frames, o + HEADER, words)
    ensures Length(frames[|words|], o) == Length(frames[0], o)
  {
    FilledBefore(frames, o + HEADER, words, |words|, o + 4);
  }

  /** `init_rsdt`: the root pointer is searched for, the root table it names is mapped, and the table's
      pointers are rewritten. Address and layout of the root table both come from the first root
      pointer in memory, whatever candidates failed before it. */
  method InitRsdt(search: Search, ghost i: nat, ghost r: nat, ghost f: FrameNo, ghost o: nat, ghost was: seq<Word>)
    returns (table: Word, entries: nat, ghost s: K.State)
    requires search.m.Valid() && Q.Covered(search.m.L, search.m.State()) &&
             Roomy(search.m.State(), search.m.slots, |was| + 1)
    requires search.Ready() && search.HasLiteral() && Searchable(search.read, search.mapped) &&
             IsFirst(search.read, i, r)
    requires f == FrameOf(RootAddress(search.read, r)) && o == RootAddress(search.read, r) % 0x1000
    requires RootTable(search.m.mem, search.m.L, f, o, Revised(search.read, r), |was|)
    requires was == Pointers(search.m.mem[f], o + HEADER, Revised(search.read, r), |was|)
    modifies search`acpiVersion, search.m, search.m.virtualMmap
    ensures search.m.Valid() && search.acpiVersion == Revised(search.read, r) && entries == |was|
    ensures Array(search.m.mem, search.m.L, table, o, f, HEADER + Slot(search.acpiVersion, |was|))
    ensures K.MapReady(search.m.L, old(search.m.State()))
    ensures s == K.FindAndMap(search.m.L, old(search.m.State()), f) && Q.Covered(search.m.L, s)
    ensures Rewritten(search.m.L, s, search.m.State(), f, o + HEADER, was)
    ensures Length(search.m.mem[f], o) == Length(old(search.m.mem)[f], o)
  {
    ghost var m, s0 := search.m, search.m.State();
    var rsdtPhysaddr := LocateRoot(search, i, r);
    assert m.State() == s0;
    table, entries, s := InitRootTable(search.m, rsdtPhysaddr, search.acpiVersion, f, o, was);
  }

  method ReadEntries(m: Machine, table: Word, wide: bool, ghost o: nat, ghost f: FrameNo, ghost n: nat)
    returns (entries: nat)
    requires m.TablesValid() && RootTable(m.mem, m.L, f, o, wide, n) &&
             Array(m.mem, m.L, table, o, f, HEADER + Slot(wide, n))
    modifies m`tlb, m`pdes
    ensures m.TablesValid() && entries == n
  {
    var length := ReadAt(m, table, 4, o, f, HEADER + Slot(wide, n), o + 4);
    LengthAt(m.mem[f], o, o + 4);
    entries := Entries(length, wide);
  }

  lemma MappedArray(m: Memory, L: Layout, va: Word, phys: Word, f: FrameNo, o: nat, bytes: nat)
    requires WalkPage(m, L.pd, PageOf(va)) == Some(Leaf(f, true)) && va % 0x1000 == phys % 0x1000 == o
    requires f == FrameOf(phys) && !L.Reserved(f) && o + bytes <= 0x1000
    ensures Array(m, L, va, o, f, bytes)
  {
  }
}
